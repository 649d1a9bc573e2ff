/** A concrete table on which `_find_preimage` as written misses a preimage
 *  that lies on a stored chain, while the search that replays against the
 *  target finds it.
 *
 *  The digest is a toy one, chosen so that the steps are easy to follow; the
 *  search never looks inside the hash. It copies the second-to-last byte of
 *  the message and increments the last one, padded to 160 bits, so a chain step
 *  under any salt maps the 2-byte value [a, b] to [a, b + 1]. A table built
 *  with salt draw 0, one start draw 0 and L = 2 holds the chain
 *  [0, 0] -> [0, 1] -> [0, 2]. The target [0, 1] sits one step before the
 *  end: probe 0 ([0, 1]) is no end, probe 1 ([0, 2]) is, and the replay of
 *  L - 1 = 1 step compares Step([0, 0]) = [0, 1] with the probe [0, 2]
 *  rather than with the target, so it gives up although R(r, [0, 0]) hashes
 *  to the target. */
module SearchFinding {
  import opened PyBytes
  import opened Ripemd160
  import opened Wrappers
  import opened Chain
  import opened EndOrder
  import opened TableBuild
  import opened TableSearch

  const COUNTER_DIGEST: Digest :=
    (m: Bytes) => (if |m| >= 2 then [m[|m| - 2], (m[|m| - 1] as int + 1) % 256] else [0, 0]) + seq(18, _ => 0)

  const EXAMPLE_L: nat := 2
  const EXAMPLE_TARGET: Bytes := [0, 1]

  lemma CounterStep(r: Bytes, a: Byte, b: Byte)
    requires b < 255
    ensures Step(COUNTER_DIGEST, r, [a, b]) == [a, b + 1]
  {
    var m := Reduce(r, [a, b]);
    assert m[|m| - 2] == a && m[|m| - 1] == b;
  }

  /** On the example table, the first matching probe is position 1, the
   *  replay as written finds nothing, the replay against the target finds
   *  the salted start, and that value is a true preimage of the target. */
  lemma AsWrittenMissesStoredPreimage(t: Table)
    requires t.chains == [Pair([0, 0], Iterate(COUNTER_DIGEST, t.salt, [0, 0], EXAMPLE_L))]
    ensures Is160Bit(COUNTER_DIGEST)
    ensures FirstMatch(COUNTER_DIGEST, t.salt, Ends(t.chains), EXAMPLE_TARGET, EXAMPLE_L, 0) == Some(1)
    ensures Replay(COUNTER_DIGEST, t.salt, [0, 0], EXAMPLE_L - 1,
                   Iterate(COUNTER_DIGEST, t.salt, EXAMPLE_TARGET, 1), 0) == None
    ensures Replay(COUNTER_DIGEST, t.salt, [0, 0], EXAMPLE_L - 1, EXAMPLE_TARGET, 0) == Some(Reduce(t.salt, [0, 0]))
    ensures TruncatedHash(COUNTER_DIGEST, Reduce(t.salt, [0, 0]), Some(HASH_OUTPUT_SIZE)) == EXAMPLE_TARGET
  {
    var h, r := COUNTER_DIGEST, t.salt;
    CounterStep(r, 0, 0);
    CounterStep(r, 0, 1);
    assert Iterate(h, r, [0, 0], 1) == [0, 1];
    assert Iterate(h, r, [0, 0], 2) == [0, 2];
    assert Ends(t.chains) == {[0, 2]};
    assert Iterate(h, r, EXAMPLE_TARGET, 0) == [0, 1];
    assert Iterate(h, r, EXAMPLE_TARGET, 1) == [0, 2];
    assert FirstMatch(h, r, Ends(t.chains), EXAMPLE_TARGET, EXAMPLE_L, 1) == Some(1);
    assert Iterate(h, r, [0, 0], 0) == [0, 0];
  }

  /** The same example, built and searched by the model's own methods: the table is what
   *  `build_table` produces from draws 0 and [0], the search as written
   *  returns nothing, and the corrected search returns a preimage. */
  method MissedPreimageExample() returns (asWritten: Option<Bytes>, intended: Option<Bytes>)
    ensures asWritten == None
    ensures intended.Some? &&
      TruncatedHash(COUNTER_DIGEST, intended.value, Some(HASH_OUTPUT_SIZE)) == EXAMPLE_TARGET
  {
    var t := BuildTable(COUNTER_DIGEST, 1, EXAMPLE_L, 0, [0]);
    var start := t.chains[0].start;
    assert start == ToBytesBE(0, START_SIZE) == [0, 0];
    AsWrittenMissesStoredPreimage(t);
    var c1, c2;
    c1, asWritten := FindPreimage(COUNTER_DIGEST, EXAMPLE_L, t, EXAMPLE_TARGET);
    c2, intended := FindPreimageIntended(COUNTER_DIGEST, EXAMPLE_L, t, EXAMPLE_TARGET);
  }
}
