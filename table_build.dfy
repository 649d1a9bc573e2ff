/** lab2 `build_table(K, L)`: one salt per table, K chains of length L, kept
 *  as (start, end) pairs sorted by end. The two `random.getrandbits` draws
 *  are parameters: `saltDraw` (112 random bits) and `startDraws` (one
 *  16-bit draw per chain, in the order the loop takes them). */
module TableBuild {
  import opened PyBytes
  import opened Ripemd160
  import opened Chain
  import opened EndOrder

  /** Bits of salt: 128 - HASH_OUTPUT_SIZE. */
  const SALT_BITS: nat := 128 - HASH_OUTPUT_SIZE

  /** Bytes of salt: (128 - HASH_OUTPUT_SIZE) / 8 = 14. */
  const SALT_SIZE: nat := SALT_BITS / 8

  /** Bytes of a chain start: HASH_OUTPUT_SIZE / 8 = 2. */
  const START_SIZE: nat := HASH_OUTPUT_SIZE / 8

  /** A table: its salt and its chains sorted by end. */
  datatype Table = Table(salt: Bytes, chains: seq<Pair>)

  /** What `getrandbits(bits)` can return for a whole number of bytes. */
  predicate DrawsFit(draws: seq<nat>, bytes: nat)
  {
    forall i :: 0 <= i < |draws| ==> draws[i] < Pow256(bytes)
  }

  /** The chain grown from one start draw. */
  function ChainFrom(h: Digest, r: Bytes, draw: nat, L: nat): Pair
    requires draw < Pow256(START_SIZE)
  {
    var x0 := ToBytesBE(draw, START_SIZE);
    Pair(x0, Iterate(h, r, x0, L))
  }

  /** The pairs in the order the loop appends them, before sorting. */
  function Generated(h: Digest, r: Bytes, startDraws: seq<nat>, L: nat): (g: seq<Pair>)
    requires DrawsFit(startDraws, START_SIZE)
    ensures |g| == |startDraws|
  {
    seq(|startDraws|, i requires 0 <= i < |startDraws| => ChainFrom(h, r, startDraws[i], L))
  }

  method BuildTable(h: Digest, K: nat, L: nat, saltDraw: nat, startDraws: seq<nat>) returns (t: Table)
    requires saltDraw < Pow256(SALT_SIZE)
    requires |startDraws| == K && DrawsFit(startDraws, START_SIZE)
    ensures |t.salt| == SALT_SIZE && t.salt == ToBytesBE(saltDraw, SALT_SIZE)
    ensures t.chains == SortByEnd(Generated(h, t.salt, startDraws, L))
    ensures |t.chains| == K
    ensures forall i :: 0 <= i < K ==>
      |t.chains[i].start| == START_SIZE && t.chains[i].end == Iterate(h, t.salt, t.chains[i].start, L)
    ensures SortedByEnd(t.chains)
    ensures multiset(t.chains) == multiset(Generated(h, t.salt, startDraws, L))
    ensures forall k :: WithEnd(t.chains, k) == WithEnd(Generated(h, t.salt, startDraws, L), k)
  {
    var r := ToBytesBE(saltDraw, SALT_SIZE);
    ghost var all := Generated(h, r, startDraws, L);
    var table: seq<Pair> := [];
    for i := 0 to K
      invariant table == all[..i]
    {
      var xi0 := ToBytesBE(startDraws[i], START_SIZE);
      var xiL := xi0;
      for j := 0 to L
        invariant xiL == Iterate(h, r, xi0, j)
      {
        xiL := Step(h, r, xiL);
      }
      table := table + [Pair(xi0, xiL)];
    }
    assert table == all;
    t := Table(r, SortByEnd(table));
    SortByEndSorted(table);
    SortByEndPermutation(table);
    forall k { SortByEndStable(table, k); }
    forall i | 0 <= i < K
      ensures |t.chains[i].start| == START_SIZE && t.chains[i].end == Iterate(h, r, t.chains[i].start, L)
    {
      assert t.chains[i] in multiset(table);
      var k :| 0 <= k < K && table[k] == t.chains[i];
    }
  }
}
