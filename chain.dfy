/** lab2: the truncated hash, the salted reduction and the chain step
 *  `x |-> ret_hash(R(r, x), 16)` that both table construction and search
 *  iterate. */
module Chain {
  import opened PyBytes
  import opened Ripemd160
  import opened Wrappers

  /** Bits kept of each digest inside a chain. */
  const HASH_OUTPUT_SIZE: nat := 16

  /** Bytes of a chain value: 16 / 8. */
  const HASH_BYTES: nat := HASH_OUTPUT_SIZE / 8

  /** `ret_hash(msg, _trunc)` of lab2: the first `_trunc // 8` bytes of the
   *  digest when `_trunc` is truthy (not None and not 0), else the whole
   *  digest. */
  function TruncatedHash(h: Digest, msg: Bytes, trunc: Option<int>): (d: Bytes)
    ensures |d| <= |h(msg)| && d == h(msg)[..|d|]
    ensures (trunc == None || trunc == Some(0)) ==> |d| == |h(msg)|
    ensures trunc.Some? && trunc.value > 0 ==> |d| == Min(trunc.value / 8, |h(msg)|)
    ensures trunc.Some? && trunc.value < 0 ==> |d| == Max(0, |h(msg)| + trunc.value / 8)
  {
    if trunc.Some? && trunc.value != 0 then Prefix(h(msg), trunc.value / 8) else h(msg)
  }

  /** `R(r, x)`: the reduction is the salt followed by the value. */
  function Reduce(r: Bytes, x: Bytes): (p: Bytes)
    ensures |p| == |r| + |x|
    ensures p[..|r|] == r && p[|r|..] == x
  {
    r + x
  }

  /** Under one salt, different values always reduce to different messages,
   *  so two chains can only meet through a collision of the truncated hash. */
  lemma ReduceInjective(r: Bytes, x: Bytes, x': Bytes)
    requires Reduce(r, x) == Reduce(r, x')
    ensures x == x'
  {
  }

  /** One chain step: `ret_hash(R(r, x), HASH_OUTPUT_SIZE)`, the first two
   *  bytes of the digest of the salted value. */
  function Step(h: Digest, r: Bytes, x: Bytes): (y: Bytes)
    ensures |y| == Min(HASH_BYTES, |h(Reduce(r, x))|) && y == h(Reduce(r, x))[..|y|]
    ensures Is160Bit(h) ==> |y| == HASH_BYTES
  {
    TruncatedHash(h, Reduce(r, x), Some(HASH_OUTPUT_SIZE))
  }

  /** `n` chain steps from `x`. */
  function Iterate(h: Digest, r: Bytes, x: Bytes, n: nat): (y: Bytes)
    ensures n > 0 && Is160Bit(h) ==> |y| == HASH_BYTES
  {
    if n == 0 then x else Step(h, r, Iterate(h, r, x, n - 1))
  }

  /** Walking `a` steps and then `b` more is walking `a + b` steps. */
  lemma {:induction false} IterateAdd(h: Digest, r: Bytes, x: Bytes, a: nat, b: nat)
    ensures Iterate(h, r, Iterate(h, r, x, a), b) == Iterate(h, r, x, a + b)
  {
    if b > 0 {
      IterateAdd(h, r, x, a, b - 1);
    }
  }

  /** Chains that meet stay merged: once two walks reach the same value,
   *  every further step keeps them equal. */
  lemma ChainsStayMerged(h: Digest, r: Bytes, x: Bytes, a: nat, x': Bytes, a': nat, b: nat)
    requires Iterate(h, r, x, a) == Iterate(h, r, x', a')
    ensures Iterate(h, r, x, a + b) == Iterate(h, r, x', a' + b)
  {
    IterateAdd(h, r, x, a, b);
    IterateAdd(h, r, x', a', b);
  }

  /** Chains merge only through a collision: where two walks first agree,
   *  the salted values they came from are two different messages with the
   *  same truncated hash. */
  lemma MergeIsCollision(h: Digest, r: Bytes, x: Bytes, a: nat, x': Bytes, a': nat)
    requires Iterate(h, r, x, a) != Iterate(h, r, x', a')
    requires Iterate(h, r, x, a + 1) == Iterate(h, r, x', a' + 1)
    ensures Reduce(r, Iterate(h, r, x, a)) != Reduce(r, Iterate(h, r, x', a'))
    ensures TruncatedHash(h, Reduce(r, Iterate(h, r, x, a)), Some(HASH_OUTPUT_SIZE)) ==
            TruncatedHash(h, Reduce(r, Iterate(h, r, x', a')), Some(HASH_OUTPUT_SIZE))
  {
    if Reduce(r, Iterate(h, r, x, a)) == Reduce(r, Iterate(h, r, x', a')) {
      ReduceInjective(r, Iterate(h, r, x, a), Iterate(h, r, x', a'));
    }
  }

  /** A chain kept only by its first value and its value after `L` steps. */
  datatype Pair = Pair(start: Bytes, end: Bytes)
}
