/** The parts of Python's `bytes` and `int` that both labs rely on:
 *  prefix slicing, big-endian integer conversion and byte-string ordering. */
module PyBytes {

  type Byte = b: int | 0 <= b < 256
  type Bytes = seq<Byte>

  function Min(a: int, b: int): int { if a <= b then a else b }
  function Max(a: int, b: int): int { if a >= b then a else b }

  /** Python's `s[:k]`: a negative `k` counts from the end, and a `k` beyond
   *  the end takes the whole sequence. */
  function Prefix<T>(s: seq<T>, k: int): (p: seq<T>)
    ensures |p| == if k >= 0 then Min(k, |s|) else Max(0, |s| + k)
    ensures p == s[..|p|]
  {
    if k >= 0 then (if k <= |s| then s[..k] else s)
    else if |s| + k >= 0 then s[..|s| + k]
    else []
  }

  function Pow256(n: nat): (p: nat)
    ensures p >= 1
  {
    if n == 0 then 1 else 256 * Pow256(n - 1)
  }

  /** `int.from_bytes(s, "big")`. */
  function FromBytesBE(s: Bytes): (v: nat)
    ensures v < Pow256(|s|)
  {
    if s == [] then 0 else FromBytesBE(s[..|s| - 1]) * 256 + s[|s| - 1]
  }

  /** `v.to_bytes(n, "big")`; Python raises OverflowError when `v` does not fit,
   *  which the callers here never provoke. */
  function ToBytesBE(v: nat, n: nat): (s: Bytes)
    requires v < Pow256(n)
    ensures |s| == n
  {
    if n == 0 then [] else ToBytesBE(v / 256, n - 1) + [v % 256]
  }

  /** Converting to `n` big-endian bytes and back gives the number again. */
  lemma {:induction false} FromToBytesBE(v: nat, n: nat)
    requires v < Pow256(n)
    ensures FromBytesBE(ToBytesBE(v, n)) == v
  {
    if n > 0 {
      var s := ToBytesBE(v, n);
      FromToBytesBE(v / 256, n - 1);
      assert s[..n - 1] == ToBytesBE(v / 256, n - 1);
    }
  }

  /** Python's `a < b` on `bytes`: the first differing byte decides, and a
   *  proper prefix is smaller than the longer string. */
  predicate Less(a: Bytes, b: Bytes)
  {
    if a == [] || b == [] then a == [] && b != []
    else if a[0] != b[0] then a[0] < b[0]
    else Less(a[1..], b[1..])
  }

  lemma {:induction false} LessIrreflexive(a: Bytes)
    ensures !Less(a, a)
  {
    if a != [] {
      LessIrreflexive(a[1..]);
    }
  }

  lemma {:induction false} LessAsymmetric(a: Bytes, b: Bytes)
    ensures Less(a, b) ==> !Less(b, a)
  {
    if a != [] && b != [] && a[0] == b[0] {
      LessAsymmetric(a[1..], b[1..]);
    }
  }

  lemma {:induction false} LessTransitive(a: Bytes, b: Bytes, c: Bytes)
    ensures Less(a, b) && Less(b, c) ==> Less(a, c)
  {
    if a != [] && b != [] && c != [] && a[0] == b[0] && b[0] == c[0] {
      LessTransitive(a[1..], b[1..], c[1..]);
    }
  }

  /** Any two byte strings are ordered one way or the other, or equal. */
  lemma {:induction false} LessTrichotomous(a: Bytes, b: Bytes)
    ensures Less(a, b) || a == b || Less(b, a)
  {
    if a != [] && b != [] && a[0] == b[0] {
      LessTrichotomous(a[1..], b[1..]);
      if a[1..] == b[1..] {
        assert a == [a[0]] + a[1..] && b == [b[0]] + b[1..];
      }
    }
  }

  /** A step "at most" followed by a strict step is strict. */
  lemma NotLessThenLess(a: Bytes, b: Bytes, c: Bytes)
    requires !Less(b, a) && Less(b, c)
    ensures Less(a, c)
  {
    LessTrichotomous(a, b);
    if a != b { LessTransitive(a, b, c); }
  }

  /** A strict step followed by a step "at most" is strict. */
  lemma LessThenNotLess(a: Bytes, b: Bytes, c: Bytes)
    requires Less(a, b) && !Less(c, b)
    ensures Less(a, c)
  {
    LessTrichotomous(b, c);
    if b != c { LessTransitive(a, b, c); }
  }

  /** "At most" (`<=` on `bytes`) is transitive. */
  lemma NotLessTransitive(a: Bytes, b: Bytes, c: Bytes)
    requires !Less(b, a) && !Less(c, b)
    ensures !Less(c, a)
  {
    LessTrichotomous(a, b);
    LessTrichotomous(b, c);
    if a != b && b != c { LessTransitive(a, b, c); LessAsymmetric(a, c); }
    else if a != b { LessAsymmetric(a, c); }
    else if b != c { LessAsymmetric(b, c); }
    else { LessIrreflexive(a); }
  }
}
