/** lab1 `ret_hash(msg, _trunc)`: the lowercase hexadecimal digest, cut to
 *  its first `_trunc // 4` characters when `_trunc` is truthy. */
module HexDigest {
  import opened PyBytes
  import opened Ripemd160
  import opened Wrappers

  predicate IsHexChar(c: char)
  {
    '0' <= c <= '9' || 'a' <= c <= 'f'
  }

  /** The lowercase hexadecimal digit of a nibble. */
  function HexChar(v: int): (c: char)
    requires 0 <= v < 16
    ensures IsHexChar(c)
  {
    if v < 10 then ('0' as int + v) as char else ('a' as int + v - 10) as char
  }

  function HexValue(c: char): (v: int)
    requires IsHexChar(c)
    ensures 0 <= v < 16
  {
    if c <= '9' then c as int - '0' as int else c as int - 'a' as int + 10
  }

  /** `bytes.hex()`, which is what `hexdigest()` returns for the digest: two
   *  characters per byte, high nibble first. */
  function Hex(d: Bytes): (s: string)
    ensures |s| == 2 * |d|
    ensures forall i :: 0 <= i < |s| ==> IsHexChar(s[i])
  {
    if d == [] then [] else [HexChar(d[0] / 16), HexChar(d[0] % 16)] + Hex(d[1..])
  }

  /** `bytes.fromhex` on lowercase digits. */
  function Unhex(s: string): Bytes
    requires |s| % 2 == 0
    requires forall i :: 0 <= i < |s| ==> IsHexChar(s[i])
  {
    if s == [] then [] else [HexValue(s[0]) * 16 + HexValue(s[1])] + Unhex(s[2..])
  }

  /** Decoding the hexadecimal form gives the bytes back. */
  lemma {:induction false} UnhexHex(d: Bytes)
    ensures Unhex(Hex(d)) == d
  {
    if d != [] {
      UnhexHex(d[1..]);
      var s := Hex(d);
      assert s[2..] == Hex(d[1..]);
      assert HexValue(s[0]) * 16 + HexValue(s[1]) == d[0];
    }
  }

  /** Different digests have different hexadecimal forms. */
  lemma HexInjective(a: Bytes, b: Bytes)
    requires Hex(a) == Hex(b)
    ensures a == b
  {
    UnhexHex(a);
    UnhexHex(b);
  }

  /** The first `2 k` hexadecimal characters spell the first `k` bytes. */
  lemma {:induction false} HexPrefix(d: Bytes, k: nat)
    requires k <= |d|
    ensures Hex(d)[..2 * k] == Hex(d[..k])
  {
    if k > 0 {
      HexPrefix(d[1..], k - 1);
      assert d[..k][1..] == d[1..][..k - 1];
    }
  }

  /** lab1 `ret_hash`: the hexadecimal digest when `_trunc` is None or 0,
   *  else Python's `hexdigest()[:_trunc // 4]`. */
  function TruncatedHex(h: Digest, msg: Bytes, trunc: Option<int>): (s: string)
    ensures |s| <= 2 * |h(msg)| && s == Hex(h(msg))[..|s|]
    ensures (trunc == None || trunc == Some(0)) ==> |s| == 2 * |h(msg)|
    ensures trunc.Some? && trunc.value > 0 ==> |s| == Min(trunc.value / 4, 2 * |h(msg)|)
    ensures trunc.Some? && trunc.value < 0 ==> |s| == Max(0, 2 * |h(msg)| + trunc.value / 4)
  {
    if trunc.Some? && trunc.value != 0 then Prefix(Hex(h(msg)), trunc.value / 4) else Hex(h(msg))
  }

  /** Truncating to `8 k` bits keeps the hexadecimal form of the first `k`
   *  digest bytes. */
  lemma TruncatedHexBytes(h: Digest, msg: Bytes, k: nat)
    requires 0 < k <= |h(msg)|
    ensures TruncatedHex(h, msg, Some(8 * k)) == Hex(h(msg)[..k])
  {
    HexPrefix(h(msg), k);
  }

  /** Two messages agree on the `8 k`-bit truncated hash exactly when their
   *  digests agree on the first `k` bytes. */
  lemma SameTruncatedHex(h: Digest, a: Bytes, b: Bytes, k: nat)
    requires 0 < k <= DIGEST_SIZE && Is160Bit(h)
    ensures TruncatedHex(h, a, Some(8 * k)) == TruncatedHex(h, b, Some(8 * k)) <==> h(a)[..k] == h(b)[..k]
  {
    TruncatedHexBytes(h, a, k);
    TruncatedHexBytes(h, b, k);
    if Hex(h(a)[..k]) == Hex(h(b)[..k]) {
      HexInjective(h(a)[..k], h(b)[..k]);
    }
  }
}
