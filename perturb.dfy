/** lab1 message perturbations. `urandom` is modelled as a finite stream
 *  `rand` of random bytes consumed from the front: `_first_v` draws one byte
 *  (the count) and then that many bytes, `_second_v` draws one byte (the
 *  index) and then one byte (the replacement). A stream that runs dry gives
 *  `OutOfEntropy`, which the source, drawing from the operating system, never
 *  meets. */
module Perturb {
  import opened PyBytes
  import opened Wrappers

  /** The exceptions the perturbations raise, plus the end of the stream. */
  datatype Error =
    | UnknownVariant  // KeyError from the dictionary dispatch
    | EmptyMessage    // ZeroDivisionError from `% len(msg)`
    | OutOfEntropy    // the finite random stream is used up

  /** A perturbed message and how many random bytes it took. */
  datatype Mutation = Mutation(msg: Bytes, used: nat)

  const ZERO_CHAR: Byte := 48

  /** An ASCII decimal digit. */
  predicate IsDigit(b: Byte)
  {
    ZERO_CHAR <= b <= ZERO_CHAR + 9
  }

  predicate AllDigits(s: Bytes)
  {
    forall i :: 0 <= i < |s| ==> IsDigit(s[i])
  }

  /** `str(n).encode("ascii")`: at least one digit, no leading zero. */
  function Decimal(n: nat): (s: Bytes)
    ensures |s| >= 1 && AllDigits(s)
    ensures s[0] == ZERO_CHAR ==> n == 0
    ensures |s| > 1 ==> s[0] != ZERO_CHAR
  {
    if n < 10 then [ZERO_CHAR + n] else Decimal(n / 10) + [ZERO_CHAR + n % 10]
  }

  /** `int(s)` on a string of ASCII digits. */
  function ParseDecimal(s: Bytes): nat
    requires AllDigits(s)
  {
    if s == [] then 0 else ParseDecimal(s[..|s| - 1]) * 10 + (s[|s| - 1] - ZERO_CHAR)
  }

  /** Reading the decimal digits back gives the number. */
  lemma {:induction false} ParseDecimalOfDecimal(n: nat)
    ensures ParseDecimal(Decimal(n)) == n
  {
    if n >= 10 {
      var s := Decimal(n);
      ParseDecimalOfDecimal(n / 10);
      assert s[..|s| - 1] == Decimal(n / 10);
    }
  }

  /** `_first_v`: `msg` followed by the decimal digits of the big-endian
   *  number formed by `1 + countByte % 32` random bytes. */
  function FirstVariant(msg: Bytes, countByte: Byte, draw: Bytes): (m: Bytes)
    requires |draw| == 1 + countByte % 32
    ensures |m| > |msg| && m[..|msg|] == msg
    ensures AllDigits(m[|msg|..]) && ParseDecimal(m[|msg|..]) == FromBytesBE(draw)
    ensures |m| > |msg| + 1 ==> m[|msg|] != ZERO_CHAR
  {
    var digits := Decimal(FromBytesBE(draw));
    ParseDecimalOfDecimal(FromBytesBE(draw));
    assert (msg + digits)[|msg|..] == digits;
    msg + digits
  }

  /** `_second_v`: the byte at `indexByte % len(msg)` replaced by `newByte`;
   *  an empty message divides by zero. */
  function SecondVariant(msg: Bytes, indexByte: Byte, newByte: Byte): (r: Result<Bytes, Error>)
    ensures r.Err? <==> msg == []
    ensures r.Err? ==> r.error == EmptyMessage
    ensures r.Ok? ==>
      |r.value| == |msg| && r.value[indexByte % |msg|] == newByte &&
      forall i :: 0 <= i < |msg| && i != indexByte % |msg| ==> r.value[i] == msg[i]
  {
    if msg == [] then Err(EmptyMessage)
    else
      var ind := indexByte % |msg|;
      Ok(msg[..ind] + [newByte] + msg[ind + 1..])
  }

  /** `ret_modification(var, msg)`: selector 0 is `_first_v`, 1 is
   *  `_second_v`, and any other selector is a KeyError. */
  function Modification(variant: int, msg: Bytes, rand: Bytes): (r: Result<Mutation, Error>)
    ensures r == Err(UnknownVariant) <==> variant != 0 && variant != 1
    ensures r == Err(EmptyMessage) <==> variant == 1 && msg == []
    ensures r == Err(OutOfEntropy) <==>
      || (variant == 0 && (|rand| == 0 || |rand| < 2 + rand[0] % 32))
      || (variant == 1 && msg != [] && |rand| < 2)
    ensures r.Ok? ==> 2 <= r.value.used <= |rand|
    ensures r.Ok? && variant == 0 ==>
      r.value.used == 2 + rand[0] % 32 &&
      r.value.msg == FirstVariant(msg, rand[0], rand[1..r.value.used])
    ensures r.Ok? && variant == 1 ==>
      r.value.used == 2 && SecondVariant(msg, rand[0], rand[1]) == Ok(r.value.msg)
  {
    if variant == 0 then
      if |rand| == 0 || |rand| < 2 + rand[0] % 32 then Err(OutOfEntropy)
      else
        var count := 1 + rand[0] % 32;
        Ok(Mutation(FirstVariant(msg, rand[0], rand[1..1 + count]), 1 + count))
    else if variant == 1 then
      if msg == [] then Err(EmptyMessage)
      else if |rand| < 2 then Err(OutOfEntropy)
      else Ok(Mutation(SecondVariant(msg, rand[0], rand[1]).value, 2))
    else Err(UnknownVariant)
  }

  /** `base` followed by decimal digits only: what repeated `_first_v`
   *  builds from `base`. */
  predicate DigitExtension(base: Bytes, m: Bytes)
  {
    |base| <= |m| && m[..|base|] == base && AllDigits(m[|base|..])
  }

  /** The candidates a perturbation strategy can reach from `base`: digit
   *  extensions for `_first_v`, same-length messages for `_second_v`. */
  predicate Reachable(variant: int, base: Bytes, m: Bytes)
  {
    && (variant == 0 ==> DigitExtension(base, m))
    && (variant == 1 ==> |m| == |base|)
  }

  /** Appending digits to a digit extension of `base` gives a longer digit
   *  extension of `base`. */
  lemma DigitExtensionGrows(base: Bytes, m: Bytes, m': Bytes)
    requires DigitExtension(base, m)
    requires |m'| > |m| && m'[..|m|] == m && AllDigits(m'[|m|..])
    ensures DigitExtension(base, m') && m' != base
  {
    assert m'[..|base|] == m[..|base|];
    assert m'[|base|..] == m[|base|..] + m'[|m|..];
  }

  /** Perturbing a reachable message gives a reachable message, and under
   *  `_first_v` never `base` itself. */
  lemma ModificationStaysReachable(variant: int, base: Bytes, m: Bytes, rand: Bytes)
    requires Reachable(variant, base, m)
    requires Modification(variant, m, rand).Ok?
    ensures Reachable(variant, base, Modification(variant, m, rand).value.msg)
    ensures variant == 0 ==> Modification(variant, m, rand).value.msg != base
  {
    if variant == 0 {
      DigitExtensionGrows(base, m, Modification(variant, m, rand).value.msg);
    }
  }
}
