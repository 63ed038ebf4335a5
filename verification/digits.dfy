/**
 * Numbers as Java prints them: `Integer.toString(int)` (signed decimal) and
 * `Integer.toHexString(int)` (unsigned lower-case hexadecimal), with parsers that read them back.
 */
module Digits {
  import opened Wrappers
  import opened JavaInt

  predicate ValidBase(base: nat)
  {
    2 <= base <= 16
  }

  /** The character for digit `d`: `0`-`9`, then lower-case `a`-`f`. */
  function DigitChar(d: nat): char
    requires d < 16
  {
    if d < 10 then ('0' as int + d) as char else ('a' as int + d - 10) as char
  }

  /** The digit `c` stands for in `base`, if any. */
  function DigitValue(c: char, base: nat): (v: Option<nat>)
    requires ValidBase(base)
    ensures v.Some? ==> v.value < base && DigitChar(v.value) == c
  {
    if '0' <= c <= '9' && c as int - '0' as int < base then Some(c as int - '0' as int)
    else if 'a' <= c <= 'f' && c as int - 'a' as int + 10 < base then Some(c as int - 'a' as int + 10)
    else None
  }

  lemma DigitValueOfDigitChar(d: nat, base: nat)
    requires ValidBase(base) && d < base
    ensures DigitValue(DigitChar(d), base) == Some(d)
  {
  }

  predicate AllDigits(s: string, base: nat)
    requires ValidBase(base)
  {
    forall i :: 0 <= i < |s| ==> DigitValue(s[i], base).Some?
  }

  lemma DivShrinks(n: nat, base: nat)
    requires ValidBase(base) && n >= base
    ensures 1 <= n / base < n
    ensures n == n / base * base + n % base
  {
    var q := n / base;
    assert n == q * base + n % base;
  }

  /** The digits of `n` in `base`, most significant first, with no leading zeros. */
  function ToDigits(n: nat, base: nat): (s: string)
    requires ValidBase(base)
    ensures |s| >= 1
    ensures AllDigits(s, base)
    decreases n
  {
    if n < base then
      DigitValueOfDigitChar(n, base);
      [DigitChar(n)]
    else
      DivShrinks(n, base);
      var front := ToDigits(n / base, base);
      var last := DigitChar(n % base);
      DigitValueOfDigitChar(n % base, base);
      assert forall i :: 0 <= i < |front| ==> (front + [last])[i] == front[i];
      front + [last]
  }

  /** The number a string of digits denotes. */
  function Value(s: string, base: nat): nat
    requires ValidBase(base) && AllDigits(s, base)
  {
    if |s| == 0 then 0 else Value(s[..|s| - 1], base) * base + DigitValue(s[|s| - 1], base).value
  }

  /** Reads a non-empty string of digits; anything else is rejected. */
  function ParseNat(s: string, base: nat): (r: Option<nat>)
    requires ValidBase(base)
    ensures r.Some? <==> |s| > 0 && AllDigits(s, base)
  {
    if |s| > 0 && AllDigits(s, base) then Some(Value(s, base)) else None
  }

  /** Appending a digit multiplies the value by the base and adds the digit. */
  lemma ValueSnoc(front: string, d: nat, base: nat)
    requires ValidBase(base) && d < base && AllDigits(front, base)
    ensures AllDigits(front + [DigitChar(d)], base)
    ensures Value(front + [DigitChar(d)], base) == Value(front, base) * base + d
  {
    var s := front + [DigitChar(d)];
    DigitValueOfDigitChar(d, base);
    assert s[..|s| - 1] == front;
  }

  lemma {:induction false} ParseToDigits(n: nat, base: nat)
    requires ValidBase(base)
    ensures ParseNat(ToDigits(n, base), base) == Some(n)
    decreases n
  {
    if n < base {
      ValueSnoc([], n, base);
      assert [] + [DigitChar(n)] == ToDigits(n, base);
    } else {
      DivShrinks(n, base);
      var front := ToDigits(n / base, base);
      ParseToDigits(n / base, base);
      ValueSnoc(front, n % base, base);
      assert Value(front, base) == n / base;
    }
  }

  /** `Integer.toString(i)`: a minus sign for negative values, then the decimal digits of the magnitude. */
  function DecimalString(i: int): string
  {
    if i < 0 then "-" + ToDigits(-i, 10) else ToDigits(i, 10)
  }

  /** Reads an optional minus sign followed by decimal digits. */
  function ParseDecimal(s: string): (r: Option<int>)
  {
    if |s| > 0 && s[0] == '-' then
      match ParseNat(s[1..], 10)
      case Some(v) => Some(0 - v)
      case None => None
    else
      match ParseNat(s, 10)
      case Some(v) => Some(v)
      case None => None
  }

  /** Reading back what `Integer.toString` printed yields the number printed. */
  lemma DecimalRoundTrip(i: int)
    ensures ParseDecimal(DecimalString(i)) == Some(i)
  {
    var s := DecimalString(i);
    if i < 0 {
      assert s[1..] == ToDigits(-i, 10);
      ParseToDigits(-i, 10);
    } else {
      ParseToDigits(i, 10);
      assert s[0] != '-' by {
        assert DigitValue(s[0], 10).Some?;
      }
    }
  }

  /** A printed decimal holds only digits and a leading minus sign. */
  lemma DecimalCharacters(i: int, k: nat)
    requires k < |DecimalString(i)|
    ensures DecimalString(i)[k] == '-' || DigitValue(DecimalString(i)[k], 10).Some?
  {
  }

  /** `Integer.toHexString(i)`: the unsigned value of the 32 bits in lower-case hexadecimal. */
  function HexString(i: Int32): string
  {
    ToDigits(ToUnsigned(i), 16)
  }

  /** Reads what `Integer.toHexString` prints; values that do not fit in 32 bits are rejected. */
  function ParseHex(s: string): (r: Option<Int32>)
  {
    match ParseNat(s, 16)
    case Some(u) => if u < Modulus then Some(FromUnsigned(u)) else None
    case None => None
  }

  lemma HexRoundTrip(i: Int32)
    ensures ParseHex(HexString(i)) == Some(i)
  {
    ParseToDigits(ToUnsigned(i), 16);
    UnsignedRoundTrip(i);
  }
}
