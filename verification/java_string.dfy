/** `java.lang.String.hashCode()`: a polynomial in 31 over the UTF-16 code units, in `int` arithmetic. */
module JavaString {
  import opened JavaInt

  /** The UTF-16 code units of one character: itself below U+10000, else a surrogate pair. */
  function CharUnits(c: char): (u: seq<int>)
    ensures 1 <= |u| <= 2
    ensures forall i :: 0 <= i < |u| ==> 0 <= u[i] < 0x1_0000
  {
    var n := c as int;
    if n < 0x1_0000 then [n]
    else
      var v := n - 0x1_0000;
      [0xD800 + v / 0x400, 0xDC00 + v % 0x400]
  }

  /** The code units Java stores for `s`. */
  function Utf16(s: string): seq<int>
  {
    if |s| == 0 then [] else CharUnits(s[0]) + Utf16(s[1..])
  }

  function Pow(b: int, e: nat): int
  {
    if e == 0 then 1 else b * Pow(b, e - 1)
  }

  /** The documented closed form `u[0]*31^(n-1) + u[1]*31^(n-2) + ... + u[n-1]`, without wrap-around. */
  function Poly(u: seq<int>): int
  {
    if |u| == 0 then 0 else u[0] * Pow(31, |u| - 1) + Poly(u[1..])
  }

  /** The value `s.hashCode()` returns. */
  function Hash(s: string): Int32
  {
    Wrap(Poly(Utf16(s)))
  }

  /** Horner's step: appending a unit multiplies the polynomial by 31 and adds the unit. */
  lemma {:induction false} PolySnoc(u: seq<int>, c: int)
    ensures Poly(u + [c]) == 31 * Poly(u) + c
  {
    if |u| == 0 {
      assert u + [c] == [c];
    } else {
      var t := u + [c];
      assert t[0] == u[0];
      assert t[1..] == u[1..] + [c];
      PolySnoc(u[1..], c);
      calc {
        Poly(t);
        u[0] * Pow(31, |u|) + Poly(u[1..] + [c]);
        u[0] * (31 * Pow(31, |u| - 1)) + 31 * Poly(u[1..]) + c;
        { assert u[0] * (31 * Pow(31, |u| - 1)) == 31 * (u[0] * Pow(31, |u| - 1)); }
        31 * (u[0] * Pow(31, |u| - 1) + Poly(u[1..])) + c;
      }
    }
  }

  /** The loop the JDK runs: `h = 31 * h + unit` over the code units, wrapping at every step. */
  method HashCode(s: string) returns (h: Int32)
    ensures h == Hash(s)
  {
    var u := Utf16(s);
    h := 0;
    var i := 0;
    while i < |u|
      invariant 0 <= i <= |u|
      invariant h == Wrap(Poly(u[..i]))
    {
      assert u[..i + 1] == u[..i] + [u[i]];
      PolySnoc(u[..i], u[i]);
      WrapMulAdd(Poly(u[..i]), 31, u[i]);
      h := Wrap(31 * h + u[i]);
      i := i + 1;
    }
    assert u[..i] == u;
  }
}
