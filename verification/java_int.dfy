/** Java's 32-bit `int`: the range of the type and the wrap-around of its arithmetic. */
module JavaInt {

  /** The number of distinct `int` values. */
  const Modulus: int := 0x1_0000_0000

  /** A value of Java type `int` (two's complement, 32 bits). */
  type Int32 = x: int | -0x8000_0000 <= x < 0x8000_0000

  /** The `int` that Java arithmetic yields for the mathematical result `x`. */
  function Wrap(x: int): (r: Int32)
    ensures (x - r) % Modulus == 0
  {
    (x + 0x8000_0000) % 0x1_0000_0000 - 0x8000_0000
  }

  /** Values that agree modulo 2^32 wrap to the same `int`. */
  lemma WrapCongruent(x: int, y: int)
    requires (x - y) % Modulus == 0
    ensures Wrap(x) == Wrap(y)
  {
    var k := (x - y) / Modulus;
    assert x + 0x8000_0000 == (y + 0x8000_0000) + Modulus * k;
  }

  /** Wrapping after every step of `x * k + c` is the same as wrapping once at the end. */
  lemma WrapMulAdd(x: int, k: int, c: int)
    ensures Wrap(Wrap(x) * k + c) == Wrap(x * k + c)
  {
    var q := (x - Wrap(x)) / Modulus;
    assert x - Wrap(x) == Modulus * q;
    assert (x * k + c) - (Wrap(x) * k + c) == Modulus * (q * k) by {
      assert (x - Wrap(x)) * k == Modulus * q * k;
    }
    WrapCongruent(x * k + c, Wrap(x) * k + c);
  }

  /** Adding a wrapped value is the same, after wrapping, as adding the unwrapped one. */
  lemma WrapAddWrapped(x: int, y: int)
    ensures Wrap(x + Wrap(y)) == Wrap(x + y)
  {
    WrapCongruent(x + Wrap(y), x + y);
  }

  /** The unsigned reading of an `int`'s 32 bits, as `Integer.toHexString` prints them. */
  function ToUnsigned(x: Int32): (u: nat)
    ensures u < Modulus
    ensures Wrap(u) == x
  {
    if x < 0 then x + Modulus else x
  }

  /** The `int` whose 32 bits read as the unsigned number `u`. */
  function FromUnsigned(u: nat): (x: Int32)
    requires u < Modulus
    ensures ToUnsigned(x) == u
  {
    if u >= 0x8000_0000 then u - Modulus else u
  }

  /** Reading the bits unsigned and back loses nothing. */
  lemma UnsignedRoundTrip(x: Int32)
    ensures FromUnsigned(ToUnsigned(x)) == x
  {
  }
}
