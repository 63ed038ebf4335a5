/**
 * Turning a Java string into the bytes of a request entity and back: ISO-8859-1, which
 * `String.getBytes` uses for the default `text/plain` entity, and UTF-8, the encoding of JSON
 * text (section 8.1 of RFC 8259).
 */
module Charsets {
  import opened Wrappers

  type Byte = b: int | 0 <= b < 256

  predicate IsAscii(s: string)
  {
    forall i :: 0 <= i < |s| ==> s[i] as int < 0x80
  }

  predicate IsLatin1(s: string)
  {
    forall i :: 0 <= i < |s| ==> s[i] as int < 0x100
  }

  predicate AsciiBytes(bs: seq<Byte>)
  {
    forall i :: 0 <= i < |bs| ==> bs[i] < 0x80
  }

  // ISO-8859-1

  /** The byte ISO-8859-1 gives a character; a character it cannot map becomes the replacement `?`. */
  function Latin1Byte(c: char): Byte
  {
    if c as int < 0x100 then c as int else '?' as int
  }

  function Latin1Encode(s: string): (bs: seq<Byte>)
    ensures |bs| == |s|
    ensures forall i :: 0 <= i < |s| ==> bs[i] == Latin1Byte(s[i])
  {
    if |s| == 0 then [] else [Latin1Byte(s[0])] + Latin1Encode(s[1..])
  }

  function Latin1Decode(bs: seq<Byte>): (s: string)
    ensures |s| == |bs|
    ensures forall i :: 0 <= i < |bs| ==> s[i] as int == bs[i]
  {
    if |bs| == 0 then [] else [bs[0] as char] + Latin1Decode(bs[1..])
  }

  /** ISO-8859-1 gives back the string exactly when every character is in its range. */
  lemma Latin1RoundTrip(s: string)
    ensures Latin1Decode(Latin1Encode(s)) == s <==> IsLatin1(s)
  {
    var t := Latin1Decode(Latin1Encode(s));
    if IsLatin1(s) {
      assert forall i :: 0 <= i < |s| ==> t[i] == s[i];
    } else {
      var i :| 0 <= i < |s| && s[i] as int >= 0x100;
      assert t[i] == '?' != s[i];
    }
  }

  // UTF-8

  /** A byte of the form `10xxxxxx`; -1 stands for a byte past the end. */
  predicate IsContinuation(b: int)
  {
    0x80 <= b < 0xC0
  }

  /** The byte at `i`, or -1 when the sequence is shorter. */
  function At(bs: seq<Byte>, i: nat): int
  {
    if i < |bs| then bs[i] else -1
  }

  /** The one to four bytes UTF-8 gives a Unicode scalar value. */
  function Utf8EncodeChar(c: char): (bs: seq<Byte>)
    ensures 1 <= |bs| <= 4
    ensures |bs| == 1 <==> c as int < 0x80
  {
    var n := c as int;
    if n < 0x80 then [n]
    else if n < 0x800 then [0xC0 + n / 0x40, 0x80 + n % 0x40]
    else if n < 0x1_0000 then [0xE0 + n / 0x1000, 0x80 + n / 0x40 % 0x40, 0x80 + n % 0x40]
    else [0xF0 + n / 0x4_0000, 0x80 + n / 0x1000 % 0x40, 0x80 + n / 0x40 % 0x40, 0x80 + n % 0x40]
  }

  function Utf8Encode(s: string): seq<Byte>
  {
    if |s| == 0 then [] else Utf8EncodeChar(s[0]) + Utf8Encode(s[1..])
  }

  /** A character read off the front of a byte sequence, and how many bytes it took. */
  datatype Decoded = Decoded(c: char, size: nat)

  /**
   * Reads one well-formed UTF-8 sequence from the front of `bs`: overlong forms, surrogates,
   * values above U+10FFFF, stray continuation bytes and truncated sequences are rejected.
   */
  function Utf8DecodeFirst(bs: seq<Byte>): (r: Option<Decoded>)
    ensures r.Some? ==> 1 <= r.value.size <= |bs|
    ensures r.Some? ==> (r.value.size == 1 <==> bs[0] < 0x80)
    ensures r.Some? && bs[0] < 0x80 ==> r.value.c as int == bs[0]
  {
    if |bs| == 0 then None
    else
      var b0, b1, b2, b3 := bs[0] as int, At(bs, 1), At(bs, 2), At(bs, 3);
      if b0 < 0x80 then Some(Decoded(b0 as char, 1))
      else if 0xC2 <= b0 < 0xE0 && IsContinuation(b1) then
        Some(Decoded(((b0 - 0xC0) * 0x40 + (b1 - 0x80)) as char, 2))
      else if 0xE0 <= b0 < 0xF0 && IsContinuation(b1) && IsContinuation(b2) then
        var n := (b0 - 0xE0) * 0x1000 + (b1 - 0x80) * 0x40 + (b2 - 0x80);
        if n < 0x800 || 0xD800 <= n < 0xE000 then None else Some(Decoded(n as char, 3))
      else if 0xF0 <= b0 < 0xF5 && IsContinuation(b1) && IsContinuation(b2) && IsContinuation(b3) then
        var n := (b0 - 0xF0) * 0x4_0000 + (b1 - 0x80) * 0x1000 + (b2 - 0x80) * 0x40 + (b3 - 0x80);
        if n < 0x1_0000 || n >= 0x11_0000 then None else Some(Decoded(n as char, 4))
      else None
  }

  /** Decodes a whole byte sequence; any ill-formed sequence makes the result `None`. */
  function Utf8Decode(bs: seq<Byte>): Option<string>
    decreases |bs|
  {
    if |bs| == 0 then Some([])
    else
      match Utf8DecodeFirst(bs)
      case None => None
      case Some(d) =>
        match Utf8Decode(bs[d.size..])
        case None => None
        case Some(rest) => Some([d.c] + rest)
  }

  lemma DecodeFirstOfTwoBytes(c: char, rest: seq<Byte>)
    requires 0x80 <= c as int < 0x800
    ensures Utf8DecodeFirst(Utf8EncodeChar(c) + rest) == Some(Decoded(c, 2))
  {
    var n := c as int;
    var bs := Utf8EncodeChar(c) + rest;
    var b0, b1 := bs[0] as int, bs[1] as int;
    assert b0 == 0xC0 + n / 0x40 && b1 == 0x80 + n % 0x40;
    assert 0xC2 <= b0 < 0xE0 && IsContinuation(At(bs, 1));
    assert (b0 - 0xC0) * 0x40 + (b1 - 0x80) == n;
  }

  lemma DecodeFirstOfThreeBytes(c: char, rest: seq<Byte>)
    requires 0x800 <= c as int < 0x1_0000
    ensures Utf8DecodeFirst(Utf8EncodeChar(c) + rest) == Some(Decoded(c, 3))
  {
    var n := c as int;
    var bs := Utf8EncodeChar(c) + rest;
    var b0, b1, b2 := bs[0] as int, bs[1] as int, bs[2] as int;
    assert b0 == 0xE0 + n / 0x1000 && b1 == 0x80 + n / 0x40 % 0x40 && b2 == 0x80 + n % 0x40;
    assert 0xE0 <= b0 < 0xF0 && IsContinuation(At(bs, 1)) && IsContinuation(At(bs, 2));
    assert n / 0x40 == n / 0x1000 * 0x40 + n / 0x40 % 0x40;
    assert (b0 - 0xE0) * 0x1000 + (b1 - 0x80) * 0x40 + (b2 - 0x80) == n;
  }

  lemma DecodeFirstOfFourBytes(c: char, rest: seq<Byte>)
    requires 0x1_0000 <= c as int
    ensures Utf8DecodeFirst(Utf8EncodeChar(c) + rest) == Some(Decoded(c, 4))
  {
    var n := c as int;
    var bs := Utf8EncodeChar(c) + rest;
    var b0, b1, b2, b3 := bs[0] as int, bs[1] as int, bs[2] as int, bs[3] as int;
    assert b0 == 0xF0 + n / 0x4_0000 && b1 == 0x80 + n / 0x1000 % 0x40;
    assert b2 == 0x80 + n / 0x40 % 0x40 && b3 == 0x80 + n % 0x40;
    assert 0xF0 <= b0 < 0xF5;
    assert IsContinuation(At(bs, 1)) && IsContinuation(At(bs, 2)) && IsContinuation(At(bs, 3));
    assert n / 0x1000 == n / 0x4_0000 * 0x40 + n / 0x1000 % 0x40;
    assert n / 0x40 == n / 0x1000 * 0x40 + n / 0x40 % 0x40;
    assert (b0 - 0xF0) * 0x4_0000 + (b1 - 0x80) * 0x1000 + (b2 - 0x80) * 0x40 + (b3 - 0x80) == n;
  }

  /** The decoder reads back exactly the character the encoder wrote, whatever follows it. */
  lemma DecodeFirstOfEncoded(c: char, rest: seq<Byte>)
    ensures Utf8DecodeFirst(Utf8EncodeChar(c) + rest) == Some(Decoded(c, |Utf8EncodeChar(c)|))
  {
    var n := c as int;
    if n < 0x80 {
    } else if n < 0x800 {
      DecodeFirstOfTwoBytes(c, rest);
    } else if n < 0x1_0000 {
      DecodeFirstOfThreeBytes(c, rest);
    } else {
      DecodeFirstOfFourBytes(c, rest);
    }
  }

  /** UTF-8 loses nothing: decoding the encoding of any string gives the string back. */
  lemma {:induction false} Utf8RoundTrip(s: string)
    ensures Utf8Decode(Utf8Encode(s)) == Some(s)
  {
    if |s| > 0 {
      var first := Utf8EncodeChar(s[0]);
      var rest := Utf8Encode(s[1..]);
      DecodeFirstOfEncoded(s[0], rest);
      assert (first + rest)[|first|..] == rest;
      Utf8RoundTrip(s[1..]);
      assert [s[0]] + s[1..] == s;
    }
  }

  /**
   * A decoded string is never longer than its bytes, and is exactly as long only when every
   * byte is ASCII, in which case each character is its byte.
   */
  lemma {:induction false} Utf8DecodeLength(bs: seq<Byte>)
    requires Utf8Decode(bs).Some?
    ensures |Utf8Decode(bs).value| <= |bs|
    ensures |Utf8Decode(bs).value| == |bs| <==> AsciiBytes(bs)
    ensures AsciiBytes(bs) ==> forall i :: 0 <= i < |bs| ==> Utf8Decode(bs).value[i] as int == bs[i]
    decreases |bs|
  {
    if |bs| > 0 {
      var d := Utf8DecodeFirst(bs).value;
      var tail := bs[d.size..];
      Utf8DecodeLength(tail);
      var t := Utf8Decode(bs).value;
      assert t == [d.c] + Utf8Decode(tail).value;
      if AsciiBytes(bs) {
        assert d.size == 1;
        assert AsciiBytes(tail) by {
          forall i | 0 <= i < |tail| ensures tail[i] < 0x80 {
            assert tail[i] == bs[i + 1];
          }
        }
        forall i | 0 <= i < |bs| ensures t[i] as int == bs[i] {
          if i > 0 {
            assert tail[i - 1] == bs[i];
          }
        }
      } else if d.size == 1 {
        assert !AsciiBytes(tail) by {
          var i :| 0 <= i < |bs| && bs[i] >= 0x80;
          assert i > 0 && tail[i - 1] == bs[i];
        }
      }
    }
  }

  /**
   * Bytes produced with ISO-8859-1 and read as UTF-8 give the string back exactly when the
   * string is plain ASCII.
   */
  lemma Latin1ReadAsUtf8(s: string)
    ensures Utf8Decode(Latin1Encode(s)) == Some(s) <==> IsAscii(s)
  {
    var bs := Latin1Encode(s);
    if IsAscii(s) {
      assert AsciiBytes(bs);
      Utf8DecodeAsciiBytes(bs);
      assert Utf8Decode(bs).value == s;
    } else if Utf8Decode(bs) == Some(s) {
      Utf8DecodeLength(bs);
    }
  }

  /** An all-ASCII byte sequence is well-formed UTF-8. */
  lemma {:induction false} Utf8DecodeAsciiBytes(bs: seq<Byte>)
    requires AsciiBytes(bs)
    ensures Utf8Decode(bs).Some?
    ensures |Utf8Decode(bs).value| == |bs|
    ensures forall i :: 0 <= i < |bs| ==> Utf8Decode(bs).value[i] as int == bs[i]
    decreases |bs|
  {
    if |bs| > 0 {
      assert AsciiBytes(bs[1..]) by {
        forall i | 0 <= i < |bs[1..]| ensures bs[1..][i] < 0x80 {
          assert bs[1..][i] == bs[i + 1];
        }
      }
      Utf8DecodeAsciiBytes(bs[1..]);
      Utf8DecodeLength(bs);
    }
  }
}
