/**
 * `Response`: the immutable (status code, body text) pair every request returns, with value
 * equality, a hash derived from the same two fields, and the `ToStringBuilder` text form.
 */
module Responses {
  import opened Wrappers
  import opened JavaInt
  import JavaString
  import opened Digits

  /** The fully qualified class name, which `getClass().getName()` reports. */
  const ClassName: string := "net.mindengine.isolator4j.Response"

  /** A response: both fields are final, so the value never changes after construction. */
  datatype Response = Response(code: Int32, body: string)

  /**
   * What `equals(Object)` may be handed: `null`, a `Response`, or an instance of any other
   * class (a subclass of `Response` included, since its `getClass()` differs).
   */
  datatype Object = Null | ResponseObject(response: Response) | OtherObject(className: string)

  /** `getCode()` and `getBody()` give back what the constructor was given. */
  lemma GettersReturnConstructorArguments(code: Int32, body: string)
    ensures Response(code, body).code == code
    ensures Response(code, body).body == body
  {
  }

  /**
   * `equals`: null and other classes are unequal; another `Response` is equal when the codes
   * and the bodies are equal. A reference to the same object has equal fields, so the
   * identity shortcut gives the same answer.
   */
  function Equals(self: Response, o: Object): (eq: bool)
    ensures eq <==> o == ResponseObject(self)
  {
    match o
    case Null => false
    case OtherObject(_) => false
    case ResponseObject(that) => self.code == that.code && self.body == that.body
  }

  lemma EqualsFieldwise(a: Response, b: Response)
    ensures Equals(a, ResponseObject(b)) <==> a.code == b.code && a.body == b.body
  {
  }

  lemma EqualsRejectsNullAndOtherClasses(r: Response, className: string)
    ensures !Equals(r, Null)
    ensures !Equals(r, OtherObject(className))
  {
  }

  /** `equals` is an equivalence relation on responses. */
  lemma EqualsIsEquivalence(a: Response, b: Response, c: Response)
    ensures Equals(a, ResponseObject(a))
    ensures Equals(a, ResponseObject(b)) == Equals(b, ResponseObject(a))
    ensures Equals(a, ResponseObject(b)) && Equals(b, ResponseObject(c)) ==> Equals(a, ResponseObject(c))
  {
  }

  /**
   * `new HashCodeBuilder(17, 37).append(code).append(body).toHashCode()`: start at 17, and
   * for each field multiply by 37 and add the field's hash, in `int` arithmetic. The result is
   * one polynomial in the two fields, reduced to 32 bits once.
   */
  function HashCode(r: Response): (h: Int32)
    ensures h == Wrap(17 * 37 * 37 + 37 * r.code + JavaString.Poly(JavaString.Utf16(r.body)))
  {
    var afterCode := Wrap(17 * 37 + r.code);
    HashStepsCollapse(r.code, JavaString.Poly(JavaString.Utf16(r.body)));
    Wrap(afterCode * 37 + JavaString.Hash(r.body))
  }

  /** The builder's two wrapped steps give the same `int` as the unwrapped polynomial. */
  lemma HashStepsCollapse(code: int, bodyPoly: int)
    ensures Wrap(Wrap(17 * 37 + code) * 37 + Wrap(bodyPoly)) == Wrap(17 * 37 * 37 + 37 * code + bodyPoly)
  {
    var x := (17 * 37 + code) * 37;
    WrapMulAdd(17 * 37 + code, 37, Wrap(bodyPoly));
    assert Wrap(Wrap(17 * 37 + code) * 37 + Wrap(bodyPoly)) == Wrap(x + Wrap(bodyPoly));
    WrapAddWrapped(x, bodyPoly);
    assert x == 17 * 37 * 37 + 37 * code;
  }

  /** Equal responses have equal hash codes. */
  lemma HashCodeConsistentWithEquals(a: Response, b: Response)
    requires Equals(a, ResponseObject(b))
    ensures HashCode(a) == HashCode(b)
  {
  }

  /**
   * `new ToStringBuilder(this).append("code", code).append("body", body).toString()` in the
   * default style: class name, `@`, the object's identity hash in hex, then the fields in
   * brackets. The identity hash belongs to the object, not to its fields. The text carries the
   * code, the whole body and the identity hash, all of which can be read back.
   */
  function ToString(r: Response, identity: Int32): (s: string)
    ensures ParseToString(s) == Some(Printed(r.code, r.body, identity))
  {
    PrintedRoundTrip(r, identity);
    ClassName + "@" + HexString(identity) + "[" + FieldsText(r)
  }

  /** The fields after the opening bracket: `code=<decimal>,body=<text>]`. */
  function FieldsText(r: Response): string
  {
    "code=" + DecimalString(r.code) + ",body=" + r.body + "]"
  }

  /** What can be read back from the text form. */
  datatype Printed = Printed(code: Int32, body: string, identity: Int32)

  /** The position of the first `c` in `s`, or `|s|` when there is none. */
  function IndexOf(s: string, c: char): (k: nat)
    ensures k <= |s|
    ensures forall i :: 0 <= i < k ==> s[i] != c
    ensures k < |s| ==> s[k] == c
  {
    if |s| == 0 || s[0] == c then 0 else 1 + IndexOf(s[1..], c)
  }

  /** What follows `prefix` in `s`, when `s` starts with it. */
  function StripPrefix(s: string, prefix: string): Option<string>
  {
    if |prefix| <= |s| && s[..|prefix|] == prefix then Some(s[|prefix|..]) else None
  }

  /** What precedes `suffix` in `s`, when `s` ends with it. */
  function StripSuffix(s: string, suffix: string): Option<string>
  {
    if |suffix| <= |s| && s[|s| - |suffix|..] == suffix then Some(s[..|s| - |suffix|]) else None
  }

  /** `s` cut before its first `c`: the part before and the part starting at `c`. */
  function SplitBefore(s: string, c: char): Option<(string, string)>
  {
    var k := IndexOf(s, c);
    if k == |s| then None else Some((s[..k], s[k..]))
  }

  lemma StripPrefixConcat(prefix: string, rest: string)
    ensures StripPrefix(prefix + rest, prefix) == Some(rest)
  {
    assert (prefix + rest)[..|prefix|] == prefix;
    assert (prefix + rest)[|prefix|..] == rest;
  }

  lemma StripSuffixConcat(front: string, suffix: string)
    ensures StripSuffix(front + suffix, suffix) == Some(front)
  {
    var s := front + suffix;
    assert s[|s| - |suffix|..] == suffix;
    assert s[..|s| - |suffix|] == front;
  }

  lemma SplitBeforeConcat(a: string, b: string, c: char)
    requires forall i :: 0 <= i < |a| ==> a[i] != c
    requires |b| > 0 && b[0] == c
    ensures SplitBefore(a + b, c) == Some((a, b))
  {
    assert (a + b)[|a|] == c;
    assert IndexOf(a + b, c) == |a|;
    assert (a + b)[..|a|] == a;
    assert (a + b)[|a|..] == b;
  }

  /** Reads the bracketed part `code=<decimal>,body=<text>]` back into a response. */
  function ParseFields(fields: string): Option<Response>
  {
    match StripPrefix(fields, "code=")
    case None => None
    case Some(afterCode) =>
      match SplitBefore(afterCode, ',')
      case None => None
      case Some((number, tail)) =>
        match ParseDecimal(number)
        case None => None
        case Some(code) =>
          if !(-0x8000_0000 <= code < 0x8000_0000) then None
          else
            match StripPrefix(tail, ",body=")
            case None => None
            case Some(bodyAndEnd) =>
              match StripSuffix(bodyAndEnd, "]")
              case None => None
              case Some(body) => Some(Response(code, body))
  }

  /** Reads the text form back into its code, body and identity hash. */
  function ParseToString(s: string): Option<Printed>
  {
    match StripPrefix(s, ClassName + "@")
    case None => None
    case Some(rest) =>
      match SplitBefore(rest, '[')
      case None => None
      case Some((hex, bracketed)) =>
        match ParseHex(hex)
        case None => None
        case Some(identity) =>
          match ParseFields(bracketed[1..])
          case None => None
          case Some(r) => Some(Printed(r.code, r.body, identity))
  }

  lemma FieldsRoundTrip(r: Response)
    ensures ParseFields(FieldsText(r)) == Some(r)
  {
    var dec := DecimalString(r.code);
    var bodyAndEnd := r.body + "]";
    var tail := ",body=" + bodyAndEnd;
    var afterCode := dec + tail;
    assert FieldsText(r) == "code=" + afterCode;
    StripPrefixConcat("code=", afterCode);
    assert forall i :: 0 <= i < |dec| ==> dec[i] != ',' by {
      forall i | 0 <= i < |dec| ensures dec[i] != ',' {
        DecimalCharacters(r.code, i);
      }
    }
    SplitBeforeConcat(dec, tail, ',');
    DecimalRoundTrip(r.code);
    StripPrefixConcat(",body=", bodyAndEnd);
    StripSuffixConcat(r.body, "]");
  }

  /** The hexadecimal digits of the identity hash end where the bracket starts. */
  lemma HexStage(identity: Int32, bracketed: string)
    requires |bracketed| > 0 && bracketed[0] == '['
    ensures SplitBefore(HexString(identity) + bracketed, '[') == Some((HexString(identity), bracketed))
  {
    var hex := HexString(identity);
    assert forall i :: 0 <= i < |hex| ==> hex[i] != '[' by {
      forall i | 0 <= i < |hex| ensures hex[i] != '[' {
        assert DigitValue(hex[i], 16).Some?;
      }
    }
    SplitBeforeConcat(hex, bracketed, '[');
  }

  /** When every stage of the parser succeeds, the parse is the stages' results. */
  lemma ParseStages(s: string, rest: string, hex: string, bracketed: string, identity: Int32, r: Response)
    requires StripPrefix(s, ClassName + "@") == Some(rest)
    requires SplitBefore(rest, '[') == Some((hex, bracketed))
    requires ParseHex(hex) == Some(identity)
    requires |bracketed| > 0 && ParseFields(bracketed[1..]) == Some(r)
    ensures ParseToString(s) == Some(Printed(r.code, r.body, identity))
  {
  }

  lemma HeadStage(identity: Int32, fields: string)
    ensures StripPrefix(ClassName + "@" + HexString(identity) + "[" + fields, ClassName + "@")
      == Some(HexString(identity) + ("[" + fields))
  {
    var rest := HexString(identity) + ("[" + fields);
    assert ClassName + "@" + HexString(identity) + "[" + fields == ClassName + "@" + rest;
    StripPrefixConcat(ClassName + "@", rest);
  }

  /** The printed form of a response parses back into its code, body and identity hash. */
  lemma PrintedRoundTrip(r: Response, identity: Int32)
    ensures ParseToString(ClassName + "@" + HexString(identity) + "[" + FieldsText(r))
      == Some(Printed(r.code, r.body, identity))
  {
    var bracketed := "[" + FieldsText(r);
    HeadStage(identity, FieldsText(r));
    HexStage(identity, bracketed);
    HexRoundTrip(identity);
    assert bracketed[1..] == FieldsText(r);
    FieldsRoundTrip(r);
    ParseStages(ClassName + "@" + HexString(identity) + "[" + FieldsText(r), HexString(identity) + bracketed,
      HexString(identity), bracketed, identity, r);
  }

  /** Two text forms are equal exactly when the fields and the identity hashes are. */
  lemma ToStringInjective(a: Response, i: Int32, b: Response, j: Int32)
    ensures ToString(a, i) == ToString(b, j) <==> a == b && i == j
  {
    if ToString(a, i) == ToString(b, j) {
      assert Some(Printed(a.code, a.body, i)) == Some(Printed(b.code, b.body, j));
    }
  }
}
