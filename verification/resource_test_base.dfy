/**
 * `ResourceTestBase`: the per-test facade that owns one mock key, keeps the list of mocks it
 * registered, and tags every JSON request it builds with that key.
 *
 * The mock registry and the mocking framework are foreign: calls into them are recorded, in
 * order, in the instance's call log rather than given a meaning here.
 */
module ResourceTestBase {
  import opened Wrappers
  import opened Charsets
  import opened HttpRequests

  /** A `Class<T>` as far as the test base uses it: `getName()`. */
  datatype MockClass = MockClass(name: string)

  /** A call the test base makes into code outside it. */
  datatype ForeignCall<M> =
    | RegistryRegister(key: string, mock: M, className: string)  // MockRegistry.registerMock
    | MockitoReset(mocks: seq<M>)                                  // Mockito.reset

  /**
   * The state of one test instance. `cookieName` and `testUrl` are what the concrete suite's
   * `getMockCookieName()` and `getTestUrl()` return.
   */
  datatype TestBase<M> = TestBase(
    mockUniqueKey: string,
    cookieName: string,
    testUrl: string,
    mocks: seq<M>,
    calls: seq<ForeignCall<M>>)

  /** The mocks handed to the registry, in the order of the calls. */
  function RegisteredMocks<M>(calls: seq<ForeignCall<M>>): seq<M>
  {
    if |calls| == 0 then []
    else
      var front := RegisteredMocks(calls[..|calls| - 1]);
      match calls[|calls| - 1]
      case RegistryRegister(_, mock, _) => front + [mock]
      case MockitoReset(_) => front
  }

  /**
   * What construction and the operations below keep true of an instance: the mock list is
   * exactly what was registered, every registration used the instance's own key, and every
   * reset was handed exactly the mocks registered before it.
   */
  ghost predicate WellFormed<M>(tb: TestBase<M>)
  {
    && tb.mocks == RegisteredMocks(tb.calls)
    && (forall i :: 0 <= i < |tb.calls| && tb.calls[i].RegistryRegister? ==> tb.calls[i].key == tb.mockUniqueKey)
    && (forall i :: 0 <= i < |tb.calls| && tb.calls[i].MockitoReset? ==> tb.calls[i].mocks == RegisteredMocks(tb.calls[..i]))
  }

  /** A new instance; the key is generated once, here, and is the only key it will ever use. */
  function NewTestBase<M>(mockUniqueKey: string, cookieName: string, testUrl: string): (tb: TestBase<M>)
    ensures WellFormed(tb)
    ensures tb.mockUniqueKey == mockUniqueKey && tb.cookieName == cookieName && tb.testUrl == testUrl
    ensures tb.mocks == [] && tb.calls == []
  {
    TestBase(mockUniqueKey, cookieName, testUrl, [], [])
  }

  // Mock bookkeeping

  /**
   * `registerMock(mock, mockClass)`: one registry call with the instance's key, the mock and
   * the class name, then the mock goes to the end of the list; the mock itself is returned.
   */
  function RegisterMock<M>(tb: TestBase<M>, mock: M, cls: MockClass): (r: (TestBase<M>, M))
    ensures r.1 == mock
    ensures r.0.mocks == tb.mocks + [mock]
    ensures r.0.calls == tb.calls + [RegistryRegister(tb.mockUniqueKey, mock, cls.name)]
    ensures r.0.mockUniqueKey == tb.mockUniqueKey && r.0.cookieName == tb.cookieName && r.0.testUrl == tb.testUrl
  {
    (tb.(mocks := tb.mocks + [mock], calls := tb.calls + [RegistryRegister(tb.mockUniqueKey, mock, cls.name)]), mock)
  }

  /** `registerMock(mockClass)`: `created` is the mock the mocking framework made for the class. */
  function RegisterNewMock<M>(tb: TestBase<M>, cls: MockClass, created: M): (r: (TestBase<M>, M))
    ensures r.1 == created
    ensures r.0.mocks == tb.mocks + [created]
    ensures r.0.calls == tb.calls + [RegistryRegister(tb.mockUniqueKey, created, cls.name)]
  {
    RegisterMock(tb, created, cls)
  }

  /** `resetAllMocks()`: the whole list, in order, goes to one reset call; the list is kept. */
  function ResetAllMocks<M>(tb: TestBase<M>): (r: TestBase<M>)
    ensures r.mocks == tb.mocks
    ensures r.calls == tb.calls + [MockitoReset(tb.mocks)]
    ensures r.mockUniqueKey == tb.mockUniqueKey && r.cookieName == tb.cookieName && r.testUrl == tb.testUrl
  {
    tb.(calls := tb.calls + [MockitoReset(tb.mocks)])
  }

  lemma RegisteredMocksSnoc<M>(calls: seq<ForeignCall<M>>, c: ForeignCall<M>)
    ensures RegisteredMocks(calls + [c]) ==
      if c.RegistryRegister? then RegisteredMocks(calls) + [c.mock] else RegisteredMocks(calls)
  {
    assert (calls + [c])[..|calls|] == calls;
  }

  lemma {:induction false} RegisterMockPreservesWellFormed<M>(tb: TestBase<M>, mock: M, cls: MockClass)
    requires WellFormed(tb)
    ensures WellFormed(RegisterMock(tb, mock, cls).0)
  {
    var c := RegistryRegister(tb.mockUniqueKey, mock, cls.name);
    var r := RegisterMock(tb, mock, cls).0;
    RegisteredMocksSnoc(tb.calls, c);
    forall i | 0 <= i < |r.calls| && r.calls[i].MockitoReset?
      ensures r.calls[i].mocks == RegisteredMocks(r.calls[..i])
    {
      assert i < |tb.calls| && r.calls[..i] == tb.calls[..i];
    }
  }

  lemma {:induction false} ResetAllMocksPreservesWellFormed<M>(tb: TestBase<M>)
    requires WellFormed(tb)
    ensures WellFormed(ResetAllMocks(tb))
  {
    var c: ForeignCall<M> := MockitoReset(tb.mocks);
    var r := ResetAllMocks(tb);
    RegisteredMocksSnoc(tb.calls, c);
    forall i | 0 <= i < |r.calls| && r.calls[i].MockitoReset?
      ensures r.calls[i].mocks == RegisteredMocks(r.calls[..i])
    {
      if i < |tb.calls| {
        assert r.calls[..i] == tb.calls[..i];
      } else {
        assert r.calls[..i] == tb.calls;
      }
    }
  }

  /** A mock is in `RegisteredMocks(calls)` exactly when some registry call in `calls` carried it. */
  lemma {:induction false} RegisteredMocksMembership<M>(calls: seq<ForeignCall<M>>)
    ensures forall i :: 0 <= i < |calls| && calls[i].RegistryRegister? ==> calls[i].mock in RegisteredMocks(calls)
    ensures forall m :: m in RegisteredMocks(calls) ==>
      exists i :: 0 <= i < |calls| && calls[i].RegistryRegister? && calls[i].mock == m
  {
    if |calls| > 0 {
      var front := calls[..|calls| - 1];
      var last := calls[|calls| - 1];
      RegisteredMocksMembership(front);
      RegisteredMocksSnoc(front, last);
      assert calls == front + [last];
      forall m | m in RegisteredMocks(calls)
        ensures exists i :: 0 <= i < |calls| && calls[i].RegistryRegister? && calls[i].mock == m
      {
        if m in RegisteredMocks(front) {
          var i :| 0 <= i < |front| && front[i].RegistryRegister? && front[i].mock == m;
          assert calls[i] == front[i];
        } else {
          assert calls[|calls| - 1].mock == m;
        }
      }
      forall i | 0 <= i < |calls| && calls[i].RegistryRegister?
        ensures calls[i].mock in RegisteredMocks(calls)
      {
        if i < |front| {
          assert calls[i] == front[i];
        }
      }
    }
  }

  /**
   * In a well-formed instance, `resetAllMocks` reaches every mock the instance registered and
   * nothing else: each mock handed to the reset was registered under the instance's own key,
   * and each registration's mock is handed to the reset.
   */
  lemma ResetCoversExactlyOwnMocks<M>(tb: TestBase<M>)
    requires WellFormed(tb)
    ensures var reset := ResetAllMocks(tb).calls[|tb.calls|];
      && reset.MockitoReset?
      && (forall i :: 0 <= i < |tb.calls| && tb.calls[i].RegistryRegister? ==> tb.calls[i].mock in reset.mocks)
      && (forall m :: m in reset.mocks ==> exists i :: 0 <= i < |tb.calls| && tb.calls[i].RegistryRegister? && tb.calls[i].key == tb.mockUniqueKey && tb.calls[i].mock == m)
  {
    RegisteredMocksMembership(tb.calls);
  }

  // Request shaping

  predicate StartsWithSlash(p: string)
  {
    |p| > 0 && p[0] == '/'
  }

  /** The path `createUri` uses: a missing leading `/` is added, nothing else changes. */
  function NormalisePath(p: string): (q: string)
    ensures StartsWithSlash(q)
    ensures q == p || q == "/" + p
  {
    if StartsWithSlash(p) then p else "/" + p
  }

  /** Normalising twice is normalising once, and an already normalised path is kept as it is. */
  lemma NormalisePathIdempotent(p: string)
    ensures NormalisePath(NormalisePath(p)) == NormalisePath(p)
    ensures StartsWithSlash(p) ==> NormalisePath(p) == p
  {
  }

  /**
   * Two paths normalise alike exactly when they are equal or one is the other with the
   * missing `/` added.
   */
  lemma NormalisePathSame(p: string, q: string)
    ensures NormalisePath(p) == NormalisePath(q) <==>
      p == q || (!StartsWithSlash(p) && q == "/" + p) || (!StartsWithSlash(q) && p == "/" + q)
  {
    if NormalisePath(p) == NormalisePath(q) && StartsWithSlash(p) == StartsWithSlash(q) && !StartsWithSlash(p) {
      assert p == ("/" + p)[1..] == ("/" + q)[1..] == q;
    }
  }

  /** `createUri(path)`: the test URL followed by the normalised path, with nothing in between. */
  function CreateUri<M>(tb: TestBase<M>, path: string): (uri: string)
    ensures |uri| > |tb.testUrl|
    ensures uri[..|tb.testUrl|] == tb.testUrl
    ensures uri[|tb.testUrl|..] == NormalisePath(path)
  {
    tb.testUrl + NormalisePath(path)
  }

  /** Two paths give the same URI exactly when they normalise alike; `ping` and `/ping` do. */
  lemma CreateUriSameTarget<M>(tb: TestBase<M>, p: string, q: string)
    ensures CreateUri(tb, p) == CreateUri(tb, q) <==> NormalisePath(p) == NormalisePath(q)
    ensures !StartsWithSlash(p) ==> CreateUri(tb, p) == CreateUri(tb, "/" + p)
  {
    var u, v := CreateUri(tb, p), CreateUri(tb, q);
    if u == v {
      assert u[|tb.testUrl|..] == v[|tb.testUrl|..];
    }
  }

  const ContentTypeHeader: string := "Content-Type"
  const CookieHeader: string := "Cookie"
  const JsonMediaType: string := "application/json"

  /** The cookie every request carries: `<cookie name>=<mock unique key>`. */
  function MockCookie<M>(tb: TestBase<M>): string
  {
    tb.cookieName + "=" + tb.mockUniqueKey
  }

  /** A request tagged as this instance's: JSON content type and the mock-key cookie. */
  predicate IsTagged<M>(tb: TestBase<M>, req: Request)
  {
    && HeaderValue(req.headers, ContentTypeHeader) == Some(JsonMediaType)
    && HeaderValue(req.headers, CookieHeader) == Some(MockCookie(tb))
  }

  /**
   * The header-setting part of `executeRequest`; sending the request and reading the reply
   * are left to the HTTP client.
   */
  function ExecuteRequest<M>(tb: TestBase<M>, req: Request): (r: Request)
    ensures IsTagged(tb, r)
    ensures r.verb == req.verb && r.uri == req.uri && r.entity == req.entity
    ensures forall name :: name != ContentTypeHeader && name != CookieHeader ==>
      HeaderValue(r.headers, name) == HeaderValue(req.headers, name)
  {
    var headers := SetHeader(SetHeader(req.headers, ContentTypeHeader, JsonMediaType), CookieHeader, MockCookie(tb));
    req.(headers := headers)
  }

  /** `getJson(path)`: a GET of the normalised URI, tagged, with no entity. */
  function GetJson<M>(tb: TestBase<M>, path: string): (r: Request)
    ensures r.verb == Get && r.uri == CreateUri(tb, path) && r.entity == None
    ensures IsTagged(tb, r)
    ensures |r.headers| == 2
  {
    ExecuteRequest(tb, NewRequest(Get, CreateUri(tb, path)))
  }

  /**
   * `postJson(path, body)`: a POST of the normalised URI, tagged, whose entity reads back as
   * exactly `body` under the JSON encoding. This is the corrected encoding; the code as
   * written is `PostJsonAsWritten`.
   */
  function PostJson<M>(tb: TestBase<M>, path: string, body: string): (r: Request)
    ensures r.verb == Post && r.uri == CreateUri(tb, path) && r.entity.Some?
    ensures IsTagged(tb, r)
    ensures Utf8Decode(r.entity.value) == Some(body)
  {
    Utf8RoundTrip(body);
    ExecuteRequest(tb, NewRequest(Post, CreateUri(tb, path)).(entity := Some(Utf8Encode(body))))
  }

  /** `postJson` as written: `new StringEntity(body)` encodes the body as ISO-8859-1. */
  function PostJsonAsWritten<M>(tb: TestBase<M>, path: string, body: string): (r: Request)
    ensures r.verb == Post && r.uri == CreateUri(tb, path)
    ensures IsTagged(tb, r)
    ensures r.entity == Some(Latin1Encode(body))
  {
    ExecuteRequest(tb, NewRequest(Post, CreateUri(tb, path)).(entity := Some(Latin1Encode(body))))
  }

  /**
   * The body the service reads from `PostJsonAsWritten` is the body the test wrote exactly when
   * it is plain ASCII: `{"name":"é"}` arrives as ill-formed UTF-8, and a character outside
   * ISO-8859-1 arrives as `?`.
   */
  lemma PostJsonAsWrittenGarblesNonAscii<M>(tb: TestBase<M>, path: string, body: string)
    ensures Utf8Decode(PostJsonAsWritten(tb, path, body).entity.value) == Some(body) <==> IsAscii(body)
  {
    Latin1ReadAsUtf8(body);
  }

  /** A concrete case: a lone `é` is sent as the single byte 0xE9, which no UTF-8 reader accepts. */
  lemma PostJsonAsWrittenAccentExample<M>(tb: TestBase<M>, path: string)
    ensures PostJsonAsWritten(tb, path, "\U{E9}").entity == Some([0xE9])
    ensures Utf8Decode([0xE9]) == None
    ensures PostJson(tb, path, "\U{E9}").entity == Some([0xC3, 0xA9])
  {
    var body := "\U{E9}";
    assert body[1..] == [];
    assert Latin1Encode(body) == [0xE9];
    assert Utf8EncodeChar(body[0]) == [0xC3, 0xA9];
    assert Utf8Encode(body) == [0xC3, 0xA9] + Utf8Encode([]) == [0xC3, 0xA9];
    assert PostJson(tb, path, body).entity == Some(Utf8Encode(body));
  }

  /** The corrected and the as-written requests agree on every ASCII body. */
  lemma PostJsonAgreesOnAscii<M>(tb: TestBase<M>, path: string, body: string)
    requires IsAscii(body)
    ensures PostJson(tb, path, body) == PostJsonAsWritten(tb, path, body)
  {
    assert Utf8Encode(body) == Latin1Encode(body) by {
      AsciiEncodingsAgree(body);
    }
  }

  lemma {:induction false} AsciiEncodingsAgree(s: string)
    requires IsAscii(s)
    ensures Utf8Encode(s) == Latin1Encode(s)
  {
    if |s| > 0 {
      assert IsAscii(s[1..]) by {
        forall i | 0 <= i < |s[1..]| ensures s[1..][i] as int < 0x80 {
          assert s[1..][i] == s[i + 1];
        }
      }
      AsciiEncodingsAgree(s[1..]);
    }
  }

  // Sessions: what a test instance does over its lifetime

  /** One thing a test does with its base. */
  datatype Step<M> =
    | DoRegisterMock(mock: M, cls: MockClass)
    | DoRegisterNewMock(cls: MockClass, created: M)
    | DoResetAllMocks
    | DoGetJson(path: string)
    | DoPostJson(path: string, body: string)

  /** The mock a registration step hands over; no other step names one. */
  function OwnMocks<M>(step: Step<M>): seq<M>
  {
    match step
    case DoRegisterMock(mock, _) => [mock]
    case DoRegisterNewMock(_, created) => [created]
    case _ => []
  }

  /** The mocks the registration steps among `steps` hand over, in step order. */
  function StepMocks<M>(steps: seq<Step<M>>): seq<M>
    decreases |steps|
  {
    if |steps| == 0 then [] else OwnMocks(steps[0]) + StepMocks(steps[1..])
  }

  predicate IsRequestStep<M>(step: Step<M>)
  {
    step.DoGetJson? || step.DoPostJson?
  }

  /** The steps among `steps` that build a request, in order. */
  function RequestSteps<M>(steps: seq<Step<M>>): (rs: seq<Step<M>>)
    ensures forall i :: 0 <= i < |rs| ==> IsRequestStep(rs[i])
    decreases |steps|
  {
    if |steps| == 0 then []
    else (if IsRequestStep(steps[0]) then [steps[0]] else []) + RequestSteps(steps[1..])
  }

  /** The request a request-building step sends; a POST is built as the source writes it. */
  function Build<M>(tb: TestBase<M>, step: Step<M>): Request
    requires IsRequestStep(step)
  {
    match step
    case DoGetJson(path) => GetJson(tb, path)
    case DoPostJson(path, body) => PostJsonAsWritten(tb, path, body)
  }

  /** A request depends on the key, the cookie name and the URL, never on the mocks or the calls. */
  lemma BuildIgnoresMocks<M>(tb: TestBase<M>, other: TestBase<M>, step: Step<M>)
    requires IsRequestStep(step)
    requires other.mockUniqueKey == tb.mockUniqueKey && other.cookieName == tb.cookieName && other.testUrl == tb.testUrl
    ensures Build(other, step) == Build(tb, step)
  {
  }

  /** One step: the instance after it and the requests it built (none, or one). */
  function Apply<M>(tb: TestBase<M>, step: Step<M>): (r: (TestBase<M>, seq<Request>))
    ensures r.0.mockUniqueKey == tb.mockUniqueKey && r.0.cookieName == tb.cookieName && r.0.testUrl == tb.testUrl
    ensures r.0.mocks == tb.mocks + OwnMocks(step)
    ensures r.1 == if IsRequestStep(step) then [Build(tb, step)] else []
  {
    match step
    case DoRegisterMock(mock, cls) => (RegisterMock(tb, mock, cls).0, [])
    case DoRegisterNewMock(cls, created) => (RegisterNewMock(tb, cls, created).0, [])
    case DoResetAllMocks => (ResetAllMocks(tb), [])
    case DoGetJson(path) => (tb, [GetJson(tb, path)])
    case DoPostJson(path, body) => (tb, [PostJsonAsWritten(tb, path, body)])
  }

  /**
   * The instance after `steps`, and the requests they built, in order: the key, cookie name and
   * URL are kept, the mock list grows by exactly the mocks the registration steps name, and the
   * requests are those of the request-building steps, each as built on the starting instance.
   */
  function Run<M>(tb: TestBase<M>, steps: seq<Step<M>>): (r: (TestBase<M>, seq<Request>))
    ensures r.0.mockUniqueKey == tb.mockUniqueKey && r.0.cookieName == tb.cookieName && r.0.testUrl == tb.testUrl
    ensures r.0.mocks == tb.mocks + StepMocks(steps)
    ensures |r.1| == |RequestSteps(steps)|
    ensures forall i :: 0 <= i < |r.1| ==> r.1[i] == Build(tb, RequestSteps(steps)[i])
    decreases |steps|
  {
    if |steps| == 0 then (tb, [])
    else
      var (next, sent) := Apply(tb, steps[0]);
      var (final, later) := Run(next, steps[1..]);
      RunRequests(tb, next, steps, sent, later);
      (final, sent + later)
  }

  /** How the first step's requests and the rest's line up with the request-building steps. */
  lemma RunRequests<M>(tb: TestBase<M>, next: TestBase<M>, steps: seq<Step<M>>, sent: seq<Request>, later: seq<Request>)
    requires |steps| > 0
    requires next.mockUniqueKey == tb.mockUniqueKey && next.cookieName == tb.cookieName && next.testUrl == tb.testUrl
    requires sent == if IsRequestStep(steps[0]) then [Build(tb, steps[0])] else []
    requires |later| == |RequestSteps(steps[1..])|
    requires forall i :: 0 <= i < |later| ==> later[i] == Build(next, RequestSteps(steps[1..])[i])
    ensures |sent + later| == |RequestSteps(steps)|
    ensures forall i :: 0 <= i < |sent + later| ==> (sent + later)[i] == Build(tb, RequestSteps(steps)[i])
  {
    var rs := RequestSteps(steps[1..]);
    var head := if IsRequestStep(steps[0]) then [steps[0]] else [];
    assert RequestSteps(steps) == head + rs;
    forall i | 0 <= i < |later| ensures later[i] == Build(tb, rs[i]) {
      BuildIgnoresMocks(tb, next, rs[i]);
    }
  }

  /**
   * Over any sequence of steps the key, cookie name and URL never change, the instance stays
   * well-formed (so every registration used the one key), and every request built carries the
   * JSON content type and the cookie with that same key.
   */
  lemma {:induction false} RunKeepsKeyAndTagsEveryRequest<M>(tb: TestBase<M>, steps: seq<Step<M>>)
    requires WellFormed(tb)
    ensures var (final, sent) := Run(tb, steps);
      && WellFormed(final)
      && final.mockUniqueKey == tb.mockUniqueKey && final.cookieName == tb.cookieName && final.testUrl == tb.testUrl
      && forall i :: 0 <= i < |sent| ==> IsTagged(tb, sent[i])
    decreases |steps|
  {
    if |steps| > 0 {
      var next := Apply(tb, steps[0]).0;
      match steps[0] {
        case DoRegisterMock(mock, cls) => RegisterMockPreservesWellFormed(tb, mock, cls);
        case DoRegisterNewMock(cls, created) => RegisterMockPreservesWellFormed(tb, created, cls);
        case DoResetAllMocks => ResetAllMocksPreservesWellFormed(tb);
        case DoGetJson(_) =>
        case DoPostJson(_, _) =>
      }
      RunKeepsKeyAndTagsEveryRequest(next, steps[1..]);
      assert MockCookie(next) == MockCookie(tb);
    }
  }
}
