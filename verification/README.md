# isolator4j client side, modelled in Dafny

isolator4j lets tests drive a long-lived service while each test keeps its own private mocks.
A test class extends `ResourceTestBase`. Each instance gets one mock unique key. The instance
registers its mocks in a process-wide `MockRegistry` under that key and keeps a list of them so
that it can reset them before every test method. Every JSON request it sends carries the key in
a cookie, so the service can find the right mocks. Each request returns a `Response`, an
immutable (status code, body) value.

This project models that client side:

- `ResourceTestBase` (`resource_test_base.dfy`): a test instance is a value. It holds the key, the
  cookie name, the test URL, the mock list and a log of the calls it makes into the registry and
  into Mockito. The file covers path normalisation, URI building, request tagging, GET and POST
  request building, `registerMock`, `resetAllMocks`, and a `Run` over any sequence of these steps.
  `Run` sends a POST the way the code builds it (`PostJsonAsWritten`); `PostJson` is the corrected
  form described under Findings.
- `Responses` (`response.dfy`): the `Response` datatype, `equals` against any Java object, the
  `HashCodeBuilder(17, 37)` hash and the `ToStringBuilder` text form, with a parser for that text.
- Support modules: Java `int` wrap-around (`java_int.dfy`), `String.hashCode` (`java_string.dfy`),
  `Integer.toString` and `Integer.toHexString` (`digits.dfy`), the ISO-8859-1 and UTF-8 codecs
  (`charsets.dfy`), and the header list and request record (`http_requests.dfy`).

Calls into code outside the core are not given a meaning. These are the registry's
`registerMock` and Mockito's `reset`. Each one is appended to the instance's call log
(`ForeignCall`). The properties are stated over that log.

In two places the code does less than its purpose suggests, and the model follows the code:

- `toString` is not a function of code and body alone. The default `ToStringBuilder` style
  prints `net.mindengine.isolator4j.Response@<identity hash in hex>[code=…,body=…]`, so two equal
  responses print differently whenever their identity hashes differ. `Responses.ToString` therefore
  takes the identity hash as a parameter. `Responses.ToStringInjective` shows that code, body and
  identity hash together determine the text, and that the text determines all three.
- The POST body is not sent verbatim for every string (see Findings).

## Model

| member | source | states |
|---|---|---|
| `Responses.GettersReturnConstructorArguments` | src/main/java/net/mindengine/isolator4j/Response.java:23-38 | `getCode()` and `getBody()` return exactly the constructor's arguments |
| `Responses.Equals` | src/main/java/net/mindengine/isolator4j/Response.java:41-52 | `equals(o)` holds exactly when `o` is a `Response` with the same value; null and any other class give false |
| `Responses.EqualsFieldwise` | src/main/java/net/mindengine/isolator4j/Response.java:48-51 | two responses are equal if and only if their codes are equal and their bodies are equal |
| `Responses.EqualsRejectsNullAndOtherClasses` | src/main/java/net/mindengine/isolator4j/Response.java:44 | `equals(null)` and `equals` with an object of another class are false |
| `Responses.EqualsIsEquivalence` | src/main/java/net/mindengine/isolator4j/Response.java:41-52 | `equals` is reflexive, symmetric and transitive |
| `Responses.HashCode` | src/main/java/net/mindengine/isolator4j/Response.java:55-60 | the stepwise builder hash (start at 17, multiply by 37 and add each field, with `int` wrap-around) equals one polynomial `17·37² + 37·code + Σ 31^k·unit` over the body's UTF-16 units, reduced to 32 bits once |
| `Responses.HashCodeConsistentWithEquals` | src/main/java/net/mindengine/isolator4j/Response.java:41-60 | equal responses have equal hash codes |
| `JavaString.HashCode` | src/main/java/net/mindengine/isolator4j/Response.java:58 | the body's hash as Java's loop computes it (`h = 31·h + unit` over the UTF-16 units, wrapping each step) equals the closed-form polynomial in 31 reduced to 32 bits |
| `Responses.ToString` | src/main/java/net/mindengine/isolator4j/Response.java:63-67 | the text form parses back into the code, the whole body and the identity hash, so it mentions both fields and the object's identity |
| `Responses.PrintedRoundTrip` | src/main/java/net/mindengine/isolator4j/Response.java:63-67 | the text `net.mindengine.isolator4j.Response@<hex>[code=<decimal>,body=<body>]` parses back into exactly that code, body and identity hash, whatever characters the body holds |
| `Responses.ToStringInjective` | src/main/java/net/mindengine/isolator4j/Response.java:63-67 | two text forms are equal if and only if the responses are equal and the identity hashes are equal |
| `ResourceTestBase.NewTestBase` | src/main/java/net/mindengine/isolator4j/ResourceTestBase.java:43-60 | a new instance holds the given key and an empty mock list, has made no foreign calls, and is well-formed |
| `ResourceTestBase.RegisterMock` | src/main/java/net/mindengine/isolator4j/ResourceTestBase.java:71-75 | returns the mock it was given, appends it to the end of the list, and logs one registry call with (own key, mock, class name); key, cookie name and URL are unchanged |
| `ResourceTestBase.RegisterNewMock` | src/main/java/net/mindengine/isolator4j/ResourceTestBase.java:67-69 | the mock the framework created is returned, appended to the list and registered under the own key |
| `ResourceTestBase.ResetAllMocks` | src/main/java/net/mindengine/isolator4j/ResourceTestBase.java:63-65 | the current list, in order, goes to one reset call; the list itself is unchanged |
| `ResourceTestBase.RegisterMockPreservesWellFormed` | src/main/java/net/mindengine/isolator4j/ResourceTestBase.java:71-75 | after a registration, the list is still exactly the registered mocks, each registered under the own key |
| `ResourceTestBase.ResetAllMocksPreservesWellFormed` | src/main/java/net/mindengine/isolator4j/ResourceTestBase.java:63-65 | after a reset, every reset call still carries exactly the mocks registered before it |
| `ResourceTestBase.RegisteredMocksMembership` | src/main/java/net/mindengine/isolator4j/ResourceTestBase.java:72-73 | a mock is in the list built from the registry calls if and only if some registry call carried it |
| `ResourceTestBase.ResetCoversExactlyOwnMocks` | src/main/java/net/mindengine/isolator4j/ResourceTestBase.java:60-75 | a reset reaches every mock the instance registered, and every mock it reaches was registered under the instance's own key |
| `ResourceTestBase.NormalisePath` | src/main/java/net/mindengine/isolator4j/ResourceTestBase.java:90-93 | the normalised path always starts with `/` and is either the path itself or the path with `/` in front |
| `ResourceTestBase.NormalisePathIdempotent` | src/main/java/net/mindengine/isolator4j/ResourceTestBase.java:91-93 | a path that starts with `/` is left unchanged, so normalising twice is normalising once |
| `ResourceTestBase.NormalisePathSame` | src/main/java/net/mindengine/isolator4j/ResourceTestBase.java:91-93 | two paths normalise alike if and only if they are equal, or one is the other (lacking `/`) with `/` added |
| `ResourceTestBase.CreateUri` | src/main/java/net/mindengine/isolator4j/ResourceTestBase.java:90-95 | the URI is the test URL followed directly by the normalised path, with nothing inserted |
| `ResourceTestBase.CreateUriSameTarget` | src/main/java/net/mindengine/isolator4j/ResourceTestBase.java:90-95 | two paths give the same URI if and only if they normalise alike; `p` and `"/" + p` give the same URI when `p` lacks `/` |
| `HttpRequests.SetHeader` | src/main/java/net/mindengine/isolator4j/ResourceTestBase.java:105-106 | after `setHeader(name, value)` the header reads `value`, every other header reads as before, and the list grows only if the name was absent |
| `ResourceTestBase.ExecuteRequest` | src/main/java/net/mindengine/isolator4j/ResourceTestBase.java:104-106 | the request carries `Content-Type: application/json` and `Cookie: <cookie name>=<key>`; method, URI, entity and all other headers are unchanged |
| `ResourceTestBase.GetJson` | src/main/java/net/mindengine/isolator4j/ResourceTestBase.java:85-88 | a GET of the normalised URI with no entity and exactly the two tagging headers |
| `ResourceTestBase.PostJson` | src/main/java/net/mindengine/isolator4j/ResourceTestBase.java:97-102 | a tagged POST of the normalised URI whose entity decodes as JSON text (UTF-8) to exactly the given body (corrected encoding; see Findings) |
| `ResourceTestBase.PostJsonAsWritten` | src/main/java/net/mindengine/isolator4j/ResourceTestBase.java:97-101 | the POST as written: tagged, normalised URI, entity is the body's ISO-8859-1 bytes |
| `ResourceTestBase.PostJsonAsWrittenGarblesNonAscii` | src/main/java/net/mindengine/isolator4j/ResourceTestBase.java:99 | the body a JSON reader gets from the as-written POST equals the body sent if and only if the body is plain ASCII |
| `ResourceTestBase.PostJsonAsWrittenAccentExample` | src/main/java/net/mindengine/isolator4j/ResourceTestBase.java:99 | the body `é` is sent as the single byte 0xE9, which is not valid UTF-8; the corrected POST sends 0xC3 0xA9 |
| `ResourceTestBase.PostJsonAgreesOnAscii` | src/main/java/net/mindengine/isolator4j/ResourceTestBase.java:97-101 | for ASCII bodies the corrected and the as-written POST build the same request |
| `Charsets.Utf8RoundTrip` | src/main/java/net/mindengine/isolator4j/ResourceTestBase.java:99 | decoding the UTF-8 encoding of any string gives the string back |
| `Charsets.Latin1Encode` | src/main/java/net/mindengine/isolator4j/ResourceTestBase.java:99 | encoding keeps the length, and each character becomes its own code as one byte when it is below U+0100, and `?` otherwise |
| `Charsets.Latin1RoundTrip` | src/main/java/net/mindengine/isolator4j/ResourceTestBase.java:99 | ISO-8859-1 gives a string back if and only if every character is below U+0100; any other character becomes `?` |
| `ResourceTestBase.Run` | src/main/java/net/mindengine/isolator4j/ResourceTestBase.java:63-106 | over any sequence of steps the key, cookie name and URL are kept, the mock list grows by exactly the mocks the registration steps name, in order, and the requests sent are those of the GET and POST steps, in order, each built as on the starting instance, with POST bodies encoded as the code writes them |
| `ResourceTestBase.RunKeepsKeyAndTagsEveryRequest` | src/main/java/net/mindengine/isolator4j/ResourceTestBase.java:43-106 | over any sequence of registrations, resets, GETs and POSTs, the key, cookie name and URL never change, the instance stays well-formed, and every request carries the JSON content type and the cookie with that one key |

## Left out

- HTTP client construction, its connection time-to-live and pool size, sending the request and reading the reply (ResourceTestBase.java:77-80, 107-110): this is I/O through a library. `GetJson` and `PostJson` return the request record that would be sent. `IOException` therefore never arises.
- Mockito mock creation (`mockIt`, ResourceTestBase.java:51-53): the created mock is the `created` parameter of `RegisterNewMock`. Mocks are values of an opaque type `M`.
- What `Mockito.reset` does to a mock, and everything `MockRegistry` does: its source is not part of this model. Calls to both are recorded in order in the call log. No lookup, replacement or isolation behaviour is assumed for them.
- Key generation with `UUID.randomUUID()` and the log line (ResourceTestBase.java:55-58): the key is a parameter of `NewTestBase`, so uniqueness across instances is not modelled.
- The TestNG `@BeforeMethod` hook and parallel test execution: `ResetAllMocks` is an ordinary step, and an instance is used by one thread.
- `getMockCookieName()` and `getTestUrl()` are modelled as fixed fields of the instance. A subclass whose accessors return different values on different calls is not modelled.
- `URI.create` (ResourceTestBase.java:94) rejects strings that are not valid URIs with `IllegalArgumentException`. The URI is modelled as the plain string, without that check.
- `null` arguments: a null path, a null POST body or a null `Response` body. In Java these throw `NullPointerException` or `IllegalArgumentException`, or print `<null>`. Dafny strings are never null.
- Header names are compared exactly. Apache HttpClient compares them ignoring case, which makes no difference for the two distinct names used here.
- The `text/plain; charset=ISO-8859-1` content type that `StringEntity` carries: it is only sent when the request has no `Content-Type` header, and this one always has one.
- Strings are sequences of Unicode scalar values. A Java string with an unpaired surrogate cannot be represented. For hashing, characters are converted to Java's UTF-16 code units.
- `Responses.ToString`: the object's identity hash (`System.identityHashCode`) is a parameter, because it depends on the running JVM.

## Findings

| source | as written | input that shows it | evidently intended | confidence | as-written member | corrected member |
|---|---|---|---|---|---|---|
| src/main/java/net/mindengine/isolator4j/ResourceTestBase.java:99 | `new StringEntity(requestBody)` encodes the body with ISO-8859-1, the charset of its default `text/plain` content type, while the request declares `application/json`, which is read as UTF-8 (section 8.1 of RFC 8259) | body `{"name":"é"}`: `é` goes out as the single byte 0xE9, which is not valid UTF-8; a character outside ISO-8859-1, such as `Ж`, goes out as `?` | the JSON body reaches the service exactly as the test wrote it, i.e. it is encoded as UTF-8 | medium, not executed; depends on the HttpCore `StringEntity(String)` default charset | `ResourceTestBase.PostJsonAsWrittenGarblesNonAscii` | `ResourceTestBase.PostJson` |
