/**
 * The request record a test builds before handing it to the HTTP client: method, target URI,
 * header list and entity bytes. Only the parts the test code touches are modelled.
 */
module HttpRequests {
  import opened Wrappers
  import opened Charsets

  datatype Header = Header(name: string, value: string)

  datatype Method = Get | Post

  datatype Request = Request(verb: Method, uri: string, headers: seq<Header>, entity: Option<seq<Byte>>)

  /** A request as `new HttpGet(uri)` / `new HttpPost(uri)` creates it: no headers, no entity. */
  function NewRequest(verb: Method, uri: string): Request
  {
    Request(verb, uri, [], None)
  }

  /** `hs[i]` is called `name` and no header before it is. */
  predicate IsFirstNamed(hs: seq<Header>, i: int, name: string)
  {
    0 <= i < |hs| && hs[i].name == name && forall j :: 0 <= j < i ==> hs[j].name != name
  }

  /** The value of the first header called `name`, as the request reports it. */
  function HeaderValue(hs: seq<Header>, name: string): (v: Option<string>)
    ensures v.None? <==> forall i :: 0 <= i < |hs| ==> hs[i].name != name
    ensures v.Some? ==> exists i :: IsFirstNamed(hs, i, name) && hs[i].value == v.value
  {
    if |hs| == 0 then None
    else if hs[0].name == name then Some(hs[0].value)
    else
      var v := HeaderValue(hs[1..], name);
      assert forall i :: 0 < i < |hs| ==> hs[i] == hs[1..][i - 1];
      assert v.Some? ==> exists i :: IsFirstNamed(hs, i, name) && hs[i].value == v.value by {
        if v.Some? {
          var k :| IsFirstNamed(hs[1..], k, name) && hs[1..][k].value == v.value;
          assert hs[k + 1] == hs[1..][k];
          assert forall j :: 0 <= j < k + 1 ==> hs[j].name != name by {
            forall j | 0 <= j < k + 1 ensures hs[j].name != name {
              if j > 0 {
                assert hs[j] == hs[1..][j - 1];
              }
            }
          }
          assert IsFirstNamed(hs, k + 1, name);
        }
      }
      v
  }

  /**
   * `setHeader(name, value)`: overwrites the first header with that name, or appends one
   * when there is none.
   */
  function SetHeader(hs: seq<Header>, name: string, value: string): (r: seq<Header>)
    ensures HeaderValue(r, name) == Some(value)
    ensures forall other :: other != name ==> HeaderValue(r, other) == HeaderValue(hs, other)
    ensures |r| == if HeaderValue(hs, name).Some? then |hs| else |hs| + 1
  {
    if |hs| == 0 then [Header(name, value)]
    else if hs[0].name == name then [Header(name, value)] + hs[1..]
    else
      var rest := SetHeader(hs[1..], name, value);
      assert ([hs[0]] + rest)[1..] == rest;
      [hs[0]] + rest
  }
}
