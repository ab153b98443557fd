/** The slice of HTTP the handlers see: a request's method, path and header
    list, and a response's status, header list and body. Header names are held
    in lower case, as the HTTP library normalises them; a header lookup returns
    the value of the first header with that name. */
module Http {
  import opened Octets

  datatype Header = Header(name: string, value: Bytes)

  datatype Request = Request(httpMethod: string, path: string, headers: seq<Header>)

  datatype Response = Response(status: nat, headers: seq<Header>, body: Bytes)

  const OK: nat := 200
  const NOT_MODIFIED: nat := 304
  const NOT_FOUND: nat := 404

  /** The value of the first header called `name`, if any. */
  function GetHeader(headers: seq<Header>, name: string): (r: Option<Bytes>)
    ensures r.None? <==> forall i :: 0 <= i < |headers| ==> headers[i].name != name
    ensures r.Some? ==> exists i :: 0 <= i < |headers| && headers[i].name == name
                                    && headers[i].value == r.value
                                    && forall j :: 0 <= j < i ==> headers[j].name != name
  {
    if headers == [] then None
    else if headers[0].name == name then Some(headers[0].value)
    else
      var r := GetHeader(headers[1..], name);
      assert r.Some? ==> exists i :: 1 <= i < |headers| && headers[i].name == name
                                     && headers[i].value == r.value
                                     && forall j :: 0 <= j < i ==> headers[j].name != name by {
        if r.Some? {
          var k :| 0 <= k < |headers[1..]| && headers[1..][k].name == name
                   && headers[1..][k].value == r.value
                   && forall j :: 0 <= j < k ==> headers[1..][j].name != name;
          assert forall j :: 0 <= j < k + 1 ==> headers[j].name != name by {
            forall j | 0 <= j < k + 1 ensures headers[j].name != name {
              if j > 0 { assert headers[j] == headers[1..][j - 1]; }
            }
          }
        }
      }
      r
  }

  /** A request carrying exactly the given headers, as a client's GET of `/`. */
  function Get(headers: seq<Header>): Request {
    Request("GET", "/", headers)
  }
}
