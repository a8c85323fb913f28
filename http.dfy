/**
 * The browser as the two `apiRequest` helpers see it: `localStorage`, the
 * current location, and `fetch` against a server whose replies are given
 * as an oracle indexed by the number of calls made so far.
 */
module Http {
  import opened Wrappers
  import opened TaskList

  type Headers = map<string, string>

  const ContentType := "Content-Type"
  const Authorization := "Authorization"
  const Json := "application/json"

  /** What `JSON.stringify` is given as a request body. */
  datatype Payload =
    | NoPayload
    | RefreshTokenBody(refreshToken: Option<string>)
    | TaskBody(title: string, description: string)

  /** `RequestInit`: the HTTP method (`verb`), the headers as a plain object, and the body. */
  datatype Init = Init(verb: Option<string>, headers: Headers, body: Payload)

  datatype Request = Request(url: string, init: Init)

  /** `{ ...options, headers }`: everything but the headers is passed through. */
  function WithHeaders(options: Init, headers: Headers): (r: Init)
    ensures r.verb == options.verb && r.body == options.body && r.headers == headers
  {
    options.(headers := headers)
  }

  /**
   * A `Response` with the parts of its JSON body the client reads:
   * `accessToken` after a refresh, `task` after a change, `message` otherwise.
   */
  datatype Response = Response(status: int, accessToken: Option<string>, task: Option<ClientTask>, message: string)

  /** `Response.ok`: a status in the range 200-299. */
  predicate Ok(res: Response)
  {
    200 <= res.status <= 299
  }

  /** `localStorage.getItem`: `null` (`None`) for a missing key. */
  function GetItem(storage: map<string, string>, key: string): (r: Option<string>)
    ensures r.Some? <==> key in storage
    ensures r.Some? ==> r.value == storage[key]
  {
    if key in storage then Some(storage[key]) else None
  }

  /** A JavaScript truthiness test on a value that is a string or absent: `""` is falsy. */
  predicate Truthy(v: Option<string>)
  {
    v.Some? && v.value != ""
  }

  /**
   * A template literal's rendering of a string that may be absent: `absent`
   * is `"null"` for a `getItem` result and `"undefined"` for a missing JSON field.
   */
  function JsString(v: Option<string>, absent: string): (s: string)
    ensures v.Some? ==> s == v.value
    ensures v.None? ==> s == absent
  {
    if v.Some? then v.value else absent
  }

  /** `Authorization: Bearer <token>`, the header form of section 2.1 of RFC 6750. */
  function Bearer(token: string): (s: string)
    ensures |s| == 7 + |token| && s[..7] == "Bearer " && s[7..] == token
  {
    "Bearer " + token
  }

  /** The request both helpers send to `/auth/refresh`. */
  function RefreshRequest(backendUrl: string, refreshToken: Option<string>): (r: Request)
    ensures r.url == backendUrl + "/auth/refresh"
    ensures r.init.verb == Some("POST")
    ensures r.init.headers == map[ContentType := Json]
    ensures r.init.body == RefreshTokenBody(refreshToken)
  {
    Request(backendUrl + "/auth/refresh", Init(Some("POST"), map[ContentType := Json], RefreshTokenBody(refreshToken)))
  }

  /**
   * What one `apiRequest` call does to the browser: the requests it sends,
   * in order, the storage and location it leaves, and the reply it returns.
   */
  datatype Exchange = Exchange(requests: seq<Request>, storage: map<string, string>, location: string, reply: Response)

  /** The server: its reply to the `n`-th request made by this browser. */
  type Server = (nat, Request) -> Response

  class Browser {
    var storage: map<string, string>
    var location: string
    /** Every request sent, in order. */
    var sent: seq<Request>

    constructor (storage: map<string, string>, location: string)
      ensures this.storage == storage && this.location == location && sent == []
    {
      this.storage := storage;
      this.location := location;
      sent := [];
    }

    /** `fetch`: the request is logged and the server's reply returned. */
    method Fetch(server: Server, req: Request) returns (res: Response)
      modifies this
      ensures sent == old(sent) + [req]
      ensures res == server(|old(sent)|, req)
      ensures storage == old(storage) && location == old(location)
    {
      res := server(|sent|, req);
      sent := sent + [req];
    }
  }
}
