/**
 * `apiRequest` of frontend/app/utils/api.ts: send the request with a
 * bearer token when one is stored; on a 401, ask `/auth/refresh` once,
 * then either retry once with the new access token or clear storage and
 * go to `/login`.
 */
module AppApi {
  import opened Wrappers
  import opened Http

  /**
   * The first request's headers: `Content-Type: application/json`, then the
   * caller's headers over it, then `Authorization` over both when a token is
   * stored.
   */
  function FirstHeaders(callerHeaders: Headers, token: Option<string>): (h: Headers)
    ensures ContentType in h
    ensures ContentType !in callerHeaders ==> h[ContentType] == Json
    ensures Truthy(token) ==> Authorization in h && h[Authorization] == Bearer(token.value)
    ensures !Truthy(token) ==> (Authorization in h <==> Authorization in callerHeaders)
    ensures forall k :: k in callerHeaders && (k != Authorization || !Truthy(token)) ==> k in h && h[k] == callerHeaders[k]
    ensures forall k :: k in h ==> k in callerHeaders || k == ContentType || k == Authorization
  {
    map[ContentType := Json] + callerHeaders + (if Truthy(token) then map[Authorization := Bearer(token.value)] else map[])
  }

  /** The retry's headers: as the first ones, but `Authorization` is always set, to the new token. */
  function RetryHeaders(callerHeaders: Headers, accessToken: string): (h: Headers)
    ensures Authorization in h && h[Authorization] == Bearer(accessToken)
    ensures ContentType in h
    ensures ContentType !in callerHeaders ==> h[ContentType] == Json
    ensures forall k :: k in callerHeaders && k != Authorization ==> k in h && h[k] == callerHeaders[k]
    ensures forall k :: k in h ==> k in callerHeaders || k == ContentType || k == Authorization
  {
    map[ContentType := Json] + callerHeaders + map[Authorization := Bearer(accessToken)]
  }

  /**
   * After the first request drew a 401 (`unauthorized`), with `n` requests
   * already sent: one refresh request; on success the new access token is
   * stored and the request is sent once more, whose reply is returned;
   * otherwise storage is cleared, the page goes to `/login` and the 401 is
   * returned.
   */
  function AfterUnauthorized(server: Server, n: nat, storage: map<string, string>, location: string,
                             baseUrl: string, endpoint: string, options: Init, unauthorized: Response): (e: Exchange)
    ensures 1 <= |e.requests| <= 2
    ensures e.requests[0] == RefreshRequest(baseUrl, GetItem(storage, "refreshToken"))
    ensures var refreshRes := server(n, e.requests[0]);
      && (Ok(refreshRes) <==> |e.requests| == 2)
      && (Ok(refreshRes) ==>
            var token := JsString(refreshRes.accessToken, "undefined");
            && e.requests[1].url == baseUrl + endpoint
            && e.requests[1].init == WithHeaders(options, RetryHeaders(options.headers, token))
            && e.reply == server(n + 1, e.requests[1])
            && e.storage == storage["accessToken" := token]
            && e.location == location)
      && (!Ok(refreshRes) ==> e.reply == unauthorized && e.storage == map[] && e.location == "/login")
  {
    var refresh := RefreshRequest(baseUrl, GetItem(storage, "refreshToken"));
    var refreshRes := server(n, refresh);
    if Ok(refreshRes) then
      var token := JsString(refreshRes.accessToken, "undefined");
      var retry := Request(baseUrl + endpoint, WithHeaders(options, RetryHeaders(options.headers, token)));
      Exchange([refresh, retry], storage["accessToken" := token], location, server(n + 1, retry))
    else
      Exchange([refresh], map[], "/login", unauthorized)
  }

  /**
   * One `apiRequest(endpoint, options)` with `n` requests already sent: the
   * request goes to `baseUrl + endpoint` with the first headers; a reply
   * other than 401 is returned as it is and changes nothing else; a 401
   * leads to at most one refresh and one retry of the same request.
   */
  function Protocol(server: Server, n: nat, storage: map<string, string>, location: string,
                    baseUrl: string, endpoint: string, options: Init): (e: Exchange)
    ensures 1 <= |e.requests| <= 3
    ensures e.requests[0] == Request(baseUrl + endpoint, WithHeaders(options, FirstHeaders(options.headers, GetItem(storage, "accessToken"))))
    ensures var firstRes := server(n, e.requests[0]);
      && (firstRes.status != 401 ==>
            |e.requests| == 1 && e.reply == firstRes && e.storage == storage && e.location == location)
      && (firstRes.status == 401 ==>
            && 2 <= |e.requests|
            && e.requests[1] == RefreshRequest(baseUrl, GetItem(storage, "refreshToken"))
            && var refreshRes := server(n + 1, e.requests[1]);
            && (Ok(refreshRes) <==> |e.requests| == 3)
            && (Ok(refreshRes) ==>
                  var token := JsString(refreshRes.accessToken, "undefined");
                  && e.requests[2] == Request(baseUrl + endpoint, WithHeaders(options, RetryHeaders(options.headers, token)))
                  && e.reply == server(n + 2, e.requests[2])
                  && e.storage == storage["accessToken" := token]
                  && e.location == location)
            && (!Ok(refreshRes) ==> e.reply == firstRes && e.storage == map[] && e.location == "/login"))
  {
    var first := Request(baseUrl + endpoint, WithHeaders(options, FirstHeaders(options.headers, GetItem(storage, "accessToken"))));
    var firstRes := server(n, first);
    if firstRes.status != 401 then
      Exchange([first], storage, location, firstRes)
    else
      var e := AfterUnauthorized(server, n + 1, storage, location, baseUrl, endpoint, options, firstRes);
      Exchange([first] + e.requests, e.storage, e.location, e.reply)
  }

  /** The retry, when there is one, repeats the first request with only `Authorization` changed. */
  lemma RetryRepeatsRequest(server: Server, n: nat, storage: map<string, string>, location: string,
                            baseUrl: string, endpoint: string, options: Init)
    ensures var e := Protocol(server, n, storage, location, baseUrl, endpoint, options);
      |e.requests| == 3 ==>
        && e.requests[2].url == e.requests[0].url
        && e.requests[2].init.verb == e.requests[0].init.verb
        && e.requests[2].init.body == e.requests[0].init.body
        && forall k :: k != Authorization ==>
             (k in e.requests[2].init.headers <==> k in e.requests[0].init.headers)
  {
  }

  method ApiRequest(b: Browser, server: Server, baseUrl: string, endpoint: string, options: Init)
    returns (res: Response)
    modifies b
    ensures var e := Protocol(server, |old(b.sent)|, old(b.storage), old(b.location), baseUrl, endpoint, options);
      b.sent == old(b.sent) + e.requests && b.storage == e.storage && b.location == e.location && res == e.reply
  {
    var token := GetItem(b.storage, "accessToken");
    res := b.Fetch(server, Request(baseUrl + endpoint, WithHeaders(options, FirstHeaders(options.headers, token))));
    if res.status == 401 {
      res := RefreshAndRetry(b, server, baseUrl, endpoint, options, res);
    }
  }

  /** The 401 branch of `apiRequest`. */
  method RefreshAndRetry(b: Browser, server: Server, baseUrl: string, endpoint: string, options: Init, unauthorized: Response)
    returns (res: Response)
    modifies b
    ensures var e := AfterUnauthorized(server, |old(b.sent)|, old(b.storage), old(b.location), baseUrl, endpoint, options, unauthorized);
      b.sent == old(b.sent) + e.requests && b.storage == e.storage && b.location == e.location && res == e.reply
  {
    var refreshToken := GetItem(b.storage, "refreshToken");
    var refreshRes := b.Fetch(server, RefreshRequest(baseUrl, refreshToken));
    if Ok(refreshRes) {
      var accessToken := JsString(refreshRes.accessToken, "undefined");
      b.storage := b.storage["accessToken" := accessToken];
      res := b.Fetch(server, Request(baseUrl + endpoint, WithHeaders(options, RetryHeaders(options.headers, accessToken))));
    } else {
      res := unauthorized;
      b.storage := map[];
      b.location := "/login";
    }
  }
}
