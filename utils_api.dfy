/**
 * `apiRequest` of frontend/utils/api.ts: the same single refresh-and-retry
 * protocol as AppApi, but the `url` is absolute and used as given, no
 * `Content-Type` is added, and `Authorization` is always sent, reading
 * `Bearer null` when no token is stored.
 */
module UtilsApi {
  import opened Wrappers
  import opened Http

  /** The caller's headers with `Authorization: Bearer <token>` over them. */
  function AuthorizedHeaders(callerHeaders: Headers, token: string): (h: Headers)
    ensures Authorization in h && h[Authorization] == Bearer(token)
    ensures forall k :: k in callerHeaders && k != Authorization ==> k in h && h[k] == callerHeaders[k]
    ensures forall k :: k in h ==> k in callerHeaders || k == Authorization
  {
    callerHeaders + map[Authorization := Bearer(token)]
  }

  /**
   * `backendUrl` below is `process.env.NEXT_PUBLIC_BACKEND_URL`, which only
   * the refresh call uses.
   *
   * After the first request drew a 401 (`unauthorized`), with `n` requests
   * already sent: one refresh request; on success the new access token is
   * stored and the request is sent once more, whose reply is returned;
   * otherwise storage is cleared, the page goes to `/login` and the 401 is
   * returned.
   */
  function AfterUnauthorized(server: Server, n: nat, storage: map<string, string>, location: string,
                             backendUrl: string, url: string, options: Init, unauthorized: Response): (e: Exchange)
    ensures 1 <= |e.requests| <= 2
    ensures e.requests[0] == RefreshRequest(backendUrl, GetItem(storage, "refreshToken"))
    ensures var refreshRes := server(n, e.requests[0]);
      && (Ok(refreshRes) <==> |e.requests| == 2)
      && (Ok(refreshRes) ==>
            var token := JsString(refreshRes.accessToken, "undefined");
            && e.requests[1].url == url
            && e.requests[1].init == WithHeaders(options, AuthorizedHeaders(options.headers, token))
            && e.reply == server(n + 1, e.requests[1])
            && e.storage == storage["accessToken" := token]
            && e.location == location)
      && (!Ok(refreshRes) ==> e.reply == unauthorized && e.storage == map[] && e.location == "/login")
  {
    var refresh := RefreshRequest(backendUrl, GetItem(storage, "refreshToken"));
    var refreshRes := server(n, refresh);
    if Ok(refreshRes) then
      var token := JsString(refreshRes.accessToken, "undefined");
      var retry := Request(url, WithHeaders(options, AuthorizedHeaders(options.headers, token)));
      Exchange([refresh, retry], storage["accessToken" := token], location, server(n + 1, retry))
    else
      Exchange([refresh], map[], "/login", unauthorized)
  }

  /**
   * One `apiRequest(url, options)` with `n` requests already sent: the
   * request goes to `url` with `Authorization` always set; a reply other
   * than 401 is returned as it is and changes nothing else; a 401
   * leads to at most one refresh and one retry of the same request.
   */
  function Protocol(server: Server, n: nat, storage: map<string, string>, location: string,
                    backendUrl: string, url: string, options: Init): (e: Exchange)
    ensures 1 <= |e.requests| <= 3
    ensures e.requests[0] == Request(url, WithHeaders(options, AuthorizedHeaders(options.headers, JsString(GetItem(storage, "accessToken"), "null"))))
    ensures var firstRes := server(n, e.requests[0]);
      && (firstRes.status != 401 ==>
            |e.requests| == 1 && e.reply == firstRes && e.storage == storage && e.location == location)
      && (firstRes.status == 401 ==>
            && 2 <= |e.requests|
            && e.requests[1] == RefreshRequest(backendUrl, GetItem(storage, "refreshToken"))
            && var refreshRes := server(n + 1, e.requests[1]);
            && (Ok(refreshRes) <==> |e.requests| == 3)
            && (Ok(refreshRes) ==>
                  var token := JsString(refreshRes.accessToken, "undefined");
                  && e.requests[2] == Request(url, WithHeaders(options, AuthorizedHeaders(options.headers, token)))
                  && e.reply == server(n + 2, e.requests[2])
                  && e.storage == storage["accessToken" := token]
                  && e.location == location)
            && (!Ok(refreshRes) ==> e.reply == firstRes && e.storage == map[] && e.location == "/login"))
  {
    var first := Request(url, WithHeaders(options, AuthorizedHeaders(options.headers, JsString(GetItem(storage, "accessToken"), "null"))));
    var firstRes := server(n, first);
    if firstRes.status != 401 then
      Exchange([first], storage, location, firstRes)
    else
      var e := AfterUnauthorized(server, n + 1, storage, location, backendUrl, url, options, firstRes);
      Exchange([first] + e.requests, e.storage, e.location, e.reply)
  }

  /** The retry, when there is one, repeats the first request with only `Authorization` changed. */
  lemma RetryRepeatsRequest(server: Server, n: nat, storage: map<string, string>, location: string,
                            backendUrl: string, url: string, options: Init)
    ensures var e := Protocol(server, n, storage, location, backendUrl, url, options);
      |e.requests| == 3 ==>
        && e.requests[2].url == e.requests[0].url
        && e.requests[2].init.verb == e.requests[0].init.verb
        && e.requests[2].init.body == e.requests[0].init.body
        && forall k :: k != Authorization ==>
             (k in e.requests[2].init.headers <==> k in e.requests[0].init.headers)
  {
  }

  method ApiRequest(b: Browser, server: Server, backendUrl: string, url: string, options: Init)
    returns (res: Response)
    modifies b
    ensures var e := Protocol(server, |old(b.sent)|, old(b.storage), old(b.location), backendUrl, url, options);
      b.sent == old(b.sent) + e.requests && b.storage == e.storage && b.location == e.location && res == e.reply
  {
    var token := GetItem(b.storage, "accessToken");
    res := b.Fetch(server, Request(url, WithHeaders(options, AuthorizedHeaders(options.headers, JsString(token, "null")))));
    if res.status == 401 {
      res := RefreshAndRetry(b, server, backendUrl, url, options, res);
    }
  }

  /** The 401 branch of `apiRequest`. */
  method RefreshAndRetry(b: Browser, server: Server, backendUrl: string, url: string, options: Init, unauthorized: Response)
    returns (res: Response)
    modifies b
    ensures var e := AfterUnauthorized(server, |old(b.sent)|, old(b.storage), old(b.location), backendUrl, url, options, unauthorized);
      b.sent == old(b.sent) + e.requests && b.storage == e.storage && b.location == e.location && res == e.reply
  {
    var refreshToken := GetItem(b.storage, "refreshToken");
    var refreshRes := b.Fetch(server, RefreshRequest(backendUrl, refreshToken));
    if Ok(refreshRes) {
      var accessToken := JsString(refreshRes.accessToken, "undefined");
      b.storage := b.storage["accessToken" := accessToken];
      res := b.Fetch(server, Request(url, WithHeaders(options, AuthorizedHeaders(options.headers, accessToken))));
    } else {
      res := unauthorized;
      b.storage := map[];
      b.location := "/login";
    }
  }
}
