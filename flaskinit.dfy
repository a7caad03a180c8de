/** dmutils/flask_init.py: the request hooks that decide redirects and
    headers (`add_header`, `remove_trailing_slash`, `add_cache_control`) and
    the `pluralize` template helper. */
module FlaskInit {
  import opened Common
  import opened Http

  /** `pluralize(count, singular, plural)`. */
  function Pluralize(count: int, singular: string, plural: string): string
  {
    if count == 1 then singular else plural
  }

  /** The singular form is chosen for a count of one and for nothing else. */
  lemma PluralizeChoice(count: int, singular: string, plural: string)
    requires singular != plural
    ensures Pluralize(count, singular, plural) == singular <==> count == 1
    ensures Pluralize(0, "person", "people") == "people" && Pluralize(2, "person", "people") == "people"
  {
  }

  // ---------------------------------------------------------------- trailing slashes

  /** `remove_trailing_slash()`: a path ending in `/`, other than the site
      root `URL_PREFIX + '/'`, is redirected permanently to itself without
      that slash, keeping a non-empty query string. Otherwise the request
      goes through (None). */
  function RemoveTrailingSlash(urlPrefix: string, path: string, query: string): (r: Option<(string, int)>)
    ensures r.Some? <==> path != urlPrefix + "/" && EndsWith(path, "/")
    ensures r.Some? ==> r.value.1 == 301
    ensures r.Some? ==> r.value.0 == path[..|path| - 1] + (if query == [] then "" else "?" + query)
  {
    if path != urlPrefix + "/" && EndsWith(path, "/") then
      if query != [] then Some((path[..|path| - 1] + "?" + query, 301))
      else Some((path[..|path| - 1], 301))
    else None
  }

  /** A page asked for with one slash too many is sent to the page itself. */
  lemma SlashedPageRedirects(urlPrefix: string, page: string, query: string)
    requires page != urlPrefix
    ensures RemoveTrailingSlash(urlPrefix, page + "/", query) ==
              Some((page + (if query == [] then "" else "?" + query), 301))
  {
    assert (page + "/")[..|page|] == page;
  }

  /** The page reached by following the redirects of `path`. */
  function Settle(urlPrefix: string, path: string): (p: string)
    ensures RemoveTrailingSlash(urlPrefix, p, "").None?
    ensures |p| <= |path| && p == path[..|p|]
    decreases |path|
  {
    match RemoveTrailingSlash(urlPrefix, path, "")
    case None => path
    case Some((location, _)) =>
      var p := Settle(urlPrefix, location);
      assert location == path[..|location|];
      p
  }

  /** The chain of redirects ends, on a page that is not redirected, after
      one hop per trailing slash; the query string changes nothing of it. */
  lemma {:induction false} RedirectsSettle(urlPrefix: string, path: string, query: string)
    ensures RemoveTrailingSlash(urlPrefix, path, query).Some? <==> RemoveTrailingSlash(urlPrefix, path, "").Some?
    ensures forall k :: |Settle(urlPrefix, path)| <= k < |path| ==> path[k] == '/'
    decreases |path|
  {
    var r := RemoveTrailingSlash(urlPrefix, path, "");
    if r.Some? {
      RedirectsSettle(urlPrefix, path[..|path| - 1], query);
    }
  }

  // ---------------------------------------------------------------- after-request hooks

  /** `add_header(response)`: every response forbids framing. */
  method AddHeader(response: Response)
    modifies response
    ensures response.headers == old(response.headers)["X-Frame-Options" := "DENY"]
    ensures response.statusCode == old(response.statusCode)
    ensures response.cachePrivate == old(response.cachePrivate) && response.maxAge == old(response.maxAge)
  {
    response.headers := response.headers["X-Frame-Options" := "DENY"];
  }

  /** The `Vary` value after the hook: `Cookie` appended to a non-empty value. */
  function VaryWithCookie(vary: Option<string>): (v: string)
    ensures EndsWith(v, "Cookie")
    ensures vary.Some? && vary.value != [] ==> StartsWith(v, vary.value + ", ")
    ensures vary.Some? && vary.value != [] ==> v == vary.value + ", Cookie"
    ensures vary.None? || vary.value == [] ==> v == "Cookie"
  {
    if vary.Some? && vary.value != [] then
      var v := vary.value + ", Cookie";
      assert v[..|vary.value + ", "|] == vary.value + ", ";
      v
    else "Cookie"
  }

  /** `add_cache_control(response)`. Responses to anything but GET and
      redirects (301, 302) are left alone. Otherwise the response varies on
      the cookie; it becomes private for a signed-in user and stays private
      if it was; a max-age already set is kept, and the default fills it in
      otherwise. */
  method AddCacheControl(response: Response, requestMethod: string, authenticated: bool, defaultMaxAge: int)
    modifies response
    ensures response.statusCode == old(response.statusCode)
    ensures requestMethod != "GET" || old(response.statusCode) == 301 || old(response.statusCode) == 302 ==>
              && response.headers == old(response.headers)
              && response.cachePrivate == old(response.cachePrivate) && response.maxAge == old(response.maxAge)
    ensures requestMethod == "GET" && old(response.statusCode) != 301 && old(response.statusCode) != 302 ==>
              && response.headers == old(response.headers)["Vary" := VaryWithCookie(
                   if "Vary" in old(response.headers) then Some(old(response.headers)["Vary"]) else None)]
              && response.cachePrivate == (old(response.cachePrivate) || authenticated)
              && response.maxAge == (if old(response.maxAge).None? then Some(defaultMaxAge) else old(response.maxAge))
  {
    if requestMethod != "GET" || response.statusCode == 301 || response.statusCode == 302 {
      return;
    }
    var vary := if "Vary" in response.headers then Some(response.headers["Vary"]) else None;
    response.headers := response.headers["Vary" := VaryWithCookie(vary)];
    if authenticated {
      response.cachePrivate := true;
    }
    if response.maxAge.None? {
      response.maxAge := Some(defaultMaxAge);
    }
  }
}
