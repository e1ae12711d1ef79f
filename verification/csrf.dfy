/** security/PersistentCookieCsrfTokenRepository, and security/config/PersistentCookieCsrfTokenRepository,
    whose code is the same: the CSRF token lives in
    the XSRF-TOKEN cookie, is reused while the browser sends that cookie back,
    and is written to the response only when the request did not carry it. */
module CsrfTokenRepository {
  import opened Common
  import opened Exceptions
  import opened SecureCookies
  import opened AppConstants

  /** The header the front-end echoes the token in. */
  const CSRF_HEADER_NAME := "X-XSRF-TOKEN"

  /** A request cookie; a servlet cookie may carry a `null` value. */
  datatype Cookie = Cookie(name: string, value: Option<string>)

  /** An incoming request, reduced to its cookies; `getCookies()` is `null`
      when the request has none. */
  datatype Request = Request(cookies: Option<seq<Cookie>>)

  /** A CsrfToken: header name, parameter name and token value. A token
      handed to `saveToken` may be any implementation, whose value may be
      `null`. */
  datatype CsrfToken = CsrfToken(headerName: string, parameterName: string, token: Option<string>)

  function IsCsrfCookie(): Cookie -> bool
  {
    (c: Cookie) => c.name == CSRF_COOKIE_NAME
  }

  /** `i` is the position of the first XSRF-TOKEN cookie of `cookies`. */
  predicate FirstCsrfAt(cookies: seq<Cookie>, i: int)
  {
    && 0 <= i < |cookies|
    && cookies[i].name == CSRF_COOKIE_NAME
    && forall j :: 0 <= j < i ==> cookies[j].name != CSRF_COOKIE_NAME
  }

  lemma FirstCsrfIsUnique(cookies: seq<Cookie>, i: int, k: int)
    requires FirstCsrfAt(cookies, i) && FirstCsrfAt(cookies, k)
    ensures i == k
  {
  }

  /** loadTokenValue: the value of the first XSRF-TOKEN cookie. With no
      cookies, no such cookie, or a `null` value on the first one (which
      `Optional.map` turns into empty), there is none. */
  function LoadTokenValue(req: Request): (v: Option<string>)
    ensures v.Some? ==> req.cookies.Some? && exists i :: FirstCsrfAt(req.cookies.value, i) && req.cookies.value[i].value == v
    ensures (req.cookies.Some? && exists i :: FirstCsrfAt(req.cookies.value, i) && req.cookies.value[i].value.Some?) ==> v.Some?
  {
    match req.cookies
    case None => None
    case Some(cs) =>
      FindFirstIsFirst(cs, IsCsrfCookie());
      match FindFirst(cs, IsCsrfCookie())
      case None => None
      case Some(c) => c.value
  }

  /** `new DefaultCsrfToken(header, parameter, value)`: Spring refuses an
      empty value. */
  function DefaultToken(value: string): (r: Result<CsrfToken, Exception>)
    ensures |value| == 0 ==> r == Err(Raise(IllegalArgument, "token cannot be null or empty"))
    ensures |value| > 0 ==> r.Ok? && r.value.token == Some(value)
    ensures r.Ok? ==> r.value.headerName == CSRF_HEADER_NAME && r.value.parameterName == CSRF_COOKIE_NAME
  {
    if |value| == 0 then Err(Raise(IllegalArgument, "token cannot be null or empty"))
    else Ok(CsrfToken(CSRF_HEADER_NAME, CSRF_COOKIE_NAME, Some(value)))
  }

  /** generateToken: the cookie's value when the request carries one, else
      `uuid`, the text of a random UUID (never empty). */
  function GenerateToken(req: Request, uuid: string): (r: Result<CsrfToken, Exception>)
    requires |uuid| > 0
    ensures r.Ok? ==> r.value.headerName == "X-XSRF-TOKEN" && r.value.parameterName == "XSRF-TOKEN"
    ensures LoadTokenValue(req).None? ==> r.Ok? && r.value.token == Some(uuid)
    ensures LoadTokenValue(req).Some? && |LoadTokenValue(req).value| > 0 ==>
      r.Ok? && r.value.token == LoadTokenValue(req)
    ensures LoadTokenValue(req) == Some("") ==> r.Err? && r.error.cls == IllegalArgument
  {
    match LoadTokenValue(req)
    case Some(existing) => DefaultToken(existing)
    case None => DefaultToken(uuid)
  }

  /** The condition under which saveToken writes a cookie. */
  predicate WritesCookie(token: Option<CsrfToken>, req: Request)
  {
    LoadTokenValue(req).None? && token.Some? && token.value.token.Some?
  }

  /** saveToken: `headers` are the Set-Cookie headers of the response so far.
      Exactly one cookie is added when the request carries no token and the
      token has a value; it is readable by scripts and lasts for the session. */
  function SaveToken(token: Option<CsrfToken>, req: Request, headers: seq<ResponseCookie>): (h: seq<ResponseCookie>)
    ensures !WritesCookie(token, req) ==> h == headers
    ensures WritesCookie(token, req) ==> |h| == |headers| + 1 && h[..|headers|] == headers
    ensures WritesCookie(token, req) ==>
      var c := h[|headers|];
      && c.name == CSRF_COOKIE_NAME && Some(c.value) == token.value.token
      && !c.httpOnly && c.maxAgeSeconds == -1 && c.secure && c.path == "/" && c.sameSite == SameSiteNone
  {
    if WritesCookie(token, req) then
      var h := headers + [CreateSecureCookie(CSRF_COOKIE_NAME, token.value.token.value, false, -1)];
      assert h[..|headers|] == headers;
      h
    else headers
  }

  /** loadToken: no token exactly when the request carries no token value;
      otherwise a token holding the cookie's value. */
  function LoadToken(req: Request): (r: Result<Option<CsrfToken>, Exception>)
    ensures r == Ok(None) <==> LoadTokenValue(req).None?
    ensures r.Ok? && r.value.Some? ==>
      && r.value.value.token == LoadTokenValue(req)
      && r.value.value.headerName == CSRF_HEADER_NAME && r.value.value.parameterName == CSRF_COOKIE_NAME
    ensures r.Err? <==> LoadTokenValue(req) == Some("")
  {
    match LoadTokenValue(req)
    case None => Ok(None)
    case Some(v) =>
      match DefaultToken(v)
      case Ok(t) => Ok(Some(t))
      case Err(e) => Err(e)
  }

  /** generateToken ignores the UUID whenever the request carries a
      token: calling it again gives the same token. */
  lemma GenerateIsIdempotent(req: Request, uuid1: string, uuid2: string)
    requires |uuid1| > 0 && |uuid2| > 0
    requires LoadTokenValue(req).Some?
    ensures GenerateToken(req, uuid1) == GenerateToken(req, uuid2)
  {
  }

  /** Generating on a request that carries a token gives the token loadToken
      loads. */
  lemma GenerateAgreesWithLoad(req: Request, uuid: string)
    requires |uuid| > 0
    requires LoadTokenValue(req).Some?
    ensures LoadToken(req).Ok? <==> GenerateToken(req, uuid).Ok?
    ensures LoadToken(req).Ok? ==> LoadToken(req).value == Some(GenerateToken(req, uuid).value)
  {
  }

  /** The cookie a browser sends back for a Set-Cookie header. */
  function Returned(c: ResponseCookie): Cookie
  {
    Cookie(c.name, Some(c.value))
  }

  /** Cookies none of which is named XSRF-TOKEN carry no token. */
  lemma NoCsrfCookieNoValue(others: seq<Cookie>)
    requires forall j :: 0 <= j < |others| ==> others[j].name != CSRF_COOKIE_NAME
    ensures LoadTokenValue(Request(Some(others))).None?
  {
    assert forall j :: 0 <= j < |others| ==> !IsCsrfCookie()(others[j]);
  }

  /** The cookie found after the other cookies of a request is the first CSRF
      cookie when none of the others is one. */
  lemma {:induction false} AppendedCsrfCookieIsFirst(others: seq<Cookie>, c: Cookie)
    requires forall j :: 0 <= j < |others| ==> others[j].name != CSRF_COOKIE_NAME
    requires c.name == CSRF_COOKIE_NAME
    ensures LoadTokenValue(Request(Some(others + [c]))) == c.value
  {
    var cs := others + [c];
    assert FirstCsrfAt(cs, |others|);
    var v := LoadTokenValue(Request(Some(cs)));
    if v.Some? {
      var i :| FirstCsrfAt(cs, i) && cs[i].value == v;
      FirstCsrfIsUnique(cs, i, |others|);
    }
  }

  /** Round trip: a token saved on a request without one is loaded, unchanged,
      from the next request that sends the cookie back, and generateToken then
      reuses it. */
  lemma SaveThenLoad(t: CsrfToken, others: seq<Cookie>, uuid: string)
    requires t.token.Some? && |t.token.value| > 0 && |uuid| > 0
    requires forall j :: 0 <= j < |others| ==> others[j].name != CSRF_COOKIE_NAME
    ensures |SaveToken(Some(t), Request(Some(others)), [])| == 1
    ensures
      var next := Request(Some(others + [Returned(SaveToken(Some(t), Request(Some(others)), [])[0])]));
      && LoadToken(next) == Ok(Some(CsrfToken(CSRF_HEADER_NAME, CSRF_COOKIE_NAME, t.token)))
      && GenerateToken(next, uuid) == Ok(CsrfToken(CSRF_HEADER_NAME, CSRF_COOKIE_NAME, t.token))
  {
    var first := Request(Some(others));
    NoCsrfCookieNoValue(others);
    var c := SaveToken(Some(t), first, [])[0];
    AppendedCsrfCookieIsFirst(others, Returned(c));
  }

  /** The header is written once: once the browser sends the cookie back,
      saving any token leaves the response alone. */
  lemma SavedOnlyOnce(t: CsrfToken, others: seq<Cookie>, token: Option<CsrfToken>, headers: seq<ResponseCookie>)
    requires t.token.Some?
    requires forall j :: 0 <= j < |others| ==> others[j].name != CSRF_COOKIE_NAME
    ensures
      var c := SaveToken(Some(t), Request(Some(others)), [])[0];
      SaveToken(token, Request(Some(others + [Returned(c)])), headers) == headers
  {
    var first := Request(Some(others));
    NoCsrfCookieNoValue(others);
    var c := SaveToken(Some(t), first, [])[0];
    AppendedCsrfCookieIsFirst(others, Returned(c));
  }

  /** Only the first XSRF-TOKEN cookie counts: a later one is ignored, even
      when the first has a `null` value. */
  lemma FirstCookieWins(v: string, w: string)
    ensures LoadTokenValue(Request(Some([Cookie(CSRF_COOKIE_NAME, Some(v)), Cookie(CSRF_COOKIE_NAME, Some(w))]))) == Some(v)
    ensures LoadTokenValue(Request(Some([Cookie(CSRF_COOKIE_NAME, None), Cookie(CSRF_COOKIE_NAME, Some(w))]))) == None
  {
    var a := [Cookie(CSRF_COOKIE_NAME, Some(v)), Cookie(CSRF_COOKIE_NAME, Some(w))];
    assert FirstCsrfAt(a, 0);
    var va := LoadTokenValue(Request(Some(a)));
    var i :| FirstCsrfAt(a, i) && a[i].value == va;
    FirstCsrfIsUnique(a, i, 0);
    var b := [Cookie(CSRF_COOKIE_NAME, None), Cookie(CSRF_COOKIE_NAME, Some(w))];
    var vb := LoadTokenValue(Request(Some(b)));
    if vb.Some? {
      var k :| FirstCsrfAt(b, k) && b[k].value == vb;
      FirstCsrfIsUnique(b, k, 0);
    }
  }

  /** A request with no cookies, or none named XSRF-TOKEN, gets a uuid token
      and a Secure, SameSite=None cookie for it. */
  lemma FreshRequestGetsSecureCookie(others: seq<Cookie>, uuid: string)
    requires |uuid| > 0
    requires forall j :: 0 <= j < |others| ==> others[j].name != CSRF_COOKIE_NAME
    ensures GenerateToken(Request(None), uuid) == Ok(CsrfToken(CSRF_HEADER_NAME, CSRF_COOKIE_NAME, Some(uuid)))
    ensures GenerateToken(Request(Some(others)), uuid) == Ok(CsrfToken(CSRF_HEADER_NAME, CSRF_COOKIE_NAME, Some(uuid)))
    ensures SaveToken(Some(GenerateToken(Request(None), uuid).value), Request(None), [])
      == [ResponseCookie(CSRF_COOKIE_NAME, uuid, false, true, "/", -1, SameSiteNone)]
  {
    NoCsrfCookieNoValue(others);
  }
}
