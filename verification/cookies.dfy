/** The application constants the cookie code shares. */
module AppConstants {
  /** The name of the CSRF token cookie. */
  const CSRF_COOKIE_NAME := "XSRF-TOKEN"
}

/** utils/CookieUtils: the attributes every cookie the backend sets carries. */
module SecureCookies {
  /** The values of the SameSite cookie attribute. */
  datatype SameSite = SameSiteNone | SameSiteLax | SameSiteStrict

  /** The attribute value as it appears in a Set-Cookie header. */
  function SameSiteText(s: SameSite): string
  {
    match s
    case SameSiteNone => "None"
    case SameSiteLax => "Lax"
    case SameSiteStrict => "Strict"
  }

  /** A built `ResponseCookie`, as a record rather than its header text. A
      negative max-age leaves the Max-Age attribute out: the cookie lasts for
      the browser session. */
  datatype ResponseCookie = ResponseCookie(
    name: string,
    value: string,
    httpOnly: bool,
    secure: bool,
    path: string,
    maxAgeSeconds: int,
    sameSite: SameSite)

  /** The 32-bit `int` of the max-age parameter. */
  predicate IsInt32(n: int)
  {
    -0x8000_0000 <= n < 0x8000_0000
  }

  /** createSecureCookie: name, value, the HttpOnly flag and the max-age as
      given; always Secure, scoped to the whole site, and sent on cross-site
      requests. */
  function CreateSecureCookie(name: string, value: string, httpOnly: bool, maxAgeSeconds: int): (c: ResponseCookie)
    requires IsInt32(maxAgeSeconds)
    ensures c.name == name && c.value == value && c.httpOnly == httpOnly && c.maxAgeSeconds == maxAgeSeconds
    ensures c.secure && c.path == "/" && c.sameSite == SameSiteNone
  {
    ResponseCookie(name, value, httpOnly, true, "/", maxAgeSeconds, SameSiteNone)
  }

  /** Two cookies built here differ only in what the caller passed: the fixed
      attributes are the same for all of them. */
  lemma FixedAttributesAgree(n1: string, v1: string, h1: bool, m1: int, n2: string, v2: string, h2: bool, m2: int)
    requires IsInt32(m1) && IsInt32(m2)
    ensures CreateSecureCookie(n1, v1, h1, m1).(name := n2, value := v2, httpOnly := h2, maxAgeSeconds := m2)
      == CreateSecureCookie(n2, v2, h2, m2)
  {
  }
}

/** config/CookieConfig: which SameSite value the CSRF cookie gets, decided by
    the request's Origin header. The cookie name comes from a constants class
    of the `auth` package that is not part of this model; it is taken to be
    the "XSRF-TOKEN" of the top-level constants. */
module SameSitePolicy {
  import opened Common
  import opened Exceptions
  import opened SecureCookies
  import opened AppConstants

  /** The browser front-ends, matching the CORS configuration. */
  const WEB_ORIGINS: seq<string> := ["https://handshakr-v2.vercel.app", "http://localhost:3000"]

  /** An incoming request, reduced to its Origin header. */
  datatype Request = Request(origin: Option<string>)

  /** What the request-context holder has for the current thread. */
  datatype RequestContext =
    | NoRequestBound
    | OtherAttributes
    | ServletRequest(request: Request)

  /** `prefixes.stream().anyMatch(s::startsWith)`. */
  function AnyPrefixOf(s: string, prefixes: seq<string>): (b: bool)
    ensures b <==> exists i :: 0 <= i < |prefixes| && StartsWith(s, prefixes[i])
  {
    if |prefixes| == 0 then false
    else if StartsWith(s, prefixes[0]) then true
    else
      var rest := AnyPrefixOf(s, prefixes[1..]);
      assert forall i :: 1 <= i < |prefixes| ==> prefixes[i] == prefixes[1..][i - 1];
      rest
  }

  /** isWebOrigin: a request without an Origin header counts as a browser
      request; otherwise its origin must start with one of the web origins. */
  function IsWebOrigin(req: Request): (web: bool)
    ensures req.origin.None? ==> web
    ensures req.origin.Some? ==>
      (web <==> exists i :: 0 <= i < |WEB_ORIGINS| && StartsWith(req.origin.value, WEB_ORIGINS[i]))
  {
    req.origin.None? || AnyPrefixOf(req.origin.value, WEB_ORIGINS)
  }

  /** The test is on prefixes, so any origin that extends a web origin
      (another port, another host name after it) is a web origin too. */
  lemma {:induction false} ExtensionsOfWebOriginsAreWeb(i: int, suffix: string)
    requires 0 <= i < |WEB_ORIGINS|
    ensures IsWebOrigin(Request(Some(WEB_ORIGINS[i] + suffix)))
  {
    var o := WEB_ORIGINS[i] + suffix;
    assert o[..|WEB_ORIGINS[i]|] == WEB_ORIGINS[i];
  }

  /** An origin that starts with neither web origin is not one. */
  lemma OtherOriginIsNotWeb()
    ensures !IsWebOrigin(Request(Some("https://attacker.example.com")))
  {
    var o := "https://attacker.example.com";
    assert !StartsWith(o, WEB_ORIGINS[0]) by {
      assert |WEB_ORIGINS[0]| > |o|;
    }
    assert !StartsWith(o, WEB_ORIGINS[1]) by {
      assert o[..|WEB_ORIGINS[1]|][4] == o[4] != WEB_ORIGINS[1][4];
    }
  }

  /** The supplier registered by `sameSiteSupplier`, applied to a cookie: for
      the CSRF cookie, Lax for browser requests and None otherwise; for any
      other cookie no opinion. Reading the current request throws when no
      request is bound to the thread, and the cast throws when the bound
      attributes are not a servlet request's. */
  function SameSiteFor(ctx: RequestContext, cookieName: string): (r: Result<Option<SameSite>, Exception>)
    ensures cookieName != CSRF_COOKIE_NAME ==> r == Ok(None)
    ensures cookieName == CSRF_COOKIE_NAME && ctx.ServletRequest? ==>
      && r.Ok? && r.value.Some?
      && (r.value.value == SameSiteLax <==> IsWebOrigin(ctx.request))
      && (r.value.value == SameSiteNone <==> !IsWebOrigin(ctx.request))
    ensures cookieName == CSRF_COOKIE_NAME && ctx.NoRequestBound? ==> r.Err? && r.error.cls == IllegalState
    ensures cookieName == CSRF_COOKIE_NAME && ctx.OtherAttributes? ==> r.Err? && r.error.cls == ClassCast
  {
    if cookieName != CSRF_COOKIE_NAME then Ok(None)
    else
      match ctx
      case NoRequestBound => Err(Raise(IllegalState, "No thread-bound request found"))
      case OtherAttributes => Err(Raise(ClassCast, "attributes are not ServletRequestAttributes"))
      case ServletRequest(req) => Ok(Some(if IsWebOrigin(req) then SameSiteLax else SameSiteNone))
  }

  /** getSameSiteForRequest as written: `Optional.of` on the attributes throws
      when none are bound, instead of falling back to Lax. */
  function SameSiteForRequestAsWritten(ctx: RequestContext): (r: Result<SameSite, Exception>)
    ensures ctx.NoRequestBound? ==> r.Err? && r.error.cls == NullPointer
    ensures !ctx.NoRequestBound? ==> r.Ok?
  {
    match ctx
    case NoRequestBound => Err(Raise(NullPointer, "value is null"))
    case OtherAttributes => Ok(SameSiteLax)
    case ServletRequest(req) => Ok(if IsWebOrigin(req) then SameSiteLax else SameSiteNone)
  }

  /** getSameSiteForRequest as its fallback intends: None only for a servlet
      request from a non-web origin, Lax in every other case, no request
      bound included. */
  function SameSiteForRequest(ctx: RequestContext): (s: SameSite)
    ensures s == SameSiteNone <==> ctx.ServletRequest? && !IsWebOrigin(ctx.request)
    ensures s == SameSiteLax <==> !(ctx.ServletRequest? && !IsWebOrigin(ctx.request))
  {
    match ctx
    case ServletRequest(req) => if IsWebOrigin(req) then SameSiteLax else SameSiteNone
    case _ => SameSiteLax
  }

  /** With no request bound, the method as written throws where the
      intended fallback answers Lax; everywhere else the two agree. */
  lemma AsWrittenThrowsWithoutRequest(ctx: RequestContext)
    ensures SameSiteForRequestAsWritten(NoRequestBound).Err?
    ensures SameSiteForRequest(NoRequestBound) == SameSiteLax
    ensures !ctx.NoRequestBound? ==> SameSiteForRequestAsWritten(ctx) == Ok(SameSiteForRequest(ctx))
  {
  }

  /** On a servlet request the supplier gives the CSRF cookie exactly the
      value the request policy picks. */
  lemma SupplierFollowsRequestPolicy(req: Request)
    ensures SameSiteFor(ServletRequest(req), CSRF_COOKIE_NAME) == Ok(Some(SameSiteForRequest(ServletRequest(req))))
  {
  }
}
