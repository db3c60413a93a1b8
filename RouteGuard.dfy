/** `requireCookieOrBack(name, backUrl)` (js/level3.js:49-53): the page guard
    that sends the visitor back unless the flag cookie is exactly "true". The
    navigation itself (`location.replace`) is returned as the redirect target. */
module RouteGuard {
  import opened Js
  import Uri
  import UriRoundTrip
  import opened CookieLookup
  import opened CookieJar

  /** The guard's decision on a page whose `document.cookie` is jar: Some(backUrl)
      when it redirects, None when it lets the page stay, and the URIError of
      `getCookie` when the flag's value is malformed (nothing catches it). The
      name is read literally, as in IsCookieTrue. */
  function RequireCookieOrBack(name: string, backUrl: string, jar: string): (r: Completion<Option<string>>)
    ensures r == Normal(Some(backUrl)) <==> IsCookieTrue(name, jar) == Normal(false)
    ensures r == Normal(None) <==> IsCookieTrue(name, jar) == Normal(true)
    ensures r.Throw? <==> GetCookie(name, jar).Throw?
  {
    match IsCookieTrue(name, jar)
    case Normal(ok) => Normal(if ok then None else Some(backUrl))
    case Throw(e) => Throw(e)
  }

  /** A flag whose value holds a malformed escape makes the guard throw before
      `location.replace` is reached, so the visitor stays on the page, while
      the guard that fails closed sends the visitor back. */
  lemma {:induction false} MalformedFlagThrows(name: string, backUrl: string, jar: string, i: nat)
    requires Capture(jar, Uri.Encode(name), Literal).Some?
    requires var run := Capture(jar, Uri.Encode(name), Literal).value;
      i < |run| && run[i] == '%' && Uri.Octet(run, i).None?
    ensures RequireCookieOrBack(name, backUrl, jar) == Throw(URIError)
    ensures RequireCookieOrBackFailsClosed(name, backUrl, jar) == Some(backUrl)
  {
    MalformedValueThrows(name, jar, i);
  }

  /** The jar "granted=%": `getCookie("granted")` throws, and the guard with
      it, instead of redirecting. */
  lemma {:induction false} MalformedFlagStays()
    ensures GetCookie("granted", "granted=%") == Throw(URIError)
    ensures RequireCookieOrBack("granted", "/back.html", "granted=%") == Throw(URIError)
    ensures RequireCookieOrBackFailsClosed("granted", "/back.html", "granted=%") == Some("/back.html")
  {
    GrantedCapture();
    MalformedFlagThrows("granted", "/back.html", "granted=%", 0);
  }

  /** The pattern for "granted" captures "%" from the jar "granted=%". */
  lemma {:induction false} GrantedCapture()
    ensures Capture("granted=%", Uri.Encode("granted"), Literal) == Some("%")
    ensures Uri.Octet("%", 0) == None
  {
    var jar, key := "granted=%", "granted";
    UriRoundTrip.EncodeUnreserved(key);
    assert KeyAt(jar, 0, key, Literal);
    CaptureAtStart(jar, key);
    GrantedValue();
  }

  lemma {:induction false} GrantedValue()
    ensures ValueRun("granted=%", 8) == "%"
  {
    assert ValueRun("granted=%", 9) == [];
  }

  /** The guard as its doc comment (js/level3.js:44-45) describes it: unless
      the flag cookie decodes to exactly "true", the visitor is sent back,
      a malformed value included. */
  function RequireCookieOrBackFailsClosed(name: string, backUrl: string, jar: string): (r: Option<string>)
    ensures r == None <==>
      && Capture(jar, Uri.Encode(name), Literal).Some?
      && Uri.Decode(Capture(jar, Uri.Encode(name), Literal).value) == Some("true")
    ensures r.Some? ==> r.value == backUrl
  {
    match IsCookieTrue(name, jar)
    case Normal(true) => None
    case _ => Some(backUrl)
  }

  /** Where `getCookie` does not throw, the guard as written and the guard
      that fails closed take the same decision. */
  lemma {:induction false} FailsClosedAgrees(name: string, backUrl: string, jar: string)
    requires GetCookie(name, jar).Normal?
    ensures RequireCookieOrBack(name, backUrl, jar) == Normal(RequireCookieOrBackFailsClosed(name, backUrl, jar))
  {
  }

  /** On a serialised jar the guard stays exactly when the first cookie called
      name holds "true", and otherwise redirects to backUrl: a missing flag, and
      a flag of "True", "1" or "", all redirect. */
  lemma {:induction false} GuardOfJar(cookies: seq<Cookie>, name: string, backUrl: string)
    ensures RequireCookieOrBack(name, backUrl, Serialize(cookies)) ==
      Normal(if FirstValue(cookies, name) == Some("true") then None else Some(backUrl))
  {
    IsCookieTrueOfJar(cookies, name);
  }

  /** On a serialised jar no value is malformed, and the guard that fails
      closed decides as GuardOfJar does. */
  lemma {:induction false} FailsClosedOfJar(cookies: seq<Cookie>, name: string, backUrl: string)
    ensures RequireCookieOrBackFailsClosed(name, backUrl, Serialize(cookies)) ==
      if FirstValue(cookies, name) == Some("true") then None else Some(backUrl)
  {
    IsCookieTrueOfJar(cookies, name);
  }

  /** A jar without the flag redirects. */
  lemma {:induction false} MissingFlagRedirects(cookies: seq<Cookie>, name: string, backUrl: string)
    requires forall i :: 0 <= i < |cookies| ==> cookies[i].name != name
    ensures RequireCookieOrBack(name, backUrl, Serialize(cookies)) == Normal(Some(backUrl))
  {
    NoFirstValue(cookies, name);
    GuardOfJar(cookies, name, backUrl);
  }

  lemma {:induction false} NoFirstValue(cookies: seq<Cookie>, name: string)
    requires forall i :: 0 <= i < |cookies| ==> cookies[i].name != name
    ensures FirstValue(cookies, name) == None
    decreases |cookies|
  {
    if cookies != [] {
      assert forall i :: 0 <= i < |cookies| - 1 ==> cookies[1..][i] == cookies[i + 1];
      NoFirstValue(cookies[1..], name);
    }
  }
}
