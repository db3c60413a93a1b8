/** The page state the helpers of js/level3.js read and write: the cookie
    assignments, the navigation requested by the guard and the mask's
    `style.display`. Reading `document.cookie` returns cookieJar; how the
    browser folds an assignment into the jar is not part of this model, so the
    writes are kept as the sequence of strings assigned. */
module Level3 {
  import opened Js
  import Uri
  import opened CookieWrite
  import CookieLookup
  import RouteGuard
  import OrientationMask

  class Page {
    /** `location.protocol`. */
    var protocol: string
    /** What reading `document.cookie` returns. */
    var cookieJar: string
    /** Every string assigned to `document.cookie`, oldest first. */
    var cookieWrites: seq<string>
    /** The URL last passed to `location.replace`, if any. */
    var replacedWith: Option<string>
    /** `navigator.userAgent`. */
    var userAgent: string
    /** Whether the page has an element with id "rotateMask". */
    var hasMask: bool
    /** That element's `style.display`. */
    var maskDisplay: string

    constructor(protocol: string, cookieJar: string, userAgent: string, hasMask: bool)
      ensures this.protocol == protocol && this.cookieJar == cookieJar
      ensures this.userAgent == userAgent && this.hasMask == hasMask
      ensures cookieWrites == [] && replacedWith == None && maskDisplay == ""
    {
      this.protocol := protocol;
      this.cookieJar := cookieJar;
      this.userAgent := userAgent;
      this.hasMask := hasMask;
      cookieWrites := [];
      replacedWith := None;
      maskDisplay := "";
    }

    /** `setCookie(name, value, opts)`: builds the string in a local and
        appends "; Secure" when the resolved flag is set, then assigns it. */
    method SetCookie(name: string, value: string, opts: CookieOptions)
      modifies this`cookieWrites
      ensures cookieWrites == old(cookieWrites) + [SetCookieString(name, value, opts, protocol)]
    {
      var path := ResolvePath(opts);
      var sameSite := ResolveSameSite(opts);
      var secure := ResolveSecure(opts, protocol);
      var encoded := CookiePair(name, value);
      var cookie := encoded + "; path=" + path + "; SameSite=" + sameSite;
      if secure {
        cookie := cookie + "; Secure";
      }
      cookieWrites := cookieWrites + [cookie];
    }

    /** `deleteCookie(name, opts)`. */
    method DeleteCookie(name: string, opts: CookieOptions)
      modifies this`cookieWrites
      ensures cookieWrites == old(cookieWrites) + [DeleteCookieString(name, opts)]
    {
      var path := ResolvePath(opts);
      cookieWrites := cookieWrites + [Uri.Encode(name) + "=; path=" + path + "; expires=" + Epoch];
    }

    /** `requireCookieOrBack(name, backUrl)`: requests the navigation when the
        flag is not "true", and never writes a cookie. A URIError from
        `getCookie` escapes before anything is changed. The name is read
        literally, as in CookieLookup.IsCookieTrue. */
    method RequireCookieOrBack(name: string, backUrl: string) returns (thrown: Option<JsError>)
      modifies this`replacedWith
      ensures cookieWrites == old(cookieWrites)
      ensures match RouteGuard.RequireCookieOrBack(name, backUrl, cookieJar)
        case Normal(Some(url)) => thrown == None && replacedWith == Some(url)
        case Normal(None) => thrown == None && replacedWith == old(replacedWith)
        case Throw(e) => thrown == Some(e) && replacedWith == old(replacedWith)
    {
      match CookieLookup.IsCookieTrue(name, cookieJar)
      case Throw(e) =>
        thrown := Some(e);
      case Normal(ok) =>
        thrown := None;
        if !ok {
          replacedWith := Some(backUrl);
        }
    }

    /** The `check` closure: writes the mask's display when the mask exists. */
    method CheckMask(portrait: bool)
      modifies this`maskDisplay
      ensures hasMask ==> maskDisplay == OrientationMask.MaskDisplay(userAgent, portrait)
      ensures !hasMask ==> maskDisplay == old(maskDisplay)
    {
      var isMobileOrTablet := OrientationMask.IsMobileOrTablet(userAgent);
      if isMobileOrTablet && portrait {
        if hasMask {
          maskDisplay := "block";
        }
      } else {
        if hasMask {
          maskDisplay := "none";
        }
      }
    }
  }

  /** On a page whose jar is "granted=%", `requireCookieOrBack("granted", …)`
      reports the URIError of `getCookie` and requests no navigation: the
      visitor stays on the page. */
  method MalformedFlagKeepsPage() returns (thrown: Option<JsError>, replaced: Option<string>)
    ensures thrown == Some(URIError) && replaced == None
  {
    var page := new Page("https:", "granted=%", "", false);
    RouteGuard.MalformedFlagStays();
    thrown := page.RequireCookieOrBack("granted", "/back.html");
    replaced := page.replacedWith;
  }
}
