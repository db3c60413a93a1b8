# Cookie helpers, page guard and rotate mask of `js/level3.js`

A Dafny model of the string-and-decision layer of the shared page script of the
level-3 pages:

- `setCookie(name, value, opts)` and `deleteCookie(name, opts)` build the
  strings assigned to `document.cookie`. The options are resolved with
  different rules: `path` and `sameSite` use `||`, so an empty string falls
  back to `/` and `Lax`; `secure` uses `??`, so only a missing value falls back
  to "the page is served over `https:`".
- `getCookie(name)` searches the jar string with the regular expression
  `(?:^|; )` + `encodeURIComponent(name)` + `=([^;]*)` and percent-decodes the
  captured run; `isCookieTrue(name)` compares the result with `"true"`.
- `requireCookieOrBack(name, backUrl)` sends the visitor back unless the flag
  cookie is exactly `"true"`. When the flag's value is malformed
  percent-encoding, the URIError of `getCookie` escapes instead and nothing
  is navigated (see Findings).
- The `check` closure of `handleOrientationMask` shows the "rotate your device"
  mask on a phone or tablet held upright.

Modules:

- `Js`: `Option`, and `Completion` (a normal value or a thrown `URIError`).
- `Ascii`: ASCII case folding, for the `i` flag of the device pattern.
- `Uri`: `encodeURIComponent` and `decodeURIComponent`, written out after the
  Encode and Decode operations of ECMA-262 (UTF-8, upper-case hex, decoding
  fails on a bad escape, an overlong form or a surrogate). `UriRoundTrip`
  proves that decoding undoes encoding.
- `SetCookieParser`: the splitting step of section 5.2 of RFC 6265. It cuts a
  cookie string into its name-value pair and its cookie-av list, and splits
  each cookie-av at its first '='. The written strings are read back with it.
- `CookieWrite`: the strings `setCookie` and `deleteCookie` write, and what a
  parser reads back from them.
- `CookieLookup`: `getCookie` as a leftmost regular-expression search over the
  jar, and `isCookieTrue`.
- `CookieJar`: jars serialised from (name, value) pairs as in section 5.4 of
  RFC 6265 (entries joined by `"; "`), and the theorem that `getCookie` over
  such a jar returns the value of the first cookie of that name.
- `RouteGuard`: the guard as a function returning the redirect target.
- `OrientationMask`: the device test and the mask's display value.
- `Level3`: the page state the helpers write, as the class `Page`. It holds the
  cookie assignments, the requested navigation and the mask's display.

The page's inputs are parameters: `location.protocol`, the string read from
`document.cookie`, `navigator.userAgent`, and the result of the
`(orientation: portrait)` media query.

## Model

| member | source | states |
|---|---|---|
| Uri.Encode | js/level3.js:13 | every character `encodeURIComponent` outputs is unreserved or '%', so an encoded name or value never holds ';', '=' or white space |
| Uri.Decode | js/level3.js:25 | `decodeURIComponent` leaves a string without '%' as it is |
| Uri.BadEscapeThrows | js/level3.js:25 | `decodeURIComponent` throws a URIError whenever some '%' of its input is not followed by two hex digits, wherever it stands |
| UriRoundTrip.DecodeEscapeOfChar | js/level3.js:25 | decoding the escapes written for one character gives that character back and consumes exactly those escapes, whatever follows |
| UriRoundTrip.DecodeEncode | js/level3.js:13-25 | `decodeURIComponent(encodeURIComponent(s))` is `s` for every string: a value written by `setCookie` never makes `getCookie` throw |
| UriRoundTrip.EncodeUnreserved | js/level3.js:13 | a name made of letters, digits and `-_.!~*'()` is written as it is |
| UriRoundTrip.EncodeInjective | js/level3.js:13 | different names (or values) are written differently |
| CookieWrite.ResolvePath | js/level3.js:10 | the path is never empty; a non-empty `opts.path` is written as given, and "/" is written when it is missing or the empty string |
| CookieWrite.ResolveSameSite | js/level3.js:11 | SameSite is never empty; a non-empty `opts.sameSite` is written as given, and "Lax" is written when it is missing or the empty string |
| CookieWrite.ResolveSecure | js/level3.js:12 | an explicit `secure` is kept, `false` included; only a missing one falls back to "protocol is `https:`" |
| CookieWrite.SetCookieSplit | js/level3.js:13-15 | the `setCookie` string cut at its semicolons is the encoded pair, " path=P", " SameSite=S" and, exactly when the flag is set, " Secure" |
| CookieWrite.PairComesFirst | js/level3.js:13-15 | whatever path and SameSite hold, the string splits into `enc(name)=enc(value)` followed by the pieces of the attribute text: path and SameSite cannot change the name or value |
| CookieWrite.DefaultOptions | js/level3.js:8-15 | with `opts = {}` the string is `enc(name)=enc(value); path=/; SameSite=Lax`, followed by "; Secure" exactly on an `https:` page |
| CookieWrite.SetCookieParsesBack | js/level3.js:8-17 | an RFC 6265 parser reads the `setCookie` string as the cookie (enc(name), enc(value)) with attributes path, SameSite and Secure only when the flag is set; name and value decode back to the originals |
| CookieWrite.SecureIffResolved | js/level3.js:12-15 | the parsed cookie carries Secure if and only if the resolved flag is true |
| CookieWrite.SessionOnly | js/level3.js:14-17 | the parsed cookie carries neither `expires` nor `max-age`: it is a session cookie |
| CookieWrite.EmptyNameIgnored | js/level3.js:13 | with an empty name the string starts with "=value", which the parser rejects |
| CookieWrite.DeleteCookieParsesBack | js/level3.js:34-41 | the `deleteCookie` string parses as the encoded name with an empty value, the resolved path and `expires` at the epoch |
| CookieWrite.DeleteMatchesSet | js/level3.js:8-41 | `deleteCookie(name, opts)` addresses the cookie `setCookie(name, v, opts)` wrote: same name, same path attribute, and only the delete carries `expires` |
| CookieLookup.Search | js/level3.js:22-24 | the key position of the leftmost match of `(?:^\|; )key=` from start index i on (the start index itself for `^`, two past it for "; "); no earlier reachable key position matches |
| CookieLookup.FirstMatch | js/level3.js:22-24 | the first anchored `key=` of the jar; None exactly when there is none |
| CookieLookup.ValueRun | js/level3.js:23 | the capture `([^;]*)`: a ';'-free slice of the jar that ends at a ';' or at the end |
| CookieLookup.Capture | js/level3.js:22-25 | `m[1]` is absent exactly when no anchored key= occurs; a capture never holds ';' |
| CookieLookup.GetCookie | js/level3.js:21-26 | null exactly when no entry of the jar is keyed by the encoded name |
| CookieLookup.GetCookieAsWritten | js/level3.js:21-26 | the same, with the pattern read as the code builds it ('.' of the name is a wildcard) |
| CookieLookup.AsWrittenIsLiteral | js/level3.js:21-26 | for a name whose encoding holds none of '.', '*', '(' and ')', the pattern as written and the literal lookup give the same result on every jar |
| CookieLookup.CaptureAtStart | js/level3.js:22-24 | a jar that starts with key= is matched through `^`, and `m[1]` is the run right after that '=' |
| CookieLookup.MalformedValueThrows | js/level3.js:21-26 | `getCookie` throws a URIError when the captured value holds a '%' not followed by two hex digits |
| CookieLookup.IsCookieTrue | js/level3.js:29-31 | true exactly when `getCookie` returns "true"; throws exactly when `getCookie` throws |
| CookieJar.EncodeAllAt | js/level3.js:13 | the i-th written pair is the i-th cookie with name and value encoded |
| CookieJar.GetCookieOfJar | js/level3.js:21-26 | over a jar serialised from (name, value) pairs, `getCookie(name)` returns the value of the first cookie called name, and null when there is none |
| CookieJar.GetCookieAsWrittenOfJar | js/level3.js:21-26 | the code as written returns the first cookie's value, or null, over a serialised jar, for every name whose encoding holds none of '.', '*', '(' and ')' |
| CookieJar.IsCookieTrueOfJar | js/level3.js:29-31 | over a serialised jar, `isCookieTrue(name)` holds exactly when the first cookie called name holds "true" |
| CookieJar.SerializeOne | js/level3.js:13 | a jar of one cookie reads back as the pair `setCookie` writes before its attributes |
| CookieJar.SuffixNameIsNotMatched | js/level3.js:22-24 | a cookie "xname" placed first is passed over when "name" is looked up |
| CookieJar.OnlyTrueIsTrue | js/level3.js:29-31 | "True", "1" and "" are not "true" |
| CookieJar.DotIsWildcard | js/level3.js:23 | with the pattern as written, `getCookie("a.b")` on the jar "axb=1" returns "1"; read literally it returns null |
| RouteGuard.RequireCookieOrBack | js/level3.js:49-53 | redirects to backUrl exactly when `isCookieTrue` is false, stays exactly when it is true, and throws exactly when `getCookie` throws |
| RouteGuard.MalformedFlagThrows | js/level3.js:49-53 | as written, a flag whose value holds a malformed escape makes the guard throw instead of redirecting; the guard that fails closed redirects |
| RouteGuard.MalformedFlagStays | js/level3.js:49-53 | on the jar "granted=%", `getCookie("granted")` and the guard throw a URIError; the guard that fails closed sends the visitor to backUrl |
| RouteGuard.RequireCookieOrBackFailsClosed | js/level3.js:44-53 | the guard as its doc comment describes it: stays exactly when the first captured value decodes to "true", and otherwise redirects to backUrl |
| RouteGuard.FailsClosedAgrees | js/level3.js:49-53 | wherever `getCookie` does not throw, the guard as written and the guard that fails closed decide alike |
| RouteGuard.FailsClosedOfJar | js/level3.js:44-53 | on a serialised jar, the guard that fails closed stays exactly when the first cookie of that name holds "true" |
| RouteGuard.GuardOfJar | js/level3.js:49-53 | on a serialised jar the guard stays exactly when the first cookie of that name holds "true" |
| RouteGuard.MissingFlagRedirects | js/level3.js:49-53 | a jar without the flag redirects |
| Ascii.Lower | js/level3.js:123 | the fold of the `i` flag never yields an upper-case ASCII letter |
| Ascii.FoldsTogether | js/level3.js:123 | two characters fold together exactly when they are equal or the same ASCII letter in its two cases |
| OrientationMask.TestFrom | js/level3.js:123-125 | `RegExp.prototype.test` from index i: true exactly when a device name matches at some j ≥ i |
| OrientationMask.IsMobileOrTablet | js/level3.js:123-125 | true exactly when a device name matches somewhere in the user agent |
| OrientationMask.MobileIffContainsDevice | js/level3.js:123-125 | the test holds exactly when the user agent contains Android, iPhone, iPad or iPod, ignoring ASCII case |
| OrientationMask.MaskDisplay | js/level3.js:127-131 | the display written is "block" or "none" |
| OrientationMask.MaskShownIff | js/level3.js:122-132 | "block" exactly on a portrait viewport whose user agent names one of the four devices, "none" otherwise |
| OrientationMask.UpperCaseIphoneIsMobile | js/level3.js:123 | the `i` flag: "IPHONE" upright shows the mask |
| Level3.Page.SetCookie | js/level3.js:8-18 | appends exactly the `setCookie` string to the cookie assignments |
| Level3.Page.DeleteCookie | js/level3.js:34-41 | appends exactly the `deleteCookie` string to the cookie assignments |
| Level3.Page.RequireCookieOrBack | js/level3.js:49-53 | requests navigation to backUrl exactly when the guard redirects, writes no cookie, and reports the URIError when `getCookie` throws |
| Level3.MalformedFlagKeepsPage | js/level3.js:49-53 | on a page whose jar is "granted=%", the guard reports a URIError and requests no navigation |
| Level3.Page.CheckMask | js/level3.js:122-132 | sets the mask's display to the decided value when the mask exists; nothing changes when it does not |

## Left out

- `bindPressSwap` (js/level3.js:73-117): DOM queries, listener registration and image swaps on press and release. There is no string or decision logic to state.
- The listener registration of `handleOrientationMask` (js/level3.js:133-135), and `getElementById`, `matchMedia` and `navigator.userAgent` themselves. The user agent, the portrait flag and whether the mask exists are inputs.
- `safeSetLocal` and `safeGetLocal` (js/level3.js:57-70): wrappers around `localStorage`, a browser API.
- The `window.*` exports (js/level3.js:138-148).
- How the browser turns an assignment to `document.cookie` into jar contents: replacing entries, expiry, and enforcing Secure and SameSite. `Level3.Page` records each assignment, and the jar read back is an input. The strings the builders write are read back with the RFC 6265 parser, not put into a browser jar.
- The processing of individual attributes in sections 5.2.1 to 5.2.6 of RFC 6265. SetCookieParser keeps every attribute by name and trimmed value, SameSite included.
- `location.replace`: the navigation is recorded as the URL requested.
- Option values that are neither strings nor booleans, such as numbers, objects, or `opts` itself being null. `opts.path` and `opts.sameSite` are strings or missing; `opts.secure` is a boolean or missing.
- Lone surrogates. Dafny's `char` is a Unicode scalar value, so the URIError that `encodeURIComponent` throws on a lone surrogate cannot arise.
- CookieLookup.GetCookieAsWritten: names whose encoding holds '*', '(' or ')' are excluded. These characters would make the built pattern a quantifier, an extra group or a syntax error. Without the `u` flag, a '.' matches one UTF-16 code unit. The model matches one scalar value.
- CookieLookup.IsCookieTrue, RouteGuard.RequireCookieOrBack, RouteGuard.GuardOfJar and Level3.Page.RequireCookieOrBack use the literal reading of the name (CookieLookup.GetCookie). They agree with the code as written for every name whose encoding holds none of '.', '*', '(' and ')', by CookieLookup.AsWrittenIsLiteral. For a name with a '.', the code can read another cookie: `requireCookieOrBack("a.b", u)` on the jar "axb=true" stays on the page, while the model redirects.
- CookieWrite.SetCookieSplit holds only when the resolved path and SameSite hold no ';'. The code writes them unescaped, so each ';' in them starts a piece of its own. CookieWrite.PairComesFirst states the split for any path and SameSite.
- CookieWrite.SetCookieParsesBack holds only for a non-empty name and a resolved path and SameSite without ';'. A path such as "/; expires=…" would add an attribute of its own.
- CookieWrite.SecureIffResolved holds only for a non-empty name and a resolved path and SameSite without ';', for the same reason.
- CookieWrite.SessionOnly holds only for a non-empty name and a resolved path and SameSite without ';'. A path such as "/; expires=…" would make the cookie persistent.
- CookieWrite.DeleteCookieParsesBack holds only for a non-empty name and a resolved path without ';'.
- CookieWrite.DeleteMatchesSet holds only for a non-empty name and a resolved path and SameSite without ';'.
- With an empty name the parser ignores the string altogether, as CookieWrite.EmptyNameIgnored states; that is why the lemmas above require a non-empty name.
- OrientationMask.MaskDisplay states only that the value is "block" or "none". When each occurs is stated by OrientationMask.MaskShownIff.
- The anchor `(?:^|; )` stops a name from matching the end of a longer name (CookieJar.SuffixNameIsNotMatched). It does not stop the '.' wildcard from matching another cookie (CookieJar.DotIsWildcard); see Findings.

## Findings

| source | as written | input that shows it | evidently intended | confidence | as-written member | corrected member |
|---|---|---|---|---|---|---|
| js/level3.js:23 | the pattern splices `encodeURIComponent(name)` in unescaped, and `encodeURIComponent` leaves '.' as it is, so a '.' in a name matches any character | `getCookie("a.b")` on the jar "axb=1" returns "1", the value of another cookie | the name is matched literally, and `getCookie("a.b")` returns null on that jar | high for '.', by proof of the model; not executed | CookieJar.DotIsWildcard | CookieJar.GetCookieOfJar |
| js/level3.js:49-53 | `requireCookieOrBack` calls `isCookieTrue` without catching, so the URIError that `decodeURIComponent` throws at line 25 on a malformed value escapes before `location.replace` is reached | `requireCookieOrBack("granted", "/back.html")` on the jar "granted=%" throws and requests no navigation: the visitor stays on the page | a flag that is not exactly "true" sends the visitor back, as the doc comment at lines 44-45 says, a malformed one included | high, by proof of the model; not executed | RouteGuard.MalformedFlagStays | RouteGuard.RequireCookieOrBackFailsClosed |

`Level3.Page.RequireCookieOrBack` keeps the behaviour of the code as written, the thrown URIError included (`Level3.MalformedFlagKeepsPage`). `RouteGuard.RequireCookieOrBackFailsClosed` is the guard the doc comment describes; over serialised jars, where no value is malformed, the two decide alike (`RouteGuard.FailsClosedOfJar`, `RouteGuard.GuardOfJar`).
