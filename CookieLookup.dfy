/** Reading `document.cookie`: `getCookie` and `isCookieTrue`
    (js/level3.js:21-31). The jar is the string the browser returns, entries
    joined by "; " as in section 5.4 of RFC 6265. `getCookie` searches it with
    the regular expression `(?:^|; )` + encodeURIComponent(name) + `=([^;]*)`
    and percent-decodes the captured run. */
module CookieLookup {
  import opened Js
  import Uri
  import UriRoundTrip

  /** How the characters of the encoded name are read by the regular
      expression. Literal: each one stands for itself (the evident intent).
      AsWritten: the name is spliced into the pattern unescaped, so a '.' in
      it matches any character except a line terminator. */
  datatype KeySyntax = Literal | AsWritten

  predicate IsLineTerminator(c: char) {
    c == '\n' || c == '\r' || c == '\U{2028}' || c == '\U{2029}'
  }

  predicate CharMatches(p: char, c: char, syntax: KeySyntax) {
    if syntax == AsWritten && p == '.' then !IsLineTerminator(c) else p == c
  }

  /** A cookie can begin at index p of the jar: at its start, or right after "; ". */
  predicate Anchored(jar: string, p: nat) {
    p == 0 || (2 <= p <= |jar| && jar[p - 2] == ';' && jar[p - 1] == ' ')
  }

  /** `key=` is matched at index p of the jar. */
  predicate KeyAt(jar: string, p: nat, key: string, syntax: KeySyntax) {
    && p + |key| < |jar|
    && (forall k :: 0 <= k < |key| ==> CharMatches(key[k], jar[p + k], syntax))
    && jar[p + |key|] == '='
  }

  predicate MatchAt(jar: string, p: nat, key: string, syntax: KeySyntax) {
    Anchored(jar, p) && KeyAt(jar, p, key, syntax)
  }

  /** No anchored key= anywhere in the jar. */
  predicate Absent(jar: string, key: string, syntax: KeySyntax) {
    forall q: nat | q <= |jar| :: !MatchAt(jar, q, key, syntax)
  }

  /** The key positions that a search still to try the start indices i, i+1, ...
      can produce: 0 through `^` (only from index 0), q through "; " at q-2. */
  predicate Reachable(i: nat, q: nat) {
    (i == 0 && q == 0) || i + 2 <= q
  }

  /** One attempt of `(?:^|; )key=` starting at index i, trying the `^`
      alternative first; the position of the key when it succeeds. */
  function TryAt(jar: string, key: string, syntax: KeySyntax, i: nat): Option<nat> {
    if i == 0 && KeyAt(jar, 0, key, syntax) then Some(0)
    else if i + 2 <= |jar| && jar[i] == ';' && jar[i + 1] == ' ' && KeyAt(jar, i + 2, key, syntax) then Some(i + 2)
    else None
  }

  /** The regular-expression search: the leftmost start index from i on at which
      the pattern matches. It finds the first anchored key at or after i. */
  function Search(jar: string, key: string, syntax: KeySyntax, i: nat): (r: Option<nat>)
    requires i <= |jar|
    ensures r.Some? ==> Reachable(i, r.value) && MatchAt(jar, r.value, key, syntax)
    ensures r.Some? ==> forall q: nat :: Reachable(i, q) && q < r.value ==> !MatchAt(jar, q, key, syntax)
    ensures r.None? ==> forall q: nat :: Reachable(i, q) ==> !MatchAt(jar, q, key, syntax)
    decreases |jar| - i
  {
    match TryAt(jar, key, syntax, i)
    case Some(p) => Some(p)
    case None => if i == |jar| then None else Search(jar, key, syntax, i + 1)
  }

  /** Index of the first key=, anchored, in the jar. */
  function FirstMatch(jar: string, key: string, syntax: KeySyntax): (r: Option<nat>)
    ensures r.Some? ==> MatchAt(jar, r.value, key, syntax)
    ensures r.Some? ==> forall q: nat :: q < r.value ==> !MatchAt(jar, q, key, syntax)
    ensures r.None? ==> Absent(jar, key, syntax)
  {
    var r := Search(jar, key, syntax, 0);
    assert forall q: nat :: !Reachable(0, q) ==> !Anchored(jar, q);
    r
  }

  /** The capture `([^;]*)`: the longest run from index i without ';'. */
  function ValueRun(jar: string, i: nat): (v: string)
    requires i <= |jar|
    ensures i + |v| <= |jar| && v == jar[i..i + |v|]
    ensures ';' !in v
    ensures i + |v| == |jar| || jar[i + |v|] == ';'
    decreases |jar| - i
  {
    if i == |jar| || jar[i] == ';' then [] else [jar[i]] + ValueRun(jar, i + 1)
  }

  /** The capture group `m[1]` of the match: the run behind the first
      anchored key=, or None when the pattern does not match. */
  function Capture(jar: string, key: string, syntax: KeySyntax): (r: Option<string>)
    ensures r == None <==> Absent(jar, key, syntax)
    ensures r.Some? ==> ';' !in r.value
  {
    match FirstMatch(jar, key, syntax)
    case None => None
    case Some(p) =>
      assert MatchAt(jar, p, key, syntax);
      Some(ValueRun(jar, p + |key| + 1))
  }

  /** `m ? decodeURIComponent(m[1]) : null` over the capture for the encoded name. */
  function Lookup(name: string, jar: string, syntax: KeySyntax): (r: Completion<Option<string>>)
    ensures r == Normal(None) <==> Absent(jar, Uri.Encode(name), syntax)
  {
    match Capture(jar, Uri.Encode(name), syntax)
    case None => Normal(None)
    case Some(run) =>
      match Uri.Decode(run)
      case Some(d) => Normal(Some(d))
      case None => Throw(URIError)
  }

  /** `getCookie(name)` on a page whose `document.cookie` is jar, reading the
      name literally: null exactly when no entry of the jar is keyed by the
      encoded name; a URIError when the value found is not well-formed
      percent-encoding. */
  function GetCookie(name: string, jar: string): (r: Completion<Option<string>>)
    ensures r == Normal(None) <==> Absent(jar, Uri.Encode(name), Literal)
  {
    Lookup(name, jar, Literal)
  }

  /** `getCookie(name)` as the source builds its pattern, with '.' a wildcard.
      Names whose encoding holds '*', '(' or ')' change the pattern's structure
      and are not modelled. */
  function GetCookieAsWritten(name: string, jar: string): (r: Completion<Option<string>>)
    requires forall k :: 0 <= k < |Uri.Encode(name)| ==> Uri.Encode(name)[k] !in "*()"
    ensures r == Normal(None) <==> Absent(jar, Uri.Encode(name), AsWritten)
  {
    Lookup(name, jar, AsWritten)
  }

  /** A jar that starts with key= is captured from right after that '='. */
  lemma {:induction false} CaptureAtStart(jar: string, key: string)
    requires KeyAt(jar, 0, key, Literal)
    ensures Capture(jar, key, Literal) == Some(ValueRun(jar, |key| + 1))
  {
  }

  /** A captured value holding a '%' that is not followed by two hex digits
      makes `getCookie` throw the URIError of `decodeURIComponent`. */
  lemma {:induction false} MalformedValueThrows(name: string, jar: string, i: nat)
    requires Capture(jar, Uri.Encode(name), Literal).Some?
    requires var run := Capture(jar, Uri.Encode(name), Literal).value;
      i < |run| && run[i] == '%' && Uri.Octet(run, i).None?
    ensures GetCookie(name, jar) == Throw(URIError)
  {
    Uri.BadEscapeThrows(Capture(jar, Uri.Encode(name), Literal).value, i);
  }

  /** `isCookieTrue(name)`: `getCookie(name) === "true"`, throwing when it throws.
      It reads the name literally, as the code does for every name whose
      encoding holds none of '.', '*', '(' and ')' (AsWrittenIsLiteral). */
  function IsCookieTrue(name: string, jar: string): (r: Completion<bool>)
    ensures r == Normal(true) <==> GetCookie(name, jar) == Normal(Some("true"))
    ensures r.Throw? <==> GetCookie(name, jar).Throw?
  {
    match GetCookie(name, jar)
    case Normal(v) => Normal(v == Some("true"))
    case Throw(e) => Throw(e)
  }

  /** A key without '.' reads the same both ways at every position. */
  lemma {:induction false} KeyAtSame(jar: string, p: nat, key: string)
    requires forall k :: 0 <= k < |key| ==> key[k] != '.'
    ensures KeyAt(jar, p, key, AsWritten) == KeyAt(jar, p, key, Literal)
  {
    if p + |key| < |jar| {
      forall k | 0 <= k < |key|
        ensures CharMatches(key[k], jar[p + k], AsWritten) == CharMatches(key[k], jar[p + k], Literal)
      {
      }
    }
  }

  lemma {:induction false} SearchSame(jar: string, key: string, i: nat)
    requires i <= |jar|
    requires forall k :: 0 <= k < |key| ==> key[k] != '.'
    ensures Search(jar, key, AsWritten, i) == Search(jar, key, Literal, i)
    decreases |jar| - i
  {
    KeyAtSame(jar, 0, key);
    KeyAtSame(jar, i + 2, key);
    assert TryAt(jar, key, AsWritten, i) == TryAt(jar, key, Literal, i);
    if i < |jar| {
      SearchSame(jar, key, i + 1);
    }
  }

  /** For a name whose encoding holds none of '.', '*', '(' and ')', the
      pattern `getCookie` builds reads the name literally: the lookup as written
      and the literal lookup agree on every jar. */
  lemma {:induction false} AsWrittenIsLiteral(name: string, jar: string)
    requires forall k :: 0 <= k < |Uri.Encode(name)| ==> Uri.Encode(name)[k] !in ".*()"
    ensures GetCookieAsWritten(name, jar) == GetCookie(name, jar)
  {
    var key := Uri.Encode(name);
    assert forall k :: 0 <= k < |key| ==> key[k] != '.' by {
      assert forall k :: 0 <= k < |key| ==> key[k] !in ".*()";
    }
    CaptureSame(jar, key);
  }

  lemma {:induction false} CaptureSame(jar: string, key: string)
    requires forall k :: 0 <= k < |key| ==> key[k] != '.'
    ensures Capture(jar, key, AsWritten) == Capture(jar, key, Literal)
  {
    SearchSame(jar, key, 0);
  }
}
