/** A jar serialised from (name, value) pairs, each written as
    encodeURIComponent(name) "=" encodeURIComponent(value) and joined by "; ",
    and what `getCookie` finds in it. */
module CookieJar {
  import opened Js
  import Uri
  import UriRoundTrip
  import opened CookieLookup
  import CookieWrite

  datatype Cookie = Cookie(name: string, value: string)

  /** The cookies with name and value percent-encoded, as `setCookie` writes them. */
  function EncodeAll(cookies: seq<Cookie>): (r: seq<Cookie>)
    ensures |r| == |cookies|
  {
    if cookies == [] then []
    else [Cookie(Uri.Encode(cookies[0].name), Uri.Encode(cookies[0].value))] + EncodeAll(cookies[1..])
  }

  /** The i-th encoded pair is the i-th cookie with name and value encoded. */
  lemma {:induction false} EncodeAllAt(cookies: seq<Cookie>, i: nat)
    requires i < |cookies|
    ensures EncodeAll(cookies)[i] == Cookie(Uri.Encode(cookies[i].name), Uri.Encode(cookies[i].value))
    decreases i
  {
    if i > 0 {
      EncodeAllAt(cookies[1..], i - 1);
      assert cookies[1..][i - 1] == cookies[i];
    }
  }

  /** The jar string of already-encoded pairs, in order, joined by "; ". */
  function JoinEntries(pairs: seq<Cookie>): string {
    if |pairs| == 0 then []
    else if |pairs| == 1 then pairs[0].name + "=" + pairs[0].value
    else pairs[0].name + "=" + pairs[0].value + "; " + JoinEntries(pairs[1..])
  }

  /** The `document.cookie` string for the given cookies. */
  function Serialize(cookies: seq<Cookie>): string {
    JoinEntries(EncodeAll(cookies))
  }

  /** The value of the first cookie called name, if any. */
  function FirstValue(cookies: seq<Cookie>, name: string): Option<string> {
    if |cookies| == 0 then None
    else if cookies[0].name == name then Some(cookies[0].value)
    else FirstValue(cookies[1..], name)
  }

  /** Pairs as the encoder writes them: no ';' or '=' in a name, no ';' in a value. */
  predicate Tokens(pairs: seq<Cookie>) {
    forall i :: 0 <= i < |pairs| ==> Token(pairs[i])
  }

  predicate Token(c: Cookie) {
    ';' !in c.name && '=' !in c.name && ';' !in c.value
  }

  /** Where the first pair called key begins in the joined jar. */
  ghost function Offset(pairs: seq<Cookie>, key: string): nat {
    if |pairs| <= 1 || pairs[0].name == key then 0
    else |pairs[0].name + "=" + pairs[0].value| + 2 + Offset(pairs[1..], key)
  }

  /** w stands at index i of the jar and is followed by ';' or the end. */
  ghost predicate ValueAt(jar: string, i: nat, w: string) {
    i + |w| <= |jar| && jar[i..i + |w|] == w && (i + |w| == |jar| || jar[i + |w|] == ';')
  }

  /** The capture `([^;]*)` is the one run of non-';' characters that ends at
      a ';' or at the end of the jar. */
  lemma {:induction false} ValueRunIs(jar: string, i: nat, w: string)
    requires ValueAt(jar, i, w) && ';' !in w
    ensures ValueRun(jar, i) == w
  {
  }

  lemma {:induction false} NoAnchorWithin(e: string, rest: string, q: nat)
    requires ';' !in e && 1 <= q <= |e|
    ensures !Anchored(e + rest, q)
  {
    if q >= 2 {
      assert (e + rest)[q - 2] == e[q - 2];
    }
  }

  lemma {:induction false} NoAnchorBeforeNext(e: string, rest: string, q: nat)
    requires ';' !in e && 1 <= q <= |e| + 1
    ensures !Anchored(e + "; " + rest, q)
  {
    if q <= |e| {
      NoAnchorWithin(e, "; " + rest, q);
      assert e + "; " + rest == e + ("; " + rest);
    } else if q >= 2 {
      assert (e + "; " + rest)[q - 2] == e[q - 2];
    }
  }

  /** Reading a key at q of a suffix is reading it at q + d of the whole. */
  lemma {:induction false} KeyShift(jar: string, d: nat, key: string, q: nat)
    requires d <= |jar|
    ensures KeyAt(jar, q + d, key, Literal) <==> KeyAt(jar[d..], q, key, Literal)
  {
    forall j | d <= j < |jar|
      ensures jar[d..][j - d] == jar[j]
    {
    }
  }

  /** Behind the first entry and its "; ", the jar matches as the rest does. */
  lemma {:induction false} MatchShift(e: string, rest: string, key: string, q: nat)
    ensures MatchAt(e + "; " + rest, q + |e| + 2, key, Literal) <==> MatchAt(rest, q, key, Literal)
  {
    var jar, d := e + "; " + rest, |e| + 2;
    assert jar[d..] == rest;
    KeyShift(jar, d, key, q);
    if q == 1 {
      assert jar[q + d - 2] == ' ';
    } else if 2 <= q <= |rest| {
      assert jar[q + d - 2] == rest[q - 2] && jar[q + d - 1] == rest[q - 1];
    }
  }

  lemma {:induction false} ValueShift(e: string, rest: string, i: nat, w: string, at: nat)
    requires ValueAt(rest, i, w) && at == i + |e| + 2
    ensures ValueAt(e + "; " + rest, at, w)
  {
    var jar, d := e + "; " + rest, |e| + 2;
    assert jar[i + d..i + d + |w|] == rest[i..i + |w|];
    if i + |w| < |rest| {
      assert jar[i + d + |w|] == rest[i + |w|];
    }
  }

  /** An entry k=v... is keyed by key exactly when k is key, given that neither
      holds an '='. */
  lemma {:induction false} HeadKey(k: string, tail: string, key: string)
    requires '=' !in k && '=' !in key
    ensures KeyAt(k + "=" + tail, 0, key, Literal) <==> k == key
  {
    var jar := k + "=" + tail;
    forall j | 0 <= j < |k| ensures jar[j] != '=' {
      assert jar[j] == k[j] && k[j] in k;
    }
    assert jar[|k|] == '=';
    if KeyAt(jar, 0, key, Literal) {
      forall j | 0 <= j < |key| ensures jar[j] != '=' {
        assert key[j] in key;
      }
      assert |key| == |k|;
      assert forall j :: 0 <= j < |k| ==> key[j] == k[j];
      assert key == k;
    }
    if k == key {
      assert jar[|k|] == '=';
      assert forall j :: 0 <= j < |k| ==> jar[j] == k[j];
    }
  }

  /** The first entry of the jar is keyed by key exactly when it is called key;
      if so, its value follows the '='. */
  lemma {:induction false} HeadEntry(k: string, v: string, tail: string, key: string)
    requires '=' !in k && '=' !in key && ';' !in v
    requires tail == [] || tail[0] == ';'
    ensures KeyAt(k + "=" + v + tail, 0, key, Literal) <==> k == key
    ensures k == key ==> ValueAt(k + "=" + v + tail, |key| + 1, v)
  {
    var jar := k + "=" + v + tail;
    assert jar == k + "=" + (v + tail);
    HeadKey(k, v + tail, key);
    if k == key {
      assert jar[|k| + 1..|k| + 1 + |v|] == v;
      if |k| + 1 + |v| < |jar| {
        assert jar[|k| + 1 + |v|] == tail[0];
      }
    }
  }

  /** The first anchored key= of the jar stands at p. */
  ghost predicate FirstAt(jar: string, p: nat, key: string) {
    MatchAt(jar, p, key, Literal) && forall q: nat :: q < p ==> !MatchAt(jar, q, key, Literal)
  }

  /** When the first entry is not keyed by key, a jar holding no key= after it
      holds none at all. */
  lemma {:induction false} ShiftAbsent(e: string, rest: string, key: string)
    requires ';' !in e && !KeyAt(e + "; " + rest, 0, key, Literal)
    requires Absent(rest, key, Literal)
    ensures Absent(e + "; " + rest, key, Literal)
  {
    var jar, d := e + "; " + rest, |e| + 2;
    forall q: nat | q <= |jar| ensures !MatchAt(jar, q, key, Literal) {
      if 1 <= q < d {
        NoAnchorBeforeNext(e, rest, q);
      } else if d <= q {
        MatchShift(e, rest, key, q - d);
      }
    }
  }

  /** When the first entry is not keyed by key, the first key= after it is the
      first one of the whole jar. */
  lemma {:induction false} ShiftFirst(e: string, rest: string, key: string, p: nat, at: nat)
    requires ';' !in e && !KeyAt(e + "; " + rest, 0, key, Literal)
    requires FirstAt(rest, p, key) && at == p + |e| + 2
    ensures FirstAt(e + "; " + rest, at, key)
  {
    var jar, d := e + "; " + rest, |e| + 2;
    MatchShift(e, rest, key, p);
    forall q: nat | q < p + d ensures !MatchAt(jar, q, key, Literal) {
      if 1 <= q < d {
        NoAnchorBeforeNext(e, rest, q);
      } else if d <= q {
        MatchShift(e, rest, key, q - d);
      }
    }
  }

  /** The first anchored key= of the jar is at p, and w is the value after it. */
  ghost predicate FoundAt(jar: string, p: nat, key: string, w: string) {
    FirstAt(jar, p, key) && ValueAt(jar, p + |key| + 1, w)
  }

  /** The first key= behind an entry not keyed by key, and the value after it,
      are the rest's, |e| + 2 characters further on. */
  lemma {:induction false} ShiftEntry(jar: string, e: string, rest: string, key: string, w: string, p: nat, at: nat)
    requires jar == e + "; " + rest
    requires ';' !in e && !KeyAt(jar, 0, key, Literal)
    requires FoundAt(rest, p, key, w)
    requires at == p + |e| + 2
    ensures FoundAt(jar, at, key, w)
  {
    ShiftFirst(e, rest, key, p, at);
    ValueShift(e, rest, p + |key| + 1, w, at + |key| + 1);
  }

  /** A jar of one entry not keyed by key holds no key=. */
  lemma {:induction false} SingleAbsent(e: string, key: string)
    requires ';' !in e && !KeyAt(e, 0, key, Literal)
    ensures Absent(e, key, Literal)
  {
    forall q: nat | 1 <= q <= |e| ensures !Anchored(e, q) {
      NoAnchorWithin(e, [], q);
      assert e + [] == e;
    }
  }

  /** Where the first anchored key of the joined jar is, and what follows it. */
  ghost predicate Located(pairs: seq<Cookie>, key: string) {
    var jar := JoinEntries(pairs);
    match FirstValue(pairs, key)
    case None => Absent(jar, key, Literal)
    case Some(v) => FoundAt(jar, Offset(pairs, key), key, v)
  }

  lemma {:induction false} LocatedAtHead(pairs: seq<Cookie>, key: string)
    requires Tokens(pairs) && '=' !in key
    requires |pairs| >= 1 && pairs[0].name == key
    ensures Located(pairs, key)
  {
    var jar, k, v := JoinEntries(pairs), pairs[0].name, pairs[0].value;
    var tail := if |pairs| == 1 then [] else "; " + JoinEntries(pairs[1..]);
    assert jar == k + "=" + v + tail;
    HeadEntry(k, v, tail, key);
    assert MatchAt(jar, 0, key, Literal);
  }

  lemma {:induction false} LocatedSingle(pairs: seq<Cookie>, key: string)
    requires Tokens(pairs) && '=' !in key
    requires |pairs| == 1 && pairs[0].name != key
    ensures Located(pairs, key)
  {
    var k, v := pairs[0].name, pairs[0].value;
    var e := k + "=" + v;
    assert e + [] == e;
    HeadEntry(k, v, [], key);
    SingleAbsent(e, key);
    assert FirstValue(pairs[1..], key) == None;
  }

  /** The jar behind a first entry not called key: what the rest holds, read
      |e| + 2 characters further on. */
  lemma {:induction false} BehindHead(pairs: seq<Cookie>, key: string)
    requires |pairs| >= 2 && pairs[0].name != key
    requires Token(pairs[0]) && '=' !in key
    ensures JoinEntries(pairs) == pairs[0].name + "=" + pairs[0].value + "; " + JoinEntries(pairs[1..])
    ensures ';' !in pairs[0].name + "=" + pairs[0].value
    ensures !KeyAt(JoinEntries(pairs), 0, key, Literal)
  {
    var k, v := pairs[0].name, pairs[0].value;
    var e, rest := k + "=" + v, JoinEntries(pairs[1..]);
    HeadEntry(k, v, "; " + rest, key);
    assert k + "=" + v + ("; " + rest) == e + "; " + rest;
  }

  lemma {:induction false} AbsentBehind(pairs: seq<Cookie>, key: string)
    requires Tokens(pairs) && '=' !in key
    requires |pairs| >= 2 && pairs[0].name != key
    requires Absent(JoinEntries(pairs[1..]), key, Literal)
    ensures Absent(JoinEntries(pairs), key, Literal)
  {
    BehindHead(pairs, key);
    ShiftAbsent(pairs[0].name + "=" + pairs[0].value, JoinEntries(pairs[1..]), key);
  }

  lemma {:induction false} FirstBehind(pairs: seq<Cookie>, key: string, w: string)
    requires |pairs| >= 2 && pairs[0].name != key
    requires Token(pairs[0]) && '=' !in key
    requires FoundAt(JoinEntries(pairs[1..]), Offset(pairs[1..], key), key, w)
    ensures FoundAt(JoinEntries(pairs), Offset(pairs, key), key, w)
  {
    var e, rest := pairs[0].name + "=" + pairs[0].value, JoinEntries(pairs[1..]);
    var p := Offset(pairs[1..], key);
    BehindHead(pairs, key);
    ShiftEntry(JoinEntries(pairs), e, rest, key, w, p, Offset(pairs, key));
  }

  lemma {:induction false} LocatedBehind(pairs: seq<Cookie>, key: string)
    requires Tokens(pairs) && '=' !in key
    requires |pairs| >= 2 && pairs[0].name != key
    requires Located(pairs[1..], key)
    ensures Located(pairs, key)
  {
    match FirstValue(pairs[1..], key)
    case None =>
      AbsentBehind(pairs, key);
    case Some(w) =>
      assert Token(pairs[0]);
      FirstBehind(pairs, key, w);
  }

  lemma {:induction false} Locate(pairs: seq<Cookie>, key: string)
    requires Tokens(pairs) && '=' !in key
    ensures Located(pairs, key)
    decreases |pairs|
  {
    if |pairs| == 0 {
    } else if pairs[0].name == key {
      LocatedAtHead(pairs, key);
    } else if |pairs| == 1 {
      LocatedSingle(pairs, key);
    } else {
      assert Tokens(pairs[1..]) by {
        forall i | 0 <= i < |pairs| - 1 ensures pairs[1..][i] == pairs[i + 1] {}
      }
      Locate(pairs[1..], key);
      LocatedBehind(pairs, key);
    }
  }

  lemma {:induction false} EncodedTokens(cookies: seq<Cookie>)
    ensures Tokens(EncodeAll(cookies))
  {
    var pairs := EncodeAll(cookies);
    forall i | 0 <= i < |pairs|
      ensures Token(pairs[i])
    {
      EncodeAllAt(cookies, i);
      CookieWrite.EncodedIsToken(cookies[i].name);
      CookieWrite.EncodedIsToken(cookies[i].value);
    }
  }

  /** Looking the encoded name up among the encoded pairs finds the encoded
      value of the first cookie so called: encoding is one-to-one. */
  lemma {:induction false} FirstValueEncoded(cookies: seq<Cookie>, name: string)
    ensures FirstValue(EncodeAll(cookies), Uri.Encode(name)) ==
      match FirstValue(cookies, name)
      case None => None
      case Some(v) => Some(Uri.Encode(v))
    decreases |cookies|
  {
    if cookies != [] {
      var pairs := EncodeAll(cookies);
      assert pairs[1..] == EncodeAll(cookies[1..]);
      if Uri.Encode(cookies[0].name) == Uri.Encode(name) {
        UriRoundTrip.EncodeInjective(cookies[0].name, name);
      }
      FirstValueEncoded(cookies[1..], name);
    }
  }

  /** Over a serialised jar, `getCookie(name)` returns the value of the first
      cookie called name, and null when there is none: no other key, whether it
      merely ends or begins with name, is mistaken for it. */
  lemma {:induction false} GetCookieOfJar(cookies: seq<Cookie>, name: string)
    ensures GetCookie(name, Serialize(cookies)) == Normal(FirstValue(cookies, name))
  {
    var found := FirstValue(cookies, name);
    if found.None? {
      JarAbsent(cookies, name);
    } else {
      JarFound(cookies, name, found.value);
    }
  }

  /** The code as written gives the same answer for every name whose encoding
      holds none of '.', '*', '(' and ')'. */
  lemma {:induction false} GetCookieAsWrittenOfJar(cookies: seq<Cookie>, name: string)
    requires forall k :: 0 <= k < |Uri.Encode(name)| ==> Uri.Encode(name)[k] !in ".*()"
    ensures GetCookieAsWritten(name, Serialize(cookies)) == Normal(FirstValue(cookies, name))
  {
    AsWrittenIsLiteral(name, Serialize(cookies));
    GetCookieOfJar(cookies, name);
  }

  /** The encoded pairs of a jar, with where each encoded name stands. */
  lemma {:induction false} JarLocated(cookies: seq<Cookie>, name: string)
    ensures Located(EncodeAll(cookies), Uri.Encode(name))
    ensures FirstValue(EncodeAll(cookies), Uri.Encode(name)) ==
      match FirstValue(cookies, name)
      case None => None
      case Some(v) => Some(Uri.Encode(v))
  {
    EncodedTokens(cookies);
    CookieWrite.EncodedIsToken(name);
    Locate(EncodeAll(cookies), Uri.Encode(name));
    FirstValueEncoded(cookies, name);
  }

  lemma {:induction false} JarAbsent(cookies: seq<Cookie>, name: string)
    requires FirstValue(cookies, name) == None
    ensures Absent(Serialize(cookies), Uri.Encode(name), Literal)
  {
    JarLocated(cookies, name);
    LocatedNone(EncodeAll(cookies), Uri.Encode(name));
  }

  lemma {:induction false} JarFound(cookies: seq<Cookie>, name: string, v: string)
    requires FirstValue(cookies, name) == Some(v)
    ensures GetCookie(name, Serialize(cookies)) == Normal(Some(v))
  {
    var pairs, key := EncodeAll(cookies), Uri.Encode(name);
    assert Capture(JoinEntries(pairs), key, Literal) == Some(Uri.Encode(v)) by {
      JarLocated(cookies, name);
      LocatedSome(pairs, key, Uri.Encode(v));
      CookieWrite.EncodedIsToken(v);
      FoundCapture(JoinEntries(pairs), Offset(pairs, key), key, Uri.Encode(v));
    }
    UriRoundTrip.DecodeEncode(v);
  }

  lemma {:induction false} LocatedNone(pairs: seq<Cookie>, key: string)
    requires Located(pairs, key) && FirstValue(pairs, key) == None
    ensures Absent(JoinEntries(pairs), key, Literal)
  {
  }

  lemma {:induction false} LocatedSome(pairs: seq<Cookie>, key: string, w: string)
    requires Located(pairs, key) && FirstValue(pairs, key) == Some(w)
    ensures FoundAt(JoinEntries(pairs), Offset(pairs, key), key, w)
  {
  }

  /** Where the first key= is at p with w behind it, the capture is w. */
  lemma {:induction false} FoundCapture(jar: string, p: nat, key: string, w: string)
    requires FoundAt(jar, p, key, w) && ';' !in w
    ensures Capture(jar, key, Literal) == Some(w)
  {
    assert FirstMatch(jar, key, Literal) == Some(p);
    ValueRunIs(jar, p + |key| + 1, w);
  }

  /** Over a serialised jar, `isCookieTrue(name)` holds exactly when the first
      cookie called name has the value "true" — not "True", "1" or "". */
  lemma {:induction false} IsCookieTrueOfJar(cookies: seq<Cookie>, name: string)
    ensures IsCookieTrue(name, Serialize(cookies)) == Normal(FirstValue(cookies, name) == Some("true"))
  {
    GetCookieOfJar(cookies, name);
  }

  /** A jar of one cookie reads back as the pair `setCookie` writes in front of
      its attributes. */
  lemma {:induction false} SerializeOne(c: Cookie)
    ensures Serialize([c]) == CookieWrite.CookiePair(c.name, c.value)
  {
    assert EncodeAll([c]) == [Cookie(Uri.Encode(c.name), Uri.Encode(c.value))];
  }

  /** A cookie whose name merely ends with the one asked for, and comes first,
      is passed over. */
  lemma {:induction false} SuffixNameIsNotMatched()
    ensures GetCookie("name", Serialize([Cookie("xname", "1"), Cookie("name", "2")])) == Normal(Some("2"))
  {
    GetCookieOfJar([Cookie("xname", "1"), Cookie("name", "2")], "name");
  }

  /** "True", "1" and the empty value are not "true". */
  lemma {:induction false} OnlyTrueIsTrue(name: string, v: string)
    requires v in ["True", "1", ""]
    ensures IsCookieTrue(name, Serialize([Cookie(name, v)])) == Normal(false)
  {
    IsCookieTrueOfJar([Cookie(name, v)], name);
  }

  lemma {:induction false} EncodeDotted()
    ensures Uri.Encode("a.b") == "a.b"
  {
  }

  /** Spliced into the pattern unescaped, the '.' of the encoded name "a.b"
      matches the 'x' of the cookie "axb", whose value is then returned; read
      literally, "a.b" is absent from that jar. */
  lemma {:induction false} DotIsWildcard()
    ensures GetCookieAsWritten("a.b", "axb=1") == Normal(Some("1"))
    ensures GetCookie("a.b", "axb=1") == Normal(None)
  {
    var jar, key := "axb=1", "a.b";
    EncodeDotted();
    assert KeyAt(jar, 0, key, AsWritten);
    assert TryAt(jar, key, AsWritten, 0) == Some(0);
    assert ValueRun(jar, 4) == "1";
    forall q: nat | q <= |jar| ensures !MatchAt(jar, q, key, Literal) {
      if q == 0 {
        assert jar[1] != key[1];
      }
    }
  }
}
