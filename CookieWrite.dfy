/** The strings `setCookie` and `deleteCookie` assign to `document.cookie`
    (js/level3.js:8-18 and 34-41), checked against the parser of section 5.2
    of RFC 6265. */
module CookieWrite {
  import opened Js
  import Uri
  import UriRoundTrip
  import opened SetCookieParser

  /** The properties of `opts` that the helpers read. None stands for a
      property that is missing, undefined or null. */
  datatype CookieOptions = CookieOptions(path: Option<string>, sameSite: Option<string>, secure: Option<bool>)

  /** The default `opts = {}`. */
  const NoOptions := CookieOptions(None, None, None)

  /** `v || fallback` for a string-or-missing v: the empty string is falsy, so
      it falls back as a missing value does. */
  function OrElse(v: Option<string>, fallback: string): (r: string)
    ensures v.Some? && v.value != [] ==> r == v.value
    ensures v == None || v == Some([]) ==> r == fallback
  {
    if v.Some? && v.value != [] then v.value else fallback
  }

  /** `opts.path || "/"`. */
  function ResolvePath(opts: CookieOptions): (r: string)
    ensures r != []
    ensures opts.path.Some? && opts.path.value != [] ==> r == opts.path.value
    ensures opts.path == None || opts.path == Some([]) ==> r == "/"
  {
    OrElse(opts.path, "/")
  }

  /** `opts.sameSite || "Lax"`. */
  function ResolveSameSite(opts: CookieOptions): (r: string)
    ensures r != []
    ensures opts.sameSite.Some? && opts.sameSite.value != [] ==> r == opts.sameSite.value
    ensures opts.sameSite == None || opts.sameSite == Some([]) ==> r == "Lax"
  {
    OrElse(opts.sameSite, "Lax")
  }

  /** `opts.secure ?? location.protocol === "https:"`: only a missing value
      falls back to the page's scheme; an explicit false is kept. */
  function ResolveSecure(opts: CookieOptions, protocol: string): (r: bool)
    ensures opts.secure == Some(false) ==> !r
    ensures opts.secure == Some(true) ==> r
    ensures opts.secure == None ==> (r <==> protocol == "https:")
  {
    match opts.secure
    case Some(b) => b
    case None => protocol == "https:"
  }

  /** `encodeURIComponent(name) + "=" + encodeURIComponent(value)`. */
  function CookiePair(name: string, value: string): string {
    Uri.Encode(name) + "=" + Uri.Encode(value)
  }

  /** The string `setCookie(name, value, opts)` writes on a page served over
      `protocol`. */
  function SetCookieString(name: string, value: string, opts: CookieOptions, protocol: string): string {
    var cookie := CookiePair(name, value) + "; path=" + ResolvePath(opts) + "; SameSite=" + ResolveSameSite(opts);
    if ResolveSecure(opts, protocol) then cookie + "; Secure" else cookie
  }

  const Epoch := "Thu, 01 Jan 1970 00:00:00 GMT"

  /** The string `deleteCookie(name, opts)` writes. */
  function DeleteCookieString(name: string, opts: CookieOptions): string {
    Uri.Encode(name) + "=; path=" + ResolvePath(opts) + "; expires=" + Epoch
  }

  /** An encoded name or value holds no ';', no '=' and no white space, so it
      cannot end the pair, split it, or be trimmed. */
  lemma {:induction false} EncodedIsToken(s: string)
    ensures ';' !in Uri.Encode(s) && '=' !in Uri.Encode(s)
    ensures NoWsp(Uri.Encode(s))
  {
    var e := Uri.Encode(s);
    forall j | 0 <= j < |e| ensures e[j] != ';' && e[j] != '=' && !IsWsp(e[j]) {
      assert e[j] in e;
      UnreservedIsToken(e[j]);
    }
  }

  lemma {:induction false} UnreservedIsToken(c: char)
    requires Uri.IsUnreserved(c) || c == '%'
    ensures c != ';' && c != '=' && !IsWsp(c)
  {
  }

  /** k=v, with k and v free of '=' and white space, splits at its '='. */
  lemma {:induction false} SplitAtEquals(k: string, v: string)
    requires '=' !in k
    requires NoWsp(k) && NoWsp(v)
    ensures var pair := k + "=" + v;
      '=' in pair && IndexOf(pair, '=') == |k| && Trim(pair[..|k|]) == k && Trim(pair[|k| + 1..]) == v
  {
    IndexAfter(k, '=', v);
    TrimmedSides(k, v);
  }

  lemma {:induction false} TrimmedSides(k: string, v: string)
    requires NoWsp(k) && NoWsp(v)
    ensures var pair := k + "=" + v; Trim(pair[..|k|]) == k && Trim(pair[|k| + 1..]) == v
  {
    var pair := k + "=" + v;
    assert pair[..|k|] == k;
    assert pair[|k| + 1..] == v;
    TrimUnchanged(k);
    TrimUnchanged(v);
  }

  lemma {:induction false} EncodeNonEmpty(s: string)
    requires s != []
    ensures Uri.Encode(s) != []
  {
    assert Uri.Encode(s) == Uri.EncodeChar(s[0]) + Uri.Encode(s[1..]);
  }

  /** An attribute name that parses as itself: non-empty, no '=', no white
      space at either end. */
  predicate IsKey(key: string) {
    key != [] && '=' !in key && !IsWsp(key[0]) && !IsWsp(key[|key| - 1])
  }

  /** The attribute labels the two helpers write. */
  lemma {:induction false} Labels()
    ensures IsKey("path") && IsKey("SameSite") && IsKey("Secure") && IsKey("expires")
    ensures " path=" == " " + "path" + "=" && " SameSite=" == " " + "SameSite" + "="
    ensures " expires=" == " " + "expires" + "=" && " Secure" == " " + "Secure"
  {
  }

  /** " key=v" parses as the attribute (key, v trimmed). */
  lemma {:induction false} ParseLabelled(key: string, prefix: string, v: string)
    requires IsKey(key) && prefix == " " + key + "="
    ensures ParseAttribute(prefix + v) == Attribute(key, Trim(v))
  {
    var av := prefix + v;
    IndexAfter(" " + key, '=', v);
    assert av[..|key| + 1] == " " + key;
    assert av[|key| + 2..] == v;
    assert TrimLeft(" " + key) == key;
  }

  /** The separators the helpers write, each a ';' followed by the next
      attribute's text. */
  lemma {:induction false} Separators()
    ensures "; path=" == ";" + " path=" && "; SameSite=" == ";" + " SameSite="
    ensures "; Secure" == ";" + " Secure" && "; expires=" == ";" + " expires="
    ensures "=; path=" == "=" + ";" + " path="
  {
  }

  lemma {:induction false} Regroup(a: string, x: string, b: string, y: string, c: string)
    ensures a + (";" + x) + b + (";" + y) + c == a + ";" + (x + b) + ";" + (y + c)
  {
  }

  lemma {:induction false} RegroupEmpty(a: string, x: string, b: string, y: string, c: string)
    ensures a + ("=" + ";" + x) + b + (";" + y) + c == (a + "=" + []) + ";" + (x + b) + ";" + (y + c)
  {
  }

  /** The `deleteCookie` string, cut at its semicolons. */
  lemma {:induction false} DeleteShape(k: string, path: string, date: string)
    ensures k + "=; path=" + path + "; expires=" + date
         == (k + "=" + []) + ";" + (" path=" + path) + ";" + (" expires=" + date)
  {
    Separators();
    RegroupEmpty(k, " path=", path, " expires=", date);
  }

  /** The `setCookie` string before "; Secure", cut at its semicolons. */
  lemma {:induction false} SetShape(pair: string, path: string, sameSite: string)
    ensures pair + "; path=" + path + "; SameSite=" + sameSite
         == pair + ";" + (" path=" + path) + ";" + (" SameSite=" + sameSite)
  {
    Separators();
    Regroup(pair, " path=", path, " SameSite=", sameSite);
  }

  lemma {:induction false} AppendPiece(a: string, x: string)
    ensures a + (";" + x) == a + ";" + x
  {
  }

  /** The pieces between the semicolons of the `setCookie` string. */
  lemma {:induction false} SetCookieSplit(name: string, value: string, opts: CookieOptions, protocol: string)
    requires ';' !in ResolvePath(opts) && ';' !in ResolveSameSite(opts)
    ensures Split(SetCookieString(name, value, opts, protocol)) == [CookiePair(name, value)] + SetPieces(opts, protocol)
  {
    PairIsToken(name, value);
    SplitParts(CookiePair(name, value), ResolvePath(opts), ResolveSameSite(opts), ResolveSecure(opts, protocol));
  }

  lemma {:induction false} SplitParts(pair: string, path: string, sameSite: string, secure: bool)
    requires ';' !in pair && ';' !in path && ';' !in sameSite
    ensures var cookie := pair + "; path=" + path + "; SameSite=" + sameSite;
      Split(if secure then cookie + "; Secure" else cookie)
        == [pair] + ([" path=" + path, " SameSite=" + sameSite] + (if secure then [" Secure"] else []))
  {
    var pathText, sameSiteText := " path=" + path, " SameSite=" + sameSite;
    var cookie := pair + "; path=" + path + "; SameSite=" + sameSite;
    SetShape(pair, path, sameSite);
    if secure {
      assert Split(cookie + "; Secure") == [pair, pathText, sameSiteText, " Secure"] by {
        Separators();
        AppendPiece(cookie, " Secure");
        SplitFour(pair, pathText, sameSiteText, " Secure");
      }
      assert [pair] + ([pathText, sameSiteText] + [" Secure"]) == [pair, pathText, sameSiteText, " Secure"];
    } else {
      SplitThree(pair, pathText, sameSiteText);
      assert [pair] + ([pathText, sameSiteText] + []) == [pair, pathText, sameSiteText];
    }
  }

  lemma {:induction false} PairIsToken(name: string, value: string)
    ensures ';' !in CookiePair(name, value)
  {
    EncodedIsToken(name);
    EncodedIsToken(value);
  }

  /** A string whose first piece is k=v parses to the cookie (k, v) with the
      remaining pieces as attributes. */
  lemma {:induction false} ParseOfPieces(s: string, k: string, v: string, avs: seq<string>)
    requires Split(s) == [k + "=" + v] + avs
    requires k != [] && '=' !in k && NoWsp(k) && NoWsp(v)
    ensures Parse(s) == Some(SetCookie(k, v, ParseAttributes(avs)))
  {
    SplitAtEquals(k, v);
    assert Split(s)[1..] == avs;
  }

  /** The attribute texts `setCookie` writes after the pair, each with the
      space that follows its ';'. */
  function SetPieces(opts: CookieOptions, protocol: string): seq<string> {
    [" path=" + ResolvePath(opts), " SameSite=" + ResolveSameSite(opts)]
    + (if ResolveSecure(opts, protocol) then [" Secure"] else [])
  }

  /** The attributes a browser reads from those texts. */
  function SetAttributes(opts: CookieOptions, protocol: string): seq<Attribute> {
    [Attribute("path", Trim(ResolvePath(opts))), Attribute("SameSite", Trim(ResolveSameSite(opts)))]
    + (if ResolveSecure(opts, protocol) then [Attribute("Secure", [])] else [])
  }

  lemma {:induction false} ParsedAttributes(opts: CookieOptions, protocol: string)
    ensures ParseAttributes(SetPieces(opts, protocol)) == SetAttributes(opts, protocol)
  {
    AttributeList(ResolvePath(opts), ResolveSameSite(opts), ResolveSecure(opts, protocol));
  }

  lemma {:induction false} AttributeList(path: string, sameSite: string, secure: bool)
    ensures var avs := [" path=" + path, " SameSite=" + sameSite] + (if secure then [" Secure"] else []);
      ParseAttributes(avs)
      == [Attribute("path", Trim(path)), Attribute("SameSite", Trim(sameSite))]
         + (if secure then [Attribute("Secure", [])] else [])
  {
    var avs := [" path=" + path, " SameSite=" + sameSite] + (if secure then [" Secure"] else []);
    var expected := [Attribute("path", Trim(path)), Attribute("SameSite", Trim(sameSite))]
                    + (if secure then [Attribute("Secure", [])] else []);
    var r := ParseAttributes(avs);
    Labels();
    assert r[0] == expected[0] by {
      ParseLabelled("path", " path=", path);
    }
    assert r[1] == expected[1] by {
      ParseLabelled("SameSite", " SameSite=", sameSite);
    }
    if secure {
      assert r[2] == expected[2] by {
        ParseFlag("Secure", " Secure");
      }
    }
    assert |r| == |expected|;
  }

  /** " key" parses as the attribute (key, ""). */
  lemma {:induction false} ParseFlag(key: string, prefix: string)
    requires IsKey(key) && prefix == " " + key
    ensures ParseAttribute(prefix) == Attribute(key, [])
  {
    assert TrimLeft(prefix) == key;
  }

  /** What a browser parsing the `setCookie` string sees: the encoded pair, which
      decodes back to the name and value, then path and SameSite, then Secure
      exactly when the resolved flag is set. Holds when path and SameSite carry
      no ';' of their own; an empty name makes the browser drop the string. */
  lemma {:induction false} SetCookieParsesBack(name: string, value: string, opts: CookieOptions, protocol: string)
    requires name != []
    requires ';' !in ResolvePath(opts) && ';' !in ResolveSameSite(opts)
    ensures Parse(SetCookieString(name, value, opts, protocol))
         == Some(SetCookie(Uri.Encode(name), Uri.Encode(value), SetAttributes(opts, protocol)))
    ensures Uri.Decode(Uri.Encode(name)) == Some(name) && Uri.Decode(Uri.Encode(value)) == Some(value)
  {
    var s := SetCookieString(name, value, opts, protocol);
    var avs := SetPieces(opts, protocol);
    assert Split(s) == [Uri.Encode(name) + "=" + Uri.Encode(value)] + avs by {
      SetCookieSplit(name, value, opts, protocol);
    }
    assert Parse(s) == Some(SetCookie(Uri.Encode(name), Uri.Encode(value), ParseAttributes(avs))) by {
      EncodedIsToken(name);
      EncodedIsToken(value);
      EncodeNonEmpty(name);
      ParseOfPieces(s, Uri.Encode(name), Uri.Encode(value), avs);
    }
    ParsedAttributes(opts, protocol);
    UriRoundTrip.DecodeEncode(name);
    UriRoundTrip.DecodeEncode(value);
  }

  /** The Secure attribute is present exactly when the resolved flag is set:
      an explicit `secure: false` leaves it out even on an https page. */
  lemma {:induction false} SecureIffResolved(name: string, value: string, opts: CookieOptions, protocol: string)
    requires name != []
    requires ';' !in ResolvePath(opts) && ';' !in ResolveSameSite(opts)
    ensures var c := Parse(SetCookieString(name, value, opts, protocol));
      c.Some? && (HasAttribute(c.value, "secure") <==> ResolveSecure(opts, protocol))
  {
    SetCookieParsesBack(name, value, opts, protocol);
    var c := Parse(SetCookieString(name, value, opts, protocol)).value;
    AttributesOfSet(c, Trim(ResolvePath(opts)), Trim(ResolveSameSite(opts)), ResolveSecure(opts, protocol));
  }

  /** `setCookie` never sets an expiry: the cookie lives for the session. */
  lemma {:induction false} SessionOnly(name: string, value: string, opts: CookieOptions, protocol: string)
    requires name != []
    requires ';' !in ResolvePath(opts) && ';' !in ResolveSameSite(opts)
    ensures var c := Parse(SetCookieString(name, value, opts, protocol));
      c.Some? && !HasAttribute(c.value, "expires") && !HasAttribute(c.value, "max-age")
  {
    SetCookieParsesBack(name, value, opts, protocol);
    var c := Parse(SetCookieString(name, value, opts, protocol)).value;
    AttributesOfSet(c, Trim(ResolvePath(opts)), Trim(ResolveSameSite(opts)), ResolveSecure(opts, protocol));
  }

  /** Which attributes a cookie with the `setCookie` attribute list carries. */
  lemma {:induction false} AttributesOfSet(c: SetCookie, path: string, sameSite: string, secure: bool)
    requires c.attributes
          == [Attribute("path", path), Attribute("SameSite", sameSite)]
             + (if secure then [Attribute("Secure", [])] else [])
    ensures HasAttribute(c, "secure") <==> secure
    ensures !HasAttribute(c, "expires") && !HasAttribute(c, "max-age")
  {
    var a := c.attributes;
    if secure {
      assert a[2].name == "Secure";
      assert Ascii.EqualIgnoringCase(a[2].name, "secure");
    }
    forall k | 0 <= k < |a|
      ensures (k < 2 || !secure) ==> !Ascii.EqualIgnoringCase(a[k].name, "secure")
      ensures !Ascii.EqualIgnoringCase(a[k].name, "expires") && !Ascii.EqualIgnoringCase(a[k].name, "max-age")
    {
      assert k == 0 ==> a[k].name == "path";
      assert k == 1 ==> a[k].name == "SameSite";
      assert k == 2 ==> a[k].name == "Secure";
    }
  }

  /** Whatever path and SameSite hold, the string is the encoded pair, a ';',
      and the attribute text: path and SameSite cannot change the cookie's name
      or value, only the pieces that follow it. */
  lemma {:induction false} PairComesFirst(name: string, value: string, opts: CookieOptions, protocol: string)
    ensures Split(SetCookieString(name, value, opts, protocol))
         == [CookiePair(name, value)] + Split(AttributeText(opts, protocol))
  {
    PairIsToken(name, value);
    SetLead(CookiePair(name, value), ResolvePath(opts), ResolveSameSite(opts), ResolveSecure(opts, protocol));
  }

  /** The text `setCookie` writes after the ';' that ends the pair. */
  function AttributeText(opts: CookieOptions, protocol: string): string {
    " path=" + ResolvePath(opts) + "; SameSite=" + ResolveSameSite(opts)
    + (if ResolveSecure(opts, protocol) then "; Secure" else "")
  }

  /** The `setCookie` string over any pair free of ';' starts with that pair. */
  lemma {:induction false} SetLead(pair: string, path: string, sameSite: string, secure: bool)
    requires ';' !in pair
    ensures var cookie := pair + "; path=" + path + "; SameSite=" + sameSite;
      Split(if secure then cookie + "; Secure" else cookie)
      == [pair] + Split(" path=" + path + "; SameSite=" + sameSite + (if secure then "; Secure" else ""))
  {
    var cookie := pair + "; path=" + path + "; SameSite=" + sameSite;
    var s := if secure then cookie + "; Secure" else cookie;
    var tail := " path=" + path + "; SameSite=" + sameSite + (if secure then "; Secure" else "");
    assert s == pair + ";" + tail by {
      Separators();
    }
    SplitAfter(pair, tail);
  }

  /** With the default `opts = {}` the path is "/", SameSite is "Lax", and
      Secure is written exactly on an https page. */
  lemma {:induction false} DefaultOptions(name: string, value: string, protocol: string)
    ensures SetCookieString(name, value, NoOptions, protocol)
         == CookiePair(name, value) + "; path=/; SameSite=Lax" + (if protocol == "https:" then "; Secure" else "")
  {
    var cookie := CookiePair(name, value) + "; path=" + "/" + "; SameSite=" + "Lax";
    assert cookie == CookiePair(name, value) + "; path=/; SameSite=Lax";
  }

  /** With an empty name the pair is "=value", which section 5.2 of RFC 6265
      tells the browser to ignore. */
  lemma {:induction false} EmptyNameIgnored(value: string, opts: CookieOptions, protocol: string)
    ensures Parse(SetCookieString([], value, opts, protocol)) == None
  {
    PairComesFirst([], value, opts, protocol);
    assert Split(SetCookieString([], value, opts, protocol))[0] == CookiePair([], value);
    var pair := CookiePair([], value);
    EncodedIsToken(value);
    assert pair == [] + "=" + Uri.Encode(value);
    IndexAfter([], '=', Uri.Encode(value));
    assert pair[..0] == [];
  }

  lemma {:induction false} DeleteAttributeList(path: string, date: string)
    requires date != [] && !IsWsp(date[0]) && !IsWsp(date[|date| - 1])
    ensures ParseAttributes([" path=" + path, " expires=" + date])
         == [Attribute("path", Trim(path)), Attribute("expires", date)]
  {
    var avs := [" path=" + path, " expires=" + date];
    var r := ParseAttributes(avs);
    Labels();
    assert r[0] == Attribute("path", Trim(path)) by {
      ParseLabelled("path", " path=", path);
    }
    assert r[1] == Attribute("expires", date) by {
      ParseLabelled("expires", " expires=", date);
      TrimEnds(date);
    }
  }

  /** What a browser parsing the `deleteCookie` string sees: the encoded name
      with an empty value, the path, and an expiry date at the epoch. */
  lemma {:induction false} DeleteCookieParsesBack(name: string, opts: CookieOptions)
    requires name != []
    requires ';' !in ResolvePath(opts)
    ensures Parse(DeleteCookieString(name, opts))
         == Some(SetCookie(Uri.Encode(name), [], [Attribute("path", Trim(ResolvePath(opts))), Attribute("expires", Epoch)]))
    ensures Uri.Decode(Uri.Encode(name)) == Some(name)
  {
    EncodedIsToken(name);
    EncodeNonEmpty(name);
    DeleteParsesWith(Uri.Encode(name), ResolvePath(opts), Epoch);
    UriRoundTrip.DecodeEncode(name);
  }

  /** A pair with key k and an empty value, then a path and an expiry date. */
  lemma {:induction false} DeleteParsesWith(k: string, path: string, date: string)
    requires k != [] && ';' !in k && '=' !in k && NoWsp(k)
    requires ';' !in path && ';' !in date
    requires date != [] && !IsWsp(date[0]) && !IsWsp(date[|date| - 1])
    ensures Parse(k + "=; path=" + path + "; expires=" + date)
         == Some(SetCookie(k, [], [Attribute("path", Trim(path)), Attribute("expires", date)]))
  {
    var s := k + "=; path=" + path + "; expires=" + date;
    var pair := k + "=" + [];
    var pathAv := " path=" + path;
    var expiresAv := " expires=" + date;
    DeleteShape(k, path, date);
    SplitThree(pair, pathAv, expiresAv);
    assert NoWsp([]);
    ParseOfPieces(s, k, [], [pathAv, expiresAv]);
    DeleteAttributeList(path, date);
  }

  /** `deleteCookie(name, {path})` addresses the cookie `setCookie(name, v,
      {path})` created: same name, same path, and it is the one that expires. */
  lemma {:induction false} DeleteMatchesSet(name: string, value: string, opts: CookieOptions, protocol: string)
    requires name != []
    requires ';' !in ResolvePath(opts) && ';' !in ResolveSameSite(opts)
    ensures var written, del := Parse(SetCookieString(name, value, opts, protocol)), Parse(DeleteCookieString(name, opts));
      && written.Some? && del.Some?
      && del.value.name == written.value.name
      && del.value.attributes[0] == written.value.attributes[0]
      && HasAttribute(del.value, "expires") && !HasAttribute(written.value, "expires")
  {
    SetCookieParsesBack(name, value, opts, protocol);
    DeleteCookieParsesBack(name, opts);
    var written := Parse(SetCookieString(name, value, opts, protocol)).value;
    var del := Parse(DeleteCookieString(name, opts)).value;
    AttributesOfSet(written, Trim(ResolvePath(opts)), Trim(ResolveSameSite(opts)), ResolveSecure(opts, protocol));
    assert Ascii.EqualIgnoringCase(del.attributes[1].name, "expires");
  }
}
