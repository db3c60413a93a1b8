/** The receiving side of a cookie string: the splitting step of section 5.2 of
    RFC 6265, which cuts a set-cookie-string into its name-value pair and its
    cookie-av list and splits each cookie-av at its first '='. The processing of
    the individual attributes (sections 5.2.1 to 5.2.6) is not modelled: every
    attribute is kept, by name and trimmed value. The builders in CookieWrite are
    checked against it. */
module SetCookieParser {
  import opened Js
  import Ascii

  datatype Attribute = Attribute(name: string, value: string)

  datatype SetCookie = SetCookie(name: string, value: string, attributes: seq<Attribute>)

  /** Index of the first c in s. */
  function IndexOf(s: string, c: char): (i: nat)
    requires c in s
    ensures i < |s| && s[i] == c && c !in s[..i]
  {
    if s[0] == c then 0 else 1 + IndexOf(s[1..], c)
  }

  lemma {:induction false} IndexAfter(a: string, c: char, b: string)
    requires c !in a
    ensures IndexOf(a + [c] + b, c) == |a|
  {
    var s := a + [c] + b;
    assert s[|a|] == c;
  }

  /** White space that section 5.2 of RFC 6265 strips: space and horizontal tab. */
  predicate IsWsp(c: char) {
    c == ' ' || c == '\t'
  }

  function TrimLeft(s: string): string {
    if s != [] && IsWsp(s[0]) then TrimLeft(s[1..]) else s
  }

  function TrimRight(s: string): string {
    if s != [] && IsWsp(s[|s| - 1]) then TrimRight(s[..|s| - 1]) else s
  }

  /** s without leading and trailing white space. */
  function Trim(s: string): string {
    TrimRight(TrimLeft(s))
  }

  /** s holds no white space. */
  predicate NoWsp(s: string) {
    forall j :: 0 <= j < |s| ==> !IsWsp(s[j])
  }

  lemma {:induction false} TrimUnchanged(s: string)
    requires NoWsp(s)
    ensures Trim(s) == s
  {
  }

  lemma {:induction false} TrimEnds(s: string)
    requires s != [] && !IsWsp(s[0]) && !IsWsp(s[|s| - 1])
    ensures Trim(s) == s
  {
  }

  /** The pieces of s between its semicolons, in order. */
  function Split(s: string): (parts: seq<string>)
    ensures 1 <= |parts|
    ensures forall k :: 0 <= k < |parts| ==> ';' !in parts[k]
    decreases |s|
  {
    if ';' !in s then [s]
    else
      var i := IndexOf(s, ';');
      [s[..i]] + Split(s[i + 1..])
  }

  /** The pieces put back together with semicolons. */
  function Join(parts: seq<string>): string
    requires 1 <= |parts|
  {
    if |parts| == 1 then parts[0] else parts[0] + ";" + Join(parts[1..])
  }

  /** Splitting loses nothing: the pieces joined with ';' give s back. */
  lemma {:induction false} JoinSplit(s: string)
    ensures Join(Split(s)) == s
    decreases |s|
  {
    if ';' in s {
      var i := IndexOf(s, ';');
      var parts, rest := Split(s), Split(s[i + 1..]);
      assert parts == [s[..i]] + rest;
      assert parts[0] == s[..i] && parts[1..] == rest;
      JoinSplit(s[i + 1..]);
      assert Join(parts) == s[..i] + ";" + Join(rest);
      assert s == s[..i] + ";" + s[i + 1..];
    }
  }

  lemma {:induction false} SplitAfter(a: string, b: string)
    requires ';' !in a
    ensures Split(a + ";" + b) == [a] + Split(b)
  {
    IndexAfter(a, ';', b);
    var s := a + ";" + b;
    assert s[..|a|] == a && s[|a| + 1..] == b;
  }

  lemma {:induction false} AssocThree(a: string, b: string, c: string)
    ensures a + ";" + b + ";" + c == a + ";" + (b + ";" + c)
  {
  }

  lemma {:induction false} AssocFour(a: string, b: string, c: string, d: string)
    ensures a + ";" + b + ";" + c + ";" + d == a + ";" + (b + ";" + c + ";" + d)
  {
  }

  lemma {:induction false} SplitThree(a: string, b: string, c: string)
    requires ';' !in a && ';' !in b && ';' !in c
    ensures Split(a + ";" + b + ";" + c) == [a, b, c]
  {
    assert a + ";" + b + ";" + c == a + ";" + (b + ";" + c) by {
      AssocThree(a, b, c);
    }
    SplitAfter(b, c);
    SplitAfter(a, b + ";" + c);
  }

  lemma {:induction false} SplitFour(a: string, b: string, c: string, d: string)
    requires ';' !in a && ';' !in b && ';' !in c && ';' !in d
    ensures Split(a + ";" + b + ";" + c + ";" + d) == [a, b, c, d]
  {
    var rest := b + ";" + c + ";" + d;
    assert a + ";" + b + ";" + c + ";" + d == a + ";" + rest by {
      AssocFour(a, b, c, d);
    }
    SplitThree(b, c, d);
    SplitAfter(a, rest);
  }

  /** One cookie-av: the name before its first '=', the value after it (empty
      when there is no '='), both trimmed. */
  function ParseAttribute(av: string): (a: Attribute)
  {
    if '=' in av then
      var i := IndexOf(av, '=');
      Attribute(Trim(av[..i]), Trim(av[i + 1..]))
    else Attribute(Trim(av), "")
  }

  function ParseAttributes(avs: seq<string>): (r: seq<Attribute>)
    ensures |r| == |avs|
    ensures forall k :: 0 <= k < |avs| ==> r[k] == ParseAttribute(avs[k])
  {
    if avs == [] then [] else [ParseAttribute(avs[0])] + ParseAttributes(avs[1..])
  }

  /** Section 5.2 of RFC 6265: None when the string is to be ignored (no '=' in
      the name-value pair, or an empty name). */
  function Parse(s: string): (r: Option<SetCookie>)
    ensures r.Some? ==> r.value.name != [] && |r.value.attributes| == |Split(s)| - 1
  {
    var parts := Split(s);
    var pair := parts[0];
    if '=' !in pair then None
    else
      var i := IndexOf(pair, '=');
      var name := Trim(pair[..i]);
      if name == [] then None
      else
        Some(SetCookie(name, Trim(pair[i + 1..]), ParseAttributes(parts[1..])))
  }

  /** The cookie carries an attribute whose name, ignoring ASCII case, is n. */
  predicate HasAttribute(c: SetCookie, n: string) {
    exists k :: 0 <= k < |c.attributes| && Ascii.EqualIgnoringCase(c.attributes[k].name, n)
  }
}
