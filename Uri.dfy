/** `encodeURIComponent` and `decodeURIComponent` (the Encode and Decode
    operations of ECMA-262 with an empty reserved set), over strings of Unicode
    scalar values: each character outside the unreserved set becomes the
    percent-escapes of its UTF-8 bytes, with upper-case hex digits. */
module Uri {
  import opened Js

  /** The characters `encodeURIComponent` leaves as they are: ASCII letters,
      digits and the marks - _ . ! ~ * ' ( ). */
  predicate IsUnreserved(c: char) {
    ('A' <= c <= 'Z') || ('a' <= c <= 'z') || ('0' <= c <= '9') || c in "-_.!~*'()"
  }

  function HexDigit(d: nat): (c: char)
    requires d < 16
    ensures HexValue(c) == Some(d)
    ensures IsUnreserved(c)
  {
    if d < 10 then ('0' as int + d) as char else ('A' as int + d - 10) as char
  }

  /** The value of a hex digit of either case; None for any other character. */
  function HexValue(c: char): (r: Option<nat>)
    ensures r.Some? ==> r.value < 16
  {
    if '0' <= c <= '9' then Some(c as int - '0' as int)
    else if 'A' <= c <= 'F' then Some(c as int - 'A' as int + 10)
    else if 'a' <= c <= 'f' then Some(c as int - 'a' as int + 10)
    else None
  }

  function Escape(b: nat): (r: string)
    requires b < 256
  {
    ['%', HexDigit(b / 16), HexDigit(b % 16)]
  }

  function EscapeAll(bytes: seq<nat>): (r: string)
    requires forall k :: 0 <= k < |bytes| ==> bytes[k] < 256
    ensures |r| == 3 * |bytes|
    ensures forall c :: c in r ==> IsUnreserved(c) || c == '%'
  {
    if bytes == [] then [] else Escape(bytes[0]) + EscapeAll(bytes[1..])
  }

  /** The UTF-8 bytes of a code point. */
  function Utf8(c: char): (bytes: seq<nat>)
    ensures 1 <= |bytes| <= 4
    ensures forall k :: 0 <= k < |bytes| ==> bytes[k] < 256
  {
    var v := c as int;
    if v < 0x80 then [v]
    else if v < 0x800 then [0xC0 + v / 64, 0x80 + v % 64]
    else if v < 0x10000 then [0xE0 + v / 4096, 0x80 + (v / 64) % 64, 0x80 + v % 64]
    else [0xF0 + v / 262144, 0x80 + (v / 4096) % 64, 0x80 + (v / 64) % 64, 0x80 + v % 64]
  }

  function EncodeChar(c: char): (r: string)
    ensures forall x :: x in r ==> IsUnreserved(x) || x == '%'
  {
    if IsUnreserved(c) then [c] else EscapeAll(Utf8(c))
  }

  /** `encodeURIComponent(s)`. Its output consists of unreserved characters and
      '%' only, so it never holds ';', '=', a space or a tab. */
  function Encode(s: string): (r: string)
    ensures forall c :: c in r ==> IsUnreserved(c) || c == '%'
  {
    if s == [] then [] else EncodeChar(s[0]) + Encode(s[1..])
  }

  /** The octet written as "%XY" at index i of s, if there is one there. */
  function Octet(s: string, i: nat): (r: Option<nat>)
    ensures r.Some? ==> i + 3 <= |s| && r.value < 256
  {
    if i + 3 <= |s| && s[i] == '%' && HexValue(s[i + 1]).Some? && HexValue(s[i + 2]).Some? then
      Some(16 * HexValue(s[i + 1]).value + HexValue(s[i + 2]).value)
    else None
  }

  /** Reads m continuation octets (10xxxxxx) from index i on, folding their
      low six bits into acc. */
  function Trail(s: string, i: nat, m: nat, acc: nat): (r: Option<nat>)
    ensures r.Some? && m > 0 ==> i + 3 * m <= |s|
    decreases m
  {
    if m == 0 then Some(acc)
    else match Octet(s, i)
      case Some(b) =>
        if 0x80 <= b < 0xC0 then Trail(s, i + 3, m - 1, acc * 64 + (b - 0x80)) else None
      case None => None
  }

  /** The code point of a lead octet with m continuation octets, accepted only
      when it is the shortest form and a Unicode scalar value. */
  function MultiOctet(s: string, lead: nat, m: nat, least: nat): (r: Option<(char, nat)>)
    requires 3 <= |s|
    ensures r.Some? ==> r.value.1 == 3 * (m + 1) <= |s|
  {
    match Trail(s, 3, m, lead)
    case Some(v) =>
      if least <= v <= 0x10FFFF && !(0xD800 <= v <= 0xDFFF) then Some((v as char, 3 * (m + 1))) else None
    case None => None
  }

  /** Decodes the escapes of one character at the start of s (which starts with
      '%'), giving the character and the number of input characters it takes;
      None where `decodeURIComponent` throws a URIError. */
  function DecodeEscape(s: string): (r: Option<(char, nat)>)
    ensures r.Some? ==> 3 <= r.value.1 <= |s|
  {
    match Octet(s, 0)
    case None => None
    case Some(b) =>
      var r :=
        if b < 0x80 then Some((b as char, 3))
        else if b < 0xC0 then None
        else if b < 0xE0 then MultiOctet(s, b - 0xC0, 1, 0x80)
        else if b < 0xF0 then MultiOctet(s, b - 0xE0, 2, 0x800)
        else if b < 0xF8 then MultiOctet(s, b - 0xF0, 3, 0x10000)
        else None;
      r
  }

  /** `decodeURIComponent(s)`: None where it throws a URIError. A string
      without '%' decodes to itself. */
  function Decode(s: string): (r: Option<string>)
    ensures '%' !in s ==> r == Some(s)
    decreases |s|
  {
    if s == [] then Some([])
    else if s[0] != '%' then
      assert s == [s[0]] + s[1..];
      match Decode(s[1..])
      case Some(t) => Some([s[0]] + t)
      case None => None
    else
      match DecodeEscape(s)
      case None => None
      case Some((c, n)) =>
        match Decode(s[n..])
        case Some(t) => Some([c] + t)
        case None => None
  }

  /** No '%' in s[lo..hi] starts anything but a well-formed escape. */
  predicate EscapesWellFormed(s: string, lo: nat, hi: nat) {
    forall j :: lo <= j < hi && j < |s| && s[j] == '%' ==> Octet(s, j).Some?
  }

  /** Continuation octets that Trail accepts are well-formed escapes, and
      their hex digits are not '%'. */
  lemma {:induction false} TrailWellFormed(s: string, i: nat, m: nat, acc: nat)
    requires Trail(s, i, m, acc).Some?
    ensures EscapesWellFormed(s, i, i + 3 * m)
    decreases m
  {
    if m > 0 {
      var b := Octet(s, i).value;
      TrailWellFormed(s, i + 3, m - 1, acc * 64 + (b - 0x80));
      assert HexValue(s[i + 1]).Some? && HexValue(s[i + 2]).Some?;
    }
  }

  /** The escapes one decoded character takes are all well-formed. */
  lemma {:induction false} EscapeWellFormed(s: string)
    requires DecodeEscape(s).Some?
    ensures EscapesWellFormed(s, 0, DecodeEscape(s).value.1)
  {
    var b := Octet(s, 0).value;
    assert HexValue(s[1]).Some? && HexValue(s[2]).Some?;
    if b >= 0xC0 {
      var m, lead := if b < 0xE0 then 1 else if b < 0xF0 then 2 else 3,
        if b < 0xE0 then b - 0xC0 else if b < 0xF0 then b - 0xE0 else b - 0xF0;
      TrailWellFormed(s, 3, m, lead);
    }
  }

  /** Reading an escape does not depend on what comes before it. */
  lemma {:induction false} OctetAfter(s: string, d: nat, i: nat)
    requires d <= i && d <= |s|
    ensures Octet(s[d..], i - d) == Octet(s, i)
  {
    if i + 3 <= |s| {
      assert s[d..][i - d] == s[i] && s[d..][i - d + 1] == s[i + 1] && s[d..][i - d + 2] == s[i + 2];
    }
  }

  /** `decodeURIComponent` throws a URIError whenever some '%' of its input is
      not followed by two hex digits: such a '%' is never part of the escapes
      of a decoded character. */
  lemma {:induction false} BadEscapeThrows(s: string, i: nat)
    requires i < |s| && s[i] == '%' && Octet(s, i).None?
    ensures Decode(s) == None
    decreases |s|
  {
    if s[0] != '%' {
      OctetAfter(s, 1, i);
      BadEscapeThrows(s[1..], i - 1);
    } else if DecodeEscape(s).Some? {
      var n := DecodeEscape(s).value.1;
      EscapeWellFormed(s);
      OctetAfter(s, n, i);
      BadEscapeThrows(s[n..], i - n);
    }
  }
}

module UriRoundTrip {
  import opened Js
  import opened Uri

  /** `s` holds the escape `%XY` of byte `b` at position `i`. */
  predicate EscapedAt(s: string, i: nat, b: nat)
    requires b < 256
  {
    i + 3 <= |s| && s[i] == '%' && s[i + 1] == HexDigit(b / 16) && s[i + 2] == HexDigit(b % 16)
  }

  lemma {:induction false} EscapeAllSlice(bytes: seq<nat>, k: nat)
    requires forall j :: 0 <= j < |bytes| ==> bytes[j] < 256
    requires k < |bytes|
    ensures EscapedAt(EscapeAll(bytes), 3 * k, bytes[k])
  {
    var t := EscapeAll(bytes[1..]);
    var e := EscapeAll(bytes);
    assert e == Escape(bytes[0]) + t;
    if k > 0 {
      EscapeAllSlice(bytes[1..], k - 1);
      assert e[3 * k] == t[3 * k - 3] && e[3 * k + 1] == t[3 * k - 2] && e[3 * k + 2] == t[3 * k - 1];
    }
  }

  lemma {:induction false} EscapeAllAt(bytes: seq<nat>, rest: string, k: nat)
    requires forall j :: 0 <= j < |bytes| ==> bytes[j] < 256
    requires k < |bytes|
    ensures Octet(EscapeAll(bytes) + rest, 3 * k) == Some(bytes[k])
  {
    var e := EscapeAll(bytes);
    var s := e + rest;
    var i := 3 * k;
    EscapeAllSlice(bytes, k);
    assert s[i] == e[i] && s[i + 1] == e[i + 1] && s[i + 2] == e[i + 2];
  }

  lemma {:induction false} SplitSixBits(v: nat)
    ensures (v / 64) * 64 + v % 64 == v
    ensures (v / 4096) * 64 + (v / 64) % 64 == v / 64
    ensures (v / 262144) * 64 + (v / 4096) % 64 == v / 4096
  {
  }

  lemma {:induction false} TwoOctetsWritten(c: char, rest: string)
    requires 0x80 <= c as int < 0x800
    ensures var v, s := c as int, EncodeChar(c) + rest;
      && Octet(s, 0) == Some(0xC0 + v / 64)
      && Octet(s, 3) == Some(0x80 + v % 64)
  {
    assert !IsUnreserved(c);
    EscapeAllAt(Utf8(c), rest, 0);
    EscapeAllAt(Utf8(c), rest, 1);
  }

  lemma {:induction false} FoldOne(v: nat)
    ensures Fold(v / 64, [0x80 + v % 64]) == v
  {
    SplitSixBits(v);
    assert [0x80 + v % 64][1..] == [];
  }

  lemma {:induction false} DecodeTwoOctets(c: char, rest: string)
    requires 0x80 <= c as int < 0x800
    ensures DecodeEscape(EncodeChar(c) + rest) == Some((c, 6))
  {
    var v := c as int;
    var s := EncodeChar(c) + rest;
    var b0, b1 := 0xC0 + v / 64, 0x80 + v % 64;
    TwoOctetsWritten(c, rest);
    assert Trail(s, 3, 1, b0 - 0xC0) == Some(v) by {
      TrailOf(s, 3, v / 64, [b1]);
      FoldOne(v);
    }
    assert MultiOctet(s, b0 - 0xC0, 1, 0x80) == Some((c, 6));
  }

  /** Reading escaped continuation octets from i on folds their low six bits
      into acc. */
  lemma {:induction false} TrailOf(s: string, i: nat, acc: nat, bytes: seq<nat>)
    requires forall k :: 0 <= k < |bytes| ==> 0x80 <= bytes[k] < 0xC0
    requires forall k :: 0 <= k < |bytes| ==> Octet(s, i + 3 * k) == Some(bytes[k])
    ensures Trail(s, i, |bytes|, acc) == Some(Fold(acc, bytes))
    decreases |bytes|
  {
    if bytes != [] {
      assert Octet(s, i + 3 * 0) == Some(bytes[0]);
      forall k | 0 <= k < |bytes| - 1 ensures Octet(s, i + 3 + 3 * k) == Some(bytes[1..][k]) {
        assert Octet(s, i + 3 * (k + 1)) == Some(bytes[k + 1]);
      }
      TrailOf(s, i + 3, acc * 64 + (bytes[0] - 0x80), bytes[1..]);
    }
  }

  /** The low six bits of each continuation octet, appended to acc. */
  function Fold(acc: nat, bytes: seq<nat>): nat
    requires forall k :: 0 <= k < |bytes| ==> 0x80 <= bytes[k]
    decreases |bytes|
  {
    if bytes == [] then acc else Fold(acc * 64 + (bytes[0] - 0x80), bytes[1..])
  }

  lemma {:induction false} ThreeOctetsWritten(c: char, rest: string)
    requires 0x800 <= c as int < 0x10000
    ensures var v, s := c as int, EncodeChar(c) + rest;
      && Octet(s, 0) == Some(0xE0 + v / 4096)
      && Octet(s, 3) == Some(0x80 + (v / 64) % 64)
      && Octet(s, 6) == Some(0x80 + v % 64)
  {
    assert !IsUnreserved(c);
    EscapeAllAt(Utf8(c), rest, 0);
    EscapeAllAt(Utf8(c), rest, 1);
    EscapeAllAt(Utf8(c), rest, 2);
  }

  lemma {:induction false} FoldTwo(v: nat)
    ensures Fold(v / 4096, [0x80 + (v / 64) % 64, 0x80 + v % 64]) == v
  {
    SplitSixBits(v);
    var b1, b2 := 0x80 + (v / 64) % 64, 0x80 + v % 64;
    assert [b1, b2][1..] == [b2];
    assert Fold(v / 4096, [b1, b2]) == Fold(v / 64, [b2]);
    assert Fold(v / 64, [b2]) == Fold(v, []);
  }

  lemma {:induction false} FoldThree(v: nat)
    ensures Fold(v / 262144, [0x80 + (v / 4096) % 64, 0x80 + (v / 64) % 64, 0x80 + v % 64]) == v
  {
    SplitSixBits(v);
    var b1, b2, b3 := 0x80 + (v / 4096) % 64, 0x80 + (v / 64) % 64, 0x80 + v % 64;
    assert [b1, b2, b3][1..] == [b2, b3];
    assert [b2, b3][1..] == [b3];
    assert Fold(v / 262144, [b1, b2, b3]) == Fold(v / 4096, [b2, b3]);
    assert Fold(v / 4096, [b2, b3]) == Fold(v / 64, [b3]);
    assert Fold(v / 64, [b3]) == Fold(v, []);
  }

  lemma {:induction false} DecodeThreeOctets(c: char, rest: string)
    requires 0x800 <= c as int < 0x10000
    ensures DecodeEscape(EncodeChar(c) + rest) == Some((c, 9))
  {
    var v := c as int;
    var s := EncodeChar(c) + rest;
    var b0, b1, b2 := 0xE0 + v / 4096, 0x80 + (v / 64) % 64, 0x80 + v % 64;
    ThreeOctetsWritten(c, rest);
    assert Trail(s, 3, 2, b0 - 0xE0) == Some(v) by {
      TrailOf(s, 3, v / 4096, [b1, b2]);
      FoldTwo(v);
    }
    assert MultiOctet(s, b0 - 0xE0, 2, 0x800) == Some((c, 9));
  }

  lemma {:induction false} FourOctetsWritten(c: char, rest: string)
    requires 0x10000 <= c as int
    ensures var v, s := c as int, EncodeChar(c) + rest;
      && Octet(s, 0) == Some(0xF0 + v / 262144)
      && Octet(s, 3) == Some(0x80 + (v / 4096) % 64)
      && Octet(s, 6) == Some(0x80 + (v / 64) % 64)
      && Octet(s, 9) == Some(0x80 + v % 64)
  {
    assert !IsUnreserved(c);
    EscapeAllAt(Utf8(c), rest, 0);
    EscapeAllAt(Utf8(c), rest, 1);
    EscapeAllAt(Utf8(c), rest, 2);
    EscapeAllAt(Utf8(c), rest, 3);
  }

  lemma {:induction false} DecodeFourOctets(c: char, rest: string)
    requires 0x10000 <= c as int
    ensures DecodeEscape(EncodeChar(c) + rest) == Some((c, 12))
  {
    var v := c as int;
    var s := EncodeChar(c) + rest;
    var b0, b1, b2, b3 := 0xF0 + v / 262144, 0x80 + (v / 4096) % 64, 0x80 + (v / 64) % 64, 0x80 + v % 64;
    FourOctetsWritten(c, rest);
    assert v <= 0x10FFFF;
    assert b0 < 0xF8;
    assert Trail(s, 3, 3, b0 - 0xF0) == Some(v) by {
      TrailOf(s, 3, v / 262144, [b1, b2, b3]);
      FoldThree(v);
    }
    assert MultiOctet(s, b0 - 0xF0, 3, 0x10000) == Some((c, 12));
  }

  /** Decoding the escapes of one encoded character gives that character back
      and consumes exactly those escapes, whatever follows them. */
  lemma {:induction false} DecodeEscapeOfChar(c: char, rest: string)
    requires !IsUnreserved(c)
    ensures DecodeEscape(EncodeChar(c) + rest) == Some((c, |EncodeChar(c)|))
  {
    var v := c as int;
    if v < 0x80 {
      EscapeAllAt(Utf8(c), rest, 0);
      assert (v as char) == c;
    } else if v < 0x800 {
      DecodeTwoOctets(c, rest);
    } else if v < 0x10000 {
      DecodeThreeOctets(c, rest);
    } else {
      DecodeFourOctets(c, rest);
    }
  }

  /** `decodeURIComponent(encodeURIComponent(s)) === s` for every string. */
  lemma {:induction false} DecodeEncode(s: string)
    ensures Decode(Encode(s)) == Some(s)
  {
    if s != [] {
      var head, tail := EncodeChar(s[0]), Encode(s[1..]);
      var e := head + tail;
      DecodeEncode(s[1..]);
      assert Encode(s) == e;
      assert [s[0]] + s[1..] == s;
      if IsUnreserved(s[0]) {
        assert e[0] == s[0] && e[1..] == tail;
        assert Decode(e) == Some([s[0]] + s[1..]);
      } else {
        DecodeEscapeOfChar(s[0], tail);
        EscapeAllSlice(Utf8(s[0]), 0);
        assert e[0] == head[0] == '%';
        assert e[|head|..] == tail;
        assert DecodeEscape(e) == Some((s[0], |head|));
        assert Decode(e) == Some([s[0]] + s[1..]);

      }
    }
  }

  /** A string of unreserved characters is written as it is. */
  lemma {:induction false} EncodeUnreserved(s: string)
    requires forall k :: 0 <= k < |s| ==> IsUnreserved(s[k])
    ensures Encode(s) == s
    decreases |s|
  {
    if s != [] {
      EncodeUnreserved(s[1..]);
      assert [s[0]] + s[1..] == s;
    }
  }

  /** Encoding loses nothing: different strings have different encodings. */
  lemma {:induction false} EncodeInjective(a: string, b: string)
    requires Encode(a) == Encode(b)
    ensures a == b
  {
    DecodeEncode(a);
    DecodeEncode(b);
  }
}
