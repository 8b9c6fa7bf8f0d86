/**
 * Base64 (section 4 of RFC 4648) as Node's `Buffer` applies it, and the URL-safe, unpadded form
 * the magic-link tokens use (`b64url` / `fromB64url` in api/_auth.js).
 */
module Base64 {
  import opened Common
  import opened Text

  /** The character for a 6-bit value in the standard alphabet (Table 1 of RFC 4648). */
  function CharOf(v: int): char
    requires 0 <= v < 64
  {
    if v < 26 then (65 + v) as char
    else if v < 52 then (97 + v - 26) as char
    else if v < 62 then (48 + v - 52) as char
    else if v == 62 then '+'
    else '/'
  }

  /**
   * The 6-bit value of a character for Node's decoder, or -1 for a character it skips. Besides
   * the standard alphabet Node also reads the URL-safe `-` and `_` as 62 and 63.
   */
  function ValueOf(c: char): (v: int)
    ensures -1 <= v < 64
  {
    if 'A' <= c <= 'Z' then c as int - 65
    else if 'a' <= c <= 'z' then c as int - 97 + 26
    else if '0' <= c <= '9' then c as int - 48 + 52
    else if c == '+' || c == '-' then 62
    else if c == '/' || c == '_' then 63
    else -1
  }

  lemma ValueOfCharOf(v: int)
    requires 0 <= v < 64
    ensures ValueOf(CharOf(v)) == v
  {
  }

  /**
   * The 6-bit values of the encoding of `b`: four for every three bytes, then two for one
   * trailing byte or three for two, the last value padded with zero bits.
   */
  function Values(b: seq<Byte>): (vs: seq<int>)
    ensures forall i :: 0 <= i < |vs| ==> 0 <= vs[i] < 64
    decreases |b|
  {
    if |b| == 0 then []
    else if |b| == 1 then [b[0] / 4, (b[0] % 4) * 16]
    else if |b| == 2 then [b[0] / 4, (b[0] % 4) * 16 + b[1] / 16, (b[1] % 16) * 4]
    else [b[0] / 4, (b[0] % 4) * 16 + b[1] / 16, (b[1] % 16) * 4 + b[2] / 64, b[2] % 64] + Values(b[3..])
  }

  /** Four values for every three bytes, and two or three more for one or two trailing bytes. */
  lemma {:induction false} ValuesLength(b: seq<Byte>)
    ensures |Values(b)| == |b| / 3 * 4 + (if |b| % 3 == 0 then 0 else |b| % 3 + 1)
    decreases |b|
  {
    if |b| >= 3 {
      ValuesLength(b[3..]);
      assert |b| / 3 == |b[3..]| / 3 + 1 && |b| % 3 == |b[3..]| % 3;
    }
  }

  /** The alphabet characters of the values. */
  function Chars(vs: seq<int>): (s: string)
    requires forall i :: 0 <= i < |vs| ==> 0 <= vs[i] < 64
    ensures |s| == |vs| && forall i :: 0 <= i < |vs| ==> s[i] == CharOf(vs[i])
  {
    seq(|vs|, i requires 0 <= i < |vs| => CharOf(vs[i]))
  }

  function Padding(n: nat): string
  {
    seq(n, _ => '=')
  }

  /** `buf.toString('base64')`: padded standard base64. */
  function Encode(b: seq<Byte>): (s: string)
    ensures |s| % 4 == 0
  {
    ValuesLength(b);
    Chars(Values(b)) + Padding(if |b| % 3 == 0 then 0 else 3 - |b| % 3)
  }

  /** The values Node's decoder reads: those of alphabet characters, up to the first `=`. */
  function Sextets(s: string): (vs: seq<int>)
    ensures forall i :: 0 <= i < |vs| ==> 0 <= vs[i] < 64
  {
    if s == [] || s[0] == '=' then []
    else if ValueOf(s[0]) < 0 then Sextets(s[1..])
    else [ValueOf(s[0])] + Sextets(s[1..])
  }

  /** Every four values give three bytes; two or three trailing values give one or two; a single one gives none. */
  function FromSextets(vs: seq<int>): seq<Byte>
    requires forall i :: 0 <= i < |vs| ==> 0 <= vs[i] < 64
    decreases |vs|
  {
    if |vs| < 2 then []
    else
      var b0 := vs[0] * 4 + vs[1] / 16;
      if |vs| == 2 then [b0]
      else
        var b1 := (vs[1] % 16) * 16 + vs[2] / 4;
        if |vs| == 3 then [b0, b1]
        else [b0, b1, (vs[2] % 4) * 64 + vs[3]] + FromSextets(vs[4..])
  }

  /** `Buffer.from(s, 'base64')`. */
  function Decode(s: string): seq<Byte>
  {
    FromSextets(Sextets(s))
  }

  /** The values of a group of three bytes decode back to those bytes. */
  lemma GroupRoundTrip(b0: Byte, b1: Byte, b2: Byte)
    ensures var v0, v1, v2, v3 := b0 / 4, (b0 % 4) * 16 + b1 / 16, (b1 % 16) * 4 + b2 / 64, b2 % 64;
      v0 * 4 + v1 / 16 == b0 && (v1 % 16) * 16 + v2 / 4 == b1 && (v2 % 4) * 64 + v3 == b2
  {
    var v1 := (b0 % 4) * 16 + b1 / 16;
    var v2 := (b1 % 16) * 4 + b2 / 64;
    assert v1 / 16 == b0 % 4 && v1 % 16 == b1 / 16;
    assert v2 / 4 == b1 % 16 && v2 % 4 == b2 / 64;
  }

  /** Decoding the values of an encoding gives back the bytes. */
  lemma {:induction false} FromValues(b: seq<Byte>)
    ensures FromSextets(Values(b)) == b
    decreases |b|
  {
    if |b| >= 3 {
      FromValues(b[3..]);
      GroupStep(b);
    } else {
      ShortTail(b);
    }
  }

  /** The first four values decode to the first three bytes, and the rest to the rest. */
  lemma {:induction false} GroupStep(b: seq<Byte>)
    requires |b| >= 3 && FromSextets(Values(b[3..])) == b[3..]
    ensures FromSextets(Values(b)) == b
  {
    var vs := Values(b);
    ValuesGroup(b);
    SextetsGroup(vs);
    GroupRoundTrip(b[0], b[1], b[2]);
    assert vs[4..] == Values(b[3..]);
    assert b == [b[0], b[1], b[2]] + b[3..];
  }

  /** Three or more bytes: the first four values come from the first three bytes. */
  lemma ValuesGroup(b: seq<Byte>)
    requires |b| >= 3
    ensures Values(b) == [b[0] / 4, (b[0] % 4) * 16 + b[1] / 16, (b[1] % 16) * 4 + b[2] / 64, b[2] % 64] + Values(b[3..])
  {
  }

  /** Four or more values: the first three bytes come from the first four values. */
  lemma SextetsGroup(vs: seq<int>)
    requires |vs| >= 4 && forall i :: 0 <= i < |vs| ==> 0 <= vs[i] < 64
    ensures FromSextets(vs) == [vs[0] * 4 + vs[1] / 16, (vs[1] % 16) * 16 + vs[2] / 4, (vs[2] % 4) * 64 + vs[3]] + FromSextets(vs[4..])
  {
  }

  /** One or two trailing bytes decode back from their two or three values. */
  lemma {:induction false} ShortTail(b: seq<Byte>)
    requires |b| < 3
    ensures FromSextets(Values(b)) == b
  {
    if |b| == 2 {
      var v0, v1, v2 := b[0] / 4, (b[0] % 4) * 16 + b[1] / 16, (b[1] % 16) * 4;
      assert Values(b) == [v0, v1, v2];
      GroupRoundTrip(b[0], b[1], 0);
      assert FromSextets([v0, v1, v2]) == [v0 * 4 + v1 / 16, (v1 % 16) * 16 + v2 / 4];
    } else if |b| == 1 {
      var v0, v1 := b[0] / 4, (b[0] % 4) * 16;
      assert Values(b) == [v0, v1];
      GroupRoundTrip(b[0], 0, 0);
      assert FromSextets([v0, v1]) == [v0 * 4 + v1 / 16];
    }
  }

  /** The decoder reads the value of every alphabet character. */
  lemma {:induction false} SextetsOfChars(vs: seq<int>)
    requires forall i :: 0 <= i < |vs| ==> 0 <= vs[i] < 64
    ensures Sextets(Chars(vs)) == vs
    decreases |vs|
  {
    if vs != [] {
      ValueOfCharOf(vs[0]);
      assert Chars(vs)[1..] == Chars(vs[1..]);
      SextetsOfChars(vs[1..]);
    }
  }

  /** The decoder stops at the first `=`, so whatever follows a `=`-led tail is unread. */
  lemma {:induction false} SextetsPrefix(r: string, tail: string)
    requires tail != [] && tail[0] == '='
    ensures Sextets(r + tail) == Sextets(r)
    decreases |r|
  {
    if r == [] {
      assert r + tail == tail;
    } else {
      assert (r + tail)[0] == r[0];
      assert (r + tail)[1..] == r[1..] + tail;
      SextetsPrefix(r[1..], tail);
    }
  }

  /** The decoder reads exactly the values of the encoding. */
  lemma SextetsOfEncode(b: seq<Byte>)
    ensures Sextets(Encode(b)) == Values(b)
  {
    var pad := Padding(if |b| % 3 == 0 then 0 else 3 - |b| % 3);
    if pad != [] {
      SextetsPrefix(Chars(Values(b)), pad);
    } else {
      assert Encode(b) == Chars(Values(b));
    }
    SextetsOfChars(Values(b));
  }

  /** `Buffer.from(buf.toString('base64'), 'base64')` gives back the bytes. */
  lemma DecodeEncode(b: seq<Byte>)
    ensures Decode(Encode(b)) == b
  {
    SextetsOfEncode(b);
    FromValues(b);
  }

  // ---------------------------------------------------------------------------
  // The URL-safe form of the tokens
  // ---------------------------------------------------------------------------

  /** `.replace(/\+/g, '-').replace(/\//g, '_')`. */
  function ToUrlChar(c: char): char
  {
    if c == '+' then '-' else if c == '/' then '_' else c
  }

  /** `.replace(/-/g, '+').replace(/_/g, '/')`. */
  function FromUrlChar(c: char): char
  {
    if c == '-' then '+' else if c == '_' then '/' else c
  }

  function MapChars(s: string, f: char -> char): (r: string)
    ensures |r| == |s| && forall i :: 0 <= i < |s| ==> r[i] == f(s[i])
  {
    seq(|s|, i requires 0 <= i < |s| => f(s[i]))
  }

  /** `.replace(/=+$/g, '')`: the string without its trailing run of `=`. */
  function StripPadding(s: string): (r: string)
    ensures |r| <= |s| && r == s[..|r|] && (r == [] || r[|r| - 1] != '=')
    ensures forall i :: |r| <= i < |s| ==> s[i] == '='
  {
    if s != [] && s[|s| - 1] == '=' then StripPadding(s[..|s| - 1]) else s
  }

  /** The characters a URL-safe token part is made of. */
  predicate IsUrlChar(c: char)
  {
    'A' <= c <= 'Z' || 'a' <= c <= 'z' || '0' <= c <= '9' || c == '-' || c == '_'
  }

  /** Stripping the padding of an encoding leaves its alphabet characters. */
  lemma StripEncode(b: seq<Byte>)
    ensures StripPadding(Encode(b)) == Chars(Values(b))
  {
    var cs := Chars(Values(b));
    StripAppended(cs, if |b| % 3 == 0 then 0 else 3 - |b| % 3);
  }

  lemma {:induction false} StripAppended(cs: string, n: nat)
    requires forall i :: 0 <= i < |cs| ==> cs[i] != '='
    ensures StripPadding(cs + Padding(n)) == cs
  {
    if n > 0 {
      assert (cs + Padding(n))[..|cs + Padding(n)| - 1] == cs + Padding(n - 1);
      StripAppended(cs, n - 1);
    } else {
      assert cs + Padding(n) == cs;
    }
  }

  /** `b64url(input)` on the bytes of the input. */
  function UrlEncode(b: seq<Byte>): (s: string)
    ensures forall i :: 0 <= i < |s| ==> IsUrlChar(s[i])
  {
    StripEncode(b);
    MapChars(StripPadding(Encode(b)), ToUrlChar)
  }

  /**
   * The string `fromB64url` hands to the decoder: `-` and `_` mapped back to `+` and `/`, then the
   * fewest `=` that make its length a multiple of four.
   */
  function Padded(s: string): (p: string)
    ensures |p| % 4 == 0
    ensures |s| <= |p| < |s| + 4
    ensures p[..|s|] == MapChars(s, FromUrlChar)
    ensures forall i :: |s| <= i < |p| ==> p[i] == '='
  {
    var normalized := MapChars(s, FromUrlChar);
    normalized + Padding(if |normalized| % 4 == 0 then 0 else 4 - |normalized| % 4)
  }

  /** `fromB64url(input)`: the padding it adds is never read, so it decodes the mapped-back input. */
  function UrlDecode(s: string): (b: seq<Byte>)
    ensures b == Decode(MapChars(s, FromUrlChar))
  {
    var p := Padded(s);
    assert p == MapChars(s, FromUrlChar) + Padding(|p| - |s|);
    PaddedSextets(MapChars(s, FromUrlChar), |p| - |s|);
    Decode(p)
  }

  /** `fromB64url(b64url(x))` recovers the bytes of `x`. */
  lemma UrlRoundTrip(b: seq<Byte>)
    ensures UrlDecode(UrlEncode(b)) == b
  {
    UrlNormalized(b);
    SextetsOfChars(Values(b));
    FromValues(b);
  }

  /** Mapping `-` and `_` back in an unpadded URL-safe encoding gives the alphabet characters of the standard one. */
  lemma UrlNormalized(b: seq<Byte>)
    ensures MapChars(UrlEncode(b), FromUrlChar) == Chars(Values(b))
  {
    StripEncode(b);
    var cs := Chars(Values(b));
    assert forall i :: 0 <= i < |cs| ==> FromUrlChar(ToUrlChar(cs[i])) == cs[i];
  }

  /** Padding appended to alphabet characters is not read. */
  lemma PaddedSextets(r: string, n: nat)
    ensures Sextets(r + Padding(n)) == Sextets(r)
  {
    if n > 0 {
      SextetsPrefix(r, Padding(n));
    } else {
      assert r + Padding(n) == r;
    }
  }
}
