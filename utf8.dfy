/**
 * UTF-8 as Node's `Buffer` applies it: `Buffer.from(string)` encodes every code point in one to
 * four bytes, and `buf.toString('utf8')` decodes, replacing each maximal ill-formed subpart by
 * U+FFFD (the WHATWG / Unicode "maximal subpart" practice).
 */
module Utf8 {
  import opened Common

  const REPLACEMENT: char := 0xFFFD as char

  /** The encoding of one code point. */
  function EncodeChar(c: char): (b: seq<Byte>)
    ensures 1 <= |b| <= 4
  {
    var cp := c as int;
    if cp < 0x80 then [cp]
    else if cp < 0x800 then [0xC0 + cp / 64, 0x80 + cp % 64]
    else if cp < 0x10000 then [0xE0 + cp / 4096, 0x80 + (cp / 64) % 64, 0x80 + cp % 64]
    else [0xF0 + cp / 262144, 0x80 + (cp / 4096) % 64, 0x80 + (cp / 64) % 64, 0x80 + cp % 64]
  }

  /** `Buffer.from(s)`. */
  function Encode(s: string): seq<Byte>
  {
    if s == [] then [] else EncodeChar(s[0]) + Encode(s[1..])
  }

  /** The length of the sequence a lead byte announces; 0 when the byte cannot start one. */
  function SequenceLength(lead: Byte): nat
  {
    if lead < 0x80 then 1
    else if 0xC2 <= lead <= 0xDF then 2
    else if 0xE0 <= lead <= 0xEF then 3
    else if 0xF0 <= lead <= 0xF4 then 4
    else 0
  }

  /**
   * Whether `b` may be the `k`-th byte (k >= 1) of a sequence led by `lead`: a continuation byte,
   * with the narrower first range that excludes overlong forms, surrogates and values past U+10FFFF.
   */
  predicate Fits(lead: Byte, k: nat, b: Byte)
  {
    var lower := if k == 1 && lead == 0xE0 then 0xA0 else if k == 1 && lead == 0xF0 then 0x90 else 0x80;
    var upper := if k == 1 && lead == 0xED then 0x9F else if k == 1 && lead == 0xF4 then 0x8F else 0xBF;
    lower <= b <= upper
  }

  /** The number of bytes after the lead, from position `k` on, that continue a sequence of length `n`. */
  function Continuations(b: seq<Byte>, n: nat, k: nat): (m: nat)
    requires 1 <= k <= n && k <= |b|
    decreases n - k
    ensures k - 1 <= m <= n - 1 && m < |b|
    ensures forall j :: k <= j <= m ==> j < |b| && Fits(b[0], j, b[j])
    ensures m < n - 1 ==> m + 1 >= |b| || !Fits(b[0], m + 1, b[m + 1])
  {
    if k < n && k < |b| && Fits(b[0], k, b[k]) then
      var m := Continuations(b, n, k + 1);
      assert forall j :: k + 1 <= j <= m ==> j < |b| && Fits(b[0], j, b[j]);
      m
    else k - 1
  }

  /** The code point of a complete, well-formed sequence of length `n` at the start of `b`. */
  function CodePoint(b: seq<Byte>, n: nat): int
    requires 2 <= n <= 4 && |b| >= n
  {
    var c1 := b[1] as int - 0x80;
    if n == 2 then (b[0] as int - 0xC0) * 64 + c1
    else
      var c2 := b[2] as int - 0x80;
      if n == 3 then (b[0] as int - 0xE0) * 4096 + c1 * 64 + c2
      else (b[0] as int - 0xF0) * 262144 + c1 * 4096 + c2 * 64 + (b[3] as int - 0x80)
  }

  predicate IsScalar(cp: int)
  {
    0 <= cp < 0xD800 || 0xE000 <= cp < 0x110000
  }

  /** A sequence passing the lead and continuation checks denotes a Unicode scalar value. */
  lemma CodePointIsScalar(b: seq<Byte>, n: nat)
    requires |b| > 0 && 2 <= n <= 4 && SequenceLength(b[0]) == n && |b| >= n
    requires forall j :: 1 <= j <= n - 1 ==> Fits(b[0], j, b[j])
    ensures IsScalar(CodePoint(b, n))
  {
    assert Fits(b[0], 1, b[1]);
    if n >= 3 { assert Fits(b[0], 2, b[2]); }
    if n == 4 { assert Fits(b[0], 3, b[3]); }
  }

  /**
   * `buf.toString('utf8')`: at most one character per byte, an ASCII lead byte read as itself and a
   * byte that cannot lead a sequence read as U+FFFD.
   */
  function Decode(b: seq<Byte>): (r: string)
    ensures |r| <= |b|
    ensures r == [] <==> b == []
    ensures |b| > 0 && b[0] < 0x80 ==> r[0] == b[0] as char
    ensures |b| > 0 && SequenceLength(b[0]) == 0 ==> r[0] == REPLACEMENT
    decreases |b|
  {
    if b == [] then []
    else
      var n := SequenceLength(b[0]);
      if n == 0 then [REPLACEMENT] + Decode(b[1..])
      else if n == 1 then [b[0] as char] + Decode(b[1..])
      else
        var m := Continuations(b, n, 1);
        if m == n - 1 then
          CodePointIsScalar(b, n);
          [CodePoint(b, n) as char] + Decode(b[n..])
        else [REPLACEMENT] + Decode(b[m + 1..])
  }

  /** A well-formed sequence of length `n` decodes to its code point and then to what follows it. */
  lemma DecodeWellFormed(b: seq<Byte>, n: nat)
    requires |b| >= n >= 2 && SequenceLength(b[0]) == n
    requires forall j :: 1 <= j <= n - 1 ==> Fits(b[0], j, b[j])
    ensures IsScalar(CodePoint(b, n))
    ensures Decode(b) == [CodePoint(b, n) as char] + Decode(b[n..])
  {
    CodePointIsScalar(b, n);
    assert Continuations(b, n, 1) == n - 1;
  }

  lemma EncodeTwo(c: char)
    requires 0x80 <= c as int < 0x800
    ensures var e := EncodeChar(c); |e| == 2 && SequenceLength(e[0]) == 2 && Fits(e[0], 1, e[1]) && CodePoint(e, 2) == c as int
  {
  }

  lemma EncodeThree(c: char)
    requires 0x800 <= c as int < 0x10000
    ensures var e := EncodeChar(c);
      |e| == 3 && SequenceLength(e[0]) == 3 && Fits(e[0], 1, e[1]) && Fits(e[0], 2, e[2]) && CodePoint(e, 3) == c as int
  {
    var cp := c as int;
    assert cp == (cp / 4096) * 4096 + ((cp / 64) % 64) * 64 + cp % 64;
  }

  lemma EncodeFour(c: char)
    requires 0x10000 <= c as int
    ensures var e := EncodeChar(c);
      |e| == 4 && SequenceLength(e[0]) == 4 && Fits(e[0], 1, e[1]) && Fits(e[0], 2, e[2]) && Fits(e[0], 3, e[3]) &&
      CodePoint(e, 4) == c as int
  {
    var cp := c as int;
    var q1, q2, q3 := cp / 64, cp / 4096, cp / 262144;
    SixBitDigits(cp);
    assert cp == q3 * 262144 + (q2 % 64) * 4096 + (q1 % 64) * 64 + cp % 64;
  }

  /** Successive divisions by 64 are divisions by its powers, and the base-64 digits add up to the number. */
  lemma SixBitDigits(n: nat)
    ensures n / 4096 == (n / 64) / 64 && n / 262144 == (n / 4096) / 64
    ensures n == (n / 262144) * 262144 + ((n / 4096) % 64) * 4096 + ((n / 64) % 64) * 64 + n % 64
  {
    var q1 := n / 64;
    var q2 := q1 / 64;
    var q3 := q2 / 64;
    assert n == q1 * 64 + n % 64;
    assert q1 == q2 * 64 + q1 % 64;
    assert q2 == q3 * 64 + q2 % 64;
    assert n == q2 * 4096 + (q1 % 64) * 64 + n % 64;
    assert n == q3 * 262144 + (q2 % 64) * 4096 + (q1 % 64) * 64 + n % 64;
  }

  /** Decoding the encoding of one code point yields it and then decodes what follows. */
  lemma DecodeEncodeChar(c: char, rest: seq<Byte>)
    ensures Decode(EncodeChar(c) + rest) == [c] + Decode(rest)
  {
    var e := EncodeChar(c);
    var b := e + rest;
    var n := |e|;
    assert b[n..] == rest;
    if c as int < 0x80 {
      assert b[0] == c as int;
    } else {
      if c as int < 0x800 {
        EncodeTwo(c);
      } else if c as int < 0x10000 {
        EncodeThree(c);
      } else {
        EncodeFour(c);
      }
      assert b[..n] == e;
      assert CodePoint(b, n) == CodePoint(e, n);
      DecodeWellFormed(b, n);
    }
  }

  /** `Buffer.from(s).toString('utf8') == s`. */
  lemma {:induction false} DecodeEncode(s: string)
    ensures Decode(Encode(s)) == s
  {
    if s != [] {
      DecodeEncodeChar(s[0], Encode(s[1..]));
      DecodeEncode(s[1..]);
    }
  }

  /** Every byte below 0x80 stands for itself. */
  lemma {:induction false} EncodeAscii(s: string)
    requires forall i :: 0 <= i < |s| ==> s[i] as int < 0x80
    ensures |Encode(s)| == |s|
    ensures forall i :: 0 <= i < |s| ==> Encode(s)[i] == s[i] as int
  {
    if s != [] {
      EncodeAscii(s[1..]);
    }
  }

  lemma {:induction false} EncodeConcat(a: string, b: string)
    ensures Encode(a + b) == Encode(a) + Encode(b)
  {
    if a == [] {
      assert a + b == b;
    } else {
      assert (a + b)[0] == a[0];
      assert (a + b)[1..] == a[1..] + b;
      EncodeConcat(a[1..], b);
    }
  }
}
