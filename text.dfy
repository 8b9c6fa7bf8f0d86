/**
 * The JavaScript string operations the core relies on, restricted to what the core needs:
 * ASCII case mapping (`toUpperCase` / `toLowerCase`), the `/[^A-Z]/g` filter, `trim`,
 * `split` on one character, and decimal formatting and parsing of natural numbers.
 */
module Text {

  predicate IsUpper(c: char) { 'A' <= c <= 'Z' }

  predicate IsLower(c: char) { 'a' <= c <= 'z' }

  predicate IsAsciiLetter(c: char) { IsUpper(c) || IsLower(c) }

  predicate IsDigit(c: char) { '0' <= c <= '9' }

  predicate AllUpper(s: string) { forall i :: 0 <= i < |s| ==> IsUpper(s[i]) }

  predicate AllDigits(s: string) { forall i :: 0 <= i < |s| ==> IsDigit(s[i]) }

  // ---------------------------------------------------------------------------
  // Case mapping (ASCII only)
  // ---------------------------------------------------------------------------

  function ToUpper(c: char): char
  {
    if IsLower(c) then (c as int - 32) as char else c
  }

  function ToLower(c: char): char
  {
    if IsUpper(c) then (c as int + 32) as char else c
  }

  /** `s.toUpperCase()` on ASCII letters; every other character is kept. */
  function UpperCase(s: string): (u: string)
    ensures |u| == |s|
  {
    seq(|s|, i requires 0 <= i < |s| => ToUpper(s[i]))
  }

  /** `s.toLowerCase()` on ASCII letters; every other character is kept. */
  function LowerCase(s: string): (l: string)
    ensures |l| == |s|
  {
    seq(|s|, i requires 0 <= i < |s| => ToLower(s[i]))
  }

  /** Lower-casing a character leaves no upper-case letter and keeps white space as it is. */
  lemma LowerOfChar(c: char)
    ensures !IsUpper(ToLower(c)) && IsJsSpace(ToLower(c)) == IsJsSpace(c)
  {
  }

  /** A lower-cased string has no upper-case letter and starts and ends like its argument as to white space. */
  lemma LowerCaseChars(s: string)
    ensures forall i :: 0 <= i < |s| ==> !IsUpper(LowerCase(s)[i])
    ensures |s| > 0 ==> IsJsSpace(LowerCase(s)[0]) == IsJsSpace(s[0])
    ensures |s| > 0 ==> IsJsSpace(LowerCase(s)[|s| - 1]) == IsJsSpace(s[|s| - 1])
  {
    forall i | 0 <= i < |s|
      ensures !IsUpper(LowerCase(s)[i]) && IsJsSpace(LowerCase(s)[i]) == IsJsSpace(s[i])
    {
      LowerOfChar(s[i]);
    }
  }

  lemma UpperCaseOfAllUpper(s: string)
    requires AllUpper(s)
    ensures UpperCase(s) == s
  {
  }

  // ---------------------------------------------------------------------------
  // The `/[^A-Z]/g` filter and its one-pass reference
  // ---------------------------------------------------------------------------

  /** `s.replace(/[^A-Z]/g, '')`: the upper-case ASCII letters of `s`, in order. */
  function KeepUpper(s: string): (r: string)
    ensures AllUpper(r)
    ensures |r| <= |s|
  {
    if s == [] then []
    else (if IsUpper(s[0]) then [s[0]] else []) + KeepUpper(s[1..])
  }

  /** Reference definition: every ASCII letter of `s`, upper-cased, in input order. */
  function Letters(s: string): string
  {
    if s == [] then []
    else (if IsAsciiLetter(s[0]) then [ToUpper(s[0])] else []) + Letters(s[1..])
  }

  /** Upper-casing and then filtering keeps exactly the ASCII letters, upper-cased, in order. */
  lemma {:induction false} KeepUpperOfUpperCase(s: string)
    ensures KeepUpper(UpperCase(s)) == Letters(s)
  {
    if s != [] {
      assert UpperCase(s)[1..] == UpperCase(s[1..]);
      KeepUpperOfUpperCase(s[1..]);
    }
  }

  /** Filtering a string that is already all upper-case letters changes nothing. */
  lemma {:induction false} KeepUpperOfAllUpper(s: string)
    requires AllUpper(s)
    ensures KeepUpper(s) == s
  {
    if s != [] {
      KeepUpperOfAllUpper(s[1..]);
    }
  }

  /** A string of upper-case letters is its own letter sequence. */
  lemma {:induction false} LettersOfAllUpper(s: string)
    requires AllUpper(s)
    ensures Letters(s) == s
  {
    if s != [] {
      LettersOfAllUpper(s[1..]);
      assert [s[0]] + s[1..] == s;
    }
  }

  lemma {:induction false} LettersConcat(a: string, b: string)
    ensures Letters(a + b) == Letters(a) + Letters(b)
  {
    if a == [] {
      assert a + b == b;
    } else {
      var head := if IsAsciiLetter(a[0]) then [ToUpper(a[0])] else [];
      assert (a + b)[0] == a[0];
      assert (a + b)[1..] == a[1..] + b;
      assert Letters(a + b) == head + Letters(a[1..] + b);
      LettersConcat(a[1..], b);
      assert Letters(a) == head + Letters(a[1..]);
    }
  }

  /** `Letters(s)` is empty exactly when `s` has no ASCII letter; otherwise its head is the first one, upper-cased. */
  lemma LettersHead(s: string)
    ensures Letters(s) == [] <==> forall i :: 0 <= i < |s| ==> !IsAsciiLetter(s[i])
    ensures Letters(s) != [] ==>
      exists i :: 0 <= i < |s| && IsAsciiLetter(s[i]) && Letters(s)[0] == ToUpper(s[i]) &&
        forall j :: 0 <= j < i ==> !IsAsciiLetter(s[j])
  {
    LettersEmpty(s);
    if Letters(s) != [] {
      LettersFirst(s);
    }
  }

  lemma {:induction false} LettersEmpty(s: string)
    ensures Letters(s) == [] <==> forall i :: 0 <= i < |s| ==> !IsAsciiLetter(s[i])
  {
    if s != [] {
      LettersEmpty(s[1..]);
      assert forall i :: 1 <= i < |s| ==> s[i] == s[1..][i - 1];
    }
  }

  lemma {:induction false} LettersFirst(s: string)
    requires Letters(s) != []
    ensures exists i :: (0 <= i < |s| && IsAsciiLetter(s[i]) && Letters(s)[0] == ToUpper(s[i]) &&
                         forall j :: 0 <= j < i ==> !IsAsciiLetter(s[j]))
  {
    if IsAsciiLetter(s[0]) {
      assert Letters(s)[0] == ToUpper(s[0]);
    } else {
      assert Letters(s) == Letters(s[1..]);
      LettersFirst(s[1..]);
      var i :| 0 <= i < |s[1..]| && IsAsciiLetter(s[1..][i]) && Letters(s[1..])[0] == ToUpper(s[1..][i]) &&
        forall j :: 0 <= j < i ==> !IsAsciiLetter(s[1..][j]);
      assert IsAsciiLetter(s[i + 1]) && Letters(s)[0] == ToUpper(s[i + 1]);
      assert forall j :: 0 <= j < i + 1 ==> !IsAsciiLetter(s[j]) by {
        forall j | 0 <= j < i + 1 ensures !IsAsciiLetter(s[j]) {
          if j > 0 { assert s[j] == s[1..][j - 1]; }
        }
      }
    }
  }

  // ---------------------------------------------------------------------------
  // String.prototype.trim
  // ---------------------------------------------------------------------------

  /**
   * The characters `trim` removes: ECMAScript WhiteSpace (TAB, VT, FF, SP, NBSP, ZWNBSP and the
   * Unicode Space_Separator category) and LineTerminator (LF, CR, LS, PS).
   */
  predicate IsJsSpace(c: char)
  {
    c == '\t' || c == '\n' || c as int == 0x0B || c as int == 0x0C || c == '\r' || c == ' ' ||
    c as int == 0xA0 || c as int == 0x1680 || 0x2000 <= c as int <= 0x200A ||
    c as int == 0x2028 || c as int == 0x2029 || c as int == 0x202F || c as int == 0x205F ||
    c as int == 0x3000 || c as int == 0xFEFF
  }

  function TrimStart(s: string): (r: string)
    ensures |r| <= |s| && r == s[|s| - |r|..]
    ensures r == [] || !IsJsSpace(r[0])
  {
    if |s| > 0 && IsJsSpace(s[0]) then TrimStart(s[1..]) else s
  }

  function TrimEnd(s: string): (r: string)
    ensures |r| <= |s| && r == s[..|r|]
    ensures r == [] || !IsJsSpace(r[|r| - 1])
  {
    if |s| > 0 && IsJsSpace(s[|s| - 1]) then TrimEnd(s[..|s| - 1]) else s
  }

  /** `s.trim()`. */
  function Trim(s: string): (r: string)
    ensures |r| <= |s|
    ensures r == [] || (!IsJsSpace(r[0]) && !IsJsSpace(r[|r| - 1]))
  {
    TrimEnd(TrimStart(s))
  }

  lemma TrimOfTrimmed(s: string)
    requires s == [] || (!IsJsSpace(s[0]) && !IsJsSpace(s[|s| - 1]))
    ensures Trim(s) == s
  {
  }

  lemma {:induction false} TrimStartLowerCase(s: string)
    ensures TrimStart(LowerCase(s)) == LowerCase(TrimStart(s))
  {
    if |s| > 0 {
      assert LowerCase(s)[0] == ToLower(s[0]);
      assert LowerCase(s)[1..] == LowerCase(s[1..]);
      if IsJsSpace(s[0]) {
        TrimStartLowerCase(s[1..]);
      }
    }
  }

  lemma {:induction false} TrimEndLowerCase(s: string)
    ensures TrimEnd(LowerCase(s)) == LowerCase(TrimEnd(s))
  {
    if |s| > 0 {
      assert LowerCase(s)[|s| - 1] == ToLower(s[|s| - 1]);
      assert LowerCase(s)[..|s| - 1] == LowerCase(s[..|s| - 1]);
      if IsJsSpace(s[|s| - 1]) {
        TrimEndLowerCase(s[..|s| - 1]);
      }
    }
  }

  /** Lower-casing never creates or removes whitespace, so it commutes with `trim`. */
  lemma TrimLowerCase(s: string)
    ensures Trim(LowerCase(s)) == LowerCase(Trim(s))
  {
    TrimStartLowerCase(s);
    TrimEndLowerCase(TrimStart(s));
  }

  // ---------------------------------------------------------------------------
  // String.prototype.split on a one-character separator
  // ---------------------------------------------------------------------------

  function Count(s: string, c: char): nat
  {
    if s == [] then 0 else (if s[0] == c then 1 else 0) + Count(s[1..], c)
  }

  lemma {:induction false} CountZero(s: string, c: char)
    ensures Count(s, c) == 0 <==> c !in s
  {
    if s != [] {
      CountZero(s[1..], c);
      assert c in s <==> s[0] == c || c in s[1..];
    }
  }

  /** `s.split(sep)`: the maximal pieces of `s` between occurrences of `sep`. */
  function Split(s: string, sep: char): (parts: seq<string>)
    ensures |parts| == Count(s, sep) + 1
    ensures forall k :: 0 <= k < |parts| ==> sep !in parts[k]
  {
    if s == [] then [""]
    else
      var rest := Split(s[1..], sep);
      if s[0] == sep then [""] + rest
      else
        assert sep !in rest[0];
        [[s[0]] + rest[0]] + rest[1..]
  }

  /** The first piece starts with the first character when that is no separator. */
  lemma SplitHead(s: string, sep: char)
    requires |s| > 0 && s[0] != sep
    ensures |Split(s, sep)[0]| > 0 && Split(s, sep)[0][0] == s[0]
  {
  }

  lemma {:induction false} SplitWithoutSeparator(s: string, sep: char)
    requires sep !in s
    ensures Split(s, sep) == [s]
  {
    if s != [] {
      SplitWithoutSeparator(s[1..], sep);
      assert [s[0]] + s[1..] == s;
    }
  }

  /** Splitting `a + sep + b`, where `a` has no separator, yields `a` followed by the pieces of `b`. */
  lemma {:induction false} SplitAfterFirst(a: string, sep: char, b: string)
    requires sep !in a
    ensures Split(a + [sep] + b, sep) == [a] + Split(b, sep)
  {
    var s := a + [sep] + b;
    if a == [] {
      assert s == [sep] + b;
      assert s[1..] == b;
    } else {
      assert s[0] == a[0];
      assert s[1..] == a[1..] + [sep] + b;
      SplitAfterFirst(a[1..], sep, b);
      assert [a[0]] + a[1..] == a;
    }
  }

  /**
   * The first piece is a prefix of `s`; it is all of `s` when there is a single piece, and otherwise
   * a separator follows it and the remaining pieces are those of the text after that separator.
   */
  lemma {:induction false} SplitFirst(s: string, sep: char)
    ensures var parts := Split(s, sep);
      parts[0] <= s && (|parts| == 1 <==> |parts[0]| == |s|) &&
      (|parts| > 1 ==> s[|parts[0]|] == sep && Split(s[|parts[0]| + 1..], sep) == parts[1..])
  {
    if s != [] && s[0] != sep {
      SplitFirst(s[1..], sep);
      var rest := Split(s[1..], sep);
      assert Split(s, sep)[0] == [s[0]] + rest[0];
      if |rest| > 1 {
        assert s[|rest[0]| + 2..] == s[1..][|rest[0]| + 1..];
      }
    }
  }

  /** Splitting `a + sep + b`, where neither part has a separator, yields the two parts. */
  lemma SplitTwo(a: string, sep: char, b: string)
    requires sep !in a && sep !in b
    ensures Split(a + [sep] + b, sep) == [a, b]
  {
    SplitAfterFirst(a, sep, b);
    SplitWithoutSeparator(b, sep);
  }

  // ---------------------------------------------------------------------------
  // Decimal numerals: String(n) and Number(s) on digit strings
  // ---------------------------------------------------------------------------

  function DigitChar(d: int): char
    requires 0 <= d < 10
  {
    ('0' as int + d) as char
  }

  /** The decimal numeral of `n`, which is what `String(n)` writes for `n` below 10^21. */
  function NatToDecimal(n: nat): (s: string)
    ensures |s| > 0 && AllDigits(s)
  {
    if n < 10 then [DigitChar(n)] else NatToDecimal(n / 10) + [DigitChar(n % 10)]
  }

  /** The value of a string of decimal digits. */
  function DigitsValue(s: string): nat
    requires AllDigits(s)
  {
    if s == [] then 0 else DigitsValue(s[..|s| - 1]) * 10 + (s[|s| - 1] as int - '0' as int)
  }

  /** Reading back a formatted natural number gives the number. */
  lemma {:induction false} DecimalRoundTrip(n: nat)
    ensures DigitsValue(NatToDecimal(n)) == n
  {
    if n >= 10 {
      var s := NatToDecimal(n);
      assert s[..|s| - 1] == NatToDecimal(n / 10);
      DecimalRoundTrip(n / 10);
    }
  }
}
