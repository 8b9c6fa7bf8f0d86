/**
 * The glyph-matching engine (src/engine.js): binary masks of CELL x CELL pixels, thresholding
 * of RGBA pixel data, pixel-wise AND, the blended IoU/F1 similarity score, per-font letter
 * libraries built from an abstract rasteriser, top-N ranking, and painting a mask into RGBA.
 */
module Engine {
  import opened Common
  import opened Sorting

  /** The side of the square cell every glyph is drawn in. */
  const CELL := 200
  /** The pixels of a cell, `CELL * CELL`, written out. */
  const PIXELS := 40000
  /** `'ABCDEFGHIJKLMNOPQRSTUVWXYZ'`, stated by character code (see `AlphabetLiteral`). */
  const ALPHABET: string := Letters26()

  /** The 26 characters from 'A' on, in code order. */
  function Letters26(): (s: string)
    ensures |s| == 26 && forall i :: 0 <= i < 26 ==> s[i] == (65 + i) as char
  {
    seq(26, i requires 0 <= i < 26 => (65 + i) as char)
  }

  /** The font fallback chains tried when matching, in order. */
  const FONT_FAMILIES: seq<string> := [
    "\"Arial Black\", \"Arial Bold\", sans-serif",
    "Impact, \"Arial Narrow Bold\", sans-serif",
    "\"Helvetica Neue\", \"Helvetica Bold\", Helvetica, sans-serif",
    "\"Trebuchet MS\", \"Lucida Grande\", sans-serif",
    "Verdana, Geneva, sans-serif",
    "Georgia, \"Times New Roman\", serif",
    "\"Courier New\", Courier, monospace",
    "\"Futura\", \"Century Gothic\", sans-serif"
  ]

  /** The family `renderLetter` falls back to when it is given none. */
  const DEFAULT_FAMILY := "\"Arial Black\", \"Arial Bold\", sans-serif"

  /** A binary mask, row-major, 1 = ink. */
  type Mask = seq<bv1>

  /** The RGBA bytes of a CELL x CELL canvas (`getImageData(0, 0, CELL, CELL).data`). */
  type CellImage = d: seq<Byte> | |d| == 4 * PIXELS witness seq(4 * PIXELS, _ => 255)

  /** One mask per letter (`buildLetterMasks`' result object). */
  type Library = map<char, Mask>

  /**
   * The canvas rasteriser behind `renderLetter`: a letter, a font size and a font fallback
   * chain give the RGBA bytes of the rendered CELL x CELL canvas.
   */
  type Renderer = (char, int, string) -> CellImage

  /** A letter of ALPHABET. */
  predicate IsLetter(c: char) { 'A' <= c <= 'Z' }

  predicate IsMask(m: Mask) { |m| == PIXELS }

  /** A complete library: exactly the 26 letters, each with a CELL x CELL mask. */
  predicate IsLibrary(lib: Library)
  {
    (forall c :: c in lib <==> IsLetter(c)) && (forall c :: c in lib ==> |lib[c]| == PIXELS)
  }

  // ---------------------------------------------------------------------------
  // The alphabet
  // ---------------------------------------------------------------------------

  lemma AlphabetLiteral()
    ensures ALPHABET == "ABCDEFGHIJKLMNOPQRSTUVWXYZ"
  {
  }

  lemma AlphabetAt(i: int)
    requires 0 <= i < |ALPHABET|
    ensures |ALPHABET| == 26
    ensures ALPHABET[i] == (65 + i) as char && IsLetter(ALPHABET[i])
  {
  }

  /** The letters are exactly the members of `ALPHABET`, and a letter sits at its offset from 'A'. */
  lemma LetterRange(c: char)
    ensures IsLetter(c) <==> c in ALPHABET
    ensures IsLetter(c) ==> ALPHABET[c as int - 65] == c
  {
    if IsLetter(c) {
      AlphabetAt(c as int - 65);
    }
    if c in ALPHABET {
      var i :| 0 <= i < |ALPHABET| && ALPHABET[i] == c;
      AlphabetAt(i);
    }
  }

  /** Alphabet order is character order. */
  lemma AlphabetOrder(i: int, j: int)
    requires 0 <= i < |ALPHABET| && 0 <= j < |ALPHABET|
    ensures ALPHABET[i] < ALPHABET[j] <==> i < j
    ensures ALPHABET[i] == ALPHABET[j] <==> i == j
  {
    AlphabetAt(i);
    AlphabetAt(j);
  }

  // ---------------------------------------------------------------------------
  // toBinary
  // ---------------------------------------------------------------------------

  /** `R + G + B` of pixel `i` (alpha is not read). */
  function ChannelSum(d: CellImage, i: int): int
    requires 0 <= i < PIXELS
  {
    d[4 * i] as int + d[4 * i + 1] as int + d[4 * i + 2] as int
  }

  /** The brightness `(R + G + B) / 3` of pixel `i`. */
  function Brightness(d: CellImage, i: int): real
    requires 0 <= i < PIXELS
  {
    ChannelSum(d, i) as real / 3.0
  }

  /** The mask of a CELL x CELL image: a pixel is ink when its brightness is below 128. */
  function Binarize(d: CellImage): (m: Mask)
    ensures IsMask(m)
    ensures forall i :: 0 <= i < PIXELS ==> (m[i] == 1 <==> ChannelSum(d, i) < 384)
  {
    seq(PIXELS, i requires 0 <= i < PIXELS => if Brightness(d, i) < 128.0 then 1 else 0)
  }

  /** `toBinary`: fills a fresh CELL x CELL mask pixel by pixel. */
  method ToBinary(d: CellImage) returns (m: Mask)
    ensures m == Binarize(d)
  {
    var mask := new bv1[PIXELS];
    for i := 0 to mask.Length
      invariant forall k :: 0 <= k < i ==> mask[k] == Binarize(d)[k]
    {
      var brightness := (d[i * 4] as int + d[i * 4 + 1] as int + d[i * 4 + 2] as int) as real / 3.0;
      mask[i] := if brightness < 128.0 then 1 else 0;
    }
    m := mask[..];
  }

  // ---------------------------------------------------------------------------
  // andMasks
  // ---------------------------------------------------------------------------

  /** Pixel `i` of `m`, or 0 past its end (JavaScript reads `undefined`, which ANDs to 0 and is falsy). */
  function At(m: Mask, i: int): bv1
  {
    if 0 <= i < |m| then m[i] else 0
  }

  /** The pixel-wise AND, as long as `a`. */
  function And(a: Mask, b: Mask): (r: Mask)
    ensures |r| == |a|
  {
    seq(|a|, i requires 0 <= i < |a| => a[i] & At(b, i))
  }

  /** `andMasks`: fills a fresh mask of `a`'s length. */
  method AndMasks(a: Mask, b: Mask) returns (r: Mask)
    ensures |r| == |a|
    ensures forall i :: 0 <= i < |a| ==> (r[i] == 1 <==> a[i] == 1 && At(b, i) == 1)
    ensures r == And(a, b)
  {
    var result := new bv1[|a|];
    for i := 0 to |a|
      invariant forall k :: 0 <= k < i ==> result[k] == a[k] & At(b, k)
    {
      result[i] := a[i] & At(b, i);
    }
    r := result[..];
  }

  function Full(n: nat): (m: Mask)
    ensures |m| == n
  {
    seq(n, _ => 1)
  }

  function Blank(n: nat): (m: Mask)
    ensures |m| == n
  {
    seq(n, _ => 0)
  }

  lemma AndCommutes(a: Mask, b: Mask)
    requires |a| == |b|
    ensures And(a, b) == And(b, a)
  {
  }

  lemma AndIdempotent(m: Mask)
    ensures And(m, m) == m
  {
  }

  lemma AndFull(m: Mask)
    ensures And(m, Full(|m|)) == m
  {
  }

  lemma AndBlank(m: Mask)
    ensures And(m, Blank(|m|)) == Blank(|m|)
  {
  }

  // ---------------------------------------------------------------------------
  // Ink counts
  // ---------------------------------------------------------------------------

  /** The number of ink pixels. */
  function Ink(m: Mask): nat
  {
    if m == [] then 0 else Ink(m[..|m| - 1]) + (if m[|m| - 1] == 1 then 1 else 0)
  }

  /** `t` cut or padded with 0 to length `n`: the target pixels a loop over `n` pixels reads. */
  function Fit(t: Mask, n: nat): (r: Mask)
    ensures |r| == n
  {
    seq(n, i requires 0 <= i < n => At(t, i))
  }

  predicate Covered(x: Mask, y: Mask)
  {
    |x| == |y| && forall i :: 0 <= i < |x| ==> x[i] == 1 ==> y[i] == 1
  }

  lemma InkStep(m: Mask, i: int)
    requires 0 <= i < |m|
    ensures Ink(m[..i + 1]) == Ink(m[..i]) + (if m[i] == 1 then 1 else 0)
  {
    assert m[..i + 1][..i] == m[..i];
  }

  /** Covering never loses ink, and equal counts under covering mean equal masks. */
  lemma {:induction false} InkCovered(x: Mask, y: Mask)
    requires Covered(x, y)
    ensures Ink(x) <= Ink(y)
    ensures Ink(x) == Ink(y) ==> x == y
  {
    if x != [] {
      var n := |x| - 1;
      assert Covered(x[..n], y[..n]);
      InkCovered(x[..n], y[..n]);
      if Ink(x) == Ink(y) {
        assert x[..n] == y[..n];
        assert x == x[..n] + [x[n]] && y == y[..n] + [y[n]];
      }
    }
  }

  lemma {:induction false} InkZero(m: Mask)
    ensures Ink(m) == 0 <==> m == Blank(|m|)
  {
    if m != [] {
      var n := |m| - 1;
      InkZero(m[..n]);
      assert m == m[..n] + [m[n]];
      if m == Blank(|m|) {
        assert m[..n] == Blank(n);
      }
    }
  }

  lemma FitSameLength(t: Mask)
    ensures Fit(t, |t|) == t
  {
  }

  /** The overlap is covered by both operands. */
  lemma AndCovered(c: Mask, t: Mask)
    ensures Covered(And(c, t), c) && Covered(And(c, t), Fit(t, |c|))
    ensures Ink(And(c, t)) <= Ink(c) && Ink(And(c, t)) <= Ink(Fit(t, |c|))
  {
    InkCovered(And(c, t), c);
    InkCovered(And(c, t), Fit(t, |c|));
  }

  // ---------------------------------------------------------------------------
  // matchScore
  // ---------------------------------------------------------------------------

  /** The F1 term `2 * prec * rec / (prec + rec)` equals `2 * inter / (cSum + tSum)`. */
  lemma F1Closed(inter: nat, cSum: nat, tSum: nat)
    requires 0 < cSum && 0 < tSum && inter <= cSum && inter <= tSum
    ensures var prec := inter as real / cSum as real;
            var rec := inter as real / tSum as real;
            (if prec + rec > 0.0 then 2.0 * prec * rec / (prec + rec) else 0.0)
              == 2.0 * inter as real / (cSum + tSum) as real
  {
    var i, c, t := inter as real, cSum as real, tSum as real;
    var prec := i / c;
    var rec := i / t;
    var q := 2.0 * i / (c + t);
    assert prec * c == i;
    assert rec * t == i;
    assert q * (c + t) == 2.0 * i;
    if i > 0.0 {
      assert prec > 0.0 && rec > 0.0;
      assert (prec + rec) * c * t == i * t + i * c;
      assert 2.0 * prec * rec * c * t == 2.0 * i * i;
      assert q * (prec + rec) * c * t == 2.0 * i * i;
      assert 2.0 * prec * rec == q * (prec + rec);
    } else {
      assert prec == 0.0 && rec == 0.0;
    }
  }

  /** The blended score computed from the three counts (matchScore after its counting loop). */
  function Blend(inter: nat, cSum: nat, tSum: nat): (s: real)
    requires inter <= cSum && inter <= tSum
  {
    if cSum == 0 && tSum == 0 then 1.0
    else if cSum == 0 || tSum == 0 then 0.0
    else
      var union := cSum + tSum - inter;
      var iou := inter as real / union as real;
      var prec := inter as real / cSum as real;
      var rec := inter as real / tSum as real;
      var f1 := if prec + rec > 0.0 then 2.0 * prec * rec / (prec + rec) else 0.0;
      0.4 * iou + 0.6 * f1
  }

  /** The blend in closed form: `0.4 * inter / union + 0.6 * 2 * inter / (cSum + tSum)` for two inked masks. */
  lemma BlendClosed(inter: nat, cSum: nat, tSum: nat)
    requires inter <= cSum && inter <= tSum && 0 < cSum && 0 < tSum
    ensures Blend(inter, cSum, tSum) ==
      0.4 * (inter as real / (cSum + tSum - inter) as real) + 0.6 * (2.0 * inter as real / (cSum + tSum) as real)
  {
    F1Closed(inter, cSum, tSum);
  }

  lemma RatioBounds(x: real, y: real)
    requires 0.0 <= x <= y && 0.0 < y
    ensures 0.0 <= x / y <= 1.0
    ensures x / y == 1.0 <==> x == y
    ensures x / y == 0.0 <==> x == 0.0
  {
    assert (x / y) * y == x;
  }

  /** The score lies in [0, 1]; it is 1 exactly when the counts agree, and 0 exactly when there is no overlap but some ink. */
  lemma BlendRange(inter: nat, cSum: nat, tSum: nat)
    requires inter <= cSum && inter <= tSum
    ensures 0.0 <= Blend(inter, cSum, tSum) <= 1.0
    ensures Blend(inter, cSum, tSum) == 1.0 <==> inter == cSum && inter == tSum
    ensures Blend(inter, cSum, tSum) == 0.0 <==> inter == 0 && (cSum > 0 || tSum > 0)
  {
    if 0 < cSum && 0 < tSum {
      BlendClosed(inter, cSum, tSum);
      var i := inter as real;
      RatioBounds(i, (cSum + tSum - inter) as real);
      RatioBounds(2.0 * i, (cSum + tSum) as real);
    }
  }

  lemma BlendSymmetric(inter: nat, cSum: nat, tSum: nat)
    requires inter <= cSum && inter <= tSum
    ensures Blend(inter, cSum, tSum) == Blend(inter, tSum, cSum)
  {
    if 0 < cSum && 0 < tSum {
      BlendClosed(inter, cSum, tSum);
      BlendClosed(inter, tSum, cSum);
    }
  }

  /**
   * `matchScore(candidate, target)`: `inter`, `cSum` and `tSum` count over the candidate's
   * pixels, reading the target at the same index.
   */
  function Score(candidate: Mask, target: Mask): (s: real)
    ensures 0.0 <= s <= 1.0
  {
    AndCovered(candidate, target);
    var inter := Ink(And(candidate, target));
    var cSum := Ink(candidate);
    var tSum := Ink(Fit(target, |candidate|));
    BlendRange(inter, cSum, tSum);
    Blend(inter, cSum, tSum)
  }

  /** `matchScore`: one pass counting `cSum`, `tSum` and `inter`, then the blend. */
  method MatchScore(candidate: Mask, target: Mask) returns (s: real)
    ensures s == Score(candidate, target)
  {
    var inter, cSum, tSum := 0, 0, 0;
    for i := 0 to |candidate|
      invariant cSum == Ink(candidate[..i])
      invariant tSum == Ink(Fit(target, |candidate|)[..i])
      invariant inter == Ink(And(candidate, target)[..i])
    {
      InkStep(candidate, i);
      InkStep(Fit(target, |candidate|), i);
      InkStep(And(candidate, target), i);
      if candidate[i] == 1 { cSum := cSum + 1; }
      if At(target, i) == 1 { tSum := tSum + 1; }
      if candidate[i] == 1 && At(target, i) == 1 { inter := inter + 1; }
    }
    assert candidate[..|candidate|] == candidate;
    assert Fit(target, |candidate|)[..|candidate|] == Fit(target, |candidate|);
    assert And(candidate, target)[..|candidate|] == And(candidate, target);
    AndCovered(candidate, target);
    s := Blend(inter, cSum, tSum);
  }

  /** Score symmetry: IoU and F1 do not care which mask is the candidate. */
  lemma ScoreSymmetric(a: Mask, b: Mask)
    requires |a| == |b|
    ensures Score(a, b) == Score(b, a)
  {
    FitSameLength(a);
    FitSameLength(b);
    AndCommutes(a, b);
    AndCovered(a, b);
    BlendSymmetric(Ink(And(a, b)), Ink(a), Ink(b));
  }

  /** A perfect score means identical masks, and identical masks (blank ones included) score 1. */
  lemma ScoreOneIffEqual(c: Mask, t: Mask)
    requires |c| == |t|
    ensures Score(c, t) == 1.0 <==> c == t
  {
    FitSameLength(t);
    AndCovered(c, t);
    var inter := Ink(And(c, t));
    BlendRange(inter, Ink(c), Ink(t));
    if c == t {
      AndIdempotent(c);
    }
    if Score(c, t) == 1.0 {
      InkCovered(And(c, t), c);
      InkCovered(And(c, t), t);
    }
  }

  lemma ScoreSelf(m: Mask)
    ensures Score(m, m) == 1.0
  {
    ScoreOneIffEqual(m, m);
  }

  /** A zero score means no overlap and at least one inked mask. */
  lemma ScoreZeroIff(c: Mask, t: Mask)
    requires |c| == |t|
    ensures Score(c, t) == 0.0 <==> Ink(And(c, t)) == 0 && (Ink(c) > 0 || Ink(t) > 0)
  {
    FitSameLength(t);
    AndCovered(c, t);
    BlendRange(Ink(And(c, t)), Ink(c), Ink(t));
  }

  /** Two blank masks score 1; a blank mask against an inked one scores 0, in either order. */
  lemma ScoreWithBlank(c: Mask, t: Mask)
    requires |c| == |t|
    ensures Ink(c) == 0 && Ink(t) == 0 ==> Score(c, t) == 1.0
    ensures (Ink(c) == 0) != (Ink(t) == 0) ==> Score(c, t) == 0.0
  {
    FitSameLength(t);
    AndCovered(c, t);
    BlendRange(Ink(And(c, t)), Ink(c), Ink(t));
  }

  // ---------------------------------------------------------------------------
  // buildLetterMasks and buildAllFontMasks
  // ---------------------------------------------------------------------------

  /** `renderLetter`'s `fontFamily || DEFAULT_FAMILY`: a missing or empty family falls back to the default. */
  function FamilyOrDefault(family: Option<string>): string
  {
    if family.None? || family.value == "" then DEFAULT_FAMILY else family.value
  }

  /** The library `buildLetterMasks(fontSize, family)` returns. */
  function LetterMasks(render: Renderer, fontSize: int, family: Option<string>): (lib: Library)
    ensures IsLibrary(lib)
  {
    map c | IsLetter(c) :: Binarize(render(c, fontSize, FamilyOrDefault(family)))
  }

  /** `buildLetterMasks`: one thresholded rasterisation per letter, filled into a fresh object. */
  method BuildLetterMasks(render: Renderer, fontSize: int, family: Option<string>) returns (masks: Library)
    ensures IsLibrary(masks)
    ensures forall c :: c in masks ==> masks[c] == Binarize(render(c, fontSize, FamilyOrDefault(family)))
    ensures masks == LetterMasks(render, fontSize, family)
  {
    masks := map[];
    for i := 0 to |ALPHABET|
      invariant forall c :: c in masks <==> 'A' <= c && (c as int) < 65 + i
      invariant forall c :: c in masks ==> masks[c] == Binarize(render(c, fontSize, FamilyOrDefault(family)))
    {
      var ch := ALPHABET[i];
      var m := ToBinary(render(ch, fontSize, FamilyOrDefault(family)));
      masks := masks[ch := m];
    }
  }

  /** One library per entry of `FONT_FAMILIES`. */
  datatype FontMasks = FontMasks(fontFamily: string, masks: Library)

  /** `buildAllFontMasks`: `FONT_FAMILIES.map(ff => ({ fontFamily: ff, masks: buildLetterMasks(fontSize, ff) }))`. */
  function BuildAllFontMasks(render: Renderer, fontSize: int): (all: seq<FontMasks>)
    ensures |all| == |FONT_FAMILIES| == 8
    ensures forall i :: 0 <= i < |all| ==> all[i].fontFamily == FONT_FAMILIES[i] && IsLibrary(all[i].masks)
    ensures forall i, c :: 0 <= i < |all| && c in all[i].masks ==>
      all[i].masks[c] == Binarize(render(c, fontSize, FONT_FAMILIES[i]))
  {
    seq(|FONT_FAMILIES|, i requires 0 <= i < |FONT_FAMILIES| =>
      FontMasks(FONT_FAMILIES[i], LetterMasks(render, fontSize, Some(FONT_FAMILIES[i]))))
  }

  // ---------------------------------------------------------------------------
  // findBestMatches
  // ---------------------------------------------------------------------------

  datatype Match = Match(ch: char, score: real)

  function MatchKey(m: Match): real { m.score }

  /** Letters are ranked by character code, which is their order in ALPHABET. */
  function MatchRank(m: Match): int { m.ch as int }

  /** The list `findBestMatches` pushes, in ALPHABET order: each letter scored as candidate against `mask`. */
  function Candidates(mask: Mask, lib: Library): (cs: seq<Match>)
    requires IsLibrary(lib)
    ensures |cs| == |ALPHABET|
  {
    seq(|ALPHABET|, i requires 0 <= i < |ALPHABET| => Match(ALPHABET[i], Score(lib[ALPHABET[i]], mask)))
  }

  /** `findBestMatches(mask, letterMasks, topN)`: the candidates stably sorted by descending score, cut to `topN`. */
  function BestMatches(mask: Mask, lib: Library, topN: nat): seq<Match>
    requires IsLibrary(lib)
  {
    var sorted := SortBy(Candidates(mask, lib), MatchKey);
    SortByPermutes(Candidates(mask, lib), MatchKey);
    sorted[..Min(topN, |sorted|)]
  }

  /** `findBestMatches`: scores the 26 letters in ALPHABET order, sorts, and slices. */
  method FindBestMatches(mask: Mask, letterMasks: Library, topN: nat) returns (best: seq<Match>)
    requires IsLibrary(letterMasks)
    ensures best == BestMatches(mask, letterMasks, topN)
  {
    var scores: seq<Match> := [];
    for i := 0 to |ALPHABET|
      invariant scores == Candidates(mask, letterMasks)[..i]
    {
      var ch := ALPHABET[i];
      var score := MatchScore(letterMasks[ch], mask);
      scores := scores + [Match(ch, score)];
    }
    assert scores == Candidates(mask, letterMasks);
    // scores.sort((a, b) => b.score - a.score)
    scores := SortBy(scores, MatchKey);
    SortByPermutes(Candidates(mask, letterMasks), MatchKey);
    best := scores[..Min(topN, |scores|)];
  }

  /** The sorted candidate list: every letter once, each with its own score, in (score desc, letter asc) order. */
  lemma SortedCandidates(mask: Mask, lib: Library)
    requires IsLibrary(lib)
    ensures var s := SortBy(Candidates(mask, lib), MatchKey);
      |s| == |ALPHABET| &&
      (forall k :: 0 <= k < |s| ==> IsLetter(s[k].ch) && s[k].score == Score(lib[s[k].ch], mask)) &&
      (forall c :: IsLetter(c) ==> exists p :: 0 <= p < |s| && s[p] == Match(c, Score(lib[c], mask))) &&
      LexOrdered(s, MatchKey, MatchRank)
  {
    var cs := Candidates(mask, lib);
    var s := SortBy(cs, MatchKey);
    SortByPermutes(cs, MatchKey);
    forall i, j | 0 <= i < j < |cs| ensures MatchRank(cs[i]) < MatchRank(cs[j]) {
      AlphabetOrder(i, j);
    }
    SortByLexOrdered(cs, MatchKey, MatchRank);
    forall k | 0 <= k < |s| ensures IsLetter(s[k].ch) && s[k].score == Score(lib[s[k].ch], mask) {
      assert s[k] in multiset(cs);
    }
    forall c | IsLetter(c) ensures exists p :: 0 <= p < |s| && s[p] == Match(c, Score(lib[c], mask)) {
      LetterRange(c);
      var m := c as int - 65;
      assert cs[m] in multiset(s);
      var p :| 0 <= p < |s| && s[p] == cs[m];
    }
  }

  /**
   * The ranking `findBestMatches` returns: `min(topN, 26)` letters, each with its own score,
   * scores non-increasing with ties in alphabet order (so no letter appears twice).
   */
  lemma BestMatchesSpec(mask: Mask, lib: Library, topN: nat)
    requires IsLibrary(lib)
    ensures var r := BestMatches(mask, lib, topN);
      |r| == Min(topN, |ALPHABET|) &&
      (forall k :: 0 <= k < |r| ==> IsLetter(r[k].ch) && r[k].score == Score(lib[r[k].ch], mask)) &&
      (forall i, j :: 0 <= i < j < |r| ==>
         r[i].score > r[j].score || (r[i].score == r[j].score && r[i].ch < r[j].ch))
  {
    var s := SortBy(Candidates(mask, lib), MatchKey);
    SortedCandidates(mask, lib);
    var r := BestMatches(mask, lib, topN);
    assert |r| == Min(topN, |ALPHABET|);
    forall i, j | 0 <= i < j < |r|
      ensures r[i].score > r[j].score || (r[i].score == r[j].score && r[i].ch < r[j].ch)
    {
      assert r[i] == s[i] && r[j] == s[j];
      assert Before(s[i], s[j], MatchKey, MatchRank);
    }
  }

  /** Every letter left out of a top-N list ranks after every letter in it. */
  lemma BestMatchesComplete(mask: Mask, lib: Library, topN: nat)
    requires IsLibrary(lib)
    ensures var r := BestMatches(mask, lib, topN);
      forall c :: IsLetter(c) ==>
         (exists k :: 0 <= k < |r| && r[k].ch == c) ||
         (forall i :: 0 <= i < |r| ==> Before(r[i], Match(c, Score(lib[c], mask)), MatchKey, MatchRank))
  {
    var s := SortBy(Candidates(mask, lib), MatchKey);
    SortedCandidates(mask, lib);
    var r := BestMatches(mask, lib, topN);
    forall c | IsLetter(c)
      ensures (exists k :: 0 <= k < |r| && r[k].ch == c) ||
              (forall i :: 0 <= i < |r| ==> Before(r[i], Match(c, Score(lib[c], mask)), MatchKey, MatchRank))
    {
      var p :| 0 <= p < |s| && s[p] == Match(c, Score(lib[c], mask));
      if p < |r| {
        assert r[p] == s[p];
      } else {
        forall i | 0 <= i < |r| ensures Before(r[i], Match(c, Score(lib[c], mask)), MatchKey, MatchRank) {
          assert r[i] == s[i];
          assert Before(s[i], s[p], MatchKey, MatchRank);
        }
      }
    }
  }

  /** The top match is the first letter in alphabet order whose mask scores highest against `mask`. */
  lemma BestMatchesTop(mask: Mask, lib: Library, topN: nat)
    requires IsLibrary(lib) && topN >= 1
    ensures var r := BestMatches(mask, lib, topN);
      |r| >= 1 && IsLetter(r[0].ch) && r[0].score == Score(lib[r[0].ch], mask) &&
      (forall c :: IsLetter(c) ==> Score(lib[c], mask) <= r[0].score) &&
      (forall c :: IsLetter(c) && c < r[0].ch ==> Score(lib[c], mask) < r[0].score)
  {
    var s := SortBy(Candidates(mask, lib), MatchKey);
    SortedCandidates(mask, lib);
    var r := BestMatches(mask, lib, topN);
    assert r[0] == s[0];
    forall c | IsLetter(c)
      ensures Score(lib[c], mask) <= r[0].score
      ensures c < r[0].ch ==> Score(lib[c], mask) < r[0].score
    {
      var p :| 0 <= p < |s| && s[p] == Match(c, Score(lib[c], mask));
      if p > 0 {
        assert Before(s[0], s[p], MatchKey, MatchRank);
      }
    }
  }

  /**
   * `findBestMatches(mask, letterMasks, n)[0]` for any `n >= 1`: the first letter in alphabet
   * order whose mask scores highest against `mask`.
   */
  function TopMatch(mask: Mask, lib: Library): (m: Match)
    requires IsLibrary(lib)
    ensures IsLetter(m.ch) && m.score == Score(lib[m.ch], mask)
    ensures forall c :: IsLetter(c) ==> Score(lib[c], mask) <= m.score
    ensures forall c :: IsLetter(c) && c < m.ch ==> Score(lib[c], mask) < m.score
  {
    BestMatchesTop(mask, lib, 1);
    BestMatches(mask, lib, 1)[0]
  }

  /** Every top-N list starts with the same entry. */
  lemma BestMatchesHead(mask: Mask, lib: Library, topN: nat)
    requires IsLibrary(lib) && topN >= 1
    ensures |BestMatches(mask, lib, topN)| >= 1
    ensures BestMatches(mask, lib, topN)[0] == TopMatch(mask, lib)
  {
    BestMatchesSpec(mask, lib, topN);
    BestMatchesSpec(mask, lib, 1);
  }

  /** A word over ALPHABET: every character has a mask in a complete library. */
  predicate IsWord(w: string)
  {
    forall i :: 0 <= i < |w| ==> IsLetter(w[i])
  }

  // ---------------------------------------------------------------------------
  // drawMask
  // ---------------------------------------------------------------------------

  /** Byte `k` of the pixel data `drawMask` produces. */
  function PaintAt(mask: Mask, r: Byte, g: Byte, b: Byte, k: nat): Byte
  {
    if k >= 4 * |mask| then 0
    else if k % 4 == 3 || mask[k / 4] == 0 then 255
    else if k % 4 == 0 then r
    else if k % 4 == 1 then g
    else b
  }

  lemma Quad(i: nat, j: nat)
    requires j < 4
    ensures (4 * i + j) / 4 == i && (4 * i + j) % 4 == j
  {
  }

  /** The four bytes of pixel `i`. */
  lemma PaintAtPixel(mask: Mask, r: Byte, g: Byte, b: Byte, i: nat)
    requires i < |mask|
    ensures PaintAt(mask, r, g, b, 4 * i) == (if mask[i] == 1 then r else 255)
    ensures PaintAt(mask, r, g, b, 4 * i + 1) == (if mask[i] == 1 then g else 255)
    ensures PaintAt(mask, r, g, b, 4 * i + 2) == (if mask[i] == 1 then b else 255)
    ensures PaintAt(mask, r, g, b, 4 * i + 3) == 255
  {
    Quad(i, 0); Quad(i, 1); Quad(i, 2); Quad(i, 3);
  }

  /**
   * The pixel data `drawMask(canvas, mask, r, g, b)` puts on the canvas: ink pixels in colour
   * (r, g, b), other pixels white, all with alpha 255; pixels past the mask stay transparent black.
   */
  function Paint(mask: Mask, r: Byte, g: Byte, b: Byte): (img: CellImage)
    requires |mask| <= PIXELS
    ensures forall i :: 0 <= i < |mask| ==>
      img[4 * i] == (if mask[i] == 1 then r else 255) &&
      img[4 * i + 1] == (if mask[i] == 1 then g else 255) &&
      img[4 * i + 2] == (if mask[i] == 1 then b else 255) &&
      img[4 * i + 3] == 255
    ensures forall k :: 4 * |mask| <= k < 4 * PIXELS ==> img[k] == 0
  {
    var img := seq(4 * PIXELS, k requires 0 <= k < 4 * PIXELS => PaintAt(mask, r, g, b, k));
    assert forall i :: 0 <= i < |mask| ==>
      img[4 * i] == (if mask[i] == 1 then r else 255) &&
      img[4 * i + 1] == (if mask[i] == 1 then g else 255) &&
      img[4 * i + 2] == (if mask[i] == 1 then b else 255) &&
      img[4 * i + 3] == 255 by {
      forall i | 0 <= i < |mask|
        ensures img[4 * i] == (if mask[i] == 1 then r else 255)
        ensures img[4 * i + 1] == (if mask[i] == 1 then g else 255)
        ensures img[4 * i + 2] == (if mask[i] == 1 then b else 255)
        ensures img[4 * i + 3] == 255
      {
        PaintAtPixel(mask, r, g, b, i);
      }
    }
    img
  }

  /** `drawMask`'s buffer fill on a fresh `createImageData(CELL, CELL)` (all zero). */
  method DrawMask(mask: Mask, r: Byte, g: Byte, b: Byte) returns (img: CellImage)
    requires |mask| <= PIXELS
    ensures img == Paint(mask, r, g, b)
  {
    var data := new Byte[4 * PIXELS](_ => 0);
    for i := 0 to |mask|
      invariant forall k :: 0 <= k < 4 * i ==> data[k] == PaintAt(mask, r, g, b, k)
      invariant forall k :: 4 * i <= k < 4 * PIXELS ==> data[k] == 0
    {
      PaintAtPixel(mask, r, g, b, i);
      data[i * 4] := if mask[i] == 1 then r else 255;
      data[i * 4 + 1] := if mask[i] == 1 then g else 255;
      data[i * 4 + 2] := if mask[i] == 1 then b else 255;
      data[i * 4 + 3] := 255;
    }
    forall k | 4 * |mask| <= k < 4 * PIXELS ensures data[k] == PaintAt(mask, r, g, b, k) {
    }
    img := data[..];
  }

  /** Painting a full-size mask in a dark colour and thresholding it again gives back the mask. */
  lemma BinarizePaint(mask: Mask, r: Byte, g: Byte, b: Byte)
    requires IsMask(mask) && r as int + g as int + b as int < 384
    ensures Binarize(Paint(mask, r, g, b)) == mask
  {
    var img := Paint(mask, r, g, b);
    forall i | 0 <= i < PIXELS ensures Binarize(img)[i] == mask[i] {
      assert ChannelSum(img, i) == if mask[i] == 1 then r as int + g as int + b as int else 765;
    }
  }
}
