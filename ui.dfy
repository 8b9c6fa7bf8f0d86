/**
 * The single-letter modes (src/ui.js): the combiner, which shows what two letters look like
 * when ANDed together, and the finder, which ANDs a known letter with every letter and ranks
 * the 26 results against an uploaded target. The page state (the memoised library, the inputs,
 * the target mask, the known letter's position and what the page shows) is the class `UiView`.
 */
module Ui {
  import opened Common
  import opened Text
  import opened Sorting
  import opened Engine

  /** The font size the letter modes render the library at. */
  const FONT_SIZE := 120

  /** Scores above this flag a finder card as a high match. */
  const HIGH_MATCH := 0.7

  // ---------------------------------------------------------------------------
  // parseLetter
  // ---------------------------------------------------------------------------

  /** `parseLetter(input)`: the first character of the upper-cased, filtered value, or `null`. */
  function ParseLetter(value: string): (r: Option<char>)
    ensures r.None? <==> forall i :: 0 <= i < |value| ==> !IsAsciiLetter(value[i])
    ensures r.Some? ==> IsLetter(r.value)
    ensures r.Some? ==>
      exists i :: 0 <= i < |value| && IsAsciiLetter(value[i]) && r.value == ToUpper(value[i]) &&
        forall j :: 0 <= j < i ==> !IsAsciiLetter(value[j])
  {
    KeepUpperOfUpperCase(value);
    LettersHead(value);
    var val := KeepUpper(UpperCase(value));
    if |val| > 0 then Some(val[0]) else None
  }

  /** Only the first letter of the input matters. */
  lemma ParseLetterPrefix(value: string, rest: string)
    requires ParseLetter(value).Some?
    ensures ParseLetter(value + rest) == ParseLetter(value)
  {
    KeepUpperOfUpperCase(value);
    KeepUpperOfUpperCase(value + rest);
    LettersConcat(value, rest);
  }

  // ---------------------------------------------------------------------------
  // updateCombiner
  // ---------------------------------------------------------------------------

  /** What the combiner shows. */
  datatype CombinerView =
    | Prompt(message: string)
      /** The two letters, their masks, the AND mask, the best match and the runners-up. */
    | Combined(chA: char, chB: char, maskA: Mask, maskB: Mask, maskAnd: Mask, top: Match, runnersUp: seq<Match>)

  const COMBINER_PROMPT := "Enter two letters above to see the result."

  /** What `updateCombiner` shows for two parsed letters. */
  function Combiner(lib: Library, a: Option<char>, b: Option<char>): (v: CombinerView)
    requires IsLibrary(lib)
    requires a.Some? ==> IsLetter(a.value)
    requires b.Some? ==> IsLetter(b.value)
    ensures v.Prompt? <==> a.None? || b.None?
  {
    if a.None? || b.None? then Prompt(COMBINER_PROMPT)
    else
      var maskAnd := And(lib[a.value], lib[b.value]);
      var best := BestMatches(maskAnd, lib, 3);
      BestMatchesSpec(maskAnd, lib, 3);
      Combined(a.value, b.value, lib[a.value], lib[b.value], maskAnd, best[0], if |best| > 1 then best[1..] else [])
  }

  /**
   * With two letters the combiner reports the top match of their AND mask and exactly the two
   * next-ranked letters, which rank after it.
   */
  lemma CombinerSpec(lib: Library, a: char, b: char)
    requires IsLibrary(lib) && IsLetter(a) && IsLetter(b)
    ensures var v := Combiner(lib, Some(a), Some(b));
      v.Combined? && v.maskAnd == And(lib[a], lib[b]) &&
      v.top == TopMatch(And(lib[a], lib[b]), lib) &&
      v.runnersUp == BestMatches(And(lib[a], lib[b]), lib, 3)[1..] && |v.runnersUp| == 2 &&
      forall k :: 0 <= k < 2 ==>
        IsLetter(v.runnersUp[k].ch) && v.runnersUp[k].ch != v.top.ch &&
        v.runnersUp[k].score == Score(lib[v.runnersUp[k].ch], v.maskAnd) &&
        Before(v.top, v.runnersUp[k], MatchKey, MatchRank)
  {
    var maskAnd := And(lib[a], lib[b]);
    var best := BestMatches(maskAnd, lib, 3);
    BestMatchesSpec(maskAnd, lib, 3);
    BestMatchesHead(maskAnd, lib, 3);
  }

  /** AND is commutative, so the combiner's verdict does not depend on which letter comes first. */
  lemma CombinerSymmetric(lib: Library, a: char, b: char)
    requires IsLibrary(lib) && IsLetter(a) && IsLetter(b)
    ensures var u, v := Combiner(lib, Some(a), Some(b)), Combiner(lib, Some(b), Some(a));
      u.maskAnd == v.maskAnd && u.top == v.top && u.runnersUp == v.runnersUp
  {
    AndCommutes(lib[a], lib[b]);
  }

  /** The compute part of `updateCombiner` once both letters are known. */
  method Combine(lib: Library, chA: char, chB: char) returns (v: CombinerView)
    requires IsLibrary(lib) && IsLetter(chA) && IsLetter(chB)
    ensures v == Combiner(lib, Some(chA), Some(chB))
  {
    var maskA := lib[chA];
    var maskB := lib[chB];
    var maskAnd := AndMasks(maskA, maskB);
    var best := FindBestMatches(maskAnd, lib, 3);
    BestMatchesSpec(maskAnd, lib, 3);
    var runnersUp := if |best| > 1 then best[1..] else [];
    v := Combined(chA, chB, maskA, maskB, maskAnd, best[0], runnersUp);
  }

  // ---------------------------------------------------------------------------
  // updateFinder
  // ---------------------------------------------------------------------------

  /** `knownPos`: whether the known letter is the first (`'a'`) or the second (`'b'`) operand. */
  datatype KnownPos = PosA | PosB

  /** One entry of `results`. */
  datatype FinderResult = FinderResult(ch: char, maskAnd: Mask, bestMatch: Match, targetScore: Option<real>)

  const FINDER_PROMPT := "Enter a known letter above to see all 26 AND combinations."

  /** The AND mask of the known letter and `ch`, in the operand order `knownPos` selects. */
  function FinderAnd(lib: Library, known: char, pos: KnownPos, ch: char): Mask
    requires IsLibrary(lib) && IsLetter(known) && IsLetter(ch)
  {
    if pos == PosA then And(lib[known], lib[ch]) else And(lib[ch], lib[known])
  }

  /** The entry the finder pushes for candidate `ch`. */
  function FinderEntry(lib: Library, known: char, pos: KnownPos, target: Option<Mask>, ch: char): FinderResult
    requires IsLibrary(lib) && IsLetter(known) && IsLetter(ch)
  {
    var maskAnd := FinderAnd(lib, known, pos, ch);
    FinderResult(ch, maskAnd, TopMatch(maskAnd, lib),
                 if target.Some? then Some(Score(maskAnd, target.value)) else None)
  }

  /** The results in push order: one per letter, in ALPHABET order. */
  function FinderPushed(lib: Library, known: char, pos: KnownPos, target: Option<Mask>): (rs: seq<FinderResult>)
    requires IsLibrary(lib) && IsLetter(known)
    ensures |rs| == |ALPHABET|
  {
    seq(|ALPHABET|, i requires 0 <= i < |ALPHABET| => (AlphabetAt(i); FinderEntry(lib, known, pos, target, ALPHABET[i])))
  }

  /** The sort key of `(a, b) => b.targetScore - a.targetScore`; every score is present when it is used. */
  function TargetKey(r: FinderResult): real
  {
    if r.targetScore.Some? then r.targetScore.value else 0.0
  }

  function ResultRank(r: FinderResult): int { r.ch as int }

  /** The list `updateFinder` shows: sorted by target score when a target is loaded, else alphabetical. */
  function FinderList(lib: Library, known: char, pos: KnownPos, target: Option<Mask>): seq<FinderResult>
    requires IsLibrary(lib) && IsLetter(known)
  {
    var pushed := FinderPushed(lib, known, pos, target);
    if target.Some? then SortBy(pushed, TargetKey) else pushed
  }

  /** A card is flagged when its target score is present and above 0.7. */
  predicate HighMatch(r: FinderResult)
  {
    r.targetScore.Some? && r.targetScore.value > HIGH_MATCH
  }

  lemma FinderPushedRanks(lib: Library, known: char, pos: KnownPos, target: Option<Mask>)
    requires IsLibrary(lib) && IsLetter(known)
    ensures RankIncreasing(FinderPushed(lib, known, pos, target), ResultRank)
  {
    var ps := FinderPushed(lib, known, pos, target);
    forall i, j | 0 <= i < j < |ps| ensures ResultRank(ps[i]) < ResultRank(ps[j]) {
      AlphabetOrder(i, j);
    }
  }

  /** `r` is the entry the finder computes for its own letter. */
  predicate IsEntry(lib: Library, known: char, pos: KnownPos, target: Option<Mask>, r: FinderResult)
    requires IsLibrary(lib) && IsLetter(known)
  {
    IsLetter(r.ch) && r == FinderEntry(lib, known, pos, target, r.ch)
  }

  lemma FinderPushedAt(lib: Library, known: char, pos: KnownPos, target: Option<Mask>, k: int)
    requires IsLibrary(lib) && IsLetter(known) && 0 <= k < 26
    ensures var ps := FinderPushed(lib, known, pos, target);
      ps[k].ch == ALPHABET[k] && IsEntry(lib, known, pos, target, ps[k])
  {
    AlphabetAt(k);
  }

  /**
   * The finder lists 26 results; each holds, for its own letter, the AND mask of the known
   * letter and that letter in the chosen order, that mask's top match, and a target score that
   * is present exactly when a target is loaded.
   */
  lemma FinderListEntries(lib: Library, known: char, pos: KnownPos, target: Option<Mask>)
    requires IsLibrary(lib) && IsLetter(known)
    ensures var rs := FinderList(lib, known, pos, target);
      |rs| == 26 &&
      (forall k :: 0 <= k < |rs| ==> IsEntry(lib, known, pos, target, rs[k])) &&
      (forall k :: 0 <= k < |rs| ==> (rs[k].targetScore.None? <==> target.None?))
  {
    if target.Some? {
      SortedEntries(lib, known, pos, target);
    } else {
      PushedEntries(lib, known, pos, target);
    }
    var rs := FinderList(lib, known, pos, target);
    forall k | 0 <= k < |rs| ensures rs[k].targetScore.None? <==> target.None? {
      assert IsEntry(lib, known, pos, target, rs[k]);
    }
  }

  /** In push order there are 26 results, each the entry for its own letter. */
  lemma PushedEntries(lib: Library, known: char, pos: KnownPos, target: Option<Mask>)
    requires IsLibrary(lib) && IsLetter(known)
    ensures var ps := FinderPushed(lib, known, pos, target);
      |ps| == 26 && forall k :: 0 <= k < |ps| ==> IsEntry(lib, known, pos, target, ps[k])
  {
    var ps := FinderPushed(lib, known, pos, target);
    AlphabetAt(0);
    forall k | 0 <= k < |ps| ensures IsEntry(lib, known, pos, target, ps[k]) {
      FinderPushedAt(lib, known, pos, target, k);
    }
  }

  /** Sorting by target score keeps 26 results, each still the entry for its own letter. */
  lemma SortedEntries(lib: Library, known: char, pos: KnownPos, target: Option<Mask>)
    requires IsLibrary(lib) && IsLetter(known)
    ensures var rs := SortBy(FinderPushed(lib, known, pos, target), TargetKey);
      |rs| == 26 && forall k :: 0 <= k < |rs| ==> IsEntry(lib, known, pos, target, rs[k])
  {
    var ps := FinderPushed(lib, known, pos, target);
    var entry := r => IsEntry(lib, known, pos, target, r);
    PushedEntries(lib, known, pos, target);
    SortByPermutes(ps, TargetKey);
    SortByAll(ps, TargetKey, entry);
  }

  /** Every letter appears in the finder's list. */
  lemma FinderListCovers(lib: Library, known: char, pos: KnownPos, target: Option<Mask>)
    requires IsLibrary(lib) && IsLetter(known)
    ensures var rs := FinderList(lib, known, pos, target);
      forall c :: IsLetter(c) ==> exists k :: 0 <= k < |rs| && rs[k].ch == c
  {
    var ps := FinderPushed(lib, known, pos, target);
    var rs := FinderList(lib, known, pos, target);
    AlphabetAt(0);
    SortByKeeps(ps, TargetKey);
    forall c | IsLetter(c) ensures exists k :: 0 <= k < |rs| && rs[k].ch == c {
      LetterRange(c);
      var m := c as int - 65;
      FinderPushedAt(lib, known, pos, target, m);
      if target.Some? {
        var k :| 0 <= k < 26 && rs[k] == ps[m];
        assert rs[k].ch == c;
      } else {
        assert rs[m].ch == c;
      }
    }
  }

  /** No letter appears in the finder's list twice. */
  lemma FinderListDistinct(lib: Library, known: char, pos: KnownPos, target: Option<Mask>)
    requires IsLibrary(lib) && IsLetter(known)
    ensures var rs := FinderList(lib, known, pos, target);
      forall i, j :: 0 <= i < j < |rs| ==> rs[i].ch != rs[j].ch
  {
    var ps := FinderPushed(lib, known, pos, target);
    var rs := FinderList(lib, known, pos, target);
    if target.Some? {
      FinderPushedRanks(lib, known, pos, target);
      SortByRanksDistinct(ps, TargetKey, ResultRank);
    } else {
      forall i, j | 0 <= i < j < |rs| ensures rs[i].ch != rs[j].ch {
        FinderPushedAt(lib, known, pos, target, i);
        FinderPushedAt(lib, known, pos, target, j);
        AlphabetOrder(i, j);
      }
    }
  }

  /**
   * With a target the results run from the best target score down, ties in alphabet order
   * (every target score is then present, so `TargetKey` is that score); without one they are
   * in alphabet order.
   */
  lemma FinderListOrder(lib: Library, known: char, pos: KnownPos, target: Option<Mask>)
    requires IsLibrary(lib) && IsLetter(known)
    ensures var rs := FinderList(lib, known, pos, target);
      (target.None? ==> |rs| == 26 && forall k :: 0 <= k < 26 ==> rs[k].ch == ALPHABET[k]) &&
      (target.Some? ==> forall i, j :: 0 <= i < j < |rs| ==>
         TargetKey(rs[i]) > TargetKey(rs[j]) || (TargetKey(rs[i]) == TargetKey(rs[j]) && rs[i].ch < rs[j].ch))
  {
    var ps := FinderPushed(lib, known, pos, target);
    var rs := FinderList(lib, known, pos, target);
    AlphabetAt(0);
    if target.Some? {
      FinderPushedRanks(lib, known, pos, target);
      SortByLexOrdered(ps, TargetKey, ResultRank);
      forall i, j | 0 <= i < j < |rs|
        ensures TargetKey(rs[i]) > TargetKey(rs[j]) || (TargetKey(rs[i]) == TargetKey(rs[j]) && rs[i].ch < rs[j].ch)
      {
        assert Before(rs[i], rs[j], TargetKey, ResultRank);
      }
    } else {
      forall k | 0 <= k < 26 ensures rs[k].ch == ALPHABET[k] {
        FinderPushedAt(lib, known, pos, target, k);
      }
    }
  }

  /** AND is commutative, so the known letter's position does not change the list. */
  lemma FinderPositionIrrelevant(lib: Library, known: char, target: Option<Mask>)
    requires IsLibrary(lib) && IsLetter(known)
    ensures FinderList(lib, known, PosA, target) == FinderList(lib, known, PosB, target)
  {
    forall c | IsLetter(c) ensures FinderAnd(lib, known, PosA, c) == FinderAnd(lib, known, PosB, c) {
      AndCommutes(lib[known], lib[c]);
    }
    assert FinderPushed(lib, known, PosA, target) == FinderPushed(lib, known, PosB, target);
  }

  /** Without a target no card is a high match; with one, the high-match cards are a leading run of the list. */
  lemma HighMatchPrefix(lib: Library, known: char, pos: KnownPos, target: Option<Mask>)
    requires IsLibrary(lib) && IsLetter(known)
    ensures var rs := FinderList(lib, known, pos, target);
      (target.None? ==> forall k :: 0 <= k < |rs| ==> !HighMatch(rs[k])) &&
      (forall i, j :: 0 <= i < j < |rs| && HighMatch(rs[j]) ==> HighMatch(rs[i]))
  {
    var rs := FinderList(lib, known, pos, target);
    if target.None? {
      FinderListEntries(lib, known, pos, target);
    } else {
      FinderListOrder(lib, known, pos, target);
      forall i, j | 0 <= i < j < |rs| && HighMatch(rs[j]) ensures HighMatch(rs[i]) {
        assert TargetKey(rs[i]) >= TargetKey(rs[j]);
      }
    }
  }

  /** The loop of `updateFinder` that builds `results`, then the sort when a target is loaded. */
  method FinderResults(lib: Library, known: char, pos: KnownPos, target: Option<Mask>) returns (results: seq<FinderResult>)
    requires IsLibrary(lib) && IsLetter(known)
    ensures results == FinderList(lib, known, pos, target)
  {
    ghost var pushed := FinderPushed(lib, known, pos, target);
    results := [];
    for i := 0 to |ALPHABET|
      invariant results == pushed[..i]
    {
      var ch := ALPHABET[i];
      AlphabetAt(i);
      var maskA := if pos == PosA then lib[known] else lib[ch];
      var maskB := if pos == PosA then lib[ch] else lib[known];
      var maskAnd := AndMasks(maskA, maskB);
      var top := FindBestMatches(maskAnd, lib, 1);
      BestMatchesHead(maskAnd, lib, 1);
      var bestMatch := top[0];
      var targetScore: Option<real> := None;
      if target.Some? {
        var s := MatchScore(maskAnd, target.value);
        targetScore := Some(s);
      }
      PrefixStep(pushed, i);
      results := results + [FinderResult(ch, maskAnd, bestMatch, targetScore)];
    }
    PrefixAll(pushed);
    if target.Some? {
      results := SortBy(results, TargetKey);
    }
  }

  // ---------------------------------------------------------------------------
  // The page state
  // ---------------------------------------------------------------------------

  /** What the finder grid shows: the prompt, or the ranked results. */
  datatype FinderGrid = FinderPrompt(message: string) | FinderCards(known: char, pos: KnownPos, results: seq<FinderResult>)

  class UiView {
    /** The canvas text rasteriser behind `buildLetterMasks`. */
    const render: Renderer
    /** The canvas step of `imageToMask`: the image drawn scaled onto a white CELL x CELL canvas. */
    const scale: Image -> CellImage

    var masks: Option<Library>
    ghost var builds: nat

    /** `els.letterA.value`, `els.letterB.value` and `els.knownLetter.value`. */
    var letterA: string
    var letterB: string
    var knownLetter: string
    var combiner: CombinerView

    var knownPos: KnownPos
    var targetMask: Option<Mask>
    var finderGrid: FinderGrid

    ghost predicate Valid()
      reads this
    {
      masks.Some? ==> masks.value == LetterMasks(render, FONT_SIZE, None)
    }

    constructor(render: Renderer, scale: Image -> CellImage)
      ensures Valid() && this.render == render && this.scale == scale
      ensures masks.None? && builds == 0 && knownPos == PosA && targetMask.None?
      ensures letterA == "" && letterB == "" && knownLetter == ""
    {
      this.render := render;
      this.scale := scale;
      masks := None;
      builds := 0;
      letterA, letterB, knownLetter := "", "", "";
      combiner := Prompt(COMBINER_PROMPT);
      knownPos := PosA;
      targetMask := None;
      finderGrid := FinderPrompt(FINDER_PROMPT);
    }

    /** `getMasks`: builds the library on the first call only and then returns the cached one. */
    method GetMasks() returns (m: Library)
      requires Valid()
      modifies this`masks, this`builds
      ensures Valid() && masks == Some(m)
      ensures m == LetterMasks(render, FONT_SIZE, None)
      ensures old(masks).Some? ==> m == old(masks).value && builds == old(builds)
      ensures old(masks).None? ==> builds == old(builds) + 1
    {
      if masks.None? {
        var built := BuildLetterMasks(render, FONT_SIZE, None);
        masks := Some(built);
        builds := builds + 1;
      }
      m := masks.value;
    }

    /** `updateCombiner`, without the DOM. */
    method UpdateCombiner()
      requires Valid()
      modifies this`combiner, this`masks, this`builds
      ensures Valid()
      ensures var a, b := ParseLetter(letterA), ParseLetter(letterB);
        if a.None? || b.None? then combiner == Prompt(COMBINER_PROMPT) && masks == old(masks)
        else masks.Some? && combiner == Combiner(masks.value, a, b)
    {
      var chA := ParseLetter(letterA);
      var chB := ParseLetter(letterB);
      if chA.None? || chB.None? {
        combiner := Prompt(COMBINER_PROMPT);
        return;
      }
      var m := GetMasks();
      combiner := Combine(m, chA.value, chB.value);
    }

    /** The `input` listeners of the two letter fields. */
    method SetLetters(a: string, b: string)
      requires Valid()
      modifies this`letterA, this`letterB, this`combiner, this`masks, this`builds
      ensures Valid() && letterA == a && letterB == b
      ensures var pa, pb := ParseLetter(a), ParseLetter(b);
        if pa.None? || pb.None? then combiner == Prompt(COMBINER_PROMPT)
        else masks.Some? && combiner == Combiner(masks.value, pa, pb)
    {
      letterA, letterB := a, b;
      UpdateCombiner();
    }

    /** `updateFinder`, without the DOM. */
    method UpdateFinder()
      requires Valid()
      modifies this`finderGrid, this`masks, this`builds
      ensures Valid()
      ensures var k := ParseLetter(knownLetter);
        if k.None? then finderGrid == FinderPrompt(FINDER_PROMPT) && masks == old(masks)
        else (masks.Some? &&
              finderGrid == FinderCards(k.value, knownPos, FinderList(masks.value, k.value, knownPos, targetMask)))
    {
      var known := ParseLetter(knownLetter);
      if known.None? {
        finderGrid := FinderPrompt(FINDER_PROMPT);
        return;
      }
      var m := GetMasks();
      var results := FinderResults(m, known.value, knownPos, targetMask);
      finderGrid := FinderCards(known.value, knownPos, results);
    }

    /** The `input` listener of the known-letter field. */
    method SetKnownLetter(value: string)
      requires Valid()
      modifies this`knownLetter, this`finderGrid, this`masks, this`builds
      ensures Valid() && knownLetter == value
      ensures var k := ParseLetter(value);
        if k.None? then finderGrid == FinderPrompt(FINDER_PROMPT)
        else masks.Some? && finderGrid == FinderCards(k.value, knownPos, FinderList(masks.value, k.value, knownPos, targetMask))
    {
      knownLetter := value;
      UpdateFinder();
    }

    /** The click listeners of the position toggle. */
    method SetKnownPos(pos: KnownPos)
      requires Valid()
      modifies this`knownPos, this`finderGrid, this`masks, this`builds
      ensures Valid() && knownPos == pos
      ensures var k := ParseLetter(knownLetter);
        if k.None? then finderGrid == FinderPrompt(FINDER_PROMPT)
        else masks.Some? && finderGrid == FinderCards(k.value, pos, FinderList(masks.value, k.value, pos, targetMask))
    {
      knownPos := pos;
      UpdateFinder();
    }

    /** The `onload` step of `loadTargetFile`: `targetMask = imageToMask(img)`, then `updateFinder`. */
    method LoadTarget(img: Image)
      requires Valid()
      modifies this`targetMask, this`finderGrid, this`masks, this`builds
      ensures Valid() && targetMask == Some(Binarize(scale(img)))
      ensures var k := ParseLetter(knownLetter);
        if k.None? then finderGrid == FinderPrompt(FINDER_PROMPT)
        else masks.Some? && finderGrid == FinderCards(k.value, knownPos, FinderList(masks.value, k.value, knownPos, targetMask))
    {
      var mask := ToBinary(scale(img));
      targetMask := Some(mask);
      UpdateFinder();
    }
  }
}
