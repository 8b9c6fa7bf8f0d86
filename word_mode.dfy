/**
 * Word mode (src/word-mode.js): combining two whole words letter by letter, and decoding the
 * unknown word of an uploaded "word AND word" image given the known one. The page state the
 * module keeps (the memoised library, the loaded image, the inputs and what the page shows) is
 * the class `WordModeView`; the computations it runs are read-only methods beside it.
 */
module WordMode {
  import opened Common
  import opened Text
  import opened Engine

  /** The font size word mode renders the library at. */
  const FONT_SIZE := 120

  /** The colour (34, 34, 34) cards paint AND masks in. */
  const INK: Byte := 34

  // ---------------------------------------------------------------------------
  // parseLine
  // ---------------------------------------------------------------------------

  /** `parseLine(val)`: `val.toUpperCase().replace(/[^A-Z]/g, '')`. */
  function ParseLine(val: string): (w: string)
    ensures AllUpper(w) && IsWord(w)
    ensures w == Letters(val)
  {
    KeepUpperOfUpperCase(val);
    AllUpperIsWord(KeepUpper(UpperCase(val)));
    KeepUpper(UpperCase(val))
  }

  lemma AllUpperIsWord(w: string)
    requires AllUpper(w)
    ensures IsWord(w)
  {
    forall i | 0 <= i < |w| ensures IsLetter(w[i]) {
      LetterRange(w[i]);
    }
  }

  /** Parsing an already parsed line changes nothing. */
  lemma ParseLineIdempotent(val: string)
    ensures ParseLine(ParseLine(val)) == ParseLine(val)
  {
    LettersOfAllUpper(ParseLine(val));
  }

  /** Parsing distributes over concatenation: the letters of each part are kept, in order. */
  lemma ParseLineConcat(a: string, b: string)
    ensures ParseLine(a + b) == ParseLine(a) + ParseLine(b)
  {
    LettersConcat(a, b);
  }

  /** The parsed line is empty exactly when the input has no ASCII letter. */
  lemma ParseLineEmpty(val: string)
    ensures ParseLine(val) == [] <==> forall i :: 0 <= i < |val| ==> !IsAsciiLetter(val[i])
  {
    LettersHead(val);
  }

  // ---------------------------------------------------------------------------
  // checkDecodeReady
  // ---------------------------------------------------------------------------

  /** The solve button's `disabled` flag: `!(parseLine(word).length > 0 && decodeImage)`. */
  function SolveDisabled(wordValue: string, hasImage: bool): (disabled: bool)
    ensures !disabled <==> hasImage && exists i :: 0 <= i < |wordValue| && IsAsciiLetter(wordValue[i])
  {
    ParseLineEmpty(wordValue);
    !(|ParseLine(wordValue)| > 0 && hasImage)
  }

  // ---------------------------------------------------------------------------
  // splitImageToMasks
  // ---------------------------------------------------------------------------

  /**
   * The canvas step of `splitImageToMasks`: the RGBA bytes of a white CELL x CELL canvas onto
   * which the strip of `img` starting at x = `sx`, `sw` wide and full height, is drawn scaled.
   */
  type Sampler = (Image, real, real) -> CellImage

  function MinChannel(d: CellImage, j: int): Byte
    requires 0 <= j < PIXELS
  {
    Min(Min(d[4 * j], d[4 * j + 1]), d[4 * j + 2])
  }

  /** The colour-agnostic threshold: a pixel is ink when its darkest colour channel is below 200. */
  function InkMask(d: CellImage): (m: Mask)
    ensures IsMask(m)
    ensures forall j :: 0 <= j < PIXELS ==> (m[j] == 1 <==> d[4 * j] < 200 || d[4 * j + 1] < 200 || d[4 * j + 2] < 200)
  {
    seq(PIXELS, j requires 0 <= j < PIXELS => if MinChannel(d, j) < 200 then 1 else 0)
  }

  /** `img.width / numLetters`; with no letters it is never read. */
  function LetterWidth(img: Image, numLetters: nat): real
  {
    if numLetters == 0 then 0.0 else img.width as real / numLetters as real
  }

  /** The canvas of strip `i`: `drawImage(img, i * letterWidth, 0, letterWidth, img.height, 0, 0, CELL, CELL)` on white. */
  function StripImage(img: Image, numLetters: nat, sample: Sampler, i: nat): CellImage
  {
    var w := LetterWidth(img, numLetters);
    sample(img, i as real * w, w)
  }

  /** The masks `splitImageToMasks(img, numLetters)` returns. */
  function StripMasks(img: Image, numLetters: nat, sample: Sampler): (ms: seq<Mask>)
    ensures |ms| == numLetters
    ensures forall i :: 0 <= i < numLetters ==> IsMask(ms[i])
  {
    seq(numLetters, i requires 0 <= i < numLetters => InkMask(StripImage(img, numLetters, sample, i)))
  }

  /** `splitImageToMasks`: one strip per letter, each thresholded pixel by pixel into a fresh array. */
  method SplitImageToMasks(img: Image, numLetters: nat, sample: Sampler) returns (result: seq<Mask>)
    ensures |result| == numLetters
    ensures forall i :: 0 <= i < numLetters ==> IsMask(result[i])
    ensures result == StripMasks(img, numLetters, sample)
  {
    ghost var spec := StripMasks(img, numLetters, sample);
    result := [];
    for i := 0 to numLetters
      invariant result == spec[..i]
    {
      var d := StripImage(img, numLetters, sample, i);
      var mask := new bv1[PIXELS];
      for j := 0 to mask.Length
        invariant forall k :: 0 <= k < j ==> mask[k] == InkMask(d)[k]
      {
        var minCh := Min(Min(d[j * 4], d[j * 4 + 1]), d[j * 4 + 2]);
        mask[j] := if minCh < 200 then 1 else 0;
      }
      assert mask[..] == InkMask(d) == spec[i];
      PrefixStep(spec, i);
      result := result + [mask[..]];
    }
    PrefixAll(spec);
  }

  /** A mask painted in any colour with a channel below 200 thresholds back to itself. */
  lemma InkMaskPaint(mask: Mask, r: Byte, g: Byte, b: Byte)
    requires IsMask(mask) && (r < 200 || g < 200 || b < 200)
    ensures InkMask(Paint(mask, r, g, b)) == mask
  {
    var img := Paint(mask, r, g, b);
    forall j | 0 <= j < PIXELS ensures InkMask(img)[j] == mask[j] {
      assert img[4 * j] == (if mask[j] == 1 then r else 255);
    }
  }

  /** Whatever the library's threshold counts as ink, the decode threshold does too. */
  lemma BinarizeCoveredByInkMask(d: CellImage)
    ensures Covered(Binarize(d), InkMask(d))
  {
    forall j | 0 <= j < PIXELS && Binarize(d)[j] == 1 ensures InkMask(d)[j] == 1 {
      assert ChannelSum(d, j) < 384;
    }
  }

  // ---------------------------------------------------------------------------
  // runDecode: the per-position argmax
  // ---------------------------------------------------------------------------

  /** The score `runDecode` gives candidate `c` at a position whose known letter is `known`. */
  function DecodeScore(lib: Library, known: char, c: char, target: Mask): real
    requires IsLibrary(lib) && IsLetter(known) && IsLetter(c)
  {
    Score(And(lib[known], lib[c]), target)
  }

  /** `c` is the first letter in alphabet order whose decode score is the largest. */
  predicate IsFirstBest(lib: Library, known: char, target: Mask, c: char)
    requires IsLibrary(lib) && IsLetter(known)
  {
    IsLetter(c) &&
    (forall d :: IsLetter(d) ==> DecodeScore(lib, known, d, target) <= DecodeScore(lib, known, c, target)) &&
    (forall d :: IsLetter(d) && d < c ==> DecodeScore(lib, known, d, target) < DecodeScore(lib, known, c, target))
  }

  /** At most one letter is the first best. */
  lemma FirstBestUnique(lib: Library, known: char, target: Mask, c: char, d: char)
    requires IsLibrary(lib) && IsLetter(known)
    requires IsFirstBest(lib, known, target, c) && IsFirstBest(lib, known, target, d)
    ensures c == d
  {
  }

  /** The candidate masks at a position with known letter `k`: `andMasks(m[k], m[ch])` for every letter. */
  function AndLibrary(lib: Library, known: char): (l: Library)
    requires IsLibrary(lib) && IsLetter(known)
    ensures IsLibrary(l)
  {
    map c | IsLetter(c) :: And(lib[known], lib[c])
  }

  /** The letter chosen at a position, as the engine's ranking of the candidate masks names it. */
  function DecodePick(lib: Library, known: char, target: Mask): char
    requires IsLibrary(lib) && IsLetter(known)
  {
    TopMatch(target, AndLibrary(lib, known)).ch
  }

  /**
   * The strict-`>` scan from score -1 and the engine's stable ranking agree: a letter is the
   * first best exactly when it heads `findBestMatches` over the candidate masks.
   */
  lemma DecodePickIsFirstBest(lib: Library, known: char, target: Mask, c: char)
    requires IsLibrary(lib) && IsLetter(known)
    ensures IsFirstBest(lib, known, target, DecodePick(lib, known, target))
    ensures IsFirstBest(lib, known, target, c) <==> c == DecodePick(lib, known, target)
  {
    var p := DecodePick(lib, known, target);
    var al := AndLibrary(lib, known);
    assert forall d :: IsLetter(d) ==> Score(al[d], target) == DecodeScore(lib, known, d, target);
    assert IsFirstBest(lib, known, target, p);
    if IsFirstBest(lib, known, target, c) {
      FirstBestUnique(lib, known, target, c, p);
    }
  }

  /** One `best` of `runDecode`: the letter, its score and its AND mask (`null` before any candidate). */
  datatype Pick = Pick(ch: char, score: real, maskAnd: Option<Mask>)

  /** The `best` the scan holds after taking the letter at index `j`. */
  function ScanPick(lib: Library, known: char, target: Mask, j: int): Pick
    requires IsLibrary(lib) && IsLetter(known) && 0 <= j < |ALPHABET|
  {
    Pick(ALPHABET[j], DecodeScore(lib, known, ALPHABET[j], target), Some(And(lib[known], lib[ALPHABET[j]])))
  }

  /** A scan position `bi` that beats every earlier letter and ties or beats every later one names the first best. */
  lemma ScanResult(lib: Library, known: char, target: Mask, bi: int)
    requires IsLibrary(lib) && IsLetter(known) && 0 <= bi < |ALPHABET|
    requires forall j :: 0 <= j < |ALPHABET| ==> ScanPick(lib, known, target, j).score <= ScanPick(lib, known, target, bi).score
    requires forall j :: 0 <= j < bi ==> ScanPick(lib, known, target, j).score < ScanPick(lib, known, target, bi).score
    ensures IsFirstBest(lib, known, target, ALPHABET[bi])
    ensures ALPHABET[bi] == DecodePick(lib, known, target)
  {
    var c := ALPHABET[bi];
    forall d | IsLetter(d)
      ensures DecodeScore(lib, known, d, target) <= DecodeScore(lib, known, c, target)
      ensures d < c ==> DecodeScore(lib, known, d, target) < DecodeScore(lib, known, c, target)
    {
      LetterRange(d);
      AlphabetOrder(d as int - 65, bi);
      assert ScanPick(lib, known, target, d as int - 65).score == DecodeScore(lib, known, d, target);
    }
    DecodePickIsFirstBest(lib, known, target, c);
  }

  /** The inner loop of `runDecode`: scan ALPHABET, keeping a candidate only when it scores strictly more. */
  method BestCandidate(lib: Library, known: char, target: Mask) returns (best: Pick)
    requires IsLibrary(lib) && IsLetter(known)
    ensures IsFirstBest(lib, known, target, best.ch)
    ensures best.ch == DecodePick(lib, known, target) && best.ch != '?'
    ensures best.score == DecodeScore(lib, known, best.ch, target)
    ensures best.maskAnd == Some(And(lib[known], lib[best.ch]))
  {
    best := Pick('?', -1.0, None);
    ghost var bi := 0;
    for i := 0 to |ALPHABET|
      invariant i == 0 ==> best.score == -1.0
      invariant 0 <= bi <= i && bi < |ALPHABET|
      invariant i > 0 ==> best == ScanPick(lib, known, target, bi)
      invariant forall j :: 0 <= j < i ==> ScanPick(lib, known, target, j).score <= best.score
      invariant forall j :: 0 <= j < bi ==> ScanPick(lib, known, target, j).score < best.score
    {
      var ch := ALPHABET[i];
      var maskAnd := AndMasks(lib[known], lib[ch]);
      var score := MatchScore(maskAnd, target);
      assert Pick(ch, score, Some(maskAnd)) == ScanPick(lib, known, target, i);
      if score > best.score {
        best := Pick(ch, score, Some(maskAnd));
        bi := i;
      }
    }
    assert best == ScanPick(lib, known, target, bi);
    ScanResult(lib, known, target, bi);
  }

  /** One card `runDecode` shows: the position (from 1), the known letter, the pick and its painted AND mask. */
  datatype DecodeCard = DecodeCard(pos: nat, knownCh: char, pick: Pick, canvas: CellImage)

  /** The cards `runDecode` shows for `knownWord` against the strips `targets`. */
  function DecodeCards(lib: Library, knownWord: string, targets: seq<Mask>): (cards: seq<DecodeCard>)
    requires IsLibrary(lib) && IsWord(knownWord) && |targets| == |knownWord|
    ensures |cards| == |knownWord|
  {
    seq(|knownWord|, i requires 0 <= i < |knownWord| =>
      var k := knownWord[i];
      var c := DecodePick(lib, k, targets[i]);
      DecodeCard(i + 1, k, Pick(c, DecodeScore(lib, k, c, targets[i]), Some(And(lib[k], lib[c]))),
                 Paint(And(lib[k], lib[c]), INK, INK, INK)))
  }

  /** `decoded.map(d => d.ch).join('')`. */
  function DecodedText(cards: seq<DecodeCard>): (s: string)
    ensures |s| == |cards|
  {
    seq(|cards|, i requires 0 <= i < |cards| => cards[i].pick.ch)
  }

  /** The decoded word has one letter per known letter, each a letter of ALPHABET (never `'?'`). */
  lemma DecodedTextIsWord(lib: Library, knownWord: string, targets: seq<Mask>)
    requires IsLibrary(lib) && IsWord(knownWord) && |targets| == |knownWord|
    ensures |DecodedText(DecodeCards(lib, knownWord, targets))| == |knownWord|
    ensures IsWord(DecodedText(DecodeCards(lib, knownWord, targets)))
  {
  }

  lemma DecodeCardAt(lib: Library, knownWord: string, targets: seq<Mask>, i: nat, best: Pick)
    requires IsLibrary(lib) && IsWord(knownWord) && |targets| == |knownWord| && i < |knownWord|
    requires best.ch == DecodePick(lib, knownWord[i], targets[i])
    requires best.score == DecodeScore(lib, knownWord[i], best.ch, targets[i])
    requires best.maskAnd == Some(And(lib[knownWord[i]], lib[best.ch]))
    ensures DecodeCards(lib, knownWord, targets)[i] ==
      DecodeCard(i + 1, knownWord[i], best, Paint(best.maskAnd.value, INK, INK, INK))
  {
  }

  /**
   * What each decode card shows: its position from 1, the known letter, the first best letter
   * for that position with its score and AND mask, and that mask painted.
   */
  lemma DecodeCardsSpec(lib: Library, knownWord: string, targets: seq<Mask>)
    requires IsLibrary(lib) && IsWord(knownWord) && |targets| == |knownWord|
    ensures var cards := DecodeCards(lib, knownWord, targets);
      forall i :: 0 <= i < |cards| ==>
        var k, p := knownWord[i], cards[i].pick;
        cards[i].pos == i + 1 && cards[i].knownCh == k &&
        IsFirstBest(lib, k, targets[i], p.ch) && p.ch != '?' &&
        p.score == DecodeScore(lib, k, p.ch, targets[i]) &&
        p.maskAnd == Some(And(lib[k], lib[p.ch])) &&
        cards[i].canvas == Paint(And(lib[k], lib[p.ch]), INK, INK, INK)
  {
    var cards := DecodeCards(lib, knownWord, targets);
    forall i | 0 <= i < |cards| ensures IsFirstBest(lib, knownWord[i], targets[i], cards[i].pick.ch) {
      DecodePickIsFirstBest(lib, knownWord[i], targets[i], 'A');
    }
  }

  /** The loop of `runDecode` over the positions of the known word. */
  method DecodePositions(lib: Library, knownWord: string, targets: seq<Mask>) returns (cards: seq<DecodeCard>)
    requires IsLibrary(lib) && IsWord(knownWord) && |targets| == |knownWord|
    ensures cards == DecodeCards(lib, knownWord, targets)
  {
    ghost var spec := DecodeCards(lib, knownWord, targets);
    cards := [];
    for i := 0 to |knownWord|
      invariant cards == spec[..i]
    {
      var knownCh := knownWord[i];
      var best := BestCandidate(lib, knownCh, targets[i]);
      var canvas := DrawMask(best.maskAnd.value, INK, INK, INK);
      DecodeCardAt(lib, knownWord, targets, i, best);
      PrefixStep(spec, i);
      cards := cards + [DecodeCard(i + 1, knownCh, best, canvas)];
    }
    PrefixAll(spec);
  }

  // ---------------------------------------------------------------------------
  // updateWordMode: combining two words
  // ---------------------------------------------------------------------------

  /** The message `updateWordMode` shows instead of results, if any. */
  function CombineError(a: string, b: string): (e: Option<string>)
    ensures e.None? <==> a != [] && b != [] && |a| == |b|
  {
    if a == [] || b == [] then Some("Enter two words above to see results.")
    else if |a| != |b| then
      Some("Words must be the same length. \"" + a + "\" has " + NatToDecimal(|a|) + " letters, \"" + b +
           "\" has " + NatToDecimal(|b|) + ".")
    else None
  }

  /** The top match of the AND of the two letters at position `i`. */
  function PairMatch(lib: Library, a: string, b: string, i: nat): Match
    requires IsLibrary(lib) && IsWord(a) && IsWord(b) && i < |a| && i < |b|
  {
    TopMatch(And(lib[a[i]], lib[b[i]]), lib)
  }

  /** The word `updateWordMode` decodes from two words of equal length: `decoded.join('')`. */
  function CombinedWord(lib: Library, a: string, b: string): (w: string)
    requires IsLibrary(lib) && IsWord(a) && IsWord(b) && |a| == |b|
    ensures |w| == |a| && IsWord(w)
  {
    seq(|a|, i requires 0 <= i < |a| => PairMatch(lib, a, b, i).ch)
  }

  /** AND is commutative, so swapping the two words decodes the same word. */
  lemma CombinedWordSwap(lib: Library, a: string, b: string)
    requires IsLibrary(lib) && IsWord(a) && IsWord(b) && |a| == |b|
    ensures CombinedWord(lib, a, b) == CombinedWord(lib, b, a)
  {
    forall i | 0 <= i < |a| ensures CombinedWord(lib, a, b)[i] == CombinedWord(lib, b, a)[i] {
      AndCommutes(lib[a[i]], lib[b[i]]);
    }
  }

  /** Letters whose masks all differ. */
  predicate Distinct(lib: Library)
    requires IsLibrary(lib)
  {
    forall c, d :: IsLetter(c) && IsLetter(d) && lib[c] == lib[d] ==> c == d
  }

  /** With pairwise different letter masks, a word combined with itself decodes to itself. */
  lemma CombinedWordSelf(lib: Library, a: string)
    requires IsLibrary(lib) && IsWord(a) && Distinct(lib)
    ensures CombinedWord(lib, a, a) == a
  {
    forall i | 0 <= i < |a| ensures CombinedWord(lib, a, a)[i] == a[i] {
      var m := lib[a[i]];
      AndIdempotent(m);
      var t := TopMatch(m, lib);
      ScoreSelf(m);
      assert t.score == 1.0;
      ScoreOneIffEqual(lib[t.ch], m);
    }
  }

  /** One card `updateWordMode` shows: position (from 1), the two letters, the painted AND mask and its top match. */
  datatype WordCard = WordCard(pos: nat, chA: char, chB: char, canvas: CellImage, best: Match)

  function WordCards(lib: Library, a: string, b: string): (cards: seq<WordCard>)
    requires IsLibrary(lib) && IsWord(a) && IsWord(b) && |a| == |b|
    ensures |cards| == |a|
  {
    seq(|a|, i requires 0 <= i < |a| =>
      WordCard(i + 1, a[i], b[i], Paint(And(lib[a[i]], lib[b[i]]), INK, INK, INK), PairMatch(lib, a, b, i)))
  }

  lemma WordCardAt(lib: Library, a: string, b: string, i: nat, best: Match)
    requires IsLibrary(lib) && IsWord(a) && IsWord(b) && |a| == |b| && i < |a|
    requires best == BestMatches(And(lib[a[i]], lib[b[i]]), lib, 1)[0]
    ensures best == PairMatch(lib, a, b, i) && CombinedWord(lib, a, b)[i] == best.ch
    ensures WordCards(lib, a, b)[i] == WordCard(i + 1, a[i], b[i], Paint(And(lib[a[i]], lib[b[i]]), INK, INK, INK), best)
  {
    BestMatchesHead(And(lib[a[i]], lib[b[i]]), lib, 1);
  }

  /**
   * What each combine card shows: its position from 1, the two letters, their AND mask painted,
   * and `findBestMatches(maskAND, m, 1)[0]`, whose letter is the decoded word's letter there.
   */
  lemma WordCardsSpec(lib: Library, a: string, b: string)
    requires IsLibrary(lib) && IsWord(a) && IsWord(b) && |a| == |b|
    ensures var cards := WordCards(lib, a, b);
      forall i :: 0 <= i < |a| ==>
        cards[i].pos == i + 1 && cards[i].chA == a[i] && cards[i].chB == b[i] &&
        cards[i].canvas == Paint(And(lib[a[i]], lib[b[i]]), INK, INK, INK) &&
        cards[i].best == BestMatches(And(lib[a[i]], lib[b[i]]), lib, 1)[0] &&
        CombinedWord(lib, a, b)[i] == cards[i].best.ch
  {
    forall i | 0 <= i < |a| ensures WordCards(lib, a, b)[i].best == BestMatches(And(lib[a[i]], lib[b[i]]), lib, 1)[0] {
      BestMatchesHead(And(lib[a[i]], lib[b[i]]), lib, 1);
    }
  }

  /** The loop of `updateWordMode`: per position, AND the two letters' masks and take the top match. */
  method CombineWords(lib: Library, a: string, b: string) returns (cards: seq<WordCard>, decoded: string)
    requires IsLibrary(lib) && IsWord(a) && IsWord(b) && |a| == |b|
    ensures cards == WordCards(lib, a, b)
    ensures decoded == CombinedWord(lib, a, b)
  {
    ghost var specCards, specWord := WordCards(lib, a, b), CombinedWord(lib, a, b);
    cards, decoded := [], [];
    for i := 0 to |a|
      invariant cards == specCards[..i] && decoded == specWord[..i]
    {
      var chA, chB := a[i], b[i];
      var maskAnd := AndMasks(lib[chA], lib[chB]);
      var top := FindBestMatches(maskAnd, lib, 1);
      BestMatchesHead(maskAnd, lib, 1);
      var best := top[0];
      decoded := decoded + [best.ch];
      var canvas := DrawMask(maskAnd, INK, INK, INK);
      WordCardAt(lib, a, b, i, best);
      PrefixStep(specCards, i);
      PrefixStep(specWord, i);
      cards := cards + [WordCard(i + 1, chA, chB, canvas, best)];
    }
    PrefixAll(specCards);
    PrefixAll(specWord);
  }

  // ---------------------------------------------------------------------------
  // The page state
  // ---------------------------------------------------------------------------

  class WordModeView {
    /** The canvas text rasteriser behind `buildLetterMasks`. */
    const render: Renderer
    /** The canvas strip resampler behind `splitImageToMasks`. */
    const sample: Sampler

    /** The memoised library (`let masks = null`). */
    var masks: Option<Library>
    /** How many times the library has been built. */
    ghost var builds: nat

    var decodeImage: Option<Image>
    /** `els.decodeWord.value`. */
    var decodeWordValue: string
    /** `els.decodeSolveBtn.disabled`. */
    var solveDisabled: bool
    /** The cards in `els.decodeResult`. */
    var decodeResult: seq<DecodeCard>
    /** The texts in `els.decodeDecodedResult`: the decoded word and its label. */
    var decodeDecodedResult: seq<string>

    /** `els.wordA.value` and `els.wordB.value`. */
    var wordAValue: string
    var wordBValue: string
    /** The cards in `els.wordResult`. */
    var wordResult: seq<WordCard>
    /** The texts in `els.wordDecoded`: the decoded word and its label. */
    var wordDecoded: seq<string>
    /** `els.wordError.textContent`. */
    var wordError: string

    /** The memo, once filled, holds the default-font library at FONT_SIZE. */
    ghost predicate Valid()
      reads this
    {
      masks.Some? ==> masks.value == LetterMasks(render, FONT_SIZE, None)
    }

    constructor(render: Renderer, sample: Sampler)
      ensures Valid() && this.render == render && this.sample == sample
      ensures masks.None? && builds == 0 && decodeImage.None? && solveDisabled
      ensures decodeWordValue == "" && wordAValue == "" && wordBValue == ""
      ensures decodeResult == [] && decodeDecodedResult == [] && wordResult == [] && wordDecoded == [] && wordError == ""
    {
      this.render := render;
      this.sample := sample;
      masks := None;
      builds := 0;
      decodeImage := None;
      decodeWordValue := "";
      solveDisabled := true;
      decodeResult := [];
      decodeDecodedResult := [];
      wordAValue := "";
      wordBValue := "";
      wordResult := [];
      wordDecoded := [];
      wordError := "";
    }

    /** `getMasks`: builds the library on the first call only and then returns the cached one. */
    method GetMasks() returns (m: Library)
      requires Valid()
      modifies this`masks, this`builds
      ensures Valid() && masks == Some(m)
      ensures m == LetterMasks(render, FONT_SIZE, None)
      ensures old(masks).Some? ==> m == old(masks).value && builds == old(builds)
      ensures old(masks).None? ==> builds == old(builds) + 1
    {
      if masks.None? {
        var built := BuildLetterMasks(render, FONT_SIZE, None);
        masks := Some(built);
        builds := builds + 1;
      }
      m := masks.value;
    }

    /** `checkDecodeReady`. */
    method CheckDecodeReady()
      modifies this`solveDisabled
      ensures solveDisabled == SolveDisabled(decodeWordValue, decodeImage.Some?)
    {
      var word := ParseLine(decodeWordValue);
      solveDisabled := !(|word| > 0 && decodeImage.Some?);
    }

    /** The `input` listener of the known-word field. */
    method SetDecodeWord(value: string)
      modifies this`decodeWordValue, this`solveDisabled
      ensures decodeWordValue == value
      ensures solveDisabled == SolveDisabled(value, decodeImage.Some?)
    {
      decodeWordValue := value;
      CheckDecodeReady();
    }

    /** The `onload` step of `loadDecodeFile`: the image is kept and the gate re-evaluated. */
    method LoadDecodeImage(img: Image)
      modifies this`decodeImage, this`solveDisabled
      ensures decodeImage == Some(img)
      ensures solveDisabled == SolveDisabled(decodeWordValue, true)
    {
      decodeImage := Some(img);
      CheckDecodeReady();
    }

    /** `runDecode`, without the DOM: clears both outputs, stops without a word or an image, else decodes. */
    method RunDecode()
      requires Valid()
      modifies this`decodeResult, this`decodeDecodedResult, this`masks, this`builds
      ensures Valid()
      ensures var w := ParseLine(decodeWordValue);
        if w == [] || decodeImage.None? then
          decodeResult == [] && decodeDecodedResult == [] && masks == old(masks)
        else
          masks.Some? &&
          decodeResult == DecodeCards(masks.value, w, StripMasks(decodeImage.value, |w|, sample)) &&
          decodeDecodedResult == [DecodedText(decodeResult), w + " & ? = decoded word"]
    {
      decodeResult := [];
      decodeDecodedResult := [];
      var knownWord := ParseLine(decodeWordValue);
      if knownWord == [] || decodeImage.None? {
        return;
      }
      var targetMasks := SplitImageToMasks(decodeImage.value, |knownWord|, sample);
      var m := GetMasks();
      var cards := DecodePositions(m, knownWord, targetMasks);
      decodeResult := cards;
      decodeDecodedResult := [DecodedText(cards), knownWord + " & ? = decoded word"];
    }

    /** The `input` listeners of the two word fields. */
    method SetWords(a: string, b: string)
      requires Valid()
      modifies this`wordAValue, this`wordBValue, this`wordResult, this`wordDecoded, this`wordError, this`masks, this`builds
      ensures Valid() && wordAValue == a && wordBValue == b
      ensures var pa := ParseLine(a); var pb := ParseLine(b);
        match CombineError(pa, pb)
        case Some(e) => wordError == e && wordResult == [] && wordDecoded == [] && masks == old(masks)
        case None =>
          wordError == "" && masks.Some? && wordResult == WordCards(masks.value, pa, pb) &&
          wordDecoded == [CombinedWord(masks.value, pa, pb), pa + " AND " + pb]
    {
      wordAValue, wordBValue := a, b;
      UpdateWordMode();
    }

    /** `updateWordMode`, without the DOM. */
    method UpdateWordMode()
      requires Valid()
      modifies this`wordResult, this`wordDecoded, this`wordError, this`masks, this`builds
      ensures Valid()
      ensures var a := ParseLine(wordAValue); var b := ParseLine(wordBValue);
        match CombineError(a, b)
        case Some(e) => wordError == e && wordResult == [] && wordDecoded == [] && masks == old(masks)
        case None =>
          wordError == "" && masks.Some? && wordResult == WordCards(masks.value, a, b) &&
          wordDecoded == [CombinedWord(masks.value, a, b), a + " AND " + b]
    {
      var a := ParseLine(wordAValue);
      var b := ParseLine(wordBValue);
      wordResult := [];
      wordDecoded := [];
      wordError := "";
      if a == [] || b == [] {
        wordError := "Enter two words above to see results.";
        return;
      }
      if |a| != |b| {
        wordError := "Words must be the same length. \"" + a + "\" has " + NatToDecimal(|a|) + " letters, \"" + b +
                     "\" has " + NatToDecimal(|b|) + ".";
        return;
      }
      var m := GetMasks();
      var cards, decoded := CombineWords(m, a, b);
      wordResult := cards;
      wordDecoded := [decoded, a + " AND " + b];
    }
  }
}
