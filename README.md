# letterand glyph engine and magic-link tokens, in Dafny

letterand is a puzzle helper built on one question: what does letter A look like when it is
ANDed pixel by pixel with letter B? This project models its core and proves properties of the
model.

- **Glyph engine** (`src/engine.js`, module `Engine`). 200 x 200 binary masks. It covers:
  - thresholding RGBA pixel data;
  - pixel-wise AND;
  - the blended IoU/F1 similarity score;
  - per-font letter libraries built from a rasteriser;
  - the stable top-N ranking of letters;
  - painting a mask into RGBA.
- **Word mode** (`src/word-mode.js`, module `WordMode`).
  - The combiner ANDs two equal-length words position by position and names the letter each AND looks like.
  - The decoder splits an uploaded image into strips and finds, per position, the letter that ANDed with the known letter best matches the strip.
- **Single-letter modes** (`src/ui.js`, module `Ui`).
  - The combiner shows a top match and two runners-up.
  - The finder ranks the 26 ANDs of a known letter against an uploaded target and flags high matches.
- **Magic-link tokens** (`api/_auth.js`, module `Auth`). Signing and verifying `b64url(email|expiresAt).b64url(HMAC)` tokens. Base64url without padding is RFC 4648 section 5; the `|` in the payload is called the bar below. Four supporting modules model the JavaScript and Node built-ins the token code relies on:
  - `Base64`: `Buffer` base64;
  - `Utf8`: `Buffer` UTF-8;
  - `JsNumber`: `String(n)` and `Number(s)`, from section 7.1.4.1.1 of ECMA-262;
  - `Text`: `trim`, `toLowerCase`, `toUpperCase`, `split` and `replace(/[^A-Z]/g, '')`.

The modules share a few definitions:
- `Common`: `Option`, `Byte` and `Image`.
- `Sorting`: `Array.prototype.sort` with a comparator. It is a stable insertion sort (ECMA-262 has required a stable sort since 2019), with permutation, order and tie-order lemmas.

Data is modelled as follows:
- Masks are `seq<bv1>`.
- Scores are exact `real`s.
- Module state becomes a class with the same fields. These are the `getMasks` memo, the loaded image or target mask, `knownPos`, the input values and what the page shows. The classes are `WordMode.WordModeView` and `Ui.UiView`, and their methods name exactly the fields they change.
- The loops of the source become methods with loop invariants. Each method is proved equal to a specification function, and the lemmas beside it state what that function means.

Four effects become parameters:
- the canvas text rasteriser (`Renderer`);
- the canvas `drawImage` resampling (`Sampler`, and `UiView.scale`);
- the HMAC-SHA256 (`Auth.Hmac`), an arbitrary deterministic function;
- the clock (`now` in `Auth.Verify`).

## Model

| member | source | states |
|---|---|---|
| Engine.AlphabetLiteral | src/engine.js:4 | `ALPHABET` is the 26 capitals `A` to `Z` in order |
| Engine.LetterRange | src/engine.js:4 | a character is in `ALPHABET` iff it is between `A` and `Z`, and then it sits at its offset from `A` |
| Engine.AlphabetOrder | src/engine.js:4 | alphabet positions and character codes order the letters alike; no letter repeats |
| Engine.Binarize | src/engine.js:40-48 | the mask has `CELL*CELL` entries; pixel i is ink iff R+G+B < 384 (brightness below 128); alpha is not read |
| Engine.ToBinary | src/engine.js:40-48 | the pixel loop fills exactly the mask `Binarize` describes |
| Engine.AndMasks | src/engine.js:53-57 | the result has `a.length` entries and pixel i is ink iff both `a[i]` and `b[i]` are (a `b` too short reads as 0) |
| Engine.AndCommutes | src/engine.js:53-57 | AND of equal-length masks is commutative |
| Engine.AndIdempotent | src/engine.js:53-57 | `and(m, m) == m` |
| Engine.AndFull | src/engine.js:53-57 | `and(m, full) == m` |
| Engine.AndBlank | src/engine.js:53-57 | `and(m, empty) == empty` |
| Engine.AndCovered | src/engine.js:53-57 | the AND's ink lies inside both operands' ink, so it has no more ink than either |
| Engine.InkCovered | src/engine.js:64-68 | a covered mask has no more ink than its cover, and the same amount only if the two are equal |
| Engine.InkZero | src/engine.js:64-66 | an ink count of 0 means a blank mask, and back |
| Engine.F1Closed | src/engine.js:73-75 | `2*prec*rec/(prec+rec)` with its `(prec + rec) > 0` guard equals `2*inter/(cSum+tSum)` when both masks have ink |
| Engine.BlendClosed | src/engine.js:71-76 | for two inked masks the score is `0.4*inter/union + 0.6*2*inter/(cSum+tSum)` |
| Engine.BlendRange | src/engine.js:69-76 | the score lies in [0, 1]; it is 1 iff `inter == cSum == tSum`, and 0 iff there is no overlap but some ink |
| Engine.BlendSymmetric | src/engine.js:69-76 | swapping `cSum` and `tSum` leaves the score unchanged |
| Engine.Score | src/engine.js:62-77 | `matchScore` lies in [0, 1] |
| Engine.MatchScore | src/engine.js:62-77 | the counting loop over the candidate's pixels returns `Score` |
| Engine.ScoreSymmetric | src/engine.js:62-77 | `matchScore(a, b) == matchScore(b, a)` for masks of equal length |
| Engine.ScoreOneIffEqual | src/engine.js:62-77 | on equal lengths, the score is 1 exactly when the masks are identical |
| Engine.ScoreSelf | src/engine.js:62-77 | `matchScore(m, m) == 1` for every mask |
| Engine.ScoreZeroIff | src/engine.js:62-77 | the score is 0 iff the AND is blank and at least one mask has ink |
| Engine.ScoreWithBlank | src/engine.js:69-70 | two blank masks score 1; a blank mask against an inked one scores 0, in either order |
| Engine.LetterMasks | src/engine.js:82-88 | the library has exactly the 26 letters as keys, each with a `CELL*CELL` mask |
| Engine.BuildLetterMasks | src/engine.js:82-88 | the loop gives each letter the thresholded rendering at the font size in the family; a missing or empty family is replaced by the default (line 29) |
| Engine.BuildAllFontMasks | src/engine.js:93-98 | one complete library per `FONT_FAMILIES` entry (8), in order, each built with that family |
| Engine.FindBestMatches | src/engine.js:103-110 | scoring, sorting and slicing return `BestMatches` |
| Engine.SortedCandidates | src/engine.js:104-108 | the sorted list holds every letter exactly once with its own score, by descending score and then alphabetically |
| Engine.BestMatchesSpec | src/engine.js:103-110 | `min(topN, 26)` entries, each `matchScore(letterMasks[ch], mask)`; scores non-increasing, ties in alphabet order, no letter twice |
| Engine.BestMatchesComplete | src/engine.js:108-109 | every letter left out of a top-N list ranks after every letter in it |
| Engine.BestMatchesTop | src/engine.js:103-110 | entry 0 scores at least as high as any letter, and strictly higher than any letter before it in the alphabet |
| Engine.TopMatch | src/engine.js:103-110 | the first letter in alphabet order whose mask scores highest against `mask` |
| Engine.BestMatchesHead | src/engine.js:109 | every top-N list with N >= 1 starts with `TopMatch` |
| Engine.PaintAtPixel | src/engine.js:118-123 | bytes 4i..4i+2 are (r, g, b) on ink and 255 otherwise; byte 4i+3 is 255 |
| Engine.Paint | src/engine.js:115-125 | the painted buffer holds those bytes for every mask pixel; bytes past the mask stay 0 (`createImageData` is zeroed) |
| Engine.DrawMask | src/engine.js:115-125 | the fill loop produces the buffer `Paint` describes |
| Engine.BinarizePaint | src/engine.js:40-48 | thresholding a full mask painted in a dark colour (R+G+B < 384) gives back the mask |
| WordMode.ParseLine | src/word-mode.js:32-34 | the result is only `A` to `Z`: the input's ASCII letters, upper-cased, in order |
| WordMode.ParseLineIdempotent | src/word-mode.js:32-34 | parsing a parsed line changes nothing |
| WordMode.ParseLineConcat | src/word-mode.js:32-34 | parsing distributes over concatenation |
| WordMode.ParseLineEmpty | src/word-mode.js:32-34 | the parsed line is empty iff the input has no ASCII letter |
| WordMode.SolveDisabled | src/word-mode.js:138-141 | the solve button is enabled iff the word field has an ASCII letter and an image is loaded |
| WordMode.InkMask | src/word-mode.js:191-195 | `CELL*CELL` entries; pixel j is ink iff one of its R, G, B channels is below 200 |
| WordMode.StripMasks | src/word-mode.js:179-199 | `numLetters` masks of `CELL*CELL` entries |
| WordMode.SplitImageToMasks | src/word-mode.js:179-199 | the strip loop and pixel loop return `StripMasks`: one ink mask per strip, in order |
| WordMode.InkMaskPaint | src/word-mode.js:191-195 | a mask painted in a colour with a channel below 200 thresholds back to itself |
| WordMode.BinarizeCoveredByInkMask | src/word-mode.js:191-195 | what the library's threshold counts as ink, the decode threshold counts too |
| WordMode.FirstBestUnique | src/word-mode.js:220-227 | at most one letter is the first letter with the largest decode score |
| WordMode.AndLibrary | src/word-mode.js:222 | the candidate masks `and(m[known], m[ch])` form a complete library |
| WordMode.DecodePickIsFirstBest | src/word-mode.js:220-227 | the first best letter is exactly the head of the engine's ranking of the candidate masks |
| WordMode.ScanResult | src/word-mode.js:220-227 | a scan position that beats all earlier letters and ties or beats all later ones names the first best letter |
| WordMode.BestCandidate | src/word-mode.js:220-227 | the strict `>` scan from -1 picks the first letter in alphabet order with the largest score, never `'?'`, with its score and AND mask |
| WordMode.DecodedTextIsWord | src/word-mode.js:215-228 | the decoded word has one letter of `A` to `Z` per known letter |
| WordMode.DecodeCardAt | src/word-mode.js:215-228 | card i holds position i+1, the known letter, and the scanned pick with its painted AND mask |
| WordMode.DecodeCardsSpec | src/word-mode.js:215-258 | every card shows its position, the known letter, and the first best letter with its score and painted AND mask |
| WordMode.DecodePositions | src/word-mode.js:215-228 | the loop over positions builds `DecodeCards` |
| WordMode.CombineError | src/word-mode.js:284-292 | there is no error iff both words are non-empty and of equal length |
| WordMode.CombinedWord | src/word-mode.js:297-304 | the decoded word has `a.length` letters of `A` to `Z` |
| WordMode.CombinedWordSwap | src/word-mode.js:297-304 | swapping the two words decodes the same word |
| WordMode.CombinedWordSelf | src/word-mode.js:297-304 | if no two letter masks are equal, a word combined with itself decodes to itself |
| WordMode.WordCardAt | src/word-mode.js:297-304 | position i's top-1 `findBestMatches(and(m[a[i]], m[b[i]]), m, 1)[0]` is the decoded letter there |
| WordMode.WordCardsSpec | src/word-mode.js:297-333 | each card shows its position, both letters, the painted AND and its top-1 match |
| WordMode.CombineWords | src/word-mode.js:297-304 | the loop builds the cards and `decoded.join('')` as specified |
| WordMode.WordModeView.constructor | src/word-mode.js:9 | an empty memo, no image and empty fields and outputs |
| WordMode.WordModeView.GetMasks | src/word-mode.js:11-14 | returns the default-font library; builds it only when none is cached, otherwise returns the cached one unchanged |
| WordMode.WordModeView.CheckDecodeReady | src/word-mode.js:138-141 | sets the button's `disabled` to `SolveDisabled` of the current word and image |
| WordMode.WordModeView.SetDecodeWord | src/word-mode.js:109 | stores the word and re-evaluates the gate |
| WordMode.WordModeView.LoadDecodeImage | src/word-mode.js:149-154 | keeps the image and re-evaluates the gate |
| WordMode.WordModeView.RunDecode | src/word-mode.js:203-270 | without a word or an image both outputs are empty and nothing is built; otherwise the cards, the decoded word and the label `W & ? = decoded word` |
| WordMode.WordModeView.SetWords | src/word-mode.js:68-69 | stores both words and runs `updateWordMode` |
| WordMode.WordModeView.UpdateWordMode | src/word-mode.js:274-344 | an error and no cards for empty or unequal words; otherwise no error, the cards, the decoded word and the label `A AND B` |
| Ui.ParseLetter | src/ui.js:59-62 | null iff the input has no ASCII letter; otherwise the first ASCII letter, upper-cased |
| Ui.ParseLetterPrefix | src/ui.js:59-62 | once the input has a letter, appending to it does not change the result |
| Ui.Combiner | src/ui.js:72-81 | the prompt is shown iff a letter is missing |
| Ui.CombinerSpec | src/ui.js:77-81 | with two letters: the AND of their masks, `TopMatch` of it (`best[0]`), and exactly two runners-up (`best.slice(1)`); each runner-up is a letter other than the top, with its own score, ranked after it |
| Ui.CombinerSymmetric | src/ui.js:77-81 | swapping the two letters gives the same AND, top match and runners-up |
| Ui.Combine | src/ui.js:77-81 | the compute steps produce `Combiner` |
| Ui.FinderPushed | src/ui.js:276-293 | 26 results in push order |
| Ui.FinderPushedRanks | src/ui.js:276-293 | the pushed results are in strictly increasing letter order |
| Ui.FinderPushedAt | src/ui.js:276-293 | result k is the entry for `ALPHABET[k]` |
| Ui.FinderListEntries | src/ui.js:276-298 | 26 results, each the entry for its own letter: the AND in the `knownPos` operand order, that AND's top match, and a target score present iff a target is loaded |
| Ui.FinderListCovers | src/ui.js:276-298 | every letter appears in the list |
| Ui.FinderListDistinct | src/ui.js:276-298 | no letter appears twice |
| Ui.FinderListOrder | src/ui.js:295-298 | with a target: target score non-increasing, ties alphabetical; without one: exactly alphabet order |
| Ui.FinderPositionIrrelevant | src/ui.js:277-279 | both `knownPos` choices give identical lists, because AND commutes |
| Ui.HighMatchPrefix | src/ui.js:303-305 | without a target no card is a high match; with one, the high matches (score > 0.7) form a leading run |
| Ui.FinderResults | src/ui.js:274-298 | the push loop, then the sort when there is a target, returns `FinderList` |
| Ui.UiView.constructor | src/ui.js:12 | empty memo, position `'a'`, no target |
| Ui.UiView.GetMasks | src/ui.js:14-17 | returns the default-font library; builds it only when none is cached |
| Ui.UiView.UpdateCombiner | src/ui.js:66-160 | the prompt without two letters (nothing built); otherwise `Combiner` of both letters |
| Ui.UiView.SetLetters | src/ui.js:66-75 | stores both inputs and shows the combiner for them |
| Ui.UiView.UpdateFinder | src/ui.js:261-298 | the prompt without a known letter (nothing built); otherwise the cards of `FinderList` for the letter, `knownPos` and `targetMask` |
| Ui.UiView.SetKnownLetter | src/ui.js:211 | stores the input and shows the finder for it |
| Ui.UiView.SetKnownPos | src/ui.js:170-181 | sets `knownPos` and shows the finder for it |
| Ui.UiView.LoadTarget | src/ui.js:218-239 | the target mask becomes the thresholded scaled image, and the finder is redrawn with it |
| Utf8.EncodeChar | api/_auth.js:21-22 | a code point takes 1 to 4 bytes |
| Utf8.Continuations | api/_auth.js:37 | the continuation bytes after a lead byte, correctly delimited |
| Utf8.CodePointIsScalar | api/_auth.js:37 | a sequence passing the lead-byte and continuation-byte checks decodes to a Unicode scalar value |
| Utf8.DecodeWellFormed | api/_auth.js:37 | a well-formed sequence decodes to its code point, and decoding resumes after it |
| Utf8.DecodeEncodeChar | api/_auth.js:21-22 | one encoded code point decodes back to itself |
| Utf8.Decode | api/_auth.js:37 | `toString('utf8')` yields at most one character per byte, nothing only for no bytes, an ASCII lead byte as itself and a byte that cannot lead a sequence as U+FFFD |
| Utf8.DecodeEncode | api/_auth.js:22-37 | `Buffer.from(s).toString('utf8') == s` |
| Utf8.EncodeAscii | api/_auth.js:21-22 | each ASCII character encodes as its own byte |
| Utf8.EncodeConcat | api/_auth.js:21-22 | encoding distributes over concatenation |
| Base64.ValueOfCharOf | api/_auth.js:4 | each alphabet character decodes to its 6-bit value |
| Base64.Values | api/_auth.js:4 | a 6-bit value per character: four per three bytes, plus two or three for a trailing partial group |
| Base64.Encode | api/_auth.js:4 | padded base64 has a length that is a multiple of 4 |
| Base64.FromValues | api/_auth.js:4 | the values of an encoding decode back to the bytes |
| Base64.SextetsPrefix | api/_auth.js:13 | the decoder stops reading at the first `=` |
| Base64.DecodeEncode | api/_auth.js:4 | `Buffer.from(b.toString('base64'), 'base64') == b` |
| Base64.StripPadding | api/_auth.js:7 | removes exactly the trailing run of `=` |
| Base64.StripEncode | api/_auth.js:4-7 | stripping the padding of an encoding leaves its alphabet characters |
| Base64.UrlEncode | api/_auth.js:3-8 | the output holds only `A-Z a-z 0-9 - _`, so no `+`, `/` or `=` |
| Base64.UrlRoundTrip | api/_auth.js:3-14 | `fromB64url(b64url(x))` recovers x's bytes |
| Base64.Padded | api/_auth.js:11-12 | the input with `-` and `_` mapped back to `+` and `/`, followed by the fewest `=` (fewer than 4) that make the length a multiple of 4 |
| Base64.UrlDecode | api/_auth.js:10-14 | `fromB64url(s)` decodes the mapped-back input: the padding it adds is never read |
| JsNumber.StringToNumber | api/_auth.js:39 | `Number(s)` of a blank string is 0, and a finite result lies strictly within the binary64 overflow bound |
| JsNumber.IntToStringChars | api/_auth.js:21 | `String(n)` of an integer holds only digits and `-` |
| JsNumber.IntRoundTrip | api/_auth.js:21-39 | `Number(String(n)) == n` for every integer in the finite range |
| JsNumber.BlankIsZero | api/_auth.js:39 | an empty or blank string reads as 0 |
| JsNumber.LetterLedIsNaN | api/_auth.js:39 | a string beginning with a lower-case letter other than `e` reads as NaN |
| Text.TrimLowerCase | api/_auth.js:17 | trimming and lower-casing commute |
| Text.SplitAfterFirst | api/_auth.js:27-38 | `(a + sep + b).split(sep)` is `a` followed by the pieces of `b`, when `a` has no separator |
| Text.DecimalRoundTrip | api/_auth.js:21-39 | the decimal numeral of a natural number reads back as the number |
| Auth.NormalizeEmail | api/_auth.js:16-18 | no leading or trailing white space and no upper-case ASCII; a missing email gives `''` |
| Auth.NormalizeIdempotent | api/_auth.js:16-18 | normalizing twice changes nothing |
| Auth.NormalizeIgnoresCaseAndSpace | api/_auth.js:16-18 | lower-casing or trimming first does not change the normalized email |
| Auth.Sign | api/_auth.js:20-24 | the token has exactly one `.`; its two parts are `b64url` of the UTF-8 payload `normalizeEmail(email)`, a bar and `String(expiresAt)` and `b64url` of its HMAC |
| Auth.TwoParts | api/_auth.js:23-28 | joining two URL-safe parts with `.` gives a string that splits back into exactly those two |
| Auth.CheckFields | api/_auth.js:41-45 | the checks in order: 'Invalid payload' iff the token email is empty or the expiry not finite; otherwise 'Email mismatch' iff the normalized emails differ; otherwise 'Token expired' iff `now > expiresAt`; success in the remaining case |
| Auth.FirstBarFields | api/_auth.js:38 | the payload split at bars and destructured into two names: the text before the first bar, and the text between it and the next bar or the end; no second field iff there is no bar |
| Auth.VerifyWith | api/_auth.js:26-46 | for any way of cutting the payload into two fields: 'Malformed token' iff the token does not have exactly one `.`; 'Invalid signature' iff it has one but the decoded signature is not the HMAC of the decoded payload; otherwise the verdict of `CheckFields` on the two fields |
| Auth.Verify | api/_auth.js:26-46 | the same five outcomes with the payload cut at its first bar, so every token gets a stated verdict; success only for an authentic token whose first field is the normalized email and whose expiry is not past |
| Auth.VerifyFixed | api/_auth.js:26-46 | the corrected verifier: the same outcomes with the payload cut at its last bar |
| Auth.SignedTokenOpens | api/_auth.js:20-37 | a signed token is authentic and its decoded payload is the signed payload |
| Auth.PayloadSplits | api/_auth.js:21-38 | a payload whose email has no bar splits into the email and the expiry |
| Auth.SignVerify | api/_auth.js:20-46 | for an email without a bar and an expiry below 10^21 in magnitude, verifying a fresh token gives 'Invalid payload' for an empty email, 'Email mismatch' for differing emails, 'Token expired' iff `now > expiresAt`, and success otherwise |
| Auth.ExpiryIsInclusive | api/_auth.js:43 | a token is valid at its exact expiry instant and expired one millisecond later |
| Auth.OtherSecretRejected | api/_auth.js:30-35 | a token checked under a secret whose HMAC differs gets 'Invalid signature' |
| Auth.BarInEmailRejected | api/_auth.js:38-41 | when the normalized email is `head`, a bar and `tail`, and `tail` starts with a lower-case letter other than `e`, the user's own fresh token gets 'Invalid payload' |
| Auth.BarInEmailExample | api/_auth.js:38-41 | the address `x`, bar, `y@z.io` is such an email |
| Auth.LastBarFields | api/_auth.js:38 | the corrected split: the text after the last bar (holding no bar) and everything before it |
| Auth.FixedSignVerify | api/_auth.js:20-46 | with the split at the last bar, verifying a fresh token behaves as `SignVerify` says, for every email |
| Auth.FixAgreesWithoutBar | api/_auth.js:38 | for emails without a bar the correction changes no verdict on fresh tokens |

## Left out

- Rendering and layout:
  - The canvas text rasteriser (`renderLetter`, src/engine.js:21-35) and the `drawImage` resampling (src/word-mode.js:183-190 and src/ui.js:230-237) are abstract parameters. The model knows nothing of fonts or pixel interpolation.
  - The DOM work is not modelled: card elements, `clearEl`, `makeCanvas`, previews, tab switching, listener registration and the drop-zone handlers. What the page shows is kept as values in the class fields.
- JavaScript runtime:
  - `FileReader` and `Image` loading is asynchronous. The model starts from the `onload` callback with the decoded image.
  - `toFixed` percentage formatting and the HTML of the summary lines are not modelled.
  - The guards on missing page elements (`els.wordA`, `els.decodeWord?.value || ''`) are not modelled. The model assumes the elements exist.
- Engine.Score: scores are exact rationals, not IEEE-754 doubles. Rounding on near-ties and next to the 0.7 threshold is not modelled.
- Engine.DrawMask: requires at most `CELL*CELL` mask pixels. JavaScript silently drops writes past the end of a typed array; the model does not capture that.
- Masks are sequences of bits, not `Uint8Array`s. Updates in place and aliasing of the shared cached library are not modelled.
- Text.UpperCase and Text.LowerCase map only ASCII letters. The full Unicode case mapping of `toUpperCase`/`toLowerCase` is not modelled (for example `ß` becoming `SS`).
- Strings are sequences of Dafny `char`s, which are Unicode scalar values. Lone UTF-16 surrogates cannot occur, so `Buffer.from` replacing them by U+FFFD is not modelled.
- Auth.Hmac: HMAC-SHA256 is an uninterpreted deterministic function. `crypto.timingSafeEqual` is sequence equality; its constant-time behaviour is not modelled.
- `String(email || '')` is modelled for strings and missing values only. Other JavaScript values (numbers, objects) are not.
- JsNumber.IntToString: `String(expiresAt)` is modelled for integers. Exponent notation for magnitudes from 10^21 up, and fractions, are not modelled. Auth.SignVerify therefore requires jointly that the expiry is below 10^21 in magnitude.
- JsNumber.StringToNumber: values are exact. Rounding to the nearest double is not modelled, only the overflow to an infinity.
- Base64.Decode: Node's tolerance of stray characters follows its documented behaviour. Characters outside the alphabet are skipped; decoding stops at the first `=`; a single trailing value is dropped.
- `buildAllFontMasks` is modelled but nothing in the core calls it. Both modes use the single default-font library.
- The API handlers are not part of this model: HTTP, environment variables, Stripe and e-mail delivery. `src/main.js` and `src/auth.js` (page wiring, `localStorage`, `fetch`) are not part of this model either.

## Findings

| source | as written | input that shows it | evidently intended | confidence | as-written member | corrected member |
|---|---|---|---|---|---|---|
| api/_auth.js:38 | the payload is split at every bar and only the first two fields are kept, so an email containing a bar loses everything after its first bar, and that remainder is read as the expiry | `x`, bar, `y@z.io`: the login request handler accepts it (api/request-login-link.js:44-47 only asks for an `@`) and, for a paying customer (api/request-login-link.js:64-67), signs it. Its own fresh token then reads `y@z.io` as the expiry, which is NaN, so it is refused with 'Invalid payload' | split at the last bar: the expiry never contains one, so every signed token verifies for its own email until it expires | high, not executed | Auth.BarInEmailRejected | Auth.VerifyFixed |
