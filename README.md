# oau-web helpers, modelled in Dafny

This project models the general-purpose helpers in `src/logic/helper.ts` of the
oau-web front end. Each is written in Dafny and its behaviour is proved.

- **`trim(str, ch)`** (`trim.dfy`, module `Trim`). It strips every leading and
  trailing occurrence of one character. The method keeps the source's two index
  loops. It is proved against a recursive reference definition, `Trimmed`.
- **`shuffle` and `gaussian_shuffle`** (`shuffle.dfy`, module `Shuffle`). Both
  are a Fisher–Yates swap loop over a copy of the input array. The random
  source is a parameter: a sequence of samples, one per pass, taken as exact
  reals. The method keeps the array copy and the in-place swaps. It is proved
  equal to the reference function `Shuffled`, and `Shuffled` is proved to be a
  permutation.
- **`insert` and `checkSubset`** (`arrays.dfy`, module `ArrayHelpers`). Both
  are pure functions on sequences. `insert` includes JavaScript's normalisation
  of `slice` positions.
- **The locale rewrite of `fetchWithLang`** (`locale_path.dfy`, module
  `LocalePath`). This is the callback that puts the language code into the
  requested file name, as a function of the pathname and the language. The
  method performs the source's split, splice and join steps. It is proved equal
  to `LocalizedPath`, which inserts `"." + lang` before the first dot of the
  last `/`-segment. `strings.dfy` (module `Strings`) models the `split`/`join`
  of one-character separators that this rewrite uses, with their round-trip
  lemmas.

Strings are sequences of Dafny `char`s, which are Unicode scalar values. For text
in the Basic Multilingual Plane, that is one `char` per UTF-16 code unit, which
is how JavaScript indexes strings.

## Model

| member | source | states |
|---|---|---|
| Trim.IsCh | src/logic/helper.ts:169-172 | `str[i] === ch`: `ch` has length one and its character is `str[i]`. |
| Trim.IsChMeans | src/logic/helper.ts:169-172 | `str[i] === ch` holds if and only if `ch` is the one-character string made of `str[i]`. |
| Trim.StripLeading | src/logic/helper.ts:169-170 | Reference for the first loop: drop leading characters equal to `ch`, one at a time; the result is no longer than the input. |
| Trim.StripTrailing | src/logic/helper.ts:172-173 | Reference for the second loop: drop trailing characters equal to `ch`, one at a time; the result is no longer than the input. |
| Trim.Trimmed | src/logic/helper.ts:165-176 | Reference for `trim`: the leading matches stripped, then the trailing ones. `Trim.Trim` is proved equal to it. |
| Trim.Trim | src/logic/helper.ts:165-176 | The two loops and the final choice between `substring` and `str` return exactly `Trimmed(str, ch)`: leading matches stripped, then trailing ones. |
| Trim.StripLeadingRemoved | src/logic/helper.ts:169-170 | The first loop keeps a suffix of the input. Every character it skips equals `ch`, and the first character it keeps does not. |
| Trim.StripTrailingRemoved | src/logic/helper.ts:172-173 | The second loop keeps a prefix. Every character it drops equals `ch`, and the last character it keeps does not. |
| Trim.TrimmedIsWindow | src/logic/helper.ts:165-176 | The result is a window `s[i..j]` of the input. Everything outside the window is `ch`, and a non-empty result neither starts nor ends with `ch`. |
| Trim.TrimmedUnchanged | src/logic/helper.ts:175 | `trim` returns its input unchanged if and only if the input is empty or neither end is `ch`. |
| Trim.TrimmedEmpty | src/logic/helper.ts:165-176 | The result is `""` if and only if every character of the input is `ch`. |
| Trim.TrimmedIdempotent | src/logic/helper.ts:165-176 | Trimming a trimmed string changes nothing. |
| Trim.TrimmedOtherLength | src/logic/helper.ts:169-173 | A `ch` that is not exactly one character never equals `str[i]`, so nothing is trimmed. |
| ArrayHelpers.SliceIndex | src/logic/helper.ts:241 | The position `slice` makes of an index lies in `[0, length]`, and an index already in that range is kept. |
| ArrayHelpers.Insert | src/logic/helper.ts:240-242 | The result is one element longer, with `obj` at the normalised index. The elements before and after it are the parent's, in order. As multisets, the result is the parent plus `obj`. |
| ArrayHelpers.InsertThenRemove | src/logic/helper.ts:240-242 | Removing the inserted position again gives back the parent array. |
| ArrayHelpers.Includes | src/logic/helper.ts:236 | `includes(e)` holds if and only if some index holds `e`. |
| ArrayHelpers.CheckSubset | src/logic/helper.ts:234-238 | `checkSubset` holds if and only if every element of the subset occurs in the parent. It holds for an empty subset. |
| ArrayHelpers.CheckSubsetIsInclusion | src/logic/helper.ts:234-238 | `checkSubset` holds if and only if the subset's element set is included in the parent's. |
| ArrayHelpers.CheckSubsetIgnoresMultiplicity | src/logic/helper.ts:234-238 | Arrays with the same elements, in any order and with any repetitions, give the same answer. |
| ArrayHelpers.CheckSubsetTransitive | src/logic/helper.ts:234-238 | Every array is a subset of itself, and subsets of subsets are subsets. |
| Strings.Join | src/logic/helper.ts:104-105 | `join(sep)`: the parts with one `sep` between neighbours. `[]` joins to `""`. |
| Strings.JoinLayout | src/logic/helper.ts:104-105 | The joined string is as long as the parts together plus one per separator. It starts with the first part, and when there is a second part, a `sep` follows the first. |
| Strings.Split | src/logic/helper.ts:99 | `split` gives at least one part. No part holds the separator, and joining the parts gives back the string. |
| Strings.SplitJoin | src/logic/helper.ts:104-105 | Splitting the join of separator-free parts gives back the parts. |
| Strings.LastPieceStart | src/logic/helper.ts:100 | The last part begins just after a separator, or at 0. No separator follows that position. |
| Strings.LastPieceStartAt | src/logic/helper.ts:100 | A separator with none after it is exactly where the last part begins. |
| Strings.LastPieceStartBound | src/logic/helper.ts:100 | The last part begins at or before any position that has no separator after it. |
| Strings.FirstIndex | src/logic/helper.ts:101 | The position holds the character, and no earlier position does. |
| Strings.FirstIndexAt | src/logic/helper.ts:101 | The first occurrence is the one with no occurrence before it. |
| Strings.LastPiece | src/logic/helper.ts:99-105 | `p[last]` is the text after the last separator. Replacing it and joining replaces exactly that text. |
| Strings.ReplaceLastPiece | src/logic/helper.ts:104-105 | Replacing the text after the last separator with separator-free text splits as `p` with only its last part replaced. |
| Strings.FirstPiece | src/logic/helper.ts:101-103 | A string that holds the separator splits into at least two parts: the text before the first separator, then parts that join to the rest. |
| Strings.SplitSingle | src/logic/helper.ts:102 | `split` gives fewer than two parts if and only if the separator does not occur. |
| LocalePath.Rewrites | src/logic/helper.ts:95-102 | The rewrite applies when the language is not `zh_hans` and the file name has a dot. |
| LocalePath.RewritesExactly | src/logic/helper.ts:95-102 | `Rewrites` holds if and only if neither early exit is taken: the language is not `zh_hans`, and the last segment splits into at least two dot-parts. |
| LocalePath.DotPos | src/logic/helper.ts:101-103 | The splice point is a dot inside the file name. |
| LocalePath.InsertLang | src/logic/helper.ts:99-105 | The path with `"." + lang` put in at a given position. |
| LocalePath.LocalizedPath | src/logic/helper.ts:99-105 | Reference for the rewrite: `"." + lang` inserted before the first dot of the last segment when `Rewrites` holds, the path unchanged otherwise. `LocalePath.RewritePathname` is proved equal to it. |
| LocalePath.RewritePathname | src/logic/helper.ts:95-105 | The split, splice and join steps compute `LocalizedPath`. Nothing changes for `zh_hans` or for a file name without a dot. Otherwise the path grows by the language code plus one dot. |
| LocalePath.SplitSpliceJoin | src/logic/helper.ts:99-105 | For a non-default language and a file name with a dot, splicing `lang` in at index 1 of the dot-parts and joining both levels gives `LocalizedPath`. |
| LocalePath.NameSplice | src/logic/helper.ts:101-104 | `lsp.splice(1, 0, lang)` followed by `join('.')` inserts `"." + lang` just before the file name's first dot. |
| LocalePath.LocalizedAt | src/logic/helper.ts:99-105 | Where the rewrite applies, `LocalizedPath` inserts the language at the first dot of the last segment. |
| LocalePath.InsertAtDot | src/logic/helper.ts:103-104 | Inserting at a dot puts the language between two dots. |
| LocalePath.InsertInName | src/logic/helper.ts:104-105 | Inserting into the file name is inserting into the whole path at the shifted position. |
| LocalePath.SpliceSecond | src/logic/helper.ts:103-104 | Joining after a splice at index 1 puts the new part between the first part and the joined rest. |
| LocalePath.LocalizedLength | src/logic/helper.ts:95-105 | A rewrite adds exactly `|lang| + 1` characters. Without a rewrite the path is returned as is. |
| LocalePath.LocalizedSegments | src/logic/helper.ts:99-105 | For a language without `/`, the rewritten path has the same `/`-segments except the last. The last becomes `before-dot + "." + lang + "." + after-dot`. |
| LocalePath.SlashFreeName | src/logic/helper.ts:104 | A file name with the language spliced in is still a single segment. |
| LocalePath.LocalizedTwice | src/logic/helper.ts:99-105 | The rewrite is not idempotent: a rewritten path still qualifies, and rewriting it again changes it. |
| LocalePath.LocalizedExample | src/logic/helper.ts:99-105 | `/img/photo.png` in `fr` becomes `/img/photo.fr.png`, and `/img/photo` is left alone. |
| Shuffle.RandomIndex | src/logic/helper.ts:183 | `Math.floor(sample * currentIndex)` lies in `[0, currentIndex)` for a sample in `[0, 1)`, and is `currentIndex` for a sample of exactly 1. |
| Shuffle.ScaledBounds | src/logic/helper.ts:183 | A sample in `[0, 1]` scales into `[0, currentIndex]`, strictly below it for a sample below 1. |
| Shuffle.InUnitInterval | src/logic/helper.ts:183 | Every sample lies in `[0, 1)`, the range of `Math.random()`; the contracts of `Shuffle.Shuffle` and `Shuffle.Shuffled` assume it of their samples. |
| Shuffle.Swap | src/logic/helper.ts:186 | The destructuring swap exchanges the two positions, keeps every other position, and keeps the multiset of elements. |
| Shuffle.Shuffled | src/logic/helper.ts:178-190 | The reference shuffle keeps the length. |
| Shuffle.ShuffledPermutes | src/logic/helper.ts:178-190 | The shuffle is a permutation of its input, and no position at or beyond the number of passes moves. |
| Shuffle.ShuffledStep | src/logic/helper.ts:182-187 | One pass draws an index below `currentIndex`, swaps it with `currentIndex - 1`, and leaves the remaining samples to shuffle the front. |
| Shuffle.Shuffle | src/logic/helper.ts:178-190 | The copy-and-swap loop returns a fresh array equal to `Shuffled(input, samples)`. It uses one sample per element and only reads the input. |
| Shuffle.ShuffledLast | src/logic/helper.ts:182-187 | The last position of the result holds the element that the first draw picked. |
| Shuffle.ShuffledIdentity | src/logic/helper.ts:182-187 | If every pass draws its own position, the result equals the input. |
| Shuffle.GaussianShuffle | src/logic/helper.ts:192-204 | With samples in `[0, 1)`, `gaussian_shuffle` returns a fresh array equal to `Shuffled(input, samples)`, which is a permutation. |
| Shuffle.JsWrite | src/logic/helper.ts:200 | A JavaScript element write at or inside the end sets that slot and keeps the others. Writing at the end grows the array by one. |
| Shuffle.JsRead | src/logic/helper.ts:200 | A JavaScript element read gives the slot inside the array and `undefined` at or past the end. |
| Shuffle.JsReadAfterWrite | src/logic/helper.ts:200 | After a write, reading the written position gives the written value, and reading any other position gives what was there before. |
| Shuffle.Lift | src/logic/helper.ts:194 | The copied array holds each element as a defined slot. |
| Shuffle.GaussianAccepts | src/logic/helper.ts:212 | `gaussian()` accepts exactly the values in the closed interval `[0, 1]`, 1 included. |
| Shuffle.GaussianShuffleAsWritten | src/logic/helper.ts:192-204 | The as-written loop, with samples anywhere in `[0, 1]`, grows the array by at most one slot and never shrinks it. When fewer passes run than the array has slots, the length does not change. |
| Shuffle.LiftSwap | src/logic/helper.ts:200 | Inside the array, the JavaScript swap is `Swap`. |
| Shuffle.AsWrittenAgrees | src/logic/helper.ts:192-204 | With every sample below 1, the as-written loop equals the reference shuffle on defined slots. |
| Shuffle.GaussianOverflow | src/logic/helper.ts:212 | `gaussian()` accepts 1. A first sample of 1 on `[x]` yields `[undefined, x]`. |
| Shuffle.GaussianOverflowGrows | src/logic/helper.ts:196-212 | On any non-empty array, a first `gaussian()` sample of 1 makes the result one slot longer than the input, whatever later samples in `[0, 1]` `gaussian()` returns. |

## Left out

- The fetch itself is not modelled: `fetchWithParams`, `reconstructUrl`, the URL object and the `info` log line. The rewrite acts on the pathname as a plain string. URL percent-encoding and the normalisation done by the `pathname` setter are not modelled.
- `getLang()` and `Math.random()` are parameters: `lang`, and the `samples` sequence of the shuffles.
- The floating-point arithmetic of `Math.floor(sample * currentIndex)` is modelled with exact reals. For samples below 1, IEEE rounding gives the same index range.
- `gaussian()`'s Box–Muller computation and its recursive resampling are not modelled. Only its acceptance test (line 212) is, in `GaussianShuffleAsWritten` and `GaussianOverflow`.
- The rest of `src/logic/helper.ts` is not part of this model: `abbreviateNumber`, `rand`, `randint`, `gaussian_bm`, the date helpers, `isTd`, the toasts, timers and `handleIconFromString`.
- Strings with characters outside the Basic Multilingual Plane are not represented code unit by code unit. Such a character is a surrogate pair in JavaScript, and a Dafny `char` cannot be a lone surrogate. For such a `ch` (an emoji, say, whose JavaScript length is 2), `trim` never matches and returns its input. `Trim.Trim` with that character written as one `char` would trim it.
- ArrayHelpers.Insert: the index is an integer. A fractional or `NaN` index, which `slice` converts with ToIntegerOrInfinity, is not modelled. Nor is a missing index: `slice(0, undefined)` then takes the whole array as its end, so `insert(a, obj)` returns the parent twice with `obj` between the copies.
- ArrayHelpers.Insert: the parent is a dense array. The spread turns holes of a sparse array into `undefined`, and that is not modelled.
- ArrayHelpers.CheckSubset: both arrays are dense. `every` skips holes in the subset, and `includes` reads holes in the parent as `undefined`; neither is modelled.
- ArrayHelpers.Includes: uses Dafny equality. JavaScript's SameValueZero (where `NaN` includes `NaN`) and reference identity of objects are not modelled.
- Shuffle.Shuffle: the input is a dense array. Holes in sparse arrays, which `slice()` keeps, are not modelled. The rule that the loop runs exactly `array.length` times appears as one sample per pass with `|samples| == a.Length`, not as a separate counter.
- Shuffle.GaussianShuffle: requires samples in `[0, 1)`, which is stronger than what `gaussian()` as written guarantees. The as-written behaviour is `GaussianShuffleAsWritten` (see Findings).
- LocalePath.LocalizedSegments: assumes the language code holds no `/`. The source does not check this, and a `/` in `lang` would add path segments.

## Findings

| source | as written | input that shows it | evidently intended | confidence | as-written member | corrected member |
|---|---|---|---|---|---|---|
| src/logic/helper.ts:212 | `gaussian()` resamples only when `num > 1 \|\| num < 0`, so it can return exactly 1. `gaussian_shuffle` then computes `randomIndex == currentIndex` (line 197) on the first pass. That reads `arr[length]` (undefined) into the last slot and writes past the end. | A one-element array with a first sample of 1: `[x]` becomes `[undefined, x]`. The result has two slots and one of them is `undefined`. | Resample when `num >= 1`, so that samples lie in `[0, 1)` like `Math.random()`. The shuffle is then a permutation of its input. | not executed; 1 is a single floating-point value of the distribution | Shuffle.GaussianOverflow | Shuffle.GaussianShuffle |
