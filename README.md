# Word-occurrence indexer, modelled in Dafny

This project models the core of `app.js` from the wordcounter repository: the
punctuation normaliser `StringUtils.removePunctuation` and the
`DocumentIndex` object, which indexes the words of a document and ranks them
by frequency or by first appearance.

- `string_utils.dfy` (module `StringUtils`): `removePunctuation` as a pure
  function. It deletes the 21 characters `. , - / # ! $ % ^ & * ; : { } = _ `` ` `` ~ ( )`
  (the class at app.js:19, whose range `,-\/` covers `, - . /`). It then
  replaces every maximal run of two or more whitespace characters (the
  JavaScript `\s` class, written out code point by code point) by one space.
- `js_string.dfy` (module `JsString`): the two builtins the indexer calls.
  `split(" ")` always yields at least one piece, so `""` gives `[""]`.
  `toLowerCase()` is modelled on ASCII only.
- `word_index.dfy` (module `WordIndex`): the index as a function of the text
  and the stop length (`BuildIndex`). The loop of `_indexWords` appears as the
  fold `IndexPrefix`; the module also holds the lemmas about the result.
  `DefaultStopLength` is `config.stopLength` = 4 (app.js:7).
- `ranking.dfy` (module `Ranking`): `_objectToArray`, the two comparators,
  and an insertion sort that stands in for `Array.prototype.sort`.
  Truncation follows `max || arr.length` and `splice(0, max)`.
- `document_index.dfy` (module `DocumentIndexing`): the class
  `DocumentIndex`. Its fields `document` and `index` are updated in place by
  `IndexWords`, `SetDocument` and `GetIndex`.
- `wrappers.dfy`: `Option`, which stands for an omitted argument or `null`.
- `worked_examples.dfy`: three concrete cases of the properties above.

Each JavaScript "falsy" argument is modelled as `None` or `Some(0)` (for
numbers) or `Some("")` (for the text argument of `indexWords`). A `null`
index is `None`.

The comparator of `sortByPositions`, `(a.p0 - b.p0) + (b.count - a.count)`,
is the difference of the single key `firstPosition - count` of its two
arguments (`Ranking.Compare`). So it is a consistent preorder. It lets a
frequent word that starts later overtake a rare word that starts earlier
(`WorkedExamples.ExamplePositionOrder`). The model keeps this order exactly.

Three behaviours of app.js worth noting:
- `sortByCount` and `sortByPositions` never build the index. Before an index
  exists they return `[]` (app.js:96 passes `null` to `_objectToArray`).
- A negative `stopLength` is truthy and is used as it is (app.js:47). Then
  even empty tokens are indexed.
- A negative `max` makes `splice` remove nothing, so the result is `[]`.

## Model

| member | source | states |
|---|---|---|
| StringUtils.StripPunctuation | app.js:19 | the result holds no removed punctuation and leaves punctuation-free text unchanged; a single punctuation character is deleted |
| StringUtils.StripPunctuationAppend | app.js:19 | stripping works character by character, so every non-punctuation character, whitespace included, stays in place and in order |
| StringUtils.LeadingWhitespace | app.js:20 | the length of the maximal whitespace run at the start of the text |
| StringUtils.CollapseWhitespace | app.js:20 | the result has no two neighbouring whitespace characters, is no longer than the input, is empty only for empty input, and starts with whitespace exactly when the input does |
| StringUtils.CollapseByRuns | app.js:20 | cut into maximal runs, the text collapses run by run: words and lone whitespace characters are kept, each whitespace run of two or more becomes one space |
| StringUtils.CollapseKeepsWords | app.js:20 | the collapse keeps the words of the text, in order, so no two words are joined and none is split |
| StringUtils.CollapseKeepsVisible | app.js:20 | collapsing whitespace keeps every visible character, in order, and adds none |
| StringUtils.CollapseAddsNoPunctuation | app.js:20 | collapsing whitespace in punctuation-free text gives punctuation-free text |
| StringUtils.CollapseFixesSingleSpaced | app.js:20 | text without double whitespace is left unchanged by the collapse |
| StringUtils.RemovePunctuation | app.js:17-21 | the result holds none of the 21 removed characters and no two neighbouring whitespace characters, keeps every other non-whitespace character in order and adds none, and its words are those of the text with the punctuation deleted |
| StringUtils.RemovePunctuationIdempotent | app.js:17-21 | normalising twice equals normalising once |
| StringUtils.RemovePunctuationFixedPoints | app.js:17-21 | the normaliser leaves a text unchanged exactly when the text holds no punctuation and no double whitespace |
| JsString.Split | app.js:58 | `split(" ")` yields at least one piece |
| JsString.SplitPiecesSpaceFree | app.js:58 | no piece of `split(" ")` holds a space |
| JsString.JoinSplit | app.js:58 | joining the pieces with single spaces restores the text |
| JsString.SplitJoin | app.js:58 | splitting a join of space-free pieces restores the pieces |
| JsString.SplitLength | app.js:58 | there is one piece more than there are spaces, so `""` splits to one empty piece |
| JsString.LowerChar | app.js:65 | ASCII upper-case letters are lowered by 32 code points, every other character is kept, and no upper-case letter remains |
| JsString.Lower | app.js:65 | lowering keeps the length |
| JsString.LowerAt | app.js:65 | each character of the lowered text is the lowered character at the same place |
| JsString.LowerIdempotent | app.js:65 | lowering twice equals lowering once |
| WordIndex.Tokens | app.js:58 | the token sequence is never empty |
| WordIndex.Record | app.js:63-76 | one loop step drops no word and adds at most the lowered token, which it adds exactly when the token is longer than the stop length |
| WordIndex.IndexPrefix | app.js:61-77 | the map after the loop has visited n tokens; IndexPrefixSound, IndexPrefixComplete and IndexPrefixTotal state what it holds |
| WordIndex.RecordWellFormed | app.js:63-76 | one loop step keeps every word longer than the stop length and every entry's count equal to its strictly increasing positions |
| WordIndex.RecordSound | app.js:63-76 | one loop step keeps every recorded position pointing at a long token that lowers to the entry's word |
| WordIndex.IndexPrefixSound | app.js:61-77 | after any number of tokens, every key is longer than the stop length, count equals the number of positions, positions rise strictly, and each position is a visited long token lowering to the key |
| WordIndex.IndexPrefixComplete | app.js:61-77 | after any number of tokens, every visited token longer than the stop length is recorded at its offset under its lowered spelling |
| WordIndex.IndexPrefixTotal | app.js:61-77 | after any number of tokens, the counts add up to the number of visited long tokens |
| WordIndex.BuildIndex | app.js:54-80 | the index of a text is well formed: every word is longer than the stop length and each count equals its number of strictly increasing positions; BuildIndexExact fixes its contents |
| WordIndex.BuildIndexExact | app.js:54-80 | the built index is well formed; a word has position p exactly when p is an offset into the unfiltered split whose token is longer than the stop length and lowers to the word |
| WordIndex.BuildIndexTotal | app.js:58-77 | the sum of all counts equals the number of split tokens longer than the stop length |
| WordIndex.BuildIndexEmpty | app.js:58-77 | the index is empty exactly when no token is longer than the stop length |
| WordIndex.EmptyTextEmptyIndex | app.js:58-63 | the empty text gives the empty index under any non-negative stop length |
| Ranking.ObjectToArray | app.js:111-118 | the array lists every entry of the index exactly once, tagged with its key; a `null` index gives `[]` |
| Ranking.CountCompare | app.js:87-89 | negative, putting the first entry first, exactly when it has the larger count; zero exactly on equal counts |
| Ranking.PositionCompare | app.js:91-93 | negative exactly when the first entry's first offset minus its count is the smaller; zero exactly when they are equal |
| Ranking.Compare | app.js:87-93 | each comparator equals the difference of a single key: minus the count, or first position minus count |
| Ranking.SortedByCountIff | app.js:87-89 | sorted under `_countSort` means counts never increase |
| Ranking.SortedByPositionIff | app.js:91-93 | sorted under `_positionSort` means first position minus count never decreases |
| Ranking.InsertNext | app.js:98 | one insertion pass extends the sorted prefix by one element and permutes the array |
| Ranking.SortInPlace | app.js:98 | the array ends sorted under the comparator and is a permutation of what it held |
| Ranking.Limit | app.js:97-98 | an omitted or zero `max` keeps all n, a positive one keeps min(max, n), a negative one keeps none |
| Ranking.PermutationOfListing | app.js:98 | a permutation of a listing of the index is again a listing of it |
| Ranking.SortedPrefixIsRanking | app.js:98 | the first k elements of a sorted listing are k distinct entries, in order, and no left-out entry ranks before a kept one |
| Ranking.Rank | app.js:95-105 | the result is the first `Limit(max, n)` elements of a listing of the tagged entries sorted under the comparator, so it is a ranking: distinct entries of the index, in order, with no left-out entry ranking before a kept one; a `null` index gives `[]` |
| Ranking.RankingByCount | app.js:95-99 | along a count ranking counts never increase, and no left-out entry has a larger count than a kept one |
| DocumentIndexing.EffectiveStopLength | app.js:47 | an omitted or zero stop length becomes 4; any other is kept |
| DocumentIndexing.ChooseText | app.js:56 | a non-empty text argument is indexed; an omitted or empty one falls back to the stored document |
| DocumentIndexing.IndexTokens | app.js:61-77 | the loop over the split tokens, started from an empty map, ends with exactly the fold of the loop step over every offset, so the map is the index of the token sequence |
| DocumentIndexing.DocumentIndex.constructor | app.js:41-47 | stores the document, starts with no index, fixes the stop length |
| DocumentIndexing.DocumentIndex.IndexWords | app.js:54-80 | the cached index becomes the index of the chosen text, built from an empty map; the document is unchanged and the cache stays well formed |
| DocumentIndexing.DocumentIndex.SetDocument | app.js:82-85 | stores the new document and drops the cached index, nothing else |
| DocumentIndexing.DocumentIndex.GetIndex | app.js:107-109 | returns the cached index unchanged if there is one, otherwise builds and caches the index of the stored document |
| DocumentIndexing.DocumentIndex.SortByCount | app.js:95-99 | without an index returns `[]`; otherwise a count ranking of the index of length `Limit(max, n)` |
| DocumentIndexing.DocumentIndex.SortByPositions | app.js:101-105 | without an index returns `[]`; otherwise a ranking by first position minus count, of length `Limit(max, n)` |
| DocumentIndexing.ReindexScenario | app.js:54-109 | indexing the same text twice gives the same map; after `setDocument` the next `getIndex` reflects the new text |
| WorkedExamples.ExampleIndex | app.js:54-80 | "aa bb ccccc ccccc dddddd" under stop length 4 indexes to ccccc at 2 and 3 and dddddd at 4 |
| WorkedExamples.ExampleTopByCount | app.js:95-99 | the only count ranking of length 1 of that index is the ccccc entry |
| WorkedExamples.ExamplePositionOrder | app.js:91-93 | a word seen once at offset 0 is ranked after a word seen three times from offset 1 |

## Left out

- `HTTPDocument` (app.js:129-168): network I/O, asynchronous callbacks and accumulating chunks.
- `StringUtils.parseURL` (app.js:29-31): it wraps Node's `url` module, which is not part of this model.
- `StringUtils.removeHTML` (app.js:24-27): it only feeds the network path. The document is taken to be plain text.
- The `Tests` block (app.js:170-191): console output and live HTTP fetches.
- WordIndex.Record: compares a token's length with the stop length in characters (Unicode scalar values). JavaScript's `length` (app.js:63) counts UTF-16 code units, so a token holding characters outside the Basic Multilingual Plane is longer in the source than in the model, and the two can disagree about whether it is indexed. They agree on tokens made of Basic Multilingual Plane characters.
- JsString.Lower: lowers ASCII letters only. Non-ASCII letters, and the cases where Unicode lowering changes the length, are not modelled.
- Documents that are not strings. In the source, an `undefined` document makes `removePunctuation` throw. The model's document is always a string.
- Inherited object keys. The source's map is a plain object. A token that lowers to "constructor" finds the inherited constructor function at app.js:67, so the `else` branch runs. app.js:74 sets its `count` to NaN, and app.js:75 throws a TypeError because its `positions` is undefined. So `indexWords`, and `getIndex` through it, throw on such a document. The model uses a plain map and indexes the word like any other. No other prototype member is reachable: lowering and the punctuation class rule out the rest.
- Positions are string keys of the `for ... in` loop in the source. The model stores them as naturals, and the subtraction at app.js:92 coerces them to numbers anyway.
- Ranking.ObjectToArray: the source writes `word` into the index's own entry objects, so the index keeps these tags after a ranking. The model returns tagged copies and leaves the index unchanged. The key order of the walk is left open.
- Ranking.SortInPlace: the engine's sorting algorithm and its tie order are not modelled. Only "sorted under the comparator, and a permutation" is promised, so ties may come out in either order.
- Non-integer or non-numeric `max` and `stopLength` values. Both are modelled as optional integers.
