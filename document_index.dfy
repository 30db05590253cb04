/**
  The `DocumentIndex` object (app.js:41-127): a document, a cached index that
  is built on demand, and the two ranked views of that index.
 */
module DocumentIndexing {
  import opened Wrappers
  import opened WordIndex
  import opened Ranking
  import StringUtils
  import JsString

  /** The stop length in force: a falsy (omitted or 0) request falls back to
      `config.stopLength` (app.js:47). */
  function EffectiveStopLength(requested: Option<int>): (stop: int)
    ensures requested.None? || requested == Some(0) ==> stop == DefaultStopLength
    ensures requested.Some? && requested.value != 0 ==> stop == requested.value
    ensures stop != 0
  {
    if requested.None? || requested.value == 0 then DefaultStopLength else requested.value
  }

  /** `_doc || that.document` (app.js:56): an omitted or empty argument falls
      back to the stored document. */
  function ChooseText(arg: Option<string>, document: string): (text: string)
    ensures arg.Some? && arg.value != [] ==> text == arg.value
    ensures arg.None? || arg == Some([]) ==> text == document
    ensures text == [] ==> document == []
  {
    if arg.None? || arg.value == [] then document else arg.value
  }

  /** The loop of `indexWords` (app.js:61-77): starting from an empty map,
      visit every offset of the token sequence in order, skip tokens no longer
      than `stop`, and record each other token under its lowered spelling. */
  method IndexTokens(words: seq<string>, stop: int) returns (m: Index)
    ensures m == IndexPrefix(words, stop, |words|)
  {
    m := map[];
    var i := 0;
    while i < |words|
      invariant 0 <= i <= |words|
      invariant m == IndexPrefix(words, stop, i)
    {
      ghost var next := Record(m, words[i], i, stop);
      assert IndexPrefix(words, stop, i + 1) == next;
      if |words[i]| <= stop {
        assert next == m;
        i := i + 1;
        continue;
      }
      var word := JsString.Lower(words[i]);
      if word !in m {
        m := m[word := Entry(1, [i])];
      } else {
        m := m[word := Entry(m[word].count + 1, m[word].positions + [i])];
      }
      assert m == next;
      i := i + 1;
    }
  }

  class DocumentIndex {
    var document: string
    /** `null` until built, and again after `setDocument`. */
    var index: Option<Index>
    const stopLength: int

    /** A cached index is always well formed for this object's stop length. */
    ghost predicate Valid()
      reads this
    {
      index.Some? ==> WellFormedIndex(index.value, stopLength)
    }

    /** `new DocumentIndex(_document, stopLength)` (app.js:41-47). */
    constructor (doc: string, requestedStop: Option<int>)
      ensures Valid()
      ensures document == doc && index == None
      ensures stopLength == EffectiveStopLength(requestedStop)
    {
      document := doc;
      index := None;
      stopLength := EffectiveStopLength(requestedStop);
    }

    /** `indexWords` (app.js:54-80): normalise the text, split it on " ",
        and record every token longer than the stop length under its lowered
        spelling at its offset in the unfiltered split. The map starts empty on
        every call and replaces the cached index; the document is untouched. */
    method IndexWords(doc: Option<string>) returns (m: Index)
      modifies this
      ensures m == BuildIndex(ChooseText(doc, old(document)), stopLength)
      ensures index == Some(m) && document == old(document)
      ensures Valid()
    {
      var text := ChooseText(doc, document);
      var words := Tokens(text);
      m := IndexTokens(words, stopLength);
      assert m == BuildIndex(text, stopLength);
      index := Some(m);
    }

    /** `setDocument` (app.js:82-85): store the text and drop the cached
        index. */
    method SetDocument(doc: string)
      modifies this
      ensures document == doc && index == None
      ensures Valid()
    {
      document := doc;
      index := None;
    }

    /** `getIndex` (app.js:107-109): the cached index if there is one,
        otherwise the index of the stored document, which is then cached. */
    method GetIndex() returns (m: Index)
      requires Valid()
      modifies this
      ensures old(index).Some? ==> m == old(index).value
      ensures old(index).None? ==> m == BuildIndex(document, stopLength)
      ensures index == Some(m) && document == old(document)
      ensures Valid()
    {
      if index.Some? {
        m := index.value;
      } else {
        m := IndexWords(None);
      }
    }

    /** `sortByCount` (app.js:95-99): the entries of the cached index, tagged
        with their words, most frequent first, cut to `max`. Nothing is built:
        without a cached index the result is empty. */
    method SortByCount(max: Option<int>) returns (r: seq<RankedEntry>)
      ensures index.None? ==> r == []
      ensures index.Some? ==> IsRanking(ByCount, r, index.value, Limit(max, |index.value|))
    {
      r := Rank(index, ByCount, max);
    }

    /** `sortByPositions` (app.js:101-105): as `SortByCount`, but ordered by
        the comparator of app.js:91-93, that is by first offset minus count. */
    method SortByPositions(max: Option<int>) returns (r: seq<RankedEntry>)
      ensures index.None? ==> r == []
      ensures index.Some? ==> IsRanking(ByPosition, r, index.value, Limit(max, |index.value|))
    {
      r := Rank(index, ByPosition, max);
    }
  }

  /** What a caller of the object can rely on: a second `indexWords` on the
      same text gives the same map, and after `setDocument` the next
      `getIndex` reflects the new text, not the old one. */
  method ReindexScenario(d: DocumentIndex, text: string, newText: string)
    returns (first: Index, second: Index, rebuilt: Index)
    modifies d
    ensures first == second == BuildIndex(ChooseText(Some(text), old(d.document)), d.stopLength)
    ensures rebuilt == BuildIndex(newText, d.stopLength)
    ensures d.document == newText && d.index == Some(rebuilt)
  {
    first := d.IndexWords(Some(text));
    second := d.IndexWords(Some(text));
    d.SetDocument(newText);
    rebuilt := d.GetIndex();
  }
}
