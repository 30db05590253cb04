/**
  The worked examples of the indexer: the index of a short text, its top
  entry by count, and how the position order lets a frequent later word
  overtake an earlier one.
 */
module WorkedExamples {
  import opened WordIndex
  import opened Ranking
  import StringUtils
  import JsString

  const ExampleDocument: string := "aa bb ccccc ccccc dddddd"
  const ExampleTokens: seq<string> := ["aa", "bb", "ccccc", "ccccc", "dddddd"]

  /** Every character of the example text is a lower-case letter or a space,
      and no space follows a space. */
  lemma ExampleLettersAndSpaces()
    ensures forall i :: 0 <= i < |ExampleDocument| ==>
      ExampleDocument[i] == ' ' || 'a' <= ExampleDocument[i] <= 'z'
    ensures forall i :: 0 <= i < |ExampleDocument| - 1 ==>
      ExampleDocument[i] != ' ' || ExampleDocument[i + 1] != ' '
  {
  }

  /** The example text holds no punctuation and no double whitespace. */
  lemma ExampleText()
    ensures StringUtils.RemovePunctuation(ExampleDocument) == ExampleDocument
  {
    ExampleLettersAndSpaces();
    assert StringUtils.NoPunctuation(ExampleDocument);
    assert StringUtils.NoDoubleWhitespace(ExampleDocument);
    StringUtils.RemovePunctuationFixedPoints(ExampleDocument);
  }

  /** It splits into five tokens. */
  lemma ExampleSplit()
    ensures JsString.Split(ExampleDocument) == ExampleTokens
  {
    assert JsString.Join(ExampleTokens) == ExampleDocument;
    JsString.SplitJoin(ExampleTokens);
  }

  lemma ExamplePrefix3()
    ensures IndexPrefix(ExampleTokens, 4, 3) == map["ccccc" := Entry(1, [2])]
  {
    assert JsString.Lower("ccccc") == "ccccc";
  }

  lemma ExamplePrefix4()
    ensures IndexPrefix(ExampleTokens, 4, 4) == map["ccccc" := Entry(2, [2, 3])]
  {
    ExamplePrefix3();
    assert JsString.Lower("ccccc") == "ccccc";
    assert ExampleTokens[3] == "ccccc";
    assert [2] + [3] == [2, 3];
  }

  lemma ExamplePrefix5()
    ensures IndexPrefix(ExampleTokens, 4, 5) == map["ccccc" := Entry(2, [2, 3]), "dddddd" := Entry(1, [4])]
  {
    ExamplePrefix4();
    assert JsString.Lower("dddddd") == "dddddd";
  }

  /** "aa" and "bb" are too short under the default stop length; "ccccc"
      occurs at offsets 2 and 3 and "dddddd" at offset 4. */
  lemma ExampleIndex()
    ensures BuildIndex(ExampleDocument, DefaultStopLength) ==
      map["ccccc" := Entry(2, [2, 3]), "dddddd" := Entry(1, [4])]
  {
    ExampleText();
    ExampleSplit();
    assert Tokens(ExampleDocument) == ExampleTokens;
    ExamplePrefix5();
  }

  /** `sortByCount(1)` on the example index can only be the entry for
      "ccccc". */
  lemma ExampleTopByCount(r: seq<RankedEntry>)
    requires IsRanking(ByCount, r, map["ccccc" := Entry(2, [2, 3]), "dddddd" := Entry(1, [4])], 1)
    ensures r == [RankedEntry("ccccc", 2, [2, 3])]
  {
    var m := map["ccccc" := Entry(2, [2, 3]), "dddddd" := Entry(1, [4])];
    assert IsEntryOf(r[0], m);
    var c := Tag("ccccc", m["ccccc"]);
    if c !in r {
      assert false;
    }
  }

  /** The position comparator subtracts the count from the first offset, so a
      word first seen at offset 1 but seen three times ranks before a word
      seen once at offset 0. */
  lemma ExamplePositionOrder(r: seq<RankedEntry>)
    requires IsRanking(ByPosition, r, map["alpha" := Entry(1, [0]), "gamma" := Entry(3, [1, 3, 5])], 1)
    ensures r == [RankedEntry("gamma", 3, [1, 3, 5])]
  {
    var m := map["alpha" := Entry(1, [0]), "gamma" := Entry(3, [1, 3, 5])];
    assert IsEntryOf(r[0], m);
    var g := Tag("gamma", m["gamma"]);
    if g !in r {
      assert false;
    }
  }
}
