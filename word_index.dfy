/**
  What `_indexWords` (app.js:54-80) computes, as a function of the text and
  the stop length, and the properties of that index.
 */
module WordIndex {
  import StringUtils
  import JsString

  /** `config.stopLength` (app.js:7), used when the constructor's stop length
      is omitted or 0 (app.js:47). */
  const DefaultStopLength: int := 4

  /** The record kept per word: how often it occurs and at which offsets of
      the split token sequence (app.js:68-71). */
  datatype Entry = Entry(count: nat, positions: seq<nat>)

  /** The index object: word to entry. */
  type Index = map<string, Entry>

  /** The token sequence of app.js:58: the normalised text split on " ". */
  function Tokens(text: string): (words: seq<string>)
    ensures |words| >= 1
  {
    JsString.Split(StringUtils.RemovePunctuation(text))
  }

  predicate StrictlyIncreasing(s: seq<nat>)
  {
    forall i, j :: 0 <= i < j < |s| ==> s[i] < s[j]
  }

  predicate WellFormedEntry(e: Entry)
  {
    e.count == |e.positions| && e.count >= 1 && StrictlyIncreasing(e.positions)
  }

  /** The invariants of every built index: each word is longer than the stop
      length, and each entry counts its positions, which rise strictly. */
  predicate WellFormedIndex(m: Index, stop: int)
  {
    forall w :: w in m ==> |w| > stop && WellFormedEntry(m[w])
  }

  /** Number of the first `n` tokens longer than `stop`. */
  function LongTokens(words: seq<string>, stop: int, n: nat): nat
    requires n <= |words|
  {
    if n == 0 then 0 else LongTokens(words, stop, n - 1) + (if |words[n - 1]| > stop then 1 else 0)
  }

  ghost function Pick(m: Index): string
    requires m != map[]
  {
    var w :| w in m; w
  }

  /** Sum of the counts of all entries. */
  ghost function TotalCount(m: Index): nat
    decreases |m|
  {
    if m == map[] then 0
    else
      var w := Pick(m);
      m[w].count + TotalCount(m - {w})
  }

  /** The sum does not depend on which entry is taken first. */
  lemma {:induction false} TotalCountRemove(m: Index, w: string)
    requires w in m
    ensures TotalCount(m) == m[w].count + TotalCount(m - {w})
    decreases |m|
  {
    var v := Pick(m);
    if v != w {
      TotalCountRemove(m - {v}, w);
      TotalCountRemove(m - {w}, v);
      assert m - {v} - {w} == m - {w} - {v};
    }
  }

  lemma TotalCountUpdate(m: Index, w: string, e: Entry)
    ensures TotalCount(m[w := e]) == TotalCount(m) - (if w in m then m[w].count else 0) + e.count
  {
    TotalCountRemove(m[w := e], w);
    assert m[w := e] - {w} == m - {w};
    if w in m {
      TotalCountRemove(m, w);
    } else {
      assert m - {w} == m;
    }
  }

  /** One pass of the loop body at app.js:63-76 for the token at offset `i`:
      a token no longer than `stop` is skipped, any other is lowered and either
      opens an entry or bumps the count and appends the offset. No word is
      ever dropped, and the only word that can be added is the lowered token,
      exactly when it is longer than `stop`. */
  function Record(m: Index, token: string, i: nat, stop: int): (r: Index)
    ensures m.Keys <= r.Keys
    ensures |token| <= stop ==> r.Keys == m.Keys
    ensures |token| > stop ==> r.Keys == m.Keys + {JsString.Lower(token)}
  {
    if |token| <= stop then m
    else
      var w := JsString.Lower(token);
      if w !in m then m[w := Entry(1, [i])]
      else m[w := Entry(m[w].count + 1, m[w].positions + [i])]
  }

  /** The map after the loop has visited the first `n` tokens. */
  function IndexPrefix(words: seq<string>, stop: int, n: nat): Index
    requires n <= |words|
    decreases n
  {
    if n == 0 then map[] else Record(IndexPrefix(words, stop, n - 1), words[n - 1], n - 1, stop)
  }

  /** The index of `text` under stop length `stop`: a fresh map filled by one
      pass over all tokens. It is well formed. */
  function BuildIndex(text: string, stop: int): (r: Index)
    ensures WellFormedIndex(r, stop)
  {
    var words := Tokens(text);
    IndexPrefixSound(words, stop, |words|);
    IndexPrefix(words, stop, |words|)
  }

  /** Each position of each entry is the offset of a token among the first
      `n` that is longer than `stop` and lowers to the entry's word. */
  predicate PositionsSound(m: Index, words: seq<string>, stop: int, n: nat)
    requires n <= |words|
  {
    forall w, k :: w in m && 0 <= k < |m[w].positions| ==>
      m[w].positions[k] < n && |words[m[w].positions[k]]| > stop &&
      JsString.Lower(words[m[w].positions[k]]) == w
  }

  /** Each token among the first `n` that is longer than `stop` has its
      offset recorded under its lowered spelling. */
  predicate PositionsComplete(m: Index, words: seq<string>, stop: int, n: nat)
    requires n <= |words|
  {
    forall p :: 0 <= p < n && |words[p]| > stop ==>
      JsString.Lower(words[p]) in m && p in m[JsString.Lower(words[p])].positions
  }

  /** One loop step keeps the map well formed. */
  lemma RecordWellFormed(m: Index, words: seq<string>, stop: int, n: nat)
    requires 0 < n <= |words|
    requires WellFormedIndex(m, stop) && PositionsSound(m, words, stop, n - 1)
    ensures WellFormedIndex(Record(m, words[n - 1], n - 1, stop), stop)
  {
    var token := words[n - 1];
    if |token| > stop {
      var w := JsString.Lower(token);
      if w in m {
        var ps := m[w].positions + [n - 1];
        assert forall k :: 0 <= k < |m[w].positions| ==> m[w].positions[k] < n - 1;
        assert StrictlyIncreasing(ps);
      }
    }
  }

  /** One loop step keeps the positions sound. */
  lemma RecordSound(m: Index, words: seq<string>, stop: int, n: nat)
    requires 0 < n <= |words|
    requires PositionsSound(m, words, stop, n - 1)
    ensures PositionsSound(Record(m, words[n - 1], n - 1, stop), words, stop, n)
  {
  }

  /** Soundness and well-formedness of the map after `n` tokens. */
  lemma {:induction false} IndexPrefixSound(words: seq<string>, stop: int, n: nat)
    requires n <= |words|
    ensures WellFormedIndex(IndexPrefix(words, stop, n), stop)
    ensures PositionsSound(IndexPrefix(words, stop, n), words, stop, n)
  {
    if n > 0 {
      IndexPrefixSound(words, stop, n - 1);
      RecordWellFormed(IndexPrefix(words, stop, n - 1), words, stop, n);
      RecordSound(IndexPrefix(words, stop, n - 1), words, stop, n);
    }
  }

  /** Completeness of the map after `n` tokens. */
  lemma {:induction false} IndexPrefixComplete(words: seq<string>, stop: int, n: nat)
    requires n <= |words|
    ensures PositionsComplete(IndexPrefix(words, stop, n), words, stop, n)
  {
    if n > 0 {
      IndexPrefixComplete(words, stop, n - 1);
    }
  }

  /** The counts add up to the number of tokens longer than `stop`. */
  lemma {:induction false} IndexPrefixTotal(words: seq<string>, stop: int, n: nat)
    requires n <= |words|
    ensures TotalCount(IndexPrefix(words, stop, n)) == LongTokens(words, stop, n)
  {
    if n > 0 {
      IndexPrefixTotal(words, stop, n - 1);
      var m := IndexPrefix(words, stop, n - 1);
      var token := words[n - 1];
      if |token| > stop {
        var w := JsString.Lower(token);
        if w in m {
          TotalCountUpdate(m, w, Entry(m[w].count + 1, m[w].positions + [n - 1]));
        } else {
          TotalCountUpdate(m, w, Entry(1, [n - 1]));
        }
      }
    }
  }

  /** Every built index is well formed; each position `p` of word `w` is a
      valid offset into the token sequence whose token is longer than `stop`
      and lowers to `w`, and every such token is recorded. */
  lemma BuildIndexExact(text: string, stop: int)
    ensures WellFormedIndex(BuildIndex(text, stop), stop)
    ensures PositionsSound(BuildIndex(text, stop), Tokens(text), stop, |Tokens(text)|)
    ensures PositionsComplete(BuildIndex(text, stop), Tokens(text), stop, |Tokens(text)|)
  {
    var words := Tokens(text);
    IndexPrefixSound(words, stop, |words|);
    IndexPrefixComplete(words, stop, |words|);
  }

  /** The counts of a built index add up to the number of tokens longer than
      the stop length. */
  lemma BuildIndexTotal(text: string, stop: int)
    ensures TotalCount(BuildIndex(text, stop)) == LongTokens(Tokens(text), stop, |Tokens(text)|)
  {
    IndexPrefixTotal(Tokens(text), stop, |Tokens(text)|);
  }

  /** The index is empty exactly when no token is longer than the stop length. */
  lemma BuildIndexEmpty(text: string, stop: int)
    ensures BuildIndex(text, stop) == map[] <==>
      forall p :: 0 <= p < |Tokens(text)| ==> |Tokens(text)[p]| <= stop
  {
    BuildIndexExact(text, stop);
    var words := Tokens(text);
    var m := BuildIndex(text, stop);
    if m != map[] {
      var w := Pick(m);
      assert 0 < |m[w].positions|;
      assert |words[m[w].positions[0]]| > stop;
    }
  }

  /** The empty text splits to one empty token and so gives an empty index
      under any stop length that is not negative. */
  lemma EmptyTextEmptyIndex(stop: int)
    requires stop >= 0
    ensures BuildIndex("", stop) == map[]
  {
  }
}
