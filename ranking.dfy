/**
  The ranked views of an index: `_objectToArray` (app.js:111-118), the two
  comparators (app.js:87-93) and the sort-then-truncate of `_sortByCount`
  and `_sortByPositions` (app.js:95-105).
 */
module Ranking {
  import opened Wrappers
  import opened WordIndex

  /** An index entry tagged with its word, as `_objectToArray` leaves it
      (app.js:114). */
  datatype RankedEntry = RankedEntry(word: string, count: nat, positions: seq<nat>)

  function Tag(w: string, e: Entry): RankedEntry
  {
    RankedEntry(w, e.count, e.positions)
  }

  /** `r` is the entry of `m` under its own word. */
  predicate IsEntryOf(r: RankedEntry, m: Index)
  {
    r.word in m && Tag(r.word, m[r.word]) == r
  }

  predicate DistinctWords(s: seq<RankedEntry>)
  {
    forall i, j :: 0 <= i < j < |s| ==> s[i].word != s[j].word
  }

  /** `s` lists every entry of `m` exactly once, each tagged with its word,
      in some order. */
  predicate IsListingOf(s: seq<RankedEntry>, m: Index)
  {
    && |s| == |m|
    && DistinctWords(s)
    && (forall i :: 0 <= i < |s| ==> IsEntryOf(s[i], m))
    && (forall w :: w in m ==> Tag(w, m[w]) in s)
  }

  /** `_objectToArray` (app.js:111-118): walk the keys of the index, tag each
      entry with its key and push it. The key order of the walk is left open;
      a `null` index has no keys, so it gives the empty array. */
  method ObjectToArray(obj: Option<Index>) returns (arr: seq<RankedEntry>)
    ensures obj.None? ==> arr == []
    ensures obj.Some? ==> IsListingOf(arr, obj.value)
  {
    arr := [];
    if obj.None? {
      return;
    }
    var m := obj.value;
    var rest := m.Keys;
    while rest != {}
      invariant rest <= m.Keys
      invariant |arr| + |rest| == |m|
      invariant DistinctWords(arr)
      invariant forall i :: 0 <= i < |arr| ==> IsEntryOf(arr[i], m) && arr[i].word !in rest
      invariant forall w :: w in m && w !in rest ==> Tag(w, m[w]) in arr
      decreases |rest|
    {
      var w :| w in rest;
      arr := arr + [Tag(w, m[w])];
      rest := rest - {w};
    }
  }

  /** The first offset at which an entry's word occurs. Every entry of a built
      index has one; the 0 for an entry without positions is never used. */
  function FirstPosition(e: RankedEntry): int
  {
    if |e.positions| > 0 then e.positions[0] else 0
  }

  /** `_countSort` (app.js:87-89): negative puts `a` first, which happens
      exactly when `a` occurs more often; zero exactly on equal counts. */
  function CountCompare(a: RankedEntry, b: RankedEntry): (c: int)
    ensures c < 0 <==> a.count > b.count
    ensures c == 0 <==> a.count == b.count
  {
    b.count - a.count
  }

  /** `_positionSort` (app.js:91-93): negative puts `a` first, which happens
      exactly when its first offset less its count is the smaller; an earlier
      start can be outweighed by a larger count. */
  function PositionCompare(a: RankedEntry, b: RankedEntry): (c: int)
    ensures c < 0 <==> FirstPosition(a) - a.count < FirstPosition(b) - b.count
    ensures c == 0 <==> FirstPosition(a) - a.count == FirstPosition(b) - b.count
  {
    (FirstPosition(a) - FirstPosition(b)) + (b.count - a.count)
  }

  /** The two orders the index is ranked by. */
  datatype Order = ByCount | ByPosition

  /** The single sort key behind each comparator: smaller keys come first. By
      count the key is the negated count; by position it is the first offset
      minus the count. */
  function Key(order: Order, e: RankedEntry): int
  {
    match order
    case ByCount => -(e.count as int)
    case ByPosition => FirstPosition(e) - e.count
  }

  /** The comparator of each order. Each is the difference of the keys of its
      arguments, so it is a consistent total preorder: negative means `a`
      first, positive means `b` first. */
  function Compare(order: Order, a: RankedEntry, b: RankedEntry): (c: int)
    ensures c == Key(order, a) - Key(order, b)
    ensures c <= 0 <==> Key(order, a) <= Key(order, b)
  {
    match order
    case ByCount => CountCompare(a, b)
    case ByPosition => PositionCompare(a, b)
  }

  /** No pair of elements is out of order under the comparator of `order`. */
  predicate SortedBy(order: Order, s: seq<RankedEntry>)
  {
    forall i, j :: 0 <= i < j < |s| ==> Compare(order, s[i], s[j]) <= 0
  }

  /** `SortedBy` stated on the key directly; by `Compare` the two agree. The
      insertion proofs below work with this form. */
  predicate KeySorted(order: Order, s: seq<RankedEntry>)
  {
    forall i, j :: 0 <= i < j < |s| ==> Key(order, s[i]) <= Key(order, s[j])
  }

  /** Sorted by count means the counts never increase. */
  lemma SortedByCountIff(s: seq<RankedEntry>)
    ensures SortedBy(ByCount, s) <==> forall i, j :: 0 <= i < j < |s| ==> s[i].count >= s[j].count
  {
  }

  /** Sorted by position means the key first-offset-minus-count never
      decreases. */
  lemma SortedByPositionIff(s: seq<RankedEntry>)
    ensures SortedBy(ByPosition, s) <==>
      forall i, j :: 0 <= i < j < |s| ==>
        FirstPosition(s[i]) - s[i].count <= FirstPosition(s[j]) - s[j].count
  {
  }

  method Swap(a: array<RankedEntry>, i: int, j: int)
    requires 0 <= i < j < a.Length
    modifies a
    ensures a[..] == old(a[..])[i := old(a[j])][j := old(a[i])]
    ensures multiset(a[..]) == old(multiset(a[..]))
  {
    a[i], a[j] := a[j], a[i];
  }

  /** Midway through inserting the element at `n` into the sorted prefix
      before it: that element now sits at `j`; every other pair up to `n` is in
      order, everything before `j` ranks no later than everything after it,
      and the moving element ranks no later than what follows it. */
  predicate Inserting(order: Order, s: seq<RankedEntry>, j: int, n: int)
    requires 0 <= j <= n < |s|
  {
    && (forall p, q :: 0 <= p < q <= n && p != j && q != j ==> Key(order, s[p]) <= Key(order, s[q]))
    && (forall p, q :: 0 <= p < j < q <= n ==> Key(order, s[p]) <= Key(order, s[q]))
    && (forall q :: j < q <= n ==> Key(order, s[j]) <= Key(order, s[q]))
  }

  lemma InsertingStart(order: Order, s: seq<RankedEntry>, n: int)
    requires 0 <= n < |s| && KeySorted(order, s[..n])
    ensures Inserting(order, s, n, n)
  {
    forall p, q | 0 <= p < q < n
      ensures Key(order, s[p]) <= Key(order, s[q])
    {
      assert s[p] == s[..n][p] && s[q] == s[..n][q];
    }
  }

  /** Swapping the moving element with a neighbour that ranks strictly later
      keeps the insertion invariant one place further left. */
  lemma InsertingStep(order: Order, s: seq<RankedEntry>, j: int, n: int)
    requires 0 < j <= n < |s| && Inserting(order, s, j, n)
    requires Key(order, s[j - 1]) > Key(order, s[j])
    ensures Inserting(order, s[j - 1 := s[j]][j := s[j - 1]], j - 1, n)
  {
  }

  /** Once the moving element is at the front or its left neighbour ranks no
      later, the prefix up to `n` is sorted. */
  lemma InsertingDone(order: Order, s: seq<RankedEntry>, j: int, n: int)
    requires 0 <= j <= n < |s| && Inserting(order, s, j, n)
    requires j == 0 || Key(order, s[j - 1]) <= Key(order, s[j])
    ensures KeySorted(order, s[..n + 1])
  {
    forall p, q | 0 <= p < q <= n
      ensures Key(order, s[p]) <= Key(order, s[q])
    {
      if q == j && p < j - 1 {
        assert Key(order, s[p]) <= Key(order, s[j - 1]);
      }
    }
  }

  /** One pass of insertion: the element at `n` is swapped leftwards while
      the comparator puts it before its neighbour, which extends the sorted
      prefix by one. */
  method InsertNext(a: array<RankedEntry>, order: Order, n: int)
    requires 0 <= n < a.Length
    requires KeySorted(order, a[..n])
    modifies a
    ensures KeySorted(order, a[..n + 1])
    ensures multiset(a[..]) == old(multiset(a[..]))
  {
    var j := n;
    InsertingStart(order, a[..], n);
    while j > 0 && Compare(order, a[j - 1], a[j]) > 0
      invariant 0 <= j <= n
      invariant multiset(a[..]) == old(multiset(a[..]))
      invariant Inserting(order, a[..], j, n)
    {
      ghost var s := a[..];
      ghost var t := s[j - 1 := s[j]][j := s[j - 1]];
      InsertingStep(order, s, j, n);
      Swap(a, j - 1, j);
      assert a[..] == t;
      j := j - 1;
    }
    InsertingDone(order, a[..], j, n);
  }

  /** `arr.sort(cmp)` (app.js:98, 104), by insertion. Only the outcome is
      promised: sorted under the comparator and a permutation. */
  method SortInPlace(a: array<RankedEntry>, order: Order)
    modifies a
    ensures SortedBy(order, a[..])
    ensures multiset(a[..]) == old(multiset(a[..]))
  {
    var n := 0;
    while n < a.Length
      invariant 0 <= n <= a.Length
      invariant KeySorted(order, a[..n])
      invariant multiset(a[..]) == old(multiset(a[..]))
    {
      InsertNext(a, order, n);
      n := n + 1;
    }
    assert a[..] == a[..a.Length];
  }

  /** `max = max || arr.length` (app.js:97, 103) followed by `splice(0, max)`:
      an omitted or zero `max` keeps everything, a larger one than there are
      entries keeps them all, a negative one keeps nothing. */
  function Limit(max: Option<int>, n: nat): (k: nat)
    ensures k <= n
    ensures max.None? || max == Some(0) ==> k == n
    ensures max.Some? && 0 < max.value <= n ==> k == max.value
    ensures max.Some? && max.value > n ==> k == n
    ensures max.Some? && max.value < 0 ==> k == 0
  {
    var wanted := if max.None? || max.value == 0 then n else max.value;
    if wanted < 0 then 0 else if wanted < n then wanted else n
  }

  /** What a ranked view promises: `k` distinct entries of `m`, each tagged
      with its word, in order, and no entry left out ranks strictly before one
      that was kept. The first `k` elements of every sorted listing of `m`
      satisfy it (`SortedPrefixIsRanking`); which entries win a tie is left
      open. */
  predicate IsRanking(order: Order, r: seq<RankedEntry>, m: Index, k: nat)
  {
    && |r| == k
    && SortedBy(order, r)
    && DistinctWords(r)
    && (forall i :: 0 <= i < |r| ==> IsEntryOf(r[i], m))
    && (forall w, i :: w in m && Tag(w, m[w]) !in r && 0 <= i < |r| ==>
          Compare(order, r[i], Tag(w, m[w])) <= 0)
  }

  lemma {:induction false} DistinctAtMostOnce(s: seq<RankedEntry>, x: RankedEntry)
    requires DistinctWords(s)
    ensures multiset(s)[x] <= 1
  {
    if s != [] {
      assert s == [s[0]] + s[1..];
      assert DistinctWords(s[1..]);
      DistinctAtMostOnce(s[1..], x);
      if x == s[0] {
        assert x !in s[1..];
      }
    }
  }

  lemma RepeatCountsTwice(s: seq<RankedEntry>, i: int, j: int)
    requires 0 <= i < j < |s| && s[i] == s[j]
    ensures multiset(s)[s[i]] >= 2
  {
    assert s == s[..j] + s[j..];
    assert s[i] in s[..j];
    assert s[j..][0] == s[j];
  }

  /** A permutation of a listing of `m` is again a listing of `m`. */
  lemma PermutationOfListing(arr: seq<RankedEntry>, s: seq<RankedEntry>, m: Index)
    requires IsListingOf(arr, m)
    requires multiset(arr) == multiset(s)
    ensures IsListingOf(s, m)
  {
    assert |s| == |multiset(s)| == |multiset(arr)| == |arr|;
    forall i | 0 <= i < |s|
      ensures IsEntryOf(s[i], m)
    {
      assert s[i] in multiset(arr);
    }
    forall w | w in m
      ensures Tag(w, m[w]) in s
    {
      assert Tag(w, m[w]) in multiset(s);
    }
    forall i, j | 0 <= i < j < |s|
      ensures s[i].word != s[j].word
    {
      if s[i].word == s[j].word {
        assert s[i] == s[j];
        RepeatCountsTwice(s, i, j);
        DistinctAtMostOnce(arr, s[i]);
        assert false;
      }
    }
  }

  /** The first `k` elements of a sorted listing of `m` are a ranking of `m`. */
  lemma SortedPrefixIsRanking(order: Order, s: seq<RankedEntry>, m: Index, k: nat)
    requires IsListingOf(s, m) && SortedBy(order, s) && k <= |s|
    ensures IsRanking(order, s[..k], m, k)
  {
  }

  /** The body shared by `_sortByCount` and `_sortByPositions` (app.js:95-105):
      list the index, sort the list with the order's comparator, keep the
      first `Limit(max, n)` entries. A `null` index gives `[]`. */
  method Rank(index: Option<Index>, order: Order, max: Option<int>) returns (r: seq<RankedEntry>)
    ensures index.None? ==> r == []
    ensures index.Some? ==> IsRanking(order, r, index.value, Limit(max, |index.value|))
    ensures index.Some? ==> exists s :: IsListingOf(s, index.value) && SortedBy(order, s) && |r| <= |s| && r == s[..|r|]
  {
    var arr := ObjectToArray(index);
    var a := new RankedEntry[|arr|](i requires 0 <= i < |arr| => arr[i]);
    assert a[..] == arr;
    SortInPlace(a, order);
    var k := Limit(max, a.Length);
    r := a[..k];
    if index.Some? {
      PermutationOfListing(arr, a[..], index.value);
      SortedPrefixIsRanking(order, a[..], index.value, k);
      assert IsListingOf(a[..], index.value) && SortedBy(order, a[..]) && r == a[..][..|r|];
    }
  }

  /** A ranking by count: counts never increase along it, and no entry left
      out has a larger count than any entry kept. */
  lemma RankingByCount(r: seq<RankedEntry>, m: Index, k: nat)
    requires IsRanking(ByCount, r, m, k)
    ensures forall i, j :: 0 <= i < j < |r| ==> r[i].count >= r[j].count
    ensures forall w, i :: w in m && Tag(w, m[w]) !in r && 0 <= i < |r| ==> r[i].count >= m[w].count
  {
  }
}
