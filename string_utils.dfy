/**
  The punctuation normaliser `StringUtils.removePunctuation` (app.js:17-21).

  It first deletes every character of a fixed punctuation class, then replaces
  each maximal run of two or more whitespace characters by one space.
 */
module StringUtils {

  /** The characters of the regular-expression class at app.js:19. The range
      `,-\/` in that class covers `, - . /`, so the class is exactly these 21. */
  predicate IsPunctuation(c: char)
  {
    c in {'.', ',', '-', '/', '#', '!', '$', '%', '^', '&', '*', ';', ':',
          '{', '}', '=', '_', '`', '~', '(', ')'}
  }

  /** The JavaScript `\s` class: the ASCII spaces and controls, no-break space,
      the Unicode space separators, line and paragraph separators, and the
      byte-order mark. */
  predicate IsWhitespace(c: char)
  {
    c in {'\t', '\n', '\U{B}', '\U{C}', '\r', ' ', '\U{A0}', '\U{1680}',
          '\U{2028}', '\U{2029}', '\U{202F}', '\U{205F}', '\U{3000}', '\U{FEFF}'}
    || ('\U{2000}' <= c <= '\U{200A}')
  }

  predicate NoPunctuation(s: string)
  {
    forall i :: 0 <= i < |s| ==> !IsPunctuation(s[i])
  }

  /** No two neighbouring characters are both whitespace. */
  predicate NoDoubleWhitespace(s: string)
  {
    forall i :: 0 <= i < |s| - 1 ==> !(IsWhitespace(s[i]) && IsWhitespace(s[i + 1]))
  }

  /** The characters that the normaliser neither deletes nor may rewrite: those
      that are neither punctuation nor whitespace, in order. */
  function Visible(s: string): string
  {
    if s == [] then []
    else if IsPunctuation(s[0]) || IsWhitespace(s[0]) then Visible(s[1..])
    else [s[0]] + Visible(s[1..])
  }

  /** First replace of app.js:19: every punctuation character is deleted and
      every other character is kept, in order. */
  function StripPunctuation(s: string): (r: string)
    ensures NoPunctuation(r)
    ensures |r| <= |s|
    ensures Visible(r) == Visible(s)
    ensures NoPunctuation(s) ==> r == s
    ensures |s| == 1 && IsPunctuation(s[0]) ==> r == []
  {
    if s == [] then []
    else if IsPunctuation(s[0]) then StripPunctuation(s[1..])
    else [s[0]] + StripPunctuation(s[1..])
  }

  /** The deletion works character by character: stripping a concatenation
      strips each part. With the one-character cases of `StripPunctuation`
      this fixes the result completely; in particular every whitespace
      character stays where it was. */
  lemma {:induction false} StripPunctuationAppend(a: string, b: string)
    ensures StripPunctuation(a + b) == StripPunctuation(a) + StripPunctuation(b)
  {
    if a == [] {
      assert a + b == b;
    } else {
      assert (a + b)[1..] == a[1..] + b;
      StripPunctuationAppend(a[1..], b);
    }
  }

  /** Length of the run of whitespace at the start of `s`. */
  function LeadingWhitespace(s: string): (n: nat)
    ensures n <= |s|
    ensures forall i :: 0 <= i < n ==> IsWhitespace(s[i])
    ensures n < |s| ==> !IsWhitespace(s[n])
  {
    if s == [] || !IsWhitespace(s[0]) then 0 else 1 + LeadingWhitespace(s[1..])
  }

  /** Length of the run of non-whitespace characters at the start of `s`. */
  function LeadingWord(s: string): (n: nat)
    ensures n <= |s|
    ensures forall i :: 0 <= i < n ==> !IsWhitespace(s[i])
    ensures n < |s| ==> IsWhitespace(s[n])
    ensures s != [] && !IsWhitespace(s[0]) ==> n >= 1
  {
    if s == [] || IsWhitespace(s[0]) then 0 else 1 + LeadingWord(s[1..])
  }

  /** The words of `s`: its maximal runs of non-whitespace characters, in
      order. */
  function Words(s: string): seq<string>
    decreases |s|
  {
    if s == [] then []
    else if IsWhitespace(s[0]) then Words(s[1..])
    else
      var n := LeadingWord(s);
      [s[..n]] + Words(s[n..])
  }

  /** Length of the maximal run at the start of `s` whose characters are
      either all whitespace or all not. */
  function RunLength(s: string): (n: nat)
    requires s != []
    ensures 1 <= n <= |s|
  {
    if IsWhitespace(s[0]) then LeadingWhitespace(s) else LeadingWord(s)
  }

  /** `s` cut into its maximal runs, whitespace and non-whitespace in turn. */
  function Runs(s: string): seq<string>
    decreases |s|
  {
    if s == [] then []
    else
      var n := RunLength(s);
      [s[..n]] + Runs(s[n..])
  }

  function Flatten(runs: seq<string>): string
  {
    if runs == [] then [] else runs[0] + Flatten(runs[1..])
  }

  /** What the collapse does to one run: a whitespace run of two or more
      characters becomes a single space, any other run is kept. */
  function Squash(run: string): string
  {
    if |run| >= 2 && IsWhitespace(run[0]) then " " else run
  }

  function SquashAll(runs: seq<string>): string
  {
    if runs == [] then [] else Squash(runs[0]) + SquashAll(runs[1..])
  }

  /** The runs of a text are a partition of it. */
  lemma {:induction false} RunsCover(s: string)
    ensures Flatten(Runs(s)) == s
    decreases |s|
  {
    if s != [] {
      var n := RunLength(s);
      calc {
        Flatten(Runs(s));
        { assert Runs(s) == [s[..n]] + Runs(s[n..]); }
        Flatten([s[..n]] + Runs(s[n..]));
        s[..n] + Flatten(Runs(s[n..]));
        { RunsCover(s[n..]); }
        s[..n] + s[n..];
        s;
      }
    }
  }

  /** Second replace of app.js:20, `/\s{2,}/g` by " ": the global scan meets
      every run of whitespace at its first character and the greedy repetition
      takes the whole run, so exactly the maximal runs of length two or more
      become one space; a lone whitespace character is left as it is. */
  function CollapseWhitespace(s: string): (r: string)
    ensures NoDoubleWhitespace(r)
    ensures |r| <= |s|
    ensures |s| > 0 ==> |r| > 0
    ensures |r| > 0 ==> |s| > 0 && (IsWhitespace(r[0]) <==> IsWhitespace(s[0]))
    decreases |s|
  {
    if s == [] then []
    else if IsWhitespace(s[0]) then
      var n := LeadingWhitespace(s);
      (if n >= 2 then [' '] else [s[0]]) + CollapseWhitespace(s[n..])
    else
      [s[0]] + CollapseWhitespace(s[1..])
  }

  /** A leading word passes through the collapse unchanged. */
  lemma {:induction false} CollapseWordPrefix(s: string, k: nat)
    requires k <= |s|
    requires forall i :: 0 <= i < k ==> !IsWhitespace(s[i])
    ensures CollapseWhitespace(s) == s[..k] + CollapseWhitespace(s[k..])
    decreases k
  {
    if k == 0 {
      assert s[..0] == [] && s[0..] == s;
    } else {
      var t := s[1..];
      calc {
        CollapseWhitespace(s);
        [s[0]] + CollapseWhitespace(t);
        { CollapseWordPrefix(t, k - 1); assert t[k - 1..] == s[k..]; }
        [s[0]] + (t[..k - 1] + CollapseWhitespace(s[k..]));
        ([s[0]] + t[..k - 1]) + CollapseWhitespace(s[k..]);
        { assert [s[0]] + t[..k - 1] == s[..k]; }
        s[..k] + CollapseWhitespace(s[k..]);
      }
    }
  }

  /** The collapse, run by run: every word is kept as it is, a lone
      whitespace character is kept, and a whitespace run of two or more
      becomes one space. */
  lemma {:induction false} CollapseByRuns(s: string)
    ensures CollapseWhitespace(s) == SquashAll(Runs(s))
    decreases |s|
  {
    if s != [] {
      var n := RunLength(s);
      CollapseByRuns(s[n..]);
      assert Runs(s)[0] == s[..n] && Runs(s)[1..] == Runs(s[n..]);
      if IsWhitespace(s[0]) {
        if n == 1 {
          assert s[..1] == [s[0]];
        }
      } else {
        CollapseWordPrefix(s, n);
      }
    }
  }

  lemma {:induction false} WordsSkipWhitespace(s: string, n: nat)
    requires n <= |s|
    requires forall i :: 0 <= i < n ==> IsWhitespace(s[i])
    ensures Words(s) == Words(s[n..])
    decreases n
  {
    if n == 0 {
      assert s[0..] == s;
    } else {
      WordsSkipWhitespace(s[1..], n - 1);
      assert s[1..][n - 1..] == s[n..];
    }
  }

  lemma {:induction false} LeadingWordAppend(w: string, t: string)
    requires forall i :: 0 <= i < |w| ==> !IsWhitespace(w[i])
    requires t == [] || IsWhitespace(t[0])
    ensures LeadingWord(w + t) == |w|
    decreases |w|
  {
    if w == [] {
      assert w + t == t;
    } else {
      assert (w + t)[1..] == w[1..] + t;
      LeadingWordAppend(w[1..], t);
    }
  }

  /** The collapse keeps the words of the text, in order: no two words are
      joined and none is split. */
  lemma {:induction false} CollapseKeepsWords(s: string)
    ensures Words(CollapseWhitespace(s)) == Words(s)
    decreases |s|
  {
    if s != [] {
      if IsWhitespace(s[0]) {
        var n := LeadingWhitespace(s);
        var t := CollapseWhitespace(s[n..]);
        var h: string := if n >= 2 then [' '] else [s[0]];
        CollapseKeepsWords(s[n..]);
        WordsSkipWhitespace(s, n);
        assert CollapseWhitespace(s) == h + t;
        assert (h + t)[1..] == t;
      } else {
        var k := LeadingWord(s);
        var t := CollapseWhitespace(s[k..]);
        CollapseWordPrefix(s, k);
        CollapseKeepsWords(s[k..]);
        LeadingWordAppend(s[..k], t);
        var u := s[..k] + t;
        assert u[0] == s[0];
        assert u[..k] == s[..k] && u[k..] == t;
      }
    }
  }

  /** The collapse keeps every visible character, in order, and adds none. */
  lemma {:induction false} CollapseKeepsVisible(s: string)
    ensures Visible(CollapseWhitespace(s)) == Visible(s)
    decreases |s|
  {
    if s != [] {
      if IsWhitespace(s[0]) {
        var n := LeadingWhitespace(s);
        var head: string := if n >= 2 then [' '] else [s[0]];
        CollapseKeepsVisible(s[n..]);
        AllWhitespaceInvisible(s[..n]);
        VisibleAppend(s[..n], s[n..]);
        assert s[..n] + s[n..] == s;
        VisibleAppend(head, CollapseWhitespace(s[n..]));
      } else {
        CollapseKeepsVisible(s[1..]);
        VisibleAppend([s[0]], CollapseWhitespace(s[1..]));
      }
    }
  }

  /** The collapse only ever writes a space or a character of its input, so
      it brings in no punctuation. */
  lemma {:induction false} CollapseAddsNoPunctuation(s: string)
    requires NoPunctuation(s)
    ensures NoPunctuation(CollapseWhitespace(s))
    decreases |s|
  {
    if s != [] {
      var n := if IsWhitespace(s[0]) then LeadingWhitespace(s) else 1;
      assert NoPunctuation(s[n..]);
      CollapseAddsNoPunctuation(s[n..]);
      var rest := CollapseWhitespace(s[n..]);
      var r := CollapseWhitespace(s);
      assert !IsPunctuation(r[0]);
      assert r[1..] == rest;
    }
  }

  /** `StringUtils.removePunctuation` (app.js:17-21). The result holds none of
      the removed punctuation and no two neighbouring whitespace characters;
      every character that is neither survives, in order, and none is added;
      and the words are those of the text with its punctuation deleted. */
  function RemovePunctuation(s: string): (r: string)
    ensures NoPunctuation(r) && NoDoubleWhitespace(r)
    ensures Visible(r) == Visible(s)
    ensures Words(r) == Words(StripPunctuation(s))
  {
    var t := StripPunctuation(s);
    CollapseAddsNoPunctuation(t);
    CollapseKeepsVisible(t);
    CollapseKeepsWords(t);
    CollapseWhitespace(t)
  }

  lemma {:induction false} VisibleAppend(a: string, b: string)
    ensures Visible(a + b) == Visible(a) + Visible(b)
  {
    if a == [] {
      assert a + b == b;
    } else {
      assert (a + b)[1..] == a[1..] + b;
      VisibleAppend(a[1..], b);
    }
  }

  lemma {:induction false} AllWhitespaceInvisible(s: string)
    requires forall i :: 0 <= i < |s| ==> IsWhitespace(s[i])
    ensures Visible(s) == []
  {
    if s != [] {
      AllWhitespaceInvisible(s[1..]);
    }
  }

  /** A text without double whitespace is not changed by the collapse. */
  lemma {:induction false} CollapseFixesSingleSpaced(s: string)
    requires NoDoubleWhitespace(s)
    ensures CollapseWhitespace(s) == s
    decreases |s|
  {
    if s != [] {
      assert NoDoubleWhitespace(s[1..]);
      CollapseFixesSingleSpaced(s[1..]);
      if IsWhitespace(s[0]) {
        assert LeadingWhitespace(s) == 1;
      }
    }
  }

  /** Normalising twice is the same as normalising once. */
  lemma RemovePunctuationIdempotent(s: string)
    ensures RemovePunctuation(RemovePunctuation(s)) == RemovePunctuation(s)
  {
    var r := RemovePunctuation(s);
    assert StripPunctuation(r) == r;
    CollapseFixesSingleSpaced(r);
  }

  /** Where the normaliser is the identity: exactly on texts that already hold
      no punctuation and no double whitespace. */
  lemma RemovePunctuationFixedPoints(s: string)
    ensures RemovePunctuation(s) == s <==> NoPunctuation(s) && NoDoubleWhitespace(s)
  {
    if NoPunctuation(s) && NoDoubleWhitespace(s) {
      CollapseFixesSingleSpaced(s);
    }
  }
}
