/** The word count of the book-summary square:
    `text.split(/\s+/).filter(word => word.length > 0).length` on the
    trimmed text. */
module Words {
  import opened JsText
  import opened Seqs

  predicate NoSpace(w: string) {
    forall i :: 0 <= i < |w| ==> !IsSpace(w[i])
  }

  /** A word: a non-empty run of non-whitespace characters. */
  predicate IsWord(w: string) {
    w != [] && NoSpace(w)
  }

  /** `s.split(/\s+/)`: the pieces between maximal runs of whitespace; a run
      at either end yields an empty piece, and `""` yields `[""]`. */
  function SplitOnSpaces(s: string): (parts: seq<string>)
    ensures |parts| >= 1
    decreases |s|
  {
    if s == [] then [[]]
    else if IsSpace(s[0]) then
      // Only the last character of a run of whitespace ends a piece.
      if |s| > 1 && IsSpace(s[1]) then SplitOnSpaces(s[1..])
      else [[]] + SplitOnSpaces(s[1..])
    else
      var rest := SplitOnSpaces(s[1..]);
      [[s[0]] + rest[0]] + rest[1..]
  }

  function NonEmpty(w: string): bool {
    w != []
  }

  /** The tokens the page counts. */
  function Words(s: string): seq<string> {
    Filter(SplitOnSpaces(s), NonEmpty)
  }

  /** The count shown under the text area and compared with `minWords`. */
  function WordCount(text: string): nat {
    |Words(Trim(text))|
  }

  /** No piece of the split holds whitespace. */
  lemma {:induction false} SplitPiecesNoSpace(s: string)
    ensures forall k :: 0 <= k < |SplitOnSpaces(s)| ==> NoSpace(SplitOnSpaces(s)[k])
    decreases |s|
  {
    if s == [] {
    } else if IsSpace(s[0]) {
      SplitPiecesNoSpace(s[1..]);
    } else {
      SplitPiecesNoSpace(s[1..]);
      var rest := SplitOnSpaces(s[1..]);
      assert NoSpace([s[0]] + rest[0]);
    }
  }

  /** Every token is a word. */
  lemma WordsAreWords(s: string)
    ensures forall k :: 0 <= k < |Words(s)| ==> IsWord(Words(s)[k])
  {
    SplitPiecesNoSpace(s);
    FilterMembers(SplitOnSpaces(s), NonEmpty);
    forall k | 0 <= k < |Words(s)| ensures IsWord(Words(s)[k]) {
      var w := Words(s)[k];
      assert w in SplitOnSpaces(s) && NonEmpty(w);
    }
  }

  /** Words separated by single spaces. */
  function JoinSpaces(ws: seq<string>): string {
    Join(ws, ' ')
  }

  /** A run of whitespace in front of a word (or of nothing) adds one
      empty piece. */
  lemma {:induction false} SplitSpaceRun(pre: string, u: string)
    requires AllSpace(pre) && pre != []
    requires u == [] || !IsSpace(u[0])
    ensures SplitOnSpaces(pre + u) == [[]] + SplitOnSpaces(u)
  {
    assert (pre + u)[1..] == pre[1..] + u;
    if |pre| > 1 {
      SplitSpaceRun(pre[1..], u);
    } else {
      assert pre[1..] + u == u;
    }
  }

  /** A word followed by a run of whitespace ends one piece. */
  lemma {:induction false} SplitWordThenRun(w: string, run: string, t: string)
    requires NoSpace(w)
    requires AllSpace(run) && run != []
    requires t == [] || !IsSpace(t[0])
    ensures SplitOnSpaces(w + run + t) == [w] + SplitOnSpaces(t)
  {
    if w == [] {
      assert w + run + t == run + t;
      SplitSpaceRun(run, t);
    } else {
      assert (w + run + t)[1..] == w[1..] + run + t;
      SplitWordThenRun(w[1..], run, t);
      assert [w[0]] + w[1..] == w;
    }
  }

  lemma {:induction false} SplitNoSpace(w: string)
    requires NoSpace(w)
    ensures SplitOnSpaces(w) == [w]
  {
    if w != [] {
      SplitNoSpace(w[1..]);
      assert [w[0]] + w[1..] == w;
    }
  }

  lemma {:induction false} SplitJoinSpaces(ws: seq<string>)
    requires ws != []
    requires forall k :: 0 <= k < |ws| ==> IsWord(ws[k])
    ensures SplitOnSpaces(JoinSpaces(ws)) == ws
  {
    if |ws| == 1 {
      SplitNoSpace(ws[0]);
    } else {
      SplitJoinSpaces(ws[1..]);
      var t := JoinSpaces(ws[1..]);
      assert ws[1..][0] == ws[1];
      JoinFirst(ws[1..]);
      assert JoinSpaces(ws) == ws[0] + [' '] + t;
      SplitWordThenRun(ws[0], [' '], t);
      assert ws == [ws[0]] + ws[1..];
    }
  }

  /** A non-empty join of words starts with the first word's first letter. */
  lemma {:induction false} JoinFirst(ws: seq<string>)
    requires ws != [] && ws[0] != []
    ensures JoinSpaces(ws) != [] && JoinSpaces(ws)[0] == ws[0][0]
  {
  }

  /** Writing words out with single spaces and counting them gives the same
      words back: a text of exactly n words counts n. */
  lemma WordsOfJoin(ws: seq<string>)
    requires forall k :: 0 <= k < |ws| ==> IsWord(ws[k])
    ensures Words(JoinSpaces(ws)) == ws
    ensures WordCount(JoinSpaces(ws)) == |ws|
  {
    if ws == [] {
    } else {
      SplitJoinSpaces(ws);
      FilterAllKept(ws, NonEmpty);
      JoinFirst(ws);
      var j := JoinSpaces(ws);
      assert !IsSpace(j[0]);
      JoinLast(ws);
      assert TrimStart(j) == j;
      assert TrimEnd(j) == j;
    }
  }

  lemma {:induction false} JoinLast(ws: seq<string>)
    requires ws != [] && ws[|ws| - 1] != []
    requires forall k :: 0 <= k < |ws| ==> IsWord(ws[k])
    ensures JoinSpaces(ws) != [] && !IsSpace(JoinSpaces(ws)[|JoinSpaces(ws)| - 1])
  {
    if |ws| > 1 {
      JoinLast(ws[1..]);
    }
  }

  lemma SplitAllSpace(s: string)
    requires AllSpace(s)
    ensures Words(s) == []
  {
    if s != [] {
      SplitOnlySpace(s);
      var parts := SplitOnSpaces(s);
      FilterUnfold(parts, NonEmpty);
      FilterUnfold(parts[1..], NonEmpty);
    }
  }

  lemma SplitLeadingSpace(pre: string, u: string)
    requires AllSpace(pre)
    requires u == [] || !IsSpace(u[0])
    ensures Words(pre + u) == Words(u)
  {
    if pre != [] {
      SplitSpaceRun(pre, u);
    } else {
      assert pre + u == u;
    }
  }

  /** `post.split(/\s+/)` for all-whitespace `post` is `["", ""]`. */
  lemma SplitOnlySpace(post: string)
    requires AllSpace(post) && post != []
    ensures SplitOnSpaces(post) == [[], []]
  {
    SplitSpaceRun(post, []);
    assert post + [] == post;
  }

  lemma {:induction false} SplitTrailingSpace(core: string, post: string)
    requires AllSpace(post) && post != []
    requires core == [] || !IsSpace(core[|core| - 1])
    ensures SplitOnSpaces(core + post) == SplitOnSpaces(core) + [[]]
  {
    if core == [] {
      SplitOnlySpace(post);
      assert core + post == post;
    } else {
      assert (core + post)[1..] == core[1..] + post;
      SplitTrailingSpace(core[1..], post);
      if !IsSpace(core[0]) {
        var r, r' := SplitOnSpaces(core[1..] + post), SplitOnSpaces(core[1..]);
        assert r[0] == r'[0] && r[1..] == r'[1..] + [[]];
      }
    }
  }

  lemma WordsOfTrimStart(s: string)
    ensures Words(TrimStart(s)) == Words(s)
  {
    var t := TrimStart(s);
    var pre := s[..|s| - |t|];
    assert s == pre + t;
    SplitLeadingSpace(pre, t);
  }

  lemma WordsOfTrimEnd(t: string)
    ensures Words(TrimEnd(t)) == Words(t)
  {
    var core := TrimEnd(t);
    var post := t[|core|..];
    assert t == core + post;
    if post != [] {
      SplitTrailingSpace(core, post);
      FilterAppend(SplitOnSpaces(core), [[]], NonEmpty);
      assert Filter([[]], NonEmpty) == [];
    }
  }

  /** Trimming does not change the tokens: the count is the same whether or
      not the text is trimmed first. */
  lemma WordsOfTrim(s: string)
    ensures Words(Trim(s)) == Words(s)
    ensures WordCount(s) == |Words(s)|
  {
    WordsOfTrimStart(s);
    WordsOfTrimEnd(TrimStart(s));
  }

  /** Words separated by arbitrary runs of whitespace: `runs[k]` sits
      between `ws[k]` and `ws[k + 1]`. */
  function JoinRuns(ws: seq<string>, runs: seq<string>): string
    requires ws != [] && |runs| == |ws| - 1
  {
    if |ws| == 1 then ws[0] else ws[0] + runs[0] + JoinRuns(ws[1..], runs[1..])
  }

  lemma {:induction false} JoinRunsEnds(ws: seq<string>, runs: seq<string>)
    requires ws != [] && |runs| == |ws| - 1
    requires forall k :: 0 <= k < |ws| ==> IsWord(ws[k])
    ensures var j := JoinRuns(ws, runs);
      && j != []
      && !IsSpace(j[0])
      && !IsSpace(j[|j| - 1])
  {
    if |ws| > 1 {
      JoinRunsEnds(ws[1..], runs[1..]);
    }
  }

  lemma {:induction false} SplitJoinRuns(ws: seq<string>, runs: seq<string>)
    requires ws != [] && |runs| == |ws| - 1
    requires forall k :: 0 <= k < |ws| ==> IsWord(ws[k])
    requires forall k :: 0 <= k < |runs| ==> AllSpace(runs[k]) && runs[k] != []
    ensures SplitOnSpaces(JoinRuns(ws, runs)) == ws
  {
    if |ws| == 1 {
      SplitNoSpace(ws[0]);
    } else {
      SplitJoinRuns(ws[1..], runs[1..]);
      var t := JoinRuns(ws[1..], runs[1..]);
      JoinRunsEnds(ws[1..], runs[1..]);
      SplitWordThenRun(ws[0], runs[0], t);
      assert ws == [ws[0]] + ws[1..];
    }
  }

  /** However much whitespace separates, precedes and follows the words,
      the same words come back and the count is their number. */
  lemma WordsOfRuns(pre: string, ws: seq<string>, runs: seq<string>, post: string)
    requires ws != [] && |runs| == |ws| - 1
    requires forall k :: 0 <= k < |ws| ==> IsWord(ws[k])
    requires forall k :: 0 <= k < |runs| ==> AllSpace(runs[k]) && runs[k] != []
    requires AllSpace(pre) && AllSpace(post)
    ensures Words(pre + JoinRuns(ws, runs) + post) == ws
    ensures WordCount(pre + JoinRuns(ws, runs) + post) == |ws|
  {
    var core := JoinRuns(ws, runs);
    var s := pre + core + post;
    JoinRunsEnds(ws, runs);
    SplitJoinRuns(ws, runs);
    assert s == pre + (core + post);
    SplitLeadingSpace(pre, core + post);
    if post != [] {
      SplitTrailingSpace(core, post);
      FilterAppend(ws, [[]], NonEmpty);
      assert Filter([[]], NonEmpty) == [];
    } else {
      assert core + post == core;
    }
    FilterAllKept(ws, NonEmpty);
    WordsOfTrim(s);
  }
}
