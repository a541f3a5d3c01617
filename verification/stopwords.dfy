/** `remove_stop_words`: `" ".join([x for x in text.split() if x not in stops])`.
    The stop-word set is a parameter here; the source loads NLTK's English
    list. */
module StopWords {
  import opened Chars
  import opened Seqs
  import opened Spaces

  /** What `str.split()` yields: a non-empty run of non-whitespace. */
  ghost predicate IsToken(t: string) {
    t != [] && forall i :: 0 <= i < |t| ==> !IsWhitespace(t[i])
  }

  ghost predicate AllTokens(ts: seq<string>) {
    forall i :: 0 <= i < |ts| ==> IsToken(ts[i])
  }

  /** `str.split()` without a separator: whitespace runs separate the
      tokens, and leading or trailing whitespace yields no empty token. */
  function Split(s: string): (ts: seq<string>)
    ensures AllTokens(ts)
    decreases |s|
  {
    if s == [] then []
    else if IsWhitespace(s[0]) then Split(s[1..])
    else
      var n := LeadingRun(s, NotWhitespace);
      [s[..n]] + Split(s[n..])
  }

  /** A token is its own split. */
  lemma SplitToken(t: string)
    requires IsToken(t)
    ensures Split(t) == [t]
  {
    LeadingRunOfConcat(t, [], NotWhitespace);
    assert t + [] == t;
  }

  /** Every whitespace character separates: the split of a text cut at one
      is the split of the part before it followed by the split of the part
      after it. With `SplitToken` and `Split([]) == []` this fixes the
      split of every text: no token spans whitespace, no token is cut
      inside a non-whitespace run, and runs of whitespace yield no empty
      token. */
  lemma {:induction false} SplitAtWhitespace(a: string, w: char, b: string)
    requires IsWhitespace(w)
    ensures Split(a + [w] + b) == Split(a) + Split(b)
    decreases |a|, 1
  {
    if a == [] {
      SplitSkipsWhitespace([w] + b);
      assert a + [w] + b == [w] + b && ([w] + b)[1..] == b;
    } else if IsWhitespace(a[0]) {
      SplitAtWhitespaceAfterSpace(a, w, b);
    } else {
      SplitAtWhitespaceAfterToken(a, w, b);
    }
  }

  /** `SplitAtWhitespace` when `a` starts with whitespace. */
  lemma {:induction false} SplitAtWhitespaceAfterSpace(a: string, w: char, b: string)
    requires IsWhitespace(w) && a != [] && IsWhitespace(a[0])
    ensures Split(a + [w] + b) == Split(a) + Split(b)
    decreases |a|, 0
  {
    SplitSkipsWhitespace(a + [w] + b);
    SplitSkipsWhitespace(a);
    assert (a + [w] + b)[1..] == a[1..] + [w] + b;
    SplitAtWhitespace(a[1..], w, b);
  }

  /** `SplitAtWhitespace` when `a` starts with a token. */
  lemma {:induction false} SplitAtWhitespaceAfterToken(a: string, w: char, b: string)
    requires IsWhitespace(w) && a != [] && !IsWhitespace(a[0])
    ensures Split(a + [w] + b) == Split(a) + Split(b)
    decreases |a|, 0
  {
    var n := RunBeforeWhitespace(a, w, b);
    SplitAtWhitespace(a[n..], w, b);
    ConsRegroup(a[..n], Split(a[n..]), Split(b), Split(a + [w] + b), Split(a));
  }

  /** Leading whitespace yields no token. */
  lemma SplitSkipsWhitespace(s: string)
    requires s != [] && IsWhitespace(s[0])
    ensures Split(s) == Split(s[1..])
  {
  }

  /** The first token of a text cut at a whitespace character lies before
      the cut. */
  lemma RunBeforeWhitespace(a: string, w: char, b: string) returns (n: nat)
    requires IsWhitespace(w) && a != [] && !IsWhitespace(a[0])
    ensures 0 < n <= |a| && n == LeadingRun(a, NotWhitespace)
    ensures Split(a + [w] + b) == [a[..n]] + Split(a[n..] + [w] + b)
    ensures Split(a) == [a[..n]] + Split(a[n..])
  {
    var s := a + [w] + b;
    n := LeadingRun(a, NotWhitespace);
    assert s == a + ([w] + b);
    if n < |a| {
      LeadingRunInside(a, [w] + b, NotWhitespace);
    } else {
      LeadingRunOfConcat(a, [w] + b, NotWhitespace);
    }
    assert s[..n] == a[..n];
    assert s[n..] == a[n..] + [w] + b;
  }

  /** `" ".join(ts)`: one space between consecutive tokens and none at
      the ends, so the length is the tokens' total length plus one per gap. */
  function Join(ts: seq<string>): (r: string)
    ensures ts == [] ==> r == []
    ensures ts != [] ==> |r| == |Concat(ts)| + |ts| - 1
    decreases |ts|
  {
    if ts == [] then []
    else if |ts| == 1 then ts[0]
    else ts[0] + " " + Join(ts[1..])
  }

  /** `[x for x in ts if x not in stops]`: the tokens that are not stop
      words, in order; the comparison is exact string equality. */
  function WithoutStopWords(ts: seq<string>, stops: set<string>): (r: seq<string>)
    ensures |r| <= |ts|
    ensures forall i :: 0 <= i < |r| ==> r[i] !in stops
    decreases |ts|
  {
    if ts == [] then []
    else if ts[0] in stops then WithoutStopWords(ts[1..], stops)
    else [ts[0]] + WithoutStopWords(ts[1..], stops)
  }

  /** Exactly the stop words are dropped: every other token occurs in the
      result as often as in the input. */
  lemma {:induction false} WithoutStopWordsCounts(ts: seq<string>, stops: set<string>)
    ensures forall x :: multiset(WithoutStopWords(ts, stops))[x] == if x in stops then 0 else multiset(ts)[x]
    decreases |ts|
  {
    if ts != [] {
      assert ts == [ts[0]] + ts[1..];
      WithoutStopWordsCounts(ts[1..], stops);
    }
  }

  /** Tokens none of which is a stop word are all kept. */
  lemma {:induction false} WithoutStopWordsKeepsAll(ts: seq<string>, stops: set<string>)
    requires forall i :: 0 <= i < |ts| ==> ts[i] !in stops
    ensures WithoutStopWords(ts, stops) == ts
    decreases |ts|
  {
    if ts != [] {
      WithoutStopWordsKeepsAll(ts[1..], stops);
    }
  }

  lemma {:induction false} WithoutStopWordsIsSubsequence(ts: seq<string>, stops: set<string>)
    ensures IsSubsequence(WithoutStopWords(ts, stops), ts)
    decreases |ts|
  {
    if ts != [] {
      WithoutStopWordsIsSubsequence(ts[1..], stops);
      if ts[0] !in stops {
        assert WithoutStopWords(ts, stops)[1..] == WithoutStopWords(ts[1..], stops);
      }
    }
  }

  /** `remove_stop_words`: the tokens that are not stop words, joined by
      single spaces. The output is never longer than the input, and it is
      empty exactly when no token survives the filter. */
  function RemoveStopWords(text: string, stops: set<string>): (r: string)
    ensures |r| <= |text|
    ensures r == [] <==> WithoutStopWords(Split(text), stops) == []
  {
    var ts := Split(text);
    var kept := WithoutStopWords(ts, stops);
    SplitLength(text);
    WithoutStopWordsLength(ts, stops);
    WithoutStopWordsIdempotent(ts, stops);
    JoinShape(kept);
    Join(kept)
  }

  /** The tokens of a text, each counted with one separator after it, take
      at most one character more than the text: consecutive tokens are
      separated by at least one whitespace character. */
  lemma {:induction false} SplitLength(s: string)
    ensures |Concat(Split(s))| + |Split(s)| <= |s| + 1
    decreases |s|
  {
    if s != [] {
      if IsWhitespace(s[0]) {
        SplitLength(s[1..]);
      } else {
        var n := LeadingRun(s, NotWhitespace);
        var rest := Split(s[n..]);
        assert Split(s) == [s[..n]] + rest;
        assert Concat(Split(s)) == s[..n] + Concat(rest);
        if n < |s| {
          assert s[n..][1..] == s[n + 1..];
          assert rest == Split(s[n + 1..]);
          SplitLength(s[n + 1..]);
        }
      }
    }
  }

  /** Dropping tokens never adds characters. */
  lemma {:induction false} WithoutStopWordsLength(ts: seq<string>, stops: set<string>)
    ensures |Concat(WithoutStopWords(ts, stops))| + |WithoutStopWords(ts, stops)| <= |Concat(ts)| + |ts|
    decreases |ts|
  {
    if ts != [] {
      WithoutStopWordsLength(ts[1..], stops);
      var rest := WithoutStopWords(ts[1..], stops);
      if ts[0] !in stops {
        assert ([ts[0]] + rest)[1..] == rest;
      }
    }
  }

  /** Filtering keeps tokens tokens, and a second pass removes nothing more. */
  lemma {:induction false} WithoutStopWordsIdempotent(ts: seq<string>, stops: set<string>)
    ensures WithoutStopWords(WithoutStopWords(ts, stops), stops) == WithoutStopWords(ts, stops)
    ensures AllTokens(ts) ==> AllTokens(WithoutStopWords(ts, stops))
    decreases |ts|
  {
    if ts != [] {
      WithoutStopWordsIdempotent(ts[1..], stops);
    }
  }

  /** The tokens of `" ".join(ts)` are `ts` again. */
  lemma {:induction false} SplitJoin(ts: seq<string>)
    requires AllTokens(ts)
    ensures Split(Join(ts)) == ts
    decreases |ts|
  {
    if ts != [] {
      var t := ts[0];
      if |ts| == 1 {
        LeadingRunOfConcat(t, [], NotWhitespace);
        assert t + [] == t;
      } else {
        var rest := Join(ts[1..]);
        var s := t + " " + rest;
        assert s == t + (" " + rest);
        LeadingRunOfConcat(t, " " + rest, NotWhitespace);
        assert s[..|t|] == t;
        assert s[|t|..] == " " + rest;
        assert (" " + rest)[1..] == rest;
        SplitJoin(ts[1..]);
      }
    }
  }

  /** The output splits into exactly the input's tokens minus the stop words. */
  lemma RemoveStopWordsTokens(text: string, stops: set<string>)
    ensures Split(RemoveStopWords(text, stops)) == WithoutStopWords(Split(text), stops)
  {
    WithoutStopWordsIdempotent(Split(text), stops);
    SplitJoin(WithoutStopWords(Split(text), stops));
  }

  lemma RemoveStopWordsIdempotent(text: string, stops: set<string>)
    ensures RemoveStopWords(RemoveStopWords(text, stops), stops) == RemoveStopWords(text, stops)
  {
    RemoveStopWordsTokens(text, stops);
    WithoutStopWordsIdempotent(Split(text), stops);
  }

  /** Neither the first nor the last character is whitespace. */
  ghost predicate IsTrimmed(s: string) {
    s == [] || (!IsWhitespace(s[0]) && !IsWhitespace(s[|s| - 1]))
  }

  /** Tokens joined by single spaces give a text with no leading, trailing
      or doubled whitespace, whose only whitespace is the plain space. */
  lemma {:induction false} JoinShape(ts: seq<string>)
    requires AllTokens(ts)
    ensures IsTrimmed(Join(ts)) && IsCollapsed(Join(ts))
    ensures ts != [] ==> Join(ts) != []
    decreases |ts|
  {
    if |ts| == 1 {
      assert IsToken(ts[0]);
    } else if |ts| > 1 {
      assert IsToken(ts[0]);
      JoinShape(ts[1..]);
      var rest := Join(ts[1..]);
      assert Join(ts) == ts[0] + " " + rest;
      SpaceBetween(ts[0], rest);
    }
  }

  /** A token, a space and a non-empty trimmed, collapsed text. */
  lemma SpaceBetween(t: string, rest: string)
    requires IsToken(t) && rest != [] && IsTrimmed(rest) && IsCollapsed(rest)
    ensures IsTrimmed(t + " " + rest) && IsCollapsed(t + " " + rest)
  {
    var s := t + " " + rest;
    forall i | 0 <= i < |s| && IsWhitespace(s[i])
      ensures s[i] == ' '
    {
      if i > |t| {
        assert s[i] == rest[i - |t| - 1];
      }
    }
    forall i | 0 < i < |s|
      ensures !IsWhitespace(s[i - 1]) || !IsWhitespace(s[i])
    {
      if i > |t| + 1 {
        assert s[i - 1] == rest[i - |t| - 2] && s[i] == rest[i - |t| - 1];
      } else if i == |t| + 1 {
        assert s[i] == rest[0];
      }
    }
    assert s[|s| - 1] == rest[|rest| - 1];
  }

  /** The output has no leading, trailing or doubled whitespace, and its only
      whitespace is the plain space. */
  lemma RemoveStopWordsShape(text: string, stops: set<string>)
    ensures IsTrimmed(RemoveStopWords(text, stops)) && IsCollapsed(RemoveStopWords(text, stops))
  {
    WithoutStopWordsIdempotent(Split(text), stops);
    JoinShape(WithoutStopWords(Split(text), stops));
  }

  /** All the tokens' characters, one after the other. */
  function Concat(ts: seq<string>): string
    decreases |ts|
  {
    if ts == [] then [] else ts[0] + Concat(ts[1..])
  }

  /** The non-whitespace characters of a text are those of its tokens. */
  lemma {:induction false} KeepSplit(s: string)
    ensures Keep(s, NotWhitespace) == Concat(Split(s))
    decreases |s|
  {
    if s != [] {
      if IsWhitespace(s[0]) {
        KeepSplit(s[1..]);
      } else {
        var n := LeadingRun(s, NotWhitespace);
        KeepSplit(s[n..]);
        assert s == s[..n] + s[n..];
        KeepConcat(s[..n], s[n..], NotWhitespace);
        KeepAllOrNone(s[..n], NotWhitespace);
      }
    }
  }

  /** Joining tokens adds only whitespace. */
  lemma {:induction false} KeepJoin(ts: seq<string>)
    requires AllTokens(ts)
    ensures Keep(Join(ts), NotWhitespace) == Concat(ts)
    decreases |ts|
  {
    if ts != [] {
      var t := ts[0];
      assert IsToken(t);
      KeepAllOrNone(t, NotWhitespace);
      if |ts| == 1 {
        assert Concat(ts) == t + Concat([]);
        assert t + [] == t;
      } else {
        assert AllTokens(ts[1..]) by {
          forall i | 0 <= i < |ts[1..]| ensures IsToken(ts[1..][i]) {
            assert ts[1..][i] == ts[i + 1];
          }
        }
        KeepJoin(ts[1..]);
        var rest := Join(ts[1..]);
        assert Join(ts) == (t + " ") + rest;
        KeepConcat(t + " ", rest, NotWhitespace);
        KeepConcat(t, " ", NotWhitespace);
        assert Keep(" ", NotWhitespace) == [];
        assert Keep(t + " ", NotWhitespace) == t;
        assert Concat(ts) == t + Concat(ts[1..]);
      }
    }
  }

  /** Dropping whole tokens deletes characters and keeps the order of the rest. */
  lemma {:induction false} ConcatWithoutStopWords(ts: seq<string>, stops: set<string>)
    ensures IsSubsequence(Concat(WithoutStopWords(ts, stops)), Concat(ts))
    decreases |ts|
  {
    if ts != [] {
      ConcatWithoutStopWords(ts[1..], stops);
      var rest := Concat(WithoutStopWords(ts[1..], stops));
      if ts[0] in stops {
        SubsequenceOfSuffix(rest, Concat(ts), |ts[0]|);
        assert Concat(ts)[|ts[0]|..] == Concat(ts[1..]);
      } else {
        SubsequenceReflexive(ts[0]);
        SubsequenceConcat(ts[0], ts[0], rest, Concat(ts[1..]));
        assert WithoutStopWords(ts, stops)[1..] == WithoutStopWords(ts[1..], stops);
      }
    }
  }

  /** The output's non-whitespace characters are a subsequence of the
      input's: characters are deleted with their tokens, never changed. */
  lemma RemoveStopWordsKeepsCharacters(text: string, stops: set<string>)
    ensures IsSubsequence(Keep(RemoveStopWords(text, stops), NotWhitespace), Keep(text, NotWhitespace))
  {
    WithoutStopWordsIdempotent(Split(text), stops);
    KeepJoin(WithoutStopWords(Split(text), stops));
    KeepSplit(text);
    ConcatWithoutStopWords(Split(text), stops);
  }
}
