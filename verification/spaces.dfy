/** `remove_spaces`: `re.sub(r'\s+', ' ', text)`. */
module Spaces {
  import opened Chars
  import opened Seqs

  /** Every whitespace character is a plain space and no two whitespace
      characters are adjacent. */
  ghost predicate IsCollapsed(s: string) {
    && (forall i :: 0 <= i < |s| && IsWhitespace(s[i]) ==> s[i] == ' ')
    && (forall i :: 0 < i < |s| ==> !IsWhitespace(s[i - 1]) || !IsWhitespace(s[i]))
  }

  /** The substitution scans left to right; at a whitespace character `\s+`
      matches greedily the whole run that starts there, and the run is
      replaced by one space. */
  function RemoveSpaces(s: string): (r: string)
    ensures |r| <= |s|
    ensures r == [] <==> s == []
    decreases |s|
  {
    if s == [] then []
    else if IsWhitespace(s[0]) then [' '] + RemoveSpaces(s[LeadingRun(s, IsWhitespace)..])
    else [s[0]] + RemoveSpaces(s[1..])
  }

  /** Putting a character in front of a collapsed text keeps it collapsed
      unless it adds a whitespace character other than the space, or a
      second whitespace character in a row. */
  lemma CollapsedCons(c: char, rest: string)
    requires IsCollapsed(rest)
    requires IsWhitespace(c) ==> c == ' ' && (rest == [] || !IsWhitespace(rest[0]))
    ensures IsCollapsed([c] + rest)
  {
    var r := [c] + rest;
    forall i | 0 < i < |r|
      ensures r[i] == rest[i - 1]
    {
    }
  }

  /** One scanning step: the first `n` characters become `c`. */
  lemma RemoveSpacesFront(s: string) returns (n: nat, c: char)
    requires s != []
    ensures 0 < n <= |s| && RemoveSpaces(s) == [c] + RemoveSpaces(s[n..])
    ensures IsWhitespace(c) <==> IsWhitespace(s[0])
    ensures IsWhitespace(c) ==> c == ' ' && (n == |s| || !IsWhitespace(s[n]))
    ensures n == |s| ==> (IsWhitespace(s[0]) <==> IsWhitespace(s[|s| - 1]))
  {
    n := if IsWhitespace(s[0]) then LeadingRun(s, IsWhitespace) else 1;
    c := if IsWhitespace(s[0]) then ' ' else s[0];
  }

  /** The result has only plain spaces as whitespace and never two in a row. */
  lemma {:induction false} RemoveSpacesCollapsed(s: string)
    ensures IsCollapsed(RemoveSpaces(s))
    decreases |s|
  {
    if s != [] {
      var n, c := RemoveSpacesFront(s);
      RemoveSpacesCollapsed(s[n..]);
      if n < |s| {
        RemoveSpacesEnds(s[n..]);
        assert s[n..][0] == s[n];
      }
      CollapsedCons(c, RemoveSpaces(s[n..]));
    }
  }

  /** Neither a leading nor a trailing run is dropped: the result starts
      (ends) with whitespace exactly when the input does. */
  lemma {:induction false} RemoveSpacesEnds(s: string)
    ensures s != [] ==> (IsWhitespace(RemoveSpaces(s)[0]) <==> IsWhitespace(s[0]))
    ensures s != [] ==> (IsWhitespace(RemoveSpaces(s)[|RemoveSpaces(s)| - 1]) <==> IsWhitespace(s[|s| - 1]))
    decreases |s|
  {
    if s != [] {
      var n, c := RemoveSpacesFront(s);
      var rest := RemoveSpaces(s[n..]);
      if n < |s| {
        RemoveSpacesEnds(s[n..]);
        assert s[n..][|s[n..]| - 1] == s[|s| - 1];
        assert ([c] + rest)[|rest|] == rest[|rest| - 1];
      }
    }
  }

  /** A reference reading of "each maximal whitespace run becomes one space",
      one character at a time: a whitespace character followed by another
      contributes nothing, the last one of a run contributes a space, and
      any other character contributes itself. */
  function CollapseRuns(s: string): string {
    if s == [] then []
    else
      var head :=
        if !IsWhitespace(s[0]) then [s[0]]
        else if |s| > 1 && IsWhitespace(s[1]) then []
        else [' '];
      head + CollapseRuns(s[1..])
  }

  /** A whitespace run of length `n` at the front contributes exactly one space. */
  lemma {:induction false} CollapseRunsOfRun(s: string, n: nat)
    requires 0 < n <= |s|
    requires forall i :: 0 <= i < n ==> IsWhitespace(s[i])
    requires n == |s| || !IsWhitespace(s[n])
    ensures CollapseRuns(s) == [' '] + CollapseRuns(s[n..])
    decreases n
  {
    if n > 1 {
      CollapseRunsOfRun(s[1..], n - 1);
      assert s[1..][n - 1..] == s[n..];
    }
  }

  /** The scanner and the reference reading agree on every input. */
  lemma {:induction false} RemoveSpacesCollapsesRuns(s: string)
    ensures RemoveSpaces(s) == CollapseRuns(s)
    decreases |s|
  {
    if s != [] {
      if IsWhitespace(s[0]) {
        var n := LeadingRun(s, IsWhitespace);
        CollapseRunsOfRun(s, n);
        RemoveSpacesCollapsesRuns(s[n..]);
      } else {
        RemoveSpacesCollapsesRuns(s[1..]);
      }
    }
  }

  /** Only whitespace is removed or rewritten, so the non-whitespace
      characters are exactly those of the input, in order. */
  lemma {:induction false} RemoveSpacesKeepsNonWhitespace(s: string)
    ensures Keep(RemoveSpaces(s), NotWhitespace) == Keep(s, NotWhitespace)
    decreases |s|
  {
    if s != [] {
      var n := if IsWhitespace(s[0]) then LeadingRun(s, IsWhitespace) else 1;
      var head := if IsWhitespace(s[0]) then [' '] else [s[0]];
      var rest := RemoveSpaces(s[n..]);
      assert RemoveSpaces(s) == head + rest;
      RemoveSpacesKeepsNonWhitespace(s[n..]);
      assert s == s[..n] + s[n..];
      KeepConcat(s[..n], s[n..], NotWhitespace);
      KeepConcat(head, rest, NotWhitespace);
      if IsWhitespace(s[0]) {
        KeepAllOrNone(s[..n], NotWhitespace);
        KeepAllOrNone(head, NotWhitespace);
      } else {
        assert s[..n] == head;
      }
    }
  }

  lemma CollapsedTail(s: string)
    requires s != [] && IsCollapsed(s)
    ensures IsCollapsed(s[1..])
  {
    forall i | 0 < i < |s[1..]|
      ensures !IsWhitespace(s[1..][i - 1]) || !IsWhitespace(s[1..][i])
    {
      assert s[1..][i - 1] == s[i] && s[1..][i] == s[i + 1];
    }
  }

  /** A text that is already collapsed is left unchanged. */
  lemma {:induction false} RemoveSpacesUnchanged(s: string)
    requires IsCollapsed(s)
    ensures RemoveSpaces(s) == s
    decreases |s|
  {
    if s != [] {
      CollapsedTail(s);
      RemoveSpacesUnchanged(s[1..]);
      if IsWhitespace(s[0]) {
        assert s[0] == ' ';
        assert |s| == 1 || !IsWhitespace(s[1]);
        LeadingRunOfConcat([s[0]], s[1..], IsWhitespace);
        assert [s[0]] + s[1..] == s;
        assert RemoveSpaces(s) == [' '] + RemoveSpaces(s[1..]);
      } else {
        assert RemoveSpaces(s) == [s[0]] + RemoveSpaces(s[1..]);
      }
    }
  }

  lemma RemoveSpacesIdempotent(s: string)
    ensures RemoveSpaces(RemoveSpaces(s)) == RemoveSpaces(s)
  {
    RemoveSpacesCollapsed(s);
    RemoveSpacesUnchanged(RemoveSpaces(s));
  }
}
