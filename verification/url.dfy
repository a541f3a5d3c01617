/** `remove_url`: `re.sub(r'https?://\S+|www\.\S+', '', text)`. */
module Url {
  import opened Chars
  import opened Seqs

  predicate StartsWith(s: string, prefix: string) {
    |prefix| <= |s| && s[..|prefix|] == prefix
  }

  /** The pattern `prefix\S+` matches at the front of `s`: the prefix
      followed by at least one non-whitespace character. */
  predicate PrefixThenNonWhitespace(s: string, prefix: string) {
    StartsWith(s, prefix) && |prefix| < |s| && !IsWhitespace(s[|prefix|])
  }

  /** `https?://\S+|www\.\S+` matches at the front of `s`. */
  predicate UrlStartsAt(s: string) {
    || PrefixThenNonWhitespace(s, "https://")
    || PrefixThenNonWhitespace(s, "http://")
    || PrefixThenNonWhitespace(s, "www.")
  }

  /** Length of the literal part of the alternative that matches, tried in
      the order the regular expression tries them (`https://` before
      `http://`, the first alternative before `www.`); 0 when none does.
      The literal part and the character after it lie inside the leading
      run of non-whitespace characters. */
  function SchemeLength(s: string): (k: nat)
    ensures k > 0 <==> UrlStartsAt(s)
    ensures k > 0 ==> k < LeadingRun(s, NotWhitespace)
  {
    if PrefixThenNonWhitespace(s, "https://") then
      assert forall i :: 0 <= i < 8 ==> s[i] == "https://"[i];
      LeadingRunSkip(s, 9, NotWhitespace);
      8
    else if PrefixThenNonWhitespace(s, "http://") then
      assert forall i :: 0 <= i < 7 ==> s[i] == "http://"[i];
      LeadingRunSkip(s, 8, NotWhitespace);
      7
    else if PrefixThenNonWhitespace(s, "www.") then
      assert forall i :: 0 <= i < 4 ==> s[i] == "www."[i];
      LeadingRunSkip(s, 5, NotWhitespace);
      4
    else 0
  }

  /** Whether a URL starts at the front depends only on the literal part and
      the character after it. */
  lemma UrlStartIsLocal(x: string, y: string)
    requires UrlStartsAt(x)
    requires SchemeLength(x) < |y| && y[..SchemeLength(x) + 1] == x[..SchemeLength(x) + 1]
    ensures UrlStartsAt(y)
  {
    var k := SchemeLength(x);
    assert y[..k] == x[..k] && y[k] == x[k] by {
      assert y[..k] == y[..k + 1][..k] && x[..k] == x[..k + 1][..k];
      assert y[k] == y[..k + 1][k] && x[k] == x[..k + 1][k];
    }
  }

  /** Length of the match of `https?://\S+|www\.\S+` at the front of `s`, 0
      when the pattern does not match there. `\S+` is greedy, so a match
      covers the whole leading run of non-whitespace characters: it ends
      just before the next whitespace character or at the end of the text. */
  function UrlLength(s: string): (n: nat)
    ensures n <= |s|
    ensures n > 0 <==> UrlStartsAt(s)
    ensures n > 0 ==> n == LeadingRun(s, NotWhitespace)
  {
    if SchemeLength(s) == 0 then 0 else LeadingRun(s, NotWhitespace)
  }

  /** The substitution: scanning left to right, each match is deleted
      (replaced by nothing) and scanning resumes after it; any other
      character is kept. Nothing is inserted and the order is kept. */
  function RemoveUrl(s: string): (r: string)
    ensures |r| <= |s|
    decreases |s|
  {
    if s == [] then []
    else
      var n := UrlLength(s);
      if n > 0 then RemoveUrl(s[n..])
      else [s[0]] + RemoveUrl(s[1..])
  }

  lemma {:induction false} RemoveUrlIsSubsequence(s: string)
    ensures IsSubsequence(RemoveUrl(s), s)
    decreases |s|
  {
    if s != [] {
      var n := UrlLength(s);
      if n > 0 {
        RemoveUrlIsSubsequence(s[n..]);
        SubsequenceOfSuffix(RemoveUrl(s[n..]), s, n);
      } else {
        RemoveUrlIsSubsequence(s[1..]);
        assert RemoveUrl(s)[1..] == RemoveUrl(s[1..]);
      }
    }
  }

  /** A character where no URL starts is kept as the first character. */
  lemma RemoveUrlKeepsHead(s: string)
    requires s != [] && !UrlStartsAt(s)
    ensures RemoveUrl(s) == [s[0]] + RemoveUrl(s[1..])
  {
  }

  /** The text before the first URL is kept verbatim: when no URL starts in
      the first `i` positions, those characters come out unchanged, ahead of
      whatever the rest of the text becomes. So a deleted span always starts
      with `http://`, `https://` or `www.`. */
  lemma RemoveUrlKeepsPrefix(s: string, i: nat)
    requires i <= |s|
    requires forall j :: 0 <= j < i ==> !UrlStartsAt(s[j..])
    ensures RemoveUrl(s) == s[..i] + RemoveUrl(s[i..])
  {
    forall j | 0 <= j < i
      ensures RemoveUrl(s[j..]) == [s[j]] + RemoveUrl(s[j + 1..])
    {
      RemoveUrlKeepsHead(s[j..]);
      assert s[j..][1..] == s[j + 1..];
    }
    CopiesPrefix(RemoveUrl, s, i);
  }

  /** A match never contains whitespace, so every whitespace character of
      the input survives, in order, and no whitespace is added. */
  lemma {:induction false} RemoveUrlKeepsWhitespace(s: string)
    ensures Keep(RemoveUrl(s), IsWhitespace) == Keep(s, IsWhitespace)
    decreases |s|
  {
    if s != [] {
      var n := UrlLength(s);
      if n > 0 {
        RemoveUrlKeepsWhitespace(s[n..]);
        assert s == s[..n] + s[n..];
        KeepConcat(s[..n], s[n..], IsWhitespace);
        KeepAllOrNone(s[..n], IsWhitespace);
      } else {
        RemoveUrlKeepsWhitespace(s[1..]);
        assert ([s[0]] + RemoveUrl(s[1..]))[1..] == RemoveUrl(s[1..]);
      }
    }
  }

  /** After a match the result starts with whitespace or is empty. */
  lemma RemoveUrlAfterMatch(t: string)
    requires t != [] && UrlLength(t) > 0
    ensures LeadingRun(RemoveUrl(t), NotWhitespace) == 0
  {
    var rest := t[UrlLength(t)..];
    assert RemoveUrl(t) == RemoveUrl(rest);
    if rest != [] {
      assert IsWhitespace(rest[0]);
      RemoveUrlKeepsHead(rest);
    }
  }

  /** The leading non-whitespace run of the result is copied from the front
      of the input. */
  lemma {:induction false} RemoveUrlLeadingRun(t: string)
    ensures RunIsPrefixOf(RemoveUrl(t), t, NotWhitespace)
    decreases |t|
  {
    if t != [] {
      if UrlLength(t) > 0 {
        RemoveUrlAfterMatch(t);
      } else {
        RemoveUrlLeadingRun(t[1..]);
        RemoveUrlKeepsHead(t);
        RunIsPrefixOfCons(t[0], RemoveUrl(t[1..]), t[1..], NotWhitespace);
        assert [t[0]] + t[1..] == t;
      }
    }
  }

  /** No URL starts anywhere in `s`. */
  ghost predicate UrlFree(s: string) {
    forall i :: 0 <= i < |s| ==> !UrlStartsAt(s[i..])
  }

  /** If `t` and `u` share their leading non-whitespace run up to the length
      of `u`'s, no URL can start at the front of `c + u` unless one starts at
      the front of `c + t`. */
  lemma NoUrlAfterCons(c: char, u: string, t: string)
    requires !UrlStartsAt([c] + t)
    requires RunIsPrefixOf(u, t, NotWhitespace)
    ensures !UrlStartsAt([c] + u)
  {
    var x, y := [c] + u, [c] + t;
    RunIsPrefixOfCons(c, u, t, NotWhitespace);
    if UrlStartsAt(x) {
      var k := SchemeLength(x);
      var n := LeadingRun(x, NotWhitespace);
      assert x[..k + 1] == x[..n][..k + 1];
      assert y[..k + 1] == y[..n][..k + 1];
      UrlStartIsLocal(x, y);
      assert false;
    }
  }

  lemma UrlFreeCons(c: char, tail: string)
    requires !UrlStartsAt([c] + tail) && UrlFree(tail)
    ensures UrlFree([c] + tail)
  {
    var x := [c] + tail;
    forall i | 0 <= i < |x|
      ensures !UrlStartsAt(x[i..])
    {
      if i > 0 {
        assert x[i..] == tail[i - 1..];
      } else {
        assert x[i..] == x;
      }
    }
  }

  /** No URL is left in the result: a deletion always stops at whitespace or
      at the end, so it cannot join two pieces into a new match. */
  lemma {:induction false} RemoveUrlLeavesNoUrl(s: string)
    ensures UrlFree(RemoveUrl(s))
    decreases |s|
  {
    if s != [] {
      var n := UrlLength(s);
      if n > 0 {
        RemoveUrlLeavesNoUrl(s[n..]);
      } else {
        RemoveUrlLeavesNoUrl(s[1..]);
        RemoveUrlLeadingRun(s[1..]);
        var tail := RemoveUrl(s[1..]);
        assert [s[0]] + s[1..] == s;
        NoUrlAfterCons(s[0], tail, s[1..]);
        UrlFreeCons(s[0], tail);
        assert RemoveUrl(s) == [s[0]] + tail;
      }
    }
  }

  /** A text in which no URL starts is left unchanged. */
  lemma {:induction false} RemoveUrlUnchanged(s: string)
    requires UrlFree(s)
    ensures RemoveUrl(s) == s
    decreases |s|
  {
    if s != [] {
      assert s[0..] == s;
      assert UrlFree(s[1..]) by {
        forall i | 0 <= i < |s[1..]|
          ensures !UrlStartsAt(s[1..][i..])
        {
          assert s[1..][i..] == s[i + 1..];
        }
      }
      RemoveUrlUnchanged(s[1..]);
    }
  }

  lemma RemoveUrlIdempotent(s: string)
    ensures RemoveUrl(RemoveUrl(s)) == RemoveUrl(s)
  {
    RemoveUrlLeavesNoUrl(s);
    RemoveUrlUnchanged(RemoveUrl(s));
  }

  /** Every alternative of the pattern holds a ':' or a '.', so a text with
      neither is left unchanged. */
  lemma RemoveUrlWithoutColonOrDot(s: string)
    requires ':' !in s && '.' !in s
    ensures RemoveUrl(s) == s
  {
    forall i | 0 <= i < |s|
      ensures !UrlStartsAt(s[i..])
    {
      var x := s[i..];
      if |x| >= 8 {
        assert x[..8][5] == s[i + 5];
      }
      if |x| >= 7 {
        assert x[..7][4] == s[i + 4];
      }
      if |x| >= 4 {
        assert x[..4][3] == s[i + 3];
      }
    }
    RemoveUrlUnchanged(s);
  }

  /** Whether a URL starts at the front depends only on the leading run of
      non-whitespace characters. */
  lemma UrlStartSharedRun(x: string, y: string)
    requires UrlStartsAt(x)
    requires LeadingRun(x, NotWhitespace) <= |y|
    requires x[..LeadingRun(x, NotWhitespace)] == y[..LeadingRun(x, NotWhitespace)]
    ensures UrlStartsAt(y)
  {
    var k := SchemeLength(x);
    var m := LeadingRun(x, NotWhitespace);
    assert x[..k + 1] == x[..m][..k + 1];
    assert y[..k + 1] == y[..m][..k + 1];
    UrlStartIsLocal(x, y);
  }

  /** A match cannot run past whitespace, so whatever follows a text that
      ends in whitespace does not change the match at its front. */
  lemma UrlLengthBeforeWhitespace(x: string, b: string)
    requires x != [] && IsWhitespace(x[|x| - 1])
    ensures UrlLength(x + b) == UrlLength(x)
  {
    var y := x + b;
    var m := LeadingRun(x, NotWhitespace);
    assert m < |x|;
    LeadingRunInside(x, b, NotWhitespace);
    assert x[..m] == y[..m];
    if UrlStartsAt(x) {
      UrlStartSharedRun(x, y);
    }
    if UrlStartsAt(y) {
      UrlStartSharedRun(y, x);
    }
  }

  /** One scanning step: a match at the front is dropped, otherwise the
      first character is kept. */
  lemma RemoveUrlUnfold(s: string) returns (m: nat, head: string)
    requires s != []
    ensures m == (if UrlLength(s) > 0 then UrlLength(s) else 1)
    ensures head == (if UrlLength(s) > 0 then [] else [s[0]])
    ensures RemoveUrl(s) == head + RemoveUrl(s[m..])
  {
    m := if UrlLength(s) > 0 then UrlLength(s) else 1;
    head := if UrlLength(s) > 0 then [] else [s[0]];
  }

  /** The first scanning step on `a + b` is the one on `a` when `a` ends in
      whitespace. */
  lemma RemoveUrlUnfoldBefore(a: string, b: string) returns (m: nat, head: string)
    requires a != [] && IsWhitespace(a[|a| - 1])
    ensures m == (if UrlLength(a) > 0 then UrlLength(a) else 1)
    ensures head == (if UrlLength(a) > 0 then [] else [a[0]])
    ensures RemoveUrl(a + b) == head + RemoveUrl(a[m..] + b)
  {
    UrlLengthBeforeWhitespace(a, b);
    assert (a + b)[0] == a[0];
    m, head := RemoveUrlUnfold(a + b);
    assert (a + b)[m..] == a[m..] + b;
  }

  /** The substitution can be done separately on the two sides of a cut made
      just after a whitespace character. */
  lemma {:induction false} RemoveUrlSplitAtWhitespace(a: string, b: string)
    requires a != [] && IsWhitespace(a[|a| - 1])
    ensures RemoveUrl(a + b) == RemoveUrl(a) + RemoveUrl(b)
    decreases |a|
  {
    var m, head := RemoveUrlUnfold(a);
    var _, _ := RemoveUrlUnfoldBefore(a, b);
    var rest := a[m..];
    if m < |a| {
      assert rest[|rest| - 1] == a[|a| - 1];
      RemoveUrlSplitAtWhitespace(rest, b);
    } else {
      assert rest == [] && rest + b == b;
    }
    DistributesStep(RemoveUrl, a, b, rest, head);
  }

  /** A single character is never a match. */
  lemma RemoveUrlOfChar(c: char)
    ensures RemoveUrl([c]) == [c]
  {
    assert !UrlStartsAt([c]);
    assert [c][1..] == [];
  }

  /** A match covers a whole word up to the whitespace after it. */
  lemma UrlLengthOfWord(u: string)
    requires |u| >= 2 && UrlStartsAt(u) && IsWhitespace(u[|u| - 1])
    requires forall i :: 0 <= i < |u| - 1 ==> !IsWhitespace(u[i])
    ensures UrlLength(u) == |u| - 1
  {
    var n := |u| - 1;
    assert u == u[..n] + [u[n]];
    LeadingRunOfConcat(u[..n], [u[n]], NotWhitespace);
  }

  /** A match that stops one character before the end: the match goes, the
      last character stays. */
  lemma RemoveUrlOfWord(u: string)
    requires |u| >= 2 && UrlLength(u) == |u| - 1
    ensures RemoveUrl(u) == [u[|u| - 1]]
  {
    var c := u[|u| - 1];
    assert u[|u| - 1..] == [c];
    RemoveUrlOfChar(c);
  }

  /** A URL between two texts that are left alone, with whitespace on both
      sides of it: only the URL is deleted. */
  lemma RemoveUrlBetween(a: string, u: string, c: string)
    requires a != [] && IsWhitespace(a[|a| - 1]) && RemoveUrl(a) == a
    requires |u| >= 2 && UrlLength(u) == |u| - 1 && IsWhitespace(u[|u| - 1])
    requires RemoveUrl(c) == c
    ensures RemoveUrl(a + (u + c)) == a + [u[|u| - 1]] + c
  {
    RemoveUrlOfWord(u);
    RemoveUrlSplitAtWhitespace(u, c);
    RemoveUrlSplitAtWhitespace(a, u + c);
  }

  lemma ExampleUrl(u: string)
    requires u == "https://example.com "
    ensures |u| >= 2 && UrlStartsAt(u) && IsWhitespace(u[|u| - 1])
    ensures forall i :: 0 <= i < |u| - 1 ==> !IsWhitespace(u[i])
  {
    assert u[..8] == "https://";
  }

  lemma VisitPieces(s: string) returns (a: string, u: string, c: string)
    requires s == "visit https://example.com now"
    ensures a == "visit " && u == "https://example.com " && c == "now"
    ensures s == a + (u + c)
    ensures |u| == 20 && a + [u[19]] + c == "visit  now"
  {
    a, u, c := s[..6], s[6..26], s[26..];
    assert s == a + (u + c);
  }

  /** The URL and nothing else is deleted; both spaces around it stay. */
  lemma VisitExample(s: string)
    requires s == "visit https://example.com now"
    ensures RemoveUrl(s) == "visit  now"
  {
    var a, u, c := VisitPieces(s);
    ExampleUrl(u);
    UrlLengthOfWord(u);
    RemoveUrlWithoutColonOrDot(a);
    RemoveUrlWithoutColonOrDot(c);
    RemoveUrlBetween(a, u, c);
  }
}
