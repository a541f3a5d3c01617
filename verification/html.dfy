/** `remove_html`: `re.sub(r'<.*?>', '', text)`. Without the DOTALL flag `.`
    matches any character except a line feed, and `*?` is lazy. */
module Html {
  import opened Chars
  import opened Seqs

  /** A '>' occurs in `t` before the first line feed (or before the end when
      there is none). */
  ghost predicate ClosesOnLine(t: string) {
    '>' in t[..LeadingRun(t, NotNewline)]
  }

  /** A character other than '>' and the line feed does not decide whether
      the line closes. */
  lemma ClosesOnLineCons(c: char, t: string)
    requires c != '>' && c != '\n'
    ensures ClosesOnLine([c] + t) <==> ClosesOnLine(t)
  {
    LeadingRunSkip([c] + t, 1, NotNewline);
    assert ([c] + t)[1..] == t;
    var n := LeadingRun(t, NotNewline);
    assert ([c] + t)[..n + 1] == [c] + t[..n];
  }

  /** A line feed at the front closes the line at once. */
  lemma ClosesOnLineNewline(t: string)
    ensures !ClosesOnLine(['\n'] + t)
  {
    assert LeadingRun(['\n'] + t, NotNewline) == 0;
  }

  /** Length of the match of `.*?>` at the front of `t`: the lazy quantifier
      takes characters other than the line feed one at a time and stops at
      the first '>'. 0 when there is no '>' before the line ends. */
  function LazyCloseLength(t: string): (k: nat)
    ensures k <= |t|
    ensures k > 0 <==> ClosesOnLine(t)
    ensures k > 0 ==> t[k - 1] == '>' && forall i :: 0 <= i < k - 1 ==> t[i] != '\n' && t[i] != '>'
    decreases |t|
  {
    if t == [] then 0
    else if t[0] == '\n' then
      ClosesOnLineNewline(t[1..]);
      assert ['\n'] + t[1..] == t;
      0
    else if t[0] == '>' then
      assert LeadingRun(t, NotNewline) >= 1;
      assert t[..LeadingRun(t, NotNewline)][0] == '>';
      1
    else
      ClosesOnLineCons(t[0], t[1..]);
      assert [t[0]] + t[1..] == t;
      var k := LazyCloseLength(t[1..]);
      if k == 0 then 0 else k + 1
  }

  /** Length of the match of `<.*?>` at the front of `s`, 0 when it does not
      match there: a '<', then the first '>' after it with no line feed in
      between. */
  function TagLength(s: string): (n: nat)
    ensures n <= |s|
    ensures n > 0 <==> s != [] && s[0] == '<' && ClosesOnLine(s[1..])
    ensures n > 0 ==> 2 <= n && s[0] == '<' && s[n - 1] == '>'
    ensures n > 0 ==> forall i :: 0 < i < n - 1 ==> s[i] != '\n' && s[i] != '>'
  {
    if s != [] && s[0] == '<' then
      var k := LazyCloseLength(s[1..]);
      if k == 0 then 0 else k + 1
    else 0
  }

  /** The substitution: scanning left to right, each match is deleted and
      scanning resumes after it; any other character is kept. Nothing is
      inserted and the order is kept. */
  function RemoveHtml(s: string): (r: string)
    ensures |r| <= |s|
    decreases |s|
  {
    if s == [] then []
    else
      var n := TagLength(s);
      if n > 0 then RemoveHtml(s[n..])
      else [s[0]] + RemoveHtml(s[1..])
  }

  lemma {:induction false} RemoveHtmlIsSubsequence(s: string)
    ensures IsSubsequence(RemoveHtml(s), s)
    decreases |s|
  {
    if s != [] {
      var n := TagLength(s);
      if n > 0 {
        RemoveHtmlIsSubsequence(s[n..]);
        SubsequenceOfSuffix(RemoveHtml(s[n..]), s, n);
      } else {
        RemoveHtmlIsSubsequence(s[1..]);
        assert RemoveHtml(s)[1..] == RemoveHtml(s[1..]);
      }
    }
  }

  /** A match holds no line feed. */
  lemma TagHasNoNewline(s: string)
    requires TagLength(s) > 0
    ensures Keep(s, IsNewline) == Keep(s[TagLength(s)..], IsNewline)
  {
    var n := TagLength(s);
    assert s == s[..n] + s[n..];
    KeepConcat(s[..n], s[n..], IsNewline);
    assert forall i :: 0 <= i < n ==> !IsNewline(s[..n][i]);
    KeepAllOrNone(s[..n], IsNewline);
  }

  /** A match never contains a line feed, so every line feed survives, in
      order, and none is added. */
  lemma {:induction false} RemoveHtmlKeepsNewlines(s: string)
    ensures Keep(RemoveHtml(s), IsNewline) == Keep(s, IsNewline)
    decreases |s|
  {
    if s != [] {
      var n := TagLength(s);
      if n > 0 {
        RemoveHtmlKeepsNewlines(s[n..]);
        TagHasNoNewline(s);
      } else {
        RemoveHtmlKeepsNewlines(s[1..]);
        assert RemoveHtml(s)[1..] == RemoveHtml(s[1..]);
      }
    }
  }

  /** Deleting tags cannot bring a '>' onto a line that had none. */
  lemma {:induction false} RemoveHtmlClosesOnLine(t: string)
    ensures ClosesOnLine(RemoveHtml(t)) ==> ClosesOnLine(t)
    decreases |t|
  {
    if t != [] {
      var n := TagLength(t);
      if n > 0 {
        // the tag itself closes on the first line of t
        assert ['<'] + t[1..] == t;
        ClosesOnLineCons('<', t[1..]);
      } else {
        var tail := RemoveHtml(t[1..]);
        assert RemoveHtml(t) == [t[0]] + tail;
        if t[0] == '\n' {
          ClosesOnLineNewline(tail);
        } else if t[0] == '>' {
          assert LeadingRun(t, NotNewline) >= 1;
          assert t[..LeadingRun(t, NotNewline)][0] == '>';
        } else {
          RemoveHtmlClosesOnLine(t[1..]);
          ClosesOnLineCons(t[0], tail);
          ClosesOnLineCons(t[0], t[1..]);
          assert [t[0]] + t[1..] == t;
        }
      }
    }
  }

  /** No tag starts anywhere in `s`: no '<' is followed by a '>' on the
      same line. */
  ghost predicate TagFree(s: string) {
    forall i :: 0 <= i < |s| ==> TagLength(s[i..]) == 0
  }

  /** No tag is left in the result: a '<' that survives had no '>' after it
      on its line, and deleting tags cannot bring one there. */
  lemma {:induction false} RemoveHtmlLeavesNoTag(s: string)
    ensures TagFree(RemoveHtml(s))
    decreases |s|
  {
    if s != [] {
      var n := TagLength(s);
      if n > 0 {
        RemoveHtmlLeavesNoTag(s[n..]);
      } else {
        RemoveHtmlLeavesNoTag(s[1..]);
        var tail := RemoveHtml(s[1..]);
        var x := [s[0]] + tail;
        RemoveHtmlClosesOnLine(s[1..]);
        assert x[1..] == tail;
        assert TagLength(x) == 0;
        forall i | 0 <= i < |x|
          ensures TagLength(x[i..]) == 0
        {
          if i > 0 {
            assert x[i..] == tail[i - 1..];
          } else {
            assert x[i..] == x;
          }
        }
      }
    }
  }

  /** A text without tags is left unchanged. */
  lemma {:induction false} RemoveHtmlUnchanged(s: string)
    requires TagFree(s)
    ensures RemoveHtml(s) == s
    decreases |s|
  {
    if s != [] {
      assert s[0..] == s;
      assert TagFree(s[1..]) by {
        forall i | 0 <= i < |s[1..]|
          ensures TagLength(s[1..][i..]) == 0
        {
          assert s[1..][i..] == s[i + 1..];
        }
      }
      RemoveHtmlUnchanged(s[1..]);
    }
  }

  lemma RemoveHtmlIdempotent(s: string)
    ensures RemoveHtml(RemoveHtml(s)) == RemoveHtml(s)
  {
    RemoveHtmlLeavesNoTag(s);
    RemoveHtmlUnchanged(RemoveHtml(s));
  }

  /** The text before the first tag is kept verbatim: when no tag starts in
      the first `i` positions, those characters come out unchanged, ahead of
      whatever the rest of the text becomes. */
  lemma RemoveHtmlKeepsPrefix(s: string, i: nat)
    requires i <= |s|
    requires forall j :: 0 <= j < i ==> TagLength(s[j..]) == 0
    ensures RemoveHtml(s) == s[..i] + RemoveHtml(s[i..])
  {
    forall j | 0 <= j < i
      ensures RemoveHtml(s[j..]) == [s[j]] + RemoveHtml(s[j + 1..])
    {
      RemoveHtmlKeepsFirst(s[j..]);
      assert s[j..][1..] == s[j + 1..];
    }
    CopiesPrefix(RemoveHtml, s, i);
  }

  /** Where no tag starts, the first character is kept. */
  lemma RemoveHtmlKeepsFirst(s: string)
    requires s != [] && TagLength(s) == 0
    ensures RemoveHtml(s) == [s[0]] + RemoveHtml(s[1..])
  {
  }

  /** A tag at the front is deleted and the scan resumes after it. */
  lemma RemoveHtmlSkipsTag(s: string)
    requires TagLength(s) > 0
    ensures RemoveHtml(s) == RemoveHtml(s[TagLength(s)..])
  {
  }

  /** The pieces of "<b>bold</b> text" after its opening tag. */
  lemma BoldPieces(s: string) returns (x: string, y: string)
    requires s == "<b>bold</b> text"
    ensures x == s[3..] && x == "bold</b> text"
    ensures y == x[4..] && y == "</b> text"
    ensures x[..4] == "bold" && y[4..] == " text"
    ensures forall j :: 0 <= j < 4 ==> x[j] != '<'
    ensures '<' !in y[4..]
    ensures x[..4] + y[4..] == "bold text"
  {
    x := s[3..];
    assert x == "bold</b> text" by {
      assert forall i :: 0 <= i < |x| ==> x[i] == s[3 + i];
    }
    y := x[4..];
    assert y == "</b> text" by {
      assert forall i :: 0 <= i < |y| ==> y[i] == x[4 + i];
    }
    assert x[..4] == "bold" by {
      assert forall i :: 0 <= i < 4 ==> x[..4][i] == x[i];
    }
    assert y[4..] == " text" by {
      assert forall i :: 0 <= i < 5 ==> y[4..][i] == y[4 + i];
    }
  }

  /** A tag of `n` characters: '<', then characters other than '>' and the
      line feed, then '>'. */
  lemma TagOfLength(s: string, n: nat)
    requires 2 <= n <= |s| && s[0] == '<' && s[n - 1] == '>'
    requires forall i :: 0 < i < n - 1 ==> s[i] != '\n' && s[i] != '>'
    ensures TagLength(s) == n
  {
    var t := s[1..];
    var k := LazyCloseLength(t);
    assert t[n - 2] == '>';
    assert LeadingRun(t, NotNewline) >= n - 1 by {
      LeadingRunSkip(t, n - 1, NotNewline);
    }
    assert t[..LeadingRun(t, NotNewline)][n - 2] == '>';
    assert k > 0;
  }

  /** "<b>" is deleted. */
  lemma BoldOpening(s: string, x: string)
    requires s == "<b>bold</b> text" && x == s[3..]
    ensures RemoveHtml(s) == RemoveHtml(x)
  {
    assert s[0] == '<' && s[1] == 'b' && s[2] == '>';
    TagOfLength(s, 3);
    RemoveHtmlSkipsTag(s);
  }

  /** "bold" is kept. */
  lemma BoldWord(x: string, y: string)
    requires x == "bold</b> text" && y == x[4..]
    requires x[..4] == "bold"
    requires forall j :: 0 <= j < 4 ==> x[j] != '<'
    ensures RemoveHtml(x) == x[..4] + RemoveHtml(y)
  {
    assert forall j :: 0 <= j < 4 ==> x[j..][0] == x[j];
    RemoveHtmlKeepsPrefix(x, 4);
  }

  /** "</b>" is deleted and " text" is kept. */
  lemma BoldClosing(y: string)
    requires y == "</b> text" && y[4..] == " text" && '<' !in y[4..]
    ensures RemoveHtml(y) == y[4..]
  {
    assert y[0] == '<' && y[1] == '/' && y[2] == 'b' && y[3] == '>';
    TagOfLength(y, 4);
    RemoveHtmlSkipsTag(y);
    RemoveHtmlWithoutOpen(y[4..]);
  }

  /** "<b>bold</b> text": both tags go and the text between and after them
      stays. */
  lemma BoldExample(s: string)
    requires s == "<b>bold</b> text"
    ensures RemoveHtml(s) == "bold text"
  {
    var x, y := BoldPieces(s);
    BoldOpening(s, x);
    BoldWord(x, y);
    BoldClosing(y);
  }

  /** A text without '<' is left unchanged. */
  lemma RemoveHtmlWithoutOpen(s: string)
    requires '<' !in s
    ensures RemoveHtml(s) == s
  {
    assert forall i :: 0 <= i < |s| ==> s[i..][0] == s[i];
    RemoveHtmlUnchanged(s);
  }
}
