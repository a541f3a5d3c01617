/** `preprocess`: a list of step functions applied one after the other,
    each to the text the previous one returned. */
module Pipeline {
  import opened Chars
  import opened Seqs
  import opened Url
  import opened Html
  import opened StopWords
  import opened Punctuation
  import opened Newlines
  import opened Spaces
  import opened Case

  /** The step functions a step list can hold. */
  datatype Step =
    | RemoveUrlStep
    | RemoveHtmlStep
    | RemoveStopWordsStep
    | RemovePunctuationStep
    | RemoveNewlinesStep
    | RemoveSpacesStep
    | ToLowerStep

  /** The non-whitespace characters of `out` are those of `text` with some
      deleted, in order: nothing is inserted and no character changes. */
  ghost predicate KeepsCharacters(text: string, out: string) {
    IsSubsequence(Keep(out, NotWhitespace), Keep(text, NotWhitespace))
  }

  lemma KeepsCharactersTransitive(a: string, b: string, c: string)
    ensures KeepsCharacters(a, b) && KeepsCharacters(b, c) ==> KeepsCharacters(a, c)
  {
    if KeepsCharacters(a, b) && KeepsCharacters(b, c) {
      SubsequenceTransitive(Keep(c, NotWhitespace), Keep(b, NotWhitespace), Keep(a, NotWhitespace));
    }
  }

  /** Calling one step function; the stop-word step reads the stop words.
      No step lengthens the text, and every step but lower-casing only
      deletes characters or rewrites whitespace. */
  function Apply(step: Step, text: string, stops: set<string>): (r: string)
    ensures |r| <= |text|
    ensures step != ToLowerStep ==> KeepsCharacters(text, r)
  {
    match step
    case RemoveUrlStep =>
      RemoveUrlIsSubsequence(text);
      KeepSubsequence(RemoveUrl(text), text, NotWhitespace);
      RemoveUrl(text)
    case RemoveHtmlStep =>
      RemoveHtmlIsSubsequence(text);
      KeepSubsequence(RemoveHtml(text), text, NotWhitespace);
      RemoveHtml(text)
    case RemoveStopWordsStep =>
      RemoveStopWordsKeepsCharacters(text, stops);
      RemoveStopWords(text, stops)
    case RemovePunctuationStep =>
      RemovePunctuationIsSubsequence(text);
      KeepSubsequence(RemovePunctuation(text), text, NotWhitespace);
      RemovePunctuation(text)
    case RemoveNewlinesStep =>
      RemoveNewlinesKeepsNonWhitespace(text);
      SubsequenceReflexive(Keep(text, NotWhitespace));
      RemoveNewlines(text)
    case RemoveSpacesStep =>
      RemoveSpacesKeepsNonWhitespace(text);
      SubsequenceReflexive(Keep(text, NotWhitespace));
      RemoveSpaces(text)
    case ToLowerStep => ToLower(text)
  }

  /** The text after the steps have run in order, the first step on `text`.
      The text never grows, and without lower-casing among the steps its
      non-whitespace characters are only ever deleted. */
  function ApplyAll(steps: seq<Step>, text: string, stops: set<string>): (r: string)
    ensures |r| <= |text|
    ensures ToLowerStep !in steps ==> KeepsCharacters(text, r)
    decreases |steps|
  {
    if steps == [] then
      SubsequenceReflexive(Keep(text, NotWhitespace));
      text
    else
      var last := steps[|steps| - 1];
      var before := steps[..|steps| - 1];
      assert steps == before + [last];
      var mid := ApplyAll(before, text, stops);
      KeepsCharactersTransitive(text, mid, Apply(last, mid, stops));
      Apply(last, mid, stops)
  }

  /** The list `preprocess` builds. `ToLowerStep` is not in it. */
  const DefaultSteps: seq<Step> :=
    [RemoveUrlStep, RemoveHtmlStep, RemoveStopWordsStep, RemovePunctuationStep, RemoveNewlinesStep, RemoveSpacesStep]

  /** The composition the default list amounts to. Every step is no longer
      than its input, so neither is the result. */
  function Cleaned(text: string, stops: set<string>): (r: string)
    ensures |r| <= |text|
  {
    RemoveSpaces(RemoveNewlines(RemovePunctuation(RemoveStopWords(RemoveHtml(RemoveUrl(text)), stops))))
  }

  /** Appending a step applies it to the text the earlier steps produced. */
  lemma ApplyAllSnoc(steps: seq<Step>, step: Step, text: string, stops: set<string>)
    ensures ApplyAll(steps + [step], text, stops) == Apply(step, ApplyAll(steps, text, stops), stops)
  {
    assert (steps + [step])[..|steps|] == steps;
  }

  lemma DefaultStepsAreCleaned(text: string, stops: set<string>)
    ensures ApplyAll(DefaultSteps, text, stops) == Cleaned(text, stops)
  {
    var s0: seq<Step> := [];
    var s1 := s0 + [RemoveUrlStep];
    var s2 := s1 + [RemoveHtmlStep];
    var s3 := s2 + [RemoveStopWordsStep];
    var s4 := s3 + [RemovePunctuationStep];
    var s5 := s4 + [RemoveNewlinesStep];
    var s6 := s5 + [RemoveSpacesStep];
    assert s6 == DefaultSteps;
    ApplyAllSnoc(s0, RemoveUrlStep, text, stops);
    ApplyAllSnoc(s1, RemoveHtmlStep, text, stops);
    ApplyAllSnoc(s2, RemoveStopWordsStep, text, stops);
    ApplyAllSnoc(s3, RemovePunctuationStep, text, stops);
    ApplyAllSnoc(s4, RemoveNewlinesStep, text, stops);
    ApplyAllSnoc(s5, RemoveSpacesStep, text, stops);
  }

  /** The loop of `preprocess`: the text is reassigned to each step's result
      in turn, and comes out as the composition of the six steps in the
      order of the list. */
  method Preprocess(text: string, stops: set<string>) returns (r: string)
    ensures r == Cleaned(text, stops)
  {
    var steps := DefaultSteps;
    r := text;
    for i := 0 to |steps|
      invariant r == ApplyAll(steps[..i], text, stops)
    {
      assert steps[..i + 1][..i] == steps[..i];
      r := Apply(steps[i], r, stops);
    }
    assert steps[..|steps|] == steps;
    DefaultStepsAreCleaned(text, stops);
  }

  /** A text whose non-whitespace characters are those of a text without
      punctuation, and whose whitespace is all plain spaces, holds neither
      punctuation nor a line feed. */
  lemma NoPunctuationNorNewline(y: string, out: string)
    requires forall i :: 0 <= i < |y| ==> !IsPunctuation(y[i])
    requires Keep(out, NotWhitespace) == Keep(y, NotWhitespace)
    requires IsCollapsed(out)
    ensures '\n' !in out
    ensures forall i :: 0 <= i < |out| ==> !IsPunctuation(out[i])
  {
    forall i | 0 <= i < |out|
      ensures !IsPunctuation(out[i]) && out[i] != '\n'
    {
      if !IsWhitespace(out[i]) {
        assert out[i] in Keep(y, NotWhitespace);
      } else {
        PunctuationIsNotWhitespace(out[i]);
        assert out[i] == ' ';
      }
    }
  }

  /** The output has no punctuation, no line feed, no whitespace other than
      the plain space, and no two adjacent whitespace characters. */
  lemma CleanedShape(text: string, stops: set<string>)
    ensures IsCollapsed(Cleaned(text, stops))
    ensures '\n' !in Cleaned(text, stops)
    ensures forall i :: 0 <= i < |Cleaned(text, stops)| ==> !IsPunctuation(Cleaned(text, stops)[i])
  {
    var y := RemovePunctuation(RemoveStopWords(RemoveHtml(RemoveUrl(text)), stops));
    var x := RemoveNewlines(y);
    RemoveSpacesKeepsNonWhitespace(x);
    RemoveNewlinesKeepsNonWhitespace(y);
    RemoveSpacesCollapsed(x);
    NoPunctuationNorNewline(y, RemoveSpaces(x));
  }

  /** The steps only delete characters or turn whitespace into whitespace:
      the output's non-whitespace characters are a subsequence of the
      input's. In particular no letter changes case. */
  lemma CleanedKeepsCharacters(text: string, stops: set<string>)
    ensures IsSubsequence(Keep(Cleaned(text, stops), NotWhitespace), Keep(text, NotWhitespace))
  {
    DefaultStepsAreCleaned(text, stops);
    assert ToLowerStep !in DefaultSteps;
  }

  /** A line feed and a space are both whitespace, so replacing one by the
      other leaves the leading whitespace run as long as it was. */
  lemma {:induction false} LeadingWhitespaceOfNewlines(s: string)
    ensures LeadingRun(RemoveNewlines(s), IsWhitespace) == LeadingRun(s, IsWhitespace)
    decreases |s|
  {
    if s != [] {
      var t := RemoveNewlines(s);
      assert IsWhitespace(t[0]) <==> IsWhitespace(s[0]);
      if IsWhitespace(s[0]) {
        assert t[1..] == RemoveNewlines(s[1..]);
        LeadingWhitespaceOfNewlines(s[1..]);
      }
    }
  }

  /** Replacing a line feed by a space does not change how whitespace runs
      collapse, so the newline step is subsumed by the step after it. */
  lemma {:induction false} SpacesAfterNewlines(s: string)
    ensures RemoveSpaces(RemoveNewlines(s)) == RemoveSpaces(s)
    decreases |s|
  {
    if s != [] {
      var t := RemoveNewlines(s);
      LeadingWhitespaceOfNewlines(s);
      var n := if IsWhitespace(s[0]) then LeadingRun(s, IsWhitespace) else 1;
      var c := if IsWhitespace(s[0]) then ' ' else s[0];
      assert t[n..] == RemoveNewlines(s[n..]);
      assert RemoveSpaces(s) == [c] + RemoveSpaces(s[n..]);
      assert RemoveSpaces(t) == [c] + RemoveSpaces(t[n..]);
      SpacesAfterNewlines(s[n..]);
    }
  }

  /** Joining two and three tokens. */
  lemma JoinThree(a: string, b: string, c: string)
    ensures Join([b, c]) == b + " " + c
    ensures Join([a, b, c]) == a + " " + b + " " + c
  {
    var ts := [a, b, c];
    assert ts[1..] == [b, c] && ts[1..][1..] == [c] && [c][1..] == [];
    assert Join([c]) == c;
    assert Join(ts) == a + " " + (b + " " + c);
  }

  /** Filtering three tokens. */
  lemma FilterThree(a: string, b: string, c: string, stops: set<string>)
    ensures WithoutStopWords([a, b, c], stops) ==
      (if a in stops then [] else [a]) + (if b in stops then [] else [b]) + (if c in stops then [] else [c])
  {
    var ts := [a, b, c];
    assert ts[1..] == [b, c] && ts[1..][1..] == [c] && [c][1..] == [];
    var wc := if c in stops then [] else [c];
    assert WithoutStopWords([c], stops) == wc;
    var wb := if b in stops then [] else [b];
    assert WithoutStopWords([b, c], stops) == wb + wc;
  }

  /** Words joined by single spaces, with no ':', '.' or '<' and no stop
      word among them, pass the first three steps unchanged. */
  lemma FirstStepsKeepWords(ts: seq<string>, stops: set<string>)
    requires AllTokens(ts)
    requires forall i :: 0 <= i < |ts| ==> ts[i] !in stops
    requires ':' !in Join(ts) && '.' !in Join(ts) && '<' !in Join(ts)
    ensures RemoveStopWords(RemoveHtml(RemoveUrl(Join(ts))), stops) == Join(ts)
  {
    RemoveUrlWithoutColonOrDot(Join(ts));
    RemoveHtmlWithoutOpen(Join(ts));
    SplitJoin(ts);
    WithoutStopWordsKeepsAll(ts, stops);
  }

  /** Single-space-separated words are left alone by the last two steps. */
  lemma LastStepsKeepWords(t: string)
    requires IsCollapsed(t) && '\n' !in t
    ensures RemoveSpaces(RemoveNewlines(t)) == t
  {
    assert RemoveNewlines(t) == t;
    RemoveSpacesUnchanged(t);
  }

  /** Deleting one punctuation character between two texts without
      punctuation. */
  lemma RemovePunctuationBetween(a: string, p: char, c: string)
    requires IsPunctuation(p)
    requires forall i :: 0 <= i < |a| ==> !IsPunctuation(a[i])
    requires forall i :: 0 <= i < |c| ==> !IsPunctuation(c[i])
    ensures RemovePunctuation(a + ([p] + c)) == a + c
  {
    RemovePunctuationConcat(a, [p] + c);
    RemovePunctuationConcat([p], c);
    RemovePunctuationUnchanged(a);
    RemovePunctuationUnchanged(c);
    assert RemovePunctuation([p]) == [];
  }

  /** The words of a text of three words, cut at the given positions. */
  lemma ThreeWords(s: string, i: nat, j: nat) returns (ts: seq<string>)
    requires 0 < i < i + 1 < j < j + 1 < |s| && s[i] == ' ' && s[j] == ' '
    requires forall k :: 0 <= k < |s| && k != i && k != j ==> !IsWhitespace(s[k])
    ensures ts == [s[..i], s[i + 1..j], s[j + 1..]]
    ensures AllTokens(ts) && Join(ts) == s
  {
    var a, b, c := ThreeTokens(s, i, j);
    ts := [a, b, c];
    JoinThree(a, b, c);
  }

  /** The three pieces between the cuts are tokens, and joined by single
      spaces they give the text back. */
  lemma ThreeTokens(s: string, i: nat, j: nat) returns (a: string, b: string, c: string)
    requires 0 < i < i + 1 < j < j + 1 < |s| && s[i] == ' ' && s[j] == ' '
    requires forall k :: 0 <= k < |s| && k != i && k != j ==> !IsWhitespace(s[k])
    ensures a == s[..i] && b == s[i + 1..j] && c == s[j + 1..]
    ensures IsToken(a) && IsToken(b) && IsToken(c)
    ensures a + " " + b + " " + c == s
  {
    a, b, c := s[..i], s[i + 1..j], s[j + 1..];
    assert IsToken(a) by {
      forall k | 0 <= k < |a| ensures !IsWhitespace(a[k]) { assert a[k] == s[k]; }
    }
    assert IsToken(b) by {
      forall k | 0 <= k < |b| ensures !IsWhitespace(b[k]) { assert b[k] == s[i + 1 + k]; }
    }
    assert IsToken(c) by {
      forall k | 0 <= k < |c| ensures !IsWhitespace(c[k]) { assert c[k] == s[j + 1 + k]; }
    }
  }

  /** The words of "the, dog runs" and the facts about its characters the
      first steps look at. */
  lemma CommaWords(s: string) returns (ts: seq<string>)
    requires s == "the, dog runs"
    ensures ts == ["the,", "dog", "runs"]
    ensures AllTokens(ts) && Join(ts) == s
    ensures ':' !in s && '.' !in s && '<' !in s
  {
    CommaSlices(s);
    ts := ThreeWords(s, 4, 8);
  }

  /** The slices of "the, dog runs" between its spaces. */
  lemma CommaSlices(s: string)
    requires s == "the, dog runs"
    ensures s[..4] == "the," && s[5..8] == "dog" && s[9..] == "runs"
    ensures s[4] == ' ' && s[8] == ' '
    ensures forall k :: 0 <= k < |s| && k != 4 && k != 8 ==> !IsWhitespace(s[k])
  {
    assert s[..4] == "the," by {
      assert forall i :: 0 <= i < 4 ==> s[..4][i] == s[i];
    }
    assert s[5..8] == "dog" by {
      assert forall i :: 0 <= i < 3 ==> s[5..8][i] == s[5 + i];
    }
    assert s[9..] == "runs" by {
      assert forall i :: 0 <= i < 4 ==> s[9..][i] == s[9 + i];
    }
  }

  /** The words of "the dog runs" and the facts about its characters the
      last steps look at. */
  lemma PlainWords(t: string) returns (us: seq<string>)
    requires t == "the dog runs"
    ensures us == ["the", "dog", "runs"]
    ensures AllTokens(us) && Join(us) == t
    ensures IsCollapsed(t) && '\n' !in t
  {
    PlainSlices(t);
    us := ThreeWords(t, 3, 7);
  }

  /** The slices of "the dog runs" between its spaces. */
  lemma PlainSlices(t: string)
    requires t == "the dog runs"
    ensures t[..3] == "the" && t[4..7] == "dog" && t[8..] == "runs"
    ensures t[3] == ' ' && t[7] == ' '
    ensures forall k :: 0 <= k < |t| && k != 3 && k != 7 ==> !IsWhitespace(t[k])
  {
    assert t[..3] == "the" by {
      assert forall i :: 0 <= i < 3 ==> t[..3][i] == t[i];
    }
    assert t[4..7] == "dog" by {
      assert forall i :: 0 <= i < 3 ==> t[4..7][i] == t[4 + i];
    }
    assert t[8..] == "runs" by {
      assert forall i :: 0 <= i < 4 ==> t[8..][i] == t[8 + i];
    }
  }

  lemma DogRuns()
    ensures Join(["dog", "runs"]) == "dog runs"
  {
    JoinThree("the", "dog", "runs");
  }

  /** The comma of "the, dog runs" is its only punctuation. */
  lemma ExampleComma(s: string, t: string)
    requires s == "the, dog runs" && t == "the dog runs"
    ensures RemovePunctuation(s) == t
  {
    CommaAround(s, t);
    RemovePunctuationBetween(s[..3], s[3], s[4..]);
  }

  /** "the, dog runs" is "the" and " dog runs" around a comma, and without
      the comma it is "the dog runs". */
  lemma CommaAround(s: string, t: string)
    requires s == "the, dog runs" && t == "the dog runs"
    ensures s == s[..3] + ([s[3]] + s[4..]) && t == s[..3] + s[4..]
    ensures IsPunctuation(s[3])
    ensures forall i :: 0 <= i < |s[..3]| ==> !IsPunctuation(s[..3][i])
    ensures forall i :: 0 <= i < |s[4..]| ==> !IsPunctuation(s[4..][i])
  {
    var a, c := s[..3], s[4..];
    assert a == "the" by {
      assert forall i :: 0 <= i < 3 ==> a[i] == s[i];
    }
    assert c == " dog runs" by {
      assert forall i :: 0 <= i < 9 ==> c[i] == s[4 + i];
    }
    assert s == a + ([s[3]] + c);
  }

  /** Stop-word removal runs before punctuation removal, so a stop word with
      punctuation attached is not matched: with "the" a stop word and
      "the,", "dog", "runs" not stop words, "the, dog runs" comes out as
      "the dog runs", while removing punctuation first would have led to
      "dog runs". */
  lemma StopWordBeforePunctuation(s: string, t: string, stops: set<string>)
    requires s == "the, dog runs" && t == "the dog runs"
    requires "the" in stops
    requires "the," !in stops && "dog" !in stops && "runs" !in stops
    ensures Cleaned(s, stops) == t
    ensures RemoveStopWords(RemovePunctuation(s), stops) == "dog runs"
  {
    var ts := CommaWords(s);
    var us := PlainWords(t);
    DogRuns();
    FirstStepsKeepWords(ts, stops);
    ExampleComma(s, t);
    LastStepsKeepWords(t);
    SplitJoin(us);
    FilterThree("the", "dog", "runs", stops);
  }
}
