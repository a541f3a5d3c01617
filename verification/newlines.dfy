/** `remove_newlines`: `text.replace('\n', ' ')`. */
module Newlines {
  import opened Chars
  import opened Seqs

  /** Position by position, each line feed becomes a space and every other
      character stays; the length is unchanged and no line feed remains. */
  function RemoveNewlines(s: string): (r: string)
    ensures |r| == |s|
    ensures forall i :: 0 <= i < |s| ==> r[i] == if s[i] == '\n' then ' ' else s[i]
    ensures '\n' !in r
  {
    if s == [] then []
    else [if s[0] == '\n' then ' ' else s[0]] + RemoveNewlines(s[1..])
  }

  lemma RemoveNewlinesIdempotent(s: string)
    ensures RemoveNewlines(RemoveNewlines(s)) == RemoveNewlines(s)
  {
  }

  /** Only whitespace is rewritten, and into whitespace, so the
      non-whitespace characters are exactly those of the input, in order. */
  lemma {:induction false} RemoveNewlinesKeepsNonWhitespace(s: string)
    ensures Keep(RemoveNewlines(s), NotWhitespace) == Keep(s, NotWhitespace)
    decreases |s|
  {
    if s != [] {
      RemoveNewlinesKeepsNonWhitespace(s[1..]);
      assert RemoveNewlines(s)[1..] == RemoveNewlines(s[1..]);
    }
  }

  /** The line feed between two lines becomes a space. */
  lemma TwoLines(s: string)
    requires s == "line1\nline2"
    ensures RemoveNewlines(s) == "line1 line2"
  {
    var r := RemoveNewlines(s);
    assert forall i :: 0 <= i < |r| ==> r[i] == "line1 line2"[i];
  }
}
