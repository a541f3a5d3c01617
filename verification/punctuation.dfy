/** `remove_punctuation`: `text.translate(str.maketrans('', '', string.punctuation))`,
    which deletes every character of `string.punctuation` and keeps the rest. */
module Punctuation {
  import opened Chars
  import opened Seqs

  /** The input with the punctuation characters deleted: nothing is added
      and no punctuation is left. */
  function RemovePunctuation(s: string): (r: string)
    ensures |r| <= |s|
    ensures forall i :: 0 <= i < |r| ==> !IsPunctuation(r[i])
  {
    if s == [] then []
    else if IsPunctuation(s[0]) then RemovePunctuation(s[1..])
    else [s[0]] + RemovePunctuation(s[1..])
  }

  /** Exactly the punctuation is deleted: every other character occurs in
      the result as often as in the input. */
  lemma {:induction false} RemovePunctuationCounts(s: string)
    ensures forall c :: multiset(RemovePunctuation(s))[c] == if IsPunctuation(c) then 0 else multiset(s)[c]
    decreases |s|
  {
    if s != [] {
      assert s == [s[0]] + s[1..];
      RemovePunctuationCounts(s[1..]);
    }
  }

  lemma {:induction false} RemovePunctuationIsSubsequence(s: string)
    ensures IsSubsequence(RemovePunctuation(s), s)
    decreases |s|
  {
    if s != [] {
      RemovePunctuationIsSubsequence(s[1..]);
      if !IsPunctuation(s[0]) {
        assert RemovePunctuation(s)[1..] == RemovePunctuation(s[1..]);
      }
    }
  }

  /** The deletion works character by character, so it distributes over
      concatenation. */
  lemma {:induction false} RemovePunctuationConcat(a: string, b: string)
    ensures RemovePunctuation(a + b) == RemovePunctuation(a) + RemovePunctuation(b)
    decreases |a|
  {
    if a == [] {
      assert a + b == b;
    } else {
      assert (a + b)[1..] == a[1..] + b;
      RemovePunctuationConcat(a[1..], b);
    }
  }

  /** A text without punctuation is left unchanged. */
  lemma {:induction false} RemovePunctuationUnchanged(s: string)
    requires forall i :: 0 <= i < |s| ==> !IsPunctuation(s[i])
    ensures RemovePunctuation(s) == s
    decreases |s|
  {
    if s != [] {
      RemovePunctuationUnchanged(s[1..]);
    }
  }

  lemma RemovePunctuationIdempotent(s: string)
    ensures RemovePunctuation(RemovePunctuation(s)) == RemovePunctuation(s)
  {
    RemovePunctuationUnchanged(RemovePunctuation(s));
  }

  /** Punctuation is never whitespace, so the deletion keeps every whitespace
      character, in order. */
  lemma {:induction false} RemovePunctuationKeepsWhitespace(s: string)
    ensures Keep(RemovePunctuation(s), IsWhitespace) == Keep(s, IsWhitespace)
    decreases |s|
  {
    if s != [] {
      RemovePunctuationKeepsWhitespace(s[1..]);
      PunctuationIsNotWhitespace(s[0]);
    }
  }

}
