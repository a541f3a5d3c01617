/** Facts about sequences that several cleaning steps share: order-preserving
    deletion (subsequences), filtering by a character class, and the leading
    run of a character class. */
module Seqs {

  /** `a` can be obtained from `b` by deleting elements, keeping the order
      of the rest. */
  ghost predicate IsSubsequence<T>(a: seq<T>, b: seq<T>)
    decreases |b|
  {
    || a == []
    || (b != [] && ((a[0] == b[0] && IsSubsequence(a[1..], b[1..])) || IsSubsequence(a, b[1..])))
  }

  lemma {:induction false} SubsequenceReflexive<T>(a: seq<T>)
    ensures IsSubsequence(a, a)
    decreases |a|
  {
    if a != [] {
      SubsequenceReflexive(a[1..]);
    }
  }

  lemma {:induction false} SubsequenceTransitive<T>(a: seq<T>, b: seq<T>, c: seq<T>)
    requires IsSubsequence(a, b) && IsSubsequence(b, c)
    ensures IsSubsequence(a, c)
    decreases |c|
  {
    if a != [] {
      assert b != [] && c != [];
      if b[0] == c[0] && IsSubsequence(b[1..], c[1..]) {
        if a[0] == b[0] && IsSubsequence(a[1..], b[1..]) {
          SubsequenceTransitive(a[1..], b[1..], c[1..]);
        } else {
          SubsequenceTransitive(a, b[1..], c[1..]);
        }
      } else {
        SubsequenceTransitive(a, b, c[1..]);
      }
    }
  }

  /** Deleting a whole prefix keeps a subsequence. */
  lemma {:induction false} SubsequenceOfSuffix<T>(a: seq<T>, b: seq<T>, n: nat)
    requires n <= |b| && IsSubsequence(a, b[n..])
    ensures IsSubsequence(a, b)
    decreases n
  {
    if n > 0 {
      assert b[1..][n - 1..] == b[n..];
      SubsequenceOfSuffix(a, b[1..], n - 1);
    }
  }

  /** Subsequences of two parts give a subsequence of the two parts joined. */
  lemma {:induction false} SubsequenceConcat<T>(a1: seq<T>, b1: seq<T>, a2: seq<T>, b2: seq<T>)
    requires IsSubsequence(a1, b1) && IsSubsequence(a2, b2)
    ensures IsSubsequence(a1 + a2, b1 + b2)
    decreases |b1|
  {
    if a1 == [] {
      assert a1 + a2 == a2;
      SubsequenceOfSuffix(a2, b1 + b2, |b1|);
      assert (b1 + b2)[|b1|..] == b2;
    } else {
      assert (b1 + b2)[1..] == b1[1..] + b2;
      if a1[0] == b1[0] && IsSubsequence(a1[1..], b1[1..]) {
        SubsequenceConcat(a1[1..], b1[1..], a2, b2);
        assert (a1 + a2)[1..] == a1[1..] + a2;
      } else {
        SubsequenceConcat(a1, b1[1..], a2, b2);
      }
    }
  }

  /** The elements of `s` that satisfy `p`, in order. */
  function Keep<T>(s: seq<T>, p: T -> bool): (r: seq<T>)
    ensures |r| <= |s|
    ensures forall i :: 0 <= i < |r| ==> p(r[i])
    ensures forall x :: x in s && p(x) ==> x in r
    ensures forall x :: x in r ==> x in s
  {
    if s == [] then []
    else if p(s[0]) then [s[0]] + Keep(s[1..], p)
    else Keep(s[1..], p)
  }

  lemma {:induction false} KeepIsSubsequence<T>(s: seq<T>, p: T -> bool)
    ensures IsSubsequence(Keep(s, p), s)
    decreases |s|
  {
    if s != [] {
      KeepIsSubsequence(s[1..], p);
      if p(s[0]) {
        assert Keep(s, p)[1..] == Keep(s[1..], p);
      }
    }
  }

  /** Filtering distributes over concatenation. */
  lemma {:induction false} KeepConcat<T>(a: seq<T>, b: seq<T>, p: T -> bool)
    ensures Keep(a + b, p) == Keep(a, p) + Keep(b, p)
    decreases |a|
  {
    if a == [] {
      assert a + b == b;
    } else {
      assert (a + b)[1..] == a[1..] + b;
      KeepConcat(a[1..], b, p);
    }
  }

  /** A sequence every element of which satisfies `p` is its own filter, and
      one none of whose elements does filters to nothing. */
  lemma {:induction false} KeepAllOrNone<T>(s: seq<T>, p: T -> bool)
    ensures (forall i :: 0 <= i < |s| ==> p(s[i])) ==> Keep(s, p) == s
    ensures (forall i :: 0 <= i < |s| ==> !p(s[i])) ==> Keep(s, p) == []
    decreases |s|
  {
    if s != [] {
      KeepAllOrNone(s[1..], p);
      assert forall i :: 0 <= i < |s[1..]| ==> s[1..][i] == s[i + 1];
    }
  }

  /** Filtering is monotone with respect to deletion. */
  lemma {:induction false} KeepSubsequence<T>(a: seq<T>, b: seq<T>, p: T -> bool)
    requires IsSubsequence(a, b)
    ensures IsSubsequence(Keep(a, p), Keep(b, p))
    decreases |b|
  {
    if a == [] {
    } else if a[0] == b[0] && IsSubsequence(a[1..], b[1..]) {
      KeepSubsequence(a[1..], b[1..], p);
      if p(a[0]) {
        assert Keep(a, p)[1..] == Keep(a[1..], p);
        assert Keep(b, p)[1..] == Keep(b[1..], p);
      }
    } else {
      KeepSubsequence(a, b[1..], p);
      if p(b[0]) {
        assert Keep(b, p)[1..] == Keep(b[1..], p);
      }
    }
  }

  /** The length of the longest prefix of `s` all of whose elements satisfy `p`. */
  function LeadingRun<T>(s: seq<T>, p: T -> bool): (n: nat)
    ensures n <= |s|
    ensures forall i :: 0 <= i < n ==> p(s[i])
    ensures n == |s| || !p(s[n])
  {
    if s == [] || !p(s[0]) then 0 else 1 + LeadingRun(s[1..], p)
  }

  /** The leading run is determined by the two facts above: a prefix all of
      whose elements satisfy `p`, followed by the end or by one that does not. */
  lemma {:induction false} LeadingRunOfConcat<T>(a: seq<T>, b: seq<T>, p: T -> bool)
    requires forall i :: 0 <= i < |a| ==> p(a[i])
    requires b == [] || !p(b[0])
    ensures LeadingRun(a + b, p) == |a|
    decreases |a|
  {
    if a == [] {
      assert a + b == b;
    } else {
      assert (a + b)[1..] == a[1..] + b;
      assert p(a[0]);
      LeadingRunOfConcat(a[1..], b, p);
    }
  }

  /** A prefix known to satisfy `p` can be skipped before measuring the run. */
  lemma {:induction false} LeadingRunSkip<T>(s: seq<T>, k: nat, p: T -> bool)
    requires k <= |s|
    requires forall i :: 0 <= i < k ==> p(s[i])
    ensures LeadingRun(s, p) == k + LeadingRun(s[k..], p)
    decreases k
  {
    if k > 0 {
      LeadingRunSkip(s[1..], k - 1, p);
      assert s[1..][k - 1..] == s[k..];
    }
  }

  /** A run that ends inside `a` is not affected by what follows `a`. */
  lemma {:induction false} LeadingRunInside<T>(a: seq<T>, b: seq<T>, p: T -> bool)
    requires LeadingRun(a, p) < |a|
    ensures LeadingRun(a + b, p) == LeadingRun(a, p)
    decreases |a|
  {
    assert (a + b)[0] == a[0];
    if p(a[0]) {
      assert (a + b)[1..] == a[1..] + b;
      LeadingRunInside(a[1..], b, p);
    }
  }

  /** The leading `p`-run of `a` is a prefix of the leading `p`-run of `b`. */
  ghost predicate RunIsPrefixOf<T>(a: seq<T>, b: seq<T>, p: T -> bool) {
    var n := LeadingRun(a, p);
    n <= LeadingRun(b, p) && a[..n] == b[..n]
  }

  lemma RunIsPrefixOfCons<T>(x: T, a: seq<T>, b: seq<T>, p: T -> bool)
    requires RunIsPrefixOf(a, b, p)
    ensures RunIsPrefixOf([x] + a, [x] + b, p)
  {
    if p(x) {
      LeadingRunSkip([x] + a, 1, p);
      LeadingRunSkip([x] + b, 1, p);
      assert ([x] + a)[1..] == a && ([x] + b)[1..] == b;
      var n := LeadingRun(a, p);
      assert ([x] + a)[..n + 1] == [x] + a[..n];
      assert ([x] + b)[..n + 1] == [x] + b[..n];
    }
  }

  /** The inductive step of "`f` distributes over a cut": if one step of
      `f` emits `head` and leaves `rest` both with and without `b` after
      it, and the property holds for `rest`, it holds for `a`. */
  lemma DistributesStep<T>(f: seq<T> -> seq<T>, a: seq<T>, b: seq<T>, rest: seq<T>, head: seq<T>)
    requires f(a + b) == head + f(rest + b)
    requires f(a) == head + f(rest)
    requires f(rest + b) == f(rest) + f(b)
    ensures f(a + b) == f(a) + f(b)
  {
    assert head + (f(rest) + f(b)) == (head + f(rest)) + f(b);
  }

  /** A scanner `f` that copies each of the first `i` characters of `s` to
      its output copies that whole prefix ahead of what it makes of the
      rest. */
  lemma {:induction false} CopiesPrefix<T>(f: seq<T> -> seq<T>, s: seq<T>, i: nat)
    requires i <= |s|
    requires forall j :: 0 <= j < i ==> f(s[j..]) == [s[j]] + f(s[j + 1..])
    ensures f(s) == s[..i] + f(s[i..])
    decreases i
  {
    if i > 0 {
      CopiesPrefix(f, s, i - 1);
      assert f(s[i - 1..]) == [s[i - 1]] + f(s[i..]);
      assert s[..i] == s[..i - 1] + [s[i - 1]];
    } else {
      assert s[0..] == s;
    }
  }

  /** Regrouping after a common first element: if `l` is `h` before `x + y`
      and `r` is `h` before `x`, then `l` is `r + y`. */
  lemma ConsRegroup<T>(h: T, x: seq<T>, y: seq<T>, l: seq<T>, r: seq<T>)
    requires l == [h] + (x + y) && r == [h] + x
    ensures l == r + y
  {
  }
}
