/** Order-preserving selection over sequences, the building block of every list
    filter and every dataframe filter in the pipeline. */
module Sequences {

  /** The elements of `s` that satisfy `p`, in their original order. */
  function Select<T(!new)>(s: seq<T>, p: T -> bool): (r: seq<T>)
    ensures |r| <= |s|
    ensures forall x :: x in r <==> x in s && p(x)
  {
    if s == [] then []
    else (if p(s[0]) then [s[0]] else []) + Select(s[1..], p)
  }

  /** `t` can be obtained from `s` by deleting elements. */
  ghost predicate IsSubsequence<T(!new)>(t: seq<T>, s: seq<T>)
    decreases |s|
  {
    if t == [] then true
    else if s == [] then false
    else (t[0] == s[0] && IsSubsequence(t[1..], s[1..])) || IsSubsequence(t, s[1..])
  }

  lemma {:induction false} SelectConcat<T(!new)>(a: seq<T>, b: seq<T>, p: T -> bool)
    ensures Select(a + b, p) == Select(a, p) + Select(b, p)
  {
    if a == [] {
      assert a + b == b;
    } else {
      assert (a + b)[0] == a[0];
      assert (a + b)[1..] == a[1..] + b;
      SelectConcat(a[1..], b, p);
    }
  }

  /** How often `x` occurs in a non-empty sequence: once for its head if it is the
      head, plus its occurrences in the tail. */
  lemma HeadCount<T>(s: seq<T>, x: T)
    requires s != []
    ensures multiset(s)[x] == (if x == s[0] then 1 else 0) + multiset(s[1..])[x]
  {
    assert s == [s[0]] + s[1..];
  }

  /** Selection keeps every passing element as often as it occurs, and no other. */
  lemma {:induction false} SelectMultiset<T(!new)>(s: seq<T>, p: T -> bool, x: T)
    ensures multiset(Select(s, p))[x] == if p(x) then multiset(s)[x] else 0
  {
    if s != [] {
      SelectMultiset(s[1..], p, x);
      assert s == [s[0]] + s[1..];
    }
  }

  /** Selection keeps the relative order of what it keeps. */
  lemma {:induction false} SelectIsSubsequence<T(!new)>(s: seq<T>, p: T -> bool)
    ensures IsSubsequence(Select(s, p), s)
  {
    if s != [] {
      SelectIsSubsequence(s[1..], p);
      if p(s[0]) {
        assert Select(s, p)[0] == s[0];
        assert Select(s, p)[1..] == Select(s[1..], p);
      } else {
        assert Select(s, p) == Select(s[1..], p);
        if Select(s, p) != [] {
          assert IsSubsequence(Select(s, p), s[1..]);
        }
      }
    }
  }

  /** Selecting from a sequence all of whose elements pass gives it back. */
  lemma {:induction false} SelectAll<T(!new)>(s: seq<T>, p: T -> bool)
    requires forall i :: 0 <= i < |s| ==> p(s[i])
    ensures Select(s, p) == s
  {
    if s != [] {
      SelectAll(s[1..], p);
    }
  }

  /** Selecting from a sequence none of whose elements pass gives nothing. */
  lemma {:induction false} SelectNone<T(!new)>(s: seq<T>, p: T -> bool)
    requires forall i :: 0 <= i < |s| ==> !p(s[i])
    ensures Select(s, p) == []
  {
    if s != [] {
      assert !p(s[0]);
      SelectNone(s[1..], p);
    }
  }

  /** If the first `c` elements pass, at least `c` elements are selected. */
  lemma SelectPrefixBound<T(!new)>(s: seq<T>, p: T -> bool, c: nat)
    requires c <= |s|
    requires forall i :: 0 <= i < c ==> p(s[i])
    ensures |Select(s, p)| >= c
  {
    assert s == s[..c] + s[c..];
    SelectConcat(s[..c], s[c..], p);
    SelectAll(s[..c], p);
  }

  /** If every element from index `lo` on passes, at least `|s| - lo` elements are selected. */
  lemma SelectSuffixBound<T(!new)>(s: seq<T>, p: T -> bool, lo: nat)
    requires lo <= |s|
    requires forall i :: lo <= i < |s| ==> p(s[i])
    ensures |Select(s, p)| >= |s| - lo
  {
    assert s == s[..lo] + s[lo..];
    SelectConcat(s[..lo], s[lo..], p);
    SelectAll(s[lo..], p);
  }
}
