/**
 * Order-preserving selection from a list, as a Python list comprehension
 * with a condition (or a loop that appends the elements that pass a test)
 * computes it, and the subsequence relation that such a selection satisfies.
 */
module Lists {

  /** `[x for x in s if p(x)]`. */
  function Select<T>(s: seq<T>, p: T -> bool): (r: seq<T>)
    ensures |r| <= |s|
    decreases |s|
  {
    if s == [] then []
    else Select(s[..|s| - 1], p) + (if p(s[|s| - 1]) then [s[|s| - 1]] else [])
  }

  /** `a` is obtained from `b` by deleting some elements and keeping the order of the others. */
  predicate IsSubsequence<T(==)>(a: seq<T>, b: seq<T>)
    decreases |b|
  {
    if b == [] then a == []
    else
      (a != [] && a[|a| - 1] == b[|b| - 1] && IsSubsequence(a[..|a| - 1], b[..|b| - 1]))
      || IsSubsequence(a, b[..|b| - 1])
  }

  /** Every list is a subsequence of itself. */
  lemma {:induction false} SubsequenceReflexive<T>(s: seq<T>)
    ensures IsSubsequence(s, s)
    decreases |s|
  {
    if s != [] {
      SubsequenceReflexive(s[..|s| - 1]);
    }
  }

  /** Selection keeps the relative order of the elements it keeps. */
  lemma {:induction false} SelectIsSubsequence<T>(s: seq<T>, p: T -> bool)
    ensures IsSubsequence(Select(s, p), s)
    decreases |s|
  {
    if s != [] {
      var init := s[..|s| - 1];
      SelectIsSubsequence(init, p);
      if p(s[|s| - 1]) {
        var r := Select(s, p);
        assert r[..|r| - 1] == Select(init, p);
      } else {
        var r := Select(init, p);
        assert Select(s, p) == r + [] == r;
        assert s[..|s| - 1] == init;
        assert IsSubsequence(r, s[..|s| - 1]);
      }
    }
  }

  /** An element is selected exactly when it is in the list and passes the test. */
  lemma {:induction false} SelectMember<T>(s: seq<T>, p: T -> bool, x: T)
    ensures x in Select(s, p) <==> x in s && p(x)
    decreases |s|
  {
    if s != [] {
      var init := s[..|s| - 1];
      SelectMember(init, p, x);
      assert s == init + [s[|s| - 1]];
    }
  }

  /**
   * Selection keeps every copy of an element that passes the test and no copy
   * of one that fails it, so duplicates survive as often as they occur.
   */
  lemma {:induction false} SelectCount<T>(s: seq<T>, p: T -> bool, x: T)
    ensures multiset(Select(s, p))[x] == if p(x) then multiset(s)[x] else 0
    decreases |s|
  {
    if s != [] {
      var init := s[..|s| - 1];
      SelectCount(init, p, x);
      assert s == init + [s[|s| - 1]];
    }
  }

  /** A test that every element passes selects the whole list. */
  lemma {:induction false} SelectAll<T>(s: seq<T>, p: T -> bool)
    requires forall i :: 0 <= i < |s| ==> p(s[i])
    ensures Select(s, p) == s
    decreases |s|
  {
    if s != [] {
      SelectAll(s[..|s| - 1], p);
      assert s == s[..|s| - 1] + [s[|s| - 1]];
    }
  }

  /** Nothing is selected exactly when no element passes the test. */
  lemma {:induction false} SelectNone<T>(s: seq<T>, p: T -> bool)
    ensures Select(s, p) == [] <==> forall i :: 0 <= i < |s| ==> !p(s[i])
    decreases |s|
  {
    if s != [] {
      var init := s[..|s| - 1];
      SelectNone(init, p);
      if forall i :: 0 <= i < |init| ==> !p(init[i]) {
        if !p(s[|s| - 1]) {
          forall i | 0 <= i < |s| ensures !p(s[i]) {
            if i < |init| {
              assert s[i] == init[i];
            }
          }
        }
      } else {
        var i :| 0 <= i < |init| && p(init[i]);
        assert s[i] == init[i];
      }
    }
  }
}
