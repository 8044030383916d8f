/** Facts about keeping the elements of a sequence that satisfy a test, shared by the
    cleaning step (`dropna`) and the concept filter (boolean indexing). */
module Sequences {

  /** The elements of `s` that satisfy `p`, in their original order. */
  function Keep<T>(s: seq<T>, p: T -> bool): (kept: seq<T>)
    ensures |kept| <= |s|
    ensures forall x :: x in kept ==> x in s && p(x)
    ensures forall x :: x in s && p(x) ==> x in kept
  {
    if s == [] then []
    else
      var init := Keep(s[..|s| - 1], p);
      assert s == s[..|s| - 1] + [s[|s| - 1]];
      if p(s[|s| - 1]) then init + [s[|s| - 1]] else init
  }

  /** `a` is obtained from `b` by deleting elements, without reordering. */
  ghost predicate IsSubsequence<T>(a: seq<T>, b: seq<T>)
    decreases |b|
  {
    if a == [] then true
    else if b == [] then false
    else (a[|a| - 1] == b[|b| - 1] && IsSubsequence(a[..|a| - 1], b[..|b| - 1]))
         || IsSubsequence(a, b[..|b| - 1])
  }

  /** Every pair of elements, taken in order, is related by `before`. */
  ghost predicate Ordered<T>(s: seq<T>, before: (T, T) -> bool)
  {
    forall i, j :: 0 <= i < j < |s| ==> before(s[i], s[j])
  }

  /** Keeping never loses or duplicates a copy of an element that passes the test, and
      drops every copy of one that fails it. */
  lemma {:induction false} KeepCount<T>(s: seq<T>, p: T -> bool, x: T)
    ensures multiset(Keep(s, p))[x] == if p(x) then multiset(s)[x] else 0
  {
    if s != [] {
      var init, last := s[..|s| - 1], s[|s| - 1];
      assert s == init + [last];
      KeepCount(init, p, x);
    }
  }

  lemma {:induction false} KeepIsSubsequence<T>(s: seq<T>, p: T -> bool)
    ensures IsSubsequence(Keep(s, p), s)
  {
    if s != [] {
      var init, last := s[..|s| - 1], s[|s| - 1];
      KeepIsSubsequence(init, p);
      var k := Keep(init, p);
      if p(last) {
        assert (k + [last])[..|k + [last]| - 1] == k;
      } else if k != [] {
        assert IsSubsequence(k, s[..|s| - 1]);
      }
    }
  }

  lemma {:induction false} SubsequenceMembers<T>(a: seq<T>, b: seq<T>)
    requires IsSubsequence(a, b)
    ensures forall x :: x in a ==> x in b
    decreases |b|
  {
    if a != [] {
      var a', b' := a[..|a| - 1], b[..|b| - 1];
      if a[|a| - 1] == b[|b| - 1] && IsSubsequence(a', b') {
        SubsequenceMembers(a', b');
        assert a == a' + [a[|a| - 1]];
        assert b == b' + [b[|b| - 1]];
      } else {
        SubsequenceMembers(a, b');
        assert b == b' + [b[|b| - 1]];
      }
    }
  }

  /** Deleting elements keeps every ordering the sequence already had. */
  lemma {:induction false} SubsequenceKeepsOrder<T>(a: seq<T>, b: seq<T>, before: (T, T) -> bool)
    requires IsSubsequence(a, b)
    requires Ordered(b, before)
    ensures Ordered(a, before)
    decreases |b|
  {
    if a != [] {
      var a', b' := a[..|a| - 1], b[..|b| - 1];
      assert Ordered(b', before) by {
        forall i, j | 0 <= i < j < |b'| ensures before(b'[i], b'[j]) {
          assert b'[i] == b[i] && b'[j] == b[j];
        }
      }
      if a[|a| - 1] == b[|b| - 1] && IsSubsequence(a', b') {
        SubsequenceKeepsOrder(a', b', before);
        SubsequenceMembers(a', b');
        forall i, j | 0 <= i < j < |a| ensures before(a[i], a[j]) {
          if j < |a| - 1 {
            assert a[i] == a'[i] && a[j] == a'[j];
          } else {
            assert a[i] == a'[i] && a'[i] in b';
            var k :| 0 <= k < |b'| && b'[k] == a[i];
            assert b[k] == a[i] && b[|b| - 1] == a[j];
          }
        }
      } else {
        SubsequenceKeepsOrder(a, b', before);
      }
    }
  }
}
