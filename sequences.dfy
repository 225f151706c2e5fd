/** Order-preserving selection from a list, as `Array.prototype.filter` performs it. */
module Sequences {

  /** `a` is obtained from `b` by deleting elements while keeping the order. */
  predicate IsSubseq<T(==)>(a: seq<T>, b: seq<T>)
    decreases |b|
  {
    if a == [] then true
    else if b == [] then false
    else if a[|a| - 1] == b[|b| - 1] then IsSubseq(a[..|a| - 1], b[..|b| - 1])
    else IsSubseq(a, b[..|b| - 1])
  }

  /** No element occurs twice. */
  ghost predicate Distinct<T>(s: seq<T>)
  {
    forall i, j :: 0 <= i < j < |s| ==> s[i] != s[j]
  }

  lemma {:induction false} SubseqMembers<T>(a: seq<T>, b: seq<T>)
    requires IsSubseq(a, b)
    ensures forall x :: x in a ==> x in b
    decreases |b|
  {
    if a != [] && b != [] {
      if a[|a| - 1] == b[|b| - 1] {
        SubseqMembers(a[..|a| - 1], b[..|b| - 1]);
        assert a == a[..|a| - 1] + [a[|a| - 1]];
        assert b == b[..|b| - 1] + [b[|b| - 1]];
      } else {
        SubseqMembers(a, b[..|b| - 1]);
      }
    }
  }

  lemma {:induction false} SubseqDropLast<T>(a: seq<T>, b: seq<T>)
    requires IsSubseq(a, b) && a != []
    ensures IsSubseq(a[..|a| - 1], b)
    decreases |b|, 0
  {
    var a' := a[..|a| - 1];
    if a[|a| - 1] == b[|b| - 1] {
      if a' != [] {
        SubseqDropLast(a', b[..|b| - 1]);
        SubseqExtend(a'[..|a'| - 1], b[..|b| - 1], b[|b| - 1]);
        assert b[..|b| - 1] + [b[|b| - 1]] == b;
        if a'[|a'| - 1] != b[|b| - 1] {
          assert IsSubseq(a', b) == IsSubseq(a', b[..|b| - 1]);
        }
      }
    } else {
      SubseqDropLast(a, b[..|b| - 1]);
      if a' != [] && a'[|a'| - 1] == b[|b| - 1] {
        SubseqDropLast(a', b[..|b| - 1]);
      }
    }
  }

  /** Appending an element to the longer list keeps a subsequence a subsequence. */
  lemma {:induction false} SubseqExtend<T>(a: seq<T>, b: seq<T>, x: T)
    requires IsSubseq(a, b)
    ensures IsSubseq(a, b + [x])
    decreases |b|, 1
  {
    var b' := b + [x];
    assert b'[..|b'| - 1] == b;
    if a != [] && a[|a| - 1] == x {
      SubseqDropLast(a, b);
    }
  }

  /** Keeping `x` at the end of both lists keeps a subsequence a subsequence. */
  lemma SubseqAppendBoth<T>(a: seq<T>, b: seq<T>, x: T)
    requires IsSubseq(a, b)
    ensures IsSubseq(a + [x], b + [x])
  {
    assert (a + [x])[..|a|] == a;
    assert (b + [x])[..|b|] == b;
  }

  /** What is selected from a list without repetitions has none either. */
  lemma {:induction false} SubseqDistinct<T>(a: seq<T>, b: seq<T>)
    requires IsSubseq(a, b) && Distinct(b)
    ensures Distinct(a)
    decreases |b|
  {
    if a != [] && b != [] {
      var b' := b[..|b| - 1];
      assert Distinct(b');
      if a[|a| - 1] == b[|b| - 1] {
        var a' := a[..|a| - 1];
        SubseqDistinct(a', b');
        SubseqMembers(a', b');
        assert b[|b| - 1] !in b';
        forall i, j | 0 <= i < j < |a| ensures a[i] != a[j] {
          if j == |a| - 1 {
            assert a[i] in a';
          } else {
            assert a[i] == a'[i] && a[j] == a'[j];
          }
        }
      } else {
        SubseqDistinct(a, b');
      }
    }
  }

  /** `s.filter(p)` */
  function Filter<T(==)>(s: seq<T>, p: T -> bool): (r: seq<T>)
    ensures IsSubseq(r, s)
    ensures forall k :: 0 <= k < |r| ==> p(r[k])
    ensures forall k :: 0 <= k < |s| && p(s[k]) ==> s[k] in r
  {
    if s == [] then []
    else
      var r0 := Filter(s[..|s| - 1], p);
      var last := s[|s| - 1];
      assert s == s[..|s| - 1] + [last];
      if p(last) then
        SubseqAppendBoth(r0, s[..|s| - 1], last);
        r0 + [last]
      else
        SubseqExtend(r0, s[..|s| - 1], last);
        r0
  }

  /** `filter` keeps every passing element as often as it occurs, and no other. */
  lemma {:induction false} FilterCounts<T(!new)>(s: seq<T>, p: T -> bool)
    ensures forall x :: multiset(Filter(s, p))[x] == if p(x) then multiset(s)[x] else 0
  {
    if s != [] {
      var init := s[..|s| - 1];
      var last := s[|s| - 1];
      FilterCounts(init, p);
      assert s == init + [last];
      assert multiset(s) == multiset(init) + multiset{last};
      if p(last) {
        assert Filter(s, p) == Filter(init, p) + [last];
        assert multiset(Filter(s, p)) == multiset(Filter(init, p)) + multiset{last};
      } else {
        assert Filter(s, p) == Filter(init, p);
      }
    }
  }
}
