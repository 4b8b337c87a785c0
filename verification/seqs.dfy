/** Facts about integer sequences used by the window counter and the detectors:
    ascending order, sorting, counting the elements that fall in a closed range,
    picking a maximum, and subsequences. */
module Seqs {

  /** `a` is `b` with some elements left out, in the same order. */
  predicate IsSubsequence<T(==)>(a: seq<T>, b: seq<T>) {
    if |a| == 0 then true
    else if |b| == 0 then false
    else if a[0] == b[0] then IsSubsequence(a[1..], b[1..])
    else IsSubsequence(a, b[1..])
  }

  /** Appending an element to `b` keeps `a` a subsequence, whether or not
      the element is also appended to `a`. */
  lemma {:induction false} SubsequenceSnoc<T>(a: seq<T>, b: seq<T>, x: T)
    requires IsSubsequence(a, b)
    ensures IsSubsequence(a, b + [x])
    ensures IsSubsequence(a + [x], b + [x])
  {
    if |b| == 0 {
      assert [x][1..] == [];
    } else {
      assert (b + [x])[1..] == b[1..] + [x];
      if |a| == 0 {
        SubsequenceSnoc(a, b[1..], x);
        assert a + [x] == [x];
      } else {
        assert (a + [x])[1..] == a[1..] + [x];
        if a[0] == b[0] {
          SubsequenceSnoc(a[1..], b[1..], x);
        } else {
          SubsequenceSnoc(a, b[1..], x);
        }
      }
    }
  }

  /** Ascending (non-strict) order. */
  predicate Sorted(s: seq<int>) {
    forall i, j :: 0 <= i < j < |s| ==> s[i] <= s[j]
  }

  /** `s` holds the elements of `t` in ascending order. */
  predicate SortingOf(s: seq<int>, t: seq<int>) {
    Sorted(s) && multiset(s) == multiset(t)
  }

  /** The ascending arrangement of a sequence is unique. */
  lemma {:induction false} SortingUnique(a: seq<int>, b: seq<int>, t: seq<int>)
    requires SortingOf(a, t) && SortingOf(b, t)
    ensures a == b
  {
    assert |a| == |multiset(a)| == |multiset(b)| == |b|;
    if |a| > 0 {
      HeadIsLeast(a, b);
      HeadIsLeast(b, a);
      var a', b' := a[1..], b[1..];
      assert multiset(a) == multiset{a[0]} + multiset(a') by {
        assert a == [a[0]] + a';
      }
      assert multiset(b) == multiset{b[0]} + multiset(b') by {
        assert b == [b[0]] + b';
      }
      assert multiset(a') == multiset(a) - multiset{a[0]};
      assert multiset(b') == multiset(b) - multiset{b[0]};
      SortingUnique(a', b', a');
    }
  }

  /** The head of an ascending sequence is at most every element of any
      sequence with the same elements. */
  lemma HeadIsLeast(a: seq<int>, b: seq<int>)
    requires Sorted(a) && |a| > 0 && |b| > 0
    requires multiset(a) == multiset(b)
    ensures a[0] <= b[0]
  {
    assert b[0] in multiset(a);
    var i :| 0 <= i < |a| && a[i] == b[0];
  }

  /** Inserts `x` into an ascending sequence. */
  function Insert(s: seq<int>, x: int): (r: seq<int>)
    requires Sorted(s)
    ensures Sorted(r)
    ensures forall y :: y in r <==> y in s || y == x
    ensures multiset(r) == multiset(s) + multiset{x}
  {
    if |s| == 0 then [x]
    else if x <= s[0] then [x] + s
    else
      var rest := Insert(s[1..], x);
      var r := [s[0]] + rest;
      assert s == [s[0]] + s[1..];
      forall i, j | 0 <= i < j < |r|
        ensures r[i] <= r[j]
      {
        assert r[j] == rest[j - 1] && rest[j - 1] in rest;
        if i > 0 {
          assert r[i] == rest[i - 1];
        }
      }
      assert multiset(r) == multiset{s[0]} + multiset(rest);
      assert multiset(s) == multiset{s[0]} + multiset(s[1..]);
      r
  }

  /** The ascending arrangement of `s` (what `Series.sort_values()` yields). */
  function SortAsc(s: seq<int>): (r: seq<int>)
    ensures Sorted(r)
    ensures multiset(r) == multiset(s)
    ensures |r| == |s|
  {
    if |s| == 0 then []
    else
      assert s == s[..|s| - 1] + [s[|s| - 1]];
      var r := Insert(SortAsc(s[..|s| - 1]), s[|s| - 1]);
      assert |r| == |multiset(r)|;
      r
  }

  /** Number of elements x of `s` with lo <= x <= hi (a closed range). */
  function CountIn(s: seq<int>, lo: int, hi: int): (n: nat)
    ensures n <= |s|
  {
    if |s| == 0 then 0
    else CountIn(s[..|s| - 1], lo, hi) + (if lo <= s[|s| - 1] <= hi then 1 else 0)
  }

  lemma {:induction false} CountInAppend(a: seq<int>, b: seq<int>, lo: int, hi: int)
    ensures CountIn(a + b, lo, hi) == CountIn(a, lo, hi) + CountIn(b, lo, hi)
    decreases |b|
  {
    if |b| == 0 {
      assert a + b == a;
    } else {
      assert (a + b)[..|a + b| - 1] == a + b[..|b| - 1];
      assert (a + b)[|a + b| - 1] == b[|b| - 1];
      CountInAppend(a, b[..|b| - 1], lo, hi);
    }
  }

  /** The positions of `s` whose element lies in [lo, hi]. */
  function IndicesIn(s: seq<int>, lo: int, hi: int): set<nat> {
    set j: nat | j < |s| && lo <= s[j] <= hi
  }

  /** The count is the number of positions in range. */
  lemma {:induction false} CountInIsIndexCount(s: seq<int>, lo: int, hi: int)
    ensures CountIn(s, lo, hi) == |IndicesIn(s, lo, hi)|
  {
    if |s| > 0 {
      var n := |s| - 1;
      CountInIsIndexCount(s[..n], lo, hi);
      var before := IndicesIn(s[..n], lo, hi);
      var here: set<nat> := if lo <= s[n] <= hi then {n} else {};
      assert IndicesIn(s, lo, hi) == before + here by {
        forall j: nat
          ensures j in IndicesIn(s, lo, hi) <==> j in before || j in here
        {
          if j < n {
            assert s[..n][j] == s[j];
          }
        }
      }
      assert before * here == {};
    }
  }

  /** Every element in range: the count is the length. */
  lemma {:induction false} CountInAll(s: seq<int>, lo: int, hi: int)
    requires forall i :: 0 <= i < |s| ==> lo <= s[i] <= hi
    ensures CountIn(s, lo, hi) == |s|
  {
    if |s| > 0 {
      CountInAll(s[..|s| - 1], lo, hi);
    }
  }

  /** No element in range: the count is zero. */
  lemma {:induction false} CountInNone(s: seq<int>, lo: int, hi: int)
    requires forall i :: 0 <= i < |s| ==> s[i] < lo || hi < s[i]
    ensures CountIn(s, lo, hi) == 0
  {
    if |s| > 0 {
      CountInNone(s[..|s| - 1], lo, hi);
    }
  }

  /** A wider range never counts fewer elements. */
  lemma {:induction false} CountInWiden(s: seq<int>, lo1: int, hi1: int, lo2: int, hi2: int)
    requires lo2 <= lo1 && hi1 <= hi2
    ensures CountIn(s, lo1, hi1) <= CountIn(s, lo2, hi2)
  {
    if |s| > 0 {
      CountInWiden(s[..|s| - 1], lo1, hi1, lo2, hi2);
    }
  }

  /** The count depends only on the multiset of elements, not on their order. */
  lemma {:induction false} CountInPermutation(a: seq<int>, b: seq<int>, lo: int, hi: int)
    requires multiset(a) == multiset(b)
    ensures CountIn(a, lo, hi) == CountIn(b, lo, hi)
    decreases |a|
  {
    if |a| == 0 {
      assert |b| == |multiset(b)| == 0;
    } else {
      var x := a[|a| - 1];
      var a' := a[..|a| - 1];
      assert a == a' + [x];
      assert x in multiset(b);
      var k :| 0 <= k < |b| && b[k] == x;
      var b' := b[..k] + b[k + 1..];
      RemoveAtMultiset(b, k);
      assert multiset(a') == multiset(a) - multiset{x};
      CountInPermutation(a', b', lo, hi);
      CountInRemove(b, k, lo, hi);
      CountInAppend(a', [x], lo, hi);
    }
  }

  /** Taking out the element at index k takes one copy of it out of the multiset. */
  lemma RemoveAtMultiset(b: seq<int>, k: nat)
    requires k < |b|
    ensures multiset(b[..k] + b[k + 1..]) == multiset(b) - multiset{b[k]}
  {
    assert b == b[..k] + [b[k]] + b[k + 1..];
  }

  /** Taking out the element at index k lowers the count by one exactly when
      that element is in range. */
  lemma CountInRemove(b: seq<int>, k: nat, lo: int, hi: int)
    requires k < |b|
    ensures CountIn(b, lo, hi)
            == CountIn(b[..k] + b[k + 1..], lo, hi) + CountIn([b[k]], lo, hi)
  {
    assert b == (b[..k] + [b[k]]) + b[k + 1..];
    CountInAppend(b[..k] + [b[k]], b[k + 1..], lo, hi);
    CountInAppend(b[..k], [b[k]], lo, hi);
    CountInAppend(b[..k], b[k + 1..], lo, hi);
  }

  /** The value of `f` at every element of `s`, in order. */
  function Project<T>(s: seq<T>, f: T -> int): (xs: seq<int>)
    ensures |xs| == |s|
    ensures forall i :: 0 <= i < |s| ==> xs[i] == f(s[i])
  {
    seq(|s|, i requires 0 <= i < |s| => f(s[i]))
  }

  /** Largest value of `f` over the elements of `xs` (0 when `xs` is empty). */
  function MaxOf(xs: seq<int>, f: int -> int): (m: int)
    ensures forall x :: x in xs ==> f(x) <= m
    ensures |xs| > 0 ==> exists x :: x in xs && f(x) == m
    ensures |xs| == 0 ==> m == 0
  {
    if |xs| == 0 then 0
    else if |xs| == 1 then
      var x := xs[0];
      assert x in xs;
      assert forall y :: y in xs ==> y == x;
      f(x)
    else
      var m := MaxOf(xs[1..], f);
      assert forall x :: x in xs ==> x == xs[0] || x in xs[1..];
      assert forall x :: x in xs[1..] ==> x in xs;
      if f(xs[0]) > m then f(xs[0]) else m
  }

  /** Least element x of `xs` with f(x) == v. */
  function MinWhere(xs: seq<int>, f: int -> int, v: int): (x: int)
    requires exists y :: y in xs && f(y) == v
    ensures x in xs && f(x) == v
    ensures forall y :: y in xs && f(y) == v ==> x <= y
  {
    assert forall y :: y in xs ==> y == xs[0] || y in xs[1..];
    if !(exists y :: y in xs[1..] && f(y) == v) then xs[0]
    else
      var m := MinWhere(xs[1..], f, v);
      if f(xs[0]) == v && xs[0] < m then xs[0] else m
  }

  /** Index of the first maximal element: the one a left-to-right scan keeps
      when it replaces its candidate only on a strictly larger value, as
      Python's `max` does. */
  function FirstMaxIndex(xs: seq<int>): (k: nat)
    requires |xs| > 0
    ensures k < |xs|
    ensures forall j :: 0 <= j < |xs| ==> xs[j] <= xs[k]
    ensures forall j :: 0 <= j < k ==> xs[j] < xs[k]
  {
    if |xs| == 1 then 0
    else
      var k := FirstMaxIndex(xs[..|xs| - 1]);
      if xs[|xs| - 1] > xs[k] then |xs| - 1 else k
  }
}
