/** Keeping the first element of each key: the loop at the end of
    `merge_incidents`, stated for any element type and key function. */
module Dedup {
  import opened Options
  import opened Seqs

  /** The first element of `xs` whose key is `k`, if any. */
  function FirstWithKey<T(==,!new), K(==)>(xs: seq<T>, key: T -> K, k: K): (r: Option<T>)
    ensures r.Some? <==> exists x :: x in xs && key(x) == k
    ensures r.Some? ==> exists i :: 0 <= i < |xs| && xs[i] == r.value && key(xs[i]) == k &&
                          forall j :: 0 <= j < i ==> key(xs[j]) != k
  {
    if |xs| == 0 then None
    else if key(xs[0]) == k then Some(xs[0])
    else
      var r := FirstWithKey(xs[1..], key, k);
      assert forall x :: x in xs <==> x == xs[0] || x in xs[1..];
      if r.Some? then
        var i :| 0 <= i < |xs[1..]| && xs[1..][i] == r.value && key(xs[1..][i]) == k &&
                 forall j :: 0 <= j < i ==> key(xs[1..][j]) != k;
        assert xs[i + 1] == r.value;
        r
      else r
  }

  /** The position of the first element of `xs` whose key is `k`, or `|xs|`
      when there is none. */
  function KeyIndex<T, K(==)>(xs: seq<T>, key: T -> K, k: K): (i: nat)
    ensures i <= |xs|
    ensures i < |xs| ==> key(xs[i]) == k
    ensures forall j :: 0 <= j < i ==> key(xs[j]) != k
  {
    if |xs| == 0 then 0
    else if key(xs[0]) == k then 0
    else 1 + KeyIndex(xs[1..], key, k)
  }

  /** A key that already occurs in `a` finds its first occurrence in `a`. */
  lemma {:induction false} FirstWithKeyAppend<T(!new), K>(a: seq<T>, b: seq<T>, key: T -> K, k: K)
    requires exists x :: x in a && key(x) == k
    ensures FirstWithKey(a + b, key, k) == FirstWithKey(a, key, k)
  {
    if key(a[0]) != k {
      assert (a + b)[1..] == a[1..] + b;
      assert exists x :: x in a[1..] && key(x) == k by {
        var x :| x in a && key(x) == k;
        assert x in a[1..];
      }
      FirstWithKeyAppend(a[1..], b, key, k);
    }
  }

  /** Walk `xs` in order, keeping an element when its key has not been
      taken yet and taking the key; the keys in `seen` start out taken. */
  function DedupFrom<T(==,!new), K(==)>(xs: seq<T>, key: T -> K, seen: set<K>): (r: seq<T>)
    ensures forall y :: y in r ==> key(y) !in seen
    ensures forall i, j :: 0 <= i < j < |r| ==> key(r[i]) != key(r[j])
  {
    if |xs| == 0 then []
    else
      var k := key(xs[0]);
      if k in seen then DedupFrom(xs[1..], key, seen)
      else [xs[0]] + DedupFrom(xs[1..], key, seen + {k})
  }

  /** No key is lost: every key of `xs` is either already taken or kept. */
  lemma {:induction false} DedupKeepsEveryKey<T(!new), K>(xs: seq<T>, key: T -> K, seen: set<K>)
    ensures forall x :: x in xs ==> key(x) in seen || exists y :: y in DedupFrom(xs, key, seen) && key(y) == key(x)
  {
    if |xs| > 0 {
      var k := key(xs[0]);
      var seen' := if k in seen then seen else seen + {k};
      var r := DedupFrom(xs[1..], key, seen');
      DedupKeepsEveryKey(xs[1..], key, seen');
      forall x | x in xs && key(x) !in seen
        ensures exists y :: y in DedupFrom(xs, key, seen) && key(y) == key(x)
      {
        if key(x) == k {
          assert DedupFrom(xs, key, seen) == [xs[0]] + r;
          assert xs[0] in [xs[0]] + r;
        } else {
          assert x == xs[0] || x in xs[1..];
          var y :| y in r && key(y) == key(x);
          assert y in DedupFrom(xs, key, seen);
        }
      }
    }
  }

  /** Deduplication only leaves elements out; it never reorders them. */
  lemma {:induction false} DedupIsSubsequence<T(!new), K>(xs: seq<T>, key: T -> K, seen: set<K>)
    ensures IsSubsequence(DedupFrom(xs, key, seen), xs)
  {
    if |xs| > 0 {
      var k := key(xs[0]);
      if k in seen {
        var r := DedupFrom(xs[1..], key, seen);
        DedupIsSubsequence(xs[1..], key, seen);
        if |r| > 0 {
          assert r[0] in r;
        }
      } else {
        var r := DedupFrom(xs[1..], key, seen + {k});
        DedupIsSubsequence(xs[1..], key, seen + {k});
        assert ([xs[0]] + r)[1..] == r;
      }
    }
  }

  /** Every element deduplication keeps is the first of its key. */
  lemma {:induction false} DedupKeepsFirst<T(!new), K>(xs: seq<T>, key: T -> K, seen: set<K>)
    ensures forall y :: y in DedupFrom(xs, key, seen) ==> FirstWithKey(xs, key, key(y)) == Some(y)
  {
    if |xs| > 0 {
      var k := key(xs[0]);
      var seen' := if k in seen then seen else seen + {k};
      var r := DedupFrom(xs[1..], key, seen');
      DedupKeepsFirst(xs[1..], key, seen');
      forall y | y in r
        ensures FirstWithKey(xs, key, key(y)) == Some(y)
      {
        assert key(y) != k;
      }
    }
  }

  /** The keys of `r` occur in `xs`, and `r` lists them in the order of
      their first occurrence there. */
  predicate InFirstOccurrenceOrder<T, K(==)>(r: seq<T>, xs: seq<T>, key: T -> K) {
    forall i, j :: 0 <= i < j < |r| ==> KeyIndex(xs, key, key(r[i])) < KeyIndex(xs, key, key(r[j]))
  }

  /** Deduplication keeps the surviving keys in the order of their first
      occurrence in the input. */
  lemma {:induction false} DedupKeepsOrder<T(!new), K>(xs: seq<T>, key: T -> K, seen: set<K>)
    ensures InFirstOccurrenceOrder(DedupFrom(xs, key, seen), xs, key)
  {
    if |xs| > 0 {
      var k := key(xs[0]);
      if k in seen {
        var rest := DedupFrom(xs[1..], key, seen);
        DedupKeepsOrder(xs[1..], key, seen);
        assert InFirstOccurrenceOrder(rest, xs[1..], key);
        assert DedupFrom(xs, key, seen) == rest;
        forall i, j | 0 <= i < j < |rest|
          ensures KeyIndex(xs, key, key(rest[i])) < KeyIndex(xs, key, key(rest[j]))
        {
          assert rest[i] in rest && rest[j] in rest;
          assert key(rest[i]) != k && key(rest[j]) != k;
          assert KeyIndex(xs[1..], key, key(rest[i])) < KeyIndex(xs[1..], key, key(rest[j]));
        }
      } else {
        var rest := DedupFrom(xs[1..], key, seen + {k});
        DedupKeepsOrder(xs[1..], key, seen + {k});
        assert InFirstOccurrenceOrder(rest, xs[1..], key);
        var r := [xs[0]] + rest;
        assert DedupFrom(xs, key, seen) == r;
        forall i, j | 0 <= i < j < |r|
          ensures KeyIndex(xs, key, key(r[i])) < KeyIndex(xs, key, key(r[j]))
        {
          assert r[j] == rest[j - 1] && rest[j - 1] in rest;
          assert key(rest[j - 1]) != k;
          assert KeyIndex(xs, key, key(r[j])) == 1 + KeyIndex(xs[1..], key, key(rest[j - 1]));
          if i > 0 {
            assert r[i] == rest[i - 1] && rest[i - 1] in rest;
            assert key(rest[i - 1]) != k;
            assert KeyIndex(xs[1..], key, key(rest[i - 1])) < KeyIndex(xs[1..], key, key(rest[j - 1]));
          } else {
            assert KeyIndex(xs, key, key(r[i])) == 0;
          }
        }
      }
    }
  }

  /** A sequence whose keys are new and pairwise distinct passes deduplication unchanged. */
  lemma {:induction false} DedupKeepsDistinct<T(!new), K>(xs: seq<T>, key: T -> K, seen: set<K>)
    requires forall i, j :: 0 <= i < j < |xs| ==> key(xs[i]) != key(xs[j])
    requires forall x :: x in xs ==> key(x) !in seen
    ensures DedupFrom(xs, key, seen) == xs
  {
    if |xs| > 0 {
      var k := key(xs[0]);
      assert xs[0] in xs;
      forall x | x in xs[1..]
        ensures key(x) !in seen + {k}
      {
        var i :| 0 <= i < |xs[1..]| && xs[1..][i] == x;
        assert xs[i + 1] == x;
      }
      DedupKeepsDistinct(xs[1..], key, seen + {k});
      assert xs == [xs[0]] + xs[1..];
    }
  }
}
