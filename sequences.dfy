/**
  Generic sequence vocabulary: Python's stable `sorted(..., key=...)`, the
  sub-sequence of elements with a given key, and concatenation of a list of lists.
 */
module Sequences {

  /** `xs` is in non-decreasing order of `key`. */
  predicate SortedBy<T>(xs: seq<T>, key: T -> int)
  {
    forall a, b :: 0 <= a < b < |xs| ==> key(xs[a]) <= key(xs[b])
  }

  /** No two elements of `xs` agree on `f`. */
  predicate DistinctBy<T, K(==)>(xs: seq<T>, f: T -> K)
  {
    forall a, b :: 0 <= a < b < |xs| ==> f(xs[a]) != f(xs[b])
  }

  /** The elements of `xs` whose key is `k`, in their order in `xs`. */
  function WithKey<T>(xs: seq<T>, key: T -> int, k: int): (r: seq<T>)
  {
    if xs == [] then []
    else (if key(xs[0]) == k then [xs[0]] else []) + WithKey(xs[1..], key, k)
  }

  /**
    Places `x` in front of the first element of `xs` whose key is not below
    `key(x)`, so `x` precedes every element of `xs` that has the same key.
   */
  function Insert<T>(x: T, xs: seq<T>, key: T -> int): (r: seq<T>)
    ensures multiset(r) == multiset(xs) + multiset{x}
  {
    if xs == [] || key(x) <= key(xs[0]) then [x] + xs
    else
      assert xs == [xs[0]] + xs[1..];
      [xs[0]] + Insert(x, xs[1..], key)
  }

  /** Stable sort by `key`: the model of Python's `sorted(xs, key=key)`. */
  function SortBy<T>(xs: seq<T>, key: T -> int): (r: seq<T>)
    ensures multiset(r) == multiset(xs)
  {
    if xs == [] then []
    else
      assert xs == [xs[0]] + xs[1..];
      Insert(xs[0], SortBy(xs[1..], key), key)
  }

  /** The last element of a non-empty sequence. */
  function Last<T>(xs: seq<T>): T
    requires xs != []
  {
    xs[|xs| - 1]
  }

  /** Concatenation of a list of lists, as `pd.concat` of a list of frames. */
  function Flatten<T>(xss: seq<seq<T>>): (r: seq<T>)
    ensures |r| == 0 <==> forall j :: 0 <= j < |xss| ==> xss[j] == []
  {
    if xss == [] then [] else Flatten(xss[..|xss| - 1]) + xss[|xss| - 1]
  }

  lemma {:induction false} InsertSorted<T>(x: T, xs: seq<T>, key: T -> int)
    requires SortedBy(xs, key)
    ensures SortedBy(Insert(x, xs, key), key)
  {
    if xs != [] && key(x) > key(xs[0]) {
      var tail := Insert(x, xs[1..], key);
      InsertSorted(x, xs[1..], key);
      forall j | 0 <= j < |tail|
        ensures key(xs[0]) <= key(tail[j])
      {
        assert tail[j] in multiset(tail);
        if tail[j] != x {
          assert tail[j] in multiset(xs[1..]);
          var i :| 0 <= i < |xs[1..]| && xs[1..][i] == tail[j];
          assert xs[1..][i] == xs[i + 1];
        }
      }
    }
  }

  /** The result of SortBy is ordered by the key. */
  lemma {:induction false} SortBySorted<T>(xs: seq<T>, key: T -> int)
    ensures SortedBy(SortBy(xs, key), key)
  {
    if xs != [] {
      SortBySorted(xs[1..], key);
      InsertSorted(xs[0], SortBy(xs[1..], key), key);
    }
  }

  lemma {:induction false} InsertStable<T>(x: T, xs: seq<T>, key: T -> int, k: int)
    ensures WithKey(Insert(x, xs, key), key, k)
         == (if key(x) == k then [x] else []) + WithKey(xs, key, k)
  {
    if xs == [] || key(x) <= key(xs[0]) {
      WithKeyCons(x, xs, key, k);
    } else {
      InsertStable(x, xs[1..], key, k);
      InsertPastHead(x, xs, key, k);
    }
  }

  /** The step of InsertStable when `x` goes past the head of `xs`. */
  lemma InsertPastHead<T>(x: T, xs: seq<T>, key: T -> int, k: int)
    requires xs != [] && key(x) > key(xs[0])
    requires WithKey(Insert(x, xs[1..], key), key, k)
          == (if key(x) == k then [x] else []) + WithKey(xs[1..], key, k)
    ensures WithKey(Insert(x, xs, key), key, k)
         == (if key(x) == k then [x] else []) + WithKey(xs, key, k)
  {
    var rest := Insert(x, xs[1..], key);
    var hd := if key(xs[0]) == k then [xs[0]] else [];
    var ins := if key(x) == k then [x] else [];
    calc {
      WithKey(Insert(x, xs, key), key, k);
      { InsertPast(x, xs, key); }
      WithKey([xs[0]] + rest, key, k);
      { WithKeyCons(xs[0], rest, key, k); }
      hd + WithKey(rest, key, k);
      hd + (ins + WithKey(xs[1..], key, k));
      { SwapHeads(hd, ins, WithKey(xs[1..], key, k)); }
      ins + (hd + WithKey(xs[1..], key, k));
      { WithKeyCons(xs[0], xs[1..], key, k); }
      ins + WithKey([xs[0]] + xs[1..], key, k);
      { assert [xs[0]] + xs[1..] == xs; }
      ins + WithKey(xs, key, k);
    }
  }

  lemma InsertPast<T>(x: T, xs: seq<T>, key: T -> int)
    requires xs != [] && key(x) > key(xs[0])
    ensures Insert(x, xs, key) == [xs[0]] + Insert(x, xs[1..], key)
  {
  }

  lemma SwapHeads<T>(a: seq<T>, b: seq<T>, w: seq<T>)
    requires a == [] || b == []
    ensures a + (b + w) == b + (a + w)
  {
    if a == [] {
      assert a + (b + w) == b + w == b + (a + w);
    } else {
      assert a + (b + w) == a + w == b + (a + w);
    }
  }

  lemma WithKeyCons<T>(y: T, ys: seq<T>, key: T -> int, k: int)
    ensures WithKey([y] + ys, key, k) == (if key(y) == k then [y] else []) + WithKey(ys, key, k)
  {
    assert ([y] + ys)[0] == y && ([y] + ys)[1..] == ys;
  }

  /**
    SortBy is stable: for every key value, the elements with that key appear in
    the output in the same order as in the input.
   */
  lemma {:induction false} SortByStable<T>(xs: seq<T>, key: T -> int, k: int)
    ensures WithKey(SortBy(xs, key), key, k) == WithKey(xs, key, k)
  {
    if xs != [] {
      SortByStable(xs[1..], key, k);
      InsertStable(xs[0], SortBy(xs[1..], key), key, k);
    }
  }

  /** Sorting input that is already ordered leaves it unchanged. */
  lemma {:induction false} SortByOfSorted<T>(xs: seq<T>, key: T -> int)
    requires SortedBy(xs, key)
    ensures SortBy(xs, key) == xs
  {
    if xs != [] {
      assert SortedBy(xs[1..], key);
      SortByOfSorted(xs[1..], key);
      assert xs == [xs[0]] + xs[1..];
    }
  }

  lemma {:induction false} InsertDistinct<T, K>(x: T, xs: seq<T>, key: T -> int, f: T -> K)
    requires DistinctBy(xs, f)
    requires forall y :: y in xs ==> f(y) != f(x)
    ensures DistinctBy(Insert(x, xs, key), f)
  {
    if xs != [] && key(x) > key(xs[0]) {
      var tail := Insert(x, xs[1..], key);
      assert DistinctBy(xs[1..], f);
      InsertDistinct(x, xs[1..], key, f);
      forall j | 0 <= j < |tail|
        ensures f(xs[0]) != f(tail[j])
      {
        assert tail[j] in multiset(tail);
        if tail[j] != x {
          assert tail[j] in multiset(xs[1..]);
          var i :| 0 <= i < |xs[1..]| && xs[1..][i] == tail[j];
          assert xs[1..][i] == xs[i + 1];
        }
      }
      var r := [xs[0]] + tail;
      forall a, b | 0 <= a < b < |r|
        ensures f(r[a]) != f(r[b])
      {
        if a > 0 {
          assert r[a] == tail[a - 1] && r[b] == tail[b - 1];
        }
      }
    }
  }

  /** Sorting keeps elements pairwise distinct under any projection `f`. */
  lemma {:induction false} SortByDistinct<T, K>(xs: seq<T>, key: T -> int, f: T -> K)
    requires DistinctBy(xs, f)
    ensures DistinctBy(SortBy(xs, key), f)
  {
    if xs != [] {
      var rest := SortBy(xs[1..], key);
      assert DistinctBy(xs[1..], f);
      SortByDistinct(xs[1..], key, f);
      forall y | y in rest
        ensures f(y) != f(xs[0])
      {
        assert y in multiset(rest);
        assert y in multiset(xs[1..]);
        var i :| 0 <= i < |xs[1..]| && xs[1..][i] == y;
        assert xs[1..][i] == xs[i + 1];
      }
      InsertDistinct(xs[0], rest, key, f);
    }
  }

  lemma {:induction false} WithKeyAppend<T>(xs: seq<T>, ys: seq<T>, key: T -> int, k: int)
    ensures WithKey(xs + ys, key, k) == WithKey(xs, key, k) + WithKey(ys, key, k)
  {
    if xs != [] {
      assert (xs + ys)[0] == xs[0] && (xs + ys)[1..] == xs[1..] + ys;
      WithKeyAppend(xs[1..], ys, key, k);
    } else {
      assert xs + ys == ys;
    }
  }

  /** When every element has key `k`, selecting key `k` keeps the whole sequence. */
  lemma {:induction false} WithKeyAll<T>(xs: seq<T>, key: T -> int, k: int)
    requires forall i :: 0 <= i < |xs| ==> key(xs[i]) == k
    ensures WithKey(xs, key, k) == xs
  {
    if xs != [] {
      WithKeyAll(xs[1..], key, k);
      assert xs == [xs[0]] + xs[1..];
    }
  }

  /** WithKey selects exactly the elements of `xs` whose key is `k`. */
  lemma {:induction false} WithKeyMembers<T>(xs: seq<T>, key: T -> int, k: int)
    ensures forall y :: y in WithKey(xs, key, k) <==> y in xs && key(y) == k
  {
    if xs != [] {
      WithKeyMembers(xs[1..], key, k);
      SplitMembers(xs, 1);
    }
  }

  /** When no element has key `k`, nothing is selected. */
  lemma WithKeyNone<T>(xs: seq<T>, key: T -> int, k: int)
    requires forall y :: y in xs ==> key(y) != k
    ensures WithKey(xs, key, k) == []
  {
  }

  lemma SortedSuffix<T>(xs: seq<T>, key: T -> int, n: nat)
    requires SortedBy(xs, key) && n <= |xs|
    ensures SortedBy(xs[n..], key)
  {
    forall a, b | 0 <= a < b < |xs[n..]|
      ensures key(xs[n..][a]) <= key(xs[n..][b])
    {
      assert xs[n..][a] == xs[n + a] && xs[n..][b] == xs[n + b];
    }
  }

  /** An element of `xs` is in the part before `n` or in the part from `n` on. */
  lemma SplitMembers<T>(xs: seq<T>, n: nat)
    requires n <= |xs|
    ensures forall y :: y in xs <==> y in xs[..n] || y in xs[n..]
  {
    assert xs == xs[..n] + xs[n..];
  }

  /** Sorting keeps exactly the same elements. */
  lemma SortByMembers<T>(xs: seq<T>, key: T -> int)
    ensures forall y :: y in SortBy(xs, key) <==> y in xs
  {
    var r := SortBy(xs, key);
    assert forall y :: y in r <==> y in multiset(r);
    assert forall y :: y in xs <==> y in multiset(xs);
  }
}
