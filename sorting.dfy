/** The ranking engine: a first-element-pivot quicksort over records compared by a numeric key, in
    either direction, and the bounded top-N view built on it. */
module Sorting {

  /** `a` comes strictly before `b` in the requested direction. */
  predicate Precedes(ascending: bool, a: real, b: real) {
    if ascending then a < b else b < a
  }

  /** No element is followed by one that should come strictly before it. */
  predicate Ordered<T>(s: seq<T>, key: T -> real, ascending: bool) {
    forall i, j :: 0 <= i < j < |s| ==> !Precedes(ascending, key(s[j]), key(s[i]))
  }

  /** The elements of `s` that come strictly before `pivot`, in their order in `s`. */
  function Before<T>(s: seq<T>, key: T -> real, pivot: real, ascending: bool): (r: seq<T>)
    ensures |r| <= |s|
    ensures forall x :: x in r ==> x in s && Precedes(ascending, key(x), pivot)
  {
    if s == [] then []
    else (if Precedes(ascending, key(s[0]), pivot) then [s[0]] else []) + Before(s[1..], key, pivot, ascending)
  }

  /** The elements of `s` that do not come strictly before `pivot` (ties included), in order. */
  function NotBefore<T>(s: seq<T>, key: T -> real, pivot: real, ascending: bool): (r: seq<T>)
    ensures |r| <= |s|
    ensures forall x :: x in r ==> x in s && !Precedes(ascending, key(x), pivot)
  {
    if s == [] then []
    else (if Precedes(ascending, key(s[0]), pivot) then [] else [s[0]]) + NotBefore(s[1..], key, pivot, ascending)
  }

  /** The two partitions together hold exactly the elements of `s`. */
  lemma {:induction false} PartitionSplits<T>(s: seq<T>, key: T -> real, pivot: real, ascending: bool)
    ensures multiset(Before(s, key, pivot, ascending)) + multiset(NotBefore(s, key, pivot, ascending)) == multiset(s)
  {
    if s != [] {
      var t := s[1..];
      PartitionSplits(t, key, pivot, ascending);
      var b := Before(t, key, pivot, ascending);
      var nb := NotBefore(t, key, pivot, ascending);
      assert s == [s[0]] + t;
      assert multiset(s) == multiset{s[0]} + multiset(t);
      if Precedes(ascending, key(s[0]), pivot) {
        assert Before(s, key, pivot, ascending) == [s[0]] + b;
        assert NotBefore(s, key, pivot, ascending) == nb;
        assert multiset([s[0]] + b) == multiset{s[0]} + multiset(b);
      } else {
        assert Before(s, key, pivot, ascending) == b;
        assert NotBefore(s, key, pivot, ascending) == [s[0]] + nb;
        assert multiset([s[0]] + nb) == multiset{s[0]} + multiset(nb);
      }
    }
  }

  /** Joining the sorted left part, the pivot and the sorted right part gives an ordered sequence. */
  lemma JoinOrdered<T>(left: seq<T>, pivot: T, right: seq<T>, key: T -> real, ascending: bool)
    requires Ordered(left, key, ascending) && Ordered(right, key, ascending)
    requires forall x :: x in left ==> Precedes(ascending, key(x), key(pivot))
    requires forall x :: x in right ==> !Precedes(ascending, key(x), key(pivot))
    ensures Ordered(left + [pivot] + right, key, ascending)
  {
    var s := left + [pivot] + right;
    forall i, j | 0 <= i < j < |s|
      ensures !Precedes(ascending, key(s[j]), key(s[i]))
    {
      if j < |left| {
        assert s[i] == left[i] && s[j] == left[j];
      } else if i > |left| {
        assert s[i] == right[i - |left| - 1] && s[j] == right[j - |left| - 1];
      } else if i < |left| {
        assert s[i] in left;
        if j > |left| {
          assert s[j] in right;
        }
      } else {
        assert s[j] in right;
      }
    }
  }

  /** The quicksort of dataset 2: the head is the pivot, the rest splits into the elements strictly
      before it and the others (ties go right, after the pivot), and both parts are sorted in turn.
      Each recursive call gets a part of the tail, so it is strictly shorter than `s`. */
  function QuickSort<T(==)>(s: seq<T>, key: T -> real, ascending: bool): (r: seq<T>)
    ensures |s| <= 1 ==> r == s
    ensures multiset(r) == multiset(s)
    ensures Ordered(r, key, ascending)
    decreases |s|
  {
    if |s| <= 1 then s
    else
      var pivot := s[0];
      var left := Before(s[1..], key, key(pivot), ascending);
      var right := NotBefore(s[1..], key, key(pivot), ascending);
      var sortedLeft := QuickSort(left, key, ascending);
      var sortedRight := QuickSort(right, key, ascending);
      PartitionsRejoin(s, key, ascending, sortedLeft, sortedRight);
      sortedLeft + [pivot] + sortedRight
  }

  /** One step of the quicksort, as an equation. */
  lemma QuickSortUnfold<T>(s: seq<T>, key: T -> real, ascending: bool)
    requires |s| > 1
    ensures QuickSort(s, key, ascending)
         == QuickSort(Before(s[1..], key, key(s[0]), ascending), key, ascending) + [s[0]]
          + QuickSort(NotBefore(s[1..], key, key(s[0]), ascending), key, ascending)
  {
  }

  /** A sorted left part, the pivot and a sorted right part make a sorted permutation of `s`. */
  lemma PartitionsRejoin<T>(s: seq<T>, key: T -> real, ascending: bool, sortedLeft: seq<T>, sortedRight: seq<T>)
    requires |s| > 1
    requires multiset(sortedLeft) == multiset(Before(s[1..], key, key(s[0]), ascending))
    requires multiset(sortedRight) == multiset(NotBefore(s[1..], key, key(s[0]), ascending))
    requires Ordered(sortedLeft, key, ascending) && Ordered(sortedRight, key, ascending)
    ensures multiset(sortedLeft + [s[0]] + sortedRight) == multiset(s)
    ensures Ordered(sortedLeft + [s[0]] + sortedRight, key, ascending)
  {
    var pivot := s[0];
    var left := Before(s[1..], key, key(pivot), ascending);
    var right := NotBefore(s[1..], key, key(pivot), ascending);
    assert multiset(sortedLeft + [s[0]] + sortedRight) == multiset(s) by {
      PartitionSplits(s[1..], key, key(pivot), ascending);
      assert s == [pivot] + s[1..];
    }
    assert forall x :: x in sortedLeft ==> Precedes(ascending, key(x), key(pivot)) by {
      assert forall x :: x in sortedLeft ==> x in multiset(left);
    }
    assert forall x :: x in sortedRight ==> !Precedes(ascending, key(x), key(pivot)) by {
      assert forall x :: x in sortedRight ==> x in multiset(right);
    }
    JoinOrdered(sortedLeft, pivot, sortedRight, key, ascending);
  }

  /** The elements of `s` whose key is `k`, in their order in `s`. */
  function WithKey<T>(s: seq<T>, key: T -> real, k: real): seq<T> {
    if s == [] then []
    else (if key(s[0]) == k then [s[0]] else []) + WithKey(s[1..], key, k)
  }

  lemma {:induction false} WithKeyAppend<T>(a: seq<T>, b: seq<T>, key: T -> real, k: real)
    ensures WithKey(a + b, key, k) == WithKey(a, key, k) + WithKey(b, key, k)
  {
    if a == [] {
      assert a + b == b;
    } else {
      assert (a + b)[0] == a[0] && (a + b)[1..] == a[1..] + b;
      WithKeyAppend(a[1..], b, key, k);
      var h := if key(a[0]) == k then [a[0]] else [];
      assert WithKey(a + b, key, k) == h + WithKey(a[1..] + b, key, k);
      assert h + (WithKey(a[1..], key, k) + WithKey(b, key, k)) == (h + WithKey(a[1..], key, k)) + WithKey(b, key, k);
    }
  }

  /** Partitioning keeps every key-`k` element on one side, in its original order. */
  lemma {:induction false} WithKeyOfPartitions<T>(s: seq<T>, key: T -> real, pivot: real, ascending: bool, k: real)
    ensures WithKey(Before(s, key, pivot, ascending), key, k)
            == if Precedes(ascending, k, pivot) then WithKey(s, key, k) else []
    ensures WithKey(NotBefore(s, key, pivot, ascending), key, k)
            == if Precedes(ascending, k, pivot) then [] else WithKey(s, key, k)
  {
    if s != [] {
      WithKeyOfPartitions(s[1..], key, pivot, ascending, k);
      var head := if Precedes(ascending, key(s[0]), pivot) then [s[0]] else [];
      var other := if Precedes(ascending, key(s[0]), pivot) then [] else [s[0]];
      WithKeyAppend(head, Before(s[1..], key, pivot, ascending), key, k);
      WithKeyAppend(other, NotBefore(s[1..], key, pivot, ascending), key, k);
    }
  }

  /** Stability: for every key, the elements carrying that key appear in the output in the same
      relative order as in the input, whichever the direction. */
  lemma {:induction false} QuickSortStable<T>(s: seq<T>, key: T -> real, ascending: bool, k: real)
    ensures WithKey(QuickSort(s, key, ascending), key, k) == WithKey(s, key, k)
    decreases |s|
  {
    if |s| > 1 {
      var pivot, rest := s[0], s[1..];
      var left := Before(rest, key, key(pivot), ascending);
      var right := NotBefore(rest, key, key(pivot), ascending);
      QuickSortStable(left, key, ascending, k);
      QuickSortStable(right, key, ascending, k);
      var sl := QuickSort(left, key, ascending);
      var sr := QuickSort(right, key, ascending);
      QuickSortUnfold(s, key, ascending);
      RejoinKeepsKeyOrder(rest, pivot, key, ascending, k, sl, sr);
      assert s == [pivot] + rest;
    }
  }

  /** One step of the stability proof: rejoining parts that agree with the partitions on the
      key-`k` elements agrees with the whole input on them. */
  lemma RejoinKeepsKeyOrder<T>(rest: seq<T>, pivot: T, key: T -> real, ascending: bool, k: real, sl: seq<T>, sr: seq<T>)
    requires WithKey(sl, key, k) == WithKey(Before(rest, key, key(pivot), ascending), key, k)
    requires WithKey(sr, key, k) == WithKey(NotBefore(rest, key, key(pivot), ascending), key, k)
    ensures WithKey(sl + [pivot] + sr, key, k) == WithKey([pivot] + rest, key, k)
  {
    WithKeyAround(sl, pivot, sr, key, k);
    WithKeyAppend([pivot], rest, key, k);
    WithKeySplit(rest, pivot, key, ascending, k);
  }

  lemma WithKeyAround<T>(a: seq<T>, p: T, b: seq<T>, key: T -> real, k: real)
    ensures WithKey(a + [p] + b, key, k) == WithKey(a, key, k) + WithKey([p], key, k) + WithKey(b, key, k)
  {
    WithKeyAppend(a + [p], b, key, k);
    WithKeyAppend(a, [p], key, k);
  }

  /** The key-`k` elements all fall on one side of the pivot: left of it when `k` comes strictly
      before the pivot's key (and then the pivot is not one of them), right of it otherwise. */
  lemma WithKeySplit<T>(rest: seq<T>, pivot: T, key: T -> real, ascending: bool, k: real)
    ensures var w := WithKey(rest, key, k);
      || (WithKey(Before(rest, key, key(pivot), ascending), key, k) == w && WithKey([pivot], key, k) == []
          && WithKey(NotBefore(rest, key, key(pivot), ascending), key, k) == [])
      || (WithKey(Before(rest, key, key(pivot), ascending), key, k) == []
          && WithKey(NotBefore(rest, key, key(pivot), ascending), key, k) == w)
  {
    WithKeyOfPartitions(rest, key, key(pivot), ascending, k);
    assert [pivot][1..] == [];
  }

  /** Input that is already in order, in particular any list of at most one element, comes back
      unchanged. */
  lemma {:induction false} QuickSortKeepsOrderedInput<T>(s: seq<T>, key: T -> real, ascending: bool)
    requires Ordered(s, key, ascending)
    ensures QuickSort(s, key, ascending) == s
    decreases |s|
  {
    if |s| > 1 {
      var pivot := s[0];
      var rest := s[1..];
      OrderedHead(s, key, ascending);
      NothingBefore(rest, key, key(pivot), ascending);
      QuickSortKeepsOrderedInput(rest, key, ascending);
      QuickSortUnfold(s, key, ascending);
      var empty: seq<T> := [];
      assert QuickSort(empty, key, ascending) + [pivot] == [pivot];
      assert s == [pivot] + rest;
    }
  }

  /** In an ordered sequence nothing after the head comes before it, and the tail is ordered. */
  lemma OrderedHead<T>(s: seq<T>, key: T -> real, ascending: bool)
    requires Ordered(s, key, ascending) && |s| > 0
    ensures forall x :: x in s[1..] ==> !Precedes(ascending, key(x), key(s[0]))
    ensures Ordered(s[1..], key, ascending)
  {
    forall x | x in s[1..] ensures !Precedes(ascending, key(x), key(s[0])) {
      var j :| 0 <= j < |s[1..]| && s[1..][j] == x;
      assert s[j + 1] == x;
    }
  }

  lemma {:induction false} NothingBefore<T>(s: seq<T>, key: T -> real, pivot: real, ascending: bool)
    requires forall x :: x in s ==> !Precedes(ascending, key(x), pivot)
    ensures Before(s, key, pivot, ascending) == []
    ensures NotBefore(s, key, pivot, ascending) == s
  {
    if s != [] {
      NothingBefore(s[1..], key, pivot, ascending);
      assert s == [s[0]] + s[1..];
    }
  }

  function Min(a: int, b: int): int {
    if a <= b then a else b
  }

  /** Every element kept in the prefix `q[..m]` of an ordered sequence is at least as good as every
      element left out. */
  lemma PrefixIsTop<T>(q: seq<T>, key: T -> real, ascending: bool, m: nat)
    requires Ordered(q, key, ascending) && m <= |q|
    ensures Ordered(q[..m], key, ascending)
    ensures multiset(q[..m]) <= multiset(q)
    ensures forall x, y :: x in q[..m] && y in multiset(q) - multiset(q[..m])
              ==> !Precedes(ascending, key(y), key(x))
  {
    var kept, rest := q[..m], q[m..];
    assert q == kept + rest;
    assert multiset(q) == multiset(kept) + multiset(rest);
    assert multiset(q) - multiset(kept) == multiset(rest);
    PrefixBeforeSuffix(q, key, ascending, m);
  }

  /** In an ordered sequence, nothing after position `m` comes strictly before something before it. */
  lemma PrefixBeforeSuffix<T>(q: seq<T>, key: T -> real, ascending: bool, m: nat)
    requires Ordered(q, key, ascending) && m <= |q|
    ensures forall x, y :: x in q[..m] && y in q[m..] ==> !Precedes(ascending, key(y), key(x))
  {
    forall x, y | x in q[..m] && y in q[m..]
      ensures !Precedes(ascending, key(y), key(x))
    {
      var i :| 0 <= i < m && q[i] == x;
      var j :| m <= j < |q| && q[j] == y;
    }
  }

  /** The first `n` elements in sorted order: at most `n` elements of `s`, ordered, and none of
      the elements left out comes strictly before one that was kept. */
  function TopN<T(==)>(s: seq<T>, key: T -> real, ascending: bool, n: nat): (r: seq<T>)
    ensures |r| == Min(n, |s|)
    ensures multiset(r) <= multiset(s)
    ensures Ordered(r, key, ascending)
    ensures forall x, y :: x in r && y in multiset(s) - multiset(r) ==> !Precedes(ascending, key(y), key(x))
  {
    var q := QuickSort(s, key, ascending);
    assert |q| == |multiset(q)| == |s|;
    PrefixIsTop(q, key, ascending, Min(n, |s|));
    q[..Min(n, |s|)]
  }

  /** The elements of `s` that satisfy `p`, in their order in `s`. */
  function Filter<T>(s: seq<T>, p: T -> bool): (r: seq<T>)
    ensures |r| <= |s|
    ensures forall x :: x in r ==> x in s && p(x)
  {
    if s == [] then [] else (if p(s[0]) then [s[0]] else []) + Filter(s[1..], p)
  }

  lemma {:induction false} FilterAppend<T>(a: seq<T>, b: seq<T>, p: T -> bool)
    ensures Filter(a + b, p) == Filter(a, p) + Filter(b, p)
  {
    if a == [] {
      assert a + b == b;
    } else {
      assert (a + b)[1..] == a[1..] + b;
      FilterAppend(a[1..], b, p);
    }
  }

  /** Filtering keeps every satisfying element as often as it occurs, and nothing else. */
  lemma {:induction false} FilterCount<T>(s: seq<T>, p: T -> bool, x: T)
    ensures multiset(Filter(s, p))[x] == if p(x) then multiset(s)[x] else 0
  {
    if s != [] {
      FilterCount(s[1..], p, x);
      assert s == [s[0]] + s[1..];
    }
  }

  lemma {:induction false} FilterOrdered<T>(s: seq<T>, p: T -> bool, key: T -> real, ascending: bool)
    requires Ordered(s, key, ascending)
    ensures Ordered(Filter(s, p), key, ascending)
  {
    if s != [] {
      FilterOrdered(s[1..], p, key, ascending);
      var rest := Filter(s[1..], p);
      if p(s[0]) {
        forall j | 0 < j < |rest| + 1 ensures !Precedes(ascending, key(([s[0]] + rest)[j]), key(s[0])) {
          var x := rest[j - 1];
          assert x in rest;
          var k :| 0 <= k < |s[1..]| && s[1..][k] == x;
          assert s[k + 1] == x;
        }
      }
    }
  }

  lemma {:induction false} FilterAll<T>(s: seq<T>, p: T -> bool)
    requires forall x :: x in s ==> p(x)
    ensures Filter(s, p) == s
  {
    if s != [] {
      FilterAll(s[1..], p);
      assert s == [s[0]] + s[1..];
    }
  }

  lemma {:induction false} FilterNone<T>(s: seq<T>, p: T -> bool)
    requires forall x :: x in s ==> !p(x)
    ensures Filter(s, p) == []
  {
    if s != [] {
      FilterNone(s[1..], p);
    }
  }

  /** `y` is an element of `pool` with more copies in `pool` than in `kept`: one left out. */
  predicate LeftOut<T(==)>(y: T, kept: seq<T>, pool: seq<T>) {
    y in pool && multiset(kept)[y] < multiset(pool)[y]
  }

  /** The first `n` elements, or all of them when there are fewer. */
  function Head<T>(s: seq<T>, n: nat): (r: seq<T>)
    ensures |r| == Min(n, |s|)
    ensures forall i :: 0 <= i < |r| ==> r[i] == s[i]
  {
    s[..Min(n, |s|)]
  }

  /** The head is a part of the sequence: drawn from it, and its members are members of it. */
  lemma HeadIsPart<T>(s: seq<T>, n: nat)
    ensures multiset(Head(s, n)) <= multiset(s)
    ensures forall x :: x in Head(s, n) ==> x in s
  {
    assert s == Head(s, n) + s[Min(n, |s|)..];
  }

  /** An ordered run of elements satisfying `p` followed by elements that do not: every element
      satisfying `p` comes before all that do not, and those are ordered among themselves. */
  lemma OrderedThenRest<T>(q: seq<T>, l: seq<T>, key: T -> real, ascending: bool, p: T -> bool)
    requires Ordered(q, key, ascending)
    requires forall x :: x in q ==> p(x)
    requires forall x :: x in l ==> !p(x)
    ensures forall i, j :: 0 <= i < j < |q + l| && p((q + l)[j]) ==>
              p((q + l)[i]) && !Precedes(ascending, key((q + l)[j]), key((q + l)[i]))
  {
    forall i, j | 0 <= i < j < |q + l| && p((q + l)[j])
      ensures p((q + l)[i]) && !Precedes(ascending, key((q + l)[j]), key((q + l)[i]))
    {
      assert (q + l)[j] == q[j] && (q + l)[i] == q[i];
      assert q[i] in q;
    }
  }

  lemma {:induction false} FilterEmpty<T>(s: seq<T>, p: T -> bool)
    ensures Filter(s, p) == [] <==> forall x :: x in s ==> !p(x)
  {
    if s != [] {
      FilterEmpty(s[1..], p);
      assert forall x :: x in s ==> x == s[0] || x in s[1..];
    }
  }

  /** The first element `Filter` keeps is the first element of `s` that satisfies `p`. */
  lemma {:induction false} FilterFirst<T>(s: seq<T>, p: T -> bool)
    requires Filter(s, p) != []
    ensures exists i :: 0 <= i < |s| && p(s[i]) && Filter(s, p)[0] == s[i] && forall j :: 0 <= j < i ==> !p(s[j])
  {
    if !p(s[0]) {
      FilterFirst(s[1..], p);
      var i :| 0 <= i < |s[1..]| && p(s[1..][i]) && Filter(s[1..], p)[0] == s[1..][i]
                && forall j :: 0 <= j < i ==> !p(s[1..][j]);
      assert p(s[i + 1]) && Filter(s, p)[0] == s[i + 1];
      forall j | 0 <= j < i + 1 ensures !p(s[j]) {
        if j > 0 {
          assert s[j] == s[1..][j - 1];
        }
      }
    } else {
      assert p(s[0]) && Filter(s, p)[0] == s[0];
    }
  }

  /** The head of an ordered permutation of `pool` is a top-`n` view of `pool`. */
  lemma HeadOfPermutationIsTop<T>(s: seq<T>, pool: seq<T>, key: T -> real, ascending: bool, n: nat)
    requires Ordered(s, key, ascending) && multiset(s) == multiset(pool)
    ensures |Head(s, n)| == Min(n, |pool|)
    ensures forall x :: x in Head(s, n) ==> x in pool
    ensures Ordered(Head(s, n), key, ascending)
    ensures forall x, y :: x in Head(s, n) && LeftOut(y, Head(s, n), pool) ==> !Precedes(ascending, key(y), key(x))
  {
    assert |s| == |multiset(s)| == |pool|;
    var m := Min(n, |s|);
    PrefixIsTop(s, key, ascending, m);
    assert Head(s, n) == s[..m];
    forall x | x in Head(s, n) ensures x in pool {
      assert x in multiset(s);
    }
    forall x, y | x in Head(s, n) && LeftOut(y, Head(s, n), pool)
      ensures !Precedes(ascending, key(y), key(x))
    {
      assert y in multiset(s) - multiset(s[..m]);
    }
  }

  lemma HeadOfAppend<T>(a: seq<T>, b: seq<T>, n: nat)
    ensures Head(a + b, n) == Head(a, n) + Head(b, n - Min(n, |a|))
  {
    var l := Head(a, n) + Head(b, n - Min(n, |a|));
    assert |Head(a + b, n)| == |l|;
    forall i | 0 <= i < |l| ensures Head(a + b, n)[i] == l[i] {
      if i >= |a| {
        assert (a + b)[i] == b[i - |a|];
      }
    }
  }
}
