/**
 What EasySort computes, on sequences: strip every element below the running
 maximum, then insert the stripped ones behind their equals. The result is
 the one stable sort of the input.
 */
module StableSort {

  // ---------- stable sorting ----------

  ghost predicate Sorted<T>(s: seq<T>, score: T -> real) {
    forall i: nat, j: nat :: i < j < |s| ==> score(s[i]) <= score(s[j])
  }

  /** The elements of a given score, in order. */
  function Filter<T>(s: seq<T>, score: T -> real, c: real): seq<T> {
    if s == [] then []
    else (if score(s[0]) == c then [s[0]] else []) + Filter(s[1..], score, c)
  }

  /** Non-decreasing by score, equal scores in their original order, nothing lost or invented. */
  ghost predicate IsStableSort<T>(s: seq<T>, score: T -> real, r: seq<T>) {
    Sorted(r, score) && forall c: real :: Filter(r, score, c) == Filter(s, score, c)
  }

  lemma {:induction false} FilterAppend<T>(a: seq<T>, b: seq<T>, score: T -> real, c: real)
    ensures Filter(a + b, score, c) == Filter(a, score, c) + Filter(b, score, c)
  {
    if a == [] {
      assert a + b == b;
    } else {
      var head := if score(a[0]) == c then [a[0]] else [];
      FilterAppend(a[1..], b, score, c);
      assert Filter(a + b, score, c) == head + Filter(a[1..] + b, score, c) by {
        assert (a + b)[0] == a[0] && (a + b)[1..] == a[1..] + b;
      }
      var rest, other := Filter(a[1..], score, c), Filter(b, score, c);
      assert head + (rest + other) == (head + rest) + other;
    }
  }

  lemma {:induction false} FilterNone<T>(s: seq<T>, score: T -> real, c: real)
    requires forall i: nat :: i < |s| ==> score(s[i]) != c
    ensures Filter(s, score, c) == []
  {
    if s != [] {
      FilterNone(s[1..], score, c);
    }
  }

  lemma {:induction false} FilterCounts<T>(s: seq<T>, score: T -> real, e: T)
    ensures multiset(Filter(s, score, score(e)))[e] == multiset(s)[e]
  {
    if s != [] {
      assert s == [s[0]] + s[1..];
      FilterCounts(s[1..], score, e);
    }
  }

  /** A stable sort is a permutation. */
  lemma StableSortPermutes<T>(s: seq<T>, score: T -> real, r: seq<T>)
    requires IsStableSort(s, score, r)
    ensures multiset(r) == multiset(s)
  {
    forall e: T ensures multiset(r)[e] == multiset(s)[e] {
      FilterCounts(s, score, e);
      FilterCounts(r, score, e);
    }
  }

  /** There is only one. */
  lemma {:induction false} StableSortIsUnique<T>(s: seq<T>, score: T -> real, r: seq<T>, q: seq<T>)
    requires IsStableSort(s, score, r) && IsStableSort(s, score, q)
    ensures r == q
  {
    SortedWithSameFilters(r, q, score);
  }

  lemma {:induction false} SortedWithSameFilters<T>(r: seq<T>, q: seq<T>, score: T -> real)
    requires Sorted(r, score) && Sorted(q, score)
    requires forall c: real :: Filter(r, score, c) == Filter(q, score, c)
    ensures r == q
    decreases |r|
  {
    if r == [] {
      FilterSelf(q, score);
    } else if q == [] {
      FilterSelf(r, score);
    } else {
      HeadsAgree(r, q, score);
      forall c: real ensures Filter(r[1..], score, c) == Filter(q[1..], score, c) {
        TailFilters(r, q, score, c);
      }
      SortedWithSameFilters(r[1..], q[1..], score);
    }
  }

  lemma FilterSelf<T>(s: seq<T>, score: T -> real)
    ensures s != [] ==> Filter(s, score, score(s[0])) != []
  {
  }

  lemma HeadsAgree<T>(r: seq<T>, q: seq<T>, score: T -> real)
    requires r != [] && q != [] && Sorted(r, score) && Sorted(q, score)
    requires forall c: real :: Filter(r, score, c) == Filter(q, score, c)
    ensures r[0] == q[0]
  {
    assert Filter(r, score, score(r[0]))[0] == r[0];
    assert Filter(q, score, score(q[0]))[0] == q[0];
    LeastScore(r, q, score);
    LeastScore(q, r, score);
  }

  lemma TailFilters<T>(r: seq<T>, q: seq<T>, score: T -> real, c: real)
    requires r != [] && q != [] && r[0] == q[0] && Filter(r, score, c) == Filter(q, score, c)
    ensures Filter(r[1..], score, c) == Filter(q[1..], score, c)
  {
    var k := if score(r[0]) == c then 1 else 0;
    assert Filter(r[1..], score, c) == Filter(r, score, c)[k..];
    assert Filter(q[1..], score, c) == Filter(q, score, c)[k..];
  }

  lemma LeastScore<T>(r: seq<T>, q: seq<T>, score: T -> real)
    requires r != [] && q != [] && Sorted(q, score) && Filter(q, score, score(r[0])) != []
    ensures score(q[0]) <= score(r[0])
  {
    if score(q[0]) > score(r[0]) {
      FilterNone(q, score, score(r[0]));
    }
  }

  // ---------- the algorithm ----------

  datatype Split<T> = Split(kept: seq<T>, dropped: seq<T>)

  predicate Below<T>(e: T, kept: seq<T>, score: T -> real) {
    kept != [] && score(e) < score(kept[|kept| - 1])
  }

  /** The scan of the first `n`: an element below the running maximum, the last kept score, is dropped. */
  function Scan<T>(s: seq<T>, score: T -> real, n: nat): (r: Split<T>)
    requires n <= |s|
    ensures n > 0 ==> r.kept != []
    ensures |r.kept| + |r.dropped| == n
  {
    if n == 0 then Split([], [])
    else
      var r := Scan(s, score, n - 1);
      if Below(s[n - 1], r.kept, score) then r.(dropped := r.dropped + [s[n - 1]])
      else r.(kept := r.kept + [s[n - 1]])
  }

  /** The first position whose score exceeds `x`. */
  function UpperBound<T>(s: seq<T>, score: T -> real, x: real): (u: nat)
    ensures u <= |s|
    ensures forall i: nat :: i < u ==> score(s[i]) <= x
    ensures u < |s| ==> score(s[u]) > x
  {
    if s == [] || score(s[0]) > x then 0
    else
      var u := UpperBound(s[1..], score, x);
      assert forall i: nat :: 0 < i < u + 1 ==> s[i] == s[1..][i - 1];
      u + 1
  }

  function InsertBehind<T>(s: seq<T>, score: T -> real, e: T): (r: seq<T>)
    ensures |r| == |s| + 1
  {
    var u := UpperBound(s, score, score(e));
    s[..u] + [e] + s[u..]
  }

  /** The first `n` of `dropped` inserted one after the other. */
  function Reinsert<T>(kept: seq<T>, score: T -> real, dropped: seq<T>, n: nat): (r: seq<T>)
    requires n <= |dropped|
    ensures |r| == |kept| + n
  {
    if n == 0 then kept else InsertBehind(Reinsert(kept, score, dropped, n - 1), score, dropped[n - 1])
  }

  function EasySorted<T>(s: seq<T>, score: T -> real): seq<T> {
    if |s| <= 1 then s
    else
      var r := Scan(s, score, |s|);
      Reinsert(r.kept, score, r.dropped, |r.dropped|)
  }

  // ---------- correctness ----------

  lemma {:induction false} KeptIsSorted<T>(s: seq<T>, score: T -> real, n: nat)
    requires n <= |s|
    ensures Sorted(Scan(s, score, n).kept, score)
  {
    if n > 0 {
      KeptIsSorted(s, score, n - 1);
    }
  }

  /** Every dropped score lies below the running maximum. */
  ghost predicate DropsBelow<T>(r: Split<T>, score: T -> real) {
    forall e :: e in r.dropped ==> Below(e, r.kept, score)
  }

  lemma {:induction false} DroppedIsBelow<T>(s: seq<T>, score: T -> real, n: nat)
    requires n <= |s|
    ensures DropsBelow(Scan(s, score, n), score)
  {
    if n > 0 {
      DroppedIsBelow(s, score, n - 1);
    }
  }

  /** Equal-scored kept elements precede the equal-scored dropped ones. */
  lemma {:induction false} KeptBeforeDropped<T>(s: seq<T>, score: T -> real, n: nat, c: real)
    requires n <= |s|
    ensures var r := Scan(s, score, n);
      Filter(s[..n], score, c) == Filter(r.kept, score, c) + Filter(r.dropped, score, c)
  {
    if n == 0 {
      return;
    }
    var r, e := Scan(s, score, n - 1), s[n - 1];
    KeptBeforeDropped(s, score, n - 1, c);
    FilterLast(s, score, n, c);
    if Below(e, r.kept, score) {
      DropLast(r, score, e, c);
      return;
    }
    DroppedIsBelow(s, score, n - 1);
    KeepLast(r, score, e, c);
  }

  lemma DropLast<T>(r: Split<T>, score: T -> real, e: T, c: real)
    ensures Filter(r.kept, score, c) + Filter(r.dropped + [e], score, c) ==
            Filter(r.kept, score, c) + Filter(r.dropped, score, c) + Filter([e], score, c)
  {
    FilterAppend(r.dropped, [e], score, c);
  }

  lemma KeepLast<T>(r: Split<T>, score: T -> real, e: T, c: real)
    requires DropsBelow(r, score) && !Below(e, r.kept, score)
    ensures Filter(r.kept + [e], score, c) + Filter(r.dropped, score, c) ==
            Filter(r.kept, score, c) + Filter(r.dropped, score, c) + Filter([e], score, c)
  {
    FilterAppend(r.kept, [e], score, c);
    if score(e) == c {
      EqualsNotDropped(r, score, e);
    } else {
      FilterNone([e], score, c);
    }
  }

  lemma EqualsNotDropped<T>(r: Split<T>, score: T -> real, e: T)
    requires DropsBelow(r, score) && !Below(e, r.kept, score)
    ensures Filter(r.dropped, score, score(e)) == []
  {
    forall i: nat | i < |r.dropped| ensures score(r.dropped[i]) != score(e) {
      assert Below(r.dropped[i], r.kept, score);
    }
    FilterNone(r.dropped, score, score(e));
  }

  /** Inserting behind the equals keeps order and appends to its score class. */
  lemma InsertBehindIsStable<T>(s: seq<T>, score: T -> real, e: T)
    requires Sorted(s, score)
    ensures Sorted(InsertBehind(s, score, e), score)
    ensures forall c: real :: Filter(InsertBehind(s, score, e), score, c) == Filter(s, score, c) + Filter([e], score, c)
  {
    forall c: real
      ensures Filter(InsertBehind(s, score, e), score, c) == Filter(s, score, c) + Filter([e], score, c)
    {
      InsertBehindFilter(s, score, e, c);
    }
  }

  lemma InsertBehindFilter<T>(s: seq<T>, score: T -> real, e: T, c: real)
    requires Sorted(s, score)
    ensures Filter(InsertBehind(s, score, e), score, c) == Filter(s, score, c) + Filter([e], score, c)
  {
    var u := UpperBound(s, score, score(e));
    assert s == s[..u] + s[u..];
    if c == score(e) {
      FilterNone(s[u..], score, c);
    } else {
      FilterNone([e], score, c);
    }
    FilterInsert(s[..u], e, s[u..], score, c);
  }

  lemma FilterInsert<T>(a: seq<T>, e: T, b: seq<T>, score: T -> real, c: real)
    requires Filter(b, score, c) == [] || Filter([e], score, c) == []
    ensures Filter(a + [e] + b, score, c) == Filter(a + b, score, c) + Filter([e], score, c)
  {
    FilterAppend(a, b, score, c);
    FilterAppend(a + [e], b, score, c);
    FilterAppend(a, [e], score, c);
  }

  lemma {:induction false} ReinsertIsStable<T>(kept: seq<T>, score: T -> real, dropped: seq<T>, n: nat)
    requires n <= |dropped| && Sorted(kept, score)
    ensures var r := Reinsert(kept, score, dropped, n);
      && Sorted(r, score)
      && forall c: real :: Filter(r, score, c) == Filter(kept, score, c) + Filter(dropped[..n], score, c)
  {
    if n > 0 {
      ReinsertIsStable(kept, score, dropped, n - 1);
      InsertBehindIsStable(Reinsert(kept, score, dropped, n - 1), score, dropped[n - 1]);
      forall c: real
        ensures Filter(Reinsert(kept, score, dropped, n), score, c) ==
                Filter(kept, score, c) + Filter(dropped[..n], score, c)
      {
        FilterLast(dropped, score, n, c);
      }
    }
  }

  lemma FilterLast<T>(s: seq<T>, score: T -> real, n: nat, c: real)
    requires 0 < n <= |s|
    ensures Filter(s[..n], score, c) == Filter(s[..n - 1], score, c) + Filter([s[n - 1]], score, c)
  {
    assert s[..n] == s[..n - 1] + [s[n - 1]];
    FilterAppend(s[..n - 1], [s[n - 1]], score, c);
  }

  /** EasySort computes the stable sort. */
  lemma EasySortedIsStableSort<T>(s: seq<T>, score: T -> real)
    ensures IsStableSort(s, score, EasySorted(s, score))
    ensures multiset(EasySorted(s, score)) == multiset(s)
  {
    if |s| > 1 {
      var r := Scan(s, score, |s|);
      KeptIsSorted(s, score, |s|);
      ReinsertIsStable(r.kept, score, r.dropped, |r.dropped|);
      assert r.dropped[..|r.dropped|] == r.dropped && s[..|s|] == s;
      forall c: real ensures Filter(EasySorted(s, score), score, c) == Filter(s, score, c) {
        KeptBeforeDropped(s, score, |s|, c);
      }
    }
    StableSortPermutes(s, score, EasySorted(s, score));
  }

  /** Nothing is dropped exactly when the input is sorted already. */
  lemma {:induction false} DroppedNothingIffSorted<T>(s: seq<T>, score: T -> real, n: nat)
    requires n <= |s|
    ensures Scan(s, score, n).dropped == [] <==> Sorted(s[..n], score)
    ensures Scan(s, score, n).dropped == [] ==> Scan(s, score, n).kept == s[..n]
  {
    if n > 0 {
      DroppedNothingIffSorted(s, score, n - 1);
      assert s[..n] == s[..n - 1] + [s[n - 1]];
    }
  }
}
