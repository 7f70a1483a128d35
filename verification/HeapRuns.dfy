/** Floyd's bound, runs of queue operations, and draining. */
module HeapRuns {
  import opened Bits
  import opened IndexedHeap

  // ---------- build is linear ----------

  /** Levels below the j-th node (counted from 1) of a heap of `n` nodes. */
  function Depth(j: nat, n: nat): nat
    requires j > 0
    decreases n - j
  {
    if 2 * j > n then 0 else 1 + Depth(2 * j, n)
  }

  function DepthSum(m: nat, n: nat): nat {
    if m == 0 then 0 else Depth(m, n) + DepthSum(m - 1, n)
  }

  /** Ones in the binary form. */
  function Ones(n: nat): nat {
    if n == 0 then 0 else n % 2 + Ones(n / 2)
  }

  lemma {:induction false} DepthAntitone(j: nat, k: nat, n: nat)
    requires 0 < j <= k
    ensures Depth(k, n) <= Depth(j, n)
    decreases n - j
  {
    if 2 * k <= n {
      DepthAntitone(2 * j, 2 * k, n);
    }
  }

  lemma {:induction false} DepthHalves(j: nat, n: nat)
    requires j > 0 && 2 * j <= n
    ensures Depth(j, n) == 1 + Depth(j, n / 2)
    decreases n - j
  {
    if 4 * j <= n {
      DepthHalves(2 * j, n);
    }
  }

  lemma {:induction false} DepthSumHalves(m: nat, n: nat)
    requires 2 * m <= n
    ensures DepthSum(m, n) == m + DepthSum(m, n / 2)
  {
    if m > 0 {
      DepthHalves(m, n);
      DepthSumHalves(m - 1, n);
    }
  }

  lemma {:induction false} DepthSumLeaves(m: nat, k: nat, n: nat)
    requires k <= m && n < 2 * (k + 1)
    ensures DepthSum(m, n) == DepthSum(k, n)
  {
    if k < m {
      DepthSumLeaves(m - 1, k, n);
    }
  }

  /** The heights of a heap of `n` nodes add up to `n` less its binary ones. */
  lemma {:induction false} HeightsAddUp(n: nat)
    ensures DepthSum(n / 2, n) + Ones(n) == n
  {
    if n > 0 {
      DepthSumHalves(n / 2, n);
      DepthSumLeaves(n / 2, n / 2 / 2, n / 2);
      HeightsAddUp(n / 2);
    }
  }

  lemma {:induction false} DownSwapsBound<T>(h: Heap<T>, i: nat)
    requires Bounded(h) && i < |h.refs|
    ensures DownSwaps(h, i) <= Depth(i + 1, |h.refs|)
    decreases |h.refs| - i
  {
    var s := Smallest(h, i);
    if s != i {
      DownSwapsBound(Swap(h, i, s), s);
      DepthAntitone(2 * (i + 1), s + 1, |h.refs|);
    }
  }

  lemma {:induction false} HeapifySwapsBound<T>(h: Heap<T>, n: nat)
    requires Bounded(h) && n <= |h.refs|
    ensures HeapifySwaps(h, n) <= DepthSum(n, |h.refs|)
    decreases n
  {
    if n > 0 {
      DownSwapsBound(h, n - 1);
      HeapifySwapsBound(SiftDown(h, n - 1), n - 1);
    }
  }

  /** `build` swaps at most `size` times in all, less the ones in the binary form of `size`. */
  lemma BuildIsLinear<T>(values: seq<Pair<T>>)
    ensures HeapifySwaps(Fill(values), |values| / 2) + Ones(|values|) <= |values|
  {
    HeapifySwapsBound(Fill(values), |values| / 2);
    HeightsAddUp(|values|);
  }

  // ---------- runs ----------

  datatype Op<T> = OpInsert(value: T, cost: real) | OpPop | OpUpdate(handle: nat, cost: real)

  /** What the assertions of the source demand. */
  predicate Callable<T>(h: Heap<T>, op: Op<T>) {
    match op
    case OpInsert(_, _) => true
    case OpPop => |h.refs| > 0
    case OpUpdate(x, _) => x < |h.list| && h.list[x].index < |h.refs|
  }

  function Apply<T>(h: Heap<T>, zero: T, op: Op<T>): (r: Heap<T>)
    requires Bounded(h) && Callable(h, op)
    ensures Bounded(r)
  {
    match op
    case OpInsert(v, c) => Insert(h, zero, v, c)
    case OpPop => Pop(h)
    case OpUpdate(x, c) => Update(h, x, c)
  }

  predicate CanRun<T>(h: Heap<T>, zero: T, ops: seq<Op<T>>)
    requires Bounded(h)
    decreases |ops|
  {
    ops == [] || (Callable(h, ops[0]) && CanRun(Apply(h, zero, ops[0]), zero, ops[1..]))
  }

  function Run<T>(h: Heap<T>, zero: T, ops: seq<Op<T>>): (r: Heap<T>)
    requires Bounded(h) && CanRun(h, zero, ops)
    ensures Bounded(r)
    decreases |ops|
  {
    if ops == [] then h else Run(Apply(h, zero, ops[0]), zero, ops[1..])
  }

  /** Every `insert` of the run finds its slot free. */
  predicate FreeInserts<T>(h: Heap<T>, zero: T, ops: seq<Op<T>>)
    requires Bounded(h) && CanRun(h, zero, ops)
    decreases |ops|
  {
    ops == [] || ((ops[0].OpInsert? ==> Free(h)) && FreeInserts(Apply(h, zero, ops[0]), zero, ops[1..]))
  }

  /** One step of a bag of costed pairs: `insert` hands out the size as handle, `pop` may take any least pair. */
  ghost predicate BagStep<T(!new)>(m: map<nat, Pair<T>>, op: Op<T>, m': map<nat, Pair<T>>) {
    match op
    case OpInsert(v, c) => |m| !in m && m' == m[|m| := Pair(v, c)]
    case OpPop => exists x :: IsLeast(m, x) && m' == m - {x}
    case OpUpdate(x, c) => m' == if x in m then m[x := Pair(m[x].value, c)] else m
  }

  lemma {:induction false} DistinctElements(s: seq<nat>)
    requires forall p: nat, q: nat :: p < q < |s| ==> s[p] != s[q]
    ensures |Elements(s)| == |s|
  {
    if s != [] {
      var n := |s| - 1;
      DistinctElements(s[..n]);
      assert s[n] !in s[..n];
      assert Elements(s) == Elements(s[..n]) + {s[n]} by {
        assert s == s[..n] + [s[n]];
      }
    }
  }

  /** As many pairs as positions: the handles are distinct. */
  lemma ContentsSize<T>(h: Heap<T>)
    requires Linked(h)
    ensures |Contents(h)| == |h.refs|
  {
    forall p: nat, q: nat | p < q < |h.refs| ensures h.refs[p] != h.refs[q] {
      assert h.list[h.refs[p]].index == p && h.list[h.refs[q]].index == q;
    }
    DistinctElements(h.refs);
    assert Contents(h).Keys == Elements(h.refs);
  }

  lemma StepSimulates<T(!new)>(h: Heap<T>, zero: T, op: Op<T>)
    requires Good(h) && Callable(h, op) && (op.OpInsert? ==> Free(h))
    ensures Good(Apply(h, zero, op))
    ensures BagStep(Contents(h), op, Contents(Apply(h, zero, op)))
  {
    match op
    case OpInsert(v, c) =>
      InsertAdds(h, zero, v, c);
      ContentsSize(h);
    case OpPop =>
      TopIsLeast(h);
      PopRemovesRoot(h);
    case OpUpdate(x, c) =>
      if x in h.refs {
        UpdateLive(h, x, c);
      } else {
        UpdateDormant(h, x, c);
      }
  }

  ghost predicate GoodThroughout<T>(h: Heap<T>, zero: T, ops: seq<Op<T>>)
    requires Bounded(h) && CanRun(h, zero, ops)
    decreases |ops|
  {
    Good(h) && (ops == [] || GoodThroughout(Apply(h, zero, ops[0]), zero, ops[1..]))
  }

  ghost predicate Simulates<T(!new)>(h: Heap<T>, zero: T, ops: seq<Op<T>>)
    requires Bounded(h) && CanRun(h, zero, ops)
    decreases |ops|
  {
    ops == [] ||
    (var r := Apply(h, zero, ops[0]); BagStep(Contents(h), ops[0], Contents(r)) && Simulates(r, zero, ops[1..]))
  }

  /** A run is sound throughout exactly when each of its inserts finds its slot free; then it simulates the bag. */
  lemma {:induction false} SoundRuns<T(!new)>(h: Heap<T>, zero: T, ops: seq<Op<T>>)
    requires Good(h) && CanRun(h, zero, ops)
    ensures GoodThroughout(h, zero, ops) <==> FreeInserts(h, zero, ops)
    ensures FreeInserts(h, zero, ops) ==> Good(Run(h, zero, ops)) && Simulates(h, zero, ops)
    decreases |ops|
  {
    if ops != [] {
      if ops[0].OpInsert? && !Free(h) {
        InsertNeedsFreeSlot(h, zero, ops[0].value, ops[0].cost);
      } else {
        StepSimulates(h, zero, ops[0]);
        SoundRuns(Apply(h, zero, ops[0]), zero, ops[1..]);
      }
    }
  }

  /** No `insert` between a `pop` and the moment the queue is next empty; `popped` says the run starts in between. */
  predicate DrainsBeforeInserting<T>(h: Heap<T>, zero: T, ops: seq<Op<T>>, popped: bool)
    requires Bounded(h) && CanRun(h, zero, ops)
    decreases |ops|
  {
    ops == [] ||
    (var r := Apply(h, zero, ops[0]);
     (ops[0].OpInsert? ==> !popped) &&
     DrainsBeforeInserting(r, zero, ops[1..], |r.refs| > 0 && (popped || ops[0].OpPop?)))
  }

  lemma DrainedIsDense<T>(h: Heap<T>)
    requires |h.refs| == 0
    ensures Dense(h)
  {
  }

  lemma DenseIsFree<T>(h: Heap<T>)
    requires Dense(h)
    ensures Free(h)
  {
  }

  /** Inserts and updates keep the handles 0..size. */
  lemma StepKeepsDense<T>(h: Heap<T>, zero: T, op: Op<T>)
    requires Good(h) && Dense(h) && Callable(h, op) && !op.OpPop?
    ensures Dense(Apply(h, zero, op))
  {
    match op
    case OpInsert(v, c) => InsertAdds(h, zero, v, c);
    case OpUpdate(x, c) =>
      if x in h.refs {
        UpdateLive(h, x, c);
      } else {
        UpdateDormant(h, x, c);
      }
  }

  /** Without `pop` the handles stay 0..size, so inserts never collide. */
  lemma {:induction false} RunsWithoutPopAreSound<T(!new)>(h: Heap<T>, zero: T, ops: seq<Op<T>>)
    requires Good(h) && Dense(h) && CanRun(h, zero, ops)
    requires forall i: nat :: i < |ops| ==> !ops[i].OpPop?
    ensures FreeInserts(h, zero, ops)
    ensures Good(Run(h, zero, ops)) && Dense(Run(h, zero, ops))
    decreases |ops|
  {
    if ops != [] {
      DenseIsFree(h);
      StepSimulates(h, zero, ops[0]);
      StepKeepsDense(h, zero, ops[0]);
      RunsWithoutPopAreSound(Apply(h, zero, ops[0]), zero, ops[1..]);
    }
  }

  /** If the queue is drained after a `pop` before anything is inserted again, the whole run is sound. */
  lemma {:induction false} DrainingRunsAreSound<T(!new)>(h: Heap<T>, zero: T, ops: seq<Op<T>>, popped: bool)
    requires Good(h) && CanRun(h, zero, ops) && DrainsBeforeInserting(h, zero, ops, popped)
    requires popped || Dense(h)
    ensures FreeInserts(h, zero, ops) && Simulates(h, zero, ops) && Good(Run(h, zero, ops))
    decreases |ops|
  {
    if ops != [] {
      var r := Apply(h, zero, ops[0]);
      var after := |r.refs| > 0 && (popped || ops[0].OpPop?);
      if !popped {
        DenseIsFree(h);
      }
      StepSimulates(h, zero, ops[0]);
      if |r.refs| == 0 {
        DrainedIsDense(r);
      } else if !after {
        StepKeepsDense(h, zero, ops[0]);
      }
      DrainingRunsAreSound(r, zero, ops[1..], after);
    }
  }

  /** An `insert` after a `pop` can overwrite a pair that is still queued. */
  lemma InsertAfterPopLosesPair<T>(zero: T, a: T, b: T, c: T)
    ensures var h := Pop(Build([Pair(a, 0.0), Pair(b, 1.0)]));
      && Good(h) && Contents(h) == map[1 := Pair(b, 1.0)]
      && Contents(Insert(h, zero, c, 2.0)) == map[1 := Pair(c, 2.0)]
  {
    var values := [Pair(a, 0.0), Pair(b, 1.0)];
    BuildStoresAll(values);
    var f := Fill(values);
    assert SiftDown(f, 0) == f;
    assert Heapify(f, 1) == Heapify(f, 0) == f;
    assert Build(values) == Heapify(f, 1);
    PopRemovesRoot(f);
    var h := Pop(f);
    assert h == Heap([Node(Pair(a, 0.0), 0), Node(Pair(b, 1.0), 0)], [1]);
    var g := Append(h, zero, c, 2.0);
    assert g == Heap([Node(Pair(a, 0.0), 0), Node(Pair(c, 2.0), 1)], [1, 1]);
    assert SiftUp(g, 1) == g;
  }

  // ---------- capacity ----------

  /** From empty, the capacity is the least power of two, from 2 on, that holds the largest size so far. */
  ghost predicate Fitted<T>(h: Heap<T>, peak: nat) {
    && |h.refs| <= peak <= |h.list|
    && (|h.list| == 0 || (IsPow2(|h.list|) && |h.list| >= 2 && (|h.list| == 2 || |h.list| < 2 * peak)))
  }

  /** The largest size a run reaches, counting from `peak`. */
  function PeakOf<T>(h: Heap<T>, zero: T, ops: seq<Op<T>>, peak: nat): nat
    requires Bounded(h) && CanRun(h, zero, ops)
    decreases |ops|
  {
    if ops == [] then peak
    else
      var r := Apply(h, zero, ops[0]);
      PeakOf(r, zero, ops[1..], if peak > |r.refs| then peak else |r.refs|)
  }

  lemma {:induction false} CapacityStaysFitted<T>(h: Heap<T>, zero: T, ops: seq<Op<T>>, peak: nat)
    requires Bounded(h) && CanRun(h, zero, ops) && Fitted(h, peak)
    ensures Fitted(Run(h, zero, ops), PeakOf(h, zero, ops, peak))
    decreases |ops|
  {
    if ops != [] {
      var r := Apply(h, zero, ops[0]);
      StepFits(h, zero, ops[0], peak);
      CapacityStaysFitted(r, zero, ops[1..], if peak > |r.refs| then peak else |r.refs|);
    }
  }

  lemma StepFits<T>(h: Heap<T>, zero: T, op: Op<T>, peak: nat)
    requires Bounded(h) && Callable(h, op) && Fitted(h, peak)
    ensures var n := |Apply(h, zero, op).refs|; Fitted(Apply(h, zero, op), if peak > n then peak else n)
  {
    if op.OpInsert? {
      if |h.list| == 0 {
        assert 2 == Pow2(1);
      } else {
        DoublePow2(|h.list|);
      }
    }
  }

  // ---------- draining ----------

  /** The handles in the order in which `pop` until empty takes them. */
  function Drain<T>(h: Heap<T>): (d: seq<nat>)
    requires Bounded(h)
    ensures |d| == |h.refs|
    decreases |h.refs|
  {
    if |h.refs| == 0 then [] else [h.refs[0]] + Drain(Pop(h))
  }

  /** `d` lists the keys of `m`, each once, by non-decreasing cost. */
  ghost predicate ListsInOrder<T>(d: seq<nat>, m: map<nat, Pair<T>>) {
    && (forall x: nat :: x in d <==> x in m)
    && (forall i: nat, j: nat :: i < j < |d| ==> d[i] != d[j] && m[d[i]].cost <= m[d[j]].cost)
  }

  lemma PrependLeast<T>(m: map<nat, Pair<T>>, top: nat, rest: seq<nat>)
    requires IsLeast(m, top) && ListsInOrder(rest, m - {top})
    ensures ListsInOrder([top] + rest, m)
  {
    var d := [top] + rest;
    assert forall k: nat :: k < |rest| ==> rest[k] in m - {top};
  }

  /** Popping until empty yields every stored pair once, in non-decreasing cost order. */
  lemma {:induction false} DrainIsSorted<T>(h: Heap<T>)
    requires Good(h)
    ensures ListsInOrder(Drain(h), Contents(h))
    decreases |h.refs|
  {
    if |h.refs| > 0 {
      TopIsLeast(h);
      PopRemovesRoot(h);
      DrainIsSorted(Pop(h));
      PrependLeast(Contents(h), h.refs[0], Drain(Pop(h)));
    }
  }

  /** After `build` and any inserts and updates, draining yields exactly the stored pairs in order. */
  lemma BuildThenDrain<T(!new)>(values: seq<Pair<T>>, zero: T, ops: seq<Op<T>>)
    requires CanRun(Build(values), zero, ops) && forall i: nat :: i < |ops| ==> !ops[i].OpPop?
    ensures var h := Run(Build(values), zero, ops);
      Simulates(Build(values), zero, ops) && ListsInOrder(Drain(h), Contents(h))
  {
    BuildStoresAll(values);
    RunsWithoutPopAreSound(Build(values), zero, ops);
    SoundRuns(Build(values), zero, ops);
    DrainIsSorted(Run(Build(values), zero, ops));
  }
}
