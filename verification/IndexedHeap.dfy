/**
 The indexed binary heap behind PQUEUE_T as a value: `refs` lists handles in
 heap order, `list[h].index` is the position of a live handle `h`.
 */
module IndexedHeap {

  datatype Pair<T> = Pair(value: T, cost: real)

  datatype Node<T> = Node(pair: Pair<T>, index: nat)

  /** `size` is |refs|, `capacity` is |list|. */
  datatype Heap<T> = Heap(list: seq<Node<T>>, refs: seq<nat>)

  predicate Bounded<T>(h: Heap<T>) {
    && |h.refs| <= |h.list|
    && forall p: nat :: p < |h.refs| ==> h.refs[p] < |h.list|
  }

  function Cost<T>(h: Heap<T>, p: nat): real
    requires Bounded(h) && p < |h.refs|
  {
    h.list[h.refs[p]].pair.cost
  }

  function Parent(p: nat): nat
    requires p > 0
  {
    (p - 1) / 2
  }

  // ---------- operations ----------

  function Swap<T>(h: Heap<T>, i: nat, j: nat): (r: Heap<T>)
    requires Bounded(h) && i < |h.refs| && j < |h.refs|
    ensures Bounded(r) && |r.refs| == |h.refs| && |r.list| == |h.list|
  {
    var refs := h.refs[i := h.refs[j]][j := h.refs[i]];
    var list := h.list[refs[i] := h.list[refs[i]].(index := i)];
    Heap(list[refs[j] := list[refs[j]].(index := j)], refs)
  }

  function SiftUp<T>(h: Heap<T>, i: nat): (r: Heap<T>)
    requires Bounded(h) && i < |h.refs|
    ensures Bounded(r) && |r.refs| == |h.refs| && |r.list| == |h.list|
    decreases i
  {
    if i == 0 || Cost(h, i) >= Cost(h, Parent(i)) then h
    else SiftUp(Swap(h, i, Parent(i)), Parent(i))
  }

  function Smallest<T>(h: Heap<T>, i: nat): (s: nat)
    requires Bounded(h) && i < |h.refs|
    ensures i <= s < |h.refs| && Cost(h, s) <= Cost(h, i)
    ensures s == i || ((s == 2 * i + 1 || s == 2 * i + 2) && Cost(h, s) < Cost(h, i))
    ensures 2 * i + 1 < |h.refs| ==> Cost(h, s) <= Cost(h, 2 * i + 1)
    ensures 2 * i + 2 < |h.refs| ==> Cost(h, s) <= Cost(h, 2 * i + 2)
  {
    var left, right := i * 2 + 1, i * 2 + 2;
    var s := if left < |h.refs| && Cost(h, left) < Cost(h, i) then left else i;
    if right < |h.refs| && Cost(h, right) < Cost(h, s) then right else s
  }

  function SiftDown<T>(h: Heap<T>, i: nat): (r: Heap<T>)
    requires Bounded(h) && i < |h.refs|
    ensures Bounded(r) && |r.refs| == |h.refs| && |r.list| == |h.list|
    decreases |h.refs| - i
  {
    var s := Smallest(h, i);
    if s == i then h else SiftDown(Swap(h, i, s), s)
  }

  /** How many swaps `SiftDown(h, i)` performs. */
  function DownSwaps<T>(h: Heap<T>, i: nat): nat
    requires Bounded(h) && i < |h.refs|
    decreases |h.refs| - i
  {
    var s := Smallest(h, i);
    if s == i then 0 else 1 + DownSwaps(Swap(h, i, s), s)
  }

  function Fill<T>(values: seq<Pair<T>>): (h: Heap<T>)
    ensures Bounded(h) && |h.refs| == |values| == |h.list|
  {
    Heap(seq(|values|, (i: nat) requires i < |values| => Node(values[i], i)), seq(|values|, (i: nat) => i))
  }

  /** Sifting down from the first `n` positions, last one first. */
  function Heapify<T>(h: Heap<T>, n: nat): (r: Heap<T>)
    requires Bounded(h) && n <= |h.refs|
    ensures Bounded(r) && |r.refs| == |h.refs| && |r.list| == |h.list|
    decreases n
  {
    if n == 0 then h else Heapify(SiftDown(h, n - 1), n - 1)
  }

  function HeapifySwaps<T>(h: Heap<T>, n: nat): nat
    requires Bounded(h) && n <= |h.refs|
    decreases n
  {
    if n == 0 then 0 else DownSwaps(h, n - 1) + HeapifySwaps(SiftDown(h, n - 1), n - 1)
  }

  function Build<T>(values: seq<Pair<T>>): (h: Heap<T>)
    ensures Bounded(h) && |h.refs| == |values| == |h.list|
  {
    Heapify(Fill(values), |values| / 2)
  }

  function Empty<T>(): Heap<T> {
    Heap([], [])
  }

  /** A node of zeroed memory. */
  function ZeroNode<T>(zero: T): Node<T> {
    Node(Pair(zero, 0.0), 0)
  }

  /** The growth branch of `insert`: 0 becomes 2, otherwise the capacity doubles. */
  function Reserve<T>(h: Heap<T>, zero: T): (r: Heap<T>)
    requires Bounded(h)
    ensures Bounded(r) && r.refs == h.refs && |r.refs| < |r.list|
    ensures h.list <= r.list && forall x: nat :: |h.list| <= x < |r.list| ==> r.list[x].index == 0
  {
    if |h.refs| < |h.list| then h
    else
      var capacity := if |h.list| == 0 then 2 else 2 * |h.list|;
      h.(list := h.list + seq(capacity - |h.list|, _ => ZeroNode(zero)))
  }

  /** `insert` before its sift: the new pair takes handle and position `size`. */
  function Append<T>(h: Heap<T>, zero: T, value: T, cost: real): (r: Heap<T>)
    requires Bounded(h)
    ensures Bounded(r) && r.refs == h.refs + [|h.refs|]
  {
    var g, n := Reserve(h, zero), |h.refs|;
    Heap(g.list[n := Node(Pair(value, cost), n)], g.refs + [n])
  }

  function Insert<T>(h: Heap<T>, zero: T, value: T, cost: real): (r: Heap<T>)
    requires Bounded(h)
    ensures Bounded(r) && |r.refs| == |h.refs| + 1
  {
    SiftUp(Append(h, zero, value, cost), |h.refs|)
  }

  /** `pop` moves the last handle to the root. */
  function PopRoot<T>(h: Heap<T>): (r: Heap<T>)
    requires Bounded(h) && |h.refs| > 0
    ensures Bounded(r) && |r.refs| == |h.refs| - 1 && |r.list| == |h.list|
  {
    var n := |h.refs| - 1;
    if n == 0 then Heap(h.list, [])
    else
      var last := h.refs[n];
      Heap(h.list[last := h.list[last].(index := 0)], h.refs[0 := last][..n])
  }

  function Pop<T>(h: Heap<T>): (r: Heap<T>)
    requires Bounded(h) && |h.refs| > 0
    ensures Bounded(r) && |r.refs| == |h.refs| - 1 && |r.list| == |h.list|
  {
    if |h.refs| == 1 then PopRoot(h) else SiftDown(PopRoot(h), 0)
  }

  function SetCost<T>(h: Heap<T>, x: nat, cost: real): (r: Heap<T>)
    requires Bounded(h) && x < |h.list|
    ensures Bounded(r) && r.refs == h.refs && |r.list| == |h.list|
  {
    h.(list := h.list[x := Node(Pair(h.list[x].pair.value, cost), h.list[x].index)])
  }

  /** `update`; its assertion is the last conjunct of the precondition. */
  function Update<T>(h: Heap<T>, x: nat, cost: real): (r: Heap<T>)
    requires Bounded(h) && x < |h.list| && h.list[x].index < |h.refs|
    ensures Bounded(r) && |r.refs| == |h.refs| && |r.list| == |h.list|
  {
    var g := SetCost(h, x, cost);
    if cost < h.list[x].pair.cost then SiftUp(g, h.list[x].index) else SiftDown(g, h.list[x].index)
  }

  // ---------- invariant and meaning ----------

  ghost predicate Inverse<T>(h: Heap<T>)
    requires Bounded(h)
  {
    forall p: nat :: p < |h.refs| ==> h.list[h.refs[p]].index == p
  }

  /** Handles that are not live carry index 0. */
  ghost predicate Dormant<T>(h: Heap<T>) {
    forall x: nat :: x < |h.list| && x !in h.refs ==> h.list[x].index == 0
  }

  /** The costs in heap order. */
  function Costs<T>(h: Heap<T>): (c: seq<real>)
    requires Bounded(h)
    ensures |c| == |h.refs|
  {
    seq(|h.refs|, (p: nat) requires p < |h.refs| => Cost(h, p))
  }

  /** Heap order, for the positions whose parent is at least `lo`. */
  ghost predicate OrderedFrom(c: seq<real>, lo: nat) {
    forall p: nat :: 0 < p < |c| && Parent(p) >= lo ==> c[Parent(p)] <= c[p]
  }

  /** The same, except between `hole` and its children. */
  ghost predicate OrderedBut(c: seq<real>, lo: nat, hole: nat) {
    && (forall p: nat :: 0 < p < |c| && Parent(p) >= lo && Parent(p) != hole ==> c[Parent(p)] <= c[p])
    && (forall p: nat :: 0 < p < |c| && Parent(p) == hole && hole > 0 && Parent(hole) >= lo ==> c[Parent(hole)] <= c[p])
  }

  /** Heap order except between `hole` and its parent. */
  ghost predicate OrderedAbove(c: seq<real>, hole: nat) {
    && (forall p: nat :: 0 < p < |c| && p != hole ==> c[Parent(p)] <= c[p])
    && (forall p: nat :: 0 < p < |c| && Parent(p) == hole && hole > 0 ==> c[Parent(hole)] <= c[p])
  }

  ghost predicate Linked<T>(h: Heap<T>) {
    Bounded(h) && Inverse(h) && Dormant(h)
  }

  ghost predicate Good<T>(h: Heap<T>) {
    Linked(h) && OrderedFrom(Costs(h), 0)
  }

  /** The stored pairs, by handle. */
  function Contents<T>(h: Heap<T>): map<nat, Pair<T>>
    requires Bounded(h)
  {
    map x | x in h.refs :: h.list[x].pair
  }

  function Elements(s: seq<nat>): set<nat> {
    set x | x in s
  }

  /** Two linked heaps that store the same pairs under the same handles, and the same bits elsewhere. */
  ghost predicate SamePairs<T>(h: Heap<T>, g: Heap<T>) {
    && |g.list| == |h.list| && |g.refs| == |h.refs|
    && (forall x: nat :: x < |h.list| ==> g.list[x].pair == h.list[x].pair)
    && Elements(g.refs) == Elements(h.refs)
  }

  lemma SameMembers<T>(h: Heap<T>, g: Heap<T>)
    requires Elements(g.refs) == Elements(h.refs)
    ensures forall x: nat :: x in h.refs <==> x in g.refs
  {
    forall x: nat ensures x in h.refs <==> x in g.refs {
      assert x in Elements(h.refs) <==> x in Elements(g.refs);
    }
  }

  lemma SamePairsSameContents<T>(h: Heap<T>, g: Heap<T>)
    requires Bounded(h) && Bounded(g) && SamePairs(h, g)
    ensures Contents(g) == Contents(h)
  {
    SameMembers(h, g);
  }

  lemma SwapFacts<T>(h: Heap<T>, i: nat, j: nat)
    requires Linked(h) && i < |h.refs| && j < |h.refs|
    ensures var r := Swap(h, i, j);
      && Linked(r) && SamePairs(h, r)
      && Costs(r) == Costs(h)[i := Cost(h, j)][j := Cost(h, i)]
  {
    var r := Swap(h, i, j);
    forall x: nat ensures x in h.refs <==> x in r.refs {
      if x in h.refs {
        var p :| 0 <= p < |h.refs| && h.refs[p] == x;
        var q := if p == i then j else if p == j then i else p;
        assert r.refs[q] == x;
      }
    }
  }

  // ---------- sifting restores order ----------

  lemma HoleMovesDown(c: seq<real>, i: nat, s: nat, lo: nat)
    requires i < s < |c| && Parent(s) == i && lo <= i && OrderedBut(c, lo, i)
    requires c[s] <= c[i] && forall p: nat :: i < p < |c| && Parent(p) == i ==> c[s] <= c[p]
    ensures OrderedBut(c[i := c[s]][s := c[i]], lo, s)
  {
  }

  lemma SmallestIsLeastChild<T>(h: Heap<T>, i: nat)
    requires Bounded(h) && i < |h.refs|
    ensures var s, c := Smallest(h, i), Costs(h);
      && (s == i || (i < s && Parent(s) == i && c[s] < c[i]))
      && forall p: nat :: 0 < p < |c| && Parent(p) == i ==> c[s] <= c[p]
  {
    var s, c := Smallest(h, i), Costs(h);
    forall p: nat | 0 < p < |c| && Parent(p) == i ensures c[s] <= c[p] {
      assert p == 2 * i + 1 || p == 2 * i + 2;
    }
  }

  lemma {:induction false} SiftDownRestores<T>(h: Heap<T>, i: nat, lo: nat)
    requires Linked(h) && i < |h.refs| && OrderedBut(Costs(h), lo, i) && lo <= i
    ensures var r := SiftDown(h, i); Linked(r) && SamePairs(h, r) && OrderedFrom(Costs(r), lo)
    decreases |h.refs| - i
  {
    var s := Smallest(h, i);
    SmallestIsLeastChild(h, i);
    if s != i {
      SwapFacts(h, i, s);
      HoleMovesDown(Costs(h), i, s, lo);
      SiftDownRestores(Swap(h, i, s), s, lo);
    }
  }

  lemma HoleMovesUp(c: seq<real>, i: nat)
    requires 0 < i < |c| && OrderedAbove(c, i) && c[i] < c[Parent(i)]
    ensures OrderedAbove(c[i := c[Parent(i)]][Parent(i) := c[i]], Parent(i))
  {
  }

  lemma {:induction false} SiftUpRestores<T>(h: Heap<T>, i: nat)
    requires Linked(h) && i < |h.refs| && OrderedAbove(Costs(h), i)
    ensures var r := SiftUp(h, i); Good(r) && SamePairs(h, r)
    decreases i
  {
    if i > 0 && Cost(h, i) < Cost(h, Parent(i)) {
      SwapFacts(h, i, Parent(i));
      HoleMovesUp(Costs(h), i);
      SiftUpRestores(Swap(h, i, Parent(i)), Parent(i));
    }
  }

  lemma SiftDownNoOp<T>(h: Heap<T>, i: nat)
    requires Bounded(h) && i < |h.refs| && OrderedFrom(Costs(h), 0)
    ensures SiftDown(h, i) == h
  {
    SmallestIsLeastChild(h, i);
  }

  // ---------- which handles move, equal costs included ----------

  /** `p` is `i` or one of its ancestors. */
  predicate OnPath(p: nat, i: nat)
    decreases i
  {
    p == i || (p < i && OnPath(p, Parent(i)))
  }

  lemma SwapMoves<T>(h: Heap<T>, i: nat, j: nat, p: nat)
    requires Bounded(h) && i < |h.refs| && j < |h.refs| && p < |h.refs|
    ensures var q, g := if p == i then j else if p == j then i else p, Swap(h, i, j);
      g.refs[p] == h.refs[q] && Cost(g, p) == Cost(h, q)
  {
  }

  /** Sifting up overtakes strictly costlier ancestors only; every other position keeps its handle. */
  lemma {:induction false} SiftUpKeeps<T>(h: Heap<T>, i: nat, p: nat)
    requires Bounded(h) && i < |h.refs| && p < |h.refs| && p != i
    requires Cost(h, p) <= Cost(h, i) || !OnPath(p, i)
    ensures SiftUp(h, i).refs[p] == h.refs[p]
    decreases i
  {
    if i > 0 && Cost(h, i) < Cost(h, Parent(i)) {
      var j := Parent(i);
      SwapMoves(h, i, j, p);
      SwapMoves(h, i, j, j);
      SiftUpKeeps(Swap(h, i, j), j, p);
    }
  }

  lemma {:induction false} AncestorsCheaper(c: seq<real>, i: nat, p: nat)
    requires i < |c| && OrderedAbove(c, i) && p != i && OnPath(p, i)
    ensures c[p] <= c[Parent(i)]
    decreases i
  {
    PathOrdered(c, i, Parent(i), p);
  }

  lemma {:induction false} PathOrdered(c: seq<real>, hole: nat, i: nat, p: nat)
    requires i < hole < |c| && OrderedAbove(c, hole) && OnPath(p, i)
    ensures p <= i && c[p] <= c[i]
    decreases i
  {
    if p != i {
      PathOrdered(c, hole, Parent(i), p);
    }
  }

  /** What position `p` holds after sifting up from `i`: the costlier ancestors move one step down the path. */
  function AfterSiftUp<T>(h: Heap<T>, i: nat, p: nat): nat
    requires Bounded(h) && i < |h.refs| && p < |h.refs|
  {
    if !OnPath(p, i) || (p != i && Cost(h, p) <= Cost(h, i)) then h.refs[p]
    else if p > 0 && Cost(h, Parent(p)) > Cost(h, i) then h.refs[Parent(p)]
    else h.refs[i]
  }

  lemma {:induction false} SiftUpMoves<T>(h: Heap<T>, i: nat, p: nat)
    requires Linked(h) && i < |h.refs| && p < |h.refs| && OrderedAbove(Costs(h), i)
    ensures SiftUp(h, i).refs[p] == AfterSiftUp(h, i, p)
    decreases i
  {
    if i == 0 || Cost(h, i) >= Cost(h, Parent(i)) {
      if p != i && OnPath(p, i) {
        AncestorsCheaper(Costs(h), i, p);
      }
      return;
    }
    var j := Parent(i);
    SwapFacts(h, i, j);
    HoleMovesUp(Costs(h), i);
    SiftUpMoves(Swap(h, i, j), j, p);
    AfterSwapUp(h, i, p);
  }

  lemma AfterSwapUp<T>(h: Heap<T>, i: nat, p: nat)
    requires Bounded(h) && 0 < i < |h.refs| && p < |h.refs| && Cost(h, i) < Cost(h, Parent(i))
    ensures AfterSiftUp(Swap(h, i, Parent(i)), Parent(i), p) == AfterSiftUp(h, i, p)
  {
    var j := Parent(i);
    SwapMoves(h, i, j, p);
    SwapMoves(h, i, j, j);
    PathBounded(p, j);
    if p > 0 {
      SwapMoves(h, i, j, Parent(p));
    }
  }

  lemma {:induction false} PathBounded(p: nat, i: nat)
    ensures OnPath(p, i) ==> p <= i
  {
  }

  /** Sifting down overtakes strictly cheaper handles only, and nothing ahead of its start. */
  lemma {:induction false} SiftDownKeeps<T>(h: Heap<T>, i: nat, p: nat)
    requires Bounded(h) && i < |h.refs| && p < |h.refs| && p != i
    requires Cost(h, p) >= Cost(h, i) || p < i
    ensures SiftDown(h, i).refs[p] == h.refs[p]
    decreases |h.refs| - i
  {
    var s := Smallest(h, i);
    if s != i {
      SwapMoves(h, i, s, p);
      SwapMoves(h, i, s, s);
      SiftDownKeeps(Swap(h, i, s), s, p);
    }
  }

  /** The first of a position and its two children that has the least cost of the three. */
  predicate LeastOfThree<T>(h: Heap<T>, i: nat, s: nat)
    requires Bounded(h) && i < |h.refs|
  {
    var n, left, right := |h.refs|, 2 * i + 1, 2 * i + 2;
    && s < n
    && (s == i ==> (left < n ==> Cost(h, i) <= Cost(h, left)) && (right < n ==> Cost(h, i) <= Cost(h, right)))
    && (s != i ==> s == left || s == right)
    && (s == left ==> Cost(h, left) < Cost(h, i) && (right < n ==> Cost(h, left) <= Cost(h, right)))
    && (s == right ==> Cost(h, right) < Cost(h, i) && Cost(h, right) < Cost(h, left))
  }

  lemma SmallestIsFirst<T>(h: Heap<T>, i: nat, s: nat)
    requires Bounded(h) && i < |h.refs| && LeastOfThree(h, i, s)
    ensures s == Smallest(h, i)
  {
  }

  /** After sifting down from `i`, that one's handle is at `i`. */
  lemma SiftDownRaises<T>(h: Heap<T>, i: nat, s: nat)
    requires Bounded(h) && i < |h.refs| && LeastOfThree(h, i, s)
    ensures SiftDown(h, i).refs[i] == h.refs[s]
  {
    SmallestIsFirst(h, i, s);
    if s != i {
      SwapMoves(h, i, s, i);
      SiftDownKeeps(Swap(h, i, s), s, i);
    }
  }

  // ---------- build ----------

  lemma HeapifyUnfolds<T>(h: Heap<T>, n: nat)
    requires Bounded(h) && 0 < n <= |h.refs|
    ensures Heapify(h, n) == Heapify(SiftDown(h, n - 1), n - 1)
    ensures HeapifySwaps(h, n) == DownSwaps(h, n - 1) + HeapifySwaps(SiftDown(h, n - 1), n - 1)
  {
  }

  /** The rounds of `build` on `f` have come to `h`: heap order holds from position `n` on. */
  ghost predicate Sifted<T>(f: Heap<T>, h: Heap<T>, n: nat) {
    Linked(h) && n <= |h.refs| && OrderedFrom(Costs(h), n) && SamePairs(f, h)
  }

  /** One round of `build`: heap order reaches one position further down. */
  lemma RoundRestores<T>(f: Heap<T>, h: Heap<T>, n: nat)
    requires Sifted(f, h, n) && n > 0
    ensures Sifted(f, SiftDown(h, n - 1), n - 1)
  {
    ExceptHole(Costs(h), n - 1);
    SiftDownRestores(h, n - 1, n - 1);
    SamePairsTransitive(f, h, SiftDown(h, n - 1));
  }

  lemma ExceptHole(c: seq<real>, i: nat)
    requires OrderedFrom(c, i + 1)
    ensures OrderedBut(c, i, i)
  {
  }

  lemma {:induction false} HeapifyRestores<T>(f: Heap<T>, h: Heap<T>, n: nat)
    requires Sifted(f, h, n)
    ensures Sifted(f, Heapify(h, n), 0)
    decreases n
  {
    if n > 0 {
      RoundRestores(f, h, n);
      HeapifyRestores(f, SiftDown(h, n - 1), n - 1);
    }
  }

  lemma SamePairsTransitive<T>(a: Heap<T>, b: Heap<T>, c: Heap<T>)
    requires SamePairs(a, b) && SamePairs(b, c)
    ensures SamePairs(a, c)
  {
  }

  /** The handles are exactly 0..size, as after `build` and before any `pop`. */
  ghost predicate Dense<T>(h: Heap<T>) {
    forall x: nat :: x in h.refs <==> x < |h.refs|
  }

  /** Before any sift, half of the positions are leaves and so in order already. */
  lemma FillFacts<T>(values: seq<Pair<T>>)
    ensures var f := Fill(values);
      Linked(f) && Dense(f) && Contents(f) == map i: nat | i < |values| :: values[i]
    ensures OrderedFrom(Costs(Fill(values)), |values| / 2)
  {
    var f := Fill(values);
    forall x: nat | x < |values| ensures x in f.refs {
      assert f.refs[x] == x;
    }
    LeavesInOrder(Costs(f));
  }

  lemma LeavesInOrder(c: seq<real>)
    ensures OrderedFrom(c, |c| / 2)
  {
    forall p: nat | 0 < p < |c| ensures Parent(p) < |c| / 2 {}
  }

  /** `build` makes a heap of exactly the given pairs, handle `i` for the i-th. */
  lemma BuildStoresAll<T>(values: seq<Pair<T>>)
    ensures var h := Build(values);
      Good(h) && Dense(h) && Contents(h) == map i: nat | i < |values| :: values[i]
  {
    var f := Fill(values);
    FillFacts(values);
    HeapifyRestores(f, f, |values| / 2);
    SamePairsSameContents(f, Build(values));
    SamePairsDense(f, Build(values));
  }

  /** Values that are in heap order already stay where they are. */
  lemma BuildKeepsOrder<T>(values: seq<Pair<T>>)
    requires forall p: nat :: 0 < p < |values| ==> values[Parent(p)].cost <= values[p].cost
    ensures Build(values).refs == seq(|values|, (i: nat) => i)
  {
    var f := Fill(values);
    assert Costs(f) == seq(|values|, (i: nat) requires i < |values| => values[i].cost);
    HeapifyNoOp(f, |values| / 2);
  }

  lemma {:induction false} HeapifyNoOp<T>(h: Heap<T>, n: nat)
    requires Bounded(h) && n <= |h.refs| && OrderedFrom(Costs(h), 0)
    ensures Heapify(h, n) == h
  {
    if n > 0 {
      SiftDownNoOp(h, n - 1);
      HeapifyNoOp(h, n - 1);
    }
  }

  /** If nothing is cheaper than the first value, it becomes the top. */
  lemma BuildKeepsTop<T>(values: seq<Pair<T>>)
    requires |values| > 0 && forall i: nat :: i < |values| ==> values[0].cost <= values[i].cost
    ensures Build(values).refs[0] == 0
  {
    HeapifyKeepsTop(Fill(values), |values| / 2);
  }

  lemma {:induction false} HeapifyKeepsTop<T>(h: Heap<T>, n: nat)
    requires Bounded(h) && n <= |h.refs| && |h.refs| > 0
    requires forall p: nat :: p < |h.refs| ==> Cost(h, 0) <= Cost(h, p)
    ensures Heapify(h, n).refs[0] == h.refs[0]
    decreases n
  {
    if n == 0 {
      return;
    }
    var g := SiftDown(h, n - 1);
    if n == 1 {
      assert LeastOfThree(h, 0, 0);
      SiftDownRaises(h, 0, 0);
      return;
    }
    SiftDownKeeps(h, n - 1, 0);
    forall p: nat | p < |h.refs| ensures Cost(g, 0) <= Cost(g, p) {
      SiftDownCosts(h, n - 1, p, Cost(h, 0));
      SiftDownCosts(h, n - 1, 0, Cost(h, 0));
      SiftDownRoot(h, n - 1);
    }
    HeapifyKeepsTop(g, n - 1);
  }

  lemma {:induction false} SiftDownCosts<T>(h: Heap<T>, i: nat, p: nat, least: real)
    requires Bounded(h) && i < |h.refs| && p < |h.refs|
    requires forall q: nat :: q < |h.refs| ==> least <= Cost(h, q)
    ensures least <= Cost(SiftDown(h, i), p)
    decreases |h.refs| - i
  {
    var s := Smallest(h, i);
    if s != i {
      var g := Swap(h, i, s);
      forall q: nat | q < |h.refs| ensures least <= Cost(g, q) {
        SwapMoves(h, i, s, q);
      }
      SiftDownCosts(g, s, p, least);
    }
  }

  lemma {:induction false} SiftDownRoot<T>(h: Heap<T>, i: nat)
    requires Bounded(h) && 0 < i < |h.refs|
    ensures Cost(SiftDown(h, i), 0) == Cost(h, 0)
    decreases |h.refs| - i
  {
    var s := Smallest(h, i);
    if s != i {
      SwapMoves(h, i, s, 0);
      SiftDownRoot(Swap(h, i, s), s);
    }
  }

  lemma SamePairsDense<T>(h: Heap<T>, g: Heap<T>)
    requires SamePairs(h, g) && Dense(h)
    ensures Dense(g)
  {
    SameMembers(h, g);
  }

  // ---------- insert ----------

  /** The slot `insert` overwrites is not in use. */
  predicate Free<T>(h: Heap<T>) {
    |h.refs| !in h.refs
  }

  lemma AppendFacts<T>(h: Heap<T>, zero: T, value: T, cost: real)
    requires Good(h) && Free(h)
    ensures var f := Append(h, zero, value, cost);
      Linked(f) && OrderedAbove(Costs(f), |h.refs|) && Contents(f) == Contents(h)[|h.refs| := Pair(value, cost)]
  {
    var f, n := Append(h, zero, value, cost), |h.refs|;
    assert forall p: nat :: p < n ==> f.refs[p] == h.refs[p] && f.list[f.refs[p]] == h.list[h.refs[p]];
    assert Costs(f) == Costs(h) + [cost];
  }

  lemma InsertAdds<T>(h: Heap<T>, zero: T, value: T, cost: real)
    requires Good(h) && Free(h)
    ensures var r := Insert(h, zero, value, cost);
      Good(r) && Contents(r) == Contents(h)[|h.refs| := Pair(value, cost)]
    ensures Dense(h) ==> Dense(Insert(h, zero, value, cost))
  {
    var f := Append(h, zero, value, cost);
    AppendFacts(h, zero, value, cost);
    SiftUpRestores(f, |h.refs|);
    SamePairsSameContents(f, SiftUp(f, |h.refs|));
    if Dense(h) {
      assert Dense(f);
      SamePairsDense(f, SiftUp(f, |h.refs|));
    }
  }

  /** A new pair becomes the top exactly when it is strictly cheaper than the old one. */
  lemma InsertKeepsTop<T>(h: Heap<T>, zero: T, value: T, cost: real)
    requires Good(h) && |h.refs| > 0
    ensures cost >= Cost(h, 0) ==> Insert(h, zero, value, cost).refs[0] == h.refs[0]
    ensures Free(h) && cost < Cost(h, 0) ==> Insert(h, zero, value, cost).refs[0] == |h.refs|
  {
    var f, n := Append(h, zero, value, cost), |h.refs|;
    if cost >= Cost(h, 0) {
      assert Cost(f, 0) <= Cost(f, n) == cost;
      SiftUpKeeps(f, n, 0);
    } else if Free(h) {
      AppendFacts(h, zero, value, cost);
      assert Cost(f, 0) == Cost(h, 0);
      RootOnPath(n);
      SiftUpMoves(f, n, 0);
    }
  }

  lemma {:induction false} RootOnPath(i: nat)
    ensures OnPath(0, i)
    decreases i
  {
    if i > 0 {
      RootOnPath(Parent(i));
    }
  }

  /** `insert` moves no handle that is not costlier than the new pair. */
  lemma InsertKeepsPlaces<T>(h: Heap<T>, zero: T, value: T, cost: real, p: nat)
    requires Good(h) && Free(h) && p < |h.refs| && Cost(h, p) <= cost
    ensures Insert(h, zero, value, cost).refs[p] == h.refs[p]
  {
    var f := Append(h, zero, value, cost);
    AppendFacts(h, zero, value, cost);
    assert f.refs[p] == h.refs[p] && Cost(f, p) == Cost(h, p);
    SiftUpKeeps(f, |h.refs|, p);
  }

  ghost predicate Duplicated<T>(h: Heap<T>) {
    exists p: nat, q: nat :: p < q < |h.refs| && h.refs[p] == h.refs[q]
  }

  lemma {:induction false} SiftUpKeepsDuplicates<T>(h: Heap<T>, i: nat)
    requires Bounded(h) && i < |h.refs| && Duplicated(h)
    ensures Duplicated(SiftUp(h, i))
    decreases i
  {
    if i > 0 && Cost(h, i) < Cost(h, Parent(i)) {
      var j := Parent(i);
      var g := Swap(h, i, j);
      var p: nat, q: nat :| p < q < |h.refs| && h.refs[p] == h.refs[q];
      var p' := if p == i then j else if p == j then i else p;
      var q' := if q == i then j else if q == j then i else q;
      assert g.refs[p'] == g.refs[q'] && p' != q';
      assert p' < q' || q' < p';
      SiftUpKeepsDuplicates(g, j);
    }
  }

  /** `insert` keeps the heap sound, adding one pair and losing none, exactly when its slot is free. */
  lemma InsertNeedsFreeSlot<T>(h: Heap<T>, zero: T, value: T, cost: real)
    requires Good(h)
    ensures Good(Insert(h, zero, value, cost)) <==> Free(h)
    ensures |Contents(Insert(h, zero, value, cost))| == |Contents(h)| + 1 <==> Free(h)
  {
    var f, n := Append(h, zero, value, cost), |h.refs|;
    var r := SiftUp(f, n);
    if Free(h) {
      InsertAdds(h, zero, value, cost);
    } else {
      var p :| 0 <= p < n && h.refs[p] == n;
      assert f.refs[p] == n == f.refs[n];
      SiftUpKeepsDuplicates(f, n);
      var a: nat, b: nat :| a < b < |r.refs| && r.refs[a] == r.refs[b];
      assert r.list[r.refs[a]].index != a || r.list[r.refs[b]].index != b;
      SiftUpHandles(f, n);
      assert Contents(r).Keys == Contents(h).Keys by {
        assert forall x: nat :: x in f.refs <==> x in h.refs;
      }
      assert |Contents(r).Keys| == |Contents(h).Keys|;
    }
  }

  lemma {:induction false} SiftUpHandles<T>(h: Heap<T>, i: nat)
    requires Bounded(h) && i < |h.refs|
    ensures forall x: nat :: x in SiftUp(h, i).refs <==> x in h.refs
    decreases i
  {
    if i > 0 && Cost(h, i) < Cost(h, Parent(i)) {
      var j := Parent(i);
      var g := Swap(h, i, j);
      forall x: nat ensures x in h.refs <==> x in g.refs {
        if x in h.refs {
          var p :| 0 <= p < |h.refs| && h.refs[p] == x;
          assert g.refs[if p == i then j else if p == j then i else p] == x;
        }
      }
      SiftUpHandles(g, j);
    }
  }

  // ---------- pop ----------

  /** The root has the least cost of all. */
  lemma {:induction false} RootIsLeast<T>(h: Heap<T>, p: nat)
    requires Bounded(h) && OrderedFrom(Costs(h), 0) && p < |h.refs|
    ensures Cost(h, 0) <= Cost(h, p)
    decreases p
  {
    if p > 0 {
      assert Costs(h)[Parent(p)] <= Costs(h)[p];
      RootIsLeast(h, Parent(p));
    }
  }

  predicate IsLeast<T>(m: map<nat, Pair<T>>, x: nat) {
    x in m && forall y :: y in m ==> m[x].cost <= m[y].cost
  }

  lemma TopIsLeast<T>(h: Heap<T>)
    requires Good(h) && |h.refs| > 0
    ensures IsLeast(Contents(h), h.refs[0])
  {
    forall y | y in h.refs ensures h.list[h.refs[0]].pair.cost <= h.list[y].pair.cost {
      var p :| 0 <= p < |h.refs| && h.refs[p] == y;
      RootIsLeast(h, p);
    }
  }

  lemma PopRootHandles<T>(h: Heap<T>, x: nat)
    requires Linked(h) && |h.refs| > 0
    ensures x in PopRoot(h).refs <==> x in h.refs && x != h.refs[0]
  {
    var g, n := PopRoot(h), |h.refs| - 1;
    if x in h.refs && x != h.refs[0] {
      var p :| 0 <= p < |h.refs| && h.refs[p] == x;
      assert g.refs[if p == n then 0 else p] == x;
    }
    if x in g.refs {
      var p :| 0 <= p < |g.refs| && g.refs[p] == x;
      assert h.refs[if p == 0 then n else p] == x;
    }
  }

  lemma PopRootLinked<T>(h: Heap<T>)
    requires Linked(h) && |h.refs| > 0
    ensures Linked(PopRoot(h))
  {
    var g, n := PopRoot(h), |h.refs| - 1;
    forall p: nat | p < n ensures g.list[g.refs[p]].index == p {
      assert h.list[h.refs[p]].index == p && h.list[h.refs[n]].index == n;
    }
    forall x: nat | x < |g.list| && x !in g.refs ensures g.list[x].index == 0 {
      PopRootHandles(h, x);
    }
  }

  lemma PopRootContents<T>(h: Heap<T>)
    requires Linked(h) && |h.refs| > 0
    ensures Contents(PopRoot(h)) == Contents(h) - {h.refs[0]}
  {
    forall x: nat ensures x in PopRoot(h).refs <==> x in h.refs && x != h.refs[0] {
      PopRootHandles(h, x);
    }
  }

  lemma PopRootCosts<T>(h: Heap<T>)
    requires Linked(h) && |h.refs| > 0
    ensures var n := |h.refs| - 1; Costs(PopRoot(h)) == Costs(h)[0 := Cost(h, n)][..n]
  {
    var g, n := PopRoot(h), |h.refs| - 1;
    forall p: nat | p < n ensures Cost(g, p) == if p == 0 then Cost(h, n) else Cost(h, p) {}
  }

  lemma LastToRoot(c: seq<real>)
    requires |c| > 0 && OrderedFrom(c, 0)
    ensures OrderedBut(c[0 := c[|c| - 1]][..|c| - 1], 0, 0)
  {
  }

  /** `pop` removes exactly the root. */
  lemma PopRemovesRoot<T>(h: Heap<T>)
    requires Good(h) && |h.refs| > 0
    ensures Good(Pop(h)) && Contents(Pop(h)) == Contents(h) - {h.refs[0]}
  {
    PopRootLinked(h);
    PopRootContents(h);
    PopRootCosts(h);
    LastToRoot(Costs(h));
    if |h.refs| > 1 {
      SiftDownRestores(PopRoot(h), 0, 0);
      SamePairsSameContents(PopRoot(h), Pop(h));
    }
  }

  /** `pop` puts the last handle at the root; of the others only strictly cheaper ones move. */
  lemma PopKeepsPlaces<T>(h: Heap<T>, p: nat)
    requires Linked(h) && 0 < p < |h.refs| - 1 && Cost(h, p) >= Cost(h, |h.refs| - 1)
    ensures Pop(h).refs[p] == h.refs[p]
  {
    var g := PopRoot(h);
    PopRootAt(h, 0);
    PopRootAt(h, p);
    SiftDownKeeps(g, 0, p);
  }

  lemma PopRootAt<T>(h: Heap<T>, p: nat)
    requires Linked(h) && p < |h.refs| - 1
    ensures var g, q := PopRoot(h), if p == 0 then |h.refs| - 1 else p;
      g.refs[p] == h.refs[q] && Cost(g, p) == Cost(h, q)
  {
  }

  /** The next top: the left child of the root unless the right one is cheaper, if cheaper than the last handle. */
  lemma PopRaises<T>(h: Heap<T>)
    requires Linked(h) && |h.refs| > 1
    ensures var n := |h.refs| - 1;
      Pop(h).refs[0] ==
        if n > 1 && Cost(h, 1) < Cost(h, n) && (n > 2 ==> Cost(h, 1) <= Cost(h, 2)) then h.refs[1]
        else if n > 2 && Cost(h, 2) < Cost(h, n) then h.refs[2]
        else h.refs[n]
  {
    var g, n := PopRoot(h), |h.refs| - 1;
    PopRootAt(h, 0);
    if n > 1 {
      PopRootAt(h, 1);
    }
    if n > 2 {
      PopRootAt(h, 2);
    }
    var s := if n > 1 && Cost(h, 1) < Cost(h, n) && (n > 2 ==> Cost(h, 1) <= Cost(h, 2)) then 1
      else if n > 2 && Cost(h, 2) < Cost(h, n) then 2 else 0;
    SiftDownRaises(g, 0, s);
  }

  // ---------- update ----------

  lemma SetCostLive<T>(h: Heap<T>, x: nat, cost: real)
    requires Good(h) && x in h.refs && x < |h.list|
    ensures var g, i := SetCost(h, x, cost), h.list[x].index;
      && i < |h.refs| && h.refs[i] == x
      && Linked(g) && Contents(g) == Contents(h)[x := Pair(h.list[x].pair.value, cost)]
      && (if cost < h.list[x].pair.cost then OrderedAbove(Costs(g), i) else OrderedBut(Costs(g), 0, i))
  {
    var g, i := SetCost(h, x, cost), h.list[x].index;
    var p :| 0 <= p < |h.refs| && h.refs[p] == x;
    assert p == i;
    assert forall q: nat :: q < |h.refs| && q != i ==> h.refs[q] != x;
    assert Costs(g) == Costs(h)[i := cost];
    CostMoves(Costs(h), i, cost);
  }

  lemma CostMoves(c: seq<real>, i: nat, cost: real)
    requires i < |c| && OrderedFrom(c, 0)
    ensures if cost < c[i] then OrderedAbove(c[i := cost], i) else OrderedBut(c[i := cost], 0, i)
  {
    forall p: nat | 0 < p < |c| && Parent(p) == i && i > 0 ensures c[Parent(i)] <= c[p] {
      assert c[Parent(i)] <= c[i] <= c[p];
    }
  }

  /** `update` changes the cost of a live handle and nothing else. */
  lemma UpdateLive<T>(h: Heap<T>, x: nat, cost: real)
    requires Good(h) && x in h.refs && x < |h.list|
    ensures h.list[x].index < |h.refs|
    ensures var r := Update(h, x, cost);
      && Good(r) && Contents(r) == Contents(h)[x := Pair(h.list[x].pair.value, cost)]
      && (forall y: nat :: y in r.refs <==> y in h.refs)
  {
    var g, i := SetCost(h, x, cost), h.list[x].index;
    SetCostLive(h, x, cost);
    if cost < h.list[x].pair.cost {
      SiftUpRestores(g, i);
    } else {
      SiftDownRestores(g, i, 0);
    }
    SamePairsSameContents(g, Update(h, x, cost));
    SameMembers(g, Update(h, x, cost));
  }

  /** `update` moves no handle on the far side of the new cost. */
  lemma UpdateKeepsPlaces<T>(h: Heap<T>, x: nat, cost: real, p: nat)
    requires Good(h) && x in h.refs && x < |h.list| && p < |h.refs| && h.refs[p] != x
    requires h.list[x].index < |h.refs|
    requires if cost < h.list[x].pair.cost then Cost(h, p) <= cost else Cost(h, p) >= cost
    ensures Update(h, x, cost).refs[p] == h.refs[p]
  {
    var g, i := SetCost(h, x, cost), h.list[x].index;
    SetCostLive(h, x, cost);
    assert Cost(g, p) == Cost(h, p) && Cost(g, i) == cost;
    if cost < h.list[x].pair.cost {
      SiftUpKeeps(g, i, p);
    } else {
      SiftDownKeeps(g, i, p);
    }
  }

  /** On a handle that is not live, `update` passes its own assertion and changes neither contents nor order. */
  lemma UpdateDormant<T>(h: Heap<T>, x: nat, cost: real)
    requires Good(h) && x < |h.list| && x !in h.refs && |h.refs| > 0
    ensures h.list[x].index < |h.refs|
    ensures var r := Update(h, x, cost);
      Good(r) && Contents(r) == Contents(h) && r.refs == h.refs
  {
    SetCostDormant(h, x, cost);
    SiftDownNoOp(SetCost(h, x, cost), 0);
  }

  lemma SetCostDormant<T>(h: Heap<T>, x: nat, cost: real)
    requires Good(h) && x < |h.list| && x !in h.refs
    ensures var g := SetCost(h, x, cost); Good(g) && Contents(g) == Contents(h)
  {
    assert Costs(SetCost(h, x, cost)) == Costs(h);
  }
}
