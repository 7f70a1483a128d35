/** PQUEUE_T with its arrays updated in place; every method refines the heap of `IndexedHeap`. */
module PriorityQueue {
  import opened IndexedHeap
  import opened HeapRuns

  class PriorityQueue<T> {
    const zero: T  // the value whose bytes are all zero
    var list: array<Node<T>>
    var refs: array<nat>
    var size: nat
    var capacity: nat
    ghost var swaps: nat

    ghost function State(): Heap<T>
      requires size <= refs.Length
      reads this, list, refs
    {
      Heap(list[..], refs[..size])
    }

    /** The bounds that keep every access inside the arrays. */
    ghost predicate Allocated()
      reads this, list, refs
    {
      list.Length == refs.Length == capacity && size <= capacity && Bounded(State())
    }

    ghost predicate Valid()
      reads this, list, refs
    {
      Allocated() && Good(State())
    }

    /** The queued pairs by handle. */
    ghost function Pairs(): map<nat, Pair<T>>
      requires Allocated()
      reads this, list, refs
    {
      Contents(State())
    }

    constructor (zero: T)
      ensures Valid() && State() == Empty() && Dense(State())
      ensures this.zero == zero && fresh(list) && fresh(refs)
    {
      this.zero := zero;
      list, refs := new Node<T>[0], new nat[0];
      size, capacity, swaps := 0, 0, 0;
    }

    method Build(values: array<Pair<T>>)
      modifies this
      ensures Valid() && State() == IndexedHeap.Build(values[..])
      ensures Pairs() == map i: nat | i < values.Length :: values[i]
      ensures swaps - old(swaps) + Ones(values.Length) <= values.Length
      ensures fresh(list) && fresh(refs)
    {
      BuildIsLinear(values[..]);
      BuildStoresAll(values[..]);
      Load(values);
      SiftAll();
    }

    /** The second loop of `Build`. */
    method SiftAll()
      requires Allocated()
      modifies list, refs, `swaps
      ensures Allocated() && State() == Heapify(old(State()), size / 2)
      ensures swaps == old(swaps) + HeapifySwaps(old(State()), size / 2)
    {
      ghost var h := State();
      var i: int := size / 2 - 1;
      while i >= 0
        invariant -1 <= i && i + 1 <= size / 2
        invariant Allocated()
        invariant Heapify(State(), i + 1) == Heapify(h, size / 2)
        invariant swaps + HeapifySwaps(State(), i + 1) == old(swaps) + HeapifySwaps(h, size / 2)
        decreases i
      {
        HeapifyUnfolds(State(), i + 1);
        HeapD(i);
        i := i - 1;
      }
    }

    /** The first loop of `Build`. */
    method Load(values: array<Pair<T>>)
      modifies this
      ensures Allocated() && State() == Fill(values[..]) && size == values.Length
      ensures fresh(list) && fresh(refs) && swaps == old(swaps)
    {
      var n := values.Length;
      ghost var fill := Fill(values[..]);
      size, capacity := n, n;
      list := new Node<T>[n](_ => ZeroNode(zero));
      refs := new nat[n](_ => 0);
      for i := 0 to n
        invariant list.Length == n == refs.Length == size == capacity
        invariant fresh(list) && fresh(refs) && swaps == old(swaps)
        invariant list[..i] == fill.list[..i] && refs[..i] == fill.refs[..i]
      {
        list[i] := Node(values[i], i);
        refs[i] := i;
      }
      assert list[..] == fill.list && refs[..] == fill.refs;
    }

    method Swap(i: nat, j: nat)
      requires Allocated() && i < size && j < size
      modifies list, refs, `swaps
      ensures Allocated() && State() == IndexedHeap.Swap(old(State()), i, j)
      ensures swaps == old(swaps) + 1
    {
      ghost var r := IndexedHeap.Swap(State(), i, j);
      refs[i], refs[j] := refs[j], refs[i];
      list[refs[i]] := list[refs[i]].(index := i);
      list[refs[j]] := list[refs[j]].(index := j);
      swaps := swaps + 1;
      assert refs[..size] == r.refs && list[..] == r.list;
    }

    method HeapU(start: nat)
      requires Allocated() && start < size
      modifies list, refs, `swaps
      ensures Allocated() && State() == SiftUp(old(State()), start)
      ensures forall p: nat :: p < size && p != start && Cost(old(State()), p) <= Cost(old(State()), start) ==>
        refs[p] == old(refs[p])
    {
      ghost var h := State();
      var i: nat := start;
      while i > 0
        invariant i < size && Allocated()
        invariant SiftUp(State(), i) == SiftUp(old(State()), start)
        decreases i
      {
        var parent: nat := (i - 1) / 2;
        if list[refs[i]].pair.cost >= list[refs[parent]].pair.cost {
          break;
        }
        Swap(i, parent);
        i := parent;
      }
      forall p: nat | p < size && p != start && Cost(h, p) <= Cost(h, start)
        ensures refs[p] == h.refs[p]
      {
        SiftUpKeeps(h, start, p);
        assert refs[p] == State().refs[p];
      }
    }

    /** The two comparisons at the head of the loop of `HeapD`. */
    method SmallestOf(i: nat) returns (smallest: nat)
      requires Allocated() && i < size
      ensures smallest == Smallest(State(), i)
    {
      var left, right := i * 2 + 1, i * 2 + 2;
      smallest := i;
      if left < size && list[refs[left]].pair.cost < list[refs[smallest]].pair.cost {
        smallest := left;
      }
      if right < size && list[refs[right]].pair.cost < list[refs[smallest]].pair.cost {
        smallest := right;
      }
    }

    method HeapD(start: nat)
      requires Allocated() && start < size
      modifies list, refs, `swaps
      ensures Allocated() && State() == SiftDown(old(State()), start)
      ensures swaps == old(swaps) + DownSwaps(old(State()), start)
    {
      var i: nat := start;
      while true
        invariant i < size && Allocated()
        invariant SiftDown(State(), i) == SiftDown(old(State()), start)
        invariant swaps + DownSwaps(State(), i) == old(swaps) + DownSwaps(old(State()), start)
        decreases size - i
      {
        var smallest := SmallestOf(i);
        if smallest == i {
          break;
        }
        Swap(i, smallest);
        i := smallest;
      }
    }

    /** The growth branch of `Insert`, with its zero-filling reallocation. */
    method Grow()
      requires Allocated() && size >= capacity
      modifies this`list, this`refs, this`capacity
      ensures Allocated() && State() == Reserve(old(State()), zero) && size < capacity
      ensures capacity == if old(capacity) == 0 then 2 else 2 * old(capacity)
      ensures forall x: nat :: x < capacity ==>
        list[x] == if x < old(capacity) then old(list[..])[x] else Node(Pair(zero, 0.0), 0)
      ensures fresh(list) && fresh(refs)
    {
      ghost var r := Reserve(State(), zero);
      if capacity == 0 {
        capacity := 1;
      }
      capacity := capacity * 2;
      var oldList, oldRefs := list, refs;
      list := new Node<T>[capacity](i reads oldList => if 0 <= i < oldList.Length then oldList[i] else ZeroNode(zero));
      refs := new nat[capacity](i reads oldRefs => if 0 <= i < oldRefs.Length then oldRefs[i] else 0);
      assert list[..] == r.list && refs[..size] == r.refs;
    }

    method Insert(value: T, cost: real)
      requires Allocated()
      modifies this, list, refs
      ensures Allocated() && State() == IndexedHeap.Insert(old(State()), zero, value, cost)
      ensures old(Valid()) ==> (Valid() <==> Free(old(State())))
      ensures old(Valid()) && Free(old(State())) ==> Pairs() == old(Pairs())[old(size) := Pair(value, cost)]
      ensures old(Valid() && size > 0 && Cost(State(), 0) <= cost) ==> refs[0] == old(refs[0])
      ensures (list == old(list) || fresh(list)) && (refs == old(refs) || fresh(refs))
    {
      ghost var h := State();
      if size >= capacity {
        Grow();
      }
      list[size] := Node(Pair(value, cost), size);
      refs[size] := size;
      size := size + 1;
      assert State() == Append(h, zero, value, cost);
      HeapU(size - 1);
      if Good(h) {
        InsertNeedsFreeSlot(h, zero, value, cost);
        if Free(h) {
          InsertAdds(h, zero, value, cost);
        }
        if |h.refs| > 0 {
          InsertKeepsTop(h, zero, value, cost);
          assert State().refs[0] == refs[0];
        }
      }
    }

    method Top() returns (value: T)
      requires Valid() && size != 0
      ensures exists x :: IsLeast(Pairs(), x) && value == Pairs()[x].value
    {
      TopIsLeast(State());
      assert IsLeast(Pairs(), State().refs[0]);
      value := list[refs[0]].pair.value;
    }

    method Pop() returns (value: T)
      requires Valid() && size != 0
      modifies this, list, refs
      ensures Valid() && State() == IndexedHeap.Pop(old(State()))
      ensures exists x :: IsLeast(old(Pairs()), x) && value == old(Pairs())[x].value && Pairs() == old(Pairs()) - {x}
      ensures list == old(list) && refs == old(refs)
    {
      ghost var h := State();
      TopIsLeast(h);
      PopRemovesRoot(h);
      value := list[refs[0]].pair.value;
      size := size - 1;
      if size > 0 {
        refs[0] := refs[size];
        list[refs[0]] := list[refs[0]].(index := 0);
        assert State() == PopRoot(h);
        HeapD(0);
      }
      assert IsLeast(Contents(h), h.refs[0]) && Pairs() == Contents(h) - {h.refs[0]};
    }

    method Update(index: nat, newcost: real)
      requires Valid() && index < capacity && list[index].index < size
      modifies list, refs, `swaps
      ensures Valid() && State() == IndexedHeap.Update(old(State()), index, newcost)
      ensures Pairs() == if index in old(Pairs())
        then old(Pairs())[index := Pair(old(Pairs())[index].value, newcost)] else old(Pairs())
    {
      ghost var h := State();
      if index in h.refs {
        UpdateLive(h, index, newcost);
      } else {
        UpdateDormant(h, index, newcost);
      }
      var oldcost := list[index].pair.cost;
      list[index] := Node(Pair(list[index].pair.value, newcost), list[index].index);
      assert State() == SetCost(h, index, newcost);
      if newcost < oldcost {
        HeapU(list[index].index);
      } else {
        HeapD(list[index].index);
      }
    }

    method Clear()
      modifies this
      ensures Valid() && State() == Empty() && fresh(list) && fresh(refs)
    {
      list, refs := new Node<T>[0], new nat[0];
      size, capacity := 0, 0;
    }
  }

  /** One call of a client. */
  method Perform<T>(q: PriorityQueue<T>, op: Op<T>)
    requires q.Valid() && Callable(q.State(), op) && (op.OpInsert? ==> Free(q.State()))
    modifies q, q.list, q.refs
    ensures q.Valid() && q.State() == Apply(old(q.State()), q.zero, op)
    ensures (q.list == old(q.list) || fresh(q.list)) && (q.refs == old(q.refs) || fresh(q.refs))
  {
    match op
    case OpInsert(value, cost) => q.Insert(value, cost);
    case OpPop => var _ := q.Pop();
    case OpUpdate(handle, cost) => q.Update(handle, cost);
  }

  /** A client's run on the object is the run of the heap, as long as its inserts find their slots free. */
  method PerformAll<T>(q: PriorityQueue<T>, ops: seq<Op<T>>)
    requires q.Valid() && CanRun(q.State(), q.zero, ops) && FreeInserts(q.State(), q.zero, ops)
    modifies q, q.list, q.refs
    ensures q.Valid() && q.State() == Run(old(q.State()), q.zero, ops)
    ensures (q.list == old(q.list) || fresh(q.list)) && (q.refs == old(q.refs) || fresh(q.refs))
    decreases |ops|
  {
    if ops != [] {
      Perform(q, ops[0]);
      PerformAll(q, ops[1..]);
    }
  }

  /** The values of all pairs of `m` in the order of their costs, with their handles. */
  ghost predicate Drained<T>(m: map<nat, Pair<T>>, handles: seq<nat>, values: seq<T>) {
    && ListsInOrder(handles, m)
    && |values| == |handles|
    && forall i: nat :: i < |values| ==> handles[i] in m && values[i] == m[handles[i]].value
  }

  lemma DrainedMore<T>(m: map<nat, Pair<T>>, x: nat, handles: seq<nat>, values: seq<T>)
    requires IsLeast(m, x) && Drained(m - {x}, handles, values)
    ensures Drained(m, [x] + handles, [m[x].value] + values)
  {
    PrependLeast(m, x, handles);
  }

  /** Popping until empty: the values come out in the order of their costs. */
  method DrainAll<T>(q: PriorityQueue<T>) returns (values: seq<T>, ghost handles: seq<nat>)
    requires q.Valid()
    modifies q, q.list, q.refs
    ensures q.Valid() && q.size == 0 && Drained(old(q.Pairs()), handles, values)
    decreases q.size
  {
    if q.size == 0 {
      return [], [];
    }
    ghost var m := q.Pairs();
    var value := q.Pop();
    ghost var x: nat :| IsLeast(m, x) && value == m[x].value && q.Pairs() == m - {x};
    values, handles := DrainAll(q);
    DrainedMore(m, x, handles, values);
    values, handles := [value] + values, [x] + handles;
  }
}
