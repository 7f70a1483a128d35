/** EasySort_T, in place on an array list. */
module EasySort {
  import opened Allocation
  import opened ArrayList
  import opened StableSort

  predicate IsDropped<T>(s: seq<T>, score: T -> real, i: nat)
    requires i < |s|
  {
    Below(s[i], Scan(s, score, i).kept, score)
  }

  lemma ScanStep<T>(s: seq<T>, score: T -> real, i: nat)
    requires i < |s|
    ensures Scan(s, score, i + 1).dropped == Scan(s, score, i).dropped + if IsDropped(s, score, i) then [s[i]] else []
  {
  }

  /** Dropped is exactly what has a costlier element somewhere before it. */
  lemma DroppedIffCostlierBefore<T>(s: seq<T>, score: T -> real, i: nat)
    requires i < |s|
    ensures IsDropped(s, score, i) <==> exists j: nat :: j < i && score(s[j]) > score(s[i])
  {
    RunningMaximum(s, score, i);
  }

  /** The last kept score is the maximum so far. */
  lemma {:induction false} RunningMaximum<T>(s: seq<T>, score: T -> real, n: nat)
    requires n <= |s|
    ensures n > 0 ==> var kept := Scan(s, score, n).kept;
      (forall j: nat :: j < n ==> score(s[j]) <= score(kept[|kept| - 1])) &&
      exists j: nat :: j < n && s[j] == kept[|kept| - 1]
  {
    if n > 0 {
      RunningMaximum(s, score, n - 1);
    }
  }

  lemma {:induction false} DroppedGrows<T>(s: seq<T>, score: T -> real, i: nat, n: nat)
    requires i <= n <= |s|
    ensures |Scan(s, score, i).dropped| <= |Scan(s, score, n).dropped|
    decreases n - i
  {
    if i < n {
      DroppedGrows(s, score, i + 1, n);
    }
  }

  // ---------- the cost of a binary search ----------

  /** Binary digits of `n`. */
  function Digits(n: nat): nat {
    if n == 0 then 0 else 1 + Digits(n / 2)
  }

  /** The integer part of the binary logarithm. */
  function Log2(n: nat): nat
    requires n > 0
  {
    if n == 1 then 0 else 1 + Log2(n / 2)
  }

  lemma {:induction false} DigitsMonotone(a: nat, b: nat)
    requires a <= b
    ensures Digits(a) <= Digits(b)
  {
    if a > 0 {
      DigitsMonotone(a / 2, b / 2);
    }
  }

  lemma {:induction false} DigitsIsLog(n: nat)
    requires n > 0
    ensures Digits(n) == Log2(n) + 1
  {
    if n > 1 {
      DigitsIsLog(n / 2);
    }
  }

  // ---------- the phases ----------

  /** Marks what lies below the running maximum. */
  method Mark<T>(data: array<T>, n: nat, score: T -> real) returns (removed: array<bool>, count: nat, ghost evals: nat)
    requires 0 < n <= data.Length
    ensures fresh(removed) && removed.Length == n
    ensures forall j: nat :: j < n ==> removed[j] == IsDropped(data[..n], score, j)
    ensures count == |Scan(data[..n], score, n).dropped|
    ensures evals == n
  {
    ghost var s := data[..n];
    removed := new bool[n](_ => false);
    count := 0;
    var prev := score(data[0]);
    evals := 1;
    for i := 1 to n
      invariant forall j: nat :: j < i ==> removed[j] == IsDropped(s, score, j)
      invariant forall j: nat :: i <= j < n ==> !removed[j]
      invariant count == |Scan(s, score, i).dropped| && evals == i
      invariant Scan(s, score, i).kept != [] && prev == score(Scan(s, score, i).kept[|Scan(s, score, i).kept| - 1])
    {
      var x := score(data[i]);
      evals := evals + 1;
      if x < prev {
        removed[i] := true;
        count := count + 1;
      } else {
        prev := x;
      }
    }
  }

  /** Copies the marked elements out, with their scores. */
  method Displace<T>(data: array<T>, n: nat, score: T -> real, removed: array<bool>, count: nat, zero: T)
      returns (displaced: array<T>, scores: array<real>, ghost evals: nat)
    requires n <= data.Length && removed.Length == n
    requires forall j: nat :: j < n ==> removed[j] == IsDropped(data[..n], score, j)
    requires count == |Scan(data[..n], score, n).dropped|
    ensures fresh(displaced) && fresh(scores) && displaced.Length == scores.Length == count
    ensures displaced[..] == Scan(data[..n], score, n).dropped
    ensures forall j: nat :: j < count ==> scores[j] == score(displaced[j])
    ensures evals == count
  {
    ghost var s := data[..n];
    displaced := new T[count](_ => zero);
    scores := new real[count](_ => 0.0);
    var d := 0;
    evals := 0;
    ghost var out: seq<T> := [];
    for i := 0 to n
      invariant out == Scan(s, score, i).dropped && d == evals == |out| <= count
      invariant forall j: nat :: j < d ==> displaced[j] == out[j] && scores[j] == score(out[j])
    {
      ScanStep(s, score, i);
      DroppedGrows(s, score, i + 1, n);
      if removed[i] {
        out := out + [s[i]];
        displaced[d] := data[i];
        scores[d] := score(data[i]);
        evals := evals + 1;
        d := d + 1;
      }
    }
  }

  /** Closes the gaps in place; an element that has nowhere to move is not written. */
  method Compact<T>(data: array<T>, n: nat, ghost score: T -> real, removed: array<bool>)
      returns (write: nat, ghost moves: nat)
    requires n <= data.Length && removed.Length == n
    requires forall j: nat :: j < n ==> removed[j] == IsDropped(data[..n], score, j)
    modifies data
    ensures write <= n && data[..write] == Scan(old(data[..n]), score, n).kept
    ensures write == n ==> moves == 0
  {
    ghost var s := data[..n];
    write, moves := 0, 0;
    for i := 0 to n
      invariant write <= i && data[..write] == Scan(s, score, i).kept
      invariant forall j: nat :: i <= j < n ==> data[j] == s[j]
      invariant write == i ==> moves == 0
    {
      if !removed[i] {
        if write != i {
          data[write] := data[i];
          moves := moves + 1;
        }
        write := write + 1;
      }
    }
  }

  /** The upper bound, by halving. */
  method Search<T>(data: array<T>, n: nat, score: T -> real, x: real) returns (lo: nat, ghost evals: nat)
    requires n <= data.Length && Sorted(data[..n], score)
    ensures lo == UpperBound(data[..n], score, x)
    ensures evals <= Digits(n)
  {
    ghost var s := data[..n];
    var hi: nat := n;
    lo, evals := 0, 0;
    while lo < hi
      invariant lo <= hi <= n
      invariant forall j: nat :: j < lo ==> score(s[j]) <= x
      invariant forall j: nat :: hi <= j < n ==> score(s[j]) > x
      invariant evals + Digits(hi - lo) <= Digits(n)
      decreases hi - lo
    {
      var mid: nat := lo + (hi - lo) / 2;
      evals := evals + 1;
      assert s[mid] == data[mid];
      DigitsMonotone(hi - (mid + 1), (hi - lo) / 2);
      if score(data[mid]) <= x {
        lo := mid + 1;
      } else {
        hi := mid;
      }
    }
    UpperBoundIsUnique(s, score, x, lo);
  }

  lemma UpperBoundIsUnique<T>(s: seq<T>, score: T -> real, x: real, u: nat)
    requires u <= |s|
    requires forall j: nat :: j < u ==> score(s[j]) <= x
    requires forall j: nat :: u <= j < |s| ==> score(s[j]) > x
    ensures u == UpperBound(s, score, x)
  {
    var v := UpperBound(s, score, x);
    assert u < |s| ==> score(s[u]) > x;
    assert v < |s| ==> score(s[v]) > x;
  }

  /** Opens a gap at `at` and fills it. */
  method InsertAt<T>(data: array<T>, n: nat, at: nat, element: T)
    requires at <= n < data.Length
    modifies data
    ensures var s := old(data[..n]); data[..n + 1] == s[..at] + [element] + s[at..]
  {
    ghost var s := data[..n];
    assert data[at..n] == s[at..] && data[..at + 1][..at] == s[..at];
    Move(data, at + 1, at, n - at);
    ghost var r := data[..n + 1];
    data[at] := element;
    assert data[..n + 1] == r[at := element];
  }

  /** What holds after `i` rounds of the reinsertion loop, when `s` is being sorted. */
  ghost predicate Refilled<T>(list: ArrayList<T>, score: T -> real, s: seq<T>, i: nat)
    requires i <= |Scan(s, score, |s|).dropped|
    reads list, list.data
  {
    var r := Scan(s, score, |s|);
    && list.size == |r.kept| + i && |s| <= list.maxsize == list.data.Length
    && list.Contents() == Reinsert(r.kept, score, r.dropped, i)
  }

  /** Inserts one displaced element behind its equals; the list is never full, so it does not grow. */
  method Place<T>(list: ArrayList<T>, score: T -> real, element: T, x: real, ghost s: seq<T>, ghost i: nat)
      returns (ghost evals: nat, ghost moves: nat)
    requires i < |Scan(s, score, |s|).dropped| && element == Scan(s, score, |s|).dropped[i] && x == score(element)
    requires Refilled(list, score, s, i)
    modifies list`size, list.data
    ensures Refilled(list, score, s, i + 1)
    ensures evals <= Digits(|s|)
  {
    ghost var before := list.Contents();
    StaysSorted(s, score, i);
    DigitsMonotone(list.size, |s|);
    var lo, e := Search(list.data, list.size, score, x);
    if list.size >= list.maxsize {
      assert false;  // the growth branch
    }
    InsertAt(list.data, list.size, lo, element);
    evals, moves := e, 1 + list.size - lo;
    list.size := list.size + 1;
    assert list.Contents() == InsertBehind(before, score, element);
  }

  /** The reinsertion loop. */
  method Refill<T>(list: ArrayList<T>, score: T -> real, displaced: array<T>, scores: array<real>, ghost s: seq<T>)
      returns (ghost evals: nat, ghost moves: nat)
    requires Refilled(list, score, s, 0) && displaced[..] == Scan(s, score, |s|).dropped
    requires displaced != list.data && scores as object != list.data && scores.Length == displaced.Length
    requires forall j: nat :: j < scores.Length ==> scores[j] == score(displaced[j])
    modifies list`size, list.data
    ensures Refilled(list, score, s, |Scan(s, score, |s|).dropped|)
    ensures evals <= Sum(displaced.Length, Digits(|s|))
    ensures displaced.Length == 0 ==> moves == 0
  {
    evals, moves := 0, 0;
    for i := 0 to displaced.Length
      invariant unchanged(displaced) && unchanged(scores)
      invariant Refilled(list, score, s, i)
      invariant evals <= Sum(i, Digits(|s|))
      invariant moves == 0 || i > 0
    {
      assert scores[i] == old(scores[i]) && displaced[i] == old(displaced[..])[i];
      var e, m := Place(list, score, displaced[i], scores[i], s, i);
      evals, moves := evals + e, moves + m;
    }
  }

  lemma StaysSorted<T>(s: seq<T>, score: T -> real, i: nat)
    requires i <= |Scan(s, score, |s|).dropped|
    ensures var r := Scan(s, score, |s|); Sorted(Reinsert(r.kept, score, r.dropped, i), score)
  {
    var r := Scan(s, score, |s|);
    KeptIsSorted(s, score, |s|);
    ReinsertIsStable(r.kept, score, r.dropped, i);
  }

  /** `m` added `i` times. */
  function Sum(i: nat, m: nat): nat {
    if i == 0 then 0 else Sum(i - 1, m) + m
  }

  lemma {:induction false} SumIsProduct(i: nat, m: nat)
    ensures Sum(i, m) == i * m
  {
    if i > 0 {
      SumIsProduct(i - 1, m);
    }
  }

  /** Takes the marked elements out of the list and closes the gaps. */
  method Extract<T>(list: ArrayList<T>, score: T -> real, removed: array<bool>, count: nat)
      returns (displaced: array<T>, scores: array<real>, ghost evals: nat, ghost moves: nat)
    requires removed.Length == list.size <= list.data.Length
    requires forall j: nat :: j < list.size ==> removed[j] == IsDropped(list.Contents(), score, j)
    requires count == |Scan(list.Contents(), score, list.size).dropped|
    modifies list`size, list.data
    ensures fresh(displaced) && fresh(scores) && list.size <= old(list.size)
    ensures var r := Scan(old(list.Contents()), score, old(list.size));
      list.Contents() == r.kept && displaced[..] == r.dropped
    ensures scores.Length == displaced.Length
    ensures forall j: nat :: j < scores.Length ==> scores[j] == score(displaced[j])
    ensures evals == displaced.Length && (displaced.Length == 0 ==> moves == 0)
  {
    displaced, scores, evals := Displace(list.data, list.size, score, removed, count, list.zero);
    var write, m := Compact(list.data, list.size, score, removed);
    list.size := write;
    moves := m;
  }

  /** The scan, and the blocks the sort borrows. */
  method Prepare<T>(list: ArrayList<T>, score: T -> real)
      returns (removed: array<bool>, count: nat, a: Pointer, b: Pointer, c: Pointer, ghost evals: nat)
    requires list.Valid() && list.size > 1
    modifies list.mem
    ensures list.Valid() && fresh(removed) && removed.Length == list.size && evals == list.size
    ensures forall j: nat :: j < list.size ==> removed[j] == IsDropped(list.Contents(), score, j)
    ensures count == |Scan(list.Contents(), score, list.size).dropped|
    ensures |list.mem.blocks| == |old(list.mem.blocks)| + 3 && old(list.mem.blocks) <= list.mem.blocks
    ensures a == At(|old(list.mem.blocks)|) && b == At(a.id + 1) && c == At(a.id + 2)
    ensures list.mem.IsLive(a) && list.mem.IsLive(b) && list.mem.IsLive(c)
    ensures var blocks := list.mem.blocks;
      list.mem.total == old(list.mem.total) + HeaderOf(blocks[a.id]) + HeaderOf(blocks[b.id]) + HeaderOf(blocks[c.id])
  {
    a := list.mem.Allocate(list.size, 1);
    removed, count, evals := Mark(list.data, list.size, score);
    b := list.mem.Allocate(count, list.elemSize);
    c := list.mem.Allocate(count, 4);
  }

  /** Everything before the reinsertion loop: the list is left with the kept elements. */
  method Strip<T>(list: ArrayList<T>, score: T -> real)
      returns (displaced: array<T>, scores: array<real>, displacedBlock: Pointer, scoresBlock: Pointer,
               ghost evals: nat, ghost moves: nat)
    requires list.Valid() && list.size > 1
    modifies list`size, list.data, list.mem
    ensures list.Valid() && fresh(displaced) && fresh(scores)
    ensures var r := Scan(old(list.Contents()), score, old(list.size));
      list.Contents() == r.kept && displaced[..] == r.dropped
    ensures scores.Length == displaced.Length
    ensures forall j: nat :: j < scores.Length ==> scores[j] == score(displaced[j])
    ensures displacedBlock == At(|old(list.mem.blocks)| + 1) && scoresBlock == At(|old(list.mem.blocks)| + 2)
    ensures list.mem.IsLive(displacedBlock) && list.mem.IsLive(scoresBlock)
    ensures var b, c := list.mem.blocks[displacedBlock.id], list.mem.blocks[scoresBlock.id];
      && list.mem.blocks == old(list.mem.blocks) + [Freed, b, c]
      && list.mem.total == old(list.mem.total) + b.header + c.header
    ensures evals == old(list.size) + displaced.Length
    ensures displaced.Length == 0 ==> moves == 0
  {
    var removed, count, removedBlock;
    ghost var e;
    removed, count, removedBlock, displacedBlock, scoresBlock, e := Prepare(list, score);
    ghost var e', m;
    displaced, scores, e', m := Extract(list, score, removed, count);
    list.mem.Free(removedBlock);
    evals, moves := e + e', m;
  }

  /** One evaluation to displace and a binary search to reinsert, for each of `d` elements. */
  lemma CostBound(d: nat, n: nat)
    requires n > 0
    ensures d + Sum(d, Digits(n)) == d * (Log2(n) + 2)
  {
    DigitsIsLog(n);
    SumIsProduct(d, Digits(n));
    assert d + d * (Log2(n) + 1) == d * (Log2(n) + 2);
  }

  /** The part of `EasySort` beyond its guard. */
  method SortLonger<T>(list: ArrayList<T>, score: T -> real) returns (ghost evals: nat, ghost moves: nat)
    requires list.Valid() && list.size > 1
    modifies list`size, list.data, list.mem
    ensures list.Valid() && list.Contents() == EasySorted(old(list.Contents()), score)
    ensures list.mem.total == old(list.mem.total)
    ensures list.mem.blocks == old(list.mem.blocks) + [Freed, Freed, Freed]
    ensures var s := old(list.Contents());
      var d := |Scan(s, score, |s|).dropped|;
      evals <= |s| + d + Sum(d, Digits(|s|)) && (d == 0 ==> moves == 0)
  {
    ghost var s := list.Contents();
    var displaced, scores, displacedBlock, scoresBlock, e, m := Strip(list, score);
    var e', m' := Refill(list, score, displaced, scores, s);
    list.mem.Free(displacedBlock);
    list.mem.Free(scoresBlock);
    evals, moves := e + e', m + m';
  }

  /** Sorts stably in place, without growing the list, leaking a block or touching a sorted one. */
  method EasySort<T>(list: ArrayList<T>, score: T -> real) returns (ghost evals: nat, ghost moves: nat)
    requires list.Valid()
    modifies list`size, list.data, list.mem
    ensures list.Valid() && IsStableSort(old(list.Contents()), score, list.Contents())
    ensures multiset(list.Contents()) == multiset(old(list.Contents()))
    ensures list.mem.total == old(list.mem.total)
    ensures list.mem.blocks == old(list.mem.blocks) + if old(list.size) <= 1 then [] else [Freed, Freed, Freed]
    ensures Sorted(old(list.Contents()), score) ==> moves == 0
    ensures var s := old(list.Contents());
      |s| > 1 ==> evals <= |s| + |Scan(s, score, |s|).dropped| * (Log2(|s|) + 2)
  {
    ghost var s := list.Contents();
    EasySortedIsStableSort(s, score);
    if list.size <= 1 {
      return 0, 0;
    }
    DroppedNothingIffSorted(s, score, |s|);
    assert s[..|s|] == s;
    CostBound(|Scan(s, score, |s|).dropped|, |s|);
    evals, moves := SortLonger(list, score);
  }
}
