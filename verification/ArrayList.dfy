/** ARRLIST_T: a growable array, with its growth and its use of the allocator accounted for. */
module ArrayList {
  import opened Bits
  import opened Allocation

  class ArrayList<T(==)> {
    const mem: Memory
    const elemSize: nat  // sizeof(T)
    const zero: T        // the element whose bytes are all zero
    var size: nat
    var maxsize: nat
    var data: array<T>
    var block: Pointer   // the allocator's view of `data`
    ghost var peak: nat    // the largest size since the list was last empty-handed
    ghost var copied: nat  // elements moved by reallocation since then

    ghost predicate Valid()
      reads this, mem
    {
      && mem.Valid() && size <= maxsize == data.Length
      && (block == Null ==> maxsize == 0)
      && (block != Null ==> mem.IsLive(block) && mem.blocks[block.id].header == maxsize * elemSize + HEADER)
    }

    /** The sequence the list stands for. */
    ghost function Contents(): seq<T>
      requires size <= data.Length
      reads this, data
    {
      data[..size]
    }

    /** The bytes of the allocator's total that belong to this list. */
    ghost function Footprint(): nat
      reads this
    {
      if block == Null then 0 else maxsize * elemSize + HEADER
    }

    /** Growth from `{ 0 }`: the capacity is the least power of two that holds the peak. */
    ghost predicate Doubling()
      reads this
    {
      && size <= peak <= maxsize
      && (maxsize == 0 ==> copied == 0 && block == Null)
      && (maxsize > 0 ==> IsPow2(maxsize) && maxsize < 2 * peak && copied == maxsize - 1)
    }

    constructor (mem: Memory, elemSize: nat, zero: T)
      requires mem.Valid()
      ensures Valid() && Contents() == [] && Doubling() && Footprint() == 0 && peak == 0
      ensures this.mem == mem && this.elemSize == elemSize && fresh(data) && this.zero == zero && block == Null
    {
      this.mem, this.elemSize, this.zero := mem, elemSize, zero;
      size, maxsize, block, peak, copied := 0, 0, Null, 0, 0;
      data := new T[0];
    }

    /** `n` zero elements; `Zero(0)` leaves an 8-byte block behind a capacity of 0, which a later `Add` forgets. */
    method Zero(n: nat)
      requires Valid()
      modifies this, mem
      ensures Valid() && fresh(data) && size == maxsize == n && block != Null
      ensures forall i: nat :: i < n ==> Contents()[i] == zero
      ensures mem.total - Footprint() == old(mem.total - Footprint())
      ensures OnlyTouches(old(mem.blocks), old(block), mem.blocks, block)
    {
      Clear();
      Provide(n);
      size, peak := n, n;
    }

    /** A zeroed block for `n` elements; what `block` pointed to before is no longer the list's. */
    method Provide(n: nat)
      requires Valid() && size == 0
      modifies this`block, this`data, this`maxsize, mem
      ensures Valid() && fresh(data) && maxsize == n && block != Null
      ensures forall i: nat :: i < n ==> data[i] == zero
      ensures mem.total - Footprint() == old(mem.total)
      ensures old(mem.blocks) < mem.blocks && block == At(|old(mem.blocks)|)
    {
      block := mem.Allocate(n, elemSize);
      data := new T[n](_ => zero);
      maxsize := n;
    }

    method Add(element: T)
      requires Valid()
      modifies this, data, mem
      ensures Valid() && Contents() == old(Contents()) + [element]
      ensures old(Doubling()) ==> Doubling() && peak == if old(peak) > size then old(peak) else size
      ensures mem.total - Footprint() ==
        old(mem.total - Footprint()) + if old(maxsize == 0 && block != Null) then HEADER else 0
      ensures data == old(data) || fresh(data)
      ensures old(size < maxsize) ==> data == old(data) && maxsize == old(maxsize)
      ensures OnlyTouches(old(mem.blocks), old(block), mem.blocks, block)
    {
      if maxsize == 0 {
        Start(element);
      } else if size < maxsize {
        Push(element);
      } else {
        Grow();
        Push(element);
      }
    }

    /** The first element: `data` is overwritten without being freed. */
    method Start(element: T)
      requires Valid() && maxsize == 0
      modifies this, mem
      ensures Valid() && Contents() == [element] && fresh(data) && peak == 1
      ensures old(Doubling()) ==> Doubling()
      ensures mem.total - Footprint() == old(mem.total - Footprint()) + if old(block) != Null then HEADER else 0
      ensures OnlyTouches(old(mem.blocks), old(block), mem.blocks, block)
    {
      Provide(1);
      data[0] := element;
      size, peak := 1, 1;
      assert IsPow2(1) by { assert 1 == Pow2(0); }
    }

    /** An element that fits. */
    method Push(element: T)
      requires Valid() && size < maxsize
      modifies this`size, this`peak, data
      ensures Valid() && Contents() == old(Contents()) + [element]
      ensures peak == if old(peak) > size then old(peak) else size
    {
      data[size] := element;
      size := size + 1;
      peak := if peak > size then peak else size;
    }

    /** Doubles the capacity. */
    method Grow()
      requires Valid() && size == maxsize > 0
      modifies this, mem
      ensures Valid() && fresh(data) && data.Length == 2 * old(maxsize) && data[..size] == old(data[..size])
      ensures size == old(size) && maxsize == 2 * old(maxsize) && peak == old(peak)
      ensures copied == old(copied) + size
      ensures old(IsPow2(maxsize)) ==> IsPow2(maxsize)
      ensures mem.total - Footprint() == old(mem.total - Footprint()) && block != Null
      ensures OnlyTouches(old(mem.blocks), old(block), mem.blocks, block)
    {
      if IsPow2(maxsize) {
        DoublePow2(maxsize);
      }
      maxsize := maxsize * 2;
      var before := data;
      data := new T[maxsize](i reads before => if 0 <= i < before.Length then before[i] else zero);
      block := mem.Reallocate(block, maxsize, elemSize);
      copied := copied + size;
    }

    method Insert(element: T, index: nat)
      requires Valid() && index <= size
      modifies this, data, mem
      ensures Valid() && Contents() == old(Contents())[..index] + [element] + old(Contents())[index..]
      ensures old(Doubling()) ==> Doubling() && peak == if old(peak) > size then old(peak) else size
      ensures mem.total - Footprint() ==
        old(mem.total - Footprint()) + if old(maxsize == 0 && block != Null) then HEADER else 0
      ensures data == old(data) || fresh(data)
      ensures OnlyTouches(old(mem.blocks), old(block), mem.blocks, block)
    {
      ghost var s := Contents();
      Add(element);
      if index < size - 1 {
        ShiftIn(element, index, s);
      }
    }

    /** The loop of `Insert`. */
    method ShiftIn(element: T, index: nat, ghost s: seq<T>)
      requires Valid() && index < |s| == size - 1 && Contents() == s + [element]
      modifies data
      ensures Contents() == s[..index] + [element] + s[index..]
    {
      var i := size;
      while i > 0
        invariant index < i <= size == |s| + 1
        invariant forall k: nat :: k < i ==> data[k] == (s + [element])[k]
        invariant forall k: nat :: i <= k < size ==> data[k] == s[k - 1]
      {
        var ind := i - 1;
        if ind == index {
          data[ind] := element;
          break;
        } else {
          data[ind] := data[ind - 1];
        }
        i := i - 1;
      }
    }

    method Has(element: T) returns (found: bool)
      requires Valid()
      ensures found <==> element in Contents()
    {
      for i := 0 to size
        invariant element !in data[..i]
      {
        if element == data[i] {
          return true;
        }
      }
      return false;
    }

    method Remove(index: nat)
      requires Valid() && index < size
      modifies this`size, data
      ensures Valid() && Contents() == old(Contents())[..index] + old(Contents())[index + 1..]
      ensures old(Doubling()) ==> Doubling()
    {
      ghost var s := Contents();
      if index == size - 1 {
        size := size - 1;
        return;
      }
      for i := index to size - 1
        invariant size == |s| && Valid()
        invariant forall k: nat :: k < index || i <= k < size ==> data[k] == s[k]
        invariant forall k: nat :: index <= k < i ==> data[k] == s[k + 1]
      {
        data[i] := data[i + 1];
      }
      size := size - 1;
    }

    /** ARRLIST_REMOVE_RANGE, which ignores an empty or overlong range. */
    method RemoveRange(first: nat, count: nat)
      requires Valid()
      modifies this`size, data
      ensures Valid()
      ensures Contents() == if count > 0 && first + count <= old(size)
        then old(Contents())[..first] + old(Contents())[first + count..] else old(Contents())
      ensures old(Doubling()) ==> Doubling()
    {
      if count > 0 && first + count <= size {
        Move(data, first, first + count, size - first - count);
        size := size - count;
      }
    }

    method Get(index: nat) returns (element: T)
      requires Valid() && index < size
      ensures element == Contents()[index]
    {
      return data[index];
    }

    method Clear()
      requires Valid()
      modifies this, mem
      ensures Valid() && Contents() == [] && Doubling() && Footprint() == 0 && peak == 0
      ensures mem.total == old(mem.total - Footprint()) && fresh(data) && block == Null
      ensures OnlyTouches(old(mem.blocks), old(block), mem.blocks, block)
    {
      mem.Free(block);
      block := Null;
      data := new T[0];
      size, maxsize, peak, copied := 0, 0, 0, 0;
    }

    method Wipe()
      requires Valid()
      modifies this`size
      ensures Valid() && Contents() == [] && data == old(data)
      ensures old(Doubling()) ==> Doubling()
    {
      size := 0;
    }
  }

  // ---------- runs ----------

  datatype Edit<T> =
    | AddEdit(element: T)
    | InsertEdit(element: T, index: nat)
    | RemoveEdit(index: nat)
    | RemoveRangeEdit(first: nat, count: nat)
    | WipeEdit

  /** An index outside the list is fatal. */
  predicate Allowed<T>(s: seq<T>, e: Edit<T>) {
    match e
    case InsertEdit(_, index) => index <= |s|
    case RemoveEdit(index) => index < |s|
    case _ => true
  }

  function Edited<T>(s: seq<T>, e: Edit<T>): seq<T>
    requires Allowed(s, e)
  {
    match e
    case AddEdit(x) => s + [x]
    case InsertEdit(x, i) => s[..i] + [x] + s[i..]
    case RemoveEdit(i) => s[..i] + s[i + 1..]
    case RemoveRangeEdit(i, n) => if n > 0 && i + n <= |s| then s[..i] + s[i + n..] else s
    case WipeEdit => []
  }

  predicate AllAllowed<T>(s: seq<T>, es: seq<Edit<T>>)
    decreases |es|
  {
    es == [] || (Allowed(s, es[0]) && AllAllowed(Edited(s, es[0]), es[1..]))
  }

  function EditedAll<T>(s: seq<T>, es: seq<Edit<T>>): seq<T>
    requires AllAllowed(s, es)
    decreases |es|
  {
    if es == [] then s else EditedAll(Edited(s, es[0]), es[1..])
  }

  /** The largest size on the way, counting from `peak`. */
  function PeakSize<T>(s: seq<T>, es: seq<Edit<T>>, peak: nat): nat
    requires AllAllowed(s, es)
    decreases |es|
  {
    if es == [] then peak
    else
      var r := Edited(s, es[0]);
      PeakSize(r, es[1..], if peak > |r| then peak else |r|)
  }

  method Perform<T>(list: ArrayList<T>, e: Edit<T>)
    requires list.Valid() && list.Doubling() && Allowed(list.Contents(), e)
    modifies list, list.data, list.mem
    ensures list.Valid() && list.Doubling() && list.Contents() == Edited(old(list.Contents()), e)
    ensures list.peak == if old(list.peak) > list.size then old(list.peak) else list.size
    ensures list.mem.total - list.Footprint() == old(list.mem.total - list.Footprint())
    ensures OnlyTouches(old(list.mem.blocks), old(list.block), list.mem.blocks, list.block)
    ensures list.data == old(list.data) || fresh(list.data)
  {
    match e
    case AddEdit(x) => list.Add(x);
    case InsertEdit(x, i) => list.Insert(x, i);
    case RemoveEdit(i) => list.Remove(i);
    case RemoveRangeEdit(i, n) => list.RemoveRange(i, n);
    case WipeEdit => list.Wipe();
  }

  /** Any run of edits on a list grown from empty: contents, growth and the allocator's total. */
  method PerformAll<T>(list: ArrayList<T>, es: seq<Edit<T>>)
    requires list.Valid() && list.Doubling() && AllAllowed(list.Contents(), es)
    modifies list, list.data, list.mem
    ensures list.Valid() && list.Doubling() && list.Contents() == EditedAll(old(list.Contents()), es)
    ensures list.peak == PeakSize(old(list.Contents()), es, old(list.peak))
    ensures list.mem.total - list.Footprint() == old(list.mem.total - list.Footprint())
    ensures OnlyTouches(old(list.mem.blocks), old(list.block), list.mem.blocks, list.block)
    ensures list.data == old(list.data) || fresh(list.data)
    decreases |es|
  {
    if es != [] {
      Perform(list, es[0]);
      ghost var b, q := list.mem.blocks, list.block;
      PerformAll(list, es[1..]);
      OnlyTouchesTransitive(old(list.mem.blocks), old(list.block), b, q, list.mem.blocks, list.block);
    }
  }

  /** A list's whole life: whatever was done to it, clearing it leaves the allocator as it was. */
  method WholeLife<T(==)>(mem: Memory, elemSize: nat, zero: T, es: seq<Edit<T>>)
    requires mem.Valid() && AllAllowed([], es)
    modifies mem
    ensures mem.Valid() && mem.total == old(mem.total)
    ensures old(mem.blocks) <= mem.blocks
  {
    var list := new ArrayList(mem, elemSize, zero);
    PerformAll(list, es);
    list.Clear();
  }

  /** Two lists side by side on one allocator. */
  method AddToBoth<T>(a: ArrayList<T>, b: ArrayList<T>, x: T, y: T)
    requires a.Valid() && b.Valid() && a != b && a.mem == b.mem && a.data != b.data
    requires a.block == Null || a.block != b.block
    modifies a, a.data, b, b.data, a.mem
    ensures a.Valid() && b.Valid() && a.data != b.data && (a.block == Null || a.block != b.block)
    ensures a.Contents() == old(a.Contents()) + [x] && b.Contents() == old(b.Contents()) + [y]
  {
    a.Add(x);
    assert b.Valid() && (b.block == Null || b.block != a.block);
    b.Add(y);
  }

  /** The 8 bytes a `Zero(0)` followed by an `Add` loses, at their smallest. */
  method ZeroThenAddLosesBlock<T(==)>(elemSize: nat, zero: T, x: T) returns (mem: Memory)
    ensures fresh(mem) && mem.Valid() && mem.total == 8
  {
    mem := new Memory();
    var list := new ArrayList(mem, elemSize, zero);
    list.Zero(0);
    list.Add(x);
    list.Clear();
  }

  /** memmove within one array. */
  method Move<T>(a: array<T>, to: nat, from: nat, n: nat)
    requires to + n <= a.Length && from + n <= a.Length
    modifies a
    ensures a[..to + n] == old(a[..to]) + old(a[from..from + n]) && a[to + n..] == old(a[to + n..])
  {
    forall k | 0 <= k < n {
      a[to + k] := a[from + k];
    }
  }

  /** Regrowth copies fewer elements than twice the peak, and the capacity is the least that could do. */
  lemma GrowthIsAmortized<T>(list: ArrayList<T>, d: nat)
    requires list.Doubling()
    ensures list.peak > 0 ==> list.copied < 2 * list.peak
    ensures list.maxsize > 0 && IsPow2(d) && list.peak <= d ==> list.maxsize <= d
  {
    if list.maxsize > 0 && IsPow2(d) && list.peak <= d {
      LeastPow2(list.maxsize, d, list.peak);
    }
  }
}
