/** The allocator of easymemory: size headers, zero filling and the running total. */
module Allocation {
  import opened Bits

  /** sizeof(size_t), the room of the header. */
  const HEADER: nat := 8

  /** A block once handed out; `header` counts the bytes and itself. */
  datatype Block = Freed | Live(header: nat, bytes: seq<Byte>)

  datatype Pointer = Null | At(id: nat)

  function Zeros(n: nat): (s: seq<Byte>)
    ensures |s| == n && forall i: nat :: i < n ==> s[i] == 0
  {
    seq(n, _ => 0)
  }

  function HeaderOf(b: Block): nat {
    match b
    case Freed => 0
    case Live(h, _) => h
  }

  function LiveBytes(blocks: seq<Block>): nat {
    if blocks == [] then 0 else LiveBytes(blocks[..|blocks| - 1]) + HeaderOf(blocks[|blocks| - 1])
  }

  lemma {:induction false} LiveBytesUpdate(blocks: seq<Block>, p: nat, b: Block)
    requires p < |blocks|
    ensures LiveBytes(blocks[p := b]) + HeaderOf(blocks[p]) == LiveBytes(blocks) + HeaderOf(b)
  {
    var n := |blocks| - 1;
    if p == n {
      assert blocks[p := b][..n] == blocks[..n];
    } else {
      assert blocks[p := b][..n] == blocks[..n][p := b];
      LiveBytesUpdate(blocks[..n], p, b);
    }
  }

  lemma LiveBytesAppend(blocks: seq<Block>, b: Block)
    ensures LiveBytes(blocks + [b]) == LiveBytes(blocks) + HeaderOf(b)
  {
    assert (blocks + [b])[..|blocks|] == blocks;
  }

  /** No live block is larger than the total, so giving one back never wraps the counter. */
  lemma BlockIsCounted(blocks: seq<Block>, p: nat)
    requires p < |blocks|
    ensures HeaderOf(blocks[p]) <= LiveBytes(blocks)
  {
    LiveBytesUpdate(blocks, p, Freed);
  }

  /** Of the blocks of `before`, only that of `p` may have changed, and `q` is `p`, null or a new block. */
  predicate OnlyTouches(before: seq<Block>, p: Pointer, after: seq<Block>, q: Pointer) {
    && |before| <= |after|
    && (forall i: nat :: i < |before| && At(i) != p ==> after[i] == before[i])
    && (q == p || q == Null || q.id >= |before|)
  }

  /** A block that is followed from `p` to `q` to `r` keeps clear of all others. */
  lemma OnlyTouchesTransitive(a: seq<Block>, p: Pointer, b: seq<Block>, q: Pointer, c: seq<Block>, r: Pointer)
    requires OnlyTouches(a, p, b, q) && OnlyTouches(b, q, c, r)
    ensures OnlyTouches(a, p, c, r)
  {
    forall i: nat | i < |a| && At(i) != p ensures c[i] == a[i] {
      assert b[i] == a[i] && At(i) != q;
    }
  }

  /** What `ez_reallocate` leaves in a block: the old bytes as far as they fit, then zeros. */
  function Resized(bytes: seq<Byte>, n: nat): (r: seq<Byte>)
    ensures |r| == n
    ensures forall k: nat :: k < n ==> r[k] == if k < |bytes| then bytes[k] else 0
  {
    if n <= |bytes| then bytes[..n] else bytes + Zeros(n - |bytes|)
  }

  class Memory {
    var total: nat
    var blocks: seq<Block>

    /** The total is the sum of the headers of the live blocks. */
    ghost predicate Valid()
      reads this
    {
      && total == LiveBytes(blocks)
      && forall p: nat :: p < |blocks| && blocks[p].Live? ==> blocks[p].header == |blocks[p].bytes| + HEADER
    }

    predicate IsLive(p: Pointer)
      reads this
    {
      p.At? && p.id < |blocks| && blocks[p.id].Live?
    }

    constructor ()
      ensures Valid() && total == 0 && blocks == []
    {
      total, blocks := 0, [];
    }

    method Allocate(amount: nat, size: nat) returns (p: Pointer)
      requires Valid()
      modifies this
      ensures Valid() && p == At(|old(blocks)|)
      ensures blocks == old(blocks) + [Live(amount * size + HEADER, Zeros(amount * size))]
      ensures total == old(total) + amount * size + HEADER
    {
      LiveBytesAppend(blocks, Live(amount * size + HEADER, Zeros(amount * size)));
      total := total + (amount * size + HEADER);
      p := At(|blocks|);
      blocks := blocks + [Live(amount * size + HEADER, Zeros(amount * size))];
    }

    /** The C library's realloc: of the new bytes only the common prefix is known. */
    static method SystemRealloc(bytes: seq<Byte>, n: nat) returns (r: seq<Byte>)
      ensures |r| == n
      ensures if n <= |bytes| then r == bytes[..n] else r[..|bytes|] == bytes
    {
      if n <= |bytes| {
        return bytes[..n];
      }
      r := bytes + seq(n - |bytes|, _ => 255);
    }

    /** The block may move, so it gets a new identity. */
    method Reallocate(p: Pointer, amount: nat, size: nat) returns (q: Pointer)
      requires Valid() && IsLive(p)
      modifies this
      ensures Valid() && q == At(|old(blocks)|)
      ensures blocks == old(blocks)[p.id := Freed] +
        [Live(amount * size + HEADER, Resized(old(blocks[p.id].bytes), amount * size))]
      ensures IsLive(q) && |blocks[q.id].bytes| == amount * size
      ensures var before, after := old(blocks[p.id].bytes), blocks[q.id].bytes;
        forall k: nat :: k < |after| ==> after[k] == if k < |before| then before[k] else 0
      ensures total + old(blocks[p.id].header) == old(total) + amount * size + HEADER
    {
      var before := blocks[p.id].bytes;
      var ptrsize, newsize := blocks[p.id].header, amount * size + HEADER;
      var bytes := SystemRealloc(before, newsize - HEADER);
      if newsize > ptrsize {
        bytes := bytes[..ptrsize - HEADER] + Zeros(newsize - ptrsize);
      }
      BlockIsCounted(blocks, p.id);
      LiveBytesUpdate(blocks, p.id, Freed);
      LiveBytesAppend(blocks[p.id := Freed], Live(newsize, bytes));
      q := At(|blocks|);
      blocks := blocks[p.id := Freed] + [Live(newsize, bytes)];
      total := total - ptrsize;
      total := total + newsize;
    }

    method Free(p: Pointer)
      requires Valid() && (p == Null || IsLive(p))
      modifies this
      ensures Valid()
      ensures p == Null ==> blocks == old(blocks) && total == old(total)
      ensures p != Null ==> blocks == old(blocks)[p.id := Freed] && total + old(blocks[p.id].header) == old(total)
    {
      if p == Null {
        return;
      }
      BlockIsCounted(blocks, p.id);
      LiveBytesUpdate(blocks, p.id, Freed);
      total := total - blocks[p.id].header;
      blocks := blocks[p.id := Freed];
    }
  }
}
