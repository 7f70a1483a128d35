/**
 The open-addressing table behind HASHMAP_name as a value: slots, probing,
 non-growing insertion, growth and removal, and the invariant they keep.
 */
module HashTable {
  import opened Bits

  datatype Option<+T> = None | Some(value: T)

  /** `used` is 0, 1 or 2; the key and value of a dead slot are never read again. */
  datatype Slot<K, V> = Empty | Live(key: K, value: V) | Dead(key: K, value: V)

  datatype Table<K, V> = Table(slots: seq<Slot<K, V>>, size: nat, tombstones: nat)

  // ---------- circular positions ----------

  /** The slot `t` steps after `i` in a circle of `c` slots. */
  function At(i: nat, t: nat, c: nat): (r: nat)
    requires i < c && t <= c
    ensures r < c
    ensures t == c ==> r == i
  {
    if i + t < c then i + t else i + t - c
  }

  /** `t` rounds of `index = (index + 1) & (capacity - 1)`. */
  function Walk(i: nat, t: nat, c: nat): nat
    requires c > 0
  {
    if t == 0 then i else And(Walk(i, t - 1, c) + 1, c - 1)
  }

  lemma {:induction false} WalkIsAt(i: nat, t: nat, c: nat)
    requires IsPow2(c) && i < c && t <= c
    ensures Walk(i, t, c) == At(i, t, c)
  {
    if t == 0 {
      return;
    }
    var j := At(i, t - 1, c);
    WalkIsAt(i, t - 1, c);
    MaskedStep(j, c);
    assert Walk(i, t, c) == And(j + 1, c - 1);
  }

  /** From any start, `capacity` steps visit every slot exactly once. */
  lemma WalkVisitsEachSlotOnce(i: nat, j: nat, c: nat) returns (t: nat)
    requires IsPow2(c) && i < c && j < c
    ensures t < c && Walk(i, t, c) == j
    ensures forall u: nat :: u < c && Walk(i, u, c) == j ==> u == t
    ensures Walk(i, c, c) == i
  {
    t := Offset(i, j, c);
    WalkIsAt(i, t, c);
    WalkIsAt(i, c, c);
    forall u: nat | u < c && Walk(i, u, c) == j ensures u == t {
      WalkIsAt(i, u, c);
    }
  }

  /** How far `j` lies after `i`. */
  function Offset(i: nat, j: nat, c: nat): (t: nat)
    requires i < c && j < c
    ensures t < c && At(i, t, c) == j
  {
    if j >= i then j - i else j - i + c
  }

  /** `hashfunc(key) & (capacity - 1)`. */
  function Home<K>(hash: K -> nat, key: K, c: nat): (i: nat)
    requires c > 0
    ensures i < c
    ensures IsPow2(c) ==> i == hash(key) % c
  {
    assert IsPow2(c) ==> And(hash(key), c - 1) == hash(key) % c by {
      if IsPow2(c) {
        var k: nat :| c == Pow2(k);
        MaskIsMod(hash(key), k);
      }
    }
    And(hash(key), c - 1)
  }

  // ---------- slots ----------

  function SlotAt<K, V>(s: seq<Slot<K, V>>, i: nat, t: nat): Slot<K, V>
    requires i < |s| && t < |s|
  {
    s[At(i, t, |s|)]
  }

  predicate Holds<K(==), V>(slot: Slot<K, V>, key: K) {
    slot.Live? && slot.key == key
  }

  function LiveCount<K, V>(s: seq<Slot<K, V>>): (n: nat)
    ensures n <= |s|
  {
    if s == [] then 0
    else LiveCount(s[..|s| - 1]) + if s[|s| - 1].Live? then 1 else 0
  }

  function DeadCount<K, V>(s: seq<Slot<K, V>>): (n: nat)
    ensures LiveCount(s) + n <= |s|
  {
    if s == [] then 0
    else DeadCount(s[..|s| - 1]) + if s[|s| - 1].Dead? then 1 else 0
  }

  lemma {:induction false} CountUpdate<K, V>(s: seq<Slot<K, V>>, j: nat, x: Slot<K, V>)
    requires j < |s|
    ensures LiveCount(s[j := x]) + (if s[j].Live? then 1 else 0) == LiveCount(s) + (if x.Live? then 1 else 0)
    ensures DeadCount(s[j := x]) + (if s[j].Dead? then 1 else 0) == DeadCount(s) + (if x.Dead? then 1 else 0)
  {
    var n := |s| - 1;
    if j == n {
      assert s[j := x][..n] == s[..n];
    } else {
      assert s[j := x][..n] == s[..n][j := x];
      CountUpdate(s[..n], j, x);
    }
  }

  lemma {:induction false} EmptySlotExists<K, V>(s: seq<Slot<K, V>>)
    requires LiveCount(s) + DeadCount(s) < |s|
    ensures exists j: nat :: j < |s| && s[j].Empty?
  {
    var n := |s| - 1;
    if s[n].Empty? {
    } else {
      EmptySlotExists(s[..n]);
      var j: nat :| j < n && s[..n][j].Empty?;
      assert s[j].Empty?;
    }
  }

  lemma {:induction false} AllEmptyCounts<K, V>(s: seq<Slot<K, V>>)
    requires forall j: nat :: j < |s| ==> s[j].Empty?
    ensures LiveCount(s) == 0 && DeadCount(s) == 0
  {
    if s != [] {
      AllEmptyCounts(s[..|s| - 1]);
    }
  }

  // ---------- invariant ----------

  /** No empty slot lies between the home of a live entry and its slot. */
  ghost predicate Chain<K(!new), V>(s: seq<Slot<K, V>>, hash: K -> nat) {
    |s| > 0 ==>
      forall k: K, t: nat, u: nat {:trigger SlotAt(s, Home(hash, k, |s|), t), SlotAt(s, Home(hash, k, |s|), u)} ::
        t < u < |s| && Holds(SlotAt(s, Home(hash, k, |s|), u), k) ==> !SlotAt(s, Home(hash, k, |s|), t).Empty?
  }

  /** Capacity shape, counters and load. `tombstones` is free while there is no table. */
  ghost predicate Counted<K, V>(t: Table<K, V>) {
    if |t.slots| == 0 then t.size == 0
    else
      && IsPow2(|t.slots|) && |t.slots| >= 2
      && t.size == LiveCount(t.slots)
      && DeadCount(t.slots) <= t.tombstones
      && 10 * (t.size + t.tombstones) <= 7 * |t.slots|
  }

  ghost predicate Inv<K(!new), V>(t: Table<K, V>, hash: K -> nat) {
    Counted(t) && Chain(t.slots, hash)
  }

  function EmptyTable<K, V>(): Table<K, V> {
    Table([], 0, 0)
  }

  // ---------- the load test ----------

  predicate NeedsGrowth<K, V>(t: Table<K, V>) {
    |t.slots| == 0 || 10 * (t.size + t.tombstones + 1) > 7 * |t.slots|
  }

  /** The double nearest to 0.7 is this many units of 2^-53. */
  const SEVEN_TENTHS: nat := 6305039478318694

  /** How far `m` units are from 0.7, in tenths of a unit. */
  function Distance(m: nat): nat {
    var d := 10 * m - 7 * Pow2(53);
    if d < 0 then -d else d
  }

  /** The doubles from 1/2 on below 1 are the multiples of the unit, and no other one is as near to 0.7. */
  lemma SevenTenthsIsNearest(m: nat)
    ensures Pow2(53) <= 2 * SEVEN_TENTHS && SEVEN_TENTHS < Pow2(53)
    ensures m != SEVEN_TENTHS ==> Distance(SEVEN_TENTHS) < Distance(m)
  {
    Pow2Of53();
  }

  /** `(double)n / capacity > 0.7`, the quotient being exact for a power of two. */
  ghost predicate LoadTest(n: nat, c: nat)
    requires c > 0
  {
    n as real / c as real > SEVEN_TENTHS as real / Pow2(53) as real
  }

  /** Comparing with the double 0.7 is the integer test of `NeedsGrowth`. */
  lemma LoadTestIsExact<K, V>(t: Table<K, V>, k: nat)
    requires k <= 53 && |t.slots| == Pow2(k)
    ensures LoadTest(t.size + t.tombstones + 1, |t.slots|) <==> NeedsGrowth(t)
  {
    var n, p, c := t.size + t.tombstones + 1, Pow2(53 - k), Pow2(k);
    Pow2Add(53 - k, k);
    Pow2Of53();
    CrossMultiply(n, c, SEVEN_TENTHS, p);
    ScaleComparison(10 * n, 7 * c, p);
    Rearrange(n, c, p);
  }

  lemma CrossMultiply(n: nat, c: nat, m: nat, p: nat)
    requires c > 0 && p > 0
    ensures n as real / c as real > m as real / (p * c) as real <==> p * n > m
  {
    var x, y, q := n as real, c as real, p as real;
    assert (p * c) as real == q * y;
    assert x / y == (q * x) / (q * y);
    var d, z := q * y, q * x;
    assert d > 0.0;
    assert z == (p * n) as real;
    assert z / d * d == z && (m as real / d) * d == m as real;
  }

  lemma ScaleComparison(a: nat, b: nat, p: nat)
    requires p > 0
    ensures a > b <==> p * a > p * b
  {
    if a > b {
      assert p * (a - b) > 0;
    } else {
      assert p * (b - a) >= 0;
    }
  }

  lemma Rearrange(n: nat, c: nat, p: nat)
    ensures p * (10 * n) == 10 * (p * n)
    ensures p * (7 * c) == 7 * (p * c)
  {
  }

  lemma {:induction false} Pow2Add(a: nat, b: nat)
    ensures Pow2(a) * Pow2(b) == Pow2(a + b)
  {
    if a > 0 {
      Pow2Add(a - 1, b);
      assert 2 * Pow2(a - 1) * Pow2(b) == 2 * (Pow2(a - 1) * Pow2(b));
    }
  }

  lemma Pow2Of53()
    ensures Pow2(53) == 9007199254740992
  {
    assert Pow2(10) == 1024;
    assert Pow2(20) == 1048576 by { Pow2Add(10, 10); }
    assert Pow2(40) == 1099511627776 by { Pow2Add(20, 20); }
    assert Pow2(50) == 1125899906842624 by { Pow2Add(40, 10); }
  }

  // ---------- probing ----------

  /** The first offset from `t` on that is not live or holds `key`: where `set` stops. */
  function Stop<K(==), V>(s: seq<Slot<K, V>>, home: nat, t: nat, key: K): (r: nat)
    requires home < |s| && t <= |s|
    ensures t <= r <= |s|
    decreases |s| - t
  {
    if t == |s| || !SlotAt(s, home, t).Live? || SlotAt(s, home, t).key == key then t
    else Stop(s, home, t + 1, key)
  }

  /** The first offset from `t` on that is empty or holds `key`: where the searches stop. */
  function Seek<K(==), V>(s: seq<Slot<K, V>>, home: nat, t: nat, key: K): (r: nat)
    requires home < |s| && t <= |s|
    ensures t <= r <= |s|
    decreases |s| - t
  {
    if t == |s| || SlotAt(s, home, t).Empty? || Holds(SlotAt(s, home, t), key) then t
    else Seek(s, home, t + 1, key)
  }

  lemma {:induction false} StopIsFirst<K, V>(s: seq<Slot<K, V>>, home: nat, t: nat, key: K)
    requires home < |s| && t <= |s|
    ensures var r := Stop(s, home, t, key);
      && (forall u: nat :: t <= u < r ==> SlotAt(s, home, u).Live? && SlotAt(s, home, u).key != key)
      && (r < |s| ==> !SlotAt(s, home, r).Live? || SlotAt(s, home, r).key == key)
    decreases |s| - t
  {
    if Stop(s, home, t, key) != t {
      StopIsFirst(s, home, t + 1, key);
    }
  }

  lemma {:induction false} SeekIsFirst<K, V>(s: seq<Slot<K, V>>, home: nat, t: nat, key: K)
    requires home < |s| && t <= |s|
    ensures var r := Seek(s, home, t, key);
      && (forall u: nat :: t <= u < r ==> !SlotAt(s, home, u).Empty? && !Holds(SlotAt(s, home, u), key))
      && (r < |s| ==> SlotAt(s, home, r).Empty? || Holds(SlotAt(s, home, r), key))
    decreases |s| - t
  {
    if Seek(s, home, t, key) != t {
      SeekIsFirst(s, home, t + 1, key);
    }
  }

  /** Every probe loop ends within `capacity` steps, because the load bound leaves an empty slot. */
  lemma ProbesTerminate<K(!new), V>(t: Table<K, V>, home: nat, key: K)
    requires Counted(t) && home < |t.slots|
    ensures Stop(t.slots, home, 0, key) < |t.slots|
    ensures Seek(t.slots, home, 0, key) < |t.slots|
  {
    EmptySlotExists(t.slots);
    var j: nat :| j < |t.slots| && t.slots[j].Empty?;
    var u := Offset(home, j, |t.slots|);
    assert SlotAt(t.slots, home, u).Empty?;
    StopIsFirst(t.slots, home, 0, key);
    SeekIsFirst(t.slots, home, 0, key);
  }

  /** The probe loop of `set` has come to offset `u`, at slot `index`. */
  ghost predicate Stopping<K, V>(s: seq<Slot<K, V>>, home: nat, u: nat, key: K, index: nat)
    requires home < |s|
  {
    u <= Stop(s, home, 0, key) < |s| && Stop(s, home, u, key) == Stop(s, home, 0, key) && index == At(home, u, |s|)
  }

  lemma StoppingStep<K, V>(s: seq<Slot<K, V>>, home: nat, u: nat, key: K, index: nat)
    requires home < |s| && Stopping(s, home, u, key, index) && IsPow2(|s|)
    ensures if s[index].Live? && s[index].key != key
      then u + 1 < |s| && Stopping(s, home, u + 1, key, And(index + 1, |s| - 1))
      else u == Stop(s, home, 0, key)
  {
    MaskedStep(index, |s|);
  }

  /** The loop of the searches has come to offset `u`, at slot `index`. */
  ghost predicate Seeking<K, V>(s: seq<Slot<K, V>>, home: nat, u: nat, key: K, index: nat)
    requires home < |s|
  {
    u <= Seek(s, home, 0, key) < |s| && Seek(s, home, u, key) == Seek(s, home, 0, key) && index == At(home, u, |s|)
  }

  lemma SeekingStep<K, V>(s: seq<Slot<K, V>>, home: nat, u: nat, key: K, index: nat)
    requires home < |s| && Seeking(s, home, u, key, index) && IsPow2(|s|)
    ensures if s[index].Empty? || Holds(s[index], key) then u == Seek(s, home, 0, key)
      else u + 1 < |s| && Seeking(s, home, u + 1, key, And(index + 1, |s| - 1))
  {
    MaskedStep(index, |s|);
  }

  // ---------- operations ----------

  /** The slot `set` writes when it does not grow. */
  function Target<K(!new, ==), V>(t: Table<K, V>, hash: K -> nat, key: K): (j: nat)
    requires Counted(t) && |t.slots| > 0
    ensures j < |t.slots|
  {
    var home := Home(hash, key, |t.slots|);
    ProbesTerminate(t, home, key);
    At(home, Stop(t.slots, home, 0, key), |t.slots|)
  }

  /** `set` without its growth branch. */
  function Put<K(!new, ==), V>(t: Table<K, V>, hash: K -> nat, key: K, value: V): (r: Table<K, V>)
    requires Counted(t) && |t.slots| > 0
    ensures |r.slots| == |t.slots|
  {
    var j := Target(t, hash, key);
    Table(t.slots[j := Live(key, value)], if t.slots[j].Live? then t.size else t.size + 1, t.tombstones)
  }

  /** `set`, growth included. */
  function Set<K(!new, ==), V>(t: Table<K, V>, hash: K -> nat, key: K, value: V): (r: Table<K, V>)
    requires Inv(t, hash)
    ensures Inv(r, hash) && |r.slots| > 0
  {
    var base := if NeedsGrowth(t) then Rehash(t, hash) else t;
    PutKeepsInv(base, hash, key, value);
    Put(base, hash, key, value)
  }

  /** `set` without growth writes the first slot in probe order that is not live or holds the key, and no other. */
  lemma PutIsFirstFit<K(!new), V>(t: Table<K, V>, hash: K -> nat, key: K, value: V) returns (u: nat)
    requires Counted(t) && |t.slots| > 0
    ensures u < |t.slots|
    ensures var s, h := t.slots, Home(hash, key, |t.slots|);
      && (forall w: nat :: w < u ==> SlotAt(s, h, w).Live? && SlotAt(s, h, w).key != key)
      && (!SlotAt(s, h, u).Live? || SlotAt(s, h, u).key == key)
      && Put(t, hash, key, value) ==
         Table(s[At(h, u, |s|) := Live(key, value)], if SlotAt(s, h, u).Live? then t.size else t.size + 1, t.tombstones)
  {
    var h := Home(hash, key, |t.slots|);
    ProbesTerminate(t, h, key);
    StopIsFirst(t.slots, h, 0, key);
    u := Stop(t.slots, h, 0, key);
  }

  function NewCapacity(c: nat): nat {
    if c == 0 then 2 else 2 * c
  }

  function Blank<K, V>(c: nat): (r: Table<K, V>)
    ensures |r.slots| == c && forall j: nat :: j < c ==> r.slots[j].Empty?
  {
    Table(seq(c, _ => Empty), 0, 0)
  }

  /** Growth: a table twice as large, refilled in slot order. */
  function Rehash<K(!new, ==), V>(t: Table<K, V>, hash: K -> nat): (r: Table<K, V>)
    requires Inv(t, hash) && NeedsGrowth(t)
    ensures Inv(r, hash) && !NeedsGrowth(r) && |r.slots| == NewCapacity(|t.slots|)
    ensures r.tombstones == 0
  {
    BlankIsFresh<K, V>(t, hash);
    Refill(t.slots, |t.slots|, Blank(NewCapacity(|t.slots|)), hash)
  }

  /** A table that can still take every live slot of `s` without growing. */
  ghost predicate HasRoomFor<K(!new), V>(t: Table<K, V>, hash: K -> nat, n: nat) {
    && Inv(t, hash) && |t.slots| > 0 && t.tombstones == 0
    && 10 * (t.size + n) <= 7 * |t.slots|
  }

  lemma BlankIsFresh<K(!new), V>(t: Table<K, V>, hash: K -> nat)
    requires Inv(t, hash)
    ensures var b := Blank<K, V>(NewCapacity(|t.slots|)); Counted(b) && HasRoomFor(b, hash, LiveCount(t.slots))
    ensures 10 * (LiveCount(t.slots) + 1) <= 7 * NewCapacity(|t.slots|)
  {
    var b := Blank<K, V>(NewCapacity(|t.slots|));
    AllEmptyCounts(b.slots);
    assert IsPow2(|b.slots|) by {
      if |t.slots| == 0 {
        assert 2 == Pow2(1);
      } else {
        DoublePow2(|t.slots|);
      }
    }
  }

  /** Growth doubles, from 2 on, and only when the load asks for it. */
  lemma GrowthDoubles<K(!new), V>(t: Table<K, V>, hash: K -> nat, key: K, value: V)
    requires Inv(t, hash)
    ensures var r := Set(t, hash, key, value);
      && |r.slots| == (if !NeedsGrowth(t) then |t.slots| else if |t.slots| == 0 then 2 else 2 * |t.slots|)
      && (NeedsGrowth(t) && |t.slots| > 0 ==> 7 * |r.slots| < 20 * (t.size + t.tombstones + 1))
      && r.tombstones == if NeedsGrowth(t) then 0 else t.tombstones
  {
  }

  /** The re-insertion loop: the live slots among the first `n` of `s`, in slot order. */
  function Refill<K(!new, ==), V>(s: seq<Slot<K, V>>, n: nat, t: Table<K, V>, hash: K -> nat): (r: Table<K, V>)
    requires n <= |s| && HasRoomFor(t, hash, LiveCount(s[..n]))
    ensures Inv(r, hash) && |r.slots| == |t.slots| && r.tombstones == 0
    ensures r.size <= t.size + LiveCount(s[..n])
    decreases n
  {
    if n == 0 then t
    else
      assert s[..n][..n - 1] == s[..n - 1];
      var r := Refill(s, n - 1, t, hash);
      if s[n - 1].Live? then
        assert !NeedsGrowth(r);
        PutKeepsInv(r, hash, s[n - 1].key, s[n - 1].value);
        Put(r, hash, s[n - 1].key, s[n - 1].value)
      else r
  }

  lemma {:induction false} LiveCountPrefix<K, V>(s: seq<Slot<K, V>>, n: nat)
    requires n <= |s|
    ensures LiveCount(s[..n]) <= LiveCount(s)
    ensures n < |s| && s[n].Live? ==> LiveCount(s[..n]) < LiveCount(s)
  {
    if n == |s| {
      assert s[..n] == s;
    } else {
      var m := |s| - 1;
      assert s[..m][..n] == s[..n];
      LiveCountPrefix(s[..m], n);
    }
  }

  /** One round of the growth loop: its recursive `set` never grows again. */
  lemma ReinsertionNeverGrows<K(!new), V>(t: Table<K, V>, hash: K -> nat, n: nat)
    requires Inv(t, hash) && NeedsGrowth(t) && n < |t.slots|
    ensures var b := Blank<K, V>(NewCapacity(|t.slots|));
      && HasRoomFor(b, hash, LiveCount(t.slots[..n])) && HasRoomFor(b, hash, LiveCount(t.slots[..n + 1]))
      && var r := Refill(t.slots, n, b, hash);
        if t.slots[n].Live? then
          !NeedsGrowth(r) && Set(r, hash, t.slots[n].key, t.slots[n].value) == Refill(t.slots, n + 1, b, hash)
        else r == Refill(t.slots, n + 1, b, hash)
  {
    BlankIsFresh<K, V>(t, hash);
    LiveCountPrefix(t.slots, n);
    LiveCountPrefix(t.slots, n + 1);
  }

  lemma PutKeepsInv<K(!new), V>(t: Table<K, V>, hash: K -> nat, key: K, value: V)
    requires Inv(t, hash) && !NeedsGrowth(t)
    ensures Inv(Put(t, hash, key, value), hash)
  {
    var j, r := Target(t, hash, key), Put(t, hash, key, value);
    CountUpdate(t.slots, j, Live(key, value));
    var c, s, s' := |t.slots|, t.slots, r.slots;
    var home := Home(hash, key, c);
    var w := Stop(s, home, 0, key);
    StopIsFirst(s, home, 0, key);
    forall k: K, a: nat, u: nat | a < u < c && Holds(SlotAt(s', Home(hash, k, c), u), k)
      ensures !SlotAt(s', Home(hash, k, c), a).Empty?
    {
      var h := Home(hash, k, c);
      if At(h, u, c) == j {
        assert k == key && u == w;
        assert SlotAt(s, home, a).Live?;
      } else {
        assert SlotAt(s, h, u) == SlotAt(s', h, u);
        assert !SlotAt(s, h, a).Empty?;
      }
    }
  }

  /** The slot `has`, `get`, `ref` and `remove` find, if any. */
  function Find<K(!new, ==), V>(t: Table<K, V>, hash: K -> nat, key: K): (r: Option<nat>)
    requires Counted(t)
    ensures r.Some? ==> r.value < |t.slots| && Holds(t.slots[r.value], key)
  {
    if |t.slots| == 0 then None
    else
      var home := Home(hash, key, |t.slots|);
      ProbesTerminate(t, home, key);
      SeekIsFirst(t.slots, home, 0, key);
      var j := At(home, Seek(t.slots, home, 0, key), |t.slots|);
      if t.slots[j].Empty? then None else Some(j)
  }

  /** What `get` answers, if `has` is true. */
  function Answer<K(!new, ==), V>(t: Table<K, V>, hash: K -> nat, key: K): Option<V>
    requires Counted(t)
  {
    match Find(t, hash, key)
    case None => None
    case Some(j) => Some(t.slots[j].value)
  }

  function Remove<K(!new, ==), V>(t: Table<K, V>, hash: K -> nat, key: K): (r: Table<K, V>)
    requires Inv(t, hash) && Find(t, hash, key).Some?
    ensures Inv(r, hash)
  {
    var j := Find(t, hash, key).value;
    RemoveKeepsInv(t, hash, key);
    Table(t.slots[j := Dead(t.slots[j].key, t.slots[j].value)], t.size - 1, t.tombstones + 1)
  }

  /** `remove` turns the first slot in probe order that holds the key into a dead one, and touches no other. */
  lemma RemoveMarksFirst<K(!new), V>(t: Table<K, V>, hash: K -> nat, key: K) returns (u: nat)
    requires Inv(t, hash) && Find(t, hash, key).Some?
    ensures u < |t.slots| && t.size > 0
    ensures var s, h := t.slots, Home(hash, key, |t.slots|);
      && (forall w: nat :: w < u ==> !Holds(SlotAt(s, h, w), key))
      && Holds(SlotAt(s, h, u), key)
      && Remove(t, hash, key) ==
         Table(s[At(h, u, |s|) := Dead(key, SlotAt(s, h, u).value)], t.size - 1, t.tombstones + 1)
  {
    var h := Home(hash, key, |t.slots|);
    RemoveKeepsInv(t, hash, key);
    ProbesTerminate(t, h, key);
    SeekIsFirst(t.slots, h, 0, key);
    u := Seek(t.slots, h, 0, key);
  }

  /** A write through the pointer that `ref` returns. */
  function Write<K(!new, ==), V>(t: Table<K, V>, hash: K -> nat, key: K, value: V): (r: Table<K, V>)
    requires Inv(t, hash) && Find(t, hash, key).Some?
    ensures Inv(r, hash)
  {
    WriteKeepsInv(t, hash, key, value);
    t.(slots := t.slots[Find(t, hash, key).value := Live(key, value)])
  }

  lemma WriteKeepsInv<K(!new), V>(t: Table<K, V>, hash: K -> nat, key: K, value: V)
    requires Inv(t, hash) && Find(t, hash, key).Some?
    ensures Inv(t.(slots := t.slots[Find(t, hash, key).value := Live(key, value)]), hash)
  {
    var s, j := t.slots, Find(t, hash, key).value;
    var s' := s[j := Live(key, value)];
    CountUpdate(s, j, Live(key, value));
    forall k: K, a: nat, u: nat | a < u < |s| && Holds(SlotAt(s', Home(hash, k, |s|), u), k)
      ensures !SlotAt(s', Home(hash, k, |s|), a).Empty?
    {
      assert Holds(SlotAt(s, Home(hash, k, |s|), u), k);
      assert !SlotAt(s, Home(hash, k, |s|), a).Empty?;
    }
  }

  lemma RemoveKeepsInv<K(!new), V>(t: Table<K, V>, hash: K -> nat, key: K)
    requires Inv(t, hash) && Find(t, hash, key).Some?
    ensures t.size > 0
    ensures var j := Find(t, hash, key).value;
      Inv(Table(t.slots[j := Dead(t.slots[j].key, t.slots[j].value)], t.size - 1, t.tombstones + 1), hash)
  {
    var j, c, s := Find(t, hash, key).value, |t.slots|, t.slots;
    var s' := s[j := Dead(s[j].key, s[j].value)];
    CountUpdate(s, j, Dead(s[j].key, s[j].value));
    forall k: K, a: nat, u: nat | a < u < c && Holds(SlotAt(s', Home(hash, k, c), u), k)
      ensures !SlotAt(s', Home(hash, k, c), a).Empty?
    {
      assert SlotAt(s, Home(hash, k, c), u) == SlotAt(s', Home(hash, k, c), u);
      assert !SlotAt(s, Home(hash, k, c), a).Empty?;
    }
  }

  /** `clear` resets everything but `tombstones`. */
  function Clear<K, V>(t: Table<K, V>): Table<K, V> {
    Table([], 0, t.tombstones)
  }
}
