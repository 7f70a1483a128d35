/** HASHMAP_name with its fields updated in place; every method refines the table of `HashTable`. */
module HashMap {
  import opened Bits
  import opened HashTable
  import opened HashStacks
  import HashRuns

  class HashMap<K(!new, ==), V> {
    const hash: K -> nat
    var entries: array<Slot<K, V>>  // the empty array stands for the null pointer
    var capacity: nat
    var size: nat
    var tombstones: nat

    ghost function State(): Table<K, V>
      reads this, entries
    {
      Table(entries[..], size, tombstones)
    }

    ghost predicate Valid()
      reads this, entries
    {
      entries.Length == capacity && Inv(State(), hash)
    }

    /** What the map holds for `key`, in probe order. */
    ghost function Values(key: K): seq<V>
      reads this, entries
    {
      Stack(entries[..], hash, key)
    }

    constructor (hash: K -> nat)
      ensures Valid() && State() == EmptyTable() && this.hash == hash
      ensures fresh(entries)
    {
      this.hash := hash;
      entries := new Slot<K, V>[0];
      capacity, size, tombstones := 0, 0, 0;
    }

    /** Adds or replaces; at most one level of recursion, through `Grow`. */
    method Set(key: K, value: V)
      requires Valid()
      modifies this, entries
      ensures Valid() && State() == HashTable.Set(old(State()), hash, key, value)
      ensures if NeedsGrowth(old(State())) then fresh(entries) else entries == old(entries)
      ensures capacity == if !NeedsGrowth(old(State())) then old(capacity)
        else if old(capacity) == 0 then 2 else 2 * old(capacity)
      ensures tombstones == if NeedsGrowth(old(State())) then 0 else old(tombstones)
      ensures Values(key) != [] && Values(key)[0] == value
      decreases if NeedsGrowth(State()) then 1 else 0
    {
      if capacity == 0 || 10 * (size + tombstones + 1) > 7 * capacity {
        Grow();
      }
      ghost var base := State();
      PutReplacesOrPushes(base, hash, key, value);
      PutKeepsInv(base, hash, key, value);
      var index := SlotFor(key);
      if !entries[index].Live? {
        size := size + 1;
      }
      entries[index] := Live(key, value);
      assert State() == Put(base, hash, key, value);
    }

    /** The probe loop of `Set`. */
    method SlotFor(key: K) returns (index: nat)
      requires Valid() && capacity > 0
      ensures index == Target(State(), hash, key)
    {
      ghost var s, home, u := entries[..], Home(hash, key, capacity), 0;
      ProbesTerminate(State(), home, key);
      index := And(hash(key), capacity - 1);
      while entries[index].Live? && entries[index].key != key
        invariant u < capacity && index < capacity && Stopping(s, home, u, key, index)
        decreases capacity - u
      {
        StoppingStep(s, home, u, key, index);
        index := And(index + 1, capacity - 1);
        u := u + 1;
      }
      StoppingStep(s, home, u, key, index);
    }

    /** The growth branch of `Set`. */
    method Grow()
      requires Valid() && NeedsGrowth(State())
      modifies this
      ensures Valid() && State() == Rehash(old(State()), hash) && !NeedsGrowth(State())
      ensures fresh(entries)
      decreases 1, 1
    {
      ghost var t := State();
      BlankIsFresh<K, V>(t, hash);
      var oldEntries := entries;
      capacity := if capacity == 0 then 2 else capacity * 2;
      entries := new Slot<K, V>[capacity](_ => Empty);
      size, tombstones := 0, 0;
      assert entries[..] == Blank<K, V>(capacity).slots;
      Reinsert(oldEntries, t);
    }

    /** The loop of the growth branch, which re-enters `Set` for every live entry. */
    method Reinsert(oldEntries: array<Slot<K, V>>, ghost t: Table<K, V>)
      requires Inv(t, hash) && NeedsGrowth(t) && oldEntries != entries && oldEntries[..] == t.slots
      requires capacity == entries.Length && State() == Blank(NewCapacity(|t.slots|))
      modifies this, entries
      ensures Valid() && State() == Rehash(t, hash) && entries == old(entries)
      decreases 1, 0
    {
      ghost var blank := State();
      BlankIsFresh<K, V>(t, hash);
      assert t.slots[..0] == [] && t.slots[..|t.slots|] == t.slots;
      for i := 0 to oldEntries.Length
        invariant oldEntries[..] == t.slots && entries == old(entries) && capacity == entries.Length
        invariant HasRoomFor(blank, hash, LiveCount(t.slots[..i]))
        invariant State() == Refill(t.slots, i, blank, hash)
      {
        ReinsertionNeverGrows(t, hash, i);
        if oldEntries[i].Live? {
          Set(oldEntries[i].key, oldEntries[i].value);
        }
      }
    }

    method Has(key: K) returns (found: bool)
      requires Valid()
      ensures found <==> Values(key) != []
    {
      FindSeesHead(State(), hash, key);
      if size == 0 {
        NoLiveSlot(entries[..], hash, key);
        return false;
      }
      var slot := Scan(key);
      return slot.Some?;
    }

    method Get(key: K) returns (value: V)
      requires Valid() && Values(key) != []
      ensures value == Values(key)[0]
    {
      FindSeesHead(State(), hash, key);
      var slot := Scan(key);
      return entries[slot.value].value;
    }

    /** The slot whose value the returned pointer addresses. */
    method Ref(key: K) returns (slot: Option<nat>)
      requires Valid()
      ensures slot == Find(State(), hash, key)
      ensures slot.Some? <==> Values(key) != []
      ensures slot.Some? ==> slot.value < entries.Length && entries[slot.value] == Live(key, Values(key)[0])
    {
      FindSeesHead(State(), hash, key);
      if capacity == 0 || size == 0 {
        NoLiveSlot(entries[..], hash, key);
        return None;
      }
      slot := Scan(key);
    }

    /** The loop shared by `has`, `get`, `ref` and `remove`. */
    method Scan(key: K) returns (slot: Option<nat>)
      requires Valid() && capacity > 0
      ensures slot == Find(State(), hash, key)
    {
      ghost var s, home, u := entries[..], Home(hash, key, capacity), 0;
      ProbesTerminate(State(), home, key);
      var index: nat := And(hash(key), capacity - 1);
      while !entries[index].Empty?
        invariant u < capacity && index < capacity && Seeking(s, home, u, key, index)
        decreases capacity - u
      {
        SeekingStep(s, home, u, key, index);
        if entries[index].Live? && entries[index].key == key {
          return Some(index);
        }
        index := And(index + 1, capacity - 1);
        u := u + 1;
      }
      SeekingStep(s, home, u, key, index);
      return None;
    }

    method Remove(key: K)
      requires Valid() && Values(key) != []
      modifies this`size, this`tombstones, entries
      ensures Valid()
      ensures State() == (FindSeesHead(old(State()), hash, key); HashTable.Remove(old(State()), hash, key))
      ensures Values(key) == old(Values(key))[1..]
      ensures forall k: K :: k != key ==> Values(k) == old(Values(k))
    {
      ghost var t := State();
      FindSeesHead(t, hash, key);
      RemoveKeepsInv(t, hash, key);
      forall k: K
        ensures Stack(HashTable.Remove(t, hash, key).slots, hash, k) ==
          if k == key then Stack(t.slots, hash, k)[1..] else Stack(t.slots, hash, k)
      {
        RemovePops(t, hash, key, k);
      }
      var slot := Scan(key);
      var index := slot.value;
      entries[index] := Dead(entries[index].key, entries[index].value);
      tombstones := tombstones + 1;
      size := size - 1;
      assert entries[..] == HashTable.Remove(t, hash, key).slots;
    }

    method Clear()
      requires Valid()
      modifies this
      ensures Valid() && State() == HashTable.Clear(old(State())) && fresh(entries)
      ensures capacity == size == 0 && tombstones == old(tombstones)
      ensures forall k: K :: Values(k) == []
    {
      entries := new Slot<K, V>[0];
      size, capacity := 0, 0;
    }
  }

  /** `*ref(key) = value` in the client. */
  method Store<K(!new, ==), V>(m: HashMap<K, V>, key: K, value: V)
    requires m.Valid() && Find(m.State(), m.hash, key).Some?
    modifies m.entries
    ensures m.Valid() && m.State() == Write(old(m.State()), m.hash, key, value)
  {
    ghost var t := m.State();
    WriteKeepsInv(t, m.hash, key, value);
    var slot := m.Ref(key);
    m.entries[slot.value] := Live(key, value);
    assert m.entries[..] == Write(t, m.hash, key, value).slots;
  }

  /** One call of a client. */
  method Perform<K(!new, ==), V>(m: HashMap<K, V>, op: HashRuns.Op<K, V>)
    requires m.Valid() && HashRuns.Enabled(m.State(), m.hash, op)
    modifies m, m.entries
    ensures m.Valid() && m.State() == HashRuns.Apply(old(m.State()), m.hash, op)
    ensures m.entries == old(m.entries) || fresh(m.entries)
  {
    match op
    case OpSet(key, value) => m.Set(key, value);
    case OpWrite(key, value) => Store(m, key, value);
    case OpRemove(key) =>
      FindSeesHead(m.State(), m.hash, key);
      m.Remove(key);
    case OpClear => m.Clear();
  }

  /** A client's run on the object is the run of the table. */
  method PerformAll<K(!new, ==), V>(m: HashMap<K, V>, ops: seq<HashRuns.Op<K, V>>)
    requires m.Valid() && HashRuns.CanRun(m.State(), m.hash, ops)
    modifies m, m.entries
    ensures m.Valid() && m.State() == HashRuns.Run(old(m.State()), m.hash, ops)
    ensures m.entries == old(m.entries) || fresh(m.entries)
    decreases |ops|
  {
    if ops != [] {
      Perform(m, ops[0]);
      PerformAll(m, ops[1..]);
    }
  }

  lemma NoLiveSlot<K(!new), V>(s: seq<Slot<K, V>>, hash: K -> nat, key: K)
    requires LiveCount(s) == 0
    ensures Stack(s, hash, key) == []
  {
    if Stack(s, hash, key) != [] {
      StackMember(s, hash, key, Stack(s, hash, key)[0]);
      var j: nat :| j < |s| && s[j].Live?;
      LiveCountPrefix(s, j);
      assert false;
    }
  }
}
