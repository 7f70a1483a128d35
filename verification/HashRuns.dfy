/**
 Runs of the table from `{ 0 }`: every run keeps the invariant and simulates
 a map of stacks; the runs that simulate a plain finite map are exactly those
 that never push on a key that is already there.
 */
module HashRuns {
  import opened Bits
  import opened HashTable
  import opened HashStacks

  /** `OpWrite` stores through the pointer that `ref` returns. */
  datatype Op<K, V> = OpSet(key: K, value: V) | OpWrite(key: K, value: V) | OpRemove(key: K) | OpClear

  /** `remove` is fatal for an absent key, and `ref` returns null. */
  predicate Enabled<K(!new, ==), V>(t: Table<K, V>, hash: K -> nat, op: Op<K, V>)
    requires Inv(t, hash)
  {
    op.OpRemove? || op.OpWrite? ==> Find(t, hash, op.key).Some?
  }

  function Apply<K(!new, ==), V>(t: Table<K, V>, hash: K -> nat, op: Op<K, V>): (r: Table<K, V>)
    requires Inv(t, hash) && Enabled(t, hash, op)
    ensures Inv(r, hash)
  {
    match op
    case OpSet(k, v) => Set(t, hash, k, v)
    case OpWrite(k, v) => Write(t, hash, k, v)
    case OpRemove(k) => Remove(t, hash, k)
    case OpClear => Clear(t)
  }

  predicate CanRun<K(!new, ==), V>(t: Table<K, V>, hash: K -> nat, ops: seq<Op<K, V>>)
    requires Inv(t, hash)
    decreases |ops|
  {
    ops == [] || (Enabled(t, hash, ops[0]) && CanRun(Apply(t, hash, ops[0]), hash, ops[1..]))
  }

  function Run<K(!new, ==), V>(t: Table<K, V>, hash: K -> nat, ops: seq<Op<K, V>>): (r: Table<K, V>)
    requires Inv(t, hash) && CanRun(t, hash, ops)
    ensures Inv(r, hash)
    decreases |ops|
  {
    if ops == [] then t else Run(Apply(t, hash, ops[0]), hash, ops[1..])
  }

  // ---------- the map of stacks ----------

  ghost function Stacks<K(!new), V>(t: Table<K, V>, hash: K -> nat): K -> seq<V> {
    k => Stack(t.slots, hash, k)
  }

  /** What growth leaves of every stack: the value in the highest-numbered live slot. */
  ghost function Survivors<K(!new), V>(s: seq<Slot<K, V>>): K -> seq<V> {
    k => LastLive(s, |s|, k)
  }

  /** Setting a key pushes on its stack or replaces its top. */
  ghost function SetOn<K(!new), V>(a: K -> seq<V>, key: K, value: V, pushes: bool): K -> seq<V> {
    k => if k != key then a(k) else [value] + if pushes || a(k) == [] then a(k) else a(k)[1..]
  }

  /** The stacks one operation leads to: all of them, exactly. */
  ghost function NextStacks<K(!new), V>(t: Table<K, V>, hash: K -> nat, op: Op<K, V>): K -> seq<V> {
    match op
    case OpSet(key, value) =>
      if NeedsGrowth(t) then SetOn(Survivors(t.slots), key, value, false)
      else SetOn(Stacks(t, hash), key, value, TombstoneAhead(t.slots, hash, key))
    case OpWrite(key, value) =>
      k => var a := Stack(t.slots, hash, k); if k == key && a != [] then [value] + a[1..] else a
    case OpRemove(key) =>
      k => var a := Stack(t.slots, hash, k); if k == key && a != [] then a[1..] else a
    case OpClear => k => []
  }

  ghost predicate SameStacks<K(!new), V>(t: Table<K, V>, hash: K -> nat, a: K -> seq<V>) {
    forall k: K :: Stack(t.slots, hash, k) == a(k)
  }

  lemma PutStacks<K(!new), V>(t: Table<K, V>, hash: K -> nat, key: K, value: V)
    requires Inv(t, hash) && !NeedsGrowth(t)
    ensures SameStacks(Put(t, hash, key, value), hash,
                       SetOn(Stacks(t, hash), key, value, TombstoneAhead(t.slots, hash, key)))
  {
    PutReplacesOrPushes(t, hash, key, value);
    forall k: K | k != key
      ensures Stack(Put(t, hash, key, value).slots, hash, k) == Stack(t.slots, hash, k)
    {
      PutFrame(t, hash, key, value, k);
    }
  }

  lemma NoDeadAfterGrowth<K(!new), V>(t: Table<K, V>, hash: K -> nat)
    requires Inv(t, hash) && NeedsGrowth(t)
    ensures NoDead(Rehash(t, hash).slots)
  {
    var r := Rehash(t, hash);
    forall j: nat | j < |r.slots| ensures !r.slots[j].Dead? {
      if r.slots[j].Dead? {
        RehashStack(t, hash, r.slots[j].key);
      }
    }
  }

  lemma GrowthStacks<K(!new), V>(t: Table<K, V>, hash: K -> nat)
    requires Inv(t, hash) && NeedsGrowth(t)
    ensures SameStacks(Rehash(t, hash), hash, Survivors(t.slots))
  {
    forall k: K ensures Stack(Rehash(t, hash).slots, hash, k) == Survivors(t.slots)(k) {
      RehashStack(t, hash, k);
    }
  }

  /** `set` with its growth branch. */
  lemma GrowingSetStacks<K(!new), V>(t: Table<K, V>, hash: K -> nat, key: K, value: V)
    requires Inv(t, hash) && NeedsGrowth(t)
    ensures SameStacks(Set(t, hash, key, value), hash, SetOn(Survivors(t.slots), key, value, false))
  {
    var r := Rehash(t, hash);
    GrowthStacks(t, hash);
    NoDeadAfterGrowth(t, hash);
    assert !TombstoneAhead(r.slots, hash, key);
    PutStacks(r, hash, key, value);
    forall k: K
      ensures SetOn(Stacks(r, hash), key, value, false)(k) == SetOn(Survivors(t.slots), key, value, false)(k)
    {
      assert Stacks(r, hash)(k) == Survivors(t.slots)(k);
    }
  }

  /** Every operation leads to exactly the stacks `NextStacks` says. */
  lemma StepSimulates<K(!new), V>(t: Table<K, V>, hash: K -> nat, op: Op<K, V>)
    requires Inv(t, hash) && Enabled(t, hash, op)
    ensures SameStacks(Apply(t, hash, op), hash, NextStacks(t, hash, op))
  {
    match op
    case OpSet(key, value) =>
      if NeedsGrowth(t) {
        GrowingSetStacks(t, hash, key, value);
      } else {
        PutStacks(t, hash, key, value);
      }
    case OpWrite(key, value) =>
      forall k: K ensures Stack(Apply(t, hash, op).slots, hash, k) == NextStacks(t, hash, op)(k) {
        WriteReplacesHead(t, hash, key, value, k);
      }
    case OpRemove(key) =>
      forall k: K ensures Stack(Apply(t, hash, op).slots, hash, k) == NextStacks(t, hash, op)(k) {
        RemovePops(t, hash, key, k);
      }
    case OpClear =>
  }

  /** Along a run, each step leads to the stacks `NextStacks` says. */
  ghost predicate Simulates<K(!new), V>(t: Table<K, V>, hash: K -> nat, ops: seq<Op<K, V>>)
    requires Inv(t, hash) && CanRun(t, hash, ops)
    decreases |ops|
  {
    ops == [] ||
    (var r := Apply(t, hash, ops[0]);
     SameStacks(r, hash, NextStacks(t, hash, ops[0])) && Simulates(r, hash, ops[1..]))
  }

  lemma {:induction false} RunSimulates<K(!new), V>(t: Table<K, V>, hash: K -> nat, ops: seq<Op<K, V>>)
    requires Inv(t, hash) && CanRun(t, hash, ops)
    ensures Simulates(t, hash, ops)
    decreases |ops|
  {
    if ops != [] {
      StepSimulates(t, hash, ops[0]);
      RunSimulates(Apply(t, hash, ops[0]), hash, ops[1..]);
    }
  }

  /** Growth leaves the answer of `get` alone exactly when the top of the stack is its highest-numbered value. */
  lemma GrowthKeepsAnswer<K(!new), V>(t: Table<K, V>, hash: K -> nat, k: K)
    requires Inv(t, hash) && NeedsGrowth(t) && Stack(t.slots, hash, k) != []
    ensures Answer(Rehash(t, hash), hash, k) != None
    ensures Answer(Rehash(t, hash), hash, k) == Answer(t, hash, k) <==>
      LastLive(t.slots, |t.slots|, k) == [Stack(t.slots, hash, k)[0]]
  {
    AnswerIsHead(t, hash, k);
    AnswerIsHead(Rehash(t, hash), hash, k);
    RehashStack(t, hash, k);
    LastLiveInStack(t.slots, hash, k);
  }

  // ---------- plain maps ----------

  /** No key is live twice. */
  ghost predicate Plain<K(!new), V>(t: Table<K, V>, hash: K -> nat) {
    forall k: K :: |Stack(t.slots, hash, k)| <= 1
  }

  function LiveKeys<K, V>(s: seq<Slot<K, V>>): set<K> {
    set j | 0 <= j < |s| && s[j].Live? :: s[j].key
  }

  /** What `get` answers, key by key. */
  ghost function Contents<K(!new), V>(t: Table<K, V>, hash: K -> nat): map<K, V> {
    map k | k in LiveKeys(t.slots) && Stack(t.slots, hash, k) != [] :: Stack(t.slots, hash, k)[0]
  }

  lemma InContents<K(!new), V>(t: Table<K, V>, hash: K -> nat, k: K)
    requires Inv(t, hash)
    ensures k in Contents(t, hash) <==> Stack(t.slots, hash, k) != []
    ensures Find(t, hash, k).Some? <==> k in Contents(t, hash)
    ensures k in Contents(t, hash) ==> t.slots[Find(t, hash, k).value].value == Contents(t, hash)[k]
  {
    FindSeesHead(t, hash, k);
    if Stack(t.slots, hash, k) != [] {
      StackMember(t.slots, hash, k, Stack(t.slots, hash, k)[0]);
    }
  }

  ghost predicate Distinct<K, V>(s: seq<Slot<K, V>>) {
    forall i: nat, j: nat :: i < j < |s| && s[i].Live? && s[j].Live? ==> s[i].key != s[j].key
  }

  lemma {:induction false} KeyCount<K, V>(s: seq<Slot<K, V>>)
    ensures |LiveKeys(s)| <= LiveCount(s)
    ensures |LiveKeys(s)| == LiveCount(s) <==> Distinct(s)
  {
    if s != [] {
      var n := |s| - 1;
      var p := s[..n];
      KeyCount(p);
      DistinctLast(s);
      LiveKeysLast(s);
    }
  }

  lemma DistinctLast<K, V>(s: seq<Slot<K, V>>)
    requires s != []
    ensures var n := |s| - 1;
      Distinct(s) <==> Distinct(s[..n]) && (s[n].Live? ==> s[n].key !in LiveKeys(s[..n]))
  {
    var n := |s| - 1;
    var p := s[..n];
    assert forall i: nat :: i < n ==> p[i] == s[i];
    if s[n].Live? && s[n].key in LiveKeys(p) {
      var i :| 0 <= i < n && p[i].Live? && p[i].key == s[n].key;
      assert s[i].Live? && s[i].key == s[n].key;
    } else {
      forall i: nat | i < n && s[i].Live? && s[n].Live? ensures s[i].key != s[n].key {
        assert p[i].key in LiveKeys(p);
      }
    }
  }

  lemma LiveKeysLast<K, V>(s: seq<Slot<K, V>>)
    requires s != []
    ensures var n := |s| - 1; LiveKeys(s) == LiveKeys(s[..n]) + if s[n].Live? then {s[n].key} else {}
  {
  }

  /** `size` is the number of keys exactly when no key is live twice. */
  lemma PlainSize<K(!new), V>(t: Table<K, V>, hash: K -> nat)
    requires Inv(t, hash)
    ensures t.size == |Contents(t, hash)| <==> Plain(t, hash)
  {
    var s := t.slots;
    KeyCount(s);
    PlainIsDistinct(t, hash);
    forall k | k in LiveKeys(s) ensures k in Contents(t, hash) {
      var j :| 0 <= j < |s| && s[j].Live? && s[j].key == k;
      StackMember(s, hash, k, s[j].value);
    }
    assert Contents(t, hash).Keys == LiveKeys(s);
  }

  lemma PlainIsDistinct<K(!new), V>(t: Table<K, V>, hash: K -> nat)
    ensures Plain(t, hash) <==> Distinct(t.slots)
  {
    var s := t.slots;
    if !Distinct(s) {
      var i: nat, j: nat :| i < j < |s| && s[i].Live? && s[j].Live? && s[i].key == s[j].key;
      TwoLiveSlots(t, hash, i, j);
    } else if !Plain(t, hash) {
      var k: K :| |Stack(s, hash, k)| > 1;
      TwoOffsets(s, Home(hash, k, |s|), 0, k);
    }
  }

  lemma {:induction false} TwoOffsets<K, V>(s: seq<Slot<K, V>>, h: nat, t: nat, k: K)
    requires h < |s| && t <= |s| && |Collect(s, h, t, k)| > 1
    ensures !Distinct(s)
    decreases |s| - t
  {
    if Holds(SlotAt(s, h, t), k) {
      CollectMember(s, h, t + 1, k, Collect(s, h, t + 1, k)[0]);
      var w: nat :| t < w < |s| && Holds(SlotAt(s, h, w), k);
      assert At(h, t, |s|) != At(h, w, |s|);
    } else {
      TwoOffsets(s, h, t + 1, k);
    }
  }

  lemma TwoLiveSlots<K(!new), V>(t: Table<K, V>, hash: K -> nat, i: nat, j: nat)
    requires i < j < |t.slots| && t.slots[i].Live? && Holds(t.slots[j], t.slots[i].key)
    ensures |Stack(t.slots, hash, t.slots[i].key)| >= 2
  {
    var s, k, c := t.slots, t.slots[i].key, |t.slots|;
    var h := Home(hash, k, c);
    var u, w := Offset(h, i, c), Offset(h, j, c);
    if u < w {
      CollectSplit(s, h, 0, u, k);
      CollectSplit(s, h, u + 1, w, k);
    } else {
      CollectSplit(s, h, 0, w, k);
      CollectSplit(s, h, w + 1, u, k);
    }
  }

  /** A removed key is absent afterwards exactly when it was live once. */
  lemma RemovedKeyIsAbsent<K(!new), V>(t: Table<K, V>, hash: K -> nat, key: K)
    requires Inv(t, hash) && Find(t, hash, key).Some?
    ensures Find(Remove(t, hash, key), hash, key).None? <==> |Stack(t.slots, hash, key)| == 1
  {
    RemovePops(t, hash, key, key);
    FindSeesHead(Remove(t, hash, key), hash, key);
  }

  /** The guard a caller must watch: no dead slot ahead of the key, unless the table grows. */
  ghost predicate Disciplined<K(!new), V>(t: Table<K, V>, hash: K -> nat, op: Op<K, V>) {
    op.OpSet? ==> NeedsGrowth(t) || !TombstoneAhead(t.slots, hash, op.key)
  }

  /** From a plain table, a step leads to a plain table exactly when it is disciplined. */
  lemma PlainStep<K(!new), V>(t: Table<K, V>, hash: K -> nat, op: Op<K, V>)
    requires Inv(t, hash) && Enabled(t, hash, op) && Plain(t, hash)
    ensures Plain(Apply(t, hash, op), hash) <==> Disciplined(t, hash, op)
  {
    var r, next := Apply(t, hash, op), NextStacks(t, hash, op);
    StepSimulates(t, hash, op);
    if Disciplined(t, hash, op) {
      forall k: K ensures |Stack(r.slots, hash, k)| <= 1 {
        assert |next(k)| <= 1;
      }
    } else {
      TombstoneMeansPresent(t, hash, op.key);
      assert |next(op.key)| == 2;
    }
  }

  lemma TombstoneMeansPresent<K(!new), V>(t: Table<K, V>, hash: K -> nat, key: K)
    requires TombstoneAhead(t.slots, hash, key)
    ensures Stack(t.slots, hash, key) != []
  {
    var s, h := t.slots, Home(hash, key, |t.slots|);
    var u: nat :| u < |s| && Holds(SlotAt(s, h, u), key);
    CollectSplit(s, h, 0, u, key);
  }

  function MapStep<K, V>(m: map<K, V>, op: Op<K, V>): map<K, V> {
    match op
    case OpSet(k, v) => m[k := v]
    case OpWrite(k, v) => m[k := v]
    case OpRemove(k) => m - {k}
    case OpClear => map[]
  }

  function MapRun<K, V>(m: map<K, V>, ops: seq<Op<K, V>>): map<K, V>
    decreases |ops|
  {
    if ops == [] then m else MapRun(MapStep(m, ops[0]), ops[1..])
  }

  /** A step of a plain table is a step of the finite map, whether or not it leaves the table plain. */
  lemma StepIsMapStep<K(!new), V>(t: Table<K, V>, hash: K -> nat, op: Op<K, V>)
    requires Inv(t, hash) && Enabled(t, hash, op) && Plain(t, hash)
    ensures Contents(Apply(t, hash, op), hash) == MapStep(Contents(t, hash), op)
  {
    var r := Apply(t, hash, op);
    var m, m' := Contents(t, hash), Contents(r, hash);
    forall k: K ensures k in m' <==> k in MapStep(m, op)
                ensures k in m' ==> m'[k] == MapStep(m, op)[k]
    {
      InContents(t, hash, k);
      InContents(r, hash, k);
      StackAfterStep(t, hash, op, k);
    }
  }

  lemma StackAfterStep<K(!new), V>(t: Table<K, V>, hash: K -> nat, op: Op<K, V>, k: K)
    requires Inv(t, hash) && Enabled(t, hash, op) && Plain(t, hash)
    ensures var a, b := Stack(t.slots, hash, k), Stack(Apply(t, hash, op).slots, hash, k);
      match op
      case OpSet(key, value) => if k == key then b != [] && b[0] == value else b == a
      case OpWrite(key, value) => b == if k == key then [value] else a
      case OpRemove(key) => b == if k == key then [] else a
      case OpClear => b == []
  {
    match op
    case OpSet(key, value) =>
      var base := if NeedsGrowth(t) then Rehash(t, hash) else t;
      if NeedsGrowth(t) {
        GrowthKeepsLast(t, hash, k);
      }
      PutReplacesOrPushes(base, hash, key, value);
      if k != key {
        PutFrame(base, hash, key, value, k);
      }
    case OpWrite(key, value) => WriteReplacesHead(t, hash, key, value, k);
    case OpRemove(key) => RemovePops(t, hash, key, k);
    case OpClear =>
  }

  ghost predicate DisciplinedRun<K(!new), V>(t: Table<K, V>, hash: K -> nat, ops: seq<Op<K, V>>)
    requires Inv(t, hash) && CanRun(t, hash, ops)
    decreases |ops|
  {
    ops == [] || (Disciplined(t, hash, ops[0]) && DisciplinedRun(Apply(t, hash, ops[0]), hash, ops[1..]))
  }

  ghost predicate PlainThroughout<K(!new), V>(t: Table<K, V>, hash: K -> nat, ops: seq<Op<K, V>>)
    requires Inv(t, hash) && CanRun(t, hash, ops)
    decreases |ops|
  {
    Plain(t, hash) && (ops == [] || PlainThroughout(Apply(t, hash, ops[0]), hash, ops[1..]))
  }

  /** A run stays plain throughout exactly when each of its steps is disciplined. */
  lemma {:induction false} PlainRuns<K(!new), V>(t: Table<K, V>, hash: K -> nat, ops: seq<Op<K, V>>)
    requires Inv(t, hash) && CanRun(t, hash, ops) && Plain(t, hash)
    ensures PlainThroughout(t, hash, ops) <==> DisciplinedRun(t, hash, ops)
    decreases |ops|
  {
    if ops != [] {
      PlainStep(t, hash, ops[0]);
      if Disciplined(t, hash, ops[0]) {
        PlainRuns(Apply(t, hash, ops[0]), hash, ops[1..]);
      }
    }
  }

  /** Disciplined runs refine a finite map, with `size` its cardinality. */
  lemma {:induction false} DisciplinedRunIsMap<K(!new), V>(t: Table<K, V>, hash: K -> nat, ops: seq<Op<K, V>>)
    requires Inv(t, hash) && CanRun(t, hash, ops) && Plain(t, hash) && DisciplinedRun(t, hash, ops)
    ensures var r := Run(t, hash, ops);
      && Plain(r, hash)
      && Contents(r, hash) == MapRun(Contents(t, hash), ops)
      && r.size == |MapRun(Contents(t, hash), ops)|
    decreases |ops|
  {
    if ops == [] {
      PlainSize(t, hash);
    } else {
      PlainStep(t, hash, ops[0]);
      StepIsMapStep(t, hash, ops[0]);
      DisciplinedRunIsMap(Apply(t, hash, ops[0]), hash, ops[1..]);
    }
  }

  // ---------- two families of disciplined runs ----------

  ghost predicate SetsOnlyAbsent<K(!new), V>(t: Table<K, V>, hash: K -> nat, ops: seq<Op<K, V>>)
    requires Inv(t, hash) && CanRun(t, hash, ops)
    decreases |ops|
  {
    ops == [] ||
    ((ops[0].OpSet? ==> Find(t, hash, ops[0].key).None?) && SetsOnlyAbsent(Apply(t, hash, ops[0]), hash, ops[1..]))
  }

  lemma {:induction false} AbsentSetsAreDisciplined<K(!new), V>(t: Table<K, V>, hash: K -> nat, ops: seq<Op<K, V>>)
    requires Inv(t, hash) && CanRun(t, hash, ops) && SetsOnlyAbsent(t, hash, ops)
    ensures DisciplinedRun(t, hash, ops)
    decreases |ops|
  {
    if ops != [] {
      if ops[0].OpSet? {
        FindSeesHead(t, hash, ops[0].key);
        if TombstoneAhead(t.slots, hash, ops[0].key) {
          TombstoneMeansPresent(t, hash, ops[0].key);
          assert false;
        }
      }
      AbsentSetsAreDisciplined(Apply(t, hash, ops[0]), hash, ops[1..]);
    }
  }

  /** With no dead slot to begin with, as after any growth, only a removal can break the discipline. */
  lemma {:induction false} RunsWithoutRemovalAreDisciplined<K(!new), V>(
      t: Table<K, V>, hash: K -> nat, ops: seq<Op<K, V>>)
    requires Inv(t, hash) && CanRun(t, hash, ops) && NoDead(t.slots)
    requires forall i: nat :: i < |ops| ==> !ops[i].OpRemove?
    ensures DisciplinedRun(t, hash, ops)
    decreases |ops|
  {
    if ops != [] {
      if ops[0].OpSet? && NeedsGrowth(t) {
        NoDeadAfterGrowth(t, hash);
      }
      RunsWithoutRemovalAreDisciplined(Apply(t, hash, ops[0]), hash, ops[1..]);
    }
  }

  /** Whatever came before, a growing `set` leaves a plain table without dead slots, of the same keys. */
  lemma GrowthMakesPlain<K(!new), V>(t: Table<K, V>, hash: K -> nat, key: K, value: V)
    requires Inv(t, hash) && NeedsGrowth(t)
    ensures var g := Set(t, hash, key, value);
      Plain(g, hash) && NoDead(g.slots) && Contents(g, hash).Keys == Contents(t, hash).Keys + {key}
  {
    var g := Set(t, hash, key, value);
    NoDeadAfterGrowth(t, hash);
    GrowingSetStacks(t, hash, key, value);
    forall k: K
      ensures |Stack(g.slots, hash, k)| <= 1
      ensures k in Contents(g, hash) <==> k == key || k in Contents(t, hash)
    {
      assert Stack(g.slots, hash, k) == SetOn(Survivors(t.slots), key, value, false)(k);
      LastLiveInStack(t.slots, hash, k);
      InContents(t, hash, k);
      InContents(g, hash, k);
    }
  }

  /** From any table on: after a growth, a run without removal computes the finite map. */
  lemma AfterGrowthIsMap<K(!new), V>(t: Table<K, V>, hash: K -> nat, key: K, value: V, ops: seq<Op<K, V>>)
    requires Inv(t, hash) && NeedsGrowth(t) && CanRun(Set(t, hash, key, value), hash, ops)
    requires forall i: nat :: i < |ops| ==> !ops[i].OpRemove?
    ensures var g := Set(t, hash, key, value);
      var r, m := Run(g, hash, ops), MapRun(Contents(g, hash), ops);
      Plain(r, hash) && Contents(r, hash) == m && r.size == |m|
  {
    GrowthMakesPlain(t, hash, key, value);
    RunsWithoutRemovalAreDisciplined(Set(t, hash, key, value), hash, ops);
    DisciplinedRunIsMap(Set(t, hash, key, value), hash, ops);
  }

  /** From `{ 0 }`: a disciplined run answers every search as the finite map would. */
  lemma TableIsAMap<K(!new), V>(hash: K -> nat, ops: seq<Op<K, V>>, k: K)
    requires CanRun(EmptyTable<K, V>(), hash, ops)
    requires
      || DisciplinedRun(EmptyTable<K, V>(), hash, ops)
      || SetsOnlyAbsent(EmptyTable<K, V>(), hash, ops)
      || (forall i: nat :: i < |ops| ==> !ops[i].OpRemove?)
    ensures var r, m := Run(EmptyTable<K, V>(), hash, ops), MapRun(map[], ops);
      && Plain(r, hash) && r.size == |m|
      && Answer(r, hash, k) == if k in m then Some(m[k]) else None
  {
    var t := EmptyTable<K, V>();
    if SetsOnlyAbsent(t, hash, ops) {
      AbsentSetsAreDisciplined(t, hash, ops);
    } else if !DisciplinedRun(t, hash, ops) {
      RunsWithoutRemovalAreDisciplined(t, hash, ops);
    }
    assert Contents(t, hash) == map[];
    DisciplinedRunIsMap(t, hash, ops);
    InContents(Run(t, hash, ops), hash, k);
  }

  // ---------- capacity and tombstones ----------

  /** `peak` after one operation: the largest load `size + tombstones + 1` a `set` has met since the last `clear`. */
  function LoadAfter<K, V>(t: Table<K, V>, op: Op<K, V>, peak: nat): nat {
    var load := t.size + t.tombstones + 1;
    if op.OpClear? then 0 else if op.OpSet? && load > peak then load else peak
  }

  function PeakLoad<K(!new, ==), V>(t: Table<K, V>, hash: K -> nat, ops: seq<Op<K, V>>, peak: nat): nat
    requires Inv(t, hash) && CanRun(t, hash, ops)
    decreases |ops|
  {
    if ops == [] then peak else PeakLoad(Apply(t, hash, ops[0]), hash, ops[1..], LoadAfter(t, ops[0], peak))
  }

  /** Half the capacity would be too small for the load `peak`. */
  predicate Fitted<K, V>(t: Table<K, V>, peak: nat) {
    |t.slots| <= 2 || 7 * |t.slots| < 20 * peak
  }

  lemma StepFits<K(!new), V>(t: Table<K, V>, hash: K -> nat, op: Op<K, V>, peak: nat)
    requires Inv(t, hash) && Enabled(t, hash, op) && Fitted(t, peak)
    ensures Fitted(Apply(t, hash, op), LoadAfter(t, op, peak))
  {
    if op.OpSet? {
      GrowthDoubles(t, hash, op.key, op.value);
    }
  }

  /** Over every run the capacity stays within twice what the peak load asks for. */
  lemma {:induction false} CapacityFollowsLoad<K(!new), V>(
      t: Table<K, V>, hash: K -> nat, ops: seq<Op<K, V>>, peak: nat)
    requires Inv(t, hash) && CanRun(t, hash, ops) && Fitted(t, peak)
    ensures Fitted(Run(t, hash, ops), PeakLoad(t, hash, ops, peak))
    decreases |ops|
  {
    if ops != [] {
      StepFits(t, hash, ops[0], peak);
      CapacityFollowsLoad(Apply(t, hash, ops[0]), hash, ops[1..], LoadAfter(t, ops[0], peak));
    }
  }

  /** No smaller capacity could take the peak load. */
  lemma FittedIsLeast<K(!new), V>(t: Table<K, V>, hash: K -> nat, peak: nat, c: nat)
    requires Inv(t, hash) && Fitted(t, peak) && IsPow2(c) && c >= 2 && 10 * peak <= 7 * c
    ensures |t.slots| <= c
  {
    if |t.slots| > 2 {
      LeastPow2(|t.slots|, c, c);
    }
  }

  /** A table that was never removed from. */
  ghost predicate Untouched<K(!new), V>(t: Table<K, V>, hash: K -> nat) {
    Inv(t, hash) && Plain(t, hash) && NoDead(t.slots) && t.tombstones == 0
  }

  lemma SetKeepsCount<K(!new), V>(t: Table<K, V>, hash: K -> nat, key: K, value: V)
    requires Untouched(t, hash)
    ensures Untouched(Set(t, hash, key, value), hash) && Set(t, hash, key, value).size >= t.size
  {
    GrowthDoubles(t, hash, key, value);
    if NeedsGrowth(t) {
      var g := Set(t, hash, key, value);
      GrowthMakesPlain(t, hash, key, value);
      PlainSize(t, hash);
      PlainSize(g, hash);
      SubsetSize(Contents(t, hash).Keys, Contents(g, hash).Keys);
    } else {
      PlainStep(t, hash, OpSet(key, value));
    }
  }

  lemma SubsetSize<K>(a: set<K>, b: set<K>)
    requires a <= b
    ensures |a| <= |b|
  {
    assert b == a + (b - a);
  }

  /** Without removal the capacity follows the number of entries. */
  lemma {:induction false} CapacityFollowsSize<K(!new), V>(t: Table<K, V>, hash: K -> nat, ops: seq<Op<K, V>>)
    requires Untouched(t, hash) && CanRun(t, hash, ops) && Fitted(t, t.size + 1)
    requires forall i: nat :: i < |ops| ==> !ops[i].OpRemove?
    ensures var r := Run(t, hash, ops); Untouched(r, hash) && Fitted(r, r.size + 1)
    decreases |ops|
  {
    if ops != [] {
      match ops[0] {
        case OpSet(key, value) =>
          GrowthDoubles(t, hash, key, value);
          SetKeepsCount(t, hash, key, value);
        case OpWrite(key, value) => PlainStep(t, hash, ops[0]);
        case OpRemove(_) =>
        case OpClear =>
      }
      CapacityFollowsSize(Apply(t, hash, ops[0]), hash, ops[1..]);
    }
  }

  /** From `{ 0 }`: as many slots as the entries ask for, and no removal leaves no tombstone. */
  lemma CapacityWithoutRemoval<K(!new), V>(hash: K -> nat, ops: seq<Op<K, V>>)
    requires CanRun(EmptyTable<K, V>(), hash, ops) && forall i: nat :: i < |ops| ==> !ops[i].OpRemove?
    ensures var r := Run(EmptyTable<K, V>(), hash, ops);
      r.tombstones == 0 && (|r.slots| <= 2 || 7 * |r.slots| < 20 * (r.size + 1))
  {
    CapacityFollowsSize(EmptyTable<K, V>(), hash, ops);
  }

  /** Removals since the last growth, after one operation. */
  function RemovalsAfter<K, V>(t: Table<K, V>, op: Op<K, V>, n: nat): nat {
    if op.OpRemove? then n + 1 else if op.OpSet? && NeedsGrowth(t) then 0 else n
  }

  function Removals<K(!new, ==), V>(t: Table<K, V>, hash: K -> nat, ops: seq<Op<K, V>>, n: nat): nat
    requires Inv(t, hash) && CanRun(t, hash, ops)
    decreases |ops|
  {
    if ops == [] then n else Removals(Apply(t, hash, ops[0]), hash, ops[1..], RemovalsAfter(t, ops[0], n))
  }

  lemma StepCountsRemovals<K(!new), V>(t: Table<K, V>, hash: K -> nat, op: Op<K, V>)
    requires Inv(t, hash) && Enabled(t, hash, op)
    ensures Apply(t, hash, op).tombstones == RemovalsAfter(t, op, t.tombstones)
  {
    if op.OpSet? {
      GrowthDoubles(t, hash, op.key, op.value);
    }
  }

  /** `tombstones` counts them: a reused slot is not given back, nor does `clear` forget any. */
  lemma {:induction false} TombstonesCountRemovals<K(!new), V>(t: Table<K, V>, hash: K -> nat, ops: seq<Op<K, V>>)
    requires Inv(t, hash) && CanRun(t, hash, ops)
    ensures Run(t, hash, ops).tombstones == Removals(t, hash, ops, t.tombstones)
    decreases |ops|
  {
    if ops != [] {
      StepCountsRemovals(t, hash, ops[0]);
      TombstonesCountRemovals(Apply(t, hash, ops[0]), hash, ops[1..]);
    }
  }

  // ---------- growth as a run ----------

  /** The calls that store the live slots, in slot order. */
  function SetsOf<K, V>(s: seq<Slot<K, V>>): seq<Op<K, V>> {
    if s == [] then []
    else
      var last := s[|s| - 1];
      SetsOf(s[..|s| - 1]) + if last.Live? then [OpSet(last.key, last.value)] else []
  }

  lemma RefillRound<K(!new), V>(t: Table<K, V>, hash: K -> nat, b: Table<K, V>, ops: seq<Op<K, V>>, n: nat)
    requires Inv(t, hash) && NeedsGrowth(t) && n < |t.slots| && b == Blank(NewCapacity(|t.slots|))
    requires HasRoomFor(b, hash, LiveCount(t.slots[..n])) && CanRun(b, hash, ops)
    requires Run(b, hash, ops) == Refill(t.slots, n, b, hash)
    ensures HasRoomFor(b, hash, LiveCount(t.slots[..n + 1]))
    ensures var ops' := if t.slots[n].Live? then ops + [OpSet(t.slots[n].key, t.slots[n].value)] else ops;
      CanRun(b, hash, ops') && Run(b, hash, ops') == Refill(t.slots, n + 1, b, hash)
  {
    ReinsertionNeverGrows(t, hash, n);
    if t.slots[n].Live? {
      RunSnoc(b, hash, ops, OpSet(t.slots[n].key, t.slots[n].value));
    }
  }

  lemma SetsOfLast<K, V>(s: seq<Slot<K, V>>, n: nat)
    requires n < |s|
    ensures SetsOf(s[..n + 1]) == if s[n].Live? then SetsOf(s[..n]) + [OpSet(s[n].key, s[n].value)] else SetsOf(s[..n])
  {
    assert s[..n + 1][..n] == s[..n];
  }

  lemma {:induction false} RefillIsARun<K(!new), V>(t: Table<K, V>, hash: K -> nat, b: Table<K, V>, n: nat)
    requires Inv(t, hash) && NeedsGrowth(t) && n <= |t.slots| && b == Blank(NewCapacity(|t.slots|))
    ensures HasRoomFor(b, hash, LiveCount(t.slots[..n])) && CanRun(b, hash, SetsOf(t.slots[..n]))
    ensures Run(b, hash, SetsOf(t.slots[..n])) == Refill(t.slots, n, b, hash)
    decreases n
  {
    if n == 0 {
      BlankIsFresh<K, V>(t, hash);
      return;
    }
    RefillIsARun(t, hash, b, n - 1);
    SetsOfLast(t.slots, n - 1);
    RefillRound(t, hash, b, SetsOf(t.slots[..n - 1]), n - 1);
  }

  /** A growing `set` does what `set` calls for the old entries, in slot order, and for the new one would do
      on zeroed slots, 2 of them or twice as many as before. */
  lemma GrowthIsARun<K(!new), V>(t: Table<K, V>, hash: K -> nat, key: K, value: V)
    requires Inv(t, hash) && NeedsGrowth(t)
    ensures var b := Table(seq(if |t.slots| == 0 then 2 else 2 * |t.slots|, _ => Slot<K, V>.Empty), 0, 0);
      var ops := SetsOf(t.slots) + [OpSet(key, value)];
      Inv(b, hash) && CanRun(b, hash, ops) && Run(b, hash, ops) == Set(t, hash, key, value)
  {
    var b := Blank<K, V>(NewCapacity(|t.slots|));
    assert b.slots == seq(if |t.slots| == 0 then 2 else 2 * |t.slots|, _ => Slot<K, V>.Empty);
    RefillIsARun(t, hash, b, |t.slots|);
    assert t.slots[..|t.slots|] == t.slots;
    RunSnoc(b, hash, SetsOf(t.slots), OpSet(key, value));
  }

  // ---------- a key that is live twice ----------

  function Identity(k: nat): nat { k }

  /** Keys 0 and 8 share a home in eight slots; key 4 lives elsewhere. */
  function ShadowingRun(): seq<Op<nat, bool>> {
    [OpSet(0, true), OpSet(8, true), OpSet(4, true), OpRemove(0), OpSet(8, false)]
  }

  function ShadowedTable(): Table<nat, bool> {
    Table([Live(8, false), Live(8, true), Empty, Empty, Live(4, true), Empty, Empty, Empty], 3, 1)
  }

  lemma Homes(k: nat)
    ensures Home(Identity, k, 2) == k % 2 && Home(Identity, k, 4) == k % 4 && Home(Identity, k, 8) == k % 8
  {
    assert 2 == Pow2(1) && 4 == Pow2(2) && 8 == Pow2(3);
  }

  /** Where a given `Put` writes, once its stopping offset is known. */
  lemma PutWritesAt(t: Table<nat, bool>, key: nat, value: bool, u: nat)
    requires Counted(t) && u < |t.slots|
    requires var h := Home(Identity, key, |t.slots|);
      && (forall w: nat :: w < u ==> SlotAt(t.slots, h, w).Live? && SlotAt(t.slots, h, w).key != key)
      && (!SlotAt(t.slots, h, u).Live? || SlotAt(t.slots, h, u).key == key)
    ensures Target(t, Identity, key) == At(Home(Identity, key, |t.slots|), u, |t.slots|)
  {
    var h := Home(Identity, key, |t.slots|);
    ProbesTerminate(t, h, key);
    StopIsFirst(t.slots, h, 0, key);
    assert Stop(t.slots, h, 0, key) == u;
  }

  lemma FirstSet()
    ensures Inv(EmptyTable<nat, bool>(), Identity)
    ensures Set(EmptyTable<nat, bool>(), Identity, 0, true) == Table([Live(0, true), Empty], 1, 0)
  {
    var t := EmptyTable<nat, bool>();
    var b := Rehash(t, Identity);
    assert b == Blank(2);
    Homes(0);
    PutWritesAt(b, 0, true, 0);
  }

  lemma SecondSet(t: Table<nat, bool>)
    requires Inv(t, Identity) && t == Table([Live(0, true), Empty], 1, 0)
    ensures Set(t, Identity, 8, true) == Table([Live(0, true), Live(8, true), Empty, Empty], 2, 0)
  {
    BlankIsFresh<nat, bool>(t, Identity);
    assert t.slots[..2] == t.slots && t.slots[..1] == [Live(0, true)];
    LiveCountPrefix(t.slots, 1);
    var b := Blank<nat, bool>(4);
    Homes(0);
    PutWritesAt(b, 0, true, 0);
    var b1 := Refill(t.slots, 1, b, Identity);
    assert b1 == Table([Live(0, true), Empty, Empty, Empty], 1, 0);
    assert Refill(t.slots, 2, b, Identity) == b1;
    Homes(8);
    PutWritesAt(b1, 8, true, 1);
  }

  lemma ThirdSet(t: Table<nat, bool>)
    requires Inv(t, Identity) && t == Table([Live(0, true), Live(8, true), Empty, Empty], 2, 0)
    ensures Set(t, Identity, 4, true) ==
      Table([Live(0, true), Live(8, true), Empty, Empty, Live(4, true), Empty, Empty, Empty], 3, 0)
  {
    BlankIsFresh<nat, bool>(t, Identity);
    LiveCountPrefix(t.slots, 1);
    LiveCountPrefix(t.slots, 2);
    LiveCountPrefix(t.slots, 3);
    assert t.slots[..4] == t.slots;
    assert t.slots[..1] == [Live(0, true)] && LiveCount(t.slots[..1]) == 1;
    var b := Blank<nat, bool>(8);
    Homes(0);
    PutWritesAt(b, 0, true, 0);
    var b1 := Refill(t.slots, 1, b, Identity);
    assert b1 == Table([Live(0, true), Empty, Empty, Empty, Empty, Empty, Empty, Empty], 1, 0);
    Homes(8);
    PutWritesAt(b1, 8, true, 1);
    var b2 := Refill(t.slots, 2, b, Identity);
    assert b2 == Table([Live(0, true), Live(8, true), Empty, Empty, Empty, Empty, Empty, Empty], 2, 0);
    assert Refill(t.slots, 3, b, Identity) == b2;
    assert Refill(t.slots, 4, b, Identity) == b2;
    Homes(4);
    PutWritesAt(b2, 4, true, 0);
  }

  lemma RemoveThenSet(t: Table<nat, bool>)
    requires Inv(t, Identity)
    requires t == Table([Live(0, true), Live(8, true), Empty, Empty, Live(4, true), Empty, Empty, Empty], 3, 0)
    ensures Find(t, Identity, 0).Some?
    ensures Set(Remove(t, Identity, 0), Identity, 8, false) == ShadowedTable()
  {
    Homes(0);
    assert SlotAt(t.slots, 0, 0) == Live(0, true);
    var r := Remove(t, Identity, 0);
    assert r == Table([Dead(0, true), Live(8, true), Empty, Empty, Live(4, true), Empty, Empty, Empty], 2, 1);
    Homes(8);
    PutWritesAt(r, 8, false, 0);
  }

  /** One step of a run leads from `t` to `r`. */
  ghost predicate Leads<K(!new), V>(t: Table<K, V>, hash: K -> nat, op: Op<K, V>, r: Table<K, V>) {
    Inv(t, hash) && Enabled(t, hash, op) && r == Apply(t, hash, op)
  }

  lemma RunCons<K(!new), V>(t: Table<K, V>, hash: K -> nat, op: Op<K, V>, r: Table<K, V>, ops: seq<Op<K, V>>)
    requires Leads(t, hash, op, r) && CanRun(r, hash, ops)
    ensures CanRun(t, hash, [op] + ops) && Run(t, hash, [op] + ops) == Run(r, hash, ops)
  {
    assert ([op] + ops)[1..] == ops;
  }

  /** This run makes key 8 live twice, and a later removal of key 8 leaves it present. */
  lemma ShadowingHappens()
    ensures CanRun(EmptyTable(), Identity, ShadowingRun())
    ensures Run(EmptyTable(), Identity, ShadowingRun()) == ShadowedTable()
    ensures Stack(ShadowedTable().slots, Identity, 8) == [false, true]
    ensures Inv(ShadowedTable(), Identity) && Find(ShadowedTable(), Identity, 8).Some?
    ensures Find(Remove(ShadowedTable(), Identity, 8), Identity, 8).Some?
  {
    ShadowingRunEnds();
    ShadowedStack();
    FindSeesHead(ShadowedTable(), Identity, 8);
    RemovedKeyIsAbsent(ShadowedTable(), Identity, 8);
  }

  lemma ShadowingSteps()
      returns (t1: Table<nat, bool>, t2: Table<nat, bool>, t3: Table<nat, bool>, t4: Table<nat, bool>)
    ensures Leads(EmptyTable(), Identity, OpSet(0, true), t1)
    ensures Leads(t1, Identity, OpSet(8, true), t2)
    ensures Leads(t2, Identity, OpSet(4, true), t3)
    ensures Leads(t3, Identity, OpRemove(0), t4)
    ensures Leads(t4, Identity, OpSet(8, false), ShadowedTable())
  {
    FirstSet();
    t1 := Apply(EmptyTable(), Identity, OpSet(0, true));
    SecondSet(t1);
    t2 := Apply(t1, Identity, OpSet(8, true));
    ThirdSet(t2);
    t3 := Apply(t2, Identity, OpSet(4, true));
    RemoveThenSet(t3);
    t4 := Apply(t3, Identity, OpRemove(0));
  }

  lemma ShadowingRunEnds()
    ensures CanRun(EmptyTable(), Identity, ShadowingRun())
    ensures Run(EmptyTable(), Identity, ShadowingRun()) == ShadowedTable()
  {
    var t1, t2, t3, t4 := ShadowingSteps();
    FiveSteps(EmptyTable(), OpSet(0, true), t1, OpSet(8, true), t2, OpSet(4, true), t3, OpRemove(0), t4,
              OpSet(8, false), ShadowedTable(), Identity);
  }

  lemma FiveSteps<K(!new), V>(t: Table<K, V>, a: Op<K, V>, t1: Table<K, V>, b: Op<K, V>, t2: Table<K, V>,
      c: Op<K, V>, t3: Table<K, V>, d: Op<K, V>, t4: Table<K, V>, e: Op<K, V>, r: Table<K, V>, hash: K -> nat)
    requires Leads(t, hash, a, t1) && Leads(t1, hash, b, t2) && Leads(t2, hash, c, t3)
    requires Leads(t3, hash, d, t4) && Leads(t4, hash, e, r)
    ensures CanRun(t, hash, [a, b, c, d, e]) && Run(t, hash, [a, b, c, d, e]) == r
  {
    RunCons(t4, hash, e, r, []);
    RunCons(t3, hash, d, t4, [e] + []);
    RunCons(t2, hash, c, t3, [d] + ([e] + []));
    RunCons(t1, hash, b, t2, [c] + ([d] + ([e] + [])));
    RunCons(t, hash, a, t1, [b] + ([c] + ([d] + ([e] + []))));
    FiveOps(a, b, c, d, e);
  }

  lemma FiveOps<T>(a: T, b: T, c: T, d: T, e: T)
    ensures [a] + ([b] + ([c] + ([d] + ([e] + [])))) == [a, b, c, d, e]
  {
  }

  lemma ShadowedStack()
    ensures Stack(ShadowedTable().slots, Identity, 8) == [false, true]
  {
    var s := ShadowedTable().slots;
    Homes(8);
    CollectSkips(s, 0, 2, 8, 8);
    assert Collect(s, 0, 1, 8) == [true];
  }

  // ---------- an overwritten value that comes back ----------

  /** Two more sets, of other keys, the second of which grows the table. */
  function RevivingRun(): seq<Op<nat, bool>> {
    (ShadowingRun() + [OpSet(2, true)]) + [OpSet(3, true)]
  }

  lemma {:induction false} RunSnoc<K(!new), V>(t: Table<K, V>, hash: K -> nat, ops: seq<Op<K, V>>, op: Op<K, V>)
    requires Inv(t, hash) && CanRun(t, hash, ops) && Enabled(Run(t, hash, ops), hash, op)
    ensures CanRun(t, hash, ops + [op]) && Run(t, hash, ops + [op]) == Apply(Run(t, hash, ops), hash, op)
    decreases |ops|
  {
    if ops == [] {
      assert ([op])[1..] == [];
      assert ops + [op] == [op];
    } else {
      assert (ops + [op])[1..] == ops[1..] + [op] && (ops + [op])[0] == ops[0];
      RunSnoc(Apply(t, hash, ops[0]), hash, ops[1..], op);
    }
  }

  lemma SetOtherKey(t: Table<nat, bool>)
    requires Inv(t, Identity) && t == ShadowedTable()
    ensures Set(t, Identity, 2, true) == Table(t.slots[2 := Live(2, true)], 4, 1)
  {
    Homes(2);
    PutWritesAt(t, 2, true, 0);
  }

  lemma GrowthRevives(t: Table<nat, bool>)
    requires Inv(t, Identity) && t == Table(ShadowedTable().slots[2 := Live(2, true)], 4, 1)
    ensures Answer(t, Identity, 8) == Some(false)
    ensures Answer(Set(t, Identity, 3, true), Identity, 8) == Some(true)
  {
    Homes(8);
    assert SlotAt(t.slots, 0, 0) == Live(8, false);
    LastLiveSkips(t.slots, 2, 8, 8);
    RehashStack(t, Identity, 8);
    PutFrame(Rehash(t, Identity), Identity, 3, true, 8);
    AnswerIsHead(Set(t, Identity, 3, true), Identity, 8);
  }

  lemma RevivingRunEnds() returns (u: Table<nat, bool>)
    ensures Inv(u, Identity) && u == Table(ShadowedTable().slots[2 := Live(2, true)], 4, 1)
    ensures CanRun(EmptyTable(), Identity, RevivingRun())
    ensures Run(EmptyTable(), Identity, RevivingRun()) == Set(u, Identity, 3, true)
  {
    ShadowingRunEnds();
    SetOtherKey(ShadowedTable());
    RunSnoc(EmptyTable(), Identity, ShadowingRun(), OpSet(2, true));
    u := Set(ShadowedTable(), Identity, 2, true);
    RunSnoc(EmptyTable(), Identity, ShadowingRun() + [OpSet(2, true)], OpSet(3, true));
  }

  lemma LastStored()
    ensures RevivingRun()[4] == OpSet(8, false)
    ensures forall i: nat :: 4 < i < |RevivingRun()| ==> RevivingRun()[i].OpSet? && RevivingRun()[i].key != 8
  {
    assert |RevivingRun()| == 7 && RevivingRun()[5] == OpSet(2, true) && RevivingRun()[6] == OpSet(3, true);
  }

  /** The last `set` of key 8 stores false, yet after the growth `get(8)` answers true. */
  lemma OverwrittenValueComesBack()
    ensures RevivingRun()[4] == OpSet(8, false)
    ensures forall i: nat :: 4 < i < |RevivingRun()| ==> RevivingRun()[i].OpSet? && RevivingRun()[i].key != 8
    ensures CanRun(EmptyTable(), Identity, RevivingRun())
    ensures Answer(Run(EmptyTable(), Identity, RevivingRun()), Identity, 8) == Some(true)
  {
    var u := RevivingRunEnds();
    GrowthRevives(u);
    LastStored();
  }
}
