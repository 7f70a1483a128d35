/**
 What the table means. A key owns the sequence of its live values in probe
 order; the searches see its head, `remove` pops it, `set` replaces it or
 pushes on it, and growth keeps one value of it.
 */
module HashStacks {
  import opened HashTable

  /** The live values of `k` from offset `t` on. */
  function Collect<K(==), V>(s: seq<Slot<K, V>>, h: nat, t: nat, k: K): seq<V>
    requires h < |s| && t <= |s|
    decreases |s| - t
  {
    if t == |s| then []
    else if Holds(SlotAt(s, h, t), k) then [SlotAt(s, h, t).value] + Collect(s, h, t + 1, k)
    else Collect(s, h, t + 1, k)
  }

  function Stack<K(==), V>(s: seq<Slot<K, V>>, hash: K -> nat, k: K): seq<V> {
    if |s| == 0 then [] else Collect(s, Home(hash, k, |s|), 0, k)
  }

  // ---------- Collect ----------

  lemma {:induction false} CollectSkips<K, V>(s: seq<Slot<K, V>>, h: nat, t: nat, u: nat, k: K)
    requires h < |s| && t <= u <= |s|
    requires forall w: nat :: t <= w < u ==> !Holds(SlotAt(s, h, w), k)
    ensures Collect(s, h, t, k) == Collect(s, h, u, k)
    decreases u - t
  {
    if t < u {
      CollectSkips(s, h, t + 1, u, k);
    }
  }

  /** Collecting reads only slots that hold `k`. */
  lemma {:induction false} CollectSame<K, V>(s: seq<Slot<K, V>>, s': seq<Slot<K, V>>, h: nat, t: nat, k: K)
    requires h < |s| == |s'| && t <= |s|
    requires forall w: nat :: t <= w < |s| ==>
      SlotAt(s, h, w) == SlotAt(s', h, w) || (!Holds(SlotAt(s, h, w), k) && !Holds(SlotAt(s', h, w), k))
    ensures Collect(s, h, t, k) == Collect(s', h, t, k)
    decreases |s| - t
  {
    if t < |s| {
      CollectSame(s, s', h, t + 1, k);
    }
  }

  /** Collecting finds exactly the values of the slots that hold `k`. */
  lemma {:induction false} CollectMember<K, V>(s: seq<Slot<K, V>>, h: nat, t: nat, k: K, v: V)
    requires h < |s| && t <= |s|
    ensures v in Collect(s, h, t, k) <==>
      exists u: nat :: t <= u < |s| && Holds(SlotAt(s, h, u), k) && SlotAt(s, h, u).value == v
    decreases |s| - t
  {
    if t < |s| {
      CollectMember(s, h, t + 1, k, v);
    }
  }

  /** A slot that holds `k`, and what lies before and behind it. */
  lemma CollectSplit<K, V>(s: seq<Slot<K, V>>, h: nat, t: nat, u: nat, k: K)
    requires h < |s| && t <= u < |s| && Holds(SlotAt(s, h, u), k)
    ensures |Collect(s, h, t, k)| >= 1 + |Collect(s, h, u + 1, k)|
    decreases u - t
  {
    if t < u {
      CollectSplit(s, h, t + 1, u, k);
    }
  }

  // ---------- one slot changes ----------

  /** Only keys the old or the new content of the slot holds are affected. */
  lemma StackFrame<K, V>(s: seq<Slot<K, V>>, hash: K -> nat, j: nat, x: Slot<K, V>, k: K)
    requires j < |s| && !Holds(s[j], k) && !Holds(x, k)
    ensures Stack(s[j := x], hash, k) == Stack(s, hash, k)
  {
    CollectSame(s, s[j := x], Home(hash, k, |s|), 0, k);
  }

  /** Before offset `u` nothing holds `k`, so the stack starts there. */
  lemma StackFrom<K, V>(s: seq<Slot<K, V>>, hash: K -> nat, u: nat, k: K)
    requires u < |s|
    requires forall w: nat :: w < u ==> !Holds(SlotAt(s, Home(hash, k, |s|), w), k)
    ensures var h := Home(hash, k, |s|);
      Stack(s, hash, k) ==
      (if Holds(SlotAt(s, h, u), k) then [SlotAt(s, h, u).value] else []) + Collect(s, h, u + 1, k)
  {
    CollectSkips(s, Home(hash, k, |s|), 0, u, k);
  }

  /** Changing the first slot that matters to `k`, at offset `u`, changes the head only. */
  lemma StackHeadChange<K, V>(s: seq<Slot<K, V>>, hash: K -> nat, u: nat, x: Slot<K, V>, k: K)
    requires u < |s|
    requires forall w: nat :: w < u ==> !Holds(SlotAt(s, Home(hash, k, |s|), w), k)
    ensures var h := Home(hash, k, |s|);
      && Stack(s, hash, k) ==
         (if Holds(SlotAt(s, h, u), k) then [SlotAt(s, h, u).value] else []) + Collect(s, h, u + 1, k)
      && Stack(s[At(h, u, |s|) := x], hash, k) ==
         (if Holds(x, k) then [x.value] else []) + Collect(s, h, u + 1, k)
  {
    var h := Home(hash, k, |s|);
    var s' := s[At(h, u, |s|) := x];
    forall w: nat | w < |s| && w != u ensures SlotAt(s', h, w) == SlotAt(s, h, w) {}
    StackFrom(s, hash, u, k);
    StackFrom(s', hash, u, k);
    CollectSame(s, s', h, u + 1, k);
  }

  // ---------- the searches ----------

  lemma StackMember<K, V>(s: seq<Slot<K, V>>, hash: K -> nat, k: K, v: V)
    ensures v in Stack(s, hash, k) <==> Live(k, v) in s
  {
    if |s| > 0 {
      var h := Home(hash, k, |s|);
      CollectMember(s, h, 0, k, v);
      if Live(k, v) in s {
        var j: nat :| j < |s| && s[j] == Live(k, v);
        assert SlotAt(s, h, Offset(h, j, |s|)) == Live(k, v);
      }
    }
  }

  /** `has`, `get` and `ref` report presence and the head. */
  lemma FindSeesHead<K(!new), V>(t: Table<K, V>, hash: K -> nat, k: K)
    requires Inv(t, hash)
    ensures Find(t, hash, k).Some? <==> Stack(t.slots, hash, k) != []
    ensures Find(t, hash, k).Some? ==>
      t.slots[Find(t, hash, k).value].value == Stack(t.slots, hash, k)[0]
  {
    if |t.slots| > 0 {
      var s, h := t.slots, Home(hash, k, |t.slots|);
      ProbesTerminate(t, h, k);
      SeekIsFirst(s, h, 0, k);
      var u := Seek(s, h, 0, k);
      CollectSkips(s, h, 0, u, k);
      if SlotAt(s, h, u).Empty? {
        forall w: nat | u <= w < |s| ensures !Holds(SlotAt(s, h, w), k) {}
        CollectSkips(s, h, u, |s|, k);
      }
    }
  }

  lemma AnswerIsHead<K(!new), V>(t: Table<K, V>, hash: K -> nat, k: K)
    requires Inv(t, hash)
    ensures var a := Stack(t.slots, hash, k); Answer(t, hash, k) == if a == [] then None else Some(a[0])
  {
    FindSeesHead(t, hash, k);
  }

  // ---------- set without growth, remove ----------

  /** A dead slot comes before some live slot of `k`, so `set` will stop short of it. */
  ghost predicate TombstoneAhead<K, V>(s: seq<Slot<K, V>>, hash: K -> nat, k: K) {
    |s| > 0 &&
    exists w: nat, u: nat ::
      w < u < |s| && SlotAt(s, Home(hash, k, |s|), w).Dead? && Holds(SlotAt(s, Home(hash, k, |s|), u), k)
      && forall x: nat :: x < u ==> !Holds(SlotAt(s, Home(hash, k, |s|), x), k)
  }

  /** `set` without growth replaces the head, or pushes when a dead slot comes first. */
  lemma PutReplacesOrPushes<K(!new), V>(t: Table<K, V>, hash: K -> nat, key: K, value: V)
    requires Inv(t, hash) && !NeedsGrowth(t)
    ensures var before, after := Stack(t.slots, hash, key), Stack(Put(t, hash, key, value).slots, hash, key);
      after == [value] + if before == [] || TombstoneAhead(t.slots, hash, key) then before else before[1..]
  {
    var s, h := t.slots, Home(hash, key, |t.slots|);
    StopDecides(t, hash, key);
    StackHeadChange(s, hash, Stop(s, h, 0, key), Live(key, value), key);
  }

  /** What lies at the slot `set` stops at tells whether it replaces or pushes. */
  lemma StopDecides<K(!new), V>(t: Table<K, V>, hash: K -> nat, key: K)
    requires Inv(t, hash) && |t.slots| > 0
    ensures var s, h := t.slots, Home(hash, key, |t.slots|);
      var u := Stop(s, h, 0, key);
      && u < |s| && (forall w: nat :: w < u ==> !Holds(SlotAt(s, h, w), key))
      && if Holds(SlotAt(s, h, u), key) then !TombstoneAhead(s, hash, key)
         else Stack(s, hash, key) == [] || TombstoneAhead(s, hash, key)
  {
    var s, h := t.slots, Home(hash, key, |t.slots|);
    ProbesTerminate(t, h, key);
    StopIsFirst(s, h, 0, key);
    var u := Stop(s, h, 0, key);
    if SlotAt(s, h, u).Empty? {
      EmptyFirst(t, hash, key, u);
    } else if SlotAt(s, h, u).Dead? {
      DeadFirst(t, hash, key, u);
    } else {
      LiveFirst(s, hash, key, u);
    }
  }

  lemma LiveFirst<K(!new), V>(s: seq<Slot<K, V>>, hash: K -> nat, key: K, u: nat)
    requires u < |s| && Holds(SlotAt(s, Home(hash, key, |s|), u), key)
    requires forall w: nat :: w < u ==> SlotAt(s, Home(hash, key, |s|), w).Live?
    ensures !TombstoneAhead(s, hash, key)
  {
  }

  lemma EmptyFirst<K(!new), V>(t: Table<K, V>, hash: K -> nat, key: K, u: nat)
    requires Inv(t, hash) && u < |t.slots| && SlotAt(t.slots, Home(hash, key, |t.slots|), u).Empty?
    requires forall w: nat :: w < u ==> !Holds(SlotAt(t.slots, Home(hash, key, |t.slots|), w), key)
    ensures Stack(t.slots, hash, key) == []
  {
    var s, h := t.slots, Home(hash, key, |t.slots|);
    forall w: nat | w < |s| ensures !Holds(SlotAt(s, h, w), key) {}
    CollectSkips(s, h, 0, |s|, key);
  }

  lemma DeadFirst<K(!new), V>(t: Table<K, V>, hash: K -> nat, key: K, u: nat)
    requires Inv(t, hash) && u < |t.slots| && SlotAt(t.slots, Home(hash, key, |t.slots|), u).Dead?
    requires forall w: nat :: w < u ==> !Holds(SlotAt(t.slots, Home(hash, key, |t.slots|), w), key)
    ensures Stack(t.slots, hash, key) == [] || TombstoneAhead(t.slots, hash, key)
  {
    var s, h := t.slots, Home(hash, key, |t.slots|);
    if Stack(s, hash, key) != [] {
      FindSeesHead(t, hash, key);
      SeekIsFirst(s, h, 0, key);
      var x := Seek(s, h, 0, key);
      assert Holds(SlotAt(s, h, x), key);
      assert u < x;
    }
  }

  lemma PutFrame<K(!new), V>(t: Table<K, V>, hash: K -> nat, key: K, value: V, other: K)
    requires Inv(t, hash) && !NeedsGrowth(t) && other != key
    ensures Stack(Put(t, hash, key, value).slots, hash, other) == Stack(t.slots, hash, other)
  {
    var j, h := Target(t, hash, key), Home(hash, key, |t.slots|);
    ProbesTerminate(t, h, key);
    StopIsFirst(t.slots, h, 0, key);
    StackFrame(t.slots, hash, j, Live(key, value), other);
  }

  /** `remove` pops the head of its key and disturbs no other key. */
  lemma RemovePops<K(!new), V>(t: Table<K, V>, hash: K -> nat, key: K, other: K)
    requires Inv(t, hash) && Find(t, hash, key).Some?
    ensures Stack(t.slots, hash, key) != []
    ensures Stack(Remove(t, hash, key).slots, hash, key) == Stack(t.slots, hash, key)[1..]
    ensures other != key ==> Stack(Remove(t, hash, key).slots, hash, other) == Stack(t.slots, hash, other)
  {
    var s, h := t.slots, Home(hash, key, |t.slots|);
    var j := Find(t, hash, key).value;
    ProbesTerminate(t, h, key);
    SeekIsFirst(s, h, 0, key);
    var u := Seek(s, h, 0, key);
    StackHeadChange(s, hash, u, Dead(s[j].key, s[j].value), key);
    if other != key {
      StackFrame(s, hash, j, Dead(s[j].key, s[j].value), other);
    }
  }

  /** Writing through the pointer `ref` returns replaces the head and nothing else. */
  lemma WriteReplacesHead<K(!new), V>(t: Table<K, V>, hash: K -> nat, key: K, value: V, other: K)
    requires Inv(t, hash) && Find(t, hash, key).Some?
    ensures Stack(t.slots, hash, key) != []
    ensures Stack(Write(t, hash, key, value).slots, hash, key) == [value] + Stack(t.slots, hash, key)[1..]
    ensures other != key ==> Stack(Write(t, hash, key, value).slots, hash, other) == Stack(t.slots, hash, other)
  {
    var s, h := t.slots, Home(hash, key, |t.slots|);
    ProbesTerminate(t, h, key);
    SeekIsFirst(s, h, 0, key);
    StackHeadChange(s, hash, Seek(s, h, 0, key), Live(key, value), key);
    if other != key {
      StackFrame(s, hash, Find(t, hash, key).value, Live(key, value), other);
    }
  }

  // ---------- growth ----------

  /** The value of `k` in its highest-numbered live slot among the first `n`. */
  function LastLive<K(==), V>(s: seq<Slot<K, V>>, n: nat, k: K): (r: seq<V>)
    requires n <= |s|
    ensures |r| <= 1
  {
    if n == 0 then [] else if Holds(s[n - 1], k) then [s[n - 1].value] else LastLive(s, n - 1, k)
  }

  ghost predicate NoDead<K, V>(s: seq<Slot<K, V>>) {
    forall j: nat :: j < |s| ==> !s[j].Dead?
  }

  lemma {:induction false} RefillKeepsLast<K(!new), V>(s: seq<Slot<K, V>>, n: nat, t: Table<K, V>, hash: K -> nat, k: K)
    requires n <= |s| && HasRoomFor(t, hash, LiveCount(s[..n]))
    requires forall j: nat :: j < |t.slots| ==> t.slots[j].Empty?
    ensures var r := Refill(s, n, t, hash); NoDead(r.slots) && Stack(r.slots, hash, k) == LastLive(s, n, k)
    decreases n
  {
    if n == 0 {
      CollectSkips(t.slots, Home(hash, k, |t.slots|), 0, |t.slots|, k);
    } else {
      assert s[..n][..n - 1] == s[..n - 1];
      RefillKeepsLast(s, n - 1, t, hash, k);
      var r := Refill(s, n - 1, t, hash);
      if s[n - 1].Live? {
        if s[n - 1].key == k {
          PutReplacesOrPushes(r, hash, k, s[n - 1].value);
        } else {
          PutFrame(r, hash, s[n - 1].key, s[n - 1].value, k);
        }
      }
    }
  }

  lemma {:induction false} LastLiveIsLive<K, V>(s: seq<Slot<K, V>>, n: nat, k: K)
    requires n <= |s|
    ensures LastLive(s, n, k) != [] ==> Live(k, LastLive(s, n, k)[0]) in s
    ensures LastLive(s, n, k) == [] ==> forall j: nat :: j < n ==> !Holds(s[j], k)
  {
    if n > 0 {
      LastLiveIsLive(s, n - 1, k);
    }
  }

  lemma LastLiveInStack<K, V>(s: seq<Slot<K, V>>, hash: K -> nat, k: K)
    ensures var last, stack := LastLive(s, |s|, k), Stack(s, hash, k);
      && (last == [] <==> stack == [])
      && (last != [] ==> last[0] in stack)
      && (|stack| <= 1 ==> last == stack)
  {
    var last, stack := LastLive(s, |s|, k), Stack(s, hash, k);
    LastLiveIsLive(s, |s|, k);
    if last != [] {
      StackMember(s, hash, k, last[0]);
    } else if stack != [] {
      StackMember(s, hash, k, stack[0]);
    }
  }

  /** Growth keeps every key, once, with the value of its highest-numbered live slot. */
  lemma GrowthKeepsLast<K(!new), V>(t: Table<K, V>, hash: K -> nat, k: K)
    requires Inv(t, hash) && NeedsGrowth(t)
    ensures NoDead(Rehash(t, hash).slots)
    ensures Stack(Rehash(t, hash).slots, hash, k) == LastLive(t.slots, |t.slots|, k)
    ensures Stack(t.slots, hash, k) == [] <==> Stack(Rehash(t, hash).slots, hash, k) == []
    ensures |Stack(t.slots, hash, k)| <= 1 ==> Stack(Rehash(t, hash).slots, hash, k) == Stack(t.slots, hash, k)
  {
    LastLiveInStack(t.slots, hash, k);
    RehashStack(t, hash, k);
  }

  lemma RehashStack<K(!new), V>(t: Table<K, V>, hash: K -> nat, k: K)
    requires Inv(t, hash) && NeedsGrowth(t)
    ensures NoDead(Rehash(t, hash).slots)
    ensures Stack(Rehash(t, hash).slots, hash, k) == LastLive(t.slots, |t.slots|, k)
  {
    BlankIsFresh<K, V>(t, hash);
    assert t.slots[..|t.slots|] == t.slots;
    RefillKeepsLast(t.slots, |t.slots|, Blank(NewCapacity(|t.slots|)), hash, k);
  }

  lemma {:induction false} LastLiveSkips<K, V>(s: seq<Slot<K, V>>, m: nat, n: nat, k: K)
    requires m <= n <= |s|
    requires forall j: nat :: m <= j < n ==> !Holds(s[j], k)
    ensures LastLive(s, n, k) == LastLive(s, m, k)
  {
    if m < n {
      LastLiveSkips(s, m, n - 1, k);
    }
  }

  /** If no live slot of `k` lies below its home, growth answers with the bottom of the stack: the oldest value. */
  lemma {:induction false} LastLiveIsBottom<K, V>(s: seq<Slot<K, V>>, h: nat, t: nat, k: K)
    requires h < |s| && h + t <= |s|
    requires forall j: nat :: j < h ==> !Holds(s[j], k)
    ensures var c := Collect(s, h, t, k); c != [] ==> LastLive(s, |s|, k) == [c[|c| - 1]]
    decreases |s| - t
  {
    if h + t == |s| {
      CollectSkips(s, h, t, |s|, k);
    } else {
      LastLiveIsBottom(s, h, t + 1, k);
      if Holds(SlotAt(s, h, t), k) && Collect(s, h, t + 1, k) == [] {
        forall j: nat | h + t < j < |s| ensures !Holds(s[j], k) {
          if Holds(s[j], k) {
            CollectMember(s, h, t + 1, k, SlotAt(s, h, j - h).value);
          }
        }
        LastLiveSkips(s, h + t + 1, |s|, k);
      }
    }
  }

  lemma GrowthKeepsBottom<K(!new), V>(t: Table<K, V>, hash: K -> nat, k: K)
    requires Inv(t, hash) && NeedsGrowth(t) && Stack(t.slots, hash, k) != []
    requires forall j: nat :: j < |t.slots| && j < Home(hash, k, |t.slots|) ==> !Holds(t.slots[j], k)
    ensures var a := Stack(t.slots, hash, k); Stack(Rehash(t, hash).slots, hash, k) == [a[|a| - 1]]
  {
    LastLiveIsBottom(t.slots, Home(hash, k, |t.slots|), 0, k);
    GrowthKeepsLast(t, hash, k);
  }
}
