/** Releasing a reference, and with the last one a whole subtree. */
module BitTreeRelease {
  import opened BitTree
  import opened BitTreeInvariant
  import opened BitTreeSteps
  import opened BitWords

  ghost predicate DyingKept<T>(st: Store<T>, st': Store<T>, dying: set<nat>) {
    forall x :: x in dying && x in st.nodes ==> x in st'.nodes && st'.nodes[x] == st.nodes[x]
  }

  ghost predicate Unholed(n: nat, holes: set<Slot>) {
    forall i: nat :: Slot(n, i) !in holes
  }

  ghost function LowSlots(n: nat, k: nat): (r: set<Slot>)
    ensures forall s: Slot :: s in r <==> s.node == n && s.index < k
  {
    set i: nat | i < k :: Slot(n, i)
  }

  /** The slots of `n` below `i` are released, from `st` to `s`. */
  ghost predicate SlotsFreed<T>(st: Store<T>, s: Store<T>, n: nat, i: nat, ext: multiset<nat>, holes: set<Slot>, dying: set<nat>) {
    && Inv(s, ext, holes + LowSlots(n, i), dying) && Kept(st, s, ext, holes) && DyingKept(st, s, dying)
    && n in dying && n in s.nodes && Unholed(n, holes)
  }

  ghost predicate Freed<T>(st: Store<T>, s: Store<T>, ext: multiset<nat>, holes: set<Slot>, dying: set<nat>) {
    Inv(s, ext, holes, dying) && Kept(st, s, ext, holes) && DyingKept(st, s, dying)
  }

  /** Freeing a reference keeps the invariant and every other reference. */
  lemma {:induction false} FreeOk<T>(st: Store<T>, n: nat, level: nat, ext: multiset<nat>, holes: set<Slot>, dying: set<nat>)
    requires Inv(st, ext + multiset{n}, holes, dying) && n in st.nodes && level == st.nodes[n].level && Unholed(n, holes)
    ensures Freed(st, FreeNode(st, n, level), ext, holes, dying)
    decreases level, BITS + 1
  {
    assert CountOk(st, n, ext + multiset{n}, holes, dying);
    DropRef(st, n, ext, holes, dying);
    var s0 := SetRefs(st, n, st.nodes[n].refs - 1);
    if st.nodes[n].refs == 1 {
      FreeStart(s0, n, ext, holes, dying + {n});
      FreeUpToOk(s0, n, level, BITS, ext, holes, dying + {n});
      hide Inv, Kept, FreeUpTo, SlotsFreed;
      FreeEnd(st, s0, FreeUpTo(s0, n, level, BITS), n, ext, holes, dying);
    }
  }

  lemma FreeStart<T>(s0: Store<T>, n: nat, ext: multiset<nat>, holes: set<Slot>, dying: set<nat>)
    requires Inv(s0, ext, holes, dying) && n in dying && n in s0.nodes && Unholed(n, holes)
    ensures SlotsFreed(s0, s0, n, 0, ext, holes, dying)
  {
    assert holes + LowSlots(n, 0) == holes;
    KeptSelf(s0, ext, holes);
  }

  lemma FreeEnd<T>(st: Store<T>, s0: Store<T>, s1: Store<T>, n: nat, ext: multiset<nat>, holes: set<Slot>, dying: set<nat>)
    requires Kept(st, s0, ext, holes) && DyingKept(st, s0, dying) && n !in dying && n in s0.nodes && s0.nodes[n].refs == 0
    requires SlotsFreed(s0, s1, n, BITS, ext, holes, dying + {n})
    ensures Freed(st, DeleteNode(s1, n), ext, holes, dying)
  {
    assert LowSlots(n, BITS) == AllSlotsOf(n, 0);
    hide Inv, Kept;
    DeleteNodeStep(s1, n, ext, holes, dying);
    KeptTrans(st, s0, s1, ext, holes);
    KeptTrans(st, s1, DeleteNode(s1, n), ext, holes);
  }

  lemma {:induction false} FreeUpToOk<T>(st: Store<T>, n: nat, level: nat, i: nat, ext: multiset<nat>, holes: set<Slot>, dying: set<nat>)
    requires SlotsFreed(st, st, n, 0, ext, holes, dying) && n in st.nodes && level == st.nodes[n].level && i <= BITS
    ensures SlotsFreed(st, FreeUpTo(st, n, level, i), n, i, ext, holes, dying)
    decreases level, i
  {
    hide SlotsFreed, FreeSlot;
    if i > 0 {
      FreeUpToOk(st, n, level, i - 1, ext, holes, dying);
      FreeSlotOk(st, FreeUpTo(st, n, level, i - 1), n, level, i - 1, ext, holes, dying);
    }
  }

  /** One turn of the loop in free. */
  lemma FreeSlotOk<T>(st: Store<T>, s1: Store<T>, n: nat, level: nat, i: nat, ext: multiset<nat>, holes: set<Slot>, dying: set<nat>)
    requires SlotsFreed(st, s1, n, i, ext, holes, dying) && n in st.nodes && level == st.nodes[n].level && i < BITS
    ensures SlotsFreed(st, FreeSlot(s1, n, level, i), n, i + 1, ext, holes, dying)
    decreases level, 0
  {
    var s2 := FreeSlot(s1, n, level, i);
    FreeOne(s1, n, level, i, ext, holes, holes + LowSlots(n, i), dying);
    assert holes + LowSlots(n, i) + {Slot(n, i)} == holes + LowSlots(n, i + 1);
    hide Inv, Kept, FreeSlot;
    KeptTrans(st, s1, s2, ext, holes);
  }

  lemma FreeOne<T>(s1: Store<T>, n: nat, level: nat, i: nat, ext: multiset<nat>, holes: set<Slot>, low: set<Slot>, dying: set<nat>)
    requires Inv(s1, ext, low, dying) && n in dying && n in s1.nodes && level == s1.nodes[n].level && i < BITS
    requires low == holes + LowSlots(n, i) && Unholed(n, holes)
    ensures var s2 := FreeSlot(s1, n, level, i);
            Inv(s2, ext, low + {Slot(n, i)}, dying) && Kept(s1, s2, ext, holes) && DyingKept(s1, s2, dying)
    decreases level, 0, 0
  {
    var sl := Slot(n, i);
    var p := s1.nodes[n].ptrs[i];
    assert NodeOk(s1, n);
    assert CountOk(s1, n, ext, low, dying);
    if p == 0 {
      OpenNull(s1, sl, ext, low, dying);
      KeptSelf(s1, ext, holes);
    } else if level <= 1 {
      OpenItem(s1, sl, ext, low, dying);
      var s2 := DeleteItem(s1, p);
      assert SlotOk(s1, sl);
      KeptBy(s1, s2, {n}, ext, low);
      KeptFewer(s1, s2, ext, ext, holes, low);
    } else {
      OpenHole(s1, sl, ext, low, dying);
      FreeOk(s1, p, level - 1, ext, low + {sl}, dying);
      KeptFewer(s1, FreeNode(s1, p, level - 1), ext, ext, holes, low + {sl});
    }
  }
}
