/** Insert and remove on one tree: the slot changes, every other tree keeps its view. */
module BitTreeEdit {
  import opened BitTree
  import opened BitTreeCopy
  import opened BitTreeInvariant
  import opened BitTreeRelease
  import opened BitTreeSteps
  import opened BitWords
  import opened Wrappers

  /** The indices lead to the same slot below a node of the level. */
  ghost predicate SameKey(a: nat, b: nat, level: nat) {
    level == 0 || (LevelIndex(a, level) == LevelIndex(b, level) && SameKey(a, b, level - 1))
  }

  ghost function Outcome<T>(act: Action<T>): Option<T> {
    match act
    case Insert(v) => Some(v)
    case Delete => None
  }

  /** After the edit below `m`: its slot shows the outcome and the others what `n` showed before. */
  ghost predicate Shows<T>(st: Store<T>, n: nat, s: Store<T>, m: nat, level: nat, index: nat, act: Action<T>) {
    forall k: nat :: Find(s, m, level, k) == if SameKey(k, index, level) then Outcome(act) else Find(st, n, level, k)
  }

  ghost predicate Edited<T>(st: Store<T>, n: nat, s: Store<T>, m: nat, was: Option<T>, level: nat, index: nat,
                            act: Action<T>, ext: multiset<nat>, holes: set<Slot>) {
    && Private(s, m, level, ext, holes) && Kept(st, s, ext, holes)
    && was == Find(st, n, level, index) && Shows(st, n, s, m, level, index, act)
    && (act.Insert? ==> !IsZero(s.nodes[m].bits))
  }

  // ---------------------------------------------------------------------------------------
  // The last level
  // ---------------------------------------------------------------------------------------

  lemma EditLeafInv<T>(s: Store<T>, m: nat, i: nat, act: Action<T>, ext: multiset<nat>, holes: set<Slot>)
    requires Private(s, m, 1, ext, holes) && i < BITS
    ensures Inv(EditLeaf(s, m, i, act).0, ext + multiset{m}, holes, {})
  {
    var sl := Slot(m, i);
    var s1 := HandBack(s, s.nodes[m].ptrs[i]);
    PrivateUnnamed(s, m, ext, holes, {});
    OpenItem(s, sl, ext + multiset{m}, holes, {});
    assert holes + {sl} - {sl} == holes;
    hide Inv;
    match act {
      case Insert(v) =>
        var s2 := SetBit(s1, m, i, true);
        WriteHole(s1, sl, s1.nodes[m].ptrs[i], true, ext + multiset{m}, holes + {sl}, {});
        assert s2.nodes[m].ptrs[i := s2.nodes[m].ptrs[i]] == s2.nodes[m].ptrs;
        assert WriteSlot(s1, sl, s1.nodes[m].ptrs[i], true) == s2;
        CloseItem(s2, sl, v, ext + multiset{m}, holes + {sl}, {});
      case Delete =>
        WriteHole(s1, sl, 0, false, ext + multiset{m}, holes + {sl}, {});
        CloseNull(WriteSlot(s1, sl, 0, false), sl, ext + multiset{m}, holes + {sl}, {});
    }
  }

  lemma EditLeafKept<T>(s: Store<T>, m: nat, i: nat, act: Action<T>, ext: multiset<nat>, holes: set<Slot>)
    requires Private(s, m, 1, ext, holes) && i < BITS
    ensures Kept(s, EditLeaf(s, m, i, act).0, ext, holes)
  {
    var s' := EditLeaf(s, m, i, act).0;
    PrivateUnnamed(s, m, ext, holes, {});
    EditLeafAgree(s, m, i, act, holes);
    assert forall x :: x in s.nodes && x != m ==> x in s'.nodes && s'.nodes[x] == s.nodes[x];
    hide EditLeaf, Agree;
    KeptBy(s, s', {m}, ext, holes);
  }

  lemma EditLeafAgree<T>(s: Store<T>, m: nat, i: nat, act: Action<T>, holes: set<Slot>)
    requires m in s.nodes && i < BITS && SlotsOk(s, holes) && ItemsOk(s, holes) && Slot(m, i) !in holes && s.nodes[m].level == 1
    ensures Agree(s, EditLeaf(s, m, i, act).0, {m})
  {
    var p := s.nodes[m].ptrs[i];
    assert SlotOk(s, Slot(m, i)) && (p in s.items ==> ItemOk(s, p, holes));
    assert s.next in s.items ==> ItemOk(s, s.next, holes);
    match act {
      case Insert(_) =>
      case Delete =>
    }
  }

  lemma EditLeafShows<T>(s: Store<T>, m: nat, index: nat, act: Action<T>, ext: multiset<nat>, holes: set<Slot>)
    requires Private(s, m, 1, ext, holes)
    ensures var (s', was) := EditLeaf(s, m, LevelIndex(index, 1), act);
            was == Find(s, m, 1, index) && Shows(s, m, s', m, 1, index, act)
  {
    hide LevelIndex, Inv, EditLeaf;
    var i := LevelIndex(index, 1);
    var s' := EditLeaf(s, m, i, act).0;
    EditLeafItem(s, m, i, act, i, ext, holes);
    forall k: nat
      ensures Find(s', m, 1, k) == if SameKey(k, index, 1) then Outcome(act) else Find(s, m, 1, k)
    {
      EditLeafItem(s, m, i, act, LevelIndex(k, 1), ext, holes);
      assert SameKey(k, index, 1) <==> LevelIndex(k, 1) == i by { assert SameKey(k, index, 0); }
    }
  }

  /** The value a slot of a last-level node holds. */
  ghost function Held<T>(s: Store<T>, m: nat, j: nat): Option<T>
    requires m in s.nodes && j < BITS
  {
    var p := s.nodes[m].ptrs[j];
    if p != 0 && p in s.items then Some(s.items[p].value) else None
  }

  lemma EditLeafItem<T>(s: Store<T>, m: nat, i: nat, act: Action<T>, j: nat, ext: multiset<nat>, holes: set<Slot>)
    requires Private(s, m, 1, ext, holes) && i < BITS && j < BITS
    ensures var (s', was) := EditLeaf(s, m, i, act);
            was == Held(s, m, i) && m in s'.nodes && Held(s', m, j) == if j == i then Outcome(act) else Held(s, m, j)
  {
    var p := s.nodes[m].ptrs[j];
    assert SlotOk(s, Slot(m, i)) && SlotOk(s, Slot(m, j));
    assert p in s.items ==> ItemOk(s, p, holes);
    assert s.next in s.items ==> ItemOk(s, s.next, holes);
    hide Inv;
    match act {
      case Insert(_) =>
      case Delete =>
    }
  }

  lemma EditLeafOk<T>(st: Store<T>, n: nat, s: Store<T>, m: nat, index: nat, act: Action<T>, ext: multiset<nat>, holes: set<Slot>)
    requires Private(s, m, 1, ext, holes) && Kept(st, s, ext, holes) && SameEntries(st, n, s, m, 1)
    ensures var (s', was) := EditLeaf(s, m, LevelIndex(index, 1), act);
            Edited(st, n, s', m, was, 1, index, act, ext, holes)
  {
    var i := LevelIndex(index, 1);
    var s' := EditLeaf(s, m, i, act).0;
    EditLeafInv(s, m, i, act, ext, holes);
    EditLeafKept(s, m, i, act, ext, holes);
    EditLeafShows(s, m, index, act, ext, holes);
    assert act.Insert? ==> s'.nodes[m].bits[i];
    assert s'.nodes[m].refs == 1 && s'.nodes[m].level == 1;
    hide Inv, Kept, EditLeaf;
    KeptTrans(st, s, s', ext, holes);
  }

  // ---------------------------------------------------------------------------------------
  // The child of an inner node
  // ---------------------------------------------------------------------------------------

  /** The child `c` of slot `i` of `m` is in hand and the slot is open. */
  ghost predicate ChildInHand<T>(s: Store<T>, m: nat, level: nat, i: nat, c: nat, ext: multiset<nat>, holes: set<Slot>) {
    && i < BITS && level > 1
    && Inv(s, ext + multiset{m} + multiset{c}, holes + {Slot(m, i)}, {})
    && m in s.nodes && s.nodes[m].refs == 1 && s.nodes[m].level == level && s.nodes[m].bits[i] && m !in ext
    && c in s.nodes && s.nodes[c].level == level - 1 && Unholed(c, holes + {Slot(m, i)}) && Unholed(m, holes)
  }

  lemma EnsureOld<T>(s: Store<T>, m: nat, level: nat, i: nat, ext: multiset<nat>, holes: set<Slot>)
    requires Private(s, m, level, ext, holes) && level > 1 && i < BITS && s.nodes[m].ptrs[i] != 0
    ensures ChildInHand(s, m, level, i, s.nodes[m].ptrs[i], ext, holes)
  {
    PrivateUnnamed(s, m, ext, holes, {});
    assert SlotOk(s, Slot(m, i));
    OpenHole(s, Slot(m, i), ext + multiset{m}, holes, {});
  }

  lemma EnsureNew<T>(s: Store<T>, m: nat, level: nat, i: nat, ext: multiset<nat>, holes: set<Slot>)
    requires Private(s, m, level, ext, holes) && level > 1 && i < BITS && s.nodes[m].ptrs[i] == 0
    ensures var s2 := EnsureChild(s, m, level, i);
            ChildInHand(s2, m, level, i, s.next, ext, holes) && s2.nodes[m].ptrs[i] == s.next
  {
    var sl := Slot(m, i);
    var n1 := NewNode(s, level - 1, Zero());
    PrivateUnnamed(s, m, ext, holes, {});
    NewNodeStep(s, level - 1, Zero(), ext + multiset{m}, holes, {});
    var e := ext + multiset{m} + multiset{s.next};
    assert CountOk(n1, m, e, holes, {});
    hide Inv, Kept;
    OpenNull(n1, sl, e, holes, {});
    WriteHole(n1, sl, s.next, true, e, holes + {sl}, {});
  }

  lemma EnsureNewKept<T>(s: Store<T>, m: nat, level: nat, i: nat, ext: multiset<nat>, holes: set<Slot>)
    requires Private(s, m, level, ext, holes) && level > 1 && i < BITS && s.nodes[m].ptrs[i] == 0
    ensures var s2 := EnsureChild(s, m, level, i); Kept(s, s2, ext, holes) && SameEntries(s, m, s2, m, level)
  {
    var s2 := EnsureChild(s, m, level, i);
    PrivateUnnamed(s, m, ext, holes, {});
    assert forall x :: x in s.nodes ==> NodeOk(s, x);
    assert Agree(s, s2, {m}) && s2.nodes[s.next].ptrs == Nulls();
    KeptBy(s, s2, {m}, ext, holes);
    hide Inv, Kept;
    forall k: nat
      ensures Find(s2, m, level, k) == Find(s, m, level, k)
    {
      EnsureNewFind(s, s2, m, level, i, holes, k);
    }
  }

  lemma EnsureNewFind<T>(s: Store<T>, s2: Store<T>, m: nat, level: nat, i: nat, holes: set<Slot>, k: nat)
    requires NodesOk(s) && SlotsOk(s, holes) && HolesOk(s, holes) && m in s.nodes && s.nodes[m].level == level > 1 && i < BITS
    requires Unholed(m, holes) && Parents(s, m, holes) == {} && s.nodes[m].ptrs[i] == 0 && Agree(s, s2, {m})
    requires m in s2.nodes && s2.nodes[m].ptrs == s.nodes[m].ptrs[i := s.next]
    requires s.next in s2.nodes && s2.nodes[s.next].ptrs == Nulls()
    ensures Find(s2, m, level, k) == Find(s, m, level, k)
  {
    hide LevelIndex;
    var j := LevelIndex(k, level);
    var q := s.nodes[m].ptrs[j];
    if q != 0 {
      assert SlotOk(s, Slot(m, j)) && Slot(m, j) in Parents(s, q, holes);
      FindSame(s, s2, {m}, holes, q, k);
    } else if j == i {
      assert Find(s2, s.next, level - 1, k) == None;
    }
  }

  lemma EnsureOk<T>(s: Store<T>, m: nat, level: nat, i: nat, ext: multiset<nat>, holes: set<Slot>)
    requires Private(s, m, level, ext, holes) && level > 1 && i < BITS
    ensures var s2 := EnsureChild(s, m, level, i);
            && ChildInHand(s2, m, level, i, s2.nodes[m].ptrs[i], ext, holes)
            && Kept(s, s2, ext, holes) && SameEntries(s, m, s2, m, level) && s2.nodes[m].ptrs[i] != 0
  {
    hide ChildInHand, Kept;
    if s.nodes[m].ptrs[i] == 0 {
      EnsureNew(s, m, level, i, ext, holes);
      EnsureNewKept(s, m, level, i, ext, holes);
    } else {
      EnsureOld(s, m, level, i, ext, holes);
      KeptSelf(s, ext, holes);
    }
  }

  // ---------------------------------------------------------------------------------------
  // After the edit below
  // ---------------------------------------------------------------------------------------

  lemma SettleKeep<T>(s: Store<T>, m: nat, level: nat, i: nat, c: nat, ext: multiset<nat>, holes: set<Slot>)
    requires ChildInHand(s, m, level, i, c, ext, holes) && !IsZero(s.nodes[c].bits)
    ensures Private(SetPtr(s, m, i, c), m, level, ext, holes)
  {
    var sl := Slot(m, i);
    var s4 := SetPtr(s, m, i, c);
    assert NodeOk(s, c);
    assert holes + {sl} - {sl} == holes;
    assert ext + multiset{m} + multiset{c} == ext + multiset{c} + multiset{m};
    hide Inv;
    WritePtr(s, m, i, c, ext + multiset{m} + multiset{c}, holes + {sl}, {});
    CloseHole(s4, sl, ext + multiset{m}, holes + {sl}, {});
  }

  /** The empty child is released and the slot cleared. */
  function DropChild<T>(s: Store<T>, m: nat, level: nat, i: nat, c: nat): Store<T>
    requires m in s.nodes && i < BITS && level > 0
  {
    var s6 := FreeNode(SetBit(SetPtr(s, m, i, c), m, i, false), c, level - 1);
    if m in s6.nodes then SetPtr(s6, m, i, 0) else s6
  }

  lemma SettleDropFree<T>(s: Store<T>, m: nat, level: nat, i: nat, c: nat, ext: multiset<nat>, holes: set<Slot>)
    requires ChildInHand(s, m, level, i, c, ext, holes) && c != m
    ensures var s5 := SetBit(SetPtr(s, m, i, c), m, i, false); var s6 := FreeNode(s5, c, level - 1);
            && Inv(s6, ext + multiset{m}, holes + {Slot(m, i)}, {}) && Kept(s5, s6, ext + multiset{m}, holes + {Slot(m, i)})
            && m in s6.nodes && s6.nodes[m] == s5.nodes[m]
  {
    var sl := Slot(m, i);
    var s5 := SetBit(SetPtr(s, m, i, c), m, i, false);
    var e := ext + multiset{m} + multiset{c};
    assert s5 == WriteSlot(s, sl, c, false);
    WriteHole(s, sl, c, false, e, holes + {sl}, {});
    assert s5.nodes[c] == s.nodes[c] && c in s5.nodes && m in s5.nodes;
    assert NodeOk(s, m);
    hide Inv;
    FreeOk(s5, c, level - 1, ext + multiset{m}, holes + {sl}, {});
    assert m in ext + multiset{m};
    assert KeptNode(s5, FreeNode(s5, c, level - 1), holes + {sl}, m);
  }

  lemma SettleDrop<T>(s: Store<T>, m: nat, level: nat, i: nat, c: nat, ext: multiset<nat>, holes: set<Slot>)
    requires ChildInHand(s, m, level, i, c, ext, holes) && c != m
    ensures Private(DropChild(s, m, level, i, c), m, level, ext, holes)
  {
    var sl := Slot(m, i);
    var s5 := SetBit(SetPtr(s, m, i, c), m, i, false);
    var s6 := FreeNode(s5, c, level - 1);
    SettleDropFree(s, m, level, i, c, ext, holes);
    assert holes + {sl} - {sl} == holes;
    assert !s5.nodes[m].bits[i] && s5.nodes[m].refs == 1 && s5.nodes[m].level == level;
    hide Inv, Kept, FreeNode;
    WritePtr(s6, m, i, 0, ext + multiset{m}, holes + {sl}, {});
    CloseNull(SetPtr(s6, m, i, 0), sl, ext + multiset{m}, holes + {sl}, {});
  }

  /** `s'` differs from `s` in slot `i` of `m` at most. */
  ghost predicate Rewritten<T>(s: Store<T>, s': Store<T>, m: nat, i: nat) {
    && m in s.nodes && m in s'.nodes && s'.nodes[m].level == s.nodes[m].level && s'.items == s.items
    && (forall x :: x in s.nodes && x != m ==> x in s'.nodes && s'.nodes[x] == s.nodes[x])
    && (forall j :: 0 <= j < BITS && j != i ==> s'.nodes[m].ptrs[j] == s.nodes[m].ptrs[j])
  }

  /** Rewriting the open slot keeps every other reference. */
  lemma RewrittenKept<T>(s: Store<T>, s': Store<T>, m: nat, level: nat, i: nat, c: nat, ext: multiset<nat>, holes: set<Slot>)
    requires ChildInHand(s, m, level, i, c, ext, holes) && Rewritten(s, s', m, i)
    ensures Kept(s, s', ext, holes)
  {
    var wide := holes + {Slot(m, i)};
    assert Parents(s, m, wide) == {};
    KeptBy(s, s', {m}, ext, wide);
    KeptFewer(s, s', ext, ext, holes, wide);
  }

  lemma RewrittenOther<T>(s: Store<T>, s': Store<T>, m: nat, level: nat, i: nat, c: nat, ext: multiset<nat>, holes: set<Slot>, k: nat)
    requires ChildInHand(s, m, level, i, c, ext, holes) && Rewritten(s, s', m, i) && LevelIndex(k, level) != i
    ensures Find(s', m, level, k) == Find(s, m, level, k)
  {
    var wide := holes + {Slot(m, i)};
    var j := LevelIndex(k, level);
    var q := s.nodes[m].ptrs[j];
    assert Parents(s, m, wide) == {};
    if q != 0 {
      assert SlotOk(s, Slot(m, j)) && Slot(m, j) in Parents(s, q, wide);
      FindSame(s, s', {m}, wide, q, k);
    }
  }

  lemma RewrittenChild<T>(s: Store<T>, s': Store<T>, m: nat, level: nat, i: nat, c: nat, ext: multiset<nat>, holes: set<Slot>, k: nat)
    requires ChildInHand(s, m, level, i, c, ext, holes) && Rewritten(s, s', m, i)
    ensures c != 0 && Find(s', c, level - 1, k) == Find(s, c, level - 1, k)
  {
    var wide := holes + {Slot(m, i)};
    assert Parents(s, m, wide) == {} && NodeOk(s, c);
    FindSame(s, s', {m}, wide, c, k);
  }

  /** What the node shows once its slot is settled. */
  ghost predicate Settled<T>(s: Store<T>, s': Store<T>, m: nat, level: nat, i: nat, c: nat, ext: multiset<nat>, holes: set<Slot>)
    requires level > 0
  {
    && Private(s', m, level, ext, holes) && Kept(s, s', ext, holes)
    && forall k: nat :: Find(s', m, level, k) == if LevelIndex(k, level) == i then Find(s, c, level - 1, k) else Find(s, m, level, k)
  }

  lemma SettledKeep<T>(s: Store<T>, m: nat, level: nat, i: nat, c: nat, ext: multiset<nat>, holes: set<Slot>)
    requires ChildInHand(s, m, level, i, c, ext, holes) && !IsZero(s.nodes[c].bits)
    ensures Settled(s, SetPtr(s, m, i, c), m, level, i, c, ext, holes)
  {
    var s' := SetPtr(s, m, i, c);
    SettleKeep(s, m, level, i, c, ext, holes);
    RewrittenKept(s, s', m, level, i, c, ext, holes);
    hide Inv, Kept, IsZero;
    forall k: nat
      ensures Find(s', m, level, k) == if LevelIndex(k, level) == i then Find(s, c, level - 1, k) else Find(s, m, level, k)
    {
      if LevelIndex(k, level) == i {
        RewrittenChild(s, s', m, level, i, c, ext, holes, k);
      } else {
        RewrittenOther(s, s', m, level, i, c, ext, holes, k);
      }
    }
  }

  lemma SettledDrop<T>(s: Store<T>, m: nat, level: nat, i: nat, c: nat, ext: multiset<nat>, holes: set<Slot>)
    requires ChildInHand(s, m, level, i, c, ext, holes) && IsZero(s.nodes[c].bits) && c != m
    ensures Settled(s, DropChild(s, m, level, i, c), m, level, i, c, ext, holes)
  {
    hide Inv, Kept, FreeNode;
    var s7 := DropChild(s, m, level, i, c);
    SettleDrop(s, m, level, i, c, ext, holes);
    SettledDropKept(s, m, level, i, c, ext, holes);
    forall k: nat
      ensures Find(s7, m, level, k) == if LevelIndex(k, level) == i then Find(s, c, level - 1, k) else Find(s, m, level, k)
    {
      SettledDropShows(s, m, level, i, c, ext, holes, k);
    }
  }

  lemma SettledDropKept<T>(s: Store<T>, m: nat, level: nat, i: nat, c: nat, ext: multiset<nat>, holes: set<Slot>)
    requires ChildInHand(s, m, level, i, c, ext, holes) && c != m
    ensures Kept(s, DropChild(s, m, level, i, c), ext, holes)
  {
    var sl := Slot(m, i);
    var s5 := SetBit(SetPtr(s, m, i, c), m, i, false);
    var s6 := FreeNode(s5, c, level - 1);
    RewrittenKept(s, s5, m, level, i, c, ext, holes);
    SettleDropFree(s, m, level, i, c, ext, holes);
    hide FreeNode, Kept, Inv;
    KeptFewer(s5, s6, ext, ext + multiset{m}, holes, holes + {sl});
    WriteHoleKept(s6, sl, 0, ext, holes, holes + {sl}, {});
    KeptTrans(s, s5, s6, ext, holes);
    KeptTrans(s, s6, SetPtr(s6, m, i, 0), ext, holes);
  }

  lemma SettledDropShows<T>(s: Store<T>, m: nat, level: nat, i: nat, c: nat, ext: multiset<nat>, holes: set<Slot>, k: nat)
    requires ChildInHand(s, m, level, i, c, ext, holes) && IsZero(s.nodes[c].bits) && c != m
    ensures Find(DropChild(s, m, level, i, c), m, level, k) ==
            if LevelIndex(k, level) == i then Find(s, c, level - 1, k) else Find(s, m, level, k)
  {
    hide FreeNode, LevelIndex, Find;
    var wide := holes + {Slot(m, i)};
    var s5 := SetBit(SetPtr(s, m, i, c), m, i, false);
    var s6 := FreeNode(s5, c, level - 1);
    EmptyShowsNothing(s, c, level - 1, wide, k);
    SettleDropFree(s, m, level, i, c, ext, holes);
    assert KeptNode(s5, s6, wide, m) by { assert m in ext + multiset{m}; }
    hide Kept;
    OtherSlots(s6, m, level, i, ext, wide, k);
    if LevelIndex(k, level) != i {
      RewrittenOther(s, s5, m, level, i, c, ext, holes, k);
    }
  }

  lemma OtherSlots<T>(s: Store<T>, m: nat, level: nat, i: nat, ext: multiset<nat>, wide: set<Slot>, k: nat)
    requires Inv(s, ext + multiset{m}, wide, {}) && m in s.nodes && s.nodes[m].refs == 1 && s.nodes[m].level == level > 1
    requires Slot(m, i) in wide && (forall j: nat :: j != i ==> Slot(m, j) !in wide) && i < BITS
    ensures Find(SetPtr(s, m, i, 0), m, level, k) == if LevelIndex(k, level) == i then None else Find(s, m, level, k)
  {
    var s' := SetPtr(s, m, i, 0);
    var j := LevelIndex(k, level);
    var q := s.nodes[m].ptrs[j];
    PrivateUnnamed(s, m, ext, wide, {});
    if j != i && q != 0 {
      assert SlotOk(s, Slot(m, j)) && Slot(m, j) in Parents(s, q, wide);
      FindSame(s, s', {m}, wide, q, k);
    }
  }

  lemma EmptyShowsNothing<T>(s: Store<T>, c: nat, level: nat, holes: set<Slot>, k: nat)
    requires SlotsOk(s, holes) && c in s.nodes && Unholed(c, holes) && IsZero(s.nodes[c].bits) && level > 0
    ensures Find(s, c, level, k) == None
  {
    assert SlotOk(s, Slot(c, LevelIndex(k, level)));
  }

  // ---------------------------------------------------------------------------------------
  // The edit
  // ---------------------------------------------------------------------------------------

  /** Nothing to delete: the slot on the way is empty. */
  lemma DeleteMissing<T>(st: Store<T>, n: nat, s: Store<T>, m: nat, level: nat, index: nat, ext: multiset<nat>, holes: set<Slot>)
    requires Private(s, m, level, ext, holes) && Kept(st, s, ext, holes) && SameEntries(st, n, s, m, level)
    requires level > 1 && s.nodes[m].ptrs[LevelIndex(index, level)] == 0
    ensures Edited(st, n, s, m, None, level, index, Delete, ext, holes)
  {
    hide Inv, Kept;
    assert Find(s, m, level, index) == None;
    forall k: nat
      ensures Find(s, m, level, k) == if SameKey(k, index, level) then None else Find(st, n, level, k)
    {
    }
  }

  /** Putting the edit of the child together with the rest of the node. */
  lemma EditInner<T>(st: Store<T>, n: nat, s1: Store<T>, s2: Store<T>, s3: Store<T>, s4: Store<T>, m: nat, c0: nat, c: nat,
                     was: Option<T>, level: nat, index: nat, act: Action<T>, ext: multiset<nat>, holes: set<Slot>)
    requires level > 1
    requires Kept(st, s1, ext, holes) && SameEntries(st, n, s1, m, level)
    requires Kept(s1, s2, ext, holes) && SameEntries(s1, m, s2, m, level)
    requires var i := LevelIndex(index, level); ChildInHand(s2, m, level, i, c0, ext, holes) && c0 == s2.nodes[m].ptrs[i] && c0 != 0
    requires Edited(s2, c0, s3, c, was, level - 1, index, act, ext + multiset{m}, holes + {Slot(m, LevelIndex(index, level))})
    requires Settled(s3, s4, m, level, LevelIndex(index, level), c, ext, holes)
    requires act.Insert? ==> m in s4.nodes && !IsZero(s4.nodes[m].bits)
    ensures Edited(st, n, s4, m, was, level, index, act, ext, holes)
  {
    var i := LevelIndex(index, level);
    var wide := holes + {Slot(m, i)};
    KeptFewer(s2, s3, ext, ext + multiset{m}, holes, wide);
    KeptTrans(st, s1, s2, ext, holes);
    KeptTrans(st, s2, s3, ext, holes);
    KeptTrans(st, s3, s4, ext, holes);
    assert KeptNode(s2, s3, wide, m) by { assert m in ext + multiset{m}; }
    hide Kept, Private;
    forall k: nat
      ensures Find(s4, m, level, k) == if SameKey(k, index, level) then Outcome(act) else Find(st, n, level, k)
    {
      assert Find(s2, m, level, k) == Find(st, n, level, k);
      var j := LevelIndex(k, level);
      assert j != i ==> Slot(m, j) !in wide;
    }
    assert Find(s2, m, level, index) == Find(s2, c0, level - 1, index);
  }

  lemma {:induction false} EditOk<T>(st: Store<T>, n: nat, level: nat, index: nat, act: Action<T>, ext: multiset<nat>, holes: set<Slot>)
    requires Inv(st, ext + multiset{n}, holes, {}) && n in st.nodes && level == st.nodes[n].level && Unholed(n, holes)
    ensures var (s, m, was) := Edit(st, n, level, index, act);
            Edited(st, n, s, m, was, level, index, act, ext, holes)
    decreases level
  {
    hide Inv, Kept, Privatise, SameEntries, Edited, EditLeaf, EnsureChild, Settle, LevelIndex, Private, ChildInHand;
    LevelPositive(st, n, ext + multiset{n}, holes);
    PrivatiseOk(st, n, level, ext, holes);
    var (s1, m) := Privatise(st, n, level);
    var i := LevelIndex(index, level);
    if level == 1 {
      EditLeafOk(st, n, s1, m, index, act, ext, holes);
    } else if s1.nodes[m].ptrs[i] == 0 && act.Delete? {
      DeleteMissing(st, n, s1, m, level, index, ext, holes);
    } else {
      EnsureOk(s1, m, level, i, ext, holes);
      EditBelow(st, n, s1, m, level, index, act, ext, holes);
    }
  }

  lemma LevelPositive<T>(st: Store<T>, n: nat, ext: multiset<nat>, holes: set<Slot>)
    requires Inv(st, ext, holes, {}) && n in st.nodes
    ensures st.nodes[n].level > 0
  {
    assert NodeOk(st, n);
  }

  lemma {:induction false} EditBelow<T>(st: Store<T>, n: nat, s1: Store<T>, m: nat, level: nat, index: nat, act: Action<T>,
                                        ext: multiset<nat>, holes: set<Slot>)
    requires level > 1 && Kept(st, s1, ext, holes) && SameEntries(st, n, s1, m, level) && m in s1.nodes
    requires var i := LevelIndex(index, level); var s2 := EnsureChild(s1, m, level, i);
             && ChildInHand(s2, m, level, i, s2.nodes[m].ptrs[i], ext, holes) && s2.nodes[m].ptrs[i] != 0
             && Kept(s1, s2, ext, holes) && SameEntries(s1, m, s2, m, level)
    ensures var i := LevelIndex(index, level); var s2 := EnsureChild(s1, m, level, i);
            var (s3, c, was) := Edit(s2, s2.nodes[m].ptrs[i], level - 1, index, act);
            Edited(st, n, Settle(s3, m, level, i, c, act), m, was, level, index, act, ext, holes)
    decreases level, 0
  {
    var i := LevelIndex(index, level);
    var s2 := EnsureChild(s1, m, level, i);
    var c0 := s2.nodes[m].ptrs[i];
    var wide := holes + {Slot(m, i)};
    hide Inv, Kept, EnsureChild, SameEntries;
    EditOk(s2, c0, level - 1, index, act, ext + multiset{m}, wide);
    var (s3, c, was) := Edit(s2, c0, level - 1, index, act);
    hide Edit;
    StillInHand(s2, s3, m, level, i, c0, c, was, index, act, ext, holes);
    hide ChildInHand, Edited, Shows;
    SettleOk(s3, m, level, i, c, act, ext, holes);
    EditInner(st, n, s1, s2, s3, Settle(s3, m, level, i, c, act), m, c0, c, was, level, index, act, ext, holes);
  }

  lemma StillInHand<T>(s2: Store<T>, s3: Store<T>, m: nat, level: nat, i: nat, c0: nat, c: nat, was: Option<T>, index: nat,
                       act: Action<T>, ext: multiset<nat>, holes: set<Slot>)
    requires ChildInHand(s2, m, level, i, c0, ext, holes)
    requires Edited(s2, c0, s3, c, was, level - 1, index, act, ext + multiset{m}, holes + {Slot(m, i)})
    ensures ChildInHand(s3, m, level, i, c, ext, holes) && (act.Insert? ==> !IsZero(s3.nodes[c].bits))
  {
    assert NodeOk(s2, m);
    assert KeptNode(s2, s3, holes + {Slot(m, i)}, m) by { assert m in ext + multiset{m}; }
    assert NodeOk(s3, c);
  }

  lemma SettleOk<T>(s: Store<T>, m: nat, level: nat, i: nat, c: nat, act: Action<T>, ext: multiset<nat>, holes: set<Slot>)
    requires ChildInHand(s, m, level, i, c, ext, holes) && (act.Insert? ==> !IsZero(s.nodes[c].bits))
    ensures var s' := Settle(s, m, level, i, c, act);
            Settled(s, s', m, level, i, c, ext, holes) && (act.Insert? ==> m in s'.nodes && !IsZero(s'.nodes[m].bits))
  {
    assert c != m;
    if act.Delete? && IsZero(s.nodes[c].bits) {
      SettledDrop(s, m, level, i, c, ext, holes);
      hide Inv, Settled, FreeNode;
      assert SetPtr(s, m, i, c).nodes[c] == s.nodes[c];
      assert Settle(s, m, level, i, c, act) == DropChild(s, m, level, i, c);
    } else {
      SettledKeep(s, m, level, i, c, ext, holes);
      hide Inv, Settled;
      assert SetPtr(s, m, i, c).nodes[c] == s.nodes[c];
      assert Settle(s, m, level, i, c, act) == SetPtr(s, m, i, c);
      assert SetPtr(s, m, i, c).nodes[m].bits[i];
    }
  }
}
