/** What each write of the tree operations does to the invariant. */
module BitTreeSteps {
  import opened BitTree
  import opened BitTreeInvariant
  import opened BitWords

  /** The same slots name the same nodes. */
  ghost predicate SameNames<T>(st: Store<T>, st': Store<T>) {
    forall s, c {:trigger Names(st', s, c)} :: Names(st', s, c) == Names(st, s, c)
  }

  lemma SameParents<T>(st: Store<T>, st': Store<T>, holes: set<Slot>, c: nat)
    requires SameNames(st, st')
    ensures Parents(st', c, holes) == Parents(st, c, holes)
  {
  }

  // ---------------------------------------------------------------------------------------
  // Reference counts
  // ---------------------------------------------------------------------------------------

  lemma SetRefsShape<T>(st: Store<T>, n: nat, k: nat, holes: set<Slot>)
    requires n in st.nodes && NodesOk(st) && SlotsOk(st, holes) && ItemsOk(st, holes) && HolesOk(st, holes)
    ensures var st' := SetRefs(st, n, k);
            && NodesOk(st') && SlotsOk(st', holes) && ItemsOk(st', holes) && HolesOk(st', holes)
            && SameNames(st, st') && Agree(st, st', {})
  {
    var st' := SetRefs(st, n, k);
    forall x | x in st'.nodes ensures NodeOk(st', x) { assert NodeOk(st, x); }
    forall s | IsSlot(st', s) && s !in holes ensures SlotOk(st', s) { assert SlotOk(st, s); }
    forall p | p in st'.items ensures ItemOk(st', p, holes) { assert ItemOk(st, p, holes); }
    forall s | s in holes ensures IsSlot(st', s) && Parents(st', s.node, holes) == {} {
      SameParents(st, st', holes, s.node);
    }
  }

  /** The count of `n` follows the references held outside. */
  lemma RefsCounts<T>(st: Store<T>, n: nat, k: nat, ext: multiset<nat>, ext': multiset<nat>, holes: set<Slot>,
                      dying: set<nat>, dying': set<nat>)
    requires n in st.nodes && CountsOk(st, ext, holes, dying) && SameNames(st, SetRefs(st, n, k))
    requires forall x :: x != n ==> ext'[x] == ext[x]
    requires k + ext[n] == st.nodes[n].refs + ext'[n] && dying' == (if k == 0 then dying + {n} else dying - {n})
    ensures CountsOk(SetRefs(st, n, k), ext', holes, dying')
  {
    var st' := SetRefs(st, n, k);
    forall x | x in st'.nodes ensures CountOk(st', x, ext', holes, dying') {
      assert CountOk(st, x, ext, holes, dying);
      SameParents(st, st', holes, x);
    }
  }

  /** One reference held outside is given up. */
  lemma DropRef<T>(st: Store<T>, n: nat, ext: multiset<nat>, holes: set<Slot>, dying: set<nat>)
    requires Inv(st, ext + multiset{n}, holes, dying) && n in st.nodes
    ensures st.nodes[n].refs > 0
    ensures var k := st.nodes[n].refs - 1;
            && Inv(SetRefs(st, n, k), ext, holes, if k == 0 then dying + {n} else dying)
            && Kept(st, SetRefs(st, n, k), ext, holes)
  {
    hide NodesOk, SlotsOk, ItemsOk, HolesOk, SameNames, Kept, Parents;
    assert CountOk(st, n, ext + multiset{n}, holes, dying);
    var k: nat := st.nodes[n].refs - 1;
    if k == 0 { PrivateUnnamed(st, n, ext, holes, dying); }
    assert n !in dying;
    hide CountsOk, CountOk;
    SetRefsShape(st, n, k, holes);
    RefsCounts(st, n, k, ext + multiset{n}, ext, holes, dying, if k == 0 then dying + {n} else dying);
    KeptBy(st, SetRefs(st, n, k), {}, ext, holes);
  }

  /** One more reference is taken in hand. */
  lemma AddRef<T>(st: Store<T>, n: nat, ext: multiset<nat>, holes: set<Slot>, dying: set<nat>)
    requires Inv(st, ext, holes, dying) && n in st.nodes && Parents(st, n, holes) != {}
    ensures Inv(SetRefs(st, n, st.nodes[n].refs + 1), ext + multiset{n}, holes, dying)
    ensures Kept(st, SetRefs(st, n, st.nodes[n].refs + 1), ext, holes)
  {
    assert CountOk(st, n, ext, holes, dying);
    assert st.nodes[n].refs > 0;
    var k := st.nodes[n].refs + 1;
    hide NodesOk, SlotsOk, ItemsOk, HolesOk, CountsOk, SameNames, Kept;
    SetRefsShape(st, n, k, holes);
    assert dying - {n} == dying;
    RefsCounts(st, n, k, ext, ext + multiset{n}, holes, dying, dying);
    KeptBy(st, SetRefs(st, n, k), {}, ext, holes);
  }

  // ---------------------------------------------------------------------------------------
  // Holes
  // ---------------------------------------------------------------------------------------

  /** Widening the holes by slots of nodes that nothing names. */
  lemma WidenHoles<T>(st: Store<T>, s: Slot, holes: set<Slot>)
    requires SlotsOk(st, holes) && ItemsOk(st, holes) && HolesOk(st, holes)
    requires IsSlot(st, s) && Parents(st, s.node, holes) == {}
    requires st.nodes[s.node].level > 1 || st.nodes[s.node].ptrs[s.index] == 0
    ensures SlotsOk(st, holes + {s}) && ItemsOk(st, holes + {s}) && HolesOk(st, holes + {s})
  {
    forall p | p in st.items ensures ItemOk(st, p, holes + {s}) { assert ItemOk(st, p, holes); }
    forall t | t in holes + {s} ensures IsSlot(st, t) && Parents(st, t.node, holes + {s}) == {} {
      assert Parents(st, t.node, holes + {s}) <= Parents(st, t.node, holes);
    }
  }

  lemma OpenCounts<T>(st: Store<T>, s: Slot, c: nat, ext: multiset<nat>, holes: set<Slot>, dying: set<nat>)
    requires CountsOk(st, ext, holes, dying) && s in Parents(st, c, holes)
    ensures CountsOk(st, ext + multiset{c}, holes + {s}, dying)
  {
    forall x | x in st.nodes ensures CountOk(st, x, ext + multiset{c}, holes + {s}, dying) {
      assert CountOk(st, x, ext, holes, dying);
      assert Parents(st, x, holes + {s}) == Parents(st, x, holes) - (if x == c then {s} else {});
    }
  }

  /** Taking the reference a slot holds in hand. */
  lemma OpenHole<T>(st: Store<T>, s: Slot, ext: multiset<nat>, holes: set<Slot>, dying: set<nat>)
    requires Inv(st, ext, holes, dying) && IsSlot(st, s) && s !in holes && st.nodes[s.node].level > 1
    requires Parents(st, s.node, holes) == {} && st.nodes[s.node].ptrs[s.index] != 0
    ensures var c := st.nodes[s.node].ptrs[s.index];
            && c in st.nodes && st.nodes[c].level + 1 == st.nodes[s.node].level
            && Inv(st, ext + multiset{c}, holes + {s}, dying)
            && (forall i: nat :: Slot(c, i) !in holes + {s})
  {
    var c := st.nodes[s.node].ptrs[s.index];
    assert SlotOk(st, s) && Names(st, s, c) && s in Parents(st, c, holes);
    assert forall i: nat :: Slot(c, i) !in holes;
    hide NodesOk, SlotsOk, ItemsOk, HolesOk, CountsOk;
    WidenHoles(st, s, holes);
    OpenCounts(st, s, c, ext, holes, dying);
  }

  /** A slot without a pointer can be opened for nothing. */
  lemma OpenNull<T>(st: Store<T>, s: Slot, ext: multiset<nat>, holes: set<Slot>, dying: set<nat>)
    requires Inv(st, ext, holes, dying) && IsSlot(st, s) && st.nodes[s.node].ptrs[s.index] == 0
    requires Parents(st, s.node, holes) == {}
    ensures Inv(st, ext, holes + {s}, dying)
  {
    WidenHoles(st, s, holes);
    forall x | x in st.nodes ensures CountOk(st, x, ext, holes + {s}, dying) {
      assert CountOk(st, x, ext, holes, dying);
      assert Parents(st, x, holes + {s}) == Parents(st, x, holes);
    }
  }

  /** Pointer and bit of a hole may be anything. */
  function WriteSlot<T>(st: Store<T>, s: Slot, p: nat, b: bool): Store<T>
    requires s.node in st.nodes && s.index < BITS
  {
    SetPtr(SetBit(st, s.node, s.index, b), s.node, s.index, p)
  }

  lemma WriteHole<T>(st: Store<T>, s: Slot, p: nat, b: bool, ext: multiset<nat>, holes: set<Slot>, dying: set<nat>)
    requires Inv(st, ext, holes, dying) && s in holes
    ensures IsSlot(st, s) && Inv(WriteSlot(st, s, p, b), ext, holes, dying)
  {
    var st' := WriteSlot(st, s, p, b);
    WriteHoleShape(st, s, p, b, holes);
    forall x | x in st'.nodes ensures CountOk(st', x, ext, holes, dying) {
      assert CountOk(st, x, ext, holes, dying);
      HoleParents(st, s, p, b, holes, x);
    }
  }

  lemma HoleParents<T>(st: Store<T>, s: Slot, p: nat, b: bool, holes: set<Slot>, x: nat)
    requires IsSlot(st, s) && s in holes
    ensures Parents(WriteSlot(st, s, p, b), x, holes) == Parents(st, x, holes)
  {
    var st' := WriteSlot(st, s, p, b);
    assert forall t :: t != s ==> (Names(st', t, x) <==> Names(st, t, x));
  }

  lemma WriteHoleShape<T>(st: Store<T>, s: Slot, p: nat, b: bool, holes: set<Slot>)
    requires NodesOk(st) && SlotsOk(st, holes) && ItemsOk(st, holes) && HolesOk(st, holes) && s in holes
    ensures var st' := WriteSlot(st, s, p, b);
            && NodesOk(st') && SlotsOk(st', holes) && ItemsOk(st', holes) && HolesOk(st', holes)
  {
    var st' := WriteSlot(st, s, p, b);
    forall x | x in st'.nodes ensures NodeOk(st', x) { assert NodeOk(st, x); }
    forall t | IsSlot(st', t) && t !in holes ensures SlotOk(st', t) {
      assert SlotOk(st, t);
      var c := st.nodes[t.node].ptrs[t.index];
      assert c == s.node ==> !(t in Parents(st, c, holes));
    }
    forall q | q in st'.items ensures ItemOk(st', q, holes) { assert ItemOk(st, q, holes); }
    forall t | t in holes ensures IsSlot(st', t) && Parents(st', t.node, holes) == {} {
      HoleParents(st, s, p, b, holes, t.node);
    }
  }

  /** Giving a reference in hand to the slot that already shows it. */
  lemma CloseHole<T>(st: Store<T>, s: Slot, ext: multiset<nat>, holes: set<Slot>, dying: set<nat>)
    requires s in holes && IsSlot(st, s) && st.nodes[s.node].level > 1
    requires var c := st.nodes[s.node].ptrs[s.index];
             && Inv(st, ext + multiset{c}, holes, dying) && c != 0 && c in st.nodes
             && st.nodes[c].level + 1 == st.nodes[s.node].level && !IsZero(st.nodes[c].bits)
             && (forall i: nat :: Slot(c, i) !in holes) && st.nodes[s.node].bits[s.index]
    ensures Inv(st, ext, holes - {s}, dying)
  {
    var c := st.nodes[s.node].ptrs[s.index];
    forall x | x in st.nodes ensures CountOk(st, x, ext, holes - {s}, dying) {
      assert CountOk(st, x, ext + multiset{c}, holes, dying);
      assert Parents(st, x, holes - {s}) == Parents(st, x, holes) + (if x == c then {s} else {});
    }
    forall t | IsSlot(st, t) && t !in holes - {s} ensures SlotOk(st, t) {
      if t != s { assert SlotOk(st, t); }
    }
    forall p | p in st.items ensures ItemOk(st, p, holes - {s}) { assert ItemOk(st, p, holes); }
    forall t | t in holes - {s} ensures IsSlot(st, t) && Parents(st, t.node, holes - {s}) == {} {
      assert t.node != c by { assert Slot(c, t.index) !in holes; }
      assert Parents(st, t.node, holes - {s}) == Parents(st, t.node, holes);
    }
  }

  lemma CloseNull<T>(st: Store<T>, s: Slot, ext: multiset<nat>, holes: set<Slot>, dying: set<nat>)
    requires Inv(st, ext, holes, dying) && s in holes && IsSlot(st, s)
    requires st.nodes[s.node].ptrs[s.index] == 0 && !st.nodes[s.node].bits[s.index]
    ensures Inv(st, ext, holes - {s}, dying)
  {
    forall x | x in st.nodes ensures CountOk(st, x, ext, holes - {s}, dying) {
      assert CountOk(st, x, ext, holes, dying);
      assert Parents(st, x, holes - {s}) == Parents(st, x, holes);
    }
    forall t | IsSlot(st, t) && t !in holes - {s} ensures SlotOk(st, t) {
      if t != s { assert SlotOk(st, t); }
    }
    forall p | p in st.items ensures ItemOk(st, p, holes - {s}) { assert ItemOk(st, p, holes); }
    forall t | t in holes - {s} ensures IsSlot(st, t) && Parents(st, t.node, holes - {s}) == {} {
      assert Parents(st, t.node, holes - {s}) == Parents(st, t.node, holes);
    }
  }

  /** Giving a new item to a hole. */
  lemma CloseItem<T>(st: Store<T>, s: Slot, v: T, ext: multiset<nat>, holes: set<Slot>, dying: set<nat>)
    requires Inv(st, ext, holes, dying) && s in holes && IsSlot(st, s) && st.nodes[s.node].level == 1
    requires st.nodes[s.node].bits[s.index]
    ensures Inv(PutItem(st, s.node, s.index, v), ext, holes - {s}, dying)
  {
    var st' := PutItem(st, s.node, s.index, v);
    ItemNames(st, s, v, holes);
    CloseItemShape(st, s, v, holes);
    PutAccounted(st, s, v);
    hide SlotsOk, ItemsOk, HolesOk, NodesOk, PutItem, Accounted;
    forall x | x in st'.nodes ensures CountOk(st', x, ext, holes - {s}, dying) {
      assert CountOk(st, x, ext, holes, dying);
    }
  }

  lemma PutAccounted<T>(st: Store<T>, s: Slot, v: T)
    requires Accounted(st) && IsSlot(st, s) && 0 < st.next
    ensures Accounted(PutItem(st, s.node, s.index, v))
  {
  }

  /** What PutItem leaves of every node, and who names it. */
  lemma ItemNames<T>(st: Store<T>, s: Slot, v: T, holes: set<Slot>)
    requires IsSlot(st, s) && st.nodes[s.node].level == 1
    ensures var st' := PutItem(st, s.node, s.index, v);
            && st'.nodes.Keys == st.nodes.Keys
            && (forall x :: x in st.nodes ==> st'.nodes[x].refs == st.nodes[x].refs)
            && (forall x :: Parents(st', x, holes - {s}) == Parents(st, x, holes))
  {
    var st' := PutItem(st, s.node, s.index, v);
    assert SameNames(st, st');
  }

  lemma CloseItemShape<T>(st: Store<T>, s: Slot, v: T, holes: set<Slot>)
    requires NodesOk(st) && SlotsOk(st, holes) && ItemsOk(st, holes) && HolesOk(st, holes)
    requires s in holes && IsSlot(st, s) && st.nodes[s.node].level == 1 && st.nodes[s.node].bits[s.index]
    ensures var st' := PutItem(st, s.node, s.index, v);
            && NodesOk(st') && SlotsOk(st', holes - {s}) && ItemsOk(st', holes - {s}) && HolesOk(st', holes - {s})
  {
    var st' := PutItem(st, s.node, s.index, v);
    ItemNames(st, s, v, holes);
    assert forall x :: x in st.nodes ==> NodeOk(st, x);
    forall x | x in st'.nodes ensures NodeOk(st', x) { assert NodeOk(st, x); }
    forall t | IsSlot(st', t) && t !in holes - {s} ensures SlotOk(st', t) {
      if t != s {
        var p := st.nodes[t.node].ptrs[t.index];
        assert SlotOk(st, t) && (p in st.items ==> ItemOk(st, p, holes));
      }
    }
    forall p | p in st'.items ensures ItemOk(st', p, holes - {s}) {
      if p != st.next { assert ItemOk(st, p, holes); }
    }
  }

  /** Taking the item out of a last-level slot. */
  lemma OpenItem<T>(st: Store<T>, s: Slot, ext: multiset<nat>, holes: set<Slot>, dying: set<nat>)
    requires Inv(st, ext, holes, dying) && IsSlot(st, s) && s !in holes && st.nodes[s.node].level == 1
    requires Parents(st, s.node, holes) == {}
    ensures var p := st.nodes[s.node].ptrs[s.index];
            && Inv(HandBack(st, p), ext, holes + {s}, dying)
            && (p != 0 ==> Inv(DeleteItem(st, p), ext, holes + {s}, dying))
  {
    var p := st.nodes[s.node].ptrs[s.index];
    assert SlotOk(st, s) && (p in st.items ==> ItemOk(st, p, holes)) && 0 !in st.items by {
      assert 0 in st.items ==> ItemOk(st, 0, holes);
    }
    OpenItemOk(st, HandBack(st, p), s, ext, holes, dying);
    if p != 0 {
      OpenItemOk(st, DeleteItem(st, p), s, ext, holes, dying);
    }
  }

  lemma OpenItemOk<T>(st: Store<T>, st': Store<T>, s: Slot, ext: multiset<nat>, holes: set<Slot>, dying: set<nat>)
    requires Inv(st, ext, holes, dying) && IsSlot(st, s) && s !in holes && st.nodes[s.node].level == 1
    requires Parents(st, s.node, holes) == {}
    requires st'.nodes == st.nodes && st'.next == st.next && st'.items == st.items - {st.nodes[s.node].ptrs[s.index]}
    requires Accounted(st')
    ensures Inv(st', ext, holes + {s}, dying)
  {
    assert SlotOk(st, s);
    forall x | x in st'.nodes ensures NodeOk(st', x) { assert NodeOk(st, x); }
    forall x | x in st'.nodes ensures CountOk(st', x, ext, holes + {s}, dying) {
      assert CountOk(st, x, ext, holes, dying);
      assert Parents(st', x, holes + {s}) == Parents(st, x, holes);
    }
    forall t | IsSlot(st', t) && t !in holes + {s} ensures SlotOk(st', t) {
      assert SlotOk(st, t);
    }
    forall q | q in st'.items ensures ItemOk(st', q, holes + {s}) { assert ItemOk(st, q, holes); }
    forall t | t in holes + {s} ensures IsSlot(st', t) && Parents(st', t.node, holes + {s}) == {} {
      assert Parents(st', t.node, holes + {s}) == Parents(st, t.node, holes);
    }
  }

  // ---------------------------------------------------------------------------------------
  // New and gone
  // ---------------------------------------------------------------------------------------

  ghost function AllSlotsOf(n: nat, from: nat): (r: set<Slot>)
    ensures forall s: Slot :: s in r <==> s.node == n && from <= s.index < BITS
  {
    set i | from <= i < BITS :: Slot(n, i)
  }

  /** A new node: all its slots are holes until they are filled. */
  lemma NewNodeStep<T>(st: Store<T>, level: nat, bits: Word, ext: multiset<nat>, holes: set<Slot>, dying: set<nat>)
    requires Inv(st, ext, holes, dying) && level > 0
    ensures var st' := NewNode(st, level, bits); var c := st.next;
            && c !in st.nodes && c !in ext && c > 0 && (forall i: nat :: Slot(c, i) !in holes)
            && Inv(st', ext + multiset{c}, holes + AllSlotsOf(c, 0), dying)
            && (IsZero(bits) ==> Inv(st', ext + multiset{c}, holes, dying))
            && Kept(st, st', ext, holes) && Parents(st', c, holes) == {}
            && (forall x :: x in st.nodes ==> st'.nodes[x] == st.nodes[x])
  {
    var st' := NewNode(st, level, bits);
    var c := st.next;
    var wide := holes + AllSlotsOf(c, 0);
    assert c !in st.nodes && Accounted(st') by {
      assert forall x :: x in st.nodes ==> NodeOk(st, x);
      NewAccounted(st, level, bits);
    }
    hide NodesOk, SlotsOk, ItemsOk, HolesOk, CountsOk, Kept, IsZero, Accounted;
    NewNodeNames(st, level, bits, holes);
    NewNodeShape(st, level, bits, holes, wide);
    if IsZero(bits) { NewNodeShape(st, level, bits, holes, holes); }
    NewNodeCounts(st, level, bits, ext, holes, wide, dying);
    NewNodeCounts(st, level, bits, ext, holes, holes, dying);
    KeptBy(st, st', {}, ext, holes);
  }

  lemma NewAccounted<T>(st: Store<T>, level: nat, bits: Word)
    requires Accounted(st) && 0 < st.next
    ensures Accounted(NewNode(st, level, bits))
  {
  }

  lemma NewNodeCounts<T>(st: Store<T>, level: nat, bits: Word, ext: multiset<nat>, holes: set<Slot>, wide: set<Slot>, dying: set<nat>)
    requires CountsOk(st, ext, holes, dying) && st.next !in st.nodes && st.next !in ext && st.next !in dying
    requires forall x :: x != st.next ==> Parents(NewNode(st, level, bits), x, wide) == Parents(st, x, holes)
    requires Parents(NewNode(st, level, bits), st.next, wide) == {}
    ensures CountsOk(NewNode(st, level, bits), ext + multiset{st.next}, wide, dying)
  {
    var st' := NewNode(st, level, bits);
    forall x | x in st'.nodes ensures CountOk(st', x, ext + multiset{st.next}, wide, dying) {
      if x != st.next { assert CountOk(st, x, ext, holes, dying); }
    }
  }

  lemma NewNodeNames<T>(st: Store<T>, level: nat, bits: Word, holes: set<Slot>)
    requires NodesOk(st) && SlotsOk(st, holes) && HolesOk(st, holes) && level > 0
    ensures var st' := NewNode(st, level, bits); var c := st.next;
            && (forall i: nat :: Slot(c, i) !in holes)
            && (forall x :: x != c ==> Parents(st', x, holes) == Parents(st, x, holes))
            && (forall x :: x != c ==> Parents(st', x, holes + AllSlotsOf(c, 0)) == Parents(st, x, holes))
            && Parents(st', c, holes) == {} && Parents(st', c, holes + AllSlotsOf(c, 0)) == {}
  {
    var st' := NewNode(st, level, bits);
    var c := st.next;
    assert forall x :: x in st.nodes ==> NodeOk(st, x);
    assert forall s, x :: Names(st', s, x) <==> Names(st, s, x);
    forall s: Slot
      ensures !(Names(st, s, c) && s !in holes)
    {
      assert IsSlot(st, s) && s !in holes ==> SlotOk(st, s);
    }
  }

  lemma NewNodeShape<T>(st: Store<T>, level: nat, bits: Word, holes: set<Slot>, wide: set<Slot>)
    requires NodesOk(st) && SlotsOk(st, holes) && ItemsOk(st, holes) && HolesOk(st, holes) && level > 0
    requires wide == holes + AllSlotsOf(st.next, 0) || (wide == holes && IsZero(bits))
    requires forall x :: x != st.next ==> Parents(NewNode(st, level, bits), x, wide) == Parents(st, x, holes)
    requires Parents(NewNode(st, level, bits), st.next, wide) == {}
    ensures var st' := NewNode(st, level, bits); NodesOk(st') && SlotsOk(st', wide) && ItemsOk(st', wide) && HolesOk(st', wide)
  {
    var st' := NewNode(st, level, bits);
    assert forall x :: x in st.nodes ==> NodeOk(st, x);
    forall x | x in st'.nodes ensures NodeOk(st', x) { if x in st.nodes { assert NodeOk(st, x); } }
    forall s | IsSlot(st', s) && s !in wide ensures SlotOk(st', s) {
      if s.node != st.next { assert SlotOk(st, s); }
    }
    forall p | p in st'.items ensures ItemOk(st', p, wide) { assert ItemOk(st, p, holes); }
    forall s | s in wide ensures IsSlot(st', s) && Parents(st', s.node, wide) == {} {
    }
  }

  /** Deleting a node that nothing refers to and whose slots are all holes. */
  lemma DeleteNodeStep<T>(st: Store<T>, n: nat, ext: multiset<nat>, holes: set<Slot>, dying: set<nat>)
    requires Inv(st, ext, holes + AllSlotsOf(n, 0), dying + {n}) && n in st.nodes && st.nodes[n].refs == 0
    requires n !in dying && forall i: nat :: Slot(n, i) !in holes
    ensures var st' := DeleteNode(st, n);
            Inv(st', ext, holes, dying) && Kept(st, st', ext, holes)
  {
    var wide := holes + AllSlotsOf(n, 0);
    var st' := DeleteNode(st, n);
    assert CountOk(st, n, ext, wide, dying + {n});
    assert n !in ext && Parents(st, n, wide) == {};
    hide NodesOk, SlotsOk, ItemsOk, HolesOk, CountsOk, Kept;
    DeleteParents(st, n, holes);
    DeleteShape(st, n, holes);
    DeleteCounts(st, n, ext, holes, dying);
    KeptBy(st, st', {n}, ext, wide);
    KeptFewer(st, st', ext, ext, holes, wide);
  }

  lemma DeleteParents<T>(st: Store<T>, n: nat, holes: set<Slot>)
    requires n in st.nodes && forall i: nat :: Slot(n, i) !in holes
    ensures forall x :: Parents(DeleteNode(st, n), x, holes) == Parents(st, x, holes + AllSlotsOf(n, 0))
  {
    forall x
      ensures Parents(DeleteNode(st, n), x, holes) == Parents(st, x, holes + AllSlotsOf(n, 0))
    {
    }
  }

  lemma DeleteShape<T>(st: Store<T>, n: nat, holes: set<Slot>)
    requires var wide := holes + AllSlotsOf(n, 0); NodesOk(st) && SlotsOk(st, wide) && ItemsOk(st, wide) && HolesOk(st, wide)
    requires n in st.nodes && Parents(st, n, holes + AllSlotsOf(n, 0)) == {} && forall i: nat :: Slot(n, i) !in holes
    ensures var st' := DeleteNode(st, n);
            NodesOk(st') && SlotsOk(st', holes) && ItemsOk(st', holes) && HolesOk(st', holes)
  {
    var wide := holes + AllSlotsOf(n, 0);
    var st' := DeleteNode(st, n);
    DeleteParents(st, n, holes);
    forall x | x in st'.nodes ensures NodeOk(st', x) { assert NodeOk(st, x); }
    forall s | IsSlot(st', s) && s !in holes ensures SlotOk(st', s) {
      assert SlotOk(st, s);
      var c := st.nodes[s.node].ptrs[s.index];
      assert c == n && st.nodes[s.node].level > 1 && c != 0 ==> s in Parents(st, n, wide);
    }
    forall p | p in st'.items ensures ItemOk(st', p, holes) {
      assert ItemOk(st, p, wide);
    }
  }

  lemma DeleteCounts<T>(st: Store<T>, n: nat, ext: multiset<nat>, holes: set<Slot>, dying: set<nat>)
    requires CountsOk(st, ext, holes + AllSlotsOf(n, 0), dying + {n}) && n in st.nodes
    requires forall i: nat :: Slot(n, i) !in holes
    ensures CountsOk(DeleteNode(st, n), ext, holes, dying)
  {
    var st' := DeleteNode(st, n);
    DeleteParents(st, n, holes);
    forall x | x in st'.nodes ensures CountOk(st', x, ext, holes, dying) {
      assert CountOk(st, x, ext, holes + AllSlotsOf(n, 0), dying + {n});
    }
  }
}
