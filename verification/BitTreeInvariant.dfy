/**
 The invariant of a store of tree nodes.

 `ext` holds the references that no slot holds: one for every root, and those an operation has
 in hand.  `holes` are slots an operation is rewriting: they claim nothing.  `dying` are nodes
 whose last reference is gone and whose children are being released.
 */
module BitTreeInvariant {
  import opened BitTree
  import opened BitWords

  datatype Slot = Slot(node: nat, index: nat)

  ghost predicate IsSlot<T>(st: Store<T>, s: Slot) {
    s.node in st.nodes && s.index < BITS
  }

  ghost predicate Names<T>(st: Store<T>, s: Slot, c: nat) {
    IsSlot(st, s) && st.nodes[s.node].level > 1 && st.nodes[s.node].ptrs[s.index] == c && c != 0
  }

  /** The slots that name node `c`. */
  ghost function Parents<T>(st: Store<T>, c: nat, holes: set<Slot>): (r: set<Slot>)
    ensures forall s :: s in r <==> Names(st, s, c) && s !in holes
  {
    set n, i | n in st.nodes && 0 <= i < BITS && Names(st, Slot(n, i), c) && Slot(n, i) !in holes :: Slot(n, i)
  }

  ghost predicate NodeOk<T>(st: Store<T>, n: nat)
    requires n in st.nodes
  {
    0 < n < st.next && 1 <= st.nodes[n].level
  }

  /** A present bit goes with a pointer, a pointer with an item or with a child that is not empty. */
  ghost predicate SlotOk<T>(st: Store<T>, s: Slot)
    requires IsSlot(st, s)
  {
    var nd := st.nodes[s.node];
    var p := nd.ptrs[s.index];
    && (nd.bits[s.index] <==> p != 0)
    && (p != 0 && nd.level == 1 ==> p in st.items && st.items[p].node == s.node && st.items[p].slot == s.index)
    && (p != 0 && nd.level > 1 ==> p in st.nodes && st.nodes[p].level + 1 == nd.level && !IsZero(st.nodes[p].bits))
  }

  ghost predicate ItemOk<T>(st: Store<T>, p: nat, holes: set<Slot>)
    requires p in st.items
  {
    var s := Slot(st.items[p].node, st.items[p].slot);
    && 0 < p < st.next && p !in st.nodes && s !in holes
    && IsSlot(st, s) && st.nodes[s.node].level == 1 && st.nodes[s.node].ptrs[s.index] == p
  }

  /** A node counts the slots that name it and the references held outside. */
  ghost predicate CountOk<T>(st: Store<T>, n: nat, ext: multiset<nat>, holes: set<Slot>, dying: set<nat>)
    requires n in st.nodes
  {
    st.nodes[n].refs == |Parents(st, n, holes)| + ext[n] && (st.nodes[n].refs == 0 <==> n in dying)
  }

  ghost predicate SlotsOk<T>(st: Store<T>, holes: set<Slot>) {
    forall s {:trigger SlotOk(st, s)} :: IsSlot(st, s) && s !in holes ==> SlotOk(st, s)
  }

  ghost predicate HolesOk<T>(st: Store<T>, holes: set<Slot>) {
    forall s :: s in holes ==> IsSlot(st, s) && Parents(st, s.node, holes) == {}
  }

  ghost predicate CountsOk<T>(st: Store<T>, ext: multiset<nat>, holes: set<Slot>, dying: set<nat>) {
    forall n {:trigger CountOk(st, n, ext, holes, dying)} :: n in st.nodes ==> CountOk(st, n, ext, holes, dying)
  }

  ghost predicate NodesOk<T>(st: Store<T>) {
    0 < st.next && forall n {:trigger NodeOk(st, n)} :: n in st.nodes ==> NodeOk(st, n)
  }

  ghost predicate ItemsOk<T>(st: Store<T>, holes: set<Slot>) {
    forall p {:trigger ItemOk(st, p, holes)} :: p in st.items ==> ItemOk(st, p, holes)
  }

  ghost function Tally(b: bool): nat {
    if b then 1 else 0
  }

  /** Every name given out is a live node, a live item, released once, or back with a caller; just one of these. */
  ghost predicate Accounted<T>(st: Store<T>) {
    forall x: nat {:trigger st.gone[x]} ::
      Tally(x in st.nodes) + Tally(x in st.items) + Tally(x in st.handed) + st.gone[x] == Tally(0 < x < st.next)
  }

  ghost predicate Inv<T>(st: Store<T>, ext: multiset<nat>, holes: set<Slot>, dying: set<nat>) {
    && NodesOk(st) && SlotsOk(st, holes) && ItemsOk(st, holes) && HolesOk(st, holes)
    && CountsOk(st, ext, holes, dying) && Accounted(st)
    && (forall n :: n in ext ==> n in st.nodes) && (forall n :: n in dying ==> n in st.nodes)
  }

  // ---------------------------------------------------------------------------------------
  // What a step leaves alone
  // ---------------------------------------------------------------------------------------

  /** Outside `bad` the stores have the same pointers and items. */
  ghost predicate Agree<T>(st: Store<T>, st': Store<T>, bad: set<nat>) {
    && (forall n :: n in st.nodes && n !in bad ==>
          n in st'.nodes && st'.nodes[n].ptrs == st.nodes[n].ptrs && st'.nodes[n].level == st.nodes[n].level)
    && (forall p :: p in st.items && st.items[p].node !in bad ==> p in st'.items && st'.items[p].value == st.items[p].value)
  }

  lemma {:induction false} FindSame<T>(st: Store<T>, st': Store<T>, bad: set<nat>, holes: set<Slot>, y: nat, k: nat)
    requires NodesOk(st) && SlotsOk(st, holes) && HolesOk(st, holes) && Agree(st, st', bad)
    requires forall n :: n in bad ==> Parents(st, n, holes) == {}
    requires y in st.nodes && y !in bad && st.nodes[y].level > 0
    requires Slot(y, LevelIndex(k, st.nodes[y].level)) !in holes
    ensures Find(st', y, st.nodes[y].level, k) == Find(st, y, st.nodes[y].level, k)
    decreases st.nodes[y].level
  {
    var level := st.nodes[y].level;
    var s := Slot(y, LevelIndex(k, level));
    var c := st.nodes[y].ptrs[s.index];
    assert SlotOk(st, s);
    if c != 0 && level > 1 {
      assert s in Parents(st, c, holes);
      FindSame(st, st', bad, holes, c, k);
    }
  }

  /** A reference held outside keeps its view, and a node held by it alone is not touched. */
  ghost predicate KeptNode<T>(st: Store<T>, st': Store<T>, holes: set<Slot>, y: nat)
    requires y in st.nodes && st.nodes[y].level > 0
  {
    && y in st'.nodes && st'.nodes[y].level == st.nodes[y].level
    && (st.nodes[y].refs == 1 ==> st'.nodes[y] == st.nodes[y])
    && forall k: nat :: Slot(y, LevelIndex(k, st.nodes[y].level)) !in holes ==>
                          Find(st', y, st.nodes[y].level, k) == Find(st, y, st.nodes[y].level, k)
  }

  ghost predicate Kept<T>(st: Store<T>, st': Store<T>, ext: multiset<nat>, holes: set<Slot>) {
    forall y {:trigger KeptNode(st, st', holes, y)} :: y in ext && y in st.nodes && st.nodes[y].level > 0 ==>
      KeptNode(st, st', holes, y)
  }

  lemma KeptSelf<T>(st: Store<T>, ext: multiset<nat>, holes: set<Slot>)
    ensures Kept(st, st, ext, holes)
  {
  }

  lemma KeptTrans<T>(s0: Store<T>, s1: Store<T>, s2: Store<T>, ext: multiset<nat>, holes: set<Slot>)
    requires Kept(s0, s1, ext, holes) && Kept(s1, s2, ext, holes)
    ensures Kept(s0, s2, ext, holes)
  {
    forall y | y in ext && y in s0.nodes && s0.nodes[y].level > 0
      ensures KeptNode(s0, s2, holes, y)
    {
      assert KeptNode(s0, s1, holes, y);
      assert KeptNode(s1, s2, holes, y);
    }
  }

  /** A step that agrees outside `bad` keeps every other reference. */
  lemma KeptBy<T>(st: Store<T>, st': Store<T>, bad: set<nat>, ext: multiset<nat>, holes: set<Slot>)
    requires NodesOk(st) && SlotsOk(st, holes) && HolesOk(st, holes) && Agree(st, st', bad)
    requires forall n :: n in bad ==> Parents(st, n, holes) == {} && n !in ext
    requires forall y :: y in ext && y in st.nodes && st.nodes[y].refs == 1 ==> y in st'.nodes && st'.nodes[y] == st.nodes[y]
    ensures Kept(st, st', ext, holes)
  {
    forall y | y in ext && y in st.nodes && st.nodes[y].level > 0
      ensures KeptNode(st, st', holes, y)
    {
      forall k: nat | Slot(y, LevelIndex(k, st.nodes[y].level)) !in holes
        ensures Find(st', y, st.nodes[y].level, k) == Find(st, y, st.nodes[y].level, k)
      {
        FindSame(st, st', bad, holes, y, k);
      }
    }
  }

  /** Keeping more references around more holes is keeping fewer. */
  lemma KeptFewer<T>(st: Store<T>, st': Store<T>, ext: multiset<nat>, more: multiset<nat>, holes: set<Slot>, wide: set<Slot>)
    requires Kept(st, st', more, wide) && holes <= wide
    requires forall y :: y in ext ==> y in more && forall i: nat :: Slot(y, i) in wide ==> Slot(y, i) in holes
    ensures Kept(st, st', ext, holes)
  {
    forall y | y in ext && y in st.nodes && st.nodes[y].level > 0
      ensures KeptNode(st, st', holes, y)
    {
      assert KeptNode(st, st', wide, y);
    }
  }

  // ---------------------------------------------------------------------------------------
  // Counting
  // ---------------------------------------------------------------------------------------

  /** A node held outside with count 1 is named by no slot. */
  lemma PrivateUnnamed<T>(st: Store<T>, n: nat, ext: multiset<nat>, holes: set<Slot>, dying: set<nat>)
    requires Inv(st, ext + multiset{n}, holes, dying) && n in st.nodes && st.nodes[n].refs == 1
    ensures Parents(st, n, holes) == {} && n !in ext
  {
    assert CountOk(st, n, ext + multiset{n}, holes, dying);
  }
}
