/** Copying a node: the children gain a parent, the items of a last-level node are duplicated. */
module BitTreeCopy {
  import opened BitTree
  import opened BitTreeInvariant
  import opened BitTreeRelease
  import opened BitTreeSteps
  import opened BitWords

  /** Copying node `n` to `c`: slots of `c` from `i` on are still open. */
  ghost predicate Copying<T>(s: Store<T>, n: nat, c: nat, i: nat, ext: multiset<nat>, holes: set<Slot>, dying: set<nat>) {
    && Inv(s, ext + multiset{c}, holes + AllSlotsOf(c, i), dying)
    && n in s.nodes && c in s.nodes && n != c && s.nodes[c].refs == 1 && c !in ext
    && s.nodes[c].level == s.nodes[n].level && s.nodes[c].bits == s.nodes[n].bits
    && Unholed(n, holes) && Unholed(c, holes)
  }

  /** The pointers of `c` below `i` are those of `n`. */
  ghost predicate Matches<T>(s: Store<T>, n: nat, c: nat, i: nat)
    requires n in s.nodes && c in s.nodes
  {
    forall j :: 0 <= j < i && j < BITS ==> s.nodes[c].ptrs[j] == s.nodes[n].ptrs[j]
  }

  /** Everything but `c`, and but reference counts, is as it was. */
  ghost predicate OnlyCopied<T>(s0: Store<T>, s: Store<T>, c: nat) {
    && s.nodes.Keys == s0.nodes.Keys
    && (forall x :: x in s0.nodes && x != c ==>
          s.nodes[x].ptrs == s0.nodes[x].ptrs && s.nodes[x].level == s0.nodes[x].level && s.nodes[x].bits == s0.nodes[x].bits)
    && (forall p :: p in s0.items ==> p in s.items && s.items[p] == s0.items[p])
  }

  lemma OpenSlot(c: nat, i: nat, holes: set<Slot>)
    requires i < BITS && Unholed(c, holes)
    ensures holes + AllSlotsOf(c, i) - {Slot(c, i)} == holes + AllSlotsOf(c, i + 1)
    ensures Slot(c, i) in AllSlotsOf(c, i)
  {
  }

  lemma WriteHoleKept<T>(st: Store<T>, s: Slot, p: nat, ext: multiset<nat>, holes: set<Slot>, wide: set<Slot>, dying: set<nat>)
    requires Inv(st, ext + multiset{s.node}, wide, dying) && s in wide && s.node !in ext
    requires holes <= wide && forall t :: t in wide && t !in holes ==> t.node == s.node
    ensures IsSlot(st, s) && Kept(st, SetPtr(st, s.node, s.index, p), ext, holes)
  {
    var st' := SetPtr(st, s.node, s.index, p);
    assert forall q :: q in st.items ==> ItemOk(st, q, wide);
    KeptBy(st, st', {s.node}, ext, wide);
    KeptFewer(st, st', ext, ext, holes, wide);
  }

  /** Writing the pointer of an open slot without its bit. */
  lemma WritePtr<T>(s: Store<T>, c: nat, i: nat, q: nat, ext: multiset<nat>, holes: set<Slot>, dying: set<nat>)
    requires Inv(s, ext, holes, dying) && Slot(c, i) in holes
    ensures IsSlot(s, Slot(c, i)) && Inv(SetPtr(s, c, i, q), ext, holes, dying)
  {
    WriteHole(s, Slot(c, i), q, s.nodes[c].bits[i], ext, holes, dying);
    assert SetBit(s, c, i, s.nodes[c].bits[i]).nodes == s.nodes by {
      assert s.nodes[c].bits[i := s.nodes[c].bits[i]] == s.nodes[c].bits;
    }
    assert WriteSlot(s, Slot(c, i), q, s.nodes[c].bits[i]) == SetPtr(s, c, i, q);
  }

  // ---------------------------------------------------------------------------------------
  // Above the last level
  // ---------------------------------------------------------------------------------------

  lemma LinkChildOk<T>(s: Store<T>, n: nat, c: nat, i: nat, ext: multiset<nat>, holes: set<Slot>, dying: set<nat>)
    requires Copying(s, n, c, i, ext, holes, dying) && i < BITS && s.nodes[n].level > 1
    ensures var s' := CopySlot(s, n, c, i, false);
            && Inv(s', ext + multiset{c}, holes + AllSlotsOf(c, i + 1), dying) && Kept(s, s', ext, holes)
  {
    var wide := holes + AllSlotsOf(c, i);
    var q := s.nodes[n].ptrs[i];
    var s2 := SetPtr(s, c, i, q);
    OpenSlot(c, i, holes);
    assert SlotOk(s, Slot(n, i));
    WritePtr(s, c, i, q, ext + multiset{c}, wide, dying);
    WriteHoleKept(s, Slot(c, i), q, ext, holes, wide, dying);
    assert SlotOk(s2, Slot(n, i));
    if q == 0 {
      CloseNull(s2, Slot(c, i), ext + multiset{c}, wide, dying);
    } else {
      LinkChildRef(s2, n, c, i, ext, holes, dying);
      hide Inv, Kept;
      KeptTrans(s, s2, CopySlot(s, n, c, i, false), ext, holes);
    }
  }

  lemma LinkChildRef<T>(s2: Store<T>, n: nat, c: nat, i: nat, ext: multiset<nat>, holes: set<Slot>, dying: set<nat>)
    requires Copying(s2, n, c, i, ext, holes, dying) && i < BITS && s2.nodes[n].level > 1
    requires var q := s2.nodes[n].ptrs[i]; q != 0 && q in s2.nodes && s2.nodes[c].ptrs[i] == q
    ensures var q := s2.nodes[n].ptrs[i]; var s3 := SetRefs(s2, q, s2.nodes[q].refs + 1);
            && Inv(s3, ext + multiset{c}, holes + AllSlotsOf(c, i + 1), dying) && Kept(s2, s3, ext, holes)
  {
    var wide := holes + AllSlotsOf(c, i);
    var q := s2.nodes[n].ptrs[i];
    assert SlotOk(s2, Slot(n, i));
    assert Slot(n, i) in Parents(s2, q, wide);
    assert forall j: nat :: Slot(q, j) !in wide;
    AddRef(s2, q, ext + multiset{c}, wide, dying);
    var s3 := SetRefs(s2, q, s2.nodes[q].refs + 1);
    KeptFewer(s2, s3, ext, ext + multiset{c}, holes, wide);
    OpenSlot(c, i, holes);
    hide Inv, Kept;
    CloseHole(s3, Slot(c, i), ext + multiset{c}, wide, dying);
  }

  /** The slots below `i` of `c` are copied, above the last level. */
  ghost predicate InnerCopied<T>(st: Store<T>, s: Store<T>, n: nat, c: nat, i: nat, ext: multiset<nat>, holes: set<Slot>, dying: set<nat>) {
    && Copying(s, n, c, i, ext, holes, dying) && Kept(st, s, ext, holes) && OnlyCopied(st, s, c) && Matches(s, n, c, i)
    && s.items == st.items && s.nodes[n].level > 1
  }

  lemma {:induction false} CopyInnerOk<T>(st: Store<T>, n: nat, c: nat, i: nat, ext: multiset<nat>, holes: set<Slot>, dying: set<nat>)
    requires InnerCopied(st, st, n, c, 0, ext, holes, dying) && n in st.nodes && c in st.nodes && i <= BITS
    ensures InnerCopied(st, CopyUpTo(st, n, c, i, false), n, c, i, ext, holes, dying)
  {
    hide InnerCopied;
    if i > 0 {
      hide CopySlot;
      CopyInnerOk(st, n, c, i - 1, ext, holes, dying);
      InnerNext(st, CopyUpTo(st, n, c, i - 1, false), n, c, i - 1, ext, holes, dying);
    }
  }

  lemma InnerNext<T>(st: Store<T>, s: Store<T>, n: nat, c: nat, i: nat, ext: multiset<nat>, holes: set<Slot>, dying: set<nat>)
    requires InnerCopied(st, s, n, c, i, ext, holes, dying) && n in s.nodes && c in s.nodes && i < BITS
    ensures InnerCopied(st, CopySlot(s, n, c, i, false), n, c, i + 1, ext, holes, dying)
  {
    hide Inv, Kept, CopySlot, Matches;
    LinkChildStep(s, n, c, i, ext, holes, dying);
    KeptTrans(st, s, CopySlot(s, n, c, i, false), ext, holes);
  }

  lemma LinkChildStep<T>(s: Store<T>, n: nat, c: nat, i: nat, ext: multiset<nat>, holes: set<Slot>, dying: set<nat>)
    requires Copying(s, n, c, i, ext, holes, dying) && i < BITS && s.nodes[n].level > 1 && Matches(s, n, c, i)
    ensures var s' := CopySlot(s, n, c, i, false);
            && Copying(s', n, c, i + 1, ext, holes, dying) && Kept(s, s', ext, holes) && OnlyCopied(s, s', c)
            && Matches(s', n, c, i + 1) && s'.items == s.items
  {
    hide Inv, Kept, Matches;
    LinkChildOk(s, n, c, i, ext, holes, dying);
    LinkChildShape(s, n, c, i, ext, holes, dying);
  }

  lemma LinkChildShape<T>(s: Store<T>, n: nat, c: nat, i: nat, ext: multiset<nat>, holes: set<Slot>, dying: set<nat>)
    requires Copying(s, n, c, i, ext, holes, dying) && i < BITS && s.nodes[n].level > 1 && Matches(s, n, c, i)
    ensures var s' := CopySlot(s, n, c, i, false);
            && OnlyCopied(s, s', c) && c in s'.nodes && n in s'.nodes && Matches(s', n, c, i + 1)
            && s'.nodes[c].refs == 1 && s'.nodes[c].bits == s.nodes[c].bits && s'.nodes[c].level == s.nodes[c].level
            && s'.items == s.items
  {
    var q := s.nodes[n].ptrs[i];
    assert SlotOk(s, Slot(n, i));
  }

  // ---------------------------------------------------------------------------------------
  // The last level
  // ---------------------------------------------------------------------------------------

  lemma {:induction false} CopyLeafOk<T>(st: Store<T>, n: nat, c: nat, i: nat, ext: multiset<nat>, holes: set<Slot>, dying: set<nat>)
    requires Copying(st, n, c, 0, ext, holes, dying) && i <= BITS
    ensures var s := CopyUpTo(st, n, c, i, true);
            && Copying(s, n, c, 0, ext, holes, dying) && Kept(st, s, ext, holes) && OnlyCopied(st, s, c) && Matches(s, n, c, i)
            && s.items == st.items
  {
    hide Inv, Kept, Matches;
    if i == 0 {
      KeptSelf(st, ext, holes);
      NothingMatched(st, n, c);
    } else {
      CopyLeafOk(st, n, c, i - 1, ext, holes, dying);
      CopyLeafNext(st, CopyUpTo(st, n, c, i - 1, true), n, c, i - 1, ext, holes, dying);
    }
  }

  lemma NothingMatched<T>(s: Store<T>, n: nat, c: nat)
    requires n in s.nodes && c in s.nodes
    ensures Matches(s, n, c, 0)
  {
  }

  lemma CopyLeafNext<T>(st: Store<T>, s: Store<T>, n: nat, c: nat, i: nat, ext: multiset<nat>, holes: set<Slot>, dying: set<nat>)
    requires Copying(s, n, c, 0, ext, holes, dying) && i < BITS && Kept(st, s, ext, holes) && OnlyCopied(st, s, c)
    requires Matches(s, n, c, i) && s.items == st.items
    ensures var s' := CopySlot(s, n, c, i, true);
            && Copying(s', n, c, 0, ext, holes, dying) && Kept(st, s', ext, holes) && OnlyCopied(st, s', c)
            && Matches(s', n, c, i + 1) && s'.items == st.items
  {
    hide Inv, Kept;
    var wide := holes + AllSlotsOf(c, 0);
    var q := s.nodes[n].ptrs[i];
    WritePtr(s, c, i, q, ext + multiset{c}, wide, dying);
    WriteHoleKept(s, Slot(c, i), q, ext, holes, wide, dying);
    KeptTrans(st, s, SetPtr(s, c, i, q), ext, holes);
  }

  /** Slots of `c` below `i` hold items of their own with the values `n` holds, the others the items of `n`. */
  ghost predicate Duplicated<T>(s: Store<T>, n: nat, c: nat, i: nat)
    requires n in s.nodes && c in s.nodes
  {
    && (forall j :: 0 <= j < i && j < BITS ==> SameItem(s, s.nodes[n].ptrs[j], s.nodes[c].ptrs[j]))
    && (forall j :: i <= j < BITS ==> s.nodes[c].ptrs[j] == s.nodes[n].ptrs[j])
  }

  ghost predicate SameItem<T>(s: Store<T>, p: nat, q: nat) {
    && (p == 0 <==> q == 0)
    && (p != 0 ==> p in s.items && q in s.items && s.items[q].value == s.items[p].value)
  }

  /** The slots below `i` of `c` hold duplicates. */
  ghost predicate LeafCopied<T>(st: Store<T>, s: Store<T>, n: nat, c: nat, i: nat, ext: multiset<nat>, holes: set<Slot>, dying: set<nat>) {
    && Copying(s, n, c, i, ext, holes, dying) && Kept(st, s, ext, holes) && OnlyCopied(st, s, c) && Duplicated(s, n, c, i)
    && s.nodes[n].level == 1
  }

  lemma {:induction false} DupOk<T>(st: Store<T>, n: nat, c: nat, i: nat, ext: multiset<nat>, holes: set<Slot>, dying: set<nat>)
    requires LeafCopied(st, st, n, c, 0, ext, holes, dying) && n in st.nodes && c in st.nodes && i <= BITS
    ensures LeafCopied(st, DupUpTo(st, c, i), n, c, i, ext, holes, dying)
  {
    hide LeafCopied;
    if i > 0 {
      DupOk(st, n, c, i - 1, ext, holes, dying);
      DupNext(st, DupUpTo(st, c, i - 1), n, c, i - 1, ext, holes, dying);
    }
  }

  lemma DupNext<T>(st: Store<T>, s: Store<T>, n: nat, c: nat, i: nat, ext: multiset<nat>, holes: set<Slot>, dying: set<nat>)
    requires LeafCopied(st, s, n, c, i, ext, holes, dying) && c in s.nodes && i < BITS
    ensures var p := s.nodes[c].ptrs[i];
            LeafCopied(st, if p != 0 && p in s.items then PutItem(s, c, i, s.items[p].value) else s, n, c, i + 1, ext, holes, dying)
  {
    hide Inv, Kept, PutItem, Duplicated;
    DupSlot(s, n, c, i, ext, holes, dying);
    var p := s.nodes[c].ptrs[i];
    KeptTrans(st, s, if p != 0 && p in s.items then PutItem(s, c, i, s.items[p].value) else s, ext, holes);
  }

  /** One turn of the loop that duplicates items. */
  lemma DupSlot<T>(s: Store<T>, n: nat, c: nat, i: nat, ext: multiset<nat>, holes: set<Slot>, dying: set<nat>)
    requires Copying(s, n, c, i, ext, holes, dying) && i < BITS && s.nodes[n].level == 1 && Duplicated(s, n, c, i)
    ensures var p := s.nodes[c].ptrs[i];
            var s' := if p != 0 && p in s.items then PutItem(s, c, i, s.items[p].value) else s;
            && Copying(s', n, c, i + 1, ext, holes, dying) && Kept(s, s', ext, holes) && OnlyCopied(s, s', c)
            && Duplicated(s', n, c, i + 1)
  {
    var p := s.nodes[c].ptrs[i];
    OpenSlot(c, i, holes);
    assert SlotOk(s, Slot(n, i));
    if p == 0 {
      CloseNull(s, Slot(c, i), ext + multiset{c}, holes + AllSlotsOf(c, i), dying);
      KeptSelf(s, ext, holes);
    } else {
      DupItem(s, n, c, i, s.items[p].value, ext, holes, dying);
      hide Inv, Kept;
      DupItemShape(s, n, c, i, holes + AllSlotsOf(c, i));
    }
  }

  lemma DupItem<T>(s: Store<T>, n: nat, c: nat, i: nat, v: T, ext: multiset<nat>, holes: set<Slot>, dying: set<nat>)
    requires Copying(s, n, c, i, ext, holes, dying) && i < BITS && s.nodes[n].level == 1 && s.nodes[n].bits[i]
    ensures var s' := PutItem(s, c, i, v);
            Inv(s', ext + multiset{c}, holes + AllSlotsOf(c, i + 1), dying) && Kept(s, s', ext, holes)
  {
    var wide := holes + AllSlotsOf(c, i);
    var s' := PutItem(s, c, i, v);
    assert forall q :: q in s.items ==> ItemOk(s, q, wide);
    OpenSlot(c, i, holes);
    CloseItem(s, Slot(c, i), v, ext + multiset{c}, wide, dying);
    KeptBy(s, s', {c}, ext, wide);
    KeptFewer(s, s', ext, ext, holes, wide);
  }

  lemma DupItemShape<T>(s: Store<T>, n: nat, c: nat, i: nat, wide: set<Slot>)
    requires n in s.nodes && c in s.nodes && n != c && i < BITS && Duplicated(s, n, c, i) && ItemsOk(s, wide)
    requires s.nodes[c].ptrs[i] in s.items && s.nodes[c].ptrs[i] != 0 && 0 < s.next
    ensures var s' := PutItem(s, c, i, s.items[s.nodes[c].ptrs[i]].value);
            OnlyCopied(s, s', c) && Duplicated(s', n, c, i + 1)
  {
    var s' := PutItem(s, c, i, s.items[s.nodes[c].ptrs[i]].value);
    assert forall q :: q in s.items ==> ItemOk(s, q, wide);
    forall j | 0 <= j < i + 1
      ensures SameItem(s', s'.nodes[n].ptrs[j], s'.nodes[c].ptrs[j])
    {
      assert j < i ==> SameItem(s, s.nodes[n].ptrs[j], s.nodes[c].ptrs[j]);
    }
  }

  // ---------------------------------------------------------------------------------------
  // A finished copy
  // ---------------------------------------------------------------------------------------

  /** Node `m` of `s` shows what node `n` of `st` shows. */
  ghost predicate SameEntries<T>(st: Store<T>, n: nat, s: Store<T>, m: nat, level: nat) {
    forall k: nat :: Find(s, m, level, k) == Find(st, n, level, k)
  }

  /** A node with one reference, held outside. */
  ghost predicate Private<T>(s: Store<T>, m: nat, level: nat, ext: multiset<nat>, holes: set<Slot>) {
    && Inv(s, ext + multiset{m}, holes, {}) && m in s.nodes && s.nodes[m].refs == 1 && s.nodes[m].level == level
    && Unholed(m, holes)
  }

  lemma {:induction false} CopyFields<T>(st: Store<T>, n: nat, c: nat, i: nat, last: bool)
    requires n in st.nodes && c in st.nodes && i <= BITS
    ensures var s := CopyUpTo(st, n, c, i, last); s.nodes[c].bits == st.nodes[c].bits && s.nodes[c].level == st.nodes[c].level
  {
    if i > 0 {
      CopyFields(st, n, c, i - 1, last);
    }
  }

  lemma NoSlotsOpen(c: nat, holes: set<Slot>)
    ensures holes + AllSlotsOf(c, BITS) == holes
  {
  }

  lemma CopiedInner<T>(s1: Store<T>, n: nat, c: nat, ext: multiset<nat>, holes: set<Slot>)
    requires Copying(s1, n, c, 0, ext, holes, {}) && s1.nodes[n].level > 1
    ensures var s2 := CopyUpTo(s1, n, c, BITS, false);
            && Private(s2, c, s1.nodes[n].level, ext, holes) && Kept(s1, s2, ext, holes)
            && s2.nodes[c].bits == s1.nodes[n].bits && SameEntries(s1, n, s2, c, s1.nodes[n].level)
  {
    var s2 := CopyUpTo(s1, n, c, BITS, false);
    KeptSelf(s1, ext, holes);
    CopyInnerOk(s1, n, c, BITS, ext, holes, {});
    CopyFields(s1, n, c, BITS, false);
    NoSlotsOpen(c, holes);
    hide CopyUpTo, Kept, Inv;
    CopiedShows(s1, s2, n, c, ext, holes);
  }

  lemma CopiedShows<T>(s1: Store<T>, s2: Store<T>, n: nat, c: nat, ext: multiset<nat>, holes: set<Slot>)
    requires Copying(s1, n, c, 0, ext, holes, {}) && s1.nodes[n].level > 1
    requires OnlyCopied(s1, s2, c) && n in s2.nodes && c in s2.nodes && Matches(s2, n, c, BITS)
    ensures SameEntries(s1, n, s2, c, s1.nodes[n].level)
  {
    assert CountOk(s1, c, ext + multiset{c}, holes + AllSlotsOf(c, 0), {});
    var level := s1.nodes[n].level;
    forall k: nat
      ensures Find(s2, c, level, k) == Find(s1, n, level, k)
    {
      FindSame(s1, s2, {c}, holes + AllSlotsOf(c, 0), n, k);
      assert s2.nodes[c].ptrs[LevelIndex(k, level)] == s2.nodes[n].ptrs[LevelIndex(k, level)];
    }
  }

  lemma CopiedLeaf<T>(s1: Store<T>, n: nat, c: nat, ext: multiset<nat>, holes: set<Slot>)
    requires Copying(s1, n, c, 0, ext, holes, {}) && s1.nodes[n].level == 1
    ensures var s3 := DupUpTo(CopyUpTo(s1, n, c, BITS, true), c, BITS);
            && Private(s3, c, 1, ext, holes) && Kept(s1, s3, ext, holes)
            && s3.nodes[c].bits == s1.nodes[n].bits && SameEntries(s1, n, s3, c, 1)
  {
    var s2 := CopyUpTo(s1, n, c, BITS, true);
    var s3 := DupUpTo(s2, c, BITS);
    CopyLeafOk(s1, n, c, BITS, ext, holes, {});
    KeptSelf(s2, ext, holes);
    DupOk(s2, n, c, BITS, ext, holes, {});
    NoSlotsOpen(c, holes);
    hide CopyUpTo, DupUpTo, Kept, CountsOk, Inv;
    KeptTrans(s1, s2, s3, ext, holes);
    forall k: nat
      ensures Find(s3, c, 1, k) == Find(s1, n, 1, k)
    {
      var i := LevelIndex(k, 1);
      assert SameItem(s3, s3.nodes[n].ptrs[i], s3.nodes[c].ptrs[i]);
      DuplicateShows(s1, s2, s3, n, c, i, holes);
    }
  }

  lemma DuplicateShows<T>(s1: Store<T>, s2: Store<T>, s3: Store<T>, n: nat, c: nat, i: nat, holes: set<Slot>)
    requires n in s1.nodes && c in s1.nodes && n != c && OnlyCopied(s1, s2, c) && OnlyCopied(s2, s3, c) && i < BITS
    requires SlotsOk(s1, holes + AllSlotsOf(c, 0)) && Unholed(n, holes) && s1.nodes[n].level == 1
    ensures var p := s1.nodes[n].ptrs[i];
            s3.nodes[n].ptrs[i] == p && (p != 0 ==> p in s1.items && p in s3.items && s3.items[p] == s1.items[p])
  {
    assert SlotOk(s1, Slot(n, i));
  }

  /** A node of its own for an edit: the same entries, and every other reference keeps its view. */
  lemma PrivatiseOk<T>(st: Store<T>, n: nat, level: nat, ext: multiset<nat>, holes: set<Slot>)
    requires Inv(st, ext + multiset{n}, holes, {}) && n in st.nodes && level == st.nodes[n].level && Unholed(n, holes)
    ensures var (s, m) := Privatise(st, n, level);
            && Private(s, m, level, ext, holes) && Kept(st, s, ext, holes)
            && s.nodes[m].bits == st.nodes[n].bits && SameEntries(st, n, s, m, level)
  {
    assert CountOk(st, n, ext + multiset{n}, holes, {});
    if st.nodes[n].refs > 1 {
      DropRef(st, n, ext, holes, {});
      var s0 := SetRefs(st, n, st.nodes[n].refs - 1);
      var c := s0.next;
      var s1 := NewNode(s0, level, s0.nodes[n].bits);
      assert NodeOk(st, n);
      NewNodeStep(s0, level, s0.nodes[n].bits, ext, holes, {});
      assert Copying(s1, n, c, 0, ext, holes, {});
      SharedEntries(st, s1, n, holes);
      hide Inv, Kept, CopyUpTo, DupUpTo;
      if level == 1 { CopiedLeaf(s1, n, c, ext, holes); } else { CopiedInner(s1, n, c, ext, holes); }
      KeptTrans(st, s0, s1, ext, holes);
      KeptTrans(st, s1, Privatise(st, n, level).0, ext, holes);
    } else {
      KeptSelf(st, ext, holes);
    }
  }

  lemma SharedEntries<T>(st: Store<T>, s1: Store<T>, n: nat, holes: set<Slot>)
    requires NodesOk(st) && SlotsOk(st, holes) && HolesOk(st, holes) && Agree(st, s1, {})
    requires n in st.nodes && Unholed(n, holes) && st.nodes[n].level > 0
    ensures SameEntries(st, n, s1, n, st.nodes[n].level)
  {
    forall k: nat
      ensures Find(s1, n, st.nodes[n].level, k) == Find(st, n, st.nodes[n].level, k)
    {
      FindSame(st, s1, {}, holes, n, k);
    }
  }

  /** Copy construction: a second root that shows the same entries. */
  lemma CopyTreeOk<T>(st: Store<T>, root: nat, levels: nat, ext: multiset<nat>)
    requires Inv(st, ext, {}, {}) && root in st.nodes && levels == st.nodes[root].level && levels > 1
    ensures var (s, c) := CopyTree(st, root, levels);
            Private(s, c, levels, ext, {}) && c !in st.nodes && Kept(st, s, ext, {}) && SameEntries(st, root, s, c, levels)
  {
    var c := st.next;
    var s1 := NewNode(st, levels, st.nodes[root].bits);
    NewNodeStep(st, levels, st.nodes[root].bits, ext, {}, {});
    assert Copying(s1, root, c, 0, ext, {}, {});
    SharedEntries(st, s1, root, {});
    hide Inv, Kept, CopyUpTo;
    CopiedInner(s1, root, c, ext, {});
    KeptTrans(st, s1, CopyTree(st, root, levels).0, ext, {});
  }
}
