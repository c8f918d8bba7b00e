/**
 Where copy-on-write does not isolate: a read fault in a region that has no page table yet.

 The handler installs a read-only directory entry without counting it (see
 PagingMap.ZeroMapKeepsCountsIff).  After a fork, the parent's next store then finds the counter
 at its last reference, turns its entry writable in place, and writes into the table the child
 still uses.
 */
module PagingReadFault {
  import opened Wrappers
  import opened Paging
  import opened PagingInvariant
  import opened PagingSteps
  import opened PagingLiveFork
  import opened PagingMap
  import opened PagingDeepCounts

  /** Directory `d` reaches the zero page `j` through table `p`, read-only at both levels. */
  ghost predicate ReadFaulted(m: Mem, d: nat, i: nat, j: nat, p: nat) {
    && WellFormed(m) && FreeListOk(m)
    && d < |m.frames| && m.frames[d].Directory? && UserIndex(i) && j < ENTRIES
    && p < |m.frames| && m.frames[p].Table?
    && At(m, Loc(d, i)) == Entry(p, FLAG_US, false, true)
    && At(m, Loc(p, j)) == Entry(m.zero, FLAG_US, false, true)
    && m.refs[m.zero] >= 2
    && (forall k: nat :: UserIndex(k) && k != i && At(m, Loc(d, k)).pr ==>
          At(m, Loc(d, k)).frame != p && At(m, Loc(d, k)).frame != m.zero)
  }

  lemma ZeroMapReadFaults(m: Mem, d: nat, i: nat, j: nat)
    requires Inv(m, {}, {}) && m.kernelRefs == 1 && d < |m.frames| && m.frames[d].Directory?
    requires UserIndex(i) && j < ENTRIES && !At(m, Loc(d, i)).pr && ZeroMap(m, d, i, j).Some?
    ensures var m' := ZeroMap(m, d, i, j).value; var p := At(m', Loc(d, i)).frame;
            ReadFaulted(m', d, i, j, p) && m'.refs[p] == 0
  {
    hide ReadFaulted;
    var l := Loc(d, i);
    assert IsSlot(m, l);
    var m0 := RefZero(m);
    RefZeroStep(m);
    ZeroCount(m);
    assert At(m0, l) == At(m, l) && IsSlot(m0, l);
    var (m1, p) := Alloc(m0, TableKind).value;
    AllocStep(m0, TableKind, {}, {});
    hide Inv, Alloc;
    NewTableWellFormed(m0, m1, p);
    NewTableEntries(m0, m1, d, i, j, p);
  }

  lemma ZeroCount(m: Mem)
    requires Inv(m, {}, {}) && m.kernelRefs == 1
    ensures RefZero(m).refs[m.zero] >= 2 && RefZero(m).kernelRefs == 2 && RefZero(m).zero == m.zero
  {
    assert CountOk(m, m.zero, {}, {});
    NamersBound(m, m.zero, {});
  }

  lemma NewTableWellFormed(m: Mem, m1: Mem, p: nat)
    requires Inv(m1, {} + {p}, {}) && Inv(m, {}, {})
    ensures WellFormed(m1) && FreeListOk(m1)
  {
  }

  lemma NewTableEntries(m: Mem, m1: Mem, d: nat, i: nat, j: nat, p: nat)
    requires Inv(m, {}, {}) && d < |m.frames| && m.frames[d].Directory? && UserIndex(i) && j < ENTRIES
    requires p < |m.frames| && m.frames[p].Free? && m1.frames == m.frames[p := Zeroed(TableKind)]
    requires m1.refs == m.refs && m1.zero == m.zero && WellFormed(m1) && FreeListOk(m1) && m.refs[m.zero] >= 2
    requires m.kernelRefs == 2 && m1.kernelRefs == 2
    ensures var m2 := SetEntry(m1, Loc(d, i), Entry(p, FLAG_US, false, true));
            var m' := SetEntry(m2, Loc(p, j), Entry(m.zero, FLAG_US, false, true)).(kernelRefs := 1);
            && At(m2, Loc(d, i)).frame == p && At(m', Loc(d, i)).frame == p
            && ReadFaulted(m', d, i, j, p) && m'.refs == m.refs
  {
    var m2 := SetEntry(m1, Loc(d, i), Entry(p, FLAG_US, false, true));
    SetEntryAt(m1, Loc(d, i), Entry(p, FLAG_US, false, true));
    SetEntryShape(m1, Loc(d, i), Entry(p, FLAG_US, false, true));
    var m3 := SetEntry(m2, Loc(p, j), Entry(m.zero, FLAG_US, false, true));
    SetEntryAt(m2, Loc(p, j), Entry(m.zero, FLAG_US, false, true));
    SetEntryShape(m2, Loc(p, j), Entry(m.zero, FLAG_US, false, true));
    var m' := m3.(kernelRefs := 1);
    assert forall x: Loc :: At(m', x) == At(m3, x);
    forall k: nat | UserIndex(k) && k != i && At(m', Loc(d, k)).pr
      ensures At(m', Loc(d, k)).frame != p && At(m', Loc(d, k)).frame != m.zero
    {
      assert At(m', Loc(d, k)) == At(m, Loc(d, k)) && IsSlot(m, Loc(d, k));
    }
  }

  // ---------------------------------------------------------------------------------------
  // The fork counts one reference where there are two
  // ---------------------------------------------------------------------------------------

  ghost predicate CloneTrace(m: Mem, m': Mem, d: nat, c: nat, i: nat, p: nat, n: nat)
    requires |m.refs| == |m.frames| && d < |m.frames| && c < |m.frames| && p < |m.frames| && m.zero < |m.frames|
  {
    && |m'.frames| == |m.frames| && |m'.refs| == |m.refs| && m'.zero == m.zero
    && m'.free == m.free && m'.avail == m.avail && m'.kernelRefs == m.kernelRefs
    && (forall f :: 0 <= f < |m.frames| && f != d && f != c ==> m'.frames[f] == m.frames[f])
    && m'.frames[d].Directory? && |m'.frames[d].entries| == ENTRIES
    && m'.frames[c].Directory? && |m'.frames[c].entries| == ENTRIES
    && (forall k: nat :: UserIndex(k) ==>
          && At(m', Loc(d, k)).pr == At(m, Loc(d, k)).pr
          && At(m', Loc(d, k)).frame == At(m, Loc(d, k)).frame)
    && At(m', Loc(d, i)) == At(m, Loc(d, i))
    && (i < n ==> At(m', Loc(c, i)) == At(m, Loc(d, i)))
    && m'.refs[p] == (if i < n then 1 else 0)
    && m'.refs[m.zero] == m.refs[m.zero]
  }

  lemma CloneTraceNext(m: Mem, m1: Mem, d: nat, c: nat, i: nat, j: nat, p: nat, n: nat)
    requires ReadFaulted(m, d, i, j, p) && c < |m.frames| && m.frames[c].Directory? && c != d && n < ENTRIES
    requires CloneTrace(m, m1, d, c, i, p, n)
    ensures CloneTrace(m, CloneEntry(m1, d, c, n), d, c, i, p, n + 1)
  {
    var e := At(m1, Loc(d, n));
    if e.pr && UserIndex(n) {
      RefIntoLocal(m1, d, c, n);
      assert n != i ==> e.frame != p && e.frame != m.zero;
    }
  }

  lemma CloneTraceStart(m: Mem, d: nat, c: nat, i: nat, j: nat, p: nat)
    requires ReadFaulted(m, d, i, j, p) && c < |m.frames| && m.frames[c].Directory? && m.refs[p] == 0
    ensures CloneTrace(m, m, d, c, i, p, 0)
  {
  }

  lemma {:induction false} CloneUpToTrace(m: Mem, d: nat, c: nat, i: nat, j: nat, p: nat, n: nat)
    requires ReadFaulted(m, d, i, j, p) && c < |m.frames| && m.frames[c].Directory? && c != d && n <= ENTRIES
    requires m.refs[p] == 0
    ensures CloneTrace(m, CloneUpTo(m, d, c, n), d, c, i, p, n)
  {
    hide CloneEntry, CloneTrace, ReadFaulted;
    if n == 0 {
      CloneTraceStart(m, d, c, i, j, p);
    } else {
      CloneUpToTrace(m, d, c, i, j, p, n - 1);
      CloneTraceNext(m, CloneUpTo(m, d, c, n - 1), d, c, i, j, p, n - 1);
    }
  }

  /** After the fork both processes name table `p`, and its counter says 1. */
  lemma ForkUndercounts(m: Mem, d: nat, i: nat, j: nat, p: nat)
    requires ReadFaulted(m, d, i, j, p) && m.refs[p] == 0 && CloneDirectory(m, d).Some?
    ensures var (m', c) := CloneDirectory(m, d).value;
            && c < |m'.frames| && c != d && m'.frames[c].Directory?
            && ReadFaulted(m', d, i, j, p) && m'.refs[p] == 1
            && At(m', Loc(c, i)) == At(m', Loc(d, i))
  {
    var (m1, c) := Alloc(m, DirectoryKind).value;
    AllocShape(m, DirectoryKind);
    assert forall k: nat :: At(m1, Loc(d, k)) == At(m, Loc(d, k));
    assert ReadFaulted(m1, d, i, j, p);
    CloneUpToTrace(m1, d, c, i, j, p, ENTRIES);
    ForkReadFaulted(m1, CloneUpTo(m1, d, c, ENTRIES), d, c, i, j, p);
  }

  lemma ForkReadFaulted(m: Mem, m': Mem, d: nat, c: nat, i: nat, j: nat, p: nat)
    requires ReadFaulted(m, d, i, j, p) && c < |m.frames| && m.frames[c].Directory? && c != d
    requires CloneTrace(m, m', d, c, i, p, ENTRIES)
    ensures ReadFaulted(m', d, i, j, p)
  {
  }

  // ---------------------------------------------------------------------------------------
  // The store lands in the shared table
  // ---------------------------------------------------------------------------------------

  /** The last counted reference: the entry turns writable in place. */
  lemma TableFaultInPlace(m: Mem, d: nat, c: nat, i: nat, j: nat, p: nat)
    requires ReadFaulted(m, d, i, j, p) && m.refs[p] == 1
    requires c < |m.frames| && c != d && m.frames[c].Directory? && At(m, Loc(c, i)) == At(m, Loc(d, i))
    ensures CopyTable(m, Loc(d, i)).Some?
    ensures var m' := CopyTable(m, Loc(d, i)).value;
            && WellFormed(m') && FreeListOk(m') && m'.zero == m.zero && m'.refs[m.zero] >= 2
            && m'.frames[c] == m.frames[c] && m'.frames[p] == m.frames[p] && |m'.frames| == |m.frames|
            && IsSlot(m', Loc(d, i)) && At(m', Loc(d, i)).frame == p
  {
    var e := At(m, Loc(d, i));
    var m1 := DecRef(m, p);
    assert IsSlot(m1, Loc(d, i)) && At(m1, Loc(d, i)) == e;
    SetEntryAt(m1, Loc(d, i), e.(rw := true));
    SetEntryShape(m1, Loc(d, i), e.(rw := true));
  }

  /** The zero page is copied to a fresh frame, which entry `j` of `p` then names. */
  lemma PageFaultFresh(m: Mem, p: nat, j: nat)
    requires WellFormed(m) && FreeListOk(m) && m.refs[m.zero] >= 2 && j < ENTRIES
    requires p < |m.frames| && m.frames[p].Table? && At(m, Loc(p, j)) == Entry(m.zero, FLAG_US, false, true)
    requires CopyData(m, Loc(p, j)).Some?
    ensures var m' := CopyData(m, Loc(p, j)).value; var q := At(m', Loc(p, j)).frame;
            && |m'.frames| == |m.frames| && q < |m.frames| && m'.frames[q] == Data(ZeroBytes())
            && IsSlot(m', Loc(p, j)) && m'.frames[p].Table? && At(m', Loc(p, j)).pr
            && (forall f :: 0 <= f < |m.frames| && m.frames[f].Directory? ==> m'.frames[f] == m.frames[f])
  {
    var z := At(m, Loc(p, j));
    var m2 := DecRef(m, m.zero);
    var (m3, q) := Alloc(m2, DataKind).value;
    AllocShape(m2, DataKind);
    var m4 := SetBytes(m3, q, ZeroBytes());
    assert IsEntry(m4, Loc(p, j));
    SetEntryAt(m4, Loc(p, j), z.(frame := q, rw := true));
  }

  lemma StoreThroughShared(m: Mem, d: nat, c: nat, i: nat, j: nat, p: nat, offset: nat, v: int)
    requires ReadFaulted(m, d, i, j, p) && m.refs[p] == 1 && offset < FRAME_SIZE
    requires c < |m.frames| && c != d && m.frames[c].Directory? && At(m, Loc(c, i)) == At(m, Loc(d, i))
    requires Store(m, d, i, j, offset, v).Some?
    ensures View(m, c, i, j, {}) == Some(ZeroBytes())
    ensures View(Store(m, d, i, j, offset, v).value, c, i, j, {}) == Some(ZeroBytes()[offset := v])
  {
    TableFaultInPlace(m, d, c, i, j, p);
    var m1 := CopyTable(m, Loc(d, i)).value;
    assert At(m1, Loc(p, j)) == At(m, Loc(p, j)) && At(m1, Loc(c, i)) == At(m, Loc(c, i));
    hide CopyTable, CopyData;
    PageFaultFresh(m1, p, j);
    var m2 := CopyData(m1, Loc(p, j)).value;
    assert At(m2, Loc(d, i)) == At(m1, Loc(d, i)) && At(m2, Loc(c, i)) == At(m1, Loc(c, i));
    StoredView(m2, c, i, j, p, At(m2, Loc(p, j)).frame, ZeroBytes()[offset := v]);
  }

  lemma StoredView(m: Mem, c: nat, i: nat, j: nat, p: nat, q: nat, bytes: seq<int>)
    requires IsSlot(m, Loc(c, i)) && m.frames[c].Directory? && At(m, Loc(c, i)).pr && At(m, Loc(c, i)).frame == p
    requires IsSlot(m, Loc(p, j)) && m.frames[p].Table? && At(m, Loc(p, j)).pr && At(m, Loc(p, j)).frame == q
    requires q < |m.frames| && m.frames[q].Data?
    ensures View(SetBytes(m, q, bytes), c, i, j, {}) == Some(bytes)
  {
  }

  /**
   From any sound state: a read fault where there is no page table, a fork, then a store by the
   parent.  The child, which had a zero page, now reads the parent's value.
   */
  lemma ParentStoreReachesChild(m: Mem, d: nat, i: nat, j: nat, offset: nat, v: int)
    requires Inv(m, {}, {}) && m.kernelRefs == 1 && d < |m.frames| && m.frames[d].Directory?
    requires UserIndex(i) && j < ENTRIES && !At(m, Loc(d, i)).pr && offset < FRAME_SIZE
    requires ZeroMap(m, d, i, j).Some?
    requires CloneDirectory(ZeroMap(m, d, i, j).value, d).Some?
    requires Store(CloneDirectory(ZeroMap(m, d, i, j).value, d).value.0, d, i, j, offset, v).Some?
    ensures var (m2, c) := CloneDirectory(ZeroMap(m, d, i, j).value, d).value;
            var m3 := Store(m2, d, i, j, offset, v).value;
            && View(m2, c, i, j, {}) == Some(ZeroBytes())
            && View(m3, c, i, j, {}) == Some(ZeroBytes()[offset := v])
  {
    ZeroMapReadFaults(m, d, i, j);
    var m1 := ZeroMap(m, d, i, j).value;
    var p := At(m1, Loc(d, i)).frame;
    ForkUndercounts(m1, d, i, j, p);
    var (m2, c) := CloneDirectory(m1, d).value;
    StoreThroughShared(m2, d, c, i, j, p, offset, v);
  }

  // ---------------------------------------------------------------------------------------
  // Three untouched frames are enough
  // ---------------------------------------------------------------------------------------

  lemma {:induction false} CloneUpToRoom(m: Mem, src: nat, dst: nat, n: nat)
    ensures var m' := CloneUpTo(m, src, dst, n);
            m'.free == m.free && m'.avail == m.avail && |m'.frames| == |m.frames|
  {
    if n > 0 {
      CloneUpToRoom(m, src, dst, n - 1);
    }
  }

  lemma StoreRoom(m: Mem, d: nat, c: nat, i: nat, j: nat, p: nat, offset: nat, v: int)
    requires ReadFaulted(m, d, i, j, p) && m.refs[p] == 1 && Room(m, 1) && offset < FRAME_SIZE
    requires c < |m.frames| && c != d && m.frames[c].Directory? && At(m, Loc(c, i)) == At(m, Loc(d, i))
    ensures Store(m, d, i, j, offset, v).Some?
  {
    TableFaultInPlace(m, d, c, i, j, p);
    var m1 := CopyTable(m, Loc(d, i)).value;
    assert m1.free == m.free && m1.avail == m.avail;
    assert At(m1, Loc(p, j)) == At(m, Loc(p, j));
    hide CopyTable;
    assert CopyData(m1, Loc(p, j)).Some?;
  }

  lemma ReadFaultRunSucceeds(m: Mem, d: nat, i: nat, j: nat, offset: nat, v: int)
    requires Inv(m, {}, {}) && m.kernelRefs == 1 && d < |m.frames| && m.frames[d].Directory? && Room(m, 3)
    requires UserIndex(i) && j < ENTRIES && !At(m, Loc(d, i)).pr && offset < FRAME_SIZE
    ensures ZeroMap(m, d, i, j).Some? && CloneDirectory(ZeroMap(m, d, i, j).value, d).Some?
    ensures Store(CloneDirectory(ZeroMap(m, d, i, j).value, d).value.0, d, i, j, offset, v).Some?
  {
    assert ZeroMap(m, d, i, j).Some? && Room(ZeroMap(m, d, i, j).value, 2);
    ZeroMapReadFaults(m, d, i, j);
    hide ZeroMap, Inv;
    var m1 := ZeroMap(m, d, i, j).value;
    var p := At(m1, Loc(d, i)).frame;
    var (m2, c) := CloneDirectory(m1, d).value;
    CloneUpToRoom(Alloc(m1, DirectoryKind).value.0, d, c, ENTRIES);
    assert Room(m2, 1);
    ForkUndercounts(m1, d, i, j, p);
    hide CloneDirectory;
    StoreRoom(m2, d, c, i, j, p, offset, v);
  }
}
