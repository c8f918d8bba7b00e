/** Stores and demand paging when the counters need not be right. */
module PagingLiveMap {
  import opened Wrappers
  import opened Paging
  import opened PagingInvariant
  import opened PagingSteps
  import opened PagingLive
  import opened PagingLiveCopy

  // ---------------------------------------------------------------------------------------
  // Stores
  // ---------------------------------------------------------------------------------------

  lemma ViewIsLive(m: Mem, d: nat, i: nat, j: nat)
    requires LiveInv(m) && View(m, d, i, j, {}).Some?
    ensures var t := At(m, Loc(d, i)).frame;
            && Live(m, Loc(d, i)) && Live(m, Loc(t, j)) && SlotOk(m, Loc(d, i)) && SlotOk(m, Loc(t, j))
            && m.frames[d].Directory? && m.frames[t].Table?
  {
    var t := At(m, Loc(d, i)).frame;
    assert Loc(d, i) in TableNamers(m, t);
    assert Loc(d, i) in LiveSlots(m) && Loc(t, j) in LiveSlots(m);
  }

  /** A writable path leads to a page that nobody else sees. */
  lemma WriteThroughLive(m: Mem, d: nat, i: nat, j: nat, bytes: seq<int>)
    requires LiveInv(m) && View(m, d, i, j, {}).Some? && MappedWritable(m, d, i, j) && |bytes| == FRAME_SIZE
    ensures var m' := SetBytes(m, At(m, Loc(At(m, Loc(d, i)).frame, j)).frame, bytes);
            LiveInv(m') && PageShown(m, m', d, i, j, bytes)
  {
    var t := At(m, Loc(d, i)).frame;
    var f := At(m, Loc(t, j)).frame;
    var live := LiveSlots(m);
    ViewIsLive(m, d, i, j);
    assert Loc(d, i) in live && Loc(t, j) in live;
    SoleLive(m, Loc(d, i), live, {});
    SoleLive(m, Loc(t, j), live, {});
    LiveSetBytes(m, f, bytes, live, {});
    var m' := SetBytes(m, f, bytes);
    assert SameNames(m, m');
    SameNamesSameLive(m, m');
    ApartKept(m, m');
    hide Sound, LiveSlots;
    forall d': nat, i': nat, j': nat
      ensures View(m', d', i', j', {}) ==
              if d' == d && i' == i && j' == j then Some(bytes) else View(m, d', i', j', {})
    {
      WrittenView(m, m', d, i, j, bytes, d', i', j');
    }
  }

  lemma WrittenView(m: Mem, m': Mem, d: nat, i: nat, j: nat, bytes: seq<int>, d': nat, i': nat, j': nat)
    requires LiveInv(m) && View(m, d, i, j, {}).Some?
    requires var t := At(m, Loc(d, i)).frame; var f := At(m, Loc(t, j)).frame;
             && LiveNamers(m, t, LiveSlots(m)) == {Loc(d, i)} && LiveNamers(m, f, LiveSlots(m)) == {Loc(t, j)}
             && f < |m.frames| && m.frames[f].Data? && m'.frames == m.frames[f := Data(bytes)]
    ensures View(m', d', i', j', {}) ==
            if d' == d && i' == i && j' == j then Some(bytes) else View(m, d', i', j', {})
  {
    hide LiveInv;
    var t := At(m, Loc(d, i)).frame;
    var f := At(m, Loc(t, j)).frame;
    var t' := At(m, Loc(d', i')).frame;
    assert forall x: Loc :: IsSlot(m', x) == IsSlot(m, x) && At(m', x) == At(m, x);
    if View(m, d', i', j', {}).Some? {
      ViewIsLive(m, d', i', j');
      assert t' == t ==> Loc(d', i') in LiveNamers(m, t, LiveSlots(m));
      assert At(m, Loc(t', j')).frame == f ==> Loc(t', j') in LiveNamers(m, f, LiveSlots(m));
    }
  }

  lemma WriteFaultLive(m: Mem, d: nat, i: nat, j: nat)
    requires LiveInv(m) && View(m, d, i, j, {}).Some? && WriteFault(m, d, i, j).Some?
    ensures var m' := WriteFault(m, d, i, j).value;
            LiveInv(m') && SameViews(m, m', {}, {}) && SameDirectories(m, m') && MappedWritable(m', d, i, j)
  {
    hide LiveInv, CopyTable, CopyData, View;
    ViewIsLive(m, d, i, j);
    CopyTableLive(m, Loc(d, i));
    var m1 := CopyTable(m, Loc(d, i)).value;
    assert SameView(m, m1, d, {});
    ViewIsLive(m1, d, i, j);
    var t := At(m1, Loc(d, i)).frame;
    CopyDataLive(m1, Loc(t, j));
    var m2 := CopyData(m1, Loc(t, j)).value;
    SameViewsTrans(m, m1, m2, {}, {});
    assert At(m2, Loc(d, i)) == At(m1, Loc(d, i));
  }

  /** A store shows in one page of one process, even through entries nobody counted. */
  lemma StoreLive(m: Mem, d: nat, i: nat, j: nat, offset: nat, v: int)
    requires LiveInv(m) && View(m, d, i, j, {}).Some? && offset < FRAME_SIZE && Store(m, d, i, j, offset, v).Some?
    ensures var m' := Store(m, d, i, j, offset, v).value;
            LiveInv(m') && PageShown(m, m', d, i, j, View(m, d, i, j, {}).value[offset := v])
  {
    hide LiveInv, WriteFault, View;
    var m1 := if MappedWritable(m, d, i, j) then m else WriteFault(m, d, i, j).value;
    if !MappedWritable(m, d, i, j) {
      WriteFaultLive(m, d, i, j);
    } else {
      SameFramesSameViews(m, m, {});
    }
    assert SameView(m, m1, d, {});
    ViewBytes(m1, d, i, j);
    var bytes := View(m, d, i, j, {}).value;
    WriteThroughLive(m1, d, i, j, bytes[offset := v]);
    PageShownAfter(m, m1, Store(m, d, i, j, offset, v).value, d, i, j, bytes[offset := v]);
  }

  lemma ViewBytes(m: Mem, d: nat, i: nat, j: nat)
    requires LiveInv(m) && View(m, d, i, j, {}).Some?
    ensures View(m, d, i, j, {}) == Some(BytesOf(m, At(m, Loc(At(m, Loc(d, i)).frame, j)).frame))
    ensures |View(m, d, i, j, {}).value| == FRAME_SIZE
  {
  }

  // ---------------------------------------------------------------------------------------
  // map_address
  // ---------------------------------------------------------------------------------------

  /** Directory entry `l` names a page table that nobody else names. */
  ghost predicate TableFound(m: Mem, m': Mem, l: Loc) {
    && LiveInv(m')
    && SameViews(m, m', {}, {})
    && SameDirectories(m, m')
    && SparesKept(m, m')
    && IsSlot(m', l) && At(m', l).pr
    && At(m', l).frame < |m'.refs| && m'.refs[At(m', l).frame] == 0
  }

  lemma OwnedFound(m: Mem, m': Mem, l: Loc)
    requires LiveOwned(m, m', l) && At(m, l).pr && IsSlot(m, l) && m.frames[l.frame].Directory?
    ensures TableFound(m, m', l)
  {
    assert l in LiveSlots(m');
  }

  lemma NewTableLive(m: Mem, l: Loc, flags: nat, rw: bool)
    requires LiveInv(m) && IsSlot(m, l) && m.frames[l.frame].Directory? && !At(m, l).pr
    requires Alloc(m, TableKind).Some?
    ensures var (m1, p) := Alloc(m, TableKind).value; TableFound(m, SetEntry(m1, l, Entry(p, flags, rw, true)), l)
  {
    var live := LiveSlots(m);
    var (m1, p) := Alloc(m, TableKind).value;
    LiveAlloc(m, TableKind, live, {});
    hide Alloc;
    LiveOpen(m1, l, live, {});
    assert {} + {l} == {l};
    var e := Entry(p, flags, rw, true);
    assert LiveNamers(m1, p, live) == {};
    LiveFill(m1, l, e, live, {}, m1.kernelRefs);
    SetEntryAt(m1, l, e);
    NewTableEnd(m, m1, SetEntry(m1, l, e), l, e);
  }

  lemma NewTableEnd(m: Mem, m1: Mem, m': Mem, l: Loc, e: Entry)
    requires LiveInv(m) && IsSlot(m, l) && m.frames[l.frame].Directory? && !At(m, l).pr && e.pr
    requires Allocated(m, m1, e.frame, TableKind, LiveSlots(m), {})
    requires m' == SetEntry(m1, l, e) && Sound(m', LiveSlots(m) + {l}, {})
    ensures TableFound(m, m', l)
  {
    var p := e.frame;
    SetEntryAt(m1, l, e);
    NewTableNamers(m, m1, m', l, e);
    FewerLive(m', LiveSlots(m) + {l}, LiveSlots(m'), {});
    forall x: Loc | Live(m', x) && m'.frames[x.frame].Table? && Uncounted(m', x)
      ensures Sole(m', x.frame)
    {
      assert Live(m, x) && Uncounted(m, x);
    }
    NewTableShows(m, m1, m', l, e);
    forall f: nat | Spare(m, f)
      ensures Spare(m', f) && m'.frames[f] == m.frames[f]
    {
    }
  }

  lemma NewTableNamers(m: Mem, m1: Mem, m': Mem, l: Loc, e: Entry)
    requires LiveInv(m) && IsSlot(m, l) && m.frames[l.frame].Directory? && !At(m, l).pr && e.pr
    requires Allocated(m, m1, e.frame, TableKind, LiveSlots(m), {}) && m' == SetEntry(m1, l, e)
    ensures forall t: nat :: t != e.frame ==> TableNamers(m', t) == TableNamers(m, t)
    ensures forall x: Loc :: Live(m', x) ==> x == l || Live(m, x)
    ensures LiveSlots(m') <= LiveSlots(m) + {l}
  {
    SetEntryAt(m1, l, e);
    hide Sound;
    forall t: nat | t != e.frame
      ensures TableNamers(m', t) == TableNamers(m, t)
    {
    }
    forall x: Loc | Live(m', x)
      ensures x == l || Live(m, x)
    {
      assert x != l ==> At(m', x) == At(m1, x);
    }
  }

  lemma NewTableShows(m: Mem, m1: Mem, m': Mem, l: Loc, e: Entry)
    requires LiveInv(m) && IsSlot(m, l) && m.frames[l.frame].Directory? && !At(m, l).pr && e.pr
    requires Allocated(m, m1, e.frame, TableKind, LiveSlots(m), {}) && m' == SetEntry(m1, l, e)
    ensures SameViews(m, m', {}, {}) && SameDirectories(m, m')
  {
    SetEntryAt(m1, l, e);
    hide Sound;
    forall d: nat, i: nat, j: nat
      ensures View(m', d, i, j, {}) == View(m, d, i, j, {})
    {
      if IsSlot(m, Loc(d, i)) && m.frames[d].Directory? && At(m, Loc(d, i)).pr {
        ReachedEntries(m, Loc(d, i));
        SameTableFrom(m, At(m, Loc(d, i)).frame, m', At(m, Loc(d, i)).frame);
      }
    }
  }

  lemma EnsureTableLive(m: Mem, d: nat, i: nat, flags: nat, rw: bool)
    requires LiveInv(m) && IsSlot(m, Loc(d, i)) && m.frames[d].Directory? && EnsureTable(m, d, i, flags, rw).Some?
    ensures TableFound(m, EnsureTable(m, d, i, flags, rw).value, Loc(d, i))
  {
    var l := Loc(d, i);
    CopyTableLive(m, l);
    if At(m, l).pr {
      OwnedFound(m, CopyTable(m, l).value, l);
    } else {
      NewTableLive(m, l, flags, rw);
    }
  }

  /** Installing a page in a table that only `d` names. */
  lemma InstallLive(m: Mem, d: nat, i: nat, j: nat, e: Entry, kernel: nat)
    requires LiveInv(m) && IsSlot(m, Loc(d, i)) && m.frames[d].Directory? && At(m, Loc(d, i)).pr && j < ENTRIES
    requires At(m, Loc(d, i)).frame < |m.refs| && m.refs[At(m, Loc(d, i)).frame] == 0
    requires View(m, d, i, j, {}).None? && 1 <= kernel <= 2 && (e.frame == m.zero || kernel == m.kernelRefs)
    requires Claimable(m, e, LiveSlots(m), {}, kernel) && m.frames[e.frame].Data?
    ensures var m' := SetEntry(m, Loc(At(m, Loc(d, i)).frame, j), e).(kernelRefs := kernel);
            && LiveInv(m')
            && |m'.frames| == |m.frames| && m'.zero == m.zero && m'.kernelRefs == kernel
            && (forall f :: 0 <= f < |m.frames| ==> m'.frames[f].Directory? == m.frames[f].Directory?)
            && (forall d': nat, i': nat, j': nat :: View(m', d', i', j', {}) ==
                  if d' == d && i' == i && j' == j then Some(m.frames[e.frame].bytes) else View(m, d', i', j', {}))
  {
    var live := LiveSlots(m);
    var t := At(m, Loc(d, i)).frame;
    var l := Loc(t, j);
    ReachedEntries(m, Loc(d, i));
    assert Loc(d, i) in live;
    SoleLive(m, Loc(d, i), live, {});
    assert IsSlot(m, l) && !At(m, l).pr;
    LiveOpen(m, l, live, {});
    assert {} + {l} == {l};
    assert Namers(m, e.frame, {l}) == Namers(m, e.frame, {});
    LiveFill(m, l, e, live, {}, kernel);
    hide Sound, LiveInv, View, Claimable, Namers, LiveNamers;
    SetEntryAt(m, l, e);
    InstalledNamers(m, d, i, j, e, kernel);
    InstalledShows(m, d, i, j, e, kernel);
  }

  lemma InstalledNamers(m: Mem, d: nat, i: nat, j: nat, e: Entry, kernel: nat)
    requires LiveInv(m) && IsSlot(m, Loc(d, i)) && m.frames[d].Directory? && At(m, Loc(d, i)).pr
    requires var t := At(m, Loc(d, i)).frame;
             IsSlot(m, Loc(t, j)) && m.frames[t].Table? && !At(m, Loc(t, j)).pr && LiveNamers(m, t, LiveSlots(m)) == {Loc(d, i)}
    requires var m' := SetEntry(m, Loc(At(m, Loc(d, i)).frame, j), e).(kernelRefs := kernel);
             Sound(m', LiveSlots(m) + {Loc(At(m, Loc(d, i)).frame, j)}, {})
    ensures LiveInv(SetEntry(m, Loc(At(m, Loc(d, i)).frame, j), e).(kernelRefs := kernel))
  {
    var t := At(m, Loc(d, i)).frame;
    var l := Loc(t, j);
    var m1 := SetEntry(m, l, e);
    var m' := m1.(kernelRefs := kernel);
    SetEntryAt(m, l, e);
    assert forall x: Loc :: IsSlot(m', x) == IsSlot(m, x) && At(m', x) == At(m1, x);
    forall u: nat
      ensures TableNamers(m', u) == TableNamers(m, u)
    {
    }
    assert forall x: Loc :: Live(m', x) ==> x == l || Live(m, x);
    FewerLive(m', LiveSlots(m) + {l}, LiveSlots(m'), {});
    hide Sound;
    forall x: Loc | Live(m', x) && m'.frames[x.frame].Table? && Uncounted(m', x)
      ensures Sole(m', x.frame)
    {
      if x == l {
        forall y | y in TableNamers(m, t)
          ensures y == Loc(d, i)
        {
          assert Live(m, y) && y in LiveNamers(m, t, LiveSlots(m));
        }
      } else {
        assert Live(m, x) && Uncounted(m, x);
      }
    }
  }

  lemma InstalledShows(m: Mem, d: nat, i: nat, j: nat, e: Entry, kernel: nat)
    requires LiveInv(m) && IsSlot(m, Loc(d, i)) && m.frames[d].Directory? && At(m, Loc(d, i)).pr
    requires var t := At(m, Loc(d, i)).frame;
             && IsSlot(m, Loc(t, j)) && m.frames[t].Table? && LiveNamers(m, t, LiveSlots(m)) == {Loc(d, i)}
    requires e.pr && e.frame < |m.frames| && m.frames[e.frame].Data?
    ensures var m' := SetEntry(m, Loc(At(m, Loc(d, i)).frame, j), e).(kernelRefs := kernel);
            forall d': nat, i': nat, j': nat :: View(m', d', i', j', {}) ==
              if d' == d && i' == i && j' == j then Some(m.frames[e.frame].bytes) else View(m, d', i', j', {})
  {
    hide Sound;
    var t := At(m, Loc(d, i)).frame;
    var m1 := SetEntry(m, Loc(t, j), e);
    var m' := m1.(kernelRefs := kernel);
    SetEntryAt(m, Loc(t, j), e);
    assert forall x: Loc :: IsSlot(m', x) == IsSlot(m, x) && At(m', x) == At(m1, x);
    forall t': nat, j': nat
      ensures TableView(m', t', j', {}) ==
              if t' == t && j' == j then Some(m.frames[e.frame].bytes) else TableView(m, t', j', {})
    {
    }
    forall d': nat, i': nat, j': nat
      ensures View(m', d', i', j', {}) ==
              if d' == d && i' == i && j' == j then Some(m.frames[e.frame].bytes) else View(m, d', i', j', {})
    {
      if IsSlot(m, Loc(d', i')) && m.frames[d'].Directory? && At(m, Loc(d', i')).pr {
        assert Live(m, Loc(d', i'));
        assert At(m, Loc(d', i')).frame == t ==> Loc(d', i') in LiveNamers(m, t, LiveSlots(m));
      }
    }
  }

  /** Demand paging with a frame of its own. */
  lemma DemandMapLive(m: Mem, d: nat, i: nat, j: nat, bytes: seq<int>)
    requires LiveInv(m) && IsSlot(m, Loc(d, i)) && m.frames[d].Directory? && j < ENTRIES
    requires View(m, d, i, j, {}).None? && |bytes| == FRAME_SIZE && DemandMap(m, d, i, j, bytes).Some?
    ensures var m' := DemandMap(m, d, i, j, bytes).value; LiveInv(m') && PageShown(m, m', d, i, j, bytes)
  {
    hide Alloc, SetBytes, EnsureTable, LiveInv, View, SetEntry;
    SpareFrame(m, bytes);
    var (m1, f) := Alloc(m, DataKind).value;
    var m2 := SetBytes(m1, f, bytes);
    EnsureTableLive(m2, d, i, FLAG_US, true);
    var m3 := EnsureTable(m2, d, i, FLAG_US, true).value;
    SameViewsTrans(m, m2, m3, {}, {});
    DemandMapEnd(m, m3, d, i, j, f, bytes);
  }

  lemma DemandMapEnd(m: Mem, m3: Mem, d: nat, i: nat, j: nat, f: nat, bytes: seq<int>)
    requires LiveInv(m3) && SameViews(m, m3, {}, {}) && SameDirectories(m, m3)
    requires IsSlot(m3, Loc(d, i)) && m3.frames[d].Directory? && At(m3, Loc(d, i)).pr && j < ENTRIES
    requires At(m3, Loc(d, i)).frame < |m3.refs| && m3.refs[At(m3, Loc(d, i)).frame] == 0
    requires View(m, d, i, j, {}).None? && Spare(m3, f) && m3.frames[f] == Data(bytes)
    ensures var m' := SetEntry(m3, Loc(At(m3, Loc(d, i)).frame, j), Entry(f, FLAG_US, true, true));
            LiveInv(m') && PageShown(m, m', d, i, j, bytes)
  {
    hide View;
    assert SameView(m, m3, d, {});
    assert LiveNamers(m3, f, LiveSlots(m3)) == {};
    hide LiveInv;
    InstallLive(m3, d, i, j, Entry(f, FLAG_US, true, true), m3.kernelRefs);
    PageShownAfter(m, m3, SetEntry(m3, Loc(At(m3, Loc(d, i)).frame, j), Entry(f, FLAG_US, true, true)), d, i, j, bytes);
  }

  /** A fresh frame with contents but without entries changes nothing. */
  lemma SpareFrame(m: Mem, bytes: seq<int>)
    requires LiveInv(m) && Alloc(m, DataKind).Some? && |bytes| == FRAME_SIZE
    ensures var (m1, f) := Alloc(m, DataKind).value;
            var m2 := SetBytes(m1, f, bytes);
            && LiveInv(m2) && SameViews(m, m2, {}, {}) && SameDirectories(m, m2)
            && Spare(m2, f) && m2.frames[f] == Data(bytes)
            && (forall x: Loc :: IsSlot(m, x) && m.frames[x.frame].Directory? ==> IsSlot(m2, x) && m2.frames[x.frame].Directory?)
  {
    var live := LiveSlots(m);
    var (m1, f) := Alloc(m, DataKind).value;
    LiveAlloc(m, DataKind, live, {});
    hide Alloc;
    LiveSetBytes(m1, f, bytes, live, {});
    var m2 := SetBytes(m1, f, bytes);
    assert SameNames(m, m2);
    SameNamesSameLive(m, m2);
    ApartKept(m, m2);
    forall x: Loc | IsSlot(m, x) && m.frames[x.frame].Directory? && At(m, x).pr
      ensures SameTable(m, At(m, x).frame, m2, At(m2, x).frame)
    {
      ReachedEntries(m, x);
      hide Sound;
      SameTableFrom(m, At(m, x).frame, m2, At(m2, x).frame);
    }
    SameTablesShow(m, m2);
    assert forall x: Loc :: Live(m2, x) ==> x in live;
  }

  // ---------------------------------------------------------------------------------------
  // The zero frame
  // ---------------------------------------------------------------------------------------

  lemma RefZeroLive(m: Mem)
    requires LiveInv(m) && m.kernelRefs == 1
    ensures LiveInv(RefZero(m)) && SameViews(m, RefZero(m), {}, {}) && RefZero(m).frames == m.frames
    ensures RefZero(m).kernelRefs == 2 && RefZero(m).zero == m.zero
  {
    var m' := RefZero(m);
    var live := LiveSlots(m);
    assert LiveOk(m, m.zero, live, {});
    NamersBound(m, m.zero, {});
    assert forall x: Loc :: IsSlot(m', x) == IsSlot(m, x) && At(m', x) == At(m, x);
    RefZeroSound(m, m', live);
    assert SameNames(m, m');
    hide Sound;
    SameNamesSameLive(m, m');
    ApartKept(m, m');
    SameFramesSameViews(m, m', {});
  }

  lemma RefZeroSound(m: Mem, m': Mem, live: set<Loc>)
    requires Sound(m, live, {}) && m.kernelRefs == 1
    requires m' == m.(refs := m.refs[m.zero := m.refs[m.zero] + 1], kernelRefs := 2)
    ensures Sound(m', live, {})
  {
    assert forall x: Loc :: IsSlot(m', x) == IsSlot(m, x) && At(m', x) == At(m, x);
    forall x | x in live
      ensures SlotOk(m', x) && (At(m', x).rw ==> m'.refs[At(m', x).frame] == 0)
    {
      if At(m, x).rw {
        SoleLive(m, x, live, {});
      }
    }
    forall f | 0 <= f < |m.frames|
      ensures LiveOk(m', f, live, {})
    {
      assert LiveOk(m, f, live, {});
      assert Namers(m', f, {}) == Namers(m, f, {});
      assert LiveNamers(m', f, live) == LiveNamers(m, f, live);
    }
  }

  /** Mapping the zero frame shows one zero page, whether or not there was a page table. */
  lemma ZeroMapLive(m: Mem, d: nat, i: nat, j: nat)
    requires LiveInv(m) && m.kernelRefs == 1 && IsSlot(m, Loc(d, i)) && m.frames[d].Directory? && j < ENTRIES
    requires View(m, d, i, j, {}).None? && ZeroMap(m, d, i, j).Some?
    ensures var m' := ZeroMap(m, d, i, j).value; LiveInv(m') && PageShown(m, m', d, i, j, ZeroBytes())
  {
    hide LiveInv, EnsureTable, RefZero, View;
    var m0 := RefZero(m);
    RefZeroLive(m);
    ZeroMapTable(m, m0, d, i, j);
    var m1 := EnsureTable(m0, d, i, FLAG_US, false).value;
    ZeroMapEnd(m, m1, d, i, j);
  }

  lemma ZeroMapTable(m: Mem, m0: Mem, d: nat, i: nat, j: nat)
    requires LiveInv(m0) && m0.frames == m.frames && m0.zero == m.zero && SameViews(m, m0, {}, {})
    requires IsSlot(m, Loc(d, i)) && m.frames[d].Directory? && EnsureTable(m0, d, i, FLAG_US, false).Some?
    ensures TableFound(m0, EnsureTable(m0, d, i, FLAG_US, false).value, Loc(d, i))
    ensures SameViews(m, EnsureTable(m0, d, i, FLAG_US, false).value, {}, {})
  {
    hide LiveInv, EnsureTable;
    assert IsSlot(m0, Loc(d, i));
    EnsureTableLive(m0, d, i, FLAG_US, false);
    SameViewsTrans(m, m0, EnsureTable(m0, d, i, FLAG_US, false).value, {}, {});
  }

  lemma ZeroMapEnd(m: Mem, m1: Mem, d: nat, i: nat, j: nat)
    requires LiveInv(m1) && m1.kernelRefs == 2 && m.kernelRefs == 1 && m1.zero == m.zero && |m1.frames| == |m.frames|
    requires forall f :: 0 <= f < |m.frames| ==> m1.frames[f].Directory? == m.frames[f].Directory?
    requires IsSlot(m1, Loc(d, i)) && m1.frames[d].Directory? && At(m1, Loc(d, i)).pr && j < ENTRIES
    requires At(m1, Loc(d, i)).frame < |m1.refs| && m1.refs[At(m1, Loc(d, i)).frame] == 0
    requires SameViews(m, m1, {}, {}) && View(m, d, i, j, {}).None?
    ensures var m' := SetEntry(m1, Loc(At(m1, Loc(d, i)).frame, j), Entry(m.zero, FLAG_US, false, true)).(kernelRefs := 1);
            LiveInv(m') && PageShown(m, m', d, i, j, ZeroBytes())
  {
    hide View;
    assert LiveOk(m1, m1.zero, LiveSlots(m1), {}) && m1.frames[m1.zero] == Data(ZeroBytes());
    assert SameView(m, m1, d, {});
    hide LiveInv;
    InstallLive(m1, d, i, j, Entry(m.zero, FLAG_US, false, true), 1);
    var m' := SetEntry(m1, Loc(At(m1, Loc(d, i)).frame, j), Entry(m.zero, FLAG_US, false, true)).(kernelRefs := 1);
    forall d': nat, i': nat, j': nat
      ensures View(m', d', i', j', {}) ==
              if d' == d && i' == i && j' == j then Some(ZeroBytes()) else View(m, d', i', j', {})
    {
      assert SameView(m, m1, d', {});
    }
  }
}
