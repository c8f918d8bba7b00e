/** Demand paging and stores through the page tables (map_address and the page-fault handler). */
module PagingMap {
  import opened Sets
  import opened Wrappers
  import opened Paging
  import opened PagingInvariant
  import opened PagingSteps
  import opened PagingLive
  import opened PagingLiveMap

  // ---------------------------------------------------------------------------------------
  // Stores
  // ---------------------------------------------------------------------------------------

  /** A frame with a writable entry has no other entry. */
  lemma SoleWriter(m: Mem, l: Loc, pend: set<nat>, hole: set<Loc>)
    requires Inv(m, pend, hole) && IsSlot(m, l) && l !in hole && At(m, l).pr && At(m, l).rw
    ensures Namers(m, At(m, l).frame, hole) == {l}
    ensures At(m, l).frame != m.zero && At(m, l).frame < |m.frames|
  {
    var f := At(m, l).frame;
    assert CountOk(m, f, pend, hole);
    assert l in Writers(m, f, hole);
    Singleton(Writers(m, f, hole), l);
  }

  /** One page of one process changed, the counters are right and no frame was lost. */
  ghost predicate PageUpdated(m: Mem, m': Mem, d: nat, i: nat, j: nat, bytes: seq<int>) {
    && Inv(m', {}, {})
    && Outstanding(m') == Outstanding(m)
    && PageShown(m, m', d, i, j, bytes)
  }

  /** Writing to a frame reached through two writable entries shows in exactly one place. */
  lemma WriteThrough(m: Mem, d: nat, i: nat, j: nat, bytes: seq<int>)
    requires Inv(m, {}, {}) && View(m, d, i, j, {}).Some? && MappedWritable(m, d, i, j) && |bytes| == FRAME_SIZE
    ensures PageUpdated(m, SetBytes(m, At(m, Loc(At(m, Loc(d, i)).frame, j)).frame, bytes), d, i, j, bytes)
  {
    var t := At(m, Loc(d, i)).frame;
    var f := At(m, Loc(t, j)).frame;
    SoleWriter(m, Loc(d, i), {}, {});
    SoleWriter(m, Loc(t, j), {}, {});
    SetBytesStep(m, f, bytes, {}, {});
    var m' := SetBytes(m, f, bytes);
    forall d': nat, i': nat, j': nat
      ensures View(m', d', i', j', {}) ==
              if d' == d && i' == i && j' == j then Some(bytes) else View(m, d', i', j', {})
    {
      WriteThroughAt(m, m', d, i, j, bytes, d', i', j');
    }
  }

  lemma WriteThroughAt(m: Mem, m': Mem, d: nat, i: nat, j: nat, bytes: seq<int>, d': nat, i': nat, j': nat)
    requires WellFormed(m) && View(m, d, i, j, {}).Some?
    requires var t := At(m, Loc(d, i)).frame; var f := At(m, Loc(t, j)).frame;
             && f < |m.frames| && m.frames[f].Data? && m'.frames == m.frames[f := Data(bytes)]
             && Namers(m, t, {}) == {Loc(d, i)} && Namers(m, f, {}) == {Loc(t, j)}
    ensures View(m', d', i', j', {}) ==
            if d' == d && i' == i && j' == j then Some(bytes) else View(m, d', i', j', {})
  {
    var t := At(m, Loc(d, i)).frame;
    var f := At(m, Loc(t, j)).frame;
    var t' := At(m, Loc(d', i')).frame;
    assert forall x: Loc :: IsSlot(m', x) == IsSlot(m, x) && At(m', x) == At(m, x);
    if View(m, d', i', j', {}).Some? && At(m, Loc(t', j')).frame == f {
      assert Loc(t', j') in Namers(m, f, {});
      assert Loc(d', i') in Namers(m, t, {});
    }
  }

  /** The copy-on-write fault makes both entries writable and changes no view. */
  lemma WriteFaultStep(m: Mem, d: nat, i: nat, j: nat)
    requires Inv(m, {}, {}) && View(m, d, i, j, {}).Some? && WriteFault(m, d, i, j).Some?
    ensures var m' := WriteFault(m, d, i, j).value;
            && Inv(m', {}, {}) && SameViews(m, m', {}, {}) && SameDirectories(m, m')
            && Outstanding(m') == Outstanding(m)
            && MappedWritable(m', d, i, j)
  {
    CopyTableStep(m, Loc(d, i), {});
    var m1 := CopyTable(m, Loc(d, i)).value;
    assert SameView(m, m1, d, {});
    assert View(m1, d, i, j, {}).Some?;
    var t := At(m1, Loc(d, i)).frame;
    CopyDataStep(m1, Loc(t, j), {});
    var m2 := CopyData(m1, Loc(t, j)).value;
    SameViewsTrans(m, m1, m2, {}, {});
    assert At(m2, Loc(d, i)) == At(m1, Loc(d, i));
  }

  lemma StoreStep(m: Mem, d: nat, i: nat, j: nat, offset: nat, v: int)
    requires Inv(m, {}, {}) && View(m, d, i, j, {}).Some? && offset < FRAME_SIZE
    requires Store(m, d, i, j, offset, v).Some?
    ensures PageUpdated(m, Store(m, d, i, j, offset, v).value, d, i, j, View(m, d, i, j, {}).value[offset := v])
  {
    hide Inv, WriteFault, View, Outstanding;
    var m1 := if MappedWritable(m, d, i, j) then m else WriteFault(m, d, i, j).value;
    if !MappedWritable(m, d, i, j) {
      WriteFaultStep(m, d, i, j);
    } else {
      SameFramesSameViews(m, m, {});
    }
    assert SameView(m, m1, d, {});
    ViewedBytes(m1, d, i, j);
    var bytes := View(m, d, i, j, {}).value;
    WriteThrough(m1, d, i, j, bytes[offset := v]);
    PageShownAfter(m, m1, Store(m, d, i, j, offset, v).value, d, i, j, bytes[offset := v]);
  }

  lemma ViewedBytes(m: Mem, d: nat, i: nat, j: nat)
    requires Inv(m, {}, {}) && View(m, d, i, j, {}).Some?
    ensures View(m, d, i, j, {}) == Some(BytesOf(m, At(m, Loc(At(m, Loc(d, i)).frame, j)).frame))
    ensures |View(m, d, i, j, {}).value| == FRAME_SIZE
  {
  }

  // ---------------------------------------------------------------------------------------
  // map_address
  // ---------------------------------------------------------------------------------------

  ghost predicate Unnamed(m: Mem, f: nat) {
    f < |m.frames| && m.frames[f].Data? && f != m.zero && Namers(m, f, {}) == {}
  }

  /** Copying a page table leaves a data frame that nothing names alone. */
  lemma CopyTableUnnamed(m: Mem, l: Loc, f: nat, pend: set<nat>)
    requires Inv(m, pend, {}) && IsSlot(m, l) && m.frames[l.frame].Directory?
    requires CopyTable(m, l).Some? && Unnamed(m, f)
    ensures var m' := CopyTable(m, l).value;
            Unnamed(m', f) && m'.frames[f] == m.frames[f]
  {
    var e := At(m, l);
    if e.pr && !e.rw {
      var m1 := DecRef(m, e.frame);
      if Count(m1, e.frame) == 0 {
        SetEntryAt(m1, l, e.(rw := true));
        assert Namers(SetEntry(m1, l, e.(rw := true)), f, {}) == Namers(m, f, {});
      } else {
        FreshTableUnnamed(m, l, f, pend);
      }
    }
  }

  lemma FreshTableUnnamed(m: Mem, l: Loc, f: nat, pend: set<nat>)
    requires Inv(m, pend, {}) && IsSlot(m, l) && m.frames[l.frame].Directory? && Unnamed(m, f)
    requires At(m, l).pr && !At(m, l).rw && Count(DecRef(m, At(m, l).frame), At(m, l).frame) != 0 && CopyTable(m, l).Some?
    ensures var m' := CopyTable(m, l).value; Unnamed(m', f) && m'.frames[f] == m.frames[f]
  {
    hide RefUpTo;
    var e := At(m, l);
    var m1 := DecRef(m, e.frame);
    DropShared(m, l, pend, {});
    assert {} + {l} == {l};
    var (m2, p) := Alloc(m1, TableKind).value;
    AllocStep(m1, TableKind, pend, {l});
    assert FreshTable(m2, e.frame, p);
    RefUpToStep(m2, e.frame, p, ENTRIES, pend + {p}, {l});
    hide Inv, Alloc;
    UnnamedAfterLoop(m, m2, RefUpTo(m2, e.frame, p, ENTRIES), l, p, f);
  }

  lemma UnnamedAfterLoop(m: Mem, m2: Mem, m3: Mem, l: Loc, p: nat, f: nat)
    requires WellFormed(m) && IsSlot(m, l) && At(m, l).frame < |m.frames| && m.frames[At(m, l).frame].Table?
    requires Unnamed(m, f) && p < |m.frames| && m.frames[p].Free? && m.frames[l.frame].Directory?
    requires m2.frames == m.frames[p := Zeroed(TableKind)] && m2.zero == m.zero
    requires SharedUpTo(m2, m3, At(m, l).frame, p, ENTRIES)
    ensures var m' := SetEntry(m3, l, At(m, l).(frame := p, rw := true));
            Unnamed(m', f) && m'.frames[f] == m.frames[f]
  {
    var e := At(m, l).(frame := p, rw := true);
    assert IsSlot(m2, l) && IsSlot(m3, l);
    SetEntryAt(m3, l, e);
    var m' := SetEntry(m3, l, e);
    forall x: Loc
      ensures !Names(m', x, f, {})
    {
      assert x !in Namers(m, f, {});
      assert Loc(At(m, l).frame, x.index) !in Namers(m, f, {});
      assert IsSlot(m2, x) && x.frame != p ==> IsSlot(m, x) && At(m2, x) == At(m, x);
    }
    assert Namers(m', f, {}) == {};
  }

  /** Directory entry `l` names a page table of its own, and nobody's view changed. */
  ghost predicate TableReady(m: Mem, m': Mem, l: Loc, pend: set<nat>) {
    && Inv(m', pend, {})
    && SameViews(m, m', {}, {})
    && SameDirectories(m, m')
    && Outstanding(m') == Outstanding(m)
    && IsSlot(m', l) && At(m', l).pr && At(m', l).rw
  }

  lemma NewTableStep(m: Mem, l: Loc, flags: nat, pend: set<nat>)
    requires Inv(m, pend, {}) && IsSlot(m, l) && m.frames[l.frame].Directory? && !At(m, l).pr
    requires Alloc(m, TableKind).Some?
    ensures var (m1, p) := Alloc(m, TableKind).value;
            && TableReady(m, SetEntry(m1, l, Entry(p, flags, true, true)), l, pend)
            && (forall f: nat :: Unnamed(m, f) ==>
                  && Unnamed(SetEntry(m1, l, Entry(p, flags, true, true)), f)
                  && SetEntry(m1, l, Entry(p, flags, true, true)).frames[f] == m.frames[f])
  {
    var (m1, p) := Alloc(m, TableKind).value;
    AllocStep(m, TableKind, pend, {});
    assert At(m1, l) == At(m, l) && IsSlot(m1, l);
    OpenHole(m1, l, pend + {p}, {});
    assert {} + {l} == {l};
    var e := Entry(p, flags, true, true);
    FillHole(m1, l, e, pend + {p}, {});
    InvWeaken(SetEntry(m1, l, e), pend + {p} - {p}, pend, {});
    NewTableViews(m, m1, l, e);
    SetEntryAt(m1, l, e);
    forall f: nat | Unnamed(m, f)
      ensures Unnamed(SetEntry(m1, l, e), f)
    {
      assert Namers(SetEntry(m1, l, e), f, {}) == Namers(m, f, {});
    }
  }

  lemma NewTableViews(m: Mem, m1: Mem, l: Loc, e: Entry)
    requires IsSlot(m, l) && m.frames[l.frame].Directory? && !At(m, l).pr
    requires e.frame < |m.frames| && m.frames[e.frame].Free? && m1.frames == m.frames[e.frame := Zeroed(TableKind)]
    requires SameViews(m, m1, {}, {}) && WellFormed(m1) && Typed(m1, {l}) && e.pr
    requires forall d: nat, i: nat, j: nat :: View(m1, d, i, j, {l}) == View(m1, d, i, j, {})
    ensures SameViews(m, SetEntry(m1, l, e), {}, {})
  {
    FillHoleViews(m1, l, e);
    forall d: nat
      ensures SameView(m, SetEntry(m1, l, e), d, {})
    {
      assert SameView(m, m1, d, {});
    }
  }

  lemma EnsureTableStep(m: Mem, d: nat, i: nat, flags: nat, pend: set<nat>, f: nat)
    requires Inv(m, pend, {}) && IsSlot(m, Loc(d, i)) && m.frames[d].Directory? && Unnamed(m, f)
    requires EnsureTable(m, d, i, flags, true).Some?
    ensures var m' := EnsureTable(m, d, i, flags, true).value;
            && TableReady(m, m', Loc(d, i), pend)
            && Unnamed(m', f) && m'.frames[f] == m.frames[f]
  {
    var l := Loc(d, i);
    CopyTableStep(m, l, pend);
    CopyTableUnnamed(m, l, f, pend);
    var m1 := CopyTable(m, l).value;
    if !At(m1, l).pr {
      assert m1 == m;
      NewTableStep(m, l, flags, pend);
    }
  }

  lemma PageAbsent(m: Mem, d: nat, i: nat, j: nat, pend: set<nat>)
    requires Inv(m, pend, {}) && View(m, d, i, j, {}).None? && IsSlot(m, Loc(d, i)) && m.frames[d].Directory?
    requires At(m, Loc(d, i)).pr && j < ENTRIES
    ensures IsSlot(m, Loc(At(m, Loc(d, i)).frame, j)) && !At(m, Loc(At(m, Loc(d, i)).frame, j)).pr
    ensures m.frames[At(m, Loc(d, i)).frame].Table?
  {
  }

  /** Installing a page in a table that only `d` names shows in exactly one place. */
  lemma InstallViews(m: Mem, d: nat, i: nat, j: nat, e: Entry)
    requires WellFormed(m) && Typed(m, {}) && IsSlot(m, Loc(d, i)) && m.frames[d].Directory?
    requires At(m, Loc(d, i)).pr && j < ENTRIES && View(m, d, i, j, {}).None?
    requires Namers(m, At(m, Loc(d, i)).frame, {}) == {Loc(d, i)}
    requires e.pr && e.frame < |m.frames| && m.frames[e.frame].Data?
    ensures var m' := SetEntry(m, Loc(At(m, Loc(d, i)).frame, j), e);
            forall d': nat, i': nat, j': nat :: View(m', d', i', j', {}) ==
              if d' == d && i' == i && j' == j then Some(m.frames[e.frame].bytes) else View(m, d', i', j', {})
  {
    var t := At(m, Loc(d, i)).frame;
    assert m.frames[t].Table? && IsSlot(m, Loc(t, j));
    var m' := SetEntry(m, Loc(t, j), e);
    SetEntryAt(m, Loc(t, j), e);
    forall t': nat, j': nat
      ensures TableView(m', t', j', {}) ==
              if t' == t && j' == j then Some(m.frames[e.frame].bytes) else TableView(m, t', j', {})
    {
    }
    forall d': nat, i': nat, j': nat
      ensures View(m', d', i', j', {}) ==
              if d' == d && i' == i && j' == j then Some(m.frames[e.frame].bytes) else View(m, d', i', j', {})
    {
      assert Names(m, Loc(d', i'), t, {}) ==> Loc(d', i') in Namers(m, t, {});
    }
  }

  /** Mapping a fresh frame where nothing is mapped. */
  lemma MapAddressStep(m: Mem, d: nat, i: nat, j: nat, f: nat, flags: nat)
    requires Inv(m, {f}, {}) && IsSlot(m, Loc(d, i)) && m.frames[d].Directory? && j < ENTRIES
    requires View(m, d, i, j, {}).None? && Unnamed(m, f)
    requires MapAddress(m, d, i, j, f, flags, true).Some?
    ensures PageUpdated(m, MapAddress(m, d, i, j, f, flags, true).value, d, i, j, m.frames[f].bytes)
  {
    EnsureTableStep(m, d, i, flags, {f}, f);
    var m1 := EnsureTable(m, d, i, flags, true).value;
    assert SameView(m, m1, d, {});
    PageAbsent(m1, d, i, j, {f});
    MapAddressEnd(m, m1, d, i, j, f, flags);
  }

  lemma MapAddressEnd(m: Mem, m1: Mem, d: nat, i: nat, j: nat, f: nat, flags: nat)
    requires TableReady(m, m1, Loc(d, i), {f}) && m1.frames[d].Directory? && j < ENTRIES
    requires Unnamed(m1, f) && f < |m.frames| && m1.frames[f] == m.frames[f]
    requires View(m1, d, i, j, {}).None?
    requires var l := Loc(At(m1, Loc(d, i)).frame, j); IsSlot(m1, l) && !At(m1, l).pr && m1.frames[l.frame].Table?
    ensures PageUpdated(m, SetEntry(m1, Loc(At(m1, Loc(d, i)).frame, j), Entry(f, flags, true, true)), d, i, j,
                        m.frames[f].bytes)
  {
    var t := At(m1, Loc(d, i)).frame;
    var l := Loc(t, j);
    var e := Entry(f, flags, true, true);
    SoleWriter(m1, Loc(d, i), {f}, {});
    InstallViews(m1, d, i, j, e);
    OpenHole(m1, l, {f}, {});
    assert {} + {l} == {l};
    assert CountOk(m1, f, {f}, {});
    FillHole(m1, l, e, {f}, {});
    assert {f} - {f} == {};
    SetEntryAt(m1, l, e);
    var m' := SetEntry(m1, l, e);
    forall d': nat, i': nat, j': nat
      ensures View(m', d', i', j', {}) ==
              if d' == d && i' == i && j' == j then Some(m.frames[f].bytes) else View(m, d', i', j', {})
    {
      assert SameView(m, m1, d', {});
    }
  }

  /** Demand paging with a frame of its own: exactly one page appears. */
  lemma DemandMapStep(m: Mem, d: nat, i: nat, j: nat, bytes: seq<int>)
    requires Inv(m, {}, {}) && IsSlot(m, Loc(d, i)) && m.frames[d].Directory? && j < ENTRIES
    requires View(m, d, i, j, {}).None? && |bytes| == FRAME_SIZE
    requires DemandMap(m, d, i, j, bytes).Some?
    ensures PageUpdated(m, DemandMap(m, d, i, j, bytes).value, d, i, j, bytes)
  {
    hide Alloc, SetBytes, MapAddress, Inv, View, Outstanding;
    UnnamedFrame(m, bytes);
    var (m1, f) := Alloc(m, DataKind).value;
    var m2 := SetBytes(m1, f, bytes);
    assert SameView(m, m2, d, {});
    MapAddressStep(m2, d, i, j, f, FLAG_US);
    PageShownAfter(m, m2, DemandMap(m, d, i, j, bytes).value, d, i, j, bytes);
  }

  /** A fresh frame with contents but without entries changes nothing. */
  lemma UnnamedFrame(m: Mem, bytes: seq<int>)
    requires Inv(m, {}, {}) && Alloc(m, DataKind).Some? && |bytes| == FRAME_SIZE
    ensures var (m1, f) := Alloc(m, DataKind).value;
            var m2 := SetBytes(m1, f, bytes);
            && Inv(m2, {f}, {}) && SameViews(m, m2, {}, {}) && SameDirectories(m, m2) && Outstanding(m2) == Outstanding(m)
            && Unnamed(m2, f) && m2.frames[f] == Data(bytes)
            && (forall l: Loc :: IsSlot(m2, l) == IsSlot(m, l))
  {
    var (m1, f) := Alloc(m, DataKind).value;
    AllocStep(m, DataKind, {}, {});
    hide Alloc;
    assert {} + {f} == {f};
    SetBytesStep(m1, f, bytes, {f}, {});
    hide Inv, Outstanding;
    UnnamedBytesViews(m1, f, bytes);
    SameViewsTrans(m, m1, SetBytes(m1, f, bytes), {}, {});
  }

  lemma UnnamedBytesViews(m: Mem, f: nat, bytes: seq<int>)
    requires f < |m.frames| && m.frames[f].Data? && Namers(m, f, {}) == {}
    ensures SameViews(m, SetBytes(m, f, bytes), {}, {})
  {
    var m' := SetBytes(m, f, bytes);
    assert forall x: Loc :: IsSlot(m', x) == IsSlot(m, x) && At(m', x) == At(m, x);
    forall t: nat, j: nat
      ensures TableView(m', t, j, {}) == TableView(m, t, j, {})
    {
      assert Loc(t, j) !in Namers(m, f, {});
    }
  }

  // ---------------------------------------------------------------------------------------
  // The zero frame
  // ---------------------------------------------------------------------------------------

  lemma RefZeroStep(m: Mem)
    requires Inv(m, {}, {}) && m.kernelRefs == 1
    ensures Inv(RefZero(m), {}, {}) && SameViews(m, RefZero(m), {}, {})
    ensures RefZero(m).frames == m.frames && Outstanding(RefZero(m)) == Outstanding(m)
  {
    var m' := RefZero(m);
    forall f: nat
      ensures Namers(m', f, {}) == Namers(m, f, {}) && Writers(m', f, {}) == Writers(m, f, {})
    {
      HoleNamers(m, m', Loc(|m.frames|, 0), {}, f);
      assert forall x: Loc :: IsSlot(m', x) == IsSlot(m, x) && At(m', x) == At(m, x);
    }
    assert CountOk(m, m.zero, {}, {});
    NamersBound(m, m.zero, {});
    forall f | 0 <= f < |m.frames|
      ensures CountOk(m', f, {}, {})
    {
      assert CountOk(m, f, {}, {});
    }
    SameFramesSameViews(m, m', {});
    assert Owned(m') == Owned(m);
  }

  /** Handing the kernel's second reference on the zero frame to the new entry `l`. */
  lemma ShareZero(m: Mem, l: Loc, e: Entry)
    requires Inv(m, {}, {}) && m.kernelRefs == 2 && IsSlot(m, l) && m.frames[l.frame].Table? && !At(m, l).pr
    requires e.pr && !e.rw && e.frame == m.zero
    ensures Inv(SetEntry(m, l, e).(kernelRefs := 1), {}, {})
    ensures Outstanding(SetEntry(m, l, e).(kernelRefs := 1)) == Outstanding(m)
  {
    var m1 := SetEntry(m, l, e);
    var m' := m1.(kernelRefs := 1);
    SetEntryAt(m, l, e);
    SetEntryShape(m, l, e);
    forall f | 0 <= f < |m.frames|
      ensures CountOk(m', f, {}, {})
    {
      assert CountOk(m, f, {}, {});
      hide WellFormed, FreeListOk, Typed, CountOk, Namers, Writers;
      ShareZeroCount(m, m', l, e, f);
    }
    assert FreeListOk(m') && WellFormed(m') && Typed(m', {});
    assert Owned(m') == Owned(m1);
  }

  lemma ShareZeroCount(m: Mem, m': Mem, l: Loc, e: Entry, f: nat)
    requires IsSlot(m, l) && !At(m, l).pr && e.pr && !e.rw && e.frame == m.zero
    requires forall x: Loc :: IsSlot(m', x) == IsSlot(m, x)
    requires forall x: Loc :: At(m', x) == if x == l then e else At(m, x)
    requires f < |m.frames| == |m.refs| == |m'.frames| && m'.refs == m.refs && m'.zero == m.zero
    requires m'.frames[f].Data? == m.frames[f].Data? && m'.frames[f].Table? == m.frames[f].Table?
    requires m.zero < |m.frames| && m.frames[m.zero].Data? && m.kernelRefs == 2 && m'.kernelRefs == 1
    requires CountOk(m, f, {}, {})
    ensures CountOk(m', f, {}, {})
  {
    ShareZeroNamers(m, m', l, e, f);
  }

  lemma ShareZeroNamers(m: Mem, m': Mem, l: Loc, e: Entry, f: nat)
    requires IsSlot(m, l) && !At(m, l).pr && e.pr && !e.rw
    requires forall x: Loc :: IsSlot(m', x) == IsSlot(m, x)
    requires forall x: Loc :: At(m', x) == if x == l then e else At(m, x)
    ensures Namers(m', f, {}) == Namers(m, f, {}) + (if f == e.frame then {l} else {})
    ensures l !in Namers(m, f, {})
    ensures Writers(m', f, {}) == Writers(m, f, {})
  {
  }

  /** Mapping the zero frame into an existing table: one zero page appears. */
  lemma ZeroMapStep(m: Mem, d: nat, i: nat, j: nat)
    requires Inv(m, {}, {}) && m.kernelRefs == 1
    requires IsSlot(m, Loc(d, i)) && m.frames[d].Directory? && j < ENTRIES
    requires View(m, d, i, j, {}).None? && At(m, Loc(d, i)).pr && ZeroMap(m, d, i, j).Some?
    ensures PageUpdated(m, ZeroMap(m, d, i, j).value, d, i, j, ZeroBytes())
  {
    var m0 := RefZero(m);
    RefZeroStep(m);
    assert At(m0, Loc(d, i)) == At(m, Loc(d, i)) && IsSlot(m0, Loc(d, i));
    CopyTableStep(m0, Loc(d, i), {});
    var m1 := CopyTable(m0, Loc(d, i)).value;
    SameViewsTrans(m, m0, m1, {}, {});
    assert SameView(m, m1, d, {});
    PageAbsent(m1, d, i, j, {});
    ZeroMapEnd(m, m1, d, i, j);
  }

  lemma ZeroMapEnd(m: Mem, m1: Mem, d: nat, i: nat, j: nat)
    requires Inv(m1, {}, {}) && m1.kernelRefs == 2 && m.kernelRefs == 1 && m1.zero == m.zero
    requires IsSlot(m1, Loc(d, i)) && m1.frames[d].Directory? && At(m1, Loc(d, i)).pr && At(m1, Loc(d, i)).rw
    requires SameViews(m, m1, {}, {}) && Outstanding(m1) == Outstanding(m) && |m1.frames| == |m.frames|
    requires forall f :: 0 <= f < |m.frames| ==> m1.frames[f].Directory? == m.frames[f].Directory?
    requires View(m1, d, i, j, {}).None? && j < ENTRIES
    requires var l := Loc(At(m1, Loc(d, i)).frame, j); IsSlot(m1, l) && !At(m1, l).pr && m1.frames[l.frame].Table?
    ensures PageUpdated(m, SetEntry(m1, Loc(At(m1, Loc(d, i)).frame, j), Entry(m.zero, FLAG_US, false, true)).(kernelRefs := 1),
                        d, i, j, ZeroBytes())
  {
    var l := Loc(At(m1, Loc(d, i)).frame, j);
    var e := Entry(m.zero, FLAG_US, false, true);
    SoleWriter(m1, Loc(d, i), {}, {});
    InstallViews(m1, d, i, j, e);
    ShareZero(m1, l, e);
    SetEntryAt(m1, l, e);
    var m2 := SetEntry(m1, l, e);
    var m' := m2.(kernelRefs := 1);
    SameFramesSameViews(m2, m', {});
    forall d': nat, i': nat, j': nat
      ensures View(m', d', i', j', {}) ==
              if d' == d && i' == i && j' == j then Some(ZeroBytes()) else View(m, d', i', j', {})
    {
      assert SameView(m2, m', d', {});
      assert SameView(m, m1, d', {});
    }
  }

  /** With no page table yet, the read-fault path installs a read-only entry it never counts. */
  lemma ZeroMapUncounted(m: Mem, d: nat, i: nat, j: nat)
    requires Inv(m, {}, {}) && m.kernelRefs == 1
    requires IsSlot(m, Loc(d, i)) && m.frames[d].Directory? && j < ENTRIES
    requires !At(m, Loc(d, i)).pr && ZeroMap(m, d, i, j).Some?
    ensures Uncounted(ZeroMap(m, d, i, j).value, Loc(d, i))
  {
    var l := Loc(d, i);
    var m0 := RefZero(m);
    RefZeroStep(m);
    assert At(m0, l) == At(m, l) && IsSlot(m0, l);
    var (m1, p) := Alloc(m0, TableKind).value;
    AllocStep(m0, TableKind, {}, {});
    var e := Entry(p, FLAG_US, false, true);
    assert IsSlot(m1, l);
    SetEntryAt(m1, l, e);
    var m2 := SetEntry(m1, l, e);
    SetEntryAt(m2, Loc(p, j), Entry(m.zero, FLAG_US, false, true));
  }

  /** The read-fault path shows one zero page, and keeps the counts exactly when the page table is there. */
  lemma ZeroMapKeepsCountsIff(m: Mem, d: nat, i: nat, j: nat)
    requires Inv(m, {}, {}) && m.kernelRefs == 1
    requires IsSlot(m, Loc(d, i)) && m.frames[d].Directory? && j < ENTRIES
    requires View(m, d, i, j, {}).None? && ZeroMap(m, d, i, j).Some?
    ensures PageShown(m, ZeroMap(m, d, i, j).value, d, i, j, ZeroBytes())
    ensures Inv(ZeroMap(m, d, i, j).value, {}, {}) <==> At(m, Loc(d, i)).pr
    ensures At(m, Loc(d, i)).pr ==> PageUpdated(m, ZeroMap(m, d, i, j).value, d, i, j, ZeroBytes())
  {
    hide ZeroMap, Inv;
    CountedIsLive(m);
    ZeroMapLive(m, d, i, j);
    if At(m, Loc(d, i)).pr {
      ZeroMapStep(m, d, i, j);
    } else {
      ZeroMapUncounted(m, d, i, j);
      UncountedBreaks(ZeroMap(m, d, i, j).value, Loc(d, i));
    }
  }

  /** Afterwards the table entry is there and read-only. */
  lemma ZeroMapReadOnly(m: Mem, d: nat, i: nat, j: nat)
    requires Inv(m, {}, {}) && m.kernelRefs == 1
    requires IsSlot(m, Loc(d, i)) && m.frames[d].Directory? && j < ENTRIES
    requires At(m, Loc(d, i)).pr && ZeroMap(m, d, i, j).Some?
    ensures var m' := ZeroMap(m, d, i, j).value; var t := At(m', Loc(d, i)).frame;
            At(m', Loc(d, i)).pr && At(m', Loc(t, j)).pr && !At(m', Loc(t, j)).rw
  {
    var m0 := RefZero(m);
    RefZeroStep(m);
    assert At(m0, Loc(d, i)) == At(m, Loc(d, i)) && IsSlot(m0, Loc(d, i));
    CopyTableStep(m0, Loc(d, i), {});
    var m1 := CopyTable(m0, Loc(d, i)).value;
    hide CopyTable;
    var t := At(m1, Loc(d, i)).frame;
    assert IsSlot(m1, Loc(t, j)) && m1.frames[t].Table? && m1.frames[d].Directory?;
    SetEntryAt(m1, Loc(t, j), Entry(m.zero, FLAG_US, false, true));
  }
}
