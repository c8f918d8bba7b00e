/** Releasing page tables and directories (COW::unref and free_directory). */
module PagingRelease {
  import opened Wrappers
  import opened Paging
  import opened PagingInvariant
  import opened PagingSteps

  /** An entry of a table that no directory names shows nowhere. */
  lemma UnreachedHole(m: Mem, l: Loc, hole: set<Loc>)
    requires IsSlot(m, l) && m.frames[l.frame].Table? && Namers(m, l.frame, hole) == {}
    ensures SameHole(m, hole, hole + {l})
  {
    forall d: nat, i: nat, j: nat
      ensures View(m, d, i, j, hole + {l}) == View(m, d, i, j, hole)
    {
      assert Loc(d, i) !in Namers(m, l.frame, hole);
    }
  }

  /** The two hole sets hide the same pages. */
  ghost predicate SameHole(m: Mem, hole: set<Loc>, hole': set<Loc>) {
    forall d: nat, i: nat, j: nat :: View(m, d, i, j, hole') == View(m, d, i, j, hole)
  }

  /** What dropping entry `l` leaves behind. */
  ghost predicate Dropped(m: Mem, m': Mem, l: Loc, pend: set<nat>, hole: set<Loc>) {
    && Inv(m', pend, hole)
    && SameViews(m, m', hole, {})
    && SameDirectories(m, m')
    && Outstanding(m') == Outstanding(m)
    && (forall x: Loc :: IsSlot(m', x) == IsSlot(m, x))
    && (forall x: Loc :: IsSlot(m, x) ==> At(m', x) == if x == l then At(m', l) else At(m, x))
    && !At(m', l).pr
    && l.frame < |m.refs| == |m'.refs| && m'.refs[l.frame] == m.refs[l.frame]
  }

  lemma DeallocSlots(m: Mem, f: nat)
    requires f < |m.frames| && m.frames[f].Data?
    ensures forall x: Loc :: IsSlot(Dealloc(m, f), x) == IsSlot(m, x) && At(Dealloc(m, f), x) == At(m, x)
    ensures SameDirectories(m, Dealloc(m, f))
  {
  }

  lemma CloseDropped(m: Mem, m2: Mem, l: Loc, pend: set<nat>, hole: set<Loc>)
    requires IsSlot(m, l) && m.frames[l.frame].Table? && l !in hole && Namers(m, l.frame, hole) == {}
    requires Inv(m2, pend, hole + {l}) && SameViews(m, m2, hole + {l}, {}) && SameDirectories(m, m2)
    requires forall x: Loc :: IsSlot(m2, x) == IsSlot(m, x) && At(m2, x) == At(m, x)
    requires Outstanding(m2) == Outstanding(m)
    requires l.frame < |m.refs| == |m2.refs| && m2.refs[l.frame] == m.refs[l.frame]
    ensures Dropped(m, SetEntry(m2, l, NO_ENTRY), l, pend, hole)
  {
    UnreachedHole(m, l, hole);
    CloseHole(m2, l, NO_ENTRY, pend, hole);
    SetEntryAt(m2, l, NO_ENTRY);
    forall d: nat
      ensures SameView(m, SetEntry(m2, l, NO_ENTRY), d, hole)
    {
      assert SameView(m, m2, d, hole + {l});
    }
  }

  ghost predicate TablesOnly(m: Mem, pend: set<nat>) {
    forall p :: p in pend ==> p < |m.frames| && m.frames[p].Table?
  }

  /** Dropping the entry of a table that is being taken down. */
  lemma UnrefDataStep(m: Mem, l: Loc, pend: set<nat>, hole: set<Loc>)
    requires Inv(m, pend, hole) && IsSlot(m, l) && m.frames[l.frame].Table? && l !in hole
    requires Namers(m, l.frame, hole) == {} && TablesOnly(m, pend)
    ensures Dropped(m, UnrefData(m, l), l, pend, hole)
  {
    var e := At(m, l);
    if !e.pr {
    } else if e.rw {
      UnrefOwnedData(m, l, pend, hole);
    } else {
      DropShared(m, l, pend, hole);
      var m1 := DecRef(m, e.frame);
      assert m1.frames == m.frames && m.frames[e.frame].Data?;
      if Count(m1, e.frame) == 0 {
        UnrefLastData(m, m1, l, pend, hole);
      } else {
        CloseDropped(m, m1, l, pend, hole);
      }
    }
  }

  lemma UnrefOwnedData(m: Mem, l: Loc, pend: set<nat>, hole: set<Loc>)
    requires Inv(m, pend, hole) && IsSlot(m, l) && m.frames[l.frame].Table? && l !in hole
    requires Namers(m, l.frame, hole) == {} && TablesOnly(m, pend) && At(m, l).pr && At(m, l).rw
    ensures Dropped(m, SetEntry(Dealloc(m, At(m, l).frame), l, NO_ENTRY), l, pend, hole)
  {
    var f := At(m, l).frame;
    DropOwned(m, l, pend, hole);
    DeallocStep(m, f, pend + {f}, hole + {l});
    assert pend + {f} - {f} == pend;
    DeallocSlots(m, f);
    CloseDropped(m, Dealloc(m, f), l, pend, hole);
  }

  lemma UnrefLastData(m: Mem, m1: Mem, l: Loc, pend: set<nat>, hole: set<Loc>)
    requires Inv(m, pend, hole) && IsSlot(m, l) && m.frames[l.frame].Table? && l !in hole
    requires Namers(m, l.frame, hole) == {} && TablesOnly(m, pend)
    requires At(m, l).frame < |m.frames| && m.frames[At(m, l).frame].Data? && At(m, l).frame != m.zero
    requires m1 == m.(refs := m1.refs) && |m1.refs| == |m.refs| && m1.refs[l.frame] == m.refs[l.frame]
    requires var f := At(m, l).frame; Inv(m1, pend + {f}, hole + {l}) && m1.refs[f] == 0 && Namers(m1, f, hole + {l}) == {}
    requires SameViews(m, m1, hole + {l}, {}) && Outstanding(m1) == Outstanding(m)
    ensures Dropped(m, SetEntry(Dealloc(m1, At(m, l).frame), l, NO_ENTRY), l, pend, hole)
  {
    var f := At(m, l).frame;
    DeallocStep(m1, f, pend + {f}, hole + {l});
    assert pend + {f} - {f} == pend;
    DeallocSlots(m1, f);
    SameViewsTrans(m, m1, Dealloc(m1, f), hole + {l}, {});
    CloseDropped(m, Dealloc(m1, f), l, pend, hole);
  }

  // ---------------------------------------------------------------------------------------
  // Page tables
  // ---------------------------------------------------------------------------------------

  /** The first `n` entries of the unnamed table `t` have been dropped. */
  ghost predicate Emptied(m: Mem, m': Mem, t: nat, n: nat, pend: set<nat>, hole: set<Loc>) {
    && Inv(m', pend, hole)
    && SameViews(m, m', hole, {})
    && SameDirectories(m, m')
    && Outstanding(m') == Outstanding(m)
    && (forall x: Loc :: IsSlot(m', x) == IsSlot(m, x))
    && (forall x: Loc :: IsSlot(m, x) && (x.frame != t || x.index >= n) ==> At(m', x) == At(m, x))
    && (forall i: nat :: i < n ==> !At(m', Loc(t, i)).pr)
    && t < |m.refs| == |m'.refs| && m'.refs[t] == m.refs[t]
    && Namers(m', t, hole) == {}
  }

  lemma SlotsKeepTables(m: Mem, m': Mem)
    requires WellFormed(m) && SameDirectories(m, m') && forall x: Loc :: IsSlot(m', x) == IsSlot(m, x)
    ensures forall t :: 0 <= t < |m.frames| && m.frames[t].Table? ==> m'.frames[t].Table?
  {
    forall t | 0 <= t < |m.frames| && m.frames[t].Table?
      ensures m'.frames[t].Table?
    {
      assert IsSlot(m, Loc(t, 0));
    }
  }

  lemma EmptiedStart(m: Mem, t: nat, pend: set<nat>, hole: set<Loc>)
    requires Inv(m, pend, hole) && t < |m.frames| && Namers(m, t, hole) == {}
    ensures Emptied(m, m, t, 0, pend, hole)
  {
  }

  lemma EmptiedNext(m: Mem, m1: Mem, t: nat, n: nat, pend: set<nat>, hole: set<Loc>)
    requires n < ENTRIES && Inv(m, pend, hole) && t < |m.frames| && m.frames[t].Table? && TablesOnly(m, pend)
    requires forall x :: x in hole ==> x.frame != t
    requires Emptied(m, m1, t, n, pend, hole)
    ensures Emptied(m, UnrefData(m1, Loc(t, n)), t, n + 1, pend, hole)
  {
    assert IsSlot(m, Loc(t, n));
    SlotsKeepTables(m, m1);
    UnrefDataStep(m1, Loc(t, n), pend, hole);
    var m' := UnrefData(m1, Loc(t, n));
    hide Inv, UnrefData;
    SameViewsTrans(m, m1, m', hole, {});
    assert Namers(m', t, hole) <= Namers(m1, t, hole);
  }

  lemma {:induction false} UnrefUpToStep(m: Mem, t: nat, n: nat, pend: set<nat>, hole: set<Loc>)
    requires Inv(m, pend, hole) && t < |m.frames| && m.frames[t].Table? && n <= ENTRIES
    requires TablesOnly(m, pend) && Namers(m, t, hole) == {}
    requires forall x :: x in hole ==> x.frame != t
    ensures Emptied(m, UnrefUpTo(m, t, n), t, n, pend, hole)
  {
    hide Emptied, Inv, UnrefData, Namers, TablesOnly;
    if n == 0 {
      EmptiedStart(m, t, pend, hole);
    } else {
      UnrefUpToStep(m, t, n - 1, pend, hole);
      EmptiedNext(m, UnrefUpTo(m, t, n - 1), t, n - 1, pend, hole);
    }
  }

  /** Entries that are live afterwards were there before, unchanged. */
  ghost predicate OnlyClears(m: Mem, m': Mem) {
    forall x: Loc :: IsSlot(m', x) && At(m', x).pr ==> IsSlot(m, x) && At(m', x) == At(m, x)
  }

  /** The directory entry `l` is gone; nothing else changed for anyone. */
  ghost predicate Detached(m: Mem, m': Mem, l: Loc) {
    && Inv(m', {}, {})
    && SameDirectories(m, m')
    && Outstanding(m') == Outstanding(m)
    && (forall d: nat, i: nat, j: nat :: View(m', d, i, j, {}) == if Loc(d, i) == l then None else View(m, d, i, j, {}))
    && !At(m', l).pr
    && (forall x: Loc :: x != l && IsSlot(m, x) && m.frames[x.frame].Directory? ==> At(m', x) == At(m, x))
    && OnlyClears(m, m')
  }

  lemma DetachEnd(m: Mem, m2: Mem, l: Loc)
    requires IsSlot(m, l) && m.frames[l.frame].Directory?
    requires Inv(m2, {}, {l}) && SameViews(m, m2, {l}, {}) && SameDirectories(m, m2)
    requires forall x: Loc :: IsSlot(m, x) && m.frames[x.frame].Directory? ==> IsSlot(m2, x) && At(m2, x) == At(m, x)
    requires Outstanding(m2) == Outstanding(m) && OnlyClears(m, m2)
    ensures Detached(m, SetEntry(m2, l, NO_ENTRY), l)
  {
    assert {} + {l} == {l};
    CloseHole(m2, l, NO_ENTRY, {}, {});
    SetEntryAt(m2, l, NO_ENTRY);
    DirectoryHole(m, l);
    forall d: nat, i: nat, j: nat
      ensures View(SetEntry(m2, l, NO_ENTRY), d, i, j, {}) == if Loc(d, i) == l then None else View(m, d, i, j, {})
    {
      assert SameView(m, m2, d, {l});
    }
  }

  /** Taking down a table whose last entry `l` was given up. */
  lemma TakeDown(m: Mem, m1: Mem, l: Loc)
    requires IsSlot(m, l) && m.frames[l.frame].Directory? && m1.frames == m.frames && m1.zero == m.zero && m1.kernelRefs == m.kernelRefs
    requires var t := At(m, l).frame;
             && t < |m.frames| && m.frames[t].Table?
             && Inv(m1, {t}, {l}) && Namers(m1, t, {l}) == {} && m1.refs[t] == 0
    requires SameViews(m, m1, {l}, {}) && Outstanding(m1) == Outstanding(m)
    ensures var t := At(m, l).frame; Detached(m, SetEntry(Dealloc(UnrefUpTo(m1, t, ENTRIES), t), l, NO_ENTRY), l)
  {
    hide Inv, Outstanding, SameViews, Detached, Dealloc, SetEntry;
    var t := At(m, l).frame;
    var m2 := UnrefUpTo(m1, t, ENTRIES);
    UnrefUpToStep(m1, t, ENTRIES, {t}, {l});
    InvMeans(m1, {t}, {l});
    SlotsKeepTables(m1, m2);
    hide WellFormed, FreeListOk, Typed;
    assert NoLiveEntries(m2, t);
    TakeDownEnd(m, m1, m2, l, t);
  }

  lemma TakeDownEnd(m: Mem, m1: Mem, m2: Mem, l: Loc, t: nat)
    requires IsSlot(m, l) && m.frames[l.frame].Directory? && m1.frames == m.frames && m1.zero == m.zero && m1.kernelRefs == m.kernelRefs
    requires t < |m.frames| && m.frames[t].Table?
    requires Emptied(m1, m2, t, ENTRIES, {t}, {l}) && NoLiveEntries(m2, t)
    requires m2.frames[t].Table? && m1.refs[t] == 0
    requires SameViews(m, m1, {l}, {}) && Outstanding(m1) == Outstanding(m)
    ensures Detached(m, SetEntry(Dealloc(m2, t), l, NO_ENTRY), l)
  {
    DeallocStep(m2, t, {t}, {l});
    assert {t} - {t} == {};
    var m3 := Dealloc(m2, t);
    SameViewsTrans(m, m1, m2, {l}, {});
    SameViewsTrans(m, m2, m3, {l}, {});
    forall x: Loc | IsSlot(m, x) && m.frames[x.frame].Directory?
      ensures IsSlot(m3, x) && At(m3, x) == At(m, x)
    {
      assert IsSlot(m1, x) && At(m1, x) == At(m, x);
      assert IsSlot(m2, x) && At(m2, x) == At(m, x);
      assert m3.frames[x.frame] == m2.frames[x.frame];
    }
    assert OnlyClears(m1, m2);
    assert OnlyClears(m, m3);
    DetachEnd(m, m3, l);
  }

  /** COW::unref on a directory entry. */
  lemma UnrefTableStep(m: Mem, l: Loc)
    requires Inv(m, {}, {}) && IsSlot(m, l) && m.frames[l.frame].Directory?
    ensures Detached(m, UnrefTable(m, l), l)
  {
    var e := At(m, l);
    assert {} + {l} == {l} && {} + {e.frame} == {e.frame};
    if !e.pr {
    } else if e.rw {
      DropOwned(m, l, {}, {});
      TakeDown(m, m, l);
    } else {
      DropShared(m, l, {}, {});
      var m1 := DecRef(m, e.frame);
      assert m1.frames == m.frames && m.frames[e.frame].Table?;
      if Count(m1, e.frame) == 0 {
        TakeDown(m, m1, l);
      } else {
        DetachEnd(m, m1, l);
      }
    }
  }

  // ---------------------------------------------------------------------------------------
  // Directories
  // ---------------------------------------------------------------------------------------

  ghost predicate DirectoryEmptied(m: Mem, m': Mem, d: nat, n: nat) {
    && Inv(m', {}, {})
    && SameDirectories(m, m')
    && Outstanding(m') == Outstanding(m)
    && (forall d', i: nat, j: nat :: View(m', d', i, j, {}) ==
          if d' == d && USER_DIR_START <= i < n then None else View(m, d', i, j, {}))
    && (forall i: nat :: USER_DIR_START <= i < n ==> !At(m', Loc(d, i)).pr)
    && OnlyClears(m, m')
  }

  lemma {:induction false} UnrefTablesStep(m: Mem, d: nat, n: nat)
    requires Inv(m, {}, {}) && d < |m.frames| && m.frames[d].Directory?
    requires USER_DIR_START <= n <= USER_DIR_END
    ensures DirectoryEmptied(m, UnrefTablesFrom(m, d, n), d, n)
  {
    hide DirectoryEmptied, UnrefTable, Inv;
    if n == USER_DIR_START {
      DirectoryEmptiedStart(m, d);
    } else {
      UnrefTablesStep(m, d, n - 1);
      DirectoryEmptiedNext(m, UnrefTablesFrom(m, d, n - 1), d, n - 1);
    }
  }

  lemma DirectoryEmptiedStart(m: Mem, d: nat)
    requires Inv(m, {}, {})
    ensures DirectoryEmptied(m, m, d, USER_DIR_START)
  {
  }

  lemma DirectoryEmptiedNext(m: Mem, m1: Mem, d: nat, n: nat)
    requires d < |m.frames| && m.frames[d].Directory? && USER_DIR_START <= n < USER_DIR_END
    requires DirectoryEmptied(m, m1, d, n)
    ensures DirectoryEmptied(m, UnrefTable(m1, Loc(d, n)), d, n + 1)
  {
    assert IsSlot(m1, Loc(d, n));
    hide UnrefTable;
    UnrefTableStep(m1, Loc(d, n));
    var m' := UnrefTable(m1, Loc(d, n));
    forall i: nat | USER_DIR_START <= i < n + 1
      ensures !At(m', Loc(d, i)).pr
    {
      assert IsSlot(m1, Loc(d, i));
    }
  }

  /** Directory `d` is gone and the other address spaces are what they were. */
  ghost predicate DirectoryGone(m: Mem, m': Mem, d: nat) {
    && |m'.frames| == |m.frames| && m'.zero == m.zero && m'.kernelRefs == m.kernelRefs
    && (forall f :: 0 <= f < |m.frames| ==> m'.frames[f].Directory? == (m.frames[f].Directory? && f != d))
    && (forall d': nat, i: nat, j: nat :: View(m', d', i, j, {}) == if d' == d then None else View(m, d', i, j, {}))
  }

  ghost predicate DirectoryFreed(m: Mem, m': Mem, d: nat) {
    && Inv(m', {}, {})
    && Outstanding(m') == Outstanding(m)
    && DirectoryGone(m, m', d)
    && OnlyClears(m, m')
  }

  lemma FreeDirectoryStep(m: Mem, d: nat)
    requires Inv(m, {}, {}) && d < |m.frames| && m.frames[d].Directory?
    ensures DirectoryFreed(m, FreeDirectory(m, d), d)
  {
    hide DirectoryEmptied, DirectoryFreed, Inv;
    UnrefTablesStep(m, d, USER_DIR_END);
    FreeDirectoryEnd(m, UnrefTablesFrom(m, d, USER_DIR_END), d);
  }

  lemma FreeDirectoryEnd(m: Mem, m1: Mem, d: nat)
    requires d < |m.frames| && m.frames[d].Directory? && DirectoryEmptied(m, m1, d, USER_DIR_END)
    ensures DirectoryFreed(m, Dealloc(m1, d), d)
  {
    assert m1.frames[d].Directory?;
    assert CountOk(m1, d, {}, {});
    DeallocStep(m1, d, {}, {});
    assert {} - {d} == {};
    hide Inv, Outstanding;
    var m' := Dealloc(m1, d);
    forall d': nat, i: nat, j: nat
      ensures View(m', d', i, j, {}) == if d' == d then None else View(m, d', i, j, {})
    {
      assert SameView(m1, m', d', {});
    }
  }
}
