/**
 Unmapping a range of pages (unmap_pages in kernel/vmm.cc).

 A table that has to be kept in part is made private first, but the entries are then dropped from
 the table that was found before.  While nobody else uses that table the two are the same.
 */
module PagingUnmap {
  import opened Wrappers
  import opened Paging
  import opened PagingInvariant
  import opened PagingSteps
  import opened PagingEntries
  import opened PagingFork
  import opened PagingRelease
  import opened PagingMap

  // ---------------------------------------------------------------------------------------
  // Dropping entries of a table in use
  // ---------------------------------------------------------------------------------------

  /** Whether directory entry `x` names table `t`. */
  ghost predicate Uses(m: Mem, x: Loc, t: nat) {
    IsSlot(m, x) && m.frames[x.frame].Directory? && At(m, x).pr && At(m, x).frame == t
  }

  /** Entries `lo` up to `lo + n` of table `t` are gone, for everyone who uses it. */
  ghost predicate Cleared(m: Mem, m': Mem, t: nat, lo: nat, n: nat) {
    && Inv(m', {}, {})
    && SameDirectories(m, m')
    && Outstanding(m') == Outstanding(m)
    && (forall x: Loc :: IsSlot(m', x) == IsSlot(m, x))
    && (forall x: Loc :: IsSlot(m, x) && !(x.frame == t && lo <= x.index < lo + n) ==> At(m', x) == At(m, x))
    && (forall d: nat, i: nat, j: nat :: View(m', d, i, j, {}) ==
          if Uses(m, Loc(d, i), t) && lo <= j < lo + n then None else View(m, d, i, j, {}))
  }

  lemma HiddenEntry(m: Mem, l: Loc)
    requires IsSlot(m, l) && m.frames[l.frame].Table?
    ensures forall d: nat, i: nat, j: nat :: View(m, d, i, j, {l}) ==
              if Uses(m, Loc(d, i), l.frame) && j == l.index then None else View(m, d, i, j, {})
  {
  }

  lemma CloseCleared(m: Mem, m2: Mem, l: Loc)
    requires IsSlot(m, l) && m.frames[l.frame].Table?
    requires Inv(m2, {}, {l}) && SameViews(m, m2, {l}, {}) && SameDirectories(m, m2) && Outstanding(m2) == Outstanding(m)
    requires forall x: Loc :: IsSlot(m2, x) == IsSlot(m, x) && At(m2, x) == At(m, x)
    ensures Cleared(m, SetEntry(m2, l, NO_ENTRY), l.frame, l.index, 1)
  {
    assert {} + {l} == {l};
    CloseHole(m2, l, NO_ENTRY, {}, {});
    hide Inv, Outstanding;
    SetEntryAt(m2, l, NO_ENTRY);
    HiddenEntry(m, l);
    hide View;
    forall d: nat, i: nat, j: nat
      ensures View(SetEntry(m2, l, NO_ENTRY), d, i, j, {}) ==
              if Uses(m, Loc(d, i), l.frame) && l.index <= j < l.index + 1 then None else View(m, d, i, j, {})
    {
      assert SameView(m, m2, d, {l});
    }
  }

  /** COW::unref on an entry of a table, whoever uses the table. */
  lemma UnrefDataClears(m: Mem, l: Loc)
    requires Inv(m, {}, {}) && IsSlot(m, l) && m.frames[l.frame].Table?
    ensures Cleared(m, UnrefData(m, l), l.frame, l.index, 1)
  {
    var e := At(m, l);
    assert {} + {l} == {l};
    if !e.pr {
    } else if e.rw {
      DropOwned(m, l, {}, {});
      ReleaseCleared(m, m, l);
    } else {
      DropShared(m, l, {}, {});
      var m1 := DecRef(m, e.frame);
      if Count(m1, e.frame) == 0 {
        ReleaseCleared(m, m1, l);
      } else {
        SameFramesSameEntries(m, m1);
        CloseCleared(m, m1, l);
      }
    }
  }

  lemma ReleaseCleared(m: Mem, m1: Mem, l: Loc)
    requires Inv(m, {}, {}) && IsSlot(m, l) && m.frames[l.frame].Table? && At(m, l).pr
    requires m1 == m.(refs := m1.refs) && Outstanding(m1) == Outstanding(m)
    requires var f := At(m, l).frame;
             Inv(m1, {} + {f}, {} + {l}) && f < |m1.refs| && m1.refs[f] == 0 && f != m.zero && Namers(m1, f, {} + {l}) == {}
    ensures Cleared(m, SetEntry(Dealloc(m1, At(m, l).frame), l, NO_ENTRY), l.frame, l.index, 1)
  {
    var f := At(m, l).frame;
    assert m.frames[f].Data?;
    assert {} + {l} == {l} && {} + {f} == {f} && {f} - {f} == {};
    SameFramesSameViews(m, m1, {l});
    DeallocStep(m1, f, {f}, {l});
    DeallocSlots(m1, f);
    SameFramesSameEntries(m, m1);
    hide Inv, Dealloc, Outstanding;
    SameViewsTrans(m, m1, Dealloc(m1, f), {l}, {});
    CloseCleared(m, Dealloc(m1, f), l);
  }

  lemma ClearedNext(m: Mem, m1: Mem, m2: Mem, t: nat, lo: nat, n: nat)
    requires Cleared(m, m1, t, lo, n) && Cleared(m1, m2, t, lo + n, 1) && t < |m.frames| && m.frames[t].Table?
    ensures Cleared(m, m2, t, lo, n + 1)
  {
    hide Inv, Outstanding, View;
    forall d: nat, i: nat
      ensures Uses(m1, Loc(d, i), t) == Uses(m, Loc(d, i), t)
    {
    }
  }

  lemma {:induction false} UnrefRangeClears(m: Mem, t: nat, lo: nat, n: nat)
    requires Inv(m, {}, {}) && t < |m.frames| && m.frames[t].Table? && lo + n <= ENTRIES
    ensures Cleared(m, UnrefRange(m, t, lo, n), t, lo, n)
  {
    hide Cleared, UnrefData;
    if n == 0 {
      ClearedStart(m, t, lo);
    } else {
      UnrefRangeClears(m, t, lo, n - 1);
      var m1 := UnrefRange(m, t, lo, n - 1);
      ClearedTable(m, m1, t, lo, n - 1);
      UnrefDataClears(m1, Loc(t, lo + n - 1));
      ClearedNext(m, m1, UnrefRange(m, t, lo, n), t, lo, n - 1);
    }
  }

  lemma ClearedStart(m: Mem, t: nat, lo: nat)
    requires Inv(m, {}, {})
    ensures Cleared(m, m, t, lo, 0)
  {
  }

  lemma ClearedTable(m: Mem, m1: Mem, t: nat, lo: nat, n: nat)
    requires Inv(m, {}, {}) && t < |m.frames| && m.frames[t].Table? && lo + n < ENTRIES && Cleared(m, m1, t, lo, n)
    ensures Inv(m1, {}, {}) && IsSlot(m1, Loc(t, lo + n)) && m1.frames[t].Table?
  {
    assert IsSlot(m, Loc(t, lo + n));
    SlotsKeepTables(m, m1);
  }

  // ---------------------------------------------------------------------------------------
  // One table
  // ---------------------------------------------------------------------------------------

  /** Directory `d` lost pages `lo` to `hi` of table `i`, and nobody lost anything else. */
  ghost predicate OnlyUnmapped(m: Mem, m': Mem, d: nat, i: nat, lo: nat, hi: nat) {
    forall d': nat, i': nat, j: nat :: View(m', d', i', j, {}) ==
      if d' == d && i' == i && lo <= j <= hi then None else View(m, d', i', j, {})
  }

  /** The table found is the process's own once it is private, or there is nothing to keep or to drop. */
  ghost predicate Harmless(m: Mem, d: nat, i: nat, lo: nat, hi: nat) {
    var e := At(m, Loc(d, i));
    !e.pr || e.rw || Count(m, e.frame) == 1 || !MapsOutside(m, e.frame, lo, hi) || !MapsInside(m, e.frame, lo, hi)
  }

  /** What every round keeps, right or wrong. */
  ghost predicate RoundKeeps(m: Mem, m': Mem, d: nat, i: nat) {
    && Inv(m', {}, {}) && SameDirectories(m, m') && Outstanding(m') == Outstanding(m)
    && (forall x: Loc :: x != Loc(d, i) && IsSlot(m, x) && m.frames[x.frame].Directory? ==> At(m', x) == At(m, x))
    && (At(m', Loc(d, i)).pr ==> At(m', Loc(d, i)).rw)
  }

  /** Nothing to keep: the whole table goes. */
  lemma UnmapWhole(m: Mem, d: nat, i: nat, lo: nat, hi: nat)
    requires Inv(m, {}, {}) && IsSlot(m, Loc(d, i)) && m.frames[d].Directory? && lo <= hi < ENTRIES
    requires !At(m, Loc(d, i)).pr || !MapsOutside(m, At(m, Loc(d, i)).frame, lo, hi)
    ensures OnlyUnmapped(m, UnrefTable(m, Loc(d, i)), d, i, lo, hi) && RoundKeeps(m, UnrefTable(m, Loc(d, i)), d, i)
  {
    UnrefTableStep(m, Loc(d, i));
    hide Inv, UnrefTable, Outstanding;
    forall j: nat | !(lo <= j <= hi)
      ensures View(m, d, i, j, {}).None?
    {
      assert j < ENTRIES ==> !At(m, Loc(At(m, Loc(d, i)).frame, j)).pr || !At(m, Loc(d, i)).pr;
    }
  }

  /** The private table is the table found: exactly the pages asked for go. */
  lemma UnmapOwn(m: Mem, d: nat, i: nat, lo: nat, hi: nat)
    requires Inv(m, {}, {}) && IsSlot(m, Loc(d, i)) && m.frames[d].Directory? && lo <= hi < ENTRIES
    requires At(m, Loc(d, i)).pr && (At(m, Loc(d, i)).rw || Count(m, At(m, Loc(d, i)).frame) == 1)
    requires CopyTable(m, Loc(d, i)).Some?
    ensures var m' := UnrefRange(CopyTable(m, Loc(d, i)).value, At(m, Loc(d, i)).frame, lo, hi + 1 - lo);
            OnlyUnmapped(m, m', d, i, lo, hi) && RoundKeeps(m, m', d, i)
  {
    hide Inv, CopyTable, UnrefRange, View, Outstanding, Namers;
    var l := Loc(d, i);
    var t := At(m, l).frame;
    CopyTableStep(m, l, {});
    OwnInPlace(m, l);
    var m1 := CopyTable(m, l).value;
    SoleWriter(m1, l, {}, {});
    UnrefRangeClears(m1, t, lo, hi + 1 - lo);
    UnmapOwnEnd(m, m1, UnrefRange(m1, t, lo, hi + 1 - lo), l, t, lo, hi);
  }

  /** A table of one user is made private where it is. */
  lemma OwnInPlace(m: Mem, l: Loc)
    requires Inv(m, {}, {}) && IsSlot(m, l) && m.frames[l.frame].Directory? && At(m, l).pr
    requires At(m, l).rw || Count(m, At(m, l).frame) == 1
    ensures CopyTable(m, l).Some?
    ensures var m' := CopyTable(m, l).value; var t := At(m, l).frame;
            At(m', l).frame == t && t < |m'.frames| && m'.frames[t].Table?
  {
    hide RefUpTo, Alloc;
    var t := At(m, l).frame;
    assert t < |m.frames| && m.frames[t].Table?;
    hide Inv;
    if !At(m, l).rw {
      SetEntryAt(DecRef(m, t), l, At(m, l).(rw := true));
    }
  }

  lemma UnmapOwnEnd(m: Mem, m1: Mem, m': Mem, l: Loc, t: nat, lo: nat, hi: nat)
    requires IsSlot(m, l) && m.frames[l.frame].Directory? && lo <= hi
    requires Privatised(m, m1, l, {}) && At(m1, l).pr && Namers(m1, t, {}) == {l}
    requires Cleared(m1, m', t, lo, hi + 1 - lo)
    ensures OnlyUnmapped(m, m', l.frame, l.index, lo, hi) && RoundKeeps(m, m', l.frame, l.index)
  {
    forall d: nat, i: nat
      ensures Uses(m1, Loc(d, i), t) <==> Loc(d, i) == l
    {
      assert Loc(d, i) in Namers(m1, t, {}) <==> Names(m1, Loc(d, i), t, {});
    }
    hide Inv, Outstanding, View, Namers;
    forall d: nat, i: nat, j: nat
      ensures View(m', d, i, j, {}) ==
              if d == l.frame && i == l.index && lo <= j <= hi then None else View(m, d, i, j, {})
    {
      assert SameView(m, m1, d, {});
    }
    RoundEntries(m, m1, m', l, t, lo, hi + 1 - lo);
  }

  lemma RoundEntries(m: Mem, m1: Mem, m': Mem, l: Loc, t: nat, lo: nat, n: nat)
    requires IsSlot(m, l) && Privatised(m, m1, l, {}) && Cleared(m1, m', t, lo, n)
    requires t < |m1.frames| && !m1.frames[t].Directory?
    ensures forall x: Loc :: x != l && IsSlot(m, x) && m.frames[x.frame].Directory? ==> At(m', x) == At(m, x)
  {
    InvMeans(m1, {}, {});
    hide Inv, View, Outstanding;
    forall x: Loc | x != l && IsSlot(m, x) && m.frames[x.frame].Directory?
      ensures At(m', x) == At(m, x)
    {
      assert IsSlot(m1, x);
    }
  }

  /** A table with more users: the copy keeps its pages, and the others lose theirs. */
  lemma UnmapShared(m: Mem, d: nat, i: nat, lo: nat, hi: nat)
    requires Inv(m, {}, {}) && IsSlot(m, Loc(d, i)) && m.frames[d].Directory? && lo <= hi < ENTRIES
    requires At(m, Loc(d, i)).pr && !At(m, Loc(d, i)).rw && Count(m, At(m, Loc(d, i)).frame) != 1
    requires CopyTable(m, Loc(d, i)).Some?
    ensures var m' := UnrefRange(CopyTable(m, Loc(d, i)).value, At(m, Loc(d, i)).frame, lo, hi + 1 - lo);
            && RoundKeeps(m, m', d, i)
            && (forall j: nat :: View(m', d, i, j, {}) == View(m, d, i, j, {}))
            && At(m', Loc(d, i)).pr && At(m', Loc(d, i)).rw
            && (!MapsInside(m, At(m, Loc(d, i)).frame, lo, hi) ==> SameViews(m, m', {}, {}))
            && OwnKept(m, m', d) && OthersLose(m, m', Loc(d, i), lo, hi)
  {
    hide Inv, CopyTable, UnrefRange, View, MapsInside, Outstanding;
    var l := Loc(d, i);
    var t := At(m, l).frame;
    CopyTableStep(m, l, {});
    CopyTableLeaves(m, l);
    NoWriter(m, l);
    var m1 := CopyTable(m, l).value;
    UnrefRangeClears(m1, t, lo, hi + 1 - lo);
    UnmapSharedEnd(m, m1, UnrefRange(m1, t, lo, hi + 1 - lo), l, t, lo, hi);
  }

  /** The tables that only `d` uses show what they did. */
  ghost predicate OwnKept(m: Mem, m': Mem, d: nat) {
    forall k: nat, j: nat :: IsSlot(m, Loc(d, k)) && At(m, Loc(d, k)).pr && At(m, Loc(d, k)).rw ==>
      View(m', d, k, j, {}) == View(m, d, k, j, {})
  }

  /** Whoever else uses the table of `l` finds the pages gone. */
  ghost predicate OthersLose(m: Mem, m': Mem, l: Loc, lo: nat, hi: nat) {
    forall d: nat, i: nat, j: nat :: Loc(d, i) != l && Uses(m, Loc(d, i), At(m, l).frame) && lo <= j <= hi ==>
      View(m', d, i, j, {}).None?
  }

  lemma NoWriter(m: Mem, l: Loc)
    requires Inv(m, {}, {}) && IsSlot(m, l) && At(m, l).pr && !At(m, l).rw
    ensures forall x: Loc :: IsSlot(m, x) && At(m, x).pr && At(m, x).rw ==> At(m, x).frame != At(m, l).frame
  {
    SharedFrame(m, l, {}, {});
    forall x: Loc | IsSlot(m, x) && At(m, x).pr && At(m, x).rw
      ensures At(m, x).frame != At(m, l).frame
    {
      assert x !in Writers(m, At(m, l).frame, {});
    }
  }

  /** The copy lies elsewhere, and the table copied maps the same pages as before. */
  lemma CopyTableLeaves(m: Mem, l: Loc)
    requires Inv(m, {}, {}) && IsSlot(m, l) && m.frames[l.frame].Directory? && CopyTable(m, l).Some?
    requires At(m, l).pr && !At(m, l).rw && Count(m, At(m, l).frame) != 1
    ensures var m' := CopyTable(m, l).value; var t := At(m, l).frame;
            && At(m', l).frame != t && t < |m'.frames| && m'.frames[t].Table?
            && (forall j: nat :: At(m', Loc(t, j)).pr == At(m, Loc(t, j)).pr)
  {
    hide RefUpTo;
    var e := At(m, l);
    var m1 := DecRef(m, e.frame);
    SharedFrame(m, l, {}, {});
    DropShared(m, l, {}, {});
    hide Namers, Writers, Outstanding, SameViews;
    assert {} + {l} == {l};
    var (m2, p) := Alloc(m1, TableKind).value;
    AllocStep(m1, TableKind, {}, {l});
    assert FreshTable(m2, e.frame, p);
    hide Inv, Alloc;
    RefUpToStep(m2, e.frame, p, ENTRIES, {} + {p}, {l});
    LeavesEnd(m, m2, RefUpTo(m2, e.frame, p, ENTRIES), l, p);
  }

  lemma LeavesEnd(m: Mem, m2: Mem, m3: Mem, l: Loc, p: nat)
    requires IsSlot(m, l) && m.frames[l.frame].Directory? && At(m, l).frame < |m.frames| && m.frames[At(m, l).frame].Table?
    requires p < |m.frames| && m.frames[p].Free? && m2.frames == m.frames[p := Zeroed(TableKind)]
    requires SharedUpTo(m2, m3, At(m, l).frame, p, ENTRIES)
    ensures var m' := SetEntry(m3, l, At(m, l).(frame := p, rw := true)); var t := At(m, l).frame;
            && At(m', l).frame != t && t < |m'.frames| && m'.frames[t].Table?
            && (forall j: nat :: At(m', Loc(t, j)).pr == At(m, Loc(t, j)).pr)
  {
    var t := At(m, l).frame;
    assert IsSlot(m2, l) && IsSlot(m3, l);
    SetEntryAt(m3, l, At(m, l).(frame := p, rw := true));
    assert forall j: nat :: At(m2, Loc(t, j)) == At(m, Loc(t, j));
  }

  lemma UnmapSharedEnd(m: Mem, m1: Mem, m': Mem, l: Loc, t: nat, lo: nat, hi: nat)
    requires IsSlot(m, l) && m.frames[l.frame].Directory? && At(m, l).pr && lo <= hi && Privatised(m, m1, l, {})
    requires At(m1, l).frame != t && t < |m1.frames| && m1.frames[t].Table? && hi < ENTRIES
    requires forall j: nat :: At(m1, Loc(t, j)).pr == At(m, Loc(t, j)).pr
    requires Cleared(m1, m', t, lo, hi + 1 - lo)
    requires forall x: Loc :: IsSlot(m, x) && At(m, x).pr && At(m, x).rw ==> At(m, x).frame != t
    requires At(m, l).frame == t
    ensures RoundKeeps(m, m', l.frame, l.index) && OwnKept(m, m', l.frame) && OthersLose(m, m', l, lo, hi)
    ensures forall j: nat :: View(m', l.frame, l.index, j, {}) == View(m, l.frame, l.index, j, {})
    ensures At(m', l).pr && At(m', l).rw
    ensures !MapsInside(m, t, lo, hi) ==> SameViews(m, m', {}, {})
  {
    RoundEntries(m, m1, m', l, t, lo, hi + 1 - lo);
    assert IsSlot(m1, l) && l.frame != t;
    forall d: nat, i: nat, j: nat
      ensures Uses(m1, Loc(d, i), t) && lo <= j <= hi && !MapsInside(m, t, lo, hi) ==> View(m1, d, i, j, {}).None?
    {
      assert !MapsInside(m, t, lo, hi) && lo <= j <= hi ==> !At(m, Loc(t, j)).pr;
    }
    hide Inv, Outstanding, View;
    assert SameView(m, m1, l.frame, {});
    forall k: nat, j: nat | IsSlot(m, Loc(l.frame, k)) && At(m, Loc(l.frame, k)).pr && At(m, Loc(l.frame, k)).rw
      ensures View(m', l.frame, k, j, {}) == View(m, l.frame, k, j, {})
    {
      assert !Uses(m1, Loc(l.frame, k), t);
    }
    forall d: nat, i: nat, j: nat
      ensures !MapsInside(m, t, lo, hi) ==> View(m', d, i, j, {}) == View(m, d, i, j, {})
    {
      assert SameView(m, m1, d, {});
    }
  }

  /** One table: exactly the pages asked for go exactly when the round is harmless. */
  lemma UnmapTableIff(m: Mem, d: nat, i: nat, lo: nat, hi: nat)
    requires Inv(m, {}, {}) && IsSlot(m, Loc(d, i)) && m.frames[d].Directory? && lo <= hi < ENTRIES
    requires UnmapTable(m, d, i, lo, hi).Some?
    ensures var m' := UnmapTable(m, d, i, lo, hi).value;
            && RoundKeeps(m, m', d, i)
            && (OnlyUnmapped(m, m', d, i, lo, hi) <==> Harmless(m, d, i, lo, hi))
            && (!Harmless(m, d, i, lo, hi) ==> StillThere(m, m', d, i, lo, hi) && OwnKept(m, m', d))
  {
    hide Inv, CopyTable, UnrefTable, UnrefRange, MapsOutside, MapsInside, RoundKeeps, View;
    var e := At(m, Loc(d, i));
    if !e.pr || !MapsOutside(m, e.frame, lo, hi) {
      UnmapWhole(m, d, i, lo, hi);
    } else if e.rw || Count(m, e.frame) == 1 {
      UnmapOwn(m, d, i, lo, hi);
    } else {
      UnmapShared(m, d, i, lo, hi);
      if MapsInside(m, e.frame, lo, hi) {
        MappedInside(m, d, i, lo, hi);
      } else {
        UnmapNothing(m, UnmapTable(m, d, i, lo, hi).value, d, i, lo, hi);
      }
    }
  }

  /** A page that was to go is still mapped, through entries of the process's own. */
  ghost predicate StillThere(m: Mem, m': Mem, d: nat, i: nat, lo: nat, hi: nat) {
    && At(m', Loc(d, i)).pr && At(m', Loc(d, i)).rw
    && exists j: nat :: lo <= j <= hi && View(m', d, i, j, {}).Some?
  }

  lemma MappedInside(m: Mem, d: nat, i: nat, lo: nat, hi: nat)
    requires Inv(m, {}, {}) && IsSlot(m, Loc(d, i)) && m.frames[d].Directory? && At(m, Loc(d, i)).pr
    requires MapsInside(m, At(m, Loc(d, i)).frame, lo, hi)
    ensures exists j: nat :: lo <= j <= hi && View(m, d, i, j, {}).Some?
  {
    var t := At(m, Loc(d, i)).frame;
    var j: nat :| j < ENTRIES && lo <= j <= hi && At(m, Loc(t, j)).pr;
    assert IsSlot(m, Loc(t, j)) && View(m, d, i, j, {}).Some?;
  }

  lemma UnmapNothing(m: Mem, m': Mem, d: nat, i: nat, lo: nat, hi: nat)
    requires SameViews(m, m', {}, {}) && hi < ENTRIES && !MapsInside(m, At(m, Loc(d, i)).frame, lo, hi)
    ensures OnlyUnmapped(m, m', d, i, lo, hi)
  {
    forall d': nat, i': nat, j: nat
      ensures View(m', d', i', j, {}) == if d' == d && i' == i && lo <= j <= hi then None else View(m, d', i', j, {})
    {
      assert SameView(m, m', d', {});
      assert lo <= j <= hi ==> !At(m, Loc(At(m, Loc(d, i)).frame, j)).pr;
    }
  }

  /** Both directories name one table after the fork, so its counter is at least 2. */
  lemma ForkShares(m: Mem, d: nat, i: nat)
    requires Inv(m, {}, {}) && d < |m.frames| && m.frames[d].Directory? && UserIndex(i) && At(m, Loc(d, i)).pr
    requires CloneDirectory(m, d).Some?
    ensures var (m', c) := CloneDirectory(m, d).value; var e := At(m', Loc(d, i));
            && c != d && IsSlot(m', Loc(d, i)) && m'.frames[d].Directory? && e.pr && Uses(m', Loc(c, i), e.frame)
            && !e.rw && Count(m', e.frame) != 1
  {
    var (m1, c) := Alloc(m, DirectoryKind).value;
    AllocStep(m, DirectoryKind, {}, {});
    DirectoryNotPending(m1, c, {});
    assert At(m1, Loc(d, i)) == At(m, Loc(d, i));
    hide Alloc, CloneUpTo;
    CloneUpToStep(m1, d, c, ENTRIES);
    var m' := CloneUpTo(m1, d, c, ENTRIES);
    assert Cloned(m1, m', d, c, ENTRIES);
    TwoNamers(m', Loc(d, i), Loc(c, i));
  }

  lemma TwoNamers(m: Mem, x: Loc, y: Loc)
    requires Inv(m, {}, {}) && IsSlot(m, x) && IsSlot(m, y) && x != y && At(m, x).pr && At(m, y).pr && At(m, x).frame == At(m, y).frame
    ensures !At(m, x).rw && Count(m, At(m, x).frame) >= 2
  {
    assert y in Namers(m, At(m, x).frame, {});
    if At(m, x).rw {
      SoleWriter(m, x, {}, {});
      assert false;
    }
    SharedFrame(m, x, {}, {});
    assert y in Namers(m, At(m, x).frame, {}) - {x};
  }

  /** After a fork, unmapping part of a table takes the pages from the child and leaves them to the parent. */
  lemma UnmapAfterFork(m: Mem, d: nat, i: nat, lo: nat, hi: nat, j: nat, k: nat)
    requires Inv(m, {}, {}) && d < |m.frames| && m.frames[d].Directory? && UserIndex(i) && CloneDirectory(m, d).Some?
    requires lo <= j <= hi < ENTRIES && View(m, d, i, j, {}).Some? && !(lo <= k <= hi) && View(m, d, i, k, {}).Some?
    requires UnmapTable(CloneDirectory(m, d).value.0, d, i, lo, hi).Some?
    ensures var (m1, c) := CloneDirectory(m, d).value;
            var m2 := UnmapTable(m1, d, i, lo, hi).value;
            && View(m1, c, i, j, {}) == View(m, d, i, j, {}) && View(m2, c, i, j, {}).None?
            && View(m2, d, i, j, {}) == View(m, d, i, j, {})
  {
    hide KernelForked;
    CloneDirectoryStep(m, d);
    ForkShares(m, d, i);
    var (m1, c) := CloneDirectory(m, d).value;
    hide CloneDirectory, Inv;
    var t := At(m1, Loc(d, i)).frame;
    assert View(m1, d, i, k, {}).Some? && View(m1, c, i, j, {}) == View(m, d, i, j, {});
    assert MapsOutside(m1, t, lo, hi) by {
      assert k < ENTRIES && At(m1, Loc(t, k)).pr;
    }
    hide View, CopyTable, UnrefRange;
    UnmapShared(m1, d, i, lo, hi);
  }
}
