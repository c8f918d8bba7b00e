/** When clone_directory_no_cow keeps the reference counts: exactly when it finds nothing read-only. */
module PagingDeepCounts {
  import opened Paging
  import opened PagingInvariant
  import opened PagingSteps
  import opened PagingFork
  import opened PagingMap
  import opened PagingLive
  import opened PagingDeepCopy

  ghost predicate TableWritable(m: Mem, t: nat) {
    forall j: nat :: At(m, Loc(t, j)).pr ==> At(m, Loc(t, j)).rw
  }

  /** Every user entry of directory `d`, and every entry of the tables they name, is writable. */
  ghost predicate SpaceWritable(m: Mem, d: nat) {
    forall i: nat :: UserIndex(i) && At(m, Loc(d, i)).pr ==>
      At(m, Loc(d, i)).rw && TableWritable(m, At(m, Loc(d, i)).frame)
  }

  // ---------------------------------------------------------------------------------------
  // Nothing read-only: every copy is counted
  // ---------------------------------------------------------------------------------------

  /** The first `n` pages of table `src` have been copied into the unnamed table `dst`. */
  ghost predicate PagesCounted(m: Mem, m': Mem, src: nat, dst: nat, n: nat, pend: set<nat>) {
    && Inv(m', pend, {})
    && SameDirectories(m, m')
    && Outstanding(m') == Outstanding(m)
    && dst < |m'.frames| && m'.frames[dst].Table? && Namers(m', dst, {}) == {}
    && (forall x: Loc :: IsSlot(m', x) == IsSlot(m, x))
    && (forall x: Loc :: x.frame != dst ==> At(m', x) == At(m, x))
    && (forall j: nat :: n <= j ==> !At(m', Loc(dst, j)).pr)
  }

  /** Filling entry `l` of the unnamed table with a fresh copy of a page. */
  lemma InstallCopy(m: Mem, l: Loc, e: Entry, bytes: seq<int>, pend: set<nat>)
    requires Inv(m, pend, {}) && Alloc(m, DataKind).Some? && |bytes| == FRAME_SIZE
    requires IsSlot(m, l) && m.frames[l.frame].Table? && Namers(m, l.frame, {}) == {} && !At(m, l).pr && e.pr && e.rw
    ensures var (m1, q) := Alloc(m, DataKind).value;
            var m' := SetEntry(SetBytes(m1, q, bytes), l, e.(frame := q));
            && Inv(m', pend, {}) && SameDirectories(m, m') && Outstanding(m') == Outstanding(m)
            && (forall x: Loc :: IsSlot(m', x) == IsSlot(m, x))
            && (forall x: Loc :: At(m', x) == if x == l then e.(frame := q) else At(m, x))
            && m'.frames[l.frame].Table? && Namers(m', l.frame, {}) == {}
  {
    var (m1, q) := Alloc(m, DataKind).value;
    AllocStep(m, DataKind, pend, {});
    var m2 := SetBytes(m1, q, bytes);
    SetBytesStep(m1, q, bytes, pend + {q}, {});
    assert forall x: Loc :: IsSlot(m1, x) == IsSlot(m, x) && At(m1, x) == At(m, x);
    OpenHole(m2, l, pend + {q}, {});
    assert {} + {l} == {l};
    FillHole(m2, l, e.(frame := q), pend + {q}, {});
    InvWeaken(SetEntry(m2, l, e.(frame := q)), pend + {q} - {q}, pend, {});
    SetEntryAt(m2, l, e.(frame := q));
    assert Namers(SetEntry(m2, l, e.(frame := q)), l.frame, {}) <= Namers(m, l.frame, {});
  }

  lemma PagesCountedNext(m: Mem, m1: Mem, src: nat, dst: nat, n: nat, pend: set<nat>)
    requires FreshTable(m, src, dst) && WellFormed(m) && TableWritable(m, src) && n < ENTRIES
    requires PagesCounted(m, m1, src, dst, n, pend) && DeepPage(m1, src, dst, n).Some?
    ensures PagesCounted(m, DeepPage(m1, src, dst, n).value, src, dst, n + 1, pend)
  {
    var e := At(m1, Loc(src, n));
    var l := Loc(dst, n);
    assert IsSlot(m, Loc(src, n)) && IsSlot(m1, Loc(src, n)) && IsSlot(m1, l) && !m1.frames[src].Directory?;
    if !e.pr {
      SetInert(m1, l, e, pend, {});
      SetEntryAt(m1, l, e);
    } else {
      var (m2, q) := Alloc(m1, DataKind).value;
      AllocStep(m1, DataKind, pend, {});
      InstallCopy(m1, l, e, BytesOf(m2, e.frame), pend);
    }
  }

  lemma PagesCountedStart(m: Mem, src: nat, dst: nat, pend: set<nat>)
    requires Inv(m, pend, {}) && FreshTable(m, src, dst) && Namers(m, dst, {}) == {}
    ensures PagesCounted(m, m, src, dst, 0, pend)
  {
    hide Inv, Namers;
  }

  lemma {:induction false} DeepPagesCounted(m: Mem, src: nat, dst: nat, n: nat, pend: set<nat>)
    requires Inv(m, pend, {}) && FreshTable(m, src, dst) && WellFormed(m) && TableWritable(m, src)
    requires Namers(m, dst, {}) == {} && n <= ENTRIES && DeepPagesUpTo(m, src, dst, n).Some?
    ensures PagesCounted(m, DeepPagesUpTo(m, src, dst, n).value, src, dst, n, pend)
  {
    hide PagesCounted, Inv, Namers, WellFormed, DeepPage, FreshTable, TableWritable;
    if n == 0 {
      PagesCountedStart(m, src, dst, pend);
    } else {
      DeepPagesCounted(m, src, dst, n - 1, pend);
      PagesCountedNext(m, DeepPagesUpTo(m, src, dst, n - 1).value, src, dst, n - 1, pend);
    }
  }

  /** The first `n` tables of directory `src` have been copied into the new directory `dst`. */
  ghost predicate TablesCounted(m: Mem, m': Mem, src: nat, dst: nat, n: nat) {
    && Inv(m', {}, {})
    && SameDirectories(m, m')
    && Outstanding(m') == Outstanding(m)
    && (forall x: Loc :: IsSlot(m, x) && x.frame != dst ==> IsSlot(m', x) && At(m', x) == At(m, x))
    && (forall i: nat :: UserIndex(i) && n <= i ==> !At(m', Loc(dst, i)).pr)
  }

  /** Pointing the new directory entry `l` at a fresh table filled with copies. */
  lemma AttachCounted(m: Mem, l: Loc, e: Entry)
    requires Inv(m, {}, {}) && IsSlot(m, l) && m.frames[l.frame].Directory? && !At(m, l).pr
    requires e.pr && e.rw && e.frame < |m.frames| && m.frames[e.frame].Table? && TableWritable(m, e.frame)
    requires Alloc(m, TableKind).Some?
    requires var (m1, p) := Alloc(m, TableKind).value; DeepPagesUpTo(m1, e.frame, p, ENTRIES).Some?
    ensures var (m1, p) := Alloc(m, TableKind).value;
            var m' := SetEntry(DeepPagesUpTo(m1, e.frame, p, ENTRIES).value, l, e.(frame := p));
            && Inv(m', {}, {}) && SameDirectories(m, m') && Outstanding(m') == Outstanding(m)
            && (forall x: Loc :: IsSlot(m, x) && x != l ==> IsSlot(m', x) && At(m', x) == At(m, x))
  {
    hide DeepPagesUpTo;
    var (m1, p) := Alloc(m, TableKind).value;
    AllocStep(m, TableKind, {}, {});
    hide Alloc, Inv, Outstanding;
    assert {} + {p} == {p};
    AllocEntries(m, m1, p, TableKind);
    assert FreshTable(m1, e.frame, p) && TableWritable(m1, e.frame);
    AttachReady(m1, p);
    DeepPagesCounted(m1, e.frame, p, ENTRIES, {p});
    AttachCountedEnd(m, m1, DeepPagesUpTo(m1, e.frame, p, ENTRIES).value, l, e, p);
  }

  lemma AttachReady(m: Mem, p: nat)
    requires Inv(m, {p}, {})
    ensures WellFormed(m)
  {
  }

  lemma AttachCountedEnd(m: Mem, m1: Mem, m2: Mem, l: Loc, e: Entry, p: nat)
    requires IsSlot(m, l) && m.frames[l.frame].Directory? && !At(m, l).pr && e.pr && e.rw
    requires p < |m.frames| && m.frames[p].Free? && m1.frames == m.frames[p := Zeroed(TableKind)] && p != m1.zero
    requires m1.zero == m.zero && m1.kernelRefs == m.kernelRefs && Outstanding(m1) == Outstanding(m)
    requires PagesCounted(m1, m2, e.frame, p, ENTRIES, {p})
    ensures var m' := SetEntry(m2, l, e.(frame := p));
            && Inv(m', {}, {}) && SameDirectories(m, m') && Outstanding(m') == Outstanding(m)
            && (forall x: Loc :: IsSlot(m, x) && x != l ==> IsSlot(m', x) && At(m', x) == At(m, x))
  {
    AllocEntries(m, m1, p, TableKind);
    assert IsSlot(m1, l) && IsSlot(m2, l) && At(m2, l) == At(m, l);
    assert {p} - {p} == {} && {} + {l} == {l};
    OpenHole(m2, l, {p}, {});
    assert CountOk(m2, p, {p}, {});
    FillHole(m2, l, e.(frame := p), {p}, {});
    hide Inv;
    SetEntryAt(m2, l, e.(frame := p));
  }

  lemma TablesCountedNext(m: Mem, m1: Mem, src: nat, dst: nat, n: nat)
    requires Inv(m, {}, {}) && SpaceWritable(m, src) && TablesCounted(m, m1, src, dst, n) && n < ENTRIES && src != dst
    requires src < |m.frames| && m.frames[src].Directory? && dst < |m.frames| && m.frames[dst].Directory?
    requires DeepTable(m1, src, dst, n).Some?
    ensures TablesCounted(m, DeepTable(m1, src, dst, n).value, src, dst, n + 1)
  {
    var e := At(m1, Loc(src, n));
    var l := Loc(dst, n);
    assert IsEntry(m1, l) && IsEntry(m1, Loc(src, n));
    if !e.pr || !UserIndex(n) {
      SetInert(m1, l, e, {}, {});
      SetEntryAt(m1, l, e);
    } else {
      assert IsSlot(m, Loc(src, n)) && IsSlot(m1, Loc(src, n)) && At(m, Loc(src, n)) == e;
      WritableKept(m, m1, dst, e.frame);
      hide DeepPagesUpTo, Alloc;
      AttachCounted(m1, l, e);
      hide Inv;
      forall i: nat | UserIndex(i) && n + 1 <= i
        ensures !At(DeepTable(m1, src, dst, n).value, Loc(dst, i)).pr
      {
        assert IsSlot(m1, Loc(dst, i));
      }
    }
  }

  lemma WritableKept(m: Mem, m1: Mem, dst: nat, t: nat)
    requires Inv(m, {}, {}) && Inv(m1, {}, {}) && TableWritable(m, t) && t < |m.frames| == |m1.frames| && m.frames[t].Table?
    requires m1.frames[t].Table? && dst < |m.frames| && m.frames[dst].Directory?
    requires forall x: Loc :: IsSlot(m, x) && x.frame != dst ==> IsSlot(m1, x) && At(m1, x) == At(m, x)
    ensures TableWritable(m1, t)
  {
    forall j: nat | At(m1, Loc(t, j)).pr
      ensures At(m1, Loc(t, j)).rw
    {
      assert IsSlot(m, Loc(t, j));
    }
  }

  lemma {:induction false} DeepTablesCounted(m: Mem, src: nat, dst: nat, n: nat)
    requires Inv(m, {}, {}) && SpaceWritable(m, src) && n <= ENTRIES && src != dst
    requires src < |m.frames| && m.frames[src].Directory? && dst < |m.frames| && m.frames[dst].Directory?
    requires forall i: nat :: !At(m, Loc(dst, i)).pr
    requires DeepTablesUpTo(m, src, dst, n).Some?
    ensures TablesCounted(m, DeepTablesUpTo(m, src, dst, n).value, src, dst, n)
  {
    if n > 0 {
      hide TablesCounted, Inv, SpaceWritable, DeepTable;
      DeepTablesCounted(m, src, dst, n - 1);
      TablesCountedNext(m, DeepTablesUpTo(m, src, dst, n - 1).value, src, dst, n - 1);
    }
  }

  lemma WritableCounts(m: Mem, d: nat)
    requires Inv(m, {}, {}) && SpaceWritable(m, d) && d < |m.frames| && m.frames[d].Directory?
    requires DeepCloneDirectory(m, d).Some?
    ensures var m' := DeepCloneDirectory(m, d).value.0; Inv(m', {}, {}) && Outstanding(m') == Outstanding(m)
  {
    var (m1, c) := Alloc(m, DirectoryKind).value;
    AllocStep(m, DirectoryKind, {}, {});
    DirectoryNotPending(m1, c, {});
    hide Alloc, DeepTablesUpTo;
    assert forall x: Loc :: At(m1, x) == if x.frame == c then NO_ENTRY else At(m, x);
    forall i: nat | UserIndex(i) && At(m1, Loc(d, i)).pr
      ensures TableWritable(m1, At(m1, Loc(d, i)).frame)
    {
      assert IsSlot(m, Loc(d, i)) && TableWritable(m, At(m, Loc(d, i)).frame);
    }
    DeepTablesCounted(m1, d, c, ENTRIES);
  }

  // ---------------------------------------------------------------------------------------
  // Something read-only: its copy is not counted
  // ---------------------------------------------------------------------------------------

  lemma ReadOnlyMiscounts(m: Mem, d: nat)
    requires Inv(m, {}, {}) && !SpaceWritable(m, d) && d < |m.frames| && m.frames[d].Directory?
    requires DeepCloneDirectory(m, d).Some?
    ensures !Inv(DeepCloneDirectory(m, d).value.0, {}, {})
  {
    CountedIsLive(m);
    DeepCloneShows(m, d);
    hide DeepCloneDirectory, LiveInv;
    var (m', c) := DeepCloneDirectory(m, d).value;
    var i: nat :| UserIndex(i) && At(m, Loc(d, i)).pr &&
                  !(At(m, Loc(d, i)).rw && TableWritable(m, At(m, Loc(d, i)).frame));
    var e, e' := At(m, Loc(d, i)), At(m', Loc(c, i));
    assert TableMirrored(m, m', e, e');
    if !e.rw {
      FreeUncounted(m, m', Loc(c, i));
    } else {
      var j: nat :| At(m, Loc(e.frame, j)).pr && !At(m, Loc(e.frame, j)).rw;
      assert EntryCopied(m, At(m, Loc(e.frame, j)), At(m', Loc(e'.frame, j)));
      FreeUncounted(m, m', Loc(e'.frame, j));
    }
  }

  /** A read-only entry on a frame that was free has counter 0. */
  lemma FreeUncounted(m: Mem, m': Mem, l: Loc)
    requires Inv(m, {}, {}) && m'.refs == m.refs && |m'.frames| == |m.frames|
    requires At(m', l).pr && !At(m', l).rw && At(m', l).frame < |m.frames| && m.frames[At(m', l).frame].Free?
    requires IsSlot(m', l)
    ensures !Inv(m', {}, {})
  {
    assert CountOk(m, At(m', l).frame, {}, {});
    UncountedBreaks(m', l);
  }

  /** The copying fork keeps the reference counts exactly when the forked space is writable throughout. */
  lemma DeepCloneKeepsCountsIff(m: Mem, d: nat)
    requires Inv(m, {}, {}) && d < |m.frames| && m.frames[d].Directory? && DeepCloneDirectory(m, d).Some?
    ensures var (m', c) := DeepCloneDirectory(m, d).value;
            && ForkShown(m, m', d, c)
            && (Inv(m', {}, {}) <==> SpaceWritable(m, d))
            && (SpaceWritable(m, d) ==> Forked(m, m', d, c))
  {
    CountedIsLive(m);
    DeepCloneShows(m, d);
    if SpaceWritable(m, d) {
      WritableCounts(m, d);
    } else {
      ReadOnlyMiscounts(m, d);
    }
  }

  /** A process that has read a page it never wrote: forking it by copying breaks the counts. */
  lemma CopyAfterReadFaultMiscounts(m: Mem, d: nat, i: nat, j: nat)
    requires Inv(m, {}, {}) && m.kernelRefs == 1 && d < |m.frames| && m.frames[d].Directory?
    requires UserIndex(i) && j < ENTRIES && View(m, d, i, j, {}).None? && At(m, Loc(d, i)).pr
    requires ZeroMap(m, d, i, j).Some? && DeepCloneDirectory(ZeroMap(m, d, i, j).value, d).Some?
    ensures Inv(ZeroMap(m, d, i, j).value, {}, {})
    ensures !Inv(DeepCloneDirectory(ZeroMap(m, d, i, j).value, d).value.0, {}, {})
  {
    assert IsSlot(m, Loc(d, i));
    ZeroMapStep(m, d, i, j);
    var m1 := ZeroMap(m, d, i, j).value;
    ZeroMapReadOnly(m, d, i, j);
    assert !SpaceWritable(m1, d);
    DeepCloneKeepsCountsIff(m1, d);
  }

  // ---------------------------------------------------------------------------------------
  // How many frames the copying fork can need
  // ---------------------------------------------------------------------------------------

  const TABLE_COST := ENTRIES + 1
  const CLONE_COST := 1 + (USER_DIR_END - USER_DIR_START) * TABLE_COST

  /** At least `n` frames were never handed out. */
  ghost predicate Room(m: Mem, n: nat) {
    m.free == [] && m.avail + n <= |m.frames|
  }

  lemma {:induction false} DeepPagesRoom(m: Mem, src: nat, dst: nat, n: nat, left: nat)
    requires Room(m, left + n)
    ensures DeepPagesUpTo(m, src, dst, n).Some? && Room(DeepPagesUpTo(m, src, dst, n).value, left)
  {
    if n > 0 {
      DeepPagesRoom(m, src, dst, n - 1, left + 1);
    }
  }

  lemma DeepTableRoom(m: Mem, src: nat, dst: nat, i: nat, left: nat)
    requires Room(m, if UserIndex(i) then left + TABLE_COST else left)
    ensures DeepTable(m, src, dst, i).Some? && Room(DeepTable(m, src, dst, i).value, left)
  {
    hide DeepPagesUpTo;
    var e := At(m, Loc(src, i));
    if e.pr && UserIndex(i) {
      var (m1, p) := Alloc(m, TableKind).value;
      DeepPagesRoom(m1, e.frame, p, ENTRIES, left);
    }
  }

  ghost function TablesCost(n: nat): nat {
    if n == 0 then 0 else TablesCost(n - 1) + (if UserIndex(n - 1) then TABLE_COST else 0)
  }

  lemma {:induction false} TablesCostIs(n: nat)
    ensures TablesCost(n) == if n <= USER_DIR_START then 0
                             else if n <= USER_DIR_END then (n - USER_DIR_START) * TABLE_COST
                             else (USER_DIR_END - USER_DIR_START) * TABLE_COST
  {
    if n > 0 {
      TablesCostIs(n - 1);
    }
  }

  lemma {:induction false} DeepTablesRoom(m: Mem, src: nat, dst: nat, n: nat, left: nat)
    requires Room(m, left + TablesCost(n))
    ensures DeepTablesUpTo(m, src, dst, n).Some? && Room(DeepTablesUpTo(m, src, dst, n).value, left)
  {
    if n > 0 {
      hide DeepTable;
      var more := left + (if UserIndex(n - 1) then TABLE_COST else 0);
      DeepTablesRoom(m, src, dst, n - 1, more);
      DeepTableRoom(DeepTablesUpTo(m, src, dst, n - 1).value, src, dst, n - 1, left);
    }
  }

  /** A directory, and a table with its pages for every user entry, is all the copy can ask for. */
  lemma DeepCloneSucceeds(m: Mem, d: nat)
    requires Room(m, CLONE_COST)
    ensures DeepCloneDirectory(m, d).Some?
  {
    hide DeepTablesUpTo;
    var (m1, c) := Alloc(m, DirectoryKind).value;
    TablesCostIs(ENTRIES);
    DeepTablesRoom(m1, d, c, ENTRIES, 0);
  }
}
