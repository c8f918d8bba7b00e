/** When operations succeed: two free frames are enough for any of them. */
module PagingRoom {
  import opened Wrappers
  import opened Paging
  import opened PagingInvariant
  import opened PagingEntries
  import opened PagingLive
  import opened PagingLiveCopy
  import opened PagingLiveEntries
  import opened PagingLiveFork
  import opened PagingLiveMap
  import opened PagingRuns

  /** The frames the allocator can still hand out. */
  ghost function Available(m: Mem): int {
    |m.free| + |m.frames| - m.avail
  }

  /** The allocator's lists stay within the memory. */
  ghost predicate Listed(m: Mem) {
    m.avail <= |m.frames| && forall k :: 0 <= k < |m.free| ==> m.free[k] < |m.frames|
  }

  lemma AllocAvailable(m: Mem, k: Kind)
    requires Listed(m)
    ensures Alloc(m, k).Some? <==> Available(m) > 0
    ensures Alloc(m, k).Some? ==> Available(Alloc(m, k).value.0) == Available(m) - 1
  {
  }

  lemma LiveAllocates(m: Mem)
    requires LiveInv(m)
    ensures Listed(m)
  {
  }

  /** The operation succeeds and takes at most `cost` frames. */
  ghost predicate Within(m: Mem, r: Option<Mem>, cost: nat) {
    r.Some? && Available(r.value) >= Available(m) - cost
  }

  // ---------------------------------------------------------------------------------------
  // Steps that take frames
  // ---------------------------------------------------------------------------------------

  lemma {:induction false} RefUpToAvailable(m: Mem, src: nat, dst: nat, n: nat)
    ensures Available(RefUpTo(m, src, dst, n)) == Available(m)
  {
    if n > 0 {
      RefUpToAvailable(m, src, dst, n - 1);
    }
  }

  lemma {:induction false} CloneUpToAvailable(m: Mem, src: nat, dst: nat, n: nat)
    ensures Available(CloneUpTo(m, src, dst, n)) == Available(m)
  {
    if n > 0 {
      CloneUpToAvailable(m, src, dst, n - 1);
    }
  }

  lemma CopyTableRoom(m: Mem, l: Loc)
    requires Listed(m) && Available(m) >= 1
    ensures Within(m, CopyTable(m, l), 1)
  {
    var e := At(m, l);
    var m1 := DecRef(m, e.frame);
    AllocAvailable(m1, TableKind);
    hide Alloc, At;
    var (m2, p) := Alloc(m1, TableKind).value;
    RefUpToAvailable(m2, e.frame, p, ENTRIES);
    hide RefUpTo;
  }

  lemma CopyDataRoom(m: Mem, l: Loc)
    requires Listed(m) && Available(m) >= 1
    ensures Within(m, CopyData(m, l), 1)
  {
    AllocAvailable(DecRef(m, At(m, l).frame), DataKind);
    hide Alloc;
  }

  lemma WriteFaultRoom(m: Mem, d: nat, i: nat, j: nat)
    requires LiveInv(m) && IsDirectory(m, d) && UserIndex(i) && Available(m) >= 2
    ensures Within(m, WriteFault(m, d, i, j), 2)
  {
    var l := Loc(d, i);
    LiveUserEntry(m, d, i);
    LiveAllocates(m);
    CopyTableRoom(m, l);
    CopyTableLive(m, l);
    var m1 := CopyTable(m, l).value;
    LiveAllocates(m1);
    hide LiveInv, CopyTable;
    CopyDataRoom(m1, Loc(At(m1, l).frame, j));
  }

  lemma StoreRoom(m: Mem, d: nat, i: nat, j: nat, offset: nat, v: int)
    requires LiveInv(m) && IsDirectory(m, d) && UserIndex(i) && Available(m) >= 2
    ensures Within(m, Store(m, d, i, j, offset, v), 2)
  {
    WriteFaultRoom(m, d, i, j);
    hide WriteFault, LiveInv;
  }

  lemma EnsureTableRoom(m: Mem, d: nat, i: nat, flags: nat, rw: bool)
    requires LiveInv(m) && IsDirectory(m, d) && UserIndex(i) && Available(m) >= 1
    ensures Within(m, EnsureTable(m, d, i, flags, rw), 1)
  {
    var l := Loc(d, i);
    LiveUserEntry(m, d, i);
    LiveAllocates(m);
    CopyTableRoom(m, l);
    CopyTableLive(m, l);
    AllocAvailable(m, TableKind);
    hide Alloc, LiveInv;
    assert !At(m, l).pr ==> CopyTable(m, l) == Some(m);
    hide CopyTable;
  }

  lemma MapAddressRoom(m: Mem, d: nat, i: nat, j: nat, f: nat, flags: nat, rw: bool)
    requires LiveInv(m) && IsDirectory(m, d) && UserIndex(i) && Available(m) >= 1
    ensures Within(m, MapAddress(m, d, i, j, f, flags, rw), 1)
  {
    EnsureTableRoom(m, d, i, flags, rw);
    hide EnsureTable, LiveInv;
  }

  lemma DemandMapRoom(m: Mem, d: nat, i: nat, j: nat, bytes: seq<int>)
    requires LiveInv(m) && IsDirectory(m, d) && UserIndex(i) && |bytes| == FRAME_SIZE && Available(m) >= 2
    ensures Within(m, DemandMap(m, d, i, j, bytes), 2)
  {
    LiveAllocates(m);
    AllocAvailable(m, DataKind);
    SpareFrame(m, bytes);
    hide Alloc, LiveInv, MapAddress;
    var (m1, f) := Alloc(m, DataKind).value;
    MapAddressRoom(SetBytes(m1, f, bytes), d, i, j, f, FLAG_US, true);
  }

  lemma ZeroMapRoom(m: Mem, d: nat, i: nat, j: nat)
    requires LiveInv(m) && m.kernelRefs == 1 && IsDirectory(m, d) && UserIndex(i) && Available(m) >= 1
    ensures Within(m, ZeroMap(m, d, i, j), 1)
  {
    RefZeroLive(m);
    hide LiveInv, MapAddress;
    MapAddressRoom(RefZero(m), d, i, j, m.zero, FLAG_US, false);
  }

  // ---------------------------------------------------------------------------------------
  // Steps that give frames back
  // ---------------------------------------------------------------------------------------

  lemma UnrefDataAvailable(m: Mem, l: Loc)
    ensures Available(UnrefData(m, l)) >= Available(m)
  {
  }

  lemma {:induction false} UnrefUpToAvailable(m: Mem, t: nat, n: nat)
    ensures Available(UnrefUpTo(m, t, n)) >= Available(m)
  {
    if n > 0 {
      hide UnrefData;
      UnrefUpToAvailable(m, t, n - 1);
      UnrefDataAvailable(UnrefUpTo(m, t, n - 1), Loc(t, n - 1));
    }
  }

  lemma UnrefTableAvailable(m: Mem, l: Loc)
    ensures Available(UnrefTable(m, l)) >= Available(m)
  {
    hide UnrefUpTo;
    var e := At(m, l);
    UnrefUpToAvailable(if e.rw then m else DecRef(m, e.frame), e.frame, ENTRIES);
  }

  lemma {:induction false} UnrefTablesAvailable(m: Mem, d: nat, n: nat)
    requires USER_DIR_START <= n
    ensures Available(UnrefTablesFrom(m, d, n)) >= Available(m)
  {
    if n > USER_DIR_START {
      hide UnrefTable;
      UnrefTablesAvailable(m, d, n - 1);
      UnrefTableAvailable(UnrefTablesFrom(m, d, n - 1), Loc(d, n - 1));
    }
  }

  // ---------------------------------------------------------------------------------------
  // Whole runs
  // ---------------------------------------------------------------------------------------

  lemma OwnDirectory(s: System, pid: nat)
    requires SystemLive(s) && pid in s.dirs
    ensures LiveInv(s.mem) && IsDirectory(s.mem, s.dirs[pid]) && s.mem.kernelRefs == 1
  {
  }

  lemma PageSucceeds(s: System, op: Op)
    requires (op.Write? || op.FaultIn? || op.FaultZero?) && SystemLive(s) && Available(s.mem) >= 2
    ensures var r := Step(s, op, true); r.Some? && Available(r.value.mem) >= Available(s.mem) - 2
  {
    hide SystemLive, LiveInv, Store, DemandMap, ZeroMap;
    if op.pid in s.dirs && UserPage(op.page) {
      OwnDirectory(s, op.pid);
      var d := s.dirs[op.pid];
      match op
      case Write(_, p, offset, value) => StoreRoom(s.mem, d, p.table, p.slot, offset, value);
      case FaultIn(_, p, bytes) =>
        if |bytes| == FRAME_SIZE {
          DemandMapRoom(s.mem, d, p.table, p.slot, bytes);
        }
      case FaultZero(_, p) => ZeroMapRoom(s.mem, d, p.table, p.slot);
    }
  }

  lemma DirectorySucceeds(s: System, op: Op)
    requires (op.Spawn? || op.Fork? || op.Exit?) && Listed(s.mem) && Available(s.mem) >= 2
    ensures var r := Step(s, op, true); r.Some? && Available(r.value.mem) >= Available(s.mem) - 2
  {
    AllocAvailable(s.mem, DirectoryKind);
    hide Alloc, UnrefTablesFrom, CloneUpTo;
    if op.Fork? && op.pid in s.dirs {
      var (m1, c) := Alloc(s.mem, DirectoryKind).value;
      CloneUpToAvailable(m1, s.dirs[op.pid], c, ENTRIES);
    } else if op.Exit? && op.pid in s.dirs {
      UnrefTablesAvailable(s.mem, s.dirs[op.pid], USER_DIR_END);
    }
  }

  /** No operation needs more than two frames. */
  lemma StepSucceeds(s: System, op: Op)
    requires SystemLive(s) && Available(s.mem) >= 2
    ensures var r := Step(s, op, true); r.Some? && Available(r.value.mem) >= Available(s.mem) - 2
  {
    hide LiveInv, Placed, Step, Available;
    LiveAllocates(s.mem);
    if op.Write? || op.FaultIn? || op.FaultZero? {
      PageSucceeds(s, op);
    } else {
      DirectorySucceeds(s, op);
    }
  }

  /** A run succeeds when there are two frames for each of its operations. */
  lemma {:induction false} RunSucceeds(s: System, ops: seq<Op>)
    requires SystemLive(s) && ForkGuardedRun(s, ops) && Available(s.mem) >= 2 * |ops|
    ensures Run(s, ops, true).Some?
    decreases |ops|
  {
    if ops != [] {
      hide LiveInv, Placed, Step, ForkGuarded, SpacesOf, PrivateStep;
      StepSucceeds(s, ops[0]);
      StepShows(s, ops[0], true);
      RunSucceeds(Step(s, ops[0], true).value, ops[1..]);
    }
  }
}
