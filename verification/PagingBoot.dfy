/** The machine after boot, and a run from there that copy-on-write does not survive. */
module PagingBoot {
  import opened Wrappers
  import opened Paging
  import opened PagingInvariant
  import opened PagingSteps
  import opened PagingMap
  import opened PagingLive
  import opened PagingLiveFork
  import opened PagingDeepCounts
  import opened PagingReadFault
  import opened PagingEntries
  import opened PagingRuns

  function BootFrame(f: nat, start: nat, zeroFrame: nat): Frame {
    if f == zeroFrame then Data(ZeroBytes()) else if f < start then Kernel else Free
  }

  function Boot(count: nat, start: nat, zeroFrame: nat): Mem {
    Mem(seq(count, f requires 0 <= f => BootFrame(f, start, zeroFrame)),
        seq(count, f => if f == zeroFrame then 1 else 0), [], start, 0, zeroFrame, 1)
  }

  lemma BootInv(count: nat, start: nat, zeroFrame: nat)
    requires 0 < zeroFrame < start <= count <= MAX_FRAMES
    ensures Inv(Boot(count, start, zeroFrame), {}, {})
    ensures Boot(count, start, zeroFrame).leak == 0 && Owned(Boot(count, start, zeroFrame)) == {}
    ensures forall l: Loc :: !IsSlot(Boot(count, start, zeroFrame), l)
  {
    var m := Boot(count, start, zeroFrame);
    forall f | 0 <= f < |m.frames|
      ensures CountOk(m, f, {}, {})
    {
      assert Namers(m, f, {}) == {};
      assert Writers(m, f, {}) == {};
    }
  }

  ghost predicate IsBase(base: seq<Entry>) {
    |base| == ENTRIES && forall i :: USER_DIR_START <= i < USER_DIR_END ==> !base[i].pr
  }

  function BootSystem(count: nat, start: nat, zeroFrame: nat, base: seq<Entry>): System {
    System(Boot(count, start, zeroFrame), map[], base)
  }

  /** The invariant of the machine holds before the first process starts. */
  lemma BootSystemInv(count: nat, start: nat, zeroFrame: nat, base: seq<Entry>)
    requires 0 < zeroFrame < start <= count <= MAX_FRAMES && IsBase(base)
    ensures SystemInv(BootSystem(count, start, zeroFrame, base))
    ensures BootSystem(count, start, zeroFrame, base).dirs == map[]
    ensures Room(BootSystem(count, start, zeroFrame, base).mem, count - start)
  {
    BootInv(count, start, zeroFrame);
  }

  // ---------------------------------------------------------------------------------------
  // A run that needs its guard
  // ---------------------------------------------------------------------------------------

  /** Read a page that has no page table, fork, and write to the page. */
  function LeakingOps(pid: nat, child: nat, p: Page, offset: nat, v: int): seq<Op> {
    [FaultZero(pid, p), Fork(pid, child), Write(pid, p, offset, v)]
  }

  ghost predicate Unmapped(s: System, pid: nat, child: nat, p: Page) {
    && SystemInv(s) && pid in s.dirs && child !in s.dirs && UserPage(p)
    && !At(s.mem, Loc(s.dirs[pid], p.table)).pr
  }

  /** The run unfolds into the three operations on memory. */
  lemma LeakingRun(s: System, pid: nat, child: nat, p: Page, offset: nat, v: int)
    requires Unmapped(s, pid, child, p) && offset < FRAME_SIZE
    requires var d := s.dirs[pid];
             && ZeroMap(s.mem, d, p.table, p.slot).Some?
             && CloneDirectory(ZeroMap(s.mem, d, p.table, p.slot).value, d).Some?
             && Store(CloneDirectory(ZeroMap(s.mem, d, p.table, p.slot).value, d).value.0, d, p.table, p.slot, offset, v).Some?
    ensures var d := s.dirs[pid];
            var (m2, c) := CloneDirectory(ZeroMap(s.mem, d, p.table, p.slot).value, d).value;
            Run(s, LeakingOps(pid, child, p, offset, v), true) ==
              Some(s.(mem := Store(m2, d, p.table, p.slot, offset, v).value, dirs := s.dirs[child := c]))
  {
    hide Inv, ZeroMap, CloneDirectory, Store, Run, Mapped, ReadFaulted;
    var d := s.dirs[pid];
    var ops := LeakingOps(pid, child, p, offset, v);
    NothingMapped(s, pid, p);
    var m1 := ZeroMap(s.mem, d, p.table, p.slot).value;
    var (m2, c) := CloneDirectory(m1, d).value;
    StillMapped(s.mem, d, p.table, p.slot);
    var s1 := s.(mem := m1);
    var s2 := s1.(mem := m2, dirs := s1.dirs[child := c]);
    var s3 := s2.(mem := Store(m2, d, p.table, p.slot, offset, v).value);
    assert Step(s, ops[0], true) == Some(s1);
    assert Step(s1, ops[1], true) == Some(s2);
    assert Step(s2, ops[2], true) == Some(s3);
    hide Step;
    ThreeSteps(s, s1, s2, s3, ops);
  }

  lemma NothingMapped(s: System, pid: nat, p: Page)
    requires SystemInv(s) && pid in s.dirs && !At(s.mem, Loc(s.dirs[pid], p.table)).pr
    ensures !IsMapped(s, pid, p) && IsDirectory(s.mem, s.dirs[pid])
  {
    hide Inv;
  }

  /** The parent's page is still mapped after the fork. */
  lemma StillMapped(m: Mem, d: nat, i: nat, j: nat)
    requires Inv(m, {}, {}) && m.kernelRefs == 1 && IsDirectory(m, d)
    requires UserIndex(i) && j < ENTRIES && !At(m, Loc(d, i)).pr && ZeroMap(m, d, i, j).Some?
    requires CloneDirectory(ZeroMap(m, d, i, j).value, d).Some?
    ensures Mapped(CloneDirectory(ZeroMap(m, d, i, j).value, d).value.0, d, i, j)
  {
    hide Inv, ZeroMap, CloneDirectory;
    ZeroMapReadFaults(m, d, i, j);
    var m1 := ZeroMap(m, d, i, j).value;
    ForkUndercounts(m1, d, i, j, At(m1, Loc(d, i)).frame);
  }

  lemma ThreeSteps(s: System, s1: System, s2: System, s3: System, ops: seq<Op>)
    requires |ops| == 3 && Step(s, ops[0], true) == Some(s1)
    requires Step(s1, ops[1], true) == Some(s2) && Step(s2, ops[2], true) == Some(s3)
    ensures Run(s, ops, true) == Some(s3)
  {
    hide Step;
    assert ops[1..][1..][1..] == [] && ops[1..][0] == ops[1] && ops[1..][1..][0] == ops[2];
    assert Run(s2, ops[1..][1..], true) == Some(s3);
    assert Run(s1, ops[1..], true) == Some(s3);
  }

  /** On private memory the child keeps its zero page. */
  lemma PrivateKeepsZero(a: Spaces, pid: nat, child: nat, p: Page, offset: nat, v: int)
    requires pid in a && child !in a && UserPage(p) && p !in a[pid] && offset < FRAME_SIZE
    ensures var a' := PrivateRun(a, LeakingOps(pid, child, p, offset, v));
            child in a' && p in a'[child] && a'[child][p] == ZeroBytes()
  {
    var ops := LeakingOps(pid, child, p, offset, v);
    var a1 := PrivateStep(a, ops[0]);
    var a2 := PrivateStep(a1, ops[1]);
    assert ops[1..][1..][1..] == [] && ops[1..][0] == ops[1] && ops[1..][1..][0] == ops[2];
    assert PrivateRun(a2, ops[1..][1..]) == PrivateStep(a2, ops[2]);
    assert PrivateRun(a1, ops[1..]) == PrivateRun(a2, ops[1..][1..]);
  }

  /** Without its guard the refinement fails: the child reads what the parent wrote after the fork. */
  lemma UnguardedRunLeaks(s: System, pid: nat, child: nat, p: Page, offset: nat, v: int)
    requires Unmapped(s, pid, child, p) && offset < FRAME_SIZE && v != 0 && Room(s.mem, 3)
    ensures var ops := LeakingOps(pid, child, p, offset, v);
            && Run(s, ops, true).Some?
            && SpacesOf(Run(s, ops, true).value) != PrivateRun(SpacesOf(s), ops)
            && !GuardedRun(s, ops) && !ForkGuardedRun(s, ops)
  {
    hide Inv, Run, PrivateRun;
    var d := s.dirs[pid];
    assert IsDirectory(s.mem, d);
    ReadFaultRunSucceeds(s.mem, d, p.table, p.slot, offset, v);
    ParentStoreReachesChild(s.mem, d, p.table, p.slot, offset, v);
    LeakingRun(s, pid, child, p, offset, v);
    PrivateKeepsZero(SpacesOf(s), pid, child, p, offset, v);
    assert ZeroBytes()[offset := v][offset] != ZeroBytes()[offset];
    assert LeakingOps(pid, child, p, offset, v)[0] == FaultZero(pid, p);
    LeakingFork(s, pid, child, p, offset, v);
  }

  /** The fork of that run shares a directory entry that nobody counted. */
  lemma LeakingFork(s: System, pid: nat, child: nat, p: Page, offset: nat, v: int)
    requires Unmapped(s, pid, child, p) && ZeroMap(s.mem, s.dirs[pid], p.table, p.slot).Some?
    ensures !ForkGuardedRun(s, LeakingOps(pid, child, p, offset, v))
  {
    hide Inv, ZeroMap, Mapped, SpaceCounted;
    var d := s.dirs[pid];
    var ops := LeakingOps(pid, child, p, offset, v);
    NothingMapped(s, pid, p);
    UncountedTable(s.mem, d, p);
    var s1 := s.(mem := ZeroMap(s.mem, d, p.table, p.slot).value);
    assert Step(s, ops[0], true) == Some(s1);
    assert ops[1..][0] == ops[1];
    assert !ForkGuarded(s1, ops[1]);
    assert !ForkGuardedRun(s1, ops[1..]);
  }

  lemma UncountedTable(m: Mem, d: nat, p: Page)
    requires Inv(m, {}, {}) && m.kernelRefs == 1 && IsDirectory(m, d) && UserPage(p)
    requires !At(m, Loc(d, p.table)).pr && ZeroMap(m, d, p.table, p.slot).Some?
    ensures !SpaceCounted(ZeroMap(m, d, p.table, p.slot).value, d)
  {
    hide ZeroMap;
    assert IsSlot(m, Loc(d, p.table));
    ZeroMapUncounted(m, d, p.table, p.slot);
    hide Inv;
  }

  /** Four untouched frames after boot let the first process and its child show it. */
  lemma LeakFromBoot(count: nat, start: nat, zeroFrame: nat, base: seq<Entry>)
    requires 0 < zeroFrame < start && start + 4 <= count <= MAX_FRAMES && IsBase(base)
    ensures var s := BootSystem(count, start, zeroFrame, base);
            var ops := [Spawn(0)] + LeakingOps(0, 1, Page(USER_DIR_START, 0), 0, 1);
            Run(s, ops, true).Some? && SpacesOf(Run(s, ops, true).value) != PrivateRun(SpacesOf(s), ops)
  {
    var s := BootSystem(count, start, zeroFrame, base);
    var leak := LeakingOps(0, 1, Page(USER_DIR_START, 0), 0, 1);
    BootSystemInv(count, start, zeroFrame, base);
    var s1 := Step(s, Spawn(0), true).value;
    assert Room(s1.mem, 3);
    hide Inv, LeakingOps;
    assert ([Spawn(0)] + leak)[1..] == leak;
    StepRefined(s, Spawn(0));
    assert At(s1.mem, Loc(s1.dirs[0], USER_DIR_START)) == base[USER_DIR_START];
    UnguardedRunLeaks(s1, 0, 1, Page(USER_DIR_START, 0), 0, 1);
  }

  // ---------------------------------------------------------------------------------------
  // A copying fork that miscounts
  // ---------------------------------------------------------------------------------------

  lemma SpawnRoom(s: System, pid: nat, left: nat)
    requires SystemInv(s) && pid !in s.dirs && Room(s.mem, left + 1)
    ensures Step(s, Spawn(pid), true).Some?
    ensures var s' := Step(s, Spawn(pid), true).value;
            && SystemInv(s') && Room(s'.mem, left) && pid in s'.dirs && s'.dirs.Keys == s.dirs.Keys + {pid}
            && (forall i: nat :: UserIndex(i) ==> !At(s'.mem, Loc(s'.dirs[pid], i)).pr)
  {
    hide Inv;
    assert Step(s, Spawn(pid), true).Some? && Room(Step(s, Spawn(pid), true).value.mem, left);
    StepRefined(s, Spawn(pid));
  }

  /** The first page of a region brings its page table with it. */
  lemma FaultInRoom(s: System, pid: nat, p: Page, left: nat)
    requires SystemInv(s) && pid in s.dirs && UserPage(p) && Room(s.mem, left + 2)
    requires !At(s.mem, Loc(s.dirs[pid], p.table)).pr
    ensures Step(s, FaultIn(pid, p, ZeroBytes()), true).Some?
    ensures var s' := Step(s, FaultIn(pid, p, ZeroBytes()), true).value;
            && SystemInv(s') && Room(s'.mem, left) && s'.dirs == s.dirs
            && At(s'.mem, Loc(s.dirs[pid], p.table)).pr && At(s'.mem, Loc(s.dirs[pid], p.table)).rw
            && (forall j: nat :: j != p.slot ==> View(s'.mem, s.dirs[pid], p.table, j, {}).None?)
  {
    hide Inv;
    var d := s.dirs[pid];
    NothingMapped(s, pid, p);
    FirstPage(s.mem, d, p, left);
    assert Step(s, FaultIn(pid, p, ZeroBytes()), true).Some?;
    StepRefined(s, FaultIn(pid, p, ZeroBytes()));
    DemandMapStep(s.mem, d, p.table, p.slot, ZeroBytes());
  }

  lemma FirstPage(m: Mem, d: nat, p: Page, left: nat)
    requires Inv(m, {}, {}) && IsDirectory(m, d) && UserPage(p) && Room(m, left + 2) && !At(m, Loc(d, p.table)).pr
    ensures IsSlot(m, Loc(d, p.table)) && DemandMap(m, d, p.table, p.slot, ZeroBytes()).Some?
    ensures var m' := DemandMap(m, d, p.table, p.slot, ZeroBytes()).value;
            Room(m', left) && At(m', Loc(d, p.table)).pr && At(m', Loc(d, p.table)).rw
  {
    var l := Loc(d, p.table);
    var (m1, f) := Alloc(m, DataKind).value;
    AllocShape(m, DataKind);
    var m2 := SetBytes(m1, f, ZeroBytes());
    assert IsSlot(m2, l) && At(m2, l) == At(m, l);
    var (m3, t) := Alloc(m2, TableKind).value;
    var m4 := SetEntry(m3, l, Entry(t, FLAG_US, true, true));
    assert IsEntry(m3, l);
    SetEntryAt(m3, l, Entry(t, FLAG_US, true, true));
    assert IsEntry(m4, Loc(t, p.slot));
    SetEntryAt(m4, Loc(t, p.slot), Entry(f, FLAG_US, true, true));
  }

  /** The next page, read first, takes no frame. */
  lemma FaultZeroRoom(s: System, pid: nat, q: Page, left: nat)
    requires SystemInv(s) && pid in s.dirs && UserPage(q) && Room(s.mem, left)
    requires At(s.mem, Loc(s.dirs[pid], q.table)).pr && At(s.mem, Loc(s.dirs[pid], q.table)).rw
    requires View(s.mem, s.dirs[pid], q.table, q.slot, {}).None?
    ensures Step(s, FaultZero(pid, q), true).Some?
    ensures var s' := Step(s, FaultZero(pid, q), true).value;
            && SystemInv(s') && Room(s'.mem, left) && s'.dirs == s.dirs
            && ZeroMap(s.mem, s.dirs[pid], q.table, q.slot) == Some(s'.mem)
  {
    var d := s.dirs[pid];
    assert IsDirectory(s.mem, d);
    CountedIsLive(s.mem);
    MappedIff(s.mem, d, q);
    hide Inv, LiveInv;
    assert ZeroMap(s.mem, d, q.table, q.slot).Some? && Room(ZeroMap(s.mem, d, q.table, q.slot).value, left);
    StepRefined(s, FaultZero(pid, q));
  }

  /** A process reads a page it never wrote, in a table it has; its full copy is not counted. */
  lemma CopyMiscountsFromBoot(count: nat, start: nat, zeroFrame: nat, base: seq<Entry>)
    requires 0 < zeroFrame < start && start + 3 + CLONE_COST <= count <= MAX_FRAMES && IsBase(base)
    ensures var s := BootSystem(count, start, zeroFrame, base);
            var ops := [Spawn(0), FaultIn(0, Page(USER_DIR_START, 0), ZeroBytes()), FaultZero(0, Page(USER_DIR_START, 1))];
            && Run(s, ops, true).Some?
            && SystemInv(Run(s, ops, true).value)
            && Step(Run(s, ops, true).value, Fork(0, 1), false).Some?
            && !Inv(Step(Run(s, ops, true).value, Fork(0, 1), false).value.mem, {}, {})
  {
    hide SystemInv, Inv, Run, Step, View, BootSystem, ZeroMap, DeepCloneDirectory;
    var s := BootSystem(count, start, zeroFrame, base);
    var p, q := Page(USER_DIR_START, 0), Page(USER_DIR_START, 1);
    var ops := [Spawn(0), FaultIn(0, p, ZeroBytes()), FaultZero(0, q)];
    BootSystemInv(count, start, zeroFrame, base);
    SpawnRoom(s, 0, 2 + CLONE_COST);
    var s1 := Step(s, ops[0], true).value;
    FaultInRoom(s1, 0, p, CLONE_COST);
    var s2 := Step(s1, ops[1], true).value;
    FaultZeroRoom(s2, 0, q, CLONE_COST);
    var s3 := Step(s2, ops[2], true).value;
    ThreeSteps(s, s1, s2, s3, ops);
    SystemMeans(s2, 0);
    DeepCloneSucceeds(s3.mem, s2.dirs[0]);
    CopyForkStep(s3, 0, 1);
    CopyAfterReadFaultMiscounts(s2.mem, s2.dirs[0], q.table, q.slot);
  }

  lemma SystemMeans(s: System, pid: nat)
    requires SystemInv(s) && pid in s.dirs
    ensures Inv(s.mem, {}, {}) && s.mem.kernelRefs == 1 && IsDirectory(s.mem, s.dirs[pid])
  {
    hide Inv;
  }

  lemma CopyForkStep(s: System, pid: nat, child: nat)
    requires pid in s.dirs && child !in s.dirs && DeepCloneDirectory(s.mem, s.dirs[pid]).Some?
    ensures var r := Step(s, Fork(pid, child), false);
            r.Some? && r.value.mem == DeepCloneDirectory(s.mem, s.dirs[pid]).value.0
  {
    hide DeepCloneDirectory;
  }
}
