/**
 Whole runs of the memory system: processes start, fork, store, fault pages in and exit, in any
 order, and each of them sees exactly the memory it would own if nothing were ever shared.
 */
module PagingRuns {
  import opened Wrappers
  import opened Paging
  import opened PagingInvariant
  import opened PagingSteps
  import opened PagingEntries
  import opened PagingRelease
  import opened PagingFork
  import opened PagingMap
  import opened PagingLive
  import opened PagingLiveCopy
  import opened PagingLiveFork
  import opened PagingLiveMap
  import opened PagingLiveRelease
  import opened PagingDeepCopy
  import opened PagingLiveEntries

  /** A user page: the index of its table in the directory and its index in the table. */
  datatype Page = Page(table: nat, slot: nat)

  predicate UserPage(p: Page) {
    UserIndex(p.table) && p.slot < ENTRIES
  }

  datatype Op =
    | Spawn(pid: nat)
    | Fork(pid: nat, child: nat)
    | Write(pid: nat, page: Page, offset: nat, value: int)
    | FaultIn(pid: nat, page: Page, bytes: seq<int>)
    | FaultZero(pid: nat, page: Page)
    | Exit(pid: nat)

  /** A machine: its memory, the directory of every live process, the kernel's base directory. */
  datatype System = System(mem: Mem, dirs: map<nat, nat>, base: seq<Entry>)

  // ---------------------------------------------------------------------------------------
  // The machine
  // ---------------------------------------------------------------------------------------

  predicate IsMapped(s: System, pid: nat, p: Page) {
    pid in s.dirs && Mapped(s.mem, s.dirs[pid], p.table, p.slot)
  }

  /** One operation; `cow` picks the fork.  An operation that does not apply does nothing. */
  function Step(s: System, op: Op, cow: bool): Option<System> {
    match op
    case Spawn(pid) =>
      if pid in s.dirs then Some(s)
      else
        var r :- NewDirectory(s.mem, s.base);
        Some(s.(mem := r.0, dirs := s.dirs[pid := r.1]))
    case Fork(pid, child) =>
      if pid !in s.dirs || child in s.dirs then Some(s)
      else
        var r :- if cow then CloneDirectory(s.mem, s.dirs[pid]) else DeepCloneDirectory(s.mem, s.dirs[pid]);
        Some(s.(mem := r.0, dirs := s.dirs[child := r.1]))
    case Write(pid, p, offset, value) =>
      if !UserPage(p) || !IsMapped(s, pid, p) || offset >= FRAME_SIZE then Some(s)
      else
        var m :- Store(s.mem, s.dirs[pid], p.table, p.slot, offset, value);
        Some(s.(mem := m))
    case FaultIn(pid, p, bytes) =>
      if !UserPage(p) || pid !in s.dirs || IsMapped(s, pid, p) || |bytes| != FRAME_SIZE then Some(s)
      else
        var m :- DemandMap(s.mem, s.dirs[pid], p.table, p.slot, bytes);
        Some(s.(mem := m))
    case FaultZero(pid, p) =>
      if !UserPage(p) || pid !in s.dirs || IsMapped(s, pid, p) then Some(s)
      else
        var m :- ZeroMap(s.mem, s.dirs[pid], p.table, p.slot);
        Some(s.(mem := m))
    case Exit(pid) =>
      if pid !in s.dirs then Some(s)
      else Some(s.(mem := FreeDirectory(s.mem, s.dirs[pid]), dirs := s.dirs - {pid}))
  }

  /** The operations in order; None once an allocation panics. */
  function Run(s: System, ops: seq<Op>, cow: bool): Option<System>
    decreases |ops|
  {
    if ops == [] then Some(s)
    else
      var s1 :- Step(s, ops[0], cow);
      Run(s1, ops[1..], cow)
  }

  // ---------------------------------------------------------------------------------------
  // What processes are promised: private memory
  // ---------------------------------------------------------------------------------------

  type Space = map<Page, seq<int>>
  type Spaces = map<nat, Space>

  function PrivateStep(a: Spaces, op: Op): Spaces {
    match op
    case Spawn(pid) => if pid in a then a else a[pid := map[]]
    case Fork(pid, child) => if pid !in a || child in a then a else a[child := a[pid]]
    case Write(pid, p, offset, value) =>
      if !UserPage(p) || pid !in a || p !in a[pid] || offset >= |a[pid][p]| then a
      else a[pid := a[pid][p := a[pid][p][offset := value]]]
    case FaultIn(pid, p, bytes) =>
      if !UserPage(p) || pid !in a || p in a[pid] || |bytes| != FRAME_SIZE then a
      else a[pid := a[pid][p := bytes]]
    case FaultZero(pid, p) =>
      if !UserPage(p) || pid !in a || p in a[pid] then a
      else a[pid := a[pid][p := ZeroBytes()]]
    case Exit(pid) => a - {pid}
  }

  function PrivateRun(a: Spaces, ops: seq<Op>): Spaces
    decreases |ops|
  {
    if ops == [] then a else PrivateRun(PrivateStep(a, ops[0]), ops[1..])
  }

  ghost function AllPages(): (r: set<Page>)
    ensures forall p: Page :: p in r <==> UserPage(p)
  {
    set i, j | USER_DIR_START <= i < USER_DIR_END && 0 <= j < ENTRIES :: Page(i, j)
  }

  ghost function SpaceOf(m: Mem, d: nat): (r: Space)
    ensures forall p: Page :: p in r <==> UserPage(p) && View(m, d, p.table, p.slot, {}).Some?
    ensures forall p: Page :: p in r ==> Some(r[p]) == View(m, d, p.table, p.slot, {})
  {
    map p | p in AllPages() && View(m, d, p.table, p.slot, {}).Some? :: View(m, d, p.table, p.slot, {}).value
  }

  ghost function SpacesOf(s: System): Spaces {
    map pid | pid in s.dirs :: SpaceOf(s.mem, s.dirs[pid])
  }

  // ---------------------------------------------------------------------------------------
  // The invariant of the machine
  // ---------------------------------------------------------------------------------------

  /** Outside the user part the directory holds the entries of the base directory. */
  ghost predicate KernelIs(m: Mem, d: nat, base: seq<Entry>) {
    forall i: nat :: i < |base| && !UserIndex(i) ==> At(m, Loc(d, i)) == base[i]
  }

  /** Every process has the kernel mapped, and FLAG_US on all its own entries. */
  ghost predicate KernelMapped(s: System) {
    Flagged(s.mem) && forall pid :: pid in s.dirs ==> KernelIs(s.mem, s.dirs[pid], s.base)
  }

  /** Every process has a directory of its own, and there are no others. */
  ghost predicate Placed(s: System) {
    && s.mem.kernelRefs == 1
    && |s.base| == ENTRIES && (forall i :: USER_DIR_START <= i < USER_DIR_END ==> !s.base[i].pr)
    && (forall pid :: pid in s.dirs ==> IsDirectory(s.mem, s.dirs[pid]))
    && (forall p, q :: p in s.dirs && q in s.dirs && s.dirs[p] == s.dirs[q] ==> p == q)
    && (forall d: nat :: IsDirectory(s.mem, d) ==> d in s.dirs.Values)
    && KernelMapped(s)
  }

  /** The counters are right. */
  ghost predicate SystemInv(s: System) {
    Inv(s.mem, {}, {}) && Placed(s)
  }

  /** Enough for the views; the counters may be off. */
  ghost predicate SystemLive(s: System) {
    LiveInv(s.mem) && Placed(s)
  }

  /** A read fault finds its page table in place; see ZeroMapKeepsCountsIff. */
  ghost predicate Guarded(s: System, op: Op) {
    op.FaultZero? && UserPage(op.page) && op.pid in s.dirs && !IsMapped(s, op.pid, op.page) ==>
      At(s.mem, Loc(s.dirs[op.pid], op.page.table)).pr
  }

  ghost predicate GuardedRun(s: System, ops: seq<Op>)
    decreases |ops|
  {
    ops != [] ==> Guarded(s, ops[0]) && (Step(s, ops[0], true).Some? ==> GuardedRun(Step(s, ops[0], true).value, ops[1..]))
  }

  /** A fork that shares finds every read-only entry of the space counted; see CloneKeepsLiveIff. */
  ghost predicate ForkGuarded(s: System, op: Op) {
    op.Fork? && op.pid in s.dirs && op.child !in s.dirs ==> SpaceCounted(s.mem, s.dirs[op.pid])
  }

  ghost predicate ForkGuardedRun(s: System, ops: seq<Op>)
    decreases |ops|
  {
    ops != [] ==> ForkGuarded(s, ops[0]) &&
                  (Step(s, ops[0], true).Some? ==> ForkGuardedRun(Step(s, ops[0], true).value, ops[1..]))
  }

  lemma MappedIff(m: Mem, d: nat, p: Page)
    requires LiveInv(m) && IsDirectory(m, d) && UserPage(p)
    ensures Mapped(m, d, p.table, p.slot) <==> View(m, d, p.table, p.slot, {}).Some?
    ensures View(m, d, p.table, p.slot, {}).Some? ==> |View(m, d, p.table, p.slot, {}).value| == FRAME_SIZE
  {
    assert IsSlot(m, Loc(d, p.table));
    if At(m, Loc(d, p.table)).pr {
      ReachedEntries(m, Loc(d, p.table));
    }
  }

  // ---------------------------------------------------------------------------------------
  // One operation
  // ---------------------------------------------------------------------------------------

  /** The machine's step did to the views what the private machine does to its memories. */
  ghost predicate Shows(s: System, s': System, op: Op) {
    Placed(s') && SpacesOf(s') == PrivateStep(SpacesOf(s), op)
  }

  ghost predicate LiveRefined(s: System, s': System, op: Op) {
    LiveInv(s'.mem) && Shows(s, s', op)
  }

  /** And it kept the counters right and lost no frame. */
  ghost predicate Refined(s: System, s': System, op: Op) {
    Inv(s'.mem, {}, {}) && Outstanding(s'.mem) == Outstanding(s.mem) && Shows(s, s', op)
  }

  lemma SpaceEq(m: Mem, m': Mem, d: nat, d': nat)
    requires forall i: nat, j: nat :: View(m', d', i, j, {}) == View(m, d, i, j, {})
    ensures SpaceOf(m', d') == SpaceOf(m, d)
  {
  }

  lemma ForkShows(s: System, pid: nat, child: nat, m': Mem, c: nat)
    requires Placed(s) && pid in s.dirs && child !in s.dirs && ForkShown(s.mem, m', s.dirs[pid], c) && Flagged(m')
    ensures Shows(s, s.(mem := m', dirs := s.dirs[child := c]), Fork(pid, child))
  {
    hide View;
    ForkPlaced(s, pid, child, m', c);
    ForkSpaces(s, pid, child, m', c);
  }

  lemma ForkPlaced(s: System, pid: nat, child: nat, m': Mem, c: nat)
    requires Placed(s) && pid in s.dirs && child !in s.dirs && ForkShown(s.mem, m', s.dirs[pid], c) && Flagged(m')
    ensures Placed(s.(mem := m', dirs := s.dirs[child := c]))
  {
    hide View, Flagged;
    var s' := s.(mem := m', dirs := s.dirs[child := c]);
    ForkKernel(s, pid, child, m', c);
    hide KernelMapped, KernelForked;
    assert s'.dirs[child] == c;
    forall d: nat | IsDirectory(m', d)
      ensures d in s'.dirs.Values
    {
      if d != c {
        assert IsDirectory(s.mem, d);
        var q :| q in s.dirs && s.dirs[q] == d;
        assert s'.dirs[q] == d;
      }
    }
  }

  lemma ForkKernel(s: System, pid: nat, child: nat, m': Mem, c: nat)
    requires Placed(s) && pid in s.dirs && child !in s.dirs && ForkShown(s.mem, m', s.dirs[pid], c) && Flagged(m')
    ensures KernelMapped(s.(mem := m', dirs := s.dirs[child := c]))
  {
    hide View, Flagged;
    var s' := s.(mem := m', dirs := s.dirs[child := c]);
    forall q, i: nat | q in s'.dirs && i < |s.base| && !UserIndex(i)
      ensures At(m', Loc(s'.dirs[q], i)) == s.base[i]
    {
      var p := if q == child then pid else q;
      assert KernelIs(s.mem, s.dirs[p], s.base) && IsDirectory(s.mem, s.dirs[p]) && IsDirectory(m', s'.dirs[q]);
    }
  }

  /** What leaves the entries of everyone alone leaves the kernel mapped. */
  lemma KeptKernel(s: System, s': System)
    requires KernelMapped(s) && Kept(s.mem, s'.mem) && s'.base == s.base
    requires forall q :: q in s'.dirs ==> q in s.dirs && s'.dirs[q] == s.dirs[q] && IsDirectory(s'.mem, s.dirs[q])
    ensures KernelMapped(s')
  {
    hide Flagged;
    forall q | q in s'.dirs
      ensures KernelIs(s'.mem, s'.dirs[q], s'.base)
    {
      assert KernelIs(s.mem, s.dirs[q], s.base);
    }
  }

  lemma ForkSpaces(s: System, pid: nat, child: nat, m': Mem, c: nat)
    requires Placed(s) && pid in s.dirs && child !in s.dirs && ForkShown(s.mem, m', s.dirs[pid], c)
    ensures SpacesOf(s.(mem := m', dirs := s.dirs[child := c])) == SpacesOf(s)[child := SpacesOf(s)[pid]]
  {
    hide View, SpaceOf, SpacesOf;
    SpaceEq(s.mem, m', s.dirs[pid], c);
    forall q | q in s.dirs
      ensures SpaceOf(m', s.dirs[q]) == SpaceOf(s.mem, s.dirs[q])
    {
      assert IsDirectory(s.mem, s.dirs[q]);
      SpaceEq(s.mem, m', s.dirs[q], s.dirs[q]);
    }
    hide ForkShown, Placed;
    SpacesAdd(s, m', child, c, SpaceOf(s.mem, s.dirs[pid]));
  }

  lemma SpacesAdd(s: System, m': Mem, child: nat, c: nat, space: Space)
    requires child !in s.dirs && SpaceOf(m', c) == space
    requires forall q :: q in s.dirs ==> SpaceOf(m', s.dirs[q]) == SpaceOf(s.mem, s.dirs[q])
    ensures SpacesOf(s.(mem := m', dirs := s.dirs[child := c])) == SpacesOf(s)[child := space]
    ensures forall q :: q in s.dirs ==> SpacesOf(s)[q] == SpaceOf(s.mem, s.dirs[q])
  {
    hide SpaceOf;
  }

  lemma ExitShows(s: System, pid: nat, m': Mem)
    requires Placed(s) && pid in s.dirs && DirectoryGone(s.mem, m', s.dirs[pid]) && Kept(s.mem, m')
    ensures Shows(s, s.(mem := m', dirs := s.dirs - {pid}), Exit(pid))
  {
    hide View;
    ExitPlaced(s, pid, m');
    ExitSpaces(s, pid, m');
  }

  lemma ExitPlaced(s: System, pid: nat, m': Mem)
    requires Placed(s) && pid in s.dirs && DirectoryGone(s.mem, m', s.dirs[pid]) && Kept(s.mem, m')
    ensures Placed(s.(mem := m', dirs := s.dirs - {pid}))
  {
    hide View, Kept;
    var s' := s.(mem := m', dirs := s.dirs - {pid});
    forall q | q in s'.dirs
      ensures s'.dirs[q] == s.dirs[q] && IsDirectory(m', s.dirs[q])
    {
      assert IsDirectory(s.mem, s.dirs[q]);
    }
    KeptKernel(s, s');
    hide KernelMapped;
    forall d: nat | IsDirectory(m', d)
      ensures d in s'.dirs.Values
    {
      assert IsDirectory(s.mem, d);
      var q :| q in s.dirs && s.dirs[q] == d;
      assert s'.dirs[q] == d;
    }
  }

  lemma ExitSpaces(s: System, pid: nat, m': Mem)
    requires Placed(s) && pid in s.dirs && DirectoryGone(s.mem, m', s.dirs[pid])
    ensures SpacesOf(s.(mem := m', dirs := s.dirs - {pid})) == SpacesOf(s) - {pid}
  {
    hide View;
    var s' := s.(mem := m', dirs := s.dirs - {pid});
    forall q | q in s'.dirs
      ensures SpaceOf(m', s'.dirs[q]) == SpaceOf(s.mem, s.dirs[q])
    {
      SpaceEq(s.mem, m', s.dirs[q], s.dirs[q]);
    }
    hide SpaceOf;
  }

  lemma PageSpace(m: Mem, m': Mem, d: nat, p: Page, bytes: seq<int>)
    requires UserPage(p) && PageShown(m, m', d, p.table, p.slot, bytes)
    ensures SpaceOf(m', d) == SpaceOf(m, d)[p := bytes]
  {
    hide View, SameDirectories;
    assert View(m', d, p.table, p.slot, {}) == Some(bytes);
  }

  /** Any operation that changes one page of one process and nothing else. */
  lemma PageShows(s: System, pid: nat, p: Page, bytes: seq<int>, m': Mem)
    requires Placed(s) && pid in s.dirs && UserPage(p)
    requires PageShown(s.mem, m', s.dirs[pid], p.table, p.slot, bytes) && Kept(s.mem, m')
    ensures Placed(s.(mem := m'))
    ensures SpacesOf(s.(mem := m')) == SpacesOf(s)[pid := SpacesOf(s)[pid][p := bytes]]
  {
    hide View, Kept;
    PageSpaces(s, pid, p, bytes, m');
    hide SpacesOf;
    assert forall d: nat :: IsDirectory(m', d) == IsDirectory(s.mem, d);
    KeptKernel(s, s.(mem := m'));
    hide KernelMapped;
  }

  lemma PageSpaces(s: System, pid: nat, p: Page, bytes: seq<int>, m': Mem)
    requires Placed(s) && pid in s.dirs && UserPage(p)
    requires PageShown(s.mem, m', s.dirs[pid], p.table, p.slot, bytes)
    ensures SpacesOf(s.(mem := m')) == SpacesOf(s)[pid := SpacesOf(s)[pid][p := bytes]]
  {
    hide View, SameDirectories;
    PageSpace(s.mem, m', s.dirs[pid], p, bytes);
    forall q | q in s.dirs && q != pid
      ensures SpaceOf(m', s.dirs[q]) == SpaceOf(s.mem, s.dirs[q])
    {
      SpaceEq(s.mem, m', s.dirs[q], s.dirs[q]);
    }
    SpacesUpdate(s, m', pid, SpaceOf(s.mem, s.dirs[pid])[p := bytes]);
  }

  lemma SpacesUpdate(s: System, m': Mem, pid: nat, space: Space)
    requires pid in s.dirs && SpaceOf(m', s.dirs[pid]) == space
    requires forall q :: q in s.dirs && q != pid ==> SpaceOf(m', s.dirs[q]) == SpaceOf(s.mem, s.dirs[q])
    ensures SpacesOf(s.(mem := m')) == SpacesOf(s)[pid := space]
  {
    hide SpaceOf;
  }

  /** A directory with an empty user part shows nothing, whatever its kernel part holds. */
  lemma NewDirectoryStep(m: Mem, base: seq<Entry>)
    requires Inv(m, {}, {}) && NewDirectory(m, base).Some?
    requires |base| == ENTRIES && forall i :: USER_DIR_START <= i < USER_DIR_END ==> !base[i].pr
    ensures var (m', c) := NewDirectory(m, base).value;
            && Inv(m', {}, {}) && Outstanding(m') == Outstanding(m)
            && |m'.frames| == |m.frames| && m'.zero == m.zero && m'.kernelRefs == m.kernelRefs
            && c < |m.frames| && m.frames[c].Free?
            && m'.frames == m.frames[c := Directory(base)]
            && (forall d: nat, i: nat, j: nat :: View(m', d, i, j, {}) == View(m, d, i, j, {}))
  {
    var (m1, c) := Alloc(m, DirectoryKind).value;
    AllocStep(m, DirectoryKind, {}, {});
    DirectoryNotPending(m1, c, {});
    SwapDirectory(m1, c, base);
    var m' := m1.(frames := m1.frames[c := Directory(base)]);
    forall d: nat, i: nat, j: nat
      ensures View(m', d, i, j, {}) == View(m, d, i, j, {})
    {
      assert SameView(m, m1, d, {});
    }
  }

  lemma SwapDirectory(m: Mem, c: nat, base: seq<Entry>)
    requires Inv(m, {}, {}) && c < |m.frames| && m.frames[c] == Zeroed(DirectoryKind)
    requires |base| == ENTRIES && forall i :: USER_DIR_START <= i < USER_DIR_END ==> !base[i].pr
    ensures var m' := m.(frames := m.frames[c := Directory(base)]);
            && Inv(m', {}, {}) && Outstanding(m') == Outstanding(m)
            && (forall d: nat, i: nat, j: nat :: View(m', d, i, j, {}) == View(m, d, i, j, {}))
  {
    var m' := m.(frames := m.frames[c := Directory(base)]);
    assert forall x: Loc :: IsSlot(m', x) == IsSlot(m, x);
    assert forall x: Loc :: IsSlot(m, x) ==> At(m', x).pr == At(m, x).pr && (At(m, x).pr ==> At(m', x) == At(m, x));
    forall f | 0 <= f < |m.frames|
      ensures CountOk(m', f, {}, {})
    {
      assert CountOk(m, f, {}, {});
      assert Namers(m', f, {}) == Namers(m, f, {});
      assert Writers(m', f, {}) == Writers(m, f, {});
      CountKept(m, m', f, {}, {}, {}, {});
    }
    assert Owned(m') == Owned(m);
    SwapViews(m, m');
  }

  lemma SwapViews(m: Mem, m': Mem)
    requires forall x: Loc :: IsSlot(m', x) == IsSlot(m, x)
    requires forall x: Loc :: IsSlot(m, x) ==> At(m', x).pr == At(m, x).pr && (At(m, x).pr ==> At(m', x) == At(m, x))
    requires |m'.frames| == |m.frames|
    requires forall f :: 0 <= f < |m.frames| ==> m'.frames[f] == m.frames[f] || (m'.frames[f].Directory? && m.frames[f].Directory?)
    ensures forall d: nat, i: nat, j: nat :: View(m', d, i, j, {}) == View(m, d, i, j, {})
  {
    forall t: nat, j: nat
      ensures TableView(m', t, j, {}) == TableView(m, t, j, {})
    {
    }
  }

  /** The same without the counters. */
  lemma NewDirectoryLive(m: Mem, base: seq<Entry>)
    requires LiveInv(m) && NewDirectory(m, base).Some?
    requires |base| == ENTRIES && forall i :: USER_DIR_START <= i < USER_DIR_END ==> !base[i].pr
    ensures var (m', c) := NewDirectory(m, base).value;
            && LiveInv(m') && m'.zero == m.zero && m'.kernelRefs == m.kernelRefs
            && c < |m.frames| && m.frames[c].Free? && m'.frames == m.frames[c := Directory(base)]
            && (forall d: nat, i: nat, j: nat :: View(m', d, i, j, {}) == View(m, d, i, j, {}))
  {
    var (m1, c) := Alloc(m, DirectoryKind).value;
    FreshDirectoryLive(m);
    hide Alloc;
    var m' := m1.(frames := m1.frames[c := Directory(base)]);
    SwapLive(m1, c, base);
    forall d: nat, i: nat, j: nat
      ensures View(m', d, i, j, {}) == View(m, d, i, j, {})
    {
      assert SameView(m, m1, d, {});
    }
  }

  lemma SwapLive(m: Mem, c: nat, base: seq<Entry>)
    requires LiveInv(m) && c < |m.frames| && m.frames[c] == Zeroed(DirectoryKind)
    requires |base| == ENTRIES && forall i :: USER_DIR_START <= i < USER_DIR_END ==> !base[i].pr
    ensures var m' := m.(frames := m.frames[c := Directory(base)]);
            LiveInv(m') && forall d: nat, i: nat, j: nat :: View(m', d, i, j, {}) == View(m, d, i, j, {})
  {
    var m' := m.(frames := m.frames[c := Directory(base)]);
    assert forall x: Loc :: IsSlot(m', x) == IsSlot(m, x);
    assert forall x: Loc :: IsSlot(m, x) ==> At(m', x).pr == At(m, x).pr && (At(m, x).pr ==> At(m', x) == At(m, x));
    assert SameNames(m, m');
    SameNamesSameLive(m, m');
    SwapSound(m, m', c, LiveSlots(m));
    hide Sound;
    forall x: Loc | Live(m', x) && m'.frames[x.frame].Table? && Uncounted(m', x)
      ensures Sole(m', x.frame)
    {
      assert Live(m, x) && Uncounted(m, x);
    }
    SwapViews(m, m');
  }

  lemma SwapSound(m: Mem, m': Mem, c: nat, live: set<Loc>)
    requires Sound(m, live, {}) && m' == m.(frames := m'.frames) && c < |m.frames| && m.frames[c].Directory?
    requires |m'.frames| == |m.frames| && m'.frames == m.frames[c := m'.frames[c]] && m'.frames[c].Directory?
    requires |m'.frames[c].entries| == ENTRIES
    requires forall x: Loc :: IsSlot(m', x) == IsSlot(m, x)
    requires forall x: Loc :: IsSlot(m, x) ==> At(m', x).pr == At(m, x).pr && (At(m, x).pr ==> At(m', x) == At(m, x))
    ensures Sound(m', live, {})
  {
    forall x | x in live
      ensures SlotOk(m', x) && At(m', x) == At(m, x)
    {
      assert SlotOk(m, x);
    }
    forall f | 0 <= f < |m.frames|
      ensures LiveOk(m', f, live, {})
    {
      assert LiveOk(m, f, live, {});
      assert Namers(m', f, {}) == Namers(m, f, {});
      LiveKept(m, m', f, live, {}, {});
    }
  }

  lemma SpawnPlaced(s: System, pid: nat, m': Mem, c: nat)
    requires Placed(s) && pid !in s.dirs && c < |s.mem.frames| && s.mem.frames[c].Free?
    requires m'.frames == s.mem.frames[c := Directory(s.base)] && m'.kernelRefs == 1
    ensures Placed(s.(mem := m', dirs := s.dirs[pid := c]))
  {
    var s' := s.(mem := m', dirs := s.dirs[pid := c]);
    assert s'.dirs[pid] == c;
    SpawnKernel(s, pid, m', c);
    hide KernelMapped;
    forall d: nat | IsDirectory(m', d)
      ensures d in s'.dirs.Values
    {
      if d != c {
        assert IsDirectory(s.mem, d);
        var q :| q in s.dirs && s.dirs[q] == d;
        assert s'.dirs[q] == d;
      }
    }
  }

  lemma SpawnKernel(s: System, pid: nat, m': Mem, c: nat)
    requires Placed(s) && pid !in s.dirs && c < |s.mem.frames| && s.mem.frames[c].Free?
    requires m'.frames == s.mem.frames[c := Directory(s.base)]
    ensures KernelMapped(s.(mem := m', dirs := s.dirs[pid := c]))
  {
    var s' := s.(mem := m', dirs := s.dirs[pid := c]);
    NewDirectoryFlagged(s.mem, m', c, s.base);
    hide Flagged;
    assert forall l: Loc :: l.frame != c ==> At(m', l) == At(s.mem, l);
    forall q | q in s'.dirs
      ensures KernelIs(m', s'.dirs[q], s.base)
    {
      if q != pid {
        assert IsDirectory(s.mem, s.dirs[q]) && KernelIs(s.mem, s.dirs[q], s.base);
      }
    }
  }

  lemma SpawnSpaces(s: System, pid: nat, m': Mem, c: nat)
    requires pid !in s.dirs && c < |s.mem.frames| && s.mem.frames[c].Free?
    requires forall d: nat, i: nat, j: nat :: View(m', d, i, j, {}) == View(s.mem, d, i, j, {})
    ensures SpacesOf(s.(mem := m', dirs := s.dirs[pid := c])) == SpacesOf(s)[pid := map[]]
  {
    forall d: nat
      ensures SpaceOf(m', d) == SpaceOf(s.mem, d)
    {
      SpaceEq(s.mem, m', d, d);
    }
    assert SpaceOf(s.mem, c) == map[];
    hide SpaceOf, View;
  }

  // ---------------------------------------------------------------------------------------
  // What each operation shows
  // ---------------------------------------------------------------------------------------

  lemma WriteShows(s: System, op: Op, cow: bool)
    requires op.Write? && SystemLive(s) && Step(s, op, cow).Some?
    ensures LiveRefined(s, Step(s, op, cow).value, op)
  {
    hide LiveInv, View, Flagged;
    if UserPage(op.page) && op.pid in s.dirs {
      var d := s.dirs[op.pid];
      assert IsDirectory(s.mem, d);
      MappedIff(s.mem, d, op.page);
      if IsMapped(s, op.pid, op.page) && op.offset < FRAME_SIZE {
        StoreLive(s.mem, d, op.page.table, op.page.slot, op.offset, op.value);
        StoreKeeps(s.mem, d, op.page.table, op.page.slot, op.offset, op.value);
        var m' := Store(s.mem, d, op.page.table, op.page.slot, op.offset, op.value).value;
        hide Store, Kept;
        PageShows(s, op.pid, op.page, View(s.mem, d, op.page.table, op.page.slot, {}).value[op.offset := op.value], m');
      }
    }
  }

  lemma FaultInShows(s: System, op: Op, cow: bool)
    requires op.FaultIn? && SystemLive(s) && Step(s, op, cow).Some?
    ensures LiveRefined(s, Step(s, op, cow).value, op)
  {
    hide LiveInv, View, Flagged;
    if UserPage(op.page) && op.pid in s.dirs {
      var d := s.dirs[op.pid];
      assert IsDirectory(s.mem, d);
      MappedIff(s.mem, d, op.page);
      if !IsMapped(s, op.pid, op.page) && |op.bytes| == FRAME_SIZE {
        UserSlot(s.mem, d, op.page);
        DemandMapLive(s.mem, d, op.page.table, op.page.slot, op.bytes);
        DemandMapKeeps(s.mem, d, op.page.table, op.page.slot, op.bytes);
        hide DemandMap, Kept;
        PageShows(s, op.pid, op.page, op.bytes, DemandMap(s.mem, d, op.page.table, op.page.slot, op.bytes).value);
      }
    }
  }

  lemma FaultZeroShows(s: System, op: Op, cow: bool)
    requires op.FaultZero? && SystemLive(s) && Step(s, op, cow).Some?
    ensures LiveRefined(s, Step(s, op, cow).value, op)
  {
    hide LiveInv, View, Flagged;
    if UserPage(op.page) && op.pid in s.dirs {
      var d := s.dirs[op.pid];
      assert IsDirectory(s.mem, d);
      MappedIff(s.mem, d, op.page);
      if !IsMapped(s, op.pid, op.page) {
        UserSlot(s.mem, d, op.page);
        ZeroMapLive(s.mem, d, op.page.table, op.page.slot);
        ZeroMapKeeps(s.mem, d, op.page.table, op.page.slot);
        hide ZeroMap, Kept;
        PageShows(s, op.pid, op.page, ZeroBytes(), ZeroMap(s.mem, d, op.page.table, op.page.slot).value);
      }
    }
  }

  lemma UserSlot(m: Mem, d: nat, p: Page)
    requires LiveInv(m) && IsDirectory(m, d) && UserPage(p)
    ensures IsSlot(m, Loc(d, p.table)) && m.frames[d].Directory?
  {
  }

  lemma SpawnExitShows(s: System, op: Op, cow: bool)
    requires (op.Spawn? || op.Exit?) && SystemLive(s) && Step(s, op, cow).Some?
    ensures LiveRefined(s, Step(s, op, cow).value, op)
  {
    hide LiveInv, View, Flagged;
    match op
    case Spawn(pid) =>
      if pid !in s.dirs {
        NewDirectoryLive(s.mem, s.base);
        var (m', c) := NewDirectory(s.mem, s.base).value;
        hide NewDirectory;
        SpawnPlaced(s, pid, m', c);
        SpawnSpaces(s, pid, m', c);
      }
    case Exit(pid) =>
      if pid in s.dirs {
        assert IsDirectory(s.mem, s.dirs[pid]);
        FreeDirectoryLive(s.mem, s.dirs[pid]);
        FreeDirectoryKeeps(s.mem, s.dirs[pid]);
        hide FreeDirectory, Kept;
        ExitShows(s, pid, FreeDirectory(s.mem, s.dirs[pid]));
      } else {
        assert SpacesOf(s) - {pid} == SpacesOf(s);
      }
  }

  /** Sharing needs the shared entries counted; copying needs nothing. */
  lemma ForkBothShow(s: System, op: Op, cow: bool)
    requires op.Fork? && SystemLive(s) && Step(s, op, cow).Some? && (cow ==> ForkGuarded(s, op))
    ensures LiveRefined(s, Step(s, op, cow).value, op)
  {
    hide LiveInv, SpaceCounted, View, Flagged;
    if op.pid in s.dirs && op.child !in s.dirs {
      var d := s.dirs[op.pid];
      assert IsDirectory(s.mem, d);
      if cow {
        CloneKeepsLiveIff(s.mem, d);
        CloneFlagged(s.mem, d);
        var (m', c) := CloneDirectory(s.mem, d).value;
        hide CloneDirectory;
        ForkShows(s, op.pid, op.child, m', c);
      } else {
        DeepCloneShows(s.mem, d);
        DeepCloneFlagged(s.mem, d);
        var (m', c) := DeepCloneDirectory(s.mem, d).value;
        hide DeepCloneDirectory;
        ForkShows(s, op.pid, op.child, m', c);
      }
    }
  }

  /** Every operation does to the views what it would do to private memory, whatever the counters say. */
  lemma StepShows(s: System, op: Op, cow: bool)
    requires SystemLive(s) && Step(s, op, cow).Some? && (cow ==> ForkGuarded(s, op))
    ensures LiveRefined(s, Step(s, op, cow).value, op)
  {
    hide LiveRefined, ForkGuarded, SystemLive, Step;
    match op
    case Spawn(_) => SpawnExitShows(s, op, cow);
    case Fork(_, _) => ForkBothShow(s, op, cow);
    case Write(_, _, _, _) => WriteShows(s, op, cow);
    case FaultIn(_, _, _) => FaultInShows(s, op, cow);
    case FaultZero(_, _) => FaultZeroShows(s, op, cow);
    case Exit(_) => SpawnExitShows(s, op, cow);
  }

  // ---------------------------------------------------------------------------------------
  // What each operation does to the counters
  // ---------------------------------------------------------------------------------------

  ghost predicate Counted(s: System, s': System) {
    Inv(s'.mem, {}, {}) && Outstanding(s'.mem) == Outstanding(s.mem)
  }

  lemma PageCounts(s: System, op: Op)
    requires (op.Write? || op.FaultIn? || op.FaultZero?) && SystemInv(s) && Guarded(s, op) && Step(s, op, true).Some?
    ensures Counted(s, Step(s, op, true).value)
  {
    hide Inv, View, Outstanding, Store, DemandMap, ZeroMap;
    if UserPage(op.page) && op.pid in s.dirs {
      var d := s.dirs[op.pid];
      assert IsDirectory(s.mem, d);
      CountedIsLive(s.mem);
      MappedIff(s.mem, d, op.page);
      hide LiveInv;
      UserSlot(s.mem, d, op.page);
      match op
      case Write(_, p, offset, value) =>
        if IsMapped(s, op.pid, p) && offset < FRAME_SIZE {
          StoreStep(s.mem, d, p.table, p.slot, offset, value);
        }
      case FaultIn(_, p, bytes) =>
        if !IsMapped(s, op.pid, p) && |bytes| == FRAME_SIZE {
          DemandMapStep(s.mem, d, p.table, p.slot, bytes);
        }
      case FaultZero(_, p) =>
        if !IsMapped(s, op.pid, p) {
          ZeroMapStep(s.mem, d, p.table, p.slot);
        }
    }
  }

  lemma DirectoryCounts(s: System, op: Op)
    requires (op.Spawn? || op.Fork? || op.Exit?) && SystemInv(s) && Step(s, op, true).Some?
    ensures Counted(s, Step(s, op, true).value)
  {
    hide Inv, View, Outstanding, NewDirectory, CloneDirectory, FreeDirectory;
    match op
    case Spawn(pid) =>
      if pid !in s.dirs { NewDirectoryStep(s.mem, s.base); }
    case Fork(pid, child) =>
      if pid in s.dirs && child !in s.dirs {
        assert IsDirectory(s.mem, s.dirs[pid]);
        CloneDirectoryStep(s.mem, s.dirs[pid]);
      }
    case Exit(pid) =>
      if pid in s.dirs {
        assert IsDirectory(s.mem, s.dirs[pid]);
        FreeDirectoryStep(s.mem, s.dirs[pid]);
      }
  }

  // ---------------------------------------------------------------------------------------
  // Main results
  // ---------------------------------------------------------------------------------------

  lemma CountedForks(s: System, op: Op)
    requires Inv(s.mem, {}, {})
    ensures ForkGuarded(s, op)
  {
    hide Inv, SpaceCounted;
    if op.Fork? && op.pid in s.dirs {
      RightCounters(s.mem, s.dirs[op.pid]);
    }
  }

  /** Every operation keeps the counters right and does to the views what it would do to private memory. */
  lemma StepRefined(s: System, op: Op)
    requires SystemInv(s) && Guarded(s, op) && Step(s, op, true).Some?
    ensures Refined(s, Step(s, op, true).value, op)
  {
    hide Inv, LiveInv, Placed, Shows, Step, Outstanding, SpaceCounted;
    CountedIsLive(s.mem);
    CountedForks(s, op);
    StepShows(s, op, true);
    if op.Spawn? || op.Fork? || op.Exit? {
      DirectoryCounts(s, op);
    } else {
      PageCounts(s, op);
    }
  }

  /**
   Copy-on-write is invisible: after any run, every process sees exactly the memory it would
   have if every fork had given the child a private copy.
   */
  lemma {:induction false} CowRunRefinesPrivate(s: System, ops: seq<Op>)
    requires SystemInv(s) && GuardedRun(s, ops) && Run(s, ops, true).Some?
    ensures var s' := Run(s, ops, true).value;
            && SystemInv(s')
            && SpacesOf(s') == PrivateRun(SpacesOf(s), ops)
            && Outstanding(s'.mem) == Outstanding(s.mem)
    decreases |ops|
  {
    if ops != [] {
      hide Inv, Placed, SpacesOf, Outstanding, Step, Guarded, PrivateStep;
      StepRefined(s, ops[0]);
      CowRunRefinesPrivate(Step(s, ops[0], true).value, ops[1..]);
    }
  }

  /** With the copying fork too, after any run and from any state whose views are sound. */
  lemma {:induction false} DeepRunRefinesPrivate(s: System, ops: seq<Op>)
    requires SystemLive(s) && Run(s, ops, false).Some?
    ensures var s' := Run(s, ops, false).value; SystemLive(s') && SpacesOf(s') == PrivateRun(SpacesOf(s), ops)
    decreases |ops|
  {
    if ops != [] {
      hide LiveInv, Placed, SpacesOf, Step, PrivateStep;
      StepShows(s, ops[0], false);
      DeepRunRefinesPrivate(Step(s, ops[0], false).value, ops[1..]);
    }
  }

  /** The sharing fork as well, as long as each fork finds the entries it shares counted. */
  lemma {:induction false} CowRunShowsPrivate(s: System, ops: seq<Op>)
    requires SystemLive(s) && ForkGuardedRun(s, ops) && Run(s, ops, true).Some?
    ensures var s' := Run(s, ops, true).value; SystemLive(s') && SpacesOf(s') == PrivateRun(SpacesOf(s), ops)
    decreases |ops|
  {
    if ops != [] {
      hide LiveInv, Placed, SpacesOf, Step, PrivateStep, ForkGuarded;
      StepShows(s, ops[0], true);
      CowRunShowsPrivate(Step(s, ops[0], true).value, ops[1..]);
    }
  }

  /** With right counters, read faults that find their page table are enough for that. */
  lemma {:induction false} GuardedForksCounted(s: System, ops: seq<Op>)
    requires SystemInv(s) && GuardedRun(s, ops)
    ensures ForkGuardedRun(s, ops)
    decreases |ops|
  {
    if ops != [] {
      hide Inv, Placed, Step, Guarded, ForkGuarded, SpacesOf, Outstanding, PrivateStep;
      CountedForks(s, ops[0]);
      if Step(s, ops[0], true).Some? {
        StepRefined(s, ops[0]);
        GuardedForksCounted(Step(s, ops[0], true).value, ops[1..]);
      }
    }
  }

  /** Forking by sharing and forking by copying give every process the same memory. */
  lemma CowRunEqualsDeepCopyRun(s: System, ops: seq<Op>)
    requires SystemLive(s) && ForkGuardedRun(s, ops)
    requires Run(s, ops, true).Some? && Run(s, ops, false).Some?
    ensures SpacesOf(Run(s, ops, true).value) == SpacesOf(Run(s, ops, false).value)
  {
    hide LiveInv, Placed, SpacesOf, Run, PrivateRun, ForkGuardedRun;
    CowRunShowsPrivate(s, ops);
    DeepRunRefinesPrivate(s, ops);
  }

  /** A page a process has mapped carries FLAG_US on both levels. */
  lemma UserPagesFlagged(s: System, pid: nat, p: Page)
    requires SystemLive(s) && UserPage(p) && IsMapped(s, pid, p)
    ensures UserBit(At(s.mem, Loc(s.dirs[pid], p.table)))
    ensures UserBit(At(s.mem, Loc(At(s.mem, Loc(s.dirs[pid], p.table)).frame, p.slot)))
  {
    hide LiveInv;
    assert IsDirectory(s.mem, s.dirs[pid]);
    UserSlot(s.mem, s.dirs[pid], p);
    LiveUserEntry(s.mem, s.dirs[pid], p.table);
    assert IsSlot(s.mem, Loc(At(s.mem, Loc(s.dirs[pid], p.table)).frame, p.slot));
  }

  lemma NoTables(s: System, f: nat)
    requires SystemInv(s) && s.dirs == map[] && f < |s.mem.frames|
    ensures !s.mem.frames[f].Directory? && !s.mem.frames[f].Table?
  {
    assert !IsDirectory(s.mem, f);
    assert CountOk(s.mem, f, {}, {});
    forall l: Loc | Names(s.mem, l, f, {})
      ensures !s.mem.frames[f].Table?
    {
      assert !IsDirectory(s.mem, l.frame);
    }
    assert s.mem.frames[f].Table? ==> Namers(s.mem, f, {}) == {};
  }

  /** With no process left, every frame handed out for user memory has been given back. */
  lemma NothingLeaks(s: System)
    requires SystemInv(s) && s.dirs == map[]
    ensures Owned(s.mem) == {}
  {
    forall f | 0 <= f < |s.mem.frames|
      ensures !s.mem.frames[f].Directory? && !s.mem.frames[f].Table?
    {
      NoTables(s, f);
    }
    forall f | 0 <= f < |s.mem.frames| && f != s.mem.zero
      ensures !s.mem.frames[f].Data?
    {
      assert CountOk(s.mem, f, {}, {});
      assert Namers(s.mem, f, {}) == {};
    }
  }

  /** Frame conservation: the allocator's count is back at its start once every process is gone. */
  lemma RunConservesFrames(s: System, ops: seq<Op>)
    requires SystemInv(s) && GuardedRun(s, ops) && Run(s, ops, true).Some?
    requires s.dirs == map[] && Run(s, ops, true).value.dirs == map[]
    ensures Run(s, ops, true).value.mem.leak == s.mem.leak
  {
    CowRunRefinesPrivate(s, ops);
    NothingLeaks(s);
    NothingLeaks(Run(s, ops, true).value);
  }
}
