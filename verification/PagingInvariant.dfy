/**
 The reference-count invariant of the paging code, and what each primitive step keeps of it.

 Two parameters describe a memory in the middle of an operation.  `pend` holds frames that were
 allocated, or whose last entry was dropped, and that no entry names yet or any more.  `hole`
 is an entry whose claim on its frame was already given up although it is not overwritten yet.
 Between operations `pend` is empty and there is no hole.
 */
module PagingInvariant {
  import opened Sets
  import opened Wrappers
  import opened Paging

  // ---------------------------------------------------------------------------------------
  // Who names a frame
  // ---------------------------------------------------------------------------------------

  ghost function AllLocs(n: nat): (r: set<Loc>)
    ensures forall l: Loc :: l in r <==> l.frame < n && l.index < ENTRIES
  {
    set f, i | 0 <= f < n && 0 <= i < ENTRIES :: Loc(f, i)
  }

  ghost predicate Names(m: Mem, l: Loc, f: nat, hole: set<Loc>) {
    l !in hole && IsSlot(m, l) && At(m, l).pr && At(m, l).frame == f
  }

  ghost function Namers(m: Mem, f: nat, hole: set<Loc>): (r: set<Loc>)
    ensures forall l: Loc :: l in r <==> Names(m, l, f, hole)
  {
    set l | l in AllLocs(|m.frames|) && Names(m, l, f, hole)
  }

  ghost function Writers(m: Mem, f: nat, hole: set<Loc>): (r: set<Loc>)
    ensures forall l: Loc :: l in r <==> Names(m, l, f, hole) && At(m, l).rw
  {
    set l | l in Namers(m, f, hole) && At(m, l).rw
  }

  // ---------------------------------------------------------------------------------------
  // The invariant
  // ---------------------------------------------------------------------------------------

  ghost predicate WellFormed(m: Mem) {
    && |m.refs| == |m.frames| <= MAX_FRAMES
    && m.avail <= |m.frames|
    && m.zero < |m.frames| && 1 <= m.kernelRefs <= 2
    && m.frames[m.zero] == Data(ZeroBytes())
    && (forall f :: 0 <= f < |m.frames| && (m.frames[f].Directory? || m.frames[f].Table?) ==>
                      |m.frames[f].entries| == ENTRIES)
    && (forall f :: 0 <= f < |m.frames| && m.frames[f].Data? ==> |m.frames[f].bytes| == FRAME_SIZE)
  }

  /** The allocator hands out exactly the free frames, each once. */
  ghost predicate FreeListOk(m: Mem) {
    && (forall k :: 0 <= k < |m.free| ==> m.free[k] < m.avail)
    && (forall j, k :: 0 <= j < k < |m.free| ==> m.free[j] != m.free[k])
    && (forall f :: 0 <= f < |m.frames| ==> (m.frames[f].Free? <==> f in m.free || m.avail <= f))
  }

  /** A live directory entry names a page table; a live table entry names a data frame. */
  ghost predicate Typed(m: Mem, hole: set<Loc>) {
    forall l: Loc :: IsSlot(m, l) && l !in hole && At(m, l).pr ==>
      && At(m, l).frame < |m.frames|
      && (m.frames[l.frame].Directory? ==> m.frames[At(m, l).frame].Table?)
      && (m.frames[l.frame].Table? ==> m.frames[At(m, l).frame].Data?)
  }

  ghost function KernelRefs(m: Mem, f: nat): nat {
    if f == m.zero then m.kernelRefs else 0
  }

  /**
   The counter of a frame is the number of read-only entries naming it (plus the kernel's own
   for the zero frame); a writable entry is its frame's only one and goes with counter 0.
   */
  ghost predicate CountRule(names: set<Loc>, writers: set<Loc>, refs: nat, kernel: nat, unnamed: bool) {
    && (writers != {} ==> names == writers && |writers| == 1 && refs == 0 && kernel == 0)
    && (writers == {} ==> refs == |names| + kernel)
    && (names == {} ==> unnamed || kernel > 0)
  }

  ghost predicate CountOk(m: Mem, f: nat, pend: set<nat>, hole: set<Loc>)
    requires f < |m.frames| == |m.refs|
  {
    if m.frames[f].Table? || m.frames[f].Data? then
      CountRule(Namers(m, f, hole), Writers(m, f, hole), m.refs[f], KernelRefs(m, f), f in pend)
    else
      Namers(m, f, hole) == {} && m.refs[f] == 0
  }

  ghost predicate Inv(m: Mem, pend: set<nat>, hole: set<Loc>) {
    && WellFormed(m)
    && FreeListOk(m)
    && Typed(m, hole)
    && (forall f :: 0 <= f < |m.frames| ==> CountOk(m, f, pend, hole))
  }

  /** The frames the allocator has handed out for user address spaces. */
  ghost function Owned(m: Mem): set<nat> {
    set f | 0 <= f < |m.frames| && f != m.zero &&
            (m.frames[f].Directory? || m.frames[f].Table? || m.frames[f].Data?)
  }

  ghost function Outstanding(m: Mem): int {
    m.leak - |Owned(m)|
  }

  // ---------------------------------------------------------------------------------------
  // What a directory shows
  // ---------------------------------------------------------------------------------------

  /** The contents of the page that entry `j` of table `t` maps. */
  ghost function TableView(m: Mem, t: nat, j: nat, hole: set<Loc>): Option<seq<int>> {
    var e := At(m, Loc(t, j));
    if IsSlot(m, Loc(t, j)) && m.frames[t].Table? && Loc(t, j) !in hole && e.pr &&
       e.frame < |m.frames| && m.frames[e.frame].Data?
    then Some(m.frames[e.frame].bytes) else None
  }

  /** The contents of page `j` of table `i` as directory `d` maps it. */
  ghost function View(m: Mem, d: nat, i: nat, j: nat, hole: set<Loc>): Option<seq<int>> {
    var e := At(m, Loc(d, i));
    if IsSlot(m, Loc(d, i)) && m.frames[d].Directory? && Loc(d, i) !in hole && e.pr
    then TableView(m, e.frame, j, hole) else None
  }

  ghost predicate SameView(m: Mem, m': Mem, d: nat, hole: set<Loc>) {
    forall i: nat, j: nat :: View(m', d, i, j, hole) == View(m, d, i, j, hole)
  }

  ghost predicate SameViews(m: Mem, m': Mem, hole: set<Loc>, skip: set<nat>) {
    forall d: nat :: d !in skip ==> SameView(m, m', d, hole)
  }

  // ---------------------------------------------------------------------------------------
  // Counting
  // ---------------------------------------------------------------------------------------

  lemma {:induction false} AllLocsCard(n: nat)
    ensures |AllLocs(n)| == n * ENTRIES
  {
    if n == 0 {
      assert AllLocs(0) == {};
    } else {
      AllLocsCard(n - 1);
      RowCard(n - 1, ENTRIES);
      assert AllLocs(n) == AllLocs(n - 1) + Row(n - 1, ENTRIES);
    }
  }

  ghost function Row(f: nat, k: nat): (r: set<Loc>)
    ensures forall l: Loc :: l in r <==> l.frame == f && l.index < k
  {
    set i | 0 <= i < k :: Loc(f, i)
  }

  lemma {:induction false} RowCard(f: nat, k: nat)
    ensures |Row(f, k)| == k
  {
    if k == 0 {
      assert Row(f, 0) == {};
    } else {
      RowCard(f, k - 1);
      assert Row(f, k) == Row(f, k - 1) + {Loc(f, k - 1)};
    }
  }

  /** Counters never come near 2^32, so they never wrap. */
  lemma NamersBound(m: Mem, f: nat, hole: set<Loc>)
    requires |m.frames| <= MAX_FRAMES
    ensures |Namers(m, f, hole)| + 4 < COUNTER_MOD
  {
    AllLocsCard(|m.frames|);
    SubsetCard(Namers(m, f, hole), AllLocs(|m.frames|));
  }
}
