/** The paging code as it runs: frames, counters and the free list updated in place. */
module PagingMachine {
  import opened Wrappers
  import opened Paging
  import opened PagingInvariant
  import opened PagingSteps
  import opened PagingRelease
  import opened PagingFork
  import opened PagingLive
  import opened PagingLiveCopy
  import opened PagingLiveFork
  import opened PagingLiveMap
  import opened PagingLiveRelease
  import opened PagingDeepCopy
  import opened PagingDeepCounts
  import opened PagingMap
  import opened PagingUnmap
  import opened PagingUnmapRange
  import opened PagingBoot

  /**
   kernel/physmem.cc.  Released frames form a list threaded through their own first word, here
   `next`; frame 0 stands for the null pointer that ends it.
   */
  class FrameAllocator {
    const limit: nat
    var next: seq<nat>
    var firstFree: nat
    var avail: nat
    var leakCount: int
    ghost var free: seq<nat>

    ghost predicate Valid()
      reads this
    {
      && |next| == limit && 0 < avail <= limit
      && Chain(next, firstFree, free)
      && (forall k :: 0 <= k < |free| ==> 0 < free[k] < avail)
      && (forall j, k :: 0 <= j < k < |free| ==> free[j] != free[k])
    }

    constructor (start: nat, limit: nat)
      requires 0 < start <= limit
      ensures Valid() && free == [] && avail == start && this.limit == limit && leakCount == 0
    {
      this.limit := limit;
      next := seq(limit, _ => 0);
      firstFree := 0;
      avail := start;
      leakCount := 0;
      free := [];
    }

    /** alloc_frame; None is the "no more frames" panic. */
    method AllocFrame() returns (r: Option<nat>)
      requires Valid()
      modifies this
      ensures Valid()
      ensures r.None? <==> old(free) == [] && old(avail) == limit
      ensures r.None? ==> free == old(free) && avail == old(avail) && leakCount == old(leakCount)
      ensures r.Some? && old(free) != [] ==> r.value == old(free)[0] && free == old(free)[1..] && avail == old(avail)
      ensures r.Some? && old(free) == [] ==> r.value == old(avail) && free == [] && avail == old(avail) + 1
      ensures r.Some? ==> 0 < r.value < limit && r.value !in free && r.value < avail && leakCount == old(leakCount) + 1
    {
      if firstFree != 0 {
        r := Some(firstFree);
        firstFree := next[firstFree];
        free := free[1..];
      } else {
        if avail == limit {
          return None;
        }
        r := Some(avail);
        avail := avail + 1;
      }
      leakCount := leakCount + 1;
    }

    method DeallocFrame(p: nat)
      requires Valid() && 0 < p < avail && p !in free
      modifies this
      ensures Valid() && free == [p] + old(free) && avail == old(avail) && leakCount == old(leakCount) - 1
    {
      ChainFrame(next, firstFree, free, p, firstFree);
      next := next[p := firstFree];
      firstFree := p;
      free := [p] + free;
      leakCount := leakCount - 1;
    }
  }

  /** The list that starts at `head` and follows `next` visits exactly `s` and then ends. */
  ghost predicate Chain(next: seq<nat>, head: nat, s: seq<nat>)
    decreases |s|
  {
    if s == [] then head == 0
    else head == s[0] && 0 < head < |next| && Chain(next, next[head], s[1..])
  }

  /** Writing the first word of a frame that is not on the list does not disturb it. */
  lemma {:induction false} ChainFrame(next: seq<nat>, head: nat, s: seq<nat>, p: nat, v: nat)
    requires Chain(next, head, s) && p !in s && p < |next|
    ensures Chain(next[p := v], head, s)
    decreases |s|
  {
    if s != [] {
      ChainFrame(next, next[head], s[1..], p, v);
    }
  }

  /** kernel/cow.cc and kernel/vmm.cc over one physical memory. */
  class Machine {
    const allocator: FrameAllocator
    const zero: nat
    var frames: seq<Frame>
    var refs: seq<nat>
    ghost var kernelRefs: nat

    ghost function State(): Mem
      reads this, allocator
    {
      Mem(frames, refs, allocator.free, allocator.avail, allocator.leakCount, zero, kernelRefs)
    }

    ghost predicate Valid()
      reads this, allocator
    {
      && allocator.Valid() && allocator.limit == |frames| == |refs|
      && frames[0].Kernel?
    }

    /** The state after boot: no user frame handed out, one kernel reference on the zero frame. */
    constructor (count: nat, start: nat, zeroFrame: nat)
      requires 0 < zeroFrame < start <= count <= MAX_FRAMES
      ensures Valid() && fresh(allocator) && Inv(State(), {}, {})
      ensures State() == Boot(count, start, zeroFrame)
    {
      allocator := new FrameAllocator(start, count);
      zero := zeroFrame;
      frames := seq(count, f requires 0 <= f => BootFrame(f, start, zeroFrame));
      refs := seq(count, f => if f == zeroFrame then 1 else 0);
      kernelRefs := 1;
      new;
      BootInv(count, start, zeroFrame);
    }

    /** alloc_frame followed by the use the caller puts the zeroed frame to. */
    method AllocFrame(k: Kind) returns (r: Option<nat>)
      requires Valid()
      modifies this, allocator
      ensures Valid() && kernelRefs == old(kernelRefs)
      ensures r.Some? <==> Alloc(old(State()), k).Some?
      ensures r.Some? ==> Alloc(old(State()), k) == Some((State(), r.value)) && 0 < r.value < |frames|
    {
      r := allocator.AllocFrame();
      if r.Some? {
        frames := frames[r.value := Zeroed(k)];
      }
    }

    method DeallocFrame(p: nat)
      requires Valid() && 0 < p < allocator.avail && p !in allocator.free
      modifies this, allocator
      ensures Valid() && State() == Dealloc(old(State()), p) && kernelRefs == old(kernelRefs)
    {
      allocator.DeallocFrame(p);
      frames := frames[p := Free];
    }

    method Put(l: Loc, e: Entry)
      requires Valid() && IsEntry(State(), l)
      modifies this
      ensures Valid() && State() == SetEntry(old(State()), l, e) && kernelRefs == old(kernelRefs)
    {
      var f := frames[l.frame];
      frames := frames[l.frame := f.(entries := f.entries[l.index := e])];
    }

    /** One atomic add to a counter; returns the new value as add_fetch does. */
    method AddRef(f: nat) returns (n: nat)
      requires Valid() && f < |refs|
      modifies this
      ensures Valid() && State() == IncRef(old(State()), f) && kernelRefs == old(kernelRefs) && n == refs[f]
    {
      n := (refs[f] + 1) % COUNTER_MOD;
      refs := refs[f := n];
    }

    method SubRef(f: nat) returns (n: nat)
      requires Valid() && f < |refs|
      modifies this
      ensures Valid() && State() == DecRef(old(State()), f) && kernelRefs == old(kernelRefs) && n == refs[f]
    {
      n := if refs[f] == 0 then COUNTER_MOD - 1 else refs[f] - 1;
      refs := refs[f := n];
    }

    /** COW::ref */
    method Ref(l: Loc) returns (e: Entry)
      requires Valid() && IsEntry(State(), l)
      requires At(State(), l).pr ==> At(State(), l).frame < |frames|
      modifies this
      ensures Valid() && (State(), e) == RefEntry(old(State()), l) && kernelRefs == old(kernelRefs)
    {
      e := frames[l.frame].entries[l.index];
      if !e.pr {
        return NO_ENTRY;
      }
      var f := e.frame;
      if e.rw {
        var _ := AddRef(f);
      }
      e := ReadOnly(e);
      Put(l, e);
      var _ := AddRef(f);
    }

    method ShareInto(src: nat, dst: nat, i: nat)
      requires Valid() && IsEntry(State(), Loc(src, i)) && IsEntry(State(), Loc(dst, i))
      requires At(State(), Loc(src, i)).pr ==> At(State(), Loc(src, i)).frame < |frames|
      modifies this
      ensures Valid() && State() == RefInto(old(State()), src, dst, i) && kernelRefs == old(kernelRefs)
    {
      var e := Ref(Loc(src, i));
      Put(Loc(dst, i), e);
    }

    /** The loop of COW::copy that shares every entry of table `src` with the fresh table `dst`. */
    method ShareTable(src: nat, dst: nat, ghost drop: bool, ghost live: set<Loc>, ghost hole: set<Loc>)
      requires Valid() && Sound(State(), live, hole) && LoopReady(State(), src, dst, drop, live, hole)
      modifies this
      ensures Valid() && State() == RefUpTo(old(State()), src, dst, ENTRIES) && kernelRefs == old(kernelRefs)
    {
      hide Sound, LoopReady, RefInto;
      ghost var m := State();
      for i := 0 to ENTRIES
        invariant Valid() && State() == RefUpTo(m, src, dst, i) && kernelRefs == old(kernelRefs)
      {
        ShareRound(m, src, dst, i, drop, live, hole);
        ShareInto(src, dst, i);
      }
    }

    /** The allocating half of COW::copy on the table of entry `l`: a new table that shares every page. */
    method DuplicateTable(t: nat, ghost l: Loc, ghost m: Mem) returns (r: Option<nat>)
      requires Valid() && LiveInv(m) && IsSlot(m, l) && m.frames[l.frame].Directory? && At(m, l).pr && !At(m, l).rw
      requires At(m, l).frame == t && State() == DecRef(m, t)
      modifies this, allocator
      ensures Valid() && kernelRefs == old(kernelRefs)
      ensures r.Some? <==> Alloc(old(State()), TableKind).Some?
      ensures r.Some? ==>
        && Alloc(old(State()), TableKind).value.1 == r.value
        && State() == RefUpTo(Alloc(old(State()), TableKind).value.0, t, r.value, ENTRIES)
        && IsSlot(State(), l)
    {
      hide Alloc, RefUpTo, LiveInv, Sound, LoopReady;
      ghost var m1 := State();
      r := AllocFrame(TableKind);
      if r.Some? {
        ghost var m2 := State();
        DuplicateReady(m, m1, l);
        ShareTable(t, r.value, Sole(m, t), LiveSlots(m) - {l}, {l});
        LiveLoopStep(m2, t, r.value, ENTRIES, Sole(m, t), LiveSlots(m) - {l}, {l});
      }
    }

    /** COW::copy with is_page_table set. */
    method CopyTableEntry(l: Loc) returns (ok: bool)
      requires Valid() && LiveInv(State()) && IsSlot(State(), l) && frames[l.frame].Directory?
      modifies this, allocator
      ensures Valid() && kernelRefs == old(kernelRefs)
      ensures ok <==> CopyTable(old(State()), l).Some?
      ensures ok ==> CopyTable(old(State()), l) == Some(State())
    {
      hide LiveInv, RefUpTo, Alloc;
      ghost var m := State();
      var e := frames[l.frame].entries[l.index];
      if !e.pr || e.rw {
        return true;
      }
      ReachedEntries(m, l);
      var n := SubRef(e.frame);
      if n == 0 {
        Put(l, e.(rw := true));
        return true;
      }
      var p := DuplicateTable(e.frame, l, m);
      if p.None? {
        return false;
      }
      Put(l, e.(frame := p.value, rw := true));
      return true;
    }

    method SetFrameBytes(f: nat, bytes: seq<int>)
      requires Valid() && f < |frames| && f != 0
      modifies this
      ensures Valid() && State() == SetBytes(old(State()), f, bytes) && kernelRefs == old(kernelRefs)
    {
      frames := frames[f := Data(bytes)];
    }

    /** The allocating half of COW::copy on a data frame. */
    method DuplicatePage(f: nat, ghost l: Loc) returns (r: Option<nat>)
      requires Valid() && WellFormed(State()) && FreeListOk(State()) && f < |frames| && frames[f].Data? && IsSlot(State(), l)
      modifies this, allocator
      ensures Valid() && kernelRefs == old(kernelRefs)
      ensures r.Some? <==> Alloc(old(State()), DataKind).Some?
      ensures r.Some? ==>
        && Alloc(old(State()), DataKind).value.1 == r.value
        && State() == SetBytes(Alloc(old(State()), DataKind).value.0, r.value, BytesOf(old(State()), f))
        && IsSlot(State(), l)
    {
      hide WellFormed, FreeListOk, Outstanding;
      ghost var m := State();
      r := AllocFrame(DataKind);
      if r.Some? {
        AllocShape(m, DataKind);
        SetFrameBytes(r.value, frames[f].bytes);
      }
    }

    /** COW::copy with is_page_table clear. */
    method CopyDataEntry(l: Loc) returns (ok: bool)
      requires Valid() && LiveInv(State()) && Live(State(), l) && frames[l.frame].Table?
      modifies this, allocator
      ensures Valid() && kernelRefs == old(kernelRefs)
      ensures ok <==> CopyData(old(State()), l).Some?
      ensures ok ==> CopyData(old(State()), l) == Some(State())
    {
      hide LiveInv, Alloc;
      ghost var m := State();
      var e := frames[l.frame].entries[l.index];
      if e.rw {
        return true;
      }
      LiveSlotOk(m, l);
      var n := SubRef(e.frame);
      if n == 0 {
        Put(l, e.(rw := true));
        return true;
      }
      LiveLists(m);
      var p := DuplicatePage(e.frame, l);
      if p.None? {
        return false;
      }
      Put(l, e.(frame := p.value, rw := true));
      return true;
    }

    /** The copy-on-write branch of the page-fault handler: afterwards the store can go through. */
    method HandleWriteFault(d: nat, i: nat, j: nat) returns (ok: bool)
      requires Valid() && LiveInv(State()) && View(State(), d, i, j, {}).Some?
      modifies this, allocator
      ensures Valid() && kernelRefs == old(kernelRefs)
      ensures ok <==> WriteFault(old(State()), d, i, j).Some?
      ensures ok ==> WriteFault(old(State()), d, i, j) == Some(State())
      ensures ok ==> LiveInv(State()) && SameViews(old(State()), State(), {}, {}) && MappedWritable(State(), d, i, j)
      ensures ok && Inv(old(State()), {}, {}) ==> Inv(State(), {}, {})
    {
      hide LiveInv, Inv, CopyTable, CopyData, View;
      ghost var m := State();
      if WriteFault(m, d, i, j).Some? {
        WriteFaultLive(m, d, i, j);
        if Inv(m, {}, {}) { WriteFaultStep(m, d, i, j); }
      }
      ViewIsLive(m, d, i, j);
      ok := CopyTableEntry(Loc(d, i));
      if ok {
        CopyTableLive(m, Loc(d, i));
        assert SameView(m, State(), d, {});
        ViewIsLive(State(), d, i, j);
        ok := CopyDataEntry(Loc(frames[d].entries[i].frame, j));
      }
    }

    /** COW::unref with is_page_table clear. */
    method UnrefDataEntry(l: Loc)
      requires Valid() && FreeListOk(State()) && IsEntry(State(), l)
      requires At(State(), l).pr ==> At(State(), l).frame < |frames| && frames[At(State(), l).frame].Data?
      modifies this, allocator
      ensures Valid() && State() == UnrefData(old(State()), l) && kernelRefs == old(kernelRefs)
    {
      var e := frames[l.frame].entries[l.index];
      if !e.pr {
        return;
      }
      var last := e.rw;
      if !last {
        var n := SubRef(e.frame);
        last := n == 0;
      }
      if last {
        DeallocFrame(e.frame);
      }
      Put(l, NO_ENTRY);
    }

    /** The loop of COW::unref that drops every entry of a table nobody names any more. */
    method EmptyTable(t: nat, ghost live: set<Loc>, ghost hole: set<Loc>)
      requires Valid() && Sound(State(), live, hole) && t < |frames| && frames[t].Table?
      requires forall x :: x in hole ==> x.frame != t
      requires forall i: nat :: At(State(), Loc(t, i)).pr ==> Loc(t, i) in live
      modifies this, allocator
      ensures Valid() && State() == UnrefUpTo(old(State()), t, ENTRIES) && kernelRefs == old(kernelRefs)
      ensures LiveEmptied(old(State()), State(), t, ENTRIES, live, hole)
    {
      hide Sound, LiveEmptied, UnrefData;
      ghost var m := State();
      for i := 0 to ENTRIES
        invariant Valid() && State() == UnrefUpTo(m, t, i) && kernelRefs == old(kernelRefs)
      {
        EmptyRound(m, t, i, live, hole);
        UnrefDataEntry(Loc(t, i));
      }
      UnrefUpToLive(m, t, ENTRIES, live, hole);
    }

    /** The releasing half of COW::unref on the table of entry `l`, whose claim was given up. */
    method ReleaseTable(t: nat, ghost l: Loc, ghost live: set<Loc>)
      requires Valid() && Sound(State(), live, {l}) && t < |frames| && frames[t].Table?
      requires forall i: nat :: At(State(), Loc(t, i)).pr ==> Loc(t, i) in live
      requires IsSlot(State(), l) && frames[l.frame].Directory?
      modifies this, allocator
      ensures Valid() && State() == Dealloc(UnrefUpTo(old(State()), t, ENTRIES), t) && kernelRefs == old(kernelRefs)
      ensures IsSlot(State(), l)
    {
      hide Sound;
      ghost var m := State();
      NotInHole(m, live, {l});
      EmptyTable(t, live, {l});
      SlotsKeepTables(m, State());
      ListsOf(State(), live - Row(t, ENTRIES), {l});
      assert frames[t].Table?;
      DeallocFrame(t);
    }

    /** COW::unref with is_page_table set. */
    method UnrefTableEntry(l: Loc)
      requires Valid() && LiveInv(State()) && IsSlot(State(), l) && frames[l.frame].Directory?
      modifies this, allocator
      ensures Valid() && State() == UnrefTable(old(State()), l) && kernelRefs == old(kernelRefs)
    {
      hide LiveInv, Sound, UnrefUpTo;
      ghost var m := State();
      var e := frames[l.frame].entries[l.index];
      if !e.pr {
        return;
      }
      ReachedEntries(m, l);
      DropReady(m, l);
      var last := e.rw;
      if !last {
        var n := SubRef(e.frame);
        last := n == 0;
      }
      if last {
        ReleaseTable(e.frame, l, LiveSlots(m) - {l});
      }
      Put(l, NO_ENTRY);
    }

    /** The loop of unmap_pages over the entries of the table it found. */
    method DropRange(t: nat, lo: nat, n: nat)
      requires Valid() && Inv(State(), {}, {}) && t < |frames| && frames[t].Table? && lo + n <= ENTRIES
      modifies this, allocator
      ensures Valid() && State() == UnrefRange(old(State()), t, lo, n) && kernelRefs == old(kernelRefs)
    {
      hide Inv, UnrefData;
      ghost var m := State();
      for k := 0 to n
        invariant Valid() && State() == UnrefRange(m, t, lo, k) && kernelRefs == old(kernelRefs)
      {
        DropRound(m, t, lo, k);
        UnrefDataEntry(Loc(t, lo + k));
      }
    }

    /** The loop of unmap_pages that counts the pages to keep. */
    method CountOutside(t: nat, lo: nat, hi: nat) returns (n: nat)
      requires t < |frames| && frames[t].Table? && |frames[t].entries| == ENTRIES
      ensures n > 0 <==> MapsOutside(State(), t, lo, hi)
    {
      ghost var m := State();
      n := 0;
      for j := 0 to ENTRIES
        invariant n > 0 <==> exists k: nat :: k < j && !(lo <= k <= hi) && At(m, Loc(t, k)).pr
      {
        assert frames[t].entries[j] == At(m, Loc(t, j));
        if !(lo <= j <= hi) && frames[t].entries[j].pr {
          n := n + 1;
        }
      }
    }

    /** The round of unmap_pages for a table that may have pages to keep. */
    method UnmapPart(d: nat, i: nat, lo: nat, hi: nat) returns (ok: bool)
      requires Valid() && Inv(State(), {}, {}) && IsSlot(State(), Loc(d, i)) && frames[d].Directory? && lo <= hi < ENTRIES
      modifies this, allocator
      ensures Valid() && kernelRefs == old(kernelRefs)
      ensures ok <==> UnmapTable(old(State()), d, i, lo, hi).Some?
      ensures ok ==> UnmapTable(old(State()), d, i, lo, hi) == Some(State())
      ensures ok ==> (OnlyUnmapped(old(State()), State(), d, i, lo, hi) <==> Harmless(old(State()), d, i, lo, hi))
    {
      hide Inv, LiveInv, CopyTable, UnrefTable, UnrefRange, Harmless, OnlyUnmapped, MapsOutside;
      ghost var m := State();
      CountedIsLive(m);
      if UnmapTable(m, d, i, lo, hi).Some? { UnmapTableIff(m, d, i, lo, hi); }
      var e := frames[d].entries[i];
      var outOfRange := 0;
      if e.pr {
        TableOf(m, Loc(d, i));
        outOfRange := CountOutside(e.frame, lo, hi);
      }
      if outOfRange > 0 {
        if CopyTable(m, Loc(d, i)).Some? { CopyTableKeeps(m, Loc(d, i)); }
        ok := CopyTableEntry(Loc(d, i));
        if ok {
          DropRange(e.frame, lo, hi + 1 - lo);
        }
      } else {
        UnrefTableEntry(Loc(d, i));
        ok := true;
      }
    }

    /** unmap_pages for a range of page numbers. */
    method UnmapPageRange(d: nat, first: nat, last: nat) returns (ok: bool)
      requires Valid() && Inv(State(), {}, {}) && d < |frames| && frames[d].Directory? && first <= last
      requires UserIndex(first / ENTRIES) && UserIndex(last / ENTRIES)
      modifies this, allocator
      ensures Valid() && kernelRefs == old(kernelRefs)
      ensures ok <==> UnmapPages(old(State()), d, first, last).Some?
      ensures ok ==> UnmapPages(old(State()), d, first, last) == Some(State())
      ensures ok ==> (RangeUnmapped(old(State()), State(), d, first, last, Tables(first, last)) <==>
                        HarmlessRange(old(State()), d, first, last))
    {
      hide Inv, LiveInv, UnmapTable, UnrefTable, UnmapRound, HarmlessRange, RangeUnmapped;
      ghost var m := State();
      var start, end := first / ENTRIES, last / ENTRIES;
      for i := start to end + 1
        invariant Valid() && kernelRefs == old(kernelRefs)
        invariant UnmapRounds(m, d, first, last, i - start) == Some(State())
      {
        UnmapTurn(m, d, first, last, i - start);
        ghost var m1 := State();
        if i == start || i == end {
          RangeEntries(i, 0, first, last);
          ok := UnmapPart(d, i, LowEntry(i, first), HighEntry(i, last));
          if !ok {
            UnmapRoundIs(m1, d, i, first, last);
            UnmapFails(m, d, first, last, i - start + 1, end + 1 - start);
            return;
          }
        } else {
          CountedIsLive(m1);
          UnrefTableEntry(Loc(d, i));
        }
        UnmapRoundIs(m1, d, i, first, last);
      }
      ok := true;
      UnmapPagesIff(m, d, first, last);
    }

    /** The loop of free_directory. */
    method EmptyDirectory(d: nat)
      requires Valid() && LiveInv(State()) && d < |frames| && frames[d].Directory?
      modifies this, allocator
      ensures Valid() && State() == UnrefTablesFrom(old(State()), d, USER_DIR_END) && kernelRefs == old(kernelRefs)
    {
      hide LiveInv, UnrefTable;
      ghost var m := State();
      for i := USER_DIR_START to USER_DIR_END
        invariant Valid() && State() == UnrefTablesFrom(m, d, i) && kernelRefs == old(kernelRefs)
      {
        ReleaseRound(m, d, i);
        UnrefTableEntry(Loc(d, i));
      }
    }

    /** free_directory */
    method FreeDirectoryFrame(d: nat)
      requires Valid() && LiveInv(State()) && d < |frames| && frames[d].Directory?
      modifies this, allocator
      ensures Valid() && kernelRefs == old(kernelRefs)
      ensures LiveInv(State()) && DirectoryGone(old(State()), State(), d)
      ensures Inv(old(State()), {}, {}) ==> DirectoryFreed(old(State()), State(), d)
    {
      hide LiveInv, Inv, UnrefTablesFrom;
      ghost var m := State();
      EmptyDirectory(d);
      UnrefTablesLive(m, d, USER_DIR_END);
      FreeDirectoryLive(m, d);
      if Inv(m, {}, {}) { FreeDirectoryStep(m, d); }
      LiveLists(State());
      DeallocFrame(d);
    }

    /** One round of the loop of clone_directory. */
    method ShareEntry(d: nat, c: nat, i: nat)
      requires Valid() && IsEntry(State(), Loc(d, i)) && IsEntry(State(), Loc(c, i))
      requires UserIndex(i) && At(State(), Loc(d, i)).pr ==> At(State(), Loc(d, i)).frame < |frames|
      modifies this
      ensures Valid() && State() == CloneEntry(old(State()), d, c, i) && kernelRefs == old(kernelRefs)
    {
      var e := frames[d].entries[i];
      if e.pr && UserIndex(i) {
        e := Ref(Loc(d, i));
      }
      Put(Loc(c, i), e);
    }

    /** The loop of clone_directory. */
    method ShareDirectory(d: nat, c: nat)
      requires Valid() && LiveInv(State()) && d < |frames| && frames[d].Directory?
      requires c < |frames| && frames[c].Directory? && c != d
      modifies this
      ensures Valid() && State() == CloneUpTo(old(State()), d, c, ENTRIES) && kernelRefs == old(kernelRefs)
    {
      hide LiveInv, CloneEntry;
      ghost var m := State();
      for i := 0 to ENTRIES
        invariant Valid() && State() == CloneUpTo(m, d, c, i) && kernelRefs == old(kernelRefs)
      {
        CloneRound(m, d, c, i);
        ShareEntry(d, c, i);
      }
    }

    /** clone_directory: the fork the kernel uses. */
    method CloneDirectoryFrame(d: nat) returns (r: Option<nat>)
      requires Valid() && LiveInv(State()) && d < |frames| && frames[d].Directory?
      modifies this, allocator
      ensures Valid() && kernelRefs == old(kernelRefs)
      ensures r.Some? <==> CloneDirectory(old(State()), d).Some?
      ensures r.Some? ==> CloneDirectory(old(State()), d) == Some((State(), r.value))
      ensures r.Some? ==> ForkShown(old(State()), State(), d, r.value)
      ensures r.Some? ==> (LiveInv(State()) <==> SpaceCounted(old(State()), d))
      ensures r.Some? && Inv(old(State()), {}, {}) ==> Forked(old(State()), State(), d, r.value)
    {
      hide LiveInv, Inv, SpaceCounted, Alloc, CloneUpTo;
      ghost var m := State();
      r := AllocFrame(DirectoryKind);
      if r.Some? {
        FreshDirectoryLive(m);
        CloneKeepsLiveIff(m, d);
        if Inv(m, {}, {}) { CloneDirectoryStep(m, d); }
        ShareDirectory(d, r.value);
      }
    }

    /** The inner loop of clone_directory_no_cow. */
    method CopyPages(src: nat, dst: nat, ghost live: set<Loc>) returns (ok: bool)
      requires Valid() && PagesReady(State(), src, dst, live)
      modifies this, allocator
      ensures Valid() && kernelRefs == old(kernelRefs)
      ensures ok <==> DeepPagesUpTo(old(State()), src, dst, ENTRIES).Some?
      ensures ok ==> DeepPagesUpTo(old(State()), src, dst, ENTRIES) == Some(State())
    {
      ghost var m := State();
      hide PagesReady, DeepPage;
      for j := 0 to ENTRIES
        invariant Valid() && kernelRefs == old(kernelRefs)
        invariant DeepPagesUpTo(m, src, dst, j) == Some(State())
      {
        PagesRound(m, src, dst, j, live);
        ok := CopyPage(src, dst, j);
        if !ok {
          DeepPagesFail(m, src, dst, j + 1, ENTRIES);
          return;
        }
      }
      ok := true;
    }

    method CopyPage(src: nat, dst: nat, j: nat) returns (ok: bool)
      requires Valid() && WellFormed(State()) && FreeListOk(State()) && IsSlot(State(), Loc(src, j)) && IsSlot(State(), Loc(dst, j))
      requires At(State(), Loc(src, j)).pr ==>
                 At(State(), Loc(src, j)).frame < |frames| && frames[At(State(), Loc(src, j)).frame].Data?
      modifies this, allocator
      ensures Valid() && kernelRefs == old(kernelRefs)
      ensures ok <==> DeepPage(old(State()), src, dst, j).Some?
      ensures ok ==> DeepPage(old(State()), src, dst, j) == Some(State())
    {
      hide WellFormed, FreeListOk, Outstanding;
      ghost var m := State();
      var e := frames[src].entries[j];
      if !e.pr {
        Put(Loc(dst, j), e);
        return true;
      }
      var p := AllocFrame(DataKind);
      if p.None? {
        return false;
      }
      AllocShape(m, DataKind);
      SetFrameBytes(p.value, frames[e.frame].bytes);
      Put(Loc(dst, j), e.(frame := p.value));
      return true;
    }

    /** One round of the outer loop of clone_directory_no_cow. */
    method CopyTableInFull(src: nat, dst: nat, i: nat) returns (ok: bool)
      requires Valid() && LiveInv(State()) && i < ENTRIES && src != dst
      requires src < |frames| && frames[src].Directory? && dst < |frames| && frames[dst].Directory?
      modifies this, allocator
      ensures Valid() && kernelRefs == old(kernelRefs)
      ensures ok <==> DeepTable(old(State()), src, dst, i).Some?
      ensures ok ==> DeepTable(old(State()), src, dst, i) == Some(State())
    {
      var e := frames[src].entries[i];
      assert IsEntry(State(), Loc(dst, i)) && IsEntry(State(), Loc(src, i));
      if !e.pr || !UserIndex(i) {
        Put(Loc(dst, i), e);
        return true;
      }
      assert IsSlot(State(), Loc(src, i)) && IsSlot(State(), Loc(dst, i));
      ReachedEntries(State(), Loc(src, i));
      var p := FullCopyOfTable(e.frame, Loc(dst, i));
      if p.None? {
        return false;
      }
      Put(Loc(dst, i), e.(frame := p.value));
      return true;
    }

    method FullCopyOfTable(t: nat, ghost l: Loc) returns (r: Option<nat>)
      requires Valid() && LiveInv(State()) && t < |frames| && frames[t].Table?
      requires forall j: nat :: At(State(), Loc(t, j)).pr ==> Live(State(), Loc(t, j))
      requires IsSlot(State(), l) && frames[l.frame].Directory?
      modifies this, allocator
      ensures Valid() && kernelRefs == old(kernelRefs)
      ensures r.Some? <==> var a := Alloc(old(State()), TableKind);
                           a.Some? && DeepPagesUpTo(a.value.0, t, a.value.1, ENTRIES).Some?
      ensures r.Some? ==> var a := Alloc(old(State()), TableKind).value;
                          r.value == a.1 && DeepPagesUpTo(a.0, t, a.1, ENTRIES) == Some(State()) && IsSlot(State(), l)
    {
      ghost var m := State();
      r := AllocFrame(TableKind);
      if r.Some? {
        LiveAlloc(m, TableKind, LiveSlots(m), {});
        ghost var m1 := State();
        CopyPagesReady(m, m1, t, r.value);
        var ok := CopyPages(t, r.value, LiveSlots(m));
        if ok {
          DeepPagesLive(m1, t, r.value, ENTRIES, LiveSlots(m));
        } else {
          r := None;
        }
      }
    }

    /** clone_directory_no_cow: the fork the kernel keeps as the simple version. */
    method CloneDirectoryNoCow(d: nat) returns (r: Option<nat>)
      requires Valid() && LiveInv(State()) && d < |frames| && frames[d].Directory?
      modifies this, allocator
      ensures Valid() && kernelRefs == old(kernelRefs)
      ensures r.Some? <==> DeepCloneDirectory(old(State()), d).Some?
      ensures r.Some? ==> DeepCloneDirectory(old(State()), d) == Some((State(), r.value))
      ensures r.Some? ==> LiveInv(State()) && ForkShown(old(State()), State(), d, r.value)
      ensures r.Some? && Inv(old(State()), {}, {}) ==> (Inv(State(), {}, {}) <==> SpaceWritable(old(State()), d))
    {
      ghost var m := State();
      r := AllocFrame(DirectoryKind);
      if r.Some? {
        FreshDirectoryLive(m);
        var ok := CopyTables(d, r.value);
        if ok {
          DeepCloneShows(m, d);
          if Inv(m, {}, {}) { DeepCloneKeepsCountsIff(m, d); }
        } else {
          r := None;
        }
      }
    }

    method CopyTables(d: nat, c: nat) returns (ok: bool)
      requires Valid() && LiveInv(State()) && d < |frames| && frames[d].Directory?
      requires c < |frames| && frames[c].Directory? && c != d && forall i: nat :: !At(State(), Loc(c, i)).pr
      modifies this, allocator
      ensures Valid() && kernelRefs == old(kernelRefs)
      ensures ok <==> DeepTablesUpTo(old(State()), d, c, ENTRIES).Some?
      ensures ok ==> DeepTablesUpTo(old(State()), d, c, ENTRIES) == Some(State())
    {
      hide LiveInv, DeepTable;
      ghost var m := State();
      for i := 0 to ENTRIES
        invariant Valid() && kernelRefs == old(kernelRefs)
        invariant DeepTablesUpTo(m, d, c, i) == Some(State())
      {
        DeepTablesLive(m, d, c, i);
        ok := CopyTableInFull(d, c, i);
        if !ok {
          DeepTablesFail(m, d, c, i + 1, ENTRIES);
          return;
        }
      }
      ok := true;
    }

    /** get_page_table and, when there is none, set_page_table. */
    method EnsurePageTable(d: nat, i: nat, flags: nat, rw: bool) returns (ok: bool)
      requires Valid() && LiveInv(State()) && IsSlot(State(), Loc(d, i)) && frames[d].Directory?
      modifies this, allocator
      ensures Valid() && kernelRefs == old(kernelRefs)
      ensures ok <==> EnsureTable(old(State()), d, i, flags, rw).Some?
      ensures ok ==> EnsureTable(old(State()), d, i, flags, rw) == Some(State())
    {
      hide LiveInv, CopyTable, Alloc;
      ghost var m := State();
      if CopyTable(m, Loc(d, i)).Some? { CopyTableLive(m, Loc(d, i)); }
      ok := CopyTableEntry(Loc(d, i));
      if !ok || frames[d].entries[i].pr {
        return;
      }
      ghost var m1 := State();
      var p := AllocFrame(TableKind);
      if p.None? {
        return false;
      }
      LiveLists(m1);
      AllocShape(m1, TableKind);
      assert IsEntry(State(), Loc(d, i));
      Put(Loc(d, i), Entry(p.value, flags, rw, true));
    }

    /** map_address for a fresh frame. */
    method MapFreshPage(d: nat, i: nat, j: nat, f: nat) returns (ok: bool)
      requires Valid() && LiveInv(State()) && IsSlot(State(), Loc(d, i)) && frames[d].Directory? && j < ENTRIES
      modifies this, allocator
      ensures Valid() && kernelRefs == old(kernelRefs)
      ensures ok <==> MapAddress(old(State()), d, i, j, f, FLAG_US, true).Some?
      ensures ok ==> MapAddress(old(State()), d, i, j, f, FLAG_US, true) == Some(State())
    {
      hide LiveInv, EnsureTable;
      ghost var m := State();
      ok := EnsurePageTable(d, i, FLAG_US, true);
      if ok {
        EnsuredSlot(m, d, i, j, true);
        Put(Loc(frames[d].entries[i].frame, j), Entry(f, FLAG_US, true, true));
      }
    }

    /** The demand-paging branch for a page with contents of its own. */
    method FaultInPage(d: nat, i: nat, j: nat, bytes: seq<int>) returns (ok: bool)
      requires Valid() && LiveInv(State()) && IsSlot(State(), Loc(d, i)) && frames[d].Directory? && j < ENTRIES
      requires View(State(), d, i, j, {}).None? && |bytes| == FRAME_SIZE
      modifies this, allocator
      ensures Valid() && kernelRefs == old(kernelRefs)
      ensures ok <==> DemandMap(old(State()), d, i, j, bytes).Some?
      ensures ok ==> DemandMap(old(State()), d, i, j, bytes) == Some(State())
      ensures ok ==> LiveInv(State()) && PageShown(old(State()), State(), d, i, j, bytes)
      ensures ok && Inv(old(State()), {}, {}) ==> PageUpdated(old(State()), State(), d, i, j, bytes)
    {
      hide LiveInv, Inv, Alloc, MapAddress, View;
      ghost var m := State();
      var f := AllocFrame(DataKind);
      if f.None? {
        return false;
      }
      SpareFrame(m, bytes);
      SetFrameBytes(f.value, bytes);
      ok := MapFreshPage(d, i, j, f.value);
      if ok {
        DemandMapLive(m, d, i, j, bytes);
        if Inv(m, {}, {}) { DemandMapStep(m, d, i, j, bytes); }
      }
    }

    /** The demand-paging branch for a read of a page nobody wrote: it shares the zero frame. */
    method FaultInZeroPage(d: nat, i: nat, j: nat) returns (ok: bool)
      requires Valid() && LiveInv(State()) && IsSlot(State(), Loc(d, i)) && frames[d].Directory? && j < ENTRIES
      requires View(State(), d, i, j, {}).None? && kernelRefs == 1
      modifies this, allocator
      ensures Valid() && kernelRefs == old(kernelRefs)
      ensures ok <==> ZeroMap(old(State()), d, i, j).Some?
      ensures ok ==> ZeroMap(old(State()), d, i, j) == Some(State())
      ensures ok ==> LiveInv(State()) && PageShown(old(State()), State(), d, i, j, ZeroBytes())
      ensures ok && Inv(old(State()), {}, {}) ==> (Inv(State(), {}, {}) <==> At(old(State()), Loc(d, i)).pr)
      ensures ok && Inv(old(State()), {}, {}) && At(old(State()), Loc(d, i)).pr ==>
                PageUpdated(old(State()), State(), d, i, j, ZeroBytes())
    {
      hide LiveInv, Inv, EnsureTable, View;
      ghost var m := State();
      if ZeroMap(m, d, i, j).Some? {
        ZeroMapLive(m, d, i, j);
        if Inv(m, {}, {}) { ZeroMapKeepsCountsIff(m, d, i, j); }
      }
      RefZeroLive(m);
      LiveWellFormed(m);
      var _ := AddRef(zero);
      kernelRefs := kernelRefs + 1;
      ghost var m0 := State();
      assert m0 == RefZero(m) && IsSlot(m0, Loc(d, i));
      ok := EnsurePageTable(d, i, FLAG_US, false);
      if ok {
        EnsuredSlot(m0, d, i, j, false);
        Put(Loc(frames[d].entries[i].frame, j), Entry(zero, FLAG_US, false, true));
      }
      kernelRefs := 1;
    }

    /** A user-mode store to a mapped page, with the fault it may take first. */
    method StoreByte(d: nat, i: nat, j: nat, offset: nat, v: int) returns (ok: bool)
      requires Valid() && LiveInv(State()) && View(State(), d, i, j, {}).Some? && offset < FRAME_SIZE
      modifies this, allocator
      ensures Valid() && kernelRefs == old(kernelRefs)
      ensures ok <==> Store(old(State()), d, i, j, offset, v).Some?
      ensures ok ==> Store(old(State()), d, i, j, offset, v) == Some(State())
      ensures var bytes := View(old(State()), d, i, j, {}).value[offset := v];
              && (ok ==> LiveInv(State()) && PageShown(old(State()), State(), d, i, j, bytes))
              && (ok && Inv(old(State()), {}, {}) ==> PageUpdated(old(State()), State(), d, i, j, bytes))
    {
      hide LiveInv, Inv, WriteFault, View;
      ghost var m := State();
      ViewBytes(m, d, i, j);
      ViewIsLive(m, d, i, j);
      if Store(m, d, i, j, offset, v).Some? {
        StoreLive(m, d, i, j, offset, v);
        if Inv(m, {}, {}) { StoreStep(m, d, i, j, offset, v); }
      }
      var de := frames[d].entries[i];
      if !(de.rw && frames[de.frame].entries[j].rw) {
        ok := HandleWriteFault(d, i, j);
        if !ok {
          return;
        }
        assert SameView(m, State(), d, {});
      }
      ViewBytes(State(), d, i, j);
      ViewIsLive(State(), d, i, j);
      var f := frames[frames[d].entries[i].frame].entries[j].frame;
      SetFrameBytes(f, frames[f].bytes[offset := v]);
      ok := true;
    }
  }

  lemma ShareRound(m: Mem, src: nat, dst: nat, i: nat, drop: bool, live: set<Loc>, hole: set<Loc>)
    requires Sound(m, live, hole) && LoopReady(m, src, dst, drop, live, hole) && i < ENTRIES
    ensures var m' := RefUpTo(m, src, dst, i);
            && IsEntry(m', Loc(src, i)) && IsEntry(m', Loc(dst, i)) && |m'.frames| == |m.frames| && src != dst
            && (At(m', Loc(src, i)).pr ==> At(m', Loc(src, i)).frame < |m'.frames|)
  {
    hide RefUpTo, LiveOk, NamedIn, LiveUpTo;
    LiveLoopStep(m, src, dst, i, drop, live, hole);
    assert IsSlot(m, Loc(src, i)) && IsSlot(m, Loc(dst, i));
    assert IsSlot(RefUpTo(m, src, dst, i), Loc(src, i));
    assert At(m, Loc(src, i)).pr ==> SlotOk(m, Loc(src, i));
  }

  /** After the claim of `l` is given up, its table can be shared with a fresh one. */
  lemma DuplicateReady(m: Mem, m1: Mem, l: Loc)
    requires LiveInv(m) && IsSlot(m, l) && m.frames[l.frame].Directory? && At(m, l).pr && !At(m, l).rw
    requires m1 == DecRef(m, At(m, l).frame) && Alloc(m1, TableKind).Some?
    ensures var (m2, p) := Alloc(m1, TableKind).value; var t := At(m, l).frame;
            && Sound(m2, LiveSlots(m) - {l}, {l}) && IsSlot(m2, l)
            && LoopReady(m2, t, p, Sole(m, t), LiveSlots(m) - {l}, {l})
  {
    hide Alloc, LoopReady;
    LiveSlotOk(m, l);
    LiveDrop(m, l, LiveSlots(m), {});
    assert {} + {l} == {l};
    LiveAlloc(m1, TableKind, LiveSlots(m) - {l}, {l});
    SameFramesSameEntries(m, m1);
    hide Sound;
    CopyLoopReady(m, m1, Alloc(m1, TableKind).value.0, l, Alloc(m1, TableKind).value.1);
  }

  lemma LiveLists(m: Mem)
    requires LiveInv(m)
    ensures WellFormed(m) && FreeListOk(m)
  {
  }

  lemma ListsOf(m: Mem, live: set<Loc>, hole: set<Loc>)
    requires Sound(m, live, hole)
    ensures WellFormed(m) && FreeListOk(m)
  {
  }

  /** Either way of giving up the claim of `l` leaves its table ready to be emptied. */
  lemma DropReady(m: Mem, l: Loc)
    requires LiveInv(m) && IsSlot(m, l) && m.frames[l.frame].Directory? && At(m, l).pr
    ensures var t := At(m, l).frame; var m1 := if At(m, l).rw then m else DecRef(m, t);
            && Sound(m1, LiveSlots(m) - {l}, {l})
            && (forall i: nat :: At(m1, Loc(t, i)).pr ==> Loc(t, i) in LiveSlots(m) - {l})
  {
    LiveSlotOk(m, l);
    ReachedEntries(m, l);
    assert {} + {l} == {l};
    if At(m, l).rw {
      LiveDropOwned(m, l, LiveSlots(m), {});
    } else {
      LiveDrop(m, l, LiveSlots(m), {});
      SameFramesSameEntries(m, DecRef(m, At(m, l).frame));
    }
  }

  lemma EmptyRound(m: Mem, t: nat, i: nat, live: set<Loc>, hole: set<Loc>)
    requires Sound(m, live, hole) && t < |m.frames| && m.frames[t].Table? && i < ENTRIES
    requires forall x :: x in hole ==> x.frame != t
    requires forall k: nat :: At(m, Loc(t, k)).pr ==> Loc(t, k) in live
    ensures var m' := UnrefUpTo(m, t, i);
            && IsEntry(m', Loc(t, i)) && FreeListOk(m')
            && (At(m', Loc(t, i)).pr ==>
                  At(m', Loc(t, i)).frame < |m'.frames| && m'.frames[At(m', Loc(t, i)).frame].Data?)
  {
    hide UnrefUpTo, LiveOk;
    UnrefUpToLive(m, t, i, live, hole);
    assert IsSlot(m, Loc(t, i));
    var m' := UnrefUpTo(m, t, i);
    SlotsKeepTables(m, m');
    assert At(m', Loc(t, i)).pr ==> Loc(t, i) in live - Row(t, i);
  }

  lemma PagesRound(m: Mem, src: nat, dst: nat, j: nat, live: set<Loc>)
    requires PagesReady(m, src, dst, live) && j < ENTRIES && DeepPagesUpTo(m, src, dst, j).Some?
    ensures var m' := DeepPagesUpTo(m, src, dst, j).value;
            && WellFormed(m') && FreeListOk(m') && IsSlot(m', Loc(src, j)) && IsSlot(m', Loc(dst, j))
            && (At(m', Loc(src, j)).pr ==>
                  At(m', Loc(src, j)).frame < |m'.frames| && m'.frames[At(m', Loc(src, j)).frame].Data?)
  {
    DeepPagesLive(m, src, dst, j, live);
    hide DeepPagesUpTo;
    assert IsSlot(m, Loc(src, j)) && IsSlot(m, Loc(dst, j));
    var m' := DeepPagesUpTo(m, src, dst, j).value;
    if At(m', Loc(src, j)).pr {
      assert Loc(src, j) in live + Filled(m, src, dst, j);
      assert SlotOk(m', Loc(src, j)) && SlotOk(m, Loc(src, j));
    }
  }

  lemma DropRound(m: Mem, t: nat, lo: nat, k: nat)
    requires Inv(m, {}, {}) && t < |m.frames| && m.frames[t].Table? && lo + k < ENTRIES
    ensures var m' := UnrefRange(m, t, lo, k);
            && FreeListOk(m') && IsEntry(m', Loc(t, lo + k))
            && (At(m', Loc(t, lo + k)).pr ==>
                  At(m', Loc(t, lo + k)).frame < |m'.frames| && m'.frames[At(m', Loc(t, lo + k)).frame].Data?)
  {
    hide UnrefRange;
    UnrefRangeClears(m, t, lo, k);
    ClearedTable(m, UnrefRange(m, t, lo, k), t, lo, k);
  }

  lemma TableOf(m: Mem, l: Loc)
    requires Inv(m, {}, {}) && IsSlot(m, l) && m.frames[l.frame].Directory? && At(m, l).pr
    ensures var t := At(m, l).frame; t < |m.frames| && m.frames[t].Table? && |m.frames[t].entries| == ENTRIES
  {
  }

  lemma CopyTableKeeps(m: Mem, l: Loc)
    requires Inv(m, {}, {}) && IsSlot(m, l) && m.frames[l.frame].Directory? && At(m, l).pr && CopyTable(m, l).Some?
    ensures var m' := CopyTable(m, l).value;
            Inv(m', {}, {}) && At(m, l).frame < |m'.frames| && m'.frames[At(m, l).frame].Table?
  {
    hide Inv, CopyTable;
    CopyTableStep(m, l, {});
    if At(m, l).rw || Count(m, At(m, l).frame) == 1 {
      OwnInPlace(m, l);
    } else {
      CopyTableLeaves(m, l);
    }
  }

  lemma UnmapTurn(m: Mem, d: nat, first: nat, last: nat, n: nat)
    requires Inv(m, {}, {}) && d < |m.frames| && m.frames[d].Directory? && first <= last && n < Tables(first, last)
    requires UserIndex(first / ENTRIES) && UserIndex(last / ENTRIES) && UnmapRounds(m, d, first, last, n).Some?
    ensures var m1 := UnmapRounds(m, d, first, last, n).value;
            Inv(m1, {}, {}) && IsSlot(m1, Loc(d, first / ENTRIES + n)) && m1.frames[d].Directory?
  {
    hide UnmapRounds, HarmlessRounds, RangeUnmapped;
    RoundsIff(m, d, first, last, n);
    var m1 := UnmapRounds(m, d, first, last, n).value;
    InvMeans(m1, {}, {});
    hide Inv;
    DirectorySlot(m1, d, first / ENTRIES + n);
  }

  lemma UnmapRoundIs(m: Mem, d: nat, i: nat, first: nat, last: nat)
    requires first <= last && first / ENTRIES <= i <= last / ENTRIES
    ensures LowEntry(i, first) <= HighEntry(i, last)
    ensures UnmapRound(m, d, i, first, last) ==
              if i == first / ENTRIES || i == last / ENTRIES then UnmapTable(m, d, i, LowEntry(i, first), HighEntry(i, last))
              else Some(UnrefTable(m, Loc(d, i)))
  {
    hide UnmapTable, UnrefTable;
    RangeEntries(i, 0, first, last);
  }

  lemma {:induction false} UnmapFails(m: Mem, d: nat, first: nat, last: nat, n: nat, k: nat)
    requires first <= last && n <= k <= Tables(first, last) && UnmapRounds(m, d, first, last, n).None?
    ensures UnmapRounds(m, d, first, last, k).None?
    decreases k
  {
    if n < k {
      UnmapFails(m, d, first, last, n, k - 1);
    }
  }

  lemma {:induction false} DeepPagesFail(m: Mem, src: nat, dst: nat, n: nat, k: nat)
    requires DeepPagesUpTo(m, src, dst, n).None? && n <= k
    ensures DeepPagesUpTo(m, src, dst, k).None?
    decreases k
  {
    if n < k {
      DeepPagesFail(m, src, dst, n, k - 1);
    }
  }

  lemma {:induction false} DeepTablesFail(m: Mem, src: nat, dst: nat, n: nat, k: nat)
    requires DeepTablesUpTo(m, src, dst, n).None? && n <= k
    ensures DeepTablesUpTo(m, src, dst, k).None?
    decreases k
  {
    if n < k {
      DeepTablesFail(m, src, dst, n, k - 1);
    }
  }

  lemma CloneRound(m: Mem, src: nat, dst: nat, i: nat)
    requires LiveInv(m) && src < |m.frames| && m.frames[src].Directory? && i < ENTRIES
    requires dst < |m.frames| && m.frames[dst].Directory? && src != dst
    ensures var m' := CloneUpTo(m, src, dst, i);
            && IsEntry(m', Loc(src, i)) && IsEntry(m', Loc(dst, i)) && |m'.frames| == |m.frames|
            && (UserIndex(i) && At(m', Loc(src, i)).pr ==> At(m', Loc(src, i)).frame < |m'.frames|)
  {
    hide CloneUpTo, LiveInv, OnlyUncounted, NamesNot;
    DirectoryEntries(m, src, 0);
    DirectoryEntries(m, dst, 0);
    CloneUpToTraced(m, src, dst, i);
  }

  lemma EnsuredSlot(m: Mem, d: nat, i: nat, j: nat, rw: bool)
    requires LiveInv(m) && IsSlot(m, Loc(d, i)) && m.frames[d].Directory? && j < ENTRIES
    requires EnsureTable(m, d, i, FLAG_US, rw).Some?
    ensures var m' := EnsureTable(m, d, i, FLAG_US, rw).value;
            IsEntry(m', Loc(d, i)) && IsEntry(m', Loc(At(m', Loc(d, i)).frame, j))
  {
    hide EnsureTable, LiveInv;
    EnsureTableLive(m, d, i, FLAG_US, rw);
    ReachedEntries(EnsureTable(m, d, i, FLAG_US, rw).value, Loc(d, i));
  }

  lemma ReleaseRound(m: Mem, d: nat, i: nat)
    requires LiveInv(m) && d < |m.frames| && m.frames[d].Directory? && USER_DIR_START <= i < USER_DIR_END
    ensures var m' := UnrefTablesFrom(m, d, i);
            LiveInv(m') && IsSlot(m', Loc(d, i)) && m'.frames[d].Directory?
  {
    hide UnrefTablesFrom, LiveInv;
    UnrefTablesLive(m, d, i);
    DirectoryEntries(UnrefTablesFrom(m, d, i), d, i);
  }
}
