/**
 What a process's view rests on, which is less than the counters being right.

 A fork that copies read-only entries does not count the copies, so frames it hands out may never
 be released again and tables nobody reaches keep their entries.  The entries that a process can
 still reach are `live`; what is stated here is about those only.  `hole` is an entry whose claim
 on its frame was already given up although it is not overwritten yet.
 */
module PagingLive {
  import opened Sets
  import opened Paging
  import opened PagingInvariant
  import opened PagingSteps

  ghost function LiveNamers(m: Mem, f: nat, live: set<Loc>): set<Loc> {
    set l | l in live && At(m, l).frame == f
  }

  ghost predicate SlotOk(m: Mem, l: Loc) {
    && IsSlot(m, l) && At(m, l).pr && At(m, l).frame < |m.frames|
    && (m.frames[l.frame].Directory? ==> m.frames[At(m, l).frame].Table?)
    && (m.frames[l.frame].Table? ==> m.frames[At(m, l).frame].Data?)
  }

  /** The counter covers the live entries and the kernel's, or there is one entry and counter 0. */
  ghost predicate LiveRule(names: nat, refs: nat, kernel: nat, all: nat) {
    && (refs >= names + kernel || (refs == 0 && kernel == 0 && names == 1))
    && (names + kernel > 0 ==> refs <= all + kernel)
  }

  ghost predicate LiveOk(m: Mem, f: nat, live: set<Loc>, hole: set<Loc>)
    requires f < |m.frames| == |m.refs|
  {
    && LiveRule(|LiveNamers(m, f, live)|, m.refs[f], KernelRefs(m, f), |Namers(m, f, hole)|)
    && (m.frames[f].Free? || m.frames[f].Directory? ==> m.refs[f] == 0)
  }

  /** A live writable entry goes with counter 0, so it is its frame's only live entry. */
  ghost predicate EntriesOk(m: Mem, live: set<Loc>, hole: set<Loc>)
    requires |m.refs| == |m.frames|
  {
    forall l :: l in live ==> SlotOk(m, l) && l !in hole && (At(m, l).rw ==> m.refs[At(m, l).frame] == 0)
  }

  ghost predicate Sound(m: Mem, live: set<Loc>, hole: set<Loc>) {
    && WellFormed(m) && FreeListOk(m)
    && EntriesOk(m, live, hole)
    && (forall f :: 0 <= f < |m.frames| ==> LiveOk(m, f, live, hole))
  }

  lemma FewerLive(m: Mem, live: set<Loc>, live': set<Loc>, hole: set<Loc>)
    requires Sound(m, live, hole) && live' <= live
    ensures Sound(m, live', hole)
  {
    forall f | 0 <= f < |m.frames|
      ensures LiveOk(m, f, live', hole)
    {
      assert LiveOk(m, f, live, hole);
      SubsetCard(LiveNamers(m, f, live'), LiveNamers(m, f, live));
    }
  }

  lemma NotInHole(m: Mem, live: set<Loc>, hole: set<Loc>)
    requires Sound(m, live, hole)
    ensures WellFormed(m) && live !! hole
  {
  }

  /** With counter 0 a live entry is its frame's only one. */
  lemma SoleLive(m: Mem, l: Loc, live: set<Loc>, hole: set<Loc>)
    requires Sound(m, live, hole) && l in live && m.refs[At(m, l).frame] == 0
    ensures LiveNamers(m, At(m, l).frame, live) == {l} && At(m, l).frame != m.zero
  {
    var f := At(m, l).frame;
    assert LiveOk(m, f, live, hole);
    assert l in LiveNamers(m, f, live);
    Singleton(LiveNamers(m, f, live), l);
  }

  lemma LiveFits(m: Mem, l: Loc, live: set<Loc>, hole: set<Loc>)
    requires Sound(m, live, hole) && l in live
    ensures m.refs[At(m, l).frame] + 2 < COUNTER_MOD
  {
    var f := At(m, l).frame;
    assert LiveOk(m, f, live, hole);
    assert l in LiveNamers(m, f, live);
    NamersBound(m, f, hole);
  }

  /** A frame keeps its rule when its entries and its counter stay what they were. */
  lemma LiveKept(m: Mem, m': Mem, f: nat, live: set<Loc>, hole: set<Loc>, hole': set<Loc>)
    requires f < |m.frames| == |m.refs| && f < |m'.frames| == |m'.refs| && LiveOk(m, f, live, hole)
    requires m'.refs[f] == m.refs[f] && m'.zero == m.zero && m'.kernelRefs == m.kernelRefs
    requires forall l :: l in live ==> At(m', l).frame == At(m, l).frame
    requires Namers(m', f, hole') == Namers(m, f, hole)
    requires m'.frames[f].Free? || m'.frames[f].Directory? ==> m'.refs[f] == 0
    ensures LiveOk(m', f, live, hole')
  {
    assert LiveNamers(m', f, live) == LiveNamers(m, f, live);
  }

  // ---------------------------------------------------------------------------------------
  // Allocation and release
  // ---------------------------------------------------------------------------------------

  ghost predicate Allocated(m: Mem, m': Mem, p: nat, k: Kind, live: set<Loc>, hole: set<Loc>) {
    && |m.refs| == |m.frames| && p < |m.frames| && m.frames[p].Free? && m.refs[p] == 0 && p != m.zero
    && m'.frames == m.frames[p := Zeroed(k)] && m'.refs == m.refs
    && m'.zero == m.zero && m'.kernelRefs == m.kernelRefs
    && Sound(m', live, hole)
    && (forall l :: l in live ==> l.frame != p && At(m, l).frame != p)
    && (forall l: Loc :: At(m', l) == if l.frame == p then NO_ENTRY else At(m, l))
    && (forall l: Loc :: l.frame != p ==> IsSlot(m', l) == IsSlot(m, l))
  }

  lemma LiveAlloc(m: Mem, k: Kind, live: set<Loc>, hole: set<Loc>)
    requires Sound(m, live, hole) && Alloc(m, k).Some?
    ensures Allocated(m, Alloc(m, k).value.0, Alloc(m, k).value.1, k, live, hole)
  {
    var (m', p) := Alloc(m, k).value;
    AllocShape(m, k);
    hide Alloc;
    AllocEntries(m, m', p, k);
    assert LiveOk(m, p, live, hole);
    forall l | l in live
      ensures l.frame != p && At(m, l).frame != p && SlotOk(m', l)
    {
      assert SlotOk(m, l);
    }
    forall f | 0 <= f < |m'.frames|
      ensures LiveOk(m', f, live, hole)
    {
      assert LiveOk(m, f, live, hole);
      assert Namers(m', f, hole) == Namers(m, f, hole);
      LiveKept(m, m', f, live, hole, hole);
    }
  }

  lemma AllocEntries(m: Mem, m': Mem, p: nat, k: Kind)
    requires p < |m.frames| && m.frames[p].Free? && m'.frames == m.frames[p := Zeroed(k)]
    ensures forall l: Loc :: At(m', l) == if l.frame == p then NO_ENTRY else At(m, l)
    ensures forall l: Loc :: l.frame != p ==> IsSlot(m', l) == IsSlot(m, l)
    ensures forall l: Loc :: l.frame == p ==> !IsSlot(m, l)
  {
  }

  lemma LiveDealloc(m: Mem, f: nat, live: set<Loc>, hole: set<Loc>)
    requires Sound(m, live, hole) && f < |m.frames| && f != m.zero && m.refs[f] == 0
    requires m.frames[f].Directory? || m.frames[f].Table? || m.frames[f].Data?
    requires NoLiveEntries(m, f) && LiveNamers(m, f, live) == {}
    ensures Sound(Dealloc(m, f), live, hole)
    ensures forall l :: l in live ==> l.frame != f && At(m, l).frame != f
    ensures forall l: Loc :: At(Dealloc(m, f), l) == if l.frame == f then NO_ENTRY else At(m, l)
    ensures forall l: Loc :: l.frame != f ==> IsSlot(Dealloc(m, f), l) == IsSlot(m, l)
  {
    var m' := Dealloc(m, f);
    DeallocFreeList(m, f);
    forall l: Loc
      ensures At(m', l) == if l.frame == f then NO_ENTRY else At(m, l)
      ensures l.frame != f ==> IsSlot(m', l) == IsSlot(m, l)
    {
    }
    forall l | l in live
      ensures l.frame != f && At(m, l).frame != f && SlotOk(m', l)
    {
      assert SlotOk(m, l);
      assert l !in LiveNamers(m, f, live);
      assert IsSlot(m, Loc(f, l.index)) && l.frame == f ==> !At(m, Loc(f, l.index)).pr;
    }
    forall g | 0 <= g < |m.frames|
      ensures LiveOk(m', g, live, hole)
    {
      assert LiveOk(m, g, live, hole);
      assert Namers(m', g, hole) == Namers(m, g, hole);
      LiveKept(m, m', g, live, hole, hole);
    }
  }

  lemma LiveSetBytes(m: Mem, f: nat, bytes: seq<int>, live: set<Loc>, hole: set<Loc>)
    requires Sound(m, live, hole) && f < |m.frames| && m.frames[f].Data? && f != m.zero && |bytes| == FRAME_SIZE
    ensures Sound(SetBytes(m, f, bytes), live, hole)
    ensures forall l: Loc :: IsSlot(SetBytes(m, f, bytes), l) == IsSlot(m, l) && At(SetBytes(m, f, bytes), l) == At(m, l)
  {
    var m' := SetBytes(m, f, bytes);
    assert forall l: Loc :: IsSlot(m', l) == IsSlot(m, l) && At(m', l) == At(m, l);
    forall l | l in live
      ensures SlotOk(m', l)
    {
      assert SlotOk(m, l);
    }
    forall g | 0 <= g < |m.frames|
      ensures LiveOk(m', g, live, hole)
    {
      assert LiveOk(m, g, live, hole);
      assert Namers(m', g, hole) == Namers(m, g, hole);
      LiveKept(m, m', g, live, hole, hole);
    }
  }

  // ---------------------------------------------------------------------------------------
  // Claims
  // ---------------------------------------------------------------------------------------

  /** Giving up the claim of the read-only live entry `l`, counted or not. */
  lemma LiveDrop(m: Mem, l: Loc, live: set<Loc>, hole: set<Loc>)
    requires Sound(m, live, hole) && l in live && !At(m, l).rw
    ensures var f := At(m, l).frame; var m' := DecRef(m, f);
            && m' == m.(refs := m.refs[f := m'.refs[f]])
            && Sound(m', live - {l}, hole + {l})
            && (Count(m', f) == 0 ==> f != m.zero && LiveNamers(m', f, live - {l}) == {})
            && (m.refs[f] == 0 ==> Count(m', f) != 0)
            && (LiveNamers(m, f, live) != {l} ==> m.refs[f] > 1)
  {
    var f := At(m, l).frame;
    var m' := DecRef(m, f);
    assert SlotOk(m, l);
    assert forall x: Loc :: IsSlot(m', x) == IsSlot(m, x) && At(m', x) == At(m, x);
    assert LiveOk(m, f, live, hole);
    var names := LiveNamers(m, f, live);
    assert l in names;
    assert LiveNamers(m', f, live - {l}) == names - {l};
    assert |names - {l}| == |names| - 1;
    assert names != {l} ==> |names - {l}| != 0;
    forall x | x in live - {l}
      ensures SlotOk(m', x) && (At(m', x).rw ==> m'.refs[At(m', x).frame] == 0)
    {
      assert SlotOk(m, x);
      if At(m, x).rw {
        SoleLive(m, x, live, hole);
        assert At(m, x).frame == f ==> l in LiveNamers(m, At(m, x).frame, live);
      }
    }
    forall g | 0 <= g < |m.frames|
      ensures LiveOk(m', g, live - {l}, hole + {l})
    {
      assert LiveOk(m, g, live, hole);
      LiveDropAt(m, m', l, live, hole, g);
    }
  }

  lemma LiveDropAt(m: Mem, m': Mem, l: Loc, live: set<Loc>, hole: set<Loc>, g: nat)
    requires |m.refs| == |m.frames| && l in live && SlotOk(m, l) && l !in hole && !At(m, l).rw
    requires m' == DecRef(m, At(m, l).frame)
    requires g < |m.frames| && LiveOk(m, g, live, hole)
    requires !m.frames[At(m, l).frame].Free? && !m.frames[At(m, l).frame].Directory?
    ensures LiveOk(m', g, live - {l}, hole + {l})
  {
    DroppedNames(m, m', l, live, hole, g);
    hide LiveNamers, Namers, At, SlotOk;
  }

  lemma DroppedNames(m: Mem, m': Mem, l: Loc, live: set<Loc>, hole: set<Loc>, g: nat)
    requires l in live && IsSlot(m, l) && At(m, l).pr && l !in hole && m'.frames == m.frames
    ensures var k := if g == At(m, l).frame then 1 else 0;
            && |LiveNamers(m, g, live)| == |LiveNamers(m', g, live - {l})| + k
            && |Namers(m, g, hole)| == |Namers(m', g, hole + {l})| + k
  {
    HoleNamers(m, m', l, hole, g);
    assert forall x: Loc :: At(m', x) == At(m, x);
    var names, all := LiveNamers(m, g, live), Namers(m, g, hole);
    assert l in all <==> g == At(m, l).frame;
    hide Namers, At;
    assert LiveNamers(m', g, live - {l}) == names - {l};
    if g == At(m, l).frame {
      assert l in names;
      RemoveOne(names, l);
      RemoveOne(all, l);
    } else {
      assert names - {l} == names && all - {l} == all;
    }
  }

  /** Giving up the claim of the writable live entry `l` leaves its frame to nobody. */
  lemma LiveDropOwned(m: Mem, l: Loc, live: set<Loc>, hole: set<Loc>)
    requires Sound(m, live, hole) && l in live && At(m, l).rw
    ensures var f := At(m, l).frame;
            && Sound(m, live - {l}, hole + {l})
            && f != m.zero && m.refs[f] == 0 && LiveNamers(m, f, live - {l}) == {}
            && LiveNamers(m, f, live) == {l}
  {
    var f := At(m, l).frame;
    assert SlotOk(m, l);
    SoleLive(m, l, live, hole);
    assert LiveNamers(m, f, live - {l}) == {};
    forall g | 0 <= g < |m.frames|
      ensures LiveOk(m, g, live - {l}, hole + {l})
    {
      assert LiveOk(m, g, live, hole);
      HoleNamers(m, m, l, hole, g);
      if g != f {
        assert LiveNamers(m, g, live - {l}) == LiveNamers(m, g, live);
        assert Namers(m, g, hole) - {l} == Namers(m, g, hole);
      }
    }
  }

  /** Overwriting the hole with an entry that is not present. */
  lemma LiveClose(m: Mem, l: Loc, e: Entry, live: set<Loc>, hole: set<Loc>)
    requires Sound(m, live, hole + {l}) && IsSlot(m, l) && l !in hole && !e.pr
    ensures Sound(SetEntry(m, l, e), live, hole)
  {
    var m' := SetEntry(m, l, e);
    SetEntryAt(m, l, e);
    SetEntryShape(m, l, e);
    forall x | x in live
      ensures SlotOk(m', x) && x != l
    {
      assert SlotOk(m, x) && x !in hole + {l};
    }
    forall g | 0 <= g < |m.frames|
      ensures LiveOk(m', g, live, hole)
    {
      assert LiveOk(m, g, live, hole + {l});
      assert Namers(m', g, hole) == Namers(m, g, hole + {l});
      LiveKept(m, m', g, live, hole + {l}, hole);
    }
  }

  /** An entry that is not present can be treated as a hole. */
  lemma LiveOpen(m: Mem, l: Loc, live: set<Loc>, hole: set<Loc>)
    requires Sound(m, live, hole) && !At(m, l).pr
    ensures Sound(m, live, hole + {l}) && l !in live
  {
    forall x | x in live
      ensures x != l
    {
      assert SlotOk(m, x);
    }
    forall g | 0 <= g < |m.frames|
      ensures LiveOk(m, g, live, hole + {l})
    {
      assert LiveOk(m, g, live, hole);
      assert Namers(m, g, hole + {l}) == Namers(m, g, hole);
    }
  }

  /** The frame of the new entry is nobody's, or its counter has room for one more reader. */
  ghost predicate Claimable(m: Mem, e: Entry, live: set<Loc>, hole: set<Loc>, kernel: nat)
    requires |m.refs| == |m.frames|
  {
    && e.pr && e.frame < |m.frames|
    && var names := LiveNamers(m, e.frame, live);
       if e.frame == m.zero then
         !e.rw && |names| + kernel + 1 <= m.refs[e.frame] <= |Namers(m, e.frame, hole)| + kernel + 1
       else names == {} && m.refs[e.frame] == 0
  }

  /** Overwriting the hole with a present entry; `kernel` references on the zero frame remain. */
  lemma LiveFill(m: Mem, l: Loc, e: Entry, live: set<Loc>, hole: set<Loc>, kernel: nat)
    requires Sound(m, live, hole + {l}) && IsSlot(m, l) && l !in hole
    requires 1 <= kernel <= 2 && Claimable(m, e, live, hole + {l}, kernel)
    requires if m.frames[l.frame].Directory? then m.frames[e.frame].Table? else m.frames[e.frame].Data?
    requires e.frame == m.zero || kernel == m.kernelRefs
    ensures Sound(SetEntry(m, l, e).(kernelRefs := kernel), live + {l}, hole)
  {
    var m1 := SetEntry(m, l, e);
    var m' := m1.(kernelRefs := kernel);
    SetEntryAt(m, l, e);
    SetEntryShape(m, l, e);
    assert WellFormed(m') && FreeListOk(m');
    hide WellFormed, FreeListOk, SetEntry;
    assert forall x: Loc :: IsSlot(m', x) == IsSlot(m1, x) && At(m', x) == At(m1, x);
    forall x | x in live + {l}
      ensures SlotOk(m', x) && x !in hole && (At(m', x).rw ==> m'.refs[At(m', x).frame] == 0)
    {
      assert x in live ==> SlotOk(m, x) && x !in hole + {l};
    }
    forall g | 0 <= g < |m.frames|
      ensures LiveOk(m', g, live + {l}, hole)
    {
      assert LiveOk(m, g, live, hole + {l});
      LiveFillAt(m, m', l, e, live, hole, kernel, g);
    }
  }

  lemma LiveFillAt(m: Mem, m': Mem, l: Loc, e: Entry, live: set<Loc>, hole: set<Loc>, kernel: nat, g: nat)
    requires |m.refs| == |m.frames| == |m'.frames| && m'.refs == m.refs && IsSlot(m, l) && l !in hole
    requires forall x :: x in live ==> x != l
    requires forall x: Loc :: IsSlot(m', x) == IsSlot(m, x)
    requires forall x: Loc :: At(m', x) == if x == l then e else At(m, x)
    requires m'.zero == m.zero && m'.kernelRefs == kernel >= 1 && (e.frame == m.zero || kernel == m.kernelRefs)
    requires Claimable(m, e, live, hole + {l}, kernel)
    requires g < |m.frames| && LiveOk(m, g, live, hole + {l})
    requires m'.frames[g].Free? == m.frames[g].Free? && m'.frames[g].Directory? == m.frames[g].Directory?
    ensures LiveOk(m', g, live + {l}, hole)
  {
    FilledNames(m, m', l, e, live, hole, g);
    hide LiveNamers, Namers;
  }

  lemma FilledNames(m: Mem, m': Mem, l: Loc, e: Entry, live: set<Loc>, hole: set<Loc>, g: nat)
    requires IsSlot(m, l) && l !in hole && e.pr && (forall x :: x in live ==> x != l)
    requires forall x: Loc :: IsSlot(m', x) == IsSlot(m, x)
    requires forall x: Loc :: At(m', x) == if x == l then e else At(m, x)
    ensures |LiveNamers(m', g, live + {l})| == |LiveNamers(m, g, live)| + (if g == e.frame then 1 else 0)
    ensures |Namers(m', g, hole)| == |Namers(m, g, hole + {l})| + (if g == e.frame then 1 else 0)
  {
    hide IsSlot, At;
    var names, all := LiveNamers(m, g, live), Namers(m, g, hole + {l});
    if g == e.frame {
      assert LiveNamers(m', g, live + {l}) == names + {l};
      assert Namers(m', g, hole) == all + {l};
    } else {
      assert LiveNamers(m', g, live + {l}) == names;
      assert Namers(m', g, hole) == all;
    }
  }

  // ---------------------------------------------------------------------------------------
  // Between operations: live is what a directory reaches
  // ---------------------------------------------------------------------------------------

  ghost function TableNamers(m: Mem, t: nat): (r: set<Loc>)
    ensures forall l: Loc :: l in r <==> Names(m, l, t, {}) && m.frames[l.frame].Directory?
  {
    set l | l in Namers(m, t, {}) && m.frames[l.frame].Directory?
  }

  ghost predicate Live(m: Mem, l: Loc) {
    IsSlot(m, l) && At(m, l).pr && (m.frames[l.frame].Table? ==> TableNamers(m, l.frame) != {})
  }

  ghost function LiveSlots(m: Mem): (r: set<Loc>)
    ensures forall l: Loc :: l in r <==> Live(m, l)
  {
    set l | l in AllLocs(|m.frames|) && Live(m, l)
  }

  /** A read-only entry with counter 0, as the read-fault path and the copying fork leave behind. */
  ghost predicate Uncounted(m: Mem, l: Loc) {
    && IsSlot(m, l) && At(m, l).pr && !At(m, l).rw
    && At(m, l).frame < |m.refs| && m.refs[At(m, l).frame] == 0
  }

  lemma UncountedBreaks(m: Mem, l: Loc)
    requires Uncounted(m, l)
    ensures !Inv(m, {}, {})
  {
    if Inv(m, {}, {}) {
      SharedFrame(m, l, {}, {});
    }
  }

  /** At most one directory entry names table `t`. */
  ghost predicate Sole(m: Mem, t: nat) {
    forall x, y :: x in TableNamers(m, t) && y in TableNamers(m, t) ==> x == y
  }

  /** Uncounted entries lie in tables of one process only. */
  ghost predicate UncountedApart(m: Mem) {
    forall l: Loc :: Live(m, l) && m.frames[l.frame].Table? && Uncounted(m, l) ==> Sole(m, l.frame)
  }

  ghost predicate LiveInv(m: Mem) {
    Sound(m, LiveSlots(m), {}) && UncountedApart(m)
  }

  lemma LiveSlotOk(m: Mem, l: Loc)
    requires LiveInv(m) && Live(m, l)
    ensures SlotOk(m, l) && l in LiveSlots(m) && WellFormed(m)
  {
    assert l in LiveSlots(m);
  }

  /** Where the counters are right, every present entry is live and counted. */
  lemma CountedIsLive(m: Mem)
    requires Inv(m, {}, {})
    ensures LiveInv(m)
  {
    var live := LiveSlots(m);
    forall l: Loc
      ensures l in live <==> IsSlot(m, l) && At(m, l).pr
    {
      if IsSlot(m, l) && At(m, l).pr && m.frames[l.frame].Table? {
        assert CountOk(m, l.frame, {}, {});
        var x :| x in Namers(m, l.frame, {});
        assert x in TableNamers(m, l.frame);
      }
    }
    forall f | 0 <= f < |m.frames|
      ensures LiveOk(m, f, live, {})
    {
      assert CountOk(m, f, {}, {});
      assert LiveNamers(m, f, live) == Namers(m, f, {});
    }
    forall l | l in live
      ensures SlotOk(m, l) && m.refs[At(m, l).frame] == 0 <==> At(m, l).rw
    {
      assert CountOk(m, At(m, l).frame, {}, {});
      assert l in Namers(m, At(m, l).frame, {});
      assert At(m, l).rw ==> l in Writers(m, At(m, l).frame, {});
      if !At(m, l).rw {
        SharedFrame(m, l, {}, {});
      }
    }
  }

  /** The same entries name the same frames; only counters, flags and bytes may differ. */
  ghost predicate SameNames(m: Mem, m': Mem) {
    && |m'.frames| == |m.frames|
    && (forall f :: 0 <= f < |m.frames| ==> m'.frames[f].Directory? == m.frames[f].Directory?)
    && (forall f :: 0 <= f < |m.frames| ==> m'.frames[f].Table? == m.frames[f].Table?)
    && (forall x: Loc :: IsSlot(m', x) == IsSlot(m, x))
    && (forall x: Loc :: IsSlot(m, x) ==> At(m', x).pr == At(m, x).pr)
    && (forall x: Loc :: IsSlot(m, x) && At(m, x).pr ==> At(m', x).frame == At(m, x).frame)
  }

  lemma SameNamesSameLive(m: Mem, m': Mem)
    requires SameNames(m, m')
    ensures LiveSlots(m') == LiveSlots(m)
    ensures forall x: Loc :: Live(m', x) == Live(m, x)
    ensures forall t: nat :: TableNamers(m', t) == TableNamers(m, t) && Sole(m', t) == Sole(m, t)
  {
    forall t: nat
      ensures TableNamers(m', t) == TableNamers(m, t)
    {
    }
  }

  lemma ApartKept(m: Mem, m': Mem)
    requires UncountedApart(m) && SameNames(m, m') && |m'.refs| == |m.refs|
    requires forall x: Loc :: IsSlot(m, x) && At(m, x).rw ==> At(m', x).rw
    requires forall f :: 0 <= f < |m.refs| && m'.refs[f] == 0 ==> m.refs[f] == 0
    ensures UncountedApart(m')
  {
    SameNamesSameLive(m, m');
    forall x: Loc | Live(m', x) && m'.frames[x.frame].Table? && Uncounted(m', x)
      ensures Sole(m', x.frame)
    {
      assert Live(m, x) && Uncounted(m, x);
    }
  }

  /** A data frame that no live entry names. */
  ghost predicate Spare(m: Mem, f: nat) {
    && f < |m.frames| == |m.refs| && m.frames[f].Data? && f != m.zero && m.refs[f] == 0
    && (forall l: Loc :: Live(m, l) ==> At(m, l).frame != f)
  }

  ghost predicate SparesKept(m: Mem, m': Mem) {
    forall f: nat :: Spare(m, f) ==> Spare(m', f) && f < |m.frames| && m'.frames[f] == m.frames[f]
  }

  // ---------------------------------------------------------------------------------------
  // Views
  // ---------------------------------------------------------------------------------------

  /** Table `t'` of the second memory maps what `t` maps in the first. */
  ghost predicate SameTable(m: Mem, t: nat, m': Mem, t': nat) {
    forall j: nat :: TableView(m', t', j, {}) == TableView(m, t, j, {})
  }

  lemma SameTablesShow(m: Mem, m': Mem)
    requires SameDirectories(m, m')
    requires forall x: Loc :: x.frame < |m.frames| && m.frames[x.frame].Directory? ==>
               && IsSlot(m', x) == IsSlot(m, x)
               && (IsSlot(m, x) ==> At(m', x).pr == At(m, x).pr)
               && (IsSlot(m, x) && At(m, x).pr ==> SameTable(m, At(m, x).frame, m', At(m', x).frame))
    ensures SameViews(m, m', {}, {})
  {
    forall d: nat, i: nat, j: nat
      ensures View(m', d, i, j, {}) == View(m, d, i, j, {})
    {
      if d < |m.frames| && m.frames[d].Directory? {
        assert IsSlot(m', Loc(d, i)) == IsSlot(m, Loc(d, i));
      }
    }
  }

  /** Entry by entry, `t'` names the data that `t` names. */
  lemma SameTableFrom(m: Mem, t: nat, m': Mem, t': nat)
    requires t < |m.frames| && m.frames[t].Table? && |m.frames[t].entries| == ENTRIES
    requires t' < |m'.frames| && m'.frames[t'].Table? && |m'.frames[t'].entries| == ENTRIES
    requires forall j: nat :: j < ENTRIES ==> At(m', Loc(t', j)).pr == At(m, Loc(t, j)).pr
    requires forall j: nat :: j < ENTRIES && At(m, Loc(t, j)).pr ==>
               && At(m', Loc(t', j)).frame < |m'.frames| && At(m, Loc(t, j)).frame < |m.frames|
               && m'.frames[At(m', Loc(t', j)).frame] == m.frames[At(m, Loc(t, j)).frame]
    ensures SameTable(m, t, m', t')
  {
  }
}
