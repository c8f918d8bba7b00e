/** What each primitive step of the paging code does to the invariant and to the views. */
module PagingSteps {
  import opened Sets
  import opened Wrappers
  import opened Paging
  import opened PagingInvariant

  /** A frame's count is in order when its entries, their flags and its counter are unchanged. */
  lemma CountKept(m: Mem, m': Mem, f: nat, pend: set<nat>, pend': set<nat>, hole: set<Loc>, hole': set<Loc>)
    requires f < |m.frames| == |m.refs| && f < |m'.frames| == |m'.refs|
    requires CountOk(m, f, pend, hole)
    requires Namers(m', f, hole') == Namers(m, f, hole)
    requires Writers(m', f, hole') == Writers(m, f, hole)
    requires m'.refs[f] == m.refs[f] && m'.zero == m.zero && m'.kernelRefs == m.kernelRefs
    requires m'.frames[f].Table? == m.frames[f].Table? && m'.frames[f].Data? == m.frames[f].Data?
    requires f in pend ==> f in pend' || Namers(m, f, hole) != {}
    ensures CountOk(m', f, pend', hole')
  {
  }

  /** Allocation takes a free frame, leaves every other frame alone and changes no view. */
  lemma AllocStep(m: Mem, k: Kind, pend: set<nat>, hole: set<Loc>)
    requires Inv(m, pend, hole) && Alloc(m, k).Some?
    ensures var (m', p) := Alloc(m, k).value;
            && p < |m.frames| && m.frames[p].Free? && m.refs[p] == 0
            && m'.frames == m.frames[p := Zeroed(k)] && m'.refs == m.refs && m'.zero == m.zero && m'.kernelRefs == m.kernelRefs
            && Namers(m', p, hole) == {}
            && Inv(m', pend + {p}, hole)
            && SameViews(m, m', hole, {})
            && Outstanding(m') == Outstanding(m)
  {
    var (m', p) := Alloc(m, k).value;
    AllocShape(m, k);
    AllocViews(m, m', p, k, hole);
    assert CountOk(m, p, pend, hole);
    hide Alloc;
    AllocCounts(m, m', p, k, pend, hole);
  }

  lemma AllocShape(m: Mem, k: Kind)
    requires WellFormed(m) && FreeListOk(m) && Alloc(m, k).Some?
    ensures var (m', p) := Alloc(m, k).value;
            && p < |m.frames| && m.frames[p].Free? && m'.frames == m.frames[p := Zeroed(k)]
            && m' == m.(frames := m'.frames, free := m'.free, avail := m'.avail, leak := m.leak + 1)
            && WellFormed(m') && FreeListOk(m') && Outstanding(m') == Outstanding(m)
  {
    hide FreeListOk;
    var (m', p) := Alloc(m, k).value;
    AllocFreeList(m, k);
    assert m'.frames == m.frames[p := Zeroed(k)];
    AllocOwned(m, m', p, k);
  }

  lemma AllocOwned(m: Mem, m': Mem, p: nat, k: Kind)
    requires WellFormed(m) && p < |m.frames| && m.frames[p].Free? && m'.frames == m.frames[p := Zeroed(k)] && m'.zero == m.zero
    ensures Owned(m') == Owned(m) + {p} && p !in Owned(m)
  {
  }

  lemma AllocFreeList(m: Mem, k: Kind)
    requires FreeListOk(m) && m.avail <= |m.frames| && Alloc(m, k).Some?
    ensures FreeListOk(Alloc(m, k).value.0)
    ensures m.frames[Alloc(m, k).value.1].Free?
  {
    if m.free != [] {
      assert m.free[0] in m.free;
      assert m.free == [m.free[0]] + m.free[1..];
    }
  }

  lemma AllocCounts(m: Mem, m': Mem, p: nat, k: Kind, pend: set<nat>, hole: set<Loc>)
    requires Inv(m, pend, hole) && p < |m.frames| && m.frames[p].Free?
    requires m'.frames == m.frames[p := Zeroed(k)] && m'.refs == m.refs && m'.zero == m.zero && m'.kernelRefs == m.kernelRefs
    ensures Namers(m', p, hole) == {}
    ensures Typed(m', hole)
    ensures forall f :: 0 <= f < |m'.frames| ==> CountOk(m', f, pend + {p}, hole)
  {
    forall l: Loc
      ensures At(m', l) == if l.frame == p then NO_ENTRY else At(m, l)
      ensures l.frame != p ==> IsSlot(m', l) == IsSlot(m, l)
    {
    }
    assert CountOk(m, p, pend, hole);
    forall f | 0 <= f < |m'.frames|
      ensures CountOk(m', f, pend + {p}, hole) && Namers(m', f, hole) == Namers(m, f, hole)
    {
      assert CountOk(m, f, pend, hole);
      assert Namers(m', f, hole) == Namers(m, f, hole);
      assert Writers(m', f, hole) == Writers(m, f, hole);
    }
  }

  lemma AllocViews(m: Mem, m': Mem, p: nat, k: Kind, hole: set<Loc>)
    requires WellFormed(m) && Typed(m, hole)
    requires p < |m.frames| && m.frames[p].Free? && m'.frames == m.frames[p := Zeroed(k)]
    ensures SameViews(m, m', hole, {})
  {
  }

  // ---------------------------------------------------------------------------------------
  // Holes
  // ---------------------------------------------------------------------------------------

  /** A frame with one read-only entry has only read-only entries. */
  lemma SharedFrame(m: Mem, l: Loc, pend: set<nat>, hole: set<Loc>)
    requires Inv(m, pend, hole) && IsSlot(m, l) && l !in hole && At(m, l).pr && !At(m, l).rw
    ensures var f := At(m, l).frame; var names := Namers(m, f, hole);
            && f < |m.frames| && l in names && (m.frames[f].Table? || m.frames[f].Data?)
            && Writers(m, f, hole) == {}
            && m.refs[f] == |names| + KernelRefs(m, f)
            && Namers(m, f, hole + {l}) == names - {l}
            && |names - {l}| == |names| - 1
  {
    var f := At(m, l).frame;
    assert CountOk(m, f, pend, hole);
    var names := Namers(m, f, hole);
    assert l in names;
    assert Writers(m, f, hole) != {} ==> l in Writers(m, f, hole);
  }

  /** Giving up a read-only entry's claim on its frame, as COW::copy and COW::unref begin. */
  lemma DropShared(m: Mem, l: Loc, pend: set<nat>, hole: set<Loc>)
    requires Inv(m, pend, hole) && IsSlot(m, l) && l !in hole && At(m, l).pr && !At(m, l).rw
    ensures var f := At(m, l).frame; var m' := DecRef(m, f);
            && f < |m.frames| && m.refs[f] > 0
            && m' == m.(refs := m.refs[f := m.refs[f] - 1])
            && (Count(m', f) == 0 <==> Namers(m', f, hole + {l}) == {} && f != m.zero)
            && Inv(m', if Count(m', f) == 0 then pend + {f} else pend, hole + {l})
            && SameViews(m, m', hole + {l}, {})
            && Outstanding(m') == Outstanding(m)
  {
    var f := At(m, l).frame;
    var m' := DecRef(m, f);
    SharedFrame(m, l, pend, hole);
    SameFramesSameViews(m, m', hole + {l});
    HoleNamers(m, m, l, hole, f);
    HoleNamers(m, m', l, hole, f);
    DropSharedKeeps(m, m', l, hole);
    hide WellFormed, FreeListOk, Typed, Namers, Writers, SameViews;
    var pend' := if Count(m', f) == 0 then pend + {f} else pend;
    forall g | 0 <= g < |m.frames|
      ensures CountOk(m', g, pend', hole + {l})
    {
      assert CountOk(m, g, pend, hole);
      DropSharedCount(m, m', l, pend, pend', hole, g);
    }
  }

  lemma DropSharedKeeps(m: Mem, m': Mem, l: Loc, hole: set<Loc>)
    requires WellFormed(m) && FreeListOk(m) && Typed(m, hole) && IsSlot(m, l)
    requires m' == m.(refs := m'.refs) && |m'.refs| == |m.refs|
    ensures WellFormed(m') && FreeListOk(m') && Typed(m', hole + {l}) && Owned(m') == Owned(m)
  {
  }

  lemma DropSharedCount(m: Mem, m': Mem, l: Loc, pend: set<nat>, pend': set<nat>, hole: set<Loc>, g: nat)
    requires IsSlot(m, l) && l !in hole && At(m, l).pr && !At(m, l).rw
    requires g < |m.frames| == |m.refs| == |m'.refs| && m' == m.(refs := m'.refs)
    requires CountOk(m, g, pend, hole)
    requires if g == At(m, l).frame then m.refs[g] == m'.refs[g] + 1 else m.refs[g] == m'.refs[g]
    requires pend <= pend' && (m'.refs[g] == 0 && g == At(m, l).frame ==> g in pend')
    requires g == At(m, l).frame ==> Writers(m, g, hole) == {}
    ensures CountOk(m', g, pend', hole + {l})
  {
    HoleNamers(m, m', l, hole, g);
    assert l in Namers(m, g, hole) <==> g == At(m, l).frame;
    assert l !in Writers(m, g, hole);
    hide Namers, Writers, At, IsSlot;
    if g == At(m, l).frame {
      assert |Namers(m, g, hole) - {l}| == |Namers(m, g, hole)| - 1;
    } else {
      assert Namers(m, g, hole) - {l} == Namers(m, g, hole);
    }
    assert Writers(m, g, hole) - {l} == Writers(m, g, hole);
  }

  lemma HoleNamers(m: Mem, m': Mem, l: Loc, hole: set<Loc>, g: nat)
    requires m'.frames == m.frames
    ensures Namers(m', g, hole + {l}) == Namers(m, g, hole) - {l}
    ensures Writers(m', g, hole + {l}) == Writers(m, g, hole) - {l}
  {
    assert forall x: Loc :: IsSlot(m', x) == IsSlot(m, x) && At(m', x) == At(m, x);
  }

  lemma SameFramesSameViews(m: Mem, m': Mem, hole: set<Loc>)
    requires m'.frames == m.frames
    ensures SameViews(m, m', hole, {})
  {
  }

  /** Giving up a writable entry's claim leaves its frame unnamed. */
  lemma DropOwned(m: Mem, l: Loc, pend: set<nat>, hole: set<Loc>)
    requires Inv(m, pend, hole) && IsSlot(m, l) && l !in hole && At(m, l).pr && At(m, l).rw
    ensures var f := At(m, l).frame;
            && f < |m.frames| && f != m.zero
            && Namers(m, f, hole + {l}) == {} && m.refs[f] == 0
            && Inv(m, pend + {f}, hole + {l})
  {
    var f := At(m, l).frame;
    assert CountOk(m, f, pend, hole);
    assert l in Namers(m, f, hole) && l in Writers(m, f, hole);
    Singleton(Writers(m, f, hole), l);
    assert Namers(m, f, hole + {l}) == {};
    forall g | 0 <= g < |m.frames|
      ensures CountOk(m, g, pend + {f}, hole + {l})
    {
      assert CountOk(m, g, pend, hole);
      if g != f {
        assert Namers(m, g, hole + {l}) == Namers(m, g, hole);
        CountKept(m, m, g, pend, pend + {f}, hole, hole + {l});
      }
    }
  }

  /** An entry that is not present can be treated as a hole. */
  lemma OpenHole(m: Mem, l: Loc, pend: set<nat>, hole: set<Loc>)
    requires Inv(m, pend, hole) && IsSlot(m, l) && l !in hole && !At(m, l).pr
    ensures Inv(m, pend, hole + {l})
    ensures forall f: nat :: Namers(m, f, hole + {l}) == Namers(m, f, hole)
    ensures forall d: nat, i: nat, j: nat :: View(m, d, i, j, hole + {l}) == View(m, d, i, j, hole)
  {
    forall f: nat
      ensures Namers(m, f, hole + {l}) == Namers(m, f, hole)
    {
    }
    forall f | 0 <= f < |m.frames|
      ensures CountOk(m, f, pend, hole + {l})
    {
      assert CountOk(m, f, pend, hole);
    }
    forall d: nat, i: nat, j: nat
      ensures View(m, d, i, j, hole + {l}) == View(m, d, i, j, hole)
    {
      assert TableView(m, At(m, Loc(d, i)).frame, j, hole + {l}) == TableView(m, At(m, Loc(d, i)).frame, j, hole);
    }
  }

  lemma SetEntryAt(m: Mem, l: Loc, e: Entry)
    requires IsEntry(m, l)
    ensures var m' := SetEntry(m, l, e);
            && |m'.frames| == |m.frames| && m'.refs == m.refs && m'.zero == m.zero && m'.kernelRefs == m.kernelRefs
            && m'.free == m.free && m'.avail == m.avail && m'.leak == m.leak
            && (forall x: Loc :: IsSlot(m', x) == IsSlot(m, x) && IsEntry(m', x) == IsEntry(m, x))
            && (forall x: Loc :: At(m', x) == if x == l then e else At(m, x))
            && (forall f :: 0 <= f < |m.frames| && f != l.frame ==> m'.frames[f] == m.frames[f])
            && m'.frames[l.frame].Directory? == m.frames[l.frame].Directory?
            && m'.frames[l.frame].Table? == m.frames[l.frame].Table?
            && Owned(m') == Owned(m)
  {
  }

  /** Writing an entry only touches the structural facts of the frame it lies in. */
  lemma SetEntryShape(m: Mem, l: Loc, e: Entry)
    requires WellFormed(m) && FreeListOk(m) && IsEntry(m, l)
    ensures WellFormed(SetEntry(m, l, e)) && FreeListOk(SetEntry(m, l, e))
  {
    SetEntryAt(m, l, e);
  }

  /** Overwriting the hole with an entry that is not present closes it. */
  lemma CloseHole(m: Mem, l: Loc, e: Entry, pend: set<nat>, hole: set<Loc>)
    requires Inv(m, pend, hole + {l}) && IsSlot(m, l) && l !in hole && !e.pr
    ensures var m' := SetEntry(m, l, e);
            && Inv(m', pend, hole)
            && (forall d: nat, i: nat, j: nat :: View(m', d, i, j, hole) == View(m, d, i, j, hole + {l}))
            && Outstanding(m') == Outstanding(m)
  {
    var m' := SetEntry(m, l, e);
    SetEntryAt(m, l, e);
    SetEntryShape(m, l, e);
    forall f | 0 <= f < |m.frames|
      ensures CountOk(m', f, pend, hole)
    {
      assert CountOk(m, f, pend, hole + {l});
      assert Namers(m', f, hole) == Namers(m, f, hole + {l});
    }
    forall d: nat, i: nat, j: nat
      ensures View(m', d, i, j, hole) == View(m, d, i, j, hole + {l})
    {
      assert TableView(m', At(m, Loc(d, i)).frame, j, hole) == TableView(m, At(m, Loc(d, i)).frame, j, hole + {l});
    }
  }

  /** Overwriting the hole with a writable entry hands it a frame nobody else names. */
  lemma FillHole(m: Mem, l: Loc, e: Entry, pend: set<nat>, hole: set<Loc>)
    requires Inv(m, pend, hole + {l}) && IsSlot(m, l) && l !in hole
    requires e.pr && e.rw && e.frame < |m.frames| && e.frame != m.zero
    requires Namers(m, e.frame, hole + {l}) == {} && m.refs[e.frame] == 0
    requires if m.frames[l.frame].Directory? then m.frames[e.frame].Table? else m.frames[e.frame].Data?
    ensures var m' := SetEntry(m, l, e);
            && Inv(m', pend - {e.frame}, hole)
            && Outstanding(m') == Outstanding(m)
  {
    var m' := SetEntry(m, l, e);
    SetEntryAt(m, l, e);
    SetEntryShape(m, l, e);
    forall f | 0 <= f < |m.frames|
      ensures CountOk(m', f, pend - {e.frame}, hole)
    {
      assert CountOk(m, f, pend, hole + {l});
      FillHoleCount(m, m', l, e, pend, hole, f);
    }
  }

  lemma FillHoleCount(m: Mem, m': Mem, l: Loc, e: Entry, pend: set<nat>, hole: set<Loc>, f: nat)
    requires IsSlot(m, l) && l !in hole && e.pr && e.rw && e.frame != m.zero == m'.zero && m'.kernelRefs == m.kernelRefs
    requires f < |m.frames| == |m.refs| == |m'.frames| && m'.refs == m.refs
    requires m'.frames[f].Table? == m.frames[f].Table? && m'.frames[f].Data? == m.frames[f].Data?
    requires forall x: Loc :: IsSlot(m', x) == IsSlot(m, x)
    requires forall x: Loc :: At(m', x) == if x == l then e else At(m, x)
    requires CountOk(m, f, pend, hole + {l})
    requires f == e.frame ==> Namers(m, f, hole + {l}) == {} && m.refs[f] == 0 && (m.frames[f].Table? || m.frames[f].Data?)
    ensures CountOk(m', f, pend - {e.frame}, hole)
  {
    if f == e.frame {
      assert Namers(m', f, hole) == {l};
      assert Writers(m', f, hole) == {l};
    } else {
      assert Namers(m', f, hole) == Namers(m, f, hole + {l});
      assert Writers(m', f, hole) == Writers(m, f, hole + {l});
      CountKept(m, m', f, pend, pend - {e.frame}, hole + {l}, hole);
    }
  }

  lemma FillHoleViews(m: Mem, l: Loc, e: Entry)
    requires WellFormed(m) && Typed(m, {l}) && IsSlot(m, l) && e.pr && e.frame < |m.frames|
    requires if m.frames[l.frame].Directory? then m.frames[e.frame].Table? else m.frames[e.frame].Data?
    ensures var m' := SetEntry(m, l, e);
            && (forall d: nat, i: nat, j: nat :: Loc(d, i) != l && At(m, Loc(d, i)).frame != l.frame ==>
                  View(m', d, i, j, {}) == View(m, d, i, j, {l}))
            && (m.frames[l.frame].Directory? ==>
                  && (forall d: nat, i: nat, j: nat :: Loc(d, i) != l ==>
                        View(m', d, i, j, {}) == View(m, d, i, j, {l}))
                  && (forall j: nat :: View(m', l.frame, l.index, j, {}) == TableView(m, e.frame, j, {l})))
            && (m.frames[l.frame].Table? ==>
                  && (forall j: nat :: j != l.index ==>
                        TableView(m', l.frame, j, {}) == TableView(m, l.frame, j, {l}))
                  && TableView(m', l.frame, l.index, {}) == Some(m.frames[e.frame].bytes))
  {
  }

  // ---------------------------------------------------------------------------------------
  // Release
  // ---------------------------------------------------------------------------------------

  ghost predicate NoLiveEntries(m: Mem, f: nat) {
    forall i: nat :: IsSlot(m, Loc(f, i)) ==> !At(m, Loc(f, i)).pr
  }

  /** Releasing a frame that nothing names and that names nothing. */
  lemma DeallocStep(m: Mem, f: nat, pend: set<nat>, hole: set<Loc>)
    requires Inv(m, pend, hole) && f < |m.frames| && f != m.zero
    requires m.frames[f].Directory? || m.frames[f].Table? || m.frames[f].Data?
    requires f < m.avail && NoLiveEntries(m, f)
    requires Namers(m, f, hole) == {} && m.refs[f] == 0
    ensures var m' := Dealloc(m, f);
            && Inv(m', pend - {f}, hole)
            && SameViews(m, m', hole, {})
            && Outstanding(m') == Outstanding(m)
  {
    DeallocCounts(m, f, pend, hole);
    DeallocFreeList(m, f);
    DeallocViews(m, f, hole);
    assert Owned(Dealloc(m, f)) == Owned(m) - {f};
  }

  lemma DeallocFreeList(m: Mem, f: nat)
    requires FreeListOk(m) && f < |m.frames| && f < m.avail && !m.frames[f].Free?
    ensures FreeListOk(Dealloc(m, f))
  {
    assert f !in m.free;
    assert forall g :: g in [f] + m.free <==> g == f || g in m.free;
  }

  lemma DeallocCounts(m: Mem, f: nat, pend: set<nat>, hole: set<Loc>)
    requires Inv(m, pend, hole) && f < |m.frames| && f != m.zero
    requires NoLiveEntries(m, f) && Namers(m, f, hole) == {} && m.refs[f] == 0
    ensures var m' := Dealloc(m, f);
            && Typed(m', hole)
            && forall g :: 0 <= g < |m.frames| ==> CountOk(m', g, pend - {f}, hole)
  {
    var m' := Dealloc(m, f);
    forall l: Loc
      ensures At(m', l) == if l.frame == f then NO_ENTRY else At(m, l)
      ensures l.frame != f ==> IsSlot(m', l) == IsSlot(m, l)
    {
    }
    forall l: Loc | IsSlot(m', l) && l !in hole && At(m', l).pr
      ensures At(m', l).frame != f
    {
      assert l !in Namers(m, f, hole);
    }
    forall g | 0 <= g < |m.frames|
      ensures CountOk(m', g, pend - {f}, hole)
    {
      assert CountOk(m, g, pend, hole);
      assert Namers(m', g, hole) == Namers(m, g, hole);
    }
  }

  lemma DeallocViews(m: Mem, f: nat, hole: set<Loc>)
    requires WellFormed(m) && f < |m.frames| && NoLiveEntries(m, f) && Namers(m, f, hole) == {}
    ensures SameViews(m, Dealloc(m, f), hole, {})
  {
    var m' := Dealloc(m, f);
    forall d: nat, i: nat, j: nat
      ensures View(m', d, i, j, hole) == View(m, d, i, j, hole)
    {
      if View(m, d, i, j, hole).Some? {
        var t := At(m, Loc(d, i)).frame;
        assert Loc(d, i) !in Namers(m, f, hole);
        assert Loc(t, j) !in Namers(m, f, hole);
        assert m'.frames[d] == m.frames[d] && m'.frames[t] == m.frames[t];
      } else {
        assert View(m', d, i, j, hole).None?;
      }
    }
  }

  // ---------------------------------------------------------------------------------------
  // Sharing
  // ---------------------------------------------------------------------------------------

  /** What RefInto does, entry by entry and counter by counter. */
  ghost predicate Shared(m: Mem, m': Mem, src: nat, dst: nat, i: nat) {
    var e := At(m, Loc(src, i));
    && |m'.frames| == |m.frames| && |m'.refs| == |m.refs|
    && m'.free == m.free && m'.avail == m.avail && m'.leak == m.leak && m'.zero == m.zero && m'.kernelRefs == m.kernelRefs
    && (forall x: Loc :: IsSlot(m', x) == IsSlot(m, x) && IsEntry(m', x) == IsEntry(m, x))
    && (forall x: Loc :: At(m', x) ==
          if x == Loc(dst, i) then (if e.pr then ReadOnly(e) else NO_ENTRY)
          else if x == Loc(src, i) then (if e.pr then ReadOnly(e) else e)
          else At(m, x))
    && (forall f :: 0 <= f < |m.frames| ==>
          && m'.frames[f].Directory? == m.frames[f].Directory?
          && m'.frames[f].Table? == m.frames[f].Table?
          && (f != src && f != dst ==> m'.frames[f] == m.frames[f]))
    && (forall f :: 0 <= f < |m.refs| ==>
          m'.refs[f] == if e.pr && f == e.frame then m.refs[f] + (if e.rw then 2 else 1) else m.refs[f])
  }

  lemma RefIntoShares(m: Mem, src: nat, dst: nat, i: nat)
    requires WellFormed(m) && IsSlot(m, Loc(src, i)) && IsSlot(m, Loc(dst, i)) && src != dst
    requires var e := At(m, Loc(src, i)); e.pr ==> e.frame < |m.frames| && m.refs[e.frame] + 2 < COUNTER_MOD
    ensures Shared(m, RefInto(m, src, dst, i), src, dst, i)
  {
    assert |m.refs| == |m.frames|;
    hide WellFormed, Owned;
    var e := At(m, Loc(src, i));
    if e.pr {
      hide SetEntry, Shared;
      var m1 := if e.rw then IncRef(m, e.frame) else m;
      var m2 := SetEntry(m1, Loc(src, i), ReadOnly(e));
      SameFramesSameEntries(m, m1);
      SetEntryAt(m1, Loc(src, i), ReadOnly(e));
      SameFramesSameEntries(m2, IncRef(m2, e.frame));
      SetEntryAt(IncRef(m2, e.frame), Loc(dst, i), ReadOnly(e));
      SharedFrom(m, m2, IncRef(m2, e.frame), RefInto(m, src, dst, i), src, dst, i);
    } else {
      SetEntryAt(m, Loc(dst, i), NO_ENTRY);
    }
  }

  lemma SameFramesSameEntries(m: Mem, m': Mem)
    requires m'.frames == m.frames
    ensures forall x: Loc :: IsSlot(m', x) == IsSlot(m, x) && IsEntry(m', x) == IsEntry(m, x) && At(m', x) == At(m, x)
  {
  }

  lemma SharedFrom(m: Mem, m2: Mem, m3: Mem, m': Mem, src: nat, dst: nat, i: nat)
    requires var e := At(m, Loc(src, i));
             && e.pr && src != dst
             && |m2.frames| == |m.frames| && (forall x: Loc :: IsSlot(m2, x) == IsSlot(m, x) && IsEntry(m2, x) == IsEntry(m, x))
             && (forall x: Loc :: At(m2, x) == if x == Loc(src, i) then ReadOnly(e) else At(m, x))
             && (forall f :: 0 <= f < |m.frames| ==>
                   && m2.frames[f].Directory? == m.frames[f].Directory? && m2.frames[f].Table? == m.frames[f].Table?
                   && (f != src ==> m2.frames[f] == m.frames[f]))
             && m3.frames == m2.frames && (forall x: Loc :: At(m3, x) == At(m2, x))
             && |m'.frames| == |m3.frames| && (forall x: Loc :: IsSlot(m', x) == IsSlot(m2, x) && IsEntry(m', x) == IsEntry(m2, x))
             && (forall x: Loc :: At(m', x) == if x == Loc(dst, i) then ReadOnly(e) else At(m3, x))
             && (forall f :: 0 <= f < |m.frames| ==>
                   && m'.frames[f].Directory? == m3.frames[f].Directory? && m'.frames[f].Table? == m3.frames[f].Table?
                   && (f != dst ==> m'.frames[f] == m3.frames[f]))
             && m'.free == m.free && m'.avail == m.avail && m'.leak == m.leak && m'.zero == m.zero && m'.kernelRefs == m.kernelRefs
             && |m'.refs| == |m.refs| == |m.frames|
             && (forall f :: 0 <= f < |m.refs| ==> m'.refs[f] == if f == e.frame then m.refs[f] + (if e.rw then 2 else 1) else m.refs[f])
    ensures Shared(m, m', src, dst, i)
  {
    hide IsSlot, IsEntry, At;
  }

  lemma RefIntoFits(m: Mem, src: nat, i: nat, pend: set<nat>, hole: set<Loc>)
    requires Inv(m, pend, hole) && IsSlot(m, Loc(src, i)) && Loc(src, i) !in hole && At(m, Loc(src, i)).pr
    ensures var f := At(m, Loc(src, i)).frame;
            && f < |m.frames| && m.refs[f] + 2 < COUNTER_MOD
            && CountRule(Namers(m, f, hole), Writers(m, f, hole), m.refs[f], KernelRefs(m, f), f in pend)
            && Loc(src, i) in Namers(m, f, hole)
            && (if At(m, Loc(src, i)).rw then Writers(m, f, hole) == {Loc(src, i)} else Writers(m, f, hole) == {})
  {
    var f := At(m, Loc(src, i)).frame;
    assert Loc(src, i) in Namers(m, f, hole);
    assert CountOk(m, f, pend, hole);
    NamersBound(m, f, hole);
    if Writers(m, f, hole) != {} {
      assert Loc(src, i) in Writers(m, f, hole);
      Singleton(Writers(m, f, hole), Loc(src, i));
    }
  }

  ghost predicate Shareable(m: Mem, src: nat, dst: nat, i: nat, hole: set<Loc>) {
    && IsSlot(m, Loc(src, i)) && IsSlot(m, Loc(dst, i)) && src != dst
    && Loc(src, i) !in hole && Loc(dst, i) !in hole && !At(m, Loc(dst, i)).pr
    && m.frames[src].Table? == m.frames[dst].Table?
  }

  lemma SharedNamers(m: Mem, m': Mem, src: nat, dst: nat, i: nat, hole: set<Loc>, g: nat)
    requires Shareable(m, src, dst, i, hole) && Shared(m, m', src, dst, i)
    ensures var e := At(m, Loc(src, i));
            if e.pr && g == e.frame then
              && Namers(m', g, hole) == Namers(m, g, hole) + {Loc(dst, i)}
              && Loc(dst, i) !in Namers(m, g, hole)
              && Writers(m', g, hole) == Writers(m, g, hole) - {Loc(src, i)}
            else
              && Namers(m', g, hole) == Namers(m, g, hole)
              && Writers(m', g, hole) == Writers(m, g, hole)
  {
  }

  lemma SharedCount(m: Mem, m': Mem, src: nat, dst: nat, i: nat, pend: set<nat>, hole: set<Loc>, g: nat)
    requires Inv(m, pend, hole) && Shareable(m, src, dst, i, hole) && Shared(m, m', src, dst, i)
    requires g < |m.frames|
    ensures CountOk(m', g, pend, hole)
  {
    SharedNamers(m, m', src, dst, i, hole, g);
    assert CountOk(m, g, pend, hole);
    if At(m, Loc(src, i)).pr && g == At(m, Loc(src, i)).frame {
      RefIntoFits(m, src, i, pend, hole);
    }
  }

  /** Sharing one entry with a fresh frame keeps the invariant and every table's view but the new entry's. */
  lemma RefIntoStep(m: Mem, src: nat, dst: nat, i: nat, pend: set<nat>, hole: set<Loc>)
    requires Inv(m, pend, hole) && Shareable(m, src, dst, i, hole)
    ensures var m' := RefInto(m, src, dst, i);
            && Shared(m, m', src, dst, i)
            && Inv(m', pend, hole)
            && Outstanding(m') == Outstanding(m)
            && (forall t: nat, j: nat :: Loc(t, j) != Loc(dst, i) ==> TableView(m', t, j, hole) == TableView(m, t, j, hole))
  {
    var m' := RefInto(m, src, dst, i);
    if At(m, Loc(src, i)).pr { RefIntoFits(m, src, i, pend, hole); }
    RefIntoShares(m, src, dst, i);
    forall g | 0 <= g < |m.frames|
      ensures CountOk(m', g, pend, hole)
    {
      SharedCount(m, m', src, dst, i, pend, hole, g);
    }
    SharedShape(m, m', src, dst, i, hole);
    SharedTables(m, m', src, dst, i, hole);
  }

  lemma SharedTables(m: Mem, m': Mem, src: nat, dst: nat, i: nat, hole: set<Loc>)
    requires Shareable(m, src, dst, i, hole) && Shared(m, m', src, dst, i)
    ensures forall t: nat, j: nat :: Loc(t, j) != Loc(dst, i) ==> TableView(m', t, j, hole) == TableView(m, t, j, hole)
  {
  }

  lemma SharedShape(m: Mem, m': Mem, src: nat, dst: nat, i: nat, hole: set<Loc>)
    requires WellFormed(m) && FreeListOk(m) && Typed(m, hole)
    requires Shareable(m, src, dst, i, hole) && Shared(m, m', src, dst, i)
    ensures WellFormed(m') && FreeListOk(m') && Typed(m', hole)
    ensures Owned(m') == Owned(m)
  {
    forall f | 0 <= f < |m'.frames| && (m'.frames[f].Directory? || m'.frames[f].Table?)
      ensures |m'.frames[f].entries| == ENTRIES
    {
      assert IsEntry(m, Loc(f, 0));
      assert IsEntry(m', Loc(f, 0));
    }
  }

  lemma SharedViews(m: Mem, m': Mem, src: nat, dst: nat, i: nat, hole: set<Loc>, skip: set<nat>)
    requires Shareable(m, src, dst, i, hole) && Shared(m, m', src, dst, i)
    requires if m.frames[dst].Directory? then dst in skip else Namers(m, dst, hole) == {}
    ensures SameViews(m, m', hole, skip)
  {
    SharedTables(m, m', src, dst, i, hole);
    forall d: nat, i': nat, j: nat | d !in skip
      ensures View(m', d, i', j, hole) == View(m, d, i', j, hole)
    {
      assert Names(m, Loc(d, i'), dst, hole) ==> Loc(d, i') in Namers(m, dst, hole);
    }
  }

  // ---------------------------------------------------------------------------------------
  // COW::copy of a page table
  // ---------------------------------------------------------------------------------------

  /** The effect of the first `n` rounds of the sharing loop on the two tables. */
  ghost predicate SharedUpTo(m: Mem, m': Mem, src: nat, dst: nat, n: nat) {
    && |m'.frames| == |m.frames| && m'.zero == m.zero && m'.kernelRefs == m.kernelRefs
    && (forall x: Loc :: IsSlot(m', x) == IsSlot(m, x))
    && (forall x: Loc :: At(m', x) ==
          if x.frame == dst && x.index < n then
            (if At(m, Loc(src, x.index)).pr then ReadOnly(At(m, Loc(src, x.index))) else NO_ENTRY)
          else if x.frame == src && x.index < n && At(m, x).pr then ReadOnly(At(m, x))
          else At(m, x))
    && (forall f :: 0 <= f < |m.frames| ==>
          && m'.frames[f].Directory? == m.frames[f].Directory?
          && m'.frames[f].Table? == m.frames[f].Table?
          && (f != src && f != dst ==> m'.frames[f] == m.frames[f]))
  }

  ghost predicate FreshTable(m: Mem, src: nat, dst: nat) {
    && src < |m.frames| && m.frames[src].Table?
    && dst < |m.frames| && m.frames[dst].Table? && src != dst
    && (forall i: nat :: !At(m, Loc(dst, i)).pr)
  }

  lemma RefRound(m: Mem, src: nat, dst: nat, i: nat, pend: set<nat>, hole: set<Loc>)
    requires Inv(m, pend, hole) && Shareable(m, src, dst, i, hole)
    requires m.frames[src].Table? && Namers(m, dst, hole) == {}
    ensures var m' := RefInto(m, src, dst, i);
            && Inv(m', pend, hole)
            && Shared(m, m', src, dst, i)
            && SameViews(m, m', hole, {})
            && Namers(m', dst, hole) == {} && m'.refs[dst] == m.refs[dst]
            && Outstanding(m') == Outstanding(m)
  {
    var m' := RefInto(m, src, dst, i);
    RefIntoStep(m, src, dst, i, pend, hole);
    SharedViews(m, m', src, dst, i, hole, {});
    SharedNamers(m, m', src, dst, i, hole, dst);
    assert At(m, Loc(src, i)).pr ==> m.frames[At(m, Loc(src, i)).frame].Data?;
  }

  ghost predicate RefLoop(m: Mem, m': Mem, src: nat, dst: nat, n: nat, pend: set<nat>, hole: set<Loc>) {
    && Inv(m', pend, hole)
    && SharedUpTo(m, m', src, dst, n)
    && SameViews(m, m', hole, {})
    && dst < |m.refs| == |m'.refs| && Namers(m', dst, hole) == {} && m'.refs[dst] == m.refs[dst]
    && Outstanding(m') == Outstanding(m)
  }

  lemma RefLoopStart(m: Mem, src: nat, dst: nat, pend: set<nat>, hole: set<Loc>)
    requires Inv(m, pend, hole) && FreshTable(m, src, dst) && Namers(m, dst, hole) == {}
    ensures RefLoop(m, m, src, dst, 0, pend, hole)
  {
  }

  lemma RefLoopNext(m: Mem, m1: Mem, src: nat, dst: nat, i: nat, pend: set<nat>, hole: set<Loc>)
    requires FreshTable(m, src, dst) && i < ENTRIES && Inv(m, pend, hole)
    requires forall x :: x in hole ==> x.frame != src && x.frame != dst
    requires RefLoop(m, m1, src, dst, i, pend, hole)
    ensures RefLoop(m, RefInto(m1, src, dst, i), src, dst, i + 1, pend, hole)
  {
    assert IsSlot(m, Loc(src, i)) && IsSlot(m, Loc(dst, i));
    assert Shareable(m1, src, dst, i, hole);
    hide Inv, WellFormed, FreshTable, Shareable, RefInto;
    RefRound(m1, src, dst, i, pend, hole);
    SharedUpToNext(m, m1, RefInto(m1, src, dst, i), src, dst, i + 1);
    SameViewsTrans(m, m1, RefInto(m1, src, dst, i), hole, {});
  }

  lemma {:induction false} RefUpToStep(m: Mem, src: nat, dst: nat, n: nat, pend: set<nat>, hole: set<Loc>)
    requires Inv(m, pend, hole) && FreshTable(m, src, dst) && n <= ENTRIES
    requires forall x :: x in hole ==> x.frame != src && x.frame != dst
    requires Namers(m, dst, hole) == {}
    ensures RefLoop(m, RefUpTo(m, src, dst, n), src, dst, n, pend, hole)
  {
    hide RefLoop, Inv, FreshTable, Namers, RefInto;
    if n == 0 {
      RefLoopStart(m, src, dst, pend, hole);
    } else {
      RefUpToStep(m, src, dst, n - 1, pend, hole);
      RefLoopNext(m, RefUpTo(m, src, dst, n - 1), src, dst, n - 1, pend, hole);
    }
  }

  lemma SameViewsTrans(m: Mem, m1: Mem, m2: Mem, hole: set<Loc>, skip: set<nat>)
    requires SameViews(m, m1, hole, skip) && SameViews(m1, m2, hole, skip)
    ensures SameViews(m, m2, hole, skip)
  {
  }

  lemma SharedUpToNext(m: Mem, m1: Mem, m': Mem, src: nat, dst: nat, n: nat)
    requires n > 0 && src != dst
    requires SharedUpTo(m, m1, src, dst, n - 1) && Shared(m1, m', src, dst, n - 1)
    ensures SharedUpTo(m, m', src, dst, n)
  {
  }

  ghost predicate SameDirectories(m: Mem, m': Mem) {
    && |m'.frames| == |m.frames| && m'.zero == m.zero && m'.kernelRefs == m.kernelRefs
    && (forall f :: 0 <= f < |m.frames| ==> m'.frames[f].Directory? == m.frames[f].Directory?)
  }

  /** Page `j` of table `i` of directory `d` now holds `bytes`; no other page of anyone changed. */
  ghost predicate PageShown(m: Mem, m': Mem, d: nat, i: nat, j: nat, bytes: seq<int>) {
    && SameDirectories(m, m')
    && (forall d': nat, i': nat, j': nat :: View(m', d', i', j', {}) ==
          if d' == d && i' == i && j' == j then Some(bytes) else View(m, d', i', j', {}))
  }

  /** One page changed after steps that changed none. */
  lemma PageShownAfter(m: Mem, m1: Mem, m': Mem, d: nat, i: nat, j: nat, bytes: seq<int>)
    requires SameViews(m, m1, {}, {}) && SameDirectories(m, m1) && PageShown(m1, m', d, i, j, bytes)
    ensures PageShown(m, m', d, i, j, bytes)
  {
    hide View;
    forall d': nat, i': nat, j': nat
      ensures View(m', d', i', j', {}) ==
              if d' == d && i' == i && j' == j then Some(bytes) else View(m, d', i', j', {})
    {
      assert SameView(m, m1, d', {});
    }
  }

  /** Redirecting a directory entry to a table with the same contents changes no view. */
  lemma Redirect(m: Mem, m': Mem, l: Loc, e: Entry)
    requires WellFormed(m') && Typed(m', {l}) && IsSlot(m, l) && IsSlot(m', l)
    requires m.frames[l.frame].Directory? && m'.frames[l.frame].Directory? && At(m, l).pr
    requires e.pr && e.frame < |m'.frames| && m'.frames[e.frame].Table?
    requires SameViews(m, m', {l}, {})
    requires forall j: nat :: TableView(m', e.frame, j, {l}) == TableView(m, At(m, l).frame, j, {l})
    ensures SameViews(m, SetEntry(m', l, e), {}, {})
  {
    FillHoleViews(m', l, e);
    DirectoryHole(m, l);
    forall d: nat
      ensures SameView(m, SetEntry(m', l, e), d, {})
    {
      assert SameView(m, m', d, {l});
    }
  }

  lemma DirectoryHole(m: Mem, l: Loc)
    requires IsSlot(m, l) && m.frames[l.frame].Directory?
    ensures forall t: nat, j: nat :: TableView(m, t, j, {l}) == TableView(m, t, j, {})
    ensures forall d: nat, i: nat, j: nat :: Loc(d, i) != l ==> View(m, d, i, j, {l}) == View(m, d, i, j, {})
  {
  }

  /** What COW::copy guarantees about the entry it is called on. */
  ghost predicate Privatised(m: Mem, m': Mem, l: Loc, pend: set<nat>) {
    && Inv(m', pend, {})
    && SameViews(m, m', {}, {})
    && SameDirectories(m, m')
    && Outstanding(m') == Outstanding(m)
    && IsSlot(m', l) && At(m', l).pr == At(m, l).pr && (At(m', l).pr ==> At(m', l).rw)
    && (forall x: Loc :: x != l && IsSlot(m, x) && m.frames[x.frame].Directory? ==> At(m', x) == At(m, x))
  }

  lemma InvMeans(m: Mem, pend: set<nat>, hole: set<Loc>)
    requires Inv(m, pend, hole)
    ensures WellFormed(m) && FreeListOk(m) && Typed(m, hole)
    ensures forall d: nat, i: nat :: d < |m.frames| && m.frames[d].Directory? && i < ENTRIES ==> IsEntry(m, Loc(d, i))
    ensures forall t: nat, j: nat :: t < |m.frames| && m.frames[t].Table? && j < ENTRIES ==> IsSlot(m, Loc(t, j))
  {
  }

  lemma InvWeaken(m: Mem, pend: set<nat>, pend': set<nat>, hole: set<Loc>)
    requires Inv(m, pend, hole) && pend <= pend'
    ensures Inv(m, pend', hole)
  {
    forall f | 0 <= f < |m.frames|
      ensures CountOk(m, f, pend', hole)
    {
      assert CountOk(m, f, pend, hole);
    }
  }

  lemma CopyTableInPlace(m: Mem, l: Loc, pend: set<nat>)
    requires Inv(m, pend, {}) && IsSlot(m, l) && m.frames[l.frame].Directory?
    requires At(m, l).pr && !At(m, l).rw && Count(DecRef(m, At(m, l).frame), At(m, l).frame) == 0
    ensures Privatised(m, SetEntry(DecRef(m, At(m, l).frame), l, At(m, l).(rw := true)), l, pend)
  {
    var e := At(m, l);
    var m1 := DecRef(m, e.frame);
    DropShared(m, l, pend, {});
    assert {} + {l} == {l};
    assert At(m1, l) == e && IsSlot(m1, l);
    FillHole(m1, l, e.(rw := true), pend + {e.frame}, {});
    InvWeaken(SetEntry(m1, l, e.(rw := true)), pend + {e.frame} - {e.frame}, pend, {});
    SetEntryAt(m1, l, e.(rw := true));
    SameFramesSameTables(m, m1, {l});
    Redirect(m, m1, l, e.(rw := true));
  }

  lemma SameFramesSameTables(m: Mem, m': Mem, hole: set<Loc>)
    requires m'.frames == m.frames
    ensures forall t: nat, j: nat :: TableView(m', t, j, hole) == TableView(m, t, j, hole)
  {
  }

  /** The table the loop filled maps the same pages as the table it was filled from. */
  lemma SharedTableView(m: Mem, m': Mem, src: nat, dst: nat, hole: set<Loc>)
    requires FreshTable(m, src, dst) && WellFormed(m) && SharedUpTo(m, m', src, dst, ENTRIES)
    requires forall x :: x in hole ==> x.frame != src && x.frame != dst
    ensures forall j: nat :: TableView(m', dst, j, hole) == TableView(m, src, j, hole)
  {
    forall j: nat
      ensures TableView(m', dst, j, hole) == TableView(m, src, j, hole)
    {
      assert IsSlot(m', Loc(dst, j)) == IsSlot(m, Loc(dst, j)) == IsSlot(m, Loc(src, j));
    }
  }

  lemma CopyTableFresh(m: Mem, l: Loc, pend: set<nat>)
    requires Inv(m, pend, {}) && IsSlot(m, l) && m.frames[l.frame].Directory?
    requires At(m, l).pr && !At(m, l).rw && Count(DecRef(m, At(m, l).frame), At(m, l).frame) != 0
    requires CopyTable(m, l).Some?
    ensures Privatised(m, CopyTable(m, l).value, l, pend)
  {
    var e := At(m, l);
    var m1 := DecRef(m, e.frame);
    DropShared(m, l, pend, {});
    assert {} + {l} == {l};
    assert m1.frames == m.frames;
    var (m2, p) := Alloc(m1, TableKind).value;
    AllocStep(m1, TableKind, pend, {l});
    var m3 := RefUpTo(m2, e.frame, p, ENTRIES);
    assert FreshTable(m2, e.frame, p);
    RefUpToStep(m2, e.frame, p, ENTRIES, pend + {p}, {l});
    CopyTableEnd(m, m1, m2, m3, l, p, pend);
  }

  lemma CopyTableEnd(m: Mem, m1: Mem, m2: Mem, m3: Mem, l: Loc, p: nat, pend: set<nat>)
    requires Inv(m, pend, {}) && IsSlot(m, l) && m.frames[l.frame].Directory? && At(m, l).pr
    requires m1.frames == m.frames && SameViews(m, m1, {l}, {}) && m1.zero == m.zero && m1.kernelRefs == m.kernelRefs
    requires p < |m.frames| && m.frames[p].Free?
    requires m2.frames == m.frames[p := Zeroed(TableKind)] && SameViews(m1, m2, {l}, {}) && m2.zero == m.zero && m2.kernelRefs == m.kernelRefs
    requires Inv(m2, pend + {p}, {l}) && p < |m2.refs| && m2.refs[p] == 0
    requires RefLoop(m2, m3, At(m, l).frame, p, ENTRIES, pend + {p}, {l})
    requires Outstanding(m2) == Outstanding(m)
    ensures Privatised(m, SetEntry(m3, l, At(m, l).(frame := p, rw := true)), l, pend)
  {
    var e' := At(m, l).(frame := p, rw := true);
    CopyTableEndInv(m, m2, m3, l, p, pend);
    CopyTableEndViews(m, m1, m2, m3, l, p, pend);
    hide Inv, SameViews, Outstanding;
    assert IsSlot(m2, l) && IsSlot(m3, l);
    SetEntryAt(m3, l, e');
  }

  lemma CopyTableEndInv(m: Mem, m2: Mem, m3: Mem, l: Loc, p: nat, pend: set<nat>)
    requires IsSlot(m, l) && m.frames[l.frame].Directory? && At(m, l).pr && p < |m.frames| && m.frames[p].Free?
    requires m2.frames == m.frames[p := Zeroed(TableKind)] && p < |m2.refs| && m2.refs[p] == 0 && Inv(m2, pend + {p}, {l})
    requires RefLoop(m2, m3, At(m, l).frame, p, ENTRIES, pend + {p}, {l})
    ensures var m' := SetEntry(m3, l, At(m, l).(frame := p, rw := true));
            Inv(m', pend, {}) && Outstanding(m') == Outstanding(m2)
  {
    var e' := At(m, l).(frame := p, rw := true);
    assert IsSlot(m2, l) && IsSlot(m3, l) && m3.frames[l.frame].Directory?;
    assert p != m3.zero;
    hide SharedUpTo, SameViews;
    assert {} + {l} == {l};
    FillHole(m3, l, e', pend + {p}, {});
    InvWeaken(SetEntry(m3, l, e'), pend + {p} - {p}, pend, {});
  }

  lemma CopyTableEndViews(m: Mem, m1: Mem, m2: Mem, m3: Mem, l: Loc, p: nat, pend: set<nat>)
    requires Inv(m, pend, {}) && IsSlot(m, l) && m.frames[l.frame].Directory? && At(m, l).pr
    requires m1.frames == m.frames && SameViews(m, m1, {l}, {})
    requires p < |m.frames| && m.frames[p].Free?
    requires m2.frames == m.frames[p := Zeroed(TableKind)] && SameViews(m1, m2, {l}, {}) && WellFormed(m2)
    requires RefLoop(m2, m3, At(m, l).frame, p, ENTRIES, pend + {p}, {l})
    ensures SameViews(m, SetEntry(m3, l, At(m, l).(frame := p, rw := true)), {}, {})
  {
    var e := At(m, l);
    assert m.frames[e.frame].Table?;
    assert FreshTable(m2, e.frame, p) && IsSlot(m2, l) && IsSlot(m3, l) && m3.frames[l.frame].Directory?;
    assert WellFormed(m3) && Typed(m3, {l});
    forall j: nat
      ensures TableView(m2, e.frame, j, {l}) == TableView(m, e.frame, j, {l})
    {
    }
    hide Inv, WellFormed, Typed, SameViews;
    SameViewsTrans(m, m1, m2, {l}, {});
    SameViewsTrans(m, m2, m3, {l}, {});
    SharedTableView(m2, m3, e.frame, p, {l});
    Redirect(m, m3, l, e.(frame := p, rw := true));
  }

  /** COW::copy on a directory entry: the process gets its table to itself and sees no change. */
  lemma CopyTableStep(m: Mem, l: Loc, pend: set<nat>)
    requires Inv(m, pend, {}) && IsSlot(m, l) && m.frames[l.frame].Directory?
    requires CopyTable(m, l).Some?
    ensures Privatised(m, CopyTable(m, l).value, l, pend)
  {
    var e := At(m, l);
    if e.pr && !e.rw {
      if Count(DecRef(m, e.frame), e.frame) == 0 {
        CopyTableInPlace(m, l, pend);
      } else {
        CopyTableFresh(m, l, pend);
      }
    }
  }

  // ---------------------------------------------------------------------------------------
  // COW::copy of a data frame
  // ---------------------------------------------------------------------------------------

  lemma SetBytesStep(m: Mem, f: nat, bytes: seq<int>, pend: set<nat>, hole: set<Loc>)
    requires Inv(m, pend, hole) && f < |m.frames| && m.frames[f].Data? && f != m.zero && |bytes| == FRAME_SIZE
    ensures var m' := SetBytes(m, f, bytes);
            && Inv(m', pend, hole)
            && SameDirectories(m, m')
            && (forall l: Loc :: IsSlot(m', l) == IsSlot(m, l) && At(m', l) == At(m, l))
            && (forall g: nat :: Namers(m', g, hole) == Namers(m, g, hole))
            && Outstanding(m') == Outstanding(m)
  {
    var m' := SetBytes(m, f, bytes);
    assert forall l: Loc :: IsSlot(m', l) == IsSlot(m, l) && At(m', l) == At(m, l);
    forall g: nat
      ensures Namers(m', g, hole) == Namers(m, g, hole) && Writers(m', g, hole) == Writers(m, g, hole)
    {
    }
    forall g | 0 <= g < |m.frames|
      ensures CountOk(m', g, pend, hole)
    {
      assert CountOk(m, g, pend, hole);
      CountKept(m, m', g, pend, pend, hole, hole);
    }
    assert Owned(m') == Owned(m);
  }

  /** When directories are untouched and every table maps the same contents, so does everything. */
  lemma SameTablesSameViews(m: Mem, m': Mem, hole: set<Loc>, hole': set<Loc>)
    requires forall l: Loc :: IsSlot(m, l) && m.frames[l.frame].Directory? ==>
               IsSlot(m', l) && m'.frames[l.frame].Directory? && At(m', l) == At(m, l) &&
               (l in hole <==> l in hole')
    requires forall l: Loc :: IsSlot(m', l) && m'.frames[l.frame].Directory? ==> IsSlot(m, l) && m.frames[l.frame].Directory?
    requires forall t: nat, j: nat :: TableView(m', t, j, hole') == TableView(m, t, j, hole)
    ensures forall d: nat, i: nat, j: nat :: View(m', d, i, j, hole') == View(m, d, i, j, hole)
  {
  }

  lemma CopyDataInPlace(m: Mem, l: Loc, pend: set<nat>)
    requires Inv(m, pend, {}) && IsSlot(m, l) && m.frames[l.frame].Table?
    requires At(m, l).pr && !At(m, l).rw && Count(DecRef(m, At(m, l).frame), At(m, l).frame) == 0
    ensures Privatised(m, SetEntry(DecRef(m, At(m, l).frame), l, At(m, l).(rw := true)), l, pend)
  {
    var e := At(m, l);
    var m1 := DecRef(m, e.frame);
    DropShared(m, l, pend, {});
    assert {} + {l} == {l};
    assert At(m1, l) == e && IsSlot(m1, l);
    FillHole(m1, l, e.(rw := true), pend + {e.frame}, {});
    InvWeaken(SetEntry(m1, l, e.(rw := true)), pend + {e.frame} - {e.frame}, pend, {});
    SetEntryAt(m1, l, e.(rw := true));
    SameTablesSameViews(m, SetEntry(m1, l, e.(rw := true)), {}, {});
  }

  lemma CopyDataFresh(m: Mem, l: Loc, pend: set<nat>)
    requires Inv(m, pend, {}) && IsSlot(m, l) && m.frames[l.frame].Table?
    requires At(m, l).pr && !At(m, l).rw && Count(DecRef(m, At(m, l).frame), At(m, l).frame) != 0
    requires CopyData(m, l).Some?
    ensures Privatised(m, CopyData(m, l).value, l, pend)
  {
    var e := At(m, l);
    var m1 := DecRef(m, e.frame);
    DropShared(m, l, pend, {});
    assert {} + {l} == {l};
    var (m2, p) := Alloc(m1, DataKind).value;
    AllocStep(m1, DataKind, pend, {l});
    var bytes := BytesOf(m, e.frame);
    assert m.frames[e.frame].Data? && |bytes| == FRAME_SIZE;
    var m3 := SetBytes(m2, p, bytes);
    SetBytesStep(m2, p, bytes, pend + {p}, {l});
    CopyDataEnd(m, m3, l, p, pend);
  }

  lemma CopyDataEnd(m: Mem, m3: Mem, l: Loc, p: nat, pend: set<nat>)
    requires Inv(m, pend, {}) && IsSlot(m, l) && m.frames[l.frame].Table? && At(m, l).pr
    requires p < |m.frames| && m.frames[p].Free? && m3.zero == m.zero && m3.kernelRefs == m.kernelRefs
    requires m3.frames == m.frames[p := Data(BytesOf(m, At(m, l).frame))]
    requires Inv(m3, pend + {p}, {l}) && m3.refs[p] == 0 && Namers(m3, p, {l}) == {}
    requires Outstanding(m3) == Outstanding(m)
    ensures Privatised(m, SetEntry(m3, l, At(m, l).(frame := p, rw := true)), l, pend)
  {
    var e' := At(m, l).(frame := p, rw := true);
    assert forall x: Loc :: IsSlot(m3, x) == IsSlot(m, x) && At(m3, x) == At(m, x);
    assert {} + {l} == {l};
    FillHole(m3, l, e', pend + {p}, {});
    InvWeaken(SetEntry(m3, l, e'), pend + {p} - {p}, pend, {});
    var m' := SetEntry(m3, l, e');
    SetEntryAt(m3, l, e');
    forall t: nat, j: nat
      ensures TableView(m', t, j, {}) == TableView(m, t, j, {})
    {
      if Loc(t, j) != l && IsSlot(m, Loc(t, j)) && At(m, Loc(t, j)).pr {
        assert At(m, Loc(t, j)).frame != p;
      }
    }
    SameTablesSameViews(m, m', {}, {});
  }

  /** COW::copy on a table entry: the page gets a frame of its own with the same contents. */
  lemma CopyDataStep(m: Mem, l: Loc, pend: set<nat>)
    requires Inv(m, pend, {}) && IsSlot(m, l) && m.frames[l.frame].Table?
    requires CopyData(m, l).Some?
    ensures Privatised(m, CopyData(m, l).value, l, pend)
  {
    var e := At(m, l);
    if e.pr && !e.rw {
      if Count(DecRef(m, e.frame), e.frame) == 0 {
        CopyDataInPlace(m, l, pend);
      } else {
        CopyDataFresh(m, l, pend);
      }
    }
  }
}
