/** COW::copy when the counters need not be right: no view changes. */
module PagingLiveCopy {
  import opened Sets
  import opened Paging
  import opened PagingInvariant
  import opened PagingSteps
  import opened PagingLive

  // ---------------------------------------------------------------------------------------
  // Sharing entries
  // ---------------------------------------------------------------------------------------

  /** The live entries once entry `i` is shared; `drop` if `src` is out of reach from then on. */
  ghost function LiveAfter(m: Mem, live: set<Loc>, src: nat, dst: nat, i: nat, drop: bool): set<Loc> {
    if !At(m, Loc(src, i)).pr then live
    else (if drop then live - {Loc(src, i)} else live) + {Loc(dst, i)}
  }

  ghost predicate LiveShareable(m: Mem, src: nat, dst: nat, i: nat, drop: bool, live: set<Loc>, hole: set<Loc>) {
    && Shareable(m, src, dst, i, hole)
    && (At(m, Loc(src, i)).pr ==> Loc(src, i) in live)
    && (At(m, Loc(src, i)).pr && !At(m, Loc(src, i)).rw && !drop ==>
          At(m, Loc(src, i)).frame < |m.refs| && m.refs[At(m, Loc(src, i)).frame] > 0)
  }

  lemma LiveShare(m: Mem, src: nat, dst: nat, i: nat, drop: bool, live: set<Loc>, hole: set<Loc>)
    requires Sound(m, live, hole) && LiveShareable(m, src, dst, i, drop, live, hole)
    ensures var m' := RefInto(m, src, dst, i);
            && Shared(m, m', src, dst, i)
            && Sound(m', LiveAfter(m, live, src, dst, i, drop), hole)
  {
    var m' := RefInto(m, src, dst, i);
    var e := At(m, Loc(src, i));
    if e.pr {
      assert SlotOk(m, Loc(src, i));
      LiveFits(m, Loc(src, i), live, hole);
    }
    RefIntoShares(m, src, dst, i);
    hide RefInto;
    var live' := LiveAfter(m, live, src, dst, i, drop);
    LiveShareShape(m, m', src, dst, i);
    forall x | x in live'
      ensures SlotOk(m', x) && x !in hole && (At(m', x).rw ==> m'.refs[At(m', x).frame] == 0)
    {
      LiveShareSlot(m, m', src, dst, i, drop, live, hole, x);
    }
    forall g | 0 <= g < |m.frames|
      ensures LiveOk(m', g, live', hole)
    {
      assert LiveOk(m, g, live, hole);
      LiveShareAt(m, m', src, dst, i, drop, live, hole, g);
    }
  }

  lemma LiveShareShape(m: Mem, m': Mem, src: nat, dst: nat, i: nat)
    requires WellFormed(m) && FreeListOk(m) && Shared(m, m', src, dst, i)
    requires IsSlot(m, Loc(src, i)) && IsSlot(m, Loc(dst, i))
    ensures WellFormed(m') && FreeListOk(m')
  {
    forall f | 0 <= f < |m'.frames| && (m'.frames[f].Directory? || m'.frames[f].Table?)
      ensures |m'.frames[f].entries| == ENTRIES
    {
      assert IsEntry(m, Loc(f, 0));
      assert IsEntry(m', Loc(f, 0));
    }
  }

  lemma LiveShareSlot(m: Mem, m': Mem, src: nat, dst: nat, i: nat, drop: bool, live: set<Loc>, hole: set<Loc>, x: Loc)
    requires Sound(m, live, hole) && LiveShareable(m, src, dst, i, drop, live, hole) && Shared(m, m', src, dst, i)
    requires x in LiveAfter(m, live, src, dst, i, drop)
    ensures SlotOk(m', x) && x !in hole && |m'.refs| == |m'.frames|
    ensures At(m', x).rw ==> m'.refs[At(m', x).frame] == 0
  {
    var s := Loc(src, i);
    assert At(m, s).pr ==> SlotOk(m, s);
    if x in live {
      assert SlotOk(m, x);
      if At(m, x).rw && At(m, s).pr {
        SoleLive(m, x, live, hole);
        assert At(m, s).frame == At(m, x).frame ==> s in LiveNamers(m, At(m, x).frame, live);
      }
    }
  }

  lemma NamesDropped(m: Mem, live: set<Loc>, s: Loc, g: nat)
    ensures LiveNamers(m, g, live - {s}) == LiveNamers(m, g, live) - {s}
  {
  }

  lemma NamesJoined(m: Mem, m': Mem, live: set<Loc>, t: Loc, g: nat)
    requires t !in live && forall x :: x in live ==> At(m', x).frame == At(m, x).frame
    ensures |LiveNamers(m', g, live + {t})| == |LiveNamers(m, g, live)| + (if At(m', t).frame == g then 1 else 0)
    ensures At(m', t).frame != g ==> LiveNamers(m', g, live + {t}) == LiveNamers(m, g, live)
  {
    hide At;
    if At(m', t).frame == g {
      assert LiveNamers(m', g, live + {t}) == LiveNamers(m, g, live) + {t};
    } else {
      assert LiveNamers(m', g, live + {t}) == LiveNamers(m, g, live);
    }
  }

  /** How the live entries of one frame change. */
  lemma LiveShareNames(m: Mem, m': Mem, src: nat, dst: nat, i: nat, drop: bool, live: set<Loc>, g: nat)
    requires forall x: Loc :: x != Loc(dst, i) ==> At(m', x).frame == At(m, x).frame
    requires At(m, Loc(src, i)).pr ==> Loc(src, i) in live && At(m', Loc(dst, i)).frame == At(m, Loc(src, i)).frame
    requires src != dst && Loc(dst, i) !in live
    ensures var names := LiveNamers(m, g, live);
            var names' := LiveNamers(m', g, LiveAfter(m, live, src, dst, i, drop));
            if At(m, Loc(src, i)).pr && g == At(m, Loc(src, i)).frame
            then |names'| == (if drop then |names| else |names| + 1) && |names| >= 1
            else names' == names
  {
    hide At;
    var s, t := Loc(src, i), Loc(dst, i);
    if At(m, s).pr {
      assert s in LiveNamers(m, g, live) <==> g == At(m, s).frame;
      hide LiveNamers;
      NamesDropped(m, live, s, g);
      NamesJoined(m, m', if drop then live - {s} else live, t, g);
      if g == At(m, s).frame {
        RemoveOne(LiveNamers(m, g, live), s);
      } else {
        assert LiveNamers(m, g, live) - {s} == LiveNamers(m, g, live);
      }
    } else {
      assert LiveNamers(m', g, live) == LiveNamers(m, g, live);
    }
  }

  lemma LiveShareAt(m: Mem, m': Mem, src: nat, dst: nat, i: nat, drop: bool, live: set<Loc>, hole: set<Loc>, g: nat)
    requires Sound(m, live, hole) && LiveShareable(m, src, dst, i, drop, live, hole) && Shared(m, m', src, dst, i)
    requires g < |m.frames| && LiveOk(m, g, live, hole)
    ensures |m'.refs| == |m'.frames| == |m.frames| && LiveOk(m', g, LiveAfter(m, live, src, dst, i, drop), hole)
  {
    hide LiveNamers, LiveAfter;
    var e := At(m, Loc(src, i));
    SharedNamers(m, m', src, dst, i, hole, g);
    assert e.pr ==> SlotOk(m, Loc(src, i));
    assert forall x :: x in live ==> SlotOk(m, x);
    assert Loc(dst, i) !in live;
    LiveShareNames(m, m', src, dst, i, drop, live, g);
    assert e.pr && g == e.frame ==> Loc(src, i) in Namers(m, g, hole);
    hide Sound, Namers, Writers, At, IsSlot;
  }

  /** The live entries once the first `n` entries are shared. */
  ghost function LiveUpTo(m: Mem, live: set<Loc>, src: nat, dst: nat, n: nat, drop: bool): set<Loc> {
    if n == 0 then live else LiveAfter(m, LiveUpTo(m, live, src, dst, n - 1, drop), src, dst, n - 1, drop)
  }

  lemma {:induction false} LiveUpToIs(m: Mem, live: set<Loc>, src: nat, dst: nat, n: nat, drop: bool)
    requires src != dst
    ensures forall x: Loc :: x in LiveUpTo(m, live, src, dst, n, drop) <==>
              || (x in live && !(drop && x.frame == src && x.index < n && At(m, x).pr))
              || (x.frame == dst && x.index < n && At(m, Loc(src, x.index)).pr)
  {
    if n > 0 {
      LiveUpToIs(m, live, src, dst, n - 1, drop);
    }
  }

  ghost predicate NamedIn(m: Mem, t: nat, f: nat) {
    exists i: nat :: At(m, Loc(t, i)).pr && At(m, Loc(t, i)).frame == f
  }

  ghost predicate LiveLoop(m: Mem, m': Mem, src: nat, dst: nat, n: nat, drop: bool, live: set<Loc>, hole: set<Loc>) {
    && Sound(m', LiveUpTo(m, live, src, dst, n, drop), hole)
    && SharedUpTo(m, m', src, dst, n)
    && |m'.refs| == |m.refs|
    && (forall f :: 0 <= f < |m.refs| ==> m'.refs[f] >= m.refs[f])
    && (forall f :: 0 <= f < |m.refs| && !NamedIn(m, src, f) ==> m'.refs[f] == m.refs[f])
  }

  /** Table `src` can be shared with the empty table `dst`, entry by entry. */
  ghost predicate LoopReady(m: Mem, src: nat, dst: nat, drop: bool, live: set<Loc>, hole: set<Loc>) {
    && FreshTable(m, src, dst) && |m.refs| == |m.frames|
    && (forall x :: x in hole ==> x.frame != src && x.frame != dst)
    && (forall i: nat :: At(m, Loc(src, i)).pr ==> Loc(src, i) in live)
    && (!drop ==> forall i: nat :: At(m, Loc(src, i)).pr && !At(m, Loc(src, i)).rw ==>
          At(m, Loc(src, i)).frame < |m.refs| && m.refs[At(m, Loc(src, i)).frame] > 0)
  }

  lemma LiveLoopNext(m: Mem, m1: Mem, src: nat, dst: nat, n: nat, drop: bool, live: set<Loc>, hole: set<Loc>)
    requires Sound(m, live, hole) && LoopReady(m, src, dst, drop, live, hole) && n < ENTRIES
    requires LiveLoop(m, m1, src, dst, n, drop, live, hole)
    ensures LiveLoop(m, RefInto(m1, src, dst, n), src, dst, n + 1, drop, live, hole)
  {
    hide LiveOk, FreeListOk, RefInto, LiveAfter;
    var live1 := LiveUpTo(m, live, src, dst, n, drop);
    LiveLoopRound(m, m1, src, dst, n, drop, live, hole);
    LiveShare(m1, src, dst, n, drop, live1, hole);
    SharedUpToNext(m, m1, RefInto(m1, src, dst, n), src, dst, n + 1);
    assert At(m, Loc(src, n)).pr ==> SlotOk(m, Loc(src, n));
  }

  lemma LiveLoopRound(m: Mem, m1: Mem, src: nat, dst: nat, n: nat, drop: bool, live: set<Loc>, hole: set<Loc>)
    requires WellFormed(m) && LoopReady(m, src, dst, drop, live, hole) && n < ENTRIES
    requires LiveLoop(m, m1, src, dst, n, drop, live, hole)
    ensures var live1 := LiveUpTo(m, live, src, dst, n, drop);
            && LiveShareable(m1, src, dst, n, drop, live1, hole)
            && At(m1, Loc(src, n)) == At(m, Loc(src, n))
            && LiveAfter(m1, live1, src, dst, n, drop) == LiveUpTo(m, live, src, dst, n + 1, drop)
  {
    hide Sound;
    LiveUpToIs(m, live, src, dst, n, drop);
    assert IsSlot(m, Loc(src, n)) && IsSlot(m, Loc(dst, n));
    assert Shareable(m1, src, dst, n, hole);
  }

  lemma LiveLoopStart(m: Mem, src: nat, dst: nat, drop: bool, live: set<Loc>, hole: set<Loc>)
    requires Sound(m, live, hole)
    ensures LiveLoop(m, m, src, dst, 0, drop, live, hole)
  {
  }

  lemma {:induction false} LiveLoopStep(m: Mem, src: nat, dst: nat, n: nat, drop: bool, live: set<Loc>, hole: set<Loc>)
    requires Sound(m, live, hole) && LoopReady(m, src, dst, drop, live, hole) && n <= ENTRIES
    ensures LiveLoop(m, RefUpTo(m, src, dst, n), src, dst, n, drop, live, hole)
  {
    hide Sound, LoopReady, LiveLoop, RefInto;
    if n == 0 {
      LiveLoopStart(m, src, dst, drop, live, hole);
    } else {
      LiveLoopStep(m, src, dst, n - 1, drop, live, hole);
      LiveLoopNext(m, RefUpTo(m, src, dst, n - 1), src, dst, n - 1, drop, live, hole);
    }
  }

  // ---------------------------------------------------------------------------------------
  // COW::copy on a directory entry
  // ---------------------------------------------------------------------------------------

  /** What COW::copy guarantees about the entry `l`, whatever the counters say. */
  ghost predicate LiveOwned(m: Mem, m': Mem, l: Loc) {
    && LiveInv(m')
    && SameViews(m, m', {}, {})
    && SameDirectories(m, m')
    && SparesKept(m, m')
    && IsSlot(m', l) && At(m', l).pr == At(m, l).pr && (At(m', l).pr ==> At(m', l).rw)
    && (forall x: Loc :: x != l && IsSlot(m, x) && m.frames[x.frame].Directory? ==> At(m', x) == At(m, x))
  }

  /** Entry `l` now names `p`, which holds read-only copies of the entries of `t`. */
  ghost predicate TableCopied(m: Mem, m': Mem, l: Loc, t: nat, p: nat) {
    && |m'.frames| == |m.frames| == |m.refs| == |m'.refs| && m'.zero == m.zero && m'.kernelRefs == m.kernelRefs
    && p < |m.frames| && m.frames[p].Free? && m'.frames[p].Table? && p != m.zero && m.refs[p] == 0
    && IsSlot(m, l) && m.frames[l.frame].Directory? && At(m, l).pr && At(m, l).frame == t
    && t < |m.frames| && m.frames[t].Table?
    && (forall x: Loc :: IsSlot(m', x) == if x.frame == p then x.index < ENTRIES else IsSlot(m, x))
    && (forall x: Loc :: At(m', x) ==
          if x == l then At(m, l).(frame := p, rw := true)
          else if x.frame == p then (if At(m, Loc(t, x.index)).pr then ReadOnly(At(m, Loc(t, x.index))) else NO_ENTRY)
          else if x.frame == t && At(m, x).pr then ReadOnly(At(m, x))
          else At(m, x))
    && (forall f :: 0 <= f < |m.frames| && f != p ==>
          && m'.frames[f].Directory? == m.frames[f].Directory? && m'.frames[f].Table? == m.frames[f].Table?
          && (f != t && f != l.frame ==> m'.frames[f] == m.frames[f]))
    && (forall f :: 0 <= f < |m.refs| && f != t ==> m'.refs[f] >= m.refs[f])
    && (forall f :: 0 <= f < |m.refs| && f != t && !NamedIn(m, t, f) ==> m'.refs[f] == m.refs[f])
  }

  /** The entries `live` accounts for: `t` drops out when only one process reached it. */
  ghost predicate Accounted(m: Mem, live: set<Loc>, t: nat, p: nat) {
    forall y: Loc :: y in live <==>
      || (Live(m, y) && !(Sole(m, t) && y.frame == t))
      || (y.frame == p && y.index < ENTRIES && At(m, Loc(t, y.index)).pr)
  }

  lemma CopiedNamers(m: Mem, m': Mem, l: Loc, t: nat, p: nat)
    requires LiveInv(m) && TableCopied(m, m', l, t, p)
    ensures TableNamers(m', p) == {l} && TableNamers(m, p) == {}
    ensures TableNamers(m', t) == TableNamers(m, t) - {l}
    ensures forall t': nat :: t' != p && t' != t ==> TableNamers(m', t') == TableNamers(m, t')
  {
    forall x: Loc
      ensures x !in TableNamers(m, p)
    {
      assert Live(m, x) ==> x in LiveSlots(m);
    }
    forall t': nat
      ensures t' == p ==> TableNamers(m', t') == {l}
      ensures t' == t ==> TableNamers(m', t') == TableNamers(m, t') - {l}
      ensures t' != p && t' != t ==> TableNamers(m', t') == TableNamers(m, t')
    {
      assert forall x: Loc :: x in TableNamers(m', t') && x != l ==> x in TableNamers(m, t');
    }
  }

  lemma CopiedViews(m: Mem, m': Mem, l: Loc, t: nat, p: nat)
    requires LiveInv(m) && TableCopied(m, m', l, t, p) && WellFormed(m')
    ensures SameViews(m, m', {}, {}) && SameDirectories(m, m')
  {
    forall x: Loc | x.frame < |m.frames| && m.frames[x.frame].Directory? && IsSlot(m, x) && At(m, x).pr
      ensures SameTable(m, At(m, x).frame, m', At(m', x).frame)
    {
      CopiedTable(m, m', l, t, p, x);
    }
    SameTablesShow(m, m');
  }

  lemma CopiedTable(m: Mem, m': Mem, l: Loc, t: nat, p: nat, x: Loc)
    requires LiveInv(m) && TableCopied(m, m', l, t, p) && WellFormed(m')
    requires IsSlot(m, x) && m.frames[x.frame].Directory? && At(m, x).pr
    ensures SameTable(m, At(m, x).frame, m', At(m', x).frame)
  {
    var u, u' := At(m, x).frame, At(m', x).frame;
    assert x in LiveSlots(m);
    assert x in TableNamers(m, u);
    forall j: nat | j < ENTRIES && At(m, Loc(u, j)).pr
      ensures At(m, Loc(u, j)).frame < |m.frames| && m.frames[At(m, Loc(u, j)).frame].Data?
    {
      assert Loc(u, j) in LiveSlots(m);
    }
    hide Sound, UncountedApart;
    SameTableFrom(m, u, m', u');
  }

  /** A slot that is live in the copy was accounted for in the loop. */
  lemma CopiedLive(m: Mem, m': Mem, l: Loc, t: nat, p: nat, live: set<Loc>, x: Loc)
    requires LiveInv(m) && TableCopied(m, m', l, t, p)
    requires Accounted(m, live, t, p)
    requires Live(m', x)
    ensures x in live
    ensures x.frame != p ==> Live(m, x) && At(m', x).pr && (x != l ==> At(m', x).frame == At(m, x).frame)
    ensures x.frame == t ==> !Sole(m, t)
  {
    CopiedNamers(m, m', l, t, p);
    assert l in TableNamers(m, t);
    if x.frame == t {
      var y :| y in TableNamers(m', t);
      assert y in TableNamers(m, t) && y != l;
    }
  }

  lemma CopiedApart(m: Mem, m': Mem, l: Loc, t: nat, p: nat, live: set<Loc>, x: Loc)
    requires LiveInv(m) && TableCopied(m, m', l, t, p) && Sound(m', live, {})
    requires Accounted(m, live, t, p)
    requires Live(m', x) && m'.frames[x.frame].Table? && Uncounted(m', x)
    ensures Sole(m', x.frame)
  {
    hide Sound;
    CopiedNamers(m, m', l, t, p);
    CopiedLive(m, m', l, t, p, live, x);
    if x.frame != p {
      CopiedElsewhere(m, m', l, t, p, live, x);
      LiveSlotOk(m, x);
      assert Uncounted(m, x);
    }
  }

  /** A shared entry has two namers, so one that is uncounted lies in another table. */
  lemma CopiedElsewhere(m: Mem, m': Mem, l: Loc, t: nat, p: nat, live: set<Loc>, x: Loc)
    requires TableCopied(m, m', l, t, p) && Sound(m', live, {}) && Accounted(m, live, t, p)
    requires x in live && x.frame != p && m'.frames[x.frame].Table? && Uncounted(m', x)
    requires Live(m, x) && At(m', x).frame == At(m, x).frame
    ensures x.frame != t && At(m', x) == At(m, x)
  {
    hide Sound, Live, NamedIn;
    SoleLive(m', x, live, {});
    assert x.frame == t ==> Loc(p, x.index) in LiveNamers(m', At(m', x).frame, live);
  }

  lemma CopiedSpares(m: Mem, m': Mem, l: Loc, t: nat, p: nat, live: set<Loc>)
    requires LiveInv(m) && TableCopied(m, m', l, t, p)
    requires Accounted(m, live, t, p)
    ensures SparesKept(m, m')
  {
    assert l in TableNamers(m, t);
    forall i: nat | At(m, Loc(t, i)).pr
      ensures Live(m, Loc(t, i))
    {
    }
    forall f: nat | Spare(m, f)
      ensures Spare(m', f) && m'.frames[f] == m.frames[f]
    {
      assert !NamedIn(m, t, f);
      forall x: Loc | Live(m', x)
        ensures At(m', x).frame != f
      {
        CopiedLive(m, m', l, t, p, live, x);
        if x.frame == p {
          assert Live(m, Loc(t, x.index));
        }
      }
    }
  }

  lemma CopiedEnd(m: Mem, m': Mem, l: Loc, t: nat, p: nat, live: set<Loc>)
    requires LiveInv(m) && TableCopied(m, m', l, t, p) && Sound(m', live, {})
    requires Accounted(m, live, t, p)
    ensures LiveOwned(m, m', l)
  {
    forall x | x in LiveSlots(m')
      ensures x in live
    {
      CopiedLive(m, m', l, t, p, live, x);
    }
    FewerLive(m', live, LiveSlots(m'), {});
    forall x: Loc | Live(m', x) && m'.frames[x.frame].Table? && Uncounted(m', x)
      ensures Sole(m', x.frame)
    {
      CopiedApart(m, m', l, t, p, live, x);
    }
    CopiedViews(m, m', l, t, p);
    CopiedSpares(m, m', l, t, p, live);
  }

  lemma CopyTableFreshLive(m: Mem, l: Loc)
    requires LiveInv(m) && IsSlot(m, l) && m.frames[l.frame].Directory?
    requires At(m, l).pr && !At(m, l).rw && Count(DecRef(m, At(m, l).frame), At(m, l).frame) != 0
    requires CopyTable(m, l).Some?
    ensures LiveOwned(m, CopyTable(m, l).value, l)
  {
    var e := At(m, l);
    var t := e.frame;
    var live := LiveSlots(m);
    assert l in live && SlotOk(m, l);
    var m1 := DecRef(m, t);
    LiveDrop(m, l, live, {});
    assert {} + {l} == {l};
    var (m2, p) := Alloc(m1, TableKind).value;
    LiveAlloc(m1, TableKind, live - {l}, {l});
    hide Alloc, RefUpTo;
    CopyLoopReady(m, m1, m2, l, p);
    LiveLoopStep(m2, t, p, ENTRIES, Sole(m, t), live - {l}, {l});
    CopyTableLinked(m, m1, m2, RefUpTo(m2, t, p, ENTRIES), l, p);
  }

  lemma CopyLoopReady(m: Mem, m1: Mem, m2: Mem, l: Loc, p: nat)
    requires LiveInv(m) && IsSlot(m, l) && m.frames[l.frame].Directory? && At(m, l).pr
    requires m1 == DecRef(m, At(m, l).frame)
    requires Allocated(m1, m2, p, TableKind, LiveSlots(m) - {l}, {l})
    ensures LoopReady(m2, At(m, l).frame, p, Sole(m, At(m, l).frame), LiveSlots(m) - {l}, {l})
  {
    var t := At(m, l).frame;
    assert l in LiveSlots(m) && SlotOk(m, l);
    assert l in TableNamers(m, t);
    assert forall x: Loc :: At(m1, x) == At(m, x);
    forall i: nat | At(m2, Loc(t, i)).pr
      ensures Loc(t, i) in LiveSlots(m) - {l} && At(m2, Loc(t, i)) == At(m, Loc(t, i))
      ensures !At(m2, Loc(t, i)).rw && !Sole(m, t) ==>
                At(m2, Loc(t, i)).frame < |m2.refs| && m2.refs[At(m2, Loc(t, i)).frame] > 0
    {
      assert Live(m, Loc(t, i));
      assert SlotOk(m, Loc(t, i));
    }
  }

  lemma CopyTableLinked(m: Mem, m1: Mem, m2: Mem, m3: Mem, l: Loc, p: nat)
    requires LiveInv(m) && IsSlot(m, l) && m.frames[l.frame].Directory? && At(m, l).pr
    requires m1 == DecRef(m, At(m, l).frame)
    requires Allocated(m1, m2, p, TableKind, LiveSlots(m) - {l}, {l})
    requires LiveLoop(m2, m3, At(m, l).frame, p, ENTRIES, Sole(m, At(m, l).frame), LiveSlots(m) - {l}, {l})
    ensures LiveOwned(m, SetEntry(m3, l, At(m, l).(frame := p, rw := true)), l)
  {
    hide LiveInv, Sound, LiveUpTo, SharedUpTo, NamedIn, Sole, Live, Accounted;
    var t := At(m, l).frame;
    var e' := At(m, l).(frame := p, rw := true);
    var live := LiveUpTo(m2, LiveSlots(m) - {l}, t, p, ENTRIES, Sole(m, t));
    CopyTableEntries(m, m1, m2, m3, l, p);
    LiveUpToIs(m2, LiveSlots(m) - {l}, t, p, ENTRIES, Sole(m, t));
    CopyTableAccounted(m, m1, m2, live, l, p);
    NotInHole(m3, live, {l});
    CopyTableUnclaimed(m, m1, m2, m3, live, l, p);
    assert {} + {l} == {l};
    LiveFill(m3, l, e', live, {}, m3.kernelRefs);
    CopiedEnd(m, SetEntry(m3, l, e'), l, t, p, live + {l});
  }

  /** The entries of a table that a directory names are live and name data. */
  lemma ReachedEntries(m: Mem, l: Loc)
    requires LiveInv(m) && IsSlot(m, l) && m.frames[l.frame].Directory? && At(m, l).pr
    ensures SlotOk(m, l) && WellFormed(m)
    ensures forall i: nat :: At(m, Loc(At(m, l).frame, i)).pr ==>
              Live(m, Loc(At(m, l).frame, i)) && SlotOk(m, Loc(At(m, l).frame, i))
  {
    assert l in LiveSlots(m);
    assert l in TableNamers(m, At(m, l).frame);
    forall i: nat | At(m, Loc(At(m, l).frame, i)).pr
      ensures Live(m, Loc(At(m, l).frame, i)) && SlotOk(m, Loc(At(m, l).frame, i))
    {
      assert Live(m, Loc(At(m, l).frame, i)) && Loc(At(m, l).frame, i) in LiveSlots(m);
    }
  }

  lemma CopyTableEntries(m: Mem, m1: Mem, m2: Mem, m3: Mem, l: Loc, p: nat)
    requires LiveInv(m) && IsSlot(m, l) && m.frames[l.frame].Directory? && At(m, l).pr
    requires m1 == DecRef(m, At(m, l).frame)
    requires Allocated(m1, m2, p, TableKind, LiveSlots(m) - {l}, {l})
    requires LiveLoop(m2, m3, At(m, l).frame, p, ENTRIES, Sole(m, At(m, l).frame), LiveSlots(m) - {l}, {l})
    ensures TableCopied(m, SetEntry(m3, l, At(m, l).(frame := p, rw := true)), l, At(m, l).frame, p)
    ensures IsSlot(m3, l) && m3.frames[l.frame].Directory? && m3.frames[p].Table? && m3.refs[p] == 0
  {
    hide Sound, LiveInv, SharedUpTo, TableCopied, LiveUpTo, Sole, LiveSlots, Live;
    var t := At(m, l).frame;
    ReachedEntries(m, l);
    assert forall x: Loc :: At(m1, x) == At(m, x);
    assert forall i: nat :: At(m2, Loc(t, i)) == At(m, Loc(t, i));
    assert !NamedIn(m2, t, p);
    assert forall f: nat :: NamedIn(m2, t, f) ==> NamedIn(m, t, f);
    TableCopiedFrom(m, m2, m3, l, t, p);
  }

  lemma TableCopiedFrom(m: Mem, m2: Mem, m3: Mem, l: Loc, t: nat, p: nat)
    requires WellFormed(m) && IsSlot(m, l) && m.frames[l.frame].Directory? && At(m, l).pr && At(m, l).frame == t
    requires t < |m.frames| && m.frames[t].Table?
    requires p < |m.frames| && m.frames[p].Free? && m2.frames == m.frames[p := Zeroed(TableKind)] && p != m.zero
    requires m2.zero == m.zero && m2.kernelRefs == m.kernelRefs && |m3.refs| == |m.refs| && m.refs[p] == 0
    requires SharedUpTo(m2, m3, t, p, ENTRIES)
    requires forall f :: 0 <= f < |m.refs| && f != t ==> m3.refs[f] >= m.refs[f]
    requires forall f :: 0 <= f < |m.refs| && f != t && !NamedIn(m, t, f) ==> m3.refs[f] == m.refs[f]
    ensures TableCopied(m, SetEntry(m3, l, At(m, l).(frame := p, rw := true)), l, t, p)
    ensures IsSlot(m3, l) && m3.frames[l.frame].Directory? && m3.frames[p].Table?
  {
    AllocEntries(m, m2, p, TableKind);
    assert forall x: Loc :: x.frame == p ==> (IsSlot(m2, x) <==> x.index < ENTRIES);
    hide WellFormed, NamedIn;
    SetEntryAt(m3, l, At(m, l).(frame := p, rw := true));
  }

  lemma CopyTableAccounted(m: Mem, m1: Mem, m2: Mem, live: set<Loc>, l: Loc, p: nat)
    requires LiveInv(m) && IsSlot(m, l) && m.frames[l.frame].Directory? && At(m, l).pr
    requires m1 == DecRef(m, At(m, l).frame)
    requires Allocated(m1, m2, p, TableKind, LiveSlots(m) - {l}, {l})
    requires forall x: Loc :: x in live <==>
               || (x in LiveSlots(m) - {l} && !(Sole(m, At(m, l).frame) && x.frame == At(m, l).frame && x.index < ENTRIES && At(m2, x).pr))
               || (x.frame == p && x.index < ENTRIES && At(m2, Loc(At(m, l).frame, x.index)).pr)
    ensures Accounted(m, live + {l}, At(m, l).frame, p)
  {
    assert l in LiveSlots(m) && SlotOk(m, l);
    assert forall x: Loc :: At(m2, x) == if x.frame == p then NO_ENTRY else At(m, x);
  }

  lemma CopyTableUnclaimed(m: Mem, m1: Mem, m2: Mem, m3: Mem, live: set<Loc>, l: Loc, p: nat)
    requires LiveInv(m) && IsSlot(m, l) && m.frames[l.frame].Directory? && At(m, l).pr
    requires m1 == DecRef(m, At(m, l).frame)
    requires Allocated(m1, m2, p, TableKind, LiveSlots(m) - {l}, {l})
    requires Accounted(m, live + {l}, At(m, l).frame, p) && l !in live
    requires SharedUpTo(m2, m3, At(m, l).frame, p, ENTRIES)
    ensures LiveNamers(m3, p, live) == {}
  {
    var t := At(m, l).frame;
    assert forall x: Loc :: At(m2, x) == if x.frame == p then NO_ENTRY else At(m, x);
    assert l in TableNamers(m, t);
    forall x | x in live
      ensures At(m3, x).frame != p
    {
      assert x in live + {l};
      if x.frame == p {
        assert Live(m, Loc(t, x.index)) && Loc(t, x.index) in LiveSlots(m) - {l};
      } else {
        assert x in LiveSlots(m) - {l};
      }
    }
  }

  /** Only entry `l` was made writable, and only the counter of its frame changed. */
  ghost predicate MadeWritable(m: Mem, m': Mem, l: Loc) {
    && |m'.frames| == |m.frames| == |m.refs| == |m'.refs| && m'.zero == m.zero && m'.kernelRefs == m.kernelRefs
    && (forall x: Loc :: IsSlot(m', x) == IsSlot(m, x))
    && (forall x: Loc :: At(m', x) == if x == l then At(m, l).(rw := true) else At(m, x))
    && (forall f :: 0 <= f < |m.frames| ==>
          && m'.frames[f].Directory? == m.frames[f].Directory? && m'.frames[f].Table? == m.frames[f].Table?
          && (f != l.frame ==> m'.frames[f] == m.frames[f]))
    && (forall f :: 0 <= f < |m.refs| && f != At(m, l).frame ==> m'.refs[f] == m.refs[f])
  }

  lemma WritableViews(m: Mem, m': Mem, l: Loc)
    requires LiveInv(m) && WellFormed(m') && MadeWritable(m, m', l) && Live(m, l)
    ensures SameViews(m, m', {}, {}) && SameDirectories(m, m')
  {
    hide Sound, UncountedApart;
    forall x: Loc | IsSlot(m, x) && m.frames[x.frame].Directory? && At(m, x).pr
      ensures SameTable(m, At(m, x).frame, m', At(m', x).frame)
    {
      ReachedEntries(m, x);
      SameTableFrom(m, At(m, x).frame, m', At(m', x).frame);
    }
    SameTablesShow(m, m');
  }

  lemma InPlaceLive(m: Mem, l: Loc)
    requires LiveInv(m) && Live(m, l) && !At(m, l).rw && Count(DecRef(m, At(m, l).frame), At(m, l).frame) == 0
    ensures LiveOwned(m, SetEntry(DecRef(m, At(m, l).frame), l, At(m, l).(rw := true)), l)
  {
    var e := At(m, l);
    var m1 := DecRef(m, e.frame);
    var m' := SetEntry(m1, l, e.(rw := true));
    var live := LiveSlots(m);
    assert SlotOk(m, l);
    LiveDrop(m, l, live, {});
    assert {} + {l} == {l};
    assert forall x: Loc :: IsSlot(m1, x) == IsSlot(m, x) && At(m1, x) == At(m, x);
    SetEntryAt(m1, l, e.(rw := true));
    LiveFill(m1, l, e.(rw := true), live - {l}, {}, m1.kernelRefs);
    assert live - {l} + {l} == live;
    assert MadeWritable(m, m', l);
    SameNamesSameLive(m, m');
    WritableViews(m, m', l);
    InPlaceEnd(m, m', l);
  }

  lemma InPlaceEnd(m: Mem, m': Mem, l: Loc)
    requires LiveInv(m) && Live(m, l) && MadeWritable(m, m', l) && Sound(m', LiveSlots(m), {})
    requires LiveSlots(m') == LiveSlots(m)
    requires forall t: nat :: Sole(m', t) == Sole(m, t)
    requires m'.refs[At(m, l).frame] == 0
    ensures UncountedApart(m') && SparesKept(m, m')
  {
    var f := At(m, l).frame;
    SoleLive(m', l, LiveSlots(m'), {});
    forall x: Loc | Live(m', x) && m'.frames[x.frame].Table? && Uncounted(m', x)
      ensures Sole(m', x.frame)
    {
      assert x in LiveSlots(m');
      assert At(m', x).frame == f ==> x in LiveNamers(m', f, LiveSlots(m'));
      assert Live(m, x) && Uncounted(m, x);
    }
    hide Sound;
    forall g: nat | Spare(m, g)
      ensures Spare(m', g) && m'.frames[g] == m.frames[g]
    {
      assert g != f && g != l.frame;
      forall x: Loc | Live(m', x)
        ensures At(m', x).frame != g
      {
        assert x in LiveSlots(m');
        assert Live(m, x);
      }
    }
  }

  /** COW::copy on a directory entry, counted or not: the table is the process's own and nobody notices. */
  lemma CopyTableLive(m: Mem, l: Loc)
    requires LiveInv(m) && IsSlot(m, l) && m.frames[l.frame].Directory? && CopyTable(m, l).Some?
    ensures LiveOwned(m, CopyTable(m, l).value, l)
  {
    if At(m, l).pr && !At(m, l).rw {
      if Count(DecRef(m, At(m, l).frame), At(m, l).frame) == 0 {
        InPlaceLive(m, l);
      } else {
        CopyTableFreshLive(m, l);
      }
    }
  }

  // ---------------------------------------------------------------------------------------
  // COW::copy on a table entry
  // ---------------------------------------------------------------------------------------

  /** Entry `l` now names `p`, which holds a copy of the page it named. */
  ghost predicate PageCopied(m: Mem, m': Mem, l: Loc, p: nat) {
    && |m'.frames| == |m.frames| == |m.refs| == |m'.refs| && m'.zero == m.zero && m'.kernelRefs == m.kernelRefs
    && p < |m.frames| && m.frames[p].Free? && p != l.frame && m'.frames[p] == Data(BytesOf(m, At(m, l).frame))
    && (forall x: Loc :: IsSlot(m', x) == IsSlot(m, x))
    && (forall x: Loc :: At(m', x) == if x == l then At(m, l).(frame := p, rw := true) else At(m, x))
    && (forall f :: 0 <= f < |m.frames| && f != p ==>
          && m'.frames[f].Directory? == m.frames[f].Directory? && m'.frames[f].Table? == m.frames[f].Table?
          && (f != l.frame ==> m'.frames[f] == m.frames[f]))
    && (forall f :: 0 <= f < |m.refs| && f != At(m, l).frame ==> m'.refs[f] == m.refs[f])
    && At(m, l).frame < |m.refs| && m'.refs[At(m, l).frame] != 0
  }

  lemma PageCopiedViews(m: Mem, m': Mem, l: Loc, p: nat)
    requires LiveInv(m) && WellFormed(m') && PageCopied(m, m', l, p) && Live(m, l) && m.frames[l.frame].Table?
    ensures SameViews(m, m', {}, {}) && SameDirectories(m, m')
  {
    assert l in LiveSlots(m) && SlotOk(m, l);
    hide Sound, UncountedApart;
    forall x: Loc | IsSlot(m, x) && m.frames[x.frame].Directory? && At(m, x).pr
      ensures SameTable(m, At(m, x).frame, m', At(m', x).frame)
    {
      ReachedEntries(m, x);
      SameTableFrom(m, At(m, x).frame, m', At(m', x).frame);
    }
    SameTablesShow(m, m');
  }

  lemma PageCopiedLive(m: Mem, m': Mem, l: Loc, p: nat)
    requires LiveInv(m) && PageCopied(m, m', l, p) && Live(m, l) && m.frames[l.frame].Table?
    ensures LiveSlots(m') == LiveSlots(m)
    ensures UncountedApart(m') && SparesKept(m, m')
  {
    assert l in LiveSlots(m) && SlotOk(m, l);
    hide Sound;
    forall t: nat
      ensures TableNamers(m', t) == TableNamers(m, t)
    {
    }
    assert forall x: Loc :: Live(m', x) == Live(m, x);
    forall x: Loc | Live(m', x) && m'.frames[x.frame].Table? && Uncounted(m', x)
      ensures Sole(m', x.frame)
    {
      assert Uncounted(m, x);
    }
    forall g: nat | Spare(m, g)
      ensures Spare(m', g) && m'.frames[g] == m.frames[g]
    {
    }
  }

  lemma CopyDataFreshLive(m: Mem, l: Loc)
    requires LiveInv(m) && Live(m, l) && m.frames[l.frame].Table? && !At(m, l).rw
    requires Count(DecRef(m, At(m, l).frame), At(m, l).frame) != 0 && CopyData(m, l).Some?
    ensures LiveOwned(m, CopyData(m, l).value, l)
  {
    var e := At(m, l);
    var live := LiveSlots(m);
    assert l in live && SlotOk(m, l);
    var m1 := DecRef(m, e.frame);
    LiveDrop(m, l, live, {});
    assert {} + {l} == {l};
    var (m2, p) := Alloc(m1, DataKind).value;
    LiveAlloc(m1, DataKind, live - {l}, {l});
    hide Alloc;
    var m3 := SetBytes(m2, p, BytesOf(m, e.frame));
    LiveSetBytes(m2, p, BytesOf(m, e.frame), live - {l}, {l});
    CopyDataLinked(m, m1, m2, m3, l, p);
  }

  lemma CopyDataLinked(m: Mem, m1: Mem, m2: Mem, m3: Mem, l: Loc, p: nat)
    requires LiveInv(m) && Live(m, l) && m.frames[l.frame].Table? && !At(m, l).rw
    requires m1 == DecRef(m, At(m, l).frame) && Count(m1, At(m, l).frame) != 0
    requires Allocated(m1, m2, p, DataKind, LiveSlots(m) - {l}, {l})
    requires m3 == SetBytes(m2, p, BytesOf(m, At(m, l).frame)) && Sound(m3, LiveSlots(m) - {l}, {l})
    ensures LiveOwned(m, SetEntry(m3, l, At(m, l).(frame := p, rw := true)), l)
  {
    hide Sound, Live, UncountedApart;
    var e' := At(m, l).(frame := p, rw := true);
    var live := LiveSlots(m);
    LiveSlotOk(m, l);
    assert forall x: Loc :: IsSlot(m3, x) == IsSlot(m, x) && At(m3, x) == At(m, x);
    assert LiveNamers(m3, p, live - {l}) == {};
    assert {} + {l} == {l};
    NotInHole(m3, live - {l}, {l});
    LiveFill(m3, l, e', live - {l}, {}, m3.kernelRefs);
    assert live - {l} + {l} == live;
    NotInHole(SetEntry(m3, l, e'), live, {});
    PageCopiedFrom(m, m1, m2, m3, l, p);
    PageCopiedLive(m, SetEntry(m3, l, e'), l, p);
    PageCopiedViews(m, SetEntry(m3, l, e'), l, p);
  }

  lemma PageCopiedFrom(m: Mem, m1: Mem, m2: Mem, m3: Mem, l: Loc, p: nat)
    requires SlotOk(m, l) && m.frames[l.frame].Table? && |m.refs| == |m.frames|
    requires m1 == DecRef(m, At(m, l).frame) && Count(m1, At(m, l).frame) != 0
    requires p < |m1.frames| && m1.frames[p].Free? && m2.frames == m1.frames[p := Zeroed(DataKind)]
    requires m2.refs == m1.refs && m2.zero == m1.zero && m2.kernelRefs == m1.kernelRefs
    requires m3 == SetBytes(m2, p, BytesOf(m, At(m, l).frame))
    ensures PageCopied(m, SetEntry(m3, l, At(m, l).(frame := p, rw := true)), l, p)
  {
    assert forall x: Loc :: IsSlot(m3, x) == IsSlot(m, x) && At(m3, x) == At(m, x);
    SetEntryAt(m3, l, At(m, l).(frame := p, rw := true));
  }

  /** COW::copy on a table entry, counted or not. */
  lemma CopyDataLive(m: Mem, l: Loc)
    requires LiveInv(m) && (At(m, l).pr ==> Live(m, l)) && IsSlot(m, l) && m.frames[l.frame].Table?
    requires CopyData(m, l).Some?
    ensures LiveOwned(m, CopyData(m, l).value, l)
  {
    if At(m, l).pr && !At(m, l).rw {
      if Count(DecRef(m, At(m, l).frame), At(m, l).frame) == 0 {
        InPlaceLive(m, l);
      } else {
        CopyDataFreshLive(m, l);
      }
    }
  }
}
