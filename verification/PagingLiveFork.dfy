/**
 The fork that shares, when the counters need not be right: it keeps the views sound exactly when
 every read-only entry of the space it shares is counted.
 */
module PagingLiveFork {
  import opened Paging
  import opened PagingInvariant
  import opened PagingSteps
  import opened PagingEntries
  import opened PagingFork
  import opened PagingLive
  import opened PagingLiveCopy

  /** No read-only user entry of directory `d`, nor of the tables it names, has counter 0. */
  ghost predicate SpaceCounted(m: Mem, d: nat) {
    forall i: nat :: UserIndex(i) && At(m, Loc(d, i)).pr ==>
      !Uncounted(m, Loc(d, i)) && TableCounted(m, At(m, Loc(d, i)).frame)
  }

  ghost predicate TableCounted(m: Mem, t: nat) {
    forall j: nat :: !Uncounted(m, Loc(t, j))
  }

  /** Where the counters are right nothing is uncounted. */
  lemma RightCounters(m: Mem, d: nat)
    requires Inv(m, {}, {})
    ensures SpaceCounted(m, d)
  {
    forall l: Loc
      ensures !Uncounted(m, l)
    {
      if Uncounted(m, l) {
        UncountedBreaks(m, l);
      }
    }
  }

  /** Writing an entry that is not present, or that copy-on-write does not manage. */
  lemma InertLive(m: Mem, l: Loc, e: Entry)
    requires LiveInv(m) && IsEntry(m, l) && (IsSlot(m, l) ==> !e.pr && !At(m, l).pr)
    ensures LiveInv(SetEntry(m, l, e)) && SameViews(m, SetEntry(m, l, e), {}, {})
  {
    var m' := SetEntry(m, l, e);
    SetEntryAt(m, l, e);
    SetEntryShape(m, l, e);
    InertNamers(m, m', l, e, {});
    InertViews(m, m', l, e, {});
    assert SameNames(m, m');
    SameNamesSameLive(m, m');
    var live := LiveSlots(m);
    assert forall x :: x in live ==> SlotOk(m, x) && SlotOk(m', x) && At(m', x) == At(m, x);
    forall f | 0 <= f < |m.frames|
      ensures LiveOk(m', f, live, {})
    {
      assert LiveOk(m, f, live, {});
      LiveKept(m, m', f, live, {}, {});
    }
    hide Sound;
    forall x: Loc | Live(m', x) && m'.frames[x.frame].Table? && Uncounted(m', x)
      ensures Sole(m', x.frame)
    {
      assert Live(m, x) && Uncounted(m, x);
    }
  }

  /** A directory just allocated shows nothing and changes nothing. */
  lemma FreshDirectoryLive(m: Mem)
    requires LiveInv(m) && Alloc(m, DirectoryKind).Some?
    ensures var (m1, c) := Alloc(m, DirectoryKind).value;
            && LiveInv(m1) && SameViews(m, m1, {}, {})
            && Allocated(m, m1, c, DirectoryKind, LiveSlots(m), {})
  {
    var (m1, c) := Alloc(m, DirectoryKind).value;
    LiveAlloc(m, DirectoryKind, LiveSlots(m), {});
    hide Alloc;
    FreshDirectoryNamers(m, m1, c);
    FewerLive(m1, LiveSlots(m), LiveSlots(m1), {});
    hide Sound;
    forall d: nat, i: nat, j: nat
      ensures View(m1, d, i, j, {}) == View(m, d, i, j, {})
    {
      if IsSlot(m, Loc(d, i)) && m.frames[d].Directory? && At(m, Loc(d, i)).pr {
        ReachedEntries(m, Loc(d, i));
        SameTableFrom(m, At(m, Loc(d, i)).frame, m1, At(m, Loc(d, i)).frame);
      }
    }
  }

  lemma FreshDirectoryNamers(m: Mem, m1: Mem, c: nat)
    requires LiveInv(m) && Allocated(m, m1, c, DirectoryKind, LiveSlots(m), {})
    ensures LiveSlots(m1) <= LiveSlots(m) && UncountedApart(m1)
  {
    hide Sound;
    forall t: nat
      ensures TableNamers(m1, t) == TableNamers(m, t)
    {
    }
    forall x: Loc | Live(m1, x)
      ensures Live(m, x)
    {
    }
    forall x: Loc | Live(m1, x) && m1.frames[x.frame].Table? && Uncounted(m1, x)
      ensures Sole(m1, x.frame)
    {
      assert Live(m, x) && Uncounted(m, x);
    }
  }

  // ---------------------------------------------------------------------------------------
  // Sharing one directory entry
  // ---------------------------------------------------------------------------------------

  lemma ShareNamers(m: Mem, m': Mem, src: nat, dst: nat, i: nat)
    requires Shareable(m, src, dst, i, {}) && Shared(m, m', src, dst, i) && At(m, Loc(src, i)).pr
    requires m.frames[src].Directory? && m.frames[dst].Directory?
    ensures var t := At(m, Loc(src, i)).frame;
            && TableNamers(m', t) == TableNamers(m, t) + {Loc(dst, i)} && Loc(src, i) in TableNamers(m, t)
            && (forall u: nat :: u != t ==> TableNamers(m', u) == TableNamers(m, u))
            && (forall x: Loc :: Live(m', x) ==> Live(m, x) || x == Loc(dst, i))
  {
    var t := At(m, Loc(src, i)).frame;
    forall u: nat
      ensures u == t ==> TableNamers(m', u) == TableNamers(m, u) + {Loc(dst, i)}
      ensures u != t ==> TableNamers(m', u) == TableNamers(m, u)
    {
    }
  }

  /** Page entries keep their counters while directory entries are shared. */
  lemma SharePages(m: Mem, m': Mem, src: nat, dst: nat, i: nat, t: nat)
    requires LiveInv(m) && Shareable(m, src, dst, i, {}) && Shared(m, m', src, dst, i) && At(m, Loc(src, i)).pr
    requires m.frames[src].Directory? && m.frames[dst].Directory?
    requires t < |m.frames| && m.frames[t].Table? && (forall j: nat :: At(m, Loc(t, j)).pr ==> SlotOk(m, Loc(t, j)))
    ensures forall j: nat :: Uncounted(m', Loc(t, j)) ==> Uncounted(m, Loc(t, j))
  {
    LiveSlotOk(m, Loc(src, i));
    hide LiveInv;
  }

  lemma ShareCounted(m: Mem, m': Mem, src: nat, dst: nat, i: nat)
    requires LiveInv(m) && SpaceCounted(m, src) && Shareable(m, src, dst, i, {}) && Shared(m, m', src, dst, i)
    requires m.frames[src].Directory? && m.frames[dst].Directory? && At(m, Loc(src, i)).pr
    ensures SpaceCounted(m', src)
  {
    LiveSlotOk(m, Loc(src, i));
    forall k: nat | UserIndex(k) && At(m', Loc(src, k)).pr
      ensures !Uncounted(m', Loc(src, k)) && TableCounted(m', At(m', Loc(src, k)).frame)
    {
      assert At(m, Loc(src, k)).pr && At(m', Loc(src, k)).frame == At(m, Loc(src, k)).frame && IsSlot(m, Loc(src, k));
      ReachedEntries(m, Loc(src, k));
      hide LiveInv;
      SharePages(m, m', src, dst, i, At(m, Loc(src, k)).frame);
    }
  }

  lemma ShareApart(m: Mem, m': Mem, src: nat, dst: nat, i: nat)
    requires LiveInv(m) && SpaceCounted(m, src) && Shareable(m, src, dst, i, {}) && Shared(m, m', src, dst, i)
    requires m.frames[src].Directory? && m.frames[dst].Directory? && At(m, Loc(src, i)).pr && UserIndex(i)
    ensures UncountedApart(m')
  {
    ShareNamers(m, m', src, dst, i);
    forall x: Loc | Live(m', x) && m'.frames[x.frame].Table? && Uncounted(m', x)
      ensures Sole(m', x.frame)
    {
      assert Live(m, x);
      LiveSlotOk(m, x);
      ReachedBy(m, x.frame);
      SharePages(m, m', src, dst, i, x.frame);
      assert Uncounted(m, Loc(x.frame, x.index)) && TableCounted(m, At(m, Loc(src, i)).frame);
    }
  }

  lemma ReachedBy(m: Mem, t: nat)
    requires LiveInv(m) && TableNamers(m, t) != {}
    ensures t < |m.frames| && m.frames[t].Table? && forall j: nat :: At(m, Loc(t, j)).pr ==> SlotOk(m, Loc(t, j))
  {
    var x :| x in TableNamers(m, t);
    ReachedEntries(m, x);
  }

  lemma ShareLive(m: Mem, src: nat, dst: nat, i: nat)
    requires LiveInv(m) && SpaceCounted(m, src) && Shareable(m, src, dst, i, {}) && UserIndex(i)
    requires m.frames[src].Directory? && m.frames[dst].Directory? && At(m, Loc(src, i)).pr
    ensures var m' := RefInto(m, src, dst, i); LiveInv(m') && SpaceCounted(m', src) && Shared(m, m', src, dst, i)
  {
    hide RefInto, Uncounted;
    var m' := RefInto(m, src, dst, i);
    var live := LiveSlots(m);
    LiveSlotOk(m, Loc(src, i));
    CountedEntry(m, src, i);
    LiveShare(m, src, dst, i, false, live, {});
    ShareNamers(m, m', src, dst, i);
    FewerLive(m', live + {Loc(dst, i)}, LiveSlots(m'), {});
    ShareApart(m, m', src, dst, i);
    ShareCounted(m, m', src, dst, i);
  }

  lemma CountedEntry(m: Mem, d: nat, i: nat)
    requires SpaceCounted(m, d) && IsSlot(m, Loc(d, i)) && UserIndex(i) && At(m, Loc(d, i)).pr
    ensures !At(m, Loc(d, i)).rw && At(m, Loc(d, i)).frame < |m.refs| ==> m.refs[At(m, Loc(d, i)).frame] > 0
  {
    assert !Uncounted(m, Loc(d, i));
  }

  /** Copying an entry as it is leaves the shared space counted. */
  lemma InertCounted(m: Mem, src: nat, dst: nat, i: nat, e: Entry)
    requires SpaceCounted(m, src) && IsEntry(m, Loc(dst, i)) && m.frames[dst].Directory? && src != dst
    requires forall k: nat :: UserIndex(k) && At(m, Loc(src, k)).pr ==> At(m, Loc(src, k)).frame != dst
    ensures SpaceCounted(SetEntry(m, Loc(dst, i), e), src)
  {
    var m' := SetEntry(m, Loc(dst, i), e);
    SetEntryAt(m, Loc(dst, i), e);
    forall k: nat | UserIndex(k) && At(m', Loc(src, k)).pr
      ensures !Uncounted(m', Loc(src, k)) && TableCounted(m', At(m', Loc(src, k)).frame)
    {
      var t := At(m, Loc(src, k)).frame;
      assert At(m', Loc(src, k)) == At(m, Loc(src, k)) && !Uncounted(m, Loc(src, k)) && TableCounted(m, t);
      forall j: nat
        ensures !Uncounted(m', Loc(t, j))
      {
        assert !Uncounted(m, Loc(t, j));
      }
    }
  }

  // ---------------------------------------------------------------------------------------
  // The fork
  // ---------------------------------------------------------------------------------------

  ghost predicate CloneLive(m: Mem, m': Mem, src: nat, dst: nat, n: nat) {
    LiveInv(m') && SpaceCounted(m', src) && CloneShown(m, m', src, dst, n)
  }

  lemma CloneLiveNext(m: Mem, m1: Mem, src: nat, dst: nat, n: nat)
    requires src < |m.frames| && m.frames[src].Directory? && dst < |m.frames| && m.frames[dst].Directory?
    requires src != dst && n < ENTRIES && CloneLive(m, m1, src, dst, n)
    ensures CloneLive(m, CloneEntry(m1, src, dst, n), src, dst, n + 1)
  {
    var e := At(m1, Loc(src, n));
    DirectoryEntries(m1, src, n);
    DirectoryEntries(m1, dst, n);
    hide LiveInv, SpaceCounted, RefInto, SetEntry, View;
    if !e.pr || !UserIndex(n) {
      InertLive(m1, Loc(dst, n), e);
      InertCounted(m1, src, dst, n, e);
      ShownInert(m, m1, src, dst, n);
    } else {
      ShareLive(m1, src, dst, n);
      ShownShared(m, m1, RefInto(m1, src, dst, n), src, dst, n);
    }
  }

  lemma DirectoryEntries(m: Mem, d: nat, n: nat)
    requires LiveInv(m) && d < |m.frames| && m.frames[d].Directory? && n < ENTRIES
    ensures IsEntry(m, Loc(d, n)) && (IsSlot(m, Loc(d, n)) <==> UserIndex(n))
    ensures forall k: nat :: UserIndex(k) && At(m, Loc(d, k)).pr ==>
              At(m, Loc(d, k)).frame < |m.frames| && m.frames[At(m, Loc(d, k)).frame].Table?
  {
    forall k: nat | UserIndex(k) && At(m, Loc(d, k)).pr
      ensures At(m, Loc(d, k)).frame < |m.frames| && m.frames[At(m, Loc(d, k)).frame].Table?
    {
      LiveSlotOk(m, Loc(d, k));
    }
  }

  lemma CloneLiveStart(m: Mem, src: nat, dst: nat)
    requires LiveInv(m) && SpaceCounted(m, src) && forall i: nat :: !At(m, Loc(dst, i)).pr
    ensures CloneLive(m, m, src, dst, 0)
  {
  }

  lemma {:induction false} CloneUpToLive(m: Mem, src: nat, dst: nat, n: nat)
    requires LiveInv(m) && SpaceCounted(m, src) && src != dst && n <= ENTRIES
    requires src < |m.frames| && m.frames[src].Directory? && dst < |m.frames| && m.frames[dst].Directory?
    requires forall i: nat :: !At(m, Loc(dst, i)).pr
    ensures CloneLive(m, CloneUpTo(m, src, dst, n), src, dst, n)
  {
    hide LiveInv, SpaceCounted, CloneLive, CloneEntry;
    if n == 0 {
      CloneLiveStart(m, src, dst);
    } else {
      CloneUpToLive(m, src, dst, n - 1);
      CloneLiveNext(m, CloneUpTo(m, src, dst, n - 1), src, dst, n - 1);
    }
  }

  lemma FreshCounted(m: Mem, m1: Mem, c: nat, d: nat)
    requires LiveInv(m) && Allocated(m, m1, c, DirectoryKind, LiveSlots(m), {}) && d < |m.frames| && m.frames[d].Directory?
    ensures SpaceCounted(m1, d) <==> SpaceCounted(m, d)
  {
    hide Sound;
    forall k: nat | UserIndex(k) && At(m, Loc(d, k)).pr
      ensures At(m1, Loc(d, k)) == At(m, Loc(d, k)) && Uncounted(m1, Loc(d, k)) == Uncounted(m, Loc(d, k))
      ensures TableCounted(m1, At(m, Loc(d, k)).frame) == TableCounted(m, At(m, Loc(d, k)).frame)
    {
      DirectoryEntries(m, d, k);
      assert At(m, Loc(d, k)).frame != c;
      assert forall j: nat :: Uncounted(m1, Loc(At(m, Loc(d, k)).frame, j)) == Uncounted(m, Loc(At(m, Loc(d, k)).frame, j));
    }
    assert forall k: nat :: At(m1, Loc(d, k)) == At(m, Loc(d, k));
  }

  lemma LiveWellFormed(m: Mem)
    requires LiveInv(m)
    ensures WellFormed(m)
  {
  }

  // ---------------------------------------------------------------------------------------
  // Sharing an uncounted entry
  // ---------------------------------------------------------------------------------------

  lemma RefIntoLocal(m: Mem, d: nat, c: nat, k: nat)
    requires IsEntry(m, Loc(d, k)) && IsEntry(m, Loc(c, k)) && d != c && At(m, Loc(d, k)).pr
    ensures var m' := RefInto(m, d, c, k); var e := At(m, Loc(d, k));
            && |m'.frames| == |m.frames| && |m'.refs| == |m.refs| && m'.zero == m.zero
            && m'.free == m.free && m'.avail == m.avail && m'.kernelRefs == m.kernelRefs
            && (forall f :: 0 <= f < |m.frames| && f != d && f != c ==> m'.frames[f] == m.frames[f])
            && m'.frames[d] == m.frames[d].(entries := m.frames[d].entries[k := ReadOnly(e)])
            && m'.frames[c] == m.frames[c].(entries := m.frames[c].entries[k := ReadOnly(e)])
            && (forall f :: 0 <= f < |m.refs| && f != e.frame ==> m'.refs[f] == m.refs[f])
            && (!e.rw && e.frame < |m.refs| ==> m'.refs[e.frame] == (m.refs[e.frame] + 1) % COUNTER_MOD)
  {
  }

  /** Entry `i` is the only one of directory `d` that names `f`, read-only and with counter 0. */
  ghost predicate OnlyUncounted(m: Mem, d: nat, i: nat, f: nat) {
    && UserIndex(i) && At(m, Loc(d, i)).pr && !At(m, Loc(d, i)).rw && At(m, Loc(d, i)).frame == f
    && f < |m.refs| && m.refs[f] == 0
    && (forall k: nat :: UserIndex(k) && k != i && At(m, Loc(d, k)).pr ==> At(m, Loc(d, k)).frame != f)
  }

  ghost predicate NamesNot(m: Mem, d: nat, f: nat) {
    forall k: nat :: UserIndex(k) && At(m, Loc(d, k)).pr ==> At(m, Loc(d, k)).frame != f
  }

  /** What the fork does to entries and counters, whatever they were. */
  ghost predicate CloneTraced(m: Mem, m': Mem, d: nat, c: nat, n: nat) {
    && |m'.frames| == |m.frames| && |m'.refs| == |m.refs| && m'.zero == m.zero && m'.kernelRefs == m.kernelRefs
    && (forall f :: 0 <= f < |m.frames| && f != d && f != c ==> m'.frames[f] == m.frames[f])
    && IsEntry(m', Loc(d, 0)) && m'.frames[d].Directory? && IsEntry(m', Loc(c, 0)) && m'.frames[c].Directory?
    && (forall k: nat :: UserIndex(k) ==>
          At(m', Loc(d, k)).pr == At(m, Loc(d, k)).pr && At(m', Loc(d, k)).frame == At(m, Loc(d, k)).frame)
    && (forall k: nat :: UserIndex(k) && k >= n ==> At(m', Loc(d, k)) == At(m, Loc(d, k)))
    && (forall k: nat :: UserIndex(k) && k < n ==>
          At(m', Loc(c, k)).pr == At(m, Loc(d, k)).pr && At(m', Loc(c, k)).frame == At(m, Loc(d, k)).frame)
    && (forall f :: 0 <= f < |m.refs| && NamesNot(m, d, f) ==> m'.refs[f] == m.refs[f])
    && (forall i: nat, f: nat :: OnlyUncounted(m, d, i, f) ==> m'.refs[f] == if i < n then 1 else 0)
  }

  lemma TracedNext(m: Mem, m1: Mem, d: nat, c: nat, n: nat)
    requires d != c && n < ENTRIES && CloneTraced(m, m1, d, c, n)
    ensures CloneTraced(m, CloneEntry(m1, d, c, n), d, c, n + 1)
  {
    var e := At(m1, Loc(d, n));
    assert IsEntry(m1, Loc(d, n)) && IsEntry(m1, Loc(c, n));
    if e.pr && UserIndex(n) {
      RefIntoLocal(m1, d, c, n);
      hide RefInto;
      assert e == At(m, Loc(d, n));
    }
  }

  lemma {:induction false} CloneUpToTraced(m: Mem, d: nat, c: nat, n: nat)
    requires d != c && n <= ENTRIES && IsEntry(m, Loc(d, 0)) && m.frames[d].Directory? && IsEntry(m, Loc(c, 0)) && m.frames[c].Directory?
    ensures CloneTraced(m, CloneUpTo(m, d, c, n), d, c, n)
  {
    if n > 0 {
      hide CloneEntry, CloneTraced;
      CloneUpToTraced(m, d, c, n - 1);
      TracedNext(m, CloneUpTo(m, d, c, n - 1), d, c, n - 1);
    }
  }

  /** A shared table whose own entry was not counted has two users at counter 1. */
  lemma SharedTooLittle(m: Mem, m': Mem, d: nat, c: nat, i: nat)
    requires LiveInv(m) && d != c && d < |m.frames| && m.frames[d].Directory? && UserIndex(i)
    requires At(m, Loc(d, i)).pr && Uncounted(m, Loc(d, i)) && CloneTraced(m, m', d, c, ENTRIES)
    ensures !LiveInv(m')
  {
    var x, y := Loc(d, i), Loc(c, i);
    var t := At(m, x).frame;
    LiveSlotOk(m, x);
    SoleLive(m, x, LiveSlots(m), {});
    forall k: nat | UserIndex(k) && k != i && At(m, Loc(d, k)).pr
      ensures At(m, Loc(d, k)).frame != t
    {
      assert IsSlot(m, Loc(d, k)) && Live(m, Loc(d, k));
      assert At(m, Loc(d, k)).frame == t ==> Loc(d, k) in LiveNamers(m, t, LiveSlots(m));
    }
    assert OnlyUncounted(m, d, i, t);
    hide LiveInv, Sound;
    assert m'.refs[t] == 1 && Live(m', x) && Live(m', y);
    if LiveInv(m') {
      TwoUsers(m', x, y);
    }
  }

  /** A frame with two live entries has a counter of at least 2. */
  lemma TwoUsers(m: Mem, x: Loc, y: Loc)
    requires LiveInv(m) && Live(m, x) && Live(m, y) && x != y && At(m, x).frame == At(m, y).frame
    ensures At(m, x).frame < |m.refs| && m.refs[At(m, x).frame] >= 2
  {
    var t := At(m, x).frame;
    LiveSlotOk(m, x);
    LiveSlotOk(m, y);
    var names := LiveNamers(m, t, LiveSlots(m));
    assert LiveOk(m, t, LiveSlots(m), {});
    assert x in names && y in names - {x};
    assert |names - {x}| == |names| - 1;
  }

  /** An uncounted page in a table that two processes use from now on. */
  lemma SharedPage(m: Mem, m': Mem, d: nat, c: nat, i: nat, j: nat)
    requires LiveInv(m) && d != c && d < |m.frames| && m.frames[d].Directory? && UserIndex(i)
    requires c < |m.frames| && m.frames[c].Directory?
    requires At(m, Loc(d, i)).pr && Uncounted(m, Loc(At(m, Loc(d, i)).frame, j)) && CloneTraced(m, m', d, c, ENTRIES)
    ensures !LiveInv(m')
  {
    var t := At(m, Loc(d, i)).frame;
    var l := Loc(t, j);
    assert IsSlot(m, Loc(d, i));
    ReachedEntries(m, Loc(d, i));
    DirectoryEntries(m, d, i);
    assert NamesNot(m, d, At(m, l).frame);
    hide LiveInv;
    assert m'.frames[t] == m.frames[t] && Uncounted(m', l);
    assert Loc(d, i) in TableNamers(m', t) && Loc(c, i) in TableNamers(m', t);
    assert !Sole(m', t);
    assert Live(m', l);
  }

  /** Right after the fork the child shows what the parent shows, counted or not. */
  lemma TracedShows(m: Mem, m': Mem, d: nat, c: nat)
    requires LiveInv(m) && d != c && d < |m.frames| && m.frames[d].Directory? && c < |m.frames| && m.frames[c].Directory?
    requires CloneTraced(m, m', d, c, ENTRIES)
    ensures forall d': nat, i: nat, j: nat :: d' != c ==> View(m', d', i, j, {}) == View(m, d', i, j, {})
    ensures forall i: nat, j: nat :: View(m', c, i, j, {}) == View(m, d, i, j, {})
  {
    forall d': nat, i: nat, j: nat
      ensures d' != c ==> View(m', d', i, j, {}) == View(m, d', i, j, {})
      ensures d' == c ==> View(m', c, i, j, {}) == View(m, d, i, j, {})
    {
      TracedShowsAt(m, m', d, c, d', if d' == c then d else d', i, j);
    }
  }

  lemma TracedShowsAt(m: Mem, m': Mem, d: nat, c: nat, x: nat, y: nat, i: nat, j: nat)
    requires LiveInv(m) && d != c && d < |m.frames| && m.frames[d].Directory? && c < |m.frames| && m.frames[c].Directory?
    requires CloneTraced(m, m', d, c, ENTRIES) && y == if x == c then d else x
    ensures View(m', x, i, j, {}) == View(m, y, i, j, {})
  {
    LiveWellFormed(m);
    assert IsSlot(m', Loc(x, i)) && m'.frames[x].Directory? <==> IsSlot(m, Loc(y, i)) && m.frames[y].Directory?;
    if IsSlot(m, Loc(y, i)) && m.frames[y].Directory? && At(m, Loc(y, i)).pr {
      ReachedEntries(m, Loc(y, i));
      hide LiveInv, OnlyUncounted, NamesNot;
      var t := At(m, Loc(y, i)).frame;
      assert At(m', Loc(x, i)).pr && At(m', Loc(x, i)).frame == t && m'.frames[t] == m.frames[t];
      assert forall k: nat :: At(m', Loc(t, k)) == At(m, Loc(t, k));
      SameTableFrom(m, t, m', t);
    }
  }

  lemma ForkShownTraced(m: Mem, m1: Mem, m': Mem, d: nat, c: nat)
    requires LiveInv(m1) && d < |m.frames| && m.frames[d].Directory? && c < |m.frames| && m.frames[c].Free?
    requires m1.frames == m.frames[c := Zeroed(DirectoryKind)] && m1.zero == m.zero && m1.kernelRefs == m.kernelRefs
    requires SameViews(m, m1, {}, {}) && CloneTraced(m1, m', d, c, ENTRIES) && KernelCopied(m1, m', d, c, ENTRIES)
    ensures ForkShown(m, m', d, c)
  {
    KernelForkedFrom(m, m1, m', d, c);
    hide KernelForked, KernelCopied;
    TracedShows(m1, m', d, c);
    hide LiveInv, View, OnlyUncounted, NamesNot;
    assert SameView(m, m1, d, {});
    forall d': nat, i: nat, j: nat
      ensures View(m', d', i, j, {}) == View(m, if d' == c then d else d', i, j, {})
    {
      assert SameView(m, m1, d', {});
    }
  }

  /** The sharing fork shows the child what the parent sees; the views stay sound exactly when it shares counted entries only. */
  lemma CloneKeepsLiveIff(m: Mem, d: nat)
    requires LiveInv(m) && d < |m.frames| && m.frames[d].Directory? && CloneDirectory(m, d).Some?
    ensures var (m', c) := CloneDirectory(m, d).value;
            ForkShown(m, m', d, c) && (LiveInv(m') <==> SpaceCounted(m, d))
  {
    var (m1, c) := Alloc(m, DirectoryKind).value;
    FreshDirectoryLive(m);
    FreshCounted(m, m1, c, d);
    DirectoryEntries(m1, d, 0);
    DirectoryEntries(m1, c, 0);
    hide Alloc, LiveInv, CloneUpTo, SpaceCounted, CloneTraced;
    CloneUpToTraced(m1, d, c, ENTRIES);
    CloneUpToCopied(m1, d, c, ENTRIES);
    ForkShownTraced(m, m1, CloneUpTo(m1, d, c, ENTRIES), d, c);
    if SpaceCounted(m, d) {
      CloneUpToLive(m1, d, c, ENTRIES);
    } else {
      MiscountedFork(m1, CloneUpTo(m1, d, c, ENTRIES), d, c);
    }
  }

  lemma MiscountedFork(m: Mem, m': Mem, d: nat, c: nat)
    requires LiveInv(m) && d != c && d < |m.frames| && m.frames[d].Directory? && c < |m.frames| && m.frames[c].Directory?
    requires !SpaceCounted(m, d) && CloneTraced(m, m', d, c, ENTRIES)
    ensures !LiveInv(m')
  {
    hide LiveInv, CloneTraced, Uncounted;
    var i: nat :| UserIndex(i) && At(m, Loc(d, i)).pr &&
                  !(!Uncounted(m, Loc(d, i)) && TableCounted(m, At(m, Loc(d, i)).frame));
    if Uncounted(m, Loc(d, i)) {
      SharedTooLittle(m, m', d, c, i);
    } else {
      var j: nat :| Uncounted(m, Loc(At(m, Loc(d, i)).frame, j));
      SharedPage(m, m', d, c, i, j);
    }
  }
}
