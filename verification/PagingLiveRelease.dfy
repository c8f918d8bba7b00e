/** COW::unref and free_directory when the counters need not be right. */
module PagingLiveRelease {
  import opened Wrappers
  import opened Paging
  import opened PagingInvariant
  import opened PagingSteps
  import opened PagingRelease
  import opened PagingLive
  import opened PagingLiveCopy

  /** The entries that stay live keep their data, and none of them loses its last count. */
  ghost predicate StillLive(m: Mem, m': Mem, live: set<Loc>) {
    && |m'.frames| == |m.frames| == |m.refs| == |m'.refs|
    && (forall x :: x in live && SlotOk(m, x) && m.frames[x.frame].Table? ==>
          && m'.frames[At(m, x).frame] == m.frames[At(m, x).frame]
          && (m'.refs[At(m, x).frame] == 0 ==> m.refs[At(m, x).frame] == 0))
  }

  /** What dropping entry `l` of a table leaves behind. */
  ghost predicate LiveDropped(m: Mem, m': Mem, l: Loc, live: set<Loc>, hole: set<Loc>) {
    && Sound(m', live - {l}, hole)
    && SameDirectories(m, m')
    && (forall x: Loc :: IsSlot(m', x) == IsSlot(m, x))
    && (forall x: Loc :: IsSlot(m, x) && x != l ==> At(m', x) == At(m, x))
    && !At(m', l).pr
    && StillLive(m, m', live - {l})
    && (forall f :: 0 <= f < |m.frames| && m.frames[f].Table? ==> m'.refs[f] == m.refs[f])
  }

  lemma CloseLive(m: Mem, m2: Mem, l: Loc, live: set<Loc>, hole: set<Loc>)
    requires IsSlot(m, l) && m.frames[l.frame].Table? && l !in hole
    requires Sound(m2, live - {l}, hole + {l}) && SameDirectories(m, m2) && StillLive(m, m2, live - {l})
    requires forall x: Loc :: IsSlot(m2, x) == IsSlot(m, x) && At(m2, x) == At(m, x)
    requires forall x :: x in live ==> SlotOk(m, x)
    requires forall f :: 0 <= f < |m.frames| && m.frames[f].Table? ==> m2.refs[f] == m.refs[f]
    ensures LiveDropped(m, SetEntry(m2, l, NO_ENTRY), l, live, hole)
  {
    LiveClose(m2, l, NO_ENTRY, live - {l}, hole);
    SetEntryAt(m2, l, NO_ENTRY);
  }

  /** The frame of `l` is released when nobody else claims it. */
  lemma ReleaseLive(m: Mem, m1: Mem, l: Loc, live: set<Loc>, hole: set<Loc>)
    requires Sound(m, live, hole) && l in live && m.frames[l.frame].Table? && m1 == m.(refs := m1.refs)
    requires var f := At(m, l).frame;
             && Sound(m1, live - {l}, hole + {l}) && f != m.zero && |m1.refs| == |m.refs| && m1.refs[f] == 0
             && LiveNamers(m1, f, live - {l}) == {}
             && (forall g :: 0 <= g < |m.refs| && g != f ==> m1.refs[g] == m.refs[g])
    ensures LiveDropped(m, SetEntry(Dealloc(m1, At(m, l).frame), l, NO_ENTRY), l, live, hole)
  {
    var f := At(m, l).frame;
    assert SlotOk(m, l);
    assert forall x: Loc :: IsSlot(m1, x) == IsSlot(m, x) && At(m1, x) == At(m, x);
    LiveDealloc(m1, f, live - {l}, hole + {l});
    DeallocSlots(m1, f);
    assert StillLive(m, Dealloc(m1, f), live - {l});
    CloseLive(m, Dealloc(m1, f), l, live, hole);
  }

  /** With other live entries on its frame, a counted entry leaves the counter above 0. */
  lemma DropKeepsCount(m: Mem, l: Loc, live: set<Loc>, hole: set<Loc>)
    requires Sound(m, live, hole) && l in live && !At(m, l).rw
    ensures StillLive(m, DecRef(m, At(m, l).frame), live - {l})
  {
    var f := At(m, l).frame;
    LiveDrop(m, l, live, hole);
    forall x | x in live - {l} && At(m, x).frame == f
      ensures m.refs[f] > 1
    {
      assert x in LiveNamers(m, f, live);
    }
  }

  lemma UnrefDataLive(m: Mem, l: Loc, live: set<Loc>, hole: set<Loc>)
    requires Sound(m, live, hole) && IsSlot(m, l) && m.frames[l.frame].Table? && l !in hole
    requires At(m, l).pr ==> l in live
    ensures LiveDropped(m, UnrefData(m, l), l, live, hole)
  {
    var e := At(m, l);
    assert forall x :: x in live ==> SlotOk(m, x);
    if !e.pr {
      FewerLive(m, live, live - {l}, hole);
    } else if e.rw {
      LiveDropOwned(m, l, live, hole);
      ReleaseLive(m, m, l, live, hole);
    } else {
      LiveDrop(m, l, live, hole);
      DropKeepsCount(m, l, live, hole);
      var m1 := DecRef(m, e.frame);
      if Count(m1, e.frame) == 0 {
        ReleaseLive(m, m1, l, live, hole);
      } else {
        assert forall x: Loc :: IsSlot(m1, x) == IsSlot(m, x) && At(m1, x) == At(m, x);
        CloseLive(m, m1, l, live, hole);
      }
    }
  }

  // ---------------------------------------------------------------------------------------
  // Page tables
  // ---------------------------------------------------------------------------------------

  ghost predicate LiveEmptied(m: Mem, m': Mem, t: nat, n: nat, live: set<Loc>, hole: set<Loc>) {
    && Sound(m', live - Row(t, n), hole)
    && SameDirectories(m, m')
    && (forall x: Loc :: IsSlot(m', x) == IsSlot(m, x))
    && (forall x: Loc :: IsSlot(m, x) && (x.frame != t || x.index >= n) ==> At(m', x) == At(m, x))
    && (forall i: nat :: i < n ==> !At(m', Loc(t, i)).pr)
    && StillLive(m, m', live - Row(t, n))
    && (forall f :: 0 <= f < |m.frames| && m.frames[f].Table? ==> m'.refs[f] == m.refs[f])
  }

  lemma LiveEmptiedStart(m: Mem, t: nat, live: set<Loc>, hole: set<Loc>)
    requires Sound(m, live, hole)
    ensures LiveEmptied(m, m, t, 0, live, hole)
  {
    assert live - Row(t, 0) == live;
  }

  lemma LiveEmptiedNext(m: Mem, m1: Mem, t: nat, n: nat, live: set<Loc>, hole: set<Loc>)
    requires Sound(m, live, hole) && n < ENTRIES && t < |m.frames| && m.frames[t].Table?
    requires forall x :: x in hole ==> x.frame != t
    requires forall i: nat :: At(m, Loc(t, i)).pr ==> Loc(t, i) in live
    requires LiveEmptied(m, m1, t, n, live, hole)
    ensures LiveEmptied(m, UnrefData(m1, Loc(t, n)), t, n + 1, live, hole)
  {
    var live1 := live - Row(t, n);
    assert IsSlot(m, Loc(t, n));
    SlotsKeepTables(m, m1);
    assert At(m1, Loc(t, n)) == At(m, Loc(t, n));
    UnrefDataLive(m1, Loc(t, n), live1, hole);
    var m' := UnrefData(m1, Loc(t, n));
    hide UnrefData;
    assert live1 - {Loc(t, n)} == live - Row(t, n + 1);
    EmptiedStill(m, m1, m', t, n, live, hole);
  }

  lemma EmptiedStill(m: Mem, m1: Mem, m': Mem, t: nat, n: nat, live: set<Loc>, hole: set<Loc>)
    requires Sound(m, live, hole) && LiveEmptied(m, m1, t, n, live, hole)
    requires StillLive(m1, m', live - Row(t, n + 1))
    ensures StillLive(m, m', live - Row(t, n + 1))
  {
    SlotsKeepTables(m, m1);
    forall x | x in live - Row(t, n + 1) && m.frames[x.frame].Table?
      ensures m'.frames[At(m, x).frame] == m.frames[At(m, x).frame]
      ensures m'.refs[At(m, x).frame] == 0 ==> m.refs[At(m, x).frame] == 0
    {
      assert x in live - Row(t, n);
      assert SlotOk(m, x) && SlotOk(m1, x);
    }
  }

  lemma {:induction false} UnrefUpToLive(m: Mem, t: nat, n: nat, live: set<Loc>, hole: set<Loc>)
    requires Sound(m, live, hole) && n <= ENTRIES && t < |m.frames| && m.frames[t].Table?
    requires forall x :: x in hole ==> x.frame != t
    requires forall i: nat :: At(m, Loc(t, i)).pr ==> Loc(t, i) in live
    ensures LiveEmptied(m, UnrefUpTo(m, t, n), t, n, live, hole)
  {
    hide Sound, LiveEmptied, UnrefData;
    if n == 0 {
      LiveEmptiedStart(m, t, live, hole);
    } else {
      UnrefUpToLive(m, t, n - 1, live, hole);
      LiveEmptiedNext(m, UnrefUpTo(m, t, n - 1), t, n - 1, live, hole);
    }
  }

  /** Directory entry `l` is gone; nothing else changed for anyone. */
  ghost predicate LiveDetached(m: Mem, m': Mem, l: Loc) {
    && LiveInv(m')
    && SameDirectories(m, m')
    && (forall d: nat, i: nat, j: nat :: View(m', d, i, j, {}) == if Loc(d, i) == l then None else View(m, d, i, j, {}))
    && !At(m', l).pr
    && (forall x: Loc :: x != l && IsSlot(m, x) && m.frames[x.frame].Directory? ==> At(m', x) == At(m, x))
  }

  /** `gone` holds the entries of the table of `l` that were cleared: all of them or none. */
  ghost predicate Unlinked(m: Mem, m': Mem, l: Loc, live: set<Loc>, gone: bool) {
    && SameDirectories(m, m') && StillLive(m, m', live)
    && (forall x: Loc :: IsSlot(m', x) == (IsSlot(m, x) && !(gone && x.frame == At(m, l).frame)))
    && (forall x: Loc :: IsSlot(m', x) && x != l ==> At(m', x) == At(m, x))
    && !At(m', l).pr
    && (gone ==> TableNamers(m, At(m, l).frame) == {l})
    && live == LiveSlots(m) - {l} - (if gone then Row(At(m, l).frame, ENTRIES) else {})
    && (forall f :: 0 <= f < |m.frames| && f != At(m, l).frame && m.frames[f].Table? ==> m'.frames[f].Table?)
    && (!gone && At(m, l).frame < |m.frames| && m.frames[At(m, l).frame].Table? ==> m'.frames[At(m, l).frame].Table?)
  }

  lemma UnlinkedNamers(m: Mem, m': Mem, l: Loc, live: set<Loc>, gone: bool)
    requires LiveInv(m) && IsSlot(m, l) && m.frames[l.frame].Directory? && At(m, l).pr
    requires Unlinked(m, m', l, live, gone)
    ensures forall t: nat :: TableNamers(m', t) == TableNamers(m, t) - {l}
    ensures forall x: Loc :: Live(m', x) ==> Live(m, x) && x in live && At(m', x) == At(m, x)
  {
    assert l in LiveSlots(m) && SlotOk(m, l);
    hide Sound;
    forall t: nat
      ensures TableNamers(m', t) == TableNamers(m, t) - {l}
    {
    }
    forall x: Loc | Live(m', x)
      ensures Live(m, x) && x in live && At(m', x) == At(m, x)
    {
      assert x != l;
      assert m'.frames[x.frame].Directory? == m.frames[x.frame].Directory?;
      assert m.frames[x.frame].Table? ==> TableNamers(m', x.frame) != {};
    }
  }

  lemma UnlinkedViews(m: Mem, m': Mem, l: Loc, live: set<Loc>, gone: bool)
    requires LiveInv(m) && WellFormed(m') && IsSlot(m, l) && m.frames[l.frame].Directory? && At(m, l).pr
    requires Unlinked(m, m', l, live, gone)
    ensures forall d: nat, i: nat, j: nat :: View(m', d, i, j, {}) == if Loc(d, i) == l then None else View(m, d, i, j, {})
  {
    forall d: nat, i: nat, j: nat
      ensures View(m', d, i, j, {}) == if Loc(d, i) == l then None else View(m, d, i, j, {})
    {
      var x := Loc(d, i);
      if x != l && IsSlot(m, x) && m.frames[d].Directory? && At(m, x).pr {
        UnlinkedTable(m, m', l, live, gone, x);
      }
    }
  }

  lemma UnlinkedTable(m: Mem, m': Mem, l: Loc, live: set<Loc>, gone: bool, x: Loc)
    requires LiveInv(m) && WellFormed(m') && IsSlot(m, l) && m.frames[l.frame].Directory? && At(m, l).pr
    requires Unlinked(m, m', l, live, gone)
    requires x != l && IsSlot(m, x) && m.frames[x.frame].Directory? && At(m, x).pr
    ensures IsSlot(m', x) && At(m', x) == At(m, x) && SameTable(m, At(m, x).frame, m', At(m, x).frame)
  {
    hide LiveInv;
    ReachedEntries(m, l);
    ReachedEntries(m, x);
    var u := At(m, x).frame;
    assert x in TableNamers(m, u);
    assert gone ==> u != At(m, l).frame;
    forall j: nat | j < ENTRIES
      ensures At(m', Loc(u, j)) == At(m, Loc(u, j))
      ensures At(m, Loc(u, j)).pr ==> m'.frames[At(m, Loc(u, j)).frame] == m.frames[At(m, Loc(u, j)).frame]
    {
      assert IsSlot(m, Loc(u, j)) && IsSlot(m', Loc(u, j)) && Loc(u, j) != l;
      if At(m, Loc(u, j)).pr {
        assert Loc(u, j) in live;
      }
    }
    SameTableFrom(m, u, m', u);
  }

  lemma DetachedLive(m: Mem, m': Mem, l: Loc, live: set<Loc>, gone: bool)
    requires LiveInv(m) && IsSlot(m, l) && m.frames[l.frame].Directory? && At(m, l).pr
    requires Unlinked(m, m', l, live, gone) && Sound(m', live, {})
    ensures LiveDetached(m, m', l)
  {
    UnlinkedNamers(m, m', l, live, gone);
    assert forall x :: x in LiveSlots(m') ==> x in live;
    FewerLive(m', live, LiveSlots(m'), {});
    UnlinkedViews(m, m', l, live, gone);
    forall x: Loc | Live(m', x) && m'.frames[x.frame].Table? && Uncounted(m', x)
      ensures Sole(m', x.frame)
    {
      assert x in live && x in LiveSlots(m) && SlotOk(m, x);
      assert m.frames[x.frame].Table?;
      assert Uncounted(m, x);
    }
    hide Sound, Live;
    forall x: Loc | x != l && IsSlot(m, x) && m.frames[x.frame].Directory?
      ensures At(m', x) == At(m, x)
    {
      ReachedEntries(m, l);
      assert IsSlot(m', x);
    }
  }

  /** Clearing the entries of a table nobody claims any more, releasing it, and unlinking it. */
  lemma TakeDownLive(m: Mem, m1: Mem, l: Loc)
    requires LiveInv(m) && IsSlot(m, l) && m.frames[l.frame].Directory? && At(m, l).pr
    requires m1 == m.(refs := m1.refs) && |m1.refs| == |m.refs|
    requires var t := At(m, l).frame;
             && Sound(m1, LiveSlots(m) - {l}, {l}) && t < |m.refs| && m1.refs[t] == 0 && t != m.zero
             && LiveNamers(m, t, LiveSlots(m)) == {l}
             && (forall f :: 0 <= f < |m.refs| && f != t ==> m1.refs[f] == m.refs[f])
    ensures LiveDetached(m, SetEntry(Dealloc(UnrefUpTo(m1, At(m, l).frame, ENTRIES), At(m, l).frame), l, NO_ENTRY), l)
  {
    var t := At(m, l).frame;
    var live := LiveSlots(m) - {l};
    hide LiveInv, UnrefUpTo;
    ReachedEntries(m, l);
    assert forall x: Loc :: IsSlot(m1, x) == IsSlot(m, x) && At(m1, x) == At(m, x);
    UnrefUpToLive(m1, t, ENTRIES, live, {l});
    TakeDownLiveEnd(m, m1, UnrefUpTo(m1, t, ENTRIES), l);
  }

  lemma TakeDownLiveEnd(m: Mem, m1: Mem, m2: Mem, l: Loc)
    requires LiveInv(m) && IsSlot(m, l) && m.frames[l.frame].Directory? && At(m, l).pr
    requires m1 == m.(refs := m1.refs) && |m1.refs| == |m.refs|
    requires var t := At(m, l).frame;
             && t < |m.refs| && m1.refs[t] == 0 && t != m.zero
             && LiveNamers(m, t, LiveSlots(m)) == {l}
             && (forall f :: 0 <= f < |m.refs| && f != t ==> m1.refs[f] == m.refs[f])
             && LiveEmptied(m1, m2, t, ENTRIES, LiveSlots(m) - {l}, {l})
    ensures LiveDetached(m, SetEntry(Dealloc(m2, At(m, l).frame), l, NO_ENTRY), l)
  {
    var t := At(m, l).frame;
    var live := LiveSlots(m) - {l} - Row(t, ENTRIES);
    ReachedEntries(m, l);
    SlotsKeepTables(m1, m2);
    assert forall x: Loc :: IsSlot(m1, x) == IsSlot(m, x) && At(m1, x) == At(m, x);
    assert forall x :: x in live ==> IsSlot(m, x) && x.frame != t && At(m2, x) == At(m, x);
    assert LiveNamers(m2, t, live) == {} by {
      forall x | x in live
        ensures At(m2, x).frame != t
      {
        assert At(m, x).frame == t ==> x in LiveNamers(m, t, LiveSlots(m));
      }
    }
    LiveDealloc(m2, t, live, {l});
    var m3 := Dealloc(m2, t);
    assert {} + {l} == {l};
    LiveClose(m3, l, NO_ENTRY, live, {});
    SetEntryAt(m3, l, NO_ENTRY);
    TakenDown(m, m1, m2, l, live);
    DetachedLive(m, SetEntry(m3, l, NO_ENTRY), l, live, true);
  }

  lemma TakenDown(m: Mem, m1: Mem, m2: Mem, l: Loc, live: set<Loc>)
    requires LiveInv(m) && IsSlot(m, l) && m.frames[l.frame].Directory? && At(m, l).pr
    requires m1 == m.(refs := m1.refs) && |m1.refs| == |m.refs|
    requires var t := At(m, l).frame;
             && t < |m.refs| && LiveNamers(m, t, LiveSlots(m)) == {l}
             && (forall f :: 0 <= f < |m.refs| && f != t ==> m1.refs[f] == m.refs[f])
             && LiveEmptied(m1, m2, t, ENTRIES, LiveSlots(m) - {l}, {l})
             && live == LiveSlots(m) - {l} - Row(t, ENTRIES)
    ensures Unlinked(m, SetEntry(Dealloc(m2, At(m, l).frame), l, NO_ENTRY), l, live, true)
  {
    hide LiveInv, Sound, Live, LiveSlots;
    var t := At(m, l).frame;
    ReachedEntries(m, l);
    SlotsKeepTables(m1, m2);
    assert forall x: Loc :: IsSlot(m1, x) == IsSlot(m, x) && At(m1, x) == At(m, x);
    var m3 := Dealloc(m2, t);
    assert forall x: Loc :: IsSlot(m3, x) == (IsSlot(m2, x) && x.frame != t);
    assert forall x: Loc :: x.frame != t ==> At(m3, x) == At(m2, x);
    OnlyNamer(m, l);
    hide LiveNamers, TableNamers;
    SetEntryAt(m3, l, NO_ENTRY);
    TakenDownLive(m, m1, m2, SetEntry(m3, l, NO_ENTRY), l, live);
    hide SetEntry, Dealloc, StillLive;
  }

  lemma OnlyNamer(m: Mem, l: Loc)
    requires IsSlot(m, l) && m.frames[l.frame].Directory? && At(m, l).pr
    requires LiveNamers(m, At(m, l).frame, LiveSlots(m)) == {l}
    ensures TableNamers(m, At(m, l).frame) == {l}
  {
    forall x | x in TableNamers(m, At(m, l).frame)
      ensures x == l
    {
      assert x in LiveNamers(m, At(m, l).frame, LiveSlots(m));
    }
  }

  lemma TakenDownLive(m: Mem, m1: Mem, m2: Mem, m': Mem, l: Loc, live: set<Loc>)
    requires m1 == m.(refs := m1.refs) && |m1.refs| == |m.refs| && m'.refs == m2.refs && |m'.frames| == |m.frames|
    requires SlotOk(m, l) && m.frames[l.frame].Directory?
    requires (forall f :: 0 <= f < |m.refs| && f != At(m, l).frame ==> m1.refs[f] == m.refs[f])
    requires StillLive(m1, m2, live)
    requires forall f :: 0 <= f < |m.frames| && f != At(m, l).frame && f != l.frame ==> m'.frames[f] == m2.frames[f]
    ensures StillLive(m, m', live)
  {
    assert forall x: Loc :: IsSlot(m1, x) == IsSlot(m, x) && At(m1, x) == At(m, x);
    forall x | x in live && SlotOk(m, x) && m.frames[x.frame].Table?
      ensures m'.frames[At(m, x).frame] == m.frames[At(m, x).frame]
      ensures m'.refs[At(m, x).frame] == 0 ==> m.refs[At(m, x).frame] == 0
    {
      assert SlotOk(m1, x);
    }
  }

  /** COW::unref on a directory entry, counted or not. */
  lemma UnrefTableLive(m: Mem, l: Loc)
    requires LiveInv(m) && IsSlot(m, l) && m.frames[l.frame].Directory?
    ensures LiveDetached(m, UnrefTable(m, l), l)
  {
    var e := At(m, l);
    var live := LiveSlots(m);
    assert {} + {l} == {l};
    if e.pr {
      ReachedEntries(m, l);
      assert l in live;
      if e.rw {
        LiveDropOwned(m, l, live, {});
        TakeDownLive(m, m, l);
      } else {
        UnrefSharedLive(m, l);
      }
    }
  }

  lemma UnrefSharedLive(m: Mem, l: Loc)
    requires LiveInv(m) && IsSlot(m, l) && m.frames[l.frame].Directory? && At(m, l).pr && !At(m, l).rw
    ensures LiveDetached(m, UnrefTable(m, l), l)
  {
    var t := At(m, l).frame;
    var live := LiveSlots(m);
    ReachedEntries(m, l);
    assert l in live;
    LiveDrop(m, l, live, {});
    assert {} + {l} == {l};
    var m1 := DecRef(m, t);
    if Count(m1, t) == 0 {
      TakeDownLive(m, m1, l);
    } else {
      LiveClose(m1, l, NO_ENTRY, live - {l}, {});
      SetEntryAt(m1, l, NO_ENTRY);
      var m' := SetEntry(m1, l, NO_ENTRY);
      assert live - {l} - {} == live - {l};
      assert Unlinked(m, m', l, live - {l}, false);
      DetachedLive(m, m', l, live - {l}, false);
    }
  }

  // ---------------------------------------------------------------------------------------
  // Directories
  // ---------------------------------------------------------------------------------------

  ghost predicate LiveDirectoryEmptied(m: Mem, m': Mem, d: nat, n: nat) {
    && LiveInv(m')
    && SameDirectories(m, m')
    && (forall d', i: nat, j: nat :: View(m', d', i, j, {}) ==
          if d' == d && USER_DIR_START <= i < n then None else View(m, d', i, j, {}))
    && (forall i: nat :: USER_DIR_START <= i < n ==> !At(m', Loc(d, i)).pr)
  }

  lemma LiveDirectoryNext(m: Mem, m1: Mem, d: nat, n: nat)
    requires d < |m.frames| && m.frames[d].Directory? && USER_DIR_START <= n < USER_DIR_END
    requires LiveDirectoryEmptied(m, m1, d, n)
    ensures LiveDirectoryEmptied(m, UnrefTable(m1, Loc(d, n)), d, n + 1)
  {
    hide UnrefTable, UncountedApart;
    assert IsSlot(m1, Loc(d, n));
    UnrefTableLive(m1, Loc(d, n));
    var m' := UnrefTable(m1, Loc(d, n));
    forall i: nat | USER_DIR_START <= i < n + 1
      ensures !At(m', Loc(d, i)).pr
    {
      assert IsSlot(m1, Loc(d, i));
    }
  }

  lemma {:induction false} UnrefTablesLive(m: Mem, d: nat, n: nat)
    requires LiveInv(m) && d < |m.frames| && m.frames[d].Directory? && USER_DIR_START <= n <= USER_DIR_END
    ensures LiveDirectoryEmptied(m, UnrefTablesFrom(m, d, n), d, n)
  {
    hide LiveInv, UnrefTable;
    if n > USER_DIR_START {
      UnrefTablesLive(m, d, n - 1);
      LiveDirectoryNext(m, UnrefTablesFrom(m, d, n - 1), d, n - 1);
    }
  }

  /** free_directory takes away one address space and no other, even with uncounted entries about. */
  lemma FreeDirectoryLive(m: Mem, d: nat)
    requires LiveInv(m) && d < |m.frames| && m.frames[d].Directory?
    ensures LiveInv(FreeDirectory(m, d)) && DirectoryGone(m, FreeDirectory(m, d), d)
  {
    UnrefTablesLive(m, d, USER_DIR_END);
    var m1 := UnrefTablesFrom(m, d, USER_DIR_END);
    hide UnrefTablesFrom;
    FreeDirectoryEnd(m, m1, d);
  }

  lemma FreeDirectoryEnd(m: Mem, m1: Mem, d: nat)
    requires d < |m.frames| && m.frames[d].Directory? && LiveDirectoryEmptied(m, m1, d, USER_DIR_END)
    ensures LiveInv(Dealloc(m1, d)) && DirectoryGone(m, Dealloc(m1, d), d)
  {
    var live := LiveSlots(m1);
    var m' := Dealloc(m1, d);
    assert NoLiveEntries(m1, d);
    assert LiveNamers(m1, d, live) == {};
    assert LiveOk(m1, d, live, {});
    LiveDealloc(m1, d, live, {});
    hide Sound, Dealloc;
    EmptyDirectoryGone(m1, d);
    assert LiveSlots(m') == live;
  }

  /** Releasing a directory without entries takes away nothing but its frame. */
  lemma EmptyDirectoryGone(m: Mem, d: nat)
    requires d < |m.frames| && m.frames[d].Directory? && NoLiveEntries(m, d) && WellFormed(m)
    requires forall x: Loc :: Live(m, x) ==> x.frame != d && At(m, x).frame != d
    requires UncountedApart(m)
    ensures var m' := Dealloc(m, d);
            && UncountedApart(m')
            && (forall x: Loc :: Live(m', x) == Live(m, x))
            && (forall e: nat, i: nat, j: nat :: View(m', e, i, j, {}) == View(m, e, i, j, {}))
  {
    var m' := Dealloc(m, d);
    assert forall x: Loc :: At(m', x) == if x.frame == d then NO_ENTRY else At(m, x);
    assert forall x: Loc :: x.frame != d ==> IsSlot(m', x) == IsSlot(m, x);
    forall t: nat
      ensures TableNamers(m', t) == TableNamers(m, t)
    {
    }
    forall x: Loc | Live(m', x) && m'.frames[x.frame].Table? && Uncounted(m', x)
      ensures Sole(m', x.frame)
    {
      assert Live(m, x) && Uncounted(m, x);
    }
    forall e: nat, i: nat, j: nat
      ensures View(m', e, i, j, {}) == View(m, e, i, j, {})
    {
      if IsSlot(m, Loc(e, i)) && m.frames[e].Directory? && At(m, Loc(e, i)).pr {
        assert Live(m, Loc(e, i)) && Loc(e, i) in TableNamers(m, At(m, Loc(e, i)).frame);
        var t := At(m, Loc(e, i)).frame;
        assert IsSlot(m, Loc(t, j)) && At(m, Loc(t, j)).pr && m.frames[t].Table? ==> Live(m, Loc(t, j));
      }
    }
  }
}
