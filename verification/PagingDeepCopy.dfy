/**
 The simple fork, clone_directory_no_cow: every page table and every page is copied at once.

 It copies the flags of an entry too.  A read-only entry therefore comes out read-only on a fresh
 frame that nobody counts, which is harmless for what processes see and wrong for the counters.
 */
module PagingDeepCopy {
  import opened Wrappers
  import opened Paging
  import opened PagingInvariant
  import opened PagingSteps
  import opened PagingEntries
  import opened PagingFork
  import opened PagingLive
  import opened PagingLiveCopy
  import opened PagingLiveFork

  // ---------------------------------------------------------------------------------------
  // What the copy shows
  // ---------------------------------------------------------------------------------------

  /** Frames in use are left alone, apart from the one being filled. */
  ghost predicate FramesKept(m: Mem, m': Mem, dst: nat) {
    && |m'.frames| == |m.frames| && m'.refs == m.refs && m'.zero == m.zero && m'.kernelRefs == m.kernelRefs
    && (forall f :: 0 <= f < |m.frames| && !m.frames[f].Free? && f != dst ==> m'.frames[f] == m.frames[f])
    && (forall f :: 0 <= f < |m.frames| ==> m'.frames[f].Directory? == m.frames[f].Directory?)
  }

  /** Entry `e'` is entry `e` on a frame that was free. */
  ghost predicate EntryCopied(m: Mem, e: Entry, e': Entry) {
    && e'.pr == e.pr
    && (e.pr ==> e'.rw == e.rw && e'.flags == e.flags && e'.frame < |m.frames| && m.frames[e'.frame].Free?)
  }

  /** The entries the first `n` rounds add. */
  ghost function Filled(m: Mem, src: nat, dst: nat, n: nat): (r: set<Loc>)
    ensures forall l: Loc :: l in r <==> l.frame == dst && l.index < n && At(m, Loc(src, l.index)).pr
  {
    set j | 0 <= j < n && At(m, Loc(src, j)).pr :: Loc(dst, j)
  }

  /** The first `n` pages of table `src` have been copied into the unreached table `dst`. */
  ghost predicate PagesLaid(m: Mem, m': Mem, src: nat, dst: nat, n: nat) {
    && FramesKept(m, m', dst)
    && (forall x: Loc :: IsSlot(m', x) == IsSlot(m, x))
    && (forall x: Loc :: x.frame != dst ==> At(m', x) == At(m, x))
    && dst < |m'.frames| && m'.frames[dst].Table?
    && (forall j: nat :: j < n ==> EntryCopied(m, At(m, Loc(src, j)), At(m', Loc(dst, j))))
    && (forall j: nat :: j < n && At(m, Loc(src, j)).pr && At(m, Loc(src, j)).frame < |m.frames| ==>
          m'.frames[At(m', Loc(dst, j)).frame] == m.frames[At(m, Loc(src, j)).frame])
    && (forall j: nat :: n <= j ==> !At(m', Loc(dst, j)).pr)
  }

  ghost predicate PagesMirrored(m: Mem, m': Mem, src: nat, dst: nat, n: nat, live: set<Loc>) {
    Sound(m', live + Filled(m, src, dst, n), {}) && PagesLaid(m, m', src, dst, n)
  }

  /** Table `src` can be copied page by page into the empty table `dst`. */
  ghost predicate PagesReady(m: Mem, src: nat, dst: nat, live: set<Loc>) {
    && Sound(m, live, {}) && FreshTable(m, src, dst)
    && (forall j: nat :: At(m, Loc(src, j)).pr ==> Loc(src, j) in live)
    && (forall l :: l in live ==> l.frame != dst && At(m, l).frame != dst)
  }

  lemma PagesMirroredStart(m: Mem, src: nat, dst: nat, live: set<Loc>)
    requires PagesReady(m, src, dst, live)
    ensures PagesMirrored(m, m, src, dst, 0, live)
  {
    assert live + Filled(m, src, dst, 0) == live;
  }

  lemma PagesMirroredNext(m: Mem, m1: Mem, src: nat, dst: nat, n: nat, live: set<Loc>)
    requires PagesReady(m, src, dst, live) && PagesMirrored(m, m1, src, dst, n, live) && n < ENTRIES
    requires DeepPage(m1, src, dst, n).Some?
    ensures PagesMirrored(m, DeepPage(m1, src, dst, n).value, src, dst, n + 1, live)
  {
    var e := At(m1, Loc(src, n));
    var l := Loc(dst, n);
    var live1 := live + Filled(m, src, dst, n);
    assert e == At(m, Loc(src, n));
    assert IsSlot(m, l) && IsSlot(m1, l);
    if !e.pr {
      AbsentMirrored(m, m1, src, dst, n, live);
    } else {
      assert Loc(src, n) in live && Loc(src, n) in live1 && SlotOk(m1, Loc(src, n)) && SlotOk(m, Loc(src, n));
      var (m2, q) := Alloc(m1, DataKind).value;
      LiveAlloc(m1, DataKind, live1, {});
      hide Alloc;
      var bytes := m.frames[e.frame].bytes;
      assert BytesOf(m2, e.frame) == bytes;
      LiveSetBytes(m2, q, bytes, live1, {});
      PageMirrored(m, m1, m2, src, dst, n, live, q);
    }
  }

  lemma AbsentMirrored(m: Mem, m1: Mem, src: nat, dst: nat, n: nat, live: set<Loc>)
    requires PagesReady(m, src, dst, live) && PagesMirrored(m, m1, src, dst, n, live) && n < ENTRIES
    requires !At(m, Loc(src, n)).pr && IsSlot(m1, Loc(dst, n))
    ensures PagesMirrored(m, SetEntry(m1, Loc(dst, n), At(m, Loc(src, n))), src, dst, n + 1, live)
  {
    hide Sound;
    var l := Loc(dst, n);
    var live1 := live + Filled(m, src, dst, n);
    assert Filled(m, src, dst, n + 1) == Filled(m, src, dst, n);
    assert {} + {l} == {l};
    LiveOpen(m1, l, live1, {});
    LiveClose(m1, l, At(m, Loc(src, n)), live1, {});
    SetEntryAt(m1, l, At(m, Loc(src, n)));
  }

  lemma PageMirrored(m: Mem, m1: Mem, m2: Mem, src: nat, dst: nat, n: nat, live: set<Loc>, q: nat)
    requires PagesReady(m, src, dst, live) && PagesMirrored(m, m1, src, dst, n, live) && n < ENTRIES
    requires var e := At(m, Loc(src, n)); e.pr && SlotOk(m, Loc(src, n)) && m.frames[e.frame].Data?
    requires Allocated(m1, m2, q, DataKind, live + Filled(m, src, dst, n), {})
    requires Sound(SetBytes(m2, q, m.frames[At(m, Loc(src, n)).frame].bytes), live + Filled(m, src, dst, n), {})
    ensures var e := At(m, Loc(src, n));
            PagesMirrored(m, SetEntry(SetBytes(m2, q, m.frames[e.frame].bytes), Loc(dst, n), e.(frame := q)), src, dst, n + 1, live)
  {
    hide Sound;
    var e := At(m, Loc(src, n));
    var l := Loc(dst, n);
    var m3 := SetBytes(m2, q, m.frames[e.frame].bytes);
    NotInHole(m, live, {});
    assert IsSlot(m, l) && IsSlot(m1, l);
    assert forall x: Loc :: IsSlot(m3, x) == IsSlot(m1, x) && At(m3, x) == At(m1, x);
    SourceNamesData(m, src, dst, live);
    PageAttached(m, m1, m2, src, dst, n, live, q);
    PageLaid(m, m1, m3, src, dst, n, q);
  }

  lemma SourceNamesData(m: Mem, src: nat, dst: nat, live: set<Loc>)
    requires PagesReady(m, src, dst, live)
    ensures forall j: nat :: At(m, Loc(src, j)).pr ==>
              At(m, Loc(src, j)).frame < |m.frames| && m.frames[At(m, Loc(src, j)).frame].Data?
  {
    forall j: nat | At(m, Loc(src, j)).pr
      ensures At(m, Loc(src, j)).frame < |m.frames| && m.frames[At(m, Loc(src, j)).frame].Data?
    {
      assert Loc(src, j) in live && SlotOk(m, Loc(src, j));
    }
  }

  /** The entry of the copied page is live from now on. */
  lemma PageAttached(m: Mem, m1: Mem, m2: Mem, src: nat, dst: nat, n: nat, live: set<Loc>, q: nat)
    requires FreshTable(m, src, dst) && PagesLaid(m, m1, src, dst, n) && n < ENTRIES && IsSlot(m1, Loc(dst, n))
    requires var e := At(m, Loc(src, n)); e.pr && e.frame < |m.frames| && m.frames[e.frame].Data?
    requires Allocated(m1, m2, q, DataKind, live + Filled(m, src, dst, n), {})
    requires Sound(SetBytes(m2, q, m.frames[At(m, Loc(src, n)).frame].bytes), live + Filled(m, src, dst, n), {})
    ensures var e := At(m, Loc(src, n));
            Sound(SetEntry(SetBytes(m2, q, m.frames[e.frame].bytes), Loc(dst, n), e.(frame := q)),
                  live + Filled(m, src, dst, n + 1), {})
  {
    hide Sound, FreshTable;
    var e := At(m, Loc(src, n));
    var l := Loc(dst, n);
    var live1 := live + Filled(m, src, dst, n);
    var m3 := SetBytes(m2, q, m.frames[e.frame].bytes);
    assert forall x: Loc :: IsSlot(m3, x) == IsSlot(m1, x) && At(m3, x) == At(m1, x);
    assert LiveNamers(m3, q, live1) == {};
    LiveOpen(m3, l, live1, {});
    assert {} + {l} == {l};
    NotInHole(m3, live1, {});
    LiveFill(m3, l, e.(frame := q), live1, {}, m3.kernelRefs);
    assert live1 + {l} == live + Filled(m, src, dst, n + 1);
  }

  lemma PageLaid(m: Mem, m1: Mem, m3: Mem, src: nat, dst: nat, n: nat, q: nat)
    requires FreshTable(m, src, dst) && PagesLaid(m, m1, src, dst, n) && n < ENTRIES && IsSlot(m1, Loc(dst, n))
    requires var e := At(m, Loc(src, n)); e.pr && e.frame < |m.frames| && m.frames[e.frame].Data?
    requires forall j: nat :: j < n && At(m, Loc(src, j)).pr ==>
               At(m, Loc(src, j)).frame < |m.frames| && m.frames[At(m, Loc(src, j)).frame].Data?
    requires q < |m1.frames| && m1.frames[q].Free? && m3.refs == m1.refs && m3.zero == m1.zero && m3.kernelRefs == m1.kernelRefs
    requires m3.frames == m1.frames[q := m.frames[At(m, Loc(src, n)).frame]]
    requires forall x: Loc :: IsSlot(m3, x) == IsSlot(m1, x) && At(m3, x) == At(m1, x)
    ensures PagesLaid(m, SetEntry(m3, Loc(dst, n), At(m, Loc(src, n)).(frame := q)), src, dst, n + 1)
  {
    SetEntryAt(m3, Loc(dst, n), At(m, Loc(src, n)).(frame := q));
    assert m.frames[q].Free?;
  }

  lemma {:induction false} DeepPagesLive(m: Mem, src: nat, dst: nat, n: nat, live: set<Loc>)
    requires PagesReady(m, src, dst, live) && n <= ENTRIES && DeepPagesUpTo(m, src, dst, n).Some?
    ensures PagesMirrored(m, DeepPagesUpTo(m, src, dst, n).value, src, dst, n, live)
  {
    hide PagesReady, PagesMirrored, DeepPage;
    if n == 0 {
      PagesMirroredStart(m, src, dst, live);
    } else {
      DeepPagesLive(m, src, dst, n - 1, live);
      PagesMirroredNext(m, DeepPagesUpTo(m, src, dst, n - 1).value, src, dst, n - 1, live);
    }
  }

  /** Entry `e'` is entry `e` on a table that was free and holds copies of the entries of its table. */
  ghost predicate TableMirrored(m: Mem, m': Mem, e: Entry, e': Entry) {
    && EntryCopied(m, e, e')
    && e'.frame < |m'.frames| && m'.frames[e'.frame].Table?
    && (forall j: nat :: EntryCopied(m, At(m, Loc(e.frame, j)), At(m', Loc(e'.frame, j))))
  }

  /** Table `i` of directory `src` has been copied into directory `dst`. */
  ghost predicate TableShown(m: Mem, m': Mem, src: nat, dst: nat, i: nat) {
    && LiveInv(m')
    && FramesKept(m, m', dst)
    && (forall d: nat, k: nat, j: nat :: View(m', d, k, j, {}) ==
          if d == dst && k == i then View(m, src, i, j, {}) else View(m, d, k, j, {}))
    && (forall k: nat :: k != i ==> At(m', Loc(dst, k)) == At(m, Loc(dst, k)))
    && (UserIndex(i) ==> if At(m, Loc(src, i)).pr then TableMirrored(m, m', At(m, Loc(src, i)), At(m', Loc(dst, i)))
                         else !At(m', Loc(dst, i)).pr)
    && (!UserIndex(i) ==> At(m', Loc(dst, i)) == At(m, Loc(src, i)))
  }

  /** The new entry `l` names `p`, filled with copies of the pages of `t`. */
  ghost predicate Attached(m: Mem, m': Mem, l: Loc, t: nat, p: nat) {
    && FramesKept(m, m', l.frame)
    && IsSlot(m, l) && m.frames[l.frame].Directory? && !At(m, l).pr
    && t < |m.frames| && m.frames[t].Table? && p < |m.frames| && m.frames[p].Free? && p != t && m'.frames[p].Table?
    && (forall x: Loc :: IsSlot(m', x) == if x.frame == p then x.index < ENTRIES else IsSlot(m, x))
    && (forall x: Loc :: x.frame != p && x != l ==> At(m', x) == At(m, x))
    && At(m', l).pr && At(m', l).frame == p
    && (forall j: nat :: EntryCopied(m, At(m, Loc(t, j)), At(m', Loc(p, j))))
    && (forall j: nat :: At(m, Loc(t, j)).pr && At(m, Loc(t, j)).frame < |m.frames| ==>
          m'.frames[At(m', Loc(p, j)).frame] == m.frames[At(m, Loc(t, j)).frame])
  }

  lemma AttachedNamers(m: Mem, m': Mem, l: Loc, t: nat, p: nat)
    requires LiveInv(m) && Attached(m, m', l, t, p)
    ensures TableNamers(m', p) == {l}
    ensures forall u: nat :: u != p ==> TableNamers(m', u) == TableNamers(m, u)
    ensures forall x: Loc :: Live(m', x) && x != l && x.frame != p ==> Live(m, x)
  {
    forall x: Loc
      ensures x !in TableNamers(m, p)
    {
      assert Live(m, x) ==> x in LiveSlots(m);
    }
    hide Sound;
    forall u: nat
      ensures u == p ==> TableNamers(m', u) == {l}
      ensures u != p ==> TableNamers(m', u) == TableNamers(m, u)
    {
      assert forall x: Loc :: x in TableNamers(m', u) && x != l ==> x in TableNamers(m, u);
    }
  }

  lemma AttachedViews(m: Mem, m': Mem, l: Loc, t: nat, p: nat)
    requires LiveInv(m) && Attached(m, m', l, t, p) && WellFormed(m')
    requires forall j: nat :: At(m, Loc(t, j)).pr ==> SlotOk(m, Loc(t, j))
    ensures forall d: nat, k: nat, j: nat :: View(m', d, k, j, {}) ==
              if Loc(d, k) == l then TableView(m, t, j, {}) else View(m, d, k, j, {})
  {
    hide Sound, UncountedApart;
    SameTableFrom(m, t, m', p);
    forall d: nat, k: nat, j: nat
      ensures View(m', d, k, j, {}) == if Loc(d, k) == l then TableView(m, t, j, {}) else View(m, d, k, j, {})
    {
      var x := Loc(d, k);
      if x != l && IsSlot(m, x) && m.frames[d].Directory? && At(m, x).pr {
        ReachedEntries(m, x);
        SameTableFrom(m, At(m, x).frame, m', At(m, x).frame);
      }
    }
  }

  lemma AttachedInv(m: Mem, m': Mem, l: Loc, t: nat, p: nat)
    requires LiveInv(m) && Attached(m, m', l, t, p)
    requires Sound(m', LiveSlots(m) + Filled(m, t, p, ENTRIES) + {l}, {})
    ensures LiveInv(m')
  {
    AttachedNamers(m, m', l, t, p);
    forall x: Loc | Live(m', x)
      ensures x in LiveSlots(m) + Filled(m, t, p, ENTRIES) + {l}
    {
      assert x.frame == p ==> EntryCopied(m, At(m, Loc(t, x.index)), At(m', Loc(p, x.index)));
    }
    FewerLive(m', LiveSlots(m) + Filled(m, t, p, ENTRIES) + {l}, LiveSlots(m'), {});
    hide Sound;
    forall x: Loc | Live(m', x) && m'.frames[x.frame].Table? && Uncounted(m', x)
      ensures Sole(m', x.frame)
    {
      if x.frame != p {
        assert Live(m, x) && Uncounted(m, x);
      }
    }
  }

  lemma DeepTableLive(m: Mem, src: nat, dst: nat, i: nat)
    requires LiveInv(m) && src < |m.frames| && m.frames[src].Directory?
    requires dst < |m.frames| && m.frames[dst].Directory? && src != dst && i < ENTRIES
    requires UserIndex(i) ==> !At(m, Loc(dst, i)).pr
    requires DeepTable(m, src, dst, i).Some?
    ensures TableShown(m, DeepTable(m, src, dst, i).value, src, dst, i)
  {
    var e := At(m, Loc(src, i));
    var l := Loc(dst, i);
    assert IsEntry(m, l);
    if !e.pr || !UserIndex(i) {
      InertLive(m, l, e);
      SetEntryAt(m, l, e);
      var m' := SetEntry(m, l, e);
      forall d: nat, k: nat, j: nat
        ensures View(m', d, k, j, {}) == if d == dst && k == i then View(m, src, i, j, {}) else View(m, d, k, j, {})
      {
        assert SameView(m, m', d, {});
      }
    } else {
      assert IsSlot(m, l) && IsSlot(m, Loc(src, i));
      ReachedEntries(m, Loc(src, i));
      var (m1, p) := Alloc(m, TableKind).value;
      LiveAlloc(m, TableKind, LiveSlots(m), {});
      hide Alloc, DeepPagesUpTo;
      CopyPagesReady(m, m1, e.frame, p);
      DeepPagesLive(m1, e.frame, p, ENTRIES, LiveSlots(m));
      var m2 := DeepPagesUpTo(m1, e.frame, p, ENTRIES).value;
      AttachCopy(m, m1, m2, l, e, p);
      AttachedShown(m, SetEntry(m2, l, e.(frame := p)), src, dst, i, p);
    }
  }

  lemma CopyPagesReady(m: Mem, m1: Mem, t: nat, p: nat)
    requires LiveInv(m) && Allocated(m, m1, p, TableKind, LiveSlots(m), {}) && t < |m.frames| && m.frames[t].Table?
    requires forall j: nat :: At(m, Loc(t, j)).pr ==> Live(m, Loc(t, j))
    ensures PagesReady(m1, t, p, LiveSlots(m))
  {
  }

  lemma AttachCopy(m: Mem, m1: Mem, m2: Mem, l: Loc, e: Entry, p: nat)
    requires LiveInv(m) && Allocated(m, m1, p, TableKind, LiveSlots(m), {})
    requires IsSlot(m, l) && m.frames[l.frame].Directory? && !At(m, l).pr && e.pr
    requires e.frame < |m.frames| && m.frames[e.frame].Table?
    requires forall j: nat :: At(m, Loc(e.frame, j)).pr ==> SlotOk(m, Loc(e.frame, j))
    requires PagesMirrored(m1, m2, e.frame, p, ENTRIES, LiveSlots(m))
    ensures Attached(m, SetEntry(m2, l, e.(frame := p)), l, e.frame, p)
    ensures LiveInv(SetEntry(m2, l, e.(frame := p)))
    ensures At(SetEntry(m2, l, e.(frame := p)), l) == e.(frame := p)
  {
    var e' := e.(frame := p);
    var live := LiveSlots(m) + Filled(m, e.frame, p, ENTRIES);
    assert forall x: Loc :: At(m1, x) == if x.frame == p then NO_ENTRY else At(m, x);
    assert Filled(m1, e.frame, p, ENTRIES) == Filled(m, e.frame, p, ENTRIES);
    assert IsSlot(m1, l) && IsSlot(m2, l) && At(m2, l) == At(m, l);
    assert LiveNamers(m2, p, live) == {} by {
      forall x | x in live
        ensures At(m2, x).frame != p
      {
        assert x.frame == p ==> EntryCopied(m1, At(m1, Loc(e.frame, x.index)), At(m2, Loc(p, x.index)));
      }
    }
    LiveOpen(m2, l, live, {});
    assert {} + {l} == {l};
    LiveFill(m2, l, e', live, {}, m2.kernelRefs);
    AttachLaid(m, m1, m2, l, e, p);
    AttachedInv(m, SetEntry(m2, l, e'), l, e.frame, p);
  }

  lemma AttachLaid(m: Mem, m1: Mem, m2: Mem, l: Loc, e: Entry, p: nat)
    requires IsSlot(m, l) && m.frames[l.frame].Directory? && !At(m, l).pr && e.pr
    requires e.frame < |m.frames| && m.frames[e.frame].Table? && WellFormed(m)
    requires p < |m.frames| && m.frames[p].Free? && m1.frames == m.frames[p := Zeroed(TableKind)]
    requires m1.refs == m.refs && m1.zero == m.zero && m1.kernelRefs == m.kernelRefs
    requires forall j: nat :: At(m, Loc(e.frame, j)).pr ==> SlotOk(m, Loc(e.frame, j))
    requires PagesLaid(m1, m2, e.frame, p, ENTRIES)
    ensures Attached(m, SetEntry(m2, l, e.(frame := p)), l, e.frame, p)
    ensures At(SetEntry(m2, l, e.(frame := p)), l) == e.(frame := p)
  {
    var e' := e.(frame := p);
    var m' := SetEntry(m2, l, e');
    AllocEntries(m, m1, p, TableKind);
    assert IsSlot(m1, l) && IsSlot(m2, l);
    SetEntryAt(m2, l, e');
    forall j: nat
      ensures EntryCopied(m, At(m, Loc(e.frame, j)), At(m', Loc(p, j)))
      ensures At(m, Loc(e.frame, j)).pr && At(m, Loc(e.frame, j)).frame < |m.frames| ==>
                m'.frames[At(m', Loc(p, j)).frame] == m.frames[At(m, Loc(e.frame, j)).frame]
    {
      if j < ENTRIES {
        assert EntryCopied(m1, At(m1, Loc(e.frame, j)), At(m2, Loc(p, j)));
      } else {
        assert !IsEntry(m, Loc(e.frame, j)) && !IsEntry(m', Loc(p, j));
      }
    }
  }

  lemma AttachedShown(m: Mem, m': Mem, src: nat, dst: nat, i: nat, p: nat)
    requires LiveInv(m) && LiveInv(m') && src != dst && UserIndex(i) && IsSlot(m, Loc(src, i)) && m.frames[src].Directory?
    requires At(m, Loc(src, i)).pr && Attached(m, m', Loc(dst, i), At(m, Loc(src, i)).frame, p)
    requires At(m', Loc(dst, i)) == At(m, Loc(src, i)).(frame := p)
    ensures TableShown(m, m', src, dst, i)
  {
    ReachedEntries(m, Loc(src, i));
    AttachedViews(m, m', Loc(dst, i), At(m, Loc(src, i)).frame, p);
    hide Sound, UncountedApart, TableView;
  }

  /** The first `n` tables of directory `src` have been copied into the new directory `dst`. */
  ghost predicate TablesMirrored(m: Mem, m': Mem, src: nat, dst: nat, n: nat) {
    && LiveInv(m')
    && FramesKept(m, m', dst)
    && SameViews(m, m', {}, {dst})
    && (forall i: nat, j: nat :: i < n ==> View(m', dst, i, j, {}) == View(m, src, i, j, {}))
    && (forall i: nat :: UserIndex(i) && i < n && At(m, Loc(src, i)).pr ==>
          TableMirrored(m, m', At(m, Loc(src, i)), At(m', Loc(dst, i))))
    && (forall i: nat :: UserIndex(i) && (n <= i || !At(m, Loc(src, i)).pr) ==> !At(m', Loc(dst, i)).pr)
    && (forall i: nat :: i < n && !UserIndex(i) ==> At(m', Loc(dst, i)) == At(m, Loc(src, i)))
  }

  lemma MirrorKept(m: Mem, m1: Mem, m': Mem, dst: nat, e: Entry, e': Entry)
    requires FramesKept(m, m1, dst) && FramesKept(m1, m', dst) && dst < |m.frames| && m.frames[dst].Directory?
    requires TableMirrored(m, m1, e, e')
    ensures TableMirrored(m, m', e, e')
  {
    assert e'.frame != dst && m'.frames[e'.frame] == m1.frames[e'.frame];
    assert forall j: nat :: At(m', Loc(e'.frame, j)) == At(m1, Loc(e'.frame, j));
  }

  lemma TablesMirroredNext(m: Mem, m1: Mem, src: nat, dst: nat, n: nat)
    requires TablesMirrored(m, m1, src, dst, n) && n < ENTRIES && src != dst && LiveInv(m)
    requires src < |m.frames| && m.frames[src].Directory? && dst < |m.frames| && m.frames[dst].Directory?
    requires DeepTable(m1, src, dst, n).Some?
    ensures TablesMirrored(m, DeepTable(m1, src, dst, n).value, src, dst, n + 1)
  {
    hide LiveInv, DeepTable, View, EntryCopied;
    DeepTableLive(m1, src, dst, n);
    var m' := DeepTable(m1, src, dst, n).value;
    assert At(m1, Loc(src, n)) == At(m, Loc(src, n));
    TablesViewsNext(m, m1, m', src, dst, n);
    forall i: nat | UserIndex(i) && i < n + 1 && At(m, Loc(src, i)).pr
      ensures TableMirrored(m, m', At(m, Loc(src, i)), At(m', Loc(dst, i)))
    {
      if i < n {
        MirrorKept(m, m1, m', dst, At(m, Loc(src, i)), At(m1, Loc(dst, i)));
      } else {
        MirrorFrom(m, m1, m', src, dst, n);
      }
    }
  }

  /** Copying from the memory as it was when the loop began is what copying from the present one is. */
  lemma MirrorFrom(m: Mem, m1: Mem, m': Mem, src: nat, dst: nat, i: nat)
    requires LiveInv(m) && FramesKept(m, m1, dst) && src != dst && dst < |m.frames| && m.frames[dst].Directory?
    requires src < |m.frames| && m.frames[src].Directory? && UserIndex(i) && At(m, Loc(src, i)).pr
    requires TableMirrored(m1, m', At(m, Loc(src, i)), At(m', Loc(dst, i))) && |m'.frames| == |m.frames|
    ensures TableMirrored(m, m', At(m, Loc(src, i)), At(m', Loc(dst, i)))
  {
    hide LiveInv;
    assert IsSlot(m, Loc(src, i));
    ReachedEntries(m, Loc(src, i));
    var t := At(m, Loc(src, i)).frame;
    var p := At(m', Loc(dst, i)).frame;
    assert m1.frames[t] == m.frames[t];
    assert forall j: nat :: At(m1, Loc(t, j)) == At(m, Loc(t, j));
    forall j: nat
      ensures EntryCopied(m, At(m, Loc(t, j)), At(m', Loc(p, j)))
    {
      assert EntryCopied(m1, At(m1, Loc(t, j)), At(m', Loc(p, j)));
    }
  }

  lemma TablesViewsNext(m: Mem, m1: Mem, m': Mem, src: nat, dst: nat, n: nat)
    requires SameViews(m, m1, {}, {dst}) && src != dst
    requires forall i: nat, j: nat :: i < n ==> View(m1, dst, i, j, {}) == View(m, src, i, j, {})
    requires forall d: nat, k: nat, j: nat :: View(m', d, k, j, {}) ==
               if d == dst && k == n then View(m1, src, n, j, {}) else View(m1, d, k, j, {})
    ensures SameViews(m, m', {}, {dst})
    ensures forall i: nat, j: nat :: i < n + 1 ==> View(m', dst, i, j, {}) == View(m, src, i, j, {})
  {
    hide View;
    assert SameView(m, m1, src, {});
    forall d: nat | d != dst
      ensures SameView(m, m', d, {})
    {
      assert SameView(m, m1, d, {});
    }
  }

  lemma TablesMirroredStart(m: Mem, src: nat, dst: nat)
    requires LiveInv(m) && forall i: nat :: !At(m, Loc(dst, i)).pr
    ensures TablesMirrored(m, m, src, dst, 0)
  {
  }

  lemma {:induction false} DeepTablesLive(m: Mem, src: nat, dst: nat, n: nat)
    requires LiveInv(m) && n <= ENTRIES && src != dst
    requires src < |m.frames| && m.frames[src].Directory? && dst < |m.frames| && m.frames[dst].Directory?
    requires forall i: nat :: !At(m, Loc(dst, i)).pr
    requires DeepTablesUpTo(m, src, dst, n).Some?
    ensures TablesMirrored(m, DeepTablesUpTo(m, src, dst, n).value, src, dst, n)
  {
    hide TablesMirrored, LiveInv, DeepTable;
    if n == 0 {
      TablesMirroredStart(m, src, dst);
    } else {
      DeepTablesLive(m, src, dst, n - 1);
      TablesMirroredNext(m, DeepTablesUpTo(m, src, dst, n - 1).value, src, dst, n - 1);
    }
  }

  /** The copying fork from any state: the child shows what the parent shows, and nobody else notices. */
  lemma DeepCloneShows(m: Mem, d: nat)
    requires LiveInv(m) && d < |m.frames| && m.frames[d].Directory? && DeepCloneDirectory(m, d).Some?
    ensures var (m', c) := DeepCloneDirectory(m, d).value;
            && LiveInv(m') && ForkShown(m, m', d, c) && m'.refs == m.refs
            && (forall i: nat :: UserIndex(i) && At(m, Loc(d, i)).pr ==>
                  TableMirrored(m, m', At(m, Loc(d, i)), At(m', Loc(c, i))))
  {
    var (m1, c) := Alloc(m, DirectoryKind).value;
    FreshDirectoryLive(m);
    hide Alloc, LiveInv, DeepTablesUpTo;
    DeepTablesLive(m1, d, c, ENTRIES);
    DeepCloneEnd(m, m1, DeepTablesUpTo(m1, d, c, ENTRIES).value, d, c);
  }

  lemma DeepCloneEnd(m: Mem, m1: Mem, m': Mem, d: nat, c: nat)
    requires LiveInv(m) && d < |m.frames| && m.frames[d].Directory? && SameViews(m, m1, {}, {})
    requires Allocated(m, m1, c, DirectoryKind, LiveSlots(m), {}) && TablesMirrored(m1, m', d, c, ENTRIES)
    ensures ForkShown(m, m', d, c) && m'.refs == m.refs
    ensures forall i: nat :: UserIndex(i) && At(m, Loc(d, i)).pr ==>
              TableMirrored(m, m', At(m, Loc(d, i)), At(m', Loc(c, i)))
  {
    LiveWellFormed(m');
    hide LiveInv, Sound;
    DeepKernel(m1, m', d, c);
    KernelForkedFrom(m, m1, m', d, c);
    hide KernelForked, KernelCopied;
    assert SameView(m, m1, d, {});
    forall d': nat, i: nat, j: nat
      ensures View(m', d', i, j, {}) == View(m, if d' == c then d else d', i, j, {})
    {
      assert SameView(m, m1, d', {});
      if d' == c {
        assert i >= ENTRIES ==> View(m', c, i, j, {}) == None == View(m1, d, i, j, {});
      } else {
        assert SameView(m1, m', d', {});
      }
    }
    forall i: nat | UserIndex(i) && At(m, Loc(d, i)).pr
      ensures TableMirrored(m, m', At(m, Loc(d, i)), At(m', Loc(c, i)))
    {
      CloneMirror(m, m1, m', d, c, i);
    }
  }

  lemma DeepKernel(m: Mem, m': Mem, d: nat, c: nat)
    requires TablesMirrored(m, m', d, c, ENTRIES) && IsDirectory(m, c) && WellFormed(m')
    ensures KernelCopied(m, m', d, c, ENTRIES)
  {
    hide LiveInv, View, TableMirrored;
    forall f: nat, i: nat | f != c && IsDirectory(m, f) && !UserIndex(i)
      ensures At(m', Loc(f, i)) == At(m, Loc(f, i))
    {
      assert m'.frames[f] == m.frames[f];
    }
  }

  lemma CloneMirror(m: Mem, m1: Mem, m': Mem, d: nat, c: nat, i: nat)
    requires LiveInv(m) && IsSlot(m, Loc(d, i)) && m.frames[d].Directory? && UserIndex(i) && At(m, Loc(d, i)).pr
    requires Allocated(m, m1, c, DirectoryKind, LiveSlots(m), {}) && TablesMirrored(m1, m', d, c, ENTRIES)
    ensures TableMirrored(m, m', At(m, Loc(d, i)), At(m', Loc(c, i)))
  {
    hide LiveInv, Sound, View;
    ReachedEntries(m, Loc(d, i));
    var e := At(m, Loc(d, i));
    assert At(m1, Loc(d, i)) == e && e.frame != c;
    assert TableMirrored(m1, m', e, At(m', Loc(c, i)));
    assert forall j: nat :: At(m1, Loc(e.frame, j)) == At(m, Loc(e.frame, j));
    forall j: nat
      ensures EntryCopied(m, At(m, Loc(e.frame, j)), At(m', Loc(At(m', Loc(c, i)).frame, j)))
    {
      assert EntryCopied(m1, At(m1, Loc(e.frame, j)), At(m', Loc(At(m', Loc(c, i)).frame, j)));
    }
  }
}
