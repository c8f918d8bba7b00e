/** Forking an address space by sharing it (clone_directory). */
module PagingFork {
  import opened Paging
  import opened PagingInvariant
  import opened PagingSteps
  import opened PagingEntries

  /** A directory counts as named by nobody whether or not it is pending. */
  lemma DirectoryNotPending(m: Mem, d: nat, hole: set<Loc>)
    requires d < |m.frames| && m.frames[d].Directory? && Inv(m, {} + {d}, hole)
    ensures Inv(m, {}, hole)
  {
    forall f | 0 <= f < |m.frames|
      ensures CountOk(m, f, {}, hole)
    {
      assert CountOk(m, f, {} + {d}, hole);
    }
  }

  /** Writing an entry that is not present, or that copy-on-write does not manage, changes nothing. */
  lemma SetInert(m: Mem, l: Loc, e: Entry, pend: set<nat>, hole: set<Loc>)
    requires Inv(m, pend, hole) && IsEntry(m, l) && l !in hole
    requires IsSlot(m, l) ==> !e.pr && !At(m, l).pr
    ensures var m' := SetEntry(m, l, e);
            && Inv(m', pend, hole)
            && SameDirectories(m, m')
            && Outstanding(m') == Outstanding(m)
            && SameViews(m, m', hole, {})
            && (forall t: nat, j: nat :: TableView(m', t, j, hole) == TableView(m, t, j, hole))
            && (forall f: nat :: Namers(m', f, hole) == Namers(m, f, hole))
  {
    var m' := SetEntry(m, l, e);
    SetEntryAt(m, l, e);
    SetEntryShape(m, l, e);
    InertNamers(m, m', l, e, hole);
    forall f | 0 <= f < |m.frames|
      ensures CountOk(m', f, pend, hole)
    {
      assert CountOk(m, f, pend, hole);
      CountKept(m, m', f, pend, pend, hole, hole);
    }
    InertViews(m, m', l, e, hole);
  }

  lemma InertNamers(m: Mem, m': Mem, l: Loc, e: Entry, hole: set<Loc>)
    requires IsSlot(m, l) ==> !e.pr && !At(m, l).pr
    requires forall x: Loc :: IsSlot(m', x) == IsSlot(m, x)
    requires forall x: Loc :: At(m', x) == if x == l then e else At(m, x)
    ensures forall f: nat :: Namers(m', f, hole) == Namers(m, f, hole) && Writers(m', f, hole) == Writers(m, f, hole)
  {
    forall f: nat
      ensures Namers(m', f, hole) == Namers(m, f, hole) && Writers(m', f, hole) == Writers(m, f, hole)
    {
    }
  }

  lemma InertViews(m: Mem, m': Mem, l: Loc, e: Entry, hole: set<Loc>)
    requires IsEntry(m, l) && m' == SetEntry(m, l, e) && (IsSlot(m, l) ==> !e.pr && !At(m, l).pr)
    ensures SameViews(m, m', hole, {})
    ensures forall t: nat, j: nat :: TableView(m', t, j, hole) == TableView(m, t, j, hole)
  {
    SetEntryAt(m, l, e);
    forall t: nat, j: nat
      ensures TableView(m', t, j, hole) == TableView(m, t, j, hole)
    {
    }
  }

  /** The first `n` entries of directory `src` have been shared with the new directory `dst`. */
  ghost predicate CloneShown(m: Mem, m': Mem, src: nat, dst: nat, n: nat) {
    && SameDirectories(m, m')
    && SameViews(m, m', {}, {dst})
    && (forall t: nat, j: nat :: TableView(m', t, j, {}) == TableView(m, t, j, {}))
    && (forall i: nat :: UserIndex(i) ==>
          && At(m', Loc(src, i)).pr == At(m, Loc(src, i)).pr
          && At(m', Loc(src, i)).frame == At(m, Loc(src, i)).frame)
    && (forall i: nat :: UserIndex(i) && i < n ==>
          && At(m', Loc(dst, i)).pr == At(m, Loc(src, i)).pr
          && At(m', Loc(dst, i)).frame == At(m, Loc(src, i)).frame)
    && (forall i: nat :: UserIndex(i) && n <= i ==> !At(m', Loc(dst, i)).pr)
  }

  ghost predicate Cloned(m: Mem, m': Mem, src: nat, dst: nat, n: nat) {
    Inv(m', {}, {}) && Outstanding(m') == Outstanding(m) && CloneShown(m, m', src, dst, n)
  }

  lemma SharedDirectory(m: Mem, m': Mem, src: nat, dst: nat, i: nat)
    requires Shareable(m, src, dst, i, {}) && Shared(m, m', src, dst, i) && m.frames[dst].Directory?
    ensures SameViews(m, m', {}, {dst})
    ensures forall t: nat, j: nat :: TableView(m', t, j, {}) == TableView(m, t, j, {})
  {
    forall t: nat, j: nat
      ensures TableView(m', t, j, {}) == TableView(m, t, j, {})
    {
    }
    SharedViews(m, m', src, dst, i, {}, {dst});
  }

  lemma ClonedStart(m: Mem, src: nat, dst: nat)
    requires Inv(m, {}, {}) && forall i: nat :: !At(m, Loc(dst, i)).pr
    ensures Cloned(m, m, src, dst, 0)
  {
  }

  lemma ClonedNext(m: Mem, m1: Mem, src: nat, dst: nat, n: nat)
    requires Inv(m, {}, {}) && src < |m.frames| && m.frames[src].Directory?
    requires dst < |m.frames| && m.frames[dst].Directory? && src != dst && n < ENTRIES
    requires Cloned(m, m1, src, dst, n)
    ensures Cloned(m, CloneEntry(m1, src, dst, n), src, dst, n + 1)
  {
    var e := At(m1, Loc(src, n));
    var m' := CloneEntry(m1, src, dst, n);
    assert IsEntry(m1, Loc(src, n)) && IsEntry(m1, Loc(dst, n));
    if !e.pr || !UserIndex(n) {
      ClonedInert(m, m1, src, dst, n);
    } else {
      ClonedShared(m, m1, src, dst, n);
    }
  }

  lemma ClonedInert(m: Mem, m1: Mem, src: nat, dst: nat, n: nat)
    requires IsEntry(m1, Loc(dst, n)) && m1.frames[dst].Directory? && src != dst && n < ENTRIES && Cloned(m, m1, src, dst, n)
    requires !At(m1, Loc(src, n)).pr || !UserIndex(n)
    ensures Cloned(m, SetEntry(m1, Loc(dst, n), At(m1, Loc(src, n))), src, dst, n + 1)
  {
    hide Inv, Outstanding;
    assert IsSlot(m1, Loc(dst, n)) ==> UserIndex(n) && !At(m1, Loc(dst, n)).pr;
    ShownInert(m, m1, src, dst, n);
    SetInert(m1, Loc(dst, n), At(m1, Loc(src, n)), {}, {});
  }

  lemma ClonedShared(m: Mem, m1: Mem, src: nat, dst: nat, n: nat)
    requires IsEntry(m1, Loc(src, n)) && IsEntry(m1, Loc(dst, n)) && m1.frames[src].Directory? && m1.frames[dst].Directory?
    requires src != dst && UserIndex(n) && At(m1, Loc(src, n)).pr && Cloned(m, m1, src, dst, n)
    ensures Cloned(m, RefInto(m1, src, dst, n), src, dst, n + 1)
  {
    hide Inv, Outstanding, RefInto;
    RefIntoStep(m1, src, dst, n, {}, {});
    ShownShared(m, m1, RefInto(m1, src, dst, n), src, dst, n);
  }

  /** One more entry that is copied as it is. */
  lemma ShownInert(m: Mem, m1: Mem, src: nat, dst: nat, n: nat)
    requires IsEntry(m1, Loc(dst, n)) && m1.frames[dst].Directory? && src != dst && CloneShown(m, m1, src, dst, n)
    requires !At(m1, Loc(src, n)).pr || !UserIndex(n)
    ensures CloneShown(m, SetEntry(m1, Loc(dst, n), At(m1, Loc(src, n))), src, dst, n + 1)
  {
    var e := At(m1, Loc(src, n));
    InertViews(m1, SetEntry(m1, Loc(dst, n), e), Loc(dst, n), e, {});
    SetEntryAt(m1, Loc(dst, n), e);
    hide SetEntry, View;
    assert SameViews(m1, SetEntry(m1, Loc(dst, n), e), {}, {dst});
    SameViewsTrans(m, m1, SetEntry(m1, Loc(dst, n), e), {}, {dst});
  }

  /** One more entry that is shared. */
  lemma ShownShared(m: Mem, m1: Mem, m': Mem, src: nat, dst: nat, n: nat)
    requires Shareable(m1, src, dst, n, {}) && Shared(m1, m', src, dst, n) && m1.frames[dst].Directory? && UserIndex(n)
    requires CloneShown(m, m1, src, dst, n) && At(m1, Loc(src, n)).pr
    ensures CloneShown(m, m', src, dst, n + 1)
  {
    SharedDirectory(m1, m', src, dst, n);
    hide View;
    SameViewsTrans(m, m1, m', {}, {dst});
  }

  lemma {:induction false} CloneUpToStep(m: Mem, src: nat, dst: nat, n: nat)
    requires Inv(m, {}, {}) && src < |m.frames| && m.frames[src].Directory?
    requires dst < |m.frames| && m.frames[dst].Directory? && src != dst && n <= ENTRIES
    requires forall i: nat :: !At(m, Loc(dst, i)).pr
    ensures Cloned(m, CloneUpTo(m, src, dst, n), src, dst, n)
  {
    hide Cloned, CloneEntry, Inv;
    if n == 0 {
      ClonedStart(m, src, dst);
    } else {
      CloneUpToStep(m, src, dst, n - 1);
      ClonedNext(m, CloneUpTo(m, src, dst, n - 1), src, dst, n - 1);
    }
  }

  /** A fork: `c` is a new directory that shows what `d` shows, and nobody else notices. */
  ghost predicate ForkShown(m: Mem, m': Mem, d: nat, c: nat) {
    && |m'.frames| == |m.frames| && m'.zero == m.zero && m'.kernelRefs == m.kernelRefs
    && c < |m.frames| && m.frames[c].Free?
    && (forall f :: 0 <= f < |m.frames| ==> m'.frames[f].Directory? == (m.frames[f].Directory? || f == c))
    && (forall d': nat, i: nat, j: nat :: View(m', d', i, j, {}) == View(m, if d' == c then d else d', i, j, {}))
    && KernelForked(m, m', d, c)
  }

  ghost predicate Forked(m: Mem, m': Mem, d: nat, c: nat) {
    Inv(m', {}, {}) && Outstanding(m') == Outstanding(m) && ForkShown(m, m', d, c)
  }

  lemma CloneDirectoryStep(m: Mem, d: nat)
    requires Inv(m, {}, {}) && d < |m.frames| && m.frames[d].Directory? && CloneDirectory(m, d).Some?
    ensures var (m', c) := CloneDirectory(m, d).value; Forked(m, m', d, c)
  {
    var (m1, c) := Alloc(m, DirectoryKind).value;
    AllocStep(m, DirectoryKind, {}, {});
    DirectoryNotPending(m1, c, {});
    CloneUpToStep(m1, d, c, ENTRIES);
    CloneUpToCopied(m1, d, c, ENTRIES);
    ForkedFrom(m, m1, CloneUpTo(m1, d, c, ENTRIES), d, c);
  }

  lemma ForkedFrom(m: Mem, m1: Mem, m': Mem, d: nat, c: nat)
    requires c < |m.frames| && m.frames[c].Free? && d < |m.frames| && m.frames[d].Directory?
    requires m1.frames == m.frames[c := Zeroed(DirectoryKind)] && m1.zero == m.zero && m1.kernelRefs == m.kernelRefs && WellFormed(m1)
    requires SameViews(m, m1, {}, {}) && CloneShown(m1, m', d, c, ENTRIES) && WellFormed(m')
    requires KernelCopied(m1, m', d, c, ENTRIES)
    ensures ForkShown(m, m', d, c)
  {
    KernelForkedFrom(m, m1, m', d, c);
    hide KernelForked, KernelCopied;
    assert SameView(m, m1, d, {});
    forall d': nat, i: nat, j: nat
      ensures View(m', d', i, j, {}) == View(m, if d' == c then d else d', i, j, {})
    {
      assert SameView(m, m1, d', {});
      if d' == c {
        assert IsSlot(m', Loc(c, i)) == IsSlot(m1, Loc(d, i)) == UserIndex(i);
        assert View(m', c, i, j, {}) == View(m1, d, i, j, {});
      } else {
        assert SameView(m1, m', d', {});
      }
    }
  }
}
