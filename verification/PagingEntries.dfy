/**
 What the paging code owes the entries it does not manage, and the flags it does not look at.

 Outside the user part every directory holds the kernel's mappings, and no operation on user memory
 may change them.  A user entry that is present carries FLAG_US, without which no process could use
 the page.
 */
module PagingEntries {
  import opened Paging
  import opened PagingInvariant
  import opened PagingSteps

  ghost predicate IsDirectory(m: Mem, d: nat) {
    d < |m.frames| && m.frames[d].Directory?
  }

  /** Every directory of `m'` is one of `m` with the same entries outside the user part. */
  ghost predicate KernelKept(m: Mem, m': Mem) {
    && (forall d: nat :: IsDirectory(m', d) ==> IsDirectory(m, d))
    && (forall d: nat, i: nat :: IsDirectory(m', d) && !UserIndex(i) ==> At(m', Loc(d, i)) == At(m, Loc(d, i)))
  }

  /** FLAG_US is the lowest of the flags. */
  predicate UserBit(e: Entry) {
    e.flags % 2 == FLAG_US
  }

  ghost predicate Flagged(m: Mem) {
    forall l: Loc :: IsSlot(m, l) && At(m, l).pr ==> UserBit(At(m, l))
  }

  ghost predicate Kept(m: Mem, m': Mem) {
    KernelKept(m, m') && Flagged(m')
  }

  lemma KeptTrans(m: Mem, m1: Mem, m': Mem)
    requires Kept(m, m1) && Kept(m1, m')
    ensures Kept(m, m')
  {
    hide Flagged, IsDirectory;
  }

  // ---------------------------------------------------------------------------------------
  // Primitive steps
  // ---------------------------------------------------------------------------------------

  lemma SameFramesKept(m: Mem, m': Mem)
    requires m'.frames == m.frames && Flagged(m)
    ensures Kept(m, m') && forall l: Loc :: At(m', l) == At(m, l)
  {
    assert forall l: Loc :: IsSlot(m', l) == IsSlot(m, l);
  }

  /** An entry that may be written: a user entry, with FLAG_US if it is present. */
  lemma SetKept(m: Mem, l: Loc, e: Entry)
    requires Flagged(m) && (IsDirectory(m, l.frame) ==> UserIndex(l.index)) && (e.pr ==> UserBit(e))
    ensures Kept(m, SetEntry(m, l, e)) && forall d: nat :: IsDirectory(SetEntry(m, l, e), d) == IsDirectory(m, d)
  {
    if IsEntry(m, l) {
      SetEntryAt(m, l, e);
    }
  }

  /** Putting a frame without present entries that is not a directory in some place. */
  lemma ReplaceKept(m: Mem, m': Mem, f: nat)
    requires Flagged(m) && f < |m.frames| == |m'.frames| && m'.frames == m.frames[f := m'.frames[f]]
    requires !m'.frames[f].Directory? && forall i: nat :: !At(m', Loc(f, i)).pr
    ensures Kept(m, m') && !IsDirectory(m', f)
  {
    assert forall l: Loc :: l.frame != f ==> At(m', l) == At(m, l) && IsSlot(m', l) == IsSlot(m, l);
  }

  lemma AllocKept(m: Mem, k: Kind)
    requires Flagged(m) && !k.DirectoryKind? && Alloc(m, k).Some?
    ensures var (m', p) := Alloc(m, k).value; Kept(m, m') && !IsDirectory(m', p)
  {
    var (m', p) := Alloc(m, k).value;
    ReplaceKept(m, m', p);
  }

  lemma DeallocKept(m: Mem, f: nat)
    requires Flagged(m)
    ensures Kept(m, Dealloc(m, f))
  {
    if f < |m.frames| {
      ReplaceKept(m, Dealloc(m, f), f);
    } else {
      SameFramesKept(m, m);
    }
  }

  lemma SetBytesKept(m: Mem, f: nat, bytes: seq<int>)
    requires Flagged(m)
    ensures Kept(m, SetBytes(m, f, bytes))
  {
    if f < |m.frames| {
      ReplaceKept(m, SetBytes(m, f, bytes), f);
    } else {
      SameFramesKept(m, m);
    }
  }

  // ---------------------------------------------------------------------------------------
  // Sharing and copying
  // ---------------------------------------------------------------------------------------

  /** The entry that is shared, on both sides: a user entry, with the flags it had. */
  lemma RefIntoKept(m: Mem, src: nat, dst: nat, i: nat)
    requires Flagged(m) && (IsDirectory(m, src) || IsDirectory(m, dst) ==> UserIndex(i))
    ensures var m' := RefInto(m, src, dst, i);
            Kept(m, m') && forall d: nat :: IsDirectory(m', d) == IsDirectory(m, d)
    ensures RefEntry(m, Loc(src, i)).1.flags == (if At(m, Loc(src, i)).pr then At(m, Loc(src, i)).flags else 0)
  {
    var e := At(m, Loc(src, i));
    assert e.pr ==> IsSlot(m, Loc(src, i)) && UserBit(e);
    if e.pr {
      var m1 := if e.rw then IncRef(m, e.frame) else m;
      SameFramesKept(m, m1);
      SetKept(m1, Loc(src, i), ReadOnly(e));
      var m2 := SetEntry(m1, Loc(src, i), ReadOnly(e));
      var m3 := IncRef(m2, e.frame);
      SameFramesKept(m2, m3);
      SetKept(m3, Loc(dst, i), ReadOnly(e));
      hide Kept, SetEntry, Flagged;
      KeptTrans(m, m1, m2);
      KeptTrans(m, m2, m3);
      KeptTrans(m, m3, SetEntry(m3, Loc(dst, i), ReadOnly(e)));
    } else {
      SetKept(m, Loc(dst, i), NO_ENTRY);
    }
  }

  lemma {:induction false} RefUpToKept(m: Mem, src: nat, dst: nat, n: nat)
    requires Flagged(m) && !IsDirectory(m, src) && !IsDirectory(m, dst)
    ensures var m' := RefUpTo(m, src, dst, n);
            Kept(m, m') && forall d: nat :: IsDirectory(m', d) == IsDirectory(m, d)
  {
    if n == 0 {
      SameFramesKept(m, m);
    } else {
      hide Kept, RefInto;
      RefUpToKept(m, src, dst, n - 1);
      var m1 := RefUpTo(m, src, dst, n - 1);
      RefIntoKept(m1, src, dst, n - 1);
      KeptTrans(m, m1, RefInto(m1, src, dst, n - 1));
    }
  }

  /** Entry `l` is a user entry, and if present it does not name a directory. */
  ghost predicate UserEntry(m: Mem, l: Loc) {
    && (IsDirectory(m, l.frame) ==> UserIndex(l.index))
    && (At(m, l).pr ==> !IsDirectory(m, At(m, l).frame))
  }

  lemma CopyTableKept(m: Mem, l: Loc)
    requires Flagged(m) && UserEntry(m, l) && CopyTable(m, l).Some?
    ensures var m' := CopyTable(m, l).value;
            Kept(m, m') && UserEntry(m', l) && (At(m', l).pr ==> At(m', l).flags == At(m, l).flags)
  {
    var e := At(m, l);
    SameFramesKept(m, m);
    if e.pr && !e.rw {
      assert IsSlot(m, l);
      var m1 := DecRef(m, e.frame);
      SameFramesKept(m, m1);
      if Count(m1, e.frame) == 0 {
        SetKept(m1, l, e.(rw := true));
      } else {
        CopySharedKept(m, m1, l);
      }
    }
  }

  lemma CopySharedKept(m: Mem, m1: Mem, l: Loc)
    requires Flagged(m) && UserEntry(m, l) && IsSlot(m, l) && At(m, l).pr && m1.frames == m.frames && Alloc(m1, TableKind).Some?
    ensures var (m2, p) := Alloc(m1, TableKind).value; var e := At(m, l);
            var m' := SetEntry(RefUpTo(m2, e.frame, p, ENTRIES), l, e.(frame := p, rw := true));
            Kept(m, m') && UserEntry(m', l) && (At(m', l).pr ==> At(m', l).flags == e.flags)
  {
    var e := At(m, l);
    var (m2, p) := Alloc(m1, TableKind).value;
    assert UserBit(e);
    SameFramesKept(m, m1);
    AllocKept(m1, TableKind);
    hide Alloc, Flagged;
    RefUpToKept(m2, e.frame, p, ENTRIES);
    hide RefUpTo;
    var m3 := RefUpTo(m2, e.frame, p, ENTRIES);
    SetKept(m3, l, e.(frame := p, rw := true));
    KeptTrans(m, m1, m2);
    KeptTrans(m, m2, m3);
    KeptTrans(m, m3, SetEntry(m3, l, e.(frame := p, rw := true)));
  }

  lemma CopyDataKept(m: Mem, l: Loc)
    requires Flagged(m) && !IsDirectory(m, l.frame) && CopyData(m, l).Some?
    ensures var m' := CopyData(m, l).value; Kept(m, m') && (At(m', l).pr ==> At(m', l).flags == At(m, l).flags)
  {
    var e := At(m, l);
    SameFramesKept(m, m);
    if e.pr && !e.rw {
      assert IsSlot(m, l);
      assert UserBit(e);
      var m1 := DecRef(m, e.frame);
      SameFramesKept(m, m1);
      if Count(m1, e.frame) == 0 {
        SetKept(m1, l, e.(rw := true));
      } else {
        var (m2, p) := Alloc(m1, DataKind).value;
        AllocKept(m1, DataKind);
        hide Alloc, Flagged;
        var m3 := SetBytes(m2, p, BytesOf(m, e.frame));
        SetBytesKept(m2, p, BytesOf(m, e.frame));
        SetKept(m3, l, e.(frame := p, rw := true));
        KeptTrans(m, m1, m2);
        KeptTrans(m, m2, m3);
        KeptTrans(m, m3, SetEntry(m3, l, e.(frame := p, rw := true)));
      }
    }
  }

  // ---------------------------------------------------------------------------------------
  // Releasing
  // ---------------------------------------------------------------------------------------

  lemma UnrefDataKept(m: Mem, l: Loc)
    requires Flagged(m) && (IsDirectory(m, l.frame) ==> UserIndex(l.index))
    ensures Kept(m, UnrefData(m, l))
  {
    var e := At(m, l);
    SameFramesKept(m, m);
    if e.pr {
      var m1 := if e.rw then m else DecRef(m, e.frame);
      SameFramesKept(m, m1);
      var m2 := if e.rw || Count(m1, e.frame) == 0 then Dealloc(m1, e.frame) else m1;
      DeallocKept(m1, e.frame);
      hide Dealloc, Flagged;
      KeptTrans(m, m1, m2);
      SetKept(m2, l, NO_ENTRY);
      KeptTrans(m, m2, SetEntry(m2, l, NO_ENTRY));
    }
  }

  lemma {:induction false} UnrefUpToKept(m: Mem, t: nat, n: nat)
    requires Flagged(m) && !IsDirectory(m, t)
    ensures Kept(m, UnrefUpTo(m, t, n))
  {
    if n == 0 {
      SameFramesKept(m, m);
    } else {
      hide UnrefData, Flagged, At;
      UnrefUpToKept(m, t, n - 1);
      var m1 := UnrefUpTo(m, t, n - 1);
      UnrefDataKept(m1, Loc(t, n - 1));
      KeptTrans(m, m1, UnrefData(m1, Loc(t, n - 1)));
    }
  }

  lemma {:induction false} UnrefRangeKept(m: Mem, t: nat, lo: nat, n: nat)
    requires Flagged(m) && !IsDirectory(m, t)
    ensures Kept(m, UnrefRange(m, t, lo, n))
  {
    if n == 0 {
      SameFramesKept(m, m);
    } else {
      hide UnrefData, Flagged, At;
      UnrefRangeKept(m, t, lo, n - 1);
      var m1 := UnrefRange(m, t, lo, n - 1);
      UnrefDataKept(m1, Loc(t, lo + n - 1));
      KeptTrans(m, m1, UnrefData(m1, Loc(t, lo + n - 1)));
    }
  }

  lemma UnrefTableKept(m: Mem, l: Loc)
    requires Flagged(m) && UserEntry(m, l)
    ensures Kept(m, UnrefTable(m, l))
  {
    var e := At(m, l);
    SameFramesKept(m, m);
    if e.pr {
      var m1 := if e.rw then m else DecRef(m, e.frame);
      SameFramesKept(m, m1);
      var m2 := UnrefUpTo(m1, e.frame, ENTRIES);
      UnrefUpToKept(m1, e.frame, ENTRIES);
      DeallocKept(m2, e.frame);
      hide Dealloc, Flagged, UnrefUpTo;
      KeptTrans(m, m1, m2);
      KeptTrans(m, m2, Dealloc(m2, e.frame));
      var m3 := if e.rw || Count(m1, e.frame) == 0 then Dealloc(m2, e.frame) else m1;
      SetKept(m3, l, NO_ENTRY);
      KeptTrans(m, m3, SetEntry(m3, l, NO_ENTRY));
    }
  }

  /** Entry `k` of directory `d` is a user entry when its turn to be released comes. */
  ghost predicate Turn(m: Mem, d: nat, k: nat)
    requires USER_DIR_START <= k
  {
    UserEntry(UnrefTablesFrom(m, d, k), Loc(d, k))
  }

  lemma {:induction false} UnrefTablesKept(m: Mem, d: nat, n: nat)
    requires Flagged(m) && USER_DIR_START <= n
    requires forall k: nat :: USER_DIR_START <= k < n ==> Turn(m, d, k)
    ensures Kept(m, UnrefTablesFrom(m, d, n))
  {
    hide UnrefTable, Flagged, UserEntry, Kept;
    if n == USER_DIR_START {
      SameFramesKept(m, m);
    } else {
      UnrefTablesKept(m, d, n - 1);
      assert Turn(m, d, n - 1);
      UnrefTableNext(m, UnrefTablesFrom(m, d, n - 1), Loc(d, n - 1));
    }
  }

  lemma UnrefTableNext(m: Mem, m1: Mem, l: Loc)
    requires Kept(m, m1) && UserEntry(m1, l)
    ensures Kept(m, UnrefTable(m1, l))
  {
    UnrefTableKept(m1, l);
    KeptTrans(m, m1, UnrefTable(m1, l));
  }

  // ---------------------------------------------------------------------------------------
  // Mapping
  // ---------------------------------------------------------------------------------------

  lemma EnsureTableKept(m: Mem, d: nat, i: nat, flags: nat, rw: bool)
    requires Flagged(m) && UserEntry(m, Loc(d, i)) && flags % 2 == FLAG_US && EnsureTable(m, d, i, flags, rw).Some?
    ensures var m' := EnsureTable(m, d, i, flags, rw).value; Kept(m, m') && UserEntry(m', Loc(d, i))
  {
    CopyTableKept(m, Loc(d, i));
    var m1 := CopyTable(m, Loc(d, i)).value;
    hide CopyTable;
    if !At(m1, Loc(d, i)).pr {
      var (m2, p) := Alloc(m1, TableKind).value;
      AllocKept(m1, TableKind);
      hide Alloc, Flagged;
      SetKept(m2, Loc(d, i), Entry(p, flags, rw, true));
      KeptTrans(m, m1, m2);
      KeptTrans(m, m2, SetEntry(m2, Loc(d, i), Entry(p, flags, rw, true)));
    }
  }

  lemma MapAddressKept(m: Mem, d: nat, i: nat, j: nat, f: nat, flags: nat, rw: bool)
    requires Flagged(m) && UserEntry(m, Loc(d, i)) && flags % 2 == FLAG_US && MapAddress(m, d, i, j, f, flags, rw).Some?
    requires At(EnsureTable(m, d, i, flags, rw).value, Loc(d, i)).pr
    ensures Kept(m, MapAddress(m, d, i, j, f, flags, rw).value)
  {
    EnsureTableKept(m, d, i, flags, rw);
    var m1 := EnsureTable(m, d, i, flags, rw).value;
    hide EnsureTable, Flagged;
    var l := Loc(At(m1, Loc(d, i)).frame, j);
    SetKept(m1, l, Entry(f, flags, rw, true));
    KeptTrans(m, m1, SetEntry(m1, l, Entry(f, flags, rw, true)));
  }

  lemma WriteFaultKept(m: Mem, d: nat, i: nat, j: nat)
    requires Flagged(m) && UserEntry(m, Loc(d, i)) && WriteFault(m, d, i, j).Some?
    requires At(CopyTable(m, Loc(d, i)).value, Loc(d, i)).pr
    ensures Kept(m, WriteFault(m, d, i, j).value)
  {
    CopyTableKept(m, Loc(d, i));
    var m1 := CopyTable(m, Loc(d, i)).value;
    hide CopyTable, Flagged;
    var l := Loc(At(m1, Loc(d, i)).frame, j);
    CopyDataKept(m1, l);
    KeptTrans(m, m1, CopyData(m1, l).value);
  }

  lemma StoreKept(m: Mem, d: nat, i: nat, j: nat, offset: nat, v: int)
    requires Flagged(m) && UserEntry(m, Loc(d, i)) && Store(m, d, i, j, offset, v).Some?
    requires CopyTable(m, Loc(d, i)).Some? ==> At(CopyTable(m, Loc(d, i)).value, Loc(d, i)).pr
    ensures Kept(m, Store(m, d, i, j, offset, v).value)
  {
    SameFramesKept(m, m);
    if !MappedWritable(m, d, i, j) {
      WriteFaultKept(m, d, i, j);
    }
    var m1 := if MappedWritable(m, d, i, j) then m else WriteFault(m, d, i, j).value;
    var f := At(m1, Loc(At(m1, Loc(d, i)).frame, j)).frame;
    hide WriteFault, Kept;
    if offset < |BytesOf(m1, f)| {
      SetBytesKept(m1, f, BytesOf(m1, f)[offset := v]);
      KeptTrans(m, m1, SetBytes(m1, f, BytesOf(m1, f)[offset := v]));
    }
  }

  // ---------------------------------------------------------------------------------------
  // Directories
  // ---------------------------------------------------------------------------------------

  /** A new directory without present user entries. */
  lemma NewDirectoryFlagged(m: Mem, m': Mem, c: nat, entries: seq<Entry>)
    requires Flagged(m) && c < |m.frames| && m'.frames == m.frames[c := Directory(entries)]
    requires forall i: nat :: i < |entries| && UserIndex(i) ==> !entries[i].pr
    ensures Flagged(m')
  {
    assert forall l: Loc :: l.frame != c ==> At(m', l) == At(m, l) && IsSlot(m', l) == IsSlot(m, l);
  }

  /** The first `n` entries of directory `d` outside the user part have been copied to directory `c`, and no others changed. */
  ghost predicate KernelCopied(m: Mem, m': Mem, d: nat, c: nat, n: nat) {
    && IsEntry(m', Loc(c, 0))
    && (forall f: nat :: IsDirectory(m', f) == IsDirectory(m, f))
    && (forall f: nat, i: nat :: f != c && IsDirectory(m, f) && !UserIndex(i) ==> At(m', Loc(f, i)) == At(m, Loc(f, i)))
    && (forall i: nat :: i < n && !UserIndex(i) ==> At(m', Loc(c, i)) == At(m, Loc(d, i)))
  }

  lemma CloneEntryCopied(m: Mem, m1: Mem, d: nat, c: nat, n: nat)
    requires IsDirectory(m, d) && IsDirectory(m, c) && d != c && n < ENTRIES && KernelCopied(m, m1, d, c, n)
    ensures KernelCopied(m, CloneEntry(m1, d, c, n), d, c, n + 1)
    ensures Flagged(m1) ==> Flagged(CloneEntry(m1, d, c, n))
  {
    var e := At(m1, Loc(d, n));
    assert IsEntry(m1, Loc(c, n)) && IsDirectory(m1, c) && IsDirectory(m1, d);
    if !e.pr || !UserIndex(n) {
      SetEntryAt(m1, Loc(c, n), e);
    } else {
      SharedCopied(m, m1, d, c, n);
      if Flagged(m1) {
        RefIntoKept(m1, d, c, n);
      }
    }
  }

  lemma SharedCopied(m: Mem, m1: Mem, d: nat, c: nat, n: nat)
    requires IsDirectory(m, d) && IsDirectory(m, c) && d != c && UserIndex(n) && KernelCopied(m, m1, d, c, n)
    requires IsEntry(m1, Loc(c, n)) && At(m1, Loc(d, n)).pr
    ensures KernelCopied(m, RefInto(m1, d, c, n), d, c, n + 1)
  {
    RefIntoAt(m1, d, c, n);
    hide RefInto, IsDirectory;
  }

  lemma RefIntoAt(m: Mem, src: nat, dst: nat, i: nat)
    requires IsEntry(m, Loc(dst, i)) && At(m, Loc(src, i)).pr
    ensures var m' := RefInto(m, src, dst, i);
            && (forall f: nat :: IsDirectory(m', f) == IsDirectory(m, f))
            && (forall x: Loc :: IsEntry(m', x) == IsEntry(m, x))
            && (forall x: Loc :: x != Loc(src, i) && x != Loc(dst, i) ==> At(m', x) == At(m, x))
  {
    hide SetEntry, IsEntry;
    var e := At(m, Loc(src, i));
    var m1 := if e.rw then IncRef(m, e.frame) else m;
    var m2 := SetEntry(m1, Loc(src, i), ReadOnly(e));
    var m3 := IncRef(m2, e.frame);
    SameFramesSameEntries(m, m1);
    SetAt(m1, Loc(src, i), ReadOnly(e));
    SameFramesSameEntries(m2, m3);
    SetAt(m3, Loc(dst, i), ReadOnly(e));
    assert forall f: nat :: IsDirectory(m1, f) == IsDirectory(m, f) && IsDirectory(m3, f) == IsDirectory(m2, f);
    hide At, IsDirectory;
  }

  lemma SetAt(m: Mem, l: Loc, e: Entry)
    ensures var m' := SetEntry(m, l, e);
            && (forall f: nat :: IsDirectory(m', f) == IsDirectory(m, f))
            && (forall x: Loc :: IsEntry(m', x) == IsEntry(m, x))
            && (forall x: Loc :: x != l ==> At(m', x) == At(m, x))
  {
    if IsEntry(m, l) {
      SetEntryAt(m, l, e);
    }
  }

  lemma {:induction false} CloneUpToCopied(m: Mem, d: nat, c: nat, n: nat)
    requires IsDirectory(m, d) && IsDirectory(m, c) && d != c && n <= ENTRIES && IsEntry(m, Loc(c, 0))
    ensures KernelCopied(m, CloneUpTo(m, d, c, n), d, c, n)
    ensures Flagged(m) ==> Flagged(CloneUpTo(m, d, c, n))
  {
    hide CloneEntry, Flagged;
    if n > 0 {
      hide KernelCopied;
      CloneUpToCopied(m, d, c, n - 1);
      CloneEntryCopied(m, CloneUpTo(m, d, c, n - 1), d, c, n - 1);
    }
  }

  /** A fork for the entries outside the user part: the child `c` has those of `d`, everyone else its own. */
  ghost predicate KernelForked(m: Mem, m': Mem, d: nat, c: nat) {
    forall f: nat, i: nat :: IsDirectory(m', f) && !UserIndex(i) ==> At(m', Loc(f, i)) == At(m, Loc(if f == c then d else f, i))
  }

  lemma KernelForkedFrom(m: Mem, m1: Mem, m': Mem, d: nat, c: nat)
    requires c < |m.frames| && m.frames[c].Free? && IsDirectory(m, d) && m1.frames == m.frames[c := Zeroed(DirectoryKind)]
    requires KernelCopied(m1, m', d, c, ENTRIES)
    ensures KernelForked(m, m', d, c)
  {
    assert forall x: Loc :: x.frame != c ==> At(m1, x) == At(m, x);
    forall f: nat, i: nat | IsDirectory(m', f) && !UserIndex(i)
      ensures At(m', Loc(f, i)) == At(m, Loc(if f == c then d else f, i))
    {
      assert IsDirectory(m1, f);
    }
  }

  lemma DeepPageKept(m: Mem, src: nat, dst: nat, j: nat)
    requires Flagged(m) && !IsDirectory(m, src) && !IsDirectory(m, dst) && DeepPage(m, src, dst, j).Some?
    ensures Kept(m, DeepPage(m, src, dst, j).value)
  {
    var e := At(m, Loc(src, j));
    if !e.pr {
      SetKept(m, Loc(dst, j), e);
    } else {
      assert IsSlot(m, Loc(src, j)) && UserBit(e);
      var (m1, q) := Alloc(m, DataKind).value;
      AllocKept(m, DataKind);
      hide Alloc, Flagged;
      var m2 := SetBytes(m1, q, BytesOf(m1, e.frame));
      SetBytesKept(m1, q, BytesOf(m1, e.frame));
      SetKept(m2, Loc(dst, j), e.(frame := q));
      KeptTrans(m, m1, m2);
      KeptTrans(m, m2, SetEntry(m2, Loc(dst, j), e.(frame := q)));
    }
  }

  lemma {:induction false} DeepPagesKept(m: Mem, src: nat, dst: nat, n: nat)
    requires Flagged(m) && !IsDirectory(m, src) && !IsDirectory(m, dst) && DeepPagesUpTo(m, src, dst, n).Some?
    ensures Kept(m, DeepPagesUpTo(m, src, dst, n).value)
  {
    if n == 0 {
      SameFramesKept(m, m);
    } else {
      hide DeepPage, Flagged, At;
      DeepPagesKept(m, src, dst, n - 1);
      var m1 := DeepPagesUpTo(m, src, dst, n - 1).value;
      DeepPageKept(m1, src, dst, n - 1);
      KeptTrans(m, m1, DeepPage(m1, src, dst, n - 1).value);
    }
  }

  /** Copying a table in full keeps the flags on both levels. */
  lemma DeepTableFlagged(m: Mem, d: nat, c: nat, i: nat)
    requires Flagged(m) && UserIndex(i) ==> UserEntry(m, Loc(d, i))
    requires Flagged(m) && IsDirectory(m, d) && IsDirectory(m, c) && DeepTable(m, d, c, i).Some?
    ensures Flagged(DeepTable(m, d, c, i).value)
  {
    var e := At(m, Loc(d, i));
    if !e.pr || !UserIndex(i) {
      if IsEntry(m, Loc(c, i)) {
        SetEntryAt(m, Loc(c, i), e);
      }
    } else {
      assert IsSlot(m, Loc(d, i)) && UserBit(e);
      var (m1, p) := Alloc(m, TableKind).value;
      AllocKept(m, TableKind);
      hide Alloc, Flagged, DeepPagesUpTo;
      DeepPagesKept(m1, e.frame, p, ENTRIES);
      var m2 := DeepPagesUpTo(m1, e.frame, p, ENTRIES).value;
      SetKept(m2, Loc(c, i), e.(frame := p));
    }
  }

  /** The state of the copying fork before table `k`: both directories are there, and the entry is a user entry. */
  ghost predicate DeepTurn(m: Mem, d: nat, c: nat, k: nat) {
    var m1 := DeepTablesUpTo(m, d, c, k);
    m1.Some? ==> IsDirectory(m1.value, d) && IsDirectory(m1.value, c) && (UserIndex(k) ==> UserEntry(m1.value, Loc(d, k)))
  }

  lemma {:induction false} DeepTablesFlagged(m: Mem, d: nat, c: nat, n: nat)
    requires Flagged(m) && DeepTablesUpTo(m, d, c, n).Some? && forall k: nat :: k < n ==> DeepTurn(m, d, c, k)
    ensures Flagged(DeepTablesUpTo(m, d, c, n).value)
  {
    hide DeepTable, Flagged, UserEntry, IsDirectory;
    if n > 0 {
      DeepTablesFlagged(m, d, c, n - 1);
      assert DeepTurn(m, d, c, n - 1);
      DeepTableFlagged(DeepTablesUpTo(m, d, c, n - 1).value, d, c, n - 1);
    }
  }
}
