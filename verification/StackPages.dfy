/** Writing to the pages of a directory that shares nothing yet (write_stack_data in kernel/vmm.cc). */
module StackPages {
  import opened Paging
  import opened PagingInvariant
  import opened PagingMap
  import opened PagingSteps
  import opened Wrappers

  function TableIndex(a: nat): nat {
    a / FRAME_SIZE / ENTRIES
  }

  function PageIndex(a: nat): (j: nat)
    ensures j < ENTRIES
  {
    a / FRAME_SIZE % ENTRIES
  }

  function Offset(a: nat): (o: nat)
    ensures o < FRAME_SIZE
  {
    a % FRAME_SIZE
  }

  /** The byte at address `a` as directory `d` maps it. */
  ghost function Seen(m: Mem, d: nat, a: nat): Option<int> {
    var v := View(m, d, TableIndex(a), PageIndex(a), {});
    if v.Some? && |v.value| == FRAME_SIZE then Some(v.value[Offset(a)]) else None
  }

  /** Entries that are present stay as they are. */
  ghost predicate Keeps(m: Mem, m': Mem) {
    forall l: Loc :: At(m, l).pr ==> At(m', l) == At(m, l)
  }

  /** The user pages of `d` are absent or reached through writable entries. */
  ghost predicate PrivateDir(m: Mem, d: nat) {
    && d < |m.frames| && m.frames[d].Directory?
    && (forall i: nat :: UserIndex(i) && At(m, Loc(d, i)).pr ==> At(m, Loc(d, i)).rw)
    && (forall i: nat, j: nat :: UserIndex(i) && View(m, d, i, j, {}).Some? ==> MappedWritable(m, d, i, j))
  }

  /** The page of `a` is frame `f`, writable. */
  ghost predicate Owns(m: Mem, d: nat, a: nat, f: nat) {
    && MappedWritable(m, d, TableIndex(a), PageIndex(a))
    && At(m, Loc(At(m, Loc(d, TableIndex(a))).frame, PageIndex(a))).frame == f
  }

  /** The bytes are at `a` now, other bytes that were there before still are, and so are the frames behind them. */
  ghost predicate Wrote(m: Mem, m': Mem, d: nat, a: nat, bytes: seq<int>) {
    && Inv(m', {}, {}) && PrivateDir(m', d) && Keeps(m, m')
    && (forall x: nat {:trigger Seen(m', d, x)} ::
          if a <= x < a + |bytes| then Seen(m', d, x) == Some(bytes[x - a])
          else Seen(m, d, x).Some? ==> Seen(m', d, x) == Seen(m, d, x))
  }

  // ---------------------------------------------------------------------------------------
  // A new page
  // ---------------------------------------------------------------------------------------

  lemma KeepsTrans(m: Mem, m1: Mem, m2: Mem)
    requires Keeps(m, m1) && Keeps(m1, m2)
    ensures Keeps(m, m2)
  {
  }

  lemma AllocKeeps(m: Mem, k: Kind, pend: set<nat>)
    requires Inv(m, pend, {}) && Alloc(m, k).Some?
    ensures var (m', p) := Alloc(m, k).value;
            && Keeps(m, m') && p < |m.frames| && m.frames[p].Free?
            && (forall l: Loc :: l.frame != p ==> At(m', l) == At(m, l))
  {
    AllocStep(m, k, pend, {});
    hide Alloc, Inv;
  }

  lemma SetEntryKeeps(m: Mem, l: Loc, e: Entry)
    requires !At(m, l).pr
    ensures Keeps(m, SetEntry(m, l, e))
    ensures forall x: Loc :: x != l ==> At(SetEntry(m, l, e), x) == At(m, x)
  {
  }

  /** Mapping a new page adds entries and changes none. */
  lemma DemandMapKeeps(m: Mem, d: nat, i: nat, j: nat)
    requires Inv(m, {}, {}) && PrivateDir(m, d) && IsSlot(m, Loc(d, i)) && j < ENTRIES
    requires View(m, d, i, j, {}).None? && DemandMap(m, d, i, j, ZeroBytes()).Some?
    ensures var m' := DemandMap(m, d, i, j, ZeroBytes()).value;
            && Keeps(m, m') && At(m', Loc(d, i)).pr && At(m', Loc(d, i)).rw
            && (forall k: nat :: k != i ==> At(m', Loc(d, k)) == At(m, Loc(d, k)))
            && MappedWritable(m', d, i, j)
  {
    var (m1, f) := Alloc(m, DataKind).value;
    AllocStep(m, DataKind, {}, {});
    AllocKeeps(m, DataKind, {});
    var m2 := SetBytes(m1, f, ZeroBytes());
    SetBytesStep(m1, f, ZeroBytes(), {} + {f}, {});
    assert {} + {f} == {f};
    UnnamedBytesViews(m1, f, ZeroBytes());
    assert forall l: Loc :: At(m2, l) == At(m1, l);
    KeepsTrans(m, m1, m2);
    hide Alloc;
    assert SameView(m, m1, d, {}) && SameView(m1, m2, d, {});
    MapAddressKeeps(m2, d, i, j, f);
    KeepsTrans(m, m2, DemandMap(m, d, i, j, ZeroBytes()).value);
  }

  lemma MapAddressKeeps(m: Mem, d: nat, i: nat, j: nat, f: nat)
    requires Inv(m, {f}, {}) && IsSlot(m, Loc(d, i)) && m.frames[d].Directory? && j < ENTRIES && Unnamed(m, f)
    requires (At(m, Loc(d, i)).pr ==> At(m, Loc(d, i)).rw) && View(m, d, i, j, {}).None?
    requires MapAddress(m, d, i, j, f, FLAG_US, true).Some?
    ensures var m' := MapAddress(m, d, i, j, f, FLAG_US, true).value;
            && Keeps(m, m') && At(m', Loc(d, i)).pr && At(m', Loc(d, i)).rw
            && (forall k: nat :: k != i ==> At(m', Loc(d, k)) == At(m, Loc(d, k)))
            && MappedWritable(m', d, i, j)
  {
    var l := Loc(d, i);
    EnsureTableStep(m, d, i, FLAG_US, {f}, f);
    var m1 := EnsureTable(m, d, i, FLAG_US, true).value;
    assert Keeps(m, m1) && (forall k: nat :: k != i ==> At(m1, Loc(d, k)) == At(m, Loc(d, k))) by {
      if !At(m, l).pr {
        AllocKeeps(m, TableKind, {f});
        var (a, p) := Alloc(m, TableKind).value;
        hide Alloc, Inv;
        SetEntryKeeps(a, l, Entry(p, FLAG_US, true, true));
      }
    }
    assert SameView(m, m1, d, {});
    PageAbsent(m1, d, i, j, {f});
    var t := At(m1, l).frame;
    SetEntryKeeps(m1, Loc(t, j), Entry(f, FLAG_US, true, true));
    assert t != d;
  }

  // ---------------------------------------------------------------------------------------
  // Addresses and pages
  // ---------------------------------------------------------------------------------------

  /** Two addresses lie in the same page. */
  ghost predicate OnePage(a: nat, x: nat) {
    TableIndex(x) == TableIndex(a) && PageIndex(x) == PageIndex(a)
  }

  lemma WithinPage(a: nat, x: nat)
    ensures a <= x < a + (FRAME_SIZE - Offset(a)) ==> OnePage(a, x) && Offset(x) == Offset(a) + (x - a)
    ensures OnePage(a, x) ==> x - Offset(x) == a - Offset(a)
  {
  }

  // ---------------------------------------------------------------------------------------
  // What a write does
  // ---------------------------------------------------------------------------------------

  /** A new page for `a`: nothing that was there changes. */
  lemma PageIn(m: Mem, d: nat, a: nat)
    requires Inv(m, {}, {}) && PrivateDir(m, d) && IsSlot(m, Loc(d, TableIndex(a)))
    requires View(m, d, TableIndex(a), PageIndex(a), {}).None?
    requires DemandMap(m, d, TableIndex(a), PageIndex(a), ZeroBytes()).Some?
    ensures var m' := DemandMap(m, d, TableIndex(a), PageIndex(a), ZeroBytes()).value;
            Wrote(m, m', d, a, []) && MappedWritable(m', d, TableIndex(a), PageIndex(a))
  {
    var i, j := TableIndex(a), PageIndex(a);
    DemandMapStep(m, d, i, j, ZeroBytes());
    DemandMapKeeps(m, d, i, j);
    var m' := DemandMap(m, d, i, j, ZeroBytes()).value;
    hide DemandMap, Inv, TableIndex, PageIndex;
    PrivateAfter(m, m', d, i, j, ZeroBytes());
  }

  /** One page of a private directory changed or came into being. */
  lemma PrivateAfter(m: Mem, m': Mem, d: nat, i: nat, j: nat, bytes: seq<int>)
    requires PrivateDir(m, d) && PageUpdated(m, m', d, i, j, bytes) && Keeps(m, m') && MappedWritable(m', d, i, j)
    requires forall k: nat :: k != i ==> At(m', Loc(d, k)) == At(m, Loc(d, k))
    ensures PrivateDir(m', d)
  {
    hide Inv;
    forall i': nat, j': nat | UserIndex(i') && View(m', d, i', j', {}).Some?
      ensures MappedWritable(m', d, i', j')
    {
      if !(i' == i && j' == j) {
        assert View(m, d, i', j', {}).Some?;
        assert MappedWritable(m, d, i', j');
      }
    }
  }

  /** Part of a page replaced. */
  function Patched(page: seq<int>, at: nat, bytes: seq<int>): (r: seq<int>)
    requires at + |bytes| <= |page|
    ensures |r| == |page|
  {
    page[..at] + bytes + page[at + |bytes|..]
  }

  /** A write through the frame of the page. */
  lemma PatchPage(m: Mem, d: nat, a: nat, f: nat, bytes: seq<int>)
    requires Inv(m, {}, {}) && PrivateDir(m, d) && UserIndex(TableIndex(a)) && Owns(m, d, a, f) && Offset(a) + |bytes| <= FRAME_SIZE
    ensures f < |m.frames| && m.frames[f].Data? && |m.frames[f].bytes| == FRAME_SIZE
    ensures Wrote(m, SetBytes(m, f, Patched(m.frames[f].bytes, Offset(a), bytes)), d, a, bytes)
  {
    var i, j := TableIndex(a), PageIndex(a);
    OwnedPage(m, d, i, j, f);
    var page := m.frames[f].bytes;
    var now := Patched(page, Offset(a), bytes);
    var m' := SetBytes(m, f, now);
    WriteThrough(m, d, i, j, now);
    assert forall l: Loc :: At(m', l) == At(m, l);
    hide Inv;
    PrivateAfter(m, m', d, i, j, now);
    forall x: nat
      ensures if a <= x < a + |bytes| then Seen(m', d, x) == Some(bytes[x - a])
              else Seen(m, d, x).Some? ==> Seen(m', d, x) == Seen(m, d, x)
    {
      WithinPage(a, x);
      hide TableIndex, PageIndex, Offset;
      PatchedByte(page, Offset(a), bytes, Offset(x));
    }
  }

  lemma PatchedByte(page: seq<int>, at: nat, bytes: seq<int>, o: nat)
    requires at + |bytes| <= |page| && o < |page|
    ensures Patched(page, at, bytes)[o] == if at <= o < at + |bytes| then bytes[o - at] else page[o]
  {
  }

  lemma OwnedPage(m: Mem, d: nat, i: nat, j: nat, f: nat)
    requires Inv(m, {}, {}) && PrivateDir(m, d) && UserIndex(i) && j < ENTRIES && MappedWritable(m, d, i, j)
    requires At(m, Loc(At(m, Loc(d, i)).frame, j)).frame == f
    ensures f < |m.frames| && m.frames[f].Data? && |m.frames[f].bytes| == FRAME_SIZE
    ensures View(m, d, i, j, {}) == Some(m.frames[f].bytes)
  {
    var t := At(m, Loc(d, i)).frame;
    assert IsSlot(m, Loc(d, i)) && m.frames[t].Table?;
    assert IsSlot(m, Loc(t, j));
  }

  lemma WroteTrans(m: Mem, m1: Mem, m2: Mem, d: nat, a: nat, bytes: seq<int>)
    requires Wrote(m, m1, d, a, []) && Wrote(m1, m2, d, a, bytes)
    ensures Wrote(m, m2, d, a, bytes)
  {
    hide Inv, Seen, PrivateDir;
    forall x: nat
      ensures if a <= x < a + |bytes| then Seen(m2, d, x) == Some(bytes[x - a])
              else Seen(m, d, x).Some? ==> Seen(m2, d, x) == Seen(m, d, x)
    {
      assert Seen(m, d, x).Some? ==> Seen(m1, d, x) == Seen(m, d, x);
    }
  }

  lemma WroteMeans(m: Mem, m': Mem, d: nat, a: nat, bytes: seq<int>)
    requires Wrote(m, m', d, a, bytes)
    ensures Inv(m', {}, {}) && PrivateDir(m', d) && Keeps(m, m')
  {
  }

  lemma WroteNothing(m: Mem, d: nat, a: nat)
    requires Inv(m, {}, {}) && PrivateDir(m, d)
    ensures Wrote(m, m, d, a, [])
  {
  }

  /** The frame behind an address survives writes. */
  lemma OwnsKept(m: Mem, m': Mem, d: nat, a: nat, f: nat)
    requires Keeps(m, m') && Owns(m, d, a, f)
    ensures Owns(m', d, a, f)
  {
  }

  lemma OwnsNext(m: Mem, d: nat, a: nat, f: nat, n: nat)
    requires Owns(m, d, a, f) && Offset(a) + n < FRAME_SIZE
    ensures Owns(m, d, a + n, f)
  {
    WithinPage(a, a + n);
  }

  // ---------------------------------------------------------------------------------------
  // What has been written
  // ---------------------------------------------------------------------------------------

  ghost predicate Written(m: Mem, d: nat, base: nat, bytes: seq<int>) {
    forall k: nat {:trigger bytes[k]} :: k < |bytes| ==> Seen(m, d, base + k) == Some(bytes[k])
  }

  lemma WrittenMore(m: Mem, m': Mem, d: nat, base: nat, bytes: seq<int>, more: seq<int>)
    requires Written(m, d, base, bytes) && Wrote(m, m', d, base + |bytes|, more)
    ensures Written(m', d, base, bytes + more)
  {
    hide Seen, Inv, PrivateDir;
    forall k: nat | k < |bytes + more|
      ensures Seen(m', d, base + k) == Some((bytes + more)[k])
    {
      if k < |bytes| {
        assert Seen(m, d, base + k) == Some(bytes[k]);
      }
    }
  }

  lemma WrittenElsewhere(m: Mem, m': Mem, d: nat, base: nat, bytes: seq<int>, a: nat, more: seq<int>)
    requires Written(m, d, base, bytes) && Wrote(m, m', d, a, more) && (base + |bytes| <= a || a + |more| <= base)
    ensures Written(m', d, base, bytes)
  {
    hide Seen, Inv, PrivateDir;
    forall k: nat | k < |bytes|
      ensures Seen(m', d, base + k) == Some(bytes[k])
    {
      assert Seen(m, d, base + k) == Some(bytes[k]);
    }
  }
}
