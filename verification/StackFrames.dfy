/** How many frames a stack image asks for: one for each of its pages that is absent, one for each absent page table. */
module StackFrames {
  import opened Sets
  import opened Paging
  import opened PagingInvariant
  import opened PagingMap
  import opened PagingRoom
  import opened PagingSteps
  import opened StackPages
  import opened Wrappers

  ghost function AbsentPages(m: Mem, d: nat, first: nat, last: nat): set<nat> {
    set p | first <= p <= last && !Mapped(m, d, p / ENTRIES, p % ENTRIES)
  }

  ghost function AbsentTables(m: Mem, d: nat, first: nat, last: nat): set<nat> {
    set i | first / ENTRIES <= i <= last / ENTRIES && !At(m, Loc(d, i)).pr
  }

  /** The frames left over once the pages `first` to `last` are all mapped; negative if they cannot be. */
  ghost function Slack(m: Mem, d: nat, first: nat, last: nat): int {
    Available(m) - |AbsentPages(m, d, first, last)| - |AbsentTables(m, d, first, last)|
  }

  /** A mapping takes a frame for the page table if there is none. */
  lemma MapAvailable(m: Mem, d: nat, i: nat, j: nat, f: nat)
    requires Listed(m) && (At(m, Loc(d, i)).pr ==> At(m, Loc(d, i)).rw)
    ensures var cost := if At(m, Loc(d, i)).pr then 0 else 1; var r := MapAddress(m, d, i, j, f, FLAG_US, true);
            && (r.Some? <==> Available(m) >= cost)
            && (r.Some? ==> Available(r.value) == Available(m) - cost)
  {
    AllocAvailable(m, TableKind);
    hide Alloc, At;
    assert CopyTable(m, Loc(d, i)) == Some(m);
  }

  /** The frames demand paging takes on a directory that shares nothing. */
  lemma DemandMapAvailable(m: Mem, d: nat, i: nat, j: nat)
    requires Inv(m, {}, {}) && IsSlot(m, Loc(d, i)) && (At(m, Loc(d, i)).pr ==> At(m, Loc(d, i)).rw)
    ensures var cost := if At(m, Loc(d, i)).pr then 1 else 2; var r := DemandMap(m, d, i, j, ZeroBytes());
            && (r.Some? <==> Available(m) >= cost)
            && (r.Some? ==> Available(r.value) == Available(m) - cost)
  {
    hide Inv, MapAddress;
    InvMeans(m, {}, {});
    AllocAvailable(m, DataKind);
    if Alloc(m, DataKind).Some? {
      var (m1, f) := Alloc(m, DataKind).value;
      AllocStep(m, DataKind, {}, {});
      AllocKeeps(m, DataKind, {});
      hide Alloc;
      SetBytesStep(m1, f, ZeroBytes(), {} + {f}, {});
      var m2 := SetBytes(m1, f, ZeroBytes());
      InvMeans(m2, {} + {f}, {});
      assert At(m2, Loc(d, i)) == At(m, Loc(d, i));
      hide At, IsSlot, WellFormed, FreeListOk;
      MapAvailable(m2, d, i, j, f);
    }
  }

  lemma MappedIsShown(m: Mem, d: nat, i: nat, j: nat)
    requires Inv(m, {}, {}) && d < |m.frames| && m.frames[d].Directory? && UserIndex(i) && j < ENTRIES
    ensures Mapped(m, d, i, j) <==> View(m, d, i, j, {}).Some?
  {
    assert IsSlot(m, Loc(d, i));
    if At(m, Loc(d, i)).pr {
      assert IsSlot(m, Loc(At(m, Loc(d, i)).frame, j));
    }
  }

  lemma PrivateEntry(m: Mem, d: nat, i: nat)
    requires Inv(m, {}, {}) && PrivateDir(m, d) && UserIndex(i)
    ensures IsSlot(m, Loc(d, i)) && (At(m, Loc(d, i)).pr ==> At(m, Loc(d, i)).rw)
  {
  }

  /** Mapping a page of the range changes neither what is absent elsewhere nor what is left over. */
  lemma DemandMapSlack(m: Mem, d: nat, p: nat, first: nat, last: nat)
    requires Inv(m, {}, {}) && PrivateDir(m, d) && first <= p <= last && UserIndex(first / ENTRIES) && UserIndex(last / ENTRIES)
    requires !Mapped(m, d, p / ENTRIES, p % ENTRIES)
    ensures var r := DemandMap(m, d, p / ENTRIES, p % ENTRIES, ZeroBytes());
            && (r.None? ==> Slack(m, d, first, last) < 0)
            && (r.Some? ==> Slack(r.value, d, first, last) == Slack(m, d, first, last))
  {
    hide DemandMap, Mapped, View, Inv, PrivateDir, At, IsSlot;
    var i, j := p / ENTRIES, p % ENTRIES;
    var pages, tables := AbsentPages(m, d, first, last), AbsentTables(m, d, first, last);
    PrivateEntry(m, d, i);
    DemandMapAvailable(m, d, i, j);
    assert p in pages && (i in tables <==> !At(m, Loc(d, i)).pr);
    RemoveOne(pages, p);
    if i in tables {
      RemoveOne(tables, i);
    } else {
      assert tables - {i} == tables;
    }
    if DemandMap(m, d, i, j, ZeroBytes()).Some? {
      PagesLeft(m, d, p, first, last);
    }
  }

  lemma PagesLeft(m: Mem, d: nat, p: nat, first: nat, last: nat)
    requires Inv(m, {}, {}) && PrivateDir(m, d) && first <= p <= last && UserIndex(first / ENTRIES) && UserIndex(last / ENTRIES)
    requires !Mapped(m, d, p / ENTRIES, p % ENTRIES) && DemandMap(m, d, p / ENTRIES, p % ENTRIES, ZeroBytes()).Some?
    ensures var m' := DemandMap(m, d, p / ENTRIES, p % ENTRIES, ZeroBytes()).value;
            && AbsentPages(m', d, first, last) == AbsentPages(m, d, first, last) - {p}
            && AbsentTables(m', d, first, last) == AbsentTables(m, d, first, last) - {p / ENTRIES}
  {
    hide DemandMap, View;
    var i, j := p / ENTRIES, p % ENTRIES;
    assert IsSlot(m, Loc(d, i));
    MappedIsShown(m, d, i, j);
    DemandMapStep(m, d, i, j, ZeroBytes());
    DemandMapKeeps(m, d, i, j);
    var m' := DemandMap(m, d, i, j, ZeroBytes()).value;
    hide Inv, Mapped;
    forall q: nat | first <= q <= last
      ensures Mapped(m', d, q / ENTRIES, q % ENTRIES) <==> q == p || Mapped(m, d, q / ENTRIES, q % ENTRIES)
    {
      MappedIsShown(m, d, q / ENTRIES, q % ENTRIES);
      MappedIsShown(m', d, q / ENTRIES, q % ENTRIES);
      assert q / ENTRIES == i && q % ENTRIES == j ==> q == p;
    }
  }

  /** Writing into a frame maps nothing. */
  lemma BytesSlack(m: Mem, f: nat, bytes: seq<int>, d: nat, first: nat, last: nat)
    requires f < |m.frames| && m.frames[f].Data?
    ensures Slack(SetBytes(m, f, bytes), d, first, last) == Slack(m, d, first, last)
  {
    var m' := SetBytes(m, f, bytes);
    assert forall l: Loc :: At(m', l) == At(m, l);
    assert AbsentPages(m', d, first, last) == AbsentPages(m, d, first, last);
    assert AbsentTables(m', d, first, last) == AbsentTables(m, d, first, last);
  }

  /** When every page of the range is mapped, what is left over is what the allocator has. */
  lemma AllMappedSlack(m: Mem, d: nat, first: nat, last: nat)
    requires first <= last && forall p: nat :: first <= p <= last ==> Mapped(m, d, p / ENTRIES, p % ENTRIES)
    ensures Slack(m, d, first, last) == Available(m)
  {
    assert AbsentPages(m, d, first, last) == {};
    forall i | first / ENTRIES <= i <= last / ENTRIES
      ensures At(m, Loc(d, i)).pr
    {
      var p := if i * ENTRIES < first then first else i * ENTRIES;
      assert first <= p <= last && p / ENTRIES == i && Mapped(m, d, p / ENTRIES, p % ENTRIES);
    }
    assert AbsentTables(m, d, first, last) == {};
  }
}
