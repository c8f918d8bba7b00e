/** unmap_pages on a range of pages: which tables of the range decide whether it is right. */
module PagingUnmapRange {
  import opened Sets
  import opened Wrappers
  import opened Paging
  import opened PagingInvariant
  import opened PagingSteps
  import opened PagingEntries
  import opened PagingUnmap

  predicate InRange(i: nat, j: nat, first: nat, last: nat) {
    j < ENTRIES && first <= i * ENTRIES + j <= last
  }

  /** Directory `d` lost pages `first` to `last` in the first `n` tables, and nobody lost anything else. */
  ghost predicate RangeUnmapped(m: Mem, m': Mem, d: nat, first: nat, last: nat, n: nat) {
    forall d': nat, i: nat, j: nat :: View(m', d', i, j, {}) ==
      if d' == d && i < first / ENTRIES + n && InRange(i, j, first, last) then None else View(m, d', i, j, {})
  }

  ghost predicate HarmlessRound(m: Mem, d: nat, i: nat, first: nat, last: nat)
    requires first / ENTRIES <= i <= last / ENTRIES
  {
    i == first / ENTRIES || i == last / ENTRIES ==> Harmless(m, d, i, LowEntry(i, first), HighEntry(i, last))
  }

  /** Every round is harmless when its turn comes; only the first and the last can fail to be. */
  ghost predicate HarmlessRounds(m: Mem, d: nat, first: nat, last: nat, n: nat)
    requires first <= last && n <= last / ENTRIES + 1 - first / ENTRIES
  {
    n > 0 ==>
      && HarmlessRounds(m, d, first, last, n - 1)
      && (UnmapRounds(m, d, first, last, n - 1).Some? ==>
            HarmlessRound(UnmapRounds(m, d, first, last, n - 1).value, d, first / ENTRIES + n - 1, first, last))
  }

  /** The entries of table `i` that lie in the range. */
  lemma RangeEntries(i: nat, j: nat, first: nat, last: nat)
    requires first <= last && first / ENTRIES <= i <= last / ENTRIES
    ensures LowEntry(i, first) <= HighEntry(i, last)
    ensures InRange(i, j, first, last) <==> LowEntry(i, first) <= j <= HighEntry(i, last)
    ensures first / ENTRIES < i < last / ENTRIES ==> LowEntry(i, first) == 0 && HighEntry(i, last) == ENTRIES - 1
  {
  }

  /** One round, whether its table may be partial or not. */
  lemma UnmapRoundIff(m: Mem, d: nat, i: nat, first: nat, last: nat)
    requires Inv(m, {}, {}) && IsSlot(m, Loc(d, i)) && m.frames[d].Directory?
    requires first <= last && first / ENTRIES <= i <= last / ENTRIES && UnmapRound(m, d, i, first, last).Some?
    ensures var m' := UnmapRound(m, d, i, first, last).value; var lo, hi := LowEntry(i, first), HighEntry(i, last);
            && RoundKeeps(m, m', d, i) && lo <= hi
            && (HarmlessRound(m, d, i, first, last) ==> OnlyUnmapped(m, m', d, i, lo, hi))
            && (!HarmlessRound(m, d, i, first, last) ==> StillThere(m, m', d, i, lo, hi) && OwnKept(m, m', d))
  {
    hide Inv, UnmapTable, UnrefTable, RoundKeeps, OnlyUnmapped, StillThere, OwnKept, Harmless;
    RangeEntries(i, 0, first, last);
    var lo, hi := LowEntry(i, first), HighEntry(i, last);
    if i == first / ENTRIES || i == last / ENTRIES {
      UnmapTableIff(m, d, i, lo, hi);
    } else {
      assert !MapsOutside(m, At(m, Loc(d, i)).frame, lo, hi);
      UnmapWhole(m, d, i, lo, hi);
    }
  }

  /** After `n` rounds: right so far, or a page that was to go is still there for good. */
  ghost predicate RoundsDone(m: Mem, m': Mem, d: nat, first: nat, last: nat, n: nat, right: bool) {
    && Inv(m', {}, {}) && SameDirectories(m, m') && Outstanding(m') == Outstanding(m)
    && EntriesDone(m, m', d, first / ENTRIES, n)
    && (right ==> RangeUnmapped(m, m', d, first, last, n))
    && (!right ==> exists i: nat, j: nat :: i < first / ENTRIES + n && InRange(i, j, first, last) && Stuck(m', d, i, j))
  }

  /** The entries passed are absent or the process's own; the other directory entries are untouched. */
  ghost predicate EntriesDone(m: Mem, m': Mem, d: nat, start: nat, n: nat) {
    forall x: Loc :: IsSlot(m, x) && m.frames[x.frame].Directory? ==>
      if x.frame == d && start <= x.index < start + n then At(m', x).pr ==> At(m', x).rw else At(m', x) == At(m, x)
  }

  ghost predicate Stuck(m: Mem, d: nat, i: nat, j: nat) {
    At(m, Loc(d, i)).pr && At(m, Loc(d, i)).rw && View(m, d, i, j, {}).Some?
  }

  /** A right round after right rounds. */
  lemma RangeNext(m: Mem, m1: Mem, m': Mem, d: nat, first: nat, last: nat, n: nat)
    requires first <= last && first / ENTRIES + n <= last / ENTRIES
    requires RangeUnmapped(m, m1, d, first, last, n)
    requires var i := first / ENTRIES + n; OnlyUnmapped(m1, m', d, i, LowEntry(i, first), HighEntry(i, last))
    ensures RangeUnmapped(m, m', d, first, last, n + 1)
  {
    hide View;
    var k := first / ENTRIES + n;
    forall d': nat, i: nat, j: nat
      ensures View(m', d', i, j, {}) ==
              if d' == d && i < first / ENTRIES + (n + 1) && InRange(i, j, first, last) then None else View(m, d', i, j, {})
    {
      RangeEntries(k, j, first, last);
      hide InRange, LowEntry, HighEntry;
    }
  }

  /** What is stuck stays stuck. */
  lemma StuckKept(m: Mem, m': Mem, d: nat, k: nat, i: nat, j: nat, lo: nat, hi: nat)
    requires IsSlot(m, Loc(d, i)) && m.frames[d].Directory? && Stuck(m, d, i, j) && i != k && RoundKeeps(m, m', d, k)
    requires OnlyUnmapped(m, m', d, k, lo, hi) || OwnKept(m, m', d)
    ensures Stuck(m', d, i, j)
  {
    hide Inv, View, Outstanding;
  }

  lemma RoundsNext(m: Mem, m1: Mem, d: nat, first: nat, last: nat, n: nat, right: bool)
    requires Inv(m, {}, {}) && d < |m.frames| && m.frames[d].Directory? && UserIndex(first / ENTRIES) && UserIndex(last / ENTRIES)
    requires first <= last && first / ENTRIES + n <= last / ENTRIES && RoundsDone(m, m1, d, first, last, n, right)
    requires UnmapRound(m1, d, first / ENTRIES + n, first, last).Some?
    ensures RoundsDone(m, UnmapRound(m1, d, first / ENTRIES + n, first, last).value, d, first, last, n + 1,
                       right && HarmlessRound(m1, d, first / ENTRIES + n, first, last))
  {
    hide Inv, View, UnmapRound, Outstanding, HarmlessRound, RangeUnmapped, InRange, Stuck, LowEntry, HighEntry, EntriesDone;
    var k := first / ENTRIES + n;
    InvMeans(m, {}, {});
    InvMeans(m1, {}, {});
    DirectorySlot(m1, d, k);
    UnmapRoundIff(m1, d, k, first, last);
    var m' := UnmapRound(m1, d, k, first, last).value;
    EntriesNext(m, m1, m', d, first / ENTRIES, n);
    if !right {
      RoundStuck(m1, m', d, first, last, n, LowEntry(k, first), HighEntry(k, last));
    } else if HarmlessRound(m1, d, k, first, last) {
      RangeNext(m, m1, m', d, first, last, n);
    } else {
      RoundFails(m1, m', d, first, last, n);
    }
  }

  lemma EntriesNext(m: Mem, m1: Mem, m': Mem, d: nat, start: nat, n: nat)
    requires WellFormed(m) && WellFormed(m1) && SameDirectories(m, m1)
    requires EntriesDone(m, m1, d, start, n) && RoundKeeps(m1, m', d, start + n)
    ensures EntriesDone(m, m', d, start, n + 1)
  {
    hide Inv, Outstanding;
    forall x: Loc | IsSlot(m, x) && m.frames[x.frame].Directory?
      ensures if x.frame == d && start <= x.index < start + (n + 1) then At(m', x).pr ==> At(m', x).rw else At(m', x) == At(m, x)
    {
      assert IsSlot(m1, x);
    }
  }

  lemma DirectorySlot(m: Mem, d: nat, i: nat)
    requires IsEntry(m, Loc(d, i)) && m.frames[d].Directory? && UserIndex(i)
    ensures IsSlot(m, Loc(d, i))
  {
  }

  lemma RoundStuck(m1: Mem, m': Mem, d: nat, first: nat, last: nat, n: nat, lo: nat, hi: nat)
    requires d < |m1.frames| && m1.frames[d].Directory? && RoundKeeps(m1, m', d, first / ENTRIES + n)
    requires OnlyUnmapped(m1, m', d, first / ENTRIES + n, lo, hi) || OwnKept(m1, m', d)
    requires exists i: nat, j: nat :: i < first / ENTRIES + n && InRange(i, j, first, last) && Stuck(m1, d, i, j)
    ensures exists i: nat, j: nat :: i < first / ENTRIES + (n + 1) && InRange(i, j, first, last) && Stuck(m', d, i, j)
  {
    hide RoundKeeps, OnlyUnmapped, OwnKept, InRange, Stuck;
    var k := first / ENTRIES + n;
    var i: nat, j: nat :| i < k && InRange(i, j, first, last) && Stuck(m1, d, i, j);
    StuckSlot(m1, d, i, j);
    StuckKept(m1, m', d, k, i, j, lo, hi);
    assert i < first / ENTRIES + (n + 1);
  }

  lemma RoundFails(m1: Mem, m': Mem, d: nat, first: nat, last: nat, n: nat)
    requires first <= last && first / ENTRIES + n <= last / ENTRIES
    requires var k := first / ENTRIES + n; StillThere(m1, m', d, k, LowEntry(k, first), HighEntry(k, last))
    ensures exists i: nat, j: nat :: i < first / ENTRIES + (n + 1) && InRange(i, j, first, last) && Stuck(m', d, i, j)
  {
    hide View, LowEntry, HighEntry, InRange;
    var k := first / ENTRIES + n;
    var j: nat :| LowEntry(k, first) <= j <= HighEntry(k, last) && View(m', d, k, j, {}).Some?;
    RangeEntries(k, j, first, last);
    assert k < first / ENTRIES + (n + 1) && InRange(k, j, first, last) && Stuck(m', d, k, j);
  }

  lemma StuckSlot(m: Mem, d: nat, i: nat, j: nat)
    requires Stuck(m, d, i, j)
    ensures IsSlot(m, Loc(d, i))
  {
  }

  ghost function Tables(first: nat, last: nat): nat
    requires first <= last
  {
    last / ENTRIES + 1 - first / ENTRIES
  }

  lemma {:induction false} RoundsIff(m: Mem, d: nat, first: nat, last: nat, n: nat)
    requires Inv(m, {}, {}) && d < |m.frames| && m.frames[d].Directory? && UserIndex(first / ENTRIES) && UserIndex(last / ENTRIES)
    requires first <= last && n <= Tables(first, last) && UnmapRounds(m, d, first, last, n).Some?
    ensures RoundsDone(m, UnmapRounds(m, d, first, last, n).value, d, first, last, n, HarmlessRounds(m, d, first, last, n))
  {
    hide RoundsDone, Inv, UnmapRound, HarmlessRound;
    if n == 0 {
      RoundsStart(m, d, first, last);
    } else {
      RoundsIff(m, d, first, last, n - 1);
      RoundsNext(m, UnmapRounds(m, d, first, last, n - 1).value, d, first, last, n - 1, HarmlessRounds(m, d, first, last, n - 1));
    }
  }

  lemma RoundsStart(m: Mem, d: nat, first: nat, last: nat)
    requires Inv(m, {}, {}) && first <= last
    ensures RoundsDone(m, m, d, first, last, 0, true)
  {
    assert forall i: nat, j: nat :: i < first / ENTRIES ==> !InRange(i, j, first, last);
  }

  // ---------------------------------------------------------------------------------------
  // The condition before the call
  // ---------------------------------------------------------------------------------------

  ghost function Passed(d: nat, start: nat, end: nat): (r: set<Loc>)
    ensures forall x: Loc :: x in r <==> x.frame == d && start <= x.index < end
  {
    set k | start <= k < end :: Loc(d, k)
  }

  /** The entries of the range before entry `i` that name the same table. */
  ghost function Earlier(m: Mem, d: nat, i: nat, start: nat): set<Loc> {
    set x | x in Passed(d, start, i) && At(m, x).pr && At(m, x).frame == At(m, Loc(d, i)).frame
  }

  /**
   Nobody else uses the last table once the entries before it are gone, or there is nothing to keep
   or to drop.  A directory that names every table once has no earlier entries to subtract.
   */
  ghost predicate HarmlessLast(m: Mem, d: nat, first: nat, last: nat)
    requires first <= last
  {
    var i := last / ENTRIES;
    var e := At(m, Loc(d, i));
    var lo, hi := LowEntry(i, first), HighEntry(i, last);
    || !e.pr || e.rw || Count(m, e.frame) == 1 + |Earlier(m, d, i, first / ENTRIES)|
    || !MapsOutside(m, e.frame, lo, hi) || !MapsInside(m, e.frame, lo, hi)
  }

  /** Both ends of the range are harmless, as the state before the call shows. */
  ghost predicate HarmlessRange(m: Mem, d: nat, first: nat, last: nat)
    requires first <= last
  {
    HarmlessRound(m, d, first / ENTRIES, first, last) && HarmlessLast(m, d, first, last)
  }

  /** Of the entries naming a table still in use read-only, exactly the passed ones are gone. */
  lemma NamersLeft(m: Mem, m1: Mem, d: nat, start: nat, i: nat)
    requires Inv(m, {}, {}) && Inv(m1, {}, {}) && SameDirectories(m, m1) && start <= i && EntriesDone(m, m1, d, start, i - start)
    requires IsSlot(m, Loc(d, i)) && m.frames[d].Directory? && At(m, Loc(d, i)).pr && !At(m, Loc(d, i)).rw
    ensures Namers(m1, At(m, Loc(d, i)).frame, {}) == Namers(m, At(m, Loc(d, i)).frame, {}) - Passed(d, start, i)
  {
    var l := Loc(d, i);
    var t := At(m, l).frame;
    InvMeans(m, {}, {});
    InvMeans(m1, {}, {});
    assert IsSlot(m1, l) && At(m1, l) == At(m, l);
    NoWriter(m1, l);
    forall x: Loc
      ensures Names(m1, x, t, {}) <==> Names(m, x, t, {}) && x !in Passed(d, start, i)
    {
      hide Inv, Passed;
      assert Names(m1, x, t, {}) ==> m1.frames[x.frame].Directory?;
      assert Names(m, x, t, {}) ==> m.frames[x.frame].Directory?;
      assert IsSlot(m, x) && m.frames[x.frame].Directory? <==> IsSlot(m1, x) && m1.frames[x.frame].Directory?;
    }
  }

  /** So the counter went down by the number of earlier entries. */
  lemma CountLeft(m: Mem, m1: Mem, d: nat, start: nat, i: nat)
    requires Inv(m, {}, {}) && Inv(m1, {}, {}) && SameDirectories(m, m1) && start <= i && EntriesDone(m, m1, d, start, i - start)
    requires IsSlot(m, Loc(d, i)) && m.frames[d].Directory? && At(m, Loc(d, i)).pr && !At(m, Loc(d, i)).rw
    requires USER_DIR_START <= start
    ensures Count(m, At(m, Loc(d, i)).frame) == Count(m1, At(m, Loc(d, i)).frame) + |Earlier(m, d, i, start)|
  {
    hide Namers, Passed;
    var l := Loc(d, i);
    var t := At(m, l).frame;
    NamersLeft(m, m1, d, start, i);
    EarlierNamers(m, d, start, i);
    TableNotZero(m, l);
    SharedFrame(m, l, {}, {});
    InvMeans(m1, {}, {});
    assert IsSlot(m1, l) && At(m1, l) == At(m, l);
    SharedFrame(m1, l, {}, {});
    hide Inv, Earlier;
    Divided(Namers(m, t, {}), Passed(d, start, i));
  }

  lemma EarlierNamers(m: Mem, d: nat, start: nat, i: nat)
    requires Inv(m, {}, {}) && IsSlot(m, Loc(d, i)) && m.frames[d].Directory? && USER_DIR_START <= start
    ensures Namers(m, At(m, Loc(d, i)).frame, {}) * Passed(d, start, i) == Earlier(m, d, i, start)
  {
    hide Inv;
    forall x | x in Passed(d, start, i)
      ensures IsSlot(m, x)
    {
    }
  }

  lemma TableNotZero(m: Mem, l: Loc)
    requires Inv(m, {}, {}) && IsSlot(m, l) && m.frames[l.frame].Directory? && At(m, l).pr
    ensures At(m, l).frame != m.zero
  {
  }

  /** Right so far, the last table maps what it did before the call. */
  lemma MapsLeft(m: Mem, m1: Mem, d: nat, first: nat, last: nat, n: nat, lo: nat, hi: nat)
    requires Inv(m, {}, {}) && Inv(m1, {}, {}) && first / ENTRIES + n == last / ENTRIES && RangeUnmapped(m, m1, d, first, last, n)
    requires var l := Loc(d, last / ENTRIES);
             IsSlot(m, l) && IsSlot(m1, l) && m.frames[d].Directory? && m1.frames[d].Directory? && At(m, l).pr && At(m1, l) == At(m, l)
    ensures var t := At(m, Loc(d, last / ENTRIES)).frame;
            MapsOutside(m1, t, lo, hi) == MapsOutside(m, t, lo, hi) && MapsInside(m1, t, lo, hi) == MapsInside(m, t, lo, hi)
  {
    var i := last / ENTRIES;
    var t := At(m, Loc(d, i)).frame;
    InvMeans(m, {}, {});
    InvMeans(m1, {}, {});
    forall j: nat | j < ENTRIES
      ensures At(m1, Loc(t, j)).pr == At(m, Loc(t, j)).pr
    {
      hide Inv;
      PresentIff(m, d, i, j);
      PresentIff(m1, d, i, j);
      assert View(m1, d, i, j, {}) == View(m, d, i, j, {});
    }
    hide Inv, View;
  }

  lemma PresentIff(m: Mem, d: nat, i: nat, j: nat)
    requires WellFormed(m) && Typed(m, {}) && IsSlot(m, Loc(d, i)) && m.frames[d].Directory? && At(m, Loc(d, i)).pr && j < ENTRIES
    ensures View(m, d, i, j, {}).Some? <==> At(m, Loc(At(m, Loc(d, i)).frame, j)).pr
  {
    assert IsSlot(m, Loc(At(m, Loc(d, i)).frame, j));
  }

  /** After right rounds, the last table is harmless in its turn exactly when it looked so before the call. */
  lemma LastTurn(m: Mem, m1: Mem, d: nat, first: nat, last: nat, n: nat)
    requires Inv(m, {}, {}) && d < |m.frames| && m.frames[d].Directory? && UserIndex(first / ENTRIES) && UserIndex(last / ENTRIES)
    requires first <= last && first / ENTRIES + n == last / ENTRIES && RoundsDone(m, m1, d, first, last, n, true)
    ensures HarmlessRound(m1, d, last / ENTRIES, first, last) <==> HarmlessLast(m, d, first, last)
  {
    hide Inv, View, Outstanding, MapsOutside, MapsInside, LowEntry, HighEntry, RangeUnmapped;
    var i := last / ENTRIES;
    var l := Loc(d, i);
    InvMeans(m, {}, {});
    InvMeans(m1, {}, {});
    DirectorySlot(m, d, i);
    DirectorySlot(m1, d, i);
    assert At(m1, l) == At(m, l);
    if At(m, l).pr && !At(m, l).rw {
      hide EntriesDone;
      CountLeft(m, m1, d, first / ENTRIES, i);
      MapsLeft(m, m1, d, first, last, n, LowEntry(i, first), HighEntry(i, last));
    }
  }

  /** Before the last round only the first one matters. */
  lemma {:induction false} FirstDecides(m: Mem, d: nat, first: nat, last: nat, n: nat)
    requires first <= last && 0 < n <= Tables(first, last) && (n < Tables(first, last) || n == 1)
    ensures HarmlessRounds(m, d, first, last, n) <==> HarmlessRound(m, d, first / ENTRIES, first, last)
  {
    hide UnmapRound, Harmless;
    if n == 1 {
      assert HarmlessRounds(m, d, first, last, 0) && UnmapRounds(m, d, first, last, 0) == Some(m);
    } else {
      FirstDecides(m, d, first, last, n - 1);
    }
  }

  lemma RangeDecides(m: Mem, d: nat, first: nat, last: nat)
    requires Inv(m, {}, {}) && d < |m.frames| && m.frames[d].Directory? && UserIndex(first / ENTRIES) && UserIndex(last / ENTRIES)
    requires first <= last && UnmapPages(m, d, first, last).Some?
    ensures HarmlessRounds(m, d, first, last, Tables(first, last)) <==> HarmlessRange(m, d, first, last)
  {
    hide Inv, UnmapRound, HarmlessLast, HarmlessRound, RoundsDone;
    var n := Tables(first, last) - 1;
    if n == 0 {
      FirstDecides(m, d, first, last, 1);
      RoundsStart(m, d, first, last);
      LastTurn(m, m, d, first, last, 0);
    } else {
      FirstDecides(m, d, first, last, n);
      if HarmlessRounds(m, d, first, last, n) {
        RoundsIff(m, d, first, last, n);
        LastTurn(m, UnmapRounds(m, d, first, last, n).value, d, first, last, n);
      }
    }
  }

  // ---------------------------------------------------------------------------------------
  // Entries outside the user part
  // ---------------------------------------------------------------------------------------

  lemma CountedUserEntry(m: Mem, d: nat, i: nat)
    requires Typed(m, {}) && WellFormed(m) && IsDirectory(m, d) && UserIndex(i)
    ensures UserEntry(m, Loc(d, i))
  {
    assert IsSlot(m, Loc(d, i));
  }

  lemma PartEntries(m: Mem, l: Loc, lo: nat, n: nat)
    requires Flagged(m) && UserEntry(m, l) && At(m, l).pr && CopyTable(m, l).Some?
    ensures Kept(m, UnrefRange(CopyTable(m, l).value, At(m, l).frame, lo, n))
  {
    hide Flagged, CopyTable, UnrefRange;
    CopyTableKept(m, l);
    var m1 := CopyTable(m, l).value;
    UnrefRangeKept(m1, At(m, l).frame, lo, n);
    KeptTrans(m, m1, UnrefRange(m1, At(m, l).frame, lo, n));
  }

  lemma RoundEntries(m: Mem, d: nat, i: nat, first: nat, last: nat)
    requires Inv(m, {}, {}) && Flagged(m) && IsDirectory(m, d) && UserIndex(i)
    requires first / ENTRIES <= i <= last / ENTRIES && first <= last && UnmapRound(m, d, i, first, last).Some?
    ensures Kept(m, UnmapRound(m, d, i, first, last).value)
  {
    hide CountOk, WellFormed, FreeListOk, Typed, UnrefTable, CopyTable, UnrefRange, Flagged, Kept, UserEntry, At, MapsOutside;
    var l := Loc(d, i);
    CountedUserEntry(m, d, i);
    UnrefTableKept(m, l);
    if At(m, l).pr && CopyTable(m, l).Some? {
      var lo, hi := LowEntry(i, first), HighEntry(i, last);
      if lo <= hi {
        PartEntries(m, l, lo, hi + 1 - lo);
      }
    }
  }

  lemma {:induction false} RoundsEntries(m: Mem, d: nat, first: nat, last: nat, n: nat)
    requires Inv(m, {}, {}) && Flagged(m) && IsDirectory(m, d) && UserIndex(first / ENTRIES) && UserIndex(last / ENTRIES)
    requires first <= last && n <= Tables(first, last) && UnmapRounds(m, d, first, last, n).Some?
    ensures Kept(m, UnmapRounds(m, d, first, last, n).value)
  {
    hide Inv, UnmapRound, Flagged;
    if n == 0 {
      SameFramesKept(m, m);
    } else {
      hide KernelKept, HarmlessRounds, View;
      RoundsEntries(m, d, first, last, n - 1);
      RoundsIff(m, d, first, last, n - 1);
      var m1 := UnmapRounds(m, d, first, last, n - 1).value;
      RoundEntries(m1, d, first / ENTRIES + n - 1, first, last);
      KeptTrans(m, m1, UnmapRound(m1, d, first / ENTRIES + n - 1, first, last).value);
    }
  }

  /**
   unmap_pages keeps the counts, and takes away exactly the pages asked for exactly when both ends
   of the range are harmless in the state it is called in.
   */
  lemma UnmapPagesIff(m: Mem, d: nat, first: nat, last: nat)
    requires Inv(m, {}, {}) && d < |m.frames| && m.frames[d].Directory? && UserIndex(first / ENTRIES) && UserIndex(last / ENTRIES)
    requires first <= last && UnmapPages(m, d, first, last).Some?
    ensures var m' := UnmapPages(m, d, first, last).value;
            && Inv(m', {}, {}) && Outstanding(m') == Outstanding(m) && (Flagged(m) ==> Kept(m, m'))
            && (RangeUnmapped(m, m', d, first, last, Tables(first, last)) <==> HarmlessRange(m, d, first, last))
  {
    hide Flagged, Kept;
    if Flagged(m) {
      RoundsEntries(m, d, first, last, Tables(first, last));
    }
    hide Inv, UnmapRounds, HarmlessRounds, HarmlessRange, View, Outstanding;
    RoundsIff(m, d, first, last, Tables(first, last));
    RangeDecides(m, d, first, last);
  }
}
