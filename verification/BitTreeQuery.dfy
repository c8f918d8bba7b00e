/** lookup_floor and lookup_ceil find the nearest entry. */
module BitTreeQuery {
  import opened BitTree
  import opened BitTreeEdit
  import opened BitTreeInvariant
  import opened BitTreeKeys
  import opened BitWords
  import opened Wrappers

  ghost predicate Sound<T>(st: Store<T>) {
    NodesOk(st) && SlotsOk(st, {})
  }

  lemma {:induction false} SameKeyFind<T>(st: Store<T>, n: nat, level: nat, a: nat, b: nat)
    requires SameKey(a, b, level)
    ensures Find(st, n, level, a) == Find(st, n, level, b)
    decreases level
  {
    if level > 1 && n in st.nodes {
      SameKeyFind(st, st.nodes[n].ptrs[LevelIndex(a, level)], level - 1, a, b);
    }
  }

  /** A node with a present bit has an entry below it. */
  lemma {:induction false} PresentHasEntry<T>(st: Store<T>, n: nat) returns (k: nat)
    requires Sound(st) && n in st.nodes && !IsZero(st.nodes[n].bits)
    ensures Find(st, n, st.nodes[n].level, k).Some?
    decreases st.nodes[n].level
  {
    var level := st.nodes[n].level;
    var i :| 0 <= i < BITS && st.nodes[n].bits[i];
    assert NodeOk(st, n) && SlotOk(st, Slot(n, i));
    var c := st.nodes[n].ptrs[i];
    if level == 1 {
      k := Compose(i, 0, 1);
      ComposeOk(i, 0, 1);
    } else {
      var k1 := PresentHasEntry(st, c);
      k := Compose(i, k1, level);
      ComposeOk(i, k1, level);
      SameKeyFind(st, c, level - 1, k, k1);
    }
  }

  /** `r` is the entry nearest to `index` on the asked side, at `k`; None if there is none. */
  ghost predicate Nearest<T>(st: Store<T>, n: nat, level: nat, index: nat, floor: bool, r: Option<T>, k: nat) {
    && (r.None? ==> forall x: nat :: Leq(floor, x, index, level) ==> Find(st, n, level, x) == None)
    && (r.Some? ==>
          && Find(st, n, level, k) == r && Leq(floor, k, index, level)
          && forall x: nat :: Find(st, n, level, x).Some? && Leq(floor, x, index, level) ==> Leq(floor, x, k, level))
  }

  /** The entries on the asked side of `index` lie in slots up to `q`, and in slot `q` up to `sub`. */
  ghost predicate Confined<T>(st: Store<T>, n: nat, level: nat, index: nat, floor: bool, q: nat, sub: nat)
    requires level > 0
  {
    forall x: nat :: Find(st, n, level, x).Some? && Leq(floor, x, index, level) ==>
      && Side(floor, LevelIndex(x, level), q)
      && (LevelIndex(x, level) == q ==> Leq(floor, x, sub, level - 1))
  }

  /** The answer below slot `q` is the answer for the node. */
  lemma NearestBelow<T>(st: Store<T>, n: nat, level: nat, index: nat, floor: bool, q: nat, sub: nat, r: Option<T>, k1: nat)
    requires n in st.nodes && level > 1 && q < BITS && st.nodes[n].ptrs[q] != 0 && r.Some?
    requires Side(floor, q, LevelIndex(index, level))
    requires q == LevelIndex(index, level) ==> sub == index
    requires Confined(st, n, level, index, floor, q, sub)
    requires Nearest(st, st.nodes[n].ptrs[q], level - 1, sub, floor, r, k1)
    ensures Nearest(st, n, level, index, floor, r, Compose(q, k1, level))
  {
    var c := st.nodes[n].ptrs[q];
    var k := Compose(q, k1, level);
    ComposeOk(q, k1, level);
    hide LevelIndex, Compose;
    SameKeyFind(st, c, level - 1, k, k1);
    SameKeyLeq(floor, k, k1, index, level - 1);
    assert Find(st, n, level, k) == Find(st, c, level - 1, k);
    forall x: nat | Find(st, n, level, x).Some? && Leq(floor, x, index, level)
      ensures Leq(floor, x, k, level)
    {
      if LevelIndex(x, level) == q {
        assert Find(st, n, level, x) == Find(st, c, level - 1, x);
        SameKeyLeq(floor, k, k1, x, level - 1);
      }
    }
  }

  /** Entries sit in slots whose bit is present. */
  lemma EntryHasBit<T>(st: Store<T>, n: nat, level: nat, x: nat)
    requires Sound(st) && n in st.nodes && level > 0 && Find(st, n, level, x).Some?
    ensures st.nodes[n].bits[LevelIndex(x, level)]
  {
    assert SlotOk(st, Slot(n, LevelIndex(x, level)));
  }

  lemma LeqSide(floor: bool, a: nat, b: nat, level: nat)
    requires level > 0 && Leq(floor, a, b, level)
    ensures Side(floor, LevelIndex(a, level), LevelIndex(b, level))
  {
  }

  lemma LeafUnfold<T>(st: Store<T>, n: nat, index: nat, floor: bool)
    requires Sound(st) && n in st.nodes && st.nodes[n].level == 1
    ensures var q := ComputeIndex(st.nodes[n].bits, LevelIndex(index, 1), floor); var r := RunQuery(st, n, 1, index, floor);
            && 0 <= q <= BITS && (q == BITS ==> r == None)
            && (q < BITS ==> r.Some? && r == Find(st, n, 1, Compose(q, 0, 1)) && LevelIndex(Compose(q, 0, 1), 1) == q)
  {
    hide ComputeIndex, LevelIndex, Compose, SameKey;
    var q := ComputeIndex(st.nodes[n].bits, LevelIndex(index, 1), floor);
    ComputeIndexOk(st.nodes[n].bits, LevelIndex(index, 1), floor);
    if q < BITS {
      ComposeOk(q, 0, 1);
      assert SlotOk(st, Slot(n, q));
    }
  }

  lemma LeafLeq(floor: bool, a: nat, b: nat)
    ensures Leq(floor, a, b, 1) <==> Side(floor, LevelIndex(a, 1), LevelIndex(b, 1))
  {
    assert Leq(floor, a, b, 0);
  }

  /** The last level. */
  lemma NearestLeaf<T>(st: Store<T>, n: nat, index: nat, floor: bool)
    requires Sound(st) && n in st.nodes && st.nodes[n].level == 1
    ensures var q := ComputeIndex(st.nodes[n].bits, LevelIndex(index, 1), floor);
            0 <= q <= BITS && Nearest(st, n, 1, index, floor, RunQuery(st, n, 1, index, floor), Compose(q, 0, 1))
  {
    hide ComputeIndex, LevelIndex, RunQuery, Sound, Compose, Find, Leq;
    var li := LevelIndex(index, 1);
    var q := ComputeIndex(st.nodes[n].bits, li, floor);
    ComputeIndexOk(st.nodes[n].bits, li, floor);
    LeafUnfold(st, n, index, floor);
    var k := Compose(q, 0, 1);
    LeafLeq(floor, k, index);
    forall x: nat | Find(st, n, 1, x).Some? && Leq(floor, x, index, 1)
      ensures q < BITS && Leq(floor, x, k, 1)
    {
      EntryHasBit(st, n, 1, x);
      LeafLeq(floor, x, index);
      LeafLeq(floor, x, k);
    }
  }

  /** What run_query computes at an inner node from the answer `r` below slot `q`. */
  lemma QueryUnfold<T>(st: Store<T>, n: nat, level: nat, index: nat, floor: bool)
    requires n in st.nodes && level > 1
    ensures var li := LevelIndex(index, level); var q := ComputeIndex(st.nodes[n].bits, li, floor);
            && (q == BITS ==> RunQuery(st, n, level, index, floor) == None)
            && (0 <= q < BITS ==>
                  var r := RunQuery(st, st.nodes[n].ptrs[q], level - 1, if li == q then index else Extreme(floor), floor);
                  RunQuery(st, n, level, index, floor) == if r.Some? then r else Retry(st, n, level, floor, q))
  {
    hide ComputeIndex, LevelIndex, Extreme;
  }

  /** The second attempt of run_query. */
  ghost function Retry<T>(st: Store<T>, n: nat, level: nat, floor: bool, q: nat): Option<T>
    requires n in st.nodes && level > 1
  {
    var q2 := ComputeIndex(st.nodes[n].bits, if floor then q - 1 else q + 1, floor);
    if q2 < 0 || q2 >= BITS then None else RunQuery(st, st.nodes[n].ptrs[q2], level - 1, Extreme(floor), floor)
  }

  /** run_query returns the nearest entry on the asked side. */
  lemma {:induction false} QueryOk<T>(st: Store<T>, n: nat, level: nat, index: nat, floor: bool) returns (k: nat)
    requires Sound(st) && n in st.nodes && st.nodes[n].level == level <= 6
    ensures Nearest(st, n, level, index, floor, RunQuery(st, n, level, index, floor), k)
    decreases level, 2
  {
    assert NodeOk(st, n);
    if level == 1 {
      NearestLeaf(st, n, index, floor);
      k := Compose(ComputeIndex(st.nodes[n].bits, LevelIndex(index, 1), floor), 0, 1);
    } else {
      k := QueryInner(st, n, level, index, floor);
    }
  }

  lemma {:induction false} QueryInner<T>(st: Store<T>, n: nat, level: nat, index: nat, floor: bool) returns (k: nat)
    requires Sound(st) && n in st.nodes && st.nodes[n].level == level && 1 < level <= 6
    ensures Nearest(st, n, level, index, floor, RunQuery(st, n, level, index, floor), k)
    decreases level, 1
  {
    hide ComputeIndex, LevelIndex, RunQuery, Nearest, Retry, Sound, IsZero;
    var li := LevelIndex(index, level);
    var q := ComputeIndex(st.nodes[n].bits, li, floor);
    ComputeIndexOk(st.nodes[n].bits, li, floor);
    QueryUnfold(st, n, level, index, floor);
    if q == BITS {
      k := 0;
      NoneOnSide(st, n, level, index, floor);
    } else {
      ChildOf(st, n, q);
      var c := st.nodes[n].ptrs[q];
      var sub := if li == q then index else Extreme(floor);
      var k1 := QueryOk(st, c, level - 1, sub, floor);
      var r := RunQuery(st, c, level - 1, sub, floor);
      if r.Some? {
        k := Compose(q, k1, level);
        ConfinedFirst(st, n, level, index, floor, q, sub);
        NearestBelow(st, n, level, index, floor, q, sub, r, k1);
      } else {
        FullSlotAnswers(st, c, level - 1, index, floor, q, li, k1);
        k := RetryOk(st, n, level, index, floor, q, k1);
      }
    }
  }

  lemma NoneOnSide<T>(st: Store<T>, n: nat, level: nat, index: nat, floor: bool)
    requires Sound(st) && n in st.nodes && st.nodes[n].level == level > 1
    requires forall j :: 0 <= j < BITS && Side(floor, j, LevelIndex(index, level)) ==> !st.nodes[n].bits[j]
    ensures Nearest(st, n, level, index, floor, None, 0)
  {
    forall x: nat | Leq(floor, x, index, level)
      ensures Find(st, n, level, x) == None
    {
      LeqSide(floor, x, index, level);
      assert SlotOk(st, Slot(n, LevelIndex(x, level)));
    }
  }

  lemma ConfinedFirst<T>(st: Store<T>, n: nat, level: nat, index: nat, floor: bool, q: nat, sub: nat)
    requires Sound(st) && n in st.nodes && st.nodes[n].level == level && 1 < level <= 6 && q < BITS
    requires sub == if LevelIndex(index, level) == q then index else Extreme(floor)
    requires forall j :: 0 <= j < BITS && st.nodes[n].bits[j] && Side(floor, j, LevelIndex(index, level)) ==> Side(floor, j, q)
    ensures Confined(st, n, level, index, floor, q, sub)
  {
    forall x: nat | Find(st, n, level, x).Some? && Leq(floor, x, index, level)
      ensures Side(floor, LevelIndex(x, level), q)
      ensures LevelIndex(x, level) == q ==> Leq(floor, x, sub, level - 1)
    {
      EntryHasBit(st, n, level, x);
      LeqSide(floor, x, index, level);
      ExtremeLeq(floor, x, level - 1);
    }
  }

  /** When slot `q` of the index holds nothing on the asked side, the second attempt finds the answer. */
  lemma {:induction false} RetryOk<T>(st: Store<T>, n: nat, level: nat, index: nat, floor: bool, q: nat, k1: nat) returns (k: nat)
    requires Sound(st) && n in st.nodes && st.nodes[n].level == level && 1 < level <= 6 && q < BITS
    requires q == LevelIndex(index, level) && st.nodes[n].ptrs[q] != 0
    requires Nearest(st, st.nodes[n].ptrs[q], level - 1, index, floor, None, k1)
    ensures Nearest(st, n, level, index, floor, Retry(st, n, level, floor, q), k)
    decreases level, 0, 1
  {
    hide ComputeIndex, LevelIndex, RunQuery, Nearest, Beyond, Sound, Retry, NearestBit;
    var e := if floor then q - 1 else q + 1;
    var q2 := ComputeIndex(st.nodes[n].bits, e, floor);
    RetryUnfold(st, n, level, floor, q);
    ComputeNearest(st.nodes[n].bits, e, floor);
    BeyondSlot(st, n, level, index, floor, q, k1);
    if q2 == BITS {
      k := 0;
      NoneBeyond(st, n, level, index, floor, q, k);
    } else {
      k := RetrySome(st, n, level, index, floor, q, q2);
    }
  }

  /** `q` is the set bit nearest to `e` on the asked side, 32 if there is none. */
  ghost predicate NearestBit(bits: Word, e: int, floor: bool, q: int) {
    && 0 <= q <= BITS
    && (q < BITS ==> bits[q] && Side(floor, q, e))
    && (q == BITS && 0 <= e < BITS ==> forall j :: 0 <= j < BITS && Side(floor, j, e) ==> !bits[j])
    && (q < BITS ==> forall j :: 0 <= j < BITS && bits[j] && Side(floor, j, e) ==> Side(floor, j, q))
  }

  lemma ComputeNearest(bits: Word, e: int, floor: bool)
    requires -1 <= e <= BITS
    ensures NearestBit(bits, e, floor, ComputeIndex(bits, e, floor)) && 0 <= ComputeIndex(bits, e, floor) <= BITS
  {
    ComputeIndexOk(bits, e, floor);
  }

  /** The second attempt finds the extreme entry of the next full slot. */
  lemma {:induction false} RetrySome<T>(st: Store<T>, n: nat, level: nat, index: nat, floor: bool, q: nat, q2: nat) returns (k: nat)
    requires Sound(st) && n in st.nodes && st.nodes[n].level == level && 1 < level <= 6 && q < BITS && q2 < BITS
    requires q == LevelIndex(index, level) && Beyond(st, n, level, index, floor, q)
    requires NearestBit(st.nodes[n].bits, if floor then q - 1 else q + 1, floor, q2)
    ensures Nearest(st, n, level, index, floor, RunQuery(st, st.nodes[n].ptrs[q2], level - 1, Extreme(floor), floor), k)
    decreases level, 0, 0
  {
    hide LevelIndex, RunQuery, Nearest, Beyond, Confined, Sound, IsZero, Compose, Extreme, Find, Leq;
    ChildOf(st, n, q2);
    var c2 := st.nodes[n].ptrs[q2];
    var k2 := QueryOk(st, c2, level - 1, Extreme(floor), floor);
    var r := RunQuery(st, c2, level - 1, Extreme(floor), floor);
    SomeAnswer(st, c2, level - 1, floor, r, k2);
    k := Compose(q2, k2, level);
    ConfinedBeyond(st, n, level, index, floor, q, q2);
    NearestBelow(st, n, level, index, floor, q2, Extreme(floor), r, k2);
  }

  lemma RetryUnfold<T>(st: Store<T>, n: nat, level: nat, floor: bool, q: nat)
    requires n in st.nodes && level > 1
    ensures var q2 := ComputeIndex(st.nodes[n].bits, if floor then q - 1 else q + 1, floor);
            Retry(st, n, level, floor, q) ==
            if 0 <= q2 < BITS then RunQuery(st, st.nodes[n].ptrs[q2], level - 1, Extreme(floor), floor) else None
  {
  }

  lemma ChildOf<T>(st: Store<T>, n: nat, q: nat)
    requires Sound(st) && n in st.nodes && st.nodes[n].level > 1 && q < BITS && st.nodes[n].bits[q]
    ensures var c := st.nodes[n].ptrs[q];
            c != 0 && c in st.nodes && st.nodes[c].level == st.nodes[n].level - 1 && !IsZero(st.nodes[c].bits)
  {
    assert SlotOk(st, Slot(n, q));
  }

  lemma SomeAnswer<T>(st: Store<T>, c: nat, level: nat, floor: bool, r: Option<T>, k: nat)
    requires Sound(st) && c in st.nodes && st.nodes[c].level == level <= 6 && !IsZero(st.nodes[c].bits)
    requires Nearest(st, c, level, Extreme(floor), floor, r, k)
    ensures r.Some?
  {
    var k0 := PresentHasEntry(st, c);
    ExtremeLeq(floor, k0, level);
  }

  /** A full slot other than the one of the index always answers. */
  lemma FullSlotAnswers<T>(st: Store<T>, c: nat, level: nat, index: nat, floor: bool, q: nat, li: nat, k1: nat)
    requires Sound(st) && c in st.nodes && st.nodes[c].level == level <= 6 && !IsZero(st.nodes[c].bits)
    requires Nearest(st, c, level, if li == q then index else Extreme(floor), floor, None, k1)
    ensures li == q
  {
    var k0 := PresentHasEntry(st, c);
    ExtremeLeq(floor, k0, level);
  }

  /** When slot `q` of the index holds nothing on the asked side, entries there lie in slots beyond. */
  ghost predicate Beyond<T>(st: Store<T>, n: nat, level: nat, index: nat, floor: bool, q: nat)
    requires level > 0 && n in st.nodes
  {
    forall x: nat :: Find(st, n, level, x).Some? && Leq(floor, x, index, level) ==>
      && LevelIndex(x, level) != q && Side(floor, LevelIndex(x, level), q) && st.nodes[n].bits[LevelIndex(x, level)]
  }

  lemma BeyondSlot<T>(st: Store<T>, n: nat, level: nat, index: nat, floor: bool, q: nat, k1: nat)
    requires Sound(st) && n in st.nodes && st.nodes[n].level == level > 1 && q < BITS
    requires q == LevelIndex(index, level) && st.nodes[n].ptrs[q] != 0
    requires Nearest(st, st.nodes[n].ptrs[q], level - 1, index, floor, None, k1)
    ensures Beyond(st, n, level, index, floor, q)
  {
    forall x: nat | Find(st, n, level, x).Some? && Leq(floor, x, index, level)
      ensures LevelIndex(x, level) != q && Side(floor, LevelIndex(x, level), q) && st.nodes[n].bits[LevelIndex(x, level)]
    {
      EntryHasBit(st, n, level, x);
      LeqSide(floor, x, index, level);
    }
  }

  lemma NoneBeyond<T>(st: Store<T>, n: nat, level: nat, index: nat, floor: bool, q: nat, k: nat)
    requires n in st.nodes && level > 0 && Beyond(st, n, level, index, floor, q) && q < BITS
    requires NearestBit(st.nodes[n].bits, if floor then q - 1 else q + 1, floor, BITS)
    ensures Nearest(st, n, level, index, floor, None, k)
  {
    forall x: nat | Leq(floor, x, index, level)
      ensures Find(st, n, level, x) == None
    {
      if Find(st, n, level, x).Some? {
        var e := if floor then q - 1 else q + 1;
        var d := LevelIndex(x, level);
        assert Side(floor, d, e) && 0 <= e < BITS;
        assert false;
      }
    }
  }

  lemma ConfinedBeyond<T>(st: Store<T>, n: nat, level: nat, index: nat, floor: bool, q: nat, q2: nat)
    requires n in st.nodes && 1 < level <= 6 && Beyond(st, n, level, index, floor, q) && q < BITS && q2 < BITS
    requires NearestBit(st.nodes[n].bits, if floor then q - 1 else q + 1, floor, q2)
    ensures Confined(st, n, level, index, floor, q2, Extreme(floor))
  {
    forall x: nat | Find(st, n, level, x).Some? && Leq(floor, x, index, level)
      ensures Side(floor, LevelIndex(x, level), q2) && (LevelIndex(x, level) == q2 ==> Leq(floor, x, Extreme(floor), level - 1))
    {
      ExtremeLeq(floor, x, level - 1);
    }
  }
}
