/**
 The heap of kernel/heap.cc: one int array, the index of the first available block and a count,
 all changed in place.
 */
module KernelHeap {
  import opened Wrappers
  import opened HeapModel
  import opened Sets
  import opened HeapArray

  /** What the scan of malloc settles on. */
  lemma ScanPicks(h: Heap, ints: nat)
    requires WellFormed(h)
    ensures var (it, mx) := Scan(h.blocks, h.list, ints, TRIES, NO_FIT, 0);
            it != 0 ==> IsAvail(h.blocks, it) && it in h.list && mx == Size(h.blocks[it]) && ints <= mx
  {
    ScanOk(h.blocks, h.list, ints, TRIES, NO_FIT, 0);
    CandidatesAre(h, ints);
  }

  /** The listed block `k`, as the array shows it. */
  lemma ListedWords(a: seq<int>, h: Heap, k: nat)
    requires WellFormed(h) && Holds(a, h) && k < |h.list|
    ensures 0 < h.list[k] && h.list[k] + 2 < |a| && IsAvail(h.blocks, h.list[k])
    ensures a[h.list[k]] == h.blocks[h.list[k]] && a[h.list[k] + 1] == NextIn(h.list, k)
  {
    assert h.list[k] in h.list;
    AvailIsInner(h, h.list[k]);
    assert TagOk(a, h.blocks, h.list[k]) && LinkOk(a, h.list, k);
  }

  /** One turn of the scan loop. */
  lemma ScanTurn(blocks: Blocks, list: seq<nat>, k: nat, ints: nat, tries: nat, mx: int, it: nat)
    requires k < |list| && tries > 0 && list[k] in blocks
    ensures var sz := Size(blocks[list[k]]); var rest := list[k + 1..];
            Scan(blocks, list[k..], ints, tries, mx, it) ==
            if sz < ints then Scan(blocks, rest, ints, tries, mx, it)
            else if sz < mx then Scan(blocks, rest, ints, tries - 1, sz, list[k])
            else Scan(blocks, rest, ints, tries - 1, mx, it)
  {
    assert list[k..][0] == list[k] && list[k..][1..] == list[k + 1..];
  }

  lemma IndexOf(list: seq<nat>, x: nat) returns (k: nat)
    requires x in list
    ensures k < |list| && list[k] == x
  {
    k :| 0 <= k < |list| && list[k] == x;
  }

  /** The free list free ends with, without the neighbours it swallows. */
  lemma FreeRest(h: Heap, i: nat)
    requires Freeable(h, i)
    ensures var l := LeftOf(h.len, h.blocks, i); var r := End(h.blocks, i);
            var l1 := if IsAvail(h.blocks, l) then Without(h.list, l) else h.list;
            var l2 := if IsAvail(h.blocks, r) then Without(l1, r) else l1;
            && Free(h, i).list == [StartOf(h, i)] + l2
            && (IsAvail(h.blocks, l) ==> l in h.list) && (IsAvail(h.blocks, r) ==> r in l1)
            && Distinct(h.list) && Distinct(l1)
  {
    var l := LeftOf(h.len, h.blocks, i);
    var r := End(h.blocks, i);
    Neighbours(h, i);
    WithoutOk(h.list, l);
    WithoutOk(h.list, r);
    WithoutOk(Without(h.list, l), r);
  }

  lemma FreeSize(h: Heap, i: nat)
    requires Freeable(h, i)
    ensures var l := LeftOf(h.len, h.blocks, i); var r := End(h.blocks, i); var start := StartOf(h, i);
            && start in Free(h, i).blocks && r in h.blocks && Size(Free(h, i).blocks[start]) >= MIN_BLOCK
            && Size(Free(h, i).blocks[start]) == Size(h.blocks[i]) + (if IsAvail(h.blocks, l) then Size(h.blocks[l]) else 0)
                                                 + (if IsAvail(h.blocks, r) then Size(h.blocks[r]) else 0)
  {
    Neighbours(h, i);
    FreeTiles(h, i);
    hide Free, Tiles;
  }

  class KernelHeap {
    var words: array<int>
    var avail: int
    var heapCount: int
    /** The blocks and the free list the array holds. */
    ghost var model: Heap

    ghost predicate Valid()
      reads this, words
    {
      WellFormed(model) && Holds(words[..], model) && avail == HeadOf(model.list) && heapCount == model.count
    }

    method MakeTaken(i: nat, ints: nat)
      requires 0 < ints && i + ints <= words.Length
      modifies words
      ensures words[..] == TagWords(old(words[..]), i, ints, Neg(ints))
    {
      words[i] := Neg(ints);
      words[i + Size(words[i]) - 1] := Neg(ints);
    }

    method MakeAvail(i: nat, ints: nat, ghost list: seq<nat>)
      requires 2 < ints && i + ints <= words.Length && avail == HeadOf(list)
      requires forall k :: 0 <= k < |list| ==> 0 < list[k] && list[k] + 2 < words.Length
      modifies words, `avail
      ensures words[..] == PushWords(TagWords(old(words[..]), i, ints, ints), list, i)
      ensures avail == i
    {
      words[i] := ints;
      words[i + Size(words[i]) - 1] := ints;
      words[i + 1] := avail;
      words[i + 2] := 0;
      if avail != 0 {
        words[avail + 2] := i;
      }
      avail := i;
    }

    /** Takes block `i`, the k-th of the list, off the list. */
    method Remove(i: nat, ghost list: seq<nat>, ghost k: nat)
      requires Links(words[..], list) && k < |list| && list[k] == i && avail == HeadOf(list)
      requires forall j :: 0 <= j < |list| ==> 0 < list[j] && list[j] + 2 < words.Length
      modifies words, `avail
      ensures words[..] == UnlinkWords(old(words[..]), list, k)
      ensures avail == HeadOf(Removed(list, k))
    {
      assert LinkOk(words[..], list, k);
      var prevIndex := words[i + 2];
      var nextIndex := words[i + 1];
      if prevIndex == 0 {
        avail := nextIndex;
      } else {
        words[prevIndex + 1] := nextIndex;
      }
      if nextIndex != 0 {
        words[nextIndex + 2] := prevIndex;
      }
    }

    /** heapInit on `base`, up to the allocation of the heap's own lock. */
    constructor (base: array<int>)
      requires 8 <= base.Length < NO_FIT
      modifies base
      ensures Valid() && words == base && model == InitHeap(base.Length)
    {
      words := base;
      avail := 0;
      heapCount := 0;
      model := InitHeap(base.Length);
      new;
      var n := words.Length;
      MakeTaken(0, 2);
      MakeAvail(2, n - 4, []);
      MakeTaken(n - 2, 2);
      InitOk(n);
      InitHolds(words[..]);
    }

    /** The scan of malloc: the block to take, 0 if none fits, and its size. */
    method FindFit(ints: nat) returns (it: nat, mx: int)
      requires Valid() && 0 < ints
      ensures (it, mx) == Scan(model.blocks, model.list, ints, TRIES, NO_FIT, 0)
    {
      it, mx := 0, NO_FIT;
      var countDown := TRIES;
      var p := avail;
      ghost var k := 0;
      assert model.list[0..] == model.list;
      if model.list != [] {
        ListedWords(words[..], model, 0);
      }
      while p != 0
        invariant k <= |model.list| && p == (if k < |model.list| then model.list[k] else 0)
        invariant 0 < countDown && (p == 0 ==> k == |model.list|)
        invariant Scan(model.blocks, model.list[k..], ints, countDown, mx, it)
               == Scan(model.blocks, model.list, ints, TRIES, NO_FIT, 0)
        decreases |model.list| - k
      {
        ListedWords(words[..], model, k);
        ScanTurn(model.blocks, model.list, k, ints, countDown, mx, it);
        assert words[p] > 0;  // the panic of the source is never reached
        var sz := Size(words[p]);
        if sz >= ints {
          if sz < mx {
            mx, it := sz, p;
          }
          countDown := countDown - 1;
          if countDown == 0 {
            assert Scan(model.blocks, model.list[k + 1..], ints, 0, mx, it) == (it, mx);
            break;
          }
        }
        p := words[p + 1];
        k := k + 1;
        if k < |model.list| {
          ListedWords(words[..], model, k);
        }
      }
    }

    /**
     malloc: the index of the payload, None for the null pointer. No word of a block that was
     taken before the call changes.
     */
    method Malloc(bytes: nat) returns (res: Option<nat>)
      requires Valid() && bytes < 0x1_0000_0000
      modifies this, words
      ensures Valid() && words == old(words)
      ensures bytes == 0 ==> res == Some(0) && model == old(model) && words[..] == old(words[..])
      ensures bytes > 0 ==>
                var (h, r) := HeapModel.Malloc(old(model), bytes);
                && model == h && res == (if r.Some? then Some(r.value + 1) else None)
                && Served(old(model), Asked(bytes), model, r)
                && (r.None? ==> words[..] == old(words[..]))
                && (r.Some? ==> KeepsTaken(old(words[..]), words[..], old(model).blocks, r.value))
    {
      if bytes == 0 { return Some(0); }
      var ints := (bytes + 3) % 0x1_0000_0000 / 4 + 2;
      if ints < MIN_BLOCK { ints := MIN_BLOCK; }
      assert ints == Words(bytes);
      MallocServes(model, bytes);
      hide Served, Asked;
      res := None;
      var it, mx := FindFit(ints);
      ScanPicks(model, ints);
      if it != 0 {
        Take(it, mx, ints);
        res := Some(it + 1);
        heapCount := heapCount + 1;
        model := model.(count := model.count + 1);
      }
    }

    /** The block `it` of `mx` words is taken, the rest of it put back when there is enough. */
    method Take(it: nat, mx: nat, ints: nat)
      requires Valid() && IsAvail(model.blocks, it) && it in model.list && mx == Size(model.blocks[it])
      requires MIN_BLOCK <= ints <= mx
      modifies this, words
      ensures words == old(words) && heapCount == old(heapCount)
      ensures model == Carve(old(model), it, ints).(count := old(model).count)
      ensures WellFormed(Carve(old(model), it, ints)) && Holds(words[..], Carve(old(model), it, ints))
      ensures avail == HeadOf(model.list)
      ensures KeepsTaken(old(words[..]), words[..], old(model).blocks, it)
    {
      hide WellFormed, Tiles, Holds, TagsBut, Links, KeepsTaken, TagWords, UnlinkWords, PushWords, Carve;
      ghost var k := IndexOf(model.list, it);
      ghost var h := model;
      ghost var a := words[..];
      CarveOk(h, it, ints);
      CarvedList(h, it, ints, k);
      Removable(a, h, k);
      model := Carve(h, it, ints).(count := h.count);
      Remove(it, h.list, k);
      var extra := mx - ints;
      if extra >= 4 {
        CarveSplitHolds(a, h, k, ints);
        MakeTaken(it, ints);
        MakeAvail(it + ints, extra, Removed(h.list, k));
      } else {
        CarveWholeHolds(a, h, k, ints);
        MakeTaken(it, mx);
      }
    }

    /**
     free on the payload at index `p`: false is the panic on a block that is not taken. No word
     of another live block changes.
     */
    method Free(p: Option<nat>) returns (ok: bool)
      requires Valid()
      requires p.Some? && p.value != 0 ==> p.value - 1 in model.blocks && Inner(model.len, p.value - 1)
      modifies this, words
      ensures words == old(words)
      ensures p.None? || p.value == 0 ==> ok && Valid() && model == old(model) && words[..] == old(words[..])
      ensures p.Some? && p.value != 0 ==>
                var i: nat := p.value - 1;
                && ok == IsTaken(old(model).blocks, i)
                && (!ok ==> model == old(model) && words[..] == old(words[..]))
                && (ok ==> Valid() && Freeable(old(model), i) && model == HeapModel.Free(old(model), i)
                           && KeepsTaken(old(words[..]), words[..], old(model).blocks, i))
    {
      if p.None? || p.value == 0 { return true; }
      heapCount := heapCount - 1;
      var idx: nat := p.value - 1;
      assert TagOk(words[..], model.blocks, idx);
      if words[idx] >= 0 { return false; }
      Release(idx);
      return true;
    }

    method Release(i: nat)
      requires WellFormed(model) && Holds(words[..], model) && avail == HeadOf(model.list)
      requires heapCount == model.count - 1 && Freeable(model, i)
      modifies this, words
      ensures words == old(words) && Valid() && model == HeapModel.Free(old(model), i)
      ensures KeepsTaken(old(words[..]), words[..], old(model).blocks, i)
    {
      hide WellFormed, Tiles, Holds, TagsBut, Links, KeepsTaken, TagWords, PushWords, Mid, HeapModel.Free, StartOf;
      hide Distinct, Without, LeftOf, Inner;
      ghost var h := model;
      ghost var a := words[..];
      MidStart(a, h, i);
      MidTag(a, a, h.len, h.blocks, h.list, i, i);
      Neighbours(h, i);
      LeftByFooter(a, h, i);
      var sz := Size(words[i]);
      var leftIndex: nat := i - Size(words[i - 1]);
      var rightIndex: nat := i + sz;
      var idx: nat := i;
      FreeRest(h, i);
      FreeSize(h, i);
      ghost var list := h.list;
      MidTag(a, words[..], h.len, h.blocks, list, i, leftIndex);
      if words[leftIndex] > 0 {
        Detach(leftIndex, a, h.len, h.blocks, list, i);
        list := Without(list, leftIndex);
        MidTag(a, words[..], h.len, h.blocks, list, i, leftIndex);
        idx := leftIndex;
        sz := sz + Size(words[leftIndex]);
      }
      MidTag(a, words[..], h.len, h.blocks, list, i, rightIndex);
      if words[rightIndex] > 0 {
        Detach(rightIndex, a, h.len, h.blocks, list, i);
        list := Without(list, rightIndex);
        MidTag(a, words[..], h.len, h.blocks, list, i, rightIndex);
        sz := sz + Size(words[rightIndex]);
      }
      FreeHolds(a, words[..], h, i, list);
      FreeContract(h, i);
      FreeFields(h, i);
      MakeAvail(idx, sz, list);
      model := HeapModel.Free(h, i);
    }

    /** remove on a neighbour, in the middle of free. */
    method Detach(x: nat, ghost a: seq<int>, ghost len: nat, ghost blocks: Blocks, ghost list: seq<nat>, ghost but: nat)
      requires Mid(a, words[..], len, blocks, list, but) && Distinct(list) && x in list && avail == HeadOf(list)
      modifies words, `avail
      ensures Mid(a, words[..], len, blocks, Without(list, x), but)
      ensures avail == HeadOf(Without(list, x))
    {
      ghost var k := IndexOf(list, x);
      MidUnlink(a, words[..], len, blocks, list, but, k);
      WithoutRemoves(list, k);
      Remove(x, list, k);
    }
  }

  lemma MidTag(a0: seq<int>, a: seq<int>, len: nat, blocks: Blocks, list: seq<nat>, but: nat, x: nat)
    requires Mid(a0, a, len, blocks, list, but) && x in blocks
    ensures x < |a| && a[x] == blocks[x]
    ensures forall k :: 0 <= k < |list| ==> 0 < list[k] && list[k] + 2 < |a|
  {
    assert TagOk(a, blocks, x);
  }

  lemma FreeFields(h: Heap, i: nat)
    requires Freeable(h, i)
    ensures HeapModel.Free(h, i).count == h.count - 1
    ensures StartOf(h, i) == if IsAvail(h.blocks, LeftOf(h.len, h.blocks, i)) then LeftOf(h.len, h.blocks, i) else i
  {
  }

  lemma Removable(a: seq<int>, h: Heap, k: nat)
    requires WellFormed(h) && Holds(a, h) && k < |h.list|
    ensures Links(a, h.list) && |a| == h.len && Distinct(h.list)
    ensures forall j :: 0 <= j < |h.list| ==> 0 < h.list[j] && h.list[j] + 2 < |a|
    ensures forall j :: 0 <= j < |Removed(h.list, k)| ==> 0 < Removed(h.list, k)[j] && Removed(h.list, k)[j] + 2 < |a|
  {
    MidStart(a, h, h.list[k]);
  }

  lemma CarvedList(h: Heap, it: nat, ints: nat, k: nat)
    requires WellFormed(h) && IsAvail(h.blocks, it) && k < |h.list| && h.list[k] == it
    ensures Carve(h, it, ints).list ==
            if Size(h.blocks[it]) >= ints + MIN_BLOCK then [it + ints] + Removed(h.list, k) else Removed(h.list, k)
    ensures Carve(h, it, ints).len == h.len
  {
    WithoutRemoves(h.list, k);
  }

  lemma InitHolds(a: seq<int>)
    requires 8 <= |a| && a[0] == -2 && a[1] == -2 && a[|a| - 2] == -2 && a[|a| - 1] == -2
    requires a[2] == |a| - 4 && a[|a| - 3] == |a| - 4 && a[3] == 0 && a[4] == 0
    ensures Holds(a, InitHeap(|a|))
  {
    var h := InitHeap(|a|);
    forall i | i in h.blocks
      ensures TagOk(a, h.blocks, i)
    {
    }
    assert LinkOk(a, h.list, 0);
  }
}
