/**
 How the heap lives in one array of ints (kernel/heap.cc): a tag at either end of every block,
 and the free list threaded through the second and third word of the available blocks.
 */
module HeapArray {
  import opened HeapModel
  import opened Sets

  ghost predicate TagOk(a: seq<int>, blocks: Blocks, i: nat)
    requires i in blocks
  {
    0 < Size(blocks[i]) && End(blocks, i) <= |a| && a[i] == blocks[i] && a[End(blocks, i) - 1] == blocks[i]
  }

  /** Header and footer of every block but `skip` hold its tag. */
  ghost predicate TagsBut(a: seq<int>, blocks: Blocks, skip: set<nat>) {
    forall i {:trigger TagOk(a, blocks, i)} :: i in blocks && i !in skip ==> TagOk(a, blocks, i)
  }

  function NextIn(list: seq<nat>, k: nat): nat
    requires k < |list|
  {
    if k + 1 < |list| then list[k + 1] else 0
  }

  function PrevIn(list: seq<nat>, k: nat): nat
    requires k < |list|
  {
    if k > 0 then list[k - 1] else 0
  }

  function HeadOf(list: seq<nat>): nat {
    if list == [] then 0 else list[0]
  }

  ghost predicate LinkOk(a: seq<int>, list: seq<nat>, k: nat)
    requires k < |list|
  {
    list[k] + 2 < |a| && a[list[k] + 1] == NextIn(list, k) && a[list[k] + 2] == PrevIn(list, k)
  }

  /** The doubly linked list in the array is `list`. */
  ghost predicate Links(a: seq<int>, list: seq<nat>) {
    forall k: nat {:trigger LinkOk(a, list, k)} :: k < |list| ==> LinkOk(a, list, k)
  }

  /** The listed blocks are distinct, do not start at 0 and are at least four words apart. */
  ghost predicate Spaced(list: seq<nat>) {
    && (forall k :: 0 <= k < |list| ==> 0 < list[k])
    && (forall j, k :: 0 <= j < k < |list| ==> list[j] + MIN_BLOCK <= list[k] || list[k] + MIN_BLOCK <= list[j])
  }

  /** Words of taken blocks other than `but` are the same in `a` and `b`. */
  ghost predicate KeepsTaken(a: seq<int>, b: seq<int>, blocks: Blocks, but: nat) {
    && |b| == |a|
    && forall j: nat, p: nat {:trigger Word(blocks, j, p)} :: Word(blocks, j, p) && j != but && p < |a| ==> b[p] == a[p]
  }

  ghost predicate Word(blocks: Blocks, j: nat, p: nat) {
    IsTaken(blocks, j) && j <= p < End(blocks, j)
  }

  // ---------------------------------------------------------------------------------------
  // Single writes
  // ---------------------------------------------------------------------------------------

  lemma WriteKeepsTaken(a: seq<int>, b: seq<int>, blocks: Blocks, but: nat, len: nat, x: nat, p: nat, v: int)
    requires KeepsTaken(a, b, blocks, but) && Tiles(len, blocks) && p < |b|
    requires x in blocks && x <= p < End(blocks, x) && (x == but || IsAvail(blocks, x))
    ensures KeepsTaken(a, b[p := v], blocks, but)
  {
    forall j: nat, q: nat | Word(blocks, j, q) && j != but && q < |a|
      ensures b[p := v][q] == a[q]
    {
      assert Apart(blocks, j, x) && Apart(blocks, x, j);
    }
  }

  /** A write inside a block, away from its tags, keeps all tags. */
  lemma WriteKeepsTags(a: seq<int>, blocks: Blocks, skip: set<nat>, len: nat, x: nat, p: nat, v: int)
    requires TagsBut(a, blocks, skip) && Tiles(len, blocks) && p < |a|
    requires x in blocks && x < p < End(blocks, x) - 1
    ensures TagsBut(a[p := v], blocks, skip)
  {
    forall i | i in blocks && i !in skip
      ensures TagOk(a[p := v], blocks, i)
    {
      assert TagOk(a, blocks, i);
      assert Apart(blocks, i, x) && Apart(blocks, x, i);
    }
  }

  /** Header and footer of block `i` written. */
  function TagWords(a: seq<int>, i: nat, size: nat, tag: int): (r: seq<int>)
    requires 0 < size && i + size <= |a|
    ensures |r| == |a|
  {
    a[i := tag][i + size - 1 := tag]
  }

  lemma WriteTags(a: seq<int>, blocks: Blocks, skip: set<nat>, len: nat, i: nat)
    requires TagsBut(a, blocks, skip + {i}) && Tiles(len, blocks) && len == |a| && i in blocks && i !in skip
    ensures TagsBut(TagWords(a, i, Size(blocks[i]), blocks[i]), blocks, skip)
  {
    var b := TagWords(a, i, Size(blocks[i]), blocks[i]);
    forall j | j in blocks && j !in skip
      ensures TagOk(b, blocks, j)
    {
      if j != i {
        assert TagOk(a, blocks, j);
        assert Apart(blocks, i, j) && Apart(blocks, j, i);
      }
    }
  }

  /** A write away from the links keeps the list. */
  lemma WriteKeepsLinks(a: seq<int>, list: seq<nat>, p: nat, v: int)
    requires Links(a, list) && p < |a|
    requires forall k :: 0 <= k < |list| ==> p != list[k] + 1 && p != list[k] + 2
    ensures Links(a[p := v], list)
  {
    var b := a[p := v];
    forall k: nat | k < |list|
      ensures LinkOk(b, list, k)
    {
      assert LinkOk(a, list, k);
    }
  }

  // ---------------------------------------------------------------------------------------
  // remove
  // ---------------------------------------------------------------------------------------

  function Removed(list: seq<nat>, k: nat): seq<nat>
    requires k < |list|
  {
    list[..k] + list[k + 1..]
  }

  /** The writes of remove on the k-th listed block. */
  function UnlinkWords(a: seq<int>, list: seq<nat>, k: nat): (r: seq<int>)
    requires k < |list| && forall j :: 0 <= j < |list| ==> list[j] + 2 < |a|
    ensures |r| == |a|
  {
    var b := if k == 0 then a else a[list[k - 1] + 1 := NextIn(list, k)];
    if k + 1 == |list| then b else b[list[k + 1] + 2 := PrevIn(list, k)]
  }

  lemma UnlinkOk(a: seq<int>, list: seq<nat>, k: nat)
    requires Links(a, list) && Spaced(list) && k < |list|
    requires forall j :: 0 <= j < |list| ==> list[j] + 2 < |a|
    ensures Links(UnlinkWords(a, list, k), Removed(list, k))
    ensures Spaced(Removed(list, k))
  {
    var b := UnlinkWords(a, list, k);
    var rest := Removed(list, k);
    forall j: nat | j < |rest|
      ensures LinkOk(b, rest, j)
    {
      var o := if j < k then j else j + 1;
      assert rest[j] == list[o] && LinkOk(a, list, o);
    }
    RemovedSpaced(list, k);
  }

  lemma RemovedSpaced(list: seq<nat>, k: nat)
    requires Spaced(list) && k < |list|
    ensures Spaced(Removed(list, k))
  {
  }

  // ---------------------------------------------------------------------------------------
  // makeAvail
  // ---------------------------------------------------------------------------------------

  /** The link writes of makeAvail: block `i` becomes the head of the list. */
  function PushWords(a: seq<int>, list: seq<nat>, i: nat): (r: seq<int>)
    requires i + 2 < |a| && forall j :: 0 <= j < |list| ==> list[j] + 2 < |a|
    ensures |r| == |a|
  {
    var b := a[i + 1 := HeadOf(list)][i + 2 := 0];
    if list == [] then b else b[list[0] + 2 := i]
  }

  lemma PushOk(a: seq<int>, list: seq<nat>, i: nat)
    requires Links(a, list) && Spaced([i] + list) && i + 2 < |a|
    requires forall j :: 0 <= j < |list| ==> list[j] + 2 < |a|
    ensures Links(PushWords(a, list, i), [i] + list)
  {
    var b := PushWords(a, list, i);
    var l := [i] + list;
    forall k: nat | k < |l|
      ensures LinkOk(b, l, k)
    {
      if k > 0 {
        assert l[k] == list[k - 1] && LinkOk(a, list, k - 1);
        PushApart(i, list, k);
      }
    }
  }

  lemma PushApart(i: nat, list: seq<nat>, k: nat)
    requires Spaced([i] + list) && 0 < k < |list| + 1
    ensures i + MIN_BLOCK <= list[k - 1] || list[k - 1] + MIN_BLOCK <= i
    ensures 1 < k ==> list[0] + MIN_BLOCK <= list[k - 1] || list[k - 1] + MIN_BLOCK <= list[0]
  {
    var l := [i] + list;
    assert l[0] == i && l[k] == list[k - 1];
    if 1 < k {
      assert l[1] == list[0];
    }
  }

  /** Available blocks of a tiling are spaced. */
  lemma ListedSpaced(len: nat, blocks: Blocks, list: seq<nat>)
    requires Tiles(len, blocks) && Distinct(list)
    requires forall k :: 0 <= k < |list| ==> 0 < list[k] && list[k] in blocks && MIN_BLOCK <= Size(blocks[list[k]])
    ensures Spaced(list)
    ensures forall k :: 0 <= k < |list| ==> list[k] + 3 < len
  {
    forall j, k | 0 <= j < k < |list|
      ensures list[j] + MIN_BLOCK <= list[k] || list[k] + MIN_BLOCK <= list[j]
    {
      assert Apart(blocks, list[j], list[k]) && Apart(blocks, list[k], list[j]);
    }
  }

  // ---------------------------------------------------------------------------------------
  // The array holds the heap
  // ---------------------------------------------------------------------------------------

  ghost predicate Holds(a: seq<int>, h: Heap) {
    |a| == h.len && TagsBut(a, h.blocks, {}) && Links(a, h.list)
  }

  /** Mid-operation: tags as in `blocks`, links as in `list`, taken words as in `a0`. */
  ghost predicate Mid(a0: seq<int>, a: seq<int>, len: nat, blocks: Blocks, list: seq<nat>, but: nat) {
    && |a| == len && Tiles(len, blocks)
    && TagsBut(a, blocks, {}) && Links(a, list) && Spaced(list)
    && (forall k :: 0 <= k < |list| ==> IsAvail(blocks, list[k]) && MIN_BLOCK <= Size(blocks[list[k]]) && list[k] + 3 < len)
    && KeepsTaken(a0, a, blocks, but)
  }

  lemma MidStart(a: seq<int>, h: Heap, but: nat)
    requires WellFormed(h) && Holds(a, h)
    ensures Mid(a, a, h.len, h.blocks, h.list, but)
  {
    forall k | 0 <= k < |h.list|
      ensures 0 < h.list[k] && IsAvail(h.blocks, h.list[k]) && MIN_BLOCK <= Size(h.blocks[h.list[k]])
    {
      assert h.list[k] in h.list;
      AvailIsInner(h, h.list[k]);
    }
    ListedSpaced(h.len, h.blocks, h.list);
  }

  /** remove, in the middle of malloc or free. */
  lemma MidUnlink(a0: seq<int>, a: seq<int>, len: nat, blocks: Blocks, list: seq<nat>, but: nat, k: nat)
    requires Mid(a0, a, len, blocks, list, but) && k < |list|
    ensures Mid(a0, UnlinkWords(a, list, k), len, blocks, Removed(list, k), but)
  {
    UnlinkOk(a, list, k);
    var b := if k == 0 then a else a[list[k - 1] + 1 := NextIn(list, k)];
    if k > 0 {
      WriteKeepsTags(a, blocks, {}, len, list[k - 1], list[k - 1] + 1, NextIn(list, k));
      WriteKeepsTaken(a0, a, blocks, but, len, list[k - 1], list[k - 1] + 1, NextIn(list, k));
    }
    if k + 1 < |list| {
      WriteKeepsTags(b, blocks, {}, len, list[k + 1], list[k + 1] + 2, PrevIn(list, k));
      WriteKeepsTaken(a0, b, blocks, but, len, list[k + 1], list[k + 1] + 2, PrevIn(list, k));
    }
    hide TagsBut, Links, Spaced, KeepsTaken, Tiles, UnlinkWords;
  }

  lemma {:induction false} WithoutRemoves(list: seq<nat>, k: nat)
    requires Distinct(list) && k < |list|
    ensures Without(list, list[k]) == Removed(list, k)
  {
    if k > 0 {
      assert list[0] != list[k];
      WithoutRemoves(list[1..], k - 1);
      assert Removed(list, k) == [list[0]] + Removed(list[1..], k - 1);
    } else {
      assert Removed(list, 0) == list[1..];
    }
  }

  /** Position `p` lies in block `x`, which is available or is block `but`, and is not listed. */
  ghost predicate Writable(blocks: Blocks, list: seq<nat>, but: nat, x: nat, p: nat) {
    x in blocks && x <= p < End(blocks, x) && (x == but || IsAvail(blocks, x)) && x !in list
  }

  /** Links as in `list`, taken words as in `a0`; the tags are being rewritten. */
  ghost predicate Loose(a0: seq<int>, a: seq<int>, len: nat, blocks: Blocks, list: seq<nat>, but: nat) {
    && |a| == len && Tiles(len, blocks) && Links(a, list)
    && (forall k :: 0 <= k < |list| ==> IsAvail(blocks, list[k]) && MIN_BLOCK <= Size(blocks[list[k]]))
    && KeepsTaken(a0, a, blocks, but)
  }

  lemma LooseWrite(a0: seq<int>, a: seq<int>, len: nat, blocks: Blocks, list: seq<nat>, but: nat, x: nat, p: nat, v: int)
    requires Loose(a0, a, len, blocks, list, but) && Writable(blocks, list, but, x, p)
    ensures p < |a| && Loose(a0, a[p := v], len, blocks, list, but)
  {
    WriteKeepsTaken(a0, a, blocks, but, len, x, p, v);
    forall k | 0 <= k < |list|
      ensures p != list[k] + 1 && p != list[k] + 2
    {
      assert list[k] in list;
      assert Apart(blocks, x, list[k]) && Apart(blocks, list[k], x);
    }
    WriteKeepsLinks(a, list, p, v);
  }

  /** makeTaken and the tag writes of makeAvail. */
  lemma LooseTags(a0: seq<int>, a: seq<int>, len: nat, blocks: Blocks, list: seq<nat>, but: nat,
                  i: nat, size: nat, tag: int, x: nat, y: nat)
    requires Loose(a0, a, len, blocks, list, but) && 0 < size
    requires Writable(blocks, list, but, x, i) && Writable(blocks, list, but, y, i + size - 1)
    ensures i + size <= |a| && Loose(a0, TagWords(a, i, size, tag), len, blocks, list, but)
  {
    LooseWrite(a0, a, len, blocks, list, but, x, i, tag);
    LooseWrite(a0, a[i := tag], len, blocks, list, but, y, i + size - 1, tag);
  }

  /** Block `i` of the tiling can go in front of the listed blocks. */
  ghost predicate Pushable(len: nat, blocks: Blocks, list: seq<nat>, i: nat) {
    && Tiles(len, blocks) && Spaced([i] + list)
    && i in blocks && MIN_BLOCK <= Size(blocks[i])
    && forall k :: 0 <= k < |list| ==> list[k] in blocks && MIN_BLOCK <= Size(blocks[list[k]])
  }

  /** The link writes of makeAvail put block `i` of the new tiling in front. */
  lemma Push(a0: seq<int>, a: seq<int>, len: nat, blocks: Blocks, list: seq<nat>, but: nat, now: Blocks, i: nat, x: nat, y: nat)
    requires Loose(a0, a, len, blocks, list, but) && TagsBut(a, now, {}) && Pushable(len, now, list, i)
    requires Writable(blocks, list, but, x, i + 1) && Writable(blocks, list, but, y, i + 2)
    ensures i + 2 < |a| && (forall j :: 0 <= j < |list| ==> list[j] + 2 < |a|)
    ensures var b := PushWords(a, list, i);
            Links(b, [i] + list) && TagsBut(b, now, {}) && KeepsTaken(a0, b, blocks, but)
  {
    assert forall j :: 0 <= j < |list| ==> End(now, list[j]) <= len;
    PushOk(a, list, i);
    var a1 := a[i + 1 := HeadOf(list)];
    var a2 := a1[i + 2 := 0];
    WriteKeepsTags(a, now, {}, len, i, i + 1, HeadOf(list));
    WriteKeepsTags(a1, now, {}, len, i, i + 2, 0);
    WriteKeepsTaken(a0, a, blocks, but, len, x, i + 1, HeadOf(list));
    WriteKeepsTaken(a0, a1, blocks, but, len, y, i + 2, 0);
    if list != [] {
      WriteKeepsTags(a2, now, {}, len, list[0], list[0] + 2, i);
      WriteKeepsTaken(a0, a2, blocks, but, len, list[0], list[0] + 2, i);
    }
  }

  // ---------------------------------------------------------------------------------------
  // malloc
  // ---------------------------------------------------------------------------------------

  lemma SameTags(a: seq<int>, blocks: Blocks, now: Blocks, skip: set<nat>)
    requires TagsBut(a, blocks, {})
    requires forall i :: i in now && i !in skip ==> i in blocks && now[i] == blocks[i]
    ensures TagsBut(a, now, skip)
  {
    forall i | i in now && i !in skip
      ensures TagOk(a, now, i)
    {
      assert TagOk(a, blocks, i);
    }
  }

  lemma MidLoose(a0: seq<int>, a: seq<int>, len: nat, blocks: Blocks, list: seq<nat>, but: nat)
    requires Mid(a0, a, len, blocks, list, but)
    ensures Loose(a0, a, len, blocks, list, but)
  {
  }

  lemma RemovedOut(list: seq<nat>, k: nat)
    requires Distinct(list) && k < |list|
    ensures list[k] !in Removed(list, k) && Distinct(Removed(list, k))
    ensures forall x :: x in Removed(list, k) <==> x in list && x != list[k]
  {
    WithoutOk(list, list[k]);
    WithoutRemoves(list, k);
  }

  /** The array once the k-th listed block is off the list. */
  lemma Unlinked(a: seq<int>, h: Heap, k: nat)
    requires WellFormed(h) && Holds(a, h) && k < |h.list|
    ensures (forall j :: 0 <= j < |h.list| ==> h.list[j] + 2 < |a|)
    ensures var it := h.list[k]; var a1 := UnlinkWords(a, h.list, k); var rest := Removed(h.list, k);
            && Loose(a, a1, h.len, h.blocks, rest, it) && TagsBut(a1, h.blocks, {})
            && IsAvail(h.blocks, it) && MIN_BLOCK <= Size(h.blocks[it]) && End(h.blocks, it) <= h.len
            && it !in rest && rest == Without(h.list, it)
            && (forall j :: 0 <= j < |rest| ==> rest[j] + 2 < |a|)
  {
    var it := h.list[k];
    assert it in h.list;
    AvailIsInner(h, it);
    MidStart(a, h, it);
    MidUnlink(a, a, h.len, h.blocks, h.list, it, k);
    RemovedOut(h.list, k);
    WithoutRemoves(h.list, k);
    MidLoose(a, UnlinkWords(a, h.list, k), h.len, h.blocks, Removed(h.list, k), it);
    hide WellFormed, Loose, TagsBut, UnlinkWords;
  }

  /** The array after malloc takes a block whole. */
  lemma CarveWholeHolds(a: seq<int>, h: Heap, k: nat, ints: nat)
    requires WellFormed(h) && Holds(a, h) && k < |h.list|
    requires var it := h.list[k]; it in h.blocks && MIN_BLOCK <= ints <= Size(h.blocks[it]) < ints + MIN_BLOCK
    ensures var it := h.list[k]; var mx := Size(h.blocks[it]);
            && (forall j :: 0 <= j < |h.list| ==> h.list[j] + 2 < |a|) && it + mx <= |a|
            && var b := TagWords(UnlinkWords(a, h.list, k), it, mx, Neg(mx));
               Holds(b, Carve(h, it, ints)) && KeepsTaken(a, b, h.blocks, it)
  {
    var it := h.list[k];
    var mx := Size(h.blocks[it]);
    Unlinked(a, h, k);
    var a1 := UnlinkWords(a, h.list, k);
    var rest := Removed(h.list, k);
    var h' := Carve(h, it, ints);
    hide UnlinkWords, Holds;
    RetagTiles(h.len, h.blocks, it, Neg(mx));
    hide WellFormed;
    LooseTags(a, a1, h.len, h.blocks, rest, it, it, mx, Neg(mx), it, it);
    SameTags(a1, h.blocks, h'.blocks, {} + {it});
    hide TagsBut;
    WriteTags(a1, h'.blocks, {}, h.len, it);
    assert Holds(TagWords(a1, it, mx, Neg(mx)), h') by { HoldsIf(TagWords(a1, it, mx, Neg(mx)), h'); }
  }

  lemma HoldsIf(a: seq<int>, h: Heap)
    requires |a| == h.len && TagsBut(a, h.blocks, {}) && Links(a, h.list)
    ensures Holds(a, h)
  {
  }

  /** The array after malloc splits a block. */
  lemma CarveSplitHolds(a: seq<int>, h: Heap, k: nat, ints: nat)
    requires WellFormed(h) && Holds(a, h) && k < |h.list|
    requires var it := h.list[k]; it in h.blocks && MIN_BLOCK <= ints && ints + MIN_BLOCK <= Size(h.blocks[it])
    ensures var it := h.list[k]; var mx := Size(h.blocks[it]); var rest := Removed(h.list, k);
            && (forall j :: 0 <= j < |h.list| ==> h.list[j] + 2 < |a|) && it + mx <= |a|
            && (forall j :: 0 <= j < |rest| ==> rest[j] + 2 < |a|)
            && var b := TagWords(TagWords(UnlinkWords(a, h.list, k), it, ints, Neg(ints)), it + ints, mx - ints, mx - ints);
               var c := PushWords(b, rest, it + ints);
               Holds(c, Carve(h, it, ints)) && KeepsTaken(a, c, h.blocks, it)
  {
    Unlinked(a, h, k);
    hide UnlinkWords, Holds;
    CarveSplitFrom(a, UnlinkWords(a, h.list, k), h, h.list[k], ints, Removed(h.list, k));
  }

  lemma CarveSplitFrom(a0: seq<int>, a: seq<int>, h: Heap, it: nat, ints: nat, rest: seq<nat>)
    requires WellFormed(h) && Loose(a0, a, h.len, h.blocks, rest, it) && TagsBut(a, h.blocks, {})
    requires IsAvail(h.blocks, it) && MIN_BLOCK <= ints && ints + MIN_BLOCK <= Size(h.blocks[it])
    requires it !in rest && rest == Without(h.list, it) && (forall j :: 0 <= j < |rest| ==> rest[j] + 2 < |a|)
    requires it + Size(h.blocks[it]) <= |a|
    ensures var mx := Size(h.blocks[it]);
            var b := TagWords(TagWords(a, it, ints, Neg(ints)), it + ints, mx - ints, mx - ints);
            var c := PushWords(b, rest, it + ints);
            Holds(c, Carve(h, it, ints)) && KeepsTaken(a0, c, h.blocks, it)
  {
    var mx := Size(h.blocks[it]);
    var a2 := TagWords(a, it, ints, Neg(ints));
    var a3 := TagWords(a2, it + ints, mx - ints, mx - ints);
    SplitTags(a, h, it, ints);
    LooseTags(a0, a, h.len, h.blocks, rest, it, it, ints, Neg(ints), it, it);
    hide WellFormed, Loose, TagsBut, TagWords;
    LooseTags(a0, a2, h.len, h.blocks, rest, it, it + ints, mx - ints, mx - ints, it, it);
    CarveSplitPush(a0, a3, h, it, ints, rest);
  }

  lemma CarveSplitPush(a0: seq<int>, a: seq<int>, h: Heap, it: nat, ints: nat, rest: seq<nat>)
    requires WellFormed(h) && Loose(a0, a, h.len, h.blocks, rest, it)
    requires IsAvail(h.blocks, it) && MIN_BLOCK <= ints && ints + MIN_BLOCK <= Size(h.blocks[it])
    requires TagsBut(a, Carve(h, it, ints).blocks, {})
    requires it !in rest && rest == Without(h.list, it) && (forall j :: 0 <= j < |rest| ==> rest[j] + 2 < |a|)
    requires |a| == h.len && it + Size(h.blocks[it]) <= |a|
    ensures var c := PushWords(a, rest, it + ints);
            Holds(c, Carve(h, it, ints)) && KeepsTaken(a0, c, h.blocks, it)
  {
    hide WellFormed, Loose, TagsBut, Carve, PushWords, Pushable, KeepsTaken, Links, Writable;
    var h' := Carve(h, it, ints);
    CarveFields(h, it, ints);
    CarvePushable(h, it, ints);
    Push(a0, a, h.len, h.blocks, rest, it, h'.blocks, it + ints, it, it);
    HoldsIf(PushWords(a, rest, it + ints), h');
  }

  lemma CarvePushable(h: Heap, it: nat, ints: nat)
    requires WellFormed(h) && IsAvail(h.blocks, it) && MIN_BLOCK <= ints && ints + MIN_BLOCK <= Size(h.blocks[it])
    ensures var rest := Without(h.list, it);
            && Pushable(h.len, Carve(h, it, ints).blocks, rest, it + ints)
            && Writable(h.blocks, rest, it, it, it + ints + 1) && Writable(h.blocks, rest, it, it, it + ints + 2)
  {
    WithoutOk(h.list, it);
    CarveOk(h, it, ints);
    CarveFields(h, it, ints);
    MidSpaced(Carve(h, it, ints), Without(h.list, it), it + ints);
  }

  lemma CarveFields(h: Heap, it: nat, ints: nat)
    requires it in h.blocks && Size(h.blocks[it]) >= ints + MIN_BLOCK
    ensures Carve(h, it, ints).len == h.len && Carve(h, it, ints).list == [it + ints] + Without(h.list, it)
  {
  }

  lemma SplitTags(a: seq<int>, h: Heap, it: nat, ints: nat)
    requires WellFormed(h) && |a| == h.len && TagsBut(a, h.blocks, {}) && it in h.blocks
    requires MIN_BLOCK <= ints && ints + MIN_BLOCK <= Size(h.blocks[it])
    ensures var mx := Size(h.blocks[it]);
            it + mx <= |a| &&
            TagsBut(TagWords(TagWords(a, it, ints, Neg(ints)), it + ints, mx - ints, mx - ints), Carve(h, it, ints).blocks, {})
  {
    var h' := Carve(h, it, ints);
    var mx := Size(h.blocks[it]);
    SplitTiles(h.len, h.blocks, it, ints, Neg(ints), mx - ints);
    SameTags(a, h.blocks, h'.blocks, {it + ints} + {it});
    WriteTags(a, h'.blocks, {it + ints}, h.len, it);
    assert {} + {it + ints} == {it + ints};
    WriteTags(TagWords(a, it, ints, Neg(ints)), h'.blocks, {}, h.len, it + ints);
  }

  /** A block put in front of listed blocks of a well-formed heap. */
  lemma MidSpaced(h: Heap, rest: seq<nat>, i: nat)
    requires WellFormed(h) && h.list == [i] + rest
    ensures Pushable(h.len, h.blocks, rest, i)
  {
    forall k | 0 <= k < |h.list|
      ensures 0 < h.list[k] && IsAvail(h.blocks, h.list[k]) && MIN_BLOCK <= Size(h.blocks[h.list[k]])
    {
      assert h.list[k] in h.list;
      AvailIsInner(h, h.list[k]);
    }
    ListedSpaced(h.len, h.blocks, h.list);
    assert h.list[0] == i;
    assert forall k :: 0 <= k < |rest| ==> rest[k] == h.list[k + 1];
  }

  // ---------------------------------------------------------------------------------------
  // free
  // ---------------------------------------------------------------------------------------

  /** The footer before a block leads to the header of its left neighbour. */
  lemma LeftByFooter(a: seq<int>, h: Heap, i: nat)
    requires WellFormed(h) && Holds(a, h) && i in h.blocks && 0 < i
    ensures i < |a| && i - Size(a[i - 1]) == LeftOf(h.len, h.blocks, i)
  {
    assert TagOk(a, h.blocks, LeftOf(h.len, h.blocks, i)) && TagOk(a, h.blocks, i);
  }

  /** The new block spans what free joined; every position written belongs to it. */
  lemma FreeSpan(h: Heap, i: nat, rest: seq<nat>)
    requires Freeable(h, i) && Free(h, i).list == [StartOf(h, i)] + rest
    ensures var start := StartOf(h, i); var b := Free(h, i).blocks; var r := End(h.blocks, i);
            var y := if IsAvail(h.blocks, r) then r else i;
            && start in b && MIN_BLOCK <= Size(b[start]) == b[start] && start + Size(b[start]) <= h.len
            && Writable(h.blocks, rest, i, start, start) && Writable(h.blocks, rest, i, y, start + Size(b[start]) - 1)
            && Writable(h.blocks, rest, i, start, start + 1) && Writable(h.blocks, rest, i, start, start + 2)
            && Pushable(h.len, b, rest, start)
  {
    var h' := Free(h, i);
    var start := StartOf(h, i);
    FreeTiles(h, i);
    Neighbours(h, i);
    FreeContract(h, i);
    hide Free;
    MidSpaced(h', rest, start);
    SwallowedUnlisted(h, h', i, rest);
    hide Pushable, Tiles, Coalesced, ListOk, Sentinels, Taken, LeftOf;
  }

  lemma SwallowedUnlisted(h: Heap, h': Heap, i: nat, rest: seq<nat>)
    requires Freeable(h, i) && WellFormed(h') && h'.list == [StartOf(h, i)] + rest
    requires forall x :: x in h'.blocks <==> x in h.blocks && !Swallowed(h, i, x)
    ensures StartOf(h, i) !in rest && i !in rest && (IsAvail(h.blocks, End(h.blocks, i)) ==> End(h.blocks, i) !in rest)
  {
    var start := StartOf(h, i);
    forall x | x in rest
      ensures x != start && IsAvail(h'.blocks, x)
    {
      var k :| 0 <= k < |rest| && rest[k] == x;
      assert h'.list[k + 1] == x && h'.list[0] == start;
      assert x in h'.list;
    }
    assert Apart(h.blocks, i, End(h.blocks, i));
    Neighbours(h, i);
  }

  /** The array once free has made its block available, from where the neighbours are unlinked. */
  lemma FreeHolds(a0: seq<int>, a: seq<int>, h: Heap, i: nat, rest: seq<nat>)
    requires Freeable(h, i) && Mid(a0, a, h.len, h.blocks, rest, i) && Free(h, i).list == [StartOf(h, i)] + rest
    ensures var start := StartOf(h, i); var b := Free(h, i).blocks;
            && start in b && 0 < Size(b[start]) && start + Size(b[start]) <= |a| && start + 2 < |a|
            && (forall j :: 0 <= j < |rest| ==> rest[j] + 2 < |a|)
            && var c := PushWords(TagWords(a, start, Size(b[start]), Size(b[start])), rest, start);
               Holds(c, Free(h, i)) && KeepsTaken(a0, c, h.blocks, i)
  {
    var h' := Free(h, i);
    var start := StartOf(h, i);
    FreeSpan(h, i, rest);
    FreeTagged(a0, a, h, i, rest);
    assert h'.len == h.len;
    hide Free, StartOf, WellFormed, Loose, TagsBut, PushWords, TagWords, Pushable, KeepsTaken, Links, Mid, Writable;
    var sz := Size(h'.blocks[start]);
    var a2 := TagWords(a, start, sz, sz);
    Push(a0, a2, h.len, h.blocks, rest, i, h'.blocks, start, start, start);
    HoldsIf(PushWords(a2, rest, start), h');
  }

  lemma FreeTagged(a0: seq<int>, a: seq<int>, h: Heap, i: nat, rest: seq<nat>)
    requires Freeable(h, i) && Mid(a0, a, h.len, h.blocks, rest, i) && Free(h, i).list == [StartOf(h, i)] + rest
    ensures var start := StartOf(h, i); var b := Free(h, i).blocks;
            && start in b && 0 < Size(b[start]) && start + Size(b[start]) <= |a|
            && var a2 := TagWords(a, start, Size(b[start]), Size(b[start]));
               TagsBut(a2, b, {}) && Loose(a0, a2, h.len, h.blocks, rest, i)
  {
    var h' := Free(h, i);
    var start := StartOf(h, i);
    var r := End(h.blocks, i);
    FreeSpan(h, i, rest);
    FreeTiles(h, i);
    MidLoose(a0, a, h.len, h.blocks, rest, i);
    hide Free, StartOf, WellFormed, Loose, TagWords, Pushable, Writable, Tiles;
    SameTags(a, h.blocks, h'.blocks, {} + {start});
    hide TagsBut;
    var sz := Size(h'.blocks[start]);
    LooseTags(a0, a, h.len, h.blocks, rest, i, start, sz, sz, start, if IsAvail(h.blocks, r) then r else i);
    WriteTags(a, h'.blocks, {}, h.len, start);
  }
}
