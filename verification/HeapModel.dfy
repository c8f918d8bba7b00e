/**
 The boundary-tag heap (kernel/heap.cc) as a value: the tiling of the array into blocks and the
 order of the free list.
 */
module HeapModel {
  import opened Sets
  import opened Wrappers

  /** Block headers with their tags: the size in words, negative while the block is taken. */
  type Blocks = map<nat, int>

  /** `list` is the free list from its head; `count` is heap_count. */
  datatype Heap = Heap(len: nat, blocks: Blocks, list: seq<nat>, count: int)

  const MIN_BLOCK := 4
  const TRIES := 20
  const NO_FIT := 0x7FFF_FFFF

  function Size(tag: int): nat {
    if tag < 0 then -tag else tag
  }

  /** The tag of a taken block. */
  function Neg(size: nat): int {
    0 - size as int
  }

  function End(blocks: Blocks, i: nat): nat
    requires i in blocks
  {
    i + Size(blocks[i])
  }

  predicate IsAvail(blocks: Blocks, i: nat) {
    i in blocks && blocks[i] > 0
  }

  predicate IsTaken(blocks: Blocks, i: nat) {
    i in blocks && blocks[i] < 0
  }

  // ---------------------------------------------------------------------------------------
  // Well-formedness
  // ---------------------------------------------------------------------------------------

  /** Where block `i` ends the array ends or another block starts. */
  ghost predicate Followed(len: nat, blocks: Blocks, i: nat)
    requires i in blocks
  {
    End(blocks, i) < len ==> End(blocks, i) in blocks
  }

  ghost predicate Apart(blocks: Blocks, i: nat, j: nat)
    requires i in blocks
  {
    i < j ==> End(blocks, i) <= j
  }

  /** Blocks `i` and its right neighbour are not both available. */
  ghost predicate Lonely(blocks: Blocks, i: nat)
    requires i in blocks
  {
    IsAvail(blocks, i) ==> !IsAvail(blocks, End(blocks, i))
  }

  /** Blocks lie in the array, do not overlap and leave no gap. */
  ghost predicate Tiles(len: nat, blocks: Blocks) {
    && 8 <= len && 0 in blocks
    && (forall i :: i in blocks ==> 2 <= Size(blocks[i]) && End(blocks, i) <= len)
    && (forall i {:trigger Followed(len, blocks, i)} :: i in blocks ==> Followed(len, blocks, i))
    && (forall i, j {:trigger Apart(blocks, i, j)} :: i in blocks && j in blocks ==> Apart(blocks, i, j))
  }

  /** The two words at either end are taken for good. */
  ghost predicate Sentinels(len: nat, blocks: Blocks) {
    2 <= len && 0 in blocks && blocks[0] == -2 && len - 2 in blocks && blocks[len - 2] == -2
  }

  predicate Inner(len: nat, i: nat) {
    0 < i && i + 2 != len
  }

  ghost predicate BigEnough(len: nat, blocks: Blocks) {
    forall i :: i in blocks && Inner(len, i) ==> MIN_BLOCK <= Size(blocks[i])
  }

  /** No two available blocks are neighbours. */
  ghost predicate Coalesced(blocks: Blocks) {
    forall i {:trigger Lonely(blocks, i)} :: i in blocks ==> Lonely(blocks, i)
  }

  ghost predicate ListOk(blocks: Blocks, list: seq<nat>) {
    && (forall i :: i in list <==> IsAvail(blocks, i))
    && Distinct(list)
  }

  ghost function Taken(blocks: Blocks): set<nat> {
    set i | i in blocks && IsTaken(blocks, i)
  }

  ghost predicate WellFormed(h: Heap) {
    && h.len < NO_FIT
    && Tiles(h.len, h.blocks) && Sentinels(h.len, h.blocks) && BigEnough(h.len, h.blocks)
    && Coalesced(h.blocks) && ListOk(h.blocks, h.list)
    && h.count == |Taken(h.blocks)| - 2
  }

  // ---------------------------------------------------------------------------------------
  // Operations
  // ---------------------------------------------------------------------------------------

  /** heapInit, up to the allocation of its own lock. */
  function InitHeap(len: nat): Heap
    requires 8 <= len
  {
    Heap(len, map[0 := -2, 2 := len - 4, len - 2 := -2], [2], 0)
  }

  /** The words malloc asks for: the payload rounded up, plus two tags, at least four. */
  function Words(bytes: nat): nat {
    var ints := (bytes + 3) % 0x1_0000_0000 / 4 + 2;
    if ints < MIN_BLOCK then MIN_BLOCK else ints
  }

  /** The scan of malloc: the smallest of the first TRIES fitting blocks, 0 if none fits. */
  function Scan(blocks: Blocks, list: seq<nat>, ints: nat, tries: nat, mx: int, it: nat): (nat, int)
    decreases |list|
  {
    if list == [] || tries == 0 then (it, mx)
    else
      if list[0] in blocks && Size(blocks[list[0]]) >= ints then
        var sz := Size(blocks[list[0]]);
        if sz < mx then Scan(blocks, list[1..], ints, tries - 1, sz, list[0])
        else Scan(blocks, list[1..], ints, tries - 1, mx, it)
      else Scan(blocks, list[1..], ints, tries, mx, it)
  }

  function Without(list: seq<nat>, i: nat): seq<nat> {
    if list == [] then [] else if list[0] == i then list[1..] else [list[0]] + Without(list[1..], i)
  }

  /** Taking `ints` words from the available block `it`, splitting it when enough is left. */
  function Carve(h: Heap, it: nat, ints: nat): Heap
    requires it in h.blocks
  {
    var mx := Size(h.blocks[it]);
    var list := Without(h.list, it);
    if mx >= ints + MIN_BLOCK then
      h.(blocks := h.blocks[it := Neg(ints)][it + ints := mx - ints], list := [it + ints] + list, count := h.count + 1)
    else
      h.(blocks := h.blocks[it := Neg(mx)], list := list, count := h.count + 1)
  }

  /** malloc for a positive number of bytes: the new heap and the header of the block. */
  function Malloc(h: Heap, bytes: nat): (Heap, Option<nat>) {
    var ints := Words(bytes);
    var it := Scan(h.blocks, h.list, ints, TRIES, NO_FIT, 0).0;
    if it != 0 && it in h.blocks then (Carve(h, it, ints), Some(it)) else (h, None)
  }

  /** The header of the block that ends where `i` starts, looked for from block `j` on. */
  ghost function LeftFrom(len: nat, blocks: Blocks, i: nat, j: nat): (l: nat)
    requires Tiles(len, blocks) && i in blocks && j in blocks && j < i
    ensures l in blocks && End(blocks, l) == i
    decreases i - j
  {
    assert Followed(len, blocks, j) && Apart(blocks, j, i);
    if End(blocks, j) == i then j else LeftFrom(len, blocks, i, End(blocks, j))
  }

  ghost function LeftOf(len: nat, blocks: Blocks, i: nat): (l: nat)
    requires Tiles(len, blocks) && i in blocks && 0 < i
    ensures l in blocks && End(blocks, l) == i
  {
    LeftFrom(len, blocks, i, 0)
  }

  /** Joining block `i` with its right neighbour. */
  function JoinRight(blocks: Blocks, i: nat): Blocks
    requires i in blocks && End(blocks, i) in blocks
  {
    var r := End(blocks, i);
    (blocks - {r})[i := Size(blocks[i]) + Size(blocks[r])]
  }

  /** free on the taken block `i`: it becomes available and swallows available neighbours. */
  ghost function Free(h: Heap, i: nat): Heap
    requires Tiles(h.len, h.blocks) && i in h.blocks && 0 < i
  {
    var l := LeftOf(h.len, h.blocks, i);
    var r := End(h.blocks, i);
    var b0 := h.blocks[i := Size(h.blocks[i])];
    var b1 := if IsAvail(h.blocks, r) then JoinRight(b0, i) else b0;
    if IsAvail(h.blocks, l) then
      h.(blocks := JoinRight(b1, l), list := [l] + Without(Without(h.list, l), r), count := h.count - 1)
    else
      h.(blocks := b1, list := [i] + Without(h.list, r), count := h.count - 1)
  }

  // ---------------------------------------------------------------------------------------
  // Tilings
  // ---------------------------------------------------------------------------------------

  lemma RetagTiles(len: nat, blocks: Blocks, i: nat, tag: int)
    requires Tiles(len, blocks) && i in blocks && Size(tag) == Size(blocks[i])
    ensures Tiles(len, blocks[i := tag])
  {
    var b := blocks[i := tag];
    forall j | j in b
      ensures Followed(len, b, j)
    {
      assert Followed(len, blocks, j);
    }
    forall j, k | j in b && k in b
      ensures Apart(b, j, k)
    {
      assert Apart(blocks, j, k);
    }
  }

  lemma SplitTiles(len: nat, blocks: Blocks, i: nat, k: nat, left: int, right: int)
    requires Tiles(len, blocks) && i in blocks && 2 <= k && k + 2 <= Size(blocks[i])
    requires Size(left) == k && Size(right) == Size(blocks[i]) - k
    ensures Tiles(len, blocks[i := left][i + k := right])
    ensures i + k !in blocks
  {
    assert i + k in blocks ==> Apart(blocks, i, i + k);
    SplitFollowed(len, blocks, i, k, left, right);
    SplitApart(len, blocks, i, k, left, right);
  }

  lemma SplitFollowed(len: nat, blocks: Blocks, i: nat, k: nat, left: int, right: int)
    requires Tiles(len, blocks) && i in blocks && 2 <= k && k + 2 <= Size(blocks[i]) && i + k !in blocks
    requires Size(left) == k && Size(right) == Size(blocks[i]) - k
    ensures var b := blocks[i := left][i + k := right]; forall j :: j in b ==> Followed(len, b, j)
  {
    var b := blocks[i := left][i + k := right];
    forall j | j in b
      ensures Followed(len, b, j)
    {
      assert Followed(len, blocks, if j == i + k then i else j);
    }
  }

  lemma SplitApart(len: nat, blocks: Blocks, i: nat, k: nat, left: int, right: int)
    requires Tiles(len, blocks) && i in blocks && 2 <= k && k + 2 <= Size(blocks[i]) && i + k !in blocks
    requires Size(left) == k && Size(right) == Size(blocks[i]) - k
    ensures var b := blocks[i := left][i + k := right]; forall x, y :: x in b && y in b ==> Apart(b, x, y)
  {
    var b := blocks[i := left][i + k := right];
    forall x, y | x in b && y in b
      ensures Apart(b, x, y)
    {
      assert Apart(blocks, if x == i + k then i else x, if y == i + k then i else y);
      assert x in blocks ==> Apart(blocks, i, x);
    }
  }

  lemma JoinTiles(len: nat, blocks: Blocks, i: nat)
    requires Tiles(len, blocks) && i in blocks && End(blocks, i) in blocks
    ensures Tiles(len, JoinRight(blocks, i))
  {
    JoinFollowed(len, blocks, i);
    JoinApart(len, blocks, i);
  }

  lemma JoinFollowed(len: nat, blocks: Blocks, i: nat)
    requires Tiles(len, blocks) && i in blocks && End(blocks, i) in blocks
    ensures forall j :: j in JoinRight(blocks, i) ==> Followed(len, JoinRight(blocks, i), j)
  {
    var b := JoinRight(blocks, i);
    var r := End(blocks, i);
    forall j | j in b
      ensures Followed(len, b, j)
    {
      assert Followed(len, blocks, if j == i then r else j);
      assert Apart(blocks, j, i) && Apart(blocks, i, j);
    }
  }

  lemma JoinApart(len: nat, blocks: Blocks, i: nat)
    requires Tiles(len, blocks) && i in blocks && End(blocks, i) in blocks
    ensures forall x, y :: x in JoinRight(blocks, i) && y in JoinRight(blocks, i) ==> Apart(JoinRight(blocks, i), x, y)
  {
    var b := JoinRight(blocks, i);
    var r := End(blocks, i);
    forall x, y | x in b && y in b
      ensures Apart(b, x, y)
    {
      assert Apart(blocks, x, y) && Apart(blocks, r, y);
    }
  }

  // ---------------------------------------------------------------------------------------
  // The free list
  // ---------------------------------------------------------------------------------------

  lemma {:induction false} WithoutOk(list: seq<nat>, i: nat)
    requires Distinct(list)
    ensures Distinct(Without(list, i))
    ensures forall x :: x in Without(list, i) <==> x in list && x != i
    ensures i !in list ==> Without(list, i) == list
  {
    if list != [] {
      assert list == [list[0]] + list[1..];
      if list[0] != i {
        WithoutOk(list[1..], i);
        var rest := Without(list[1..], i);
        assert list[0] !in rest;
        var w := [list[0]] + rest;
        forall j, k | 0 <= j < k < |w|
          ensures w[j] != w[k]
        {
          assert w[k] == rest[k - 1] && rest[k - 1] in rest;
        }
      }
    }
  }

  // ---------------------------------------------------------------------------------------
  // The scan
  // ---------------------------------------------------------------------------------------

  /** The fitting blocks of the list, in order. */
  ghost function Fitting(blocks: Blocks, list: seq<nat>, ints: nat): seq<nat> {
    if list == [] then []
    else if list[0] in blocks && Size(blocks[list[0]]) >= ints then [list[0]] + Fitting(blocks, list[1..], ints)
    else Fitting(blocks, list[1..], ints)
  }

  /** The first smallest block of `s`. */
  ghost predicate IsBest(blocks: Blocks, s: seq<nat>, it: nat) {
    exists k :: 0 <= k < |s| && s[k] == it && it in blocks
      && (forall j :: 0 <= j < k ==> s[j] in blocks && Size(blocks[s[j]]) > Size(blocks[it]))
      && (forall j :: k <= j < |s| ==> s[j] in blocks && Size(blocks[s[j]]) >= Size(blocks[it]))
  }

  ghost function Prefix<T>(s: seq<T>, n: nat): seq<T> {
    if |s| <= n then s else s[..n]
  }

  ghost function Candidates(blocks: Blocks, list: seq<nat>, ints: nat, tries: nat): seq<nat> {
    Prefix(Fitting(blocks, list, ints), tries)
  }

  lemma {:induction false} FittingIn(blocks: Blocks, list: seq<nat>, ints: nat)
    ensures forall x :: x in Fitting(blocks, list, ints) <==> x in list && x in blocks && Size(blocks[x]) >= ints
  {
    if list != [] {
      FittingIn(blocks, list[1..], ints);
      assert list == [list[0]] + list[1..];
    }
  }

  /** `r` is the first smallest candidate if that is below `mx`, and (it, mx) otherwise. */
  ghost predicate Found(blocks: Blocks, f: seq<nat>, mx: int, it: nat, r: (nat, int)) {
    && (forall j :: 0 <= j < |f| ==> f[j] in blocks)
    && if forall j :: 0 <= j < |f| ==> Size(blocks[f[j]]) >= mx then r == (it, mx)
       else IsBest(blocks, f, r.0) && r.0 in blocks && r.1 == Size(blocks[r.0]) < mx
  }

  lemma {:induction false} ScanOk(blocks: Blocks, list: seq<nat>, ints: nat, tries: nat, mx: int, it: nat)
    ensures Found(blocks, Candidates(blocks, list, ints, tries), mx, it, Scan(blocks, list, ints, tries, mx, it))
    decreases |list|
  {
    if list != [] && tries != 0 {
      var x := list[0];
      if x in blocks && Size(blocks[x]) >= ints {
        var sz := Size(blocks[x]);
        var f' := Candidates(blocks, list[1..], ints, tries - 1);
        assert Candidates(blocks, list, ints, tries) == [x] + f';
        hide Found, Candidates;
        if sz < mx {
          ScanOk(blocks, list[1..], ints, tries - 1, sz, x);
          FoundSmaller(blocks, x, f', mx, it, Scan(blocks, list[1..], ints, tries - 1, sz, x));
        } else {
          ScanOk(blocks, list[1..], ints, tries - 1, mx, it);
          FoundSame(blocks, x, f', mx, it, Scan(blocks, list[1..], ints, tries - 1, mx, it));
        }
      } else {
        ScanOk(blocks, list[1..], ints, tries, mx, it);
      }
    }
  }

  lemma FoundSmaller(blocks: Blocks, x: nat, f: seq<nat>, mx: int, it: nat, r: (nat, int))
    requires x in blocks && Size(blocks[x]) < mx && Found(blocks, f, Size(blocks[x]), x, r)
    ensures Found(blocks, [x] + f, mx, it, r)
  {
    hide IsBest;
    Prepend(blocks, x, f, Size(blocks[x]));
    var g := [x] + f;
    assert g[0] == x;
    forall j | 0 <= j < |g|
      ensures g[j] in blocks
    {
      assert j > 0 ==> g[j] == f[j - 1];
    }
  }

  lemma FoundSame(blocks: Blocks, x: nat, f: seq<nat>, mx: int, it: nat, r: (nat, int))
    requires x in blocks && Size(blocks[x]) >= mx && Found(blocks, f, mx, it, r)
    ensures Found(blocks, [x] + f, mx, it, r)
  {
    hide IsBest;
    Prepend(blocks, x, f, mx);
    var g := [x] + f;
    forall j | 0 <= j < |g|
      ensures g[j] in blocks && g[j] == if j == 0 then x else f[j - 1]
    {
    }
    if j :| 0 <= j < |f| && Size(blocks[f[j]]) < mx {
      assert g[j + 1] == f[j];
    }
  }

  lemma Prepend(blocks: Blocks, x: nat, f: seq<nat>, mx: int)
    requires x in blocks && Size(blocks[x]) >= mx && forall j :: 0 <= j < |f| ==> f[j] in blocks
    ensures (forall j :: 0 <= j < |f| ==> Size(blocks[f[j]]) >= Size(blocks[x])) ==> IsBest(blocks, [x] + f, x)
    ensures forall it :: IsBest(blocks, f, it) && it in blocks && Size(blocks[it]) < mx ==> IsBest(blocks, [x] + f, it)
  {
    var g := [x] + f;
    if forall j :: 0 <= j < |f| ==> Size(blocks[f[j]]) >= Size(blocks[x]) {
      assert g[0] == x;
    }
    forall it | IsBest(blocks, f, it) && it in blocks && Size(blocks[it]) < mx
      ensures IsBest(blocks, g, it)
    {
      var k :| 0 <= k < |f| && f[k] == it
        && (forall j :: 0 <= j < k ==> f[j] in blocks && Size(blocks[f[j]]) > Size(blocks[it]))
        && (forall j :: k <= j < |f| ==> f[j] in blocks && Size(blocks[f[j]]) >= Size(blocks[it]));
      assert g[k + 1] == it;
      forall j | 0 <= j < k + 1
        ensures g[j] in blocks && Size(blocks[g[j]]) > Size(blocks[it])
      {
        assert j > 0 ==> g[j] == f[j - 1];
      }
    }
  }

  // ---------------------------------------------------------------------------------------
  // malloc
  // ---------------------------------------------------------------------------------------

  lemma CarveTaken(blocks: Blocks, blocks': Blocks, it: nat)
    requires IsAvail(blocks, it) && IsTaken(blocks', it)
    requires forall i :: i != it ==> (IsTaken(blocks', i) <==> IsTaken(blocks, i))
    ensures |Taken(blocks')| == |Taken(blocks)| + 1
  {
    assert Taken(blocks') == Taken(blocks) + {it};
  }

  lemma AvailIsInner(h: Heap, i: nat)
    requires WellFormed(h) && IsAvail(h.blocks, i)
    ensures Inner(h.len, i) && i + 2 <= h.len && End(h.blocks, i) <= h.len - 2 && MIN_BLOCK <= Size(h.blocks[i])
    ensures End(h.blocks, i) in h.blocks && IsTaken(h.blocks, End(h.blocks, i))
  {
    assert Followed(h.len, h.blocks, i) && Lonely(h.blocks, i);
    assert Apart(h.blocks, i, h.len - 2) && Apart(h.blocks, h.len - 2, i);
  }

  /** Taking an available block keeps the heap well formed. */
  lemma CarveOk(h: Heap, it: nat, ints: nat)
    requires WellFormed(h) && IsAvail(h.blocks, it) && MIN_BLOCK <= ints <= Size(h.blocks[it])
    ensures WellFormed(Carve(h, it, ints))
  {
    AvailIsInner(h, it);
    WithoutOk(h.list, it);
    if Size(h.blocks[it]) >= ints + MIN_BLOCK {
      CarveSplitOk(h, it, ints);
    } else {
      CarveWholeOk(h, it, ints);
    }
  }

  lemma CarveWholeOk(h: Heap, it: nat, ints: nat)
    requires WellFormed(h) && IsAvail(h.blocks, it) && MIN_BLOCK <= ints <= Size(h.blocks[it]) < ints + MIN_BLOCK
    ensures WellFormed(Carve(h, it, ints))
  {
    var h' := Carve(h, it, ints);
    AvailIsInner(h, it);
    RetagTiles(h.len, h.blocks, it, Neg(Size(h.blocks[it])));
    WithoutOk(h.list, it);
    CarveTaken(h.blocks, h'.blocks, it);
    forall i | i in h'.blocks
      ensures Lonely(h'.blocks, i)
    {
      assert Lonely(h.blocks, i);
    }
  }

  lemma CarveSplitOk(h: Heap, it: nat, ints: nat)
    requires WellFormed(h) && IsAvail(h.blocks, it) && MIN_BLOCK <= ints && ints + MIN_BLOCK <= Size(h.blocks[it])
    ensures WellFormed(Carve(h, it, ints))
  {
    var h' := Carve(h, it, ints);
    var mx := Size(h.blocks[it]);
    AvailIsInner(h, it);
    SplitTiles(h.len, h.blocks, it, ints, Neg(ints), mx - ints);
    WithoutOk(h.list, it);
    CarveTaken(h.blocks, h'.blocks, it);
    SplitCoalesced(h, it, ints);
    SplitList(h, it, ints);
    hide Tiles, Coalesced, ListOk, Taken;
  }

  lemma SplitCoalesced(h: Heap, it: nat, ints: nat)
    requires WellFormed(h) && IsAvail(h.blocks, it) && MIN_BLOCK <= ints && ints + MIN_BLOCK <= Size(h.blocks[it])
    requires it + ints !in h.blocks
    ensures Coalesced(Carve(h, it, ints).blocks)
  {
    var h' := Carve(h, it, ints);
    AvailIsInner(h, it);
    forall i | i in h'.blocks
      ensures Lonely(h'.blocks, i)
    {
      if i in h.blocks {
        assert Lonely(h.blocks, i) && Apart(h.blocks, i, it) && Apart(h.blocks, it, i);
      }
    }
  }

  lemma SplitList(h: Heap, it: nat, ints: nat)
    requires WellFormed(h) && IsAvail(h.blocks, it) && MIN_BLOCK <= ints && ints + MIN_BLOCK <= Size(h.blocks[it])
    requires it + ints !in h.blocks
    ensures ListOk(Carve(h, it, ints).blocks, Carve(h, it, ints).list)
  {
    WithoutOk(h.list, it);
    PushDistinct(it + ints, Without(h.list, it));
  }

  lemma CandidatesAre(h: Heap, ints: nat)
    requires WellFormed(h)
    ensures var f := Candidates(h.blocks, h.list, ints, TRIES);
            && (forall j :: 0 <= j < |f| ==> IsAvail(h.blocks, f[j]) && ints <= Size(h.blocks[f[j]]) < NO_FIT)
            && (f == [] <==> forall i :: IsAvail(h.blocks, i) ==> Size(h.blocks[i]) < ints)
  {
    FittingIn(h.blocks, h.list, ints);
    var fit := Fitting(h.blocks, h.list, ints);
    var f := Candidates(h.blocks, h.list, ints, TRIES);
    assert forall j :: 0 <= j < |f| ==> f[j] in fit;
    if f == [] {
      assert fit == [];
    } else {
      assert f[0] in fit;
    }
  }

  /** A block fit for `bytes` holds them unless rounding the request up wraps around. */
  lemma PayloadHoldsRequest(bytes: nat, size: nat)
    requires bytes < 0x1_0000_0000 && Words(bytes) <= size < Words(bytes) + MIN_BLOCK
    ensures bytes <= 4 * (size - 2) <==> bytes <= 0xFFFF_FFFC
  {
  }

  // ---------------------------------------------------------------------------------------
  // malloc in bytes
  // ---------------------------------------------------------------------------------------

  /** The largest request whose rounding up does not wrap around 32 bits. */
  const MAX_REQUEST := 0xFFFF_FFFC

  /** The request after the rounding: one that wraps around asks for nothing. */
  function Asked(bytes: nat): nat {
    if bytes <= MAX_REQUEST then bytes else 0
  }

  /** The words between the two tags hold `asked` bytes. */
  predicate Fits(size: nat, asked: nat) {
    4 * (size - 2) >= asked
  }

  /** No smaller block may be made for `asked` bytes. */
  predicate Least(size: nat, asked: nat) {
    MIN_BLOCK <= size && Fits(size, asked) && (size == MIN_BLOCK || !Fits(size - 1, asked))
  }

  /** The blocks of the list that hold `asked` bytes, in order. */
  ghost function Roomy(blocks: Blocks, list: seq<nat>, asked: nat): seq<nat> {
    if list == [] then []
    else (if list[0] in blocks && Fits(Size(blocks[list[0]]), asked) then [list[0]] else []) + Roomy(blocks, list[1..], asked)
  }

  /** What malloc owes a request: null exactly if no available block holds it; else the smallest of
      the first twenty that do, cut down to the least size when a block can be made of the rest. */
  ghost predicate Served(h: Heap, asked: nat, h': Heap, r: Option<nat>) {
    && (r.None? <==> forall i :: IsAvail(h.blocks, i) ==> !Fits(Size(h.blocks[i]), asked))
    && (r.Some? ==>
          && IsAvail(h.blocks, r.value) && IsTaken(h'.blocks, r.value)
          && IsBest(h.blocks, Prefix(Roomy(h.blocks, h.list, asked), TRIES), r.value)
          && exists least: nat :: Least(least, asked) && Size(h'.blocks[r.value]) ==
               var whole := Size(h.blocks[r.value]); if whole >= least + MIN_BLOCK then least else whole)
  }

  /** The words malloc computes are the least size for the request. */
  lemma WordsLeast(bytes: nat)
    requires bytes < 0x1_0000_0000
    ensures Least(Words(bytes), Asked(bytes))
    ensures forall size: nat :: MIN_BLOCK <= size ==> (Words(bytes) <= size <==> Fits(size, Asked(bytes)))
  {
  }

  lemma {:induction false} RoomyFits(blocks: Blocks, list: seq<nat>, bytes: nat)
    requires bytes < 0x1_0000_0000 && forall x :: x in list ==> x in blocks && MIN_BLOCK <= Size(blocks[x])
    ensures Roomy(blocks, list, Asked(bytes)) == Fitting(blocks, list, Words(bytes))
  {
    hide Words, Fits, Asked;
    if list != [] {
      WordsLeast(bytes);
      assert list[0] in list;
      RoomyFits(blocks, list[1..], bytes);
    }
  }

  lemma MallocServes(h: Heap, bytes: nat)
    requires WellFormed(h) && bytes < 0x1_0000_0000
    ensures var (h', r) := Malloc(h, bytes); Served(h, Asked(bytes), h', r)
  {
    MallocWords(h, bytes);
    WordsLeast(bytes);
    forall x | IsAvail(h.blocks, x)
      ensures MIN_BLOCK <= Size(h.blocks[x])
    {
      AvailIsInner(h, x);
    }
    RoomyFits(h.blocks, h.list, bytes);
    hide Words, Fits, Asked, Least, IsBest, Tiles, Scan, Fitting, Roomy, Prefix;
  }

  lemma MallocWords(h: Heap, bytes: nat)
    requires WellFormed(h)
    ensures var (h', r) := Malloc(h, bytes); var ints := Words(bytes);
            && WellFormed(h') && h'.len == h.len
            && (r.None? <==> forall i :: IsAvail(h.blocks, i) ==> Size(h.blocks[i]) < ints)
            && (r.None? ==> h' == h)
            && (r.Some? ==>
                  && IsBest(h.blocks, Candidates(h.blocks, h.list, ints, TRIES), r.value)
                  && IsAvail(h.blocks, r.value) && IsTaken(h'.blocks, r.value)
                  && Size(h'.blocks[r.value]) ==
                       (var whole := Size(h.blocks[r.value]); if whole >= ints + MIN_BLOCK then ints else whole)
                  && End(h'.blocks, r.value) <= End(h.blocks, r.value)
                  && (forall i :: IsTaken(h.blocks, i) ==> IsTaken(h'.blocks, i) && h'.blocks[i] == h.blocks[i])
                  && (forall i :: IsTaken(h'.blocks, i) && i != r.value ==> IsTaken(h.blocks, i)))
  {
    var ints := Words(bytes);
    var f := Candidates(h.blocks, h.list, ints, TRIES);
    var (it, mx) := Scan(h.blocks, h.list, ints, TRIES, NO_FIT, 0);
    ScanOk(h.blocks, h.list, ints, TRIES, NO_FIT, 0);
    CandidatesAre(h, ints);
    if f != [] {
      assert Size(h.blocks[f[0]]) < NO_FIT;
      assert IsAvail(h.blocks, it) && ints <= Size(h.blocks[it]);
      CarveOk(h, it, ints);
      CarveKeeps(h, it, ints);
    }
  }

  /**
   malloc: the heap stays well formed, no block that was taken before is touched and only the
   returned one becomes taken; null exactly when no available block holds the request.
   */
  lemma MallocContract(h: Heap, bytes: nat)
    requires WellFormed(h)
    ensures var (h', r) := Malloc(h, bytes);
            && WellFormed(h') && h'.len == h.len
            && (bytes < 0x1_0000_0000 ==> Served(h, Asked(bytes), h', r))
            && (r.None? ==> h' == h)
            && (r.Some? ==>
                  && IsAvail(h.blocks, r.value) && IsTaken(h'.blocks, r.value)
                  && End(h'.blocks, r.value) <= End(h.blocks, r.value)
                  && (forall i :: IsTaken(h.blocks, i) ==> IsTaken(h'.blocks, i) && h'.blocks[i] == h.blocks[i])
                  && (forall i :: IsTaken(h'.blocks, i) && i != r.value ==> IsTaken(h.blocks, i)))
  {
    hide Served, WellFormed, Malloc, IsBest, Candidates;
    MallocWords(h, bytes);
    if bytes < 0x1_0000_0000 {
      MallocServes(h, bytes);
    }
  }

  lemma CarveKeeps(h: Heap, it: nat, ints: nat)
    requires WellFormed(h) && IsAvail(h.blocks, it) && MIN_BLOCK <= ints <= Size(h.blocks[it])
    ensures var h' := Carve(h, it, ints);
            && IsTaken(h'.blocks, it)
            && Size(h'.blocks[it]) == (var whole := Size(h.blocks[it]); if whole >= ints + MIN_BLOCK then ints else whole)
            && End(h'.blocks, it) <= End(h.blocks, it)
            && (forall i :: IsTaken(h.blocks, i) ==> IsTaken(h'.blocks, i) && h'.blocks[i] == h.blocks[i])
            && (forall i :: IsTaken(h'.blocks, i) && i != it ==> IsTaken(h.blocks, i))
  {
    if Size(h.blocks[it]) >= ints + MIN_BLOCK {
      SplitTiles(h.len, h.blocks, it, ints, Neg(ints), Size(h.blocks[it]) - ints);
    }
  }

  // ---------------------------------------------------------------------------------------
  // free
  // ---------------------------------------------------------------------------------------

  lemma FreeTaken(blocks: Blocks, blocks': Blocks, it: nat)
    requires IsTaken(blocks, it) && !IsTaken(blocks', it)
    requires forall i :: i != it ==> (IsTaken(blocks', i) <==> IsTaken(blocks, i))
    ensures |Taken(blocks')| == |Taken(blocks)| - 1
  {
    assert Taken(blocks') == Taken(blocks) - {it};
  }

  ghost predicate Freeable(h: Heap, i: nat) {
    WellFormed(h) && IsTaken(h.blocks, i) && Inner(h.len, i)
  }

  /** The neighbours of a block that is not a sentinel. */
  lemma Neighbours(h: Heap, i: nat)
    requires Freeable(h, i)
    ensures 0 < i && End(h.blocks, i) in h.blocks
    ensures var l := LeftOf(h.len, h.blocks, i); var r := End(h.blocks, i);
            && l < i < r
            && (IsAvail(h.blocks, l) ==> Inner(h.len, l) && Size(h.blocks[l]) >= MIN_BLOCK)
            && (IsAvail(h.blocks, r) ==>
                  && Inner(h.len, r) && Size(h.blocks[r]) >= MIN_BLOCK
                  && End(h.blocks, r) in h.blocks && IsTaken(h.blocks, End(h.blocks, r)))
  {
    var l := LeftOf(h.len, h.blocks, i);
    var r := End(h.blocks, i);
    assert Followed(h.len, h.blocks, i);
    assert Apart(h.blocks, i, h.len - 2) && Apart(h.blocks, h.len - 2, i);
    if IsAvail(h.blocks, l) { AvailIsInner(h, l); }
    if IsAvail(h.blocks, r) { AvailIsInner(h, r); }
  }

  /** Where the block that free makes begins. */
  ghost function StartOf(h: Heap, i: nat): nat
    requires Tiles(h.len, h.blocks) && i in h.blocks && 0 < i
  {
    var l := LeftOf(h.len, h.blocks, i);
    if IsAvail(h.blocks, l) then l else i
  }

  /** Headers that disappear into the new block. */
  ghost predicate Swallowed(h: Heap, i: nat, x: nat)
    requires Tiles(h.len, h.blocks) && i in h.blocks && 0 < i
  {
    x != StartOf(h, i) && (x == i || (x == End(h.blocks, i) && IsAvail(h.blocks, x)))
  }

  lemma FreeTiles(h: Heap, i: nat)
    requires Freeable(h, i)
    ensures var h' := Free(h, i); var start := StartOf(h, i); var r := End(h.blocks, i);
            && Tiles(h.len, h'.blocks)
            && (forall x :: x in h'.blocks <==> x in h.blocks && !Swallowed(h, i, x))
            && (forall x :: x in h'.blocks && x != start ==> h'.blocks[x] == h.blocks[x])
            && IsAvail(h'.blocks, start) && h'.blocks[start] >= MIN_BLOCK
            && End(h'.blocks, start) == if IsAvail(h.blocks, r) then End(h.blocks, r) else r
  {
    FreeTiling(h, i);
    Neighbours(h, i);
    if IsAvail(h.blocks, LeftOf(h.len, h.blocks, i)) {
      FreeBothSides(h, i);
    } else {
      FreeRightSide(h, i);
    }
    hide WellFormed, Tiles, Free;
  }

  /** The block after free when the left neighbour is taken. */
  lemma FreeRightSide(h: Heap, i: nat)
    requires Freeable(h, i) && !IsAvail(h.blocks, LeftOf(h.len, h.blocks, i))
    ensures var b := Free(h, i).blocks; var r := End(h.blocks, i);
            && (forall x :: x in b <==> x in h.blocks && (x == r ==> !IsAvail(h.blocks, r)))
            && (forall x :: x in b && x != i ==> b[x] == h.blocks[x])
            && i in b && b[i] >= MIN_BLOCK
            && End(b, i) == if IsAvail(h.blocks, r) then End(h.blocks, r) else r
  {
    Neighbours(h, i);
    hide Tiles, Sentinels, Coalesced, ListOk, Taken;
  }

  /** The block after free when the left neighbour is available. */
  lemma FreeBothSides(h: Heap, i: nat)
    requires Freeable(h, i) && IsAvail(h.blocks, LeftOf(h.len, h.blocks, i))
    ensures var b := Free(h, i).blocks; var r := End(h.blocks, i); var l := LeftOf(h.len, h.blocks, i);
            && (forall x :: x in b <==> x in h.blocks && x != i && (x == r ==> !IsAvail(h.blocks, r)))
            && (forall x :: x in b && x != l ==> b[x] == h.blocks[x])
            && l in b && b[l] >= MIN_BLOCK
            && End(b, l) == if IsAvail(h.blocks, r) then End(h.blocks, r) else r
  {
    Neighbours(h, i);
    hide Tiles, Sentinels, Coalesced, ListOk, Taken;
  }

  lemma FreeTiling(h: Heap, i: nat)
    requires Freeable(h, i)
    ensures Tiles(h.len, Free(h, i).blocks)
  {
    Neighbours(h, i);
    var l := LeftOf(h.len, h.blocks, i);
    var r := End(h.blocks, i);
    var b0 := h.blocks[i := Size(h.blocks[i])];
    RetagTiles(h.len, h.blocks, i, Size(h.blocks[i]));
    if IsAvail(h.blocks, r) { JoinTiles(h.len, b0, i); }
    var b1 := if IsAvail(h.blocks, r) then JoinRight(b0, i) else b0;
    if IsAvail(h.blocks, l) { JoinTiles(h.len, b1, l); }
    hide Tiles;
  }

  lemma FreeCoalesced(h: Heap, i: nat)
    requires Freeable(h, i)
    ensures Coalesced(Free(h, i).blocks)
  {
    FreeTiles(h, i);
    Neighbours(h, i);
    var h' := Free(h, i);
    var start := StartOf(h, i);
    var l := LeftOf(h.len, h.blocks, i);
    hide Free, LeftOf;
    forall x | x in h'.blocks
      ensures Lonely(h'.blocks, x)
    {
      assert Lonely(h.blocks, x);
      assert Apart(h.blocks, x, l) && Apart(h.blocks, l, x);
      assert Apart(h'.blocks, x, start) && Apart(h'.blocks, start, x);
    }
  }

  lemma FreeList(h: Heap, i: nat)
    requires Freeable(h, i)
    ensures ListOk(Free(h, i).blocks, Free(h, i).list)
  {
    FreeTiles(h, i);
    Neighbours(h, i);
    var h' := Free(h, i);
    var l := LeftOf(h.len, h.blocks, i);
    var r := End(h.blocks, i);
    WithoutOk(h.list, l);
    WithoutOk(h.list, r);
    WithoutOk(Without(h.list, l), r);
    var rest := if IsAvail(h.blocks, l) then Without(Without(h.list, l), r) else Without(h.list, r);
    assert h'.list == [StartOf(h, i)] + rest;
    assert forall x :: x in rest <==> IsAvail(h.blocks, x) && x != StartOf(h, i) && x != r;
    hide Free, LeftOf, Tiles;
    FreeListed(h, h', i, rest);
  }

  lemma FreeListed(h: Heap, h': Heap, i: nat, rest: seq<nat>)
    requires Freeable(h, i) && Distinct(rest) && h'.list == [StartOf(h, i)] + rest
    requires forall x :: x in rest <==> IsAvail(h.blocks, x) && x != StartOf(h, i) && x != End(h.blocks, i)
    requires IsAvail(h'.blocks, StartOf(h, i))
    requires forall x :: x in h'.blocks <==> x in h.blocks && !Swallowed(h, i, x)
    requires forall x :: x in h'.blocks && x != StartOf(h, i) ==> h'.blocks[x] == h.blocks[x]
    ensures ListOk(h'.blocks, h'.list)
  {
    PushDistinct(StartOf(h, i), rest);
    hide Tiles, Sentinels, BigEnough, Coalesced, Taken, LeftOf;
    forall x
      ensures x in h'.list <==> IsAvail(h'.blocks, x)
    {
    }
  }

  lemma PushDistinct(x: nat, list: seq<nat>)
    requires Distinct(list) && x !in list
    ensures Distinct([x] + list)
  {
    var w := [x] + list;
    forall j, k | 0 <= j < k < |w|
      ensures w[j] != w[k]
    {
      assert w[k] == list[k - 1] && list[k - 1] in list;
      assert j > 0 ==> w[j] == list[j - 1];
    }
  }

  /** Freeing a live block keeps the heap well formed and touches no other live block. */
  lemma FreeContract(h: Heap, i: nat)
    requires Freeable(h, i)
    ensures var h' := Free(h, i);
            && WellFormed(h') && h'.len == h.len
            && (forall x :: IsTaken(h'.blocks, x) <==> IsTaken(h.blocks, x) && x != i)
            && (forall x :: IsTaken(h'.blocks, x) ==> h'.blocks[x] == h.blocks[x])
  {
    FreeTiles(h, i);
    FreeCoalesced(h, i);
    FreeList(h, i);
    var h' := Free(h, i);
    assert h'.count == h.count - 1 && h'.len == h.len;
    hide Free, LeftOf, Coalesced, ListOk, Tiles;
    FreeBounds(h, h', i);
    FreeTakenIff(h, h', i);
    hide Swallowed, StartOf, Sentinels, BigEnough;
    FreeTaken(h.blocks, h'.blocks, i);
  }

  lemma FreeBounds(h: Heap, h': Heap, i: nat)
    requires Freeable(h, i) && h'.len == h.len
    requires IsAvail(h'.blocks, StartOf(h, i)) && h'.blocks[StartOf(h, i)] >= MIN_BLOCK
    requires forall x :: x in h'.blocks <==> x in h.blocks && !Swallowed(h, i, x)
    requires forall x :: x in h'.blocks && x != StartOf(h, i) ==> h'.blocks[x] == h.blocks[x]
    ensures Sentinels(h.len, h'.blocks) && BigEnough(h.len, h'.blocks)
    ensures forall x :: IsTaken(h'.blocks, x) ==> h'.blocks[x] == h.blocks[x]
  {
    hide Tiles, Coalesced, ListOk, Taken;
  }

  lemma FreeTakenIff(h: Heap, h': Heap, i: nat)
    requires Freeable(h, i) && IsAvail(h'.blocks, StartOf(h, i))
    requires forall x :: x in h'.blocks <==> x in h.blocks && !Swallowed(h, i, x)
    requires forall x :: x in h'.blocks && x != StartOf(h, i) ==> h'.blocks[x] == h.blocks[x]
    ensures forall x :: IsTaken(h'.blocks, x) <==> IsTaken(h.blocks, x) && x != i
  {
    hide Tiles, Sentinels, BigEnough, Coalesced, ListOk, Taken;
    forall x
      ensures IsTaken(h'.blocks, x) <==> IsTaken(h.blocks, x) && x != i
    {
    }
  }

  // ---------------------------------------------------------------------------------------
  // Main results
  // ---------------------------------------------------------------------------------------

  lemma InitOk(len: nat)
    requires 8 <= len < NO_FIT
    ensures WellFormed(InitHeap(len))
  {
    var h := InitHeap(len);
    assert Taken(h.blocks) == {0, len - 2};
    forall i | i in h.blocks
      ensures Followed(len, h.blocks, i) && Lonely(h.blocks, i)
    {
    }
    forall i, j | i in h.blocks && j in h.blocks
      ensures Apart(h.blocks, i, j)
    {
    }
  }

  /** free undoes malloc: the array is tiled as before. */
  lemma FreeUndoesMalloc(h: Heap, bytes: nat)
    requires WellFormed(h) && Malloc(h, bytes).1.Some?
    ensures var (h1, r) := Malloc(h, bytes);
            && Freeable(h1, r.value)
            && Free(h1, r.value).blocks == h.blocks && Free(h1, r.value).count == h.count
  {
    MallocWords(h, bytes);
    var it := Malloc(h, bytes).1.value;
    assert Words(bytes) <= Size(h.blocks[it]) by { CandidatesAre(h, Words(bytes)); }
    hide WellFormed, Free, Carve;
    FreeUndoesCarve(h, it, Words(bytes));
  }

  lemma FreeUndoesCarve(h: Heap, it: nat, ints: nat)
    requires WellFormed(h) && IsAvail(h.blocks, it) && MIN_BLOCK <= ints <= Size(h.blocks[it])
    ensures var h1 := Carve(h, it, ints);
            Freeable(h1, it) && Free(h1, it).blocks == h.blocks && Free(h1, it).count == h.count
  {
    hide WellFormed, Tiles, Free, Carve, LeftOf, StartOf, Freeable, Swallowed;
    var h1 := Carve(h, it, ints);
    CarvedFreeable(h, it, ints);
    CarveNeighbour(h, it, ints);
    FreeTiles(h1, it);
    NotSwallowed(h1, it);
    var b := Free(h1, it).blocks;
    assert forall x :: x in b <==> x in h.blocks;
    assert b == h.blocks;
  }

  lemma CarvedFreeable(h: Heap, it: nat, ints: nat)
    requires WellFormed(h) && IsAvail(h.blocks, it) && MIN_BLOCK <= ints <= Size(h.blocks[it])
    ensures var h1 := Carve(h, it, ints);
            && Freeable(h1, it) && Tiles(h1.len, h1.blocks) && it in h1.blocks && 0 < it
            && StartOf(h1, it) == it && Free(h1, it).count == h.count
  {
    var h1 := Carve(h, it, ints);
    CarveOk(h, it, ints);
    CarveKeeps(h, it, ints);
    AvailIsInner(h, it);
    assert Freeable(h1, it);
    LeftStaysTaken(h, h1, it, LeftOf(h1.len, h1.blocks, it), ints);
  }

  lemma NotSwallowed(h: Heap, i: nat)
    requires Freeable(h, i) && StartOf(h, i) == i
    ensures i in h.blocks && forall x :: Swallowed(h, i, x) <==> x == End(h.blocks, i) && x != i && IsAvail(h.blocks, x)
  {
  }

  /** What lies to the right of the block malloc returned. */
  lemma CarveNeighbour(h: Heap, it: nat, ints: nat)
    requires WellFormed(h) && IsAvail(h.blocks, it) && MIN_BLOCK <= ints <= Size(h.blocks[it])
    ensures var h1 := Carve(h, it, ints); var r := End(h1.blocks, it);
            && (forall x :: x in h1.blocks <==> x in h.blocks || (x == r && r < End(h.blocks, it)))
            && (forall x :: x in h.blocks && x != it ==> h1.blocks[x] == h.blocks[x])
            && r <= End(h.blocks, it)
            && (if r < End(h.blocks, it) then IsAvail(h1.blocks, r) && End(h1.blocks, r) == End(h.blocks, it) && r !in h.blocks
                else !IsAvail(h1.blocks, r))
  {
    AvailIsInner(h, it);
    if Size(h.blocks[it]) >= ints + MIN_BLOCK {
      SplitTiles(h.len, h.blocks, it, ints, Neg(ints), Size(h.blocks[it]) - ints);
    }
  }

  lemma LeftStaysTaken(h: Heap, h1: Heap, it: nat, l: nat, ints: nat)
    requires WellFormed(h) && IsAvail(h.blocks, it) && MIN_BLOCK <= ints <= Size(h.blocks[it])
    requires h1 == Carve(h, it, ints) && l in h1.blocks && End(h1.blocks, l) == it
    ensures !IsAvail(h1.blocks, l)
  {
    CarveNeighbour(h, it, ints);
    if l in h.blocks {
      assert Lonely(h.blocks, l);
    }
  }

  /** The blocks of two live requests do not overlap. */
  lemma LiveBlocksDisjoint(h: Heap, i: nat, j: nat)
    requires WellFormed(h) && IsTaken(h.blocks, i) && IsTaken(h.blocks, j) && i != j
    ensures End(h.blocks, i) <= j || End(h.blocks, j) <= i
  {
    assert Apart(h.blocks, i, j) && Apart(h.blocks, j, i);
  }

  datatype Op = MallocOp(bytes: nat) | FreeOp(header: nat)

  /** One call; None is the panic on freeing what is not a live block. */
  ghost function Step(h: Heap, op: Op): Option<Heap> {
    match op
    case MallocOp(bytes) => if bytes == 0 then Some(h) else Some(Malloc(h, bytes).0)
    case FreeOp(i) => if Freeable(h, i) then Some(Free(h, i)) else None
  }

  ghost function Run(h: Heap, ops: seq<Op>): Option<Heap>
    decreases |ops|
  {
    if ops == [] then Some(h)
    else
      var h1 :- Step(h, ops[0]);
      Run(h1, ops[1..])
  }

  /** Every sequence of malloc and free calls leaves the heap well formed. */
  lemma {:induction false} RunOk(h: Heap, ops: seq<Op>)
    requires WellFormed(h) && Run(h, ops).Some?
    ensures WellFormed(Run(h, ops).value)
    decreases |ops|
  {
    if ops != [] {
      match ops[0] {
        case MallocOp(bytes) => MallocContract(h, bytes);
        case FreeOp(i) => FreeContract(h, i);
      }
      hide WellFormed, Malloc, Free;
      RunOk(Step(h, ops[0]).value, ops[1..]);
    }
  }
}
