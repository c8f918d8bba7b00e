/** The virtual memory map of a process (kernel/memory_mapping.cc), an interval index over a tree. */
module MemoryMapping {
  import opened BitTree
  import opened BitTreeMachine
  import opened BitTreeRuns
  import opened Bounds
  import opened Modular
  import opened Wrappers

  datatype Region = Region(start: nat, size: nat)

  const EINVAL := 22
  const ENOMEM := 12

  /** -1 * e as the callers see it, a 32-bit word. */
  function Failure(e: nat): nat
    requires 0 < e <= WORD
  {
    WORD - e
  }

  const SHAPE := Shape(4, USER_MEM_START, FRAME_SIZE)

  // ---------------------------------------------------------------------------------------
  // Mappings as a finite map from page slots
  // ---------------------------------------------------------------------------------------

  type Regions = map<nat, Region>

  function SlotOf(address: nat): nat
    requires USER_MEM_START <= address
  {
    (address - USER_MEM_START) / FRAME_SIZE
  }

  /** A mapping of whole pages, filed under its first page. */
  ghost predicate Placed(k: nat, r: Region) {
    && r.start == USER_MEM_START + k * FRAME_SIZE
    && 0 < r.size && r.size % FRAME_SIZE == 0 && r.start + r.size <= SHARED_ADDRESS
  }

  ghost predicate Regular(m: Regions) {
    forall k :: k in m ==> Placed(k, m[k])
  }

  ghost predicate Apart(r: Region, s: Region) {
    r.start + r.size <= s.start || s.start + s.size <= r.start
  }

  ghost predicate Disjoint(m: Regions) {
    forall j, k :: j in m && k in m && j != k ==> Apart(m[j], m[k])
  }

  ghost predicate Covers(r: Region, address: nat) {
    r.start <= address < r.start + r.size
  }

  ghost predicate Mapped(m: Regions, address: nat) {
    exists k :: k in m && Covers(m[k], address)
  }

  /** A free page-aligned range below the shared page. */
  ghost predicate Fits(m: Regions, size: nat, p: nat) {
    && p % FRAME_SIZE == 0 && USER_MEM_START <= p && p + size <= SHARED_ADDRESS
    && forall k :: k in m ==> Apart(Region(p, size), m[k])
  }

  ghost predicate LowestFit(m: Regions, size: nat, p: nat) {
    Fits(m, size, p) && forall q :: Fits(m, size, q) ==> p <= q
  }

  ghost predicate NoFit(m: Regions, size: nat) {
    forall q :: !Fits(m, size, q)
  }

  // ---------------------------------------------------------------------------------------
  // Slots
  // ---------------------------------------------------------------------------------------

  lemma PowFour()
    ensures Pow32(4) == 0x10_0000
  {
    assert Pow32(0) == 1;
    assert Pow32(1) == 32;
    assert Pow32(2) == 1024;
    assert Pow32(3) == 32768;
  }

  lemma AdjustOk(address: nat)
    requires address < WORD
    ensures AdjustIndex(SHAPE, address) == if address < USER_MEM_START then None else Some(SlotOf(address))
  {
    PowFour();
  }

  lemma SlotStart(k: nat)
    ensures SlotOf(USER_MEM_START + k * FRAME_SIZE) == k
  {
    Unique(k * FRAME_SIZE, FRAME_SIZE, k, 0);
  }

  /** The slots not above the slot of an address are the ones that start not above it. */
  lemma SlotOrder(k: nat, address: nat)
    requires USER_MEM_START <= address
    ensures k <= SlotOf(address) <==> USER_MEM_START + k * FRAME_SIZE <= address
  {
  }

  // ---------------------------------------------------------------------------------------
  // check_address and unmap
  // ---------------------------------------------------------------------------------------

  /** The floor entry covers the address exactly when some mapping does. */
  lemma FloorFindsCover(m: Regions, address: nat, r: Option<Region>)
    requires Regular(m) && Disjoint(m) && USER_MEM_START <= address && NearIs(m, SlotOf(address), true, r)
    ensures Mapped(m, address) <==> r.Some? && Covers(r.value, address)
    ensures r.Some? ==> SlotOf(r.value.start) in m && m[SlotOf(r.value.start)] == r.value && r.value.start <= address
  {
    var s := SlotOf(address);
    if r.Some? {
      var j :| IsNearest(m, s, true, j) && m[j] == r.value;
      assert Placed(j, m[j]);
      SlotStart(j);
      SlotOrder(j, address);
      forall k | k in m && Covers(m[k], address)
        ensures k == j
      {
        assert Placed(k, m[k]);
        SlotOrder(k, address);
      }
    }
    forall k | k in m && Covers(m[k], address)
      ensures r.Some?
    {
      assert Placed(k, m[k]);
      SlotOrder(k, address);
    }
  }

  lemma BelowUser(m: Regions, address: nat)
    requires Regular(m) && address < USER_MEM_START
    ensures !Mapped(m, address)
  {
    forall k | k in m
      ensures !Covers(m[k], address)
    {
      assert Placed(k, m[k]);
    }
  }

  // ---------------------------------------------------------------------------------------
  // Automatic placement
  // ---------------------------------------------------------------------------------------

  /** Where the search stands: nothing below `page` fits, and no mapping straddles it. */
  ghost predicate Searched(m: Regions, size: nat, page: nat) {
    && page % FRAME_SIZE == 0 && USER_MEM_START <= page <= SHARED_ADDRESS
    && (forall q :: Fits(m, size, q) ==> page <= q)
    && (forall k :: k in m && m[k].start < page ==> m[k].start + m[k].size <= page)
  }

  lemma SearchStart(m: Regions, size: nat)
    requires Regular(m)
    ensures Searched(m, size, USER_MEM_START)
  {
    forall k | k in m
      ensures m[k].start >= USER_MEM_START
    {
      assert Placed(k, m[k]);
    }
  }

  /** The ceiling entry starts first among the mappings not below the page. */
  lemma CeilStart(m: Regions, page: nat, r: Option<Region>)
    requires Regular(m) && page % FRAME_SIZE == 0 && USER_MEM_START <= page && NearIs(m, SlotOf(page), false, r)
    ensures forall k :: k in m && page <= m[k].start ==> r.Some? && r.value.start <= m[k].start
    ensures r.Some? ==> page <= r.value.start && exists j :: j in m && m[j] == r.value
  {
    var s := SlotOf(page);
    assert USER_MEM_START + s * FRAME_SIZE == page;
    forall k | k in m && page <= m[k].start
      ensures r.Some? && r.value.start <= m[k].start
    {
      assert Placed(k, m[k]);
      if r.Some? {
        var j :| IsNearest(m, s, false, j) && m[j] == r.value;
        assert Placed(j, m[j]);
      }
    }
    if r.Some? {
      var j :| IsNearest(m, s, false, j) && m[j] == r.value;
      assert Placed(j, m[j]);
    }
  }

  /** The page is free when the next mapping is far enough. */
  lemma SearchHit(m: Regions, size: nat, page: nat, r: Option<Region>)
    requires Regular(m) && Searched(m, size, page) && NearIs(m, SlotOf(page), false, r)
    requires page + size <= SHARED_ADDRESS && (r.Some? ==> page + size <= r.value.start)
    ensures LowestFit(m, size, page)
  {
    CeilStart(m, page, r);
  }

  /** Otherwise the search goes on behind that mapping. */
  lemma SearchOn(m: Regions, size: nat, page: nat, r: Region)
    requires Regular(m) && Disjoint(m) && Searched(m, size, page) && NearIs(m, SlotOf(page), false, Some(r))
    requires r.start < page + size
    ensures Searched(m, size, r.start + r.size) && page < r.start + r.size
  {
    CeilStart(m, page, Some(r));
    var j :| j in m && m[j] == r;
    assert Placed(j, m[j]);
    forall k | k in m && m[k].start < r.start + r.size
      ensures m[k].start + m[k].size <= r.start + r.size
    {
      assert k != j ==> Apart(m[j], m[k]);
      assert Placed(k, m[k]);
    }
    forall q | Fits(m, size, q)
      ensures r.start + r.size <= q
    {
      assert Apart(Region(q, size), m[j]);
    }
    AlignedEnd(j, r);
  }

  lemma AlignedEnd(k: nat, r: Region)
    requires Placed(k, r)
    ensures (r.start + r.size) % FRAME_SIZE == 0
  {
    var c := r.size / FRAME_SIZE;
    assert r.size == c * FRAME_SIZE;
    assert USER_MEM_START == 0x8_0000 * FRAME_SIZE;
    assert r.start + r.size == (0x8_0000 + k + c) * FRAME_SIZE;
  }

  /** Nothing fits when the search passes the end. */
  lemma SearchMiss(m: Regions, size: nat, page: nat)
    requires Searched(m, size, page) && page + size > SHARED_ADDRESS
    ensures NoFit(m, size)
  {
  }

  lemma SlotFree(m: Regions, p: nat)
    requires Regular(m) && USER_MEM_START <= p && p % FRAME_SIZE == 0 && forall k :: k in m ==> !Covers(m[k], p)
    ensures SlotOf(p) !in m
  {
    assert USER_MEM_START + SlotOf(p) * FRAME_SIZE == p;
    forall k | k in m
      ensures k != SlotOf(p)
    {
      assert Placed(k, m[k]) && !Covers(m[k], p);
    }
  }

  /** A mapping placed on a free range keeps the map in order. */
  lemma InsertKeeps(m: Regions, size: nat, p: nat)
    requires Regular(m) && Disjoint(m) && Fits(m, size, p) && 0 < size && size % FRAME_SIZE == 0
    ensures SlotOf(p) !in m
    ensures Regular(m[SlotOf(p) := Region(p, size)]) && Disjoint(m[SlotOf(p) := Region(p, size)])
  {
    var k := SlotOf(p);
    assert USER_MEM_START + k * FRAME_SIZE == p;
    forall j | j in m
      ensures !Covers(m[j], p)
    {
      assert Placed(j, m[j]) && Apart(Region(p, size), m[j]);
    }
    SlotFree(m, p);
  }

  // ---------------------------------------------------------------------------------------
  // Fixed placement
  // ---------------------------------------------------------------------------------------

  /** No mapping starts strictly inside the range. */
  ghost predicate NoneInside(m: Regions, start: nat, size: nat) {
    forall k :: k in m ==> !(start < m[k].start < start + size)
  }

  /**
   Probing the first and the last byte of a fixed range keeps the mappings disjoint exactly when
   no mapping lies between the two.
   */
  lemma FixedMapDisjointIff(m: Regions, start: nat, size: nat)
    requires Regular(m) && Disjoint(m) && USER_MEM_START <= start && 0 < size && start % FRAME_SIZE == 0
    requires !Mapped(m, start) && !Mapped(m, start + size - 1)
    ensures SlotOf(start) !in m
    ensures Disjoint(m[SlotOf(start) := Region(start, size)]) <==> NoneInside(m, start, size)
  {
    var s := SlotOf(start);
    assert USER_MEM_START + s * FRAME_SIZE == start;
    SlotFree(m, start);
    var m' := m[s := Region(start, size)];
    forall k | k in m
      ensures Apart(Region(start, size), m[k]) <==> !(start < m[k].start < start + size)
    {
      assert Placed(k, m[k]);
      assert !Covers(m[k], start) && !Covers(m[k], start + size - 1);
    }
    if Disjoint(m') {
      forall k | k in m
        ensures !(start < m[k].start < start + size)
      {
        assert k != s ==> Apart(m'[s], m'[k]);
      }
    }
  }

  /** One page mapped between two free ones: the fixed map of all three is accepted and overlaps. */
  lemma FixedMapOverlaps()
    ensures var m: Regions := map[1 := Region(USER_MEM_START + FRAME_SIZE, FRAME_SIZE)];
            && Regular(m) && Disjoint(m)
            && !Mapped(m, USER_MEM_START) && !Mapped(m, USER_MEM_START + 3 * FRAME_SIZE - 1)
            && !Disjoint(m[0 := Region(USER_MEM_START, 3 * FRAME_SIZE)])
  {
    var m: Regions := map[1 := Region(USER_MEM_START + FRAME_SIZE, FRAME_SIZE)];
    var m' := m[0 := Region(USER_MEM_START, 3 * FRAME_SIZE)];
    assert 0 in m' && 1 in m' && !Apart(m'[0], m'[1]);
  }

  // ---------------------------------------------------------------------------------------
  // The object
  // ---------------------------------------------------------------------------------------

  class MemoryMap {
    const tree: TreeHeap<Region>
    const root: nat

    ghost predicate Valid()
      reads this, tree
    {
      tree.Valid() && tree.shape == SHAPE && root in tree.maps
    }

    /** The mappings of this process. */
    ghost function Entries(): Regions
      requires Valid()
      reads this, tree
    {
      tree.maps[root]
    }

    ghost predicate InOrder()
      requires Valid()
      reads this, tree
    {
      Regular(Entries()) && Disjoint(Entries())
    }

    constructor (tree: TreeHeap<Region>, root: nat)
      requires tree.Valid() && tree.shape == SHAPE && root in tree.maps
      ensures Valid() && this.tree == tree && this.root == root
    {
      this.tree := tree;
      this.root := root;
    }

    /** check_address, without reading file contents: the linear scan for a covering mapping. */
    method CheckAddress(address: nat) returns (mapped: bool)
      requires Valid() && InOrder() && address < WORD
      ensures mapped <==> Mapped(Entries(), address)
    {
      AdjustOk(address);
      var entry := tree.Nearest(root, address, true);
      mapped := entry.Some? && address < entry.value.start + entry.value.size;
      if address < USER_MEM_START {
        BelowUser(Entries(), address);
      } else {
        FloorFindsCover(Entries(), address, entry);
      }
    }

    /** The search of map for start 0: the lowest range that fits, 0 exactly when there is none. */
    method FindRange(size: nat) returns (start: nat)
      requires Valid() && InOrder() && 0 < size < WORD && size % FRAME_SIZE == 0
      ensures start == 0 <==> NoFit(Entries(), size)
      ensures start != 0 ==> LowestFit(Entries(), size, start)
    {
      start := 0;
      var page := USER_MEM_START;
      SearchStart(Entries(), size);
      while page + size < WORD && page + size <= SHARED_ADDRESS
        invariant Searched(Entries(), size, page)
        decreases SHARED_ADDRESS - page
      {
        AdjustOk(page);
        var entry := tree.Nearest(root, page, false);
        if entry.None? || page + size <= entry.value.start {
          SearchHit(Entries(), size, page, entry);
          return page;
        }
        SearchOn(Entries(), size, page, entry.value);
        page := entry.value.start + entry.value.size;
      }
      SearchMiss(Entries(), size, page);
    }

    /** map: the start of the new mapping or an error word. */
    method Map(start: nat, size: nat) returns (r: nat)
      requires Valid() && InOrder() && start < WORD && size < WORD
      modifies tree
      ensures Valid()
      ensures size == 0 || start % FRAME_SIZE != 0 || size % FRAME_SIZE != 0 ==> r == Failure(EINVAL)
      ensures r == Failure(EINVAL) || r == Failure(ENOMEM) ==> tree.maps == old(tree.maps)
      ensures r != Failure(EINVAL) && r != Failure(ENOMEM) ==>
                USER_MEM_START <= r && tree.maps == old(tree.maps)[root := old(Entries())[SlotOf(r) := Region(r, size)]]
      ensures start == 0 && 0 < size && size % FRAME_SIZE == 0 ==>
                if r == Failure(ENOMEM) then NoFit(old(Entries()), size)
                else LowestFit(old(Entries()), size, r) && InOrder()
      ensures start != 0 && 0 < size && size % FRAME_SIZE == 0 && start % FRAME_SIZE == 0 ==>
                if USER_MEM_START <= start && start + size <= SHARED_ADDRESS
                   && !Mapped(old(Entries()), start) && !Mapped(old(Entries()), start + size - 1)
                then r == start && (InOrder() <==> NoneInside(old(Entries()), start, size))
                else r == Failure(EINVAL)
    {
      if size == 0 || start % FRAME_SIZE != 0 || size % FRAME_SIZE != 0 {
        return Failure(EINVAL);
      }
      var at := start;
      if start != 0 {
        CheckBoundsIff(start, size, 1, USER_MEM_START, SHARED_ADDRESS + 1);
        if start < USER_MEM_START || !CheckBounds(start, size, 1, USER_MEM_START, SHARED_ADDRESS + 1) {
          return Failure(EINVAL);
        }
        var first := CheckAddress(start);
        if first { return Failure(EINVAL); }
        var last := CheckAddress(start + size - 1);
        if last { return Failure(EINVAL); }
        FixedMapDisjointIff(Entries(), start, size);
      } else {
        at := FindRange(size);
        if at == 0 { return Failure(ENOMEM); }
        InsertKeeps(Entries(), size, at);
      }
      AdjustOk(at);
      PlacedAt(at, size);
      var previous := tree.EditTree(root, at, Insert(Region(at, size)));
      return at;
    }

    /** unmap: the mapping that covers the address goes, if there is one. */
    method Unmap(address: nat) returns (gone: Option<Region>)
      requires Valid() && InOrder() && address < WORD
      modifies tree
      ensures Valid() && InOrder()
      ensures gone.None? <==> !Mapped(old(Entries()), address)
      ensures gone.None? ==> tree.maps == old(tree.maps)
      ensures gone.Some? ==>
                && Covers(gone.value, address) && USER_MEM_START <= gone.value.start
                && SlotOf(gone.value.start) in old(Entries()) && old(Entries())[SlotOf(gone.value.start)] == gone.value
                && tree.maps == old(tree.maps)[root := old(Entries()) - {SlotOf(gone.value.start)}]
    {
      AdjustOk(address);
      var entry := tree.Nearest(root, address, true);
      if address < USER_MEM_START {
        BelowUser(Entries(), address);
      } else {
        FloorFindsCover(Entries(), address, entry);
      }
      if entry.None? || address >= entry.value.start + entry.value.size {
        return None;
      }
      AdjustOk(entry.value.start);
      var item := tree.EditTree(root, entry.value.start, Delete);
      return entry;
    }
  }

  lemma PlacedAt(p: nat, size: nat)
    requires USER_MEM_START <= p && p % FRAME_SIZE == 0 && 0 < size && size % FRAME_SIZE == 0 && p + size <= SHARED_ADDRESS
    ensures Placed(SlotOf(p), Region(p, size))
  {
    assert USER_MEM_START == 0x8_0000 * FRAME_SIZE;
  }
}
