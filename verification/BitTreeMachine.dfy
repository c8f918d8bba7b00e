/** The trees of kernel/bit_tree.h with their nodes changed in place. */
module BitTreeMachine {
  import opened BitTree
  import opened BitTreeEdit
  import opened BitTreeInvariant
  import BitTreeKeys
  import opened BitTreeRuns
  import opened BitWords
  import opened Wrappers

  /** The memory all copies of a tree live in, and the trees themselves by their roots. */
  class TreeHeap<T> {
    const shape: Shape
    var nodes: map<nat, Node>
    var items: map<nat, Item<T>>
    var next: nat
    /** The record of releases and of items given back; no branch depends on it. */
    var gone: multiset<nat>
    var handed: set<nat>
    var roots: set<nat>
    /** The finite map each tree stands for. */
    ghost var maps: Maps<T>

    function Mem(): Store<T>
      reads this
    {
      Store(nodes, items, next, gone, handed)
    }

    ghost predicate Valid()
      reads this
    {
      ShapeOk(shape) && Refines(shape, Forest(Mem(), roots), maps)
    }

    constructor (shape: Shape)
      requires ShapeOk(shape)
      ensures Valid() && this.shape == shape && roots == {} && maps == map[]
    {
      this.shape := shape;
      nodes, items, next, gone, handed, roots := map[], map[], 1, multiset{}, {}, {};
      maps := map[];
      new;
      EmptyOk<T>(shape);
      assert Forest(Mem(), roots) == EmptyForest<T>();
    }

    // -------------------------------------------------------------------------------------
    // Writes
    // -------------------------------------------------------------------------------------

    method SetPointer(n: nat, i: nat, p: nat)
      requires n in nodes && i < BITS
      modifies `nodes
      ensures Mem() == SetPtr(old(Mem()), n, i, p)
    {
      nodes := nodes[n := nodes[n].(ptrs := nodes[n].ptrs[i := p])];
    }

    method SetPresent(n: nat, i: nat, b: bool)
      requires n in nodes && i < BITS
      modifies `nodes
      ensures Mem() == SetBit(old(Mem()), n, i, b)
    {
      nodes := nodes[n := nodes[n].(bits := nodes[n].bits[i := b])];
    }

    method SetCount(n: nat, k: nat)
      requires n in nodes
      modifies `nodes
      ensures Mem() == SetRefs(old(Mem()), n, k)
    {
      nodes := nodes[n := nodes[n].(refs := k)];
    }

    method AllocNode(level: nat, bits: Word) returns (n: nat)
      modifies `nodes, `next
      ensures Mem() == NewNode(old(Mem()), level, bits) && n == old(next) && n in nodes
    {
      n := next;
      nodes := nodes[n := Node(level, 1, bits, Nulls())];
      next := next + 1;
    }

    method AllocItem(n: nat, i: nat, v: T)
      requires n in nodes && i < BITS
      modifies `nodes, `items, `next
      ensures Mem() == PutItem(old(Mem()), n, i, v)
    {
      var p := next;
      next := next + 1;
      items := items[p := Item(v, n, i)];
      SetPointer(n, i, p);
    }

    // -------------------------------------------------------------------------------------
    // Copies
    // -------------------------------------------------------------------------------------

    method CopyNode(from: nat, to: nat, last: bool)
      requires from in nodes && to in nodes
      modifies `nodes
      ensures Mem() == CopyUpTo(old(Mem()), from, to, BITS, last)
    {
      hide CopySlot;
      for i := 0 to BITS
        invariant from in nodes && to in nodes && Mem() == CopyUpTo(old(Mem()), from, to, i, last)
      {
        CopyPointer(from, to, i, last);
      }
    }

    method CopyPointer(from: nat, to: nat, i: nat, last: bool)
      requires from in nodes && to in nodes && i < BITS
      modifies `nodes
      ensures Mem() == CopySlot(old(Mem()), from, to, i, last)
    {
      var child := nodes[from].ptrs[i];
      SetPointer(to, i, child);
      if !last && child != 0 && child in nodes {
        SetCount(child, nodes[child].refs + 1);
      }
    }

    method DuplicateItems(n: nat)
      requires n in nodes
      modifies `nodes, `items, `next
      ensures n in nodes && Mem() == DupUpTo(old(Mem()), n, BITS)
    {
      for i := 0 to BITS
        invariant n in nodes && Mem() == DupUpTo(old(Mem()), n, i)
      {
        var p := nodes[n].ptrs[i];
        if p != 0 && p in items {
          AllocItem(n, i, items[p].value);
        }
      }
    }

    method OwnNode(n: nat, level: nat) returns (m: nat)
      requires n in nodes
      modifies `nodes, `items, `next
      ensures (Mem(), m) == Privatise(old(Mem()), n, level) && m in nodes
    {
      m := n;
      if nodes[n].refs > 1 {
        SetCount(n, nodes[n].refs - 1);
        m := AllocNode(level, nodes[n].bits);
        CopyNode(n, m, level == 1);
        if level == 1 {
          DuplicateItems(m);
        }
      }
    }

    // -------------------------------------------------------------------------------------
    // Release
    // -------------------------------------------------------------------------------------

    method Free(n: nat, level: nat)
      modifies `nodes, `items, `gone
      ensures Mem() == FreeNode(old(Mem()), n, level)
      decreases level, 1
    {
      if n !in nodes || nodes[n].refs == 0 { return; }
      SetCount(n, nodes[n].refs - 1);
      if nodes[n].refs > 0 { return; }
      FreeSlots(n, level);
      nodes, gone := nodes - {n}, gone + multiset{n};
    }

    /** The loop of free: every child or item of the node is released. */
    method FreeSlots(n: nat, level: nat)
      modifies `nodes, `items, `gone
      ensures Mem() == FreeUpTo(old(Mem()), n, level, BITS)
      decreases level, 0, 1
    {
      hide FreeSlot;
      for i := 0 to BITS
        invariant Mem() == FreeUpTo(old(Mem()), n, level, i)
      {
        FreeOneSlot(n, level, i);
      }
    }

    method FreeOneSlot(n: nat, level: nat, i: nat)
      requires i < BITS
      modifies `nodes, `items, `gone
      ensures Mem() == FreeSlot(old(Mem()), n, level, i)
      decreases level, 0, 0
    {
      if n in nodes && nodes[n].ptrs[i] != 0 {
        var p := nodes[n].ptrs[i];
        if level <= 1 {
          items, gone := items - {p}, gone + multiset{p};
        } else {
          Free(p, level - 1);
        }
      }
    }

    // -------------------------------------------------------------------------------------
    // Edits
    // -------------------------------------------------------------------------------------

    method EditSlot(n: nat, i: nat, act: Action<T>) returns (was: Option<T>)
      requires n in nodes && i < BITS
      modifies `nodes, `items, `next, `handed
      ensures (Mem(), was) == EditLeaf(old(Mem()), n, i, act)
    {
      var p := nodes[n].ptrs[i];
      was := if p != 0 && p in items then Some(items[p].value) else None;
      if p != 0 {
        items, handed := items - {p}, handed + {p};
      }
      match act {
        case Insert(v) =>
          SetPresent(n, i, true);
          AllocItem(n, i, v);
        case Delete =>
          SetPresent(n, i, false);
          SetPointer(n, i, 0);
      }
    }

    /** get_entry_ref for an edit, with the write through the slot it finds. */
    method EditEntry(n: nat, level: nat, index: nat, act: Action<T>) returns (m: nat, was: Option<T>)
      modifies `nodes, `items, `next, `gone, `handed
      ensures (Mem(), m, was) == Edit(old(Mem()), n, level, index, act)
      decreases level
    {
      m, was := n, None;
      if level == 0 || n !in nodes { return; }
      m := OwnNode(n, level);
      var i := LevelIndex(index, level);
      if level == 1 {
        was := EditSlot(m, i, act);
        return;
      }
      if nodes[m].ptrs[i] == 0 {
        if act.Delete? { return; }
        var child := AllocNode(level - 1, Zero());
        SetPresent(m, i, true);
        SetPointer(m, i, child);
      }
      var c;
      c, was := EditEntry(nodes[m].ptrs[i], level - 1, index, act);
      if m !in nodes || c !in nodes { return; }
      SetPointer(m, i, c);
      if act.Delete? && IsZero(nodes[c].bits) {
        SetPresent(m, i, false);
        Free(c, level - 1);
        if m in nodes {
          SetPointer(m, i, 0);
        }
      }
    }

    // -------------------------------------------------------------------------------------
    // The interface
    // -------------------------------------------------------------------------------------

    method Create() returns (root: nat)
      requires Valid()
      modifies this
      ensures Valid() && root !in old(maps) && maps == old(maps)[root := map[]]
    {
      ghost var f := Forest(Mem(), roots);
      StepRefines(shape, f, maps, NewTree);
      FreshRoot(shape, f, maps);
      root := AllocNode(shape.levels, Zero());
      roots := roots + {root};
      maps := maps[root := map[]];
    }

    /** Copy construction: a tree of its own with the same entries. */
    method CopyOfTree(other: nat) returns (root: nat)
      requires Valid() && other in maps
      modifies this
      ensures Valid() && root !in old(maps) && maps == old(maps)[root := old(maps)[other]]
    {
      ghost var f := Forest(Mem(), roots);
      CopyOfOk(shape, f, maps, other);
      FreshRoot(shape, f, maps);
      root := AllocNode(shape.levels, nodes[other].bits);
      CopyNode(other, root, false);
      roots := roots + {root};
      maps := maps[root := maps[other]];
    }

    method DestroyTree(root: nat)
      requires Valid() && root in maps
      modifies this
      ensures Valid() && maps == old(maps) - {root}
      ensures maps == map[] ==> nodes == map[] && items == map[]
      ensures maps == map[] ==> forall x: nat :: 0 < x < next ==> gone[x] == if x in handed then 0 else 1
    {
      DestroyOk(shape, Forest(Mem(), roots), maps, root);
      Free(root, shape.levels);
      roots := roots - {root};
      maps := maps - {root};
      if maps == map[] {
        AllReleased(shape, Forest(Mem(), roots), maps);
      }
    }

    /** insert and remove: the entry changes in this tree, the others stay as they are. */
    method EditTree(root: nat, index: nat, act: Action<T>) returns (was: Option<T>)
      requires Valid() && root in maps
      modifies this
      ensures Valid() && maps == old(maps)[root := MapEdit(shape, old(maps)[root], index, act)]
      ensures was == (match AdjustIndex(shape, index) case None => None case Some(k) => Get(old(maps)[root], k))
    {
      ghost var f := Forest(Mem(), roots);
      EditAtOk(shape, f, maps, root, index, act);
      was := None;
      match AdjustIndex(shape, index) {
        case None =>
          assert maps[root := maps[root]] == maps;
        case Some(k) =>
          EditWas(shape, f, maps, root, k, act);
          var m;
          m, was := EditEntry(root, shape.levels, k, act);
      }
      maps := maps[root := MapEdit(shape, maps[root], index, act)];
    }

    method Lookup(root: nat, index: nat) returns (r: Option<T>)
      requires Valid() && root in maps
      ensures r == match AdjustIndex(shape, index) case None => None case Some(k) => Get(maps[root], k)
    {
      r := LookupExact(shape, Forest(Mem(), roots), root, index);
      LookupExactOk(shape, Forest(Mem(), roots), maps, root, index);
    }

    /** lookup_floor and lookup_ceil: the nearest entry, or none exactly when there is none. */
    method Nearest(root: nat, index: nat, floor: bool) returns (r: Option<T>)
      requires Valid() && root in maps
      ensures match AdjustIndex(shape, index)
              case None => r == None
              case Some(k) => NearIs(maps[root], k, floor, r)
    {
      r := LookupNear(shape, Forest(Mem(), roots), root, index, floor);
      LookupNearOk(shape, Forest(Mem(), roots), maps, root, index, floor);
    }
  }

  lemma FreshRoot<T>(sh: Shape, f: Forest<T>, a: Maps<T>)
    requires Refines(sh, f, a)
    ensures f.st.next !in a
  {
    assert f.st.next in a ==> TreeIs(f.st, f.st.next, sh.levels, a[f.st.next]);
    assert f.st.next in f.st.nodes ==> NodeOk(f.st, f.st.next);
  }

  lemma EditWas<T>(sh: Shape, f: Forest<T>, a: Maps<T>, root: nat, k: nat, act: Action<T>)
    requires ShapeOk(sh) && Refines(sh, f, a) && root in f.roots && k < Pow32(sh.levels)
    ensures root in a && Edit(f.st, root, sh.levels, k, act).2 == Get(a[root], k)
  {
    assert root in a && TreeIs(f.st, root, sh.levels, a[root]);
    RootsSplit(f.roots, root);
    EditOk(f.st, root, sh.levels, k, act, multiset(f.roots - {root}), {});
    hide Inv, Kept, Edit, Pow32;
    BitTreeKeys.RemSmall(k, sh.levels);
  }
}
