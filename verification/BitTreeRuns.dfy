/**
 Runs of trees that share nodes: every tree is a finite map of its own, whatever happens to the
 others, and nothing is left when the last one is gone.
 */
module BitTreeRuns {
  import opened BitTree
  import opened BitTreeCopy
  import opened BitTreeEdit
  import opened BitTreeInvariant
  import opened BitTreeKeys
  import opened BitTreeQuery
  import opened BitTreeRelease
  import opened BitTreeSteps
  import opened BitWords
  import opened Wrappers

  /** The template parameters of the source. */
  datatype Shape = Shape(levels: nat, offset: nat, divisor: nat)

  ghost predicate ShapeOk(sh: Shape) {
    2 <= sh.levels <= 6 && 0 < sh.divisor
  }

  /** adjust_index */
  function AdjustIndex(sh: Shape, index: nat): Option<nat>
    requires sh.divisor > 0
  {
    if index < sh.offset then None
    else
      var k := (index - sh.offset) / sh.divisor;
      if k < Pow32(sh.levels) then Some(k) else None
  }

  datatype Forest<T> = Forest(st: Store<T>, roots: set<nat>)

  datatype Op<T> =
    | NewTree
    | CopyOf(root: nat)
    | InsertAt(root: nat, index: nat, value: T)
    | RemoveAt(root: nat, index: nat)
    | Destroy(root: nat)

  function EditAt<T>(sh: Shape, f: Forest<T>, root: nat, index: nat, act: Action<T>): Forest<T>
    requires sh.divisor > 0
  {
    match AdjustIndex(sh, index)
    case None => f
    case Some(k) => f.(st := Edit(f.st, root, sh.levels, k, act).0)
  }

  /** One call; None when the named tree does not exist. */
  function Step<T>(sh: Shape, f: Forest<T>, op: Op<T>): Option<Forest<T>>
    requires sh.divisor > 0
  {
    match op
    case NewTree => Some(Forest(NewNode(f.st, sh.levels, Zero()), f.roots + {f.st.next}))
    case CopyOf(r) =>
      if r in f.roots && r in f.st.nodes then
        var (s, c) := CopyTree(f.st, r, sh.levels);
        Some(Forest(s, f.roots + {c}))
      else None
    case InsertAt(r, index, v) => if r in f.roots then Some(EditAt(sh, f, r, index, Insert(v))) else None
    case RemoveAt(r, index) => if r in f.roots then Some(EditAt(sh, f, r, index, Delete)) else None
    case Destroy(r) => if r in f.roots then Some(Forest(FreeNode(f.st, r, sh.levels), f.roots - {r})) else None
  }

  function Run<T>(sh: Shape, f: Forest<T>, ops: seq<Op<T>>): Option<Forest<T>>
    requires sh.divisor > 0
    decreases |ops|
  {
    if ops == [] then Some(f)
    else
      var f1 :- Step(sh, f, ops[0]);
      Run(sh, f1, ops[1..])
  }

  // ---------------------------------------------------------------------------------------
  // The specification: one finite map per tree
  // ---------------------------------------------------------------------------------------

  type Maps<T> = map<nat, map<nat, T>>

  ghost function MapEdit<T>(sh: Shape, m: map<nat, T>, index: nat, act: Action<T>): map<nat, T>
    requires sh.divisor > 0
  {
    match AdjustIndex(sh, index)
    case None => m
    case Some(k) => match act
                    case Insert(v) => m[k := v]
                    case Delete => m - {k}
  }

  /** The same call on finite maps; `name` is for a new tree. */
  ghost function MapStep<T>(sh: Shape, a: Maps<T>, op: Op<T>, name: nat): Maps<T>
    requires sh.divisor > 0
  {
    match op
    case NewTree => a[name := map[]]
    case CopyOf(r) => if r in a then a[name := a[r]] else a
    case InsertAt(r, index, v) => if r in a then a[r := MapEdit(sh, a[r], index, Insert(v))] else a
    case RemoveAt(r, index) => if r in a then a[r := MapEdit(sh, a[r], index, Delete)] else a
    case Destroy(r) => a - {r}
  }

  ghost function MapRun<T>(sh: Shape, f: Forest<T>, a: Maps<T>, ops: seq<Op<T>>): Maps<T>
    requires sh.divisor > 0
    decreases |ops|
  {
    if ops == [] || Step(sh, f, ops[0]).None? then a
    else MapRun(sh, Step(sh, f, ops[0]).value, MapStep(sh, a, ops[0], f.st.next), ops[1..])
  }

  ghost function Get<T>(m: map<nat, T>, k: nat): Option<T> {
    if k in m then Some(m[k]) else None
  }

  /** The tree at `root` shows exactly the map. */
  ghost predicate TreeIs<T>(st: Store<T>, root: nat, levels: nat, m: map<nat, T>) {
    && root in st.nodes && st.nodes[root].level == levels && st.nodes[root].refs == 1
    && (forall k :: k in m ==> k < Pow32(levels))
    && (forall k: nat {:trigger Find(st, root, levels, k)} :: Find(st, root, levels, k) == Get(m, Rem(k, levels)))
  }

  ghost predicate Refines<T>(sh: Shape, f: Forest<T>, a: Maps<T>) {
    && Inv(f.st, multiset(f.roots), {}, {}) && a.Keys == f.roots
    && forall r :: r in a ==> TreeIs(f.st, r, sh.levels, a[r])
  }

  // ---------------------------------------------------------------------------------------
  // One step
  // ---------------------------------------------------------------------------------------

  lemma RootsSplit(roots: set<nat>, r: nat)
    ensures r in roots ==> multiset(roots - {r}) + multiset{r} == multiset(roots)
    ensures r !in roots ==> multiset(roots) + multiset{r} == multiset(roots + {r})
  {
  }

  /** A kept root is the same tree. */
  lemma KeptTree<T>(st: Store<T>, s: Store<T>, ext: multiset<nat>, r: nat, levels: nat, m: map<nat, T>)
    requires Kept(st, s, ext, {}) && r in ext && TreeIs(st, r, levels, m) && levels > 0
    ensures TreeIs(s, r, levels, m)
  {
    assert KeptNode(st, s, {}, r);
    forall k: nat
      ensures Find(s, r, levels, k) == Get(m, Rem(k, levels))
    {
      assert Slot(r, LevelIndex(k, levels)) !in {};
      assert Find(s, r, levels, k) == Find(st, r, levels, k);
    }
  }

  lemma NewTreeOk<T>(sh: Shape, f: Forest<T>, a: Maps<T>)
    requires ShapeOk(sh) && Refines(sh, f, a)
    ensures Refines(sh, Step(sh, f, NewTree).value, MapStep(sh, a, NewTree, f.st.next))
  {
    var c := f.st.next;
    var s := NewNode(f.st, sh.levels, Zero());
    NewNodeStep(f.st, sh.levels, Zero(), multiset(f.roots), {}, {});
    assert c !in f.roots;
    RootsSplit(f.roots, c);
    hide Inv, Kept;
    forall r | r in a
      ensures TreeIs(s, r, sh.levels, a[r])
    {
      KeptTree(f.st, s, multiset(f.roots), r, sh.levels, a[r]);
    }
    assert TreeIs(s, c, sh.levels, map[]);
  }

  lemma CopyOfOk<T>(sh: Shape, f: Forest<T>, a: Maps<T>, root: nat)
    requires ShapeOk(sh) && Refines(sh, f, a) && root in f.roots
    ensures root in f.st.nodes
    ensures var (s, c) := CopyTree(f.st, root, sh.levels);
            c == f.st.next && Refines(sh, Forest(s, f.roots + {c}), a[c := a[root]])
  {
    assert root in a && TreeIs(f.st, root, sh.levels, a[root]);
    var (s, c) := CopyTree(f.st, root, sh.levels);
    CopyTreeOk(f.st, root, sh.levels, multiset(f.roots));
    assert c !in f.roots;
    RootsSplit(f.roots, c);
    hide Inv, Kept, CopyUpTo, TreeIs, Pow32;
    forall r | r in a
      ensures TreeIs(s, r, sh.levels, a[r])
    {
      KeptTree(f.st, s, multiset(f.roots), r, sh.levels, a[r]);
    }
    SameTree(f.st, root, s, c, sh.levels, a[root]);
  }

  lemma SameTree<T>(st: Store<T>, root: nat, s: Store<T>, c: nat, levels: nat, m: map<nat, T>)
    requires TreeIs(st, root, levels, m) && SameEntries(st, root, s, c, levels)
    requires c in s.nodes && s.nodes[c].level == levels && s.nodes[c].refs == 1
    ensures TreeIs(s, c, levels, m)
  {
  }

  lemma EditAtOk<T>(sh: Shape, f: Forest<T>, a: Maps<T>, root: nat, index: nat, act: Action<T>)
    requires ShapeOk(sh) && Refines(sh, f, a) && root in f.roots
    ensures Refines(sh, EditAt(sh, f, root, index, act), a[root := MapEdit(sh, a[root], index, act)])
  {
    assert root in a && TreeIs(f.st, root, sh.levels, a[root]);
    if AdjustIndex(sh, index).None? {
      assert a[root := a[root]] == a;
    } else {
      EditKeyOk(sh, f, a, root, AdjustIndex(sh, index).value, act);
    }
  }

  lemma EditKeyOk<T>(sh: Shape, f: Forest<T>, a: Maps<T>, root: nat, k: nat, act: Action<T>)
    requires ShapeOk(sh) && Refines(sh, f, a) && root in f.roots && k < Pow32(sh.levels)
    ensures root in a && Refines(sh, f.(st := Edit(f.st, root, sh.levels, k, act).0),
                    a[root := match act case Insert(v) => a[root][k := v] case Delete => a[root] - {k}])
  {
    assert root in a && TreeIs(f.st, root, sh.levels, a[root]);
    var ext := multiset(f.roots - {root});
    var (s, m, was) := Edit(f.st, root, sh.levels, k, act);
    RootsSplit(f.roots, root);
    EditOk(f.st, root, sh.levels, k, act, ext, {});
    assert m == root;
    hide Inv, Kept, Edit, TreeIs, Pow32, IsZero;
    var m' := match act case Insert(v) => a[root][k := v] case Delete => a[root] - {k};
    EditedTree(f.st, root, s, sh.levels, k, act, a[root]);
    forall r | r in a && r != root
      ensures TreeIs(s, r, sh.levels, a[r])
    {
      KeptTree(f.st, s, ext, r, sh.levels, a[r]);
    }
    assert a[root := m'].Keys == f.roots;
  }

  lemma EditedTree<T>(st: Store<T>, root: nat, s: Store<T>, levels: nat, key: nat, act: Action<T>, m: map<nat, T>)
    requires TreeIs(st, root, levels, m) && key < Pow32(levels) && Shows(st, root, s, root, levels, key, act)
    requires root in s.nodes && s.nodes[root].level == levels && s.nodes[root].refs == 1
    ensures TreeIs(s, root, levels, match act case Insert(v) => m[key := v] case Delete => m - {key})
  {
    hide Pow32, Rem, Find, SameKey;
    var m' := match act case Insert(v) => m[key := v] case Delete => m - {key};
    RemSmall(key, levels);
    forall k: nat
      ensures Find(s, root, levels, k) == Get(m', Rem(k, levels))
    {
      SameKeyIff(k, key, levels);
      assert Find(st, root, levels, k) == Get(m, Rem(k, levels));
    }
  }

  lemma DestroyOk<T>(sh: Shape, f: Forest<T>, a: Maps<T>, root: nat)
    requires ShapeOk(sh) && Refines(sh, f, a) && root in f.roots
    ensures Refines(sh, Forest(FreeNode(f.st, root, sh.levels), f.roots - {root}), a - {root})
  {
    assert root in a && TreeIs(f.st, root, sh.levels, a[root]);
    var ext := multiset(f.roots - {root});
    var s := FreeNode(f.st, root, sh.levels);
    RootsSplit(f.roots, root);
    FreeOk(f.st, root, sh.levels, ext, {}, {});
    hide Inv, Kept, FreeNode, TreeIs;
    forall r | r in a && r != root
      ensures TreeIs(s, r, sh.levels, a[r])
    {
      KeptTree(f.st, s, ext, r, sh.levels, a[r]);
    }
  }

  /** Each call does to its tree what it does to a finite map, and nothing to the others. */
  lemma StepRefines<T>(sh: Shape, f: Forest<T>, a: Maps<T>, op: Op<T>)
    requires ShapeOk(sh) && Refines(sh, f, a) && Step(sh, f, op).Some?
    ensures Refines(sh, Step(sh, f, op).value, MapStep(sh, a, op, f.st.next))
  {
    hide Edit, FreeNode, CopyUpTo, NewNode;
    match op {
      case NewTree => NewTreeOk(sh, f, a);
      case CopyOf(r) => CopyOfOk(sh, f, a, r);
      case InsertAt(r, index, v) => EditAtOk(sh, f, a, r, index, Insert(v));
      case RemoveAt(r, index) => EditAtOk(sh, f, a, r, index, Delete);
      case Destroy(r) => DestroyOk(sh, f, a, r);
    }
  }

  lemma {:induction false} RunRefinesMaps<T>(sh: Shape, f: Forest<T>, a: Maps<T>, ops: seq<Op<T>>)
    requires ShapeOk(sh) && Refines(sh, f, a) && Run(sh, f, ops).Some?
    ensures Refines(sh, Run(sh, f, ops).value, MapRun(sh, f, a, ops))
    decreases |ops|
  {
    hide Refines, Step, MapStep;
    if ops != [] {
      StepRefines(sh, f, a, ops[0]);
      RunRefinesMaps(sh, Step(sh, f, ops[0]).value, MapStep(sh, a, ops[0], f.st.next), ops[1..]);
    }
  }

  function EmptyForest<T>(): Forest<T> {
    Forest(Store(map[], map[], 1, multiset{}, {}), {})
  }

  lemma EmptyOk<T>(sh: Shape)
    ensures Refines(sh, EmptyForest<T>(), map[])
  {
  }

  // ---------------------------------------------------------------------------------------
  // Lookups
  // ---------------------------------------------------------------------------------------

  function LookupExact<T>(sh: Shape, f: Forest<T>, root: nat, index: nat): Option<T>
    requires sh.divisor > 0
  {
    match AdjustIndex(sh, index)
    case None => None
    case Some(k) => Find(f.st, root, sh.levels, k)
  }

  /** lookup_floor and lookup_ceil */
  function LookupNear<T>(sh: Shape, f: Forest<T>, root: nat, index: nat, floor: bool): Option<T>
    requires sh.divisor > 0
  {
    match AdjustIndex(sh, index)
    case None => None
    case Some(k) => RunQuery(f.st, root, sh.levels, k, floor)
  }

  /** `j` is the key of `m` nearest to `k` on the asked side. */
  ghost predicate IsNearest<T>(m: map<nat, T>, k: nat, floor: bool, j: nat) {
    j in m && Side(floor, j, k) && forall x :: x in m && Side(floor, x, k) ==> Side(floor, x, j)
  }

  /** `r` is the entry of `m` nearest to `k`, None exactly when there is none on the asked side. */
  ghost predicate NearIs<T>(m: map<nat, T>, k: nat, floor: bool, r: Option<T>) {
    if r.None? then forall x :: x in m ==> !Side(floor, x, k)
    else exists j :: IsNearest(m, k, floor, j) && m[j] == r.value
  }

  lemma LookupExactOk<T>(sh: Shape, f: Forest<T>, a: Maps<T>, root: nat, index: nat)
    requires ShapeOk(sh) && Refines(sh, f, a) && root in f.roots
    ensures root in a && LookupExact(sh, f, root, index) ==
            (match AdjustIndex(sh, index) case None => None case Some(k) => Get(a[root], k))
  {
    assert root in a && TreeIs(f.st, root, sh.levels, a[root]);
    match AdjustIndex(sh, index) {
      case None =>
      case Some(k) => RemSmall(k, sh.levels);
    }
  }

  /** The nearest entry of the tree is the nearest entry of its map. */
  lemma LookupNearOk<T>(sh: Shape, f: Forest<T>, a: Maps<T>, root: nat, index: nat, floor: bool)
    requires ShapeOk(sh) && Refines(sh, f, a) && root in f.roots
    ensures root in a
    ensures match AdjustIndex(sh, index)
            case None => LookupNear(sh, f, root, index, floor) == None
            case Some(k) => NearIs(a[root], k, floor, LookupNear(sh, f, root, index, floor))
  {
    assert root in a && TreeIs(f.st, root, sh.levels, a[root]);
    match AdjustIndex(sh, index) {
      case None =>
      case Some(k) =>
        var j := QueryOk(f.st, root, sh.levels, k, floor);
        hide RunQuery, Inv;
        NearestInMap(f.st, root, sh.levels, a[root], k, floor, RunQuery(f.st, root, sh.levels, k, floor), j);
    }
  }

  lemma NearestInMap<T>(st: Store<T>, root: nat, levels: nat, m: map<nat, T>, k: nat, floor: bool, r: Option<T>, j: nat)
    requires TreeIs(st, root, levels, m) && k < Pow32(levels) && Nearest(st, root, levels, k, floor, r, j)
    ensures NearIs(m, k, floor, r)
  {
    hide Pow32, Rem, Find, Leq;
    RemSmall(k, levels);
    forall x | x in m && Side(floor, x, k)
      ensures r.Some? && Side(floor, x, Rem(j, levels))
    {
      RemSmall(x, levels);
      assert Find(st, root, levels, x) == Some(m[x]);
      LeqIff(floor, x, k, levels);
      LeqIff(floor, x, j, levels);
    }
    if r.Some? {
      assert Find(st, root, levels, j) == r;
      LeqIff(floor, j, k, levels);
      assert IsNearest(m, k, floor, Rem(j, levels));
    }
  }

  // ---------------------------------------------------------------------------------------
  // Nothing is left
  // ---------------------------------------------------------------------------------------

  lemma {:induction false} HighestNode<T>(st: Store<T>, names: set<nat>) returns (n: nat)
    requires names != {} && names <= st.nodes.Keys
    ensures n in names && forall x :: x in names ==> st.nodes[x].level <= st.nodes[n].level
    decreases names
  {
    n :| n in names;
    if names != {n} {
      var rest := names - {n};
      assert rest != {} by { assert names == rest + {n}; }
      var m := HighestNode(st, rest);
      if st.nodes[m].level > st.nodes[n].level { n := m; }
    }
  }

  /** When the last tree is destroyed every node and every item has been released. */
  lemma AllReleased<T>(sh: Shape, f: Forest<T>, a: Maps<T>)
    requires Refines(sh, f, a) && f.roots == {}
    ensures f.st.nodes == map[] && f.st.items == map[]
    ensures forall x: nat :: 0 < x < f.st.next ==> f.st.gone[x] == if x in f.st.handed then 0 else 1
  {
    var st := f.st;
    if st.nodes.Keys != {} {
      var n := HighestNode(st, st.nodes.Keys);
      assert multiset(f.roots) == multiset{};
      var p := HigherNode(st, n);
    }
    assert st.nodes == map[];
    assert forall p :: p in st.items ==> ItemOk(st, p, {});
    assert st.items.Keys == {};
  }

  /** Without outside references a node hangs below another one. */
  lemma HigherNode<T>(st: Store<T>, n: nat) returns (p: nat)
    requires Inv(st, multiset{}, {}, {}) && n in st.nodes
    ensures p in st.nodes && st.nodes[p].level == st.nodes[n].level + 1
  {
    assert CountOk(st, n, multiset{}, {}, {});
    assert Parents(st, n, {}) != {};
    var s :| s in Parents(st, n, {});
    assert SlotOk(st, s);
    p := s.node;
  }
}
