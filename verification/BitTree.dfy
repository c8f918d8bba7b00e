/**
 The 32-way bitmap radix tree of kernel/bit_tree.h, with nodes shared between copies of a tree.

 Nodes and items live in a store under names that are never used twice.  The root that the
 source embeds in its tree object is a node like the others here; 0 is the null pointer.
 A node carries its level and an item the slot that holds it: the source passes the one as an
 argument and does not keep the other, and no operation below decides anything by them.
 */
module BitTree {
  import opened BitWords
  import opened Wrappers

  type Ptrs = s: seq<nat> | |s| == BITS witness seq(BITS, _ => 0)

  function Nulls(): (r: Ptrs)
    ensures forall j :: 0 <= j < BITS ==> r[j] == 0
  {
    seq(BITS, _ => 0)
  }

  datatype Node = Node(level: nat, refs: nat, bits: Word, ptrs: Ptrs)

  datatype Item<T> = Item(value: T, node: nat, slot: nat)

  /** `gone` and `handed` record what was released and what was given back to callers. */
  datatype Store<T> = Store(nodes: map<nat, Node>, items: map<nat, Item<T>>, next: nat, gone: multiset<nat>, handed: set<nat>)

  datatype Action<T> = Insert(value: T) | Delete

  function Pow32(n: nat): (r: nat)
    ensures r > 0
  {
    if n == 0 then 1 else 32 * Pow32(n - 1)
  }

  /** get_level_index */
  function LevelIndex(index: nat, level: nat): (r: nat)
    requires level > 0
    ensures r < BITS
  {
    index / Pow32(level - 1) % 32
  }

  // ---------------------------------------------------------------------------------------
  // Single writes
  // ---------------------------------------------------------------------------------------

  function SetPtr<T>(st: Store<T>, n: nat, i: nat, p: nat): Store<T>
    requires n in st.nodes && i < BITS
  {
    st.(nodes := st.nodes[n := st.nodes[n].(ptrs := st.nodes[n].ptrs[i := p])])
  }

  function SetBit<T>(st: Store<T>, n: nat, i: nat, b: bool): Store<T>
    requires n in st.nodes && i < BITS
  {
    st.(nodes := st.nodes[n := st.nodes[n].(bits := st.nodes[n].bits[i := b])])
  }

  function SetRefs<T>(st: Store<T>, n: nat, k: nat): Store<T>
    requires n in st.nodes
  {
    st.(nodes := st.nodes[n := st.nodes[n].(refs := k)])
  }

  function NewNode<T>(st: Store<T>, level: nat, bits: Word): Store<T> {
    st.(nodes := st.nodes[st.next := Node(level, 1, bits, Nulls())], next := st.next + 1)
  }

  function DeleteItem<T>(st: Store<T>, p: nat): Store<T> {
    st.(items := st.items - {p}, gone := st.gone + multiset{p})
  }

  function DeleteNode<T>(st: Store<T>, n: nat): Store<T> {
    st.(nodes := st.nodes - {n}, gone := st.gone + multiset{n})
  }

  /** The item a slot holds, if any, goes back to the caller. */
  function HandBack<T>(st: Store<T>, p: nat): Store<T> {
    if p == 0 then st else st.(items := st.items - {p}, handed := st.handed + {p})
  }

  /** A new item in slot `i` of the last-level node `n`. */
  function PutItem<T>(st: Store<T>, n: nat, i: nat, v: T): Store<T>
    requires n in st.nodes && i < BITS
  {
    SetPtr(st, n, i, st.next).(items := st.items[st.next := Item(v, n, i)], next := st.next + 1)
  }

  // ---------------------------------------------------------------------------------------
  // Copies
  // ---------------------------------------------------------------------------------------

  /** One turn of the copying constructor: the pointer, and above the last level a reference. */
  function CopySlot<T>(st: Store<T>, from: nat, to: nat, i: nat, last: bool): (r: Store<T>)
    requires from in st.nodes && to in st.nodes && i < BITS
    ensures from in r.nodes && to in r.nodes
  {
    var c := st.nodes[from].ptrs[i];
    var s2 := SetPtr(st, to, i, c);
    if !last && c != 0 && c in s2.nodes then SetRefs(s2, c, s2.nodes[c].refs + 1) else s2
  }

  function CopyUpTo<T>(st: Store<T>, from: nat, to: nat, i: nat, last: bool): (r: Store<T>)
    requires from in st.nodes && to in st.nodes && i <= BITS
    ensures from in r.nodes && to in r.nodes
  {
    if i == 0 then st else CopySlot(CopyUpTo(st, from, to, i - 1, last), from, to, i - 1, last)
  }

  /** The items in slots below `i` of a copied last-level node, replaced by copies. */
  function DupUpTo<T>(st: Store<T>, n: nat, i: nat): (r: Store<T>)
    requires n in st.nodes && i <= BITS
    ensures n in r.nodes
  {
    if i == 0 then st
    else
      var s1 := DupUpTo(st, n, i - 1);
      var p := s1.nodes[n].ptrs[i - 1];
      if p != 0 && p in s1.items then PutItem(s1, n, i - 1, s1.items[p].value) else s1
  }

  /** The first step of an edit: a node with several owners is left to the others and copied. */
  function Privatise<T>(st: Store<T>, n: nat, level: nat): (r: (Store<T>, nat))
    requires n in st.nodes
    ensures r.1 in r.0.nodes
  {
    if st.nodes[n].refs > 1 then
      var s0 := SetRefs(st, n, st.nodes[n].refs - 1);
      var c := s0.next;
      var s1 := NewNode(s0, level, s0.nodes[n].bits);
      var s2 := CopyUpTo(s1, n, c, BITS, level == 1);
      (if level == 1 then DupUpTo(s2, c, BITS) else s2, c)
    else (st, n)
  }

  /** BitTree(BitTree& other): a second root over the same nodes. */
  function CopyTree<T>(st: Store<T>, root: nat, levels: nat): (r: (Store<T>, nat))
    requires root in st.nodes
    ensures r.1 in r.0.nodes
  {
    var c := st.next;
    (CopyUpTo(NewNode(st, levels, st.nodes[root].bits), root, c, BITS, false), c)
  }

  // ---------------------------------------------------------------------------------------
  // Release
  // ---------------------------------------------------------------------------------------

  /** free on the node and, when its last owner goes, the deletion of the node. */
  function FreeNode<T>(st: Store<T>, n: nat, level: nat): Store<T>
    decreases level, BITS + 1
  {
    if n !in st.nodes || st.nodes[n].refs == 0 then st
    else
      var s0 := SetRefs(st, n, st.nodes[n].refs - 1);
      if s0.nodes[n].refs > 0 then s0
      else
        var s1 := FreeUpTo(s0, n, level, BITS);
        DeleteNode(s1, n)
  }

  function FreeUpTo<T>(st: Store<T>, n: nat, level: nat, i: nat): Store<T>
    requires i <= BITS
    decreases level, i
  {
    if i == 0 then st else FreeSlot(FreeUpTo(st, n, level, i - 1), n, level, i - 1)
  }

  /** What free does about one slot. */
  function FreeSlot<T>(st: Store<T>, n: nat, level: nat, i: nat): Store<T>
    requires i < BITS
    decreases level, 0
  {
    if n !in st.nodes || st.nodes[n].ptrs[i] == 0 then st
    else if level <= 1 then DeleteItem(st, st.nodes[n].ptrs[i])
    else FreeNode(st, st.nodes[n].ptrs[i], level - 1)
  }

  // ---------------------------------------------------------------------------------------
  // Edits
  // ---------------------------------------------------------------------------------------

  /** What insert and remove do to the slot found. */
  function EditLeaf<T>(st: Store<T>, n: nat, i: nat, act: Action<T>): (r: (Store<T>, Option<T>))
    requires n in st.nodes && i < BITS
    ensures n in r.0.nodes
  {
    var p := st.nodes[n].ptrs[i];
    var was := if p != 0 && p in st.items then Some(st.items[p].value) else None;
    var s1 := HandBack(st, p);
    match act
    case Insert(v) => (PutItem(SetBit(s1, n, i, true), n, i, v), was)
    case Delete => (SetPtr(SetBit(s1, n, i, false), n, i, 0), was)
  }

  /** A missing child of an insertion. */
  function EnsureChild<T>(st: Store<T>, n: nat, level: nat, i: nat): (r: Store<T>)
    requires n in st.nodes && i < BITS && level > 0
    ensures n in r.nodes
  {
    if st.nodes[n].ptrs[i] == 0 then
      SetPtr(SetBit(NewNode(st, level - 1, Zero()), n, i, true), n, i, st.next)
    else st
  }

  /** After the edit below slot `i`: the child may have moved, or be empty and go. */
  function Settle<T>(st: Store<T>, n: nat, level: nat, i: nat, c: nat, act: Action<T>): Store<T>
    requires i < BITS && level > 0
  {
    if n !in st.nodes || c !in st.nodes then st
    else
      var s1 := SetPtr(st, n, i, c);
      if act.Delete? && IsZero(s1.nodes[c].bits) then
        var s2 := FreeNode(SetBit(s1, n, i, false), c, level - 1);
        if n in s2.nodes then SetPtr(s2, n, i, 0) else s2
      else s1
  }

  /** get_entry_ref for an edit and the write through its result: store, node in its place, old value. */
  function Edit<T>(st: Store<T>, n: nat, level: nat, index: nat, act: Action<T>): (Store<T>, nat, Option<T>)
    decreases level
  {
    if level == 0 || n !in st.nodes then (st, n, None)
    else
      var (s1, m) := Privatise(st, n, level);
      var i := LevelIndex(index, level);
      if level == 1 then
        var (s2, was) := EditLeaf(s1, m, i, act);
        (s2, m, was)
      else if s1.nodes[m].ptrs[i] == 0 && act.Delete? then (s1, m, None)
      else
        var s2 := EnsureChild(s1, m, level, i);
        var (s3, c, was) := Edit(s2, s2.nodes[m].ptrs[i], level - 1, index, act);
        (Settle(s3, m, level, i, c, act), m, was)
  }

  // ---------------------------------------------------------------------------------------
  // Lookups
  // ---------------------------------------------------------------------------------------

  /** get_entry_ref for a lookup, and the read through its result. */
  function Find<T>(st: Store<T>, n: nat, level: nat, index: nat): Option<T>
    decreases level
  {
    if level == 0 || n !in st.nodes then None
    else
      var p := st.nodes[n].ptrs[LevelIndex(index, level)];
      if p == 0 then None
      else if level == 1 then (if p in st.items then Some(st.items[p].value) else None)
      else Find(st, p, level - 1, index)
  }

  function Extreme(floor: bool): nat {
    if floor then 0xFFFF_FFFF else 0
  }

  /** run_query */
  function RunQuery<T>(st: Store<T>, n: nat, level: nat, index: nat, floor: bool): Option<T>
    decreases level
  {
    if level == 0 || n !in st.nodes then None
    else
      var li := LevelIndex(index, level);
      var q := ComputeIndex(st.nodes[n].bits, li, floor);
      if q < 0 || q >= BITS then None
      else
        var p := st.nodes[n].ptrs[q];
        if level == 1 then (if p in st.items then Some(st.items[p].value) else None)
        else
          var r := RunQuery(st, p, level - 1, if li == q then index else Extreme(floor), floor);
          if r.Some? then r
          else
            var q2 := ComputeIndex(st.nodes[n].bits, if floor then q - 1 else q + 1, floor);
            if q2 < 0 || q2 >= BITS then None
            else RunQuery(st, st.nodes[n].ptrs[q2], level - 1, Extreme(floor), floor)
  }
}
