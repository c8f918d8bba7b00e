/**
 Physical frames, per-frame reference counters and two-level page tables, as values.

 Every kernel operation on page tables (kernel/cow.cc, kernel/vmm.cc, kernel/physmem.cc) is a
 function from one memory to the next.  A frame carries a tag for the use it is put to, so a
 frame read at the wrong type, or after it was released, would show up as a broken invariant.
 */
module Paging {
  import opened Wrappers

  const ENTRIES := 1024
  const FRAME_SIZE := 4096
  const MAX_FRAMES := 0x10_0000          // a 32-bit physical address space
  const COUNTER_MOD := 0x1_0000_0000     // the counters are 32 bits wide
  const USER_DIR_START := 512            // USER_MEM_START / FRAME_SIZE / 1024
  const USER_DIR_END := 960              // SHARED_ADDRESS / FRAME_SIZE / 1024

  /** A page-directory or page-table entry: frame number, bits 2..11, FLAG_RW, FLAG_PR. */
  datatype Entry = Entry(frame: nat, flags: nat, rw: bool, pr: bool)

  const NO_ENTRY := Entry(0, 0, false, false)

  datatype Frame =
    | Free
    | Kernel
    | Directory(entries: seq<Entry>)
    | Table(entries: seq<Entry>)
    | Data(bytes: seq<int>)

  datatype Kind = DirectoryKind | TableKind | DataKind

  /** The place of an entry: a frame and an index into it. */
  datatype Loc = Loc(frame: nat, index: nat)

  /**
   `zero` is the kernel's static all-zero frame and `leak` the allocator's leak_count.
   `kernelRefs` records how many references the kernel itself holds on the zero frame: the one
   it never gives up and, while a page is being mapped to it, the one about to be handed to the
   new entry.  No operation looks at it.
   */
  datatype Mem = Mem(frames: seq<Frame>, refs: seq<nat>, free: seq<nat>, avail: nat, leak: int,
                     zero: nat, kernelRefs: nat)

  // ---------------------------------------------------------------------------------------
  // Entries in memory
  // ---------------------------------------------------------------------------------------

  predicate IsEntry(m: Mem, l: Loc) {
    && l.frame < |m.frames|
    && (m.frames[l.frame].Directory? || m.frames[l.frame].Table?)
    && |m.frames[l.frame].entries| == ENTRIES
    && l.index < ENTRIES
  }

  /** The entries the copy-on-write code manages: the user part of a directory, all of a table. */
  predicate IsSlot(m: Mem, l: Loc) {
    IsEntry(m, l) && (m.frames[l.frame].Directory? ==> USER_DIR_START <= l.index < USER_DIR_END)
  }

  function At(m: Mem, l: Loc): Entry {
    if IsEntry(m, l) then m.frames[l.frame].entries[l.index] else NO_ENTRY
  }

  function SetEntry(m: Mem, l: Loc, e: Entry): Mem {
    if IsEntry(m, l) then
      var f := m.frames[l.frame];
      m.(frames := m.frames[l.frame := f.(entries := f.entries[l.index := e])])
    else m
  }

  function ReadOnly(e: Entry): Entry {
    e.(rw := false)
  }

  // ---------------------------------------------------------------------------------------
  // kernel/physmem.cc
  // ---------------------------------------------------------------------------------------

  function ZeroBytes(): seq<int> {
    seq(FRAME_SIZE, _ => 0)
  }

  function Zeroed(k: Kind): Frame {
    match k
    case DirectoryKind => Directory(seq(ENTRIES, _ => NO_ENTRY))
    case TableKind => Table(seq(ENTRIES, _ => NO_ENTRY))
    case DataKind => Data(ZeroBytes())
  }

  /** alloc_frame: the newest released frame, else the next untouched one; None is the panic. */
  function Alloc(m: Mem, k: Kind): Option<(Mem, nat)> {
    if m.free != [] then
      var p := m.free[0];
      if p < |m.frames| then
        Some((m.(frames := m.frames[p := Zeroed(k)], free := m.free[1..], leak := m.leak + 1), p))
      else None
    else if m.avail >= |m.frames| then None
    else
      Some((m.(frames := m.frames[m.avail := Zeroed(k)], avail := m.avail + 1, leak := m.leak + 1), m.avail))
  }

  function Dealloc(m: Mem, p: nat): Mem {
    if p < |m.frames| then
      m.(frames := m.frames[p := Free], free := [p] + m.free, leak := m.leak - 1)
    else m
  }

  // ---------------------------------------------------------------------------------------
  // kernel/cow.cc
  // ---------------------------------------------------------------------------------------

  function Count(m: Mem, f: nat): nat {
    if f < |m.refs| then m.refs[f] else 0
  }

  function IncRef(m: Mem, f: nat): Mem {
    if f < |m.refs| then m.(refs := m.refs[f := (m.refs[f] + 1) % COUNTER_MOD]) else m
  }

  function DecRef(m: Mem, f: nat): Mem {
    if f < |m.refs| then
      m.(refs := m.refs[f := if m.refs[f] == 0 then COUNTER_MOD - 1 else m.refs[f] - 1])
    else m
  }

  /** COW::ref on an entry: returns the memory afterwards and the entry to store in the copy. */
  function RefEntry(m: Mem, l: Loc): (Mem, Entry) {
    var e := At(m, l);
    if !e.pr then (m, NO_ENTRY)
    else
      var m1 := if e.rw then IncRef(m, e.frame) else m;
      var m2 := SetEntry(m1, l, ReadOnly(e));
      (IncRef(m2, e.frame), ReadOnly(e))
  }

  function RefInto(m: Mem, src: nat, dst: nat, i: nat): Mem {
    var r := RefEntry(m, Loc(src, i));
    SetEntry(r.0, Loc(dst, i), r.1)
  }

  /** The first `n` rounds of the loop that copies a page table entry by entry. */
  function RefUpTo(m: Mem, src: nat, dst: nat, n: nat): Mem {
    if n == 0 then m else RefInto(RefUpTo(m, src, dst, n - 1), src, dst, n - 1)
  }

  /** COW::copy on an entry that names a page table. */
  function CopyTable(m: Mem, l: Loc): Option<Mem> {
    var e := At(m, l);
    if !e.pr || e.rw then Some(m)
    else
      var m1 := DecRef(m, e.frame);
      if Count(m1, e.frame) == 0 then Some(SetEntry(m1, l, e.(rw := true)))
      else
        var a :- Alloc(m1, TableKind);
        Some(SetEntry(RefUpTo(a.0, e.frame, a.1, ENTRIES), l, e.(frame := a.1, rw := true)))
  }

  function BytesOf(m: Mem, f: nat): seq<int> {
    if f < |m.frames| && m.frames[f].Data? then m.frames[f].bytes else ZeroBytes()
  }

  function SetBytes(m: Mem, f: nat, bytes: seq<int>): Mem {
    if f < |m.frames| then m.(frames := m.frames[f := Data(bytes)]) else m
  }

  /** COW::copy on an entry that names a data frame. */
  function CopyData(m: Mem, l: Loc): Option<Mem> {
    var e := At(m, l);
    if !e.pr || e.rw then Some(m)
    else
      var m1 := DecRef(m, e.frame);
      if Count(m1, e.frame) == 0 then Some(SetEntry(m1, l, e.(rw := true)))
      else
        var a :- Alloc(m1, DataKind);
        Some(SetEntry(SetBytes(a.0, a.1, BytesOf(m, e.frame)), l, e.(frame := a.1, rw := true)))
  }

  /** COW::unref on an entry that names a data frame. */
  function UnrefData(m: Mem, l: Loc): Mem {
    var e := At(m, l);
    if !e.pr then m
    else
      var m1 := if e.rw then m else DecRef(m, e.frame);
      var m2 := if e.rw || Count(m1, e.frame) == 0 then Dealloc(m1, e.frame) else m1;
      SetEntry(m2, l, NO_ENTRY)
  }

  function UnrefUpTo(m: Mem, t: nat, n: nat): Mem {
    if n == 0 then m else UnrefData(UnrefUpTo(m, t, n - 1), Loc(t, n - 1))
  }

  /** COW::unref on an entry that names a page table. */
  function UnrefTable(m: Mem, l: Loc): Mem {
    var e := At(m, l);
    if !e.pr then m
    else
      var m1 := if e.rw then m else DecRef(m, e.frame);
      var m2 := if e.rw || Count(m1, e.frame) == 0
                then Dealloc(UnrefUpTo(m1, e.frame, ENTRIES), e.frame) else m1;
      SetEntry(m2, l, NO_ENTRY)
  }

  // ---------------------------------------------------------------------------------------
  // kernel/vmm.cc
  // ---------------------------------------------------------------------------------------

  predicate UserIndex(i: nat) {
    USER_DIR_START <= i < USER_DIR_END
  }

  /** One round of the loop of clone_directory. */
  function CloneEntry(m: Mem, src: nat, dst: nat, i: nat): Mem {
    var e := At(m, Loc(src, i));
    if !e.pr || !UserIndex(i) then SetEntry(m, Loc(dst, i), e) else RefInto(m, src, dst, i)
  }

  function CloneUpTo(m: Mem, src: nat, dst: nat, n: nat): Mem {
    if n == 0 then m else CloneEntry(CloneUpTo(m, src, dst, n - 1), src, dst, n - 1)
  }

  /** clone_directory: fork by sharing. */
  function CloneDirectory(m: Mem, d: nat): Option<(Mem, nat)> {
    var a :- Alloc(m, DirectoryKind);
    Some((CloneUpTo(a.0, d, a.1, ENTRIES), a.1))
  }

  /** The body of the inner loop of clone_directory_no_cow: one page copied in full. */
  function DeepPage(m: Mem, src: nat, dst: nat, j: nat): Option<Mem> {
    var e := At(m, Loc(src, j));
    if !e.pr then Some(SetEntry(m, Loc(dst, j), e))
    else
      var a :- Alloc(m, DataKind);
      Some(SetEntry(SetBytes(a.0, a.1, BytesOf(a.0, e.frame)), Loc(dst, j), e.(frame := a.1)))
  }

  function DeepPagesUpTo(m: Mem, src: nat, dst: nat, n: nat): Option<Mem> {
    if n == 0 then Some(m)
    else
      var m1 :- DeepPagesUpTo(m, src, dst, n - 1);
      DeepPage(m1, src, dst, n - 1)
  }

  /** The body of the outer loop of clone_directory_no_cow: one page table copied in full. */
  function DeepTable(m: Mem, src: nat, dst: nat, i: nat): Option<Mem> {
    var e := At(m, Loc(src, i));
    if !e.pr || !UserIndex(i) then Some(SetEntry(m, Loc(dst, i), e))
    else
      var a :- Alloc(m, TableKind);
      var m1 :- DeepPagesUpTo(a.0, e.frame, a.1, ENTRIES);
      Some(SetEntry(m1, Loc(dst, i), e.(frame := a.1)))
  }

  function DeepTablesUpTo(m: Mem, src: nat, dst: nat, n: nat): Option<Mem> {
    if n == 0 then Some(m)
    else
      var m1 :- DeepTablesUpTo(m, src, dst, n - 1);
      DeepTable(m1, src, dst, n - 1)
  }

  /** clone_directory_no_cow: fork by copying everything. */
  function DeepCloneDirectory(m: Mem, d: nat): Option<(Mem, nat)> {
    var a :- Alloc(m, DirectoryKind);
    var m1 :- DeepTablesUpTo(a.0, d, a.1, ENTRIES);
    Some((m1, a.1))
  }

  function UnrefTablesFrom(m: Mem, d: nat, n: nat): Mem
    requires USER_DIR_START <= n
  {
    if n == USER_DIR_START then m else UnrefTable(UnrefTablesFrom(m, d, n - 1), Loc(d, n - 1))
  }

  /** free_directory on a directory that is neither null nor the base directory. */
  function FreeDirectory(m: Mem, d: nat): Mem {
    Dealloc(UnrefTablesFrom(m, d, USER_DIR_END), d)
  }

  /** Whether table `t` maps a page outside, or inside, the entries `lo` to `hi`. */
  predicate MapsOutside(m: Mem, t: nat, lo: nat, hi: nat) {
    exists j: nat :: j < ENTRIES && !(lo <= j <= hi) && At(m, Loc(t, j)).pr
  }

  predicate MapsInside(m: Mem, t: nat, lo: nat, hi: nat) {
    exists j: nat :: j < ENTRIES && lo <= j <= hi && At(m, Loc(t, j)).pr
  }

  function UnrefRange(m: Mem, t: nat, lo: nat, n: nat): Mem {
    if n == 0 then m else UnrefData(UnrefRange(m, t, lo, n - 1), Loc(t, lo + n - 1))
  }

  /**
   One round of unmap_pages on a table it may have to keep part of.  The table is looked up
   before it is copied, so the entries dropped are those of the table found first.
   */
  function UnmapTable(m: Mem, d: nat, i: nat, lo: nat, hi: nat): Option<Mem>
    requires lo <= hi
  {
    var e := At(m, Loc(d, i));
    if e.pr && MapsOutside(m, e.frame, lo, hi) then
      var m1 :- CopyTable(m, Loc(d, i));
      Some(UnrefRange(m1, e.frame, lo, hi + 1 - lo))
    else Some(UnrefTable(m, Loc(d, i)))
  }

  /** The round for table `i` when pages `first` to `last` go: only the first and last table may be partial. */
  function UnmapRound(m: Mem, d: nat, i: nat, first: nat, last: nat): Option<Mem>
    requires first / ENTRIES <= i <= last / ENTRIES && first <= last
  {
    if i == first / ENTRIES || i == last / ENTRIES then UnmapTable(m, d, i, LowEntry(i, first), HighEntry(i, last))
    else Some(UnrefTable(m, Loc(d, i)))
  }

  function LowEntry(i: nat, first: nat): (r: nat)
    requires first / ENTRIES <= i
    ensures r < ENTRIES
  {
    if first > i * ENTRIES then first - i * ENTRIES else 0
  }

  function HighEntry(i: nat, last: nat): (r: nat)
    requires i <= last / ENTRIES
    ensures r < ENTRIES
  {
    if last < i * ENTRIES + ENTRIES - 1 then last - i * ENTRIES else ENTRIES - 1
  }

  /** unmap_pages: the first `n` rounds. */
  function UnmapRounds(m: Mem, d: nat, first: nat, last: nat, n: nat): Option<Mem>
    requires first <= last && n <= last / ENTRIES + 1 - first / ENTRIES
  {
    if n == 0 then Some(m)
    else
      var m1 :- UnmapRounds(m, d, first, last, n - 1);
      UnmapRound(m1, d, first / ENTRIES + n - 1, first, last)
  }

  function UnmapPages(m: Mem, d: nat, first: nat, last: nat): Option<Mem>
    requires first <= last
  {
    UnmapRounds(m, d, first, last, last / ENTRIES + 1 - first / ENTRIES)
  }

  /** get_page_table followed, when there is none, by set_page_table with the given flags. */
  function EnsureTable(m: Mem, d: nat, i: nat, flags: nat, rw: bool): Option<Mem> {
    var m1 :- CopyTable(m, Loc(d, i));
    if At(m1, Loc(d, i)).pr then Some(m1)
    else
      var a :- Alloc(m1, TableKind);
      Some(SetEntry(a.0, Loc(d, i), Entry(a.1, flags, rw, true)))
  }

  /** map_address for page `j` of table `i`. */
  function MapAddress(m: Mem, d: nat, i: nat, j: nat, f: nat, flags: nat, rw: bool): Option<Mem> {
    var m1 :- EnsureTable(m, d, i, flags, rw);
    Some(SetEntry(m1, Loc(At(m1, Loc(d, i)).frame, j), Entry(f, flags, rw, true)))
  }

  /** The copy-on-write branch of the page-fault handler. */
  function WriteFault(m: Mem, d: nat, i: nat, j: nat): Option<Mem> {
    var m1 :- CopyTable(m, Loc(d, i));
    CopyData(m1, Loc(At(m1, Loc(d, i)).frame, j))
  }

  const FLAG_US := 1   // bit 2 of an entry, the lowest of `flags`

  /** The demand-paging branch that maps a fresh or file-backed frame, writable. */
  function DemandMap(m: Mem, d: nat, i: nat, j: nat, bytes: seq<int>): Option<Mem> {
    var a :- Alloc(m, DataKind);
    MapAddress(SetBytes(a.0, a.1, bytes), d, i, j, a.1, FLAG_US, true)
  }

  /** ref_zero_frame: COW::ref with ref_only set. */
  function RefZero(m: Mem): Mem {
    IncRef(m, m.zero).(kernelRefs := m.kernelRefs + 1)
  }

  /** The demand-paging branch that maps the zero frame, read-only; the new entry takes over the reference. */
  function ZeroMap(m: Mem, d: nat, i: nat, j: nat): Option<Mem> {
    var m1 :- MapAddress(RefZero(m), d, i, j, m.zero, FLAG_US, false);
    Some(m1.(kernelRefs := m.kernelRefs))
  }

  /** new_directory: the user part of the base directory is empty. */
  function NewDirectory(m: Mem, base: seq<Entry>): Option<(Mem, nat)> {
    var a :- Alloc(m, DirectoryKind);
    Some((a.0.(frames := a.0.frames[a.1 := Directory(base)]), a.1))
  }

  predicate Mapped(m: Mem, d: nat, i: nat, j: nat) {
    At(m, Loc(d, i)).pr && At(m, Loc(At(m, Loc(d, i)).frame, j)).pr
  }

  predicate MappedWritable(m: Mem, d: nat, i: nat, j: nat) {
    && Mapped(m, d, i, j)
    && At(m, Loc(d, i)).rw && At(m, Loc(At(m, Loc(d, i)).frame, j)).rw
  }

  /** A user-mode store to a mapped page: it faults first unless both entries are writable. */
  function Store(m: Mem, d: nat, i: nat, j: nat, offset: nat, v: int): Option<Mem> {
    var m1 :- if MappedWritable(m, d, i, j) then Some(m) else WriteFault(m, d, i, j);
    var f := At(m1, Loc(At(m1, Loc(d, i)).frame, j)).frame;
    if offset < |BytesOf(m1, f)| then Some(SetBytes(m1, f, BytesOf(m1, f)[offset := v])) else Some(m1)
  }
}
