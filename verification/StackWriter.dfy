/** set_up_stack (kernel/vmm.cc): arguments and environment written through the page tables of a new directory. */
module StackWriter {
  import Bounds
  import opened Paging
  import opened PagingInvariant
  import opened PagingLive
  import opened PagingMachine
  import opened PagingRoom
  import opened StackFrames
  import opened StackImage
  import opened StackPages
  import opened Wrappers

  /** What a user program reads at address `a`. */
  ghost function UserByte(m: Mem, d: nat, a: nat): int {
    var s := Seen(m, d, a);
    if s.Some? then s.value else 0
  }

  ghost function UserMemory(m: Mem, d: nat): nat -> int {
    (a: nat) => UserByte(m, d, a)
  }

  /** Addresses of the stack belong to the user part of the directory. */
  lemma StackIndex(a: nat)
    requires Bounds.USER_MEM_START <= a < USER_STACK_START
    ensures UserIndex(TableIndex(a))
  {
  }

  /** A remembered block is the frame of the page the next write goes to, unless that starts a page. */
  ghost predicate BlockOk(m: Mem, d: nat, address: nat, block: nat) {
    block != 0 && address % FRAME_SIZE != 0 ==> Owns(m, d, address, block)
  }

  lemma BlockAfter(m: Mem, d: nat, a: nat, f: nat, n: nat)
    requires Owns(m, d, a, f) && Offset(a) + n <= FRAME_SIZE
    ensures BlockOk(m, d, a + n, f)
  {
    if Offset(a) + n < FRAME_SIZE {
      OwnsNext(m, d, a, f, n);
    }
  }

  lemma BlockKept(m: Mem, m': Mem, d: nat, a: nat, f: nat, x: nat, bytes: seq<int>)
    requires Wrote(m, m', d, x, bytes) && BlockOk(m, d, a, f)
    ensures BlockOk(m', d, a, f)
  {
    if f != 0 && a % FRAME_SIZE != 0 {
      OwnsKept(m, m', d, a, f);
    }
  }

  lemma WordBytesMore(ws: seq<nat>, w: nat)
    ensures WordBytes(ws + [w]) == WordBytes(ws) + Le(w)
  {
    assert (ws + [w])[..|ws|] == ws;
  }

  lemma WrittenIsShown(m: Mem, d: nat, base: nat, bytes: seq<int>)
    requires Written(m, d, base, bytes)
    ensures Shown(UserMemory(m, d), base, bytes)
  {
    hide Seen;
    forall k: nat | k < |bytes|
      ensures Peek(UserMemory(m, d), base, k) == bytes[k]
    {
      assert Seen(m, d, base + k) == Some(bytes[k]);
    }
  }

  /** The pages of an image in user memory belong to the user part of the directory. */
  lemma ImagePages(sp: nat, end: nat)
    requires Bounds.USER_MEM_START <= sp < end <= USER_STACK_START
    ensures sp / FRAME_SIZE <= (end - 1) / FRAME_SIZE
    ensures UserIndex(sp / FRAME_SIZE / ENTRIES) && UserIndex((end - 1) / FRAME_SIZE / ENTRIES)
  {
  }

  /** An image whose bytes can all be read has all its pages mapped. */
  lemma ImageMapped(m: Mem, d: nat, sp: nat, end: nat)
    requires sp < end && forall a: nat :: sp <= a < end ==> Seen(m, d, a).Some?
    ensures Slack(m, d, sp / FRAME_SIZE, (end - 1) / FRAME_SIZE) == Available(m)
  {
    forall p: nat | sp / FRAME_SIZE <= p <= (end - 1) / FRAME_SIZE
      ensures Mapped(m, d, p / ENTRIES, p % ENTRIES)
    {
      var a := if p * FRAME_SIZE < sp then sp else p * FRAME_SIZE;
      assert a / FRAME_SIZE == p && Seen(m, d, a).Some?;
      ShownIsMapped(m, d, p / ENTRIES, p % ENTRIES);
    }
    AllMappedSlack(m, d, sp / FRAME_SIZE, (end - 1) / FRAME_SIZE);
  }

  lemma ShownIsMapped(m: Mem, d: nat, i: nat, j: nat)
    requires View(m, d, i, j, {}).Some?
    ensures Mapped(m, d, i, j)
  {
  }

  class StackBuilder {
    const machine: Machine
    const d: nat
    var pointerAddress: nat
    var pointerBlock: nat
    var dataAddress: nat
    var dataBlock: nat
    /** The stack pointer, the start of the strings, and the words and bytes written so far. */
    const sp: nat
    const data: nat
    /** Where the image ends. */
    ghost const end: nat
    ghost var words: seq<nat>
    ghost var bytes: seq<int>

    ghost predicate MachineOk()
      reads this, machine, machine.allocator
    {
      machine.Valid() && Inv(machine.State(), {}, {}) && PrivateDir(machine.State(), d)
    }

    ghost predicate InRange() {
      Bounds.USER_MEM_START <= sp < end <= USER_STACK_START
    }

    /** The frames left over once the whole image has its pages. */
    ghost function Left(): int
      reads this, machine, machine.allocator
    {
      if InRange() then Slack(machine.State(), d, sp / FRAME_SIZE, (end - 1) / FRAME_SIZE) else 0
    }

    ghost predicate Built()
      reads this, machine, machine.allocator
    {
      var m := machine.State();
      && MachineOk()
      && sp % 16 == 0 && InRange() && sp <= data && data + |bytes| <= end
      && pointerAddress == sp + 4 * |words| <= data && dataAddress == data + |bytes|
      && Written(m, d, sp, WordBytes(words)) && Written(m, d, data, bytes)
      && BlockOk(m, d, pointerAddress, pointerBlock) && BlockOk(m, d, dataAddress, dataBlock)
    }

    constructor (machine: Machine, d: nat, sp: nat, data: nat, ghost end: nat)
      requires machine.Valid() && Inv(machine.State(), {}, {}) && PrivateDir(machine.State(), d)
      requires sp % 16 == 0 && Bounds.USER_MEM_START <= sp <= data <= end <= USER_STACK_START && sp < end
      ensures Built() && this.machine == machine && this.d == d && this.sp == sp && this.data == data && this.end == end
      ensures words == [] && bytes == []
    {
      this.machine := machine;
      this.d := d;
      this.sp := sp;
      this.data := data;
      this.end := end;
      pointerAddress, pointerBlock, dataAddress, dataBlock := sp, 0, data, 0;
      words, bytes := [], [];
    }

    /** The frame of the page, mapped now if it is not yet; false is the panic for want of memory. */
    method FindBlock(address: nat) returns (ok: bool, block: nat)
      requires MachineOk() && InRange() && sp <= address < end
      modifies machine, machine.allocator
      ensures ok ==> MachineOk() && Wrote(old(machine.State()), machine.State(), d, address, [])
      ensures ok ==> Owns(machine.State(), d, address, block)
      ensures if ok then Left() == old(Left()) else old(Left()) < 0
    {
      var i, j := TableIndex(address), PageIndex(address);
      ghost var m := machine.State();
      StackIndex(address);
      WroteNothing(m, d, address);
      assert IsSlot(m, Loc(d, i));
      var entry := machine.frames[d].entries[i];
      if entry.pr && machine.frames[entry.frame].entries[j].pr {
        PresentPage(m, d, i, j);
        return true, machine.frames[entry.frame].entries[j].frame;
      }
      AbsentPage(m, d, i, j);
      ImagePages(sp, end);
      DemandMapSlack(m, d, address / FRAME_SIZE, sp / FRAME_SIZE, (end - 1) / FRAME_SIZE);
      hide Slack;
      CountedIsLive(m);
      ok := machine.FaultInPage(d, i, j, ZeroBytes());
      block := 0;
      if ok {
        PageIn(m, d, address);
        MappedSlots(machine.State(), d, i, j);
        block := machine.frames[machine.frames[d].entries[i].frame].entries[j].frame;
      }
    }

    /** write_stack_data */
    method WriteStackData(what: seq<int>, address: nat, block: nat) returns (ok: bool, now: nat)
      requires MachineOk() && InRange() && sp <= address && address + |what| <= end
      requires 0 < |what| && Offset(address) + |what| <= FRAME_SIZE && BlockOk(machine.State(), d, address, block)
      modifies machine, machine.allocator
      ensures ok ==> MachineOk() && Wrote(old(machine.State()), machine.State(), d, address, what)
      ensures ok ==> BlockOk(machine.State(), d, address + |what|, now)
      ensures if ok then Left() == old(Left()) else old(Left()) < 0
    {
      hide Inv, PrivateDir, Patched, Wrote, Seen, Keeps, Owns, TableIndex, Slack;
      ghost var m := machine.State();
      WroteNothing(m, d, address);
      StackIndex(address);
      ok, now := true, block;
      if block == 0 || address % FRAME_SIZE == 0 {
        ok, now := FindBlock(address);
        if !ok { return; }
      }
      ghost var m1 := machine.State();
      PatchPage(m1, d, address, now, what);
      BytesSlack(m1, now, Patched(m1.frames[now].bytes, Offset(address), what), d, sp / FRAME_SIZE, (end - 1) / FRAME_SIZE);
      assert now != 0;
      machine.SetFrameBytes(now, Patched(machine.frames[now].bytes, Offset(address), what));
      WroteMeans(m1, machine.State(), d, address, what);
      WroteTrans(m, m1, machine.State(), d, address, what);
      OwnsKept(m1, machine.State(), d, address, now);
      BlockAfter(machine.State(), d, address, now, |what|);
    }

    method PushWord(w: nat) returns (ok: bool)
      requires Built() && 4 * |words| + 4 <= data - sp
      modifies this, machine, machine.allocator
      ensures ok ==> Built() && words == old(words) + [w] && bytes == old(bytes)
      ensures if ok then Left() == old(Left()) else old(Left()) < 0
    {
      hide Slack, Inv, PrivateDir, Written, Owns, Le, WordBytes, BlockOk, Wrote;
      ghost var m := machine.State();
      WordFits(pointerAddress);
      ok, pointerBlock := WriteStackData(Le(w), pointerAddress, pointerBlock);
      if ok {
        WrittenMore(m, machine.State(), d, sp, WordBytes(words), Le(w));
        WrittenElsewhere(m, machine.State(), d, data, bytes, pointerAddress, Le(w));
        BlockKept(m, machine.State(), d, dataAddress, dataBlock, pointerAddress, Le(w));
        pointerAddress := pointerAddress + 4;
        WordBytesMore(words, w);
        words := words + [w];
      }
    }

    method PushByte(c: int) returns (ok: bool)
      requires Built() && data + |bytes| + 1 <= end
      modifies this, machine, machine.allocator
      ensures ok ==> Built() && bytes == old(bytes) + [c] && words == old(words)
      ensures if ok then Left() == old(Left()) else old(Left()) < 0
    {
      hide Slack, Inv, PrivateDir, Written, Owns, WordBytes, BlockOk, Wrote;
      ghost var m := machine.State();
      ok, dataBlock := WriteStackData([c], dataAddress, dataBlock);
      if ok {
        WrittenMore(m, machine.State(), d, data, bytes, [c]);
        WrittenElsewhere(m, machine.State(), d, sp, WordBytes(words), dataAddress, [c]);
        BlockKept(m, machine.State(), d, pointerAddress, pointerBlock, dataAddress, [c]);
        dataAddress := dataAddress + 1;
        bytes := bytes + [c];
      }
    }

    lemma BuiltMeans()
      requires Built()
      ensures dataAddress == data + |bytes| && MachineOk()
      ensures Left() == Slack(machine.State(), d, sp / FRAME_SIZE, (end - 1) / FRAME_SIZE)
      ensures Written(machine.State(), d, sp, WordBytes(words)) && Written(machine.State(), d, data, bytes)
    {
    }

    /** The characters of a string and its terminator. */
    method PushString(s: Text) returns (ok: bool)
      requires Built() && data + |bytes| + |s| + 1 <= end
      modifies this, machine, machine.allocator
      ensures ok ==> Built() && bytes == old(bytes) + s + [0] && words == old(words)
      ensures if ok then Left() == old(Left()) else old(Left()) < 0
    {
      hide Left;
      for j := 0 to |s|
        invariant Built() && bytes == old(bytes) + s[..j] && words == old(words) && Left() == old(Left())
      {
        ok := PushByte(s[j]);
        if !ok { return; }
        assert s[..j + 1] == s[..j] + [s[j]];
      }
      assert s[..|s|] == s;
      ok := PushByte(0);
    }

    /** A pointer array, its strings and its null pointer. */
    method PushVector(strs: seq<Text>) returns (ok: bool)
      requires Built() && 4 * |words| + 4 * (|strs| + 1) <= data - sp && data + |bytes| + |Flat(strs)| <= end
      modifies this, machine, machine.allocator
      ensures ok ==> Built() && words == old(words) + Starts(strs, old(dataAddress)) + [0] && bytes == old(bytes) + Flat(strs)
      ensures if ok then Left() == old(Left()) else old(Left()) < 0
    {
      hide Built, Flat, Starts, Left;
      BuiltMeans();
      NoStrings(strs, dataAddress);
      for i := 0 to |strs|
        invariant Built() && Left() == old(Left())
        invariant words == old(words) + Starts(strs[..i], old(dataAddress)) && bytes == old(bytes) + Flat(strs[..i])
      {
        BuiltMeans();
        NextString(strs, i, old(dataAddress));
        FlatShorter(strs, i + 1);
        ok := PushWord(dataAddress);
        if !ok { return; }
        ok := PushString(strs[i]);
        if !ok { return; }
      }
      assert strs[..|strs|] == strs;
      ok := PushWord(0);
    }

    /** argc and the addresses of the two pointer arrays. */
    method PushFixed(nArgs: nat) returns (ok: bool)
      requires Built() && words == [] && 12 <= data - sp
      modifies this, machine, machine.allocator
      ensures ok ==> Built() && words == [nArgs] + [sp + 12] + [sp + 12 + 4 * (nArgs + 1)] && bytes == old(bytes)
      ensures if ok then Left() == old(Left()) else old(Left()) < 0
    {
      hide Left, Built;
      ok := PushWord(nArgs);
      if !ok { return; }
      ok := PushWord(sp + 12);
      if !ok { return; }
      ok := PushWord(sp + 12 + 4 * (nArgs + 1));
    }

    /** The body of set_up_stack. */
    method PushAll(argv: seq<Text>, envp: seq<Text>) returns (ok: bool)
      requires Built() && words == [] && bytes == [] && data == sp + PointerSpace(|argv|, |envp|)
      requires data + |Flat(argv)| + |Flat(envp)| <= end
      modifies this, machine, machine.allocator
      ensures ok ==> Built() && words == PointerWords(sp, argv, envp) && bytes == Flat(argv) + Flat(envp)
      ensures if ok then Left() == old(Left()) else old(Left()) < 0
    {
      hide Left, Built, Flat, Starts, PointerWords, Written, MachineOk, WordBytes;
      BuiltMeans();
      ok := PushFixed(|argv|);
      if !ok { return; }
      BuiltMeans();
      ok := PushVector(argv);
      if !ok { return; }
      BuiltMeans();
      ok := PushVector(envp);
      WordsJoin(sp, argv, envp);
    }
  }

  lemma WordsJoin(sp: nat, argv: seq<Text>, envp: seq<Text>)
    ensures var data := sp + PointerSpace(|argv|, |envp|);
            [|argv|] + [sp + 12] + [sp + 12 + 4 * (|argv| + 1)] + Starts(argv, data) + [0] + Starts(envp, data + |Flat(argv)|) + [0]
            == PointerWords(sp, argv, envp)
  {
    hide Starts, Flat;
    var data := sp + PointerSpace(|argv|, |envp|);
    JoinFixed(|argv|, sp + 12, sp + 12 + 4 * (|argv| + 1), Starts(argv, data), Starts(envp, data + |Flat(argv)|));
  }

  lemma JoinFixed(a: nat, b: nat, c: nat, s: seq<nat>, t: seq<nat>)
    ensures [a] + [b] + [c] + s + [0] + t + [0] == [a, b, c] + s + [0] + t + [0]
  {
    assert [a] + [b] + [c] == [a, b, c];
  }

  lemma NoStrings(strs: seq<Text>, base: nat)
    ensures Flat(strs[..0]) == [] && Starts(strs[..0], base) == []
  {
  }

  lemma NextString(strs: seq<Text>, i: nat, base: nat)
    requires i < |strs|
    ensures Flat(strs[..i + 1]) == Flat(strs[..i]) + strs[i] + [0]
    ensures Starts(strs[..i + 1], base) == Starts(strs[..i], base) + [base + |Flat(strs[..i])|]
  {
    assert strs[..i + 1][..i] == strs[..i];
  }

  lemma {:induction false} FlatShorter(strs: seq<Text>, i: nat)
    requires i <= |strs|
    ensures |Flat(strs[..i])| <= |Flat(strs)|
    decreases |strs| - i
  {
    if i == |strs| {
      assert strs[..i] == strs;
    } else {
      NextString(strs, i, 0);
      FlatShorter(strs, i + 1);
    }
  }

  lemma WordFits(a: nat)
    requires a % 4 == 0
    ensures Offset(a) + 4 <= FRAME_SIZE
  {
  }

  lemma PresentPage(m: Mem, d: nat, i: nat, j: nat)
    requires Inv(m, {}, {}) && PrivateDir(m, d) && UserIndex(i) && j < ENTRIES && Mapped(m, d, i, j)
    ensures MappedWritable(m, d, i, j)
  {
    var t := At(m, Loc(d, i)).frame;
    assert IsSlot(m, Loc(d, i)) && IsSlot(m, Loc(t, j));
    assert View(m, d, i, j, {}).Some?;
  }

  lemma AbsentPage(m: Mem, d: nat, i: nat, j: nat)
    requires !Mapped(m, d, i, j)
    ensures View(m, d, i, j, {}).None?
  {
  }

  lemma MappedSlots(m: Mem, d: nat, i: nat, j: nat)
    requires MappedWritable(m, d, i, j)
    ensures IsEntry(m, Loc(d, i)) && IsEntry(m, Loc(At(m, Loc(d, i)).frame, j))
  {
  }

  lemma ImageSeen(m: Mem, d: nat, sp: nat, words: seq<int>, bytes: seq<int>, end: nat)
    requires Written(m, d, sp, words) && Written(m, d, sp + |words|, bytes) && end == sp + |words| + |bytes|
    ensures forall a: nat :: sp <= a < end ==> Seen(m, d, a).Some?
  {
    hide Seen;
    forall a: nat | sp <= a < end
      ensures Seen(m, d, a).Some?
    {
      if a < sp + |words| {
        assert Seen(m, d, sp + (a - sp)) == Some(words[a - sp]);
      } else {
        assert Seen(m, d, sp + |words| + (a - sp - |words|)) == Some(bytes[a - sp - |words|]);
      }
    }
  }

  lemma AvailableIsLeft(m: Mem)
    requires Inv(m, {}, {})
    ensures Available(m) >= 0
  {
  }

  /**
   set_up_stack on a directory without user pages: the program started with the returned pointer
   reads back argc, the arguments and the environment; false is the panic for want of memory.
   */
  method SetUpStack(machine: Machine, d: nat, totalLength: nat, argv: seq<Text>, envp: seq<Text>) returns (ok: bool, sp: nat)
    requires machine.Valid() && Inv(machine.State(), {}, {}) && PrivateDir(machine.State(), d)
    requires AreTexts(argv) && AreTexts(envp) && FitsStack(argv, envp) && totalLength == |Flat(argv)| + |Flat(envp)|
    modifies machine, machine.allocator
    ensures ok ==> machine.Valid() && Inv(machine.State(), {}, {}) && PrivateDir(machine.State(), d)
    ensures sp % 16 == 0 && Bounds.USER_MEM_START <= sp && sp + SpaceNeeded(argv, envp) <= USER_STACK_START
    ensures ok ==> Decodes(UserMemory(machine.State(), d), sp, argv, envp)
    ensures ok <==> 0 <= Slack(old(machine.State()), d, sp / FRAME_SIZE, (sp + SpaceNeeded(argv, envp) - 1) / FRAME_SIZE)
  {
    hide Slack, Flat, Starts, PointerWords, Decodes, Written, Shown, Inv, PrivateDir, StackPointer, WordBytes;
    var pointerSpace := PointerSpace(|argv|, |envp|);
    sp := StackPointer(pointerSpace + totalLength);
    StackPointerOk(argv, envp);
    ghost var end := sp + SpaceNeeded(argv, envp);
    var b := new StackBuilder(machine, d, sp, sp + pointerSpace, end);
    b.BuiltMeans();
    ok := b.PushAll(argv, envp);
    if ok {
      b.BuiltMeans();
      WrittenIsShown(machine.State(), d, sp, WordBytes(b.words));
      WrittenIsShown(machine.State(), d, sp + pointerSpace, b.bytes);
      RoundTrip(UserMemory(machine.State(), d), sp, argv, envp);
      ImageSeen(machine.State(), d, sp, WordBytes(b.words), b.bytes, end);
      ImageMapped(machine.State(), d, sp, end);
      AvailableIsLeft(machine.State());
    }
  }
}
