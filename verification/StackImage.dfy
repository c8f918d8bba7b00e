/**
 The initial stack of a process (set_up_stack in kernel/vmm.cc): what its bytes are and what a
 program reads from them.  Strings are their bytes without the terminator.
 */
module StackImage {
  import Bounds
  import opened Modular

  const USER_STACK_START := Bounds.SHARED_ADDRESS

  type Text = seq<int>

  ghost predicate IsText(s: Text) {
    forall k :: 0 <= k < |s| ==> 0 < s[k] < 256
  }

  ghost predicate AreTexts(strs: seq<Text>) {
    forall i :: 0 <= i < |strs| ==> IsText(strs[i])
  }

  // ---------------------------------------------------------------------------------------
  // The bytes
  // ---------------------------------------------------------------------------------------

  /** The little-endian bytes of a word. */
  function Le(w: nat): (b: seq<int>)
    ensures |b| == 4
  {
    [w % 0x100, w / 0x100 % 0x100, w / 0x100 / 0x100 % 0x100, w / 0x100 / 0x100 / 0x100 % 0x100]
  }

  function WordBytes(ws: seq<nat>): (b: seq<int>)
    ensures |b| == 4 * |ws|
  {
    if ws == [] then [] else WordBytes(ws[..|ws| - 1]) + Le(ws[|ws| - 1])
  }

  /** The strings one after the other, each with its terminator. */
  function Flat(strs: seq<Text>): seq<int> {
    if strs == [] then [] else Flat(strs[..|strs| - 1]) + strs[|strs| - 1] + [0]
  }

  /** Where each string starts when they are laid out from `base` on. */
  function Starts(strs: seq<Text>, base: nat): (r: seq<nat>)
    ensures |r| == |strs|
  {
    if strs == [] then [] else Starts(strs[..|strs| - 1], base) + [base + |Flat(strs[..|strs| - 1])|]
  }

  /** The bytes taken by the words: argc, argv, envp and the two pointer arrays with their ends. */
  function PointerSpace(args: nat, envs: nat): nat {
    4 + 4 + 4 + 4 * (args + 1) + 4 * (envs + 1)
  }

  function PointerWords(sp: nat, argv: seq<Text>, envp: seq<Text>): (r: seq<nat>)
    ensures 4 * |r| == PointerSpace(|argv|, |envp|)
  {
    var data := sp + PointerSpace(|argv|, |envp|);
    [|argv|, sp + 12, sp + 12 + 4 * (|argv| + 1)] + Starts(argv, data) + [0] + Starts(envp, data + |Flat(argv)|) + [0]
  }

  function SpaceNeeded(argv: seq<Text>, envp: seq<Text>): nat {
    PointerSpace(|argv|, |envp|) + |Flat(argv)| + |Flat(envp)|
  }

  const STACK_ROOM := USER_STACK_START - Bounds.USER_MEM_START

  ghost predicate FitsStack(argv: seq<Text>, envp: seq<Text>) {
    SpaceNeeded(argv, envp) <= STACK_ROOM
  }

  /** The space below the stack start in 32-bit arithmetic, with the low four bits cleared. */
  function StackPointer(needed: nat): nat {
    (USER_STACK_START - needed) % WORD / 16 * 16
  }

  /** The address of byte `k` of the image, as the 32-bit additions compute it. */
  function ImageAddress(sp: nat, k: nat): nat {
    (sp + k) % WORD
  }

  predicate InUserMemory(a: nat) {
    Bounds.USER_MEM_START <= a < USER_STACK_START
  }

  /** The pointer is aligned, and pointers and strings fit between it and the end of the stack. */
  lemma StackPointerOk(argv: seq<Text>, envp: seq<Text>)
    requires FitsStack(argv, envp)
    ensures var sp := StackPointer(SpaceNeeded(argv, envp));
            sp % 16 == 0 && Bounds.USER_MEM_START <= sp && sp + SpaceNeeded(argv, envp) <= USER_STACK_START
  {
    var rest := USER_STACK_START - SpaceNeeded(argv, envp);
    Unique(rest, WORD, 0, rest);
  }

  /** Every byte of the image lies in user memory exactly when it is no larger than user memory. */
  lemma ImageInUserMemoryIff(argv: seq<Text>, envp: seq<Text>)
    ensures var sp := StackPointer(SpaceNeeded(argv, envp));
            (forall k: nat :: k < SpaceNeeded(argv, envp) ==> InUserMemory(ImageAddress(sp, k)))
            <==> FitsStack(argv, envp)
  {
    var needed := SpaceNeeded(argv, envp);
    var sp := StackPointer(needed);
    if FitsStack(argv, envp) {
      StackPointerOk(argv, envp);
      forall k: nat | k < needed
        ensures InUserMemory(ImageAddress(sp, k))
      {
        Unique(sp + k, WORD, 0, sp + k);
      }
    } else if InUserMemory(ImageAddress(sp, 0)) {
      var k := USER_STACK_START - sp;
      Unique(sp, WORD, 0, sp);
      Unique(sp + k, WORD, 0, sp + k);
      assert !InUserMemory(ImageAddress(sp, k));
    }
  }

  /** One argument of this length needs one byte too many: the stack pointer falls below user memory. */
  lemma LongArgumentLeavesUserMemory()
    ensures var argv := [seq(STACK_ROOM - 24, _ => 1)];
            && AreTexts(argv) && SpaceNeeded(argv, []) == STACK_ROOM + 1
            && StackPointer(SpaceNeeded(argv, [])) == Bounds.USER_MEM_START - 16
  {
    var text: Text := seq(STACK_ROOM - 24, _ => 1);
    assert Flat([text]) == Flat([]) + text + [0] by {
      assert [text][..0] == [];
    }
    var rest := USER_STACK_START - (STACK_ROOM + 1);
    Unique(rest, WORD, 0, rest);
  }

  /** The strings of `n` pointers to one text. */
  function Repeated(text: Text, n: nat): (r: seq<Text>)
    ensures |r| == n && forall i :: 0 <= i < n ==> r[i] == text
  {
    seq(n, _ => text)
  }

  lemma {:induction false} RepeatedFlat(text: Text, n: nat)
    ensures |Flat(Repeated(text, n))| == n * (|text| + 1)
  {
    var strs := Repeated(text, n);
    if n == 0 {
      assert strs == [];
    } else {
      RepeatedFlat(text, n - 1);
      assert strs[..n - 1] == Repeated(text, n - 1);
      assert |Flat(strs)| == |Flat(strs[..n - 1])| + |text| + 1;
      assert n * (|text| + 1) == (n - 1) * (|text| + 1) + |text| + 1;
    }
  }

  /**
   The text is counted once for every pointer to it: a vector of 28672 pointers to one text of
   65531 bytes takes a caller less than 200 KB and puts the stack pointer below user memory.
   */
  lemma RepeatedArgumentLeavesUserMemory(text: Text)
    requires IsText(text) && |text| == 0xFFFB
    ensures var argv := Repeated(text, 0x7000);
            && AreTexts(argv) && 4 * (|argv| + 1) + |text| + 1 < 200_000
            && SpaceNeeded(argv, []) == STACK_ROOM + 20
            && StackPointer(SpaceNeeded(argv, [])) == Bounds.USER_MEM_START - 32
  {
    RepeatedFlat(text, 0x7000);
    var rest := USER_STACK_START - (STACK_ROOM + 20);
    Unique(rest, WORD, 0, rest);
  }

  // ---------------------------------------------------------------------------------------
  // What a program reads
  // ---------------------------------------------------------------------------------------

  function ReadWord(mem: nat -> int, a: nat): int {
    mem(a) + 0x100 * mem(a + 1) + 0x1_0000 * mem(a + 2) + 0x100_0000 * mem(a + 3)
  }

  function Peek(mem: nat -> int, a: nat, k: nat): int {
    mem(a + k)
  }

  /** The zero-terminated string at `a` is `s`. */
  ghost predicate IsString(mem: nat -> int, a: int, s: Text) {
    0 <= a && IsText(s) && (forall k: nat :: k < |s| ==> Peek(mem, a, k) == s[k]) && Peek(mem, a, |s|) == 0
  }

  /** The pointer array at `p` names the strings and ends with a null pointer. */
  ghost predicate IsVector(mem: nat -> int, p: int, strs: seq<Text>) {
    && 0 <= p
    && (forall i: nat :: i < |strs| ==> 0 < PointerAt(mem, p, i) && IsString(mem, PointerAt(mem, p, i), strs[i]))
    && PointerAt(mem, p, |strs|) == 0
  }

  /** Starting from the stack pointer a program finds these arguments and this environment. */
  ghost predicate Decodes(mem: nat -> int, sp: nat, argv: seq<Text>, envp: seq<Text>) {
    && ReadWord(mem, sp) == |argv|
    && IsVector(mem, ReadWord(mem, sp + 4), argv)
    && IsVector(mem, ReadWord(mem, sp + 8), envp)
  }

  // ---------------------------------------------------------------------------------------
  // Decoding is unambiguous
  // ---------------------------------------------------------------------------------------

  lemma StringUnique(mem: nat -> int, a: int, s: Text, t: Text)
    requires IsString(mem, a, s) && IsString(mem, a, t)
    ensures s == t
  {
    hide Peek;
    assert forall k: nat :: k < |s| ==> Peek(mem, a, k) != 0;
    assert forall k: nat :: k < |t| ==> Peek(mem, a, k) != 0;
    assert |s| == |t|;
    forall k: nat | k < |s|
      ensures s[k] == t[k]
    {
      assert Peek(mem, a, k) == s[k];
    }
  }

  /** Entry `i` of a pointer array. */
  function PointerAt(mem: nat -> int, p: nat, i: nat): int {
    ReadWord(mem, p + 4 * i)
  }

  lemma VectorUnique(mem: nat -> int, p: int, s: seq<Text>, t: seq<Text>)
    requires IsVector(mem, p, s) && IsVector(mem, p, t)
    ensures s == t
  {
    hide PointerAt, IsString;
    assert forall i: nat :: i < |s| ==> PointerAt(mem, p, i) != 0;
    assert forall i: nat :: i < |t| ==> PointerAt(mem, p, i) != 0;
    assert |s| == |t|;
    forall i: nat | i < |s|
      ensures s[i] == t[i]
    {
      StringUnique(mem, PointerAt(mem, p, i), s[i], t[i]);
    }
  }

  lemma DecodeUnique(mem: nat -> int, sp: nat, argv: seq<Text>, envp: seq<Text>, argv': seq<Text>, envp': seq<Text>)
    requires Decodes(mem, sp, argv, envp) && Decodes(mem, sp, argv', envp')
    ensures argv == argv' && envp == envp'
  {
    VectorUnique(mem, ReadWord(mem, sp + 4), argv, argv');
    VectorUnique(mem, ReadWord(mem, sp + 8), envp, envp');
  }

  // ---------------------------------------------------------------------------------------
  // Round trip
  // ---------------------------------------------------------------------------------------

  ghost predicate Shown(mem: nat -> int, base: nat, bytes: seq<int>) {
    forall k: nat :: k < |bytes| ==> Peek(mem, base, k) == bytes[k]
  }

  lemma LeValue(w: nat)
    requires w < WORD
    ensures var b := Le(w); b[0] + 0x100 * b[1] + 0x1_0000 * b[2] + 0x100_0000 * b[3] == w
  {
  }

  lemma {:induction false} WordShown(mem: nat -> int, base: nat, ws: seq<nat>, k: nat)
    requires Shown(mem, base, WordBytes(ws)) && k < |ws| && ws[k] < WORD
    ensures PointerAt(mem, base, k) == ws[k]
  {
    var front := ws[..|ws| - 1];
    var b := WordBytes(ws);
    assert b == WordBytes(front) + Le(ws[|ws| - 1]);
    if k == |ws| - 1 {
      LeValue(ws[k]);
      assert Peek(mem, base, 4 * k) == b[4 * k] && Peek(mem, base, 4 * k + 1) == b[4 * k + 1];
      assert Peek(mem, base, 4 * k + 2) == b[4 * k + 2] && Peek(mem, base, 4 * k + 3) == b[4 * k + 3];
    } else {
      ShownParts(mem, base, WordBytes(front), Le(ws[|ws| - 1]));
      WordShown(mem, base, front, k);
    }
  }

  lemma ShownParts(mem: nat -> int, base: nat, a: seq<int>, b: seq<int>)
    requires Shown(mem, base, a + b)
    ensures Shown(mem, base, a) && Shown(mem, base + |a|, b)
  {
    forall k: nat | k < |a| ensures Peek(mem, base, k) == a[k] { assert (a + b)[k] == a[k]; }
    forall k: nat | k < |b| ensures Peek(mem, base + |a|, k) == b[k] {
      assert Peek(mem, base, |a| + k) == (a + b)[|a| + k];
    }
  }

  lemma {:induction false} StringShown(mem: nat -> int, base: nat, strs: seq<Text>, i: nat)
    requires Shown(mem, base, Flat(strs)) && i < |strs| && AreTexts(strs)
    ensures base <= Starts(strs, base)[i] < base + |Flat(strs)| && IsString(mem, Starts(strs, base)[i], strs[i])
  {
    var front := strs[..|strs| - 1];
    var last := strs[|strs| - 1];
    assert Flat(strs) == Flat(front) + (last + [0]);
    ShownParts(mem, base, Flat(front), last + [0]);
    if i == |strs| - 1 {
      ShownParts(mem, base + |Flat(front)|, last, [0]);
      assert Peek(mem, base + |Flat(front)| + |last|, 0) == 0;
      assert IsText(strs[i]);
    } else {
      assert front[i] == strs[i];
      StringShown(mem, base, front, i);
    }
  }

  /** The pointers at `p` are the starts of the strings laid out from `base` on. */
  ghost predicate PointsTo(mem: nat -> int, p: nat, strs: seq<Text>, base: nat) {
    forall i: nat {:trigger PointerAt(mem, p, i)} :: i < |strs| ==> PointerAt(mem, p, i) == Starts(strs, base)[i]
  }

  /** A pointer array over shown strings is a vector. */
  lemma VectorShown(mem: nat -> int, p: nat, base: nat, strs: seq<Text>)
    requires AreTexts(strs) && Shown(mem, base, Flat(strs)) && 0 < base
    requires PointsTo(mem, p, strs, base) && PointerAt(mem, p, |strs|) == 0
    ensures IsVector(mem, p, strs)
  {
    hide PointerAt, IsString, Shown;
    forall i: nat | i < |strs|
      ensures 0 < PointerAt(mem, p, i) && IsString(mem, PointerAt(mem, p, i), strs[i])
    {
      StringShown(mem, base, strs, i);
    }
  }

  lemma {:induction false} StartsSmall(strs: seq<Text>, base: nat, i: nat)
    requires i < |strs|
    ensures base <= Starts(strs, base)[i] < base + |Flat(strs)|
  {
    if i < |strs| - 1 {
      StartsSmall(strs[..|strs| - 1], base, i);
    }
  }

  /** The words of the pointer area, one by one. */
  lemma WordsAre(sp: nat, argv: seq<Text>, envp: seq<Text>)
    ensures var ws := PointerWords(sp, argv, envp); var n := |argv|;
            && |ws| == 5 + n + |envp|
            && ws[0] == n && ws[1] == sp + 12 && ws[2] == sp + 12 + 4 * (n + 1) && ws[3 + n] == 0 && ws[4 + n + |envp|] == 0
  {
  }

  lemma ArgWord(sp: nat, argv: seq<Text>, envp: seq<Text>, i: nat)
    requires i < |argv|
    ensures |PointerWords(sp, argv, envp)| == 5 + |argv| + |envp|
    ensures PointerWords(sp, argv, envp)[3 + i] == Starts(argv, sp + PointerSpace(|argv|, |envp|))[i]
  {
  }

  lemma EnvWord(sp: nat, argv: seq<Text>, envp: seq<Text>, i: nat)
    requires i < |envp|
    ensures |PointerWords(sp, argv, envp)| == 5 + |argv| + |envp|
    ensures PointerWords(sp, argv, envp)[4 + |argv| + i] == Starts(envp, sp + PointerSpace(|argv|, |envp|) + |Flat(argv)|)[i]
  {
  }

  lemma ArgPointer(mem: nat -> int, sp: nat, argv: seq<Text>, envp: seq<Text>, i: nat)
    requires sp + SpaceNeeded(argv, envp) <= WORD && Shown(mem, sp, WordBytes(PointerWords(sp, argv, envp))) && i < |argv|
    ensures PointerAt(mem, sp + 12, i) == Starts(argv, sp + PointerSpace(|argv|, |envp|))[i]
  {
    hide PointerWords, Shown, WordBytes;
    var data := sp + PointerSpace(|argv|, |envp|);
    ArgWord(sp, argv, envp, i);
    StartsSmall(argv, data, i);
    WordShown(mem, sp, PointerWords(sp, argv, envp), 3 + i);
    assert sp + 12 + 4 * i == sp + 4 * (3 + i);
  }

  lemma EnvPointer(mem: nat -> int, sp: nat, argv: seq<Text>, envp: seq<Text>, i: nat)
    requires sp + SpaceNeeded(argv, envp) <= WORD && Shown(mem, sp, WordBytes(PointerWords(sp, argv, envp))) && i < |envp|
    ensures PointerAt(mem, sp + 12 + 4 * (|argv| + 1), i) == Starts(envp, sp + PointerSpace(|argv|, |envp|) + |Flat(argv)|)[i]
  {
    hide PointerWords, Shown, WordBytes;
    var data := sp + PointerSpace(|argv|, |envp|);
    EnvWord(sp, argv, envp, i);
    StartsSmall(envp, data + |Flat(argv)|, i);
    WordShown(mem, sp, PointerWords(sp, argv, envp), 4 + |argv| + i);
    assert sp + 12 + 4 * (|argv| + 1) + 4 * i == sp + 4 * (4 + |argv| + i);
  }

  lemma ArgPointers(mem: nat -> int, sp: nat, argv: seq<Text>, envp: seq<Text>)
    requires sp + SpaceNeeded(argv, envp) <= WORD && Shown(mem, sp, WordBytes(PointerWords(sp, argv, envp)))
    ensures PointsTo(mem, sp + 12, argv, sp + PointerSpace(|argv|, |envp|))
  {
    hide PointerWords, Shown, WordBytes, PointerAt, Flat, Starts;
    var av, data := sp + 12, sp + PointerSpace(|argv|, |envp|);
    forall i: nat | i < |argv|
      ensures PointerAt(mem, av, i) == Starts(argv, data)[i]
    {
      ArgPointer(mem, sp, argv, envp, i);
    }
  }

  lemma EnvPointers(mem: nat -> int, sp: nat, argv: seq<Text>, envp: seq<Text>)
    requires sp + SpaceNeeded(argv, envp) <= WORD && Shown(mem, sp, WordBytes(PointerWords(sp, argv, envp)))
    ensures PointsTo(mem, sp + 12 + 4 * (|argv| + 1), envp, sp + PointerSpace(|argv|, |envp|) + |Flat(argv)|)
  {
    hide PointerWords, Shown, WordBytes, PointerAt, Flat, Starts;
    var ev, envData := sp + 12 + 4 * (|argv| + 1), sp + PointerSpace(|argv|, |envp|) + |Flat(argv)|;
    forall i: nat | i < |envp|
      ensures PointerAt(mem, ev, i) == Starts(envp, envData)[i]
    {
      EnvPointer(mem, sp, argv, envp, i);
    }
  }

  lemma FixedWords(mem: nat -> int, sp: nat, argv: seq<Text>, envp: seq<Text>)
    requires sp + SpaceNeeded(argv, envp) <= WORD && Shown(mem, sp, WordBytes(PointerWords(sp, argv, envp)))
    ensures ReadWord(mem, sp) == |argv| && ReadWord(mem, sp + 4) == sp + 12 && ReadWord(mem, sp + 8) == sp + 12 + 4 * (|argv| + 1)
    ensures PointerAt(mem, sp + 12, |argv|) == 0 && PointerAt(mem, sp + 12 + 4 * (|argv| + 1), |envp|) == 0
  {
    hide PointerWords, Shown, WordBytes, ReadWord;
    var ws := PointerWords(sp, argv, envp);
    WordsAre(sp, argv, envp);
    WordShown(mem, sp, ws, 0);
    WordShown(mem, sp, ws, 1);
    WordShown(mem, sp, ws, 2);
    WordShown(mem, sp, ws, 3 + |argv|);
    WordShown(mem, sp, ws, 4 + |argv| + |envp|);
    assert sp + 12 + 4 * |argv| == sp + 4 * (3 + |argv|);
    assert sp + 12 + 4 * (|argv| + 1) + 4 * |envp| == sp + 4 * (4 + |argv| + |envp|);
  }

  /**
   Any memory that holds the words at the stack pointer and the strings behind them is read back
   as exactly the arguments and the environment.
   */
  lemma RoundTrip(mem: nat -> int, sp: nat, argv: seq<Text>, envp: seq<Text>)
    requires AreTexts(argv) && AreTexts(envp) && 0 < sp && sp + SpaceNeeded(argv, envp) <= WORD
    requires Shown(mem, sp, WordBytes(PointerWords(sp, argv, envp)))
    requires Shown(mem, sp + PointerSpace(|argv|, |envp|), Flat(argv) + Flat(envp))
    ensures Decodes(mem, sp, argv, envp)
  {
    hide PointerWords, Shown, WordBytes, ReadWord, PointerAt, Flat, Starts, IsVector, PointsTo, AreTexts;
    var data := sp + PointerSpace(|argv|, |envp|);
    FixedWords(mem, sp, argv, envp);
    ShownParts(mem, data, Flat(argv), Flat(envp));
    var av, ev, envData := sp + 12, sp + 12 + 4 * (|argv| + 1), data + |Flat(argv)|;
    ArgPointers(mem, sp, argv, envp);
    EnvPointers(mem, sp, argv, envp);
    VectorShown(mem, av, data, argv);
    VectorShown(mem, ev, envData, envp);
  }
}
