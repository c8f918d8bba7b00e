/**
 Concurrent COW::copy calls on one shared data frame (kernel/cow.cc).

 Every entry naming the frame belongs to one process, which may at any time start to copy.  The
 counter `refs` and the lock count `lock` are changed by single atomic adds; between any two of
 them another processor may run.  The lock count is 8 bits wide.
 */
module CowConcurrency {
  import opened Sets

  const LOCK_MOD := 256
  const COUNTER_MOD := 0x1_0000_0000

  /** Where a copier stands.  Idle is before the call, Owner and Done are after it. */
  datatype Pc =
    | Idle
    | Locked                 // page_locks raised
    | Last                   // ref_counts fell to 0
    | Waiting                // page_locks lowered again, spinning until it is 0
    | Ready                  // saw page_locks at 0
    | Owner                  // entry made writable in place
    | Copying(done: nat)     // ref_counts is not 0: words copied so far
    | Unlocked               // page_locks lowered after the copy
    | Done                   // entry points at the copy

  datatype State = State(refs: nat, lock: nat, frame: seq<int>, pcs: seq<Pc>, copies: seq<seq<int>>)

  /**
   `n` read-only entries name the frame and nobody has started.  The kernel holds `kernel` further
   references it never gives up: one on the zero frame, none on any other.
   */
  predicate Init(s: State, n: nat, kernel: nat, frame: seq<int>) {
    && s.refs == n + kernel && s.lock == 0 && s.frame == frame
    && |s.pcs| == |s.copies| == n
    && (forall i :: 0 <= i < n ==> s.pcs[i] == Idle && s.copies[i] == [])
  }

  function Goto(s: State, i: nat, pc: Pc): State
    requires i < |s.pcs|
  {
    s.(pcs := s.pcs[i := pc])
  }

  function Raise(s: State): State {
    s.(lock := (s.lock + 1) % LOCK_MOD)
  }

  function Lower(s: State): State {
    s.(lock := if s.lock == 0 then LOCK_MOD - 1 else s.lock - 1)
  }

  /** The copying process `i` takes its next step; only the spin in Waiting has to wait. */
  predicate Step(s: State, s': State, i: nat)
    requires i < |s.pcs| == |s.copies|
  {
    match s.pcs[i]
    case Idle => s' == Goto(Raise(s), i, Locked)
    case Locked =>
      s' == Goto(s.(refs := if s.refs == 0 then COUNTER_MOD - 1 else s.refs - 1), i,
                 if s.refs == 1 then Last else Copying(0))
    case Last => s' == Goto(Lower(s), i, Waiting)
    case Waiting => s.lock == 0 && s' == Goto(s, i, Ready)
    case Ready => s' == Goto(s, i, Owner)
    case Copying(k) =>
      if k < |s.frame| then s' == Goto(s, i, Copying(k + 1)).(copies := s.copies[i := s.copies[i] + [s.frame[k]]])
      else s' == Goto(Lower(s), i, Unlocked)
    case Unlocked => s' == Goto(s, i, Done)
    case Owner => s' == s.(frame := s'.frame) && |s'.frame| == |s.frame|   // the process stores to its page
    case Done => s' == s
  }

  /** A finite run from an initial state. */
  ghost predicate IsRun(run: seq<State>, n: nat, kernel: nat, frame: seq<int>) {
    && |run| > 0 && Init(run[0], n, kernel, frame)
    && (forall k :: 0 <= k < |run| - 1 ==> Next(run[k], run[k + 1]))
  }

  ghost predicate Next(s: State, s': State) {
    exists i: nat :: i < |s.pcs| == |s.copies| && Step(s, s', i)
  }

  // ---------------------------------------------------------------------------------------
  // Safety
  // ---------------------------------------------------------------------------------------

  /** Has not lowered ref_counts yet. */
  predicate Open(pc: Pc) {
    pc.Idle? || pc.Locked?
  }

  /** Counts towards page_locks. */
  predicate Holds(pc: Pc) {
    pc.Locked? || pc.Last? || pc.Copying?
  }

  ghost function Undecided(s: State): set<nat> {
    set i | 0 <= i < |s.pcs| && Open(s.pcs[i])
  }

  ghost function Holders(s: State): set<nat> {
    set i | 0 <= i < |s.pcs| && Holds(s.pcs[i])
  }

  predicate Chosen(pc: Pc) {
    pc.Last? || pc.Waiting? || pc.Ready? || pc.Owner?
  }

  /** What a copier holds is a true prefix of the frame's first contents. */
  ghost predicate CopyOk(pc: Pc, copy: seq<int>, frame: seq<int>) {
    match pc
    case Copying(k) => k <= |frame| && copy == frame[..k]
    case Unlocked => copy == frame
    case Done => copy == frame
    case _ => copy == []
  }

  ghost predicate CountsOk(s: State, kernel: nat) {
    s.refs == |Undecided(s)| + kernel && s.lock == |Holders(s)| % LOCK_MOD
  }

  /** Whoever took the last reference is the only one left that could keep the frame. */
  ghost predicate ChosenOk(s: State) {
    && (forall i :: 0 <= i < |s.pcs| && Chosen(s.pcs[i]) ==> s.refs == 0)
    && (forall i, j :: 0 <= i < |s.pcs| && 0 <= j < |s.pcs| && Chosen(s.pcs[i]) && Chosen(s.pcs[j]) ==> i == j)
  }

  ghost predicate AloneOk(s: State) {
    forall i :: 0 <= i < |s.pcs| && (s.pcs[i].Ready? || s.pcs[i].Owner?) ==> Holders(s) == {}
  }

  ghost predicate CopiesOk(s: State, frame: seq<int>)
    requires |s.pcs| == |s.copies|
  {
    && (forall i :: 0 <= i < |s.pcs| ==> CopyOk(s.pcs[i], s.copies[i], frame))
    && ((forall i :: 0 <= i < |s.pcs| ==> !s.pcs[i].Owner?) ==> s.frame == frame)
  }

  ghost predicate Inv(s: State, n: nat, kernel: nat, frame: seq<int>) {
    && |s.pcs| == |s.copies| == n && |s.frame| == |frame|
    && CountsOk(s, kernel) && ChosenOk(s) && AloneOk(s) && CopiesOk(s, frame)
  }

  /** No entry is writable in place while another copier still reads, at most one ever is, and
      every finished copy is the frame as it was. */
  ghost predicate Safe(s: State, frame: seq<int>) {
    && |s.copies| == |s.pcs|
    && (forall i, j :: 0 <= i < |s.pcs| && 0 <= j < |s.pcs| && s.pcs[i].Owner? ==> !s.pcs[j].Copying?)
    && (forall i, j :: 0 <= i < |s.pcs| && 0 <= j < |s.pcs| && s.pcs[i].Owner? && s.pcs[j].Owner? ==> i == j)
    && (forall i :: 0 <= i < |s.pcs| && s.pcs[i].Done? ==> s.copies[i] == frame)
  }

  lemma InitInv(s: State, n: nat, kernel: nat, frame: seq<int>)
    requires Init(s, n, kernel, frame)
    ensures Inv(s, n, kernel, frame)
  {
    assert Holders(s) == {};
    assert Undecided(s) == Upto(n);
  }

  lemma StepSets(s: State, s': State, i: nat)
    requires i < |s.pcs| == |s.copies| && Step(s, s', i)
    ensures |s'.pcs| == |s.pcs| && forall j :: 0 <= j < |s.pcs| && j != i ==> s'.pcs[j] == s.pcs[j]
    ensures Holders(s') == Holders(s) - {i} + (if Holds(s'.pcs[i]) then {i} else {})
    ensures Undecided(s') == Undecided(s) - {i} + (if Open(s'.pcs[i]) then {i} else {})
    ensures i in Holders(s) <==> Holds(s.pcs[i])
    ensures i in Undecided(s) <==> Open(s.pcs[i])
  {
  }

  lemma StepNumbers(s: State, s': State, i: nat)
    requires i < |s.pcs| == |s.copies| && Step(s, s', i)
    ensures |s'.pcs| == |s.pcs|
    ensures |Undecided(s')| == |Undecided(s)| - (if Open(s.pcs[i]) then 1 else 0) + (if Open(s'.pcs[i]) then 1 else 0)
    ensures |Holders(s')| == |Holders(s)| - (if Holds(s.pcs[i]) then 1 else 0) + (if Holds(s'.pcs[i]) then 1 else 0)
    ensures Holds(s.pcs[i]) ==> Holders(s) != {}
    ensures Holders(s) == {} && !Holds(s'.pcs[i]) ==> Holders(s') == {}
    ensures Open(s.pcs[i]) ==> |Undecided(s)| >= 1
  {
    StepSets(s, s', i);
    hide Step;
    Replaced(Undecided(s), Undecided(s'), i, Open(s.pcs[i]), Open(s'.pcs[i]));
    Replaced(Holders(s), Holders(s'), i, Holds(s.pcs[i]), Holds(s'.pcs[i]));
  }

  lemma StepCounts(s: State, s': State, i: nat, kernel: nat)
    requires CountsOk(s, kernel) && i < |s.pcs| == |s.copies| && Step(s, s', i)
    ensures CountsOk(s', kernel)
  {
    StepNumbers(s, s', i);
    LockArithmetic(|Holders(s)|);
    hide Undecided, Holders;
  }

  lemma LockArithmetic(k: nat)
    ensures (k % LOCK_MOD + 1) % LOCK_MOD == (k + 1) % LOCK_MOD
    ensures k >= 1 ==> (k - 1) % LOCK_MOD == if k % LOCK_MOD == 0 then LOCK_MOD - 1 else k % LOCK_MOD - 1
  {
  }

  /** With at most 256 entries, a lock count of 0 seen by the waiting copier means nobody holds it. */
  lemma ZeroMeansNobody(s: State, i: nat, kernel: nat)
    requires CountsOk(s, kernel) && i < |s.pcs| <= LOCK_MOD && s.pcs[i].Waiting? && s.lock == 0
    ensures Holders(s) == {}
  {
    var h := Holders(s);
    assert i !in h;
    Bounded(h + {i}, |s.pcs|);
    assert |h + {i}| == |h| + 1;
  }

  lemma StepChosen(s: State, s': State, i: nat, kernel: nat)
    requires s.refs == |Undecided(s)| + kernel && ChosenOk(s) && i < |s.pcs| == |s.copies| && Step(s, s', i)
    ensures ChosenOk(s')
  {
    assert Open(s.pcs[i]) ==> i in Undecided(s);
    var pc := s.pcs[i];
    var r := s.refs;
    assert Open(pc) ==> r >= 1;
    hide Undecided;
    match pc
    case Idle =>
    case Locked =>
      assert forall j :: 0 <= j < |s.pcs| ==> !Chosen(s.pcs[j]);
    case Last =>
    case Waiting =>
    case Ready =>
    case Copying(k) =>
    case Unlocked =>
    case Owner =>
    case Done =>
  }

  /** A waiting copier took the last reference, which it cannot while the kernel holds one. */
  lemma StepAlone(s: State, s': State, i: nat, kernel: nat)
    requires CountsOk(s, kernel) && ChosenOk(s) && AloneOk(s) && i < |s.pcs| == |s.copies| && Step(s, s', i)
    requires |s.pcs| <= LOCK_MOD || kernel > 0
    ensures AloneOk(s')
  {
    StepNumbers(s, s', i);
    if s.pcs[i].Waiting? {
      ZeroMeansNobody(s, i, kernel);
    }
    assert Open(s.pcs[i]) ==> s.refs >= 1;
    hide Undecided, Holders, CountsOk;
  }

  lemma StepCopies(s: State, s': State, i: nat, frame: seq<int>)
    requires |s.pcs| == |s.copies| && |s.frame| == |frame| && i < |s.pcs| && Step(s, s', i)
    requires AloneOk(s) && CopiesOk(s, frame)
    ensures CopiesOk(s', frame)
  {
    if s.pcs[i].Copying? {
      assert i in Holders(s);
      assert frame[..|frame|] == frame;
    }
  }

  lemma StepInv(s: State, s': State, i: nat, n: nat, kernel: nat, frame: seq<int>)
    requires Inv(s, n, kernel, frame) && i < n && Step(s, s', i) && (n <= LOCK_MOD || kernel > 0)
    ensures Inv(s', n, kernel, frame)
  {
    StepCounts(s, s', i, kernel);
    StepChosen(s, s', i, kernel);
    StepAlone(s, s', i, kernel);
    StepCopies(s, s', i, frame);
  }

  lemma {:induction false} RunInv(run: seq<State>, n: nat, kernel: nat, frame: seq<int>, k: nat)
    requires IsRun(run, n, kernel, frame) && (n <= LOCK_MOD || kernel > 0) && k < |run|
    ensures Inv(run[k], n, kernel, frame)
  {
    if k == 0 {
      InitInv(run[0], n, kernel, frame);
    } else {
      RunInv(run, n, kernel, frame, k - 1);
      assert Next(run[k - 1], run[k - 1 + 1]);
      var i: nat :| i < |run[k - 1].pcs| == |run[k - 1].copies| && Step(run[k - 1], run[k], i);
      StepInv(run[k - 1], run[k], i, n, kernel, frame);
    }
  }

  lemma InvSafe(s: State, n: nat, kernel: nat, frame: seq<int>)
    requires Inv(s, n, kernel, frame)
    ensures Safe(s, frame)
  {
    forall i, j | 0 <= i < |s.pcs| && 0 <= j < |s.pcs| && s.pcs[i].Owner?
      ensures !s.pcs[j].Copying?
    {
      assert j !in Holders(s);
    }
  }

  /** Every interleaving is safe with at most 256 copiers, or with any number while the kernel holds on. */
  lemma CopiersAreSafe(run: seq<State>, n: nat, kernel: nat, frame: seq<int>)
    requires IsRun(run, n, kernel, frame) && (n <= LOCK_MOD || kernel > 0)
    ensures forall k :: 0 <= k < |run| ==> Safe(run[k], frame)
  {
    forall k | 0 <= k < |run|
      ensures Safe(run[k], frame)
    {
      RunInv(run, n, kernel, frame, k);
      InvSafe(run[k], n, kernel, frame);
    }
  }

  // ---------------------------------------------------------------------------------------
  // 257 copiers wrap the lock count
  // ---------------------------------------------------------------------------------------

  /** `a` copiers have finished, the next `b` have just begun to copy, the rest have not started. */
  ghost predicate Staged(s: State, n: nat, a: nat, b: nat, frame: seq<int>) {
    && |s.pcs| == |s.copies| == n && a + b <= n && s.frame == frame
    && s.refs == n - a - b && s.lock == b % LOCK_MOD
    && (forall i :: 0 <= i < a ==> s.pcs[i] == Done)
    && (forall i :: a <= i < a + b ==> s.pcs[i] == Copying(0) && s.copies[i] == [])
    && (forall i :: a + b <= i < n ==> s.pcs[i] == Idle && s.copies[i] == [])
  }

  ghost function LastOf(run: seq<State>): State
    requires |run| > 0
  {
    run[|run| - 1]
  }

  lemma Extend(run: seq<State>, s: State, i: nat, n: nat, kernel: nat, frame: seq<int>)
    requires IsRun(run, n, kernel, frame) && i < |LastOf(run).pcs| == |LastOf(run).copies| && Step(LastOf(run), s, i)
    ensures IsRun(run + [s], n, kernel, frame) && LastOf(run + [s]) == s
  {
    var run' := run + [s];
    forall k | 0 <= k < |run'| - 1
      ensures Next(run'[k], run'[k + 1])
    {
      if k < |run| - 1 {
        assert Next(run[k], run[k + 1]);
      }
    }
  }

  /** One more copier starts to copy. */
  lemma BeginOne(run: seq<State>, n: nat, a: nat, b: nat, frame: seq<int>) returns (run': seq<State>)
    requires IsRun(run, n, 0, frame) && Staged(LastOf(run), n, a, b, frame) && a + b + 1 < n
    ensures IsRun(run', n, 0, frame) && Staged(LastOf(run'), n, a, b + 1, frame)
  {
    var i := a + b;
    var s := LastOf(run);
    var s1 := Goto(Raise(s), i, Locked);
    Extend(run, s1, i, n, 0, frame);
    var s2 := Goto(s1.(refs := s1.refs - 1), i, Copying(0));
    Extend(run + [s1], s2, i, n, 0, frame);
    LockArithmetic(b);
    run' := run + [s1] + [s2];
  }

  /** The only copier at work copies the remaining words. */
  lemma CopyWords(run: seq<State>, i: nat, k: nat, n: nat, frame: seq<int>) returns (run': seq<State>)
    requires IsRun(run, n, 0, frame) && k <= |frame|
    requires var s := LastOf(run); |s.pcs| == |s.copies| && i < |s.pcs| && s.pcs[i] == Copying(k) && s.frame == frame
    ensures IsRun(run', n, 0, frame)
    ensures var s := LastOf(run); var s' := LastOf(run');
            && s'.refs == s.refs && s'.lock == s.lock && s'.frame == frame
            && s'.pcs == s.pcs[i := Copying(|frame|)] && |s'.copies| == |s.copies|
            && (forall j :: 0 <= j < |s.copies| && j != i ==> s'.copies[j] == s.copies[j])
    decreases |frame| - k
  {
    if k == |frame| {
      run' := run;
    } else {
      var s := LastOf(run);
      var s1 := Goto(s, i, Copying(k + 1)).(copies := s.copies[i := s.copies[i] + [frame[k]]]);
      Extend(run, s1, i, n, 0, frame);
      run' := CopyWords(run + [s1], i, k + 1, n, frame);
    }
  }

  /** One copier runs from start to end on its own. */
  lemma FinishOne(run: seq<State>, n: nat, a: nat, frame: seq<int>) returns (run': seq<State>)
    requires IsRun(run, n, 0, frame) && Staged(LastOf(run), n, a, 0, frame) && a + 1 < n
    ensures IsRun(run', n, 0, frame) && Staged(LastOf(run'), n, a + 1, 0, frame)
  {
    var run1 := BeginOne(run, n, a, 0, frame);
    var run2 := CopyWords(run1, a, 0, n, frame);
    var s := LastOf(run2);
    var s1 := Goto(Lower(s), a, Unlocked);
    Extend(run2, s1, a, n, 0, frame);
    var s2 := Goto(s1, a, Done);
    Extend(run2 + [s1], s2, a, n, 0, frame);
    run' := run2 + [s1] + [s2];
  }

  lemma {:induction false} ReachDone(n: nat, a: nat, frame: seq<int>) returns (run: seq<State>)
    requires a < n
    ensures IsRun(run, n, 0, frame) && Staged(LastOf(run), n, a, 0, frame)
  {
    if a == 0 {
      run := [State(n, 0, frame, seq(n, _ => Idle), seq(n, _ => []))];
    } else {
      var run1 := ReachDone(n, a - 1, frame);
      run := FinishOne(run1, n, a - 1, frame);
    }
  }

  lemma {:induction false} ReachCopying(n: nat, a: nat, b: nat, frame: seq<int>) returns (run: seq<State>)
    requires a + b < n
    ensures IsRun(run, n, 0, frame) && Staged(LastOf(run), n, a, b, frame)
  {
    if b == 0 {
      run := ReachDone(n, a, frame);
    } else {
      var run1 := ReachCopying(n, a, b - 1, frame);
      run := BeginOne(run1, n, a, b - 1, frame);
    }
  }

  /** With 257 or more entries and none of the kernel's the 8-bit count can read 0 while 256 copiers are reading. */
  lemma ManyCopiersAreUnsafe(n: nat, frame: seq<int>) returns (run: seq<State>)
    requires n > LOCK_MOD
    ensures IsRun(run, n, 0, frame) && !Safe(LastOf(run), frame)
  {
    run := ReachCopying(n, n - 257, 256, frame);
    var s := LastOf(run);
    var i := n - 1;
    var s1 := Goto(Raise(s), i, Locked);
    Extend(run, s1, i, n, 0, frame);
    run := run + [s1];
    var s2 := Goto(s1.(refs := 0), i, Last);
    Extend(run, s2, i, n, 0, frame);
    run := run + [s2];
    var s3 := Goto(Lower(s2), i, Waiting);
    Extend(run, s3, i, n, 0, frame);
    run := run + [s3];
    var s4 := Goto(s3, i, Ready);
    Extend(run, s4, i, n, 0, frame);
    run := run + [s4];
    var s5 := Goto(s4, i, Owner);
    Extend(run, s5, i, n, 0, frame);
    run := run + [s5];
    assert s5.pcs[i].Owner? && s5.pcs[n - 2].Copying?;
  }

  /** The exact condition: all interleavings are safe iff at most 256 entries name the frame or the kernel does. */
  lemma SafeIff(n: nat, kernel: nat, frame: seq<int>)
    ensures (forall run: seq<State> :: IsRun(run, n, kernel, frame) ==> forall k :: 0 <= k < |run| ==> Safe(run[k], frame))
            <==> n <= LOCK_MOD || kernel > 0
  {
    if n <= LOCK_MOD || kernel > 0 {
      forall run: seq<State> | IsRun(run, n, kernel, frame)
        ensures forall k :: 0 <= k < |run| ==> Safe(run[k], frame)
      {
        CopiersAreSafe(run, n, kernel, frame);
      }
    } else {
      var run := ManyCopiersAreUnsafe(n, frame);
      assert !Safe(run[|run| - 1], frame);
    }
  }
}
