/** Concurrent COW::copy calls (kernel/cow.cc) never get in each other's way for good. */
module CowProgress {
  import opened CowConcurrency

  predicate Finished(pc: Pc) {
    pc.Owner? || pc.Done?
  }

  /** The counters are right, and once ref_counts is 0 somebody has seen it get there. */
  ghost predicate Sound(s: State, n: nat, kernel: nat, words: nat) {
    && |s.pcs| == |s.copies| == n && |s.frame| == words
    && CountsOk(s, kernel) && ChosenOk(s)
    && (s.refs == 0 && n > 0 ==> exists i :: 0 <= i < n && Chosen(s.pcs[i]))
    && (forall i :: 0 <= i < n && s.pcs[i].Copying? ==> s.pcs[i].done <= words)
  }

  lemma InitSound(s: State, n: nat, kernel: nat, frame: seq<int>)
    requires Init(s, n, kernel, frame)
    ensures Sound(s, n, kernel, |frame|)
  {
    InitInv(s, n, kernel, frame);
  }

  lemma StepSound(s: State, s': State, i: nat, n: nat, kernel: nat, words: nat)
    requires Sound(s, n, kernel, words) && i < n && Step(s, s', i)
    ensures Sound(s', n, kernel, words)
  {
    StepCounts(s, s', i, kernel);
    StepChosen(s, s', i, kernel);
    hide CountsOk, ChosenOk;
    StepWitness(s, s', i, n);
  }

  lemma StepWitness(s: State, s': State, i: nat, n: nat)
    requires |s.pcs| == |s.copies| == n && i < n && Step(s, s', i)
    requires s.refs == 0 ==> exists j :: 0 <= j < n && Chosen(s.pcs[j])
    ensures |s'.pcs| == |s'.copies| == n && |s'.frame| == |s.frame|
    ensures s'.refs == 0 ==> exists j :: 0 <= j < n && Chosen(s'.pcs[j])
  {
    if s.refs == 0 {
      var j :| 0 <= j < n && Chosen(s.pcs[j]);
      assert Chosen(s'.pcs[j]);
    } else if s'.refs == 0 {
      assert Chosen(s'.pcs[i]);
    }
  }

  lemma {:induction false} RunSound(run: seq<State>, n: nat, kernel: nat, frame: seq<int>, k: nat)
    requires IsRun(run, n, kernel, frame) && k < |run|
    ensures Sound(run[k], n, kernel, |frame|)
  {
    if k == 0 {
      InitSound(run[0], n, kernel, frame);
    } else {
      RunSound(run, n, kernel, frame, k - 1);
      assert Next(run[k - 1], run[k - 1 + 1]);
      var i: nat :| i < |run[k - 1].pcs| == |run[k - 1].copies| && Step(run[k - 1], run[k], i);
      StepSound(run[k - 1], run[k], i, n, kernel, |frame|);
    }
  }

  // ---------------------------------------------------------------------------------------
  // How much work is left
  // ---------------------------------------------------------------------------------------

  ghost function Left(pc: Pc, words: nat): nat {
    match pc
    case Idle => words + 5
    case Locked => words + 4
    case Last => 3
    case Waiting => 2
    case Ready => 1
    case Copying(k) => if k <= words then words - k + 2 else 0
    case Unlocked => 1
    case _ => 0
  }

  ghost function Remaining(pcs: seq<Pc>, words: nat): nat {
    if pcs == [] then 0 else Left(pcs[0], words) + Remaining(pcs[1..], words)
  }

  lemma {:induction false} RemainingSet(pcs: seq<Pc>, i: nat, pc: Pc, words: nat)
    requires i < |pcs|
    ensures Remaining(pcs[i := pc], words) + Left(pcs[i], words) == Remaining(pcs, words) + Left(pc, words)
  {
    hide Left;
    if i == 0 {
      assert pcs[0 := pc][1..] == pcs[1..];
    } else {
      RemainingSet(pcs[1..], i - 1, pc, words);
      assert pcs[i := pc][1..] == pcs[1..][i - 1 := pc];
    }
  }

  /** Somebody can take a step as long as not all are finished: if the others wait, nobody holds the lock. */
  lemma Advance(s: State, n: nat, kernel: nat, words: nat) returns (s': State, i: nat)
    requires Sound(s, n, kernel, words) && exists j :: 0 <= j < n && !Finished(s.pcs[j])
    ensures i < n && Step(s, s', i) && Remaining(s'.pcs, words) < Remaining(s.pcs, words)
  {
    var j :| 0 <= j < n && !Finished(s.pcs[j]);
    i := j;
    if exists k :: 0 <= k < n && !Finished(s.pcs[k]) && !s.pcs[k].Waiting? {
      i :| i < n && !Finished(s.pcs[i]) && !s.pcs[i].Waiting?;
    } else {
      assert Holders(s) == {};
    }
    s' := After(s, i);
    RemainingSet(s.pcs, i, s'.pcs[i], words);
  }

  /** The next state of a copier that need not wait. */
  ghost function After(s: State, i: nat): (s': State)
    requires i < |s.pcs| == |s.copies| && !Finished(s.pcs[i]) && (s.pcs[i].Waiting? ==> s.lock == 0)
    ensures Step(s, s', i) && |s'.pcs| == |s.pcs| && s'.pcs == s.pcs[i := s'.pcs[i]]
  {
    match s.pcs[i]
    case Idle => Goto(Raise(s), i, Locked)
    case Locked =>
      Goto(s.(refs := if s.refs == 0 then COUNTER_MOD - 1 else s.refs - 1), i, if s.refs == 1 then Last else Copying(0))
    case Last => Goto(Lower(s), i, Waiting)
    case Waiting => Goto(s, i, Ready)
    case Ready => Goto(s, i, Owner)
    case Copying(k) =>
      if k < |s.frame| then Goto(s, i, Copying(k + 1)).(copies := s.copies[i := s.copies[i] + [s.frame[k]]])
      else Goto(Lower(s), i, Unlocked)
    case Unlocked => Goto(s, i, Done)
  }

  lemma {:induction false} RunOn(run: seq<State>, n: nat, kernel: nat, frame: seq<int>) returns (run': seq<State>)
    requires IsRun(run, n, kernel, frame)
    ensures IsRun(run', n, kernel, frame) && run <= run'
    ensures forall i :: 0 <= i < |LastOf(run').pcs| ==> Finished(LastOf(run').pcs[i])
    decreases Remaining(LastOf(run).pcs, |frame|)
  {
    var s := LastOf(run);
    RunSound(run, n, kernel, frame, |run| - 1);
    if forall i :: 0 <= i < n ==> Finished(s.pcs[i]) {
      run' := run;
    } else {
      var s', i := Advance(s, n, kernel, |frame|);
      hide Step, Remaining;
      Extend(run, s', i, n, kernel, frame);
      run' := RunOn(run + [s'], n, kernel, frame);
    }
  }

  // ---------------------------------------------------------------------------------------
  // What everybody has in the end
  // ---------------------------------------------------------------------------------------

  ghost predicate OneOwner(s: State) {
    exists i :: 0 <= i < |s.pcs| && s.pcs[i].Owner? && forall j :: 0 <= j < |s.pcs| && j != i ==> s.pcs[j].Done?
  }

  /**
   Whatever the copiers have done so far, they can all finish.  Then the counter is down to the
   kernel's references and the lock count to 0.  One copier keeps the frame unless the kernel
   does, and the others have copies, which are true when the interleaving was safe.
   */
  lemma EveryCopierFinishes(run: seq<State>, n: nat, kernel: nat, frame: seq<int>) returns (run': seq<State>)
    requires IsRun(run, n, kernel, frame) && n > 0
    ensures IsRun(run', n, kernel, frame) && run <= run'
    ensures var s := LastOf(run');
            && |s.pcs| == |s.copies| == n && s.refs == kernel && s.lock == 0
            && (kernel == 0 ==> OneOwner(s))
            && (kernel > 0 ==> forall i :: 0 <= i < n ==> s.pcs[i].Done?)
            && (n <= LOCK_MOD || kernel > 0 ==> forall i :: 0 <= i < n && s.pcs[i].Done? ==> s.copies[i] == frame)
  {
    run' := RunOn(run, n, kernel, frame);
    RunSound(run', n, kernel, frame, |run'| - 1);
    var s := LastOf(run');
    assert Undecided(s) == {} && Holders(s) == {};
    if n <= LOCK_MOD || kernel > 0 {
      CopiersAreSafe(run', n, kernel, frame);
      assert Safe(run'[|run'| - 1], frame);
    }
    if kernel == 0 {
      var i :| 0 <= i < n && Chosen(s.pcs[i]);
      assert s.pcs[i].Owner?;
    }
  }
}
