/**
 Progress of the bounded buffer (kernel/bounded_buffer.h) from calls alone: whatever has happened
 so far, the operations in flight can be run on until every put that finds room and every get that
 finds a value is done.
 */
module BufferProgress {
  import opened Sets
  import opened Tickets
  import opened BoundedBuffer

  function Min(a: nat, b: nat): nat {
    if a < b then a else b
  }

  ghost function SideOf<T>(s: State<T>, put: bool): Side<T> {
    if put then s.put else s.get
  }

  ghost function StepOf<T>(put: bool, i: nat): Action<T> {
    if put then PutStep(i) else GetStep(i)
  }

  /** Steps of operations already called; no new calls. */
  ghost predicate Internal<T>(steps: seq<Action<T>>) {
    forall k :: 0 <= k < |steps| ==> steps[k].PutStep? || steps[k].GetStep?
  }

  // ---------------------------------------------------------------------------------------
  // What every reachable state keeps
  // ---------------------------------------------------------------------------------------

  /** The waiting operations are the latest calls, in the order they were called. */
  ghost predicate InOrder<T>(sd: Side<T>) {
    && |sd.waiting| <= |sd.ops| && (sd.waiting != [] ==> sd.count == 0)
    && forall k :: 0 <= k < |sd.waiting| ==> sd.waiting[k] == |sd.ops| - |sd.waiting| + k
  }

  ghost predicate Live<T>(s: State<T>) {
    Inv(s) && NoHalf(s.put) && InOrder(s.put) && InOrder(s.get)
  }

  lemma SemaphoreInOrder<T>(sd: Side<T>, value: T)
    requires InOrder(sd)
    ensures InOrder(Up(sd)) && InOrder(Call(sd, value))
  {
  }

  /** Other steps leave the queue and the number of calls alone. */
  lemma StepInOrder<T>(sd: Side<T>, sd': Side<T>)
    requires InOrder(sd) && sd'.waiting == sd.waiting && sd'.count == sd.count && |sd'.ops| == |sd.ops|
    ensures InOrder(sd')
  {
  }

  lemma ActInOrder<T>(s: State<T>, a: Action<T>)
    requires s.n > 0 && InOrder(s.put) && InOrder(s.get)
    ensures InOrder(Act(s, a).put) && InOrder(Act(s, a).get)
  {
    hide InOrder, Up, Call, Read, Slot;
    var t := Act(s, a);
    var value := if a.PutCall? then a.value else s.blank;
    SemaphoreInOrder(s.put, value);
    SemaphoreInOrder(s.get, value);
    if a.PutStep? {
      StepInOrder(s.put, t.put);
    } else if a.GetStep? {
      StepInOrder(s.get, t.get);
    }
  }

  lemma ActLive<T>(s: State<T>, a: Action<T>)
    requires Live(s)
    ensures Live(Act(s, a)) && Act(s, a).n == s.n
  {
    hide NoHalf, InOrder, Act, StoredOk, ReadOk, Fifo, EventOf, Queue, SideInv;
    ActRefines(s, a);
    ActNoHalf(s, a);
    ActInOrder(s, a);
  }

  lemma {:induction false} RunLive<T>(s: State<T>, actions: seq<Action<T>>)
    requires Live(s)
    ensures Live(Run(s, actions)) && Run(s, actions).n == s.n
    decreases |actions|
  {
    if actions != [] {
      ActLive(s, actions[0]);
      hide Live, Act;
      RunLive(Act(s, actions[0]), actions[1..]);
    }
  }

  // ---------------------------------------------------------------------------------------
  // How much work is left
  // ---------------------------------------------------------------------------------------

  ghost function Left(pc: Pc): nat {
    match pc
    case Waiting => 6
    case Granted => 5
    case Loaded(_) => 5
    case Claimed => 4
    case Half => 3
    case Finished => 2
    case Committed => 1
    case Done => 0
  }

  ghost function Remaining<T>(ops: seq<Op<T>>): nat {
    if ops == [] then 0 else Left(ops[0].pc) + Remaining(ops[1..])
  }

  ghost function Total<T>(s: State<T>): nat {
    Remaining(s.put.ops) + Remaining(s.get.ops)
  }

  lemma {:induction false} RemainingSet<T>(ops: seq<Op<T>>, i: nat, op: Op<T>)
    requires i < |ops|
    ensures Remaining(ops[i := op]) + Left(ops[i].pc) == Remaining(ops) + Left(op.pc)
  {
    hide Left;
    if i == 0 {
      assert ops[0 := op][1..] == ops[1..];
    } else {
      RemainingSet(ops[1..], i - 1, op);
      assert ops[i := op][1..] == ops[1..][i - 1 := op];
    }
  }

  /** Raising a semaphore only brings work forward. */
  lemma UpLess<T>(sd: Side<T>)
    requires QueueOk(sd)
    ensures |Up(sd).ops| == |sd.ops| && Remaining(Up(sd).ops) <= Remaining(sd.ops)
  {
    if sd.waiting != [] {
      RemainingSet(sd.ops, sd.waiting[0], sd.ops[sd.waiting[0]].(pc := Granted));
    }
  }

  /** Tries of fetch_add_mod an operation needs when nobody interferes. */
  ghost function Tries<T>(sd: Side<T>, i: nat): nat
    requires i < |sd.ops|
  {
    match sd.ops[i].pc
    case Granted => 2
    case Loaded(seen) => if seen == sd.index then 1 else 3
    case _ => 0
  }

  /** Operation `i` can move: it is not waiting or done, and if it wants to commit it is its turn. */
  ghost predicate Movable<T>(sd: Side<T>, i: nat) {
    && i < |sd.ops| && !sd.ops[i].pc.Waiting? && !sd.ops[i].pc.Done?
    && (sd.ops[i].pc.Finished? ==> sd.committed == sd.ops[i].prev)
  }

  ghost predicate SameCalls<T>(s: State<T>, t: State<T>) {
    |t.put.ops| == |s.put.ops| && |t.get.ops| == |s.get.ops|
  }

  /** Operation `i` has come forward, or is closer to winning its fetch_add_mod. */
  ghost predicate Forward<T>(sd: Side<T>, sd': Side<T>, i: nat)
    requires i < |sd.ops|
  {
    && |sd'.ops| == |sd.ops| && sd'.ops == sd.ops[i := sd'.ops[i]]
    && (Left(sd'.ops[i].pc) < Left(sd.ops[i].pc) ||
        (Left(sd'.ops[i].pc) == Left(sd.ops[i].pc) && Movable(sd', i) && Tries(sd', i) < Tries(sd, i)))
  }

  lemma PutForward<T>(s: State<T>, i: nat)
    requires s.n > 0 && NoHalf(s.put) && Movable(s.put, i)
    ensures var t := Act(s, PutStep(i)); Forward(s.put, t.put, i) && (t.get == s.get || t.get == Up(s.get))
  {
    hide Up, Slot;
  }

  lemma GetForward<T>(s: State<T>, i: nat)
    requires s.n > 0 && Movable(s.get, i)
    ensures var t := Act(s, GetStep(i)); Forward(s.get, t.get, i) && (t.put == s.put || t.put == Up(s.put))
  {
    hide Up, Read, Slot;
  }

  /** A step of a movable operation leaves less to do, or is a try of its fetch_add_mod. */
  lemma MoveLess<T>(s: State<T>, put: bool, i: nat)
    requires Live(s) && Movable(SideOf(s, put), i)
    ensures var t := Act(s, StepOf(put, i));
            && SameCalls(s, t) && Total(t) <= Total(s)
            && (Total(t) == Total(s) ==> Movable(SideOf(t, put), i) && Tries(SideOf(t, put), i) < Tries(SideOf(s, put), i))
  {
    hide StoredOk, ReadOk, InOrder, NoHalf, PermitsOk, TicketsOk, IndexesOk, QueueOk, Up, Act, Left, Tries, Remaining;
    var sd := SideOf(s, put);
    UpLess(SideOf(s, !put));
    if put {
      PutForward(s, i);
    } else {
      GetForward(s, i);
    }
    RemainingSet(sd.ops, i, SideOf(Act(s, StepOf(put, i)), put).ops[i]);
  }

  // ---------------------------------------------------------------------------------------
  // Somebody can move until all is quiet
  // ---------------------------------------------------------------------------------------

  ghost predicate Resting<T>(sd: Side<T>) {
    forall i :: 0 <= i < |sd.ops| ==> sd.ops[i].pc.Waiting? || sd.ops[i].pc.Done?
  }

  /** An operation that can move on a side that is not at rest: one before or after its slot work,
      or the one whose turn it is to commit. */
  lemma Mover<T>(s: State<T>, put: bool) returns (i: nat)
    requires Live(s) && !Resting(SideOf(s, put))
    ensures Movable(SideOf(s, put), i)
  {
    var sd := SideOf(s, put);
    var credit := if put then s.n + s.get.ups else s.put.ups;
    Window(s);
    i :| i < |sd.ops| && !sd.ops[i].pc.Waiting? && !sd.ops[i].pc.Done?;
    if Working(sd.ops[i].pc) {
      assert sd.claimed[sd.ops[i].ticket] == i && sd.commits <= sd.ops[i].ticket;
      i := sd.claimed[sd.commits];
      if sd.ops[i].pc.Finished? {
        CommitInOrder(sd, i, s.n, credit);
      }
    }
  }

  lemma {:induction false} RunAppend<T>(s: State<T>, a: Action<T>, rest: seq<Action<T>>)
    requires s.n > 0 && Act(s, a).n > 0
    ensures Run(s, [a] + rest) == Run(Act(s, a), rest)
  {
    assert ([a] + rest)[1..] == rest;
  }

  /** From every live state a run without new calls ends with both sides at rest. */
  lemma {:induction false} Settle<T>(s: State<T>) returns (steps: seq<Action<T>>)
    requires Live(s)
    ensures Internal(steps) && s.n > 0
    ensures var t := Run(s, steps); Live(t) && t.n == s.n && SameCalls(s, t) && Resting(t.put) && Resting(t.get)
    decreases Total(s), 4
  {
    if Resting(s.put) && Resting(s.get) {
      steps := [];
    } else {
      var put := !Resting(s.put);
      var i := Mover(s, put);
      steps := SettleFrom(s, put, i);
    }
  }

  lemma {:induction false} SettleFrom<T>(s: State<T>, put: bool, i: nat) returns (steps: seq<Action<T>>)
    requires Live(s) && Movable(SideOf(s, put), i)
    ensures Internal(steps) && s.n > 0
    ensures var t := Run(s, steps); Live(t) && t.n == s.n && SameCalls(s, t) && Resting(t.put) && Resting(t.get)
    decreases Total(s), Tries(SideOf(s, put), i)
  {
    hide Act, Total, Movable, Tries, Resting, SideInv, NoHalf, InOrder, StoredOk, ReadOk;
    var a := StepOf(put, i);
    var t := Act(s, a);
    MoveLess(s, put, i);
    ActLive(s, a);
    hide Inv, SideOf, Run;
    var rest;
    if Total(t) < Total(s) {
      rest := Settle(t);
    } else {
      rest := SettleFrom(t, put, i);
    }
    steps := [a] + rest;
    RunAppend(s, a, rest);
  }

  // ---------------------------------------------------------------------------------------
  // What is done when all is quiet
  // ---------------------------------------------------------------------------------------

  /** The first `served` calls are done and hold the tickets below `served`; no call after them is. */
  ghost predicate Served<T>(sd: Side<T>, served: nat) {
    && served <= |sd.ops| && |sd.claimed| == served == sd.ups
    && (forall i :: 0 <= i < |sd.ops| ==> (sd.ops[i].pc.Done? <==> i < served))
    && (forall i :: 0 <= i < served ==> sd.ops[i].ticket < served && sd.claimed[sd.ops[i].ticket] == i)
    && (forall k :: 0 <= k < served ==> sd.claimed[k] < served && sd.ops[sd.claimed[k]].ticket == k)
  }

  /** A side at rest has served the first calls, as many as its semaphore had permits for. */
  lemma RestingServed<T>(sd: Side<T>, n: nat, credit: nat)
    requires SideInv(sd, n, credit) && InOrder(sd) && Resting(sd)
    ensures Served(sd, Min(|sd.ops|, credit))
  {
    var served := |sd.ops| - |sd.waiting|;
    assert Entered(sd) == {} && AtCommitted(sd) == {};
    RestingPcs(sd);
    RestingClaims(sd, n, served);
    hide Entered, AtCommitted, TicketsOk, QueueOk;
    assert |sd.claimed| == sd.commits;
  }

  lemma RestingPcs<T>(sd: Side<T>)
    requires QueueOk(sd) && InOrder(sd) && Resting(sd)
    ensures forall i :: 0 <= i < |sd.ops| ==> (sd.ops[i].pc.Done? <==> i < |sd.ops| - |sd.waiting|)
  {
    forall i | 0 <= i < |sd.ops|
      ensures sd.ops[i].pc.Done? <==> i < |sd.ops| - |sd.waiting|
    {
      if i >= |sd.ops| - |sd.waiting| {
        assert sd.waiting[i - (|sd.ops| - |sd.waiting|)] == i;
      }
    }
  }

  lemma RestingClaims<T>(sd: Side<T>, n: nat, served: nat)
    requires n > 0 && TicketsOk(sd, n) && served <= |sd.ops| && sd.commits <= |sd.claimed|
    requires forall i :: 0 <= i < |sd.ops| ==> (sd.ops[i].pc.Done? <==> i < served) && (sd.ops[i].pc.Waiting? <==> i >= served)
    ensures |sd.claimed| == served == sd.commits
    ensures forall i :: 0 <= i < served ==> sd.ops[i].ticket < served && sd.claimed[sd.ops[i].ticket] == i
    ensures forall k :: 0 <= k < served ==> sd.claimed[k] < served && sd.ops[sd.claimed[k]].ticket == k
  {
    forall j, k | 0 <= j < k < |sd.claimed|
      ensures sd.claimed[j] != sd.claimed[k]
    {
      assert sd.ops[sd.claimed[j]].ticket == j && sd.ops[sd.claimed[k]].ticket == k;
    }
    forall x: nat
      ensures x in sd.claimed <==> x < served
    {
      if x < served {
        assert sd.claimed[sd.ops[x].ticket] == x;
      }
    }
    Enumerates(sd.claimed, served);
    forall k | 0 <= k < |sd.claimed|
      ensures sd.claimed[k] < served && k < sd.commits
    {
      assert sd.claimed[k] in sd.claimed;
    }
    if sd.claimed != [] {
      assert sd.claimed[|sd.claimed| - 1] < served;
    }
  }

  /** The get with a ticket holds the value of the put with that ticket. */
  ghost predicate Paired<T>(s: State<T>, i: nat)
    requires i < |s.get.ops|
  {
    exists j :: 0 <= j < |s.put.ops| && s.put.ops[j].pc.Done? && s.put.ops[j].ticket == s.get.ops[i].ticket
      && s.put.ops[j].value == s.get.ops[i].value
  }

  lemma ServedPaired<T>(s: State<T>, puts: nat, gets: nat, i: nat)
    requires Inv(s) && Served(s.put, puts) && Served(s.get, gets) && gets <= puts && i < gets
    ensures Paired(s, i)
  {
    hide StoredOk, PermitsOk, IndexesOk, QueueOk;
    var k := s.get.ops[i].ticket;
    assert Log(s.get)[k] == Claimant(s.get.ops[i].value, Closed);
    var j := s.put.claimed[k];
    assert Log(s.put)[k].value == s.put.ops[j].value;
    assert s.put.ops[j].ticket == k && s.put.ops[j].pc.Done?;
  }

  /** At rest, each side has served what the other side's calls allow. */
  lemma ServedCounts<T>(t: State<T>)
    requires t.n > 0
    requires Served(t.put, Min(|t.put.ops|, t.n + t.get.ups)) && Served(t.get, Min(|t.get.ops|, t.put.ups))
    ensures Served(t.put, Min(|t.put.ops|, t.n + |t.get.ops|)) && Served(t.get, Min(|t.put.ops|, |t.get.ops|))
  {
  }

  lemma ServedDone<T>(sd: Side<T>, served: nat)
    requires Served(sd, served)
    ensures forall i :: 0 <= i < |sd.ops| ==> (sd.ops[i].pc.Done? <==> i < served)
  {
  }

  lemma EachPaired<T>(s: State<T>, puts: nat, gets: nat)
    requires Inv(s) && Served(s.put, puts) && Served(s.get, gets) && gets <= puts
    ensures forall i :: 0 <= i < gets ==> Paired(s, i)
    ensures forall i, j :: 0 <= i < j < gets ==> s.get.ops[i].ticket != s.get.ops[j].ticket
  {
    forall i | 0 <= i < gets
      ensures Paired(s, i)
    {
      ServedPaired(s, puts, gets, i);
    }
  }

  /** Exactly the first puts that find room and the first gets that find a value are done, each get
      with the value of the put it pairs with, and no two gets pair with the same put. */
  ghost predicate AllServed<T>(t: State<T>) {
    var puts, gets := |t.put.ops|, |t.get.ops|;
    && (forall i :: 0 <= i < puts ==> (t.put.ops[i].pc.Done? <==> i < Min(puts, t.n + gets)))
    && (forall i :: 0 <= i < gets ==> (t.get.ops[i].pc.Done? <==> i < Min(puts, gets)))
    && (forall i :: 0 <= i < Min(puts, gets) ==> Paired(t, i))
    && (forall i, j :: 0 <= i < j < Min(puts, gets) ==> t.get.ops[i].ticket != t.get.ops[j].ticket)
  }

  lemma RestingAllServed<T>(t: State<T>)
    requires Live(t) && Resting(t.put) && Resting(t.get)
    ensures AllServed(t)
  {
    hide NoHalf, InOrder, Resting, StoredOk, ReadOk, SideInv, ClaimsValid, Served, Paired;
    RestingServed(t.put, t.n, t.n + t.get.ups);
    RestingServed(t.get, t.n, t.put.ups);
    ServedCounts(t);
    EachPaired(t, Min(|t.put.ops|, t.n + |t.get.ops|), Min(|t.put.ops|, |t.get.ops|));
    ServedDone(t.put, Min(|t.put.ops|, t.n + |t.get.ops|));
    ServedDone(t.get, Min(|t.put.ops|, |t.get.ops|));
  }

  /**
   Whatever calls and steps came first, the operations can be run on without new calls so that
   every put that finds room and every get that finds a value is done.
   */
  lemma EveryCallServed<T>(n: nat, blank: T, actions: seq<Action<T>>) returns (steps: seq<Action<T>>)
    requires n > 0
    ensures Internal(steps) && Run(Fresh(n, blank), actions).n == n
    ensures var s := Run(Fresh(n, blank), actions);
            var t := Run(s, steps);
            && t.n == n && SameCalls(s, t) && AllServed(t)
            && (forall i :: 0 <= i < |s.put.ops| ==> t.put.ops[i].value == s.put.ops[i].value)
  {
    FreshInv(n, blank);
    RunLive(Fresh(n, blank), actions);
    hide Live, Run, Fresh, Resting, AllServed;
    var s := Run(Fresh(n, blank), actions);
    steps := Settle(s);
    RestingAllServed(Run(s, steps));
    forall i | 0 <= i < |s.put.ops|
      ensures Run(s, steps).put.ops[i].value == s.put.ops[i].value
    {
      PutKeepsItsValue(s, steps, i);
    }
  }
}
