/**
 One side of a bounded buffer (kernel/bounded_buffer.h): the semaphore that admits operations,
 the index they claim slots from and the index they commit to, in order.

 Putting and getting follow the same protocol, so both sides share this module.  `claimed`,
 `commits`, `ups` and each operation's `ticket` record history: they number the claims without
 wrapping, and no step reads them.
 */
module Tickets {
  import opened Sets
  import opened Modular
  import M = SemaphoreModel

  /** Where an operation stands inside put or get. */
  datatype Pc =
    | Waiting               // queued on the semaphore
    | Granted               // callback scheduled or running, no slot yet
    | Loaded(seen: nat)     // fetch_add_mod has read the index and not yet swapped it
    | Claimed               // owns a slot
    | Half                  // get only: value read, slot not yet cleared
    | Finished              // slot written (put) or cleared (get)
    | Committed             // committed index moved past the slot
    | Done                  // other semaphore raised

  /** `prev` is the local previous_index; `value` is what put stores or get has read. */
  datatype Op<T> = Op(value: T, pc: Pc, prev: nat, ticket: nat)

  datatype Side<T> = Side(count: nat, waiting: seq<nat>, index: nat, committed: nat,
                          ops: seq<Op<T>>, claimed: seq<nat>, commits: nat, ups: nat)

  function NewSide<T>(count: nat): Side<T> {
    Side(count, [], 0, 0, [], [], 0, 0)
  }

  // ---------------------------------------------------------------------------------------
  // Atomic steps
  // ---------------------------------------------------------------------------------------

  function SetOp<T>(sd: Side<T>, i: nat, op: Op<T>): Side<T>
    requires i < |sd.ops|
  {
    sd.(ops := sd.ops[i := op])
  }

  /** Semaphore::down at the start of an operation. */
  function Call<T>(sd: Side<T>, value: T): Side<T> {
    if sd.count > 0 then sd.(count := sd.count - 1, ops := sd.ops + [Op(value, Granted, 0, 0)])
    else sd.(waiting := sd.waiting + [|sd.ops|], ops := sd.ops + [Op(value, Waiting, 0, 0)])
  }

  /** Semaphore::up: the longest waiter is scheduled, or the count grows. */
  function Up<T>(sd: Side<T>): Side<T> {
    if sd.waiting != [] && sd.waiting[0] < |sd.ops| then
      SetOp(sd, sd.waiting[0], sd.ops[sd.waiting[0]].(pc := Granted)).(waiting := sd.waiting[1..])
    else sd.(count := sd.count + 1)
  }

  /** The count and the queue of a side step as the semaphore's do, with operations as the events. */
  lemma SideIsSemaphore<T>(sd: Side<T>, s: M.Sem, value: T)
    requires s.count == sd.count && s.waiting == sd.waiting && forall k :: 0 <= k < |sd.waiting| ==> sd.waiting[k] < |sd.ops|
    ensures M.Up(s).count == Up(sd).count && M.Up(s).waiting == Up(sd).waiting
    ensures M.Down(s, |sd.ops|).count == Call(sd, value).count && M.Down(s, |sd.ops|).waiting == Call(sd, value).waiting
    ensures forall i :: 0 <= i < |sd.ops| ==>
              Up(sd).ops[i] == if M.Up(s).granted == s.granted + [i] then sd.ops[i].(pc := Granted) else sd.ops[i]
  {
    forall i | 0 <= i < |sd.ops|
      ensures M.Up(s).granted == s.granted + [i] <==> sd.waiting != [] && i == sd.waiting[0]
    {
      assert M.Up(s).granted == s.granted + [i] ==> M.Up(s).granted[|s.granted|] == i;
    }
  }

  /** The read and the compare-and-swap of fetch_add_mod(1, n); a lost race starts over. */
  function Claim<T>(sd: Side<T>, i: nat, n: nat): Side<T>
    requires i < |sd.ops| && n > 0
  {
    var op := sd.ops[i];
    match op.pc
    case Granted => SetOp(sd, i, op.(pc := Loaded(sd.index)))
    case Loaded(seen) =>
      if sd.index == seen then
        SetOp(sd, i, op.(pc := Claimed, prev := seen, ticket := |sd.claimed|))
        .(index := (seen + 1) % n, claimed := sd.claimed + [i])
      else SetOp(sd, i, op.(pc := Granted))
    case _ => sd
  }

  /** One try of the commit loop: compare-and-swap from previous_index to the next one. */
  function Commit<T>(sd: Side<T>, i: nat, n: nat): Side<T>
    requires i < |sd.ops| && n > 0
  {
    var op := sd.ops[i];
    if op.pc.Finished? && sd.committed == op.prev then
      SetOp(sd, i, op.(pc := Committed)).(committed := (op.prev + 1) % n, commits := sd.commits + 1)
    else sd
  }

  /** This side's part of raising the other semaphore. */
  function Leave<T>(sd: Side<T>, i: nat): Side<T>
    requires i < |sd.ops|
  {
    SetOp(sd, i, sd.ops[i].(pc := Done)).(ups := sd.ups + 1)
  }

  /** Work on the claimed slot. */
  function Work<T>(sd: Side<T>, i: nat, value: T, pc: Pc): Side<T>
    requires i < |sd.ops|
  {
    SetOp(sd, i, sd.ops[i].(value := value, pc := pc))
  }

  // ---------------------------------------------------------------------------------------
  // Invariant
  // ---------------------------------------------------------------------------------------

  predicate Entering(pc: Pc) {
    pc.Granted? || pc.Loaded?
  }

  predicate Working(pc: Pc) {
    pc.Claimed? || pc.Half? || pc.Finished?
  }

  predicate Past(pc: Pc) {
    pc.Committed? || pc.Done?
  }

  ghost function Entered<T>(sd: Side<T>): set<nat> {
    set i | 0 <= i < |sd.ops| && Entering(sd.ops[i].pc)
  }

  ghost function AtCommitted<T>(sd: Side<T>): set<nat> {
    set i | 0 <= i < |sd.ops| && sd.ops[i].pc.Committed?
  }

  /** Permits are never lost or made up. */
  ghost predicate PermitsOk<T>(sd: Side<T>, credit: nat) {
    && sd.count + |Entered(sd)| + |sd.claimed| == credit
    && sd.commits == sd.ups + |AtCommitted(sd)|
    && sd.commits <= |sd.claimed|
  }

  /** What the wrapping index reads after `k` claims. */
  ghost function IndexOf(k: nat, n: nat): nat
    requires n > 0
  {
    k % n
  }

  ghost predicate IndexesOk<T>(sd: Side<T>, n: nat)
    requires n > 0
  {
    sd.index == IndexOf(|sd.claimed|, n) && sd.committed == IndexOf(sd.commits, n)
  }

  /** Every claim was made by an operation. */
  ghost predicate ClaimsValid<T>(sd: Side<T>) {
    forall k :: 0 <= k < |sd.claimed| ==> sd.claimed[k] < |sd.ops|
  }

  /** Ticket k belongs to the k-th claim; tickets below `commits` are exactly the committed ones. */
  ghost predicate TicketsOk<T>(sd: Side<T>, n: nat)
    requires n > 0
  {
    && ClaimsValid(sd)
    && (forall k :: 0 <= k < |sd.claimed| ==>
          var op := sd.ops[sd.claimed[k]];
          op.ticket == k && op.prev == IndexOf(k, n) && if k < sd.commits then Past(op.pc) else Working(op.pc))
    && (forall i :: 0 <= i < |sd.ops| && (Working(sd.ops[i].pc) || Past(sd.ops[i].pc)) ==>
          sd.ops[i].ticket < |sd.claimed| && sd.claimed[sd.ops[i].ticket] == i)
  }

  /** Waiters exist only when the count is 0, and the queue holds each of them once. */
  ghost predicate QueueOk<T>(sd: Side<T>) {
    && (sd.waiting != [] ==> sd.count == 0)
    && (forall k :: 0 <= k < |sd.waiting| ==> sd.waiting[k] < |sd.ops| && sd.ops[sd.waiting[k]].pc.Waiting?)
    && (forall j, k :: 0 <= j < k < |sd.waiting| ==> sd.waiting[j] != sd.waiting[k])
    && (forall i :: 0 <= i < |sd.ops| && sd.ops[i].pc.Waiting? ==> i in sd.waiting)
  }

  ghost predicate SideInv<T>(sd: Side<T>, n: nat, credit: nat) {
    n > 0 && PermitsOk(sd, credit) && IndexesOk(sd, n) && TicketsOk(sd, n) && QueueOk(sd)
  }

  lemma NewSideInv<T>(count: nat, n: nat)
    requires n > 0
    ensures SideInv<T>(NewSide(count), n, count)
  {
    var sd := NewSide<T>(count);
    assert Entered(sd) == {} && AtCommitted(sd) == {};
  }

  // ---------------------------------------------------------------------------------------
  // Each step keeps it
  // ---------------------------------------------------------------------------------------

  ghost function One(b: bool): nat {
    if b then 1 else 0
  }

  /** Changing one operation changes the two counts by at most that operation. */
  lemma SetOpCounts<T>(sd: Side<T>, i: nat, op: Op<T>)
    requires i < |sd.ops|
    ensures var sd' := SetOp(sd, i, op);
            && |Entered(sd')| == |Entered(sd)| - One(Entering(sd.ops[i].pc)) + One(Entering(op.pc))
            && |AtCommitted(sd')| == |AtCommitted(sd)| - One(sd.ops[i].pc.Committed?) + One(op.pc.Committed?)
            && (Entering(sd.ops[i].pc) ==> |Entered(sd)| >= 1)
            && (sd.ops[i].pc.Committed? ==> |AtCommitted(sd)| >= 1)
  {
    SetOpEntered(sd, i, op);
    SetOpCommitted(sd, i, op);
  }

  lemma SetOpEntered<T>(sd: Side<T>, i: nat, op: Op<T>)
    requires i < |sd.ops|
    ensures |Entered(SetOp(sd, i, op))| == |Entered(sd)| - One(Entering(sd.ops[i].pc)) + One(Entering(op.pc))
    ensures Entering(sd.ops[i].pc) ==> |Entered(sd)| >= 1
  {
    var a, b := Entered(sd), Entered(SetOp(sd, i, op));
    assert b == a - {i} + (if Entering(op.pc) then {i} else {});
    Replaced(a, b, i, Entering(sd.ops[i].pc), Entering(op.pc));
  }

  lemma SetOpCommitted<T>(sd: Side<T>, i: nat, op: Op<T>)
    requires i < |sd.ops|
    ensures |AtCommitted(SetOp(sd, i, op))| == |AtCommitted(sd)| - One(sd.ops[i].pc.Committed?) + One(op.pc.Committed?)
    ensures sd.ops[i].pc.Committed? ==> |AtCommitted(sd)| >= 1
  {
    var a, b := AtCommitted(sd), AtCommitted(SetOp(sd, i, op));
    assert b == a - {i} + (if op.pc.Committed? then {i} else {});
    Replaced(a, b, i, sd.ops[i].pc.Committed?, op.pc.Committed?);
  }

  lemma SameOpsCounts<T>(a: Side<T>, b: Side<T>)
    requires a.ops == b.ops
    ensures Entered(a) == Entered(b) && AtCommitted(a) == AtCommitted(b)
  {
  }

  lemma CallStep<T>(sd: Side<T>, value: T, n: nat, credit: nat)
    requires SideInv(sd, n, credit)
    ensures SideInv(Call(sd, value), n, credit)
  {
    CallCounts(sd, value);
    hide Entered, AtCommitted;
    var sd' := Call(sd, value);
    assert QueueOk(sd') by { CallQueue(sd, value); }
    hide QueueOk;
  }

  lemma CallCounts<T>(sd: Side<T>, value: T)
    ensures |Entered(Call(sd, value))| == |Entered(sd)| + One(sd.count > 0)
    ensures AtCommitted(Call(sd, value)) == AtCommitted(sd)
  {
    var a, b, i := Entered(sd), Entered(Call(sd, value)), |sd.ops|;
    assert i !in a;
    if sd.count > 0 {
      assert b == a + {i};
    } else {
      assert b == a;
    }
  }

  lemma CallQueue<T>(sd: Side<T>, value: T)
    requires QueueOk(sd)
    ensures QueueOk(Call(sd, value))
  {
    var sd' := Call(sd, value);
    forall i | 0 <= i < |sd'.ops| && sd'.ops[i].pc.Waiting?
      ensures i in sd'.waiting
    {
      if i < |sd.ops| {
        assert i in sd.waiting;
      }
    }
  }

  lemma UpStep<T>(sd: Side<T>, n: nat, credit: nat)
    requires SideInv(sd, n, credit)
    ensures SideInv(Up(sd), n, credit + 1)
  {
    hide Entered, AtCommitted;
    var sd' := Up(sd);
    UpQueue(sd);
    if sd.waiting != [] {
      var w := sd.waiting[0];
      SetOpCounts(sd, w, sd.ops[w].(pc := Granted));
      SameOpsCounts(SetOp(sd, w, sd.ops[w].(pc := Granted)), sd');
    } else {
      SameOpsCounts(sd, sd');
    }
    hide QueueOk;
  }

  lemma UpQueue<T>(sd: Side<T>)
    requires QueueOk(sd)
    ensures QueueOk(Up(sd))
  {
    if sd.waiting != [] {
      assert sd.waiting == [sd.waiting[0]] + sd.waiting[1..];
    }
  }

  lemma ClaimStep<T>(sd: Side<T>, i: nat, n: nat, credit: nat)
    requires SideInv(sd, n, credit) && i < |sd.ops|
    ensures SideInv(Claim(sd, i, n), n, credit)
  {
    hide Entered, AtCommitted, TicketsOk, QueueOk;
    var sd' := Claim(sd, i, n);
    if Entering(sd.ops[i].pc) {
      SetOpCounts(sd, i, sd'.ops[i]);
      SameOpsCounts(SetOp(sd, i, sd'.ops[i]), sd');
      NextSlot(|sd.claimed|, n);
      ClaimTickets(sd, i, n);
      ClaimQueue(sd, i, n);
    }
  }

  lemma ClaimQueue<T>(sd: Side<T>, i: nat, n: nat)
    requires n > 0 && i < |sd.ops| && QueueOk(sd)
    ensures QueueOk(Claim(sd, i, n))
  {
  }

  lemma ClaimTickets<T>(sd: Side<T>, i: nat, n: nat)
    requires n > 0 && i < |sd.ops| && TicketsOk(sd, n) && IndexesOk(sd, n) && sd.commits <= |sd.claimed|
    ensures TicketsOk(Claim(sd, i, n), n)
  {
    var sd' := Claim(sd, i, n);
    if Entering(sd.ops[i].pc) {
      assert forall k :: 0 <= k < |sd.claimed| ==> sd.claimed[k] != i;
      if sd'.claimed == sd.claimed {
        assert forall k :: 0 <= k < |sd.claimed| ==> sd'.ops[sd.claimed[k]] == sd.ops[sd.claimed[k]];
      } else {
        TakenTickets(sd, sd', i, n);
      }
    }
  }

  lemma TakenTickets<T>(sd: Side<T>, sd': Side<T>, i: nat, n: nat)
    requires n > 0 && i < |sd.ops| && TicketsOk(sd, n) && sd.commits <= |sd.claimed| && Entering(sd.ops[i].pc)
    requires sd'.claimed == sd.claimed + [i] && sd'.commits == sd.commits
    requires |sd'.ops| == |sd.ops| && sd'.ops == sd.ops[i := sd'.ops[i]]
    requires sd'.ops[i].pc.Claimed? && sd'.ops[i].ticket == |sd.claimed| && sd'.ops[i].prev == IndexOf(|sd.claimed|, n)
    ensures TicketsOk(sd', n)
  {
    forall k | 0 <= k < |sd'.claimed|
      ensures sd'.claimed[k] < |sd'.ops|
      ensures var op := sd'.ops[sd'.claimed[k]];
              op.ticket == k && op.prev == IndexOf(k, n) && if k < sd'.commits then Past(op.pc) else Working(op.pc)
    {
      if k < |sd.claimed| {
        assert sd'.claimed[k] == sd.claimed[k] != i;
      }
    }
    forall j | 0 <= j < |sd'.ops| && (Working(sd'.ops[j].pc) || Past(sd'.ops[j].pc))
      ensures sd'.ops[j].ticket < |sd'.claimed| && sd'.claimed[sd'.ops[j].ticket] == j
    {
      if j != i {
        assert sd'.ops[j] == sd.ops[j];
      }
    }
  }

  /** The commit loop lets tickets through in order when at most `n` are uncommitted. */
  lemma CommitInOrder<T>(sd: Side<T>, i: nat, n: nat, credit: nat)
    requires SideInv(sd, n, credit) && i < |sd.ops| && |sd.claimed| <= sd.commits + n
    requires sd.ops[i].pc.Finished?
    ensures sd.committed == sd.ops[i].prev <==> sd.ops[i].ticket == sd.commits
  {
    var k := sd.ops[i].ticket;
    assert sd.claimed[k] == i;
    if sd.commits < k {
      SlotsDiffer(sd.commits, k, n);
    }
  }

  lemma CommitStep<T>(sd: Side<T>, i: nat, n: nat, credit: nat)
    requires SideInv(sd, n, credit) && i < |sd.ops| && |sd.claimed| <= sd.commits + n
    ensures SideInv(Commit(sd, i, n), n, credit)
  {
    var op := sd.ops[i];
    var sd' := Commit(sd, i, n);
    if op.pc.Finished? && sd.committed == op.prev {
      CommitInOrder(sd, i, n, credit);
      SetOpCounts(sd, i, sd'.ops[i]);
      SameOpsCounts(SetOp(sd, i, sd'.ops[i]), sd');
      NextSlot(sd.commits, n);
      hide Entered, AtCommitted;
    }
  }

  lemma LeaveStep<T>(sd: Side<T>, i: nat, n: nat, credit: nat)
    requires SideInv(sd, n, credit) && i < |sd.ops| && sd.ops[i].pc.Committed?
    ensures SideInv(Leave(sd, i), n, credit)
  {
    var sd' := Leave(sd, i);
    SetOpCounts(sd, i, sd'.ops[i]);
    SameOpsCounts(SetOp(sd, i, sd'.ops[i]), sd');
    hide Entered, AtCommitted;
  }

  lemma WorkStep<T>(sd: Side<T>, i: nat, value: T, pc: Pc, n: nat, credit: nat)
    requires SideInv(sd, n, credit) && i < |sd.ops| && Working(sd.ops[i].pc) && Working(pc)
    ensures SideInv(Work(sd, i, value, pc), n, credit)
  {
    var sd' := Work(sd, i, value, pc);
    SetOpCounts(sd, i, sd'.ops[i]);
    hide Entered, AtCommitted;
  }

  // ---------------------------------------------------------------------------------------
  // The log of claims
  // ---------------------------------------------------------------------------------------

  /** How far the owner of a slot has come with it. */
  datatype Phase = Taken | Midway | Closed

  datatype Claimant<T> = Claimant(value: T, phase: Phase)

  function PhaseOf(pc: Pc): Phase {
    match pc
    case Claimed => Taken
    case Half => Midway
    case _ => Closed
  }

  ghost function Entry<T>(sd: Side<T>, k: nat): Claimant<T>
    requires ClaimsValid(sd) && k < |sd.claimed|
  {
    Claimant(sd.ops[sd.claimed[k]].value, PhaseOf(sd.ops[sd.claimed[k]].pc))
  }

  /** All claims in ticket order. */
  ghost function Log<T>(sd: Side<T>): (r: seq<Claimant<T>>)
    requires ClaimsValid(sd)
    ensures |r| == |sd.claimed|
  {
    seq(|sd.claimed|, k requires 0 <= k < |sd.claimed| => Entry(sd, k))
  }

  /** Changing an operation only in ways that do not concern its slot. */
  lemma SameLog<T>(sd: Side<T>, sd': Side<T>)
    requires ClaimsValid(sd) && |sd.ops| <= |sd'.ops| && sd'.claimed == sd.claimed
    requires forall j :: 0 <= j < |sd.ops| ==>
               sd'.ops[j].value == sd.ops[j].value && PhaseOf(sd'.ops[j].pc) == PhaseOf(sd.ops[j].pc)
    ensures ClaimsValid(sd') && Log(sd') == Log(sd)
  {
  }

  lemma CallLog<T>(sd: Side<T>, value: T)
    requires ClaimsValid(sd)
    ensures ClaimsValid(Call(sd, value)) && Log(Call(sd, value)) == Log(sd)
  {
    SameLog(sd, Call(sd, value));
  }

  lemma UpLog<T>(sd: Side<T>)
    requires ClaimsValid(sd) && QueueOk(sd)
    ensures ClaimsValid(Up(sd)) && Log(Up(sd)) == Log(sd)
    ensures Up(sd).ups == sd.ups && Up(sd).commits == sd.commits
  {
    SameLog(sd, Up(sd));
  }

  lemma CommitLog<T>(sd: Side<T>, i: nat, n: nat)
    requires n > 0 && i < |sd.ops| && ClaimsValid(sd)
    ensures ClaimsValid(Commit(sd, i, n)) && Log(Commit(sd, i, n)) == Log(sd)
  {
    SameLog(sd, Commit(sd, i, n));
  }

  lemma LeaveLog<T>(sd: Side<T>, i: nat)
    requires i < |sd.ops| && ClaimsValid(sd) && sd.ops[i].pc.Committed?
    ensures ClaimsValid(Leave(sd, i)) && Log(Leave(sd, i)) == Log(sd)
    ensures Leave(sd, i).ups == sd.ups + 1 && Leave(sd, i).commits == sd.commits
  {
    SameLog(sd, Leave(sd, i));
  }

  lemma ClaimLog<T>(sd: Side<T>, i: nat, n: nat)
    requires n > 0 && i < |sd.ops| && TicketsOk(sd, n) && Entering(sd.ops[i].pc)
    ensures ClaimsValid(Claim(sd, i, n))
    ensures Log(Claim(sd, i, n)) == Log(sd) || Log(Claim(sd, i, n)) == Log(sd) + [Claimant(sd.ops[i].value, Taken)]
  {
    var sd' := Claim(sd, i, n);
    if sd'.claimed == sd.claimed {
      SameLog(sd, sd');
    } else {
      assert forall k :: 0 <= k < |sd.claimed| ==> sd.claimed[k] != i && sd'.claimed[k] == sd.claimed[k];
      assert Log(sd') == Log(sd) + [Claimant(sd.ops[i].value, Taken)];
    }
  }

  /** Work on a slot changes one entry: the one with the operation's ticket. */
  lemma WorkLog<T>(sd: Side<T>, i: nat, value: T, pc: Pc, n: nat)
    requires n > 0 && i < |sd.ops| && TicketsOk(sd, n) && Working(sd.ops[i].pc)
    ensures var k := sd.ops[i].ticket;
            && k < |sd.claimed| && sd.commits <= k
            && Log(sd)[k] == Claimant(sd.ops[i].value, PhaseOf(sd.ops[i].pc))
            && sd.ops[i].prev == IndexOf(k, n)
            && ClaimsValid(Work(sd, i, value, pc))
            && Log(Work(sd, i, value, pc)) == Log(sd)[k := Claimant(value, PhaseOf(pc))]
  {
    var k := sd.ops[i].ticket;
    var sd' := Work(sd, i, value, pc);
    assert sd.claimed[k] == i;
    forall m | 0 <= m < |sd.claimed|
      ensures Log(sd')[m] == Log(sd)[k := Claimant(value, PhaseOf(pc))][m]
    {
      if m != k {
        assert sd.claimed[m] != i;
      }
    }
  }

  /** Entries below the commit mark are closed. */
  lemma CommittedClosed<T>(sd: Side<T>, n: nat, k: nat)
    requires n > 0 && TicketsOk(sd, n) && k < sd.commits <= |sd.claimed|
    ensures Log(sd)[k].phase.Closed?
  {
    assert sd.claimed[k] < |sd.ops|;
  }

  // ---------------------------------------------------------------------------------------
  // Each step as its users see it
  // ---------------------------------------------------------------------------------------

  lemma CallSide<T>(sd: Side<T>, value: T, n: nat, credit: nat)
    requires SideInv(sd, n, credit)
    ensures var sd' := Call(sd, value);
            SideInv(sd', n, credit) && ClaimsValid(sd) && ClaimsValid(sd') && Log(sd') == Log(sd)
  {
    CallStep(sd, value, n, credit);
    CallLog(sd, value);
  }

  lemma UpSide<T>(sd: Side<T>, n: nat, credit: nat)
    requires SideInv(sd, n, credit)
    ensures var sd' := Up(sd);
            && SideInv(sd', n, credit + 1) && ClaimsValid(sd) && ClaimsValid(sd') && Log(sd') == Log(sd)
            && sd'.ups == sd.ups && sd'.commits == sd.commits
  {
    UpStep(sd, n, credit);
    UpLog(sd);
  }

  lemma LeaveSide<T>(sd: Side<T>, i: nat, n: nat, credit: nat)
    requires SideInv(sd, n, credit) && i < |sd.ops| && sd.ops[i].pc.Committed?
    ensures var sd' := Leave(sd, i);
            && SideInv(sd', n, credit) && ClaimsValid(sd) && ClaimsValid(sd') && Log(sd') == Log(sd)
            && sd'.ups == sd.ups + 1 && sd'.commits == sd.commits
  {
    LeaveStep(sd, i, n, credit);
    LeaveLog(sd, i);
  }

  lemma ClaimSide<T>(sd: Side<T>, i: nat, n: nat, credit: nat)
    requires SideInv(sd, n, credit) && i < |sd.ops| && Entering(sd.ops[i].pc)
    ensures var sd' := Claim(sd, i, n);
            && SideInv(sd', n, credit) && ClaimsValid(sd) && ClaimsValid(sd')
            && (Log(sd') == Log(sd) || Log(sd') == Log(sd) + [Claimant(sd.ops[i].value, Taken)])
            && sd'.ups == sd.ups && sd'.commits == sd.commits
  {
    ClaimStep(sd, i, n, credit);
    ClaimLog(sd, i, n);
  }

  /** A commit that succeeds is the one whose turn it is. */
  lemma CommitSide<T>(sd: Side<T>, i: nat, n: nat, credit: nat)
    requires SideInv(sd, n, credit) && i < |sd.ops| && sd.ops[i].pc.Finished? && |sd.claimed| <= sd.commits + n
    ensures var sd' := Commit(sd, i, n);
            && SideInv(sd', n, credit) && ClaimsValid(sd) && ClaimsValid(sd') && Log(sd') == Log(sd)
            && sd'.ups == sd.ups
            && sd'.commits == sd.commits + One(sd.committed == sd.ops[i].prev)
            && (sd.committed == sd.ops[i].prev ==>
                  sd.commits < |Log(sd)| && Log(sd)[sd.commits] == Claimant(sd.ops[i].value, Closed))
  {
    CommitStep(sd, i, n, credit);
    CommitLog(sd, i, n);
    CommitInOrder(sd, i, n, credit);
    assert sd.claimed[sd.ops[i].ticket] == i;
  }

  lemma WorkSide<T>(sd: Side<T>, i: nat, value: T, pc: Pc, n: nat, credit: nat)
    requires SideInv(sd, n, credit) && i < |sd.ops| && Working(sd.ops[i].pc) && Working(pc)
    ensures var sd' := Work(sd, i, value, pc); var k := sd.ops[i].ticket;
            && SideInv(sd', n, credit) && ClaimsValid(sd) && ClaimsValid(sd')
            && sd.commits <= k < |Log(sd)|
            && Log(sd)[k] == Claimant(sd.ops[i].value, PhaseOf(sd.ops[i].pc))
            && Log(sd') == Log(sd)[k := Claimant(value, PhaseOf(pc))]
            && sd.ops[i].prev == IndexOf(k, n)
            && sd'.ups == sd.ups && sd'.commits == sd.commits
  {
    WorkStep(sd, i, value, pc, n, credit);
    WorkLog(sd, i, value, pc, n);
  }
}
