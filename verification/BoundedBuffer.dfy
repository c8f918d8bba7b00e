/**
 The concurrent bounded buffer (kernel/bounded_buffer.h), as a transition system.

 Any number of puts and gets are in flight; an action is one atomic step of one of them, and a
 run is any sequence of actions, so runs are exactly the interleavings.
 */
module BoundedBuffer {
  import opened Wrappers
  import opened Modular
  import opened Tickets

  /** `blank` is T{}, which get leaves in the slot it empties. */
  datatype State<T> = State(n: nat, blank: T, buffer: seq<T>, put: Side<T>, get: Side<T>)

  datatype Action<T> = PutCall(value: T) | GetCall | PutStep(op: nat) | GetStep(op: nat)

  /** BoundedBuffer(n): n permits to send, none to receive. */
  function Fresh<T>(n: nat, blank: T): State<T> {
    State(n, blank, seq(n, _ => blank), NewSide(n), NewSide(0))
  }

  function Slot<T>(s: State<T>, op: Op<T>): nat
    requires s.n > 0
  {
    (op.prev + 1) % s.n
  }

  function Write<T>(s: State<T>, slot: nat, value: T): State<T> {
    if slot < |s.buffer| then s.(buffer := s.buffer[slot := value]) else s
  }

  function Read<T>(s: State<T>, slot: nat): T {
    if slot < |s.buffer| then s.buffer[slot] else s.blank
  }

  /** One step of the callback that put hands to the senders semaphore. */
  function StepPut<T>(s: State<T>, i: nat): State<T>
    requires s.n > 0 && i < |s.put.ops|
  {
    var op := s.put.ops[i];
    match op.pc
    case Granted => s.(put := Claim(s.put, i, s.n))
    case Loaded(_) => s.(put := Claim(s.put, i, s.n))
    case Claimed => Write(s, Slot(s, op), op.value).(put := Work(s.put, i, op.value, Finished))
    case Finished => s.(put := Commit(s.put, i, s.n))
    case Committed => s.(put := Leave(s.put, i), get := Up(s.get))
    case _ => s
  }

  /** One step of the callback that get hands to the receivers semaphore. */
  function StepGet<T>(s: State<T>, i: nat): State<T>
    requires s.n > 0 && i < |s.get.ops|
  {
    var op := s.get.ops[i];
    match op.pc
    case Granted => s.(get := Claim(s.get, i, s.n))
    case Loaded(_) => s.(get := Claim(s.get, i, s.n))
    case Claimed => s.(get := Work(s.get, i, Read(s, Slot(s, op)), Half))
    case Half => Write(s, Slot(s, op), s.blank).(get := Work(s.get, i, op.value, Finished))
    case Finished => s.(get := Commit(s.get, i, s.n))
    case Committed => s.(get := Leave(s.get, i), put := Up(s.put))
    case _ => s
  }

  function Act<T>(s: State<T>, a: Action<T>): State<T>
    requires s.n > 0
  {
    match a
    case PutCall(v) => s.(put := Call(s.put, v))
    case GetCall => s.(get := Call(s.get, s.blank))
    case PutStep(i) => if i < |s.put.ops| then StepPut(s, i) else s
    case GetStep(i) => if i < |s.get.ops| then StepGet(s, i) else s
  }

  function Run<T>(s: State<T>, actions: seq<Action<T>>): State<T>
    requires s.n > 0
    decreases |actions|
  {
    if actions == [] then s else Run(Act(s, actions[0]), actions[1..])
  }

  // ---------------------------------------------------------------------------------------
  // Invariant
  // ---------------------------------------------------------------------------------------

  ghost predicate Sides<T>(s: State<T>) {
    && s.n > 0 && |s.buffer| == s.n
    && ClaimsValid(s.put) && ClaimsValid(s.get)
    && SideInv(s.put, s.n, s.n + s.get.ups)
    && SideInv(s.get, s.n, s.put.ups)
  }

  /** The slot that goes with ticket `k`. */
  ghost function SlotOf(k: nat, n: nat): (r: nat)
    requires n > 0
    ensures r < n
  {
    (k + 1) % n
  }

  /** The k-th put has stored its value and the k-th get has not cleared the slot. */
  ghost predicate Occupied<T>(puts: seq<Claimant<T>>, gets: seq<Claimant<T>>, k: nat)
    requires k < |puts|
  {
    puts[k].phase.Closed? && (k < |gets| ==> !gets[k].phase.Closed?)
  }

  /** From ticket `from` on, a stored value is in its slot until the get with its ticket clears it. */
  ghost predicate StoredOk<T>(buffer: seq<T>, puts: seq<Claimant<T>>, gets: seq<Claimant<T>>, from: nat)
    requires |buffer| > 0
  {
    forall k: nat :: from <= k < |puts| && Occupied(puts, gets, k) ==> buffer[SlotOf(k, |buffer|)] == puts[k].value
  }

  /** The k-th get has the k-th put's value. */
  ghost predicate ReadOk<T>(puts: seq<Claimant<T>>, gets: seq<Claimant<T>>) {
    forall k: nat :: k < |gets| && !gets[k].phase.Taken? ==> k < |puts| && gets[k].value == puts[k].value
  }

  ghost predicate Inv<T>(s: State<T>) {
    && Sides(s)
    && StoredOk(s.buffer, Log(s.put), Log(s.get), s.get.commits)
    && ReadOk(Log(s.put), Log(s.get))
  }

  /** Gets claim only committed puts, and no slot is claimed again before it was given back. */
  lemma Window<T>(s: State<T>)
    requires Sides(s)
    ensures s.get.commits <= |Log(s.get)| <= s.put.ups <= s.put.commits <= |Log(s.put)|
    ensures |Log(s.put)| <= s.n + s.get.ups <= s.n + s.get.commits
  {
  }

  lemma FreshInv<T>(n: nat, blank: T)
    requires n > 0
    ensures Inv(Fresh(n, blank)) && Queue(Fresh(n, blank)) == []
  {
    NewSideInv<T>(n, n);
    NewSideInv<T>(0, n);
  }

  // ---------------------------------------------------------------------------------------
  // The FIFO
  // ---------------------------------------------------------------------------------------

  ghost function Values<T>(log: seq<Claimant<T>>): (r: seq<T>)
    ensures |r| == |log| && forall k :: 0 <= k < |r| ==> r[k] == log[k].value
  {
    seq(|log|, k requires 0 <= k < |log| => log[k].value)
  }

  /** The values put and not yet taken, oldest first, counted from commit to commit. */
  ghost function Queue<T>(s: State<T>): (q: seq<T>)
    requires Sides(s)
  {
    Window(s);
    Values(Log(s.put))[s.get.commits..s.put.commits]
  }

  datatype Event<T> = Quiet | Enqueue(value: T) | Dequeue(value: T)

  /** What an action does to the queue: something only when a commit succeeds. */
  ghost function EventOf<T>(s: State<T>, a: Action<T>): Event<T> {
    match a
    case PutStep(i) =>
      if i < |s.put.ops| && s.put.ops[i].pc.Finished? && s.put.committed == s.put.ops[i].prev
      then Enqueue(s.put.ops[i].value) else Quiet
    case GetStep(i) =>
      if i < |s.get.ops| && s.get.ops[i].pc.Finished? && s.get.committed == s.get.ops[i].prev
      then Dequeue(s.get.ops[i].value) else Quiet
    case _ => Quiet
  }

  /** A FIFO of capacity `n`: its state after event `e`, None if it does not allow `e`. */
  ghost function Fifo<T>(q: seq<T>, e: Event<T>, n: nat): Option<seq<T>> {
    match e
    case Quiet => Some(q)
    case Enqueue(v) => if |q| < n then Some(q + [v]) else None
    case Dequeue(v) => if q != [] && v == q[0] then Some(q[1..]) else None
  }

  /** What every action owes: the invariant, and one step of the FIFO. */
  ghost predicate Refines<T>(s: State<T>, e: Event<T>, t: State<T>)
    requires Sides(s)
  {
    Inv(t) && t.n == s.n && Fifo(Queue(s), e, s.n) == Some(Queue(t))
  }

  // ---------------------------------------------------------------------------------------
  // Steps that leave the slots alone
  // ---------------------------------------------------------------------------------------

  /** Nothing committed; claims may have been added. */
  lemma QuietStep<T>(s: State<T>, t: State<T>)
    requires Inv(s) && Sides(t) && t.n == s.n && t.buffer == s.buffer
    requires t.put.commits == s.put.commits && t.get.commits == s.get.commits
    requires Grows(Log(s.put), Log(t.put)) && Grows(Log(s.get), Log(t.get))
    ensures Refines(s, Quiet, t)
  {
    Window(s);
    Window(t);
    hide Sides, Log;
    GrownOk(s.buffer, Log(s.put), Log(t.put), Log(s.get), Log(t.get), s.get.commits);
    hide StoredOk, ReadOk;
    assert Values(Log(t.put))[s.get.commits..s.put.commits] == Values(Log(s.put))[s.get.commits..s.put.commits];
  }

  /** At most one claim more, not yet worked on. */
  ghost predicate Grows<T>(log: seq<Claimant<T>>, log': seq<Claimant<T>>) {
    log' == log || (|log'| == |log| + 1 && log'[..|log|] == log && log'[|log|].phase.Taken?)
  }

  lemma GrownOk<T>(buffer: seq<T>, puts: seq<Claimant<T>>, puts': seq<Claimant<T>>,
                   gets: seq<Claimant<T>>, gets': seq<Claimant<T>>, from: nat)
    requires |buffer| > 0 && StoredOk(buffer, puts, gets, from) && ReadOk(puts, gets)
    requires Grows(puts, puts') && Grows(gets, gets')
    ensures StoredOk(buffer, puts', gets', from) && ReadOk(puts', gets')
  {
    forall k: nat | from <= k < |puts'| && Occupied(puts', gets', k)
      ensures buffer[SlotOf(k, |buffer|)] == puts'[k].value
    {
      assert k < |puts| && puts'[k] == puts[k];
      assert Occupied(puts, gets, k);
    }
  }

  lemma PutCallRefines<T>(s: State<T>, v: T)
    requires Inv(s)
    ensures Refines(s, Quiet, Act(s, PutCall(v)))
  {
    hide SideInv, Log, Refines, StoredOk, ReadOk, ClaimsValid;
    CallSide(s.put, v, s.n, s.n + s.get.ups);
    QuietStep(s, Act(s, PutCall(v)));
  }

  lemma GetCallRefines<T>(s: State<T>, v: T)
    requires Inv(s) && v == s.blank
    ensures Refines(s, Quiet, Act(s, GetCall))
  {
    hide SideInv, Log, Refines, StoredOk, ReadOk, ClaimsValid;
    CallSide(s.get, v, s.n, s.put.ups);
    QuietStep(s, Act(s, GetCall));
  }

  lemma PutClaimRefines<T>(s: State<T>, i: nat)
    requires Inv(s) && i < |s.put.ops| && Entering(s.put.ops[i].pc)
    ensures Refines(s, Quiet, StepPut(s, i))
  {
    hide SideInv, Log, Refines, StoredOk, ReadOk, ClaimsValid;
    ClaimSide(s.put, i, s.n, s.n + s.get.ups);
    QuietStep(s, StepPut(s, i));
  }

  lemma GetClaimRefines<T>(s: State<T>, i: nat)
    requires Inv(s) && i < |s.get.ops| && Entering(s.get.ops[i].pc)
    ensures Refines(s, Quiet, StepGet(s, i))
  {
    hide SideInv, Log, Refines, StoredOk, ReadOk, ClaimsValid;
    ClaimSide(s.get, i, s.n, s.put.ups);
    QuietStep(s, StepGet(s, i));
  }

  lemma PutUpRefines<T>(s: State<T>, i: nat)
    requires Inv(s) && i < |s.put.ops| && s.put.ops[i].pc.Committed?
    ensures Refines(s, Quiet, StepPut(s, i))
  {
    hide SideInv, Log, Refines, StoredOk, ReadOk, ClaimsValid;
    LeaveSide(s.put, i, s.n, s.n + s.get.ups);
    UpSide(s.get, s.n, s.put.ups);
    QuietStep(s, StepPut(s, i));
  }

  lemma GetUpRefines<T>(s: State<T>, i: nat)
    requires Inv(s) && i < |s.get.ops| && s.get.ops[i].pc.Committed?
    ensures Refines(s, Quiet, StepGet(s, i))
  {
    hide SideInv, Log, Refines, StoredOk, ReadOk, ClaimsValid;
    LeaveSide(s.get, i, s.n, s.put.ups);
    UpSide(s.put, s.n, s.n + s.get.ups);
    QuietStep(s, StepGet(s, i));
  }

  // ---------------------------------------------------------------------------------------
  // Steps on the slots
  // ---------------------------------------------------------------------------------------

  lemma OwnSlot<T>(s: State<T>, op: Op<T>, k: nat)
    requires s.n > 0 && op.prev == IndexOf(k, s.n)
    ensures Slot(s, op) == SlotOf(k, s.n)
  {
    NextSlot(k, s.n);
  }

  /** Tickets less than a lap apart have different slots. */
  lemma ApartSlots(j: nat, k: nat, n: nat)
    requires n > 0 && (j < k < j + n || k < j < k + n)
    ensures SlotOf(j, n) != SlotOf(k, n)
  {
    if j < k {
      SlotsDiffer(j + 1, k + 1, n);
    } else {
      SlotsDiffer(k + 1, j + 1, n);
    }
  }

  /** Writing the slot of ticket `j` leaves every other value in the window alone. */
  lemma WriteSlot<T>(buffer: seq<T>, puts: seq<Claimant<T>>, puts': seq<Claimant<T>>,
                     gets: seq<Claimant<T>>, gets': seq<Claimant<T>>, from: nat, j: nat, v: T)
    requires |buffer| > 0 && StoredOk(buffer, puts, gets, from)
    requires from <= j < |puts| == |puts'| <= from + |buffer| && |gets'| == |gets|
    requires forall k :: 0 <= k < |puts| && k != j ==> puts'[k] == puts[k]
    requires forall k :: 0 <= k < |gets| && k != j ==> gets'[k] == gets[k]
    requires Occupied(puts', gets', j) ==> puts'[j].value == v
    ensures StoredOk(buffer[SlotOf(j, |buffer|) := v], puts', gets', from)
  {
    var buffer' := buffer[SlotOf(j, |buffer|) := v];
    forall k: nat | from <= k < |puts'| && Occupied(puts', gets', k)
      ensures buffer'[SlotOf(k, |buffer|)] == puts'[k].value
    {
      if k != j {
        ApartSlots(j, k, |buffer|);
        assert Occupied(puts, gets, k);
      }
    }
  }

  /** A put stores into a slot that no live value occupies. */
  lemma PutWriteRefines<T>(s: State<T>, i: nat)
    requires Inv(s) && i < |s.put.ops| && s.put.ops[i].pc.Claimed?
    ensures Refines(s, Quiet, StepPut(s, i))
  {
    var op := s.put.ops[i];
    var t := StepPut(s, i);
    hide SideInv, Log, ClaimsValid, IndexOf, SlotOf, Slot;
    Window(s);
    WorkSide(s.put, i, op.value, Finished, s.n, s.n + s.get.ups);
    OwnSlot(s, op, op.ticket);
    WriteSlot(s.buffer, Log(s.put), Log(t.put), Log(s.get), Log(t.get), s.get.commits, op.ticket, op.value);
    assert Values(Log(t.put)) == Values(Log(s.put));
    hide StoredOk;
    assert ReadOk(Log(t.put), Log(t.get));
  }

  lemma CommittedPut<T>(s: State<T>, k: nat)
    requires Sides(s) && k < |Log(s.get)|
    ensures k < |Log(s.put)| && Log(s.put)[k].phase.Closed?
  {
    Window(s);
    CommittedClosed(s.put, s.n, k);
  }

  /** A get reads a slot whose put has committed. */
  lemma GetReadRefines<T>(s: State<T>, i: nat)
    requires Inv(s) && i < |s.get.ops| && s.get.ops[i].pc.Claimed?
    ensures Refines(s, Quiet, StepGet(s, i))
  {
    var op := s.get.ops[i];
    var j := op.ticket;
    var t := StepGet(s, i);
    var v := Read(s, Slot(s, op));
    hide SideInv, Log, ClaimsValid, IndexOf, SlotOf, Slot;
    Window(s);
    WorkSide(s.get, i, v, Half, s.n, s.put.ups);
    OwnSlot(s, op, j);
    CommittedPut(s, j);
    assert Occupied(Log(s.put), Log(s.get), j);
    assert v == Log(s.put)[j].value;
    ReadSlot(s.buffer, Log(s.put), Log(s.get), s.get.commits, j, v);
  }

  lemma ReadSlot<T>(buffer: seq<T>, puts: seq<Claimant<T>>, gets: seq<Claimant<T>>, from: nat, j: nat, v: T)
    requires |buffer| > 0 && StoredOk(buffer, puts, gets, from) && ReadOk(puts, gets)
    requires j < |gets| && gets[j].phase.Taken? && j < |puts| && puts[j].value == v
    ensures StoredOk(buffer, puts, gets[j := Claimant(v, Midway)], from) && ReadOk(puts, gets[j := Claimant(v, Midway)])
  {
    var gets' := gets[j := Claimant(v, Midway)];
    forall k: nat | from <= k < |puts| && Occupied(puts, gets', k)
      ensures buffer[SlotOf(k, |buffer|)] == puts[k].value
    {
      assert Occupied(puts, gets, k);
    }
  }

  /** A get clears only the slot it has read. */
  lemma GetClearRefines<T>(s: State<T>, i: nat)
    requires Inv(s) && i < |s.get.ops| && s.get.ops[i].pc.Half?
    ensures Refines(s, Quiet, StepGet(s, i))
  {
    hide SideInv, Log, ClaimsValid, IndexOf, SlotOf, Slot;
    var op := s.get.ops[i];
    var t := StepGet(s, i);
    Window(s);
    WorkSide(s.get, i, op.value, Finished, s.n, s.put.ups);
    OwnSlot(s, op, op.ticket);
    WriteSlot(s.buffer, Log(s.put), Log(t.put), Log(s.get), Log(t.get), s.get.commits, op.ticket, s.blank);
    hide StoredOk;
    assert ReadOk(Log(t.put), Log(t.get));
  }

  // ---------------------------------------------------------------------------------------
  // Commits
  // ---------------------------------------------------------------------------------------

  lemma SliceGrows<T>(v: seq<T>, lo: nat, hi: nat)
    requires lo <= hi < |v|
    ensures v[lo..hi + 1] == v[lo..hi] + [v[hi]]
  {
  }

  lemma PutCommitRefines<T>(s: State<T>, i: nat)
    requires Inv(s) && i < |s.put.ops| && s.put.ops[i].pc.Finished?
    ensures Refines(s, EventOf(s, PutStep(i)), StepPut(s, i))
  {
    var t := StepPut(s, i);
    hide SideInv, Log, ClaimsValid, StoredOk, ReadOk, Values, Commit;
    Window(s);
    CommitSide(s.put, i, s.n, s.n + s.get.ups);
    assert t == s.(put := Commit(s.put, i, s.n)) && Sides(t);
    hide StepPut, Sides;
    PutCommitQueue(s, t, i);
  }

  lemma PutCommitQueue<T>(s: State<T>, t: State<T>, i: nat)
    requires Sides(s) && Sides(t) && i < |s.put.ops| && s.put.ops[i].pc.Finished?
    requires t.n == s.n && Log(t.put) == Log(s.put) && t.get == s.get && t.buffer == s.buffer
    requires t.put.commits == s.put.commits + One(s.put.committed == s.put.ops[i].prev)
    requires s.put.committed == s.put.ops[i].prev ==>
               s.put.commits < |Log(s.put)| && Log(s.put)[s.put.commits] == Claimant(s.put.ops[i].value, Closed)
    ensures Fifo(Queue(s), EventOf(s, PutStep(i)), s.n) == Some(Queue(t))
  {
    Window(s);
    Window(t);
    if s.put.committed == s.put.ops[i].prev {
      SliceGrows(Values(Log(s.put)), s.get.commits, s.put.commits);
    }
  }

  lemma GetCommitRefines<T>(s: State<T>, i: nat)
    requires Inv(s) && i < |s.get.ops| && s.get.ops[i].pc.Finished?
    ensures Refines(s, EventOf(s, GetStep(i)), StepGet(s, i))
  {
    hide SideInv, Log, ClaimsValid, ReadOk, Values, Commit;
    var t := StepGet(s, i);
    Window(s);
    CommitSide(s.get, i, s.n, s.put.ups);
    assert t == s.(get := Commit(s.get, i, s.n)) && Sides(t);
    hide StepGet, Sides;
    assert StoredOk(t.buffer, Log(t.put), Log(t.get), t.get.commits);
    hide StoredOk;
    GetCommitQueue(s, t, i);
  }

  lemma GetCommitQueue<T>(s: State<T>, t: State<T>, i: nat)
    requires Sides(s) && Sides(t) && i < |s.get.ops| && s.get.ops[i].pc.Finished?
    requires t.n == s.n && Log(t.get) == Log(s.get) && t.put == s.put && t.buffer == s.buffer
    requires t.get.commits == s.get.commits + One(s.get.committed == s.get.ops[i].prev)
    requires ReadOk(Log(s.put), Log(s.get))
    requires s.get.committed == s.get.ops[i].prev ==>
               s.get.commits < |Log(s.get)| && Log(s.get)[s.get.commits] == Claimant(s.get.ops[i].value, Closed)
    ensures Fifo(Queue(s), EventOf(s, GetStep(i)), s.n) == Some(Queue(t))
  {
    Window(s);
    Window(t);
    hide Sides, Log;
    if s.get.committed == s.get.ops[i].prev {
      var values := Values(Log(s.put));
      assert values[s.get.commits] == s.get.ops[i].value;
      assert values[s.get.commits..s.put.commits][1..] == values[s.get.commits + 1..s.put.commits];
    }
  }

  /** Every action keeps the invariant and is a step of the FIFO, or leaves it alone. */
  lemma ActRefines<T>(s: State<T>, a: Action<T>)
    requires Inv(s)
    ensures Refines(s, EventOf(s, a), Act(s, a))
  {
    hide Inv, Refines, Fifo;
    match a
    case PutCall(v) => PutCallRefines(s, v);
    case GetCall => GetCallRefines(s, s.blank);
    case PutStep(i) =>
      if i < |s.put.ops| {
        match s.put.ops[i].pc
        case Granted => PutClaimRefines(s, i);
        case Loaded(_) => PutClaimRefines(s, i);
        case Claimed => PutWriteRefines(s, i);
        case Finished => PutCommitRefines(s, i);
        case Committed => PutUpRefines(s, i);
        case _ => StutterRefines(s);
      } else {
        StutterRefines(s);
      }
    case GetStep(i) =>
      if i < |s.get.ops| {
        match s.get.ops[i].pc
        case Granted => GetClaimRefines(s, i);
        case Loaded(_) => GetClaimRefines(s, i);
        case Claimed => GetReadRefines(s, i);
        case Half => GetClearRefines(s, i);
        case Finished => GetCommitRefines(s, i);
        case Committed => GetUpRefines(s, i);
        case _ => StutterRefines(s);
      } else {
        StutterRefines(s);
      }
  }

  lemma StutterRefines<T>(s: State<T>)
    requires Inv(s)
    ensures Refines(s, Quiet, s)
  {
  }

  // ---------------------------------------------------------------------------------------
  // Main results
  // ---------------------------------------------------------------------------------------

  /** The FIFO after the events of a run, in order. */
  ghost function FifoRun<T>(s: State<T>, actions: seq<Action<T>>, q: seq<T>): Option<seq<T>>
    requires s.n > 0
    decreases |actions|
  {
    if actions == [] then Some(q)
    else
      var q1 :- Fifo(q, EventOf(s, actions[0]), s.n);
      FifoRun(Act(s, actions[0]), actions[1..], q1)
  }

  /** Under every interleaving the buffer behaves as a FIFO of capacity n. */
  lemma {:induction false} RunRefinesFifo<T>(s: State<T>, actions: seq<Action<T>>)
    requires Inv(s)
    ensures Inv(Run(s, actions)) && |Queue(Run(s, actions))| <= s.n && Run(s, actions).n == s.n
    ensures FifoRun(s, actions, Queue(s)) == Some(Queue(Run(s, actions)))
    decreases |actions|
  {
    hide StoredOk, ReadOk, Act, Fifo, EventOf, SideInv;
    if actions == [] {
      Window(s);
    } else {
      ActRefines(s, actions[0]);
      RunRefinesFifo(Act(s, actions[0]), actions[1..]);
    }
  }

  /** A buffer that starts empty: the k-th get to claim a slot returns the k-th put's value. */
  lemma KthGetReadsKthPut<T>(n: nat, blank: T, actions: seq<Action<T>>)
    requires n > 0
    ensures var s := Run(Fresh(n, blank), actions);
            && Inv(s)
            && |Log(s.get)| <= s.put.commits <= |Log(s.put)| <= s.get.commits + n
            && (forall k :: 0 <= k < |Log(s.get)| && !Log(s.get)[k].phase.Taken? ==>
                  Log(s.get)[k].value == Log(s.put)[k].value)
  {
    FreshInv(n, blank);
    RunRefinesFifo(Fresh(n, blank), actions);
    Window(Run(Fresh(n, blank), actions));
  }

  /** No later step changes the value a put was called with. */
  lemma {:induction false} PutKeepsItsValue<T>(s: State<T>, actions: seq<Action<T>>, i: nat)
    requires s.n > 0 && i < |s.put.ops|
    ensures i < |Run(s, actions).put.ops| && Run(s, actions).put.ops[i].value == s.put.ops[i].value
    decreases |actions|
  {
    if actions != [] {
      PutKeepsItsValue(Act(s, actions[0]), actions[1..], i);
    }
  }

  // ---------------------------------------------------------------------------------------
  // Progress
  // ---------------------------------------------------------------------------------------

  ghost predicate NoHalf<T>(sd: Side<T>) {
    forall i :: 0 <= i < |sd.ops| ==> !sd.ops[i].pc.Half?
  }

  lemma ActNoHalf<T>(s: State<T>, a: Action<T>)
    requires s.n > 0 && NoHalf(s.put)
    ensures NoHalf(Act(s, a).put) && Act(s, a).n == s.n
  {
  }

  /** Steps an operation at work still has before its commit. */
  ghost function Rank(pc: Pc): nat {
    match pc
    case Claimed => 2
    case Half => 1
    case _ => 0
  }

  /** The rank of the operation whose turn it is to commit. */
  ghost function OldestRank<T>(sd: Side<T>): nat
    requires ClaimsValid(sd)
  {
    if sd.commits < |sd.claimed| then Rank(sd.ops[sd.claimed[sd.commits]].pc) else 0
  }

  /** The operation whose turn it is either commits or gets closer to it. */
  ghost predicate Moves<T>(sd: Side<T>, sd': Side<T>)
    requires ClaimsValid(sd)
  {
    && sd'.claimed == sd.claimed && ClaimsValid(sd')
    && sd.commits <= sd'.commits <= sd.commits + 1
    && (sd'.commits == sd.commits ==> OldestRank(sd') < OldestRank(sd))
  }

  /** The oldest uncommitted put is never stuck: storing, or its commit loop, goes through. */
  lemma OldestPutMoves<T>(s: State<T>)
    requires Sides(s) && NoHalf(s.put) && s.put.commits < |s.put.claimed|
    ensures Moves(s.put, Act(s, PutStep(s.put.claimed[s.put.commits])).put)
  {
    var i := s.put.claimed[s.put.commits];
    assert Working(s.put.ops[i].pc) && s.put.ops[i].ticket == s.put.commits;
    Window(s);
    if s.put.ops[i].pc.Finished? {
      CommitInOrder(s.put, i, s.n, s.n + s.get.ups);
    }
  }

  /** The oldest uncommitted get is never stuck either. */
  lemma OldestGetMoves<T>(s: State<T>)
    requires Sides(s) && s.get.commits < |s.get.claimed|
    ensures Moves(s.get, Act(s, GetStep(s.get.claimed[s.get.commits])).get)
  {
    var i := s.get.claimed[s.get.commits];
    assert Working(s.get.ops[i].pc) && s.get.ops[i].ticket == s.get.commits;
    Window(s);
    if s.get.ops[i].pc.Finished? {
      CommitInOrder(s.get, i, s.n, s.put.ups);
    }
  }

  /** From every reachable state, all claimed puts can commit without any other operation's help. */
  lemma {:induction false} PutsDrain<T>(s: State<T>) returns (actions: seq<Action<T>>)
    requires Inv(s) && NoHalf(s.put)
    ensures var t := Run(s, actions); Inv(t) && t.put.claimed == s.put.claimed && t.put.commits == |t.put.claimed|
    decreases |s.put.claimed| - s.put.commits, OldestRank(s.put)
  {
    Window(s);
    if s.put.commits == |s.put.claimed| {
      actions := [];
    } else {
      var a := PutStep(s.put.claimed[s.put.commits]);
      OldestPutMoves(s);
      ActRefines(s, a);
      ActNoHalf(s, a);
      hide SideInv, Act, NoHalf, StoredOk, ReadOk;
      Window(Act(s, a));
      var rest := PutsDrain(Act(s, a));
      actions := [a] + rest;
      assert actions[1..] == rest;
    }
  }

  lemma {:induction false} GetsDrain<T>(s: State<T>) returns (actions: seq<Action<T>>)
    requires Inv(s)
    ensures var t := Run(s, actions); Inv(t) && t.get.claimed == s.get.claimed && t.get.commits == |t.get.claimed|
    decreases |s.get.claimed| - s.get.commits, OldestRank(s.get)
  {
    Window(s);
    if s.get.commits == |s.get.claimed| {
      actions := [];
    } else {
      var a := GetStep(s.get.claimed[s.get.commits]);
      OldestGetMoves(s);
      ActRefines(s, a);
      hide SideInv, Act, StoredOk, ReadOk;
      Window(Act(s, a));
      var rest := GetsDrain(Act(s, a));
      actions := [a] + rest;
      assert actions[1..] == rest;
    }
  }

  lemma {:induction false} RunNoHalf<T>(s: State<T>, actions: seq<Action<T>>)
    requires s.n > 0 && NoHalf(s.put)
    ensures NoHalf(Run(s, actions).put)
    decreases |actions|
  {
    if actions != [] {
      ActNoHalf(s, actions[0]);
      RunNoHalf(Act(s, actions[0]), actions[1..]);
    }
  }

  /** No interleaving of a new buffer's operations can wedge: the claimed puts, and the claimed
      gets, can always still be brought to commit. */
  lemma ReachableStatesDrain<T>(n: nat, blank: T, actions: seq<Action<T>>)
    returns (puts: seq<Action<T>>, gets: seq<Action<T>>)
    requires n > 0
    ensures var s := Run(Fresh(n, blank), actions);
            && s.n > 0
            && Run(s, puts).put.claimed == s.put.claimed && Run(s, puts).put.commits == |s.put.claimed|
            && Run(s, gets).get.claimed == s.get.claimed && Run(s, gets).get.commits == |s.get.claimed|
  {
    FreshInv(n, blank);
    RunRefinesFifo(Fresh(n, blank), actions);
    RunNoHalf(Fresh(n, blank), actions);
    var s := Run(Fresh(n, blank), actions);
    hide Inv;
    puts := PutsDrain(s);
    gets := GetsDrain(s);
  }
}
