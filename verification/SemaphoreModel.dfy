/** The counting semaphore (kernel/semaphore.h, kernel/semaphore.cc) under every interleaving of its locked steps. */
module SemaphoreModel {

  /** `asked` and `granted` record the downs in the order they came and were let through. */
  datatype Sem = Sem(count: nat, waiting: seq<nat>, asked: seq<nat>, granted: seq<nat>, ups: nat)

  function New(count: nat): Sem {
    Sem(count, [], [], [], 0)
  }

  function Up(s: Sem): Sem {
    if s.waiting != [] then
      s.(waiting := s.waiting[1..], granted := s.granted + [s.waiting[0]], ups := s.ups + 1)
    else
      s.(count := s.count + 1, ups := s.ups + 1)
  }

  function Down(s: Sem, e: nat): Sem {
    if s.count > 0 then
      s.(count := s.count - 1, asked := s.asked + [e], granted := s.granted + [e])
    else
      s.(waiting := s.waiting + [e], asked := s.asked + [e])
  }

  /** await_ready: a down that gives up instead of waiting. */
  function TryDown(s: Sem, e: nat): (Sem, bool) {
    if s.count > 0 then (s.(count := s.count - 1, asked := s.asked + [e], granted := s.granted + [e]), true)
    else (s, false)
  }

  datatype Op = UpOp | DownOp(e: nat) | TryOp(e: nat)

  function Step(s: Sem, op: Op): Sem {
    match op
    case UpOp => Up(s)
    case DownOp(e) => Down(s, e)
    case TryOp(e) => TryDown(s, e).0
  }

  function Run(s: Sem, ops: seq<Op>): Sem
    decreases |ops|
  {
    if ops == [] then s else Run(Step(s, ops[0]), ops[1..])
  }

  /** Nobody waits while there are tokens, tokens are conserved, and downs are let through in order. */
  ghost predicate Inv(s: Sem, initial: nat) {
    && (s.waiting != [] ==> s.count == 0)
    && s.count + |s.granted| == initial + s.ups
    && s.granted + s.waiting == s.asked
  }

  lemma StepInv(s: Sem, op: Op, initial: nat)
    requires Inv(s, initial)
    ensures Inv(Step(s, op), initial)
  {
    if op.UpOp? && s.waiting != [] {
      assert s.waiting == [s.waiting[0]] + s.waiting[1..];
    }
  }

  /**
   In every run the assertion of up holds when it finds a waiter, the tokens handed out and left
   are those put in, and the downs let through are a prefix of the downs asked for.
   */
  lemma {:induction false} RunInv(s: Sem, ops: seq<Op>, initial: nat)
    requires Inv(s, initial)
    ensures Inv(Run(s, ops), initial)
    decreases |ops|
  {
    if ops != [] {
      StepInv(s, ops[0], initial);
      RunInv(Step(s, ops[0]), ops[1..], initial);
    }
  }

  /** Exactly as many downs are let through as there were tokens, or all of them. */
  lemma GrantedExactly(initial: nat, ops: seq<Op>)
    ensures var s := Run(New(initial), ops);
            && |s.granted| == (if |s.asked| <= initial + s.ups then |s.asked| else initial + s.ups)
            && s.granted <= s.asked
  {
    RunInv(New(initial), ops, initial);
  }
}
