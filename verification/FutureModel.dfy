/**
 A future (kernel/future.h): its semaphore starts empty, set puts one token in, and every callback
 that gets the token puts it back before it runs its work.  Callbacks run in any order on any core.
 */
module FutureModel {
  import opened Sets
  import opened Wrappers
  import M = SemaphoreModel

  datatype Phase = Unset | Written | Complete

  /**
   `ready` callbacks hold a token and have yet to put it back, `released` ones have and are about
   to run their work, `done` ones ran it on the value recorded.
   */
  datatype Future<T> = Future(
    phase: Phase, value: Option<T>, sem: M.Sem, ready: set<nat>, released: set<nat>, done: map<nat, Option<T>>)

  datatype Op<T> =
    | WriteValue(v: T)
    | SetUp
    | Get(e: nat)
    | AwaitReady(e: nat)
    | PutBack(e: nat)
    | Work(e: nat)

  function NewFuture<T>(): Future<T> {
    Future(Unset, None, M.New(0), {}, {}, map[])
  }

  ghost predicate Known<T>(f: Future<T>, e: nat) {
    e in f.sem.waiting || e in f.ready || e in f.released || e in f.done
  }

  /** up on the future's semaphore: the waiter let through becomes ready. */
  function Up<T>(f: Future<T>): Future<T> {
    var ready := if f.sem.waiting != [] then f.ready + {f.sem.waiting[0]} else f.ready;
    f.(sem := M.Up(f.sem), ready := ready)
  }

  function Down<T>(f: Future<T>, e: nat): Future<T> {
    var ready := if f.sem.count > 0 then f.ready + {e} else f.ready;
    f.(sem := M.Down(f.sem, e), ready := ready)
  }

  /** The down of await_ready, which gives up instead of waiting. */
  function TryDown<T>(f: Future<T>, e: nat): Future<T> {
    var (sem, ok) := M.TryDown(f.sem, e);
    f.(sem := sem, ready := if ok then f.ready + {e} else f.ready)
  }

  /** The steps that can be taken; set is called at most once and a callback has a name of its own. */
  ghost predicate Enabled<T>(f: Future<T>, op: Op<T>) {
    match op
    case WriteValue(_) => f.phase == Unset
    case SetUp => f.phase == Written
    case Get(e) => !Known(f, e)
    case AwaitReady(e) => !Known(f, e)
    case PutBack(e) => e in f.ready
    case Work(e) => e in f.released
  }

  function Step<T>(f: Future<T>, op: Op<T>): Future<T> {
    match op
    case WriteValue(v) => f.(phase := Written, value := Some(v))
    case SetUp => Up(f).(phase := Complete)
    case Get(e) => Down(f, e)
    case AwaitReady(e) => TryDown(f, e)
    case PutBack(e) => Up(f.(ready := f.ready - {e}, released := f.released + {e}))
    case Work(e) => f.(released := f.released - {e}, done := f.done[e := f.value])
  }

  ghost predicate CanRun<T>(f: Future<T>, ops: seq<Op<T>>)
    decreases |ops|
  {
    ops == [] || (Enabled(f, ops[0]) && CanRun(Step(f, ops[0]), ops[1..]))
  }

  ghost function Run<T>(f: Future<T>, ops: seq<Op<T>>): Future<T>
    decreases |ops|
  {
    if ops == [] then f else Run(Step(f, ops[0]), ops[1..])
  }

  ghost predicate Inv<T>(f: Future<T>) {
    && Distinct(f.sem.waiting)
    && (forall e :: e in f.sem.waiting ==> e !in f.ready && e !in f.released && e !in f.done)
    && f.ready !! f.released && f.ready !! f.done.Keys && f.released !! f.done.Keys
    && (f.sem.waiting != [] ==> f.sem.count == 0)
    // once set, one token is either in the semaphore or with one granted callback
    && f.sem.count + |f.ready| == (if f.phase == Complete then 1 else 0)
    && (f.phase != Complete ==> f.released == {} && f.done == map[])
    && (f.phase == Unset <==> f.value.None?)
    && (forall e :: e in f.done ==> f.done[e] == f.value && f.value.Some?)
  }

  lemma UpInv<T>(f: Future<T>)
    requires Distinct(f.sem.waiting) && (forall e :: e in f.sem.waiting ==> e !in f.ready && e !in f.released && e !in f.done)
    requires f.ready == {} && f.sem.count == 0
    ensures var g := Up(f);
            && Distinct(g.sem.waiting) && (forall e :: e in g.sem.waiting ==> e !in g.ready && e !in g.released && e !in g.done)
            && g.sem.count + |g.ready| == 1 && (g.sem.waiting != [] ==> g.sem.count == 0)
            && (forall e :: e in g.ready ==> e in f.sem.waiting)
  {
    if f.sem.waiting != [] {
      var h, t := f.sem.waiting[0], f.sem.waiting[1..];
      assert f.sem.waiting == [h] + t;
      assert h !in t;
    }
  }

  /** Every step keeps the token count, the order of events and the value seen. */
  lemma StepInv<T>(f: Future<T>, op: Op<T>)
    requires Inv(f) && Enabled(f, op)
    ensures Inv(Step(f, op))
  {
    match op {
      case WriteValue(_) =>
      case SetUp => UpInv(f);
      case Get(e) => DownInv(f, e);
      case AwaitReady(e) => if f.sem.count > 0 { DownInv(f, e); }
      case PutBack(e) =>
        var g := f.(ready := f.ready - {e}, released := f.released + {e});
        assert |f.ready| == 1 && f.sem.count == 0 by {
          assert |f.ready - {e}| == |f.ready| - 1;
        }
        Singleton(f.ready, e);
        UpInv(g);
      case Work(e) =>
    }
  }

  lemma DownInv<T>(f: Future<T>, e: nat)
    requires Inv(f) && !Known(f, e)
    ensures Inv(Down(f, e))
  {
  }

  lemma {:induction false} RunInv<T>(f: Future<T>, ops: seq<Op<T>>)
    requires Inv(f) && CanRun(f, ops)
    ensures Inv(Run(f, ops))
    decreases |ops|
  {
    hide Inv, Step;
    if ops != [] {
      StepInv(f, ops[0]);
      RunInv(Step(f, ops[0]), ops[1..]);
    }
  }

  /** No callback runs before the value is set, and every one that runs sees exactly it. */
  lemma CallbacksSeeTheValue<T>(ops: seq<Op<T>>)
    requires CanRun(NewFuture<T>(), ops)
    ensures var f := Run(NewFuture<T>(), ops);
            && (f.released != {} || f.done != map[] || f.ready != {} ==> f.phase == Complete && f.value.Some?)
            && (forall e :: e in f.done ==> f.done[e] == f.value)
            && (f.phase == Complete ==> f.sem.count + |f.ready| == 1)
  {
    RunInv(NewFuture<T>(), ops);
    var f := Run(NewFuture<T>(), ops);
    assert f.ready != {} ==> |f.ready| > 0;
  }

  // ---------------------------------------------------------------------------------------
  // No waiter is lost
  // ---------------------------------------------------------------------------------------

  ghost predicate Internal<T>(op: Op<T>) {
    op.PutBack? || op.Work?
  }

  /** The steps still to come for the callbacks under way. */
  ghost function Measure<T>(f: Future<T>): nat {
    3 * |f.sem.waiting| + 2 * |f.ready| + |f.released|
  }

  lemma InternalDecreases<T>(f: Future<T>, op: Op<T>)
    requires Inv(f) && Internal(op) && Enabled(f, op)
    ensures Measure(Step(f, op)) < Measure(f)
    ensures Step(f, op).phase == f.phase && Step(f, op).value == f.value
    ensures forall e :: Known(f, e) ==> Known(Step(f, op), e)
  {
    var g := Step(f, op);
    match op {
      case PutBack(e) =>
        assert |f.ready - {e}| == |f.ready| - 1 && |f.released + {e}| == |f.released| + 1;
        if f.sem.waiting != [] {
          assert f.sem.waiting == [f.sem.waiting[0]] + f.sem.waiting[1..];
        }
      case Work(e) =>
        assert |f.released - {e}| == |f.released| - 1;
    }
  }

  /** While callbacks are under way after set, one of them can move. */
  lemma SomeInternal<T>(f: Future<T>) returns (op: Op<T>)
    requires Inv(f) && f.phase == Complete && Measure(f) > 0
    ensures Internal(op) && Enabled(f, op)
  {
    if f.released != {} {
      var e :| e in f.released;
      op := Work(e);
    } else {
      assert f.ready != {};
      var e :| e in f.ready;
      op := PutBack(e);
    }
  }

  /** A run of the callbacks alone in which every one of them does its work on the value. */
  ghost predicate Serves<T>(f: Future<T>, ops: seq<Op<T>>) {
    && CanRun(f, ops) && (forall k :: 0 <= k < |ops| ==> Internal(ops[k]))
    && (forall e :: Known(f, e) ==> e in Run(f, ops).done && Run(f, ops).done[e] == f.value)
  }

  /** From every state after set, letting the callbacks run serves every one of them. */
  lemma {:induction false} Drains<T>(f: Future<T>) returns (ops: seq<Op<T>>)
    requires Inv(f) && f.phase == Complete
    ensures Serves(f, ops)
    decreases Measure(f)
  {
    if Measure(f) == 0 {
      ops := [];
    } else {
      var op := SomeInternal(f);
      StepInv(f, op);
      InternalDecreases(f, op);
      var rest := Drains(Step(f, op));
      ops := [op] + rest;
      assert ops[1..] == rest;
    }
  }

  /** However the callbacks are scheduled, no run of theirs is longer than the measure. */
  lemma {:induction false} InternalRunsEnd<T>(f: Future<T>, ops: seq<Op<T>>)
    requires Inv(f) && CanRun(f, ops) && forall k :: 0 <= k < |ops| ==> Internal(ops[k])
    ensures |ops| + Measure(Run(f, ops)) <= Measure(f)
    decreases |ops|
  {
    if ops != [] {
      StepInv(f, ops[0]);
      InternalDecreases(f, ops[0]);
      hide Inv, Step, Measure;
      InternalRunsEnd(Step(f, ops[0]), ops[1..]);
    }
  }
}
