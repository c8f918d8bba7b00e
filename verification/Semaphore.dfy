/** The semaphore object, a count and a queue of waiting events changed under its lock, and the future on top of it. */
module Semaphore {
  import opened EventQueue
  import opened Wrappers
  import M = SemaphoreModel
  import F = FutureModel

  class Semaphore {
    var count: nat
    const waiting: Queue
    /** The events let run, shared by all semaphores. */
    const readyQueue: Queue
    ghost var model: M.Sem

    ghost predicate Valid()
      reads this, waiting, waiting.contents, readyQueue, readyQueue.contents
    {
      && waiting != readyQueue && waiting.Valid() && readyQueue.Valid() && Separate(waiting.contents, readyQueue.contents)
      && model.count == count && model.waiting == Ids(waiting.contents)
      && (model.waiting != [] ==> model.count == 0)
    }

    constructor (count: nat, readyQueue: Queue)
      requires readyQueue.Valid()
      ensures Valid() && this.readyQueue == readyQueue && model == M.New(count) && fresh(waiting)
    {
      this.count := count;
      this.readyQueue := readyQueue;
      waiting := new Queue();
      model := M.New(count);
    }

    /** up: the longest waiting event goes to the ready queue, or the count rises. */
    method Up()
      requires Valid()
      modifies this, waiting, readyQueue, waiting.contents, readyQueue.last
      ensures Valid() && model == M.Up(old(model))
      ensures old(model.waiting) != [] ==> readyQueue.contents == old(readyQueue.contents) + [old(waiting.contents)[0]]
      ensures old(model.waiting) == [] ==> readyQueue.contents == old(readyQueue.contents)
    {
      ghost var w := waiting.contents;
      var e := waiting.Remove();
      if e != null {
        assert count == 0;
        assert e == w[0] && waiting.contents == w[1..];
        readyQueue.Add(e);
        assert Ids(w)[1..] == Ids(w[1..]);
      } else {
        count := count + 1;
      }
      model := M.Up(model);
    }

    /** down: the event runs at once or waits. */
    method Down(e: Event)
      requires Valid() && e !in waiting.contents && e !in readyQueue.contents
      modifies this, waiting, readyQueue, e, waiting.last, readyQueue.last
      ensures Valid() && model == M.Down(old(model), e.id)
      ensures old(model.count) > 0 ==>
                readyQueue.contents == old(readyQueue.contents) + [e] && waiting.contents == old(waiting.contents)
      ensures old(model.count) == 0 ==>
                readyQueue.contents == old(readyQueue.contents) && waiting.contents == old(waiting.contents) + [e]
    {
      if count > 0 {
        count := count - 1;
        readyQueue.Add(e);
      } else {
        ghost var w := waiting.contents;
        waiting.Add(e);
        assert Ids(w + [e]) == Ids(w) + [e.id];
      }
      model := M.Down(model, e.id);
    }

    /** await_ready */
    method AwaitReady(ghost id: nat) returns (ok: bool)
      requires Valid()
      modifies this
      ensures Valid() && (model, ok) == M.TryDown(old(model), id)
      ensures waiting.contents == old(waiting.contents) && readyQueue.contents == old(readyQueue.contents)
    {
      ok := count > 0;
      if ok {
        count := count - 1;
      }
      model := M.TryDown(model, id).0;
    }
  }

  /** A future: the value and a semaphore that starts empty. */
  class Future<T> {
    var value: Option<T>
    const sem: Semaphore
    ghost var model: F.Future<T>

    ghost predicate Valid()
      reads this, sem, sem.waiting, sem.waiting.contents, sem.readyQueue, sem.readyQueue.contents
    {
      sem.Valid() && F.Inv(model) && model.sem == sem.model && model.value == value
    }

    constructor (readyQueue: Queue)
      requires readyQueue.Valid()
      ensures Valid() && sem.readyQueue == readyQueue && model == F.NewFuture()
    {
      value := None;
      sem := new Semaphore(0, readyQueue);
      model := F.NewFuture();
    }

    /** From here on the callbacks, left to themselves, all get to work on `v`. */
    method Set(v: T)
      requires Valid() && model.phase == F.Unset
      modifies this, sem, sem.waiting, sem.readyQueue, sem.waiting.contents, sem.readyQueue.last
      ensures Valid() && model == F.Step(F.Step(old(model), F.WriteValue(v)), F.SetUp)
      ensures exists ops :: F.Serves(model, ops)
      ensures forall e :: F.Known(model, e) <==> F.Known(old(model), e)
      ensures value == Some(v) && model.phase == F.Complete
      ensures old(sem.waiting.contents) != [] ==>
                sem.readyQueue.contents == old(sem.readyQueue.contents) + [old(sem.waiting.contents)[0]]
    {
      value := Some(v);
      ghost var written := F.Step(model, F.WriteValue(v));
      F.StepInv(model, F.WriteValue(v));
      F.StepInv(written, F.SetUp);
      KeepsKnown(written);
      sem.Up();
      model := F.Step(written, F.SetUp);
      ghost var ops := F.Drains(model);
    }

    /** The callback `e` is scheduled at once if set is through and the token is there; before set it waits. */
    method Get(e: Event)
      requires Valid() && e !in sem.waiting.contents && e !in sem.readyQueue.contents && !F.Known(model, e.id)
      modifies this, sem, sem.waiting, sem.readyQueue, e, sem.waiting.last, sem.readyQueue.last
      ensures Valid() && model == F.Step(old(model), F.Get(e.id)) && value == old(value)
      ensures old(model).phase != F.Complete ==>
                e in sem.waiting.contents && sem.readyQueue.contents == old(sem.readyQueue.contents)
      ensures old(model).phase == F.Complete && old(model).ready == {} ==>
                sem.readyQueue.contents == old(sem.readyQueue.contents) + [e]
    {
      F.StepInv(model, F.Get(e.id));
      sem.Down(e);
      model := F.Step(model, F.Get(e.id));
    }

    /** A granted callback: the token goes back before the work sees the value, which is there. */
    method RunCallback(ghost id: nat) returns (v: Option<T>)
      requires Valid() && id in model.ready
      modifies this, sem, sem.waiting, sem.readyQueue, sem.waiting.contents, sem.readyQueue.last
      ensures Valid() && model == F.Step(F.Step(old(model), F.PutBack(id)), F.Work(id)) && value == old(value)
      ensures v == value && v.Some? && id in model.done && model.done[id] == v
      ensures model.sem.count + |model.ready| == 1
    {
      ghost var back := F.Step(model, F.PutBack(id));
      F.StepInv(model, F.PutBack(id));
      F.StepInv(back, F.Work(id));
      sem.Up();
      v := value;
      model := F.Step(back, F.Work(id));
    }

    /** A coroutine goes on without suspending only when the value is there, and leaves the token where it was. */
    method AwaitReady(ghost id: nat) returns (ok: bool)
      requires Valid() && !F.Known(model, id)
      modifies this, sem, sem.waiting, sem.readyQueue, sem.waiting.contents, sem.readyQueue.last
      ensures Valid() && value == old(value)
      ensures ok <==> old(model).phase == F.Complete && old(model).ready == {}
      ensures ok ==> value.Some? && model == F.Step(F.Step(old(model), F.AwaitReady(id)), F.PutBack(id))
      ensures !ok ==> model == old(model)
      ensures sem.count == old(sem.count) && sem.waiting.contents == old(sem.waiting.contents)
      ensures sem.readyQueue.contents == old(sem.readyQueue.contents)
    {
      ghost var m1 := F.Step(model, F.AwaitReady(id));
      F.StepInv(model, F.AwaitReady(id));
      assert model.ready == {} || |model.ready| > 0;
      ok := sem.AwaitReady(id);
      if ok {
        F.StepInv(m1, F.PutBack(id));
        assert m1.sem.waiting == [];
        sem.Up();
        model := F.Step(m1, F.PutBack(id));
      }
    }
  }

  lemma KeepsKnown<T>(f: F.Future<T>)
    ensures forall e :: F.Known(F.Step(f, F.SetUp), e) <==> F.Known(f, e)
  {
    if f.sem.waiting != [] {
      assert f.sem.waiting == [f.sem.waiting[0]] + f.sem.waiting[1..];
    }
  }
}
