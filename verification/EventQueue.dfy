/** The intrusive singly linked queue of kernel/queue.h. */
module EventQueue {
  import opened Sets

  /** An element; `id` stands for the work it carries. */
  class Event {
    const id: nat
    var next: Event?

    constructor (id: nat)
      ensures this.id == id && next == null
    {
      this.id := id;
      next := null;
    }
  }

  ghost predicate Separate(a: seq<Event>, b: seq<Event>) {
    forall i, j :: 0 <= i < |a| && 0 <= j < |b| ==> a[i] != b[j]
  }

  ghost predicate LinkOk(s: seq<Event>, i: int)
    requires 0 <= i < |s|
    reads s
  {
    s[i].next == if i + 1 < |s| then s[i + 1] else null
  }

  /** The work the elements carry. */
  ghost function Ids(s: seq<Event>): seq<nat> {
    seq(|s|, i requires 0 <= i < |s| => s[i].id)
  }

  class Queue {
    var first: Event?
    var last: Event?
    /** The elements from the first to the last. */
    ghost var contents: seq<Event>

    ghost predicate Valid()
      reads this, contents
    {
      && Distinct(contents)
      && (contents == [] ==> first == null && last == null)
      && (contents != [] ==> first == contents[0] && last == contents[|contents| - 1])
      && forall i :: 0 <= i < |contents| ==> LinkOk(contents, i)
    }

    constructor ()
      ensures Valid() && contents == []
    {
      first, last := null, null;
      contents := [];
    }

    method Add(t: Event)
      requires Valid() && t !in contents
      modifies this, t, last
      ensures Valid() && contents == old(contents) + [t]
    {
      ghost var w := contents;
      assert forall i :: 0 <= i < |w| ==> LinkOk(w, i);
      t.next := null;
      if first == null {
        first := t;
      } else {
        last.next := t;
      }
      last := t;
      contents := w + [t];
      forall i | 0 <= i < |contents|
        ensures LinkOk(contents, i)
      {
        assert i < |w| ==> old(LinkOk(w, i));
      }
    }

    method AddStack(t: Event)
      requires Valid() && t !in contents
      modifies this, t
      ensures Valid() && contents == [t] + old(contents)
    {
      ghost var w := contents;
      t.next := first;
      first := t;
      if last == null {
        last := t;
      }
      contents := [t] + w;
      forall i | 0 <= i < |contents|
        ensures LinkOk(contents, i)
      {
        assert i > 0 ==> old(LinkOk(w, i - 1));
      }
    }

    method Remove() returns (it: Event?)
      requires Valid()
      modifies this
      ensures Valid()
      ensures it == null <==> old(contents) == []
      ensures it == null ==> contents == []
      ensures it != null ==> old(contents) == [it] + contents
    {
      if first == null { return null; }
      ghost var w := contents;
      assert LinkOk(w, 0);
      it := first;
      first := it.next;
      if first == null {
        last := null;
      }
      contents := w[1..];
      forall i | 0 <= i < |contents|
        ensures LinkOk(contents, i)
      {
        assert old(LinkOk(w, i + 1));
      }
    }

    /** The whole list is taken over by the caller, still linked. */
    method RemoveAll() returns (it: Event?)
      requires Valid()
      modifies this
      ensures Valid() && contents == []
      ensures it == if old(contents) == [] then null else old(contents)[0]
    {
      it := first;
      first, last := null, null;
      contents := [];
    }

    /** The elements of the other queue follow, in their order. */
    method TransferAll(other: Queue)
      requires Valid() && other.Valid() && other != this && Separate(contents, other.contents)
      modifies this, other, last
      ensures Valid() && other.Valid()
      ensures contents == old(contents) + old(other.contents) && other.contents == []
    {
      if other.first == null { return; }
      ghost var a, b := contents, other.contents;
      if first == null {
        first := other.first;
      } else {
        last.next := other.first;
      }
      last := other.last;
      other.first, other.last := null, null;
      contents := a + b;
      other.contents := [];
      forall i | 0 <= i < |contents|
        ensures LinkOk(contents, i)
      {
        assert i < |a| ==> old(LinkOk(a, i));
        assert i >= |a| ==> old(LinkOk(b, i - |a|));
      }
    }
  }
}
