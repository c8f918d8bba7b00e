/** The objects the dynamic linker walks over, and the two walks in place. */
module Linker {
  import opened ConstructorQueue
  import opened DependencyList
  import opened Reachability
  import opened Sets

  /** The null pointer that ends a queue. */
  const NONE := -1

  class Linker {
    /** ndeps_direct and the direct part of deps, for every object. */
    const direct: Graph
    /** deps, extended to all indirect dependencies once bfs_built is set. */
    const deps: array<seq<nat>>
    const bfsBuilt: array<bool>
    const mark: array<bool>
    const nextDep: array<int>

    ghost predicate Valid()
      reads this, deps, bfsBuilt
    {
      && Closed(direct)
      && deps.Length == bfsBuilt.Length == mark.Length == nextDep.Length == |direct|
      && bfsBuilt != mark
      && forall p :: 0 <= p < |direct| ==> DepsOk(direct, p, deps[p], bfsBuilt[p])
    }

    constructor (direct: Graph)
      requires Closed(direct)
      ensures Valid() && this.direct == direct && fresh(deps) && fresh(bfsBuilt) && fresh(mark) && fresh(nextDep)
      ensures forall v :: 0 <= v < |direct| ==> !mark[v] && !bfsBuilt[v]
    {
      this.direct := direct;
      deps := new seq<nat>[|direct|](i requires 0 <= i < |direct| => direct[i]);
      bfsBuilt := new bool[|direct|](_ => false);
      mark := new bool[|direct|](_ => false);
      nextDep := new int[|direct|](_ => 0);
    }

    // -------------------------------------------------------------------------------------
    // extend_bfs_deps
    // -------------------------------------------------------------------------------------

    /** The list of `p` becomes everything it reaches below, its direct dependencies first; no mark is left. */
    method ExtendBfsDeps(p: nat)
      requires Valid() && p < |direct| && Distinct(direct[p])
      requires forall v :: 0 <= v < |direct| ==> !mark[v]
      modifies deps, bfsBuilt, mark
      ensures Valid() && bfsBuilt[p]
      ensures forall v :: 0 <= v < |direct| ==> !mark[v]
      ensures forall q :: 0 <= q < |direct| && q != p ==> deps[q] == old(deps[q]) && bfsBuilt[q] == old(bfsBuilt[q])
      ensures old(bfsBuilt[p]) ==> deps[p] == old(deps[p])
    {
      if bfsBuilt[p] { return; }
      MarkDirect(p);
      ScanStart(direct, p);
      var i := 0;
      while i < |deps[p]|
        invariant Scan(direct, p, deps[p], i) && MarksList(mark[..], deps[p])
        invariant forall q :: 0 <= q < |direct| ==> direct[q] <= deps[q]
        invariant forall q :: 0 <= q < |direct| && q != p ==> deps[q] == old(deps[q])
        modifies deps, mark
        decreases |direct| - i
      {
        ScanBound(direct, p, deps[p], i);
        Expand(p, i);
        i := i + 1;
      }
      ScanEnd(direct, p, deps[p]);
      bfsBuilt[p] := true;
      for v := 0 to |direct|
        invariant forall w :: 0 <= w < v ==> !mark[w]
        modifies mark
      {
        mark[v] := false;
      }
    }

    method MarkDirect(p: nat)
      requires Valid() && p < |direct| && deps[p] == direct[p] && forall v :: 0 <= v < |direct| ==> !mark[v]
      modifies mark
      ensures MarksList(mark[..], deps[p])
    {
      for i := 0 to |deps[p]|
        invariant MarksList(mark[..], deps[p][..i])
        modifies mark
      {
        mark[deps[p][i]] := true;
        assert deps[p][..i + 1] == deps[p][..i] + [deps[p][i]];
      }
      assert deps[p][..|deps[p]|] == deps[p];
    }

    /** The direct dependencies of the i-th listed object that are not listed yet are appended, within the room counted first. */
    method Expand(p: nat, i: nat)
      requires deps.Length == mark.Length == |direct| && p < |direct|
      requires Scan(direct, p, deps[p], i) && i < |deps[p]| && MarksList(mark[..], deps[p])
      requires forall q :: 0 <= q < |direct| ==> direct[q] <= deps[q]
      modifies deps, mark
      ensures Scan(direct, p, deps[p], i + 1) && MarksList(mark[..], deps[p])
      ensures forall q :: 0 <= q < |direct| ==> direct[q] <= deps[q]
      ensures forall q :: 0 <= q < |direct| && q != p ==> deps[q] == old(deps[q])
    {
      var dep := deps[p][i];
      assert dep in deps[p];
      var cnt := CountUnmarked(dep, deps[p]);
      var room := |deps[p]| + cnt;
      hide Scan, Unlisted;
      for j := 0 to |direct[dep]|
        invariant Expanding(direct, p, deps[p], i, dep, j, room) && MarksList(mark[..], deps[p])
        invariant forall q :: 0 <= q < |direct| ==> direct[q] <= deps[q]
        invariant forall q :: 0 <= q < |direct| && q != p ==> deps[q] == old(deps[q])
        modifies deps, mark
      {
        ExpandTurn(direct, p, deps[p], i, dep, j, room);
        hide Expanding;
        AppendUnmarked(p, dep, j, room);
      }
      ExpandEnd(direct, p, deps[p], i, dep, room);
    }

    /** One dependency of the scanned object. */
    method AppendUnmarked(p: nat, dep: nat, j: nat, room: nat)
      requires deps.Length == mark.Length == |direct| && p < |direct| && dep < |direct| && j < |direct[dep]| && direct[dep] <= deps[dep]
      requires MarksList(mark[..], deps[p]) && direct[dep][j] < |direct| && (direct[dep][j] !in deps[p] ==> |deps[p]| < room)
      modifies deps, mark
      ensures deps[p] == if direct[dep][j] in old(deps[p]) then old(deps[p]) else old(deps[p]) + [direct[dep][j]]
      ensures MarksList(mark[..], deps[p])
      ensures forall q :: 0 <= q < |direct| && q != p ==> deps[q] == old(deps[q])
    {
      var d := deps[dep][j];
      if !mark[d] {
        assert |deps[p]| < room;  // the slot exists in the list the source has allocated
        ghost var marks := mark[..];
        MarksAppend(marks, deps[p], d);
        mark[d] := true;
        deps[p] := deps[p] + [d];
        assert mark[..] == marks[d := true];
      }
    }

    method CountUnmarked(dep: nat, ghost list: seq<nat>) returns (cnt: nat)
      requires Closed(direct) && deps.Length == mark.Length == |direct| && dep < |direct| && direct[dep] <= deps[dep]
      requires MarksList(mark[..], list)
      ensures cnt == Unlisted(direct[dep], list, 0)
    {
      cnt := 0;
      for j := 0 to |direct[dep]|
        invariant cnt + Unlisted(direct[dep], list, j) == Unlisted(direct[dep], list, 0)
      {
        assert deps[dep][j] == direct[dep][j];
        if !mark[deps[dep][j]] { cnt := cnt + 1; }
      }
    }

    // -------------------------------------------------------------------------------------
    // queue_ctors
    // -------------------------------------------------------------------------------------

    /** Clears the marks the walk will look at and bounds the number of objects it can meet. */
    method ClearMarks(root: nat) returns (cnt: nat)
      requires Valid() && root < |direct|
      modifies mark
      ensures |Reached(direct, root)| <= cnt
      ensures forall v :: v in Reached(direct, root) && v != root ==> !mark[v]
      ensures forall v :: 0 <= v < |direct| && mark[v] ==> old(mark[v])
    {
      cnt := 0;
      if bfsBuilt[root] {
        BuiltBound(direct, root, deps[root]);
        assert forall k :: 0 <= k < |deps[root]| ==> deps[root][k] in deps[root];
        while cnt < |deps[root]|
          invariant cnt <= |deps[root]| && forall k :: 0 <= k < cnt ==> !mark[deps[root][k]]
          invariant forall v :: 0 <= v < |direct| && mark[v] ==> old(mark[v])
          modifies mark
        {
          mark[deps[root][cnt]] := false;
          cnt := cnt + 1;
        }
        cnt := cnt + 1;
      } else {
        AllBound(direct, root);
        while cnt < |direct|
          invariant cnt <= |direct| && forall k :: 0 <= k < cnt ==> !mark[k]
          invariant forall v :: 0 <= v < |direct| && mark[v] ==> old(mark[v])
          modifies mark
        {
          mark[cnt] := false;
          cnt := cnt + 1;
        }
      }
    }

    /** The inner loop: down through unmarked dependencies until an object has none left. */
    method Descend(queue: array<int>, root: nat, p0: nat, spos0: nat, ghost q: seq<nat>, ghost stack0: seq<nat>, ghost seen0: set<nat>)
      returns (p: nat, spos: nat, ghost stack: seq<nat>, ghost seen: set<nat>)
      requires Valid() && queue != nextDep && root < |direct|
      requires At(direct, root, queue[..], mark[..], nextDep[..], q, p0, stack0, seen0, spos0)
      modifies queue, mark, nextDep
      ensures At(direct, root, queue[..], mark[..], nextDep[..], q, p, stack, seen, spos)
      ensures p < |direct| && nextDep[p] >= |direct[p]|
      ensures forall v :: 0 <= v < |direct| && mark[v] ==> old(mark[v]) || v in Reached(direct, root)
    {
      hide At, Reached;
      p, spos, stack, seen := p0, spos0, stack0, seen0;
      HeadCounter(direct, root, queue[..], mark[..], nextDep[..], q, p, stack, seen, spos);
      while nextDep[p] < |direct[p]|
        invariant At(direct, root, queue[..], mark[..], nextDep[..], q, p, stack, seen, spos)
        invariant p < |direct| && 0 <= nextDep[p]
        invariant forall v :: 0 <= v < |direct| && mark[v] ==> old(mark[v]) || v in Reached(direct, root)
        decreases Upto(|direct|) - seen, |direct[p]| - nextDep[p]
      {
        HeadCounter(direct, root, queue[..], mark[..], nextDep[..], q, p, stack, seen, spos);
        var d := deps[p][nextDep[p]];
        assert d == direct[p][nextDep[p]] && Edge(direct, p, d);
        ghost var b, ms, ns := queue[..], mark[..], nextDep[..];
        if mark[d] {
          Skip(direct, root, b, ms, ns, q, p, stack, seen, spos);
          nextDep[p] := nextDep[p] + 1;
          assert nextDep[..] == ns[p := ns[p] + 1];
        } else {
          Down(direct, root, b, ms, ns, q, p, stack, seen, spos, d);
          spos := spos - 1;
          queue[spos] := p;
          stack, seen := [p] + stack, seen + {d};
          p := d;
          nextDep[p] := 0;
          mark[p] := true;
          assert queue[..] == b[spos := stack[0]] && mark[..] == ms[p := true] && nextDep[..] == ns[p := 0];
        }
      }
    }

    /**
     queue_ctors: the queue holds everything the object reaches, each once, direct dependencies
     first unless they depend on their dependent in turn; the marks set on the way are cleared.
     */
    method QueueCtors(root: nat) returns (queue: array<int>, ghost q: seq<nat>)
      requires Valid() && root < |direct|
      modifies mark, nextDep
      ensures fresh(queue) && |q| < queue.Length && queue[|q|] == NONE && forall i :: 0 <= i < |q| ==> queue[i] == q[i]
      ensures Lists(direct, root, q) && Ordered(direct, q)
      ensures forall v :: 0 <= v < |direct| && mark[v] ==> old(mark[v]) && v !in q
    {
      var cnt := ClearMarks(root);
      cnt := cnt + 1;
      queue := new int[cnt](_ => NONE);
      queue[cnt - 1] := root;
      nextDep[root] := 0;
      mark[root] := true;
      Self(direct, root);
      Start(direct, root, queue[..], mark[..], nextDep[..]);
      var qpos;
      qpos, q := WalkAll(queue, root);
      assert forall v :: 0 <= v < |direct| && mark[v] ==> old(mark[v]) || v in Reached(direct, root);
      Unmark(queue, qpos, q);
    }

    /** The two nested loops, from the object on top of the stack to the end of the queue. */
    method WalkAll(queue: array<int>, root: nat) returns (qpos: nat, ghost q: seq<nat>)
      requires Valid() && queue != nextDep && root < |direct| && 0 < queue.Length
      requires Between(direct, root, queue[..], mark[..], nextDep[..], [], [root], {root}, queue.Length - 1)
      modifies queue, mark, nextDep
      ensures qpos == |q| < queue.Length && queue[|q|] == NONE && forall i :: 0 <= i < |q| ==> queue[i] == q[i]
      ensures Lists(direct, root, q) && Ordered(direct, q)
      ensures forall v :: 0 <= v < |direct| && mark[v] ==> old(mark[v]) || v in Reached(direct, root)
    {
      hide Between, At, Reached, Lists, Ordered;
      var cnt := queue.Length;
      qpos := 0;
      var spos := cnt - 1;
      ghost var stack, seen := [root], {root};
      q := [];
      while spos < cnt
        invariant Between(direct, root, queue[..], mark[..], nextDep[..], q, stack, seen, spos) && qpos == |q| && 0 <= spos
        invariant forall v :: 0 <= v < |direct| && mark[v] ==> old(mark[v]) || v in Reached(direct, root)
        decreases cnt - qpos
      {
        Pop(direct, root, queue[..], mark[..], nextDep[..], q, stack, seen, spos);
        var p: nat := queue[spos];
        p, spos, stack, seen := Descend(queue, root, p, spos + 1, q, stack[1..], seen);
        Out(direct, root, queue[..], mark[..], nextDep[..], q, p, stack, seen, spos);
        ghost var b := queue[..];
        queue[qpos] := p;
        assert queue[..] == b[|q| := p];
        qpos := qpos + 1;
        q := q + [p];
      }
      Finish(direct, root, queue[..], mark[..], nextDep[..], q, stack, seen, spos);
      queue[qpos] := NONE;
    }

    /** The marks of the queued objects are cleared. */
    method Unmark(queue: array<int>, qpos: nat, ghost q: seq<nat>)
      requires Valid() && qpos == |q| <= queue.Length && (forall i :: 0 <= i < |q| ==> queue[i] == q[i])
      requires forall v :: v in q ==> v < |direct|
      modifies mark
      ensures forall v :: 0 <= v < |direct| ==> mark[v] == (old(mark[v]) && v !in q)
    {
      assert forall k :: 0 <= k < |q| ==> q[k] in q;
      for i := 0 to qpos
        invariant forall v :: 0 <= v < |direct| ==> mark[v] == (old(mark[v]) && v !in q[..i])
        modifies mark
      {
        mark[queue[i]] := false;
        assert q[..i + 1] == q[..i] + [q[i]];
      }
      assert q[..qpos] == q;
    }
  }
}
