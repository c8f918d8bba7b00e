/**
 The constructor queue of the dynamic linker (queue_ctors in libc/musl/ldso/dynlink.c): a
 depth-first walk whose output queue and working stack share one buffer.
 */
module ConstructorQueue {
  import opened Reachability
  import opened Sets

  /** `q` lists what `root` reaches, itself included, each object once. */
  ghost predicate Lists(g: Graph, root: nat, q: seq<nat>) {
    Distinct(q) && forall v: nat :: v in q <==> v < |g| && Reaches(g, root, v)
  }

  ghost predicate Before(q: seq<nat>, i: int, d: nat) {
    exists j :: 0 <= j < i && j < |q| && q[j] == d
  }

  /** Each direct dependency stands before its dependent unless it depends on it in turn. */
  ghost predicate Ordered(g: Graph, q: seq<nat>) {
    forall i: nat, d: nat {:trigger Before(q, i, d)} :: i < |q| && Edge(g, q[i], d) ==> Before(q, i, d) || Reaches(g, d, q[i])
  }

  // ---------------------------------------------------------------------------------------
  // The walk
  // ---------------------------------------------------------------------------------------

  /** `q` is done, `gray` is under way from the innermost object out, `seen` are the marked objects. */
  ghost predicate Walk(g: Graph, root: nat, q: seq<nat>, gray: seq<nat>, seen: set<nat>) {
    && Closed(g) && root < |g| && root in seen
    && Distinct(q) && Distinct(gray) && (forall v :: v in q ==> v !in gray)
    && (forall v :: v in seen <==> v in q || v in gray)
    && (forall v :: v in seen ==> v < |g| && Reaches(g, root, v))
    && (forall j, k :: 0 <= j <= k < |gray| ==> Reaches(g, gray[k], gray[j]))
    && (forall v, w :: v in q && Edge(g, v, w) ==> w in seen)
    && Ordered(g, q)
  }

  lemma WalkStart(g: Graph, root: nat)
    requires Closed(g) && root < |g|
    ensures Walk(g, root, [], [root], {root})
  {
    Self(g, root);
  }

  /** The walk goes down into an unmarked dependency. */
  lemma WalkDown(g: Graph, root: nat, q: seq<nat>, gray: seq<nat>, seen: set<nat>, d: nat)
    requires Walk(g, root, q, gray, seen) && gray != [] && Edge(g, gray[0], d) && d !in seen
    ensures d < |g| && Reaches(g, root, d) && Walk(g, root, q, [d] + gray, seen + {d})
  {
    assert gray[0] in gray;
    Extend(g, root, gray[0], d);
    var gray' := [d] + gray;
    forall j, k | 0 <= j <= k < |gray'|
      ensures Reaches(g, gray'[k], gray'[j])
    {
      if k == 0 {
        Self(g, d);
      } else if j == 0 {
        assert Reaches(g, gray[k - 1], gray[0]);
        Extend(g, gray[k - 1], gray[0], d);
      } else {
        assert Reaches(g, gray[k - 1], gray[j - 1]);
      }
    }
    WalkDownDistinct(gray, d);
  }

  lemma WalkDownDistinct(gray: seq<nat>, d: nat)
    requires Distinct(gray) && d !in gray
    ensures Distinct([d] + gray)
  {
    var s := [d] + gray;
    forall i, j | 0 <= i < j < |s|
      ensures s[i] != s[j]
    {
      assert s[j] == gray[j - 1] && gray[j - 1] in gray;
    }
  }

  /** An object whose dependencies are all marked is done. */
  lemma WalkUp(g: Graph, root: nat, q: seq<nat>, gray: seq<nat>, seen: set<nat>)
    requires Walk(g, root, q, gray, seen) && gray != [] && forall d :: Edge(g, gray[0], d) ==> d in seen
    ensures Walk(g, root, q + [gray[0]], gray[1..], seen)
  {
    var p := gray[0];
    var q' := q + [p];
    var rest := gray[1..];
    assert gray == [p] + rest;
    assert p in gray;
    forall j, k | 0 <= j <= k < |rest|
      ensures Reaches(g, rest[k], rest[j])
    {
      assert Reaches(g, gray[k + 1], gray[j + 1]);
    }
    forall i: nat, d: nat | i < |q'| && Edge(g, q'[i], d)
      ensures Before(q', i, d) || Reaches(g, d, q'[i])
    {
      if i < |q| {
        OrderedAt(g, q, p, i, d);
      } else {
        LastInOrder(g, q, gray, seen, d);
      }
    }
  }

  lemma OrderedAt(g: Graph, q: seq<nat>, p: nat, i: nat, d: nat)
    requires Ordered(g, q) && i < |q| && Edge(g, q[i], d)
    ensures Before(q + [p], i, d) || Reaches(g, d, q[i])
  {
    if Before(q, i, d) {
      var j :| 0 <= j < i && j < |q| && q[j] == d;
      assert (q + [p])[j] == d;
    }
  }

  /** A dependency that is not done yet is under way, so the object reaches it from above. */
  lemma LastInOrder(g: Graph, q: seq<nat>, gray: seq<nat>, seen: set<nat>, d: nat)
    requires gray != [] && d in seen && (forall v :: v in seen <==> v in q || v in gray)
    requires forall j, k :: 0 <= j <= k < |gray| ==> Reaches(g, gray[k], gray[j])
    ensures Before(q + [gray[0]], |q|, d) || Reaches(g, d, gray[0])
  {
    if d in q {
      var j :| 0 <= j < |q| && q[j] == d;
      assert (q + [gray[0]])[j] == d;
    } else {
      var k :| 0 <= k < |gray| && gray[k] == d;
      assert Reaches(g, gray[k], gray[0]);
    }
  }

  /** With nothing under way, everything reached is listed. */
  lemma WalkEnd(g: Graph, root: nat, q: seq<nat>, seen: set<nat>)
    requires Walk(g, root, q, [], seen)
    ensures Lists(g, root, q) && Ordered(g, q)
  {
    forall v: nat | v < |g| && Reaches(g, root, v)
      ensures v in q
    {
      ContainsReached(g, seen, root, v);
    }
  }

  /** The marked objects fill the buffer to at most the number of reached ones. */
  lemma WalkRoom(g: Graph, root: nat, q: seq<nat>, gray: seq<nat>, seen: set<nat>)
    requires Walk(g, root, q, gray, seen)
    ensures |q| + |gray| == |seen| <= |Reached(g, root)|
    ensures forall d: nat :: d in Reached(g, root) && d !in seen ==> |seen| < |Reached(g, root)|
  {
    DistinctCard(q);
    DistinctCard(gray);
    assert seen == Elements(q) + Elements(gray) && Elements(q) !! Elements(gray);
    SubsetCard(seen, Reached(g, root));
  }

  // ---------------------------------------------------------------------------------------
  // The walk in the buffer, the marks and the counters
  // ---------------------------------------------------------------------------------------

  /** The queue fills the buffer from the left and the stack from the right. */
  ghost predicate Buffered(b: seq<int>, q: seq<nat>, stack: seq<nat>, spos: int) {
    && |q| <= spos && spos + |stack| == |b|
    && (forall i :: 0 <= i < |q| ==> b[i] == q[i])
    && (forall i :: spos <= i < |b| ==> b[i] == stack[i - spos])
  }

  ghost predicate Marked(marks: seq<bool>, reached: set<nat>, seen: set<nat>) {
    forall v :: v in reached ==> v < |marks| && (marks[v] <==> v in seen)
  }

  /** The dependencies below its counter are marked for every object under way. */
  ghost predicate CounterOk(g: Graph, next: seq<int>, seen: set<nat>, v: nat) {
    v < |g| && v < |next| && 0 <= next[v] <= |g[v]| && forall j :: 0 <= j < next[v] ==> g[v][j] in seen
  }

  ghost predicate Counting(g: Graph, next: seq<int>, gray: seq<nat>, seen: set<nat>) {
    forall v {:trigger CounterOk(g, next, seen, v)} :: v in gray ==> CounterOk(g, next, seen, v)
  }

  /** The walk at object `p`, with the rest of what is under way on the stack. */
  ghost predicate At(g: Graph, root: nat, b: seq<int>, marks: seq<bool>, next: seq<int>, q: seq<nat>, p: nat, stack: seq<nat>,
                     seen: set<nat>, spos: int) {
    && Walk(g, root, q, [p] + stack, seen) && Buffered(b, q, stack, spos)
    && Marked(marks, Reached(g, root), seen) && Counting(g, next, [p] + stack, seen)
    && |Reached(g, root)| < |b|
  }

  /** The walk between two objects. */
  ghost predicate Between(g: Graph, root: nat, b: seq<int>, marks: seq<bool>, next: seq<int>, q: seq<nat>, stack: seq<nat>,
                          seen: set<nat>, spos: int) {
    && Walk(g, root, q, stack, seen) && Buffered(b, q, stack, spos)
    && Marked(marks, Reached(g, root), seen) && Counting(g, next, stack, seen)
    && |Reached(g, root)| < |b|
  }

  lemma Start(g: Graph, root: nat, b: seq<int>, marks: seq<bool>, next: seq<int>)
    requires Closed(g) && root < |g| && |marks| == |next| == |g| && 0 < |b| && |Reached(g, root)| < |b|
    requires b[|b| - 1] == root && next[root] == 0 && marks[root]
    requires forall v :: v in Reached(g, root) && v != root ==> !marks[v]
    ensures Between(g, root, b, marks, next, [], [root], {root}, |b| - 1)
  {
    WalkStart(g, root);
    assert CounterOk(g, next, {root}, root);
  }

  /** Taking the top of the stack in hand. */
  lemma Pop(g: Graph, root: nat, b: seq<int>, marks: seq<bool>, next: seq<int>, q: seq<nat>, stack: seq<nat>, seen: set<nat>, spos: int)
    requires Between(g, root, b, marks, next, q, stack, seen, spos) && 0 <= spos < |b|
    ensures stack != [] && b[spos] == stack[0]
    ensures At(g, root, b, marks, next, q, stack[0], stack[1..], seen, spos + 1)
  {
    assert [stack[0]] + stack[1..] == stack;
  }

  /** A marked dependency is passed over. */
  lemma Skip(g: Graph, root: nat, b: seq<int>, marks: seq<bool>, next: seq<int>, q: seq<nat>, p: nat, stack: seq<nat>, seen: set<nat>, spos: int)
    requires At(g, root, b, marks, next, q, p, stack, seen, spos)
    requires p < |g| && p < |next| && 0 <= next[p] < |g[p]| && g[p][next[p]] in seen
    ensures At(g, root, b, marks, next[p := next[p] + 1], q, p, stack, seen, spos)
  {
    var next' := next[p := next[p] + 1];
    forall v | v in [p] + stack
      ensures CounterOk(g, next', seen, v)
    {
      assert CounterOk(g, next, seen, v);
    }
  }

  /** The current object waits on the stack while the walk goes into its unmarked dependency `d`. */
  lemma Down(g: Graph, root: nat, b: seq<int>, marks: seq<bool>, next: seq<int>, q: seq<nat>, p: nat, stack: seq<nat>, seen: set<nat>,
             spos: int, d: nat)
    requires At(g, root, b, marks, next, q, p, stack, seen, spos) && |marks| == |next| == |g| && Edge(g, p, d) && d !in seen
    ensures 0 < spos <= |b| && d < |g| && |q| < spos && d in Reached(g, root)
    ensures At(g, root, b[spos - 1 := p], marks[d := true], next[d := 0], q, d, [p] + stack, seen + {d}, spos - 1)
  {
    assert ([p] + stack)[0] == p;
    WalkRoom(g, root, q, [p] + stack, seen);
    WalkDown(g, root, q, [p] + stack, seen, d);
    DownCounting(g, next, [p] + stack, seen, d);
    hide Walk, Counting;
  }

  lemma DownCounting(g: Graph, next: seq<int>, gray: seq<nat>, seen: set<nat>, d: nat)
    requires Counting(g, next, gray, seen) && d !in gray && d < |next| == |g|
    ensures Counting(g, next[d := 0], [d] + gray, seen + {d})
  {
    forall v | v in [d] + gray
      ensures CounterOk(g, next[d := 0], seen + {d}, v)
    {
      if v != d { assert CounterOk(g, next, seen, v); }
    }
  }

  /** An object with no dependency left goes to the queue. */
  lemma Out(g: Graph, root: nat, b: seq<int>, marks: seq<bool>, next: seq<int>, q: seq<nat>, p: nat, stack: seq<nat>, seen: set<nat>, spos: int)
    requires At(g, root, b, marks, next, q, p, stack, seen, spos) && p < |g| && p < |next| && next[p] >= |g[p]|
    ensures |q| < spos <= |b|
    ensures Between(g, root, b[|q| := p], marks, next, q + [p], stack, seen, spos)
  {
    var gray := [p] + stack;
    assert gray[0] == p && gray[1..] == stack && p in gray;
    assert CounterOk(g, next, seen, p);
    WalkRoom(g, root, q, gray, seen);
    WalkUp(g, root, q, gray, seen);
    hide Walk;
  }

  lemma HeadCounter(g: Graph, root: nat, b: seq<int>, marks: seq<bool>, next: seq<int>, q: seq<nat>, p: nat, stack: seq<nat>, seen: set<nat>, spos: int)
    requires At(g, root, b, marks, next, q, p, stack, seen, spos)
    ensures CounterOk(g, next, seen, p)
    ensures forall d: nat :: Edge(g, p, d) ==> d in Reached(g, root) && d < |marks| && (marks[d] <==> d in seen)
  {
    assert p in [p] + stack && p in seen;
    forall d: nat | Edge(g, p, d)
      ensures d in Reached(g, root)
    {
      Extend(g, root, p, d);
    }
  }

  /** The finished walk. */
  lemma Finish(g: Graph, root: nat, b: seq<int>, marks: seq<bool>, next: seq<int>, q: seq<nat>, stack: seq<nat>, seen: set<nat>, spos: int)
    requires Between(g, root, b, marks, next, q, stack, seen, spos) && spos >= |b|
    ensures Lists(g, root, q) && Ordered(g, q) && |q| < |b| && (forall i :: 0 <= i < |q| ==> b[i] == q[i])
  {
    assert stack == [];
    WalkRoom(g, root, q, stack, seen);
    WalkEnd(g, root, q, seen);
  }

  // ---------------------------------------------------------------------------------------
  // The bound on the buffer
  // ---------------------------------------------------------------------------------------

  lemma ReachedSplit(g: Graph, a: nat, v: nat)
    requires Closed(g) && Reaches(g, a, v)
    ensures v == a || ReachesBelow(g, a, v)
  {
    var s :| Connects(g, s, a, v);
    if |s| > 1 {
      var t := s[1..];
      assert Edge(g, s[0], s[1]);
      forall i | 0 <= i < |t| - 1
        ensures Edge(g, t[i], t[i + 1])
      {
        assert Edge(g, s[i + 1], s[i + 2]);
      }
      assert Connects(g, t, s[1], v);
    }
  }

  /** The list of an object starts with its direct dependencies, and once built holds all it reaches below. */
  ghost predicate DepsOk(g: Graph, p: nat, list: seq<nat>, built: bool)
    requires p < |g|
  {
    && (!built ==> list == g[p])
    && (built ==> g[p] <= list && Distinct(list) && forall v: nat :: v in list <==> v < |g| && ReachesBelow(g, p, v))
  }

  /** A built list and the object itself hold everything it reaches. */
  lemma BuiltBound(g: Graph, p: nat, list: seq<nat>)
    requires Closed(g) && p < |g| && DepsOk(g, p, list, true)
    ensures |Reached(g, p)| <= |list| + 1
    ensures forall v :: v in Reached(g, p) && v != p ==> v in list
  {
    forall v | v in Reached(g, p) && v != p
      ensures v in list
    {
      ReachedSplit(g, p, v);
    }
    DistinctCard(list);
    SubsetCard(Reached(g, p), Elements(list) + {p});
  }

  lemma AllBound(g: Graph, p: nat)
    ensures |Reached(g, p)| <= |g|
  {
    SubsetCard(Reached(g, p), Upto(|g|));
  }
}
