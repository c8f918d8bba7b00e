/**
 The breadth-first dependency list of the dynamic linker (extend_bfs_deps in
 libc/musl/ldso/dynlink.c), which grows while it is scanned.
 */
module DependencyList {
  import opened ConstructorQueue
  import opened Reachability
  import opened Sets

  /** The scan at position `i`: what is listed is reached, and the objects before `i` are expanded. */
  ghost predicate Scan(g: Graph, p: nat, list: seq<nat>, i: nat) {
    && Closed(g) && p < |g| && i <= |list|
    && g[p] <= list && Distinct(list)
    && (forall v :: v in list ==> v < |g| && ReachesBelow(g, p, v))
    && (forall k, d :: 0 <= k < i && Edge(g, list[k], d) ==> d in list)
  }

  lemma ScanStart(g: Graph, p: nat)
    requires Closed(g) && p < |g| && Distinct(g[p])
    ensures Scan(g, p, g[p], 0)
  {
    forall v | v in g[p]
      ensures v < |g| && ReachesBelow(g, p, v)
    {
      assert Edge(g, p, v);
      Self(g, v);
    }
  }

  /** Appending a dependency of the scanned object that is not listed yet. */
  lemma ScanAppend(g: Graph, p: nat, list: seq<nat>, i: nat, d: nat)
    requires Scan(g, p, list, i) && i < |list| && Edge(g, list[i], d) && d !in list
    ensures Scan(g, p, list + [d], i) && d < |g|
  {
    assert list[i] in list;
    var c :| Edge(g, p, c) && Reaches(g, c, list[i]);
    Extend(g, c, list[i], d);
    var list' := list + [d];
    forall k, e | 0 <= k < i && Edge(g, list'[k], e)
      ensures e in list'
    {
      assert list'[k] == list[k];
    }
  }

  lemma ScanNext(g: Graph, p: nat, list: seq<nat>, i: nat)
    requires Scan(g, p, list, i) && i < |list| && forall d :: Edge(g, list[i], d) ==> d in list
    ensures Scan(g, p, list, i + 1)
  {
  }

  /** The list stays shorter than the number of objects. */
  lemma ScanBound(g: Graph, p: nat, list: seq<nat>, i: nat)
    requires Scan(g, p, list, i)
    ensures |list| <= |g|
  {
    assert forall k :: 0 <= k < |list| ==> list[k] in list;
    DistinctBound(list, Upto(|g|));
  }

  /** Once every listed object is expanded the list is the closure. */
  lemma ScanEnd(g: Graph, p: nat, list: seq<nat>)
    requires Scan(g, p, list, |list|)
    ensures DepsOk(g, p, list, true)
  {
    forall v: nat | v < |g| && ReachesBelow(g, p, v)
      ensures v in list
    {
      var c :| Edge(g, p, c) && Reaches(g, c, v);
      assert c in list;
      forall x, y | x in Elements(list) && Edge(g, x, y)
        ensures y in Elements(list)
      {
        var k :| 0 <= k < |list| && list[k] == x;
      }
      ContainsReached(g, Elements(list), c, v);
    }
  }

  /** Exactly the listed objects are marked. */
  ghost predicate MarksList(marks: seq<bool>, list: seq<nat>) {
    forall v: nat :: v < |marks| ==> (marks[v] <==> v in list)
  }

  /** The unmarked entries of `s` from `j` on, counted as often as they occur. */
  ghost function Unlisted(s: seq<nat>, list: seq<nat>, j: nat): nat
    requires j <= |s|
    decreases |s| - j
  {
    if j == |s| then 0 else (if s[j] in list then 0 else 1) + Unlisted(s, list, j + 1)
  }

  lemma {:induction false} UnlistedShrinks(s: seq<nat>, list: seq<nat>, d: nat, j: nat)
    requires j <= |s|
    ensures Unlisted(s, list + [d], j) <= Unlisted(s, list, j)
    decreases |s| - j
  {
    if j < |s| {
      UnlistedShrinks(s, list, d, j + 1);
    }
  }

  lemma MarksAppend(marks: seq<bool>, list: seq<nat>, d: nat)
    requires MarksList(marks, list) && d < |marks|
    ensures MarksList(marks[d := true], list + [d])
  {
  }

  /** A list being expanded at position `i`, whose object is `dep`, up to dependency `j`. */
  ghost predicate Expanding(g: Graph, p: nat, list: seq<nat>, i: nat, dep: nat, j: nat, room: nat) {
    && Scan(g, p, list, i) && i < |list| && list[i] == dep && dep < |g| && j <= |g[dep]|
    && (forall k :: 0 <= k < j ==> g[dep][k] in list)
    && |list| + Unlisted(g[dep], list, j) <= room
  }

  /** A listed dependency is passed over, another one appended: there is room for it. */
  lemma ExpandTurn(g: Graph, p: nat, list: seq<nat>, i: nat, dep: nat, j: nat, room: nat)
    requires Expanding(g, p, list, i, dep, j, room) && j < |g[dep]|
    ensures var d := g[dep][j];
            && d < |g|
            && (d in list ==> Expanding(g, p, list, i, dep, j + 1, room))
            && (d !in list ==> |list| < room && Expanding(g, p, list + [d], i, dep, j + 1, room))
  {
    var d := g[dep][j];
    if d !in list {
      assert Edge(g, list[i], d);
      ScanAppend(g, p, list, i, d);
      UnlistedShrinks(g[dep], list, d, j + 1);
    }
  }

  lemma ExpandEnd(g: Graph, p: nat, list: seq<nat>, i: nat, dep: nat, room: nat)
    requires dep < |g| && Expanding(g, p, list, i, dep, |g[dep]|, room)
    ensures Scan(g, p, list, i + 1)
  {
    forall d | Edge(g, list[i], d)
      ensures d in list
    {
    }
    ScanNext(g, p, list, i);
  }
}
