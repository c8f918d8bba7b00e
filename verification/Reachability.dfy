/** Paths in the dependency graph of loaded objects. */
module Reachability {

  /** The direct dependencies of every object. */
  type Graph = seq<seq<nat>>

  ghost predicate Closed(g: Graph) {
    forall a, j :: 0 <= a < |g| && 0 <= j < |g[a]| ==> g[a][j] < |g|
  }

  ghost predicate Edge(g: Graph, a: nat, b: nat) {
    a < |g| && b in g[a]
  }

  ghost predicate Path(g: Graph, s: seq<nat>) {
    |s| > 0 && s[0] < |g| && forall i :: 0 <= i < |s| - 1 ==> Edge(g, s[i], s[i + 1])
  }

  ghost predicate Connects(g: Graph, s: seq<nat>, a: nat, b: nat) {
    Path(g, s) && s[0] == a && s[|s| - 1] == b
  }

  /** `a` reaches `b` by zero or more edges. */
  ghost predicate Reaches(g: Graph, a: nat, b: nat) {
    exists s :: Connects(g, s, a, b)
  }

  /** `a` reaches `b` by one or more edges. */
  ghost predicate ReachesBelow(g: Graph, a: nat, b: nat) {
    exists c :: Edge(g, a, c) && Reaches(g, c, b)
  }

  lemma Self(g: Graph, a: nat)
    requires a < |g|
    ensures Reaches(g, a, a)
  {
    assert Connects(g, [a], a, a);
  }

  lemma Extend(g: Graph, a: nat, b: nat, c: nat)
    requires Reaches(g, a, b) && Edge(g, b, c)
    ensures Reaches(g, a, c)
  {
    var s :| Connects(g, s, a, b);
    assert Connects(g, s + [c], a, c);
  }

  /** A set that holds `a` and the dependencies of its members holds everything `a` reaches. */
  lemma {:induction false} Contains(g: Graph, m: set<nat>, s: seq<nat>)
    requires Path(g, s) && s[0] in m && forall v, w :: v in m && Edge(g, v, w) ==> w in m
    ensures s[|s| - 1] in m
    decreases |s|
  {
    if |s| > 1 {
      var t := s[..|s| - 1];
      Contains(g, m, t);
      assert Edge(g, s[|s| - 2], s[|s| - 1]);
    }
  }

  lemma ContainsReached(g: Graph, m: set<nat>, a: nat, b: nat)
    requires a in m && Reaches(g, a, b) && forall v, w :: v in m && Edge(g, v, w) ==> w in m
    ensures b in m
  {
    var s :| Connects(g, s, a, b);
    Contains(g, m, s);
  }

  /** Everything an object reaches, itself included. */
  ghost function Reached(g: Graph, a: nat): (r: set<nat>)
    ensures forall v: nat :: v in r <==> v < |g| && Reaches(g, a, v)
  {
    set v: nat | v < |g| && Reaches(g, a, v)
  }
}
