/** Path lookup with symbolic links (find_fs_node in kernel/kernel.cc). */
module PathResolution {
  import opened Wrappers

  datatype FsNode = Directory(entries: map<string, nat>) | Regular | Symlink(target: string)

  /** Any graph of inodes; an entry without an inode is as good as none. */
  datatype Fs = Fs(nodes: map<nat, FsNode>, root: nat)

  predicate IsDir(fs: Fs, n: nat) {
    n in fs.nodes && fs.nodes[n].Directory?
  }

  predicate IsSymlink(fs: Fs, n: nat) {
    n in fs.nodes && fs.nodes[n].Symlink?
  }

  function Lookup(fs: Fs, dir: nat, name: string): Option<nat> {
    if IsDir(fs, dir) && name in fs.nodes[dir].entries && fs.nodes[dir].entries[name] in fs.nodes
    then Some(fs.nodes[dir].entries[name]) else None
  }

  // ---------------------------------------------------------------------------------------
  // Paths as components
  // ---------------------------------------------------------------------------------------

  function FirstSlash(p: string): (k: nat)
    ensures k <= |p| && (k < |p| ==> p[k] == '/') && forall i :: 0 <= i < k ==> p[i] != '/'
  {
    if p == "" || p[0] == '/' then 0 else 1 + FirstSlash(p[1..])
  }

  /** The components between slashes, empty ones included. */
  function Split(p: string): (r: seq<string>)
    ensures |r| > 0
    decreases |p|
  {
    var k := FirstSlash(p);
    if k == |p| then [p] else [p[..k]] + Split(p[k + 1..])
  }

  predicate Skipped(name: string) {
    name == "" || name == "."
  }

  /** Following the components from directory `cur`, each symbolic link at one level less. */
  function Walk(fs: Fs, cur: nat, names: seq<string>, depth: nat): Option<nat>
    requires depth > 0
    decreases depth, 0, |names|
  {
    if names == [] then Some(cur)
    else if !IsDir(fs, cur) then None
    else if Skipped(names[0]) then Walk(fs, cur, names[1..], depth)
    else
      var next :- Enter(fs, cur, names[0], depth);
      Walk(fs, next, names[1..], depth)
  }

  /** The node a component names, through a symbolic link if it is one. */
  function Enter(fs: Fs, cur: nat, name: string, depth: nat): Option<nat>
    requires depth > 0
    decreases depth, 0, 0
  {
    var next :- Lookup(fs, cur, name);
    if IsSymlink(fs, next) then Find(fs, fs.nodes[next].target, Some(cur), depth - 1) else Some(next)
  }

  function Find(fs: Fs, path: string, relative: Option<nat>, depth: nat): Option<nat>
    decreases depth, 1
  {
    if depth == 0 || path == "" then None
    else if path[0] == '/' then Walk(fs, fs.root, Split(path[1..]), depth)
    else
      var start :- relative;
      Walk(fs, start, Split(path), depth)
  }

  // ---------------------------------------------------------------------------------------
  // What a lookup returns
  // ---------------------------------------------------------------------------------------

  lemma {:induction false} WalkNoSymlink(fs: Fs, cur: nat, names: seq<string>, depth: nat)
    requires depth > 0 && names != [] && Walk(fs, cur, names, depth).Some?
    ensures var n := Walk(fs, cur, names, depth).value; n in fs.nodes && !IsSymlink(fs, n)
    decreases depth, 0, |names|
  {
    if Skipped(names[0]) {
      if |names| > 1 { WalkNoSymlink(fs, cur, names[1..], depth); }
    } else {
      EnterNoSymlink(fs, cur, names[0], depth);
      if |names| > 1 { WalkNoSymlink(fs, Enter(fs, cur, names[0], depth).value, names[1..], depth); }
    }
  }

  lemma {:induction false} EnterNoSymlink(fs: Fs, cur: nat, name: string, depth: nat)
    requires depth > 0 && Enter(fs, cur, name, depth).Some?
    ensures var n := Enter(fs, cur, name, depth).value; n in fs.nodes && !IsSymlink(fs, n)
    decreases depth, 0, 0
  {
    var next := Lookup(fs, cur, name).value;
    if IsSymlink(fs, next) {
      FindNoSymlink(fs, fs.nodes[next].target, Some(cur), depth - 1);
    }
  }

  /** A lookup that succeeds returns a node of the file system that is not a symbolic link. */
  lemma {:induction false} FindNoSymlink(fs: Fs, path: string, relative: Option<nat>, depth: nat)
    requires Find(fs, path, relative, depth).Some?
    ensures var n := Find(fs, path, relative, depth).value; n in fs.nodes && !IsSymlink(fs, n)
    decreases depth, 1
  {
    if path[0] == '/' {
      WalkNoSymlink(fs, fs.root, Split(path[1..]), depth);
    } else {
      WalkNoSymlink(fs, relative.value, Split(path), depth);
    }
  }

  // ---------------------------------------------------------------------------------------
  // More depth never changes an answer
  // ---------------------------------------------------------------------------------------

  lemma {:induction false} WalkDeeper(fs: Fs, cur: nat, names: seq<string>, depth: nat)
    requires depth > 0 && Walk(fs, cur, names, depth).Some?
    ensures Walk(fs, cur, names, depth + 1) == Walk(fs, cur, names, depth)
    decreases depth, 0, |names|
  {
    if names != [] {
      if Skipped(names[0]) {
        WalkDeeper(fs, cur, names[1..], depth);
      } else {
        EnterDeeper(fs, cur, names[0], depth);
        WalkDeeper(fs, Enter(fs, cur, names[0], depth).value, names[1..], depth);
      }
    }
  }

  lemma {:induction false} EnterDeeper(fs: Fs, cur: nat, name: string, depth: nat)
    requires depth > 0 && Enter(fs, cur, name, depth).Some?
    ensures Enter(fs, cur, name, depth + 1) == Enter(fs, cur, name, depth)
    decreases depth, 0, 0
  {
    var next := Lookup(fs, cur, name).value;
    if IsSymlink(fs, next) {
      FindOneDeeper(fs, fs.nodes[next].target, Some(cur), depth - 1);
    }
  }

  lemma {:induction false} FindOneDeeper(fs: Fs, path: string, relative: Option<nat>, depth: nat)
    requires Find(fs, path, relative, depth).Some?
    ensures Find(fs, path, relative, depth + 1) == Find(fs, path, relative, depth)
    decreases depth, 1
  {
    if path[0] == '/' {
      WalkDeeper(fs, fs.root, Split(path[1..]), depth);
    } else {
      WalkDeeper(fs, relative.value, Split(path), depth);
    }
  }

  /** The depth limit only turns answers into failures: allowing more never changes an answer. */
  lemma {:induction false} FindDeeper(fs: Fs, path: string, relative: Option<nat>, depth: nat, more: nat)
    requires depth <= more && Find(fs, path, relative, depth).Some?
    ensures Find(fs, path, relative, more) == Find(fs, path, relative, depth)
    decreases more
  {
    if depth < more {
      FindDeeper(fs, path, relative, depth, more - 1);
      FindOneDeeper(fs, path, relative, more - 1);
    }
  }

  lemma SlashIs(p: string, k: nat)
    requires k <= |p| && (k < |p| ==> p[k] == '/') && '/' !in p[..k]
    ensures FirstSlash(p) == k
  {
    hide FirstSlash;
    forall i | 0 <= i < k
      ensures p[i] != '/'
    {
      assert p[..k][i] in p[..k];
    }
  }

  /** A link to itself is never followed to an end, whatever the depth. */
  lemma {:induction false} SelfLinkFails(fs: Fs, dir: nat, name: string, link: nat, depth: nat)
    requires Lookup(fs, dir, name) == Some(link) && IsSymlink(fs, link) && fs.nodes[link].target == name
    requires '/' !in name && !Skipped(name)
    ensures Find(fs, name, Some(dir), depth) == None
    decreases depth
  {
    if depth > 0 {
      assert name[0] in name;
      SlashIs(name, |name|);
      assert Split(name) == [name] && [name][0] == name;
      SelfLinkFails(fs, dir, name, link, depth - 1);
      assert Enter(fs, dir, name, depth) == None;
      assert Walk(fs, dir, [name], depth) == None;
    }
  }

  // ---------------------------------------------------------------------------------------
  // Resolution as a relation
  // ---------------------------------------------------------------------------------------

  /** The text of a path with these components. */
  ghost function Joined(names: seq<string>): string {
    if |names| == 0 then "" else if |names| == 1 then names[0] else names[0] + "/" + Joined(names[1..])
  }

  ghost predicate Slashless(names: seq<string>) {
    forall k :: 0 <= k < |names| ==> '/' !in names[k]
  }

  /** Component `name` leads from directory `cur` to `next`, through at most `nesting` links inside each other. */
  ghost predicate Leads(fs: Fs, cur: nat, name: string, next: nat, nesting: nat)
    decreases nesting, 0
  {
    && cur in fs.nodes && fs.nodes[cur].Directory?
    && if name == "" || name == "." then next == cur
       else
         && name in fs.nodes[cur].entries
         && var entry := fs.nodes[cur].entries[name];
            && entry in fs.nodes
            && match fs.nodes[entry]
               case Symlink(target) => nesting > 0 && Resolves(fs, target, Some(cur), next, nesting - 1)
               case _ => next == entry
  }

  /** Each component leads from one node to the next. */
  ghost predicate Route(fs: Fs, names: seq<string>, nodes: seq<nat>, nesting: nat)
    decreases nesting, 1
  {
    |nodes| == |names| + 1 && forall k :: 0 <= k < |names| ==> Leads(fs, nodes[k], names[k], nodes[k + 1], nesting)
  }

  /** A route for the text from node `start` to node `n`. */
  ghost predicate Routed(fs: Fs, start: nat, text: string, n: nat, names: seq<string>, nodes: seq<nat>, nesting: nat)
    decreases nesting, 2
  {
    && names != [] && Slashless(names) && Joined(names) == text
    && Route(fs, names, nodes, nesting) && nodes[0] == start && nodes[|names|] == n
  }

  ghost predicate RoutedTo(fs: Fs, start: nat, text: string, n: nat, nesting: nat)
    decreases nesting, 3
  {
    exists names, nodes :: Routed(fs, start, text, n, names, nodes, nesting)
  }

  /** A path stands for node `n`: from the root with a leading slash, from `relative` without. */
  ghost predicate Resolves(fs: Fs, path: string, relative: Option<nat>, n: nat, nesting: nat)
    decreases nesting, 4
  {
    && path != ""
    && if path[0] == '/' then RoutedTo(fs, fs.root, path[1..], n, nesting)
       else relative.Some? && RoutedTo(fs, relative.value, path, n, nesting)
  }

  lemma {:induction false} SplitJoined(p: string)
    ensures Slashless(Split(p)) && Joined(Split(p)) == p
    decreases |p|
  {
    hide FirstSlash;
    var k := FirstSlash(p);
    if k < |p| {
      SplitJoined(p[k + 1..]);
      var names := Split(p);
      assert names[1..] == Split(p[k + 1..]);
      assert p == p[..k] + "/" + p[k + 1..];
    }
  }

  lemma {:induction false} JoinedSplit(names: seq<string>)
    requires names != [] && Slashless(names)
    ensures Split(Joined(names)) == names
  {
    hide Split;
    assert '/' !in names[0];
    if |names| == 1 {
      SplitLast(names[0]);
      assert names == [names[0]];
    } else {
      JoinedSplit(names[1..]);
      SplitHead(names[0], Joined(names[1..]));
      assert names == [names[0]] + names[1..];
    }
  }

  lemma SplitLast(name: string)
    requires '/' !in name
    ensures Split(name) == [name]
  {
    hide Split;
    assert name[..|name|] == name;
    SplitAt(name, |name|);
  }

  lemma SplitHead(name: string, rest: string)
    requires '/' !in name
    ensures Split(name + "/" + rest) == [name] + Split(rest)
  {
    hide Split;
    var p := name + "/" + rest;
    assert p[..|name|] == name && p[|name|] == '/' && p[|name| + 1..] == rest;
    SplitAt(p, |name|);
  }

  lemma {:induction false} WalkRoute(fs: Fs, cur: nat, names: seq<string>, depth: nat) returns (nodes: seq<nat>)
    requires depth > 0 && Walk(fs, cur, names, depth).Some?
    ensures Route(fs, names, nodes, depth - 1) && nodes[0] == cur && Some(nodes[|names|]) == Walk(fs, cur, names, depth)
    decreases depth, 0, |names|
  {
    if names == [] {
      nodes := [cur];
    } else {
      var next := if Skipped(names[0]) then cur else Enter(fs, cur, names[0], depth).value;
      EnterLeads(fs, cur, names[0], next, depth);
      hide Leads;
      var rest := WalkRoute(fs, next, names[1..], depth);
      nodes := [cur] + rest;
      forall k | 0 <= k < |names|
        ensures Leads(fs, nodes[k], names[k], nodes[k + 1], depth - 1)
      {
        if k > 0 { assert Leads(fs, rest[k - 1], names[1..][k - 1], rest[k], depth - 1); }
      }
    }
  }

  lemma {:induction false} RouteWalk(fs: Fs, names: seq<string>, nodes: seq<nat>, depth: nat)
    requires depth > 0 && Route(fs, names, nodes, depth - 1)
    ensures Walk(fs, nodes[0], names, depth) == Some(nodes[|names|])
    decreases depth, 0, |names|
  {
    if names != [] {
      EnterLeads(fs, nodes[0], names[0], nodes[1], depth);
      hide Leads;
      forall k | 0 <= k < |names[1..]|
        ensures Leads(fs, nodes[1..][k], names[1..][k], nodes[1..][k + 1], depth - 1)
      {
        assert Leads(fs, nodes[k + 1], names[k + 1], nodes[k + 2], depth - 1);
      }
      RouteWalk(fs, names[1..], nodes[1..], depth);
    }
  }

  lemma {:induction false} EnterLeads(fs: Fs, cur: nat, name: string, next: nat, depth: nat)
    requires depth > 0
    ensures Leads(fs, cur, name, next, depth - 1) <==>
              IsDir(fs, cur) && if Skipped(name) then next == cur else Enter(fs, cur, name, depth) == Some(next)
    decreases depth, 0, 0
  {
    if IsDir(fs, cur) && !Skipped(name) {
      var entry := Lookup(fs, cur, name);
      if entry.Some? && IsSymlink(fs, entry.value) {
        FindResolves(fs, fs.nodes[entry.value].target, Some(cur), next, depth - 1);
      }
    }
  }

  lemma {:induction false} WalkRouted(fs: Fs, start: nat, text: string, n: nat, nesting: nat)
    ensures Walk(fs, start, Split(text), nesting + 1) == Some(n) <==> RoutedTo(fs, start, text, n, nesting)
    decreases nesting + 1, 1
  {
    hide Route, Walk;
    if names, nodes :| Routed(fs, start, text, n, names, nodes, nesting) {
      JoinedSplit(names);
      RouteWalk(fs, names, nodes, nesting + 1);
    }
    if Walk(fs, start, Split(text), nesting + 1) == Some(n) {
      SplitJoined(text);
      var nodes := WalkRoute(fs, start, Split(text), nesting + 1);
      assert Routed(fs, start, text, n, Split(text), nodes, nesting);
    }
  }

  /** A lookup finds exactly the node the path stands for through fewer than `depth` nested links. */
  lemma {:induction false} FindResolves(fs: Fs, path: string, relative: Option<nat>, n: nat, depth: nat)
    ensures Find(fs, path, relative, depth) == Some(n) <==> depth > 0 && Resolves(fs, path, relative, n, depth - 1)
    decreases depth, 2
  {
    if depth > 0 && path != "" {
      hide RoutedTo, Walk;
      if path[0] == '/' {
        WalkRouted(fs, fs.root, path[1..], n, depth - 1);
      } else if relative.Some? {
        WalkRouted(fs, relative.value, path, n, depth - 1);
      }
    }
  }

  // ---------------------------------------------------------------------------------------
  // The loop over characters
  // ---------------------------------------------------------------------------------------

  lemma SplitAt(p: string, k: nat)
    requires k <= |p| && (k < |p| ==> p[k] == '/') && '/' !in p[..k]
    ensures Split(p) == if k == |p| then [p] else [p[..k]] + Split(p[k + 1..])
  {
    hide FirstSlash;
    SlashIs(p, k);
  }

  /** The walk from `cur` over the rest of the path; nothing is left behind the end. */
  ghost function Rest(fs: Fs, cur: nat, path: string, start: nat, depth: nat): Option<nat>
    requires depth > 0 && start <= |path| + 1
  {
    if start == |path| + 1 then Some(cur) else Walk(fs, cur, Split(path[start..]), depth)
  }

  /** One component, from `start` to the slash or the end at `c`. */
  lemma RestStep(fs: Fs, cur: nat, path: string, start: nat, c: nat, depth: nat)
    requires depth > 0 && start <= c <= |path| && (c < |path| ==> path[c] == '/') && '/' !in path[start..c]
    ensures var name := path[start..c];
            Rest(fs, cur, path, start, depth) ==
            if !IsDir(fs, cur) then None
            else if Skipped(name) then Rest(fs, cur, path, c + 1, depth)
            else
              var next := Enter(fs, cur, name, depth);
              if next.None? then None else Rest(fs, next.value, path, c + 1, depth)
  {
    var p := path[start..];
    var k := c - start;
    assert p[..k] == path[start..c];
    SplitAt(p, k);
    var names := Split(p);
    assert names[0] == path[start..c];
    if k == |p| {
      assert names[1..] == [];
      assert forall x: nat :: Walk(fs, x, [], depth) == Some(x);
    } else {
      assert p[k + 1..] == path[c + 1..];
      assert names[1..] == Split(path[c + 1..]);
    }
  }

  /** find_fs_node: component by component, recursively through symbolic links. */
  method FindFsNode(fs: Fs, path: string, relative: Option<nat>, depth: nat) returns (r: Option<nat>)
    ensures r == Find(fs, path, relative, depth)
    ensures forall n: nat :: r == Some(n) <==> depth > 0 && Resolves(fs, path, relative, n, depth - 1)
    decreases depth, 1
  {
    forall n: nat
      ensures Find(fs, path, relative, depth) == Some(n) <==> depth > 0 && Resolves(fs, path, relative, n, depth - 1)
    {
      FindResolves(fs, path, relative, n, depth);
    }
    hide Resolves;
    if depth == 0 || path == "" { return None; }
    var text := path;
    var current;
    if path[0] == '/' {
      current := fs.root;
      text := path[1..];
    } else if relative.None? {
      return None;
    } else {
      current := relative.value;
    }
    var currentStart := 0;
    ghost var answer := Find(fs, path, relative, depth);
    assert text[0..] == text;
    for c := 0 to |text| + 1
      invariant currentStart <= c && currentStart <= |text| + 1 && (c == |text| + 1 ==> currentStart == c)
      invariant c <= |text| ==> '/' !in text[currentStart..c]
      invariant Rest(fs, current, text, currentStart, depth) == answer
    {
      if c == |text| || text[c] == '/' {
        RestStep(fs, current, text, currentStart, c, depth);
        if !IsDir(fs, current) { return None; }
        var name := text[currentStart..c];
        currentStart := c + 1;
        if !Skipped(name) {
          var next := Resolve(fs, current, name, depth);
          if next.None? { return None; }
          current := next.value;
        }
      } else {
        assert text[currentStart..c + 1] == text[currentStart..c] + [text[c]];
      }
    }
    return Some(current);
  }

  /** The inner loop: as long as the node found is a symbolic link it is resolved in its directory. */
  method Resolve(fs: Fs, dir: nat, name: string, depth: nat) returns (r: Option<nat>)
    requires depth > 0
    ensures r == Enter(fs, dir, name, depth)
    decreases depth, 0
  {
    r := Lookup(fs, dir, name);
    ghost var links := 0;
    while r.Some? && IsSymlink(fs, r.value)
      invariant links == 0 ==> r == Lookup(fs, dir, name)
      invariant links > 0 ==> r == Enter(fs, dir, name, depth) && (r.Some? ==> !IsSymlink(fs, r.value))
      decreases 1 - links
    {
      r := FindFsNode(fs, fs.nodes[r.value].target, Some(dir), depth - 1);
      if r.Some? {
        EnterNoSymlink(fs, dir, name, depth);
      }
      links := links + 1;
    }
  }
}
