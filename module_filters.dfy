/**
 * The module filters of internal/depgraph/filters: `ArbitraryModules`,
 * `NonSharedModules` and `TargetModules`, each changing a `DepGraph` in
 * place.
 *
 * The filters follow predecessor and successor sets, whose entries are the
 * node values recorded when an edge was added. `EdgesSound` is the
 * invariant of the graphs the tool builds that makes those values
 * trustworthy: the edge sets are valid and mirrored, every predecessor entry
 * is the projection of a module or package the graph knows, and a module's
 * predecessors are modules.
 */
module ModuleFilters {
  import opened Util
  import opened GraphNode
  import opened Graph
  import opened GraphEdges
  import opened GraphLaws
  import opened GraphPared
  import opened GraphObject
  import opened DepGraphNodes
  import opened DepGraphObject

  // ---------------------------------------------------------------------------
  // The edge invariant of the dependency graph.

  /** Every module and package is held under its own hash. */
  ghost predicate NodesKeyed(nodes: map<string, DepNode>)
  {
    forall h | h in nodes :: Hash(nodes[h]) == h
  }

  /**
   * Every predecessor entry is the projection of a known node, recorded
   * under a known node, and the predecessors of a module are modules.
   */
  ghost predicate PredsTyped(preds: map<string, Refs>, nodes: map<string, DepNode>)
  {
    forall a, b | a in preds && b in preds[a].nodeMap ::
      && a in nodes && b in nodes
      && preds[a].nodeMap[b] == GraphNodeOf(nodes[b])
      && (nodes[a].ModuleNode? ==> nodes[b].ModuleNode?)
  }

  ghost predicate EdgesSound(g: Digraph, nodes: map<string, DepNode>)
  {
    EdgesValid(g) && NodesKeyed(nodes) && PredsTyped(g.preds, nodes)
  }

  /** A new dependency graph satisfies the edge invariant. */
  lemma EmptySound()
    ensures EdgesSound(EmptyGraph, map[])
  {
    forall a, b
      ensures Weight(SuccsOf(EmptyGraph, a), b) == Weight(PredsOf(EmptyGraph, b), a)
    {
      assert SuccsOf(EmptyGraph, a) == EmptyRefs == PredsOf(EmptyGraph, b);
    }
  }

  /**
   * `AddModule` keeps the edge invariant: the edges do not change, and a
   * module recorded anew under a hash that was known before has the same
   * path as the one it replaces, so the same projection.
   */
  lemma AddModuleSound(g: Digraph, nodes: map<string, DepNode>, m: Module)
    requires Wellformed(g) && NodesMatch(g.members.nodeMap, nodes) && EdgesSound(g, nodes)
    requires ModuleHash(m.info.path) !in g.members.nodeMap
    ensures EdgesSound(Graph.AddNode(g, ModuleGraphNode(m)).g, nodes[ModuleHash(m.info.path) := ModuleNode(m)])
  {
    var h := ModuleHash(m.info.path);
    var nodes1 := nodes[h := ModuleNode(m)];
    AddModuleValid(g, nodes, m);
    var g1 := Graph.AddNode(g, ModuleGraphNode(m)).g;
    SameEdges(g, g1);
    if h in nodes {
      match nodes[h]
      case ModuleNode(prev) =>
        HashesDistinct(prev.info.path, m.info.path);
      case PackageNode(p) =>
        HashesDistinct(m.info.path, p.info.importPath);
    }
    RekeyedTyped(g.preds, nodes, h, ModuleNode(m));
  }

  /** Recording a node anew under a known hash, with the same projection and kind, keeps the predecessors typed. */
  lemma RekeyedTyped(preds: map<string, Refs>, nodes: map<string, DepNode>, h: string, n: DepNode)
    requires PredsTyped(preds, nodes) && Hash(n) == h
    requires h in nodes ==> GraphNodeOf(nodes[h]) == GraphNodeOf(n) && (nodes[h].ModuleNode? <==> n.ModuleNode?)
    ensures PredsTyped(preds, nodes[h := n])
  {
    var nodes1 := nodes[h := n];
    forall a, b | a in preds && b in preds[a].nodeMap
      ensures a in nodes1 && b in nodes1 && preds[a].nodeMap[b] == GraphNodeOf(nodes1[b])
      ensures nodes1[a].ModuleNode? ==> nodes1[b].ModuleNode?
    {
    }
  }

  /** A graph with fewer predecessor entries, and valid edges, keeps the edge invariant. */
  lemma ParedSound(g1: Digraph, g0: Digraph, nodes: map<string, DepNode>)
    requires EdgesSound(g0, nodes) && EdgesValid(g1) && Pared(g1, g0)
    ensures EdgesSound(g1, nodes)
  {
    ParedTyped(g1, g0, nodes);
  }

  lemma ParedTyped(g1: Digraph, g0: Digraph, nodes: map<string, DepNode>)
    requires PredsTyped(g0.preds, nodes) && Pared(g1, g0)
    ensures PredsTyped(g1.preds, nodes)
  {
    forall a, b | a in g1.preds && b in g1.preds[a].nodeMap
      ensures a in nodes && b in nodes && g1.preds[a].nodeMap[b] == GraphNodeOf(nodes[b])
      ensures nodes[a].ModuleNode? ==> nodes[b].ModuleNode?
    {
      assert SubRefs(PredsOf(g1, a), PredsOf(g0, a));
      assert a in g0.preds;
      TypedAt(g0, nodes, a, b);
    }
  }

  /** A member of the module level is the projection of a module, under that module's hash. */
  lemma LevelZeroIsModule(m: map<string, Node>, nodes: map<string, DepNode>, h: string)
    requires NodesMatch(m, nodes) && h in m && Depth(m[h]) == 0
    ensures nodes[h].ModuleNode? && m[h] == ModuleGraphNode(nodes[h].mod)
    ensures h == ModuleHash(m[h].name) && m[h].parent.None?
  {
  }

  /**
   * Deleting the node of module `x` keeps the edge invariant, and spares
   * every member of the module level with another name.
   */
  lemma DeleteModuleStep(g: Digraph, nodes: map<string, DepNode>, x: string)
    requires Wellformed(g) && NodesMatch(g.members.nodeMap, nodes) && EdgesSound(g, nodes)
    ensures var r := DeleteNode(g, ModuleHash(x));
      var m := g.members.nodeMap;
      && (r.Refused? ==> ModuleHash(x) !in m)
      && (r.Updated? ==>
            && NodesMatch(r.g.members.nodeMap, nodes) && EdgesSound(r.g, nodes)
            && ModuleHash(x) !in r.g.members.nodeMap && |r.g.members.nodeMap| < |m|
            && forall h | h in m && Depth(m[h]) == 0 && m[h].name != x :: h in r.g.members.nodeMap)
  {
    var m := g.members.nodeMap;
    var hx := ModuleHash(x);
    var r := DeleteNode(g, hx);
    if r.Updated? {
      NodesMatchRestricts(r.g.members.nodeMap, m, nodes);
      DeleteSound(g, nodes, hx);
      SmallerAfterRemoval(r.g.members.nodeMap, m, hx);
      DeleteModuleSpares(g, nodes, x);
    }
  }

  /** Deleting a node keeps the edge invariant. */
  lemma DeleteSound(g: Digraph, nodes: map<string, DepNode>, hash: string)
    requires Wellformed(g) && EdgesSound(g, nodes)
    ensures DeleteNode(g, hash).Updated? ==> EdgesSound(DeleteNode(g, hash).g, nodes)
  {
    if DeleteNode(g, hash).Updated? {
      DeleteNodeEdges(g, hash);
      DeleteNodePared(g, hash);
      ParedSound(DeleteNode(g, hash).g, g, nodes);
    }
  }

  /** Deleting the node of module `x` spares every other member of the module level. */
  lemma DeleteModuleSpares(g: Digraph, nodes: map<string, DepNode>, x: string)
    requires Wellformed(g) && NodesMatch(g.members.nodeMap, nodes)
    ensures var r := DeleteNode(g, ModuleHash(x));
      var m := g.members.nodeMap;
      r.Updated? ==> forall h | h in m && Depth(m[h]) == 0 && m[h].name != x :: h in r.g.members.nodeMap
  {
    var m := g.members.nodeMap;
    var hx := ModuleHash(x);
    if hx in m {
      DeleteNodeKeeps(g, hx);
      assert Depth(m[hx]) == 0 && m[hx].name == x by {
        match nodes[hx]
        case ModuleNode(mx) => HashesDistinct(mx.info.path, x);
        case PackageNode(p) => HashesDistinct(x, p.info.importPath);
      }
      assert forall k | k in m :: m[k].hash == k;
      SparesByName(m, DeleteNode(g, hx).g.members.nodeMap, hx, x);
    }
  }

  /**
   * Members of the module level apart from the one under `hx` lie outside
   * its subtree, so a deletion that keeps everything outside that subtree
   * keeps them.
   */
  lemma SparesByName(m: map<string, Node>, m1: map<string, Node>, hx: string, x: string)
    requires ParentsListed(m) && hx in m && Depth(m[hx]) == 0 && m[hx].name == x
    requires forall k | k in m :: m[k].hash == k
    requires forall k | k in m && !DescendsFrom(m[k], hx) && !DescendsFrom(m[hx], k) :: k in m1
    ensures forall h | h in m && Depth(m[h]) == 0 && m[h].name != x :: h in m1
  {
    forall h | h in m && Depth(m[h]) == 0 && m[h].name != x
      ensures h in m1
    {
      SameDepthApart(m, m[h], m[hx]);
    }
  }

  /** Every member of the module level named in `names` is still a member. */
  ghost predicate KeptNamed(m0: map<string, Node>, m1: map<string, Node>, names: set<string>)
  {
    forall h | h in m0 && Depth(m0[h]) == 0 && m0[h].name in names :: h in m1
  }

  lemma KeptNamedTrans(m0: map<string, Node>, m1: map<string, Node>, m2: map<string, Node>, names: set<string>)
    requires KeptNamed(m0, m1, names) && KeptNamed(m1, m2, names) && Restricts(m1, m0)
    ensures KeptNamed(m0, m2, names)
  {
    forall h | h in m0 && Depth(m0[h]) == 0 && m0[h].name in names
      ensures h in m2
    {
      assert m1[h] == m0[h];
    }
  }

  /** A predecessor of a module is a module, under its own hash. */
  lemma PredIsModule(g: Digraph, nodes: map<string, DepNode>, leaf: Node, n: Node)
    requires EdgesSound(g, nodes) && leaf.hash == ModuleHash(leaf.name)
    requires n in ListRefs(PredsOf(g, leaf.hash))
    ensures n.hash in nodes && nodes[n.hash].ModuleNode? && n.hash == ModuleHash(n.name)
  {
    var r := PredsOf(g, leaf.hash);
    PredsAt(g, leaf.hash);
    ListHoldsMapped(r, n);
    assert leaf.hash in g.preds;
    TypedAt(g, nodes, leaf.hash, n.hash);
    match nodes[leaf.hash]
    case ModuleNode(ml) => HashesDistinct(ml.info.path, leaf.name);
    case PackageNode(p) => HashesDistinct(leaf.name, p.info.importPath);
  }

  lemma TypedAt(g: Digraph, nodes: map<string, DepNode>, a: string, b: string)
    requires PredsTyped(g.preds, nodes) && a in g.preds && b in g.preds[a].nodeMap
    ensures a in nodes && b in nodes && g.preds[a].nodeMap[b] == GraphNodeOf(nodes[b])
    ensures nodes[a].ModuleNode? ==> nodes[b].ModuleNode?
  {
  }

  /** A predecessor has a successor: the mirrored end of the same edge. */
  lemma PredHasSucc(g: Digraph, a: string, n: Node)
    requires EdgesValid(g) && n in ListRefs(PredsOf(g, a))
    ensures |ListRefs(SuccsOf(g, n.hash))| > 0
  {
    PredsAt(g, a);
    SuccsAt(g, n.hash);
    ListHoldsMapped(PredsOf(g, a), n);
    MappedIffWeighted(PredsOf(g, a), n.hash);
    assert Weight(SuccsOf(g, n.hash), a) == Weight(PredsOf(g, a), n.hash);
    MappedIffWeighted(SuccsOf(g, n.hash), a);
    CountIsListLength(SuccsOf(g, n.hash));
    ListSortedCopy(SuccsOf(g, n.hash));
  }

  /** `_ = DeleteNode(hash)`: the graph without the node and its subtree, or the same graph when the deletion is refused. */
  ghost function DeletedOne(s: Digraph, hash: string): Digraph
  {
    if !Wellformed(s) then s
    else
      var d := DeleteNode(s, hash);
      if d.Updated? then d.g else s
  }

  /** The graph after `DeletedOne` of each node of `xs`, in order. */
  ghost function Deleted(s: Digraph, xs: seq<Node>): Digraph
    decreases |xs|
  {
    if xs == [] then s else DeletedOne(Deleted(s, xs[..|xs| - 1]), xs[|xs| - 1].hash)
  }

  lemma DeletedSnoc(s: Digraph, xs: seq<Node>, x: Node)
    ensures Deleted(s, xs + [x]) == DeletedOne(Deleted(s, xs), x.hash)
    ensures (xs + [x])[..|xs|] == xs
  {
    assert (xs + [x])[..|xs|] == xs;
  }

  /**
   * `DeleteNode("module " + x)` on the dependency graph: the module's node
   * and its subtree go, every other member of the module level stays, and a
   * module that is not a member leaves the graph as it was.
   */
  method DeleteModule(g: DepGraph, x: string)
    requires g.Valid() && EdgesSound(g.graph.State(), g.nodes)
    modifies g.graph
    ensures g.Valid() && EdgesSound(g.graph.State(), g.nodes)
    ensures Restricts(g.graph.members.nodeMap, old(g.graph.members.nodeMap))
    ensures ModuleHash(x) !in g.graph.members.nodeMap
    ensures ModuleHash(x) in old(g.graph.members.nodeMap) ==> |g.graph.members.nodeMap| < |old(g.graph.members.nodeMap)|
    ensures ModuleHash(x) !in old(g.graph.members.nodeMap) ==> g.graph.State() == old(g.graph.State())
    ensures g.graph.State() == DeletedOne(old(g.graph.State()), ModuleHash(x))
    ensures forall h | h in old(g.graph.members.nodeMap) && Depth(old(g.graph.members.nodeMap)[h]) == 0 && old(g.graph.members.nodeMap)[h].name != x ::
      h in g.graph.members.nodeMap
  {
    DeleteModuleStep(g.graph.State(), g.nodes, x);
    var _ := g.graph.DeleteNode(ModuleHash(x));
  }

  // ---------------------------------------------------------------------------
  // ArbitraryModules.

  /**
   * `ArbitraryModules.Apply`: delete the node of every listed module, in
   * order; a module that is not a member is skipped with a warning.
   */
  method ArbitraryModulesApply(g: DepGraph, modules: seq<string>)
    requires g.Valid() && EdgesSound(g.graph.State(), g.nodes)
    modifies g.graph
    ensures g.Valid() && EdgesSound(g.graph.State(), g.nodes)
    ensures Restricts(g.graph.members.nodeMap, old(g.graph.members.nodeMap))
    ensures forall x | x in modules :: ModuleHash(x) !in g.graph.members.nodeMap
    ensures forall h | h in old(g.graph.members.nodeMap) && Depth(old(g.graph.members.nodeMap)[h]) == 0 && old(g.graph.members.nodeMap)[h].name !in modules ::
      h in g.graph.members.nodeMap
  {
    ghost var m0 := g.graph.members.nodeMap;
    for i := 0 to |modules|
      invariant g.Valid() && EdgesSound(g.graph.State(), g.nodes)
      invariant Restricts(g.graph.members.nodeMap, m0)
      invariant forall j | 0 <= j < i :: ModuleHash(modules[j]) !in g.graph.members.nodeMap
      invariant forall h | h in m0 && Depth(m0[h]) == 0 && m0[h].name !in modules[..i] :: h in g.graph.members.nodeMap
    {
      ghost var m := g.graph.members.nodeMap;
      DeleteModule(g, modules[i]);
      DropStep(m0, m, g.graph.members.nodeMap, modules, i);
    }
    assert modules[..|modules|] == modules;
  }

  /** One deletion of `ArbitraryModules.Apply` moves its loop invariant one module on. */
  lemma DropStep(m0: map<string, Node>, m: map<string, Node>, m1: map<string, Node>, modules: seq<string>, i: int)
    requires 0 <= i < |modules| && Restricts(m, m0) && Restricts(m1, m)
    requires forall j | 0 <= j < i :: ModuleHash(modules[j]) !in m
    requires forall h | h in m0 && Depth(m0[h]) == 0 && m0[h].name !in modules[..i] :: h in m
    requires ModuleHash(modules[i]) !in m1
    requires forall h | h in m && Depth(m[h]) == 0 && m[h].name != modules[i] :: h in m1
    ensures Restricts(m1, m0)
    ensures forall j | 0 <= j < i + 1 :: ModuleHash(modules[j]) !in m1
    ensures forall h | h in m0 && Depth(m0[h]) == 0 && m0[h].name !in modules[..i + 1] :: h in m1
  {
    forall h | h in m0 && Depth(m0[h]) == 0 && m0[h].name !in modules[..i + 1]
      ensures h in m1
    {
      assert modules[..i + 1] == modules[..i] + [modules[i]];
      assert m[h] == m0[h];
    }
  }

  // ---------------------------------------------------------------------------
  // NonSharedModules.

  /**
   * What `NonSharedModules` prunes: a module that is not excluded, has no
   * successor and at most one predecessor.
   */
  predicate Unshared(g: Digraph, excludes: set<string>, n: Node)
  {
    n.name !in excludes && |ListRefs(SuccsOf(g, n.hash))| == 0 && |ListRefs(PredsOf(g, n.hash))| <= 1
  }

  /**
   * The search of `NonSharedModules.Apply`: the first node, in `List` order,
   * of the module level that is unshared, or none when no member of the
   * level is.
   */
  method FindUnshared(g: DepGraph, excludes: set<string>) returns (target: Option<Node>)
    requires g.Valid()
    ensures var s := g.graph.State();
      var m := g.graph.members.nodeMap;
      && (target.None? ==> forall h | h in m && Depth(m[h]) == 0 :: !Unshared(s, excludes, m[h]))
      && (target.Some? ==> target.value.hash in m && m[target.value.hash] == target.value && Depth(target.value) == 0)
      && (target.Some? ==> Unshared(s, excludes, target.value))
      && (target.Some? ==>
            var l := ListRefs(GetLevel(s, 0));
            exists k :: 0 <= k < |l| && l[k] == target.value && forall j | 0 <= j < k :: !Unshared(s, excludes, l[j]))
  {
    var level := g.graph.GetLevel(0);
    var l := ListRefs(level);
    LevelListed(g.graph.State(), 0);
    var i := 0;
    while i < |l|
      invariant 0 <= i <= |l|
      invariant forall j | 0 <= j < i :: !Unshared(g.graph.State(), excludes, l[j])
    {
      if Unshared(g.graph.State(), excludes, l[i]) {
        return Some(l[i]);
      }
      i := i + 1;
    }
    return None;
  }

  /** The predecessors of a node, in `List` order. */
  function PredList(s: Digraph, n: Node): seq<Node>
  {
    ListRefs(PredsOf(s, n.hash))
  }

  /**
   * `xs` is a walk of `pruneUnsharedChain` so far: each next node is the
   * first predecessor of the one before, unshared once that one is deleted.
   */
  ghost predicate ChainWalk(s: Digraph, excludes: set<string>, xs: seq<Node>)
    decreases |xs|
  {
    && |xs| >= 1
    && (|xs| > 1 ==>
         var ys := xs[..|xs| - 1];
         var before := Deleted(s, ys[..|ys| - 1]);
         var after := Deleted(s, ys);
         var x := xs[|xs| - 1];
         && ChainWalk(s, excludes, ys)
         && |PredList(before, ys[|ys| - 1])| > 0 && PredList(before, ys[|ys| - 1])[0] == x
         && Unshared(after, excludes, x))
  }

  /** The walk `xs` stops there: its last node had no predecessor, or its first one is not unshared once the last is deleted. */
  ghost predicate ChainStops(s: Digraph, excludes: set<string>, xs: seq<Node>)
    requires |xs| >= 1
  {
    var before := Deleted(s, xs[..|xs| - 1]);
    var ps := PredList(before, xs[|xs| - 1]);
    |ps| == 0 || !Unshared(Deleted(s, xs), excludes, ps[0])
  }

  /**
   * The state of `pruneUnsharedChain`'s loop: `done` went from `s`, leaving
   * `cur`, and `leaf` is the next step of the walk from `leaf0`.
   */
  ghost predicate Walking(s: Digraph, excludes: set<string>, leaf0: Node, done: seq<Node>, leaf: Node, cur: Digraph)
  {
    cur == Deleted(s, done) && ChainWalk(s, excludes, done + [leaf]) && (done + [leaf])[0] == leaf0
  }

  lemma ChainStarts(s: Digraph, excludes: set<string>, leaf0: Node)
    ensures Walking(s, excludes, leaf0, [], leaf0, s)
  {
    assert [] + [leaf0] == [leaf0];
  }

  /** Deleting the leaf ends the walk when the leaf had no predecessor or its first one is not unshared once the leaf is gone. */
  lemma ChainEnds(s: Digraph, excludes: set<string>, leaf0: Node, done: seq<Node>, leaf: Node, cur: Digraph)
    requires Walking(s, excludes, leaf0, done, leaf, cur)
    requires |PredList(cur, leaf)| == 0 || !Unshared(DeletedOne(cur, leaf.hash), excludes, PredList(cur, leaf)[0])
    ensures var walk := done + [leaf];
      && |walk| >= 1 && walk[0] == leaf0
      && ChainWalk(s, excludes, walk) && ChainStops(s, excludes, walk)
      && DeletedOne(cur, leaf.hash) == Deleted(s, walk)
  {
    DeletedSnoc(s, done, leaf);
  }

  /** Deleting the leaf goes on to its first predecessor when that one is unshared once the leaf is gone. */
  lemma ChainGoesOn(s: Digraph, excludes: set<string>, leaf0: Node, done: seq<Node>, leaf: Node, cur: Digraph, next: Node)
    requires Walking(s, excludes, leaf0, done, leaf, cur)
    requires |PredList(cur, leaf)| > 0 && PredList(cur, leaf)[0] == next
    requires Unshared(DeletedOne(cur, leaf.hash), excludes, next)
    ensures Walking(s, excludes, leaf0, done + [leaf], next, DeletedOne(cur, leaf.hash))
  {
    DeletedSnoc(s, done, leaf);
    var xs := done + [leaf];
    ChainWalkSnoc(s, excludes, xs, next);
    assert (xs + [next])[0] == xs[0];
  }

  /** `ChainWalk` of `xs + [x]` unfolds at `x`. */
  lemma ChainWalkSnoc(s: Digraph, excludes: set<string>, xs: seq<Node>, x: Node)
    requires |xs| >= 1
    ensures ChainWalk(s, excludes, xs + [x]) <==>
      var before := Deleted(s, xs[..|xs| - 1]);
      && ChainWalk(s, excludes, xs)
      && |PredList(before, xs[|xs| - 1])| > 0 && PredList(before, xs[|xs| - 1])[0] == x
      && Unshared(Deleted(s, xs), excludes, x)
  {
    InitOfSnoc(xs, x);
  }

  /** One deletion of `pruneUnsharedChain`: the leaf goes, with its subtree, and the excluded modules stay. */
  method DeleteLeaf(g: DepGraph, excludes: set<string>, ghost m0: map<string, Node>, leaf: Node)
    requires g.Valid() && EdgesSound(g.graph.State(), g.nodes)
    requires Restricts(g.graph.members.nodeMap, m0) && KeptNamed(m0, g.graph.members.nodeMap, excludes)
    requires leaf.hash == ModuleHash(leaf.name) && leaf.name !in excludes
    modifies g.graph
    ensures g.Valid() && EdgesSound(g.graph.State(), g.nodes)
    ensures Restricts(g.graph.members.nodeMap, m0) && KeptNamed(m0, g.graph.members.nodeMap, excludes)
    ensures Restricts(g.graph.members.nodeMap, old(g.graph.members.nodeMap))
    ensures leaf.hash !in g.graph.members.nodeMap
    ensures leaf.hash in old(g.graph.members.nodeMap) ==> |g.graph.members.nodeMap| < |old(g.graph.members.nodeMap)|
    ensures leaf.hash !in old(g.graph.members.nodeMap) ==> g.graph.State() == old(g.graph.State())
    ensures g.graph.State() == DeletedOne(old(g.graph.State()), leaf.hash)
  {
    ghost var s := g.graph.State();
    DeleteModule(g, leaf.name);
    ChainStepKept(m0, s.members.nodeMap, g.graph.members.nodeMap, excludes, leaf.name);
  }

  /**
   * One pass of `pruneUnsharedChain`'s loop: delete the leaf, then name its
   * first predecessor, in `List` order, when the leaf had one and that one is
   * unshared once the leaf is gone.
   */
  method ChainStep(g: DepGraph, excludes: set<string>, ghost m0: map<string, Node>, ghost s0: Digraph, ghost leaf0: Node, ghost done: seq<Node>, leaf: Node)
    returns (next: Option<Node>)
    requires g.Valid() && EdgesSound(g.graph.State(), g.nodes)
    requires Restricts(g.graph.members.nodeMap, m0) && KeptNamed(m0, g.graph.members.nodeMap, excludes)
    requires leaf.hash == ModuleHash(leaf.name) && leaf.name !in excludes
    requires Walking(s0, excludes, leaf0, done, leaf, g.graph.State())
    modifies g.graph
    ensures g.Valid() && EdgesSound(g.graph.State(), g.nodes)
    ensures Restricts(g.graph.members.nodeMap, m0) && KeptNamed(m0, g.graph.members.nodeMap, excludes)
    ensures Restricts(g.graph.members.nodeMap, old(g.graph.members.nodeMap))
    ensures leaf.hash !in g.graph.members.nodeMap
    ensures |g.graph.members.nodeMap| <= |old(g.graph.members.nodeMap)|
    ensures leaf.hash in old(g.graph.members.nodeMap) ==> |g.graph.members.nodeMap| < |old(g.graph.members.nodeMap)|
    ensures next.None? ==>
      var walk := done + [leaf];
      && |walk| >= 1 && walk[0] == leaf0
      && ChainWalk(s0, excludes, walk) && ChainStops(s0, excludes, walk)
      && g.graph.State() == Deleted(s0, walk)
    ensures next.Some? ==>
      && next.value.hash == ModuleHash(next.value.name) && next.value.name !in excludes
      && |g.graph.members.nodeMap| < |old(g.graph.members.nodeMap)|
      && Walking(s0, excludes, leaf0, done + [leaf], next.value, g.graph.State())
  {
    ghost var s := g.graph.State();
    var ps := ListRefs(PredsOf(g.graph.State(), leaf.hash));
    if |ps| == 0 {
      DeleteLeaf(g, excludes, m0, leaf);
      ChainEnds(s0, excludes, leaf0, done, leaf, s);
      return None;
    }
    var newLeaf := ps[0];
    PredIsModule(s, g.nodes, leaf, newLeaf);
    PredHasSucc(s, leaf.hash, newLeaf);
    DeleteLeaf(g, excludes, m0, leaf);
    if !Unshared(g.graph.State(), excludes, newLeaf) {
      ChainEnds(s0, excludes, leaf0, done, leaf, s);
      return None;
    }
    ChainGoesOn(s0, excludes, leaf0, done, leaf, s, newLeaf);
    return Some(newLeaf);
  }

  /**
   * `pruneUnsharedChain`: delete the leaf; while the leaf had a predecessor,
   * go on with its first one, in `List` order, as long as that module is not
   * excluded and, once the leaf is gone, has no successor and at most one
   * predecessor. `walk` lists the nodes deleted, and nothing else goes.
   */
  method PruneUnsharedChain(g: DepGraph, excludes: set<string>, leaf0: Node) returns (ghost walk: seq<Node>)
    requires g.Valid() && EdgesSound(g.graph.State(), g.nodes)
    requires leaf0.hash == ModuleHash(leaf0.name) && leaf0.name !in excludes
    modifies g.graph
    ensures g.Valid() && EdgesSound(g.graph.State(), g.nodes)
    ensures Restricts(g.graph.members.nodeMap, old(g.graph.members.nodeMap))
    ensures KeptNamed(old(g.graph.members.nodeMap), g.graph.members.nodeMap, excludes)
    ensures leaf0.hash !in g.graph.members.nodeMap
    ensures leaf0.hash in old(g.graph.members.nodeMap) ==> |g.graph.members.nodeMap| < |old(g.graph.members.nodeMap)|
    ensures |walk| >= 1 && walk[0] == leaf0
    ensures ChainWalk(old(g.graph.State()), excludes, walk) && ChainStops(old(g.graph.State()), excludes, walk)
    ensures g.graph.State() == Deleted(old(g.graph.State()), walk)
  {
    ghost var m0 := g.graph.members.nodeMap;
    ghost var s0 := g.graph.State();
    ChainStarts(s0, excludes, leaf0);
    ghost var done: seq<Node> := [];
    var leaf := leaf0;
    while true
      invariant g.Valid() && EdgesSound(g.graph.State(), g.nodes)
      invariant Restricts(g.graph.members.nodeMap, m0) && KeptNamed(m0, g.graph.members.nodeMap, excludes)
      invariant leaf.hash == ModuleHash(leaf.name) && leaf.name !in excludes
      invariant (leaf == leaf0 && g.graph.members.nodeMap == m0) || (leaf0.hash !in g.graph.members.nodeMap && |g.graph.members.nodeMap| < |m0|)
      invariant Walking(s0, excludes, leaf0, done, leaf, g.graph.State())
      decreases |g.graph.members.nodeMap|
    {
      var next := ChainStep(g, excludes, m0, s0, leaf0, done, leaf);
      if next.None? {
        return done + [leaf];
      }
      done := done + [leaf];
      leaf := next.value;
    }
  }

  /** One deletion of a module that is not excluded keeps the excluded members. */
  lemma ChainStepKept(m0: map<string, Node>, m: map<string, Node>, m1: map<string, Node>, excludes: set<string>, x: string)
    requires Restricts(m, m0) && KeptNamed(m0, m, excludes) && Restricts(m1, m) && x !in excludes
    requires forall h | h in m && Depth(m[h]) == 0 && m[h].name != x :: h in m1
    ensures Restricts(m1, m0) && KeptNamed(m0, m1, excludes)
  {
    assert KeptNamed(m, m1, excludes);
    KeptNamedTrans(m0, m, m1, excludes);
  }

  /** Each node of `xs` was unshared in the graph at the moment it was deleted. */
  ghost predicate UnsharedRun(s: Digraph, excludes: set<string>, xs: seq<Node>)
    decreases |xs|
  {
    xs == [] || (UnsharedRun(s, excludes, xs[..|xs| - 1]) && Unshared(Deleted(s, xs[..|xs| - 1]), excludes, xs[|xs| - 1]))
  }

  /** A walk of `pruneUnsharedChain` from an unshared node deletes only nodes that are unshared when they go. */
  lemma {:induction false} ChainWalkUnshared(s: Digraph, excludes: set<string>, xs: seq<Node>)
    requires ChainWalk(s, excludes, xs) && Unshared(s, excludes, xs[0])
    ensures UnsharedRun(s, excludes, xs)
    decreases |xs|
  {
    var ys := xs[..|xs| - 1];
    if |xs| > 1 {
      assert ys[0] == xs[0];
      ChainWalkUnshared(s, excludes, ys);
    } else {
      assert ys == [] && Deleted(s, ys) == s;
      assert Unshared(Deleted(s, ys), excludes, xs[|xs| - 1]);
    }
  }

  /** A run on the graph that another run left is, together with it, one run. */
  lemma {:induction false} UnsharedRunAppend(s: Digraph, excludes: set<string>, xs: seq<Node>, ys: seq<Node>)
    requires UnsharedRun(s, excludes, xs) && UnsharedRun(Deleted(s, xs), excludes, ys)
    ensures UnsharedRun(s, excludes, xs + ys)
    ensures Deleted(s, xs + ys) == Deleted(Deleted(s, xs), ys)
    decreases |ys|
  {
    if ys == [] {
      assert xs + ys == xs;
    } else {
      UnsharedRunAppend(s, excludes, xs, ys[..|ys| - 1]);
      DeletedAppend(s, xs, ys);
      InitOfAppend(xs, ys);
    }
  }

  lemma {:induction false} DeletedAppend(s: Digraph, xs: seq<Node>, ys: seq<Node>)
    ensures Deleted(s, xs + ys) == Deleted(Deleted(s, xs), ys)
    decreases |ys|
  {
    if ys == [] {
      assert xs + ys == xs;
    } else {
      DeletedAppend(s, xs, ys[..|ys| - 1]);
      InitOfAppend(xs, ys);
    }
  }

  /** `run` went from `s`, leaving `cur`, each node of it unshared when it was deleted. */
  ghost predicate SparedRun(s: Digraph, excludes: set<string>, run: seq<Node>, cur: Digraph)
  {
    cur == Deleted(s, run) && UnsharedRun(s, excludes, run)
  }

  /** The walks of `NonSharedModules.Apply`, one after the other, are one run of deletions of unshared nodes. */
  lemma ChainsPruned(s: Digraph, excludes: set<string>, run: seq<Node>, cur: Digraph, walk: seq<Node>)
    requires SparedRun(s, excludes, run, cur)
    requires ChainWalk(cur, excludes, walk) && Unshared(cur, excludes, walk[0])
    ensures SparedRun(s, excludes, run + walk, Deleted(cur, walk))
  {
    ChainWalkUnshared(cur, excludes, walk);
    UnsharedRunAppend(s, excludes, run, walk);
  }

  /**
   * `NonSharedModules.Apply`: prune unshared chains until no member of the
   * module level is unshared. Excluded modules stay; `run` lists the nodes
   * deleted, each unshared when it was deleted.
   */
  method NonSharedModulesApply(g: DepGraph, excludes: seq<string>) returns (ghost run: seq<Node>)
    requires g.Valid() && EdgesSound(g.graph.State(), g.nodes)
    modifies g.graph
    ensures g.Valid() && EdgesSound(g.graph.State(), g.nodes)
    ensures Restricts(g.graph.members.nodeMap, old(g.graph.members.nodeMap))
    ensures KeptNamed(old(g.graph.members.nodeMap), g.graph.members.nodeMap, (set x | x in excludes))
    ensures forall h | h in g.graph.members.nodeMap && Depth(g.graph.members.nodeMap[h]) == 0 ::
      !Unshared(g.graph.State(), (set x | x in excludes), g.graph.members.nodeMap[h])
    ensures g.graph.State() == Deleted(old(g.graph.State()), run) && UnsharedRun(old(g.graph.State()), (set x | x in excludes), run)
  {
    var excludeSet := set x | x in excludes;
    ghost var m0 := g.graph.members.nodeMap;
    ghost var s0 := g.graph.State();
    run := [];
    while true
      invariant g.Valid() && EdgesSound(g.graph.State(), g.nodes)
      invariant Restricts(g.graph.members.nodeMap, m0) && KeptNamed(m0, g.graph.members.nodeMap, excludeSet)
      invariant SparedRun(s0, excludeSet, run, g.graph.State())
      decreases |g.graph.members.nodeMap|
    {
      ghost var m := g.graph.members.nodeMap;
      ghost var s := g.graph.State();
      var target := FindUnshared(g, excludeSet);
      if target.None? {
        return;
      }
      LevelZeroIsModule(m, g.nodes, target.value.hash);
      ghost var walk := PruneUnsharedChain(g, excludeSet, target.value);
      KeptNamedTrans(m0, m, g.graph.members.nodeMap, excludeSet);
      ChainsPruned(s0, excludeSet, run, s, walk);
      run := run + walk;
    }
  }
}
