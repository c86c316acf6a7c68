/**
 * The current dependency graph object (internal/depgraph/graph.go) and its
 * `ApplyQuery` (internal/depgraph/query.go).
 *
 * A `DepGraph` owns a `HierarchicalDigraph` of modules and packages and a
 * table of replacement aliases. The module and package structs behind the
 * graph's members are held in `nodes`, by hash; every member of the graph is
 * the projection of the entry under its hash.
 */
module DepGraphObject {
  import opened Util
  import opened GraphNode
  import opened Graph
  import opened GraphLaws
  import opened GraphObject
  import opened DepGraphNodes
  import opened QueryGrammar
  import opened QueryEval

  /** `Level`: the depth in the hierarchy that a query works on. */
  datatype Level = LevelModules | LevelPackages

  function LevelDepth(level: Level): nat
  {
    match level
    case LevelModules => 0
    case LevelPackages => 1
  }

  /** The hash of the node named `name` at the level. */
  function LevelHash(level: Level, name: string): string
  {
    match level
    case LevelModules => ModuleHash(name)
    case LevelPackages => PackageHash(name)
  }

  /** Every member of the graph is the projection of the module or package held under its hash. */
  ghost predicate NodesMatch(m: map<string, Node>, nodes: map<string, DepNode>)
  {
    forall h | h in m :: h in nodes && Hash(nodes[h]) == h && GraphNodeOf(nodes[h]) == m[h]
  }

  /** The name a lookup goes to: the original module's path when `name` is a replacement's path. */
  function Resolve(aliases: map<string, string>, name: string): string
  {
    if name in aliases then aliases[name] else name
  }

  /**
   * `getModule`: the module whose path is the resolved name, if it is a
   * member; `None` stands for the `false` result.
   */
  function FindModule(aliases: map<string, string>, m: map<string, Node>, nodes: map<string, DepNode>, name: string): (r: Option<Module>)
    requires NodesMatch(m, nodes)
    ensures r.Some? <==> ModuleHash(Resolve(aliases, name)) in m
    ensures r.Some? ==> r.value.info.path == Resolve(aliases, name)
    ensures r.Some? ==> nodes[ModuleHash(Resolve(aliases, name))] == ModuleNode(r.value)
  {
    var target := Resolve(aliases, name);
    var h := ModuleHash(target);
    if h in m then
      var n := nodes[h];
      assert n.ModuleNode? && n.mod.info.path == target by {
        if n.PackageNode? {
          HashesDistinct(target, n.pkg.info.importPath);
        } else {
          HashesDistinct(target, n.mod.info.path);
        }
      }
      Some(n.mod)
    else None
  }

  /** The names of a list of nodes, in order. */
  function Names(l: seq<Node>): (r: seq<string>)
    ensures |r| == |l| && forall i | 0 <= i < |l| :: r[i] == l[i].name
  {
    if l == [] then [] else [l[0].name] + Names(l[1..])
  }

  /**
   * What a query sees of one level: the level's names in `List` order, each
   * name's successor and predecessor names in `List` order, and the names of
   * the test-only nodes.
   */
  function LevelView(g: Digraph, nodes: map<string, DepNode>, level: Level): (v: View)
    ensures v.level == Names(ListRefs(GetLevel(g, LevelDepth(level))))
    ensures v.succs.Keys == v.preds.Keys == LevelSet(v)
  {
    var names := Names(ListRefs(GetLevel(g, LevelDepth(level))));
    View(names,
         map x | x in names :: Names(ListRefs(SuccsOf(g, LevelHash(level, x)))),
         map x | x in names :: Names(ListRefs(PredsOf(g, LevelHash(level, x)))),
         set x | x in names && LevelHash(level, x) in nodes && TestOnly(nodes[LevelHash(level, x)]))
  }

  /** A rejected query: why, and the sub-expression at fault. */
  datatype QueryError = QueryError(reason: Reason, at: Expr)

  class DepGraph {
    var path: string
    var main: Option<Module>
    const graph: HierarchicalDigraph
    var aliases: map<string, string>
    var nodes: map<string, DepNode>

    ghost predicate Valid()
      reads this, graph
    {
      Wellformed(graph.State()) && NodesMatch(graph.members.nodeMap, nodes)
    }

    /** `getModule`. */
    function GetModule(name: string): (r: Option<Module>)
      requires Valid()
      reads this, graph
      ensures r.Some? <==> ModuleHash(Resolve(aliases, name)) in graph.members.nodeMap
      ensures r.Some? ==> r.value.info.path == Resolve(aliases, name)
    {
      FindModule(aliases, graph.members.nodeMap, nodes, name)
    }

    /** `NewGraph`: an empty graph into which the main module, if given, is added. */
    constructor (path: string, mainInfo: Option<ModuleInfo>)
      ensures Valid() && fresh(graph) && this.path == path
      ensures mainInfo.None? ==> main.None? && graph.State() == EmptyGraph && nodes == map[] && aliases == map[]
      ensures mainInfo.Some? ==>
        var m := NewModule(mainInfo.value);
        && main == Some(m)
        && graph.State() == Graph.AddNode(EmptyGraph, ModuleGraphNode(m)).g
        && nodes == map[ModuleHash(m.info.path) := ModuleNode(m)]
        && aliases == if m.info.replace.Some? then map[m.info.replace.value.path := m.info.path] else map[]
    {
      this.path := path;
      graph := new HierarchicalDigraph();
      EmptyValid();
      aliases := map[];
      nodes := map[];
      main := None;
      new;
      main := AddModule(mainInfo);
    }

    /**
     * `AddModule`: nothing for a nil module; the member already there for a
     * known path; otherwise a new module, whose replacement path, if any,
     * becomes an alias of its own path.
     */
    method AddModule(info: Option<ModuleInfo>) returns (r: Option<Module>)
      requires Valid()
      modifies this, graph
      ensures Valid() && path == old(path) && main == old(main)
      ensures info.None? ==> r.None?
      ensures info.Some? && ModuleHash(info.value.path) in old(graph.members.nodeMap) ==>
        r.Some? && r.value.info.path == info.value.path && old(nodes)[ModuleHash(info.value.path)] == ModuleNode(r.value)
      ensures info.None? || ModuleHash(info.value.path) in old(graph.members.nodeMap) ==>
        graph.State() == old(graph.State()) && nodes == old(nodes) && aliases == old(aliases)
      ensures info.Some? && ModuleHash(info.value.path) !in old(graph.members.nodeMap) ==>
        var m := NewModule(info.value);
        && r == Some(m)
        && graph.State() == Graph.AddNode(old(graph.State()), ModuleGraphNode(m)).g
        && nodes == old(nodes)[ModuleHash(m.info.path) := ModuleNode(m)]
        && aliases == if m.info.replace.Some? then old(aliases)[m.info.replace.value.path := m.info.path] else old(aliases)
    {
      if info.None? {
        return None;
      }
      var h := ModuleHash(info.value.path);
      var found := graph.GetNode(h);
      if found.Some? {
        var known := FindModule(map[], graph.members.nodeMap, nodes, info.value.path);
        return Some(nodes[h].mod);
      }
      var m := NewModule(info.value);
      AddModuleValid(graph.State(), nodes, m);
      var _ := graph.AddNode(ModuleGraphNode(m));
      nodes := nodes[h := ModuleNode(m)];
      if info.value.replace.Some? {
        aliases := aliases[info.value.replace.value.path := info.value.path];
      }
      return Some(m);
    }

    /**
     * `ApplyQuery`: evaluate the query on the level, then delete, in `List`
     * order, every node of the level whose name is not in the result. A
     * rejected query changes nothing.
     */
    method ApplyQuery(matcher: Matcher, q: Expr, level: Level) returns (err: Option<QueryError>)
      requires Valid()
      modifies graph
      ensures Valid()
      ensures var o := Eval(LevelView(old(graph.State()), nodes, level), matcher, q);
        && (o.Invalid? ==> err == Some(QueryError(o.reason, o.at)) && graph.State() == old(graph.State()))
        && (o.Ok? ==> err.None? && Restricts(graph.members.nodeMap, old(graph.members.nodeMap)))
        && (o.Ok? ==> forall h | h in old(graph.members.nodeMap) && Depth(old(graph.members.nodeMap)[h]) == LevelDepth(level) ::
                        h in graph.members.nodeMap <==> old(graph.members.nodeMap)[h].name in o.names)
    {
      var v := LevelView(graph.State(), nodes, level);
      var o := ComputeSet(v, matcher, q);
      if o.Invalid? {
        return Some(QueryError(o.reason, o.at));
      }
      KeepSelected(o.names, LevelDepth(level));
      return None;
    }

    /** The deletions of `ApplyQuery`: every node of the level stays exactly when its name is selected. */
    method KeepSelected(names: set<string>, depth: nat)
      requires Valid()
      modifies graph
      ensures Valid() && Restricts(graph.members.nodeMap, old(graph.members.nodeMap))
      ensures forall h | h in old(graph.members.nodeMap) && Depth(old(graph.members.nodeMap)[h]) == depth ::
        h in graph.members.nodeMap <==> old(graph.members.nodeMap)[h].name in names
    {
      ghost var m0 := graph.members.nodeMap;
      assert forall h | h in m0 :: m0[h].hash == h;
      var refs := graph.GetLevel(depth);
      var l := ListRefs(refs);
      LevelListed(graph.State(), depth);
      DeleteUnselected(l, names);
      SweepDone(m0, l, names, graph.members.nodeMap, depth);
    }

    /** The deletion loop of `ApplyQuery`: delete, in list order, every listed node whose name is not selected. */
    method DeleteUnselected(l: seq<Node>, names: set<string>)
      requires Valid() && Sweep(l, 0, names, graph.members.nodeMap)
      requires forall j, k | 0 <= j < k < |l| :: l[j].hash != l[k].hash
      requires forall j, k | 0 <= j < |l| && 0 <= k < |l| :: Depth(l[j]) == Depth(l[k])
      modifies graph
      ensures Valid() && Sweep(l, |l|, names, graph.members.nodeMap)
      ensures Restricts(graph.members.nodeMap, old(graph.members.nodeMap))
    {
      ghost var m0 := graph.members.nodeMap;
      var i := 0;
      while i < |l|
        invariant 0 <= i <= |l| && Valid()
        invariant Restricts(graph.members.nodeMap, m0)
        invariant Sweep(l, i, names, graph.members.nodeMap)
        invariant forall j | 0 <= j < |l| && l[j].hash in graph.members.nodeMap :: graph.members.nodeMap[l[j].hash] == l[j]
      {
        ghost var m := graph.members.nodeMap;
        if l[i].name !in names {
          DeleteFacts(graph.State(), l, i);
          NodesMatchRestricts(DeleteNode(graph.State(), l[i].hash).g.members.nodeMap, m, nodes);
          var e := graph.DeleteNode(l[i].hash);
          SweepAdvance(l, i, names, m, graph.members.nodeMap);
        } else {
          SweepSkip(l, i, names, m);
        }
        i := i + 1;
      }
    }
  }

  /** The empty graph holds nothing and projects nothing. */
  lemma EmptyValid()
    ensures Wellformed(EmptyGraph) && NodesMatch(EmptyGraph.members.nodeMap, map[])
  {
  }

  /** Adding a module whose hash is not a member succeeds and keeps the graph valid. */
  lemma AddModuleValid(g: Digraph, nodes: map<string, DepNode>, m: Module)
    requires Wellformed(g) && NodesMatch(g.members.nodeMap, nodes) && ModuleHash(m.info.path) !in g.members.nodeMap
    ensures Graph.AddNode(g, ModuleGraphNode(m)).Updated?
    ensures Wellformed(Graph.AddNode(g, ModuleGraphNode(m)).g)
    ensures NodesMatch(Graph.AddNode(g, ModuleGraphNode(m)).g.members.nodeMap, nodes[ModuleHash(m.info.path) := ModuleNode(m)])
  {
    AddNodeLaws(g, ModuleGraphNode(m));
  }

  /**
   * `getModule` after `AddModule` added a new module: the replacement path,
   * when there is one, leads to the module, and so does the module's own
   * path unless that path is itself recorded as an alias.
   */
  lemma AddedModuleFound(g: Digraph, nodes: map<string, DepNode>, aliases: map<string, string>, info: ModuleInfo)
    requires Wellformed(g) && NodesMatch(g.members.nodeMap, nodes) && ModuleHash(info.path) !in g.members.nodeMap
    ensures var m := NewModule(info);
      var m1 := Graph.AddNode(g, ModuleGraphNode(m)).g.members.nodeMap;
      var nodes1 := nodes[ModuleHash(info.path) := ModuleNode(m)];
      var aliases1 := if info.replace.Some? then aliases[info.replace.value.path := info.path] else aliases;
      && NodesMatch(m1, nodes1)
      && (info.replace.Some? ==> FindModule(aliases1, m1, nodes1, info.replace.value.path) == Some(m))
      && (info.path !in aliases1 ==> FindModule(aliases1, m1, nodes1, info.path) == Some(m))
  {
    var m := NewModule(info);
    AddModuleValid(g, nodes, m);
  }

  /** Removing members keeps every remaining member a projection of its entry. */
  lemma NodesMatchRestricts(m1: map<string, Node>, m0: map<string, Node>, nodes: map<string, DepNode>)
    requires NodesMatch(m0, nodes) && Restricts(m1, m0)
    ensures NodesMatch(m1, nodes)
  {
  }

  /**
   * The state of the deletion loop after `i` nodes of the level list: each
   * of them is still a member exactly when its name was selected, and the
   * rest are all members, unchanged.
   */
  ghost predicate Sweep(l: seq<Node>, i: int, names: set<string>, m: map<string, Node>)
    requires 0 <= i <= |l|
  {
    && (forall j | 0 <= j < i :: l[j].hash in m <==> l[j].name in names)
    && (forall j | i <= j < |l| :: l[j].hash in m && m[l[j].hash] == l[j])
  }

  /**
   * Deleting the `i`-th node of a list of members at one depth succeeds,
   * removes it, and keeps every other listed member.
   */
  lemma DeleteFacts(g: Digraph, l: seq<Node>, i: int)
    requires Wellformed(g) && 0 <= i < |l| && l[i].hash in g.members.nodeMap
    requires forall j | 0 <= j < |l| && l[j].hash in g.members.nodeMap :: g.members.nodeMap[l[j].hash] == l[j]
    requires forall j, k | 0 <= j < k < |l| :: l[j].hash != l[k].hash
    requires forall j, k | 0 <= j < |l| && 0 <= k < |l| :: Depth(l[j]) == Depth(l[k])
    ensures var r := DeleteNode(g, l[i].hash);
      && r.Updated? && Restricts(r.g.members.nodeMap, g.members.nodeMap) && l[i].hash !in r.g.members.nodeMap
      && forall j | 0 <= j < |l| && j != i && l[j].hash in g.members.nodeMap :: l[j].hash in r.g.members.nodeMap
  {
    var m := g.members.nodeMap;
    DeleteNodeKeeps(g, l[i].hash);
    forall j | 0 <= j < |l| && j != i && l[j].hash in m
      ensures !DescendsFrom(m[l[j].hash], l[i].hash) && !DescendsFrom(m[l[i].hash], l[j].hash)
    {
      SameDepthApart(m, l[i], l[j]);
    }
  }

  /** One deletion moves the sweep one step on. */
  lemma SweepAdvance(l: seq<Node>, i: int, names: set<string>, m: map<string, Node>, m1: map<string, Node>)
    requires 0 <= i < |l| && l[i].name !in names && Sweep(l, i, names, m)
    requires Restricts(m1, m) && l[i].hash !in m1
    requires forall j | 0 <= j < |l| && j != i && l[j].hash in m :: l[j].hash in m1
    ensures Sweep(l, i + 1, names, m1)
  {
  }

  /** A selected node stays, which moves the sweep one step on. */
  lemma SweepSkip(l: seq<Node>, i: int, names: set<string>, m: map<string, Node>)
    requires 0 <= i < |l| && l[i].name in names && Sweep(l, i, names, m)
    ensures Sweep(l, i + 1, names, m)
  {
  }

  /** When the sweep is through, every member of the level went exactly when its name was not selected. */
  lemma SweepDone(m0: map<string, Node>, l: seq<Node>, names: set<string>, m: map<string, Node>, depth: nat)
    requires Sweep(l, |l|, names, m)
    requires forall h | h in m0 && Depth(m0[h]) == depth :: exists j :: 0 <= j < |l| && l[j] == m0[h]
    requires forall h | h in m0 :: m0[h].hash == h
    ensures forall h | h in m0 && Depth(m0[h]) == depth :: h in m <==> m0[h].name in names
  {
    forall h | h in m0 && Depth(m0[h]) == depth
      ensures h in m <==> m0[h].name in names
    {
      var j :| 0 <= j < |l| && l[j] == m0[h];
    }
  }

  /**
   * The level's list holds distinct nodes, each a member at the depth, and
   * every member at the depth is in it.
   */
  lemma LevelListed(g: Digraph, depth: nat)
    requires Wellformed(g)
    ensures var l := ListRefs(GetLevel(g, depth));
      && (forall j | 0 <= j < |l| :: l[j].hash in g.members.nodeMap && g.members.nodeMap[l[j].hash] == l[j] && Depth(l[j]) == depth)
      && (forall j, k | 0 <= j < k < |l| :: l[j].hash != l[k].hash)
      && (forall h | h in g.members.nodeMap && Depth(g.members.nodeMap[h]) == depth :: exists j :: 0 <= j < |l| && l[j] == g.members.nodeMap[h])
  {
    var r := GetLevel(g, depth);
    var l := ListRefs(r);
    GetLevelExact(g, depth);
    ListSortedCopy(r);
    forall j | 0 <= j < |l|
      ensures l[j] in r.nodeList
    {
      assert l[j] in multiset(l);
    }
    forall j, k | 0 <= j < k < |l|
      ensures l[j].hash != l[k].hash
    {
      ListedOnce(r, l, j, k);
    }
    forall h | h in g.members.nodeMap && Depth(g.members.nodeMap[h]) == depth
      ensures exists j :: 0 <= j < |l| && l[j] == g.members.nodeMap[h]
    {
      var x := g.members.nodeMap[h];
      assert x in r.nodeList;
      assert x in multiset(r.nodeList);
      assert x in l;
    }
  }

  /** Two positions of a sorted copy of a valid reference set hold nodes with distinct hashes. */
  lemma ListedOnce(r: Refs, l: seq<Node>, j: int, k: int)
    requires RefsValid(r) && multiset(l) == multiset(r.nodeList) && 0 <= j < k < |l|
    ensures l[j].hash != l[k].hash
  {
    if l[j].hash == l[k].hash {
      assert l[j] in multiset(r.nodeList) && l[k] in multiset(r.nodeList);
      assert l[j] == r.nodeMap[l[j].hash] == l[k];
      assert multiset(l)[l[j]] >= 2 by {
        assert l == l[..j] + [l[j]] + l[j + 1..k] + [l[k]] + l[k + 1..];
      }
      DistinctOnce(r.nodeList, l[j]);
    }
  }

  lemma DistinctOnce(l: seq<Node>, x: Node)
    requires DistinctHashes(l)
    ensures multiset(l)[x] <= 1
  {
    if l != [] {
      DistinctTail(l);
      DistinctOnce(l[1..], x);
      assert l == [l[0]] + l[1..];
      if l[0] == x {
        assert x !in l[1..];
      }
    }
  }
}
