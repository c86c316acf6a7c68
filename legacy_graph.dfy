/**
 * The first generation's dependency graph (depgraph/graph.go, with its
 * removals and filters in depgraph/filter.go): modules by name, each with
 * the list of edges that end at it and the list of edges that start at it.
 *
 * A `Node` and a `Dependency` are values here; in Go each edge is one
 * object shared by the two lists it is in, and an edge is identified here
 * by its two ends. The `offending` flags of nodes and edges are held by the
 * graph as the set of offending node names and the set of offending
 * (begin, end) pairs.
 */
module LegacyGraph {
  import opened Util
  import DepGraphNodes
  import Graph

  type ModuleInfo = DepGraphNodes.ModuleInfo

  /** `Dependency`: the module `begin` requires the module `end` at `version`. */
  datatype Dependency = Dependency(begin: string, end: string, version: string)

  /** `Node`: a module with its incoming and outgoing edges, each list in the order the edges were added. */
  datatype Node = Node(info: ModuleInfo, preds: seq<Dependency>, succs: seq<Dependency>)

  type Nodes = map<string, Node>

  /** `createNewNode`: a node without edges for a module that has module information, and nothing for one that has none. */
  function CreateNewNode(name: string, modules: map<string, ModuleInfo>): (r: Option<Node>)
    ensures r.Some? <==> name in modules
    ensures r.Some? ==> r.value.info == modules[name] && r.value.preds == [] && r.value.succs == []
  {
    if name in modules then Some(Node(modules[name], [], [])) else None
  }

  /** `Name`: the module path. */
  function Name(n: Node): string
  {
    n.info.path
  }

  /** `SelectedVersion`: the version the current generation selects for the same module information. */
  function SelectedVersion(n: Node): (v: string)
    ensures v == DepGraphNodes.SelectedVersion(DepGraphNodes.NewModule(n.info))
  {
    if n.info.replace.Some? then n.info.replace.value.version else n.info.version
  }

  /** `Timestamp`: the time the current generation reports for the same module information. */
  function Timestamp(n: Node): (t: Option<DepGraphNodes.Timestamp>)
    ensures t == DepGraphNodes.TimestampOf(DepGraphNodes.NewModule(n.info))
  {
    if n.info.replace.Some? then n.info.replace.value.time else n.info.time
  }

  /** Every edge is listed at both of its ends, and both of its ends are nodes. */
  ghost predicate Mirrored(nodes: Nodes)
  {
    && (forall x, d | x in nodes && d in nodes[x].succs :: d.begin == x && d.end in nodes && d in nodes[d.end].preds)
    && (forall x, d | x in nodes && d in nodes[x].preds :: d.end == x && d.begin in nodes && d in nodes[d.begin].succs)
  }

  /** Each node is stored under its own name. */
  ghost predicate Keyed(nodes: Nodes)
  {
    forall x | x in nodes :: Name(nodes[x]) == x
  }

  /** Which edges `removeEdge` drops from a list: those ending at a module, or those starting at one. */
  datatype Cut = EndAt(end: string) | BeginAt(begin: string)

  predicate Cuts(c: Cut, d: Dependency)
  {
    match c
    case EndAt(e) => d.end == e
    case BeginAt(b) => d.begin == b
  }

  /** The edges of `deps` that `c` does not cut, in their order. */
  function Keep(deps: seq<Dependency>, c: Cut): (r: seq<Dependency>)
    ensures forall d :: d in r <==> d in deps && !Cuts(c, d)
    ensures |r| <= |deps|
  {
    if deps == [] then []
    else
      var last := deps[|deps| - 1];
      Keep(deps[..|deps| - 1], c) + (if Cuts(c, last) then [] else [last])
  }

  /** `removeEdge`: drop every edge from `start` to `end` from both lists; a missing end makes it a no-op. */
  function EdgeRemoved(nodes: Nodes, start: string, end: string): Nodes
  {
    if start !in nodes || end !in nodes then nodes
    else
      var g1 := nodes[start := nodes[start].(succs := Keep(nodes[start].succs, EndAt(end)))];
      g1[end := g1[end].(preds := Keep(g1[end].preds, BeginAt(start)))]
  }

  /** `removeEdge` for each edge of `ds` in turn. */
  function EdgesRemoved(nodes: Nodes, ds: seq<Dependency>): Nodes
  {
    if ds == [] then nodes
    else
      var last := ds[|ds| - 1];
      EdgeRemoved(EdgesRemoved(nodes, ds[..|ds| - 1]), last.begin, last.end)
  }

  /** `removeNode`: remove the edges of the node, outgoing then incoming, then the node; a missing node is a no-op. */
  function NodeRemoved(nodes: Nodes, name: string): Nodes
  {
    if name !in nodes then nodes
    else EdgesRemoved(EdgesRemoved(nodes, nodes[name].succs), nodes[name].preds) - {name}
  }

  /** The (begin, end) pairs of a list of edges. */
  function Pairs(ds: seq<Dependency>): set<(string, string)>
  {
    set d | d in ds :: (d.begin, d.end)
  }

  /** The node `a` is the node `b`, stored under `x`, without the edges whose (begin, end) pair is in `cut`. */
  ghost predicate CutNode(a: Node, b: Node, x: string, cut: set<(string, string)>)
  {
    && a.info == b.info
    && (forall d :: d in a.succs <==> d in b.succs && (x, d.end) !in cut)
    && (forall d :: d in a.preds <==> d in b.preds && (d.begin, x) !in cut)
  }

  /** `r` is `nodes` without the edges whose (begin, end) pair is in `cut`, and otherwise the same. */
  ghost predicate CutBy(r: Nodes, nodes: Nodes, cut: set<(string, string)>)
  {
    && r.Keys == nodes.Keys
    && (forall x | x in r :: CutNode(r[x], nodes[x], x, cut))
  }

  /** `removeEdge` between two nodes drops exactly the edges from `start` to `end`, from both lists, and keeps every node. */
  lemma RemoveEdgeLaws(nodes: Nodes, start: string, end: string)
    requires start in nodes && end in nodes
    ensures CutBy(EdgeRemoved(nodes, start, end), nodes, {(start, end)})
  {
    var r := EdgeRemoved(nodes, start, end);
    forall x | x in r
      ensures CutNode(r[x], nodes[x], x, {(start, end)})
    {
    }
  }

  /** `removeEdge` keeps the edges mirrored. */
  lemma RemoveEdgeMirrored(nodes: Nodes, start: string, end: string)
    requires Mirrored(nodes)
    ensures Mirrored(EdgeRemoved(nodes, start, end))
  {
    if start in nodes && end in nodes {
      RemoveEdgeLaws(nodes, start, end);
      CutMirrored(EdgeRemoved(nodes, start, end), nodes, {(start, end)});
    }
  }

  /** Cutting the same pairs from both ends keeps a graph mirrored. */
  lemma CutMirrored(r: Nodes, nodes: Nodes, cut: set<(string, string)>)
    requires Mirrored(nodes) && CutBy(r, nodes, cut)
    ensures Mirrored(r)
  {
    forall x, d | x in r && d in r[x].succs
      ensures d.begin == x && d.end in r && d in r[d.end].preds
    {
      assert CutNode(r[x], nodes[x], x, cut);
      assert CutNode(r[d.end], nodes[d.end], d.end, cut);
    }
    forall x, d | x in r && d in r[x].preds
      ensures d.end == x && d.begin in r && d in r[d.begin].succs
    {
      assert CutNode(r[x], nodes[x], x, cut);
      assert CutNode(r[d.begin], nodes[d.begin], d.begin, cut);
    }
  }

  /** Removing a list of edges whose ends are nodes drops exactly the edges with one of the listed (begin, end) pairs. */
  lemma {:induction false} RemoveEdgesLaws(nodes: Nodes, ds: seq<Dependency>)
    requires forall d | d in ds :: d.begin in nodes && d.end in nodes
    ensures CutBy(EdgesRemoved(nodes, ds), nodes, Pairs(ds))
  {
    if ds == [] {
      assert Pairs(ds) == {};
      forall x | x in nodes
        ensures CutNode(nodes[x], nodes[x], x, {})
      {
      }
    } else {
      var init := ds[..|ds| - 1];
      var last := ds[|ds| - 1];
      assert ds == init + [last];
      RemoveEdgesLaws(nodes, init);
      var g := EdgesRemoved(nodes, init);
      assert last in ds;
      RemoveEdgeLaws(g, last.begin, last.end);
      CutTwice(EdgesRemoved(nodes, ds), g, nodes, Pairs(init), {(last.begin, last.end)});
      assert Pairs(ds) == Pairs(init) + {(last.begin, last.end)};
    }
  }

  lemma CutTwice(g2: Nodes, g1: Nodes, g0: Nodes, c1: set<(string, string)>, c2: set<(string, string)>)
    requires CutBy(g1, g0, c1) && CutBy(g2, g1, c2)
    ensures CutBy(g2, g0, c1 + c2)
  {
    forall x | x in g2
      ensures CutNode(g2[x], g0[x], x, c1 + c2)
    {
      assert CutNode(g2[x], g1[x], x, c2);
      assert CutNode(g1[x], g0[x], x, c1);
    }
  }

  /** The node `a` is the node `b` without the edges that start or end at `name`. */
  ghost predicate UnlinkedNode(a: Node, b: Node, name: string)
  {
    && a.info == b.info
    && (forall d :: d in a.succs <==> d in b.succs && d.end != name)
    && (forall d :: d in a.preds <==> d in b.preds && d.begin != name)
  }

  /** `r` is `nodes` without the node `name` and without every edge that starts or ends at it. */
  ghost predicate Unlinked(r: Nodes, nodes: Nodes, name: string)
  {
    && r.Keys == nodes.Keys - {name}
    && (forall x | x in r :: UnlinkedNode(r[x], nodes[x], name))
  }

  /** Cutting every pair of a node's own edges, in a mirrored graph, cuts exactly the edges at that node. */
  lemma CutIncident(g: Nodes, nodes: Nodes, name: string)
    requires Mirrored(nodes) && name in nodes
    requires CutBy(g, nodes, Pairs(nodes[name].succs) + Pairs(nodes[name].preds))
    ensures Unlinked(g - {name}, nodes, name)
  {
    var cut := Pairs(nodes[name].succs) + Pairs(nodes[name].preds);
    forall x | x in nodes && x != name
      ensures UnlinkedNode(g[x], nodes[x], name)
    {
      assert CutNode(g[x], nodes[x], x, cut);
      forall d
        ensures d in g[x].succs <==> d in nodes[x].succs && d.end != name
        ensures d in g[x].preds <==> d in nodes[x].preds && d.begin != name
      {
        IncidentPairs(nodes, name, x, d);
      }
    }
  }

  /**
   * `removeNode` on a node of a mirrored graph removes the node and exactly
   * the edges that start or end at it, so no remaining list refers to it,
   * and the edges stay mirrored.
   */
  lemma RemoveNodeUnlinks(nodes: Nodes, name: string)
    requires Mirrored(nodes) && name in nodes
    ensures Unlinked(NodeRemoved(nodes, name), nodes, name)
    ensures Mirrored(NodeRemoved(nodes, name))
  {
    var n := nodes[name];
    RemoveEdgesLaws(nodes, n.succs);
    var g1 := EdgesRemoved(nodes, n.succs);
    RemoveEdgesLaws(g1, n.preds);
    var g2 := EdgesRemoved(g1, n.preds);
    CutTwice(g2, g1, nodes, Pairs(n.succs), Pairs(n.preds));
    CutIncident(g2, nodes, name);
    UnlinkedMirrored(NodeRemoved(nodes, name), nodes, name);
  }

  /** Which (begin, end) pairs of the node's own edges an edge of another node has. */
  lemma IncidentPairs(nodes: Nodes, name: string, x: string, d: Dependency)
    requires Mirrored(nodes) && name in nodes && x in nodes && x != name
    ensures d in nodes[x].succs ==> (x, d.end) !in Pairs(nodes[name].succs) && ((x, d.end) in Pairs(nodes[name].preds) <==> d.end == name)
    ensures d in nodes[x].preds ==> (d.begin, x) !in Pairs(nodes[name].preds) && ((d.begin, x) in Pairs(nodes[name].succs) <==> d.begin == name)
  {
    if d in nodes[x].succs && d.end == name {
      assert (x, d.end) == (d.begin, d.end);
    }
    if d in nodes[x].preds && d.begin == name {
      assert (d.begin, x) == (d.begin, d.end);
    }
  }

  lemma UnlinkedMirrored(r: Nodes, nodes: Nodes, name: string)
    requires Mirrored(nodes) && Unlinked(r, nodes, name)
    ensures Mirrored(r)
  {
    forall x, d | x in r && d in r[x].succs
      ensures d.begin == x && d.end in r && d in r[d.end].preds
    {
      assert UnlinkedNode(r[x], nodes[x], name);
      assert UnlinkedNode(r[d.end], nodes[d.end], name);
    }
    forall x, d | x in r && d in r[x].preds
      ensures d.end == x && d.begin in r && d in r[d.begin].succs
    {
      assert UnlinkedNode(r[x], nodes[x], name);
      assert UnlinkedNode(r[d.begin], nodes[d.begin], name);
    }
  }

  /** The node `a` has the module of `b` and only edges that `b` has. */
  ghost predicate SubNode(a: Node, b: Node)
  {
    && a.info == b.info
    && (forall d | d in a.succs :: d in b.succs)
    && (forall d | d in a.preds :: d in b.preds)
  }

  /** Every node of `r` is a node of `nodes`, with only edges that it has there. */
  ghost predicate Within(r: Nodes, nodes: Nodes)
  {
    forall x | x in r :: x in nodes && SubNode(r[x], nodes[x])
  }

  lemma WithinTrans(r2: Nodes, r1: Nodes, r0: Nodes)
    requires Within(r2, r1) && Within(r1, r0)
    ensures Within(r2, r0)
  {
    forall x | x in r2
      ensures x in r0 && SubNode(r2[x], r0[x])
    {
      assert SubNode(r2[x], r1[x]) && SubNode(r1[x], r0[x]);
    }
  }

  lemma CutWithin(r: Nodes, nodes: Nodes, cut: set<(string, string)>)
    requires CutBy(r, nodes, cut)
    ensures Within(r, nodes)
  {
    forall x | x in r
      ensures x in nodes && SubNode(r[x], nodes[x])
    {
      assert CutNode(r[x], nodes[x], x, cut);
    }
  }

  lemma UnlinkedWithin(r: Nodes, nodes: Nodes, name: string)
    requires Unlinked(r, nodes, name)
    ensures Within(r, nodes)
  {
    forall x | x in r
      ensures x in nodes && SubNode(r[x], nodes[x])
    {
      assert UnlinkedNode(r[x], nodes[x], name);
    }
  }

  /** The loop of `removeEdge` that rebuilds one list without the edges `c` cuts. */
  method KeepEdges(deps: seq<Dependency>, c: Cut) returns (r: seq<Dependency>)
    ensures r == Keep(deps, c)
  {
    r := [];
    for i := 0 to |deps|
      invariant r == Keep(deps[..i], c)
    {
      assert deps[..i + 1][..i] == deps[..i];
      if !Cuts(c, deps[i]) {
        r := r + [deps[i]];
      }
    }
    assert deps[..|deps|] == deps;
  }

  /** `PruneUnsharedDeps`' test: a node without successors and with fewer than two predecessors. */
  predicate Unshared(n: Node)
  {
    |n.succs| == 0 && |n.preds| < 2
  }

  /** `SubGraph`'s test: a node without successors whose first incoming edge, if any, does not end at `dependency`. */
  predicate OffChain(dependency: string, n: Node)
  {
    |n.succs| == 0 && (|n.preds| == 0 || n.preds[0].end != dependency)
  }

  /** In a mirrored graph, a node is off the chain unless it has successors or it is `dependency` with predecessors. */
  lemma OffChainMeans(nodes: Nodes, dependency: string, x: string)
    requires Mirrored(nodes) && x in nodes
    ensures !OffChain(dependency, nodes[x]) <==> |nodes[x].succs| > 0 || (x == dependency && |nodes[x].preds| > 0)
  {
    if |nodes[x].preds| > 0 {
      assert nodes[x].preds[0] in nodes[x].preds;
    }
  }

  lemma UnlinkedKeyed(r: Nodes, nodes: Nodes, name: string)
    requires Keyed(nodes) && Unlinked(r, nodes, name)
    ensures Keyed(r)
  {
    forall x | x in r
      ensures Name(r[x]) == x
    {
      assert UnlinkedNode(r[x], nodes[x], name);
    }
  }

  /** Every edge into a node starts at a node: what `markAsOffending` needs to find the module an edge starts at. */
  ghost predicate PredsKnown(nodes: Nodes)
  {
    forall x, d | x in nodes && d in nodes[x].preds :: d.begin in nodes
  }

  /** The node `a` is the node `b` restricted to the edges between modules of `keys`. */
  ghost predicate InducedNode(a: Node, b: Node, keys: set<string>)
  {
    && a.info == b.info
    && (forall d :: d in a.succs <==> d in b.succs && d.end in keys)
    && (forall d :: d in a.preds <==> d in b.preds && d.begin in keys)
  }

  /** `r` keeps some of the nodes of `nodes` and exactly the edges between them. */
  ghost predicate Induced(r: Nodes, nodes: Nodes)
  {
    && r.Keys <= nodes.Keys
    && (forall x | x in r :: InducedNode(r[x], nodes[x], r.Keys))
  }

  lemma InducedRefl(nodes: Nodes)
    requires Mirrored(nodes)
    ensures Induced(nodes, nodes)
  {
  }

  lemma {:induction false} InducedTrans(r2: Nodes, r1: Nodes, r0: Nodes)
    requires Induced(r2, r1) && Induced(r1, r0)
    ensures Induced(r2, r0)
  {
    forall x | x in r2
      ensures InducedNode(r2[x], r0[x], r2.Keys)
    {
      assert InducedNode(r2[x], r1[x], r2.Keys);
      assert InducedNode(r1[x], r0[x], r1.Keys);
    }
  }

  /** Removing a node and the edges at it leaves the subgraph induced by the other nodes. */
  lemma UnlinkedInduced(r: Nodes, nodes: Nodes, name: string)
    requires Mirrored(nodes) && Unlinked(r, nodes, name)
    ensures Induced(r, nodes)
  {
    forall x | x in r
      ensures InducedNode(r[x], nodes[x], r.Keys)
    {
      assert UnlinkedNode(r[x], nodes[x], name);
    }
  }

  lemma InducedWithin(r: Nodes, nodes: Nodes)
    requires Induced(r, nodes)
    ensures Within(r, nodes)
  {
    forall x | x in r
      ensures x in nodes && SubNode(r[x], nodes[x])
    {
      assert InducedNode(r[x], nodes[x], r.Keys);
    }
  }

  /** `r` is a copy of `nodes`: the same modules, the same outgoing lists, and incoming lists with the same edges. */
  ghost predicate CopiedNode(a: Node, b: Node)
  {
    && a.info == b.info
    && a.succs == b.succs
    && (forall d :: d in a.preds <==> d in b.preds)
  }

  ghost predicate Copied(r: Nodes, nodes: Nodes)
  {
    && r.Keys == nodes.Keys
    && (forall x | x in r :: CopiedNode(r[x], nodes[x]))
  }

  /** A copy of a mirrored graph is mirrored, keyed the same way, and induced by all of the original's nodes. */
  lemma CopiedLaws(r: Nodes, nodes: Nodes)
    requires Mirrored(nodes) && Keyed(nodes) && Copied(r, nodes)
    ensures Mirrored(r) && Keyed(r) && Induced(r, nodes)
  {
    forall x | x in r
      ensures Name(r[x]) == x && InducedNode(r[x], nodes[x], r.Keys)
    {
      assert CopiedNode(r[x], nodes[x]);
    }
    forall x, d | x in r && d in r[x].succs
      ensures d.begin == x && d.end in r && d in r[d.end].preds
    {
      assert CopiedNode(r[x], nodes[x]);
      assert CopiedNode(r[d.end], nodes[d.end]);
    }
    forall x, d | x in r && d in r[x].preds
      ensures d.end == x && d.begin in r && d in r[d.begin].succs
    {
      assert CopiedNode(r[x], nodes[x]);
      assert CopiedNode(r[d.begin], nodes[d.begin]);
    }
  }

  /** Marking reads only which edges end at a node, so it reads the same on a copy. */
  lemma UpstreamMarkedCopied(r: Nodes, nodes: Nodes, on: set<string>, oe: set<(string, string)>, xs: set<string>)
    requires Copied(r, nodes) && UpstreamMarked(r, on, oe, xs)
    ensures UpstreamMarked(nodes, on, oe, xs)
  {
    forall x | x in xs
      ensures UpstreamMarkedAt(nodes, on, oe, x)
    {
      assert UpstreamMarkedAt(r, on, oe, x);
      assert CopiedNode(r[x], nodes[x]);
    }
  }

  /**
   * The state of `DeepCopy` while it links the edges: the nodes of `done`
   * have all their outgoing edges, the node `b` the first `k` of them, and
   * every node exactly the incoming edges among those.
   */
  ghost predicate LinkingNode(a: Node, nodes: Nodes, x: string, done: set<string>, b: string, k: nat)
    requires x in nodes && b in nodes && k <= |nodes[b].succs|
  {
    && a.info == nodes[x].info
    && a.succs == (if x in done then nodes[x].succs else if x == b then nodes[b].succs[..k] else [])
    && (forall d :: d in a.preds <==> d.end == x && ((d.begin in done && d.begin in nodes && d in nodes[d.begin].succs) || (d.begin == b && d in nodes[b].succs[..k])))
  }

  ghost predicate Linking(m: Nodes, nodes: Nodes, done: set<string>, b: string, k: nat)
  {
    && m.Keys == nodes.Keys
    && b in nodes && b !in done && k <= |nodes[b].succs|
    && (forall x | x in m :: LinkingNode(m[x], nodes, x, done, b, k))
  }

  /** The state of `DeepCopy` between two nodes: the nodes of `done` have all their outgoing edges. */
  ghost predicate LinkedNode(a: Node, nodes: Nodes, x: string, done: set<string>)
    requires x in nodes
  {
    && a.info == nodes[x].info
    && a.succs == (if x in done then nodes[x].succs else [])
    && (forall d :: d in a.preds <==> d.end == x && d.begin in done && d.begin in nodes && d in nodes[d.begin].succs)
  }

  ghost predicate Linked(m: Nodes, nodes: Nodes, done: set<string>)
  {
    && m.Keys == nodes.Keys
    && (forall x | x in m :: LinkedNode(m[x], nodes, x, done))
  }

  /** Every edge out of a node starts there and ends at a node. */
  ghost predicate SuccsKnown(nodes: Nodes)
  {
    forall x, d | x in nodes && d in nodes[x].succs :: d.begin == x && d.end in nodes
  }

  lemma LinkingStart(m: Nodes, nodes: Nodes, done: set<string>, b: string)
    requires Linked(m, nodes, done) && b in nodes && b !in done
    ensures Linking(m, nodes, done, b, 0)
  {
    forall x | x in m
      ensures LinkingNode(m[x], nodes, x, done, b, 0)
    {
      assert LinkedNode(m[x], nodes, x, done);
    }
  }

  /** Appending the next outgoing edge of `b` to `b` and to the node it ends at. */
  lemma LinkingStep(m: Nodes, m': Nodes, nodes: Nodes, done: set<string>, b: string, k: nat)
    requires SuccsKnown(nodes) && Linking(m, nodes, done, b, k) && k < |nodes[b].succs|
    requires
      var s := nodes[b].succs[k];
      var m1 := m[b := m[b].(succs := m[b].succs + [s])];
      s.end in m1 && m' == m1[s.end := m1[s.end].(preds := m1[s.end].preds + [s])]
    ensures Linking(m', nodes, done, b, k + 1)
  {
    forall x | x in m'
      ensures LinkingNode(m'[x], nodes, x, done, b, k + 1)
    {
      LinkingNodeStep(m[x], nodes, x, done, b, k);
    }
  }

  lemma LinkingNodeStep(a: Node, nodes: Nodes, x: string, done: set<string>, b: string, k: nat)
    requires SuccsKnown(nodes) && x in nodes && b in nodes && k < |nodes[b].succs|
    requires LinkingNode(a, nodes, x, done, b, k) && b !in done
    ensures
      var s := nodes[b].succs[k];
      var a1 := if x == b then a.(succs := a.succs + [s]) else a;
      var a2 := if x == s.end then a1.(preds := a1.preds + [s]) else a1;
      LinkingNode(a2, nodes, x, done, b, k + 1)
  {
    var s := nodes[b].succs[k];
    assert s in nodes[b].succs;
    assert nodes[b].succs[..k + 1] == nodes[b].succs[..k] + [s];
  }

  lemma LinkingEnd(m: Nodes, nodes: Nodes, done: set<string>, b: string)
    requires b in nodes && Linking(m, nodes, done, b, |nodes[b].succs|)
    ensures Linked(m, nodes, done + {b})
  {
    assert nodes[b].succs[..|nodes[b].succs|] == nodes[b].succs;
    forall x | x in m
      ensures LinkedNode(m[x], nodes, x, done + {b})
    {
      assert LinkingNode(m[x], nodes, x, done, b, |nodes[b].succs|);
    }
  }

  /** Once every node has its outgoing edges, a mirrored graph has been copied. */
  lemma LinkedCopied(m: Nodes, nodes: Nodes)
    requires Mirrored(nodes) && Linked(m, nodes, nodes.Keys)
    ensures Copied(m, nodes)
  {
    forall x | x in m
      ensures CopiedNode(m[x], nodes[x])
    {
      assert LinkedNode(m[x], nodes, x, nodes.Keys);
    }
  }

  /** The first loop of `DeepCopy`: every node without its edges. */
  method CopyNodes(nodes: Nodes) returns (m: Nodes)
    ensures Linked(m, nodes, {})
  {
    m := map[];
    var todo := nodes.Keys;
    while todo != {}
      invariant todo <= nodes.Keys
      invariant m.Keys == nodes.Keys - todo
      invariant forall x | x in m :: m[x] == Node(nodes[x].info, [], [])
      decreases |todo|
    {
      var x :| x in todo;
      m := m[x := Node(nodes[x].info, [], [])];
      todo := todo - {x};
    }
  }

  /** One round of the second loop of `DeepCopy`: each outgoing edge of `b`, added at both of its ends. */
  method LinkNode(nodes: Nodes, m0: Nodes, b: string, ghost done: set<string>) returns (m: Nodes)
    requires SuccsKnown(nodes) && Linked(m0, nodes, done) && b in nodes && b !in done
    ensures Linked(m, nodes, done + {b})
  {
    LinkingStart(m0, nodes, done, b);
    m := m0;
    var succs := nodes[b].succs;
    for i := 0 to |succs|
      invariant Linking(m, nodes, done, b, i)
    {
      var s := succs[i];
      assert s in nodes[b].succs;
      ghost var prev := m;
      m := m[b := m[b].(succs := m[b].succs + [s])];
      m := m[s.end := m[s.end].(preds := m[s.end].preds + [s])];
      LinkingStep(prev, m, nodes, done, b, i);
    }
    LinkingEnd(m, nodes, done, b);
  }

  /** The second loop of `DeepCopy`, over the nodes in map order. */
  method LinkAll(nodes: Nodes, m0: Nodes) returns (m: Nodes)
    requires SuccsKnown(nodes) && Linked(m0, nodes, {})
    ensures Linked(m, nodes, nodes.Keys)
  {
    m := m0;
    var todo := nodes.Keys;
    while todo != {}
      invariant todo <= nodes.Keys
      invariant Linked(m, nodes, nodes.Keys - todo)
      decreases |todo|
    {
      var b :| b in todo;
      m := LinkNode(nodes, m, b, nodes.Keys - todo);
      assert nodes.Keys - todo + {b} == nodes.Keys - (todo - {b});
      todo := todo - {b};
    }
  }

  /** The edges of `deps` that `OffendingGraph` drops when pruning: those whose version is not more recent than the target. */
  function Stale(deps: seq<Dependency>, targetVersion: string, moreRecent: (string, string) -> bool): (r: seq<Dependency>)
    ensures forall d :: d in r <==> d in deps && !moreRecent(d.version, targetVersion)
  {
    if deps == [] then []
    else
      var last := deps[|deps| - 1];
      Stale(deps[..|deps| - 1], targetVersion, moreRecent) + (if moreRecent(last.version, targetVersion) then [] else [last])
  }

  /** After cutting the stale edges into `dependency`, every edge left into it is more recent than the target. */
  lemma StaleCut(r: Nodes, nodes: Nodes, dependency: string, targetVersion: string, moreRecent: (string, string) -> bool)
    requires Mirrored(nodes) && dependency in nodes
    requires CutBy(r, nodes, Pairs(Stale(nodes[dependency].preds, targetVersion, moreRecent)))
    ensures forall d | d in r[dependency].preds :: moreRecent(d.version, targetVersion)
    ensures forall d | d in r[dependency].preds :: d in nodes[dependency].preds
  {
    var stale := Stale(nodes[dependency].preds, targetVersion, moreRecent);
    assert CutNode(r[dependency], nodes[dependency], dependency, Pairs(stale));
    forall d | d in r[dependency].preds
      ensures moreRecent(d.version, targetVersion)
    {
      assert d !in stale;
    }
  }

  lemma EdgesRemovedSnoc(nodes: Nodes, ds: seq<Dependency>, d: Dependency)
    ensures EdgesRemoved(nodes, ds + [d]) == EdgeRemoved(EdgesRemoved(nodes, ds), d.begin, d.end)
  {
    assert (ds + [d])[..|ds|] == ds;
  }

  lemma StaleSnoc(deps: seq<Dependency>, i: nat, targetVersion: string, moreRecent: (string, string) -> bool)
    requires i < |deps|
    ensures Stale(deps[..i + 1], targetVersion, moreRecent)
      == Stale(deps[..i], targetVersion, moreRecent) + (if moreRecent(deps[i].version, targetVersion) then [] else [deps[i]])
  {
    assert deps[..i + 1][..i] == deps[..i];
  }

  lemma CutOlderStep(g0: Nodes, preds: seq<Dependency>, i: nat, targetVersion: string, moreRecent: (string, string) -> bool, prev: Nodes, next: Nodes)
    requires i < |preds| && prev == EdgesRemoved(g0, Stale(preds[..i], targetVersion, moreRecent))
    requires next == if moreRecent(preds[i].version, targetVersion) then prev else EdgeRemoved(prev, preds[i].begin, preds[i].end)
    ensures next == EdgesRemoved(g0, Stale(preds[..i + 1], targetVersion, moreRecent))
  {
    var before := Stale(preds[..i], targetVersion, moreRecent);
    var after := Stale(preds[..i + 1], targetVersion, moreRecent);
    StaleSnoc(preds, i, targetVersion, moreRecent);
    if moreRecent(preds[i].version, targetVersion) {
      assert after == before;
    } else {
      assert after == before + [preds[i]];
      EdgesRemovedSnoc(g0, before, preds[i]);
    }
  }

  /**
   * A chain to `dependency` that reaches it only at its end, through edges
   * that all require a version more recent than the target.
   */
  ghost predicate NewerChainTo(nodes: Nodes, path: seq<string>, dependency: string, targetVersion: string, moreRecent: (string, string) -> bool)
  {
    && ChainTo(nodes, path, dependency)
    && (forall i | 0 <= i < |path| - 1 :: path[i] != dependency)
    && path[|path| - 2] in nodes
    && forall d | d in nodes[path[|path| - 2]].succs && d.end == dependency :: moreRecent(d.version, targetVersion)
  }

  /** Cutting the stale edges into `dependency` keeps every chain to it through more recent edges. */
  lemma CutKeepsChain(r: Nodes, nodes: Nodes, path: seq<string>, dependency: string, targetVersion: string, moreRecent: (string, string) -> bool)
    requires Mirrored(nodes) && dependency in nodes
    requires CutBy(r, nodes, Pairs(Stale(nodes[dependency].preds, targetVersion, moreRecent)))
    requires NewerChainTo(nodes, path, dependency, targetVersion, moreRecent)
    ensures ChainTo(r, path, dependency)
  {
    forall i | 0 <= i < |path| - 1
      ensures Requires(r, path[i], path[i + 1])
    {
      assert Requires(nodes, path[i], path[i + 1]);
      if path[i + 1] == dependency {
        assert i == |path| - 2;
      }
      CutKeepsLink(r, nodes, path[i], path[i + 1], dependency, targetVersion, moreRecent);
    }
  }

  /** Cutting the stale edges into `dependency` keeps an edge that does not end there, or whose every parallel edge is more recent. */
  lemma CutKeepsLink(r: Nodes, nodes: Nodes, a: string, b: string, dependency: string, targetVersion: string, moreRecent: (string, string) -> bool)
    requires Mirrored(nodes) && dependency in nodes && Requires(nodes, a, b)
    requires CutBy(r, nodes, Pairs(Stale(nodes[dependency].preds, targetVersion, moreRecent)))
    requires b == dependency ==> forall d | d in nodes[a].succs && d.end == dependency :: moreRecent(d.version, targetVersion)
    ensures Requires(r, a, b)
  {
    var stale := Stale(nodes[dependency].preds, targetVersion, moreRecent);
    var d :| d in nodes[a].succs && d.end == b;
    assert CutNode(r[a], nodes[a], a, Pairs(stale));
    forall e | e in stale
      ensures (e.begin, e.end) != (a, b)
    {
      assert e in nodes[dependency].preds;
    }
    assert d in r[a].succs;
  }

  /** A copy has the chains through more recent edges of the graph it copies. */
  lemma CopiedNewerChain(r: Nodes, nodes: Nodes, path: seq<string>, dependency: string, targetVersion: string, moreRecent: (string, string) -> bool)
    requires Copied(r, nodes) && NewerChainTo(nodes, path, dependency, targetVersion, moreRecent)
    ensures NewerChainTo(r, path, dependency, targetVersion, moreRecent)
  {
    CopiedChain(r, nodes, path, dependency);
    assert CopiedNode(r[path[|path| - 2]], nodes[path[|path| - 2]]);
  }

  /** The chains that `OffendingGraph` keeps are chains of the graph it hands to `SubGraph`. */
  lemma OffendingChain(cut: Nodes, copy: Nodes, nodes: Nodes, path: seq<string>, dependency: string, targetVersion: string, moreRecent: (string, string) -> bool, prune: bool)
    requires Mirrored(copy) && Copied(copy, nodes) && dependency in copy
    requires !prune ==> cut == copy
    requires prune ==> CutBy(cut, copy, Pairs(Stale(copy[dependency].preds, targetVersion, moreRecent)))
    requires if prune then NewerChainTo(nodes, path, dependency, targetVersion, moreRecent) else ChainTo(nodes, path, dependency)
    ensures ChainTo(cut, path, dependency)
  {
    if prune {
      CopiedNewerChain(copy, nodes, path, dependency, targetVersion, moreRecent);
      CutKeepsChain(cut, copy, path, dependency, targetVersion, moreRecent);
    } else {
      CopiedChain(copy, nodes, path, dependency);
    }
  }

  /** How the three stages of `OffendingGraph` compose: copy, then cut or mark, then the sub-graph. */
  lemma OffendingLaws(r: Nodes, cut: Nodes, copy: Nodes, nodes: Nodes, dependency: string, prune: bool)
    requires Induced(r, cut) && Induced(copy, nodes) && Copied(copy, nodes)
    requires !prune ==> cut == copy
    requires prune ==> Within(cut, copy)
    ensures Within(r, nodes)
    ensures !prune ==> Induced(r, nodes)
  {
    InducedWithin(r, cut);
    InducedWithin(copy, nodes);
    if prune {
      WithinTrans(r, cut, copy);
      WithinTrans(r, copy, nodes);
    } else {
      InducedTrans(r, copy, nodes);
      InducedWithin(r, nodes);
    }
  }

  /** In a mirrored graph, a node stays in the subgraph unless it has no successors and is not `dependency` with predecessors. */
  lemma OffChainFixpoint(nodes: Nodes, dependency: string)
    requires Mirrored(nodes) && forall x | x in nodes :: !OffChain(dependency, nodes[x])
    ensures forall x | x in nodes :: |nodes[x].succs| > 0 || (x == dependency && |nodes[x].preds| > 0)
  {
    forall x | x in nodes
      ensures |nodes[x].succs| > 0 || (x == dependency && |nodes[x].preds| > 0)
    {
      OffChainMeans(nodes, dependency, x);
    }
  }

  // ---------------------------------------------------------------------------
  // Runs of `prune`: the nodes removed, in order.

  /** The graph after `removeNode` of each name of `xs`, in order. */
  ghost function NodesRemoved(nodes: Nodes, xs: seq<string>): Nodes
    decreases |xs|
  {
    if xs == [] then nodes else NodeRemoved(NodesRemoved(nodes, xs[..|xs| - 1]), xs[|xs| - 1])
  }

  /** Each name of `xs` was a node, and prunable, in the graph at the moment it was removed. */
  ghost predicate PrunedRun(nodes: Nodes, prunable: Node -> bool, xs: seq<string>)
    decreases |xs|
  {
    xs == [] ||
      var g := NodesRemoved(nodes, xs[..|xs| - 1]);
      && PrunedRun(nodes, prunable, xs[..|xs| - 1])
      && xs[|xs| - 1] in g && prunable(g[xs[|xs| - 1]])
  }

  /** Removing one more node that is prunable when it is reached extends a run. */
  lemma PrunedRunSnoc(nodes: Nodes, prunable: Node -> bool, xs: seq<string>, x: string)
    requires PrunedRun(nodes, prunable, xs)
    requires x in NodesRemoved(nodes, xs) && prunable(NodesRemoved(nodes, xs)[x])
    ensures PrunedRun(nodes, prunable, xs + [x])
    ensures NodesRemoved(nodes, xs + [x]) == NodeRemoved(NodesRemoved(nodes, xs), x)
  {
    assert (xs + [x])[..|xs|] == xs;
  }

  /** A run on the graph that another run left is, together with it, one run. */
  lemma {:induction false} PrunedRunAppend(nodes: Nodes, prunable: Node -> bool, xs: seq<string>, ys: seq<string>)
    requires PrunedRun(nodes, prunable, xs) && PrunedRun(NodesRemoved(nodes, xs), prunable, ys)
    ensures PrunedRun(nodes, prunable, xs + ys)
    ensures NodesRemoved(nodes, xs + ys) == NodesRemoved(NodesRemoved(nodes, xs), ys)
    decreases |ys|
  {
    if ys == [] {
      assert xs + ys == xs;
    } else {
      var init := ys[..|ys| - 1];
      PrunedRunAppend(nodes, prunable, xs, init);
      assert (xs + ys)[..|xs + ys| - 1] == xs + init;
    }
  }

  /** Removing nodes one by one from a mirrored graph leaves the subgraph induced by the others, still mirrored. */
  lemma {:induction false} RemovedInduced(nodes: Nodes, xs: seq<string>)
    requires Mirrored(nodes)
    ensures Mirrored(NodesRemoved(nodes, xs)) && Induced(NodesRemoved(nodes, xs), nodes)
    decreases |xs|
  {
    if xs == [] {
      InducedRefl(nodes);
    } else {
      var g := NodesRemoved(nodes, xs[..|xs| - 1]);
      var x := xs[|xs| - 1];
      RemovedInduced(nodes, xs[..|xs| - 1]);
      if x in g {
        RemoveNodeUnlinks(g, x);
        UnlinkedInduced(NodeRemoved(g, x), g, x);
        InducedTrans(NodeRemoved(g, x), g, nodes);
      }
    }
  }

  /** The module `a` has an edge to the module `b`. */
  ghost predicate Requires(nodes: Nodes, a: string, b: string)
  {
    a in nodes && exists d | d in nodes[a].succs :: d.end == b
  }

  /** `path` is a chain of at least one edge, each to the next module, that ends at `dependency`. */
  ghost predicate ChainTo(nodes: Nodes, path: seq<string>, dependency: string)
  {
    && |path| >= 2 && path[|path| - 1] == dependency
    && forall i | 0 <= i < |path| - 1 :: Requires(nodes, path[i], path[i + 1])
  }

  /** A copy has the chains of the graph it copies. */
  lemma CopiedChain(r: Nodes, nodes: Nodes, path: seq<string>, dependency: string)
    requires Copied(r, nodes) && ChainTo(nodes, path, dependency)
    ensures ChainTo(r, path, dependency)
  {
    forall i | 0 <= i < |path| - 1
      ensures Requires(r, path[i], path[i + 1])
    {
      assert Requires(nodes, path[i], path[i + 1]);
      assert CopiedNode(r[path[i]], nodes[path[i]]);
    }
  }

  /** While every module of a chain to `dependency` is left, none of them is off the chain. */
  lemma ChainHeld(nodes: Nodes, g: Nodes, path: seq<string>, dependency: string, i: int)
    requires Mirrored(nodes) && Mirrored(g) && Induced(g, nodes) && ChainTo(nodes, path, dependency)
    requires 0 <= i < |path| && forall j | 0 <= j < |path| :: path[j] in g
    ensures !OffChain(dependency, g[path[i]])
  {
    if i < |path| - 1 {
      assert !OffChain(dependency, g[path[i]]) by {
        var a, b := path[i], path[i + 1];
        assert Requires(nodes, a, b) && a in g && b in g;
        LinkHeld(nodes, g, a, b);
      }
    } else {
      assert path[i] == dependency;
      assert !OffChain(dependency, g[dependency]) by {
        var a := path[i - 1];
        assert Requires(nodes, a, dependency) && a in g && dependency in g;
        LastLinkHeld(nodes, g, a, dependency);
      }
    }
  }

  /** An edge between two modules that are left is left: its start has a successor. */
  lemma LinkHeld(nodes: Nodes, g: Nodes, a: string, b: string)
    requires Induced(g, nodes) && Requires(nodes, a, b) && a in g && b in g
    ensures |g[a].succs| > 0
  {
    var d :| d in nodes[a].succs && d.end == b;
    assert InducedNode(g[a], nodes[a], g.Keys);
    assert d in g[a].succs;
  }

  /** An edge into `dependency` from a module that is left keeps `dependency` on the chain. */
  lemma LastLinkHeld(nodes: Nodes, g: Nodes, a: string, dependency: string)
    requires Mirrored(nodes) && Mirrored(g) && Induced(g, nodes) && Requires(nodes, a, dependency)
    requires a in g && dependency in g
    ensures !OffChain(dependency, g[dependency])
  {
    var d :| d in nodes[a].succs && d.end == dependency;
    assert d in nodes[dependency].preds;
    assert InducedNode(g[dependency], nodes[dependency], g.Keys);
    assert d in g[dependency].preds;
    OffChainMeans(g, dependency, dependency);
  }

  /** Pruning what is off the chain never removes a module of a chain to `dependency`. */
  lemma {:induction false} ChainStays(nodes: Nodes, dependency: string, prunable: Node -> bool, xs: seq<string>, path: seq<string>)
    requires Mirrored(nodes) && ChainTo(nodes, path, dependency)
    requires forall n :: prunable(n) ==> OffChain(dependency, n)
    requires PrunedRun(nodes, prunable, xs)
    ensures forall i | 0 <= i < |path| :: path[i] in NodesRemoved(nodes, xs)
    decreases |xs|
  {
    if xs == [] {
      forall i | 0 <= i < |path|
        ensures path[i] in nodes
      {
        var k := if i < |path| - 1 then i else i - 1;
        assert Requires(nodes, path[k], path[k + 1]);
      }
    } else {
      var ys := xs[..|xs| - 1];
      var z := xs[|xs| - 1];
      var g := NodesRemoved(nodes, ys);
      ChainStays(nodes, dependency, prunable, ys, path);
      RemovedInduced(nodes, ys);
      forall i | 0 <= i < |path|
        ensures path[i] != z
      {
        ChainHeld(nodes, g, path, dependency, i);
      }
      RemoveNodeUnlinks(g, z);
    }
  }

  /** Every edge into `x` is marked offending, and so is the module it starts at. */
  ghost predicate UpstreamMarkedAt(nodes: Nodes, on: set<string>, oe: set<(string, string)>, x: string)
  {
    x in nodes && forall d | d in nodes[x].preds :: (d.begin, d.end) in oe && d.begin in on
  }

  ghost predicate UpstreamMarked(nodes: Nodes, on: set<string>, oe: set<(string, string)>, xs: set<string>)
  {
    forall x | x in xs :: UpstreamMarkedAt(nodes, on, oe, x)
  }

  /** A set of modules that holds the module each edge into one of them starts at. */
  ghost predicate UpClosed(nodes: Nodes, s: set<string>)
  {
    forall y, d | y in s && y in nodes && d in nodes[y].preds :: d.begin in s
  }

  /** `e` is the (begin, end) pair of an edge into one of the modules `xs`. */
  ghost predicate EdgeInto(nodes: Nodes, xs: set<string>, e: (string, string))
  {
    exists y | y in xs && y in nodes :: e in Pairs(nodes[y].preds)
  }

  /** What was marked since `on0`, `on`, lies in every upward-closed set holding all of `xs`. */
  ghost predicate MarkedAbove(nodes: Nodes, xs: set<string>, on0: set<string>, on: set<string>)
  {
    forall s | UpClosed(nodes, s) && xs <= s :: on - on0 <= s
  }

  /** Each edge marked since `oe0` is one of the edges `first` or an edge into a module marked since `on0`. */
  ghost predicate MarkedEdges(nodes: Nodes, first: set<(string, string)>, on0: set<string>, oe0: set<(string, string)>, on: set<string>, oe: set<(string, string)>)
  {
    forall e | e in oe - oe0 :: e in first || EdgeInto(nodes, on - on0, e)
  }

  /** The modules the edges of `ds` newer than the target start at. */
  ghost function NewerBegins(ds: seq<Dependency>, targetVersion: string, moreRecent: (string, string) -> bool): set<string>
  {
    set d | d in ds && moreRecent(d.version, targetVersion) :: d.begin
  }

  /** The (begin, end) pairs of the edges of `ds` newer than the target. */
  ghost function NewerPairs(ds: seq<Dependency>, targetVersion: string, moreRecent: (string, string) -> bool): set<(string, string)>
  {
    set d | d in ds && moreRecent(d.version, targetVersion) :: (d.begin, d.end)
  }

  /** Two rounds of marking, from `xs` and then from `ys`, mark what lies above `xs` and `ys` together. */
  lemma MarkedAboveJoin(nodes: Nodes, xs: set<string>, ys: set<string>, on0: set<string>, on1: set<string>, on2: set<string>)
    requires MarkedAbove(nodes, xs, on0, on1) && MarkedAbove(nodes, ys, on1, on2)
    ensures MarkedAbove(nodes, xs + ys, on0, on2)
  {
    forall s | UpClosed(nodes, s) && xs + ys <= s
      ensures on2 - on0 <= s
    {
      assert on1 - on0 <= s && on2 - on1 <= s;
    }
  }

  /** A step of the marking loop of `OffendingGraph`: the rounds so far, then the round from `p`. */
  lemma MarkedJoin(nodes: Nodes, xs: set<string>, fs: set<(string, string)>, p: Dependency,
                   on0: set<string>, oe0: set<(string, string)>, on1: set<string>, oe1: set<(string, string)>,
                   on2: set<string>, oe2: set<(string, string)>)
    requires on0 <= on1 <= on2
    requires MarkedAbove(nodes, xs, on0, on1) && MarkedAbove(nodes, {p.begin}, on1, on2)
    requires MarkedEdges(nodes, fs, on0, oe0, on1, oe1) && MarkedEdges(nodes, {(p.begin, p.end)}, on1, oe1, on2, oe2)
    ensures MarkedAbove(nodes, xs + {p.begin}, on0, on2)
    ensures MarkedEdges(nodes, fs + {(p.begin, p.end)}, on0, oe0, on2, oe2)
  {
    MarkedAboveJoin(nodes, xs, {p.begin}, on0, on1, on2);
    MarkedEdgesJoin(nodes, fs, {(p.begin, p.end)}, on0, oe0, on1, oe1, on2, oe2);
  }

  /**
   * Marking from the modules `xs` and the edges `fs` took the marks from
   * `on0` and `oe0` to `on` and `oe`: those are marked, every edge into a
   * newly marked module is marked and so is the module it starts at, and
   * nothing else was marked.
   */
  ghost predicate MarkedFrom(nodes: Nodes, xs: set<string>, fs: set<(string, string)>,
                             on0: set<string>, oe0: set<(string, string)>, on: set<string>, oe: set<(string, string)>)
  {
    && on0 <= on && oe0 <= oe && xs <= on && fs <= oe
    && UpstreamMarked(nodes, on, oe, on - on0)
    && MarkedAbove(nodes, xs, on0, on)
    && MarkedEdges(nodes, fs, on0, oe0, on, oe)
  }

  /** A step of the marking loop of `OffendingGraph`: the marking so far, then `markAsOffending` for `p`. */
  lemma MarkedFromStep(nodes: Nodes, xs: set<string>, fs: set<(string, string)>, p: Dependency,
                       on0: set<string>, oe0: set<(string, string)>, on1: set<string>, oe1: set<(string, string)>,
                       on2: set<string>, oe2: set<(string, string)>)
    requires MarkedFrom(nodes, xs, fs, on0, oe0, on1, oe1)
    requires on1 + {p.begin} <= on2 && oe1 + {(p.begin, p.end)} <= oe2
    requires UpstreamMarked(nodes, on2, oe2, on2 - on1)
    requires MarkedAbove(nodes, {p.begin}, on1, on2) && MarkedEdges(nodes, {(p.begin, p.end)}, on1, oe1, on2, oe2)
    ensures MarkedFrom(nodes, xs + {p.begin}, fs + {(p.begin, p.end)}, on0, oe0, on2, oe2)
  {
    UpstreamMarkedMore(nodes, on1, oe1, on2, oe2, on1 - on0);
    assert on2 - on0 == (on1 - on0) + (on2 - on1);
    MarkedJoin(nodes, xs, fs, p, on0, oe0, on1, oe1, on2, oe2);
  }

  lemma NewerSnoc(ds: seq<Dependency>, i: int, targetVersion: string, moreRecent: (string, string) -> bool)
    requires 0 <= i < |ds|
    ensures NewerBegins(ds[..i + 1], targetVersion, moreRecent) ==
      NewerBegins(ds[..i], targetVersion, moreRecent) + (if moreRecent(ds[i].version, targetVersion) then {ds[i].begin} else {})
    ensures NewerPairs(ds[..i + 1], targetVersion, moreRecent) ==
      NewerPairs(ds[..i], targetVersion, moreRecent) + (if moreRecent(ds[i].version, targetVersion) then {(ds[i].begin, ds[i].end)} else {})
  {
    assert ds[..i + 1] == ds[..i] + [ds[i]];
  }

  lemma MarkedAboveWider(nodes: Nodes, xs: set<string>, ys: set<string>, on0: set<string>, on: set<string>)
    requires MarkedAbove(nodes, xs, on0, on) && xs <= ys
    ensures MarkedAbove(nodes, ys, on0, on)
  {
  }

  /** Two rounds of marking mark the first edges of either, and edges into what either marked. */
  lemma MarkedEdgesJoin(nodes: Nodes, f1: set<(string, string)>, f2: set<(string, string)>,
                        on0: set<string>, oe0: set<(string, string)>, on1: set<string>, oe1: set<(string, string)>,
                        on2: set<string>, oe2: set<(string, string)>)
    requires on0 <= on1 <= on2
    requires MarkedEdges(nodes, f1, on0, oe0, on1, oe1) && MarkedEdges(nodes, f2, on1, oe1, on2, oe2)
    ensures MarkedEdges(nodes, f1 + f2, on0, oe0, on2, oe2)
  {
    forall e | e in oe2 - oe0 && e !in f1 + f2
      ensures EdgeInto(nodes, on2 - on0, e)
    {
      if e in oe1 - oe0 {
        EdgeIntoMore(nodes, on1 - on0, on2 - on0, e);
      } else {
        EdgeIntoMore(nodes, on2 - on1, on2 - on0, e);
      }
    }
  }

  lemma MarkedEdgesWider(nodes: Nodes, f1: set<(string, string)>, f2: set<(string, string)>,
                         on0: set<string>, oe0: set<(string, string)>, on: set<string>, oe: set<(string, string)>)
    requires MarkedEdges(nodes, f1, on0, oe0, on, oe) && f1 <= f2
    ensures MarkedEdges(nodes, f2, on0, oe0, on, oe)
  {
  }

  /** Marks read the same on a copy: which edges end at a module is all they read. */
  lemma MarkedCopied(r: Nodes, nodes: Nodes, xs: set<string>, fs: set<(string, string)>,
                     on0: set<string>, oe0: set<(string, string)>, on: set<string>, oe: set<(string, string)>)
    requires Copied(r, nodes)
    requires MarkedAbove(r, xs, on0, on) && MarkedEdges(r, fs, on0, oe0, on, oe)
    ensures MarkedAbove(nodes, xs, on0, on) && MarkedEdges(nodes, fs, on0, oe0, on, oe)
  {
    forall s | UpClosed(nodes, s) && xs <= s
      ensures on - on0 <= s
    {
      forall y, d | y in s && y in r && d in r[y].preds
        ensures d.begin in s
      {
        assert CopiedNode(r[y], nodes[y]);
      }
    }
    forall e | e in oe - oe0 && e !in fs
      ensures EdgeInto(nodes, on - on0, e)
    {
      var y :| y in on - on0 && y in r && e in Pairs(r[y].preds);
      assert CopiedNode(r[y], nodes[y]);
      var d :| d in r[y].preds && e == (d.begin, d.end);
      assert e in Pairs(nodes[y].preds);
    }
  }

  /** What marking from the newer edges into `dependency` marked on a copy, it marked on the original. */
  lemma NewerMarkedCopied(r: Nodes, nodes: Nodes, dependency: string, targetVersion: string, moreRecent: (string, string) -> bool,
                          on0: set<string>, oe0: set<(string, string)>, on: set<string>, oe: set<(string, string)>)
    requires Copied(r, nodes) && dependency in r
    requires MarkedAbove(r, NewerBegins(r[dependency].preds, targetVersion, moreRecent), on0, on)
    requires MarkedEdges(r, NewerPairs(r[dependency].preds, targetVersion, moreRecent), on0, oe0, on, oe)
    ensures MarkedAbove(nodes, NewerBegins(nodes[dependency].preds, targetVersion, moreRecent), on0, on)
    ensures MarkedEdges(nodes, NewerPairs(nodes[dependency].preds, targetVersion, moreRecent), on0, oe0, on, oe)
  {
    assert CopiedNode(r[dependency], nodes[dependency]);
    assert NewerBegins(r[dependency].preds, targetVersion, moreRecent) == NewerBegins(nodes[dependency].preds, targetVersion, moreRecent);
    assert NewerPairs(r[dependency].preds, targetVersion, moreRecent) == NewerPairs(nodes[dependency].preds, targetVersion, moreRecent);
    MarkedCopied(r, nodes, NewerBegins(nodes[dependency].preds, targetVersion, moreRecent), NewerPairs(nodes[dependency].preds, targetVersion, moreRecent), on0, oe0, on, oe);
  }

  lemma EdgeIntoMore(nodes: Nodes, xs: set<string>, ys: set<string>, e: (string, string))
    requires EdgeInto(nodes, xs, e) && xs <= ys
    ensures EdgeInto(nodes, ys, e)
  {
    var y :| y in xs && y in nodes && e in Pairs(nodes[y].preds);
    assert y in ys;
  }

  lemma UpstreamMarkedMore(nodes: Nodes, on: set<string>, oe: set<(string, string)>, on': set<string>, oe': set<(string, string)>, xs: set<string>)
    requires UpstreamMarked(nodes, on, oe, xs) && on <= on' && oe <= oe'
    ensures UpstreamMarked(nodes, on', oe', xs)
  {
    forall x | x in xs
      ensures UpstreamMarkedAt(nodes, on', oe', x)
    {
      assert UpstreamMarkedAt(nodes, on, oe, x);
    }
  }

  /** A step of `markAsOffending`: what the call for an edge into `x` marks lies in every upward-closed set holding `x`. */
  lemma MarkedBelow(nodes: Nodes, x: string, p: Dependency, on0: set<string>, on1: set<string>, on2: set<string>)
    requires x in nodes && p in nodes[x].preds && on1 <= on2
    requires MarkedAbove(nodes, {x}, on0, on1) && MarkedAbove(nodes, {p.begin}, on1, on2)
    ensures MarkedAbove(nodes, {x}, on0, on2)
  {
    forall s | UpClosed(nodes, s) && {x} <= s
      ensures on2 - on0 <= s
    {
      assert p.begin in s;
      assert on2 - on1 <= s && on1 - on0 <= s;
    }
  }

  /** A step of `markAsOffending`: the edges the call for `p` marks are `p` or into a module marked since `on0`. */
  lemma MarkedEdgesInto(nodes: Nodes, dep: Dependency, p: Dependency, on0: set<string>, oe0: set<(string, string)>,
                        on1: set<string>, oe1: set<(string, string)>, on2: set<string>, oe2: set<(string, string)>)
    requires dep.begin in nodes && p in nodes[dep.begin].preds && dep.begin !in on0
    requires on0 + {dep.begin} <= on1 <= on2 && oe1 <= oe2
    requires MarkedEdges(nodes, {(dep.begin, dep.end)}, on0, oe0, on1, oe1)
    requires MarkedEdges(nodes, {(p.begin, p.end)}, on1, oe1, on2, oe2)
    ensures MarkedEdges(nodes, {(dep.begin, dep.end)}, on0, oe0, on2, oe2)
  {
    forall e | e in oe2 - oe0 && e != (dep.begin, dep.end)
      ensures EdgeInto(nodes, on2 - on0, e)
    {
      if e in oe1 {
        EdgeIntoMore(nodes, on1 - on0, on2 - on0, e);
      } else if e == (p.begin, p.end) {
        assert e in Pairs(nodes[dep.begin].preds) && dep.begin in on2 - on0;
      } else {
        EdgeIntoMore(nodes, on2 - on1, on2 - on0, e);
      }
    }
  }

  /** `DepGraph`: the module the graph is for, its nodes by name, and which nodes and edges are marked offending. */
  class DepGraph {
    var moduleName: string
    var nodes: Nodes
    var offendingNodes: set<string>
    var offendingEdges: set<(string, string)>

    ghost predicate Valid()
      reads this
    {
      Mirrored(nodes) && Keyed(nodes)
    }

    /** `NewGraph`: no module name yet and no nodes. */
    constructor ()
      ensures Valid() && moduleName == "" && nodes == map[] && offendingNodes == {} && offendingEdges == {}
    {
      moduleName := "";
      nodes := map[];
      offendingNodes := {};
      offendingEdges := {};
    }

    /** The graph that `SubGraph` and `OffendingGraph` return for an unknown dependency: the same module name, no nodes. */
    constructor Empty(moduleName: string)
      ensures Valid() && this.moduleName == moduleName && nodes == map[] && offendingNodes == {} && offendingEdges == {}
    {
      this.moduleName := moduleName;
      nodes := map[];
      offendingNodes := {};
      offendingEdges := {};
    }

    /** `Nodes`: every node once, in map order. */
    method Nodes() returns (r: seq<Node>)
      requires Valid()
      ensures |r| == |nodes|
      ensures forall i | 0 <= i < |r| :: Name(r[i]) in nodes && nodes[Name(r[i])] == r[i]
      ensures forall x | x in nodes :: nodes[x] in r
    {
      r := [];
      var todo := nodes.Keys;
      while todo != {}
        invariant todo <= nodes.Keys
        invariant |r| + |todo| == |nodes|
        invariant forall i | 0 <= i < |r| :: Name(r[i]) in nodes && nodes[Name(r[i])] == r[i] && Name(r[i]) !in todo
        invariant forall x | x in nodes && x !in todo :: nodes[x] in r
        decreases |todo|
      {
        var x :| x in todo;
        r := r + [nodes[x]];
        todo := todo - {x};
      }
    }

    /** `removeEdge`: every edge from `start` to `end` leaves both lists; an unknown end changes nothing. */
    method RemoveEdge(start: string, end: string)
      requires Valid()
      modifies this
      ensures Valid()
      ensures nodes == EdgeRemoved(old(nodes), start, end)
      ensures moduleName == old(moduleName) && offendingNodes == old(offendingNodes) && offendingEdges == old(offendingEdges)
    {
      ghost var g0 := nodes;
      RemoveEdgeMirrored(nodes, start, end);
      if start !in nodes || end !in nodes {
        return;
      }
      RemoveEdgeLaws(nodes, start, end);
      var startNode := nodes[start];
      var newSuccs := KeepEdges(startNode.succs, EndAt(end));
      nodes := nodes[start := startNode.(succs := newSuccs)];
      var endNode := nodes[end];
      var newPreds := KeepEdges(endNode.preds, BeginAt(start));
      nodes := nodes[end := endNode.(preds := newPreds)];
      assert nodes == EdgeRemoved(g0, start, end);
      forall x | x in nodes
        ensures Name(nodes[x]) == x
      {
        assert CutNode(nodes[x], g0[x], x, {(start, end)});
      }
    }

    /** `removeNode`: drop every edge of the node, outgoing then incoming, then the node; an unknown name changes nothing. */
    method RemoveNode(name: string)
      requires Valid()
      modifies this
      ensures Valid()
      ensures nodes == NodeRemoved(old(nodes), name)
      ensures name in old(nodes) ==> Unlinked(nodes, old(nodes), name)
      ensures moduleName == old(moduleName) && offendingNodes == old(offendingNodes) && offendingEdges == old(offendingEdges)
    {
      if name !in nodes {
        return;
      }
      ghost var g0 := nodes;
      RemoveNodeUnlinks(g0, name);
      var node := nodes[name];
      RemoveEdges(node.succs);
      RemoveEdges(node.preds);
      nodes := nodes - {name};
      assert nodes == NodeRemoved(g0, name);
      UnlinkedKeyed(nodes, g0, name);
    }

    /** The loops of `removeNode`: `removeEdge` for each edge of `ds` in turn. */
    method RemoveEdges(ds: seq<Dependency>)
      requires Valid()
      modifies this
      ensures Valid()
      ensures nodes == EdgesRemoved(old(nodes), ds)
      ensures moduleName == old(moduleName) && offendingNodes == old(offendingNodes) && offendingEdges == old(offendingEdges)
    {
      for i := 0 to |ds|
        invariant Valid()
        invariant nodes == EdgesRemoved(old(nodes), ds[..i])
        invariant moduleName == old(moduleName) && offendingNodes == old(offendingNodes) && offendingEdges == old(offendingEdges)
      {
        assert ds[..i + 1][..i] == ds[..i];
        RemoveEdge(ds[i].begin, ds[i].end);
      }
      assert ds[..|ds|] == ds;
    }

    /**
     * `markAsOffending`: mark the edge and the module it starts at, and, the
     * first time that module is marked, every edge into it in turn.
     */
    method MarkAsOffending(dep: Dependency)
      requires PredsKnown(nodes) && dep.begin in nodes
      modifies this
      decreases |nodes.Keys - offendingNodes|
      ensures nodes == old(nodes) && moduleName == old(moduleName)
      ensures old(offendingNodes) + {dep.begin} <= offendingNodes && old(offendingEdges) + {(dep.begin, dep.end)} <= offendingEdges
      ensures offendingNodes <= old(offendingNodes) + nodes.Keys
      ensures UpstreamMarked(nodes, offendingNodes, offendingEdges, offendingNodes - old(offendingNodes))
      ensures MarkedAbove(nodes, {dep.begin}, old(offendingNodes), offendingNodes)
      ensures MarkedEdges(nodes, {(dep.begin, dep.end)}, old(offendingNodes), old(offendingEdges), offendingNodes, offendingEdges)
    {
      offendingEdges := offendingEdges + {(dep.begin, dep.end)};
      if dep.begin in offendingNodes {
        return;
      }
      ghost var on0, oe0 := old(offendingNodes), old(offendingEdges);
      offendingNodes := offendingNodes + {dep.begin};
      var preds := nodes[dep.begin].preds;
      for i := 0 to |preds|
        invariant nodes == old(nodes) && moduleName == old(moduleName)
        invariant on0 + {dep.begin} <= offendingNodes <= on0 + nodes.Keys
        invariant oe0 + {(dep.begin, dep.end)} <= offendingEdges
        invariant forall j | 0 <= j < i :: preds[j].begin in offendingNodes
        invariant forall j | 0 <= j < i :: (preds[j].begin, preds[j].end) in offendingEdges
        invariant UpstreamMarked(nodes, offendingNodes, offendingEdges, offendingNodes - on0 - {dep.begin})
        invariant MarkedAbove(nodes, {dep.begin}, on0, offendingNodes)
        invariant MarkedEdges(nodes, {(dep.begin, dep.end)}, on0, oe0, offendingNodes, offendingEdges)
      {
        assert preds[i] in nodes[dep.begin].preds;
        Graph.ProperSubsetSize(nodes.Keys - offendingNodes, nodes.Keys - on0, dep.begin);
        ghost var on1, oe1 := offendingNodes, offendingEdges;
        MarkAsOffending(preds[i]);
        assert on1 <= offendingNodes && oe1 <= offendingEdges;
        UpstreamMarkedMore(nodes, on1, oe1, offendingNodes, offendingEdges, on1 - on0 - {dep.begin});
        MarkedBelow(nodes, dep.begin, preds[i], on0, on1, offendingNodes);
        MarkedEdgesInto(nodes, dep, preds[i], on0, oe0, on1, oe1, offendingNodes, offendingEdges);
      }
      assert UpstreamMarkedAt(nodes, offendingNodes, offendingEdges, dep.begin);
    }

    /**
     * `DeepCopy`: a new graph with the same module name, copies of the nodes
     * and their marks, and the edges linked again node by node.
     */
    method DeepCopy() returns (g: DepGraph)
      requires Valid()
      ensures fresh(g) && g.Valid()
      ensures g.moduleName == moduleName && g.offendingNodes == offendingNodes && g.offendingEdges == offendingEdges
      ensures Copied(g.nodes, nodes) && Induced(g.nodes, nodes)
    {
      var m := CopyNodes(nodes);
      m := LinkAll(nodes, m);
      LinkedCopied(m, nodes);
      CopiedLaws(m, nodes);
      g := new DepGraph.Empty(moduleName);
      g.nodes := m;
      g.offendingNodes := offendingNodes;
      g.offendingEdges := offendingEdges;
    }

    /**
     * One pass of the outer loop of `prune`: remove, in map order, each node
     * that is prunable when it is reached. `run` lists the nodes removed, in
     * order.
     */
    method PrunePass(prunable: Node -> bool) returns (removed: bool, ghost run: seq<string>)
      requires Valid()
      modifies this
      ensures Valid() && Induced(nodes, old(nodes))
      ensures nodes == NodesRemoved(old(nodes), run) && PrunedRun(old(nodes), prunable, run)
      ensures moduleName == old(moduleName) && offendingNodes == old(offendingNodes) && offendingEdges == old(offendingEdges)
      ensures removed <==> run != []
      ensures !removed ==> nodes == old(nodes) && forall x | x in nodes :: !prunable(nodes[x])
      ensures removed ==> |nodes| < |old(nodes)|
    {
      InducedRefl(nodes);
      removed := false;
      run := [];
      var todo := nodes.Keys;
      while todo != {}
        invariant Valid() && Induced(nodes, old(nodes))
        invariant nodes == NodesRemoved(old(nodes), run) && PrunedRun(old(nodes), prunable, run)
        invariant moduleName == old(moduleName) && offendingNodes == old(offendingNodes) && offendingEdges == old(offendingEdges)
        invariant removed <==> run != []
        invariant !removed ==> nodes == old(nodes) && forall x | x in nodes && x !in todo :: !prunable(nodes[x])
        invariant removed ==> |nodes| < |old(nodes)|
        decreases |todo|
      {
        var x :| x in todo;
        todo := todo - {x};
        if x in nodes && prunable(nodes[x]) {
          removed := true;
          ghost var prev := nodes;
          PrunedRunSnoc(old(nodes), prunable, run, x);
          RemoveNode(x);
          run := run + [x];
          UnlinkedInduced(nodes, prev, x);
          InducedTrans(nodes, prev, old(nodes));
          Graph.ProperSubsetSize(nodes.Keys, prev.Keys, x);
        }
      }
    }

    /**
     * `prune`: on a copy, repeat passes until one removes nothing. The copy
     * is `copy`; `run` lists the nodes removed from it, each prunable when it
     * was removed.
     */
    method Prune(prunable: Node -> bool) returns (p: DepGraph, ghost copy: Nodes, ghost run: seq<string>)
      requires Valid()
      ensures fresh(p) && p.Valid() && Induced(p.nodes, nodes)
      ensures Mirrored(copy) && Copied(copy, nodes) && p.nodes == NodesRemoved(copy, run) && PrunedRun(copy, prunable, run)
      ensures p.moduleName == moduleName && p.offendingNodes == offendingNodes && p.offendingEdges == offendingEdges
      ensures forall x | x in p.nodes :: !prunable(p.nodes[x])
    {
      p := DeepCopy();
      copy := p.nodes;
      run := p.PruneLoop(prunable);
      InducedTrans(p.nodes, copy, nodes);
    }

    /** The outer loop of `prune`, on the graph being pruned; `run` lists the nodes removed, in order. */
    method PruneLoop(prunable: Node -> bool) returns (ghost run: seq<string>)
      requires Valid()
      modifies this
      ensures Valid() && Induced(nodes, old(nodes))
      ensures nodes == NodesRemoved(old(nodes), run) && PrunedRun(old(nodes), prunable, run)
      ensures moduleName == old(moduleName) && offendingNodes == old(offendingNodes) && offendingEdges == old(offendingEdges)
      ensures forall x | x in nodes :: !prunable(nodes[x])
    {
      InducedRefl(nodes);
      run := [];
      var done := false;
      while !done
        invariant Valid() && Induced(nodes, old(nodes))
        invariant nodes == NodesRemoved(old(nodes), run) && PrunedRun(old(nodes), prunable, run)
        invariant moduleName == old(moduleName) && offendingNodes == old(offendingNodes) && offendingEdges == old(offendingEdges)
        invariant done ==> forall x | x in nodes :: !prunable(nodes[x])
        decreases |nodes| + (if done then 0 else 1)
      {
        ghost var prev := nodes;
        var removed;
        ghost var pass;
        removed, pass := PrunePass(prunable);
        InducedTrans(nodes, prev, old(nodes));
        PrunedRunAppend(old(nodes), prunable, run, pass);
        run := run + pass;
        done := !removed;
      }
    }

    /**
     * `PruneUnsharedDeps`: what is left is an induced subgraph in which every
     * module has dependencies or at least two dependents; each module removed
     * had neither when it was removed.
     */
    method PruneUnsharedDeps() returns (p: DepGraph, ghost copy: Nodes, ghost run: seq<string>)
      requires Valid()
      ensures fresh(p) && p.Valid() && Induced(p.nodes, nodes)
      ensures Mirrored(copy) && Copied(copy, nodes) && p.nodes == NodesRemoved(copy, run) && PrunedRun(copy, Unshared, run)
      ensures p.moduleName == moduleName && p.offendingNodes == offendingNodes && p.offendingEdges == offendingEdges
      ensures forall x | x in p.nodes :: |p.nodes[x].succs| > 0 || |p.nodes[x].preds| >= 2
    {
      p, copy, run := Prune(Unshared);
    }

    /**
     * `SubGraph`: for an unknown module, an empty graph; otherwise an induced
     * subgraph in which every module has dependencies, except the module
     * itself, which has dependents. Each module removed was off the chain
     * when it was removed, and every module of a chain to `dependency` stays.
     */
    method SubGraph(dependency: string) returns (p: DepGraph, ghost copy: Nodes, ghost run: seq<string>)
      requires Valid()
      ensures fresh(p) && p.Valid() && p.moduleName == moduleName
      ensures dependency !in nodes ==> p.nodes == map[] && p.offendingNodes == {} && p.offendingEdges == {}
      ensures dependency in nodes ==> Induced(p.nodes, nodes) && p.offendingNodes == offendingNodes && p.offendingEdges == offendingEdges
      ensures dependency in nodes ==>
        && Mirrored(copy) && Copied(copy, nodes) && p.nodes == NodesRemoved(copy, run)
        && PrunedRun(copy, n => OffChain(dependency, n), run)
      ensures forall x | x in p.nodes :: |p.nodes[x].succs| > 0 || (x == dependency && |p.nodes[x].preds| > 0)
      ensures dependency in nodes ==> forall path, i | ChainTo(nodes, path, dependency) && 0 <= i < |path| :: path[i] in p.nodes
    {
      if dependency !in nodes {
        p := new DepGraph.Empty(moduleName);
        return p, map[], [];
      }
      var offChain := n => OffChain(dependency, n);
      p, copy, run := Prune(offChain);
      OffChainFixpoint(p.nodes, dependency);
      forall path, i | ChainTo(nodes, path, dependency) && 0 <= i < |path|
        ensures path[i] in p.nodes
      {
        CopiedChain(copy, nodes, path, dependency);
        ChainStays(copy, dependency, offChain, run, path);
      }
    }

    /**
     * `OffendingGraph`: on a copy, either mark each edge into `dependency`
     * whose version is more recent than the target, with everything upstream
     * of it, or, when pruning, cut each edge whose version is not; then the
     * sub-graph for `dependency`. An unknown module gives an empty graph.
     */
    method OffendingGraph(dependency: string, targetVersion: string, prune: bool, moreRecent: (string, string) -> bool) returns (r: DepGraph)
      requires Valid()
      ensures fresh(r) && r.Valid() && r.moduleName == moduleName
      ensures dependency !in nodes ==> r.nodes == map[] && r.offendingNodes == {} && r.offendingEdges == {}
      ensures forall x | x in r.nodes :: |r.nodes[x].succs| > 0 || (x == dependency && |r.nodes[x].preds| > 0)
      ensures Within(r.nodes, nodes)
      ensures dependency in nodes && prune ==>
        && r.offendingNodes == offendingNodes && r.offendingEdges == offendingEdges
        && (dependency in r.nodes ==> forall d | d in r.nodes[dependency].preds :: d in nodes[dependency].preds && moreRecent(d.version, targetVersion))
      ensures dependency in nodes && !prune ==>
        && Induced(r.nodes, nodes)
        && offendingNodes <= r.offendingNodes && offendingEdges <= r.offendingEdges
        && (forall d | d in nodes[dependency].preds && moreRecent(d.version, targetVersion) :: (d.begin, d.end) in r.offendingEdges && d.begin in r.offendingNodes)
        && UpstreamMarked(nodes, r.offendingNodes, r.offendingEdges, r.offendingNodes - offendingNodes)
        && MarkedAbove(nodes, NewerBegins(nodes[dependency].preds, targetVersion, moreRecent), offendingNodes, r.offendingNodes)
        && MarkedEdges(nodes, NewerPairs(nodes[dependency].preds, targetVersion, moreRecent), offendingNodes, offendingEdges, r.offendingNodes, r.offendingEdges)
      ensures dependency in nodes && !prune ==>
        forall path, i | ChainTo(nodes, path, dependency) && 0 <= i < |path| :: path[i] in r.nodes
      ensures dependency in nodes && prune ==>
        forall path, i | NewerChainTo(nodes, path, dependency, targetVersion, moreRecent) && 0 <= i < |path| :: path[i] in r.nodes
    {
      if dependency !in nodes {
        r := new DepGraph.Empty(moduleName);
        return;
      }
      var c := DeepCopy();
      ghost var copy := c.nodes;
      if prune {
        c.CutOlder(dependency, targetVersion, moreRecent);
        StaleCut(c.nodes, copy, dependency, targetVersion, moreRecent);
        CutWithin(c.nodes, copy, Pairs(Stale(copy[dependency].preds, targetVersion, moreRecent)));
      } else {
        c.MarkNewer(dependency, targetVersion, moreRecent);
        UpstreamMarkedCopied(copy, nodes, c.offendingNodes, c.offendingEdges, c.offendingNodes - offendingNodes);
        NewerMarkedCopied(copy, nodes, dependency, targetVersion, moreRecent, offendingNodes, offendingEdges, c.offendingNodes, c.offendingEdges);
      }
      ghost var cut := c.nodes;
      forall path | if prune then NewerChainTo(nodes, path, dependency, targetVersion, moreRecent) else ChainTo(nodes, path, dependency)
        ensures ChainTo(cut, path, dependency)
      {
        OffendingChain(cut, copy, nodes, path, dependency, targetVersion, moreRecent, prune);
      }
      ghost var subCopy, subRun;
      r, subCopy, subRun := c.SubGraph(dependency);
      OffendingLaws(r.nodes, cut, copy, nodes, dependency, prune);
    }

    /** The loop of `OffendingGraph` when pruning: cut every edge into `dependency` from a module that requires a version not more recent than the target. */
    method CutOlder(dependency: string, targetVersion: string, moreRecent: (string, string) -> bool)
      requires Valid() && dependency in nodes
      modifies this
      ensures Valid() && dependency in nodes
      ensures CutBy(nodes, old(nodes), Pairs(Stale(old(nodes)[dependency].preds, targetVersion, moreRecent)))
      ensures moduleName == old(moduleName) && offendingNodes == old(offendingNodes) && offendingEdges == old(offendingEdges)
    {
      var preds := nodes[dependency].preds;
      for i := 0 to |preds|
        invariant Valid()
        invariant nodes == EdgesRemoved(old(nodes), Stale(preds[..i], targetVersion, moreRecent))
        invariant moduleName == old(moduleName) && offendingNodes == old(offendingNodes) && offendingEdges == old(offendingEdges)
      {
        ghost var prev := nodes;
        if !moreRecent(preds[i].version, targetVersion) {
          RemoveEdge(preds[i].begin, preds[i].end);
        }
        CutOlderStep(old(nodes), preds, i, targetVersion, moreRecent, prev, nodes);
      }
      assert preds[..|preds|] == preds;
      RemoveEdgesLaws(old(nodes), Stale(preds, targetVersion, moreRecent));
    }

    /** The loop of `OffendingGraph` when marking: mark every edge into `dependency` from a module that requires a version more recent than the target. */
    method MarkNewer(dependency: string, targetVersion: string, moreRecent: (string, string) -> bool)
      requires Valid() && dependency in nodes
      modifies this
      ensures Valid() && nodes == old(nodes) && moduleName == old(moduleName)
      ensures old(offendingNodes) <= offendingNodes && old(offendingEdges) <= offendingEdges
      ensures forall d | d in nodes[dependency].preds && moreRecent(d.version, targetVersion) :: (d.begin, d.end) in offendingEdges && d.begin in offendingNodes
      ensures UpstreamMarked(nodes, offendingNodes, offendingEdges, offendingNodes - old(offendingNodes))
      ensures MarkedAbove(nodes, NewerBegins(nodes[dependency].preds, targetVersion, moreRecent), old(offendingNodes), offendingNodes)
      ensures MarkedEdges(nodes, NewerPairs(nodes[dependency].preds, targetVersion, moreRecent), old(offendingNodes), old(offendingEdges), offendingNodes, offendingEdges)
    {
      var preds := nodes[dependency].preds;
      assert preds[..0] == [];
      for i := 0 to |preds|
        invariant nodes == old(nodes) && moduleName == old(moduleName)
        invariant MarkedFrom(nodes, NewerBegins(preds[..i], targetVersion, moreRecent), NewerPairs(preds[..i], targetVersion, moreRecent),
          old(offendingNodes), old(offendingEdges), offendingNodes, offendingEdges)
      {
        NewerSnoc(preds, i, targetVersion, moreRecent);
        if moreRecent(preds[i].version, targetVersion) {
          assert preds[i] in nodes[dependency].preds;
          ghost var on1, oe1 := offendingNodes, offendingEdges;
          MarkAsOffending(preds[i]);
          MarkedFromStep(nodes, NewerBegins(preds[..i], targetVersion, moreRecent), NewerPairs(preds[..i], targetVersion, moreRecent), preds[i],
            old(offendingNodes), old(offendingEdges), on1, oe1, offendingNodes, offendingEdges);
        }
      }
      assert preds[..|preds|] == preds;
    }
  }
}
