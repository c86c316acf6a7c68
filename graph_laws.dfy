/**
 * What the operations of internal/graph/graph.go promise about the graph as a
 * whole: `AddNode` keeps the hierarchy, `GetLevel` selects by depth, and
 * `DeleteNode` removes a subtree and the ancestors it leaves without children.
 */
module GraphLaws {
  import opened Util
  import opened GraphNode
  import opened Graph
  import opened GraphEdges

  // ---------------------------------------------------------------------------
  // AddNode.

  /** The parent carried by `node` is the member registered under the parent's hash. */
  predicate SameParent(g: Digraph, node: Node)
  {
    node.parent.Some? && node.parent.value.hash in g.members.nodeMap ==>
      g.members.nodeMap[node.parent.value.hash] == node.parent.value
  }

  /** Adding a hash that is not yet referenced gives it weight 1. */
  lemma AddSingle(r: Refs, node: Node)
    requires RefsValid(r) && SingleWeights(r) && node.hash !in r.nodeMap
    ensures RefsValid(AddRef(r, node)) && SingleWeights(AddRef(r, node))
    ensures AddRef(r, node).nodeMap == r.nodeMap[node.hash := node]
    ensures AddRef(r, node).nodeList == r.nodeList + [node]
  {
    AddPreservesValid(r, node);
    assert Weight(r, node.hash) == 0;
  }

  lemma AddParentsListed(m: map<string, Node>, node: Node)
    requires ParentsListed(m) && node.hash !in m
    requires node.parent.Some? ==> node.parent.value.hash in m && m[node.parent.value.hash] == node.parent.value
    ensures ParentsListed(m[node.hash := node])
  {
    var m' := m[node.hash := node];
    forall k | k in m' ensures ParentListed(m', m'[k]) {
      if k != node.hash {
        assert ParentListed(m, m[k]);
      }
    }
  }

  lemma AddKidsExact(m: map<string, Node>, c: map<string, Refs>, node: Node, c': map<string, Refs>)
    requires KidsExact(m, c) && node.hash !in m
    requires forall h :: RefsAt(c', h).nodeMap ==
               if ParentHash(node) == Some(h) then RefsAt(c, h).nodeMap[node.hash := node] else RefsAt(c, h).nodeMap
    ensures KidsExact(m[node.hash := node], c')
  {
    var m' := m[node.hash := node];
    forall h, k | h in c' && k in c'[h].nodeMap
      ensures k in m' && c'[h].nodeMap[k] == m'[k] && ParentHash(m'[k]) == Some(h)
    {
      assert RefsAt(c', h) == c'[h];
      if k != node.hash {
        assert h in c && k in c[h].nodeMap;
      }
    }
  }

  lemma AddKidsComplete(m: map<string, Node>, c: map<string, Refs>, node: Node, c': map<string, Refs>)
    requires KidsComplete(m, c) && node.hash !in m
    requires forall h :: RefsAt(c', h).nodeMap ==
               if ParentHash(node) == Some(h) then RefsAt(c, h).nodeMap[node.hash := node] else RefsAt(c, h).nodeMap
    ensures KidsComplete(m[node.hash := node], c')
  {
    var m' := m[node.hash := node];
    forall k | k in m' && m'[k].parent.Some? ensures k in RefsAt(c', m'[k].parent.value.hash).nodeMap {
      var h := m'[k].parent.value.hash;
      assert RefsAt(c', h).nodeMap == if ParentHash(node) == Some(h) then RefsAt(c, h).nodeMap[node.hash := node] else RefsAt(c, h).nodeMap;
    }
  }

  lemma KidIsMember(m: map<string, Node>, c: map<string, Refs>, h: string, k: string)
    requires KidsExact(m, c) && h in c && k in c[h].nodeMap
    ensures k in m
  {
  }

  /** Edges are a matter of the successor and predecessor maps alone. */
  lemma SameEdges(g: Digraph, r: Digraph)
    requires r.preds == g.preds && r.succs == g.succs
    ensures EdgesValid(g) ==> EdgesValid(r)
  {
    assert forall h :: SuccsOf(r, h) == SuccsOf(g, h) && PredsOf(r, h) == PredsOf(g, h);
  }

  lemma AddRootHierarchy(g: Digraph, node: Node)
    requires Wellformed(g) && node.hash !in g.members.nodeMap && node.parent.None?
    ensures Wellformed(g.(members := AddRef(g.members, node)))
  {
    var m := g.members.nodeMap;
    AddSingle(g.members, node);
    AddParentsListed(m, node);
    AddKidsExact(m, g.children, node, g.children);
    AddKidsComplete(m, g.children, node, g.children);
  }

  /** The children set of the parent gains the node, with weight 1; no other children set changes. */
  lemma AddChildRefs(g: Digraph, node: Node, p: Node)
    requires Wellformed(g) && node.hash !in g.members.nodeMap && node.parent == Some(p)
    ensures RefsValid(AddRef(KidsOf(g, p.hash), node)) && SingleWeights(AddRef(KidsOf(g, p.hash), node))
    ensures node in ListRefs(AddRef(KidsOf(g, p.hash), node))
    ensures forall h :: RefsAt(g.children[p.hash := AddRef(KidsOf(g, p.hash), node)], h).nodeMap ==
              if ParentHash(node) == Some(h) then RefsAt(g.children, h).nodeMap[node.hash := node] else RefsAt(g.children, h).nodeMap
  {
    var kids := KidsOf(g, p.hash);
    var kids' := AddRef(kids, node);
    assert RefsValid(kids) && SingleWeights(kids) && node.hash !in kids.nodeMap by {
      if p.hash in g.children && node.hash in g.children[p.hash].nodeMap {
        KidIsMember(g.members.nodeMap, g.children, p.hash, node.hash);
      }
    }
    assert RefsValid(kids') && SingleWeights(kids') && kids'.nodeMap == kids.nodeMap[node.hash := node] by {
      AddSingle(kids, node);
    }
    assert node in ListRefs(kids') by {
      ListHoldsMapped(kids', node);
    }
    RefsAtUpdate(g.children, p.hash, kids');
  }

  lemma RefsAtUpdate(c: map<string, Refs>, h0: string, r: Refs)
    ensures forall h :: RefsAt(c[h0 := r], h) == if h == h0 then r else RefsAt(c, h)
  {
    forall h ensures RefsAt(c[h0 := r], h) == if h == h0 then r else RefsAt(c, h) {
      if h != h0 {
        assert (h in c[h0 := r]) == (h in c);
      }
    }
  }

  lemma AddChildHierarchy(g: Digraph, node: Node, p: Node)
    requires Wellformed(g) && node.hash !in g.members.nodeMap && node.parent == Some(p)
    requires p.hash in g.members.nodeMap && g.members.nodeMap[p.hash] == p
    ensures Wellformed(g.(members := AddRef(g.members, node),
                          children := g.children[p.hash := AddRef(KidsOf(g, p.hash), node)]))
    ensures node in ListRefs(AddRef(KidsOf(g, p.hash), node))
  {
    var m := g.members.nodeMap;
    var c' := g.children[p.hash := AddRef(KidsOf(g, p.hash), node)];
    AddSingle(g.members, node);
    AddParentsListed(m, node);
    AddChildRefs(g, node, p);
    assert SingleRefs(AddRef(g.members, node), c');
    AddKidsExact(m, g.children, node, c');
    AddKidsComplete(m, g.children, node, c');
  }

  /**
   * A successful `AddNode` keeps the graph well formed, makes the node a
   * member and a listed child of its parent, and leaves the edges alone.
   */
  lemma AddNodeLaws(g: Digraph, node: Node)
    requires Wellformed(g) && SameParent(g, node)
    ensures AddNode(g, node).Updated? ==>
              && Wellformed(AddNode(g, node).g)
              && GetNode(AddNode(g, node).g, node.hash) == Some(node)
              && (node.parent.Some? ==> node in ListRefs(KidsOf(AddNode(g, node).g, node.parent.value.hash)))
              && (EdgesValid(g) ==> EdgesValid(AddNode(g, node).g))
  {
    var res := AddNode(g, node);
    if res.Updated? {
      SameEdges(g, res.g);
      match node.parent {
        case None => AddRootHierarchy(g, node);
        case Some(p) => AddChildHierarchy(g, node, p);
      }
    }
  }

  // ---------------------------------------------------------------------------
  // GetLevel.

  /** The nodes of `l` at depth `level`, in order: the reference definition of `GetLevel`. */
  function AtLevel(l: seq<Node>, level: int): seq<Node>
  {
    if l == [] then [] else (if Depth(l[0]) == level then [l[0]] else []) + AtLevel(l[1..], level)
  }

  lemma {:induction false} AtLevelMembers(l: seq<Node>, level: int)
    ensures forall x :: x in AtLevel(l, level) <==> x in l && Depth(x) == level
  {
    if l != [] {
      AtLevelMembers(l[1..], level);
      assert l == [l[0]] + l[1..];
    }
  }

  lemma {:induction false} AtLevelSnoc(l: seq<Node>, x: Node, level: int)
    ensures AtLevel(l + [x], level) == AtLevel(l, level) + (if Depth(x) == level then [x] else [])
  {
    if l == [] {
      assert [] + [x] == [x];
      assert AtLevel([x][1..], level) == [];
    } else {
      var t := l + [x];
      var head := if Depth(l[0]) == level then [l[0]] else [];
      var tail := if Depth(x) == level then [x] else [];
      assert t[0] == l[0] && t[1..] == l[1..] + [x];
      AtLevelSnoc(l[1..], x, level);
      calc {
        AtLevel(t, level);
        head + AtLevel(l[1..] + [x], level);
        head + (AtLevel(l[1..], level) + tail);
        (head + AtLevel(l[1..], level)) + tail;
      }
    }
  }

  /** The list of `LevelRefs` is the filter of the input list, each node once. */
  lemma {:induction false} LevelRefsList(l: seq<Node>, level: int)
    requires DistinctHashes(l)
    ensures LevelRefs(l, level).nodeList == AtLevel(l, level)
    ensures RefsValid(LevelRefs(l, level)) && SingleWeights(LevelRefs(l, level))
  {
    if l != [] {
      var l', x := l[..|l| - 1], l[|l| - 1];
      assert l == l' + [x];
      assert DistinctHashes(l');
      LevelRefsList(l', level);
      AtLevelSnoc(l', x, level);
      AtLevelMembers(l', level);
      var r := LevelRefs(l', level);
      if Depth(x) == level {
        forall h | h in r.nodeMap ensures h != x.hash {
          assert r.nodeMap[h] in l';
        }
        AddSingle(r, x);
      }
    }
  }

  /** `GetLevel(level)` lists exactly the members at depth `level`, in the members' order. */
  lemma GetLevelExact(g: Digraph, level: int)
    requires RefsValid(g.members)
    ensures GetLevel(g, level).nodeList == AtLevel(g.members.nodeList, level)
    ensures RefsValid(GetLevel(g, level))
    ensures forall x :: x in GetLevel(g, level).nodeList <==> x in g.members.nodeList && Depth(x) == level
    ensures forall h :: h in GetLevel(g, level).nodeMap <==> h in g.members.nodeMap && Depth(g.members.nodeMap[h]) == level
  {
    LevelRefsList(g.members.nodeList, level);
    AtLevelMembers(g.members.nodeList, level);
  }

  // ---------------------------------------------------------------------------
  // DeleteNode: which members go.

  /** `deleteNode(n)` removes every member below `n`. */
  lemma {:induction false} RemoveSubtreeClears(g: Digraph, n: Node)
    requires Wellformed(g)
    requires n.hash in g.members.nodeMap ==> g.members.nodeMap[n.hash] == n
    ensures forall k | k in g.members.nodeMap && DescendsFrom(g.members.nodeMap[k], n.hash) ::
              k !in RemoveSubtree(g, n).members.nodeMap
    decreases Rank(g.members.nodeMap, n.hash), 1
  {
    var m := g.members.nodeMap;
    var kids := ListRefs(KidsOf(g, n.hash));
    KidsAreChildren(g, n);
    var g1 := RemoveChildren(g, kids, n.hash, m);
    RemoveChildrenClears(g, kids, n.hash, m);
    NoChildrenLeft(g, g1, n, kids);
    UnlistLeaf(g1, n);
    assert RemoveSubtree(g, n) == Unlist(g1, n);
    forall k | k in m && DescendsFrom(m[k], n.hash) ensures k !in g1.members.nodeMap || k == n.hash {
      if k != n.hash {
        var x := ChildOnPath(g, n.hash, k);
        assert m[k].hash == k;
      }
    }
  }

  lemma {:induction false} RemoveChildrenClears(g: Digraph, cs: seq<Node>, h: string, m0: map<string, Node>)
    requires Wellformed(g) && Restricts(g.members.nodeMap, m0) && (cs != [] ==> h in m0)
    requires forall x | x in cs :: x.hash in m0 && m0[x.hash] == x && ParentListed(m0, x) && ParentHash(x) == Some(h)
    ensures forall x, k | x in cs && k in g.members.nodeMap && DescendsFrom(g.members.nodeMap[k], x.hash) ::
              k !in RemoveChildren(g, cs, h, m0).members.nodeMap
    decreases Rank(m0, h), 0, |cs|
  {
    if cs != [] {
      var x := cs[0];
      assert x in cs;
      ChildRankIn(g.members.nodeMap, m0, h, x);
      var g1 := RemoveSubtree(g, x);
      RemoveSubtreeClears(g, x);
      KeepsOutsideChild(g, g1, h, x);
      RemoveChildrenClears(g1, cs[1..], h, m0);
      assert RemoveChildren(g, cs, h, m0) == RemoveChildren(g1, cs[1..], h, m0);
      forall y | y in cs[1..] ensures y in cs {
      }
    }
  }

  /** A member that lies strictly below `a` leaves `a` with a child. */
  lemma {:induction false} HasKids(g: Digraph, x: Node, a: string)
    requires Wellformed(g) && x.hash in g.members.nodeMap && g.members.nodeMap[x.hash] == x
    ensures DescendsFrom(x, a) && a != x.hash ==> Count(KidsOf(g, a)) > 0
    decreases Depth(x)
  {
    if DescendsFrom(x, a) && a != x.hash {
      var m := g.members.nodeMap;
      assert ParentListed(m, m[x.hash]);
      var q := x.parent.value;
      if q.hash == a {
        assert x.hash in KidsOf(g, a).nodeMap;
      } else {
        HasKids(g, q, a);
      }
    }
  }

  /** Every member strictly below `a` leaves `a` with a child. */
  lemma AllHaveKids(g: Digraph, a: string)
    requires Wellformed(g)
    ensures forall k | k in g.members.nodeMap && DescendsFrom(g.members.nodeMap[k], a) && a != k :: Count(KidsOf(g, a)) > 0
  {
    forall k | k in g.members.nodeMap && DescendsFrom(g.members.nodeMap[k], a) && a != k ensures Count(KidsOf(g, a)) > 0 {
      assert g.members.nodeMap[k].hash == k;
      HasKids(g, g.members.nodeMap[k], a);
    }
  }

  /** Every member above a member `x` is left with a child. */
  lemma AncestorsHaveKids(g: Digraph, x: Node)
    requires Wellformed(g) && x.hash in g.members.nodeMap && g.members.nodeMap[x.hash] == x
    ensures forall k | DescendsFrom(x, k) && k != x.hash :: Count(KidsOf(g, k)) > 0
  {
    forall k | DescendsFrom(x, k) && k != x.hash ensures Count(KidsOf(g, k)) > 0 {
      HasKids(g, x, k);
    }
  }

  /** `DeleteNode(hash)` removes the node and everything below it. */
  lemma DeleteNodeRemoves(g: Digraph, hash: string)
    requires Wellformed(g)
    ensures var r := DeleteNode(g, hash);
            r.Updated? ==> forall k | k in g.members.nodeMap && DescendsFrom(g.members.nodeMap[k], hash) :: k !in r.g.members.nodeMap
  {
    if hash in g.members.nodeMap {
      var t := g.members.nodeMap[hash];
      var g1 := DisconnectPreds(g, ListRefs(PredsOf(g, t.hash)), t);
      var g2 := DisconnectSuccs(g1, t, ListRefs(SuccsOf(g1, t.hash)));
      assert Detach(g, t) == RemoveSubtree(g2, t);
      RemoveSubtreeClears(g2, t);
    }
  }

  /** `DeleteNode(hash)` keeps every member that is neither below nor above the node. */
  lemma {:induction false} DeleteNodeKeeps(g: Digraph, hash: string)
    requires Wellformed(g)
    ensures var r := DeleteNode(g, hash);
            var m := g.members.nodeMap;
            r.Updated? ==> forall k | k in m && !DescendsFrom(m[k], hash) && !DescendsFrom(m[hash], k) :: k in r.g.members.nodeMap
    decreases |g.members.nodeMap|, 0
  {
    if hash in g.members.nodeMap {
      var m := g.members.nodeMap;
      var t := m[hash];
      var g3 := Detach(g, t);
      SmallerAfterRemoval(g3.members.nodeMap, m, hash);
      ParentSurvives(g, t, g3);
      assert ParentListed(m, m[hash]);
      CascadeKeeps(g3, t);
    }
  }

  lemma {:induction false} CascadeKeeps(g: Digraph, t: Node)
    requires Wellformed(g) && t.hash !in g.members.nodeMap && ParentListed(g.members.nodeMap, t)
    ensures forall k | k in g.members.nodeMap && !DescendsFrom(t, k) :: k in Cascade(g, t).g.members.nodeMap
    decreases |g.members.nodeMap|, 1
  {
    if t.parent.Some? && Count(KidsOf(g, t.parent.value.hash)) == 0 {
      var p := t.parent.value;
      var m := g.members.nodeMap;
      DeleteNodeKeeps(g, p.hash);
      AllHaveKids(g, p.hash);
      forall k | k in m && !DescendsFrom(t, k) ensures k in DeleteNode(g, p.hash).g.members.nodeMap {
        assert !DescendsFrom(p, k);
      }
    }
  }

  /** After `DeleteNode(hash)` no remaining ancestor of the node is left without children. */
  lemma {:induction false} DeleteNodeKids(g: Digraph, hash: string)
    requires Wellformed(g)
    ensures var r := DeleteNode(g, hash);
            r.Updated? ==> forall k | k in r.g.members.nodeMap && DescendsFrom(g.members.nodeMap[hash], k) :: Count(KidsOf(r.g, k)) > 0
    decreases |g.members.nodeMap|, 0
  {
    if hash in g.members.nodeMap {
      var m := g.members.nodeMap;
      var t := m[hash];
      var g3 := Detach(g, t);
      SmallerAfterRemoval(g3.members.nodeMap, m, hash);
      ParentSurvives(g, t, g3);
      assert ParentListed(m, m[hash]);
      CascadeKids(g3, t);
    }
  }

  lemma {:induction false} CascadeKids(g: Digraph, t: Node)
    requires Wellformed(g) && t.hash !in g.members.nodeMap && ParentListed(g.members.nodeMap, t)
    ensures forall k | k in Cascade(g, t).g.members.nodeMap && DescendsFrom(t, k) :: Count(KidsOf(Cascade(g, t).g, k)) > 0
    decreases |g.members.nodeMap|, 1
  {
    if t.parent.Some? {
      var p := t.parent.value;
      if Count(KidsOf(g, p.hash)) > 0 {
        AncestorsHaveKids(g, p);
      } else {
        DeleteNodeKids(g, p.hash);
      }
    }
  }

  /**
   * `DeleteNode(hash)` removes the node and everything below it, keeps every
   * member that is neither below nor above it, and leaves no remaining
   * ancestor of it without children.
   */
  lemma DeleteNodeLaws(g: Digraph, hash: string)
    requires Wellformed(g)
    ensures var r := DeleteNode(g, hash);
            var m := g.members.nodeMap;
            r.Updated? ==>
              && (forall k | k in m && DescendsFrom(m[k], hash) :: k !in r.g.members.nodeMap)
              && (forall k | k in m && !DescendsFrom(m[k], hash) && !DescendsFrom(m[hash], k) :: k in r.g.members.nodeMap)
              && (forall k | k in r.g.members.nodeMap && DescendsFrom(m[hash], k) :: Count(KidsOf(r.g, k)) > 0)
  {
    DeleteNodeRemoves(g, hash);
    DeleteNodeKeeps(g, hash);
    DeleteNodeKids(g, hash);
  }

  /** A member that descends from another hash lies deeper than the member under that hash. */
  lemma {:induction false} AboveIsShallower(m: map<string, Node>, y: Node, h: string)
    requires ParentsListed(m) && y.hash in m && m[y.hash] == y
    ensures DescendsFrom(y, h) && y.hash != h ==> h in m && Depth(m[h]) < Depth(y)
    decreases Depth(y)
  {
    if DescendsFrom(y, h) && y.hash != h {
      assert ParentListed(m, m[y.hash]);
      var p := y.parent.value;
      AboveIsShallower(m, p, h);
    }
  }

  /** Two distinct members at the same depth lie in disjoint subtrees. */
  lemma SameDepthApart(m: map<string, Node>, x: Node, y: Node)
    requires ParentsListed(m) && x.hash in m && m[x.hash] == x && y.hash in m && m[y.hash] == y
    requires Depth(x) == Depth(y) && x.hash != y.hash
    ensures !DescendsFrom(x, y.hash) && !DescendsFrom(y, x.hash)
  {
    AboveIsShallower(m, x, y.hash);
    AboveIsShallower(m, y, x.hash);
  }

  // ---------------------------------------------------------------------------
  // DeleteNode: the edges.

  /** The predecessor loop keeps the edge invariant and clears every listed predecessor of `t` and its subtree. */
  lemma {:induction false} DisconnectPredsEdges(g: Digraph, ps: seq<Node>, t: Node)
    requires Wellformed(g) && EdgesValid(g)
    ensures EdgesValid(DisconnectPreds(g, ps, t)) && Trimmed(DisconnectPreds(g, ps, t), g)
    ensures forall p | p in ps :: Cleared(DisconnectPreds(g, ps, t), p.hash, t.hash)
    decreases |ps|
  {
    if ps == [] {
      assert Trimmed(g, g);
    } else {
      var g1 := Disconnect(g, ps[0], t);
      var r := DisconnectPreds(g1, ps[1..], t);
      DisconnectMirror(g, ps[0], t);
      DisconnectTrims(g, ps[0], t);
      DisconnectClears(g, ps[0], t);
      assert Under(g.members.nodeMap, ps[0].hash, ps[0].hash);
      DisconnectPredsEdges(g1, ps[1..], t);
      ClearedTrimmed(r, g1, ps[0].hash, t.hash);
      TrimmedTrans(r, g1, g);
      forall p | p in ps ensures Cleared(r, p.hash, t.hash) {
        if p != ps[0] {
          assert p in ps[1..];
        }
      }
    }
  }

  /** The successor loop keeps the edge invariant and clears `t` of every listed successor and its subtree. */
  lemma {:induction false} DisconnectSuccsEdges(g: Digraph, t: Node, ss: seq<Node>)
    requires Wellformed(g) && EdgesValid(g)
    ensures EdgesValid(DisconnectSuccs(g, t, ss)) && Trimmed(DisconnectSuccs(g, t, ss), g)
    ensures forall s | s in ss :: Cleared(DisconnectSuccs(g, t, ss), t.hash, s.hash)
    decreases |ss|
  {
    if ss == [] {
      assert Trimmed(g, g);
    } else {
      var g1 := Disconnect(g, t, ss[0]);
      var r := DisconnectSuccs(g1, t, ss[1..]);
      DisconnectMirror(g, t, ss[0]);
      DisconnectTrims(g, t, ss[0]);
      DisconnectClears(g, t, ss[0]);
      assert Under(g.members.nodeMap, t.hash, t.hash);
      DisconnectSuccsEdges(g1, t, ss[1..]);
      ClearedTrimmed(r, g1, t.hash, ss[0].hash);
      TrimmedTrans(r, g1, g);
      forall s | s in ss ensures Cleared(r, t.hash, s.hash) {
        if s != ss[0] {
          assert s in ss[1..];
        }
      }
    }
  }

  /** After the predecessor loop no successor set holds `t`. */
  lemma NoEdgeInto(g: Digraph, g1: Digraph, t: Node)
    requires EdgesValid(g) && SuccsValid(g1) && Trimmed(g1, g)
    requires forall p | p in ListRefs(PredsOf(g, t.hash)) :: Cleared(g1, p.hash, t.hash)
    ensures forall a :: t.hash !in SuccsOf(g1, a).nodeMap
  {
    forall a ensures t.hash !in SuccsOf(g1, a).nodeMap {
      SuccsAt(g1, a);
      SuccsAt(g, a);
      PredsAt(g, t.hash);
      MappedIffWeighted(PredsOf(g, t.hash), a);
      MappedIffWeighted(SuccsOf(g, a), t.hash);
      assert SubRefs(SuccsOf(g1, a), SuccsOf(g, a));
      if a in PredsOf(g, t.hash).nodeMap {
        var q := PredsOf(g, t.hash).nodeMap[a];
        ListHoldsMapped(PredsOf(g, t.hash), q);
        assert Cleared(g1, q.hash, t.hash);
        assert t.hash in SuccsOf(g1, a).nodeMap ==> DescendsFrom(SuccsOf(g1, a).nodeMap[t.hash], t.hash);
      }
    }
  }

  /** After the successor loop the successor set of `t` is empty. */
  lemma NoEdgeFrom(g1: Digraph, g2: Digraph, t: Node)
    requires SuccsValid(g1) && SuccsValid(g2) && Trimmed(g2, g1)
    requires forall s | s in ListRefs(SuccsOf(g1, t.hash)) :: Cleared(g2, t.hash, s.hash)
    ensures SuccsOf(g2, t.hash).nodeMap == map[]
  {
    SuccsAt(g1, t.hash);
    SuccsAt(g2, t.hash);
    ListAgrees(g1, t.hash);
    assert SubRefs(SuccsOf(g2, t.hash), SuccsOf(g1, t.hash));
    forall b ensures b !in SuccsOf(g2, t.hash).nodeMap {
      if b in SuccsOf(g1, t.hash).nodeMap {
        var s := SuccsOf(g1, t.hash).nodeMap[b];
        assert Cleared(g2, t.hash, s.hash);
        assert b in SuccsOf(g2, t.hash).nodeMap ==> DescendsFrom(SuccsOf(g2, t.hash).nodeMap[b], b);
      }
    }
  }

  /** Detaching a member keeps the edge invariant, only removes successor entries, and leaves the member with no edge. */
  lemma DetachEdges(g: Digraph, t: Node)
    requires Wellformed(g) && EdgesValid(g) && t.hash in g.members.nodeMap && g.members.nodeMap[t.hash] == t
    ensures EdgesValid(Detach(g, t)) && Trimmed(Detach(g, t), g)
    ensures forall a :: t.hash !in SuccsOf(Detach(g, t), a).nodeMap
    ensures SuccsOf(Detach(g, t), t.hash).nodeMap == map[]
  {
    var g1 := DisconnectPreds(g, ListRefs(PredsOf(g, t.hash)), t);
    var g2 := DisconnectSuccs(g1, t, ListRefs(SuccsOf(g1, t.hash)));
    DisconnectPredsEdges(g, ListRefs(PredsOf(g, t.hash)), t);
    NoEdgeInto(g, g1, t);
    DisconnectSuccsEdges(g1, t, ListRefs(SuccsOf(g1, t.hash)));
    NoEdgeFrom(g1, g2, t);
    TrimmedTrans(g2, g1, g);
    var r := RemoveSubtree(g2, t);
    assert Detach(g, t) == r;
    assert forall a :: SuccsOf(r, a) == SuccsOf(g2, a) && PredsOf(r, a) == PredsOf(g2, a);
    forall a ensures t.hash !in SuccsOf(g2, a).nodeMap {
      assert SubRefs(SuccsOf(g2, a), SuccsOf(g1, a));
    }
  }

  /** `DeleteNode` keeps the edge invariant and only removes successor entries. */
  lemma {:induction false} DeleteNodeEdges(g: Digraph, hash: string)
    requires Wellformed(g) && EdgesValid(g)
    ensures DeleteNode(g, hash).Updated? ==> EdgesValid(DeleteNode(g, hash).g) && Trimmed(DeleteNode(g, hash).g, g)
    decreases |g.members.nodeMap|, 0
  {
    if hash in g.members.nodeMap {
      var m := g.members.nodeMap;
      var t := m[hash];
      var g3 := Detach(g, t);
      SmallerAfterRemoval(g3.members.nodeMap, m, hash);
      ParentSurvives(g, t, g3);
      DetachEdges(g, t);
      CascadeEdges(g3, t);
      TrimmedTrans(Cascade(g3, t).g, g3, g);
    }
  }

  lemma {:induction false} CascadeEdges(g: Digraph, t: Node)
    requires Wellformed(g) && EdgesValid(g) && (t.parent.Some? ==> t.parent.value.hash in g.members.nodeMap)
    ensures EdgesValid(Cascade(g, t).g) && Trimmed(Cascade(g, t).g, g)
    decreases |g.members.nodeMap|, 1
  {
    if t.parent.Some? && Count(KidsOf(g, t.parent.value.hash)) == 0 {
      DeleteNodeEdges(g, t.parent.value.hash);
    } else {
      assert Trimmed(g, g);
    }
  }

  /** A graph trimmed from one where `h` has no edge leaves `h` with no edge, on either side. */
  lemma StaysIsolated(r: Digraph, g: Digraph, h: string)
    requires EdgesValid(r) && Trimmed(r, g)
    requires forall a :: h !in SuccsOf(g, a).nodeMap
    requires SuccsOf(g, h).nodeMap == map[]
    ensures SuccsOf(r, h).nodeMap == map[] && PredsOf(r, h).nodeMap == map[]
    ensures forall a :: h !in SuccsOf(r, a).nodeMap && h !in PredsOf(r, a).nodeMap
  {
    assert SubRefs(SuccsOf(r, h), SuccsOf(g, h));
    forall a ensures h !in SuccsOf(r, a).nodeMap && h !in PredsOf(r, a).nodeMap && a !in PredsOf(r, h).nodeMap {
      assert SubRefs(SuccsOf(r, a), SuccsOf(g, a));
      SuccsAt(r, a);
      SuccsAt(r, h);
      PredsAt(r, a);
      PredsAt(r, h);
      MappedIffWeighted(SuccsOf(r, a), h);
      MappedIffWeighted(SuccsOf(r, h), a);
      MappedIffWeighted(PredsOf(r, a), h);
      MappedIffWeighted(PredsOf(r, h), a);
      assert Weight(SuccsOf(r, h), a) == Weight(PredsOf(r, a), h);
      assert Weight(SuccsOf(r, a), h) == Weight(PredsOf(r, h), a);
    }
  }

  /**
   * `DeleteNode(hash)` keeps every edge recorded on both ends and leaves the
   * deleted node with no successor and no predecessor, and in no other
   * member's successor or predecessor set.
   */
  lemma DeleteNodeUnlinks(g: Digraph, hash: string)
    requires Wellformed(g) && EdgesValid(g)
    ensures var r := DeleteNode(g, hash);
            r.Updated? ==>
              && EdgesValid(r.g)
              && SuccsOf(r.g, hash).nodeMap == map[] && PredsOf(r.g, hash).nodeMap == map[]
              && (forall a :: hash !in SuccsOf(r.g, a).nodeMap && hash !in PredsOf(r.g, a).nodeMap)
  {
    if hash in g.members.nodeMap {
      var t := g.members.nodeMap[hash];
      var g3 := Detach(g, t);
      SmallerAfterRemoval(g3.members.nodeMap, g.members.nodeMap, hash);
      ParentSurvives(g, t, g3);
      DetachEdges(g, t);
      CascadeEdges(g3, t);
      assert DeleteNode(g, hash).g == Cascade(g3, t).g;
      StaysIsolated(Cascade(g3, t).g, g3, hash);
    }
  }

  // ---------------------------------------------------------------------------
  // DeleteNode on a chain of three nodes.

  /** The graph built by adding the nodes in order, stopping at the first refusal. */
  function Build(g: Digraph, ns: seq<Node>): Result
    decreases |ns|
  {
    if ns == [] then Updated(g)
    else match AddNode(g, ns[0])
      case Refused(e) => Refused(e)
      case Updated(g1) => Build(g1, ns[1..])
  }

  const NodeA: Node := Node("a", "A", None)
  const NodeB: Node := Node("b", "B", Some(NodeA))
  const NodeC: Node := Node("c", "C", Some(NodeB))

  /** The members left by detaching `t` are exactly those not below `t`. */
  lemma DetachMembers(g: Digraph, t: Node)
    requires Wellformed(g) && t.hash in g.members.nodeMap && g.members.nodeMap[t.hash] == t
    ensures forall k :: k in Detach(g, t).members.nodeMap <==>
              k in g.members.nodeMap && !DescendsFrom(g.members.nodeMap[k], t.hash)
  {
    var g1 := DisconnectPreds(g, ListRefs(PredsOf(g, t.hash)), t);
    var g2 := DisconnectSuccs(g1, t, ListRefs(SuccsOf(g1, t.hash)));
    assert Detach(g, t) == RemoveSubtree(g2, t);
    RemoveSubtreeClears(g2, t);
  }

  lemma KidParent(m: map<string, Node>, c: map<string, Refs>, h: string, k: string)
    requires KidsExact(m, c) && h in c
    ensures k in c[h].nodeMap ==> k in m && ParentHash(m[k]) == Some(h)
  {
  }

  /** A hash that is no member's parent has an empty children set. */
  lemma NoKids(g: Digraph, h: string)
    requires Wellformed(g)
    requires forall k | k in g.members.nodeMap :: ParentHash(g.members.nodeMap[k]) != Some(h)
    ensures Count(KidsOf(g, h)) == 0
  {
    if h in g.children {
      forall k ensures k !in g.children[h].nodeMap {
        KidParent(g.members.nodeMap, g.children, h, k);
      }
      assert g.children[h].nodeMap == map[];
    }
  }

  /** Each node in turn is new and its parent, if any, is already a member. */
  predicate Addable(m: map<string, Node>, ns: seq<Node>)
    decreases |ns|
  {
    ns != [] ==>
      && ns[0].hash !in m
      && (ns[0].parent.Some? ==> ns[0].parent.value.hash in m && m[ns[0].parent.value.hash] == ns[0].parent.value)
      && Addable(m[ns[0].hash := ns[0]], ns[1..])
  }

  function AddAll(m: map<string, Node>, ns: seq<Node>): map<string, Node>
    decreases |ns|
  {
    if ns == [] then m else AddAll(m[ns[0].hash := ns[0]], ns[1..])
  }

  /** Adding new nodes whose parents come first keeps the graph well formed and makes them all members. */
  lemma {:induction false} BuildLaws(g: Digraph, ns: seq<Node>)
    requires Wellformed(g) && Addable(g.members.nodeMap, ns)
    ensures Build(g, ns).Updated? && Wellformed(Build(g, ns).g)
    ensures Build(g, ns).g.members.nodeMap == AddAll(g.members.nodeMap, ns)
    decreases |ns|
  {
    if ns != [] {
      AddNodeLaws(g, ns[0]);
      BuildLaws(AddNode(g, ns[0]).g, ns[1..]);
    }
  }

  /** The members of the chain A <- B <- C. */
  const Chain: map<string, Node> := map["A" := NodeA, "B" := NodeB, "C" := NodeC]

  /** Adding A, B and C in order builds a well-formed graph whose members are the chain. */
  lemma ChainBuilt()
    ensures var r := Build(EmptyGraph, [NodeA, NodeB, NodeC]);
            r.Updated? && Wellformed(r.g) && r.g.members.nodeMap == Chain
  {
    var ns := [NodeA, NodeB, NodeC];
    assert ns[1..] == [NodeB, NodeC] && ns[1..][1..] == [NodeC] && ns[1..][1..][1..] == [];
    assert Wellformed(EmptyGraph);
    var mA, mB, mC := map["A" := NodeA], map["A" := NodeA, "B" := NodeB], Chain;
    assert Addable(mC, []) && AddAll(mC, []) == mC;
    assert mB[NodeC.hash := NodeC] == mC;
    assert Addable(mB, [NodeC]) && AddAll(mB, [NodeC]) == mC;
    assert mA[NodeB.hash := NodeB] == mB;
    assert Addable(mA, [NodeB, NodeC]) && AddAll(mA, [NodeB, NodeC]) == mC;
    assert map[][NodeA.hash := NodeA] == mA;
    assert Addable(map[], ns) && AddAll(map[], ns) == mC;
    BuildLaws(EmptyGraph, ns);
  }

  /** Detaching a member that nothing else descends from removes just that member. */
  lemma DetachLeaf(g: Digraph, t: Node)
    requires Wellformed(g) && t.hash in g.members.nodeMap && g.members.nodeMap[t.hash] == t
    requires forall k | k in g.members.nodeMap && k != t.hash :: !DescendsFrom(g.members.nodeMap[k], t.hash)
    ensures Detach(g, t).members.nodeMap == g.members.nodeMap - {t.hash}
  {
    DetachMembers(g, t);
    LeafKeys(Detach(g, t).members.nodeMap, g.members.nodeMap, t);
  }

  /** What is left of `m` after removing the descendants of a leaf `t` is `m` without `t`. */
  lemma LeafKeys(r: map<string, Node>, m: map<string, Node>, t: Node)
    requires Restricts(r, m) && t.hash in m && m[t.hash] == t
    requires forall k :: k in r <==> k in m && !DescendsFrom(m[k], t.hash)
    requires forall k | k in m && k != t.hash :: !DescendsFrom(m[k], t.hash)
    ensures r == m - {t.hash}
  {
    assert r.Keys == (m - {t.hash}).Keys;
  }

  /** `DeleteNode` as written, on a member: detach it, then run the parent loop. */
  lemma AsWrittenUnfolds(g: Digraph, hash: string)
    requires Wellformed(g) && hash in g.members.nodeMap
    ensures DeleteNodeAsWritten(g, hash) == CascadeAsWritten(Detach(g, g.members.nodeMap[hash]), g.members.nodeMap[hash])
  {
  }

  /** The parent loop as written, at a parent left without children whose deletion succeeds. */
  lemma AsWrittenCascades(g: Digraph, t: Node, p: Node)
    requires Wellformed(g) && t.parent == Some(p) && Count(KidsOf(g, p.hash)) == 0
    requires DeleteNodeAsWritten(g, p.hash).Updated?
    ensures CascadeAsWritten(g, t) == CascadeAsWritten(DeleteNodeAsWritten(g, p.hash).g, p)
  {
  }

  /** A chain `a <- b <- c` of three distinct nodes, `a` a root. */
  predicate IsChain(a: Node, b: Node, c: Node)
  {
    a.parent.None? && b.parent == Some(a) && c.parent == Some(b)
    && a.hash != b.hash && b.hash != c.hash && a.hash != c.hash
  }

  lemma ChainStepA(g: Digraph, a: Node)
    requires Wellformed(g) && a.parent.None? && g.members.nodeMap == map[a.hash := a]
    ensures DeleteNodeAsWritten(g, a.hash).Updated? && DeleteNodeAsWritten(g, a.hash).g.members.nodeMap == map[]
  {
    DetachLeaf(g, a);
    AsWrittenUnfolds(g, a.hash);
  }

  /** One turn of the parent loop as written, after detaching `t`. */
  lemma AsWrittenStep(g: Digraph, t: Node, p: Node)
    requires Wellformed(g) && t.hash in g.members.nodeMap && g.members.nodeMap[t.hash] == t && t.parent == Some(p)
    requires Count(KidsOf(Detach(g, t), p.hash)) == 0
    ensures DeleteNodeAsWritten(Detach(g, t), p.hash).Refused? ==>
      DeleteNodeAsWritten(g, t.hash) == DeleteNodeAsWritten(Detach(g, t), p.hash)
    ensures DeleteNodeAsWritten(Detach(g, t), p.hash).Updated? ==>
      DeleteNodeAsWritten(g, t.hash) == CascadeAsWritten(DeleteNodeAsWritten(Detach(g, t), p.hash).g, p)
  {
    AsWrittenUnfolds(g, t.hash);
  }

  /** Detaching `b` from the pair `a <- b` leaves `a` alone and childless. */
  lemma PairLeaf(g: Digraph, a: Node, b: Node)
    requires Wellformed(g) && a.parent.None? && b.parent == Some(a) && a.hash != b.hash
    requires g.members.nodeMap == map[a.hash := a, b.hash := b]
    ensures Detach(g, b).members.nodeMap == map[a.hash := a] && Count(KidsOf(Detach(g, b), a.hash)) == 0
  {
    assert !DescendsFrom(a, b.hash);
    DetachLeaf(g, b);
    DropLast(map[a.hash := a], b);
    LoneRoot(Detach(g, b), a);
  }

  /** Removing the key just added gives back the map before. */
  lemma DropLast(m: map<string, Node>, b: Node)
    requires b.hash !in m
    ensures m[b.hash := b] - {b.hash} == m
  {
    assert (m[b.hash := b] - {b.hash}).Keys == m.Keys;
  }

  /** A root alone in its graph has no children. */
  lemma LoneRoot(g: Digraph, a: Node)
    requires Wellformed(g) && a.parent.None? && g.members.nodeMap == map[a.hash := a]
    ensures Count(KidsOf(g, a.hash)) == 0
  {
    NoKids(g, a.hash);
  }

  lemma ChainStepB(g: Digraph, a: Node, b: Node)
    requires Wellformed(g) && a.parent.None? && b.parent == Some(a) && a.hash != b.hash
    requires g.members.nodeMap == map[a.hash := a, b.hash := b]
    ensures DeleteNodeAsWritten(g, b.hash).Updated? && DeleteNodeAsWritten(g, b.hash).g.members.nodeMap == map[]
  {
    PairLeaf(g, a, b);
    ChainStepA(Detach(g, b), a);
    AsWrittenStep(g, b, a);
  }

  /** Detaching `c` from the chain `a <- b <- c` leaves the pair `a <- b`, with `b` childless. */
  lemma TripleLeaf(g: Digraph, a: Node, b: Node, c: Node)
    requires Wellformed(g) && IsChain(a, b, c)
    requires g.members.nodeMap == map[a.hash := a, b.hash := b, c.hash := c]
    ensures Detach(g, c).members.nodeMap == map[a.hash := a, b.hash := b] && Count(KidsOf(Detach(g, c), b.hash)) == 0
  {
    assert !DescendsFrom(a, c.hash) && !DescendsFrom(b, c.hash);
    DetachLeaf(g, c);
    DropLast(map[a.hash := a, b.hash := b], c);
    PairKids(Detach(g, c), a, b);
  }

  /** In the pair `a <- b`, `b` has no children. */
  lemma PairKids(g: Digraph, a: Node, b: Node)
    requires Wellformed(g) && a.parent.None? && b.parent == Some(a) && a.hash != b.hash
    requires g.members.nodeMap == map[a.hash := a, b.hash := b]
    ensures Count(KidsOf(g, b.hash)) == 0
  {
    NoKids(g, b.hash);
  }

  /** The parent loop as written, once the whole graph is gone, fails on the parent it visits. */
  lemma AsWrittenOrphan(g: Digraph, t: Node, p: Node)
    requires Wellformed(g) && g.members.nodeMap == map[] && t.parent == Some(p)
    ensures CascadeAsWritten(g, t) == Refused(NodeNotFound)
  {
    NoKids(g, p.hash);
  }

  /**
   * Deleting the leaf `c` of a chain `a <- b <- c`, whatever its edges: the
   * parent loop of the source deletes `b`, which deletes `a`, then moves on to
   * `b`'s parent `a`, finds it without children, and fails to delete it again.
   */
  lemma ChainAsWritten(g: Digraph, a: Node, b: Node, c: Node)
    requires Wellformed(g) && IsChain(a, b, c)
    requires g.members.nodeMap == map[a.hash := a, b.hash := b, c.hash := c]
    ensures DeleteNodeAsWritten(g, c.hash) == Refused(NodeNotFound)
  {
    TripleLeaf(g, a, b, c);
    ChainStepB(Detach(g, c), a, b);
    AsWrittenStep(g, c, b);
    AsWrittenOrphan(DeleteNodeAsWritten(Detach(g, c), b.hash).g, b, a);
  }

  /** The chain `A <- B <- C` built by `AddNode` shows the discrepancy. */
  lemma ChainDeleteAsWritten(g: Digraph)
    requires Wellformed(g) && g.members.nodeMap == Chain
    ensures DeleteNodeAsWritten(g, "C") == Refused(NodeNotFound)
  {
    ChainAsWritten(g, NodeA, NodeB, NodeC);
  }

  /** The corrected cascade deletes the whole chain and succeeds. */
  lemma ChainRemoved(g: Digraph, a: Node, b: Node, c: Node)
    requires Wellformed(g) && IsChain(a, b, c)
    requires g.members.nodeMap == map[a.hash := a, b.hash := b, c.hash := c]
    ensures DeleteNode(g, c.hash).Updated? && DeleteNode(g, c.hash).g.members.nodeMap == map[]
  {
    ChainSurvivors(g, a, b, c);
    PairGone(DeleteNode(g, c.hash).g, a, b);
  }

  /** After deleting `c`, whatever is left of the chain above it still has children. */
  lemma ChainSurvivors(g: Digraph, a: Node, b: Node, c: Node)
    requires Wellformed(g) && IsChain(a, b, c)
    requires g.members.nodeMap == map[a.hash := a, b.hash := b, c.hash := c]
    ensures DeleteNode(g, c.hash).Updated?
    ensures var r := DeleteNode(g, c.hash).g.members.nodeMap;
            && (forall k | k in r :: r[k] in {a, b})
            && forall k | k in r :: Count(KidsOf(DeleteNode(g, c.hash).g, k)) > 0
  {
    DeleteNodeLaws(g, c.hash);
    assert DescendsFrom(c, b.hash) && DescendsFrom(c, a.hash);
  }

  /** Within the pair `a <- b`, no member can have children, so none is left. */
  lemma PairGone(r: Digraph, a: Node, b: Node)
    requires Wellformed(r) && a.parent.None? && b.parent == Some(a) && a.hash != b.hash
    requires forall k | k in r.members.nodeMap :: r.members.nodeMap[k] in {a, b}
    requires forall k | k in r.members.nodeMap :: Count(KidsOf(r, k)) > 0
    ensures r.members.nodeMap == map[]
  {
    LowerGone(r, b);
    LowerGone(r, a);
    assert r.members.nodeMap.Keys == {};
  }

  /** A member whose hash is no member's parent has no children, so it cannot be among those that do. */
  lemma LowerGone(r: Digraph, x: Node)
    requires Wellformed(r)
    requires forall k | k in r.members.nodeMap :: ParentHash(r.members.nodeMap[k]) != Some(x.hash)
    requires forall k | k in r.members.nodeMap :: Count(KidsOf(r, k)) > 0
    ensures x.hash !in r.members.nodeMap
  {
    NoKids(r, x.hash);
  }

  /** The corrected cascade on the same chain deletes all three nodes. */
  lemma ChainDelete(g: Digraph)
    requires Wellformed(g) && g.members.nodeMap == Chain
    ensures DeleteNode(g, "C").Updated? && DeleteNode(g, "C").g.members.nodeMap == map[]
  {
    ChainRemoved(g, NodeA, NodeB, NodeC);
  }
}
