/**
 * The predecessor side of `DeleteNode` (internal/graph/graph.go): deleting
 * a node only ever removes whole predecessor entries, and keeps every entry
 * it leaves exactly as it was.
 */
module GraphPared {
  import opened Util
  import opened GraphNode
  import opened Graph
  import opened GraphEdges
  import opened GraphLaws

  /** `r` is `g` with some predecessor entries removed whole, and no other change to the predecessors. */
  ghost predicate Pared(r: Digraph, g: Digraph)
  {
    forall a :: SubRefs(PredsOf(r, a), PredsOf(g, a))
  }

  lemma ParedTrans(r2: Digraph, r1: Digraph, r0: Digraph)
    requires Pared(r2, r1) && Pared(r1, r0)
    ensures Pared(r2, r0)
  {
    forall a ensures SubRefs(PredsOf(r2, a), PredsOf(r0, a)) {
      assert SubRefs(PredsOf(r2, a), PredsOf(r1, a));
      assert SubRefs(PredsOf(r1, a), PredsOf(r0, a));
    }
  }

  lemma ParedSame(g: Digraph, r: Digraph)
    requires r.preds == g.preds
    ensures Pared(r, g)
  {
    assert forall a :: PredsOf(r, a) == PredsOf(g, a);
  }

  /** Removing every edge from `a` to `b` removes at most the one predecessor entry `a` of `b`. */
  lemma WipeRefsPared(g: Digraph, a: Node, b: Node)
    requires PredsValid(g)
    ensures PredsValid(WipeRefs(g, a, b)) && Pared(WipeRefs(g, a, b), g)
  {
    PredsAt(g, b.hash);
    WipeSub(PredsOf(g, b.hash), a.hash);
    var w := WipeRefs(g, a, b);
    forall x ensures SubRefs(PredsOf(w, x), PredsOf(g, x)) {
      if x != b.hash {
        assert PredsOf(w, x) == PredsOf(g, x);
      }
    }
  }

  lemma {:induction false} WipeSuccessorsPared(g: Digraph, n: Node, ss: seq<Node>, t: Node)
    requires PredsValid(g)
    ensures PredsValid(WipeSuccessors(g, n, ss, t)) && Pared(WipeSuccessors(g, n, ss, t), g)
    decreases |ss|
  {
    if ss == [] {
      ParedSame(g, g);
    } else {
      var g1 := if DescendsFrom(ss[0], t.hash) then WipeRefs(g, n, ss[0]) else g;
      if DescendsFrom(ss[0], t.hash) {
        WipeRefsPared(g, n, ss[0]);
      } else {
        ParedSame(g, g);
      }
      WipeSuccessorsPared(g1, n, ss[1..], t);
      ParedTrans(WipeSuccessors(g1, n, ss[1..], t), g1, g);
    }
  }

  lemma {:induction false} DisconnectPared(g: Digraph, n: Node, t: Node)
    requires Wellformed(g) && PredsValid(g)
    ensures PredsValid(Disconnect(g, n, t)) && Pared(Disconnect(g, n, t), g)
    decreases Rank(g.members.nodeMap, n.hash), 1
  {
    var kids := ListRefs(KidsOf(g, n.hash));
    ListMembers(KidsOf(g, n.hash));
    KidsAreChildren(g, n);
    var g1 := DisconnectChildren(g, kids, n.hash, t);
    DisconnectChildrenPared(g, kids, n.hash, t);
    WipeSuccessorsPared(g1, n, ListRefs(SuccsOf(g1, n.hash)), t);
    ParedTrans(Disconnect(g, n, t), g1, g);
  }

  lemma {:induction false} DisconnectChildrenPared(g: Digraph, cs: seq<Node>, h: string, t: Node)
    requires Wellformed(g) && PredsValid(g) && (cs != [] ==> h in g.members.nodeMap)
    requires forall x | x in cs :: x in KidsOf(g, h).nodeList
    ensures PredsValid(DisconnectChildren(g, cs, h, t)) && Pared(DisconnectChildren(g, cs, h, t), g)
    decreases Rank(g.members.nodeMap, h), 0, |cs|
  {
    if cs == [] {
      ParedSame(g, g);
    } else {
      assert cs[0] in cs;
      KidFacts(g, h, cs[0]);
      ChildRankIn(g.members.nodeMap, g.members.nodeMap, h, cs[0]);
      DisconnectPared(g, cs[0], t);
      var g1 := Disconnect(g, cs[0], t);
      DisconnectChildrenPared(g1, cs[1..], h, t);
      ParedTrans(DisconnectChildren(g, cs, h, t), g1, g);
    }
  }

  lemma {:induction false} DisconnectPredsPared(g: Digraph, ps: seq<Node>, t: Node)
    requires Wellformed(g) && PredsValid(g)
    ensures PredsValid(DisconnectPreds(g, ps, t)) && Pared(DisconnectPreds(g, ps, t), g)
    decreases |ps|
  {
    if ps == [] {
      ParedSame(g, g);
    } else {
      var g1 := Disconnect(g, ps[0], t);
      DisconnectPared(g, ps[0], t);
      DisconnectPredsPared(g1, ps[1..], t);
      ParedTrans(DisconnectPreds(g1, ps[1..], t), g1, g);
    }
  }

  lemma {:induction false} DisconnectSuccsPared(g: Digraph, t: Node, ss: seq<Node>)
    requires Wellformed(g) && PredsValid(g)
    ensures PredsValid(DisconnectSuccs(g, t, ss)) && Pared(DisconnectSuccs(g, t, ss), g)
    decreases |ss|
  {
    if ss == [] {
      ParedSame(g, g);
    } else {
      var g1 := Disconnect(g, t, ss[0]);
      DisconnectPared(g, t, ss[0]);
      DisconnectSuccsPared(g1, t, ss[1..]);
      ParedTrans(DisconnectSuccs(g1, t, ss[1..]), g1, g);
    }
  }

  lemma DetachPared(g: Digraph, t: Node)
    requires Wellformed(g) && PredsValid(g) && t.hash in g.members.nodeMap && g.members.nodeMap[t.hash] == t
    ensures PredsValid(Detach(g, t)) && Pared(Detach(g, t), g)
  {
    var g1 := DisconnectPreds(g, ListRefs(PredsOf(g, t.hash)), t);
    var g2 := DisconnectSuccs(g1, t, ListRefs(SuccsOf(g1, t.hash)));
    DisconnectPredsPared(g, ListRefs(PredsOf(g, t.hash)), t);
    DisconnectSuccsPared(g1, t, ListRefs(SuccsOf(g1, t.hash)));
    ParedTrans(g2, g1, g);
    assert Detach(g, t) == RemoveSubtree(g2, t);
    ParedSame(g2, Detach(g, t));
    ParedTrans(Detach(g, t), g2, g);
  }

  /**
   * `DeleteNode` removes predecessor entries whole and keeps every other
   * entry, with its node and its weight.
   */
  lemma {:induction false} DeleteNodePared(g: Digraph, hash: string)
    requires Wellformed(g) && PredsValid(g)
    ensures DeleteNode(g, hash).Updated? ==> PredsValid(DeleteNode(g, hash).g) && Pared(DeleteNode(g, hash).g, g)
    decreases |g.members.nodeMap|, 0
  {
    if hash in g.members.nodeMap {
      var m := g.members.nodeMap;
      var t := m[hash];
      var g3 := Detach(g, t);
      SmallerAfterRemoval(g3.members.nodeMap, m, hash);
      ParentSurvives(g, t, g3);
      DetachPared(g, t);
      CascadePared(g3, t);
      ParedTrans(Cascade(g3, t).g, g3, g);
    }
  }

  lemma {:induction false} CascadePared(g: Digraph, t: Node)
    requires Wellformed(g) && PredsValid(g) && (t.parent.Some? ==> t.parent.value.hash in g.members.nodeMap)
    ensures PredsValid(Cascade(g, t).g) && Pared(Cascade(g, t).g, g)
    decreases |g.members.nodeMap|, 1
  {
    if t.parent.Some? && Count(KidsOf(g, t.parent.value.hash)) == 0 {
      DeleteNodePared(g, t.parent.value.hash);
    } else {
      ParedSame(g, g);
    }
  }
}
