/**
 * The edges of the hierarchical digraph (internal/graph/graph.go): the
 * invariant that keeps successor and predecessor sets mirrored, and what
 * `AddEdge`, `DeleteEdge` and `disconnectNodeFromTarget` do to the weights.
 */
module GraphEdges {
  import opened Util
  import opened GraphNode
  import opened Graph

  /** The weight of the edge `a -> b`, as recorded on the successor side. */
  function EdgeWeight(g: Digraph, a: string, b: string): int
  {
    Weight(SuccsOf(g, a), b)
  }

  /** Every edge is recorded with the same weight on both of its ends. */
  ghost predicate Mirrored(g: Digraph)
  {
    forall a, b :: Weight(SuccsOf(g, a), b) == Weight(PredsOf(g, b), a)
  }

  predicate SuccsValid(g: Digraph)
  {
    forall h | h in g.succs :: RefsValid(g.succs[h])
  }

  predicate PredsValid(g: Digraph)
  {
    forall h | h in g.preds :: RefsValid(g.preds[h])
  }

  /** The edge invariant: valid reference sets on both sides, mirrored. */
  ghost predicate EdgesValid(g: Digraph)
  {
    SuccsValid(g) && PredsValid(g) && Mirrored(g)
  }

  /** `r1` keeps some of the entries of `r0`, with their weights. */
  predicate SubRefs(r1: Refs, r0: Refs)
  {
    Restricts(r1.nodeMap, r0.nodeMap) && forall k | k in r1.nodeMap :: Weight(r1, k) == Weight(r0, k)
  }

  /** `r` is `g` with some successor entries removed whole, and no other change to the successors. */
  ghost predicate Trimmed(r: Digraph, g: Digraph)
  {
    forall a :: SubRefs(SuccsOf(r, a), SuccsOf(g, a))
  }

  /** `a` is `h` or the hash of a member below `h`. */
  predicate Under(m: map<string, Node>, a: string, h: string)
  {
    a == h || (a in m && DescendsFrom(m[a], h))
  }

  /** No successor of `a` is `t` or below it. */
  predicate Cleared(g: Digraph, a: string, t: string)
  {
    forall b | b in SuccsOf(g, a).nodeMap :: !DescendsFrom(SuccsOf(g, a).nodeMap[b], t)
  }

  // ---------------------------------------------------------------------------
  // Trimming.

  lemma TrimmedTrans(r2: Digraph, r1: Digraph, r0: Digraph)
    requires Trimmed(r2, r1) && Trimmed(r1, r0)
    ensures Trimmed(r2, r0)
  {
    forall a ensures SubRefs(SuccsOf(r2, a), SuccsOf(r0, a)) {
      assert SubRefs(SuccsOf(r2, a), SuccsOf(r1, a));
      assert SubRefs(SuccsOf(r1, a), SuccsOf(r0, a));
    }
  }

  lemma ClearedTrimmed(r: Digraph, g: Digraph, a: string, t: string)
    requires Trimmed(r, g) && Cleared(g, a, t)
    ensures Cleared(r, a, t)
  {
    assert SubRefs(SuccsOf(r, a), SuccsOf(g, a));
  }

  lemma WipeSub(r: Refs, h: string)
    requires RefsValid(r)
    ensures RefsValid(WipeRef(r, h)) && SubRefs(WipeRef(r, h), r)
    ensures WipeRef(r, h).nodeMap == r.nodeMap - {h}
  {
    WipePreservesValid(r, h);
  }

  /** Removing every edge from `a` to `b` removes that one successor entry and no other. */
  lemma WipeRefsTrims(g: Digraph, a: Node, b: Node)
    requires SuccsValid(g)
    ensures SuccsValid(WipeRefs(g, a, b)) && Trimmed(WipeRefs(g, a, b), g)
    ensures forall x | x != a.hash :: SuccsOf(WipeRefs(g, a, b), x) == SuccsOf(g, x)
    ensures SuccsOf(WipeRefs(g, a, b), a.hash).nodeMap == SuccsOf(g, a.hash).nodeMap - {b.hash}
  {
    var s := WipeRef(SuccsOf(g, a.hash), b.hash);
    assert RefsValid(s) && SubRefs(s, SuccsOf(g, a.hash)) && s.nodeMap == SuccsOf(g, a.hash).nodeMap - {b.hash} by {
      SuccsAt(g, a.hash);
      WipeSub(SuccsOf(g, a.hash), b.hash);
    }
    ValidAfterUpdate(g.succs, a.hash, s, g.succs[a.hash := s]);
    var w := WipeRefs(g, a, b);
    forall x ensures SuccsOf(w, x) == if x == a.hash then s else SuccsOf(g, x) {
      RefsAtAfterUpdate(g.succs, a.hash, s, x);
    }
    forall x ensures SubRefs(SuccsOf(w, x), SuccsOf(g, x)) {
    }
  }

  /** Looking up references in a map after one of its entries is replaced. */
  lemma RefsAtAfterUpdate(c: map<string, Refs>, h0: string, r: Refs, h: string)
    ensures RefsAt(c[h0 := r], h) == if h == h0 then r else RefsAt(c, h)
  {
    if h != h0 {
      assert (h in c[h0 := r]) == (h in c);
    }
  }

  lemma WipeSuccWeight(g: Digraph, a: Node, b: Node, x: string, y: string)
    requires RefsValid(SuccsOf(g, a.hash))
    ensures EdgeWeight(WipeRefs(g, a, b), x, y) == if x == a.hash && y == b.hash then 0 else EdgeWeight(g, x, y)
  {
    if x == a.hash {
      WipeWeight(SuccsOf(g, a.hash), b.hash, y);
    }
  }

  lemma WipePredWeight(g: Digraph, a: Node, b: Node, x: string, y: string)
    requires RefsValid(PredsOf(g, b.hash))
    ensures Weight(PredsOf(WipeRefs(g, a, b), y), x) == if x == a.hash && y == b.hash then 0 else Weight(PredsOf(g, y), x)
  {
    if y == b.hash {
      WipeWeight(PredsOf(g, b.hash), a.hash, x);
    }
  }

  lemma SuccsAt(g: Digraph, h: string)
    requires SuccsValid(g)
    ensures RefsValid(SuccsOf(g, h))
  {
  }

  lemma PredsAt(g: Digraph, h: string)
    requires PredsValid(g)
    ensures RefsValid(PredsOf(g, h))
  {
  }

  lemma WipeRefsValid(g: Digraph, a: Node, b: Node)
    requires SuccsValid(g) && PredsValid(g)
    ensures SuccsValid(WipeRefs(g, a, b)) && PredsValid(WipeRefs(g, a, b))
  {
    SuccsAt(g, a.hash);
    PredsAt(g, b.hash);
    WipePreservesValid(SuccsOf(g, a.hash), b.hash);
    WipePreservesValid(PredsOf(g, b.hash), a.hash);
  }

  lemma WipeRefsMirrored(g: Digraph, a: Node, b: Node)
    requires Mirrored(g) && RefsValid(SuccsOf(g, a.hash)) && RefsValid(PredsOf(g, b.hash))
    ensures Mirrored(WipeRefs(g, a, b))
  {
    var w := WipeRefs(g, a, b);
    forall x, y ensures Weight(SuccsOf(w, x), y) == Weight(PredsOf(w, y), x) {
      WipeSuccWeight(g, a, b, x, y);
      WipePredWeight(g, a, b, x, y);
    }
  }

  /** Removing every edge from `a` to `b` on both sides keeps the edge invariant. */
  lemma WipeRefsMirror(g: Digraph, a: Node, b: Node)
    requires EdgesValid(g)
    ensures EdgesValid(WipeRefs(g, a, b))
  {
    WipeRefsValid(g, a, b);
    SuccsAt(g, a.hash);
    PredsAt(g, b.hash);
    WipeRefsMirrored(g, a, b);
  }

  /** The nodes of `ss` are the entries of the successor set of `a` under their hashes. */
  predicate Agrees(g: Digraph, a: string, ss: seq<Node>)
  {
    forall x | x in ss && x.hash in SuccsOf(g, a).nodeMap :: SuccsOf(g, a).nodeMap[x.hash] == x
  }

  /** The successor loop of `disconnectNodeFromTarget` only removes successor entries of `n`. */
  lemma {:induction false} WipeSuccessorsTrims(g: Digraph, n: Node, ss: seq<Node>, t: Node)
    requires SuccsValid(g)
    ensures SuccsValid(WipeSuccessors(g, n, ss, t)) && Trimmed(WipeSuccessors(g, n, ss, t), g)
    ensures forall a | a != n.hash :: SuccsOf(WipeSuccessors(g, n, ss, t), a) == SuccsOf(g, a)
    decreases |ss|
  {
    if ss == [] {
      assert forall a :: SubRefs(SuccsOf(g, a), SuccsOf(g, a));
    } else {
      var g1 := if DescendsFrom(ss[0], t.hash) then WipeRefs(g, n, ss[0]) else g;
      if DescendsFrom(ss[0], t.hash) {
        WipeRefsTrims(g, n, ss[0]);
      } else {
        assert forall a :: SubRefs(SuccsOf(g, a), SuccsOf(g, a));
      }
      WipeSuccessorsTrims(g1, n, ss[1..], t);
      TrimmedTrans(WipeSuccessors(g1, n, ss[1..], t), g1, g);
    }
  }

  /** The successor loop keeps the successors of `n` outside `t` and removes the listed ones under `t`. */
  lemma {:induction false} WipeSuccessorsKeeps(g: Digraph, n: Node, ss: seq<Node>, t: Node)
    requires SuccsValid(g) && Agrees(g, n.hash, ss)
    ensures forall b | b in SuccsOf(g, n.hash).nodeMap && !DescendsFrom(SuccsOf(g, n.hash).nodeMap[b], t.hash) ::
              b in SuccsOf(WipeSuccessors(g, n, ss, t), n.hash).nodeMap
    ensures forall x | x in ss && DescendsFrom(x, t.hash) :: x.hash !in SuccsOf(WipeSuccessors(g, n, ss, t), n.hash).nodeMap
    decreases |ss|
  {
    if ss != [] {
      var x := ss[0];
      var g1 := if DescendsFrom(x, t.hash) then WipeRefs(g, n, x) else g;
      if DescendsFrom(x, t.hash) {
        WipeRefsTrims(g, n, x);
      }
      assert SubRefs(SuccsOf(g1, n.hash), SuccsOf(g, n.hash));
      assert Agrees(g1, n.hash, ss[1..]) by {
        forall y | y in ss[1..] && y.hash in SuccsOf(g1, n.hash).nodeMap
          ensures SuccsOf(g1, n.hash).nodeMap[y.hash] == y
        {
          assert y in ss;
        }
      }
      WipeSuccessorsKeeps(g1, n, ss[1..], t);
      WipeSuccessorsTrims(g1, n, ss[1..], t);
      var r := WipeSuccessors(g1, n, ss[1..], t);
      assert r == WipeSuccessors(g, n, ss, t);
      forall b | b in SuccsOf(g, n.hash).nodeMap && !DescendsFrom(SuccsOf(g, n.hash).nodeMap[b], t.hash)
        ensures b in SuccsOf(r, n.hash).nodeMap
      {
        assert b in SuccsOf(g1, n.hash).nodeMap;
      }
      forall y | y in ss && DescendsFrom(y, t.hash) ensures y.hash !in SuccsOf(r, n.hash).nodeMap {
        if y != x {
          assert y in ss[1..];
        }
        assert SubRefs(SuccsOf(r, n.hash), SuccsOf(g1, n.hash));
      }
    }
  }

  lemma {:induction false} WipeSuccessorsMirror(g: Digraph, n: Node, ss: seq<Node>, t: Node)
    requires EdgesValid(g)
    ensures EdgesValid(WipeSuccessors(g, n, ss, t))
    decreases |ss|
  {
    if ss != [] {
      if DescendsFrom(ss[0], t.hash) {
        WipeRefsMirror(g, n, ss[0]);
        WipeSuccessorsMirror(WipeRefs(g, n, ss[0]), n, ss[1..], t);
      } else {
        WipeSuccessorsMirror(g, n, ss[1..], t);
      }
    }
  }

  /** Run over every listed successor of `n`, the loop leaves `n` with no successor under `t`. */
  lemma WipeSuccessorsClears(g: Digraph, n: Node, t: Node)
    requires SuccsValid(g)
    ensures Cleared(WipeSuccessors(g, n, ListRefs(SuccsOf(g, n.hash)), t), n.hash, t.hash)
  {
    var ss := ListRefs(SuccsOf(g, n.hash));
    var r := WipeSuccessors(g, n, ss, t);
    ListAgrees(g, n.hash);
    WipeSuccessorsTrims(g, n, ss, t);
    WipeSuccessorsKeeps(g, n, ss, t);
    forall b | b in SuccsOf(r, n.hash).nodeMap ensures !DescendsFrom(SuccsOf(r, n.hash).nodeMap[b], t.hash) {
      assert SubRefs(SuccsOf(r, n.hash), SuccsOf(g, n.hash));
      assert SuccsOf(g, n.hash).nodeMap[b] in ss;
    }
  }

  /** The listed successors of a valid set agree with it. */
  lemma ListAgrees(g: Digraph, a: string)
    requires SuccsValid(g)
    ensures Agrees(g, a, ListRefs(SuccsOf(g, a)))
    ensures forall b | b in SuccsOf(g, a).nodeMap :: SuccsOf(g, a).nodeMap[b] in ListRefs(SuccsOf(g, a))
  {
    var r := SuccsOf(g, a);
    forall x | x in ListRefs(r) ensures x.hash in r.nodeMap && r.nodeMap[x.hash] == x {
      ListHoldsMapped(r, x);
    }
    forall b | b in r.nodeMap ensures r.nodeMap[b] in ListRefs(r) {
      ListHoldsMapped(r, r.nodeMap[b]);
    }
  }

  // ---------------------------------------------------------------------------
  // The hierarchy seen from below.

  /** A member strictly below a child of `h` is strictly below `h`. */
  lemma UnderChild(g: Digraph, h: string, x: Node, a: string)
    requires Wellformed(g) && x in KidsOf(g, h).nodeList && Under(g.members.nodeMap, a, x.hash)
    ensures a in g.members.nodeMap && DescendsFrom(g.members.nodeMap[a], h) && a != h
  {
    var m := g.members.nodeMap;
    KidFacts(g, h, x);
    assert Depth(x) == Depth(m[h]) + 1;
    if a == x.hash {
      assert DescendsFrom(x.parent.value, h);
    } else {
      DescendsThroughParent(g.members, g.children, m[a], x.hash);
    }
  }

  /** A member strictly below `n` lies under one of the listed children of `n`. */
  lemma {:induction false} ChildOnPath(g: Digraph, n: string, a: string) returns (x: Node)
    requires Wellformed(g) && a in g.members.nodeMap && DescendsFrom(g.members.nodeMap[a], n) && a != n
    ensures x in ListRefs(KidsOf(g, n)) && Under(g.members.nodeMap, a, x.hash)
    decreases Depth(g.members.nodeMap[a])
  {
    var m := g.members.nodeMap;
    assert m[a].hash == a;
    assert ParentListed(m, m[a]);
    var p := m[a].parent.value;
    if p.hash == n {
      x := m[a];
      assert a in KidsOf(g, n).nodeMap;
      assert KidsOf(g, n).nodeMap[a] == x;
      ListHoldsMapped(KidsOf(g, n), x);
    } else {
      x := ChildOnPath(g, n, p.hash);
      assert DescendsFrom(p, x.hash);
    }
  }

  // ---------------------------------------------------------------------------
  // disconnectNodeFromTarget.

  /** Disconnecting only removes whole successor entries. */
  lemma {:induction false} DisconnectTrims(g: Digraph, n: Node, t: Node)
    requires Wellformed(g) && SuccsValid(g)
    ensures SuccsValid(Disconnect(g, n, t)) && Trimmed(Disconnect(g, n, t), g)
    decreases Rank(g.members.nodeMap, n.hash), 1
  {
    var kids := ListRefs(KidsOf(g, n.hash));
    ListMembers(KidsOf(g, n.hash));
    KidsAreChildren(g, n);
    var g1 := DisconnectChildren(g, kids, n.hash, t);
    DisconnectChildrenTrims(g, kids, n.hash, t);
    WipeSuccessorsTrims(g1, n, ListRefs(SuccsOf(g1, n.hash)), t);
    TrimmedTrans(Disconnect(g, n, t), g1, g);
  }

  lemma {:induction false} DisconnectChildrenTrims(g: Digraph, cs: seq<Node>, h: string, t: Node)
    requires Wellformed(g) && SuccsValid(g) && (cs != [] ==> h in g.members.nodeMap)
    requires forall x | x in cs :: x in KidsOf(g, h).nodeList
    ensures SuccsValid(DisconnectChildren(g, cs, h, t)) && Trimmed(DisconnectChildren(g, cs, h, t), g)
    decreases Rank(g.members.nodeMap, h), 0, |cs|
  {
    if cs == [] {
      assert forall a :: SubRefs(SuccsOf(g, a), SuccsOf(g, a));
    } else {
      assert cs[0] in cs;
      KidFacts(g, h, cs[0]);
      ChildRankIn(g.members.nodeMap, g.members.nodeMap, h, cs[0]);
      DisconnectTrims(g, cs[0], t);
      var g1 := Disconnect(g, cs[0], t);
      DisconnectChildrenTrims(g1, cs[1..], h, t);
      TrimmedTrans(DisconnectChildren(g, cs, h, t), g1, g);
    }
  }

  /** Disconnecting keeps the edge invariant. */
  lemma {:induction false} DisconnectMirror(g: Digraph, n: Node, t: Node)
    requires Wellformed(g) && EdgesValid(g)
    ensures EdgesValid(Disconnect(g, n, t))
    decreases Rank(g.members.nodeMap, n.hash), 1
  {
    var kids := ListRefs(KidsOf(g, n.hash));
    ListMembers(KidsOf(g, n.hash));
    KidsAreChildren(g, n);
    var g1 := DisconnectChildren(g, kids, n.hash, t);
    DisconnectChildrenMirror(g, kids, n.hash, t);
    WipeSuccessorsMirror(g1, n, ListRefs(SuccsOf(g1, n.hash)), t);
  }

  lemma {:induction false} DisconnectChildrenMirror(g: Digraph, cs: seq<Node>, h: string, t: Node)
    requires Wellformed(g) && EdgesValid(g) && (cs != [] ==> h in g.members.nodeMap)
    requires forall x | x in cs :: x in KidsOf(g, h).nodeList
    ensures EdgesValid(DisconnectChildren(g, cs, h, t))
    decreases Rank(g.members.nodeMap, h), 0, |cs|
  {
    if cs != [] {
      assert cs[0] in cs;
      KidFacts(g, h, cs[0]);
      ChildRankIn(g.members.nodeMap, g.members.nodeMap, h, cs[0]);
      DisconnectMirror(g, cs[0], t);
      DisconnectChildrenMirror(Disconnect(g, cs[0], t), cs[1..], h, t);
    }
  }

  /** Disconnecting keeps every successor entry except those from under `n` to under `t`. */
  lemma {:induction false} DisconnectKeeps(g: Digraph, n: Node, t: Node)
    requires Wellformed(g) && SuccsValid(g)
    ensures forall a, b | b in SuccsOf(g, a).nodeMap
                          && !(Under(g.members.nodeMap, a, n.hash) && DescendsFrom(SuccsOf(g, a).nodeMap[b], t.hash)) ::
              b in SuccsOf(Disconnect(g, n, t), a).nodeMap
    decreases Rank(g.members.nodeMap, n.hash), 1
  {
    var kids := ListRefs(KidsOf(g, n.hash));
    ListMembers(KidsOf(g, n.hash));
    KidsAreChildren(g, n);
    var g1 := DisconnectChildren(g, kids, n.hash, t);
    DisconnectChildrenTrims(g, kids, n.hash, t);
    DisconnectChildrenKeeps(g, kids, n.hash, t);
    ListAgrees(g1, n.hash);
    var ss := ListRefs(SuccsOf(g1, n.hash));
    WipeSuccessorsTrims(g1, n, ss, t);
    WipeSuccessorsKeeps(g1, n, ss, t);
    KeepsStep(g, g1, WipeSuccessors(g1, n, ss, t), g.members.nodeMap, n.hash, t.hash);
  }

  lemma KeepsStep(g: Digraph, g1: Digraph, r: Digraph, m: map<string, Node>, n: string, t: string)
    requires forall a, b | b in SuccsOf(g, a).nodeMap
                           && !(a in m && DescendsFrom(m[a], n) && a != n && DescendsFrom(SuccsOf(g, a).nodeMap[b], t)) ::
               b in SuccsOf(g1, a).nodeMap
    requires Trimmed(g1, g)
    requires forall a | a != n :: SuccsOf(r, a) == SuccsOf(g1, a)
    requires forall b | b in SuccsOf(g1, n).nodeMap && !DescendsFrom(SuccsOf(g1, n).nodeMap[b], t) :: b in SuccsOf(r, n).nodeMap
    ensures forall a, b | b in SuccsOf(g, a).nodeMap && !(Under(m, a, n) && DescendsFrom(SuccsOf(g, a).nodeMap[b], t)) ::
              b in SuccsOf(r, a).nodeMap
  {
    forall a, b | b in SuccsOf(g, a).nodeMap && !(Under(m, a, n) && DescendsFrom(SuccsOf(g, a).nodeMap[b], t))
      ensures b in SuccsOf(r, a).nodeMap
    {
      assert b in SuccsOf(g1, a).nodeMap;
      assert SubRefs(SuccsOf(g1, a), SuccsOf(g, a));
    }
  }

  lemma {:induction false} DisconnectChildrenKeeps(g: Digraph, cs: seq<Node>, h: string, t: Node)
    requires Wellformed(g) && SuccsValid(g) && (cs != [] ==> h in g.members.nodeMap)
    requires forall x | x in cs :: x in KidsOf(g, h).nodeList
    ensures forall a, b | b in SuccsOf(g, a).nodeMap
                          && !(a in g.members.nodeMap && DescendsFrom(g.members.nodeMap[a], h) && a != h
                               && DescendsFrom(SuccsOf(g, a).nodeMap[b], t.hash)) ::
              b in SuccsOf(DisconnectChildren(g, cs, h, t), a).nodeMap
    decreases Rank(g.members.nodeMap, h), 0, |cs|
  {
    if cs != [] {
      var m := g.members.nodeMap;
      var x := cs[0];
      assert x in cs;
      KidFacts(g, h, x);
      ChildRankIn(m, m, h, x);
      DisconnectKeeps(g, x, t);
      DisconnectTrims(g, x, t);
      var g1 := Disconnect(g, x, t);
      DisconnectChildrenKeeps(g1, cs[1..], h, t);
      forall a, b | b in SuccsOf(g, a).nodeMap
                    && !(a in m && DescendsFrom(m[a], h) && a != h && DescendsFrom(SuccsOf(g, a).nodeMap[b], t.hash))
        ensures b in SuccsOf(DisconnectChildren(g, cs, h, t), a).nodeMap
      {
        if Under(m, a, x.hash) {
          UnderChild(g, h, x, a);
        }
        assert b in SuccsOf(g1, a).nodeMap;
        assert SubRefs(SuccsOf(g1, a), SuccsOf(g, a));
      }
    }
  }

  /** After disconnecting, nothing under `n` has a successor under `t`. */
  lemma {:induction false} DisconnectClears(g: Digraph, n: Node, t: Node)
    requires Wellformed(g) && SuccsValid(g)
    ensures forall a | Under(g.members.nodeMap, a, n.hash) :: Cleared(Disconnect(g, n, t), a, t.hash)
    decreases Rank(g.members.nodeMap, n.hash), 1
  {
    var kids := ListRefs(KidsOf(g, n.hash));
    ListMembers(KidsOf(g, n.hash));
    KidsAreChildren(g, n);
    var g1 := DisconnectChildren(g, kids, n.hash, t);
    DisconnectChildrenTrims(g, kids, n.hash, t);
    DisconnectChildrenClears(g, kids, n.hash, t);
    var ss := ListRefs(SuccsOf(g1, n.hash));
    WipeSuccessorsTrims(g1, n, ss, t);
    WipeSuccessorsClears(g1, n, t);
    ClearsStep(g, n, kids, g1, WipeSuccessors(g1, n, ss, t), t.hash);
  }

  lemma ClearsStep(g: Digraph, n: Node, kids: seq<Node>, g1: Digraph, r: Digraph, t: string)
    requires Wellformed(g) && kids == ListRefs(KidsOf(g, n.hash))
    requires forall x, a | x in kids && Under(g.members.nodeMap, a, x.hash) :: Cleared(g1, a, t)
    requires Trimmed(r, g1) && Cleared(r, n.hash, t)
    ensures forall a | Under(g.members.nodeMap, a, n.hash) :: Cleared(r, a, t)
  {
    forall a | Under(g.members.nodeMap, a, n.hash) ensures Cleared(r, a, t) {
      if a != n.hash {
        var x := ChildOnPath(g, n.hash, a);
        ClearedTrimmed(r, g1, a, t);
      }
    }
  }

  lemma {:induction false} DisconnectChildrenClears(g: Digraph, cs: seq<Node>, h: string, t: Node)
    requires Wellformed(g) && SuccsValid(g) && (cs != [] ==> h in g.members.nodeMap)
    requires forall x | x in cs :: x in KidsOf(g, h).nodeList
    ensures forall x, a | x in cs && Under(g.members.nodeMap, a, x.hash) :: Cleared(DisconnectChildren(g, cs, h, t), a, t.hash)
    decreases Rank(g.members.nodeMap, h), 0, |cs|
  {
    if cs != [] {
      var m := g.members.nodeMap;
      assert cs[0] in cs;
      KidFacts(g, h, cs[0]);
      ChildRankIn(m, m, h, cs[0]);
      DisconnectClears(g, cs[0], t);
      DisconnectTrims(g, cs[0], t);
      var g1 := Disconnect(g, cs[0], t);
      assert g1.members == g.members;
      DisconnectChildrenClears(g1, cs[1..], h, t);
      DisconnectChildrenTrims(g1, cs[1..], h, t);
      var r := DisconnectChildren(g1, cs[1..], h, t);
      assert DisconnectChildren(g, cs, h, t) == r;
      ChildrenClearsStep(cs, g1, r, m, t.hash);
    }
  }

  lemma ChildrenClearsStep(cs: seq<Node>, g1: Digraph, r: Digraph, m: map<string, Node>, t: string)
    requires cs != []
    requires forall a | Under(m, a, cs[0].hash) :: Cleared(g1, a, t)
    requires Trimmed(r, g1)
    requires forall x, a | x in cs[1..] && Under(m, a, x.hash) :: Cleared(r, a, t)
    ensures forall x, a | x in cs && Under(m, a, x.hash) :: Cleared(r, a, t)
  {
    forall x, a | x in cs && Under(m, a, x.hash) ensures Cleared(r, a, t) {
      if x == cs[0] {
        ClearedTrimmed(r, g1, a, t);
      } else {
        assert x in cs[1..];
      }
    }
  }

  // ---------------------------------------------------------------------------
  // AddEdge and DeleteEdge: the walk up the two parent chains.

  /** How often the walk from `s` and `d` up to a common ancestor visits the pair `a -> b`. */
  function PairCount(s: Option<Node>, d: Option<Node>, a: string, b: string): nat
    decreases s
  {
    if s.None? || d.None? || s.value.hash == d.value.hash then 0
    else (if s.value.hash == a && d.value.hash == b then 1 else 0) + PairCount(s.value.parent, d.value.parent, a, b)
  }

  /** The `k`-th ancestors of `s` and `d`, and all those below them, exist and differ. */
  predicate Apart(s: Node, d: Node, k: nat)
  {
    s.hash != d.hash && (k > 0 ==> s.parent.Some? && d.parent.Some? && Apart(s.parent.value, d.parent.value, k - 1))
  }

  /** The walk visits each pair of `k`-th ancestors that are still apart. */
  lemma {:induction false} PairCountVisits(s: Node, d: Node, k: nat)
    requires Apart(s, d, k)
    ensures Ancestor(s, k).Some? && Ancestor(d, k).Some?
    ensures PairCount(Some(s), Some(d), Ancestor(s, k).value.hash, Ancestor(d, k).value.hash) >= 1
  {
    if k > 0 {
      PairCountVisits(s.parent.value, d.parent.value, k - 1);
    }
  }

  /** Only such pairs are visited. */
  lemma {:induction false} PairCountOnlyAncestors(s: Node, d: Node, a: string, b: string) returns (k: nat)
    requires PairCount(Some(s), Some(d), a, b) > 0
    ensures Apart(s, d, k) && Ancestor(s, k).Some? && Ancestor(d, k).Some?
    ensures Ancestor(s, k).value.hash == a && Ancestor(d, k).value.hash == b
    decreases s
  {
    if s.hash == a && d.hash == b {
      k := 0;
    } else {
      var j := PairCountOnlyAncestors(s.parent.value, d.parent.value, a, b);
      k := j + 1;
    }
  }

  lemma LinkSuccWeight(g: Digraph, a: Node, b: Node, x: string, y: string)
    ensures EdgeWeight(LinkRefs(g, a, b), x, y) == EdgeWeight(g, x, y) + (if x == a.hash && y == b.hash then 1 else 0)
  {
    if x == a.hash {
      AddWeight(SuccsOf(g, a.hash), b, y);
    }
  }

  lemma LinkPredWeight(g: Digraph, a: Node, b: Node, x: string, y: string)
    ensures Weight(PredsOf(LinkRefs(g, a, b), y), x) == Weight(PredsOf(g, y), x) + (if x == a.hash && y == b.hash then 1 else 0)
  {
    if y == b.hash {
      AddWeight(PredsOf(g, b.hash), a, x);
    }
  }

  /** Replacing one entry of a map of valid references by valid references keeps them all valid. */
  lemma ValidAfterUpdate(m: map<string, Refs>, h: string, r: Refs, m': map<string, Refs>)
    requires (forall k | k in m :: RefsValid(m[k])) && RefsValid(r) && m' == m[h := r]
    ensures forall k | k in m' :: RefsValid(m'[k])
  {
  }

  lemma LinkRefsValid(g: Digraph, a: Node, b: Node)
    requires SuccsValid(g) && PredsValid(g)
    ensures SuccsValid(LinkRefs(g, a, b)) && PredsValid(LinkRefs(g, a, b))
  {
    var s, p := AddRef(SuccsOf(g, a.hash), b), AddRef(PredsOf(g, b.hash), a);
    assert RefsValid(s) by {
      SuccsAt(g, a.hash);
      AddPreservesValid(SuccsOf(g, a.hash), b);
    }
    assert RefsValid(p) by {
      PredsAt(g, b.hash);
      AddPreservesValid(PredsOf(g, b.hash), a);
    }
    ValidAfterUpdate(g.succs, a.hash, s, g.succs[a.hash := s]);
    ValidAfterUpdate(g.preds, b.hash, p, g.preds[b.hash := p]);
  }

  lemma LinkRefsMirrored(g: Digraph, a: Node, b: Node)
    requires Mirrored(g)
    ensures Mirrored(LinkRefs(g, a, b))
    ensures forall x, y :: EdgeWeight(LinkRefs(g, a, b), x, y) == EdgeWeight(g, x, y) + (if x == a.hash && y == b.hash then 1 else 0)
  {
    var l := LinkRefs(g, a, b);
    forall x, y ensures Weight(SuccsOf(l, x), y) == Weight(PredsOf(l, y), x) {
      LinkMirroredAt(g, a, b, x, y);
    }
    forall x, y ensures EdgeWeight(l, x, y) == EdgeWeight(g, x, y) + (if x == a.hash && y == b.hash then 1 else 0) {
      LinkSuccWeight(g, a, b, x, y);
    }
  }

  /** The edge `x -> y` after linking `a -> b`, on both sides, where it was mirrored before. */
  lemma LinkMirroredAt(g: Digraph, a: Node, b: Node, x: string, y: string)
    requires Weight(SuccsOf(g, x), y) == Weight(PredsOf(g, y), x)
    ensures Weight(SuccsOf(LinkRefs(g, a, b), x), y) == Weight(PredsOf(LinkRefs(g, a, b), y), x)
  {
    LinkSuccWeight(g, a, b, x, y);
    LinkPredWeight(g, a, b, x, y);
  }

  /** One more edge `a -> b`, recorded on both sides, keeps the edge invariant. */
  lemma LinkRefsLaws(g: Digraph, a: Node, b: Node)
    requires EdgesValid(g)
    ensures EdgesValid(LinkRefs(g, a, b))
    ensures forall x, y :: EdgeWeight(LinkRefs(g, a, b), x, y) == EdgeWeight(g, x, y) + (if x == a.hash && y == b.hash then 1 else 0)
  {
    LinkRefsValid(g, a, b);
    LinkRefsMirrored(g, a, b);
  }

  /** `x` less `k`, but not below zero. */
  function Monus(x: int, k: nat): int
  {
    if x > k then x - k else 0
  }

  lemma UnlinkSuccWeight(g: Digraph, a: Node, b: Node, x: string, y: string)
    requires RefsValid(SuccsOf(g, a.hash))
    ensures EdgeWeight(UnlinkRefs(g, a, b), x, y) ==
            if x == a.hash && y == b.hash then Monus(EdgeWeight(g, x, y), 1) else EdgeWeight(g, x, y)
  {
    if x == a.hash {
      DeleteWeight(SuccsOf(g, a.hash), b.hash, y);
      MappedIffWeighted(SuccsOf(g, a.hash), y);
    }
  }

  lemma UnlinkPredWeight(g: Digraph, a: Node, b: Node, x: string, y: string)
    requires RefsValid(PredsOf(g, b.hash))
    ensures Weight(PredsOf(UnlinkRefs(g, a, b), y), x) ==
            if x == a.hash && y == b.hash then Monus(Weight(PredsOf(g, y), x), 1) else Weight(PredsOf(g, y), x)
  {
    if y == b.hash {
      DeleteWeight(PredsOf(g, b.hash), a.hash, x);
      MappedIffWeighted(PredsOf(g, b.hash), x);
    }
  }

  lemma UnlinkRefsValid(g: Digraph, a: Node, b: Node)
    requires SuccsValid(g) && PredsValid(g)
    ensures SuccsValid(UnlinkRefs(g, a, b)) && PredsValid(UnlinkRefs(g, a, b))
  {
    SuccsAt(g, a.hash);
    PredsAt(g, b.hash);
    DeletePreservesValid(SuccsOf(g, a.hash), b.hash);
    DeletePreservesValid(PredsOf(g, b.hash), a.hash);
  }

  lemma UnlinkRefsMirrored(g: Digraph, a: Node, b: Node)
    requires Mirrored(g) && RefsValid(SuccsOf(g, a.hash)) && RefsValid(PredsOf(g, b.hash))
    ensures Mirrored(UnlinkRefs(g, a, b))
    ensures forall x, y :: EdgeWeight(UnlinkRefs(g, a, b), x, y) ==
              if x == a.hash && y == b.hash then Monus(EdgeWeight(g, x, y), 1) else EdgeWeight(g, x, y)
  {
    var u := UnlinkRefs(g, a, b);
    forall x, y ensures Weight(SuccsOf(u, x), y) == Weight(PredsOf(u, y), x) {
      UnlinkMirroredAt(g, a, b, x, y);
    }
    forall x, y ensures EdgeWeight(u, x, y) == if x == a.hash && y == b.hash then Monus(EdgeWeight(g, x, y), 1) else EdgeWeight(g, x, y) {
      UnlinkSuccWeight(g, a, b, x, y);
    }
  }

  /** The edge `x -> y` after unlinking `a -> b`, on both sides, where it was mirrored before. */
  lemma UnlinkMirroredAt(g: Digraph, a: Node, b: Node, x: string, y: string)
    requires RefsValid(SuccsOf(g, a.hash)) && RefsValid(PredsOf(g, b.hash))
    requires Weight(SuccsOf(g, x), y) == Weight(PredsOf(g, y), x)
    ensures Weight(SuccsOf(UnlinkRefs(g, a, b), x), y) == Weight(PredsOf(UnlinkRefs(g, a, b), y), x)
  {
    UnlinkSuccWeight(g, a, b, x, y);
    UnlinkPredWeight(g, a, b, x, y);
  }

  /** One edge `a -> b` fewer, on both sides, keeps the edge invariant. */
  lemma UnlinkRefsLaws(g: Digraph, a: Node, b: Node)
    requires EdgesValid(g)
    ensures EdgesValid(UnlinkRefs(g, a, b))
    ensures forall x, y :: EdgeWeight(UnlinkRefs(g, a, b), x, y) ==
              if x == a.hash && y == b.hash then Monus(EdgeWeight(g, x, y), 1) else EdgeWeight(g, x, y)
  {
    UnlinkRefsValid(g, a, b);
    SuccsAt(g, a.hash);
    PredsAt(g, b.hash);
    UnlinkRefsMirrored(g, a, b);
  }

  /** The loop of `AddEdge` adds one to each edge once per visit of the walk, on both sides. */
  lemma {:induction false} LinkUpLaws(g: Digraph, s: Option<Node>, d: Option<Node>)
    requires EdgesValid(g)
    ensures EdgesValid(LinkUp(g, s, d))
    ensures forall a, b :: EdgeWeight(LinkUp(g, s, d), a, b) == EdgeWeight(g, a, b) + PairCount(s, d, a, b)
    decreases s
  {
    if !(s.None? || d.None? || s.value.hash == d.value.hash) {
      var l := LinkRefs(g, s.value, d.value);
      LinkRefsLaws(g, s.value, d.value);
      LinkUpLaws(l, s.value.parent, d.value.parent);
    }
  }

  lemma UnlinkRefsWeights(g: Digraph, a: Node, b: Node)
    requires RefsValid(SuccsOf(g, a.hash))
    ensures forall x, y :: EdgeWeight(UnlinkRefs(g, a, b), x, y) ==
              if x == a.hash && y == b.hash then Monus(EdgeWeight(g, x, y), 1) else EdgeWeight(g, x, y)
  {
    forall x, y ensures EdgeWeight(UnlinkRefs(g, a, b), x, y) ==
                          if x == a.hash && y == b.hash then Monus(EdgeWeight(g, x, y), 1) else EdgeWeight(g, x, y)
    {
      UnlinkSuccWeight(g, a, b, x, y);
    }
  }

  lemma {:induction false} UnlinkUpWeight(g: Digraph, s: Option<Node>, d: Option<Node>, a: string, b: string)
    requires SuccsValid(g) && PredsValid(g)
    ensures EdgeWeight(UnlinkUp(g, s, d), a, b) == Monus(EdgeWeight(g, a, b), PairCount(s, d, a, b))
    decreases s
  {
    if !(s.None? || d.None? || s.value.hash == d.value.hash) {
      var u := UnlinkRefs(g, s.value, d.value);
      SuccsAt(g, s.value.hash);
      UnlinkSuccWeight(g, s.value, d.value, a, b);
      UnlinkRefsValid(g, s.value, d.value);
      UnlinkUpWeight(u, s.value.parent, d.value.parent, a, b);
    }
  }

  lemma UnlinkUpWeights(g: Digraph, s: Option<Node>, d: Option<Node>)
    requires SuccsValid(g) && PredsValid(g)
    ensures forall a, b :: EdgeWeight(UnlinkUp(g, s, d), a, b) == Monus(EdgeWeight(g, a, b), PairCount(s, d, a, b))
  {
    forall a, b ensures EdgeWeight(UnlinkUp(g, s, d), a, b) == Monus(EdgeWeight(g, a, b), PairCount(s, d, a, b)) {
      UnlinkUpWeight(g, s, d, a, b);
    }
  }

  lemma {:induction false} UnlinkUpMirror(g: Digraph, s: Option<Node>, d: Option<Node>)
    requires EdgesValid(g)
    ensures EdgesValid(UnlinkUp(g, s, d))
    decreases s
  {
    if !(s.None? || d.None? || s.value.hash == d.value.hash) {
      UnlinkRefsLaws(g, s.value, d.value);
      UnlinkUpMirror(UnlinkRefs(g, s.value, d.value), s.value.parent, d.value.parent);
    }
  }

  /** The loop of `DeleteEdge` takes one from each edge once per visit of the walk, stopping at zero. */
  lemma UnlinkUpLaws(g: Digraph, s: Option<Node>, d: Option<Node>)
    requires EdgesValid(g)
    ensures EdgesValid(UnlinkUp(g, s, d))
    ensures forall a, b :: EdgeWeight(UnlinkUp(g, s, d), a, b) == Monus(EdgeWeight(g, a, b), PairCount(s, d, a, b))
  {
    UnlinkUpWeights(g, s, d);
    UnlinkUpMirror(g, s, d);
  }

  /**
   * `AddEdge`: both ends must be members at the same depth; then every pair of
   * ancestors visited on the way up to a common ancestor gains one edge, on both sides.
   */
  lemma AddEdgeLaws(g: Digraph, src: Node, dst: Node)
    requires RefsValid(g.members) && EdgesValid(g)
    ensures AddEdge(g, src, dst) == Refused(NodeNotFound) <==> src.hash !in g.members.nodeMap || dst.hash !in g.members.nodeMap
    ensures AddEdge(g, src, dst) == Refused(EdgeCrossLevel) <==>
              src.hash in g.members.nodeMap && dst.hash in g.members.nodeMap && Depth(src) != Depth(dst)
    ensures AddEdge(g, src, dst).Updated? ==>
              var r := AddEdge(g, src, dst).g;
              && EdgesValid(r) && r.members == g.members && r.children == g.children
              && forall a, b :: EdgeWeight(r, a, b) == EdgeWeight(g, a, b) + PairCount(Some(src), Some(dst), a, b)
  {
    MappedIffWeighted(g.members, src.hash);
    MappedIffWeighted(g.members, dst.hash);
    LinkUpLaws(g, Some(src), Some(dst));
  }

  /** An edge from a member to itself is accepted and changes nothing. */
  lemma AddSelfEdge(g: Digraph, n: Node)
    requires RefsValid(g.members) && n.hash in g.members.nodeMap
    ensures AddEdge(g, n, n) == Updated(g)
  {
    MappedIffWeighted(g.members, n.hash);
  }

  /**
   * `DeleteEdge`: every edge from `src` or below it to `dst` or below it is
   * removed whole, every other edge is kept, and then every pair of ancestors
   * visited on the way up loses one edge.
   */
  lemma DeleteEdgeLaws(g: Digraph, src: Node, dst: Node)
    requires Wellformed(g) && EdgesValid(g)
    ensures DeleteEdge(g, src, dst).Refused? <==> src.hash !in g.members.nodeMap || dst.hash !in g.members.nodeMap
    ensures DeleteEdge(g, src, dst).Updated? ==>
              var d := Disconnect(g, src, dst);
              var r := DeleteEdge(g, src, dst).g;
              && EdgesValid(r) && r.members == g.members && r.children == g.children
              && (forall a | Under(g.members.nodeMap, a, src.hash) :: Cleared(d, a, dst.hash))
              && (forall a, b | b in SuccsOf(g, a).nodeMap
                                && !(Under(g.members.nodeMap, a, src.hash) && DescendsFrom(SuccsOf(g, a).nodeMap[b], dst.hash)) ::
                    b in SuccsOf(d, a).nodeMap)
              && Trimmed(d, g)
              && forall a, b :: EdgeWeight(r, a, b) == Monus(EdgeWeight(d, a, b), PairCount(src.parent, dst.parent, a, b))
  {
    MappedIffWeighted(g.members, src.hash);
    MappedIffWeighted(g.members, dst.hash);
    if src.hash in g.members.nodeMap && dst.hash in g.members.nodeMap {
      DisconnectMirror(g, src, dst);
      DisconnectTrims(g, src, dst);
      DisconnectKeeps(g, src, dst);
      DisconnectClears(g, src, dst);
      UnlinkUpLaws(Disconnect(g, src, dst), src.parent, dst.parent);
    }
  }
}
