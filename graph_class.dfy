/**
 * The `HierarchicalDigraph` object of internal/graph/graph.go, whose methods
 * update its state in place.
 *
 * The graph owns its member set; every node owns its predecessor, successor
 * and children sets. Those per-node sets are held here in three maps keyed
 * by the owner's hash, so the state of the object is exactly a `Digraph`
 * value, and each method is proved to leave the state its spec function in
 * module `Graph` computes.
 */
module GraphObject {
  import opened Util
  import opened GraphNode
  import opened Graph

  class HierarchicalDigraph {
    var members: Refs
    var preds: map<string, Refs>
    var succs: map<string, Refs>
    var children: map<string, Refs>

    function State(): Digraph
      reads this
    {
      Digraph(members, preds, succs, children)
    }

    /** `NewHierarchicalDigraph`: no members. */
    constructor ()
      ensures State() == EmptyGraph
    {
      members := EmptyRefs;
      preds := map[];
      succs := map[];
      children := map[];
    }

    /** `GetNode`: the member registered under the hash; `None` stands for `ErrNodeNotFound`. */
    function GetNode(hash: string): (r: Option<Node>)
      reads this
      ensures r.Some? <==> hash in members.nodeMap
      ensures r.Some? ==> r.value == members.nodeMap[hash]
    {
      Lookup(members, hash)
    }

    /** `AddNode`: a new member, recorded among its parent's children. */
    method AddNode(node: Node) returns (err: Option<GraphError>)
      modifies this
      ensures err.None? <==> Graph.AddNode(old(State()), node).Updated?
      ensures err.None? ==> State() == Graph.AddNode(old(State()), node).g
      ensures err.Some? ==> err.value == Graph.AddNode(old(State()), node).err && State() == old(State())
    {
      if node.hash in members.nodeMap {
        return Some(NodeAlreadyExists);
      }
      if node.parent.Some? {
        var p := node.parent.value;
        if p.hash !in members.nodeMap {
          return Some(NodeNotFound);
        }
        children := children[p.hash := AddRef(RefsAt(children, p.hash), node)];
      }
      members := AddRef(members, node);
      return None;
    }

    /** `AddEdge`: after the checks, one more edge at every level up to a common ancestor. */
    method AddEdge(src: Node, dst: Node) returns (err: Option<GraphError>)
      modifies this
      ensures err.None? <==> Graph.AddEdge(old(State()), src, dst).Updated?
      ensures err.None? ==> State() == Graph.AddEdge(old(State()), src, dst).g
      ensures err.Some? ==> err.value == Graph.AddEdge(old(State()), src, dst).err && State() == old(State())
    {
      if Weight(members, src.hash) == 0 || Weight(members, dst.hash) == 0 {
        return Some(NodeNotFound);
      }
      var srcDepth := NodeDepth(Some(src));
      var dstDepth := NodeDepth(Some(dst));
      if srcDepth != dstDepth {
        return Some(EdgeCrossLevel);
      }
      var s, d := Some(src), Some(dst);
      while s.Some? && d.Some? && s.value.hash != d.value.hash
        invariant LinkUp(old(State()), Some(src), Some(dst)) == LinkUp(State(), s, d)
        decreases s
      {
        succs := succs[s.value.hash := AddRef(RefsAt(succs, s.value.hash), d.value)];
        preds := preds[d.value.hash := AddRef(RefsAt(preds, d.value.hash), s.value)];
        s, d := s.value.parent, d.value.parent;
      }
      return None;
    }

    /** `DeleteEdge`: cut the edges between the two subtrees, then one edge fewer at every level above. */
    method DeleteEdge(src: Node, dst: Node) returns (err: Option<GraphError>)
      requires Wellformed(State())
      modifies this
      ensures err.None? <==> Graph.DeleteEdge(old(State()), src, dst).Updated?
      ensures err.None? ==> State() == Graph.DeleteEdge(old(State()), src, dst).g
      ensures err.Some? ==> err.value == Graph.DeleteEdge(old(State()), src, dst).err && State() == old(State())
    {
      if Weight(members, src.hash) == 0 || Weight(members, dst.hash) == 0 {
        return Some(NodeNotFound);
      }
      DisconnectNodeFromTarget(src, dst);
      var s, d := src.parent, dst.parent;
      while s.Some? && d.Some? && s.value.hash != d.value.hash
        invariant UnlinkUp(Disconnect(old(State()), src, dst), src.parent, dst.parent) == UnlinkUp(State(), s, d)
        decreases s
      {
        succs := succs[s.value.hash := DeleteRef(RefsAt(succs, s.value.hash), d.value.hash)];
        preds := preds[d.value.hash := DeleteRef(RefsAt(preds, d.value.hash), s.value.hash)];
        s, d := s.value.parent, d.value.parent;
      }
      return None;
    }

    /** `GetLevel`: a fresh reference set of the members at the depth, in member order. */
    method GetLevel(level: int) returns (r: Refs)
      ensures r == Graph.GetLevel(State(), level)
    {
      var l := members.nodeList;
      r := EmptyRefs;
      var i := 0;
      while i < |l|
        invariant 0 <= i <= |l|
        invariant r == LevelRefs(l[..i], level)
      {
        var depth := NodeDepth(Some(l[i]));
        assert l[..i + 1][..i] == l[..i];
        if depth == level {
          r := AddRef(r, l[i]);
        }
        i := i + 1;
      }
      assert l[..i] == l;
    }

    /** `disconnectNodeFromTarget`: the children's edges first, then those of `n` into the target's subtree. */
    method DisconnectNodeFromTarget(n: Node, target: Node)
      requires Wellformed(State())
      modifies this
      ensures State() == Disconnect(old(State()), n, target)
      decreases Rank(members.nodeMap, n.hash), 1
    {
      ghost var g0 := State();
      var kids := ListRefs(RefsAt(children, n.hash));
      ListMembers(KidsOf(g0, n.hash));
      KidsAreChildren(g0, n);
      var i := 0;
      while i < |kids|
        invariant 0 <= i <= |kids|
        invariant members == g0.members && children == g0.children
        invariant DisconnectChildren(g0, kids, n.hash, target) == DisconnectChildren(State(), kids[i..], n.hash, target)
      {
        var x := kids[i];
        assert x in kids;
        KidFacts(g0, n.hash, x);
        ChildRankIn(members.nodeMap, members.nodeMap, n.hash, x);
        assert kids[i..][0] == x && kids[i..][1..] == kids[i + 1..];
        DisconnectNodeFromTarget(x, target);
        i := i + 1;
      }
      DisconnectSuccessors(n, target);
    }

    /** The successor loop of `disconnectNodeFromTarget`: wipe the edges from `n` into the target's subtree. */
    method DisconnectSuccessors(n: Node, target: Node)
      modifies this
      ensures State() == WipeSuccessors(old(State()), n, ListRefs(SuccsOf(old(State()), n.hash)), target)
    {
      ghost var g1 := State();
      var ss := ListRefs(RefsAt(succs, n.hash));
      var j := 0;
      while j < |ss|
        invariant 0 <= j <= |ss|
        invariant WipeSuccessors(g1, n, ss, target) == WipeSuccessors(State(), n, ss[j..], target)
      {
        var succ := ss[j];
        assert ss[j..][0] == succ && ss[j..][1..] == ss[j + 1..];
        var below := IsChild(Some(succ), Some(target));
        if below {
          succs := succs[n.hash := WipeRef(RefsAt(succs, n.hash), succ.hash)];
          preds := preds[succ.hash := WipeRef(RefsAt(preds, succ.hash), n.hash)];
        }
        j := j + 1;
      }
    }

    /** `deleteNode`: the children's subtrees first, then the node leaves the members and its parent's children. */
    method DeleteSubtree(n: Node)
      requires Wellformed(State())
      requires n.hash in members.nodeMap ==> members.nodeMap[n.hash] == n
      modifies this
      ensures State() == RemoveSubtree(old(State()), n)
      decreases Rank(members.nodeMap, n.hash), 1
    {
      ghost var g0 := State();
      ghost var m0 := members.nodeMap;
      var kids := ListRefs(RefsAt(children, n.hash));
      KidsAreChildren(g0, n);
      var i := 0;
      while i < |kids|
        invariant 0 <= i <= |kids|
        invariant Wellformed(State()) && Restricts(members.nodeMap, m0)
        invariant RemoveChildren(g0, kids, n.hash, m0) == RemoveChildren(State(), kids[i..], n.hash, m0)
      {
        var x := kids[i];
        assert x in kids;
        ChildRankIn(members.nodeMap, m0, n.hash, x);
        assert kids[i..][0] == x && kids[i..][1..] == kids[i + 1..];
        DeleteSubtree(x);
        i := i + 1;
      }
      UnlistNode(n);
    }

    /** The end of `deleteNode`: `n` leaves the members and its parent's children. */
    method UnlistNode(n: Node)
      modifies this
      ensures State() == Unlist(old(State()), n)
    {
      members := DeleteRef(members, n.hash);
      if n.parent.Some? {
        var p := n.parent.value;
        children := children[p.hash := DeleteRef(RefsAt(children, p.hash), n.hash)];
      }
    }

    /** The body of `DeleteNode` up to its parent loop: disconnect the target, then delete its subtree. */
    method DetachNode(target: Node)
      requires Wellformed(State())
      requires target.hash in members.nodeMap && members.nodeMap[target.hash] == target
      modifies this
      ensures State() == Detach(old(State()), target)
    {
      ghost var g0 := State();
      var ps := ListRefs(RefsAt(preds, target.hash));
      var i := 0;
      while i < |ps|
        invariant 0 <= i <= |ps|
        invariant members == g0.members && children == g0.children
        invariant DisconnectPreds(g0, ps, target) == DisconnectPreds(State(), ps[i..], target)
      {
        assert ps[i..][0] == ps[i] && ps[i..][1..] == ps[i + 1..];
        DisconnectNodeFromTarget(ps[i], target);
        i := i + 1;
      }
      ghost var g1 := State();
      var ss := ListRefs(RefsAt(succs, target.hash));
      var j := 0;
      while j < |ss|
        invariant 0 <= j <= |ss|
        invariant members == g0.members && children == g0.children
        invariant DisconnectSuccs(g1, target, ss) == DisconnectSuccs(State(), target, ss[j..])
      {
        assert ss[j..][0] == ss[j] && ss[j..][1..] == ss[j + 1..];
        DisconnectNodeFromTarget(target, ss[j]);
        j := j + 1;
      }
      DeleteSubtree(target);
    }

    /**
     * `DeleteNode` as corrected: detach the target, and when that leaves its
     * parent without children, delete the parent, whose own deletion carries
     * the cascade further up.
     */
    method DeleteNode(hash: string) returns (err: Option<GraphError>)
      requires Wellformed(State())
      modifies this
      ensures err.None? <==> Graph.DeleteNode(old(State()), hash).Updated?
      ensures err.None? ==> State() == Graph.DeleteNode(old(State()), hash).g
      ensures err.Some? ==> err.value == Graph.DeleteNode(old(State()), hash).err && State() == old(State())
      decreases |members.nodeMap|
    {
      if hash !in members.nodeMap {
        return Some(NodeNotFound);
      }
      ghost var g0 := State();
      var target := members.nodeMap[hash];
      DetachNode(target);
      ParentSurvives(g0, target, State());
      SmallerAfterRemoval(members.nodeMap, g0.members.nodeMap, hash);
      if target.parent.Some? {
        var p := target.parent.value;
        if Count(RefsAt(children, p.hash)) == 0 {
          err := DeleteNode(p.hash);
          return;
        }
      }
      return None;
    }
  }
}
