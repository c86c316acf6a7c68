/**
 * The hierarchical directed graph of internal/graph/graph.go, as a value and
 * as the spec functions its operations are proved against.
 *
 * In the source every node object owns three reference sets (predecessors,
 * successors, children). Here they are held in three maps keyed by the
 * owner's hash; a hash that was never given a reference set has an empty one.
 */
module Graph {
  import opened Util
  import opened GraphNode

  datatype GraphError = NodeAlreadyExists | NodeNotFound | EdgeCrossLevel

  datatype Digraph = Digraph(members: Refs, preds: map<string, Refs>, succs: map<string, Refs>, children: map<string, Refs>)

  /** `NewHierarchicalDigraph`. */
  const EmptyGraph: Digraph := Digraph(EmptyRefs, map[], map[], map[])

  /** What a mutating operation returns: the new graph, or the error that left the graph as it was. */
  datatype Result = Updated(g: Digraph) | Refused(err: GraphError)

  function RefsAt(m: map<string, Refs>, h: string): Refs
  {
    if h in m then m[h] else EmptyRefs
  }

  function PredsOf(g: Digraph, h: string): Refs { RefsAt(g.preds, h) }
  function SuccsOf(g: Digraph, h: string): Refs { RefsAt(g.succs, h) }
  function KidsOf(g: Digraph, h: string): Refs { RefsAt(g.children, h) }

  function ParentHash(n: Node): Option<string>
  {
    match n.parent
    case None => None
    case Some(p) => Some(p.hash)
  }

  // ---------------------------------------------------------------------------
  // The invariant of the hierarchy.

  /** The parent of `n`, if any, is the member registered under its hash. */
  predicate ParentListed(m: map<string, Node>, n: Node)
  {
    n.parent.Some? ==> n.parent.value.hash in m && m[n.parent.value.hash] == n.parent.value
  }

  predicate SingleWeights(r: Refs)
  {
    forall k | k in r.weights :: r.weights[k] == 1
  }

  /** Members are referenced once each, and so is every child in every children set. */
  predicate SingleRefs(m: Refs, c: map<string, Refs>)
  {
    && RefsValid(m) && SingleWeights(m)
    && (forall h | h in c :: RefsValid(c[h]) && SingleWeights(c[h]))
  }

  /** The parent of every member is a member. */
  predicate ParentsListed(m: map<string, Node>)
  {
    forall k {:trigger ParentListed(m, m[k])} | k in m :: ParentListed(m, m[k])
  }

  /** The children set of `h` holds only members whose parent has hash `h`. */
  predicate KidsExact(m: map<string, Node>, c: map<string, Refs>)
  {
    forall h, k | h in c && k in c[h].nodeMap :: k in m && c[h].nodeMap[k] == m[k] && ParentHash(m[k]) == Some(h)
  }

  /** Every member with a parent is in its parent's children set. */
  predicate KidsComplete(m: map<string, Node>, c: map<string, Refs>)
  {
    forall k | k in m && m[k].parent.Some? :: k in RefsAt(c, m[k].parent.value.hash).nodeMap
  }

  /**
   * Members are referenced once each and their parents are members; the
   * children set of a hash holds exactly the members whose parent has that hash.
   */
  predicate Hierarchy(m: Refs, c: map<string, Refs>)
  {
    && SingleRefs(m, c)
    && ParentsListed(m.nodeMap)
    && KidsExact(m.nodeMap, c)
    && KidsComplete(m.nodeMap, c)
  }

  predicate Wellformed(g: Digraph)
  {
    Hierarchy(g.members, g.children)
  }

  /** `m1` is `m0` with some keys removed. */
  predicate Restricts(m1: map<string, Node>, m0: map<string, Node>)
  {
    forall k | k in m1 :: k in m0 && m0[k] == m1[k]
  }

  /** The members deeper than `d`. */
  function Deeper(m: map<string, Node>, d: nat): set<string>
  {
    set k | k in m && Depth(m[k]) > d
  }

  /** A termination measure for walks down the children sets: the members below `h`, plus one. */
  function Rank(m: map<string, Node>, h: string): nat
  {
    if h in m then |Deeper(m, Depth(m[h])) | + 1 else 0
  }

  // ---------------------------------------------------------------------------
  // The operations.

  /** `GetNode`: the member with the hash; `None` stands for `ErrNodeNotFound`. */
  function GetNode(g: Digraph, hash: string): (r: Option<Node>)
    ensures r.Some? <==> hash in g.members.nodeMap
    ensures RefsValid(g.members) && r.Some? ==> r.value.hash == hash && r.value in g.members.nodeList
  {
    Lookup(g.members, hash)
  }

  /** `AddNode`. */
  function AddNode(g: Digraph, node: Node): (r: Result)
    ensures r == Refused(NodeAlreadyExists) <==> node.hash in g.members.nodeMap
    ensures r == Refused(NodeNotFound) <==>
              node.hash !in g.members.nodeMap && node.parent.Some? && node.parent.value.hash !in g.members.nodeMap
    ensures r.Updated? ==> r.g.members.nodeMap == g.members.nodeMap[node.hash := node]
                           && r.g.preds == g.preds && r.g.succs == g.succs
  {
    if node.hash in g.members.nodeMap then Refused(NodeAlreadyExists)
    else match node.parent
      case None => Updated(g.(members := AddRef(g.members, node)))
      case Some(p) =>
        if p.hash !in g.members.nodeMap then Refused(NodeNotFound)
        else Updated(g.(members := AddRef(g.members, node),
                        children := g.children[p.hash := AddRef(KidsOf(g, p.hash), node)]))
  }

  /** One more edge from `a` to `b`, recorded on both sides. */
  function LinkRefs(g: Digraph, a: Node, b: Node): Digraph
  {
    g.(succs := g.succs[a.hash := AddRef(SuccsOf(g, a.hash), b)],
       preds := g.preds[b.hash := AddRef(PredsOf(g, b.hash), a)])
  }

  /** One edge fewer from `a` to `b`, on both sides. */
  function UnlinkRefs(g: Digraph, a: Node, b: Node): Digraph
  {
    g.(succs := g.succs[a.hash := DeleteRef(SuccsOf(g, a.hash), b.hash)],
       preds := g.preds[b.hash := DeleteRef(PredsOf(g, b.hash), a.hash)])
  }

  /** Every edge from `a` to `b` removed, on both sides. */
  function WipeRefs(g: Digraph, a: Node, b: Node): Digraph
  {
    g.(succs := g.succs[a.hash := WipeRef(SuccsOf(g, a.hash), b.hash)],
       preds := g.preds[b.hash := WipeRef(PredsOf(g, b.hash), a.hash)])
  }

  /** The loop of `AddEdge`: link `s` to `d`, then their parents, up to a common ancestor. */
  function LinkUp(g: Digraph, s: Option<Node>, d: Option<Node>): (r: Digraph)
    ensures r.members == g.members && r.children == g.children
    decreases s
  {
    if s.None? || d.None? || s.value.hash == d.value.hash then g
    else LinkUp(LinkRefs(g, s.value, d.value), s.value.parent, d.value.parent)
  }

  /** The loop of `DeleteEdge`: unlink the parents of `s` and `d` level by level, up to a common ancestor. */
  function UnlinkUp(g: Digraph, s: Option<Node>, d: Option<Node>): (r: Digraph)
    ensures r.members == g.members && r.children == g.children
    decreases s
  {
    if s.None? || d.None? || s.value.hash == d.value.hash then g
    else UnlinkUp(UnlinkRefs(g, s.value, d.value), s.value.parent, d.value.parent)
  }

  /** `AddEdge`: both ends must be members at the same depth. */
  function AddEdge(g: Digraph, src: Node, dst: Node): (r: Result)
  {
    if Weight(g.members, src.hash) == 0 then Refused(NodeNotFound)
    else if Weight(g.members, dst.hash) == 0 then Refused(NodeNotFound)
    else if Depth(src) != Depth(dst) then Refused(EdgeCrossLevel)
    else Updated(LinkUp(g, Some(src), Some(dst)))
  }

  /** `DeleteEdge`: cut every edge between the two subtrees, then unlink the ancestors once each. */
  function DeleteEdge(g: Digraph, src: Node, dst: Node): (r: Result)
    requires Wellformed(g)
  {
    if Weight(g.members, src.hash) == 0 then Refused(NodeNotFound)
    else if Weight(g.members, dst.hash) == 0 then Refused(NodeNotFound)
    else Updated(UnlinkUp(Disconnect(g, src, dst), src.parent, dst.parent))
  }

  /** `GetLevel`: the members of the list at depth `level`, in order. */
  function LevelRefs(l: seq<Node>, level: int): Refs
  {
    if l == [] then EmptyRefs
    else
      var r := LevelRefs(l[..|l| - 1], level);
      if Depth(l[|l| - 1]) == level then AddRef(r, l[|l| - 1]) else r
  }

  function GetLevel(g: Digraph, level: int): Refs
  {
    LevelRefs(g.members.nodeList, level)
  }

  lemma ListMembers(r: Refs)
    ensures forall x :: x in ListRefs(r) <==> x in r.nodeList
  {
    ListSortedCopy(r);
    forall x ensures x in ListRefs(r) <==> x in r.nodeList {
      assert x in ListRefs(r) <==> x in multiset(ListRefs(r));
      assert x in r.nodeList <==> x in multiset(r.nodeList);
    }
  }

  /** `disconnectNodeFromTarget`: cut the edges from `n` and its descendants to `target` and its descendants. */
  function Disconnect(g: Digraph, n: Node, target: Node): (r: Digraph)
    requires Wellformed(g)
    ensures r.members == g.members && r.children == g.children
    decreases Rank(g.members.nodeMap, n.hash), 1
  {
    var kids := ListRefs(KidsOf(g, n.hash));
    ListMembers(KidsOf(g, n.hash));
    KidsAreChildren(g, n);
    var g1 := DisconnectChildren(g, kids, n.hash, target);
    WipeSuccessors(g1, n, ListRefs(SuccsOf(g1, n.hash)), target)
  }

  function DisconnectChildren(g: Digraph, cs: seq<Node>, h: string, target: Node): (r: Digraph)
    requires Wellformed(g) && (cs != [] ==> h in g.members.nodeMap)
    requires forall x | x in cs :: x in KidsOf(g, h).nodeList
    ensures r.members == g.members && r.children == g.children
    decreases Rank(g.members.nodeMap, h), 0, |cs|
  {
    if cs == [] then g
    else
      assert cs[0] in cs;
      KidFacts(g, h, cs[0]);
      ChildRankIn(g.members.nodeMap, g.members.nodeMap, h, cs[0]);
      var g1 := Disconnect(g, cs[0], target);
      DisconnectChildren(g1, cs[1..], h, target)
  }

  /** The successor loop of `disconnectNodeFromTarget`, over the listed successors of `n`. */
  function WipeSuccessors(g: Digraph, n: Node, ss: seq<Node>, target: Node): (r: Digraph)
    ensures r.members == g.members && r.children == g.children
    decreases |ss|
  {
    if ss == [] then g
    else
      var g1 := if DescendsFrom(ss[0], target.hash) then WipeRefs(g, n, ss[0]) else g;
      WipeSuccessors(g1, n, ss[1..], target)
  }

  /** `n` leaves the members and its parent's children. */
  function Unlist(g: Digraph, n: Node): Digraph
  {
    g.(members := DeleteRef(g.members, n.hash),
       children := match n.parent
         case None => g.children
         case Some(p) => g.children[p.hash := DeleteRef(KidsOf(g, p.hash), n.hash)])
  }

  /** `deleteNode`: the children's subtrees first, then the node itself. */
  function RemoveSubtree(g: Digraph, n: Node): (r: Digraph)
    requires Wellformed(g)
    requires n.hash in g.members.nodeMap ==> g.members.nodeMap[n.hash] == n
    ensures Wellformed(r) && r.preds == g.preds && r.succs == g.succs
    ensures Restricts(r.members.nodeMap, g.members.nodeMap)
    ensures n.hash !in r.members.nodeMap
    ensures forall k | k in g.members.nodeMap && !DescendsFrom(g.members.nodeMap[k], n.hash) :: k in r.members.nodeMap
    decreases Rank(g.members.nodeMap, n.hash), 1
  {
    var kids := ListRefs(KidsOf(g, n.hash));
    KidsAreChildren(g, n);
    var g1 := RemoveChildren(g, kids, n.hash, g.members.nodeMap);
    NoChildrenLeft(g, g1, n, kids);
    UnlistLeaf(g1, n);
    Unlist(g1, n)
  }

  function RemoveChildren(g: Digraph, cs: seq<Node>, h: string, m0: map<string, Node>): (r: Digraph)
    requires Wellformed(g) && Restricts(g.members.nodeMap, m0) && (cs != [] ==> h in m0)
    requires forall x | x in cs :: x.hash in m0 && m0[x.hash] == x && ParentListed(m0, x) && ParentHash(x) == Some(h)
    ensures Wellformed(r) && r.preds == g.preds && r.succs == g.succs
    ensures Restricts(r.members.nodeMap, g.members.nodeMap)
    ensures forall x | x in cs :: x.hash !in r.members.nodeMap
    ensures forall k | k in g.members.nodeMap && !DescendsFrom(g.members.nodeMap[k], h) :: k in r.members.nodeMap
    decreases Rank(m0, h), 0, |cs|
  {
    if cs == [] then g
    else
      var x := cs[0];
      assert x in cs;
      ChildRankIn(g.members.nodeMap, m0, h, x);
      var g1 := RemoveSubtree(g, x);
      KeepsOutsideChild(g, g1, h, x);
      var r := RemoveChildren(g1, cs[1..], h, m0);
      r
  }

  /** Removing the subtree of `x`, a child of `h`, keeps every member outside the subtree of `h`. */
  lemma KeepsOutsideChild(g: Digraph, g1: Digraph, h: string, x: Node)
    requires Wellformed(g) && ParentHash(x) == Some(h)
    requires x.hash in g.members.nodeMap ==> g.members.nodeMap[x.hash] == x
    requires forall k | k in g.members.nodeMap && !DescendsFrom(g.members.nodeMap[k], x.hash) :: k in g1.members.nodeMap
    ensures forall k | k in g.members.nodeMap && !DescendsFrom(g.members.nodeMap[k], h) :: k in g1.members.nodeMap
  {
    forall k | k in g.members.nodeMap && !DescendsFrom(g.members.nodeMap[k], h)
      ensures k in g1.members.nodeMap
    {
      if DescendsFrom(g.members.nodeMap[k], x.hash) {
        DescendsThroughParent(g.members, g.children, g.members.nodeMap[k], x.hash);
      }
    }
  }

  /** An entry of the children set of `h` is the member of that hash, and its parent is `h`. */
  lemma KidFacts(g: Digraph, h: string, x: Node)
    requires Wellformed(g) && x in KidsOf(g, h).nodeList
    ensures x.hash in g.members.nodeMap && g.members.nodeMap[x.hash] == x
    ensures ParentListed(g.members.nodeMap, x) && ParentHash(x) == Some(h)
  {
    assert h in g.children;
    assert RefsValid(g.children[h]);
    assert x.hash in g.children[h].nodeMap;
    assert ParentListed(g.members.nodeMap, g.members.nodeMap[x.hash]);
  }

  /** The children set of `n` lists members whose parent is `n`. */
  lemma KidsAreChildren(g: Digraph, n: Node)
    requires Wellformed(g)
    ensures forall x | x in ListRefs(KidsOf(g, n.hash)) ::
              x.hash in g.members.nodeMap && g.members.nodeMap[x.hash] == x
              && ParentListed(g.members.nodeMap, x) && ParentHash(x) == Some(n.hash)
    ensures ListRefs(KidsOf(g, n.hash)) != [] ==> n.hash in g.members.nodeMap
  {
    var kids := ListRefs(KidsOf(g, n.hash));
    ListMembers(KidsOf(g, n.hash));
    forall x | x in kids
      ensures x.hash in g.members.nodeMap && g.members.nodeMap[x.hash] == x
              && ParentListed(g.members.nodeMap, x) && ParentHash(x) == Some(n.hash)
    {
      KidFacts(g, n.hash, x);
    }
    if kids != [] {
      assert kids[0] in kids;
    }
  }

  /** A member whose parent is `n` is listed among the children of `n`. */
  lemma ChildListed(g: Digraph, n: Node, k: string)
    requires Wellformed(g) && k in g.members.nodeMap
    ensures ParentHash(g.members.nodeMap[k]) == Some(n.hash) ==> g.members.nodeMap[k] in ListRefs(KidsOf(g, n.hash))
  {
    ListMembers(KidsOf(g, n.hash));
    var x := g.members.nodeMap[k];
    if ParentHash(x) == Some(n.hash) {
      assert k in KidsOf(g, n.hash).nodeMap;
      assert KidsOf(g, n.hash).nodeMap[k] == x;
    }
  }

  /** After the children loop of `deleteNode`, no member has `n` as its parent. */
  lemma NoChildrenLeft(g: Digraph, g1: Digraph, n: Node, kids: seq<Node>)
    requires Wellformed(g)
    requires kids == ListRefs(KidsOf(g, n.hash))
    requires Restricts(g1.members.nodeMap, g.members.nodeMap)
    requires forall x | x in kids :: x.hash !in g1.members.nodeMap
    ensures forall k | k in g1.members.nodeMap :: ParentHash(g1.members.nodeMap[k]) != Some(n.hash)
  {
    forall k | k in g1.members.nodeMap ensures ParentHash(g1.members.nodeMap[k]) != Some(n.hash) {
      ChildListed(g, n, k);
    }
  }

  /** Deleting from a set whose weights are all 1 removes the hash outright. */
  lemma DeleteSingle(r: Refs, h: string)
    requires RefsValid(r) && SingleWeights(r)
    ensures RefsValid(DeleteRef(r, h)) && SingleWeights(DeleteRef(r, h))
    ensures DeleteRef(r, h).nodeMap == r.nodeMap - {h}
  {
    DeletePreservesValid(r, h);
  }

  /** Taking out a member with no children, or a node that is not a member, keeps the hierarchy. */
  lemma UnlistLeaf(g: Digraph, n: Node)
    requires Wellformed(g)
    requires n.hash in g.members.nodeMap ==> g.members.nodeMap[n.hash] == n
    requires forall k | k in g.members.nodeMap :: ParentHash(g.members.nodeMap[k]) != Some(n.hash)
    ensures Wellformed(Unlist(g, n))
    ensures Unlist(g, n).members.nodeMap == g.members.nodeMap - {n.hash}
  {
    var m := g.members.nodeMap;
    DeleteSingle(g.members, n.hash);
    UnlistChildren(g, n);
    UnlistParents(g, n);
    UnlistKidsExact(m, g.children, n, Unlist(g, n).children);
    UnlistKidsComplete(m, g.children, n, Unlist(g, n).children);
  }

  /** `Unlist` takes `n` out of its parent's children set and changes no other children set. */
  lemma UnlistChildren(g: Digraph, n: Node)
    requires SingleRefs(g.members, g.children)
    ensures forall h | h in Unlist(g, n).children ::
              RefsValid(Unlist(g, n).children[h]) && SingleWeights(Unlist(g, n).children[h])
    ensures forall h :: RefsAt(Unlist(g, n).children, h).nodeMap ==
              if ParentHash(n) == Some(h) then RefsAt(g.children, h).nodeMap - {n.hash} else RefsAt(g.children, h).nodeMap
  {
    if n.parent.Some? {
      DeleteSingle(KidsOf(g, n.parent.value.hash), n.hash);
    }
  }

  lemma UnlistParents(g: Digraph, n: Node)
    requires ParentsListed(g.members.nodeMap)
    requires forall k | k in g.members.nodeMap :: ParentHash(g.members.nodeMap[k]) != Some(n.hash)
    ensures ParentsListed(g.members.nodeMap - {n.hash})
  {
    var m := g.members.nodeMap;
    var m' := m - {n.hash};
    forall k | k in m' ensures ParentListed(m', m'[k]) {
      assert ParentListed(m, m[k]);
    }
  }

  lemma UnlistKidsExact(m: map<string, Node>, c: map<string, Refs>, n: Node, c': map<string, Refs>)
    requires KidsExact(m, c)
    requires n.hash in m ==> m[n.hash] == n
    requires forall h :: RefsAt(c', h).nodeMap ==
               if ParentHash(n) == Some(h) then RefsAt(c, h).nodeMap - {n.hash} else RefsAt(c, h).nodeMap
    ensures KidsExact(m - {n.hash}, c')
  {
    forall h, k | h in c' && k in c'[h].nodeMap
      ensures k in m - {n.hash} && c'[h].nodeMap[k] == (m - {n.hash})[k] && ParentHash((m - {n.hash})[k]) == Some(h)
    {
      assert RefsAt(c', h) == c'[h];
      assert h in c;
    }
  }

  lemma UnlistKidsComplete(m: map<string, Node>, c: map<string, Refs>, n: Node, c': map<string, Refs>)
    requires KidsComplete(m, c)
    requires forall h :: RefsAt(c', h).nodeMap ==
               if ParentHash(n) == Some(h) then RefsAt(c, h).nodeMap - {n.hash} else RefsAt(c, h).nodeMap
    ensures KidsComplete(m - {n.hash}, c')
  {
    var m' := m - {n.hash};
    forall k | k in m' && m'[k].parent.Some?
      ensures k in RefsAt(c', m'[k].parent.value.hash).nodeMap
    {
      assert k in RefsAt(c, m[k].parent.value.hash).nodeMap;
    }
  }

  /** Deleting a node: what it leaves is a strictly smaller graph. */
  lemma SmallerAfterRemoval(m1: map<string, Node>, m0: map<string, Node>, h: string)
    requires Restricts(m1, m0) && h in m0 && h !in m1
    ensures |m1| < |m0|
  {
    assert m1.Keys <= m0.Keys - {h};
    assert |m0.Keys - {h}| == |m0.Keys| - 1;
    SubsetSize(m1.Keys, m0.Keys - {h});
  }

  lemma SubsetSize<T>(a: set<T>, b: set<T>)
    requires a <= b
    ensures |a| <= |b|
  {
    assert b == a + (b - a);
  }

  lemma ProperSubsetSize<T>(a: set<T>, b: set<T>, x: T)
    requires a <= b && x in b && x !in a
    ensures |a| < |b|
  {
    assert b == a + (b - a);
    assert x in b - a;
  }

  /** The rank of a child of `h` within a restriction of `m0` is below the rank of `h` in `m0`. */
  lemma ChildRankIn(m: map<string, Node>, m0: map<string, Node>, h: string, x: Node)
    requires Restricts(m, m0) && h in m0
    requires x.hash in m0 && m0[x.hash] == x && ParentListed(m0, x) && ParentHash(x) == Some(h)
    ensures Rank(m, x.hash) < Rank(m0, h)
  {
    if x.hash in m {
      SubsetSize(Deeper(m, Depth(x)), Deeper(m0, Depth(x)));
      ProperSubsetSize(Deeper(m0, Depth(x)), Deeper(m0, Depth(m0[h])), x.hash);
    }
  }

  /** A member is at least as deep as any member it descends from. */
  lemma DepthBelow(m: Refs, c: map<string, Refs>, x: Node, y: string)
    requires Hierarchy(m, c) && x.hash in m.nodeMap && m.nodeMap[x.hash] == x
    ensures DescendsFrom(x, y) ==> y in m.nodeMap && Depth(x) >= Depth(m.nodeMap[y])
  {
    if DescendsFrom(x, y) {
      DescendsThroughParent(m, c, x, y);
    }
  }

  /** The parent of a deleted member is not below it, so deleting the member's subtree keeps the parent. */
  lemma ParentSurvives(g: Digraph, t: Node, r: Digraph)
    requires Wellformed(g) && t.hash in g.members.nodeMap && g.members.nodeMap[t.hash] == t
    requires forall k | k in g.members.nodeMap && !DescendsFrom(g.members.nodeMap[k], t.hash) :: k in r.members.nodeMap
    ensures t.parent.Some? ==> t.parent.value.hash in r.members.nodeMap
  {
    assert ParentListed(g.members.nodeMap, g.members.nodeMap[t.hash]);
    if t.parent.Some? {
      DepthBelow(g.members, g.children, t.parent.value, t.hash);
    }
  }

  /** A member descending from `y` has `y` as a member ancestor, and descends from the parent of `y` too. */
  lemma {:induction false} DescendsThroughParent(m: Refs, c: map<string, Refs>, x: Node, y: string)
    requires Hierarchy(m, c)
    requires x.hash in m.nodeMap && m.nodeMap[x.hash] == x && DescendsFrom(x, y)
    ensures y in m.nodeMap
    ensures Depth(x) >= Depth(m.nodeMap[y])
    ensures m.nodeMap[y].parent.Some? ==> DescendsFrom(x, m.nodeMap[y].parent.value.hash)
    decreases Depth(x)
  {
    assert ParentListed(m.nodeMap, x);
    if x.hash != y {
      DescendsThroughParent(m, c, x.parent.value, y);
    } else if x.parent.Some? {
      assert DescendsFrom(x.parent.value, x.parent.value.hash);
    }
  }

  /** `DeleteNode` as corrected: a node left without children is deleted, and that deletion continues the cascade. */
  function DeleteNode(g: Digraph, hash: string): (r: Result)
    requires Wellformed(g)
    ensures r.Updated? ==> Wellformed(r.g) && Restricts(r.g.members.nodeMap, g.members.nodeMap)
    ensures r.Updated? ==> hash in g.members.nodeMap && hash !in r.g.members.nodeMap
    ensures r.Refused? <==> hash !in g.members.nodeMap
    ensures r.Refused? ==> r.err == NodeNotFound
    decreases |g.members.nodeMap|, 0
  {
    if hash !in g.members.nodeMap then Refused(NodeNotFound)
    else
      var t := g.members.nodeMap[hash];
      var g3 := Detach(g, t);
      SmallerAfterRemoval(g3.members.nodeMap, g.members.nodeMap, hash);
      ParentSurvives(g, t, g3);
      Cascade(g3, t)
  }

  function Cascade(g: Digraph, t: Node): (r: Result)
    requires Wellformed(g)
    requires t.parent.Some? ==> t.parent.value.hash in g.members.nodeMap
    ensures r.Updated? && Wellformed(r.g) && Restricts(r.g.members.nodeMap, g.members.nodeMap)
    decreases |g.members.nodeMap|, 1
  {
    match t.parent
    case None => Updated(g)
    case Some(p) =>
      if Count(KidsOf(g, p.hash)) > 0 then Updated(g)
      else DeleteNode(g, p.hash)
  }

  /** The body of `DeleteNode` up to the parent loop: disconnect the member `t`, then delete its subtree. */
  function Detach(g: Digraph, t: Node): (r: Digraph)
    requires Wellformed(g) && t.hash in g.members.nodeMap && g.members.nodeMap[t.hash] == t
    ensures Wellformed(r) && Restricts(r.members.nodeMap, g.members.nodeMap) && t.hash !in r.members.nodeMap
    ensures forall k | k in g.members.nodeMap && !DescendsFrom(g.members.nodeMap[k], t.hash) :: k in r.members.nodeMap
  {
    var g1 := DisconnectPreds(g, ListRefs(PredsOf(g, t.hash)), t);
    var g2 := DisconnectSuccs(g1, t, ListRefs(SuccsOf(g1, t.hash)));
    RemoveSubtree(g2, t)
  }

  /** `DeleteNode` as written: after the recursive deletion of the parent, the loop carries on to the grandparent. */
  function DeleteNodeAsWritten(g: Digraph, hash: string): (r: Result)
    requires Wellformed(g)
    ensures r.Updated? ==> Wellformed(r.g) && Restricts(r.g.members.nodeMap, g.members.nodeMap)
    ensures r.Updated? ==> hash in g.members.nodeMap && hash !in r.g.members.nodeMap
    decreases |g.members.nodeMap|, 0, 0
  {
    if hash !in g.members.nodeMap then Refused(NodeNotFound)
    else
      var t := g.members.nodeMap[hash];
      var g3 := Detach(g, t);
      SmallerAfterRemoval(g3.members.nodeMap, g.members.nodeMap, hash);
      CascadeAsWritten(g3, t)
  }

  function CascadeAsWritten(g: Digraph, t: Node): (r: Result)
    requires Wellformed(g)
    ensures r.Updated? ==> Wellformed(r.g) && Restricts(r.g.members.nodeMap, g.members.nodeMap)
    decreases |g.members.nodeMap|, 1, Depth(t)
  {
    match t.parent
    case None => Updated(g)
    case Some(p) =>
      if Count(KidsOf(g, p.hash)) > 0 then Updated(g)
      else match DeleteNodeAsWritten(g, p.hash)
        case Refused(e) => Refused(e)
        case Updated(g') =>
          SmallerAfterRemoval(g'.members.nodeMap, g.members.nodeMap, p.hash);
          CascadeAsWritten(g', p)
  }

  /** The predecessor loop of `DeleteNode`. */
  function DisconnectPreds(g: Digraph, ps: seq<Node>, t: Node): (r: Digraph)
    requires Wellformed(g)
    ensures r.members == g.members && r.children == g.children
    decreases |ps|
  {
    if ps == [] then g else DisconnectPreds(Disconnect(g, ps[0], t), ps[1..], t)
  }

  /** The successor loop of `DeleteNode`. */
  function DisconnectSuccs(g: Digraph, t: Node, ss: seq<Node>): (r: Digraph)
    requires Wellformed(g)
    ensures r.members == g.members && r.children == g.children
    decreases |ss|
  {
    if ss == [] then g else DisconnectSuccs(Disconnect(g, t, ss[0]), t, ss[1..])
  }
}
