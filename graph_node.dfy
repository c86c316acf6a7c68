/**
 * Nodes of the hierarchical graph and their reference sets
 * (internal/graph/node.go).
 *
 * A node is identified by its hash. Its parent is fixed when the node is
 * built, so a node is a value that carries its whole ancestor chain.
 * `NodeRefs` is a weighted set of nodes: a map from hash to node, a weight
 * per hash and the list of the nodes in insertion order.
 */
module GraphNode {
  import opened Util

  datatype Node = Node(name: string, hash: string, parent: Option<Node>)

  /** The number of ancestors of a node. */
  function Depth(n: Node): nat
  {
    match n.parent
    case None => 0
    case Some(p) => Depth(p) + 1
  }

  /** The ancestor `k` levels above `n` (`n` itself for `k == 0`), if there is one. */
  function Ancestor(n: Node, k: nat): Option<Node>
  {
    if k == 0 then Some(n)
    else match n.parent
      case None => None
      case Some(p) => Ancestor(p, k - 1)
  }

  /** `nodeDepth`: walks the parent chain; a nil node has depth -1. */
  method NodeDepth(n: Option<Node>) returns (depth: int)
    ensures n.None? ==> depth == -1
    ensures n.Some? ==> depth == Depth(n.value)
    ensures n.Some? ==> Ancestor(n.value, depth).Some? && Ancestor(n.value, depth).value.parent.None?
  {
    depth := -1;
    var cur := n;
    while cur.Some?
      invariant n.None? ==> depth == -1 && cur.None?
      invariant n.Some? ==> depth >= -1
      invariant n.Some? && cur.Some? ==> Ancestor(n.value, depth + 1) == cur
      invariant n.Some? && cur.Some? ==> depth + 1 + Depth(cur.value) == Depth(n.value)
      invariant n.Some? && cur.None? ==> depth == Depth(n.value) && Ancestor(n.value, depth).Some?
                                          && Ancestor(n.value, depth).value.parent.None?
      decreases if cur.Some? then Depth(cur.value) + 1 else 0
    {
      depth := depth + 1;
      AncestorStep(n.value, depth, cur.value);
      cur := cur.value.parent;
    }
  }

  lemma {:induction false} AncestorStep(n: Node, k: nat, a: Node)
    requires Ancestor(n, k) == Some(a)
    ensures Ancestor(n, k + 1) == a.parent
  {
    if k > 0 {
      AncestorStep(n.parent.value, k - 1, a);
    }
  }

  /** `isChild(n, p)` on non-nil nodes: `p`'s hash is the hash of `n` or of one of its ancestors. */
  predicate DescendsFrom(n: Node, h: string)
  {
    n.hash == h || (n.parent.Some? && DescendsFrom(n.parent.value, h))
  }

  /** When `n` descends from `h`, some ancestor of `n` carries the hash `h`. */
  lemma {:induction false} DescendsFromWitness(n: Node, h: string) returns (k: nat)
    requires DescendsFrom(n, h)
    ensures Ancestor(n, k).Some? && Ancestor(n, k).value.hash == h
  {
    if n.hash == h {
      k := 0;
    } else {
      var j := DescendsFromWitness(n.parent.value, h);
      k := j + 1;
      assert Ancestor(n, k) == Ancestor(n.parent.value, j);
    }
  }

  /** When `n` does not descend from `h`, no ancestor of `n` carries the hash `h`. */
  lemma {:induction false} NotDescendsFrom(n: Node, h: string, k: nat)
    requires !DescendsFrom(n, h)
    ensures Ancestor(n, k).Some? ==> Ancestor(n, k).value.hash != h
  {
    if k > 0 && n.parent.Some? {
      NotDescendsFrom(n.parent.value, h, k - 1);
    }
  }

  /** `isChild`: true when `p` is `n` or one of its ancestors, compared by hash; false for nil nodes. */
  method IsChild(n: Option<Node>, p: Option<Node>) returns (b: bool)
    ensures b <==> n.Some? && p.Some? && DescendsFrom(n.value, p.value.hash)
  {
    if p.None? {
      return false;
    }
    var cur := n;
    while cur.Some?
      invariant n.Some? && DescendsFrom(n.value, p.value.hash) <==> cur.Some? && DescendsFrom(cur.value, p.value.hash)
      decreases if cur.Some? then Depth(cur.value) + 1 else 0
    {
      if cur.value.hash == p.value.hash {
        return true;
      }
      cur := cur.value.parent;
    }
    return false;
  }

  // ---------------------------------------------------------------------------
  // NodeRefs as a value, and the operations on it.

  datatype Refs = Refs(nodeList: seq<Node>, nodeMap: map<string, Node>, weights: map<string, int>)

  /** `NewNodeRefs`. */
  const EmptyRefs: Refs := Refs([], map[], map[])

  /** No two listed nodes share a hash. */
  predicate DistinctHashes(l: seq<Node>)
  {
    forall i, j | 0 <= i < j < |l| :: l[i].hash != l[j].hash
  }

  /**
   * The map keys, the weight keys and the hashes of the list coincide, the
   * list holds each mapped node once, and every weight is at least 1.
   */
  predicate RefsValid(r: Refs)
  {
    && r.nodeMap.Keys == r.weights.Keys
    && (forall h | h in r.nodeMap :: r.nodeMap[h].hash == h && r.weights[h] >= 1 && r.nodeMap[h] in r.nodeList)
    && (forall x | x in r.nodeList :: x.hash in r.nodeMap && r.nodeMap[x.hash] == x)
    && DistinctHashes(r.nodeList)
  }

  /** The weight half of `Get`: 0 for an absent hash. */
  function Weight(r: Refs, h: string): int
  {
    if h in r.weights then r.weights[h] else 0
  }

  /** The node half of `Get`: nil for an absent hash. */
  function Lookup(r: Refs, h: string): Option<Node>
  {
    if h in r.nodeMap then Some(r.nodeMap[h]) else None
  }

  /** `Len`. */
  function Count(r: Refs): nat
  {
    |r.nodeMap|
  }

  /** `Add`: one more reference to the node's hash; a new hash is mapped and appended to the list. */
  function AddRef(r: Refs, node: Node): Refs
  {
    var h := node.hash;
    Refs(if h in r.nodeMap then r.nodeList else r.nodeList + [node],
         if h in r.nodeMap then r.nodeMap else r.nodeMap[h := node],
         r.weights[h := Weight(r, h) + 1])
  }

  /** The list without the first node whose hash is `h`. */
  function RemoveFirst(l: seq<Node>, h: string): (r: seq<Node>)
    ensures |r| <= |l|
  {
    if l == [] then []
    else if l[0].hash == h then l[1..]
    else [l[0]] + RemoveFirst(l[1..], h)
  }

  /** `Delete`: one reference fewer; at weight 0 the hash leaves the map, the weights and the list. */
  function DeleteRef(r: Refs, h: string): Refs
  {
    if h !in r.nodeMap then r
    else if Weight(r, h) - 1 > 0 then r.(weights := r.weights[h := Weight(r, h) - 1])
    else Refs(RemoveFirst(r.nodeList, h), r.nodeMap - {h}, r.weights - {h})
  }

  /** `Wipe`: the hash leaves the map, the weights and the list whatever its weight. */
  function WipeRef(r: Refs, h: string): Refs
  {
    if h !in r.nodeMap then r
    else Refs(RemoveFirst(r.nodeList, h), r.nodeMap - {h}, r.weights - {h})
  }

  function NameOf(n: Node): string
  {
    n.name
  }

  /** `List`: the listed nodes sorted by name. */
  function ListRefs(r: Refs): seq<Node>
  {
    SortBy(r.nodeList, NameOf)
  }

  // ---------------------------------------------------------------------------
  // Laws of the reference operations.

  lemma {:induction false} RemoveFirstAbsent(l: seq<Node>, h: string)
    requires forall i | 0 <= i < |l| :: l[i].hash != h
    ensures RemoveFirst(l, h) == l
  {
    if l != [] {
      RemoveFirstAbsent(l[1..], h);
      assert l == [l[0]] + l[1..];
    }
  }

  lemma DistinctTail(l: seq<Node>)
    requires DistinctHashes(l) && l != []
    ensures DistinctHashes(l[1..])
    ensures forall x | x in l[1..] :: x.hash != l[0].hash
  {
    forall i, j | 0 <= i < j < |l[1..]| ensures l[1..][i].hash != l[1..][j].hash {
      assert l[1..][i] == l[i + 1] && l[1..][j] == l[j + 1];
    }
    forall x | x in l[1..] ensures x.hash != l[0].hash {
      var j :| 0 <= j < |l[1..]| && l[1..][j] == x;
      assert l[j + 1] == x;
    }
  }

  lemma DistinctCons(x: Node, rest: seq<Node>)
    requires DistinctHashes(rest)
    requires forall y | y in rest :: y.hash != x.hash
    ensures DistinctHashes([x] + rest)
  {
    var l := [x] + rest;
    forall i, j | 0 <= i < j < |l| ensures l[i].hash != l[j].hash {
      assert l[j] == rest[j - 1];
      if i == 0 {
        assert rest[j - 1] in rest;
      } else {
        assert l[i] == rest[i - 1];
      }
    }
  }

  /** Without duplicate hashes, removing `h` keeps exactly the nodes of other hashes. */
  lemma {:induction false} RemoveFirstMembers(l: seq<Node>, h: string)
    requires DistinctHashes(l)
    ensures forall x :: x in RemoveFirst(l, h) <==> x in l && x.hash != h
  {
    if l != [] {
      DistinctTail(l);
      RemoveFirstMembers(l[1..], h);
      assert l == [l[0]] + l[1..];
    }
  }

  /** Removing a hash from a list without duplicate hashes leaves none. */
  lemma {:induction false} RemoveFirstDistinct(l: seq<Node>, h: string)
    requires DistinctHashes(l)
    ensures DistinctHashes(RemoveFirst(l, h))
  {
    if l != [] {
      DistinctTail(l);
      if l[0].hash != h {
        RemoveFirstDistinct(l[1..], h);
        RemoveFirstMembers(l[1..], h);
        DistinctCons(l[0], RemoveFirst(l[1..], h));
      }
    }
  }

  /** Removing a mapped hash from a valid reference set keeps it valid. */
  lemma RemoveKeepsValid(r: Refs, h: string)
    requires RefsValid(r) && h in r.nodeMap
    ensures RefsValid(Refs(RemoveFirst(r.nodeList, h), r.nodeMap - {h}, r.weights - {h}))
  {
    RemoveFirstMembers(r.nodeList, h);
    RemoveFirstDistinct(r.nodeList, h);
  }

  lemma AddPreservesValid(r: Refs, node: Node)
    requires RefsValid(r)
    ensures RefsValid(AddRef(r, node))
  {
    var r' := AddRef(r, node);
    if node.hash !in r.nodeMap {
      forall i | 0 <= i < |r.nodeList| ensures r.nodeList[i].hash != node.hash {
      }
    }
  }

  lemma DeletePreservesValid(r: Refs, h: string)
    requires RefsValid(r)
    ensures RefsValid(DeleteRef(r, h))
  {
    if h in r.nodeMap && Weight(r, h) - 1 <= 0 {
      RemoveKeepsValid(r, h);
    }
  }

  lemma WipePreservesValid(r: Refs, h: string)
    requires RefsValid(r)
    ensures RefsValid(WipeRef(r, h))
  {
    if h in r.nodeMap {
      RemoveKeepsValid(r, h);
    }
  }

  /** In a valid reference set a hash is mapped exactly when its weight is positive. */
  lemma MappedIffWeighted(r: Refs, h: string)
    requires RefsValid(r)
    ensures h in r.nodeMap <==> Weight(r, h) > 0
    ensures Weight(r, h) >= 0
  {
  }

  /** `Add` increments the weight of the node's hash and no other. */
  lemma AddWeight(r: Refs, node: Node, h: string)
    ensures Weight(AddRef(r, node), h) == Weight(r, h) + (if h == node.hash then 1 else 0)
    ensures Lookup(AddRef(r, node), node.hash).Some?
  {
  }

  /** `Add` of a node already referenced leaves the list and the map alone; a new one is listed once, at the end. */
  lemma AddListsOnce(r: Refs, node: Node)
    requires RefsValid(r)
    ensures node.hash in r.nodeMap ==> AddRef(r, node).nodeList == r.nodeList && Count(AddRef(r, node)) == Count(r)
    ensures node.hash !in r.nodeMap ==> AddRef(r, node).nodeList == r.nodeList + [node] && Count(AddRef(r, node)) == Count(r) + 1
    ensures forall i, j | 0 <= i < j < |AddRef(r, node).nodeList| ::
              AddRef(r, node).nodeList[i].hash != AddRef(r, node).nodeList[j].hash
  {
    AddPreservesValid(r, node);
  }

  /** `Delete` decrements a positive weight by one, and the hash leaves the set exactly when its weight was 1. */
  lemma DeleteWeight(r: Refs, h: string, g: string)
    requires RefsValid(r)
    ensures Weight(DeleteRef(r, h), g) == if g == h && Weight(r, h) > 0 then Weight(r, h) - 1 else Weight(r, g)
    ensures h in DeleteRef(r, h).nodeMap <==> Weight(r, h) > 1
  {
  }

  /** Deleting an absent hash changes nothing. */
  lemma DeleteAbsent(r: Refs, h: string)
    requires h !in r.nodeMap
    ensures DeleteRef(r, h) == r && WipeRef(r, h) == r
  {
  }

  /** `Delete` undoes `Add`. */
  lemma DeleteUndoesAdd(r: Refs, node: Node)
    requires RefsValid(r)
    ensures DeleteRef(AddRef(r, node), node.hash) == r
  {
    if node.hash in r.nodeMap {
      DeleteUndoesAddPresent(r, node);
    } else {
      DeleteUndoesAddAbsent(r, node);
    }
  }

  lemma DeleteUndoesAddPresent(r: Refs, node: Node)
    requires RefsValid(r) && node.hash in r.nodeMap
    ensures DeleteRef(AddRef(r, node), node.hash) == r
  {
    var h := node.hash;
    var a := AddRef(r, node);
    assert a == r.(weights := r.weights[h := r.weights[h] + 1]);
    assert Weight(a, h) - 1 == r.weights[h] > 0;
    assert r.weights[h := r.weights[h] + 1][h := r.weights[h]] == r.weights;
  }

  lemma DeleteUndoesAddAbsent(r: Refs, node: Node)
    requires RefsValid(r) && node.hash !in r.nodeMap
    ensures DeleteRef(AddRef(r, node), node.hash) == r
  {
    var h := node.hash;
    assert h !in r.weights;
    var a := AddRef(r, node);
    assert a == Refs(r.nodeList + [node], r.nodeMap[h := node], r.weights[h := 1]);
    RemoveFirstAppended(r.nodeList, node);
    assert r.nodeMap[h := node] - {h} == r.nodeMap;
    assert r.weights[h := 1] - {h} == r.weights;
  }

  lemma {:induction false} RemoveFirstAppended(l: seq<Node>, node: Node)
    requires forall x | x in l :: x.hash != node.hash
    ensures RemoveFirst(l + [node], node.hash) == l
  {
    if l == [] {
      assert [] + [node] == [node];
    } else {
      assert (l + [node])[1..] == l[1..] + [node];
      RemoveFirstAppended(l[1..], node);
      assert l == [l[0]] + l[1..];
    }
  }

  /** `Wipe` removes the hash whatever its weight and leaves every other hash as it was. */
  lemma WipeWeight(r: Refs, h: string, g: string)
    requires RefsValid(r)
    ensures Weight(WipeRef(r, h), g) == if g == h then 0 else Weight(r, g)
    ensures Lookup(WipeRef(r, h), g) == if g == h then None else Lookup(r, g)
  {
  }

  /** `Len` counts distinct hashes: the list length, whatever the weights. */
  lemma {:induction false} CountIsListLength(r: Refs)
    requires RefsValid(r)
    ensures Count(r) == |r.nodeList|
  {
    var hs := set i | 0 <= i < |r.nodeList| :: r.nodeList[i].hash;
    assert hs == r.nodeMap.Keys by {
      forall h | h in r.nodeMap ensures h in hs {
        assert r.nodeMap[h] in r.nodeList;
        var k :| 0 <= k < |r.nodeList| && r.nodeList[k] == r.nodeMap[h];
      }
    }
    DistinctHashesCount(r.nodeList);
  }

  lemma {:induction false} DistinctHashesCount(l: seq<Node>)
    requires forall i, j | 0 <= i < j < |l| :: l[i].hash != l[j].hash
    ensures |set i | 0 <= i < |l| :: l[i].hash| == |l|
  {
    if l != [] {
      var init := l[..|l| - 1];
      DistinctHashesCount(init);
      var s := set i | 0 <= i < |init| :: init[i].hash;
      var t := set i | 0 <= i < |l| :: l[i].hash;
      assert t == s + {l[|l| - 1].hash};
      assert l[|l| - 1].hash !in s;
    }
  }

  /** `List` is the listed nodes, sorted by name. */
  lemma ListSortedCopy(r: Refs)
    ensures multiset(ListRefs(r)) == multiset(r.nodeList)
    ensures SortedBy(ListRefs(r), NameOf)
    ensures |ListRefs(r)| == |r.nodeList|
  {
    assert |multiset(ListRefs(r))| == |multiset(r.nodeList)|;
  }

  /** The listed nodes of a valid set are exactly its mapped nodes. */
  lemma ListHoldsMapped(r: Refs, n: Node)
    requires RefsValid(r)
    ensures n in ListRefs(r) <==> n.hash in r.nodeMap && r.nodeMap[n.hash] == n
  {
    ListSortedCopy(r);
    assert n in ListRefs(r) <==> n in multiset(ListRefs(r));
    assert n in r.nodeList <==> n in multiset(r.nodeList);
  }

  // ---------------------------------------------------------------------------
  // The NodeRefs object, whose methods update its three fields in place.

  class NodeRefs {
    var nodeList: seq<Node>
    var nodeMap: map<string, Node>
    var weights: map<string, int>

    function Value(): Refs
      reads this
    {
      Refs(nodeList, nodeMap, weights)
    }

    /** `NewNodeRefs`. */
    constructor ()
      ensures Value() == EmptyRefs
    {
      nodeList := [];
      nodeMap := map[];
      weights := map[];
    }

    /** `Len`: the number of distinct hashes referenced. */
    function Len(): (n: nat)
      reads this
      ensures RefsValid(Value()) ==> n == |nodeList|
    {
      CountIsListLengthOf(Value());
      |nodeMap|
    }

    /** `Get`: the node and the weight of a hash, nil and 0 when absent. */
    function Get(hash: string): (r: (Option<Node>, int))
      reads this
      ensures r.0.Some? <==> hash in nodeMap
      ensures RefsValid(Value()) ==> (r.0.Some? <==> r.1 > 0)
    {
      (Lookup(Value(), hash), Weight(Value(), hash))
    }

    method Add(node: Node)
      modifies this
      ensures Value() == AddRef(old(Value()), node)
    {
      var h := node.hash;
      weights := weights[h := (if h in weights then weights[h] else 0) + 1];
      if h !in nodeMap {
        nodeMap := nodeMap[h := node];
        nodeList := nodeList + [node];
      }
    }

    method Delete(hash: string)
      modifies this
      ensures Value() == DeleteRef(old(Value()), hash)
    {
      if hash !in nodeMap {
        return;
      }
      var w := (if hash in weights then weights[hash] else 0) - 1;
      weights := weights[hash := w];
      if w > 0 {
        return;
      }
      nodeMap := nodeMap - {hash};
      weights := weights - {hash};
      Splice(hash);
    }

    /** `Wipe`: drops the hash however many references it has. */
    method Wipe(hash: string)
      modifies this
      ensures Value() == WipeRef(old(Value()), hash)
    {
      if hash !in nodeMap {
        return;
      }
      nodeMap := nodeMap - {hash};
      weights := weights - {hash};
      Splice(hash);
    }

    /** The loop of `Delete` that cuts the first node with the hash out of the list. */
    method Splice(hash: string)
      modifies this
      ensures nodeList == RemoveFirst(old(nodeList), hash)
      ensures nodeMap == old(nodeMap) && weights == old(weights)
    {
      var idx := 0;
      while idx < |nodeList|
        invariant 0 <= idx <= |nodeList|
        invariant nodeList == old(nodeList)
        invariant forall i | 0 <= i < idx :: nodeList[i].hash != hash
        invariant nodeMap == old(nodeMap) && weights == old(weights)
      {
        if nodeList[idx].hash == hash {
          SplicePrefix(nodeList, hash, idx);
          nodeList := nodeList[..idx] + nodeList[idx + 1..];
          return;
        }
        idx := idx + 1;
      }
      RemoveFirstAbsent(nodeList, hash);
    }

    /** `List`: a copy of the listed nodes sorted by name. */
    method List() returns (l: seq<Node>)
      ensures l == ListRefs(Value())
      ensures multiset(l) == multiset(nodeList) && SortedBy(l, NameOf)
    {
      l := SortBy(nodeList, NameOf);
    }
  }

  lemma CountIsListLengthOf(r: Refs)
    ensures RefsValid(r) ==> |r.nodeMap| == |r.nodeList|
  {
    if RefsValid(r) {
      CountIsListLength(r);
    }
  }

  lemma {:induction false} SplicePrefix(l: seq<Node>, h: string, k: nat)
    requires k < |l| && l[k].hash == h
    requires forall i | 0 <= i < k :: l[i].hash != h
    ensures RemoveFirst(l, h) == l[..k] + l[k + 1..]
  {
    if k == 0 {
      assert l[..0] + l[1..] == l[1..];
    } else {
      SplicePrefix(l[1..], h, k - 1);
      assert l[..k] == [l[0]] + l[1..][..k - 1];
      assert l[k + 1..] == l[1..][k..];
    }
  }
}
