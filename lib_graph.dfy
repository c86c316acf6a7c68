/**
 * The dependency graph that the lib generation's filters work on
 * (lib/depgraph/filter.go and lib/depgraph/filters/): dependencies by name,
 * each with the references to the dependencies that require it
 * (`Predecessors`) and to those it requires (`Successors`).
 *
 * The definitions of this graph's `RemoveDependency`, `DeepCopy`,
 * `GetDependency` and `Dependencies` are not part of this model; they are
 * modelled by what the filters rely on: removing a dependency drops it and
 * every reference to it, and a copy has the same dependencies and
 * references.
 */
module LibGraph {
  import opened Util
  import opened LibContainers

  /** A dependency with its predecessor and successor references, in the order they were added. */
  datatype Dependency = Dependency(preds: seq<DependencyReference>, succs: seq<DependencyReference>)

  type Deps = map<string, Dependency>

  /** The names of a list of references. */
  function RefNames(refs: seq<DependencyReference>): set<string>
  {
    set r | r in refs :: r.name
  }

  lemma RefNamed(refs: seq<DependencyReference>, x: string)
    requires x in RefNames(refs)
    ensures exists r | r in refs :: r.name == x
  {
  }

  /** Every reference from `x` names a dependency that refers back to `x`. */
  ghost predicate MirroredAt(deps: Deps, x: string)
    requires x in deps
  {
    && (forall r | r in deps[x].preds :: r.name in deps && x in RefNames(deps[r.name].succs))
    && (forall r | r in deps[x].succs :: r.name in deps && x in RefNames(deps[r.name].preds))
  }

  ghost predicate Mirrored(deps: Deps)
  {
    forall x {:trigger MirroredAt(deps, x)} | x in deps :: MirroredAt(deps, x)
  }

  /** The references of `refs` that do not name `name`, in order. */
  function Without(refs: seq<DependencyReference>, name: string): (r: seq<DependencyReference>)
    ensures forall s :: s in r <==> s in refs && s.name != name
  {
    if refs == [] then []
    else
      var last := refs[|refs| - 1];
      Without(refs[..|refs| - 1], name) + (if last.name == name then [] else [last])
  }

  /** `RemoveDependency`: the dependency goes, and so does every reference to it. */
  function Removed(deps: Deps, name: string): Deps
  {
    map x | x in deps && x != name :: Dependency(Without(deps[x].preds, name), Without(deps[x].succs, name))
  }

  /** The dependency `a` is `b` without the references to the names of `gone`. */
  ghost predicate DroppedNode(a: Dependency, b: Dependency, gone: set<string>)
  {
    && (forall r :: r in a.preds <==> r in b.preds && r.name !in gone)
    && (forall r :: r in a.succs <==> r in b.succs && r.name !in gone)
  }

  /** `r` is `deps` without the dependencies of `gone` and without every reference to them. */
  ghost predicate Dropped(r: Deps, deps: Deps, gone: set<string>)
  {
    && r.Keys == deps.Keys - gone
    && (forall x | x in r :: DroppedNode(r[x], deps[x], gone))
  }

  /** `RemoveDependency` drops exactly the dependency and the references to it. */
  lemma RemovedDrops(deps: Deps, name: string)
    ensures Dropped(Removed(deps, name), deps, {name})
  {
    var r := Removed(deps, name);
    forall x | x in r
      ensures DroppedNode(r[x], deps[x], {name})
    {
    }
  }

  lemma DroppedNone(deps: Deps)
    ensures Dropped(deps, deps, {})
  {
    forall x | x in deps
      ensures DroppedNode(deps[x], deps[x], {})
    {
    }
  }

  lemma {:induction false} DroppedTwice(r2: Deps, r1: Deps, r0: Deps, g1: set<string>, g2: set<string>)
    requires Dropped(r1, r0, g1) && Dropped(r2, r1, g2)
    ensures Dropped(r2, r0, g1 + g2)
  {
    forall x | x in r2
      ensures DroppedNode(r2[x], r0[x], g1 + g2)
    {
      assert DroppedNode(r2[x], r1[x], g2);
      assert DroppedNode(r1[x], r0[x], g1);
    }
  }

  /** Removing one known dependency drops exactly the names that went, and the graph shrinks. */
  lemma DroppedOne(r: Deps, deps: Deps, name: string)
    requires Dropped(r, deps, {name}) && name in deps
    ensures Dropped(r, deps, deps.Keys - r.Keys) && |r| < |deps|
  {
    assert deps.Keys - r.Keys == {name};
    assert r.Keys == deps.Keys - {name};
  }

  /** Two rounds of dropping are one, of everything that went. */
  lemma DroppedChain(r2: Deps, r1: Deps, r0: Deps)
    requires Dropped(r1, r0, r0.Keys - r1.Keys) && Dropped(r2, r1, r1.Keys - r2.Keys)
    ensures Dropped(r2, r0, r0.Keys - r2.Keys)
  {
    DroppedTwice(r2, r1, r0, r0.Keys - r1.Keys, r1.Keys - r2.Keys);
    assert (r0.Keys - r1.Keys) + (r1.Keys - r2.Keys) == r0.Keys - r2.Keys;
  }

  /** Dropping dependencies together with the references to them keeps a graph mirrored. */
  lemma DroppedMirrored(r: Deps, deps: Deps, gone: set<string>)
    requires Mirrored(deps) && Dropped(r, deps, gone)
    ensures Mirrored(r)
  {
    forall x | x in r
      ensures MirroredAt(r, x)
    {
      assert MirroredAt(deps, x);
      assert DroppedNode(r[x], deps[x], gone);
      forall p | p in r[x].preds
        ensures p.name in r && x in RefNames(r[p.name].succs)
      {
        assert DroppedNode(r[p.name], deps[p.name], gone);
        RefNamed(deps[p.name].succs, x);
        var s :| s in deps[p.name].succs && s.name == x;
        assert s in r[p.name].succs;
      }
      forall p | p in r[x].succs
        ensures p.name in r && x in RefNames(r[p.name].preds)
      {
        assert DroppedNode(r[p.name], deps[p.name], gone);
        RefNamed(deps[p.name].preds, x);
        var s :| s in deps[p.name].preds && s.name == x;
        assert s in r[p.name].preds;
      }
    }
  }

  /** The graph after `RemoveDependency` of each name of `xs`, in order. */
  function RemovedAll(deps: Deps, xs: seq<string>): Deps
    decreases |xs|
  {
    if xs == [] then deps else Removed(RemovedAll(deps, xs[..|xs| - 1]), xs[|xs| - 1])
  }

  lemma RemovedAllSnoc(deps: Deps, xs: seq<string>, x: string)
    ensures RemovedAll(deps, xs + [x]) == Removed(RemovedAll(deps, xs), x)
    ensures (xs + [x])[..|xs|] == xs
  {
    assert (xs + [x])[..|xs|] == xs;
  }

  /** Each name of `xs` was a dependency, and prunable, in the graph at the moment it was removed. */
  ghost predicate PrunedRun(deps: Deps, prunable: Dependency -> bool, xs: seq<string>)
    decreases |xs|
  {
    xs == [] ||
      var g := RemovedAll(deps, xs[..|xs| - 1]);
      && PrunedRun(deps, prunable, xs[..|xs| - 1])
      && xs[|xs| - 1] in g && prunable(g[xs[|xs| - 1]])
  }

  /** Removing one more dependency that is prunable when it is reached extends a run. */
  lemma PrunedRunSnoc(deps: Deps, prunable: Dependency -> bool, xs: seq<string>, x: string)
    requires PrunedRun(deps, prunable, xs)
    requires x in RemovedAll(deps, xs) && prunable(RemovedAll(deps, xs)[x])
    ensures PrunedRun(deps, prunable, xs + [x])
    ensures RemovedAll(deps, xs + [x]) == Removed(RemovedAll(deps, xs), x)
  {
    RemovedAllSnoc(deps, xs, x);
  }

  /** A run on the graph that another run left is, together with it, one run. */
  lemma {:induction false} PrunedRunAppend(deps: Deps, prunable: Dependency -> bool, xs: seq<string>, ys: seq<string>)
    requires PrunedRun(deps, prunable, xs) && PrunedRun(RemovedAll(deps, xs), prunable, ys)
    ensures PrunedRun(deps, prunable, xs + ys)
    ensures RemovedAll(deps, xs + ys) == RemovedAll(RemovedAll(deps, xs), ys)
    decreases |ys|
  {
    if ys == [] {
      assert xs + ys == xs;
    } else {
      PrunedRunAppend(deps, prunable, xs, ys[..|ys| - 1]);
      UnfoldAppend(deps, prunable, xs, ys);
    }
  }

  /** `RemovedAll` and `PrunedRun` of `xs + ys` unfold at the last name of `ys`. */
  lemma UnfoldAppend(deps: Deps, prunable: Dependency -> bool, xs: seq<string>, ys: seq<string>)
    requires ys != []
    ensures var before, y := RemovedAll(deps, xs + ys[..|ys| - 1]), ys[|ys| - 1];
      && RemovedAll(deps, xs + ys) == Removed(before, y)
      && (PrunedRun(deps, prunable, xs + ys) <==>
          PrunedRun(deps, prunable, xs + ys[..|ys| - 1]) && y in before && prunable(before[y]))
  {
    InitOfAppend(xs, ys);
    assert (xs + ys)[|xs + ys| - 1] == ys[|ys| - 1];
  }

  /** In a mirrored graph, a dependency without successors is not its own predecessor. */
  lemma NoSelfPred(deps: Deps, x: string, r: DependencyReference)
    requires Mirrored(deps) && x in deps && |deps[x].succs| == 0 && r in deps[x].preds
    ensures r.name in deps && r.name != x
  {
    assert MirroredAt(deps, x);
    assert deps[x].succs == [];
  }

  /** The graph object: its dependencies by name. */
  class DepGraph {
    var deps: Deps

    ghost predicate Valid()
      reads this
    {
      Mirrored(deps)
    }

    constructor (deps: Deps)
      requires Mirrored(deps)
      ensures Valid() && this.deps == deps
    {
      this.deps := deps;
    }

    /** `RemoveDependency`: drop the dependency and every reference to it; an unknown name drops nothing. */
    method RemoveDependency(name: string)
      requires Valid()
      modifies this
      ensures Valid()
      ensures deps == Removed(old(deps), name) && Dropped(deps, old(deps), {name})
    {
      RemovedDrops(deps, name);
      DroppedMirrored(Removed(deps, name), deps, {name});
      deps := Removed(deps, name);
    }

    /** `DeepCopy`: a new graph with the same dependencies and references. */
    method DeepCopy() returns (g: DepGraph)
      requires Valid()
      ensures fresh(g) && g.Valid() && g.deps == deps
    {
      g := new DepGraph(deps);
    }

    /** `Dependencies.List()`: the names of the dependencies, sorted. */
    method DependencyNames() returns (r: seq<string>)
      ensures StringsSorted(r) && |r| == |deps|
      ensures forall x :: x in r <==> x in deps
    {
      var todo := deps.Keys;
      var names: seq<string> := [];
      while todo != {}
        invariant todo <= deps.Keys
        invariant forall x :: x in names <==> x in deps && x !in todo
        invariant |names| + |todo| == |deps|
        decreases |todo|
      {
        var x :| x in todo;
        names := names + [x];
        todo := todo - {x};
      }
      r := SortStrings(names);
      SortedByIdentity(r);
      assert |r| == |multiset(r)| == |multiset(names)| == |names|;
      forall x
        ensures x in r <==> x in names
      {
        assert x in r <==> x in multiset(r);
        assert x in names <==> x in multiset(names);
      }
    }
  }
}
