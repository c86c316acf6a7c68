/**
 * The lib generation's filters over its dependency graph: `SubGraph`,
 * `prune` and `PruneUnsharedDeps` (lib/depgraph/filter.go), and the filters
 * `TargetDependencies`, `NonSharedDependencies` and `ArbitraryDependencies`
 * (lib/depgraph/filters/). The comparison of versions is a parameter.
 */
module LibFilters {
  import opened Util
  import opened LibContainers
  import opened LibGraph
  import TM = TargetModules
  import Graph

  type Target = TM.Target

  // ---------------------------------------------------------------------------
  // What the target filters read of the graph.

  /** The names of a list of references, in order. */
  function NamesOf(refs: seq<DependencyReference>): (r: seq<string>)
    ensures |r| == |refs| && forall i | 0 <= i < |r| :: r[i] == refs[i].name
  {
    if refs == [] then [] else NamesOf(refs[..|refs| - 1]) + [refs[|refs| - 1].name]
  }

  /** `Predecessors.List()` of a dependency: its predecessor references sorted by name; none for an unknown name. */
  function PredList(deps: Deps, x: string): seq<DependencyReference>
  {
    if x in deps then SortBy(deps[x].preds, RefName) else []
  }

  /** The graph as the walk up the predecessors reads it: the names, and each one's predecessors' names in `List` order. */
  function ViewOf(deps: Deps): TM.ModuleView
  {
    TM.ModuleView(deps.Keys, map x | x in deps :: NamesOf(PredList(deps, x)), map[])
  }

  lemma ViewPreds(deps: Deps, x: string)
    ensures TM.PredNames(ViewOf(deps), x) == NamesOf(PredList(deps, x))
  {
  }

  /** `matchesFilter`: without a version every predecessor counts; otherwise one whose required version is more recent. */
  predicate MatchesFilter(r: DependencyReference, f: Target, moreRecent: (string, string) -> bool)
  {
    f.version == "" || moreRecent(r.versionConstraint, f.version)
  }

  /**
   * `dependencyMatchesFilter`: a predecessor counts when its required
   * version or the target's is empty, and otherwise when its required
   * version is greater, both stripped of leading 'v's.
   */
  predicate DependencyMatchesFilter(r: DependencyReference, f: Target, greater: (string, string) -> bool)
  {
    r.versionConstraint == "" || f.version == "" || greater(TM.TrimLeftV(r.versionConstraint), TM.TrimLeftV(f.version))
  }

  function FilterMatcher(moreRecent: (string, string) -> bool): (DependencyReference, Target) -> bool
  {
    (r, f) => MatchesFilter(r, f, moreRecent)
  }

  function TargetMatcher(greater: (string, string) -> bool): (DependencyReference, Target) -> bool
  {
    (r, f) => DependencyMatchesFilter(r, f, greater)
  }

  /** The names of the references of `refs`, in order, that match the target `f`: where the walk starts. */
  function Seeds(refs: seq<DependencyReference>, f: Target, matches: (DependencyReference, Target) -> bool): (r: seq<string>)
    ensures forall y | y in r :: exists ref | ref in refs :: ref.name == y && matches(ref, f)
    ensures forall ref | ref in refs && matches(ref, f) :: ref.name in r
  {
    if refs == [] then []
    else
      var last := refs[|refs| - 1];
      assert refs == refs[..|refs| - 1] + [last];
      Seeds(refs[..|refs| - 1], f, matches) + (if matches(last, f) then [last.name] else [])
  }

  // ---------------------------------------------------------------------------
  // The names kept for a list of targets.

  /**
   * `applyFilter`, corrected: an unknown target keeps what was kept; a known
   * one is kept with every chain of predecessors leading to one of its
   * matching predecessors without passing through the target itself.
   */
  function FilterStep(deps: Deps, matches: (DependencyReference, Target) -> bool, keep: set<string>, f: Target): set<string>
  {
    if f.path !in deps then keep
    else keep + TM.Chains(ViewOf(deps), f.path, Seeds(PredList(deps, f.path), f, matches))
  }

  /**
   * `applyFilter` as written: an unknown target yields nil, which loses
   * what earlier targets kept, and the walk skips every name already kept,
   * so it does not go up through names kept for earlier targets.
   */
  function FilterStepAsWritten(deps: Deps, matches: (DependencyReference, Target) -> bool, keep: set<string>, f: Target): set<string>
  {
    if f.path !in deps then {}
    else
      var seeds := Seeds(PredList(deps, f.path), f, matches);
      TM.Walk(ViewOf(deps), keep + {f.path} + TM.SetOf(seeds), seeds)
  }

  function Keep(deps: Deps, matches: (DependencyReference, Target) -> bool, filters: seq<Target>): set<string>
  {
    if filters == [] then {}
    else FilterStep(deps, matches, Keep(deps, matches, filters[..|filters| - 1]), filters[|filters| - 1])
  }

  function KeepAsWritten(deps: Deps, matches: (DependencyReference, Target) -> bool, filters: seq<Target>): set<string>
  {
    if filters == [] then {}
    else FilterStepAsWritten(deps, matches, KeepAsWritten(deps, matches, filters[..|filters| - 1]), filters[|filters| - 1])
  }

  /**
   * `y` is kept for the target `f`: `f` is known and `y` is `f` or on a chain
   * up from one of its matching predecessors that does not pass through `f`.
   */
  ghost predicate KeptBy(deps: Deps, matches: (DependencyReference, Target) -> bool, f: Target, y: string)
  {
    f.path in deps && y in TM.Chains(ViewOf(deps), f.path, Seeds(PredList(deps, f.path), f, matches))
  }

  lemma FilterStepKept(deps: Deps, matches: (DependencyReference, Target) -> bool, keep: set<string>, f: Target, y: string)
    ensures y in FilterStep(deps, matches, keep, f) <==> y in keep || KeptBy(deps, matches, f, y)
  {
  }

  /** What the filters keep: exactly the names kept for one of the targets. */
  lemma {:induction false} KeepChains(deps: Deps, matches: (DependencyReference, Target) -> bool, filters: seq<Target>, y: string)
    ensures y in Keep(deps, matches, filters) <==> exists i | 0 <= i < |filters| :: KeptBy(deps, matches, filters[i], y)
  {
    if filters != [] {
      var n := |filters| - 1;
      var init := filters[..n];
      KeepChains(deps, matches, init, y);
      assert Keep(deps, matches, filters) == FilterStep(deps, matches, Keep(deps, matches, init), filters[n]);
      FilterStepKept(deps, matches, Keep(deps, matches, init), filters[n], y);
      ExistsSplit(filters, init, f => KeptBy(deps, matches, f, y));
    }
  }

  /** Some member of a non-empty list satisfies `P` when some member before the last does, or the last does. */
  lemma ExistsSplit<T>(s: seq<T>, init: seq<T>, P: T -> bool)
    requires s != [] && init == s[..|s| - 1]
    ensures (exists i | 0 <= i < |s| :: P(s[i])) <==> (exists i | 0 <= i < |init| :: P(init[i])) || P(s[|s| - 1])
  {
    if exists i | 0 <= i < |init| :: P(init[i]) {
      var i :| 0 <= i < |init| && P(init[i]);
      assert s[i] == init[i];
    }
  }

  /** Corrected, a target that is not in the graph changes nothing. */
  lemma UnknownTargetIgnored(deps: Deps, matches: (DependencyReference, Target) -> bool, filters: seq<Target>, t: Target)
    requires t.path !in deps
    ensures Keep(deps, matches, filters + [t]) == Keep(deps, matches, filters)
  {
    assert (filters + [t])[..|filters|] == filters;
  }

  /** As written, a last target that is not in the graph leaves nothing kept, whatever came before it. */
  lemma UnknownTargetAsWritten(deps: Deps, matches: (DependencyReference, Target) -> bool, filters: seq<Target>, t: Target)
    requires t.path !in deps
    ensures KeepAsWritten(deps, matches, filters + [t]) == {}
  {
    assert (filters + [t])[..|filters|] == filters;
  }

  /** A known target followed by an unknown one: corrected, the first is kept; as written, nothing is. */
  lemma KnownThenUnknown(deps: Deps, matches: (DependencyReference, Target) -> bool, a: Target, x: Target)
    requires a.path in deps && x.path !in deps
    ensures a.path in Keep(deps, matches, [a, x])
    ensures KeepAsWritten(deps, matches, [a, x]) == {}
  {
    UnknownTargetIgnored(deps, matches, [a], x);
    UnknownTargetAsWritten(deps, matches, [a], x);
    assert [a][..0] == [];
    TM.ChainsClosed(ViewOf(deps), a.path, Seeds(PredList(deps, a.path), a, matches));
  }

  // ---------------------------------------------------------------------------
  // The skipped chain.

  /** Four dependencies on the chain `b -> a -> d -> c`, where `b` requires `a` at "v0.9". */
  function SkipDeps(a: string, b: string, c: string, d: string): Deps
  {
    map[a := Dependency([DependencyReference(b, "v0.9")], [DependencyReference(d, "")]),
        b := Dependency([], [DependencyReference(a, "v0.9")]),
        c := Dependency([DependencyReference(d, "")], []),
        d := Dependency([DependencyReference(a, "")], [DependencyReference(c, "")])]
  }

  /** What the filters read of the four dependencies. */
  ghost predicate SkipShape(deps: Deps, a: string, b: string, c: string, d: string)
  {
    && a in deps && c in deps
    && PredList(deps, a) == [DependencyReference(b, "v0.9")] && PredList(deps, c) == [DependencyReference(d, "")]
    && TM.PredNames(ViewOf(deps), a) == [b] && TM.PredNames(ViewOf(deps), d) == [a]
  }

  lemma SkipPreds(a: string, b: string, c: string, d: string)
    requires TM.Distinct4(a, b, c, d)
    ensures SkipShape(SkipDeps(a, b, c, d), a, b, c, d)
  {
    var deps := SkipDeps(a, b, c, d);
    assert [DependencyReference(b, "v0.9")][1..] == [];
    assert [DependencyReference(d, "")][1..] == [];
    assert [DependencyReference(a, "")][1..] == [];
    ViewPreds(deps, a);
    ViewPreds(deps, d);
  }

  lemma SkipSeeds(deps: Deps, a: string, b: string, c: string, d: string, matches: (DependencyReference, Target) -> bool)
    requires SkipShape(deps, a, b, c, d)
    requires !matches(DependencyReference(b, "v0.9"), TM.Target(a, "v1.0")) && matches(DependencyReference(d, ""), TM.Target(c, ""))
    ensures Seeds(PredList(deps, a), TM.Target(a, "v1.0"), matches) == []
    ensures Seeds(PredList(deps, c), TM.Target(c, ""), matches) == [d]
  {
    assert [DependencyReference(b, "v0.9")][..0] == [];
    assert [DependencyReference(d, "")][..0] == [];
  }

  lemma TwoFilters(deps: Deps, matches: (DependencyReference, Target) -> bool, t1: Target, t2: Target)
    ensures KeepAsWritten(deps, matches, [t1, t2]) == FilterStepAsWritten(deps, matches, FilterStepAsWritten(deps, matches, {}, t1), t2)
    ensures Keep(deps, matches, [t1, t2]) == FilterStep(deps, matches, FilterStep(deps, matches, {}, t1), t2)
  {
    assert [t1, t2][..1] == [t1] && [t1][..0] == [];
    assert KeepAsWritten(deps, matches, [t1]) == FilterStepAsWritten(deps, matches, KeepAsWritten(deps, matches, []), t1);
    assert Keep(deps, matches, [t1]) == FilterStep(deps, matches, Keep(deps, matches, []), t1);
  }

  /**
   * Targets `a` at "v1.0" and then `c`. The reference from `b` to `a` does
   * not match the first target, so it keeps only `a`; `b` is on the chain
   * `b -> a -> d -> c` to the second target, but as written the second walk
   * does not go up through `a` and `b` is pruned.
   */
  lemma SkippedChainAsWritten(a: string, b: string, c: string, d: string, matches: (DependencyReference, Target) -> bool)
    requires TM.Distinct4(a, b, c, d)
    requires !matches(DependencyReference(b, "v0.9"), TM.Target(a, "v1.0")) && matches(DependencyReference(d, ""), TM.Target(c, ""))
    ensures b !in KeepAsWritten(SkipDeps(a, b, c, d), matches, [TM.Target(a, "v1.0"), TM.Target(c, "")])
  {
    SkipPreds(a, b, c, d);
    ShapeSkippedAsWritten(SkipDeps(a, b, c, d), a, b, c, d, matches);
  }

  lemma ShapeSkippedAsWritten(deps: Deps, a: string, b: string, c: string, d: string, matches: (DependencyReference, Target) -> bool)
    requires TM.Distinct4(a, b, c, d) && SkipShape(deps, a, b, c, d)
    requires !matches(DependencyReference(b, "v0.9"), TM.Target(a, "v1.0")) && matches(DependencyReference(d, ""), TM.Target(c, ""))
    ensures b !in KeepAsWritten(deps, matches, [TM.Target(a, "v1.0"), TM.Target(c, "")])
  {
    TwoFilters(deps, matches, TM.Target(a, "v1.0"), TM.Target(c, ""));
    LibSkipFirst(deps, a, b, c, d, matches);
    LibSkipSecond(deps, a, b, c, d, matches);
  }

  /** The first target keeps only itself: its one predecessor does not match. */
  lemma LibSkipFirst(deps: Deps, a: string, b: string, c: string, d: string, matches: (DependencyReference, Target) -> bool)
    requires SkipShape(deps, a, b, c, d)
    requires !matches(DependencyReference(b, "v0.9"), TM.Target(a, "v1.0")) && matches(DependencyReference(d, ""), TM.Target(c, ""))
    ensures FilterStepAsWritten(deps, matches, {}, TM.Target(a, "v1.0")) == {a}
  {
    SkipSeeds(deps, a, b, c, d, matches);
    assert TM.SetOf([]) == {};
    WalkNothing(ViewOf(deps), {} + {a} + {});
  }

  /** The second walk, starting with `a` kept, stops at `a`. */
  lemma LibSkipSecond(deps: Deps, a: string, b: string, c: string, d: string, matches: (DependencyReference, Target) -> bool)
    requires TM.Distinct4(a, b, c, d) && SkipShape(deps, a, b, c, d)
    requires !matches(DependencyReference(b, "v0.9"), TM.Target(a, "v1.0")) && matches(DependencyReference(d, ""), TM.Target(c, ""))
    ensures b !in FilterStepAsWritten(deps, matches, {a}, TM.Target(c, ""))
  {
    SkipSeeds(deps, a, b, c, d, matches);
    WalkStops(ViewOf(deps), a, b, c, d);
  }

  lemma WalkNothing(v: TM.ModuleView, seen: set<string>)
    ensures TM.Walk(v, seen, []) == seen
  {
  }

  /** A walk from `d`, whose one predecessor `a` is already seen, sees nothing new. */
  lemma WalkStops(v: TM.ModuleView, a: string, b: string, c: string, d: string)
    requires TM.Distinct4(a, b, c, d) && TM.PredNames(v, d) == [a]
    ensures b !in TM.Walk(v, {a} + {c} + TM.SetOf([d]), [d])
  {
    assert TM.SetOf([d]) == {d};
    assert {a} + {c} + TM.SetOf([d]) == {a, c, d};
    TM.WalkWithin(v, {a, c, d}, {d}, {a, c, d}, [d]);
  }

  /** Corrected, the second target keeps `b`. */
  lemma SkippedChainKept(a: string, b: string, c: string, d: string, matches: (DependencyReference, Target) -> bool)
    requires TM.Distinct4(a, b, c, d)
    requires !matches(DependencyReference(b, "v0.9"), TM.Target(a, "v1.0")) && matches(DependencyReference(d, ""), TM.Target(c, ""))
    ensures b in Keep(SkipDeps(a, b, c, d), matches, [TM.Target(a, "v1.0"), TM.Target(c, "")])
  {
    SkipPreds(a, b, c, d);
    ShapeSkippedKept(SkipDeps(a, b, c, d), a, b, c, d, matches);
  }

  lemma ShapeSkippedKept(deps: Deps, a: string, b: string, c: string, d: string, matches: (DependencyReference, Target) -> bool)
    requires SkipShape(deps, a, b, c, d)
    requires !matches(DependencyReference(b, "v0.9"), TM.Target(a, "v1.0")) && matches(DependencyReference(d, ""), TM.Target(c, ""))
    ensures b in Keep(deps, matches, [TM.Target(a, "v1.0"), TM.Target(c, "")])
  {
    var v := ViewOf(deps);
    var filters := [TM.Target(a, "v1.0"), TM.Target(c, "")];
    SkipSeeds(deps, a, b, c, d, matches);
    TM.ChainsClosed(v, c, [d]);
    assert d in TM.Chains(v, c, [d]) && a in TM.PredNames(v, d);
    assert a in TM.Chains(v, c, [d]) && b in TM.PredNames(v, a);
    assert KeptBy(deps, matches, filters[1], b);
    KeepChains(deps, matches, filters, b);
  }

  /** Both matchers reject the reference from `b` when its version is not more recent, and accept any reference to a target without a version. */
  lemma MatchersOnSkip(b: string, a: string, c: string, d: string, moreRecent: (string, string) -> bool, greater: (string, string) -> bool)
    requires !moreRecent("v0.9", "v1.0") && !greater("0.9", "1.0")
    ensures !FilterMatcher(moreRecent)(DependencyReference(b, "v0.9"), TM.Target(a, "v1.0"))
    ensures !TargetMatcher(greater)(DependencyReference(b, "v0.9"), TM.Target(a, "v1.0"))
    ensures FilterMatcher(moreRecent)(DependencyReference(d, ""), TM.Target(c, ""))
    ensures TargetMatcher(greater)(DependencyReference(d, ""), TM.Target(c, ""))
  {
    TM.TrimmedVersions();
  }

  // ---------------------------------------------------------------------------
  // The target filters on the graph.

  lemma SeedsSnoc(refs: seq<DependencyReference>, i: int, f: Target, matches: (DependencyReference, Target) -> bool)
    requires 0 <= i < |refs|
    ensures Seeds(refs[..i + 1], f, matches) ==
      Seeds(refs[..i], f, matches) + (if matches(refs[i], f) then [refs[i].name] else [])
  {
    assert refs[..i + 1][..i] == refs[..i];
  }

  /** The first loop of `applyFilter`: the target's predecessors, in `List` order, that match it. */
  method MatchingPreds(g: DepGraph, f: Target, matches: (DependencyReference, Target) -> bool) returns (seeds: seq<string>)
    requires f.path in g.deps
    ensures seeds == Seeds(PredList(g.deps, f.path), f, matches)
  {
    var refs := SortBy(g.deps[f.path].preds, RefName);
    seeds := [];
    for i := 0 to |refs|
      invariant seeds == Seeds(refs[..i], f, matches)
    {
      SeedsSnoc(refs, i, f, matches);
      if matches(refs[i], f) {
        seeds := seeds + [refs[i].name];
      }
    }
    assert refs[..|refs|] == refs;
  }

  /** The walk of `applyFilter` on the graph: it computes `Walk` over the graph's view. */
  method WalkPreds(g: DepGraph, seen0: set<string>, todo0: seq<string>) returns (seen: set<string>)
    ensures seen == TM.Walk(ViewOf(g.deps), seen0, todo0)
  {
    ghost var v := ViewOf(g.deps);
    seen := seen0;
    var todo := todo0;
    while todo != []
      invariant TM.Walk(v, seen, todo) == TM.Walk(v, seen0, todo0)
      decreases |TM.Universe(v) - seen|, |todo|
    {
      var refs := PredList(g.deps, todo[0]);
      ViewPreds(g.deps, todo[0]);
      var seen1, queued := TM.EnqueueNames(seen, NamesOf(refs));
      TM.EnqueueShrinks(v, seen, todo[0]);
      seen, todo := seen1, todo[1..] + queued;
    }
  }

  /** `applyFilter`, corrected: the names kept once one more target is applied. */
  method ApplyFilter(g: DepGraph, f: Target, keep: set<string>, matches: (DependencyReference, Target) -> bool) returns (keep1: set<string>)
    ensures keep1 == FilterStep(g.deps, matches, keep, f)
  {
    if f.path !in g.deps {
      return keep;
    }
    var seeds := MatchingPreds(g, f, matches);
    var chains := WalkPreds(g, {f.path} + TM.SetOf(seeds), seeds);
    keep1 := keep + chains;
  }

  /** The first loop of `SubGraph`: the names kept for every target, in order. */
  method CollectKeep(g: DepGraph, filters: seq<Target>, matches: (DependencyReference, Target) -> bool) returns (keep: set<string>)
    ensures keep == Keep(g.deps, matches, filters)
  {
    keep := {};
    for i := 0 to |filters|
      invariant keep == Keep(g.deps, matches, filters[..i])
    {
      keep := ApplyFilter(g, filters[i], keep, matches);
      assert filters[..i + 1][..i] == filters[..i];
    }
    assert filters[..|filters|] == filters;
  }

  /** The pruning loop of `SubGraph`: remove every listed name that was not kept. */
  method RemoveUnkept(sub: DepGraph, names: seq<string>, keep: set<string>)
    requires sub.Valid()
    modifies sub
    ensures sub.Valid() && Dropped(sub.deps, old(sub.deps), TM.SetOf(names) - keep)
  {
    DroppedNone(sub.deps);
    for i := 0 to |names|
      invariant sub.Valid() && Dropped(sub.deps, old(sub.deps), TM.SetOf(names[..i]) - keep)
    {
      assert TM.SetOf(names[..i + 1]) == TM.SetOf(names[..i]) + {names[i]};
      if names[i] !in keep {
        ghost var prev := sub.deps;
        sub.RemoveDependency(names[i]);
        DroppedTwice(sub.deps, prev, old(sub.deps), TM.SetOf(names[..i]) - keep, {names[i]});
        assert TM.SetOf(names[..i]) - keep + {names[i]} == TM.SetOf(names[..i + 1]) - keep;
      } else {
        assert TM.SetOf(names[..i]) - keep == TM.SetOf(names[..i + 1]) - keep;
      }
    }
    assert names[..|names|] == names;
  }

  /**
   * `SubGraph` and `TargetDependencies.Apply`, corrected: no filters return
   * the graph itself; otherwise a copy keeps exactly the names kept for the
   * filters, with the references among them.
   */
  method FilterByTargets(g: DepGraph, filters: seq<Target>, matches: (DependencyReference, Target) -> bool) returns (r: DepGraph)
    requires g.Valid()
    ensures filters == [] ==> r == g
    ensures filters != [] ==> fresh(r) && r.Valid() && Dropped(r.deps, g.deps, g.deps.Keys - Keep(g.deps, matches, filters))
  {
    if |filters| == 0 {
      return g;
    }
    var keep := CollectKeep(g, filters, matches);
    r := g.DeepCopy();
    var names := g.DependencyNames();
    RemoveUnkept(r, names, keep);
    assert TM.SetOf(names) == g.deps.Keys;
  }

  /** `SubGraph` of lib/depgraph/filter.go, with `matchesFilter`. */
  method SubGraph(g: DepGraph, filters: seq<Target>, moreRecent: (string, string) -> bool) returns (r: DepGraph)
    requires g.Valid()
    ensures filters == [] ==> r == g
    ensures filters != [] ==> fresh(r) && r.Valid() && Dropped(r.deps, g.deps, g.deps.Keys - Keep(g.deps, FilterMatcher(moreRecent), filters))
  {
    r := FilterByTargets(g, filters, FilterMatcher(moreRecent));
  }

  /** `TargetDependencies.Apply`, with `dependencyMatchesFilter`. */
  method TargetDependenciesApply(g: DepGraph, targets: seq<Target>, greater: (string, string) -> bool) returns (r: DepGraph)
    requires g.Valid()
    ensures targets == [] ==> r == g
    ensures targets != [] ==> fresh(r) && r.Valid() && Dropped(r.deps, g.deps, g.deps.Keys - Keep(g.deps, TargetMatcher(greater), targets))
  {
    r := FilterByTargets(g, targets, TargetMatcher(greater));
  }

  // ---------------------------------------------------------------------------
  // prune, PruneUnsharedDeps and ArbitraryDependencies.

  /** The body of a pass of `prune`: remove the named dependency when it is still there and prunable. */
  method PruneOne(p: DepGraph, name: string, prunable: Dependency -> bool) returns (hit: bool)
    requires p.Valid()
    modifies p
    ensures p.Valid() && Dropped(p.deps, old(p.deps), old(p.deps).Keys - p.deps.Keys)
    ensures hit <==> name in old(p.deps) && prunable(old(p.deps)[name])
    ensures !hit ==> p.deps == old(p.deps)
    ensures hit ==> p.deps == Removed(old(p.deps), name) && |p.deps| < |old(p.deps)|
  {
    ghost var d0 := p.deps;
    hit := name in p.deps && prunable(p.deps[name]);
    if hit {
      p.RemoveDependency(name);
      DroppedOne(p.deps, d0, name);
    } else {
      DroppedNone(d0);
      assert d0.Keys - d0.Keys == {};
    }
  }

  /**
   * The state of a pass of `prune` after the first `i` names: `run` went
   * from `d0`, `removed` says whether anything went, and when nothing did no
   * name seen so far was prunable.
   */
  ghost predicate PassSoFar(deps: Deps, d0: Deps, prunable: Dependency -> bool, run: seq<string>, removed: bool, names: seq<string>, i: int)
  {
    && deps == RemovedAll(d0, run) && PrunedRun(d0, prunable, run)
    && (removed <==> run != [])
    && (!removed ==> deps == d0 && forall j | 0 <= j < i && j < |names| :: names[j] in d0 ==> !prunable(d0[names[j]]))
    && (removed ==> |deps| < |d0|)
  }

  /** One turn of a pass of `prune`: `names[i]` is removed, and added to the run, exactly when it is still there and prunable. */
  method PruneStep(p: DepGraph, names: seq<string>, i: int, prunable: Dependency -> bool, ghost d0: Deps, ghost run0: seq<string>, removed0: bool)
    returns (removed: bool, ghost run: seq<string>)
    requires 0 <= i < |names|
    requires p.Valid() && Dropped(p.deps, d0, d0.Keys - p.deps.Keys)
    requires PassSoFar(p.deps, d0, prunable, run0, removed0, names, i)
    modifies p
    ensures p.Valid() && Dropped(p.deps, d0, d0.Keys - p.deps.Keys)
    ensures PassSoFar(p.deps, d0, prunable, run, removed, names, i + 1)
  {
    ghost var prev := p.deps;
    var hit := PruneOne(p, names[i], prunable);
    DroppedChain(p.deps, prev, d0);
    run := run0;
    if hit {
      PrunedRunSnoc(d0, prunable, run0, names[i]);
      run := run0 + [names[i]];
    }
    removed := removed0 || hit;
  }

  /**
   * One pass of the outer loop of `prune`: remove, in `List` order, each
   * dependency that is prunable when it is reached. `run` lists the
   * dependencies removed, in order.
   */
  method PrunePass(p: DepGraph, prunable: Dependency -> bool) returns (removed: bool, ghost run: seq<string>)
    requires p.Valid()
    modifies p
    ensures p.Valid() && Dropped(p.deps, old(p.deps), old(p.deps).Keys - p.deps.Keys)
    ensures p.deps == RemovedAll(old(p.deps), run) && PrunedRun(old(p.deps), prunable, run)
    ensures removed <==> run != []
    ensures !removed ==> p.deps == old(p.deps) && forall x | x in p.deps :: !prunable(p.deps[x])
    ensures removed ==> |p.deps| < |old(p.deps)|
  {
    ghost var d0 := p.deps;
    DroppedNone(d0);
    assert d0.Keys - d0.Keys == {};
    var names := p.DependencyNames();
    removed := false;
    run := [];
    for i := 0 to |names|
      invariant p.Valid() && Dropped(p.deps, d0, d0.Keys - p.deps.Keys)
      invariant PassSoFar(p.deps, d0, prunable, run, removed, names, i)
    {
      removed, run := PruneStep(p, names, i, prunable, d0, run, removed);
    }
    if !removed {
      forall x | x in p.deps ensures !prunable(p.deps[x]) {
        var j :| 0 <= j < |names| && names[j] == x;
      }
    }
  }

  /** The outer loop of `prune`, on the copy being pruned; `run` lists the dependencies removed, in order. */
  method PruneLoop(p: DepGraph, prunable: Dependency -> bool) returns (ghost run: seq<string>)
    requires p.Valid()
    modifies p
    ensures p.Valid() && Dropped(p.deps, old(p.deps), old(p.deps).Keys - p.deps.Keys)
    ensures p.deps == RemovedAll(old(p.deps), run) && PrunedRun(old(p.deps), prunable, run)
    ensures forall x | x in p.deps :: !prunable(p.deps[x])
  {
    ghost var d0 := p.deps;
    DroppedNone(d0);
    assert d0.Keys - d0.Keys == {};
    run := [];
    var done := false;
    while !done
      invariant p.Valid() && Dropped(p.deps, d0, d0.Keys - p.deps.Keys)
      invariant p.deps == RemovedAll(d0, run) && PrunedRun(d0, prunable, run)
      invariant done ==> forall x | x in p.deps :: !prunable(p.deps[x])
      decreases |p.deps| + (if done then 0 else 1)
    {
      ghost var prev := p.deps;
      var removed;
      ghost var pass;
      removed, pass := PrunePass(p, prunable);
      DroppedChain(p.deps, prev, d0);
      PrunedRunAppend(d0, prunable, run, pass);
      run := run + pass;
      done := !removed;
    }
  }

  /**
   * `prune`: on a copy, repeat passes until one removes nothing. `run` lists
   * the dependencies removed, each prunable when it was removed.
   */
  method Prune(g: DepGraph, prunable: Dependency -> bool) returns (p: DepGraph, ghost run: seq<string>)
    requires g.Valid()
    ensures fresh(p) && p.Valid() && Dropped(p.deps, g.deps, g.deps.Keys - p.deps.Keys)
    ensures p.deps == RemovedAll(g.deps, run) && PrunedRun(g.deps, prunable, run)
    ensures forall x | x in p.deps :: !prunable(p.deps[x])
  {
    p := g.DeepCopy();
    run := PruneLoop(p, prunable);
  }

  /** What `PruneUnsharedDeps` prunes: no successors and fewer than two predecessors. */
  predicate Unshared(d: Dependency)
  {
    |d.succs| == 0 && |d.preds| < 2
  }

  /**
   * `PruneUnsharedDeps`: what is left has, for every dependency, a successor
   * or at least two predecessors; each dependency removed had neither when it
   * was removed.
   */
  method PruneUnsharedDeps(g: DepGraph) returns (p: DepGraph, ghost run: seq<string>)
    requires g.Valid()
    ensures fresh(p) && p.Valid() && Dropped(p.deps, g.deps, g.deps.Keys - p.deps.Keys)
    ensures p.deps == RemovedAll(g.deps, run) && PrunedRun(g.deps, Unshared, run)
    ensures forall x | x in p.deps :: |p.deps[x].succs| > 0 || |p.deps[x].preds| >= 2
  {
    p, run := Prune(g, Unshared);
  }

  /** `ArbitraryDependencies.Apply`: a copy without the named dependencies and the references to them. */
  method ArbitraryDependenciesApply(g: DepGraph, names: seq<string>) returns (r: DepGraph)
    requires g.Valid()
    ensures fresh(r) && r.Valid() && Dropped(r.deps, g.deps, TM.SetOf(names))
  {
    r := g.DeepCopy();
    DroppedNone(r.deps);
    for i := 0 to |names|
      invariant r.Valid() && Dropped(r.deps, g.deps, TM.SetOf(names[..i]))
    {
      ghost var prev := r.deps;
      r.RemoveDependency(names[i]);
      DroppedTwice(r.deps, prev, g.deps, TM.SetOf(names[..i]), {names[i]});
      assert TM.SetOf(names[..i]) + {names[i]} == TM.SetOf(names[..i + 1]);
    }
    assert names[..|names|] == names;
  }

  // ---------------------------------------------------------------------------
  // NonSharedDependencies.

  /** What `NonSharedDependencies` prunes: not excluded, no successor and at most one predecessor. */
  predicate Prunable(deps: Deps, excludes: set<string>, x: string)
    requires x in deps
  {
    x !in excludes && |deps[x].succs| == 0 && |deps[x].preds| <= 1
  }

  /** The search of `NonSharedDependencies.Apply`: the first prunable dependency by name, or none. */
  method FindUnshared(g: DepGraph, excludes: set<string>) returns (target: Option<string>)
    ensures target.None? ==> forall x | x in g.deps :: !Prunable(g.deps, excludes, x)
    ensures target.Some? ==> target.value in g.deps && Prunable(g.deps, excludes, target.value)
    ensures target.Some? ==> forall x | x in g.deps && Prunable(g.deps, excludes, x) :: LessEq(target.value, x)
  {
    var names := g.DependencyNames();
    for i := 0 to |names|
      invariant forall j | 0 <= j < i :: !Prunable(g.deps, excludes, names[j])
    {
      if Prunable(g.deps, excludes, names[i]) {
        forall x | x in g.deps && Prunable(g.deps, excludes, x)
          ensures LessEq(names[i], x)
        {
          var k :| 0 <= k < |names| && names[k] == x;
          if k > i {
            assert LessEq(names[i], names[k]);
          } else if k == i {
            assert LessEq(x, x);
          }
        }
        return Some(names[i]);
      }
    }
    forall x | x in g.deps
      ensures !Prunable(g.deps, excludes, x)
    {
      var k :| 0 <= k < |names| && names[k] == x;
    }
    return None;
  }

  /** The first predecessor of a dependency in `List` order: the least name. */
  function FirstPred(d: Dependency): (n: string)
    requires |d.preds| > 0
    ensures n in RefNames(d.preds) && forall r | r in d.preds :: LessEq(n, r.name)
  {
    var refs := SortBy(d.preds, RefName);
    assert |refs| == |multiset(refs)| == |d.preds|;
    assert refs[0] in multiset(d.preds);
    forall r | r in d.preds
      ensures LessEq(refs[0].name, r.name)
    {
      assert r in multiset(refs);
      var k :| 0 <= k < |refs| && refs[k] == r;
      if k > 0 {
        assert LessEq(RefName(refs[0]), RefName(refs[k]));
      }
    }
    refs[0].name
  }

  /**
   * `xs` is a walk of `pruneUnsharedChain` so far: its first dependency is
   * prunable, and each next one is the first predecessor of the one before,
   * prunable once that one is removed.
   */
  ghost predicate ChainWalk(deps: Deps, excludes: set<string>, xs: seq<string>)
    decreases |xs|
  {
    && |xs| >= 1
    && if |xs| == 1 then xs[0] in deps && Prunable(deps, excludes, xs[0])
       else
         var ys := xs[..|xs| - 1];
         var before := RemovedAll(deps, ys[..|ys| - 1]);
         var after := RemovedAll(deps, ys);
         var x := xs[|xs| - 1];
         && ChainWalk(deps, excludes, ys)
         && ys[|ys| - 1] in before && |before[ys[|ys| - 1]].preds| > 0
         && FirstPred(before[ys[|ys| - 1]]) == x
         && x in after && Prunable(after, excludes, x)
  }

  /** The walk `xs` stops there: its last dependency had no predecessor, or its first one is not prunable once the last is removed. */
  ghost predicate ChainStops(deps: Deps, excludes: set<string>, xs: seq<string>)
    requires |xs| >= 1
  {
    var before := RemovedAll(deps, xs[..|xs| - 1]);
    var after := RemovedAll(deps, xs);
    var x := xs[|xs| - 1];
    x in before ==>
      || |before[x].preds| == 0
      || !(FirstPred(before[x]) in after && Prunable(after, excludes, FirstPred(before[x])))
  }

  /** The walk goes on with the first predecessor of its last dependency when that one is prunable once the last is removed. */
  lemma ChainWalkSnoc(deps: Deps, excludes: set<string>, xs: seq<string>, x: string)
    requires ChainWalk(deps, excludes, xs)
    requires xs[|xs| - 1] in RemovedAll(deps, xs[..|xs| - 1])
    requires |RemovedAll(deps, xs[..|xs| - 1])[xs[|xs| - 1]].preds| > 0
    requires FirstPred(RemovedAll(deps, xs[..|xs| - 1])[xs[|xs| - 1]]) == x
    requires x in RemovedAll(deps, xs) && Prunable(RemovedAll(deps, xs), excludes, x)
    ensures ChainWalk(deps, excludes, xs + [x])
  {
    InitOfSnoc(xs, x);
  }

  /** A walk of `pruneUnsharedChain` is a run of `PruneUnsharedDeps` that never removes an excluded dependency. */
  lemma {:induction false} ChainWalkPruned(deps: Deps, excludes: set<string>, xs: seq<string>)
    requires ChainWalk(deps, excludes, xs)
    ensures PrunedRun(deps, Unshared, xs) && forall x | x in xs :: x !in excludes
    decreases |xs|
  {
    var ys := xs[..|xs| - 1];
    if |xs| > 1 {
      ChainWalkPruned(deps, excludes, ys);
    }
    forall i | 0 <= i < |xs| - 1
      ensures xs[i] !in excludes
    {
      assert xs[i] == ys[i];
    }
  }

  /**
   * The state of `pruneUnsharedChain`'s loop: `done` went from `deps`,
   * leaving `cur`, and `leaf`, prunable in `cur`, is the next step of the
   * walk from `leaf0`.
   */
  ghost predicate Walking(deps: Deps, excludes: set<string>, leaf0: string, done: seq<string>, leaf: string, cur: Deps)
  {
    && cur == RemovedAll(deps, done) && ChainWalk(deps, excludes, done + [leaf]) && (done + [leaf])[0] == leaf0
    && leaf in cur && Prunable(cur, excludes, leaf)
  }

  lemma ChainStarts(deps: Deps, excludes: set<string>, leaf0: string)
    requires leaf0 in deps && Prunable(deps, excludes, leaf0)
    ensures Walking(deps, excludes, leaf0, [], leaf0, deps)
  {
    assert [] + [leaf0] == [leaf0];
  }

  /** Removing the leaf ends the walk when the leaf had no predecessor or its first one is not prunable once the leaf is gone. */
  lemma ChainEnds(deps: Deps, excludes: set<string>, leaf0: string, done: seq<string>, leaf: string, cur: Deps)
    requires Walking(deps, excludes, leaf0, done, leaf, cur)
    requires || |cur[leaf].preds| == 0
             || !(FirstPred(cur[leaf]) in Removed(cur, leaf) && Prunable(Removed(cur, leaf), excludes, FirstPred(cur[leaf])))
    ensures var walk := done + [leaf];
      && |walk| >= 1 && walk[0] == leaf0
      && ChainWalk(deps, excludes, walk) && ChainStops(deps, excludes, walk)
      && Removed(cur, leaf) == RemovedAll(deps, walk)
  {
    RemovedAllSnoc(deps, done, leaf);
  }

  /** Removing the leaf goes on to its first predecessor when that one is prunable once the leaf is gone. */
  lemma ChainGoesOn(deps: Deps, excludes: set<string>, leaf0: string, done: seq<string>, leaf: string, cur: Deps, next: string)
    requires Walking(deps, excludes, leaf0, done, leaf, cur)
    requires |cur[leaf].preds| > 0 && next == FirstPred(cur[leaf])
    requires next in Removed(cur, leaf) && Prunable(Removed(cur, leaf), excludes, next)
    ensures Walking(deps, excludes, leaf0, done + [leaf], next, Removed(cur, leaf))
  {
    RemovedAllSnoc(deps, done, leaf);
    ChainWalkSnoc(deps, excludes, done + [leaf], next);
    assert (done + [leaf] + [next])[0] == (done + [leaf])[0];
  }

  /**
   * One pass of `pruneUnsharedChain`'s loop: remove the leaf, then name its
   * first predecessor when the leaf had one and that one is prunable once
   * the leaf is gone.
   */
  method ChainStep(g: DepGraph, excludes: set<string>, ghost d0: Deps, ghost leaf0: string, ghost done: seq<string>, leaf: string)
    returns (next: Option<string>)
    requires g.Valid() && Dropped(g.deps, d0, d0.Keys - g.deps.Keys)
    requires forall x | x in d0 && x in excludes :: x in g.deps
    requires Walking(d0, excludes, leaf0, done, leaf, g.deps)
    modifies g
    ensures g.Valid() && Dropped(g.deps, d0, d0.Keys - g.deps.Keys)
    ensures forall x | x in d0 && x in excludes :: x in g.deps
    ensures leaf !in g.deps && |g.deps| < |old(g.deps)| && forall x | x !in old(g.deps) :: x !in g.deps
    ensures next.None? ==>
      var walk := done + [leaf];
      && |walk| >= 1 && walk[0] == leaf0
      && ChainWalk(d0, excludes, walk) && ChainStops(d0, excludes, walk)
      && g.deps == RemovedAll(d0, walk)
    ensures next.Some? ==> Walking(d0, excludes, leaf0, done + [leaf], next.value, g.deps)
  {
    ghost var prev := g.deps;
    var refs := SortBy(g.deps[leaf].preds, RefName);
    assert |refs| == |multiset(refs)| == |prev[leaf].preds|;
    if |refs| == 0 {
      g.RemoveDependency(leaf);
      DroppedOne(g.deps, prev, leaf);
      DroppedChain(g.deps, prev, d0);
      ChainEnds(d0, excludes, leaf0, done, leaf, prev);
      return None;
    }
    var newLeaf := refs[0].name;
    assert newLeaf == FirstPred(prev[leaf]);
    assert refs[0] in multiset(g.deps[leaf].preds);
    NoSelfPred(g.deps, leaf, refs[0]);
    g.RemoveDependency(leaf);
    DroppedOne(g.deps, prev, leaf);
    DroppedChain(g.deps, prev, d0);
    if newLeaf in excludes || |g.deps[newLeaf].succs| != 0 || |g.deps[newLeaf].preds| > 1 {
      ChainEnds(d0, excludes, leaf0, done, leaf, prev);
      return None;
    }
    ChainGoesOn(d0, excludes, leaf0, done, leaf, prev, newLeaf);
    return Some(newLeaf);
  }

  /**
   * `pruneUnsharedChain`: remove the leaf; while it had a predecessor, go on
   * with its first one by name, as long as that one is not excluded and,
   * once the leaf is gone, has no successor and at most one predecessor.
   * `walk` lists the dependencies removed, and nothing else goes.
   */
  method PruneUnsharedChain(g: DepGraph, excludes: set<string>, leaf0: string) returns (ghost walk: seq<string>)
    requires g.Valid() && leaf0 in g.deps && Prunable(g.deps, excludes, leaf0)
    modifies g
    ensures g.Valid() && Dropped(g.deps, old(g.deps), old(g.deps).Keys - g.deps.Keys)
    ensures |walk| >= 1 && walk[0] == leaf0
    ensures ChainWalk(old(g.deps), excludes, walk) && ChainStops(old(g.deps), excludes, walk)
    ensures g.deps == RemovedAll(old(g.deps), walk)
    ensures forall x | x in old(g.deps) && x in excludes :: x in g.deps
    ensures leaf0 !in g.deps
  {
    ghost var d0 := g.deps;
    DroppedNone(d0);
    assert d0.Keys - d0.Keys == {};
    ChainStarts(d0, excludes, leaf0);
    ghost var done: seq<string> := [];
    var leaf := leaf0;
    while true
      invariant g.Valid() && Dropped(g.deps, d0, d0.Keys - g.deps.Keys)
      invariant forall x | x in d0 && x in excludes :: x in g.deps
      invariant Walking(d0, excludes, leaf0, done, leaf, g.deps)
      invariant leaf == leaf0 || leaf0 !in g.deps
      decreases |g.deps|
    {
      var next := ChainStep(g, excludes, d0, leaf0, done, leaf);
      if next.None? {
        return done + [leaf];
      }
      done := done + [leaf];
      leaf := next.value;
    }
  }

  /** `run` went from `deps`, leaving `cur`: each dependency of it unshared and not excluded when it was removed. */
  ghost predicate SparedRun(deps: Deps, excludes: set<string>, run: seq<string>, cur: Deps)
  {
    cur == RemovedAll(deps, run) && PrunedRun(deps, Unshared, run) && forall x | x in run :: x !in excludes
  }

  /** The walks of `NonSharedDependencies.Apply`, one after the other, are one run of `PruneUnsharedDeps` that spares the excluded dependencies. */
  lemma ChainsPruned(deps: Deps, excludes: set<string>, run: seq<string>, cur: Deps, walk: seq<string>)
    requires SparedRun(deps, excludes, run, cur) && ChainWalk(cur, excludes, walk)
    ensures SparedRun(deps, excludes, run + walk, RemovedAll(cur, walk))
  {
    ChainWalkPruned(cur, excludes, walk);
    PrunedRunAppend(deps, Unshared, run, walk);
  }

  /**
   * `NonSharedDependencies.Apply`: on a copy, prune unshared chains until no
   * dependency that is not excluded is unshared. Excluded dependencies stay;
   * `run` lists the dependencies removed, each unshared and not excluded
   * when it was removed.
   */
  method NonSharedApply(g: DepGraph, excludes: seq<string>) returns (r: DepGraph, ghost run: seq<string>)
    requires g.Valid()
    ensures fresh(r) && r.Valid() && Dropped(r.deps, g.deps, g.deps.Keys - r.deps.Keys)
    ensures r.deps == RemovedAll(g.deps, run) && PrunedRun(g.deps, Unshared, run)
    ensures forall x | x in run :: x !in excludes
    ensures forall x | x in g.deps && x in excludes :: x in r.deps
    ensures forall x | x in r.deps :: !Prunable(r.deps, TM.SetOf(excludes), x)
  {
    var excludeSet := TM.SetOf(excludes);
    r := g.DeepCopy();
    DroppedNone(g.deps);
    assert g.deps.Keys - g.deps.Keys == {};
    run := [];
    while true
      invariant fresh(r) && r.Valid() && Dropped(r.deps, g.deps, g.deps.Keys - r.deps.Keys)
      invariant SparedRun(g.deps, excludeSet, run, r.deps)
      invariant forall x | x in g.deps && x in excludeSet :: x in r.deps
      decreases |r.deps|
    {
      var target := FindUnshared(r, excludeSet);
      if target.None? {
        return;
      }
      ghost var prev := r.deps;
      ghost var walk := PruneUnsharedChain(r, excludeSet, target.value);
      DroppedChain(r.deps, prev, g.deps);
      Graph.ProperSubsetSize(r.deps.Keys, prev.Keys, target.value);
      ChainsPruned(g.deps, excludeSet, run, prev, walk);
      run := run + walk;
    }
  }
}
