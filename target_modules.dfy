/**
 * The `TargetModules` filter (internal/depgraph/filters/target_modules.go):
 * keep the modules on a chain of predecessors leading to one of the
 * targets, and delete every other module.
 *
 * The walk up the predecessors is specified on a `ModuleView`, the part of
 * the graph that `applyFilter` reads, and `Walk` is its loop as a function.
 */
module TargetModules {
  import opened Util
  import opened GraphNode
  import opened Graph
  import opened GraphEdges
  import opened GraphLaws
  import opened GraphObject
  import opened DepGraphNodes
  import opened DepGraphObject
  import opened ModuleFilters

  // ---------------------------------------------------------------------------
  // Matching a target.

  /** `strings.TrimLeft(s, "v")`: every leading 'v' goes, and nothing else. */
  function TrimLeftV(s: string): (r: string)
    ensures |r| <= |s| && r == s[|s| - |r|..]
    ensures r == [] || r[0] != 'v'
    ensures forall i | 0 <= i < |s| - |r| :: s[i] == 'v'
  {
    if s != [] && s[0] == 'v' then TrimLeftV(s[1..]) else s
  }

  /** A target of the filter: a module path, and a version, "" for none. */
  datatype Target = Target(path: string, version: string)

  /**
   * `dependencyMatchesFilter`: a predecessor of the target counts when its
   * own version or the target's is empty, and otherwise when its version is
   * newer than the target's, both stripped of leading 'v's. `newer` stands
   * for semantic-version comparison.
   */
  predicate MatchesFilter(version: string, f: Target, newer: (string, string) -> bool)
  {
    version == "" || f.version == "" || newer(TrimLeftV(version), TrimLeftV(f.version))
  }

  // ---------------------------------------------------------------------------
  // What the filter reads of the graph.

  /**
   * The names on the module level; for each known module, its predecessors'
   * names in `List` order and its own version.
   */
  datatype ModuleView = ModuleView(level: set<string>, preds: map<string, seq<string>>, versions: map<string, string>)

  /** The paths of the modules the graph knows. */
  function ModulePaths(nodes: map<string, DepNode>): set<string>
  {
    set h | h in nodes && nodes[h].ModuleNode? :: nodes[h].mod.info.path
  }

  function VersionOf(nodes: map<string, DepNode>, x: string): string
  {
    var h := ModuleHash(x);
    if h in nodes && nodes[h].ModuleNode? then nodes[h].mod.info.version else ""
  }

  function ModuleViewOf(g: Digraph, nodes: map<string, DepNode>): ModuleView
  {
    ModuleView(set h | h in g.members.nodeMap && Depth(g.members.nodeMap[h]) == 0 :: g.members.nodeMap[h].name,
               map x | x in ModulePaths(nodes) :: Names(ListRefs(PredsOf(g, ModuleHash(x)))),
               map x | x in ModulePaths(nodes) :: VersionOf(nodes, x))
  }

  /** The predecessors of `x`, by name; none for an unknown name. */
  function PredNames(v: ModuleView, x: string): seq<string>
  {
    if x in v.preds then v.preds[x] else []
  }

  function Version(v: ModuleView, x: string): string
  {
    if x in v.versions then v.versions[x] else ""
  }

  /** Every name that is some module's predecessor. */
  function Universe(v: ModuleView): set<string>
  {
    set x, i | x in v.preds && 0 <= i < |v.preds[x]| :: v.preds[x][i]
  }

  function SetOf(s: seq<string>): set<string>
  {
    set p | p in s
  }

  /**
   * A set of names that holds the predecessors of each of its names, except
   * those of the target `t` when `t` is not itself a seed.
   */
  ghost predicate ClosedBelow(v: ModuleView, t: string, seeds: seq<string>, s: set<string>)
  {
    forall x, p | x in s && (x != t || x in seeds) && p in PredNames(v, x) :: p in s
  }

  // ---------------------------------------------------------------------------
  // The walk up the predecessors.

  /** The names of `ps`, in order, that the predicate `MatchesFilter` keeps for target `f`. */
  function Matching(v: ModuleView, f: Target, newer: (string, string) -> bool, ps: seq<string>): (r: seq<string>)
    ensures forall p :: p in r <==> p in ps && MatchesFilter(Version(v, p), f, newer)
  {
    if ps == [] then []
    else
      var init := Matching(v, f, newer, ps[..|ps| - 1]);
      var last := ps[|ps| - 1];
      assert ps == ps[..|ps| - 1] + [last];
      if MatchesFilter(Version(v, last), f, newer) then init + [last] else init
  }

  /**
   * One turn of the walk: each listed name not yet seen becomes seen and
   * is queued, in order.
   */
  function Enqueue(seen: set<string>, ps: seq<string>): (r: (set<string>, seq<string>))
    ensures r.0 == seen + SetOf(ps)
    ensures forall y | y in r.1 :: y in ps && y !in seen
    ensures forall y | y in ps && y !in seen :: y in r.1
    decreases |ps|
  {
    if ps == [] then (seen, [])
    else if ps[0] in seen then Enqueue(seen, ps[1..])
    else
      var r := Enqueue(seen + {ps[0]}, ps[1..]);
      (r.0, [ps[0]] + r.1)
  }

  /** A turn that queues something sees a new name of the universe. */
  lemma EnqueueShrinks(v: ModuleView, seen: set<string>, x: string)
    ensures var r := Enqueue(seen, PredNames(v, x));
      && (r.1 == [] ==> r.0 == seen)
      && (r.1 != [] ==> |Universe(v) - r.0| < |Universe(v) - seen|)
  {
    var r := Enqueue(seen, PredNames(v, x));
    if r.1 == [] {
      assert forall y | y in PredNames(v, x) :: y in seen;
    } else {
      var y := r.1[0];
      assert y in PredNames(v, x) && y !in seen;
      var i :| 0 <= i < |v.preds[x]| && v.preds[x][i] == y;
      assert y in Universe(v);
      ProperSubsetSize(Universe(v) - r.0, Universe(v) - seen, y);
    }
  }

  /**
   * The walk of `applyFilter`: take the first queued name, see and queue
   * its predecessors not yet seen, until the queue is empty; the result is
   * what has been seen.
   */
  function Walk(v: ModuleView, seen: set<string>, todo: seq<string>): set<string>
    decreases |Universe(v) - seen|, |todo|
  {
    if todo == [] then seen
    else
      var r := Enqueue(seen, PredNames(v, todo[0]));
      EnqueueShrinks(v, seen, todo[0]);
      Walk(v, r.0, todo[1..] + r.1)
  }

  /** The walk only adds to what was seen. */
  lemma {:induction false} WalkGrows(v: ModuleView, seen: set<string>, todo: seq<string>)
    ensures seen <= Walk(v, seen, todo)
    decreases |Universe(v) - seen|, |todo|
  {
    if todo != [] {
      var r := Enqueue(seen, PredNames(v, todo[0]));
      EnqueueShrinks(v, seen, todo[0]);
      WalkGrows(v, r.0, todo[1..] + r.1);
    }
  }

  /**
   * Every name the walk expands has its predecessors in the result: the
   * queued names, and the names seen along the way that were not seen at
   * the start.
   */
  lemma {:induction false} WalkClosed(v: ModuleView, seen: set<string>, todo: seq<string>)
    ensures forall x, p | x in Walk(v, seen, todo) && (x !in seen || x in todo) && p in PredNames(v, x) :: p in Walk(v, seen, todo)
    decreases |Universe(v) - seen|, |todo|
  {
    if todo != [] {
      var r := Enqueue(seen, PredNames(v, todo[0]));
      EnqueueShrinks(v, seen, todo[0]);
      var todo1 := todo[1..] + r.1;
      WalkClosed(v, r.0, todo1);
      WalkGrows(v, r.0, todo1);
      var w := Walk(v, seen, todo);
      forall x, p | x in w && (x !in seen || x in todo) && p in PredNames(v, x)
        ensures p in w
      {
        if x == todo[0] {
          assert p in r.0;
        } else if x in todo {
          assert x in todo[1..];
          assert x in todo1;
        } else if x in r.0 {
          assert x in r.1;
          assert x in todo1;
        }
      }
    }
  }

  /**
   * The walk stays inside a set `s`, apart from the names `k` it may start
   * from, when the queue is in `s` and `s` holds the predecessors of its
   * names up to `k`.
   */
  lemma {:induction false} WalkWithin(v: ModuleView, k: set<string>, s: set<string>, seen: set<string>, todo: seq<string>)
    requires k <= seen <= k + s
    requires forall x | x in todo :: x in s
    requires forall x, p | x in s && p in PredNames(v, x) :: p in k + s
    ensures Walk(v, seen, todo) <= k + s
    decreases |Universe(v) - seen|, |todo|
  {
    if todo != [] {
      var r := Enqueue(seen, PredNames(v, todo[0]));
      EnqueueShrinks(v, seen, todo[0]);
      assert todo[0] in s;
      forall y | y in r.1
        ensures y in s
      {
        assert y in PredNames(v, todo[0]) && y !in seen;
        assert y in k + s;
      }
      assert forall y | y in todo[1..] + r.1 :: y in todo[1..] || y in r.1;
      WalkWithin(v, k, s, r.0, todo[1..] + r.1);
    }
  }

  // ---------------------------------------------------------------------------
  // One target.

  /** The predecessors of the target that match it: where the walk starts. */
  function Seeds(v: ModuleView, f: Target, newer: (string, string) -> bool): seq<string>
  {
    Matching(v, f, newer, PredNames(v, f.path))
  }

  /**
   * The target `t`, the seeds, and the names on a chain of predecessors
   * leading to a seed that does not climb on through `t`: the walk starts
   * with `t` seen, so it goes up from `t` only when `t` is a seed.
   */
  function Chains(v: ModuleView, t: string, seeds: seq<string>): set<string>
  {
    Walk(v, {t} + SetOf(seeds), seeds)
  }

  /** The chains hold the target and the seeds, and are closed below the target. */
  lemma ChainsClosed(v: ModuleView, t: string, seeds: seq<string>)
    ensures t in Chains(v, t, seeds)
    ensures forall p | p in seeds :: p in Chains(v, t, seeds)
    ensures ClosedBelow(v, t, seeds, Chains(v, t, seeds))
  {
    WalkGrows(v, {t} + SetOf(seeds), seeds);
    WalkClosed(v, {t} + SetOf(seeds), seeds);
  }

  /**
   * The chains are the least such set: any set with the target and the
   * seeds that is closed below the target holds them.
   */
  lemma ChainsLeast(v: ModuleView, t: string, seeds: seq<string>, s: set<string>)
    requires t in s && forall p | p in seeds :: p in s
    requires ClosedBelow(v, t, seeds, s)
    ensures Chains(v, t, seeds) <= s
  {
    if t in seeds {
      WalkWithin(v, {t}, s, {t} + SetOf(seeds), seeds);
    } else {
      WalkWithin(v, {t}, s - {t}, {t} + SetOf(seeds), seeds);
    }
  }

  /**
   * `applyFilter`, with the walk kept apart from the names kept by earlier
   * targets: an unknown target keeps nothing more; a known one is kept with
   * every chain of predecessors leading to one of its matching predecessors
   * without passing through the target itself.
   */
  function FilterStep(v: ModuleView, newer: (string, string) -> bool, keep: set<string>, f: Target): set<string>
  {
    if f.path !in v.level then keep
    else keep + Chains(v, f.path, Seeds(v, f, newer))
  }

  /**
   * `applyFilter` as written: the walk skips every name already in `keep`,
   * including the names kept for earlier targets, and so does not go up
   * through them.
   */
  function FilterStepAsWritten(v: ModuleView, newer: (string, string) -> bool, keep: set<string>, f: Target): set<string>
  {
    if f.path !in v.level then keep
    else
      var seeds := Seeds(v, f, newer);
      Walk(v, keep + {f.path} + SetOf(seeds), seeds)
  }

  /** The names kept for a list of targets, applied in order. */
  function TargetKeep(v: ModuleView, newer: (string, string) -> bool, targets: seq<Target>): set<string>
  {
    if targets == [] then {}
    else FilterStep(v, newer, TargetKeep(v, newer, targets[..|targets| - 1]), targets[|targets| - 1])
  }

  function TargetKeepAsWritten(v: ModuleView, newer: (string, string) -> bool, targets: seq<Target>): set<string>
  {
    if targets == [] then {}
    else FilterStepAsWritten(v, newer, TargetKeepAsWritten(v, newer, targets[..|targets| - 1]), targets[|targets| - 1])
  }

  /**
   * What the filter keeps: the targets on the module level, and exactly the
   * names on a chain of predecessors up from a matching predecessor of one
   * of them that does not pass through that target.
   */
  lemma {:induction false} TargetKeepChains(v: ModuleView, newer: (string, string) -> bool, targets: seq<Target>, y: string)
    ensures y in TargetKeep(v, newer, targets) <==>
      exists i | 0 <= i < |targets| && targets[i].path in v.level ::
        y in Chains(v, targets[i].path, Seeds(v, targets[i], newer))
  {
    if targets != [] {
      var init := targets[..|targets| - 1];
      TargetKeepChains(v, newer, init, y);
      if y in TargetKeep(v, newer, init) {
        var i :| 0 <= i < |init| && init[i].path in v.level && y in Chains(v, init[i].path, Seeds(v, init[i], newer));
        assert targets[i] == init[i];
      }
      if exists i | 0 <= i < |targets| && targets[i].path in v.level :: y in Chains(v, targets[i].path, Seeds(v, targets[i], newer)) {
        var i :| 0 <= i < |targets| && targets[i].path in v.level && (y in Chains(v, targets[i].path, Seeds(v, targets[i], newer)));
        if i < |targets| - 1 {
          assert init[i] == targets[i];
        }
      }
    }
  }

  // ---------------------------------------------------------------------------
  // The skipped chain.

  /** Four modules: `b -> a -> d -> c`, where `b` has version "v0.9". */
  function SkipView(a: string, b: string, c: string, d: string): ModuleView
  {
    ModuleView({a, b, c, d}, map[a := [b], b := [], c := [d], d := [a]], map[a := "", b := "v0.9", c := "", d := ""])
  }

  predicate Distinct4(a: string, b: string, c: string, d: string)
  {
    a != b && a != c && a != d && b != c && b != d && c != d
  }

  lemma TrimmedVersions()
    ensures TrimLeftV("v0.9") == "0.9" && TrimLeftV("v1.0") == "1.0"
  {
    assert "v0.9"[1..] == "0.9" && "0.9"[0] != 'v';
    assert "v1.0"[1..] == "1.0" && "1.0"[0] != 'v';
  }

  lemma SkipLookups(a: string, b: string, c: string, d: string)
    requires Distinct4(a, b, c, d)
    ensures var v := SkipView(a, b, c, d);
      && PredNames(v, a) == [b] && PredNames(v, c) == [d] && PredNames(v, d) == [a]
      && Version(v, b) == "v0.9" && Version(v, d) == "" && a in v.level && c in v.level
  {
  }

  lemma SkipSeeds(a: string, b: string, c: string, d: string, newer: (string, string) -> bool)
    requires Distinct4(a, b, c, d) && !newer("0.9", "1.0")
    ensures var v := SkipView(a, b, c, d);
      Seeds(v, Target(a, "v1.0"), newer) == [] && Seeds(v, Target(c, ""), newer) == [d]
  {
    var v := SkipView(a, b, c, d);
    SkipLookups(a, b, c, d);
    TrimmedVersions();
    assert !MatchesFilter(Version(v, b), Target(a, "v1.0"), newer);
    assert MatchesFilter(Version(v, d), Target(c, ""), newer);
    assert [b][..0] == [] && [d][..0] == [];
    assert Matching(v, Target(a, "v1.0"), newer, [b]) == [];
    assert Matching(v, Target(c, ""), newer, [d]) == [d];
  }

  /**
   * Targets `a` at "v1.0" and then `c`. The module `b` is at "v0.9", not
   * newer than "v1.0", so the first target does not keep it;
   * it is on the chain `b -> a -> d -> c` to the second target. As written
   * the second walk does not go up through `a`, which the first target
   * kept, and `b` is deleted.
   */
  lemma SkippedChainAsWritten(a: string, b: string, c: string, d: string, newer: (string, string) -> bool)
    requires Distinct4(a, b, c, d) && !newer("0.9", "1.0")
    ensures b !in TargetKeepAsWritten(SkipView(a, b, c, d), newer, [Target(a, "v1.0"), Target(c, "")])
  {
    TwoTargets(SkipView(a, b, c, d), newer, Target(a, "v1.0"), Target(c, ""));
    SkipFirstAsWritten(a, b, c, d, newer);
    SkipSecondAsWritten(a, b, c, d, newer);
  }

  /** The first target keeps only itself: its one predecessor does not match. */
  lemma SkipFirstAsWritten(a: string, b: string, c: string, d: string, newer: (string, string) -> bool)
    requires Distinct4(a, b, c, d) && !newer("0.9", "1.0")
    ensures FilterStepAsWritten(SkipView(a, b, c, d), newer, {}, Target(a, "v1.0")) == {a}
  {
    var v := SkipView(a, b, c, d);
    SkipSeeds(a, b, c, d, newer);
    SkipLookups(a, b, c, d);
    var seeds := Seeds(v, Target(a, "v1.0"), newer);
    assert seeds == [] && SetOf(seeds) == {};
    assert {} + {a} + SetOf(seeds) == {a};
    assert Walk(v, {a}, []) == {a};
  }

  /** The second walk, starting with `a` seen, stops at `a`. */
  lemma SkipSecondAsWritten(a: string, b: string, c: string, d: string, newer: (string, string) -> bool)
    requires Distinct4(a, b, c, d) && !newer("0.9", "1.0")
    ensures b !in FilterStepAsWritten(SkipView(a, b, c, d), newer, {a}, Target(c, ""))
  {
    var v := SkipView(a, b, c, d);
    SkipSeeds(a, b, c, d, newer);
    SkipLookups(a, b, c, d);
    assert SetOf([d]) == {d};
    assert {a} + {c} + SetOf([d]) == {a, c, d};
    WalkWithin(v, {a, c, d}, {d}, {a, c, d}, [d]);
  }

  lemma TwoTargets(v: ModuleView, newer: (string, string) -> bool, t1: Target, t2: Target)
    ensures TargetKeepAsWritten(v, newer, [t1, t2]) == FilterStepAsWritten(v, newer, FilterStepAsWritten(v, newer, {}, t1), t2)
    ensures TargetKeep(v, newer, [t1, t2]) == FilterStep(v, newer, FilterStep(v, newer, {}, t1), t2)
  {
    assert [t1, t2][..1] == [t1] && [t1][..0] == [];
    assert TargetKeepAsWritten(v, newer, [t1]) == FilterStepAsWritten(v, newer, TargetKeepAsWritten(v, newer, []), t1);
    assert TargetKeepAsWritten(v, newer, [t1, t2]) == FilterStepAsWritten(v, newer, TargetKeepAsWritten(v, newer, [t1]), t2);
    assert TargetKeep(v, newer, [t1]) == FilterStep(v, newer, TargetKeep(v, newer, []), t1);
    assert TargetKeep(v, newer, [t1, t2]) == FilterStep(v, newer, TargetKeep(v, newer, [t1]), t2);
  }

  /** The corrected walk keeps `b` for the second target. */
  lemma SkippedChainKept(a: string, b: string, c: string, d: string, newer: (string, string) -> bool)
    requires Distinct4(a, b, c, d) && !newer("0.9", "1.0")
    ensures b in TargetKeep(SkipView(a, b, c, d), newer, [Target(a, "v1.0"), Target(c, "")])
  {
    var v := SkipView(a, b, c, d);
    var targets := [Target(a, "v1.0"), Target(c, "")];
    SkipSeeds(a, b, c, d, newer);
    SkipLookups(a, b, c, d);
    ChainsClosed(v, c, [d]);
    assert d in Chains(v, c, [d]) && a in PredNames(v, d);
    assert a in Chains(v, c, [d]) && b in PredNames(v, a);
    assert b in Chains(v, c, Seeds(v, targets[1], newer));
  }

  /** For a single target the corrected filter is the filter as written. */
  lemma OneTargetAsWritten(v: ModuleView, newer: (string, string) -> bool, t: Target)
    ensures TargetKeep(v, newer, [t]) == TargetKeepAsWritten(v, newer, [t])
  {
    assert [t][..0] == [];
    assert {} + {t.path} == {t.path};
  }

  /**
   * Three modules with `a` and `d` each a predecessor of the other, and `b`,
   * at "v0.9", a predecessor of `a`.
   */
  function CycleView(a: string, b: string, d: string): ModuleView
  {
    ModuleView({a, b, d}, map[a := [b, d], b := [], d := [a]], map[a := "", b := "v0.9", d := ""])
  }

  /**
   * A chain that comes back to the target does not go on up through it:
   * with the target `a` at "v1.0", only `d` matches, the walk from `d`
   * reaches `a` already seen and stops, and `b` is not kept.
   */
  lemma CycleThroughTarget(a: string, b: string, d: string, newer: (string, string) -> bool)
    requires a != b && a != d && b != d && !newer("0.9", "1.0")
    ensures TargetKeep(CycleView(a, b, d), newer, [Target(a, "v1.0")]) == {a, d}
  {
    var v := CycleView(a, b, d);
    CycleSeeds(a, b, d, newer);
    assert [Target(a, "v1.0")][..0] == [];
    assert TargetKeep(v, newer, [Target(a, "v1.0")]) == Chains(v, a, [d]);
    CycleChains(a, b, d);
  }

  lemma CycleLookups(a: string, b: string, d: string)
    requires a != b && a != d && b != d
    ensures var v := CycleView(a, b, d);
      && PredNames(v, a) == [b, d] && PredNames(v, d) == [a]
      && Version(v, b) == "v0.9" && Version(v, d) == "" && a in v.level
  {
  }

  lemma CycleSeeds(a: string, b: string, d: string, newer: (string, string) -> bool)
    requires a != b && a != d && b != d && !newer("0.9", "1.0")
    ensures Seeds(CycleView(a, b, d), Target(a, "v1.0"), newer) == [d] && a in CycleView(a, b, d).level
  {
    var v := CycleView(a, b, d);
    var t := Target(a, "v1.0");
    CycleLookups(a, b, d);
    TrimmedVersions();
    assert !MatchesFilter(Version(v, b), t, newer);
    assert [b, d][..1] == [b] && [b][..0] == [];
    assert Matching(v, t, newer, [b]) == [];
  }

  /** From `d`, the walk reaches only `a`, which it does not climb through. */
  lemma CycleChains(a: string, b: string, d: string)
    requires a != b && a != d && b != d
    ensures Chains(CycleView(a, b, d), a, [d]) == {a, d}
  {
    var v := CycleView(a, b, d);
    CycleLookups(a, b, d);
    ChainsClosed(v, a, [d]);
    ChainsLeast(v, a, [d], {a, d});
  }

  // ---------------------------------------------------------------------------
  // What `applyFilter` reads off the dependency graph.

  /**
   * The predecessors of a known module, as read off the graph: their names
   * are the view's, each is a known module under its own hash, and its
   * version is the view's.
   */
  lemma PredsRead(g: Digraph, nodes: map<string, DepNode>, x: string)
    requires EdgesSound(g, nodes) && x in ModulePaths(nodes)
    ensures var v := ModuleViewOf(g, nodes);
      var ps := ListRefs(PredsOf(g, ModuleHash(x)));
      && PredNames(v, x) == Names(ps)
      && (forall y | y in PredNames(v, x) :: y in ModulePaths(nodes))
      && (forall i | 0 <= i < |ps| ::
            ps[i].hash in nodes && nodes[ps[i].hash].ModuleNode? && Version(v, ps[i].name) == nodes[ps[i].hash].mod.info.version)
  {
    var ps := ListRefs(PredsOf(g, ModuleHash(x)));
    forall i | 0 <= i < |ps|
      ensures ps[i].name in ModulePaths(nodes) && ps[i].hash in nodes && nodes[ps[i].hash].ModuleNode?
      ensures Version(ModuleViewOf(g, nodes), ps[i].name) == nodes[ps[i].hash].mod.info.version
    {
      PredRead(g, nodes, x, ps[i]);
    }
    NamesWithin(ps, ModulePaths(nodes));
  }

  /** One predecessor of a known module is a known module, under its own hash, with the view's version. */
  lemma PredRead(g: Digraph, nodes: map<string, DepNode>, x: string, n: Node)
    requires EdgesSound(g, nodes) && n in ListRefs(PredsOf(g, ModuleHash(x)))
    ensures n.name in ModulePaths(nodes) && n.hash in nodes && nodes[n.hash].ModuleNode?
    ensures Version(ModuleViewOf(g, nodes), n.name) == nodes[n.hash].mod.info.version
  {
    PredIsModule(g, nodes, Node(x, ModuleHash(x), None), n);
    HashesDistinct(nodes[n.hash].mod.info.path, n.name);
  }

  lemma NamesWithin(ps: seq<Node>, s: set<string>)
    requires forall i | 0 <= i < |ps| :: ps[i].name in s
    ensures forall y | y in Names(ps) :: y in s
  {
    forall y | y in Names(ps)
      ensures y in s
    {
      var i :| 0 <= i < |ps| && Names(ps)[i] == y;
    }
  }

  /**
   * The lookup of the target on the module level finds a node exactly when
   * the target's path is on the level, and that node carries the path.
   */
  lemma FilterNodeFound(g: Digraph, nodes: map<string, DepNode>, x: string)
    requires Wellformed(g) && NodesMatch(g.members.nodeMap, nodes)
    ensures var r := Lookup(GetLevel(g, 0), ModuleHash(x));
      && (r.Some? <==> x in ModuleViewOf(g, nodes).level)
      && (r.Some? ==> r.value.name == x && x in ModulePaths(nodes))
  {
    var m := g.members.nodeMap;
    var level := GetLevel(g, 0);
    var hx := ModuleHash(x);
    GetLevelExact(g, 0);
    if hx in level.nodeMap {
      assert level.nodeMap[hx] in level.nodeList;
      assert level.nodeMap[hx] == m[hx];
      LevelZeroIsModule(m, nodes, hx);
      HashesDistinct(m[hx].name, x);
      assert nodes[hx].mod.info.path == x;
    }
    if x in ModuleViewOf(g, nodes).level {
      var h :| h in m && Depth(m[h]) == 0 && m[h].name == x;
      LevelZeroIsModule(m, nodes, h);
    }
  }

  // ---------------------------------------------------------------------------
  // The filter on the dependency graph.

  /**
   * The inner loop of the walk: each predecessor whose name is not yet seen
   * becomes seen and is queued, in `List` order.
   */
  method EnqueuePreds(seen0: set<string>, ps: seq<Node>) returns (seen: set<string>, queued: seq<string>)
    ensures (seen, queued) == Enqueue(seen0, Names(ps))
  {
    seen, queued := EnqueueNames(seen0, Names(ps));
  }

  /** Each name not yet seen becomes seen and is queued, in order. */
  method EnqueueNames(seen0: set<string>, names: seq<string>) returns (seen: set<string>, queued: seq<string>)
    ensures (seen, queued) == Enqueue(seen0, names)
  {
    ghost var e := Enqueue(seen0, names);
    seen, queued := seen0, [];
    assert names[0..] == names;
    for i := 0 to |names|
      invariant Enqueue(seen, names[i..]).0 == e.0
      invariant queued + Enqueue(seen, names[i..]).1 == e.1
    {
      EnqueueStep(seen, names[i..]);
      assert names[i..][0] == names[i] && names[i..][1..] == names[i + 1..];
      if names[i] !in seen {
        ghost var rest := Enqueue(seen + {names[i]}, names[i + 1..]).1;
        assert queued + ([names[i]] + rest) == (queued + [names[i]]) + rest;
        seen := seen + {names[i]};
        queued := queued + [names[i]];
      }
    }
    assert names[|names|..] == [];
    ghost var last := Enqueue(seen, []);
    assert last == (seen, []);
    assert queued + last.1 == queued;
  }

  lemma EnqueueStep(seen: set<string>, ns: seq<string>)
    requires ns != []
    ensures Enqueue(seen, ns) ==
      if ns[0] in seen then Enqueue(seen, ns[1..])
      else (Enqueue(seen + {ns[0]}, ns[1..]).0, [ns[0]] + Enqueue(seen + {ns[0]}, ns[1..]).1)
  {
  }

  /**
   * The walk of `applyFilter` on the graph: it computes `Walk` over the
   * view of the graph.
   */
  method WalkPreds(g: DepGraph, seen0: set<string>, todo0: seq<string>) returns (seen: set<string>)
    requires g.Valid() && EdgesSound(g.graph.State(), g.nodes)
    requires forall y | y in todo0 :: y in ModulePaths(g.nodes)
    ensures seen == Walk(ModuleViewOf(g.graph.State(), g.nodes), seen0, todo0)
  {
    ghost var v := ModuleViewOf(g.graph.State(), g.nodes);
    seen := seen0;
    var todo := todo0;
    while todo != []
      invariant Walk(v, seen, todo) == Walk(v, seen0, todo0)
      invariant forall y | y in todo :: y in ModulePaths(g.nodes)
      decreases |Universe(v) - seen|, |todo|
    {
      var ps := ListRefs(PredsOf(g.graph.State(), ModuleHash(todo[0])));
      PredsRead(g.graph.State(), g.nodes, todo[0]);
      var seen1, queued := EnqueuePreds(seen, ps);
      EnqueueShrinks(v, seen, todo[0]);
      assert forall y | y in todo[1..] + queued :: y in todo[1..] || y in queued;
      seen, todo := seen1, todo[1..] + queued;
    }
  }

  /** The seeds loop of `applyFilter`: the target's predecessors, in `List` order, that match it. */
  method MatchingPreds(g: DepGraph, f: Target, newer: (string, string) -> bool) returns (seeds: seq<string>)
    requires g.Valid() && EdgesSound(g.graph.State(), g.nodes) && f.path in ModulePaths(g.nodes)
    ensures seeds == Seeds(ModuleViewOf(g.graph.State(), g.nodes), f, newer)
    ensures forall y | y in seeds :: y in ModulePaths(g.nodes)
  {
    ghost var v := ModuleViewOf(g.graph.State(), g.nodes);
    var ps := ListRefs(PredsOf(g.graph.State(), ModuleHash(f.path)));
    PredsRead(g.graph.State(), g.nodes, f.path);
    ghost var names := Names(ps);
    seeds := [];
    for i := 0 to |ps|
      invariant seeds == Matching(v, f, newer, names[..i])
    {
      MatchingSnoc(v, f, newer, names, i);
      var version := g.nodes[ps[i].hash].mod.info.version;
      if MatchesFilter(version, f, newer) {
        seeds := seeds + [ps[i].name];
      }
    }
    assert names[..|ps|] == names;
  }

  lemma MatchingSnoc(v: ModuleView, f: Target, newer: (string, string) -> bool, names: seq<string>, i: int)
    requires 0 <= i < |names|
    ensures Matching(v, f, newer, names[..i + 1]) ==
      if MatchesFilter(Version(v, names[i]), f, newer) then Matching(v, f, newer, names[..i]) + [names[i]]
      else Matching(v, f, newer, names[..i])
  {
    assert names[..i + 1][..i] == names[..i];
  }

  /**
   * `applyFilter`, with the walk kept apart from the names kept by earlier
   * targets: the names the filter keeps for one more target.
   */
  method ApplyFilter(g: DepGraph, f: Target, keep: set<string>, newer: (string, string) -> bool) returns (keep1: set<string>)
    requires g.Valid() && EdgesSound(g.graph.State(), g.nodes)
    ensures keep1 == FilterStep(ModuleViewOf(g.graph.State(), g.nodes), newer, keep, f)
  {
    var level := g.graph.GetLevel(0);
    var filterNode := Lookup(level, ModuleHash(f.path));
    FilterNodeFound(g.graph.State(), g.nodes, f.path);
    if filterNode.None? {
      return keep;
    }
    var seeds := MatchingPreds(g, f, newer);
    var chains := WalkPreds(g, {filterNode.value.name} + SetOf(seeds), seeds);
    keep1 := keep + chains;
  }

  /**
   * `TargetModules.Apply`: no targets leave the graph as it is; otherwise
   * the names kept for every target, in order, are collected, and every
   * member of the module level whose name was not kept is deleted.
   */
  method TargetModulesApply(g: DepGraph, targets: seq<Target>, newer: (string, string) -> bool)
    requires g.Valid() && EdgesSound(g.graph.State(), g.nodes)
    modifies g.graph
    ensures g.Valid() && EdgesSound(g.graph.State(), g.nodes)
    ensures Restricts(g.graph.members.nodeMap, old(g.graph.members.nodeMap))
    ensures targets == [] ==> g.graph.State() == old(g.graph.State())
    ensures targets != [] ==>
      var m0 := old(g.graph.members.nodeMap);
      forall h | h in m0 && Depth(m0[h]) == 0 ::
        h in g.graph.members.nodeMap <==> m0[h].name in TargetKeep(ModuleViewOf(old(g.graph.State()), g.nodes), newer, targets)
  {
    if |targets| == 0 {
      return;
    }
    var keep := CollectKeep(g, targets, newer);
    var level := g.graph.GetLevel(0);
    var l := ListRefs(level);
    LevelListed(g.graph.State(), 0);
    ghost var m0 := g.graph.members.nodeMap;
    DeleteUnkept(g, l, keep);
    PrunedDone(m0, g.graph.members.nodeMap, l, keep);
  }

  /** The first loop of `TargetModules.Apply`: the names kept for every target, in order. */
  method CollectKeep(g: DepGraph, targets: seq<Target>, newer: (string, string) -> bool) returns (keep: set<string>)
    requires g.Valid() && EdgesSound(g.graph.State(), g.nodes)
    ensures keep == TargetKeep(ModuleViewOf(g.graph.State(), g.nodes), newer, targets)
  {
    ghost var v := ModuleViewOf(g.graph.State(), g.nodes);
    keep := {};
    for i := 0 to |targets|
      invariant keep == TargetKeep(v, newer, targets[..i])
    {
      keep := ApplyFilter(g, targets[i], keep, newer);
      assert targets[..i + 1][..i] == targets[..i];
    }
    assert targets[..|targets|] == targets;
  }

  /**
   * The deletion loop of `TargetModules.Apply`: delete, in list order, the
   * node of every listed module whose name was not kept.
   */
  method DeleteUnkept(g: DepGraph, l: seq<Node>, keep: set<string>)
    requires g.Valid() && EdgesSound(g.graph.State(), g.nodes)
    requires forall j | 0 <= j < |l| :: l[j].hash == ModuleHash(l[j].name)
    modifies g.graph
    ensures g.Valid() && EdgesSound(g.graph.State(), g.nodes)
    ensures Restricts(g.graph.members.nodeMap, old(g.graph.members.nodeMap))
    ensures KeptNamed(old(g.graph.members.nodeMap), g.graph.members.nodeMap, keep)
    ensures forall j | 0 <= j < |l| && l[j].name !in keep :: l[j].hash !in g.graph.members.nodeMap
  {
    ghost var m0 := g.graph.members.nodeMap;
    for i := 0 to |l|
      invariant g.Valid() && EdgesSound(g.graph.State(), g.nodes)
      invariant Restricts(g.graph.members.nodeMap, m0) && KeptNamed(m0, g.graph.members.nodeMap, keep)
      invariant forall j | 0 <= j < i && l[j].name !in keep :: l[j].hash !in g.graph.members.nodeMap
    {
      ghost var m := g.graph.members.nodeMap;
      if l[i].name !in keep {
        DeleteModule(g, l[i].name);
        UnkeptStep(m0, m, g.graph.members.nodeMap, l, keep, i);
      } else {
        KeptSkip(m, l, keep, i);
      }
    }
  }

  /** One deletion of the loop of `DeleteUnkept` moves its invariant one node on. */
  lemma UnkeptStep(m0: map<string, Node>, m: map<string, Node>, m1: map<string, Node>, l: seq<Node>, keep: set<string>, i: int)
    requires 0 <= i < |l| && l[i].name !in keep && l[i].hash == ModuleHash(l[i].name)
    requires Restricts(m, m0) && KeptNamed(m0, m, keep) && Restricts(m1, m)
    requires forall j | 0 <= j < i && l[j].name !in keep :: l[j].hash !in m
    requires ModuleHash(l[i].name) !in m1
    requires forall h | h in m && Depth(m[h]) == 0 && m[h].name != l[i].name :: h in m1
    ensures Restricts(m1, m0) && KeptNamed(m0, m1, keep)
    ensures forall j | 0 <= j < i + 1 && l[j].name !in keep :: l[j].hash !in m1
  {
    ChainStepKept(m0, m, m1, keep, l[i].name);
  }

  lemma KeptSkip(m: map<string, Node>, l: seq<Node>, keep: set<string>, i: int)
    requires 0 <= i < |l| && l[i].name in keep
    requires forall j | 0 <= j < i && l[j].name !in keep :: l[j].hash !in m
    ensures forall j | 0 <= j < i + 1 && l[j].name !in keep :: l[j].hash !in m
  {
  }

  /** After the deletion loop, a member of the module level stays exactly when its name was kept. */
  lemma PrunedDone(m0: map<string, Node>, m: map<string, Node>, l: seq<Node>, keep: set<string>)
    requires KeptNamed(m0, m, keep)
    requires forall j | 0 <= j < |l| && l[j].name !in keep :: l[j].hash !in m
    requires forall h | h in m0 && Depth(m0[h]) == 0 :: exists j :: 0 <= j < |l| && l[j] == m0[h]
    requires forall h | h in m0 :: m0[h].hash == h
    ensures forall h | h in m0 && Depth(m0[h]) == 0 :: h in m <==> m0[h].name in keep
  {
    forall h | h in m0 && Depth(m0[h]) == 0
      ensures h in m <==> m0[h].name in keep
    {
      var j :| 0 <= j < |l| && l[j] == m0[h];
    }
  }
}
