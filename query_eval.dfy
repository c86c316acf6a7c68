/**
 * Evaluation of a parsed query against one level of the dependency graph
 * (internal/depgraph/query.go): name matching, the set operators, the
 * `deps`/`rdeps` traversals and `shared`.
 *
 * The graph is seen through a `View`: the names of the level's nodes in the
 * order `GetLevel(level).List()` gives them, and for every such name the
 * names on its successor and predecessor lists. Glob matching is foreign
 * code and is a parameter.
 */
module QueryEval {
  import opened Util
  import opened QueryTokens
  import opened QueryGrammar

  datatype View = View(level: seq<string>, succs: map<string, seq<string>>, preds: map<string, seq<string>>, test: set<string>)

  /** `doublestar.Match`: whether a pattern is well formed, and whether it matches a name. */
  datatype Matcher = Matcher(valid: string -> bool, matches: (string, string) -> bool)

  datatype Direction = Forwards | Backwards

  /** Why a query cannot be evaluated; every one unwraps to `ErrInvalidQuery`. */
  datatype Reason =
    | NotASet | ManyColons | UnknownAnnotation | BadPattern
    | NoArguments | ManyArguments | NotAnInteger | NotOneArgument | UnknownFunction

  datatype Outcome = Ok(names: set<string>) | Invalid(reason: Reason, at: Expr)

  /** `math.MaxInt64`, the traversal depth when none is given. */
  const MaxInt64: int := 0x7fff_ffff_ffff_ffff

  function Succs(v: View, n: string): seq<string>
  {
    if n in v.succs then v.succs[n] else []
  }

  function Preds(v: View, n: string): seq<string>
  {
    if n in v.preds then v.preds[n] else []
  }

  /** `n.Successors().List()` forwards, `n.Predecessors().List()` backwards. */
  function Adj(v: View, dir: Direction, n: string): seq<string>
  {
    if dir == Forwards then Succs(v, n) else Preds(v, n)
  }

  function LevelSet(v: View): set<string>
  {
    set i | 0 <= i < |v.level| :: v.level[i]
  }

  predicate NoDup(l: seq<string>)
  {
    forall i, j | 0 <= i < j < |l| :: l[i] != l[j]
  }

  /**
   * What the graph guarantees of a level: edges stay within the level, every
   * edge is listed on both of its ends, and no list names a node twice.
   */
  ghost predicate ViewValid(v: View)
  {
    && (forall n, y | y in Succs(v, n) :: y in LevelSet(v))
    && (forall n, y | y in Preds(v, n) :: y in LevelSet(v))
    && (forall x, y | y in Succs(v, x) :: x in Preds(v, y))
    && (forall x, y | x in Preds(v, y) :: y in Succs(v, x))
    && (forall n :: NoDup(Succs(v, n)) && NoDup(Preds(v, n)))
  }

  // ---------------------------------------------------------------------------
  // The set operators. Each builds a fresh set; values cannot be modified.

  /** `nodeSet.union`. */
  function Union(ns: set<string>, rhs: set<string>): (r: set<string>)
    ensures r == ns + rhs
  {
    (set k | k in ns) + (set k | k in rhs)
  }

  /** `nodeSet.subtract`. */
  function Subtract(ns: set<string>, rhs: set<string>): (r: set<string>)
    ensures r == ns - rhs
  {
    set k | k in ns && k !in rhs
  }

  /** `nodeSet.inter`. */
  function Inter(ns: set<string>, rhs: set<string>): (r: set<string>)
    ensures r == ns * rhs
  {
    set k | k in ns && k in rhs
  }

  /** `nodeSet.delta`: the names in exactly one of the two sets. */
  function Delta(ns: set<string>, rhs: set<string>): (r: set<string>)
    ensures r == (ns + rhs) - (ns * rhs)
  {
    (set k | k in ns && k !in rhs) + (set k | k in rhs && k !in ns)
  }

  /** The symmetric difference is the union of the two differences, and the operands can be swapped. */
  lemma DeltaLaws(a: set<string>, b: set<string>)
    ensures Delta(a, b) == Union(Subtract(a, b), Subtract(b, a))
    ensures Delta(a, b) == Delta(b, a)
    ensures Union(Inter(a, b), Delta(a, b)) == Union(a, b)
    ensures Inter(Inter(a, b), Delta(a, b)) == {}
  {
  }

  // ---------------------------------------------------------------------------
  // Name matching.

  /** The number of `c` in `s`. */
  function Occurrences(s: string, c: char): nat
  {
    if |s| == 0 then 0 else (if s[0] == c then 1 else 0) + Occurrences(s[1..], c)
  }

  /** `strings.Split` yields one piece more than there are separators. */
  lemma {:induction false} SplitPieces(s: string, c: char)
    ensures |Split(s, c)| == Occurrences(s, c) + 1
    ensures c in s <==> Occurrences(s, c) > 0
  {
    if |s| > 0 {
      SplitPieces(s[1..], c);
    }
  }

  /** The names of the level that match the pattern and, unless test dependencies are wanted, are not test dependencies. */
  function Matching(v: View, m: Matcher, q: string, withTest: bool): set<string>
  {
    set i | 0 <= i < |v.level| && (withTest || v.level[i] !in v.test) && m.matches(q, v.level[i]) :: v.level[i]
  }

  /** `computeSetNameMatch`: `pattern` or `pattern:test`. */
  function NameMatch(v: View, m: Matcher, e: Expr): (r: Outcome)
    requires e.EStr?
    ensures r.Invalid? ==> r.at == e
    ensures r.Ok? ==> Occurrences(e.s, ':') <= 1
    ensures r.Ok? ==> r.names <= LevelSet(v)
    ensures r.Ok? && ':' !in e.s ==> r.names !! v.test
    ensures r.Ok? && ':' in e.s ==> |Split(e.s, ':')| == 2 && Split(e.s, ':')[1] == "test"
  {
    SplitPieces(e.s, ':');
    var parts := Split(e.s, ':');
    if |parts| > 2 then Invalid(ManyColons, e)
    else if |parts| == 2 && parts[1] != "test" then Invalid(UnknownAnnotation, e)
    else if !m.valid(parts[0]) then Invalid(BadPattern, e)
    else Ok(Matching(v, m, parts[0], |parts| == 2))
  }

  /** The loop of `computeSetNameMatch` over the level's nodes. */
  method MatchLevel(v: View, m: Matcher, q: string, withTest: bool) returns (names: set<string>)
    ensures names == Matching(v, m, q, withTest)
  {
    names := {};
    var i := 0;
    while i < |v.level|
      invariant 0 <= i <= |v.level|
      invariant names == set j | 0 <= j < i && (withTest || v.level[j] !in v.test) && m.matches(q, v.level[j]) :: v.level[j]
    {
      var name := v.level[i];
      if !withTest && name in v.test {
        // a test dependency
      } else if !m.matches(q, name) {
        // no match
      } else {
        names := names + {name};
      }
      i := i + 1;
    }
  }

  // ---------------------------------------------------------------------------
  // Traversals.

  /** The names one edge away from `s`. */
  function Step(v: View, dir: Direction, s: set<string>): set<string>
  {
    set n, y | n in s && y in Adj(v, dir, n) :: y
  }

  /** The names at most `k` edges away from `s`; just `s` when `k <= 0`. */
  function Reach(v: View, dir: Direction, s: set<string>, k: int): set<string>
    decreases if k <= 0 then 0 else k
  {
    if k <= 0 then s
    else
      var r := Reach(v, dir, s, k - 1);
      r + Step(v, dir, r)
  }

  lemma {:induction false} ReachMono(v: View, dir: Direction, s: set<string>, j: int, k: int)
    requires j <= k
    ensures Reach(v, dir, s, j) <= Reach(v, dir, s, k)
    decreases if k <= 0 then 0 else k
  {
    if j < k && k > 0 {
      ReachMono(v, dir, s, j, k - 1);
    }
  }

  lemma ReachNext(v: View, dir: Direction, s: set<string>, j: int, x: string, y: string)
    requires 0 <= j && x in Reach(v, dir, s, j) && y in Adj(v, dir, x)
    ensures y in Reach(v, dir, s, j + 1)
  {
    assert y in Step(v, dir, Reach(v, dir, s, j));
  }

  lemma {:induction false} ReachUnion(v: View, dir: Direction, a: set<string>, b: set<string>, k: int)
    ensures Reach(v, dir, a + b, k) == Reach(v, dir, a, k) + Reach(v, dir, b, k)
    decreases if k <= 0 then 0 else k
  {
    if k > 0 {
      ReachUnion(v, dir, a, b, k - 1);
      var ra, rb := Reach(v, dir, a, k - 1), Reach(v, dir, b, k - 1);
      assert Step(v, dir, ra + rb) == Step(v, dir, ra) + Step(v, dir, rb);
    }
  }

  lemma {:induction false} ReachEmpty(v: View, dir: Direction, k: int)
    ensures Reach(v, dir, {}, k) == {}
    decreases if k <= 0 then 0 else k
  {
    if k > 0 {
      ReachEmpty(v, dir, k - 1);
      assert Step(v, dir, {}) == {};
    }
  }

  /** Every name some list mentions. */
  function Mentioned(v: View, dir: Direction): set<string>
  {
    var m := if dir == Forwards then v.succs else v.preds;
    set n, y | n in m && y in m[n] :: y
  }

  function Cap(k: int): nat
  {
    if k < 0 then 0 else k
  }

  /**
   * The inner loop of `computeSetGraphTraversal` as a function: every entry
   * of `deps` not yet seen is marked seen and queued at depth `d`.
   */
  function Enqueue(seen: set<string>, todo: seq<(string, int)>, deps: seq<string>, d: int): (r: (set<string>, seq<(string, int)>))
    ensures r.0 == seen + (set y | y in deps)
    ensures Appends(todo, r.1, seen, r.0, d)
    decreases |deps|
  {
    if deps == [] then (seen, todo)
    else if deps[0] in seen then Enqueue(seen, todo, deps[1..], d)
    else
      var r := Enqueue(seen + {deps[0]}, todo + [(deps[0], d)], deps[1..], d);
      assert r.1[..|todo| + 1][..|todo|] == r.1[..|todo|];
      assert r.1[|todo|] == r.1[..|todo| + 1][|todo|] == (deps[0], d);
      r
  }

  /** `todo1` is `todo` followed by an entry at depth `d` for every name of `seen1` not in `seen`, and nothing else. */
  ghost predicate Appends(todo: seq<(string, int)>, todo1: seq<(string, int)>, seen: set<string>, seen1: set<string>, d: int)
  {
    && |todo| <= |todo1| && todo1[..|todo|] == todo
    && (forall i | |todo| <= i < |todo1| :: todo1[i].1 == d && todo1[i].0 in seen1 && todo1[i].0 !in seen)
    && (forall y | y in seen1 && y !in seen :: (y, d) in todo1)
    && (seen1 == seen ==> todo1 == todo)
  }

  /** The loop over a node's list in `computeSetGraphTraversal`. */
  method Expand(seen0: set<string>, todo0: seq<(string, int)>, deps: seq<string>, d: int) returns (seen: set<string>, todo: seq<(string, int)>)
    ensures (seen, todo) == Enqueue(seen0, todo0, deps, d)
    ensures seen == seen0 + (set y | y in deps) && Appends(todo0, todo, seen0, seen, d)
  {
    seen, todo := seen0, todo0;
    var j := 0;
    while j < |deps|
      invariant 0 <= j <= |deps|
      invariant Enqueue(seen0, todo0, deps, d) == Enqueue(seen, todo, deps[j..], d)
    {
      assert deps[j..][0] == deps[j] && deps[j..][1..] == deps[j + 1..];
      var dep := deps[j];
      if dep !in seen {
        todo := todo + [(dep, d)];
        seen := seen + {dep};
      }
      j := j + 1;
    }
  }

  // The invariant of the walk from `src`, in parts. `dist` records the depth
  // at which each recorded name was first queued, `done` the names whose
  // entry at that depth has been taken from the queue, and `cur` the depth
  // of the last entry taken.

  ghost predicate KeysOk(v: View, dir: Direction, src: string, seen: set<string>, dist: map<string, int>)
  {
    dist.Keys == seen + {src} && dist[src] == 0 && seen <= Mentioned(v, dir)
  }

  ghost predicate DistOk(v: View, dir: Direction, src: string, maxDepth: int, dist: map<string, int>, cur: int)
  {
    0 <= cur && forall s | s in dist :: 0 <= dist[s] <= Cap(maxDepth) && dist[s] <= cur + 1 && s in Reach(v, dir, {src}, dist[s])
  }

  ghost predicate QueueOk(todo: seq<(string, int)>, dist: map<string, int>, cur: int)
  {
    && (forall i | 0 <= i < |todo| :: todo[i].0 in dist && dist[todo[i].0] <= todo[i].1 && cur <= todo[i].1 <= cur + 1)
    && (forall i, j | 0 <= i < j < |todo| :: todo[i].1 <= todo[j].1)
  }

  ghost predicate PendingOk(todo: seq<(string, int)>, dist: map<string, int>, done: set<string>)
  {
    forall s | s in dist :: s in done || (s, dist[s]) in todo
  }

  ghost predicate ClosedOk(v: View, dir: Direction, maxDepth: int, dist: map<string, int>, done: set<string>)
  {
    forall s | s in done :: s in dist && (dist[s] < maxDepth ==> forall y | y in Adj(v, dir, s) :: y in dist && dist[y] <= dist[s] + 1)
  }

  ghost predicate WalkInv(v: View, dir: Direction, src: string, maxDepth: int, acc: set<string>, names: set<string>,
                          todo: seq<(string, int)>, seen: set<string>, dist: map<string, int>, done: set<string>, cur: int)
  {
    && KeysOk(v, dir, src, seen, dist) && DistOk(v, dir, src, maxDepth, dist, cur)
    && QueueOk(todo, dist, cur) && PendingOk(todo, dist, done) && ClosedOk(v, dir, maxDepth, dist, done)
    && acc + done <= names <= acc + dist.Keys
  }

  /** The depths recorded after a node's list is queued at depth `d`. */
  ghost function Widen(src: string, seen: set<string>, dist: map<string, int>, d: int): map<string, int>
  {
    map y | y in seen + {src} :: if y in dist then dist[y] else d
  }

  /** `dist1` keeps the depths of `dist` and records depth `d` for the other names of `keys`. */
  ghost predicate Widens(dist: map<string, int>, dist1: map<string, int>, keys: set<string>, d: int)
  {
    && dist1.Keys == keys && dist.Keys <= keys
    && (forall s | s in dist :: dist1[s] == dist[s])
    && (forall s | s in keys && s !in dist :: dist1[s] == d)
  }

  lemma WidenIs(src: string, seen1: set<string>, dist: map<string, int>, d: int)
    requires dist.Keys <= seen1 + {src}
    ensures Widens(dist, Widen(src, seen1, dist, d), seen1 + {src}, d)
  {
  }

  /** The depths recorded once the head of the queue is taken. */
  ghost function NextDist(src: string, maxDepth: int, todo: seq<(string, int)>, seen1: set<string>, dist: map<string, int>): map<string, int>
    requires todo != []
  {
    if todo[0].1 < maxDepth then Widen(src, seen1, dist, todo[0].1 + 1) else dist
  }

  /** The names done once the head of the queue is taken: its name, if the entry is the one at its recorded depth. */
  ghost function NextDone(todo: seq<(string, int)>, dist: map<string, int>, done: set<string>): set<string>
    requires todo != []
  {
    if todo[0].0 in dist && dist[todo[0].0] == todo[0].1 then done + {todo[0].0} else done
  }

  lemma AdjMentioned(v: View, dir: Direction, n: string)
    ensures forall y | y in Adj(v, dir, n) :: y in Mentioned(v, dir)
  {
    var m := if dir == Forwards then v.succs else v.preds;
    if n in m {
      assert forall y | y in m[n] :: y in Mentioned(v, dir);
    }
  }

  lemma Shrinks(u: set<string>, a: set<string>, b: set<string>)
    requires a <= b <= u
    ensures a == b || u - b < u - a
  {
    if a != b {
      var y :| y in b && y !in a;
      assert y in u - a && y !in u - b;
    }
  }

  // One step lemma per part of the invariant, for a head entry below the bound.

  lemma StepKeys(v: View, dir: Direction, src: string, seen: set<string>, dist: map<string, int>, next: string, seen1: set<string>,
                 dist1: map<string, int>, d: int)
    requires KeysOk(v, dir, src, seen, dist) && Widens(dist, dist1, seen1 + {src}, d)
    requires seen1 == seen + (set y | y in Adj(v, dir, next))
    ensures KeysOk(v, dir, src, seen1, dist1)
  {
    AdjMentioned(v, dir, next);
  }

  lemma StepDist(v: View, dir: Direction, src: string, maxDepth: int, todo: seq<(string, int)>, seen: set<string>, dist: map<string, int>,
                 cur: int, seen1: set<string>, dist1: map<string, int>)
    requires DistOk(v, dir, src, maxDepth, dist, cur) && QueueOk(todo, dist, cur) && KeysOk(v, dir, src, seen, dist)
    requires todo != [] && todo[0].1 < maxDepth && Widens(dist, dist1, seen1 + {src}, todo[0].1 + 1)
    requires seen1 == seen + (set y | y in Adj(v, dir, todo[0].0))
    ensures DistOk(v, dir, src, maxDepth, dist1, todo[0].1)
  {
    var next := todo[0];
    assert next.0 in dist && dist[next.0] <= next.1 && cur <= next.1;
    ReachMono(v, dir, {src}, dist[next.0], next.1);
    forall s | s in seen1 + {src} && s !in dist
      ensures s in Adj(v, dir, next.0)
    {
    }
    WidenedDist(v, dir, src, maxDepth, dist, cur, next.0, next.1, seen1 + {src}, dist1);
  }

  /** The names first met from `x`, at depth `j`, are reachable in `j + 1` steps. */
  lemma WidenedDist(v: View, dir: Direction, src: string, maxDepth: int, dist: map<string, int>, cur: int,
                    x: string, j: int, keys: set<string>, dist1: map<string, int>)
    requires DistOk(v, dir, src, maxDepth, dist, cur) && cur <= j < maxDepth
    requires x in Reach(v, dir, {src}, j) && Widens(dist, dist1, keys, j + 1)
    requires forall s | s in keys && s !in dist :: s in Adj(v, dir, x)
    ensures DistOk(v, dir, src, maxDepth, dist1, j)
  {
    forall s | s in dist1
      ensures 0 <= dist1[s] <= Cap(maxDepth) && dist1[s] <= j + 1 && s in Reach(v, dir, {src}, dist1[s])
    {
      if s !in dist {
        ReachNext(v, dir, {src}, j, x, s);
      }
    }
  }

  lemma StepQueue(todo: seq<(string, int)>, seen: set<string>, dist: map<string, int>, cur: int, src: string, seen1: set<string>,
                  todo1: seq<(string, int)>, dist1: map<string, int>, d: int)
    requires QueueOk(todo, dist, cur) && todo != [] && d == todo[0].1 + 1
    requires forall s | s in dist :: dist[s] <= cur + 1
    requires Widens(dist, dist1, seen1 + {src}, d) && Appends(todo[1..], todo1, seen, seen1, d)
    ensures QueueOk(todo1, dist1, todo[0].1)
  {
    forall i | 0 <= i < |todo1|
      ensures todo1[i].0 in dist1 && dist1[todo1[i].0] <= todo1[i].1 && todo[0].1 <= todo1[i].1 <= todo[0].1 + 1
    {
      if i < |todo| - 1 {
        assert todo1[i] == todo[1..][i] == todo[i + 1];
      }
    }
    forall i, j | 0 <= i < j < |todo1| ensures todo1[i].1 <= todo1[j].1 {
      if j < |todo| - 1 {
        assert todo1[i] == todo[1..][i] == todo[i + 1] && todo1[j] == todo[1..][j] == todo[j + 1];
      } else if i < |todo| - 1 {
        assert todo1[i] == todo[1..][i] == todo[i + 1];
      }
    }
  }

  lemma StepPending(todo: seq<(string, int)>, seen: set<string>, dist: map<string, int>, done: set<string>, src: string,
                    seen1: set<string>, todo1: seq<(string, int)>, dist1: map<string, int>, done1: set<string>, d: int)
    requires PendingOk(todo, dist, done) && todo != [] && todo[0].0 in dist && dist.Keys == seen + {src}
    requires Widens(dist, dist1, seen1 + {src}, d) && Appends(todo[1..], todo1, seen, seen1, d)
    requires done1 == if dist[todo[0].0] == todo[0].1 then done + {todo[0].0} else done
    ensures PendingOk(todo1, dist1, done1)
  {
    forall s | s in dist && s !in done && (s, dist[s]) != todo[0] ensures (s, dist[s]) in todo1 {
      var i :| 0 <= i < |todo| && todo[i] == (s, dist[s]);
      assert todo1[i - 1] == todo[1..][i - 1] == todo[i];
    }
  }

  lemma StepClosed(v: View, dir: Direction, maxDepth: int, todo: seq<(string, int)>, seen: set<string>, dist: map<string, int>,
                   done: set<string>, cur: int, src: string, seen1: set<string>, dist1: map<string, int>, done1: set<string>)
    requires ClosedOk(v, dir, maxDepth, dist, done) && QueueOk(todo, dist, cur) && todo != [] && todo[0].0 in dist
    requires forall s | s in dist :: dist[s] <= cur + 1
    requires Widens(dist, dist1, seen1 + {src}, todo[0].1 + 1)
    requires seen1 == seen + (set y | y in Adj(v, dir, todo[0].0))
    requires done1 == if dist[todo[0].0] == todo[0].1 then done + {todo[0].0} else done
    ensures ClosedOk(v, dir, maxDepth, dist1, done1)
  {
    assert cur <= todo[0].1;
  }

  lemma StepNames(acc: set<string>, names: set<string>, dist: map<string, int>, done: set<string>, next: string,
                  names1: set<string>, dist1: map<string, int>, done1: set<string>)
    requires acc + done <= names <= acc + dist.Keys && next in dist && dist.Keys <= dist1.Keys
    requires names1 == names + {next} && done1 <= done + {next}
    ensures acc + done1 <= names1 <= acc + dist1.Keys
  {
  }

  /** Taking a head entry below the bound and queuing its list keeps the invariant. */
  lemma WalkExpand(v: View, dir: Direction, src: string, maxDepth: int, acc: set<string>, names: set<string>,
                   todo: seq<(string, int)>, seen: set<string>, dist: map<string, int>, done: set<string>, cur: int,
                   names1: set<string>, seen1: set<string>, todo1: seq<(string, int)>, dist1: map<string, int>, done1: set<string>)
    requires WalkInv(v, dir, src, maxDepth, acc, names, todo, seen, dist, done, cur) && todo != [] && todo[0].1 < maxDepth
    requires seen1 == seen + (set y | y in Adj(v, dir, todo[0].0)) && Appends(todo[1..], todo1, seen, seen1, todo[0].1 + 1)
    requires names1 == names + {todo[0].0}
    requires dist1 == Widen(src, seen1, dist, todo[0].1 + 1)
    requires done1 == if dist[todo[0].0] == todo[0].1 then done + {todo[0].0} else done
    ensures WalkInv(v, dir, src, maxDepth, acc, names1, todo1, seen1, dist1, done1, todo[0].1)
  {
    var next := todo[0];
    WidenIs(src, seen1, dist, next.1 + 1);
    StepKeys(v, dir, src, seen, dist, next.0, seen1, dist1, next.1 + 1);
    StepDist(v, dir, src, maxDepth, todo, seen, dist, cur, seen1, dist1);
    StepQueue(todo, seen, dist, cur, src, seen1, todo1, dist1, next.1 + 1);
    StepPending(todo, seen, dist, done, src, seen1, todo1, dist1, done1, next.1 + 1);
    StepClosed(v, dir, maxDepth, todo, seen, dist, done, cur, src, seen1, dist1, done1);
    StepNames(acc, names, dist, done, next.0, names1, dist1, done1);
  }

  /** Taking a head entry at or beyond the bound keeps the invariant. */
  lemma WalkStop(v: View, dir: Direction, src: string, maxDepth: int, acc: set<string>, names: set<string>,
                 todo: seq<(string, int)>, seen: set<string>, dist: map<string, int>, done: set<string>, cur: int,
                 names1: set<string>, done1: set<string>)
    requires WalkInv(v, dir, src, maxDepth, acc, names, todo, seen, dist, done, cur) && todo != [] && maxDepth <= todo[0].1
    requires names1 == names + {todo[0].0}
    requires done1 == if dist[todo[0].0] == todo[0].1 then done + {todo[0].0} else done
    ensures WalkInv(v, dir, src, maxDepth, acc, names1, todo[1..], seen, dist, done1, todo[0].1)
  {
    var next := todo[0];
    forall i | 0 <= i < |todo[1..]| ensures next.1 <= todo[1..][i].1 {
      assert todo[1..][i] == todo[i + 1];
    }
    forall s | s in dist && s !in done && (s, dist[s]) != next ensures (s, dist[s]) in todo[1..] {
      var i :| 0 <= i < |todo| && todo[i] == (s, dist[s]);
      assert todo[1..][i - 1] == todo[i];
    }
  }

  /** Taking the head of the queue, and queuing its list when it lies below the bound, keeps the invariant. */
  lemma WalkStep(v: View, dir: Direction, src: string, maxDepth: int, acc: set<string>, names: set<string>,
                 todo: seq<(string, int)>, seen: set<string>, dist: map<string, int>, done: set<string>, cur: int,
                 names1: set<string>, seen1: set<string>, todo1: seq<(string, int)>, dist1: map<string, int>, done1: set<string>)
    requires WalkInv(v, dir, src, maxDepth, acc, names, todo, seen, dist, done, cur) && todo != []
    requires todo[0].1 < maxDepth ==> seen1 == seen + (set y | y in Adj(v, dir, todo[0].0))
    requires todo[0].1 < maxDepth ==> Appends(todo[1..], todo1, seen, seen1, todo[0].1 + 1)
    requires maxDepth <= todo[0].1 ==> seen1 == seen && todo1 == todo[1..]
    requires names1 == names + {todo[0].0}
    requires dist1 == NextDist(src, maxDepth, todo, seen1, dist) && done1 == NextDone(todo, dist, done)
    ensures WalkInv(v, dir, src, maxDepth, acc, names1, todo1, seen1, dist1, done1, todo[0].1)
    ensures seen <= seen1 <= Mentioned(v, dir) && (seen1 == seen ==> todo1 == todo[1..])
  {
    if todo[0].1 < maxDepth {
      AdjMentioned(v, dir, todo[0].0);
      WalkExpand(v, dir, src, maxDepth, acc, names, todo, seen, dist, done, cur, names1, seen1, todo1, dist1, done1);
    } else {
      WalkStop(v, dir, src, maxDepth, acc, names, todo, seen, dist, done, cur, names1, done1);
    }
  }

  /**
   * The breadth-first walk of `computeSetGraphTraversal` from one source:
   * every name reached at depth below `maxDepth` has its list queued, each
   * name once. The source itself is not marked as seen.
   */
  /** The walk starts with `src` queued at depth 0 and nothing yet reported. */
  lemma WalkStart(v: View, dir: Direction, src: string, maxDepth: int, acc: set<string>)
    ensures WalkInv(v, dir, src, maxDepth, acc, acc, [(src, 0)], {}, map[src := 0], {}, 0)
  {
    assert src in Reach(v, dir, {src}, 0);
  }

  method Traverse(v: View, dir: Direction, src: string, maxDepth: int, acc: set<string>) returns (names: set<string>)
    ensures names == acc + Reach(v, dir, {src}, maxDepth)
  {
    var todo: seq<(string, int)> := [(src, 0)];
    var seen: set<string> := {};
    names := acc;
    ghost var dist: map<string, int> := map[src := 0];
    ghost var done: set<string> := {};
    ghost var cur := 0;
    WalkStart(v, dir, src, maxDepth, acc);
    while |todo| > 0
      invariant WalkInv(v, dir, src, maxDepth, acc, names, todo, seen, dist, done, cur)
      decreases Mentioned(v, dir) - seen, |todo|
    {
      ghost var names0, todo0, seen0, dist0, done0 := names, todo, seen, dist, done;
      var next := todo[0];
      todo := todo[1..];
      names := names + {next.0};
      if next.1 < maxDepth {
        seen, todo := Expand(seen, todo, Adj(v, dir, next.0), next.1 + 1);
      }
      dist := NextDist(src, maxDepth, todo0, seen, dist0);
      done := NextDone(todo0, dist0, done0);
      WalkStep(v, dir, src, maxDepth, acc, names0, todo0, seen0, dist0, done0, cur, names, seen, todo, dist, done);
      Shrinks(Mentioned(v, dir), seen0, seen);
      cur := next.1;
    }
    WalkComplete(v, dir, src, maxDepth, acc, names, seen, dist, done, cur);
  }

  /** When the queue is empty, the names recorded are exactly those within the bound. */
  lemma WalkComplete(v: View, dir: Direction, src: string, maxDepth: int, acc: set<string>, names: set<string>,
                     seen: set<string>, dist: map<string, int>, done: set<string>, cur: int)
    requires WalkInv(v, dir, src, maxDepth, acc, names, [], seen, dist, done, cur)
    ensures names == acc + Reach(v, dir, {src}, maxDepth)
  {
    assert dist.Keys <= done;
    ReachSeen(v, dir, src, maxDepth, dist, Cap(maxDepth));
    forall s | s in dist ensures s in Reach(v, dir, {src}, maxDepth) {
      ReachMono(v, dir, {src}, dist[s], Cap(maxDepth));
    }
    assert Reach(v, dir, {src}, Cap(maxDepth)) == Reach(v, dir, {src}, maxDepth);
  }

  /** Once every name recorded at a depth below the bound has its list recorded, everything within the bound is recorded. */
  lemma {:induction false} ReachSeen(v: View, dir: Direction, src: string, maxDepth: int, dist: map<string, int>, j: nat)
    requires src in dist && dist[src] == 0 && j <= Cap(maxDepth)
    requires forall s | s in dist :: dist[s] < maxDepth ==> forall y | y in Adj(v, dir, s) :: y in dist && dist[y] <= dist[s] + 1
    ensures forall y | y in Reach(v, dir, {src}, j) :: y in dist && dist[y] <= j
  {
    if j > 0 {
      ReachSeen(v, dir, src, maxDepth, dist, j - 1);
      forall y | y in Reach(v, dir, {src}, j) ensures y in dist && dist[y] <= j {
        var r := Reach(v, dir, {src}, j - 1);
        if y !in r {
          var n :| n in r && y in Adj(v, dir, n);
          assert dist[n] <= j - 1;
        }
      }
    }
  }

  /** `computeSetGraphTraversal` after its argument checks: a walk from every source into one set. */
  method Traversal(v: View, dir: Direction, sources: set<string>, maxDepth: int) returns (names: set<string>)
    ensures names == Reach(v, dir, sources, maxDepth)
  {
    names := {};
    var rest := sources;
    ghost var visited: set<string> := {};
    ReachEmpty(v, dir, maxDepth);
    while rest != {}
      invariant rest + visited == sources
      invariant names == Reach(v, dir, visited, maxDepth)
      decreases rest
    {
      var src :| src in rest;
      names := Traverse(v, dir, src, maxDepth, names);
      ReachUnion(v, dir, visited, {src}, maxDepth);
      rest := rest - {src};
      visited := visited + {src};
    }
  }

  /** From a set of sources, the traversal reaches the sources and stays within the level. */
  lemma {:induction false} ReachWithinLevel(v: View, dir: Direction, s: set<string>, k: int)
    requires ViewValid(v) && s <= LevelSet(v)
    ensures s <= Reach(v, dir, s, k) <= LevelSet(v)
    decreases if k <= 0 then 0 else k
  {
    if k > 0 {
      ReachWithinLevel(v, dir, s, k - 1);
    }
  }

  // ---------------------------------------------------------------------------
  // shared.

  /** `nodesInSet`: how many entries of the list are in the set. */
  function CountIn(s: set<string>, l: seq<string>): nat
  {
    if |l| == 0 then 0 else (if l[0] in s then 1 else 0) + CountIn(s, l[1..])
  }

  /** The test `sharedFunc` applies: no successor and exactly one predecessor in the set. */
  predicate Dangling(v: View, s: set<string>, x: string)
  {
    CountIn(s, Succs(v, x)) == 0 && CountIn(s, Preds(v, x)) == 1
  }

  /** A member of the set that `shared` drops. */
  predicate Enabled(v: View, s: set<string>, x: string)
  {
    x in s && Dangling(v, s, x)
  }

  /** The first entry of the list that is in the set. */
  function FirstIn(s: set<string>, l: seq<string>): (r: Option<string>)
    ensures r.Some? ==> r.value in s && r.value in l
  {
    if |l| == 0 then None else if l[0] in s then Some(l[0]) else FirstIn(s, l[1..])
  }

  /** The seeds of the worklist: the dangling members, in level order. */
  function Seeds(v: View, s: set<string>, l: seq<string>): (r: seq<string>)
    ensures forall x | x in r :: Enabled(v, s, x)
  {
    if |l| == 0 then []
    else
      var rest := Seeds(v, s, l[..|l| - 1]);
      var x := l[|l| - 1];
      if Enabled(v, s, x) then rest + [x] else rest
  }

  /**
   * The worklist loop of `sharedFunc` as corrected: the chain continues with
   * the predecessor that is still in the set, and an entry already dropped is
   * passed over.
   */
  function SharedLoop(v: View, s: set<string>, todo: seq<string>): (r: set<string>)
    ensures r <= s
    decreases s, |todo|
  {
    if todo == [] then s
    else
      var next := todo[0];
      if next !in s then SharedLoop(v, s, todo[1..])
      else
        var s1 := s - {next};
        SharedLoop(v, s1, Requeued(v, s1, next, todo[1..]))
  }

  /** The rest of the worklist once `next` is dropped, with the predecessor of `next` left in the set queued when it now dangles. */
  function Requeued(v: View, s1: set<string>, next: string, rest: seq<string>): seq<string>
  {
    match FirstIn(s1, Preds(v, next))
    case Some(p) => if Dangling(v, s1, p) then rest + [p] else rest
    case None => rest
  }

  /** `sharedFunc` after its argument check, as corrected. */
  function SharedSpec(v: View, s: set<string>): (r: set<string>)
    ensures r <= s
  {
    SharedLoop(v, s, Seeds(v, s, v.level))
  }

  /** `sharedFunc`'s loops over the set, as corrected. */
  method Shared(v: View, set0: set<string>) returns (names: set<string>)
    ensures names == SharedSpec(v, set0)
  {
    names := set0;
    var todo: seq<string> := [];
    var i := 0;
    while i < |v.level|
      invariant 0 <= i <= |v.level|
      invariant todo == Seeds(v, set0, v.level[..i])
    {
      assert v.level[..i + 1][..i] == v.level[..i];
      var src := v.level[i];
      if src in names && CountIn(names, Succs(v, src)) == 0 && CountIn(names, Preds(v, src)) == 1 {
        todo := todo + [src];
      }
      i := i + 1;
    }
    assert v.level[..i] == v.level;
    while todo != []
      invariant SharedLoop(v, names, todo) == SharedSpec(v, set0)
      decreases names, |todo|
    {
      var next := todo[0];
      todo := todo[1..];
      if next in names {
        names := names - {next};
        var pred := FirstIn(names, Preds(v, next));
        if pred.Some? && CountIn(names, Succs(v, pred.value)) == 0 && CountIn(names, Preds(v, pred.value)) == 1 {
          todo := todo + [pred.value];
        }
      }
    }
  }

  // Laws of the corrected loop.

  lemma {:induction false} CountInZero(s: set<string>, l: seq<string>)
    ensures CountIn(s, l) == 0 <==> forall y | y in l :: y !in s
  {
    if |l| > 0 {
      CountInZero(s, l[1..]);
      assert forall y | y in l :: y == l[0] || y in l[1..];
    }
  }

  lemma {:induction false} CountInRemove(s: set<string>, l: seq<string>, x: string)
    requires NoDup(l)
    ensures CountIn(s - {x}, l) == CountIn(s, l) - (if x in s && x in l then 1 else 0)
  {
    if |l| > 0 {
      assert NoDup(l[1..]) by {
        forall i, j | 0 <= i < j < |l[1..]| ensures l[1..][i] != l[1..][j] {
          assert l[1..][i] == l[i + 1] && l[1..][j] == l[j + 1];
        }
      }
      CountInRemove(s, l[1..], x);
      if l[0] == x {
        assert x !in l[1..] by {
          forall j | 0 <= j < |l[1..]| ensures l[1..][j] != x {
            assert l[1..][j] == l[j + 1];
          }
        }
      }
    }
  }

  lemma {:induction false} CountInMono(s: set<string>, t: set<string>, l: seq<string>)
    requires t <= s
    ensures CountIn(t, l) <= CountIn(s, l)
  {
    if |l| > 0 {
      CountInMono(s, t, l[1..]);
    }
  }

  /** When exactly one entry of the list is in the set, it is the first one in the set. */
  lemma {:induction false} FirstInSingle(s: set<string>, l: seq<string>, x: string)
    requires CountIn(s, l) == 1 && x in l && x in s
    ensures FirstIn(s, l) == Some(x)
  {
    if l[0] != x {
      if l[0] in s {
        CountInZero(s, l[1..]);
      } else {
        FirstInSingle(s, l[1..], x);
      }
    }
  }

  /** The worklist invariant: every dangling member is queued, and every queued member still in the set still dangles. */
  ghost predicate Queued(v: View, s: set<string>, todo: seq<string>)
  {
    && (forall x | Enabled(v, s, x) :: x in todo)
    && (forall y | y in todo && y in s :: Dangling(v, s, y))
  }

  /** What the corrected loop leaves has no dangling member. */
  lemma {:induction false} SharedLoopStable(v: View, s: set<string>, todo: seq<string>)
    requires ViewValid(v) && Queued(v, s, todo)
    ensures forall x :: !Enabled(v, SharedLoop(v, s, todo), x)
    decreases s, |todo|
  {
    if todo != [] {
      var next := todo[0];
      if next !in s {
        forall y | y in todo && y != next ensures y in todo[1..] {
        }
        SharedLoopStable(v, s, todo[1..]);
      } else {
        var s1 := s - {next};
        var rest := todo[1..];
        var todo1 := Requeued(v, s1, next, rest);
        QueuedAfterDrop(v, s, todo, next, s1, todo1);
        SharedLoopStable(v, s1, todo1);
      }
    }
  }

  lemma QueuedAfterDrop(v: View, s: set<string>, todo: seq<string>, next: string, s1: set<string>, todo1: seq<string>)
    requires ViewValid(v) && Queued(v, s, todo)
    requires todo != [] && next == todo[0] && next in s && s1 == s - {next}
    requires todo1 == Requeued(v, s1, next, todo[1..])
    ensures Queued(v, s1, todo1)
  {
    assert forall y | y in todo[1..] :: y in todo1;
    forall x | Enabled(v, s1, x) ensures x in todo1 {
      NowDangling(v, s, todo, next, s1, x);
    }
    CountInZero(s, Succs(v, next));
    forall y | y in todo1 && y in s1 ensures Dangling(v, s1, y) {
      if y in todo {
        CountInMono(s, s1, Succs(v, y));
        NotAbove(v, s, next, y);
        CountInRemove(s, Preds(v, y), next);
      }
    }
  }

  /** A member that dangles once `next` is dropped already dangled, or is the one predecessor of `next` left in the set. */
  lemma NowDangling(v: View, s: set<string>, todo: seq<string>, next: string, s1: set<string>, x: string)
    requires ViewValid(v) && Queued(v, s, todo)
    requires todo != [] && next == todo[0] && next in s && s1 == s - {next}
    requires Enabled(v, s1, x)
    ensures (x in todo && x != next) || (FirstIn(s1, Preds(v, next)) == Some(x) && Dangling(v, s1, x))
  {
    CountInRemove(s, Succs(v, x), next);
    CountInRemove(s, Preds(v, x), next);
    CountInZero(s, Succs(v, next));
    NotAbove(v, s, next, x);
    if !Enabled(v, s, x) {
      assert next in Succs(v, x);
      assert x in Preds(v, next);
      CountInRemove(s, Preds(v, next), next);
      CountInMono(s, s1, Preds(v, next));
      CountInZero(s1, Preds(v, next));
      FirstInSingle(s1, Preds(v, next), x);
    }
  }

  /** A member of the set is not a successor of a node with no successor in the set. */
  lemma NotAbove(v: View, s: set<string>, next: string, x: string)
    requires ViewValid(v) && x in s && forall y | y in Succs(v, next) :: y !in s
    ensures next !in Preds(v, x)
  {
  }

  /** The seeds of the worklist satisfy the invariant. */
  lemma {:induction false} SeedsQueued(v: View, s: set<string>, l: seq<string>)
    requires s <= set i | 0 <= i < |l| :: l[i]
    ensures Queued(v, s, Seeds(v, s, l))
  {
    SeedsComplete(v, s, l);
  }

  lemma {:induction false} SeedsComplete(v: View, s: set<string>, l: seq<string>)
    ensures forall i | 0 <= i < |l| && Enabled(v, s, l[i]) :: l[i] in Seeds(v, s, l)
  {
    if |l| > 0 {
      SeedsComplete(v, s, l[..|l| - 1]);
      forall i | 0 <= i < |l| && Enabled(v, s, l[i]) ensures l[i] in Seeds(v, s, l) {
        if i < |l| - 1 {
          assert l[..|l| - 1][i] == l[i];
        }
      }
    }
  }

  /** The members the corrected loop drops, in the order it drops them. */
  ghost function SharedDrops(v: View, s: set<string>, todo: seq<string>): seq<string>
    decreases s, |todo|
  {
    if todo == [] then []
    else
      var next := todo[0];
      if next !in s then SharedDrops(v, s, todo[1..])
      else
        var s1 := s - {next};
        [next] + SharedDrops(v, s1, Requeued(v, s1, next, todo[1..]))
  }

  /** Each member of `xs` dangles in the set once the members before it are dropped. */
  ghost predicate DropRun(v: View, s: set<string>, xs: seq<string>)
    decreases |xs|
  {
    xs == [] || (Enabled(v, s, xs[0]) && DropRun(v, s - {xs[0]}, xs[1..]))
  }

  /** The corrected loop drops, one at a time, members that dangle when they go, and nothing else. */
  lemma {:induction false} SharedDropsRun(v: View, s: set<string>, todo: seq<string>)
    requires ViewValid(v) && Queued(v, s, todo)
    ensures DropRun(v, s, SharedDrops(v, s, todo))
    ensures SharedLoop(v, s, todo) == s - (set x | x in SharedDrops(v, s, todo))
    decreases s, |todo|
  {
    if todo != [] {
      var next := todo[0];
      if next !in s {
        forall y | y in todo && y != next ensures y in todo[1..] {
        }
        SharedDropsRun(v, s, todo[1..]);
      } else {
        var s1 := s - {next};
        var rest := todo[1..];
        var todo1 := Requeued(v, s1, next, rest);
        QueuedAfterDrop(v, s, todo, next, s1, todo1);
        SharedDropsRun(v, s1, todo1);
        DropsCons(next, SharedDrops(v, s1, todo1));
      }
    }
  }

  lemma DropsCons(x: string, d: seq<string>)
    ensures ([x] + d)[0] == x && ([x] + d)[1..] == d
    ensures (set y | y in [x] + d) == {x} + (set y | y in d)
  {
    assert ([x] + d)[1..] == d;
  }

  /**
   * `shared(S)`: `S` less members dropped one at a time, each with no
   * successor and exactly one predecessor in the set when it goes, until no
   * member is like that.
   */
  lemma SharedLaws(v: View, s: set<string>)
    requires ViewValid(v) && s <= LevelSet(v)
    ensures SharedSpec(v, s) <= s
    ensures DropRun(v, s, SharedDrops(v, s, Seeds(v, s, v.level)))
    ensures SharedSpec(v, s) == s - (set x | x in SharedDrops(v, s, Seeds(v, s, v.level)))
    ensures forall x | x in SharedSpec(v, s) :: !Dangling(v, SharedSpec(v, s), x)
  {
    SeedsQueued(v, s, v.level);
    SharedDropsRun(v, s, Seeds(v, s, v.level));
    SharedLoopStable(v, s, Seeds(v, s, v.level));
    var r := SharedSpec(v, s);
    assert r == SharedLoop(v, s, Seeds(v, s, v.level));
    forall x | x in r ensures !Dangling(v, r, x) {
      assert !Enabled(v, r, x);
    }
  }

  // The loop as written.

  /**
   * One turn of the worklist loop of `sharedFunc` as written: the chain
   * continues with the first predecessor in name order, whether or not it is
   * in the set. `None` stands for the index panic on a node without predecessors.
   */
  function SharedTurnAsWritten(v: View, s: set<string>, todo: seq<string>): (r: Option<(set<string>, seq<string>)>)
    requires todo != []
    ensures r.Some? ==> r.value.0 == s - {todo[0]}
  {
    var next := todo[0];
    var s1 := s - {next};
    var ps := Preds(v, next);
    if ps == [] then None
    else if Dangling(v, s1, ps[0]) then Some((s1, todo[1..] + [ps[0]]))
    else Some((s1, todo[1..]))
  }

  /** The view of the counterexample: w -> a, w -> b, w -> t, a -> b, a -> t, b -> a. */
  const CycleView: View := View(["a", "b", "t", "w"],
                                map["w" := ["a", "b", "t"], "a" := ["b", "t"], "b" := ["a"], "t" := []],
                                map["t" := ["a", "w"], "a" := ["b", "w"], "b" := ["a", "w"], "w" := []],
                                {})

  lemma CycleLists()
    ensures Succs(CycleView, "w") == ["a", "b", "t"] && Succs(CycleView, "a") == ["b", "t"]
    ensures Succs(CycleView, "b") == ["a"] && Succs(CycleView, "t") == []
    ensures Preds(CycleView, "t") == ["a", "w"] && Preds(CycleView, "a") == ["b", "w"]
    ensures Preds(CycleView, "b") == ["a", "w"] && Preds(CycleView, "w") == []
  {
  }

  lemma CountIn1(s: set<string>, x: string)
    ensures CountIn(s, [x]) == if x in s then 1 else 0
  {
    assert [x][1..] == [];
  }

  lemma CountIn2(s: set<string>, x: string, y: string)
    ensures CountIn(s, [x, y]) == (if x in s then 1 else 0) + (if y in s then 1 else 0)
  {
    assert [x, y][1..] == [y];
    CountIn1(s, y);
  }

  lemma CountIn3(s: set<string>, x: string, y: string, z: string)
    ensures CountIn(s, [x, y, z]) == (if x in s then 1 else 0) + (if y in s then 1 else 0) + (if z in s then 1 else 0)
  {
    assert [x, y, z][1..] == [y, z];
    CountIn2(s, y, z);
  }

  /** `a` and `b` each have no successor and one predecessor in `{w}`, though neither is in it. */
  lemma CycleDangling()
    ensures Dangling(CycleView, {"w"}, "a") && Dangling(CycleView, {"w"}, "b")
  {
    CycleLists();
    CountIn2({"w"}, "b", "t");
    CountIn2({"w"}, "b", "w");
    CountIn1({"w"}, "a");
    CountIn2({"w"}, "a", "w");
  }

  /** Of `{t, w}` only `t` dangles, so the worklist starts as `[t]`. */
  lemma CycleSeeds()
    ensures Seeds(CycleView, {"t", "w"}, CycleView.level) == ["t"]
  {
    var v, s := CycleView, {"t", "w"};
    CycleLists();
    CountIn3(s, "a", "b", "t");
    CountIn2(s, "a", "w");
    assert !Enabled(v, s, "w") && Enabled(v, s, "t") && !Enabled(v, s, "a") && !Enabled(v, s, "b");
    assert v.level[..3] == ["a", "b", "t"] && ["a", "b", "t"][..2] == ["a", "b"];
    assert ["a", "b"][..1] == ["a"] && ["a"][..0] == [];
  }

  /**
   * On `shared({t, w})` over `CycleView` the loop as written, seeded with
   * `t`, drops `t` and then walks between `a` and `b`, neither of which is in
   * the set, forever: the state after three turns is the state after one.
   */
  lemma SharedAsWrittenLoops()
    ensures Seeds(CycleView, {"t", "w"}, CycleView.level) == ["t"]
    ensures SharedTurnAsWritten(CycleView, {"t", "w"}, ["t"]) == Some(({"w"}, ["a"]))
    ensures SharedTurnAsWritten(CycleView, {"w"}, ["a"]) == Some(({"w"}, ["b"]))
    ensures SharedTurnAsWritten(CycleView, {"w"}, ["b"]) == Some(({"w"}, ["a"]))
  {
    CycleSeeds();
    CycleLists();
    CycleDangling();
    assert {"t", "w"} - {"t"} == {"w"} && {"w"} - {"a"} == {"w"} && {"w"} - {"b"} == {"w"};
    assert ["t"][1..] + ["a"] == ["a"] && ["a"][1..] + ["b"] == ["b"] && ["b"][1..] + ["a"] == ["a"];
  }

  /** The corrected loop on the same input stops after one turn, keeping `w`. */
  lemma SharedCorrectedStops()
    ensures SharedSpec(CycleView, {"t", "w"}) == {"w"}
  {
    var v := CycleView;
    CycleSeeds();
    CycleLists();
    CountIn3({"w"}, "a", "b", "t");
    CountIn1({"w"}, "a");
    assert {"t", "w"} - {"t"} == {"w"};
    assert FirstIn({"w"}, ["w"]) == Some("w");
    assert FirstIn({"w"}, ["a", "w"]) == Some("w") by {
      assert ["a", "w"][1..] == ["w"];
    }
    assert !Dangling(v, {"w"}, "w");
    assert SharedLoop(v, {"w"}, []) == {"w"};
    assert ["t"][1..] == [];
  }

  // ---------------------------------------------------------------------------
  // computeSet.

  /** `computeSet`: the set of names a query selects at the level, or why it cannot be evaluated. */
  function Eval(v: View, m: Matcher, e: Expr): (r: Outcome)
    decreases e
  {
    match e
    case EBool(_, _) => Invalid(NotASet, e)
    case EInt(_, _) => Invalid(NotASet, e)
    case EArgsList(_, _) => Invalid(NotASet, e)
    case EStr(_, _) => NameMatch(v, m, e)
    case EDelta(l, r, _) => Combine(Eval(v, m, l), Eval(v, m, r), Delta)
    case EIntersect(l, r, _) => Combine(Eval(v, m, l), Eval(v, m, r), Inter)
    case ESubtract(l, r, _) => Combine(Eval(v, m, l), Eval(v, m, r), Subtract)
    case EUnion(l, r, _) => Combine(Eval(v, m, l), Eval(v, m, r), Union)
    case EFunc(name, args, _, _) =>
      if name == "deps" || name == "rdeps" then
        if |args| == 0 then Invalid(NoArguments, e)
        else if |args| > 2 then Invalid(ManyArguments, e)
        else if |args| == 2 && !args[1].EInt? then Invalid(NotAnInteger, e)
        else
          var depth := if |args| == 2 then args[1].v else MaxInt64;
          var dir := if name == "deps" then Forwards else Backwards;
          match Eval(v, m, args[0])
          case Invalid(why, at) => Invalid(why, at)
          case Ok(sources) => Ok(Reach(v, dir, sources, depth))
      else if name == "shared" then
        if |args| != 1 then Invalid(NotOneArgument, e)
        else match Eval(v, m, args[0])
          case Invalid(why, at) => Invalid(why, at)
          case Ok(s) => Ok(SharedSpec(v, s))
      else Invalid(UnknownFunction, e)
  }

  /** `computeSetBinaryOp`: the left operand's error first, then the right one's, then the operator. */
  function Combine(a: Outcome, b: Outcome, op: (set<string>, set<string>) -> set<string>): Outcome
  {
    if a.Invalid? then a else if b.Invalid? then b else Ok(op(a.names, b.names))
  }

  /** `computeSet`, dispatching on the kind of expression. */
  method ComputeSet(v: View, m: Matcher, e: Expr) returns (r: Outcome)
    ensures r == Eval(v, m, e)
    decreases e
  {
    match e {
      case EBool(_, _) => return Invalid(NotASet, e);
      case EInt(_, _) => return Invalid(NotASet, e);
      case EArgsList(_, _) => return Invalid(NotASet, e);
      case EStr(s, _) =>
        var parts := Split(s, ':');
        if |parts| > 2 {
          return Invalid(ManyColons, e);
        } else if |parts| == 2 && parts[1] != "test" {
          return Invalid(UnknownAnnotation, e);
        } else if !m.valid(parts[0]) {
          return Invalid(BadPattern, e);
        }
        var names := MatchLevel(v, m, parts[0], |parts| == 2);
        return Ok(names);
      case EDelta(l, rhs, _) =>
        var a := ComputeSet(v, m, l);
        if a.Invalid? { return a; }
        var b := ComputeSet(v, m, rhs);
        if b.Invalid? { return b; }
        return Ok(Delta(a.names, b.names));
      case EIntersect(l, rhs, _) =>
        var a := ComputeSet(v, m, l);
        if a.Invalid? { return a; }
        var b := ComputeSet(v, m, rhs);
        if b.Invalid? { return b; }
        return Ok(Inter(a.names, b.names));
      case ESubtract(l, rhs, _) =>
        var a := ComputeSet(v, m, l);
        if a.Invalid? { return a; }
        var b := ComputeSet(v, m, rhs);
        if b.Invalid? { return b; }
        return Ok(Subtract(a.names, b.names));
      case EUnion(l, rhs, _) =>
        var a := ComputeSet(v, m, l);
        if a.Invalid? { return a; }
        var b := ComputeSet(v, m, rhs);
        if b.Invalid? { return b; }
        return Ok(Union(a.names, b.names));
      case EFunc(name, args, _, _) =>
        if name == "deps" || name == "rdeps" {
          if |args| == 0 {
            return Invalid(NoArguments, e);
          } else if |args| > 2 {
            return Invalid(ManyArguments, e);
          }
          var depth := MaxInt64;
          if |args| == 2 {
            if !args[1].EInt? {
              return Invalid(NotAnInteger, e);
            }
            depth := args[1].v;
          }
          var dir := if name == "deps" then Forwards else Backwards;
          var sources := ComputeSet(v, m, args[0]);
          if sources.Invalid? {
            return Invalid(sources.reason, sources.at);
          }
          var names := Traversal(v, dir, sources.names, depth);
          return Ok(names);
        } else if name == "shared" {
          if |args| != 1 {
            return Invalid(NotOneArgument, e);
          }
          var s := ComputeSet(v, m, args[0]);
          if s.Invalid? {
            return Invalid(s.reason, s.at);
          }
          var names := Shared(v, s.names);
          return Ok(names);
        }
        return Invalid(UnknownFunction, e);
    }
  }

  /**
   * What evaluation promises: integers, booleans and argument lists are not
   * sets; a successful result lies within the level; `deps`/`rdeps` keep
   * their sources; `shared` keeps a subset of its argument's set.
   */
  lemma {:induction false} EvalLaws(v: View, m: Matcher, e: Expr)
    requires ViewValid(v)
    ensures e.EBool? || e.EInt? || e.EArgsList? ==> Eval(v, m, e) == Invalid(NotASet, e)
    ensures Eval(v, m, e).Ok? ==> Eval(v, m, e).names <= LevelSet(v)
    ensures e.EFunc? && (e.name == "deps" || e.name == "rdeps") && Eval(v, m, e).Ok? ==>
              Eval(v, m, e.args[0]).Ok? && Eval(v, m, e.args[0]).names <= Eval(v, m, e).names
    ensures e.EFunc? && e.name == "shared" && Eval(v, m, e).Ok? ==>
              Eval(v, m, e.args[0]).Ok? && Eval(v, m, e).names <= Eval(v, m, e.args[0]).names
    decreases e
  {
    match e
    case EBool(_, _) =>
    case EInt(_, _) =>
    case EArgsList(_, _) =>
    case EStr(_, _) =>
    case EDelta(l, r, _) => EvalLaws(v, m, l); EvalLaws(v, m, r);
    case EIntersect(l, r, _) => EvalLaws(v, m, l); EvalLaws(v, m, r);
    case ESubtract(l, r, _) => EvalLaws(v, m, l); EvalLaws(v, m, r);
    case EUnion(l, r, _) => EvalLaws(v, m, l); EvalLaws(v, m, r);
    case EFunc(name, args, _, _) =>
      if |args| > 0 {
        EvalLaws(v, m, args[0]);
        var a := Eval(v, m, args[0]);
        if a.Ok? {
          if name == "deps" || name == "rdeps" {
            var depth := if |args| == 2 && args[1].EInt? then args[1].v else MaxInt64;
            ReachWithinLevel(v, if name == "deps" then Forwards else Backwards, a.names, depth);
          }
        }
      }
  }

  /**
   * The argument checks of the functions: `deps` and `rdeps` take one or two
   * arguments, the second an integer, and walk from the first argument's set
   * to the given depth, or without bound; `shared` takes exactly one
   * argument; any other name is an unknown function.
   */
  lemma FuncArguments(v: View, m: Matcher, e: Expr)
    requires e.EFunc?
    ensures Eval(v, m, e).Ok? ==> e.name == "deps" || e.name == "rdeps" || e.name == "shared"
    ensures Eval(v, m, e).Ok? && e.name != "shared" ==>
              && (|e.args| == 1 || (|e.args| == 2 && e.args[1].EInt?))
              && Eval(v, m, e.args[0]).Ok?
              && Eval(v, m, e).names ==
                 Reach(v, if e.name == "deps" then Forwards else Backwards, Eval(v, m, e.args[0]).names,
                       if |e.args| == 2 then e.args[1].v else MaxInt64)
    ensures Eval(v, m, e).Ok? && e.name == "shared" ==> |e.args| == 1
    ensures e.name == "deps" || e.name == "rdeps" ==>
              (|e.args| == 0 ==> Eval(v, m, e) == Invalid(NoArguments, e)) &&
              (|e.args| > 2 ==> Eval(v, m, e) == Invalid(ManyArguments, e)) &&
              (|e.args| == 2 && !e.args[1].EInt? ==> Eval(v, m, e) == Invalid(NotAnInteger, e))
    ensures e.name == "shared" && |e.args| != 1 ==> Eval(v, m, e) == Invalid(NotOneArgument, e)
    ensures e.name != "deps" && e.name != "rdeps" && e.name != "shared" ==> Eval(v, m, e) == Invalid(UnknownFunction, e)
  {
  }
}
