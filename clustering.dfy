/**
 * Cluster layout of the dot printers (internal/printer/clustering.go, and its
 * older form lib/printer/clustering.go): the nodes of the printed level are
 * grouped into clusters by a hash of their predecessors, each cluster's
 * members are ordered, and a cluster's grid width, height, dependency count
 * and representative are derived from its members and cached.
 *
 * Both generations share this model; they differ only in where the node's
 * own name goes in a hash (`Generation`) and in what identifies a node (its
 * hash in the internal graph, its name in the lib graph: `Member.key`).
 */
module Clustering {
  import opened Util
  import opened Style

  /** The internal printer prefixes `<name>_from_` to a hash; the lib printer appends `_to_<name>`. */
  datatype Generation = Internal | Lib

  /**
   * What the clustering reads of a node of the printed level: its name, the
   * key the cluster map uses, the names of its predecessors and the number
   * of its successors.
   */
  datatype Member = Member(name: string, key: string, preds: seq<string>, succs: nat)

  // ---------------------------------------------------------------------------
  // nodeNameToHash

  /**
   * `unicode.IsOneOf({Letter, Number}, c)` for the runes up to U+00FF: the
   * ASCII letters and digits, the Latin-1 letters and the Latin-1 digits and
   * fractions.
   */
  predicate IsAlnum(c: char)
  {
    || 'a' <= c <= 'z' || 'A' <= c <= 'Z' || '0' <= c <= '9'
    || c == '\U{00AA}' || c == '\U{00B5}' || c == '\U{00BA}'
    || '\U{00C0}' <= c <= '\U{00D6}' || '\U{00D8}' <= c <= '\U{00F6}' || '\U{00F8}' <= c <= '\U{00FF}'
    || c == '\U{00B2}' || c == '\U{00B3}' || c == '\U{00B9}' || '\U{00BC}' <= c <= '\U{00BE}'
  }

  function SanitizedRune(c: char): char
  {
    if IsAlnum(c) then c else '_'
  }

  /** A node name as it appears in a hash: letters and digits kept, every other rune replaced by `_`. */
  function Sanitized(s: string): (r: string)
    ensures |r| == |s|
    ensures forall i | 0 <= i < |s| :: r[i] == SanitizedRune(s[i])
  {
    if s == [] then []
    else Sanitized(s[..|s| - 1]) + [SanitizedRune(s[|s| - 1])]
  }

  /** `nodeNameToHash`: the rune loop, proved to compute `Sanitized`. */
  method NodeNameToHash(nodeName: string) returns (hash: string)
    ensures hash == Sanitized(nodeName)
  {
    hash := "";
    for i := 0 to |nodeName|
      invariant hash == Sanitized(nodeName[..i])
    {
      assert nodeName[..i + 1][..i] == nodeName[..i];
      if IsAlnum(nodeName[i]) {
        hash := hash + [nodeName[i]];
      } else {
        hash := hash + "_";
      }
    }
    assert nodeName[..|nodeName|] == nodeName;
  }

  /** Sanitizing twice changes nothing more: `_` is neither a letter nor a digit. */
  lemma SanitizedIdempotent(s: string)
    ensures Sanitized(Sanitized(s)) == Sanitized(s)
  {
    var r := Sanitized(s);
    assert forall i | 0 <= i < |r| :: Sanitized(r)[i] == r[i];
  }

  // ---------------------------------------------------------------------------
  // computeClusterHash

  /** The sanitized predecessor names, in order. */
  function PredHashes(preds: seq<string>): (r: seq<string>)
    ensures |r| == |preds|
  {
    if preds == [] then []
    else PredHashes(preds[..|preds| - 1]) + [Sanitized(preds[|preds| - 1])]
  }

  /**
   * Whether a hash carries the node's own name: without a style, with
   * clustering off, or with shared clustering and more than one predecessor.
   */
  predicate NameTagged(style: Option<Options>, predCount: nat)
  {
    style.None? || style.value.cluster == Off || (style.value.cluster == Shared && predCount > 1)
  }

  /** The hash of a node's cluster. */
  function ClusterHash(gen: Generation, style: Option<Options>, m: Member): string
  {
    var hash := Join(SortStrings(PredHashes(m.preds)), "_");
    if !NameTagged(style, |m.preds|) then hash
    else if gen == Internal then m.name + "_from_" + hash
    else hash + "_to_" + m.name
  }

  /** `computeClusterHash`: collect the sanitized predecessor names, sort, join and tag. */
  method ComputeClusterHash(gen: Generation, style: Option<Options>, m: Member) returns (hash: string)
    ensures hash == ClusterHash(gen, style, m)
  {
    var hashElements: seq<string> := [];
    for i := 0 to |m.preds|
      invariant hashElements == PredHashes(m.preds[..i])
    {
      assert m.preds[..i + 1][..i] == m.preds[..i];
      var element := NodeNameToHash(m.preds[i]);
      hashElements := hashElements + [element];
    }
    assert m.preds[..|m.preds|] == m.preds;
    hashElements := SortStrings(hashElements);
    hash := Join(hashElements, "_");
    if NameTagged(style, |m.preds|) {
      if gen == Internal {
        hash := m.name + "_from_" + hash;
      } else {
        hash := hash + "_to_" + m.name;
      }
    }
  }

  lemma {:induction false} PredHashesPermute(a: seq<string>, b: seq<string>)
    requires multiset(a) == multiset(b)
    ensures multiset(PredHashes(a)) == multiset(PredHashes(b))
    decreases |a|
  {
    if a != [] {
      var x := a[|a| - 1];
      assert x in multiset(b);
      var k :| 0 <= k < |b| && b[k] == x;
      var b' := b[..k] + b[k + 1..];
      assert b == b[..k] + [x] + b[k + 1..];
      assert a == a[..|a| - 1] + [x];
      assert multiset(b) == multiset(b') + multiset{x};
      assert multiset(a) == multiset(a[..|a| - 1]) + multiset{x};
      assert multiset(b') == multiset(b) - multiset{x};
      assert multiset(a[..|a| - 1]) == multiset(a) - multiset{x};
      PredHashesPermute(a[..|a| - 1], b');
      PredHashesSplice(b[..k], x, b[k + 1..]);
    }
  }

  lemma {:induction false} PredHashesSplice(a: seq<string>, x: string, c: seq<string>)
    ensures multiset(PredHashes(a + [x] + c)) == multiset(PredHashes(a + c)) + multiset{Sanitized(x)}
    decreases |c|
  {
    if c == [] {
      assert a + [x] + c == a + [x];
      assert a + c == a;
      assert (a + [x])[..|a|] == a;
    } else {
      var y := c[|c| - 1];
      var c' := c[..|c| - 1];
      assert a + [x] + c == (a + [x] + c') + [y];
      assert (a + [x] + c)[..|a + [x] + c| - 1] == a + [x] + c';
      assert a + c == (a + c') + [y];
      assert (a + c)[..|a + c| - 1] == a + c';
      PredHashesSplice(a, x, c');
    }
  }

  /** The order in which the predecessors are listed does not matter: they are sorted before joining. */
  lemma HashOrderIndependent(gen: Generation, style: Option<Options>, m1: Member, m2: Member)
    requires m1.name == m2.name && multiset(m1.preds) == multiset(m2.preds)
    ensures ClusterHash(gen, style, m1) == ClusterHash(gen, style, m2)
  {
    SortedPredHashes(m1.preds, m2.preds);
    assert |m1.preds| == |multiset(m1.preds)| == |m2.preds|;
  }

  lemma SortedPredHashes(a: seq<string>, b: seq<string>)
    requires multiset(a) == multiset(b)
    ensures SortStrings(PredHashes(a)) == SortStrings(PredHashes(b))
  {
    PredHashesPermute(a, b);
    var sa, sb := SortStrings(PredHashes(a)), SortStrings(PredHashes(b));
    SortedByIdentity(sa);
    SortedByIdentity(sb);
    SortedStringsUnique(sa, sb);
  }

  /**
   * Without the name tag (full or parent clustering, or shared clustering
   * of a node with at most one predecessor), nodes with the same
   * predecessors share a hash whatever their names.
   */
  lemma SamePredsShareHash(gen: Generation, style: Option<Options>, m1: Member, m2: Member)
    requires multiset(m1.preds) == multiset(m2.preds) && !NameTagged(style, |m1.preds|)
    ensures ClusterHash(gen, style, m1) == ClusterHash(gen, style, m2)
  {
    SortedPredHashes(m1.preds, m2.preds);
    assert |m1.preds| == |multiset(m1.preds)| == |m2.preds|;
  }

  /** Shared clustering groups the nodes with the same single predecessor, and the roots, together. */
  lemma SharedSinglePred(gen: Generation, o: Options, m: Member)
    requires o.cluster == Shared && |m.preds| <= 1
    ensures |m.preds| == 0 ==> ClusterHash(gen, Some(o), m) == ""
    ensures |m.preds| == 1 ==> ClusterHash(gen, Some(o), m) == Sanitized(m.preds[0])
  {
    if |m.preds| == 1 {
      assert m.preds[..0] == [];
      assert PredHashes(m.preds) == [Sanitized(m.preds[0])];
    }
  }

  /** A tagged hash carries the node's name: first in the internal printer, last in the lib printer. */
  lemma TaggedHashNamesNode(gen: Generation, style: Option<Options>, m: Member)
    requires NameTagged(style, |m.preds|)
    ensures gen == Internal ==> HasPrefix(ClusterHash(gen, style, m), m.name + "_from_")
    ensures gen == Lib ==> HasSuffix(ClusterHash(gen, style, m), "_to_" + m.name)
  {
    var hash := Join(SortStrings(PredHashes(m.preds)), "_");
    if gen == Internal {
      assert ClusterHash(gen, style, m) == (m.name + "_from_") + hash;
    } else {
      assert ClusterHash(gen, style, m) == hash + ("_to_" + m.name);
    }
  }

  // ---------------------------------------------------------------------------
  // Member order

  /**
   * The sort key of a member: nodes without successors first, then by name.
   * The flag is one rune that precedes the name, so comparing keys compares
   * the flags first and the names on a tie.
   */
  function MemberKey(m: Member): string
  {
    [if m.succs > 0 then '1' else '0'] + m.name
  }

  /** Ordering by `MemberKey` is the comparator of the member sort. */
  lemma MemberOrder(a: Member, b: Member)
    ensures Less(MemberKey(a), MemberKey(b)) <==>
      (a.succs == 0 && b.succs > 0) || ((a.succs > 0) == (b.succs > 0) && Less(a.name, b.name))
  {
    var ka, kb := MemberKey(a), MemberKey(b);
    assert ka[1..] == a.name && kb[1..] == b.name;
  }

  /** The members with successors come after all those without. */
  predicate Grouped(ms: seq<Member>)
  {
    forall i, j | 0 <= i < j < |ms| :: ms[i].succs > 0 ==> ms[j].succs > 0
  }

  lemma SortedMembersGrouped(ms: seq<Member>)
    requires SortedBy(ms, MemberKey)
    ensures Grouped(ms)
  {
    forall i, j | 0 <= i < j < |ms| && ms[i].succs > 0
      ensures ms[j].succs > 0
    {
      assert LessEq(MemberKey(ms[i]), MemberKey(ms[j]));
      assert MemberKey(ms[i])[0] == '1';
    }
  }

  // ---------------------------------------------------------------------------
  // Width, height, dependency count, representative

  /** The count of `getWidth`'s loop from `m` on. */
  function DepsRun(ms: seq<Member>, m: nat): (r: nat)
    requires 1 <= m
    ensures m <= r && (r <= |ms| || r == m)
    ensures forall i | |ms| - r <= i < |ms| - m :: ms[i].succs > 0
    ensures r < |ms| ==> ms[|ms| - 1 - r].succs == 0
    decreases |ms| - m
  {
    if m < |ms| && ms[|ms| - 1 - m].succs > 0 then DepsRun(ms, m + 1) else m
  }

  /**
   * `membersWithDeps`: one for the last member, whatever its successors,
   * plus the run of members with successors just before it.
   */
  function MembersWithDeps(ms: seq<Member>): (r: nat)
    ensures 1 <= r && (r <= |ms| || r == 1)
    ensures forall i | |ms| - r <= i < |ms| - 1 :: ms[i].succs > 0
    ensures r < |ms| ==> ms[|ms| - 1 - r].succs == 0
  {
    DepsRun(ms, 1)
  }

  /** The loop stops at the first member without successors, counting back from the end. */
  lemma {:induction false} DepsRunLeast(ms: seq<Member>, m: nat, d: nat)
    requires 1 <= m <= d && (d <= |ms| || d == m)
    requires forall i | |ms| - d <= i < |ms| - m :: ms[i].succs > 0
    requires d >= |ms| || ms[|ms| - 1 - d].succs == 0
    ensures DepsRun(ms, m) == d
    decreases d - m
  {
    if m < d {
      DepsRunLeast(ms, m + 1, d);
    }
  }

  /** `math.Floor(math.Sqrt(n))`, as the integer square root. */
  function ISqrt(n: nat): (r: nat)
    ensures r * r <= n < (r + 1) * (r + 1)
  {
    if n == 0 then 0
    else
      var r := ISqrt(n - 1);
      if (r + 1) * (r + 1) <= n then r + 1 else r
  }

  /** The cluster's grid width: the larger of the square root of its size and `membersWithDeps`. */
  function Width(ms: seq<Member>): (w: nat)
    ensures 1 <= w
  {
    var s := ISqrt(|ms|);
    var m := MembersWithDeps(ms);
    if m > s then m else s
  }

  /** A non-empty cluster is at least one and at most its size wide, so `width/2` indexes a member. */
  lemma WidthBounds(ms: seq<Member>)
    requires |ms| >= 1
    ensures 1 <= Width(ms) <= |ms|
  {
    ISqrtAtMost(|ms|);
  }

  lemma ISqrtAtMost(n: nat)
    ensures ISqrt(n) <= n
  {
    var r := ISqrt(n);
    if r >= 1 {
      assert r * r == r + r * (r - 1);
      assert r * (r - 1) >= 0;
    }
  }

  /** The number of members with successors. */
  function CountWithDeps(ms: seq<Member>): (r: nat)
    ensures r <= |ms|
  {
    if ms == [] then 0
    else CountWithDeps(ms[..|ms| - 1]) + (if ms[|ms| - 1].succs > 0 then 1 else 0)
  }

  /** When the members are grouped, the grid is wide enough for all members with successors to share the last row. */
  lemma {:induction false} GroupedWidth(ms: seq<Member>)
    requires Grouped(ms)
    ensures CountWithDeps(ms) <= Width(ms)
    ensures CountWithDeps(ms) >= 1 ==> MembersWithDeps(ms) == CountWithDeps(ms)
  {
    var d := CountWithDeps(ms);
    GroupedCount(ms);
    if d >= 1 {
      DepsRunLeast(ms, 1, d);
    }
  }

  /** Grouped members with successors are exactly the last `CountWithDeps` ones. */
  lemma {:induction false} GroupedCount(ms: seq<Member>)
    requires Grouped(ms)
    ensures forall i | 0 <= i < |ms| :: ms[i].succs > 0 <==> i >= |ms| - CountWithDeps(ms)
  {
    if ms != [] {
      var init := ms[..|ms| - 1];
      assert Grouped(init);
      GroupedCount(init);
      if ms[|ms| - 1].succs == 0 {
        assert forall i | 0 <= i < |init| :: init[i].succs == 0;
      }
    }
  }

  /** `getWidth`'s computation: the loop over trailing members, then the square root. */
  method ComputeWidth(ms: seq<Member>) returns (clusterWidth: int)
    ensures clusterWidth == Width(ms)
  {
    var membersWithDeps := 1;
    while membersWithDeps < |ms| && ms[|ms| - 1 - membersWithDeps].succs > 0
      invariant 1 <= membersWithDeps
      invariant DepsRun(ms, membersWithDeps) == MembersWithDeps(ms)
      decreases |ms| - membersWithDeps
    {
      membersWithDeps := membersWithDeps + 1;
    }
    clusterWidth := ISqrt(|ms|);
    if membersWithDeps > clusterWidth {
      clusterWidth := membersWithDeps;
    }
  }

  /** Rows of the grid: the size divided by the width, rounded up. */
  function Rows(n: nat, w: nat): (r: nat)
    requires w >= 1
    ensures r * w >= n
    ensures r == 0 || (r - 1) * w < n
  {
    var q := n / w;
    assert n == q * w + n % w;
    if n % w != 0 then q + 1 else q
  }

  /** `getHeight`: the rows of the grid, plus one spacing row when there is more than one. */
  function Height(n: nat, w: nat): (h: nat)
    requires w >= 1
    ensures h == 0 <==> n == 0
    ensures h == 1 <==> 0 < n <= w
    ensures h != 2
    ensures h >= 3 ==> (h - 2) * w < n <= (h - 1) * w
  {
    var rows := Rows(n, w);
    if rows > 1 then rows + 1 else rows
  }

  /** `getDepCount`: the successor counts of the trailing members that have successors. */
  function TrailingDeps(ms: seq<Member>): nat
  {
    if ms == [] || ms[|ms| - 1].succs == 0 then 0
    else TrailingDeps(ms[..|ms| - 1]) + ms[|ms| - 1].succs
  }

  function TotalSuccs(ms: seq<Member>): nat
  {
    if ms == [] then 0 else TotalSuccs(ms[..|ms| - 1]) + ms[|ms| - 1].succs
  }

  lemma {:induction false} NoSuccs(ms: seq<Member>)
    requires forall i | 0 <= i < |ms| :: ms[i].succs == 0
    ensures TotalSuccs(ms) == 0
  {
    if ms != [] {
      NoSuccs(ms[..|ms| - 1]);
    }
  }

  /** Once members are grouped, the trailing count is the count over the whole cluster. */
  lemma {:induction false} GroupedDepCount(ms: seq<Member>)
    requires Grouped(ms)
    ensures TrailingDeps(ms) == TotalSuccs(ms)
  {
    if ms != [] {
      var init := ms[..|ms| - 1];
      if ms[|ms| - 1].succs == 0 {
        assert forall i | 0 <= i < |init| :: init[i].succs == 0;
        NoSuccs(init);
      } else {
        assert Grouped(init);
        GroupedDepCount(init);
      }
    }
  }

  /** `getDepCount`'s loop, from the last member back to the first one without successors. */
  method ComputeDepCount(ms: seq<Member>) returns (depCount: int)
    ensures depCount == TrailingDeps(ms)
  {
    depCount := 0;
    var idx := |ms| - 1;
    assert ms[..idx + 1] == ms;
    while idx >= 0
      invariant -1 <= idx < |ms|
      invariant depCount + TrailingDeps(ms[..idx + 1]) == TrailingDeps(ms)
      decreases idx
    {
      assert ms[..idx + 1][..idx] == ms[..idx];
      if ms[idx].succs == 0 {
        break;
      }
      depCount := depCount + ms[idx].succs;
      idx := idx - 1;
    }
  }

  /** `getRepresentative`: the member in the middle of the first row, or `""` for an empty cluster. */
  function Representative(ms: seq<Member>): (r: string)
    ensures |ms| == 0 ==> r == ""
    ensures |ms| > 0 ==> exists i | 0 <= i < |ms| :: ms[i].name == r
  {
    if |ms| == 0 then ""
    else
      WidthBounds(ms);
      ms[Width(ms) / 2].name
  }

  // ---------------------------------------------------------------------------
  // graphCluster

  /** The package-level counter that numbers new clusters. */
  class ClusterIds {
    var last: int

    constructor (last: int)
      ensures this.last == last
    {
      this.last := last;
    }
  }

  class GraphCluster {
    const id: int
    const hash: string
    var members: seq<Member>
    var cachedDepCount: int
    var cachedWidth: int

    /** Each cache is unset (`-1`) or holds the value for the current members. */
    ghost predicate Valid()
      reads this
    {
      && (cachedDepCount == -1 || cachedDepCount == TrailingDeps(members))
      && (cachedWidth == -1 || cachedWidth == Width(members))
    }

    constructor (id: int, hash: string)
      ensures this.id == id && this.hash == hash && members == []
      ensures cachedDepCount == -1 && cachedWidth == -1
    {
      this.id := id;
      this.hash := hash;
      members := [];
      cachedDepCount := -1;
      cachedWidth := -1;
    }

    /** `name()`: multi-member clusters are prefixed with `cluster_`. */
    function Name(): (r: string)
      reads this
      ensures HasSuffix(r, hash)
      ensures r == hash <==> |members| <= 1
    {
      if |members| > 1 then "cluster_" + hash else hash
    }

    /** `getWidth`: computed once, then served from the cache. */
    method GetWidth() returns (w: int)
      requires Valid()
      modifies this
      ensures Valid() && w == Width(members) && cachedWidth == w
      ensures members == old(members) && cachedDepCount == old(cachedDepCount)
    {
      if cachedWidth >= 0 {
        return cachedWidth;
      }
      w := ComputeWidth(members);
      cachedWidth := w;
    }

    /** `getDepCount`: computed once, then served from the cache. */
    method GetDepCount() returns (n: int)
      requires Valid()
      modifies this
      ensures Valid() && n == TrailingDeps(members) && cachedDepCount == n
      ensures members == old(members) && cachedWidth == old(cachedWidth)
    {
      if cachedDepCount >= 0 {
        return cachedDepCount;
      }
      n := ComputeDepCount(members);
      cachedDepCount := n;
    }

    /** `getHeight`. */
    method GetHeight() returns (h: int)
      requires Valid()
      modifies this
      ensures Valid() && h == Height(|members|, Width(members)) && cachedWidth == Width(members)
      ensures members == old(members) && cachedDepCount == old(cachedDepCount)
    {
      var width := GetWidth();
      h := |members| / width;
      if |members| % width != 0 {
        h := h + 1;
      }
      if h > 1 {
        h := h + 1;
      }
    }

    /** `getRepresentative`. */
    method GetRepresentative() returns (r: string)
      requires Valid()
      modifies this
      ensures Valid() && r == Representative(members)
      ensures members == old(members) && cachedDepCount == old(cachedDepCount)
      ensures cachedWidth == old(cachedWidth) || cachedWidth == Width(members)
    {
      if |members| == 0 {
        return "";
      }
      var width := GetWidth();
      WidthBounds(members);
      r := members[width / 2].name;
    }

    /** `cluster.members = append(cluster.members, node)`. */
    method AddMember(m: Member)
      modifies this
      ensures members == old(members) + [m]
      ensures cachedDepCount == old(cachedDepCount) && cachedWidth == old(cachedWidth)
    {
      members := members + [m];
    }

    /** The member sort: nodes without successors first, then by name. */
    method SortMembers()
      modifies this
      ensures members == SortBy(old(members), MemberKey)
      ensures cachedDepCount == old(cachedDepCount) && cachedWidth == old(cachedWidth)
    {
      members := SortBy(members, MemberKey);
    }
  }

  /** `newGraphCluster`: the next id from the counter, and unset caches. */
  method NewGraphCluster(hash: string, ids: ClusterIds) returns (c: GraphCluster)
    modifies ids
    ensures fresh(c) && ids.last == old(ids.last) + 1 && c.id == ids.last && c.hash == hash
    ensures c.members == [] && c.cachedDepCount == -1 && c.cachedWidth == -1
  {
    ids.last := ids.last + 1;
    c := new GraphCluster(ids.last, hash);
  }

  // ---------------------------------------------------------------------------
  // graphClusters
  //
  // The grouping is stated for any function from node to hash; the
  // clusters use `HashOf(gen, style)`.

  /** The cluster hash of each node, as a function. */
  function HashOf(gen: Generation, style: Option<Options>): Member -> string
  {
    m => ClusterHash(gen, style, m)
  }


  /** The nodes whose cluster hash is `h`, in the order of the level's list. */
  function Filter(hashOf: Member -> string, nodes: seq<Member>, h: string): seq<Member>
  {
    if nodes == [] then []
    else
      var last := nodes[|nodes| - 1];
      Filter(hashOf, nodes[..|nodes| - 1], h) + (if hashOf(last) == h then [last] else [])
  }

  /** A node is among those with hash `h` exactly when it is a node with that hash. */
  lemma {:induction false} FilterMembers(hashOf: Member -> string, nodes: seq<Member>, h: string)
    ensures forall m :: m in Filter(hashOf, nodes, h) <==> m in nodes && hashOf(m) == h
    decreases |nodes|
  {
    if nodes != [] {
      var init := nodes[..|nodes| - 1];
      FilterMembers(hashOf, init, h);
      assert nodes == init + [nodes[|nodes| - 1]];
    }
  }

  /** The cluster hashes of a list of nodes. */
  function Hashes(hashOf: Member -> string, nodes: seq<Member>): set<string>
  {
    set m | m in nodes :: hashOf(m)
  }

  function Keys(nodes: seq<Member>): set<string>
  {
    set m | m in nodes :: m.key
  }

  /** The nodes of a level have distinct keys (hashes in the internal graph, names in the lib graph). */
  predicate DistinctKeys(nodes: seq<Member>)
  {
    forall i, j | 0 <= i < j < |nodes| :: nodes[i].key != nodes[j].key
  }

  lemma HashesAppend(hashOf: Member -> string, nodes: seq<Member>, node: Member)
    ensures Hashes(hashOf, nodes + [node]) == Hashes(hashOf, nodes) + {hashOf(node)}
  {
  }

  lemma PrefixStep<T>(s: seq<T>, i: int)
    requires 0 <= i < |s|
    ensures s[..i + 1] == s[..i] + [s[i]]
  {
  }

  lemma KeysStep(nodes: seq<Member>, i: int)
    requires 0 <= i < |nodes|
    ensures Keys(nodes[..i + 1]) == Keys(nodes[..i]) + {nodes[i].key}
  {
    assert nodes[..i + 1] == nodes[..i] + [nodes[i]];
  }

  /** A sequence in which nothing occurs twice holds no value at two positions. */
  lemma NoRepeats<T>(s: seq<T>, i: int, j: int)
    requires 0 <= i < j < |s| && forall x | x in s :: multiset(s)[x] <= 1
    ensures s[i] != s[j]
  {
    assert multiset{s[i], s[j]} <= multiset(s) by {
      assert s == s[..i] + [s[i]] + s[i + 1..j] + [s[j]] + s[j + 1..];
    }
  }

  /**
   * Sorting clusters that a map from hash to cluster identifies, none
   * listed twice, orders them strictly by hash.
   */
  lemma SortedClustersStrict(r: seq<GraphCluster>, list: seq<GraphCluster>, byHash: map<string, GraphCluster>)
    requires multiset(r) == multiset(list) && SortedBy(r, (c: GraphCluster) => c.hash)
    requires forall c | c in list :: multiset(list)[c] <= 1
    requires forall c | c in list :: c.hash in byHash && byHash[c.hash] == c
    ensures forall i, j | 0 <= i < j < |r| :: Less(r[i].hash, r[j].hash)
  {
    forall i, j | 0 <= i < j < |r|
      ensures Less(r[i].hash, r[j].hash)
    {
      NoRepeats(r, i, j);
      assert r[i] in multiset(list) && r[j] in multiset(list);
    }
  }

  class GraphClusters {
    var clusterMap: map<string, GraphCluster>
    var clusterList: seq<GraphCluster>
    var cachedDepthMaps: map<string, map<string, int>>

    constructor (clusterMap: map<string, GraphCluster>, clusterList: seq<GraphCluster>)
      ensures this.clusterMap == clusterMap && this.clusterList == clusterList && cachedDepthMaps == map[]
    {
      this.clusterMap := clusterMap;
      this.clusterList := clusterList;
      cachedDepthMaps := map[];
    }

    /** Every cached depth map is the one the traversal computes for its node. */
    ghost predicate DepthMapsCached(depthMap: string -> map<string, int>)
      reads this
    {
      forall k | k in cachedDepthMaps :: cachedDepthMaps[k] == depthMap(k)
    }

    /**
     * `clusterDepthMap` / `getClusterDepthMap`: the traversal's depth map
     * for a node, computed on the first request and served from the cache
     * afterwards. The traversal itself is the parameter `depthMap`.
     */
    method ClusterDepthMap(key: string, depthMap: string -> map<string, int>) returns (m: map<string, int>)
      requires DepthMapsCached(depthMap)
      modifies this
      ensures DepthMapsCached(depthMap) && m == depthMap(key)
      ensures cachedDepthMaps == old(cachedDepthMaps)[key := m]
      ensures clusterMap == old(clusterMap) && clusterList == old(clusterList)
    {
      if key in cachedDepthMaps {
        return cachedDepthMaps[key];
      }
      m := depthMap(key);
      cachedDepthMaps := cachedDepthMaps[key := m];
    }
  }

  /**
   * Each cluster of `byHash` is filed under its own hash, holds the nodes
   * of `nodes` with that hash in order, and has not cached anything yet.
   */
  ghost predicate Grouping(byHash: map<string, GraphCluster>, hashOf: Member -> string, nodes: seq<Member>)
    reads byHash.Values
  {
    forall h | h in byHash ::
      && byHash[h].hash == h
      && byHash[h].members == Filter(hashOf, nodes, h)
      && byHash[h].cachedDepCount == -1 && byHash[h].cachedWidth == -1
  }

  lemma HeadIn<T>(s: seq<T>)
    ensures s == [] || s[0] in s
  {
  }

  lemma FilterNone(hashOf: Member -> string, nodes: seq<Member>, h: string)
    requires h !in Hashes(hashOf, nodes)
    ensures Filter(hashOf, nodes, h) == []
  {
    HeadIn(Filter(hashOf, nodes, h));
  }

  /** A new, empty cluster for a hash that no node has yet keeps the grouping. */
  lemma GroupingNew(byHash: map<string, GraphCluster>, hashOf: Member -> string, nodes: seq<Member>, c: GraphCluster)
    requires Grouping(byHash, hashOf, nodes) && byHash.Keys == Hashes(hashOf, nodes)
    requires c.hash !in byHash && c.members == [] && c.cachedDepCount == -1 && c.cachedWidth == -1
    ensures Grouping(byHash[c.hash := c], hashOf, nodes)
  {
    FilterNone(hashOf, nodes, c.hash);
  }

  /** The clusters in creation order carry the counter's next ids. */
  predicate Numbered(list: seq<GraphCluster>, start: int)
  {
    forall k | 0 <= k < |list| :: list[k].id == start + k + 1
  }

  /** The cluster list and the map by hash hold the same clusters. */
  ghost predicate Indexed(list: seq<GraphCluster>, byHash: map<string, GraphCluster>)
  {
    && (forall c | c in list :: c.hash in byHash && byHash[c.hash] == c)
    && (forall h | h in byHash :: byHash[h] in list)
  }

  /** The cluster map sends the key of node `k` to the cluster of its hash. */
  predicate PointsAt(clusterMap: map<string, GraphCluster>, byHash: map<string, GraphCluster>,
                     hashOf: Member -> string, nodes: seq<Member>, k: int)
    requires 0 <= k < |nodes|
  {
    && hashOf(nodes[k]) in byHash && nodes[k].key in clusterMap
    && clusterMap[nodes[k].key] == byHash[hashOf(nodes[k])]
  }

  /** The cluster map sends the key of each of the first `i` nodes to the cluster of its hash. */
  predicate MapPoints(clusterMap: map<string, GraphCluster>, byHash: map<string, GraphCluster>,
                      hashOf: Member -> string, nodes: seq<Member>, i: int)
    requires 0 <= i <= |nodes|
  {
    && clusterMap.Keys == Keys(nodes[..i])
    && forall k | 0 <= k < i :: PointsAt(clusterMap, byHash, hashOf, nodes, k)
  }

  lemma NumberedStep(list: seq<GraphCluster>, start: int, c: GraphCluster)
    requires Numbered(list, start) && c.id == start + |list| + 1
    ensures Numbered(list + [c], start) && c !in list
  {
    assert forall k | 0 <= k < |list| :: list[k].id < c.id;
  }

  lemma IndexedStep(list: seq<GraphCluster>, byHash: map<string, GraphCluster>, c: GraphCluster)
    requires Indexed(list, byHash) && c.hash !in byHash
    ensures Indexed(list + [c], byHash[c.hash := c])
  {
  }

  /** Clusters numbered in creation order are listed once each. */
  lemma {:induction false} NumberedDistinct(list: seq<GraphCluster>, start: int)
    requires Numbered(list, start)
    ensures forall c | c in list :: multiset(list)[c] <= 1
    decreases |list|
  {
    if list != [] {
      var init, last := list[..|list| - 1], list[|list| - 1];
      assert list == init + [last];
      assert Numbered(init, start);
      NumberedDistinct(init, start);
      forall k | 0 <= k < |init|
        ensures init[k] != last
      {
        assert init[k].id == list[k].id < last.id;
      }
      assert multiset(list) == multiset(init) + multiset{last};
    }
  }

  lemma MapPointsStep(clusterMap: map<string, GraphCluster>, byHash: map<string, GraphCluster>, byHash2: map<string, GraphCluster>,
                      hashOf: Member -> string, nodes: seq<Member>, i: int)
    requires 0 <= i < |nodes| && DistinctKeys(nodes) && MapPoints(clusterMap, byHash, hashOf, nodes, i)
    requires forall h | h in byHash :: h in byHash2 && byHash2[h] == byHash[h]
    requires hashOf(nodes[i]) in byHash2
    ensures MapPoints(clusterMap[nodes[i].key := byHash2[hashOf(nodes[i])]], byHash2, hashOf, nodes, i + 1)
  {
    KeysStep(nodes, i);
    var m := clusterMap[nodes[i].key := byHash2[hashOf(nodes[i])]];
    forall k | 0 <= k < i + 1
      ensures PointsAt(m, byHash2, hashOf, nodes, k)
    {
      if k < i {
        assert PointsAt(clusterMap, byHash, hashOf, nodes, k);
        assert nodes[k].key != nodes[i].key;
      }
    }
  }

  /**
   * The state of the first loop of `computeGraphClusters` after the nodes
   * `done`: the clusters so far, numbered from `start`, listed once each
   * and filed by hash, one for each hash of `done`, holding its nodes.
   */
  ghost predicate Placed(hashOf: Member -> string, done: seq<Member>,
                         list: seq<GraphCluster>, byHash: map<string, GraphCluster>, start: int)
    reads byHash.Values
  {
    && Numbered(list, start) && Indexed(list, byHash)
    && byHash.Keys == Hashes(hashOf, done)
    && Grouping(byHash, hashOf, done)
  }

  /** Appending the next node to the cluster of its hash extends the loop's state by that node. */
  method AddToCluster(byHash: map<string, GraphCluster>, ghost hashOf: Member -> string, ghost done: seq<Member>,
                      node: Member, clusterHash: string, ghost list: seq<GraphCluster>, ghost start: int)
    requires Grouping(byHash, hashOf, done) && clusterHash == hashOf(node) && clusterHash in byHash
    requires Numbered(list, start) && Indexed(list, byHash) && byHash.Keys == Hashes(hashOf, done) + {clusterHash}
    modifies byHash[clusterHash]
    ensures Placed(hashOf, done + [node], list, byHash, start)
  {
    assert (done + [node])[..|done|] == done;
    HashesAppend(hashOf, done, node);
    byHash[clusterHash].AddMember(node);
  }

  /** A new cluster, numbered from the counter, for a hash that no cluster has yet. */
  method OpenCluster(ghost hashOf: Member -> string, ghost done: seq<Member>, clusterHash: string, ids: ClusterIds,
                     clusterList: seq<GraphCluster>, hashToCluster: map<string, GraphCluster>, ghost startId: int)
    returns (cluster: GraphCluster, newList: seq<GraphCluster>, newByHash: map<string, GraphCluster>)
    requires ids.last == startId + |clusterList| && clusterHash !in hashToCluster
    requires Placed(hashOf, done, clusterList, hashToCluster, startId)
    modifies ids
    ensures fresh(cluster) && cluster.hash == clusterHash
    ensures ids.last == startId + |newList|
    ensures newList == clusterList + [cluster] && newByHash == hashToCluster[clusterHash := cluster]
    ensures Numbered(newList, startId) && Indexed(newList, newByHash)
    ensures Grouping(newByHash, hashOf, done)
  {
    cluster := NewGraphCluster(clusterHash, ids);
    NumberedStep(clusterList, startId, cluster);
    IndexedStep(clusterList, hashToCluster, cluster);
    GroupingNew(hashToCluster, hashOf, done, cluster);
    newByHash := hashToCluster[clusterHash := cluster];
    newList := clusterList + [cluster];
  }

  /**
   * One iteration of the first loop of `computeGraphClusters`: after the
   * nodes `done`, the node `node` goes to the cluster of its hash, which is
   * created on the hash's first use.
   */
  method PlaceNode(ghost hashOf: Member -> string, ghost done: seq<Member>, node: Member, clusterHash: string, ids: ClusterIds,
                   clusterList: seq<GraphCluster>, hashToCluster: map<string, GraphCluster>, ghost startId: int)
    returns (cluster: GraphCluster, newList: seq<GraphCluster>, newByHash: map<string, GraphCluster>)
    requires clusterHash == hashOf(node)
    requires ids.last == startId + |clusterList|
    requires Placed(hashOf, done, clusterList, hashToCluster, startId)
    modifies ids, hashToCluster.Values
    ensures ids.last == startId + |newList|
    ensures newList == clusterList || (newList == clusterList + [cluster] && fresh(cluster))
    ensures Placed(hashOf, done + [node], newList, newByHash, startId)
    ensures forall h | h in hashToCluster :: h in newByHash && newByHash[h] == hashToCluster[h]
    ensures clusterHash in newByHash && newByHash[clusterHash] == cluster
  {
    newList, newByHash := clusterList, hashToCluster;
    if clusterHash in hashToCluster {
      cluster := hashToCluster[clusterHash];
    } else {
      cluster, newList, newByHash := OpenCluster(hashOf, done, clusterHash, ids, clusterList, hashToCluster, startId);
    }
    AddToCluster(newByHash, hashOf, done, node, clusterHash, newList, startId);
  }

  /**
   * The first loop of `computeGraphClusters`: each node goes to the
   * cluster of its hash, a new one (numbered from the counter) on the
   * hash's first use, and the cluster map records it under the node's key.
   * The hash function is `computeClusterHash`, passed in as `hashOf`.
   */
  method GroupNodes(hashOf: Member -> string, nodes: seq<Member>, ids: ClusterIds)
    returns (clusterMap: map<string, GraphCluster>, clusterList: seq<GraphCluster>, hashToCluster: map<string, GraphCluster>)
    requires DistinctKeys(nodes)
    modifies ids
    ensures ids.last == old(ids.last) + |clusterList|
    ensures forall c | c in clusterList :: fresh(c)
    ensures Placed(hashOf, nodes, clusterList, hashToCluster, old(ids.last))
    ensures MapPoints(clusterMap, hashToCluster, hashOf, nodes, |nodes|)
  {
    clusterMap, clusterList, hashToCluster := map[], [], map[];
    ghost var startId := ids.last;
    for i := 0 to |nodes|
      invariant ids.last == startId + |clusterList|
      invariant forall c | c in clusterList :: fresh(c)
      invariant Placed(hashOf, nodes[..i], clusterList, hashToCluster, startId)
      invariant MapPoints(clusterMap, hashToCluster, hashOf, nodes, i)
    {
      PrefixStep(nodes, i);
      var clusterHash := hashOf(nodes[i]);
      var cluster, newList, newByHash := PlaceNode(hashOf, nodes[..i], nodes[i], clusterHash, ids, clusterList, hashToCluster, startId);
      MapPointsStep(clusterMap, hashToCluster, newByHash, hashOf, nodes, i);
      clusterMap := clusterMap[nodes[i].key := cluster];
      clusterList, hashToCluster := newList, newByHash;
    }
    assert nodes[..|nodes|] == nodes;
  }

  /**
   * The clusters of `byHash` after their members are sorted: each filed
   * under its own hash, holding the nodes of `nodes` with that hash in
   * `MemberKey` order, with nothing cached yet.
   */
  ghost predicate SortedGrouping(byHash: map<string, GraphCluster>, hashOf: Member -> string, nodes: seq<Member>)
    reads byHash.Values
  {
    forall h | h in byHash ::
      && byHash[h].hash == h
      && byHash[h].members == SortBy(Filter(hashOf, nodes, h), MemberKey)
      && byHash[h].cachedDepCount == -1 && byHash[h].cachedWidth == -1
  }

  /** Cluster `c` is filed under `h` and holds the nodes of that hash, sorted once `sorted` holds, with nothing cached. */
  ghost predicate GroupHeld(c: GraphCluster, h: string, hashOf: Member -> string, nodes: seq<Member>, sorted: bool)
    reads c
  {
    && c.hash == h && c.cachedDepCount == -1 && c.cachedWidth == -1
    && c.members == if sorted then SortBy(Filter(hashOf, nodes, h), MemberKey) else Filter(hashOf, nodes, h)
  }

  /** The second loop of `computeGraphClusters`: every cluster's members are sorted, in map order. */
  method SortClusterMembers(hashToCluster: map<string, GraphCluster>, ghost hashOf: Member -> string, ghost nodes: seq<Member>)
    requires Grouping(hashToCluster, hashOf, nodes)
    modifies hashToCluster.Values
    ensures SortedGrouping(hashToCluster, hashOf, nodes)
  {
    var todo := hashToCluster.Keys;
    while todo != {}
      invariant todo <= hashToCluster.Keys
      invariant forall h | h in hashToCluster :: GroupHeld(hashToCluster[h], h, hashOf, nodes, h !in todo)
      decreases |todo|
    {
      var h :| h in todo;
      hashToCluster[h].SortMembers();
      todo := todo - {h};
    }
  }

  /** The clusters of a finished grouping, in any order, carry the ids the counter handed out, each once. */
  lemma ClusterIdsFresh(r: seq<GraphCluster>, list: seq<GraphCluster>, start: int)
    requires multiset(r) == multiset(list) && Numbered(list, start)
    ensures forall c | c in r :: start < c.id <= start + |list|
    ensures forall c1, c2 | c1 in r && c2 in r && c1 != c2 :: c1.id != c2.id
  {
    forall c | c in r
      ensures start < c.id <= start + |list|
    {
      assert c in multiset(list);
      var k :| 0 <= k < |list| && list[k] == c;
    }
    forall c1, c2 | c1 in r && c2 in r && c1 != c2
      ensures c1.id != c2.id
    {
      assert c1 in multiset(list) && c2 in multiset(list);
      var a :| 0 <= a < |list| && list[a] == c1;
      var b :| 0 <= b < |list| && list[b] == c2;
    }
  }

  /** The clusters of a finished grouping, in any order, are exactly those filed under the hashes of the nodes. */
  lemma ClusterHashesCovered(r: seq<GraphCluster>, list: seq<GraphCluster>, byHash: map<string, GraphCluster>,
                             hashOf: Member -> string, nodes: seq<Member>)
    requires multiset(r) == multiset(list) && Indexed(list, byHash) && byHash.Keys == Hashes(hashOf, nodes)
    requires forall h | h in byHash :: byHash[h].hash == h
    ensures forall c | c in r :: c in list && c.hash in byHash && byHash[c.hash] == c
    ensures (set c | c in r :: c.hash) == Hashes(hashOf, nodes)
  {
    forall c | c in r
      ensures c in list && c.hash in byHash && byHash[c.hash] == c
    {
      assert c in multiset(list);
    }
    forall h | h in byHash
      ensures h in (set c | c in r :: c.hash)
    {
      assert byHash[h] in multiset(r);
    }
  }

  /** The cluster map of a finished grouping sends each node's key to the one cluster of its hash. */
  lemma ClusterMapExact(r: seq<GraphCluster>, byHash: map<string, GraphCluster>, clusterMap: map<string, GraphCluster>,
                        hashOf: Member -> string, nodes: seq<Member>)
    requires forall c | c in r :: c.hash in byHash && byHash[c.hash] == c
    requires forall h | h in byHash :: byHash[h] in r && byHash[h].hash == h
    requires MapPoints(clusterMap, byHash, hashOf, nodes, |nodes|)
    ensures clusterMap.Keys == Keys(nodes)
    ensures forall m | m in nodes :: m.key in clusterMap && clusterMap[m.key] in r && clusterMap[m.key].hash == hashOf(m)
    ensures forall c, m | c in r && m in nodes :: c.hash == hashOf(m) <==> c == clusterMap[m.key]
  {
    assert nodes[..|nodes|] == nodes;
    forall m | m in nodes
      ensures m.key in clusterMap && hashOf(m) in byHash && clusterMap[m.key] == byHash[hashOf(m)]
    {
      var k :| 0 <= k < |nodes| && nodes[k] == m;
      assert PointsAt(clusterMap, byHash, hashOf, nodes, k);
    }
  }

  /** A cluster's sorted members are the nodes of its hash. */
  lemma SortedFilterMembers(hashOf: Member -> string, nodes: seq<Member>, h: string)
    ensures forall m :: m in SortBy(Filter(hashOf, nodes, h), MemberKey) <==> m in nodes && hashOf(m) == h
  {
    FilterMembers(hashOf, nodes, h);
    var f := Filter(hashOf, nodes, h);
    assert multiset(SortBy(f, MemberKey)) == multiset(f);
    forall m
      ensures m in SortBy(f, MemberKey) <==> m in f
    {
      assert m in SortBy(f, MemberKey) <==> m in multiset(SortBy(f, MemberKey));
    }
  }

  /** The clusters of a finished, sorted grouping, in any order, hold the sorted nodes of their hash and nothing cached. */
  lemma SortedClusters(r: seq<GraphCluster>, byHash: map<string, GraphCluster>, hashOf: Member -> string, nodes: seq<Member>)
    requires SortedGrouping(byHash, hashOf, nodes)
    requires forall c | c in r :: c.hash in byHash && byHash[c.hash] == c
    ensures forall c | c in r :: c.cachedDepCount == -1 && c.cachedWidth == -1
    ensures forall c | c in r :: c.members == SortBy(Filter(hashOf, nodes, c.hash), MemberKey)
  {
  }

  /** A node is a member of exactly the cluster the cluster map gives for its key. */
  lemma MembersExact(r: seq<GraphCluster>, clusterMap: map<string, GraphCluster>, hashOf: Member -> string, nodes: seq<Member>)
    requires forall c | c in r :: c.members == SortBy(Filter(hashOf, nodes, c.hash), MemberKey)
    requires forall m | m in nodes :: m.key in clusterMap
    requires forall c, m | c in r && m in nodes :: c.hash == hashOf(m) <==> c == clusterMap[m.key]
    ensures forall c, m | c in r && m in nodes :: m in c.members <==> c == clusterMap[m.key]
  {
    forall c | c in r
      ensures forall m | m in nodes :: m in c.members <==> c == clusterMap[m.key]
    {
      SortedFilterMembers(hashOf, nodes, c.hash);
    }
  }

  /**
   * The clusters of a level as `computeGraphClusters` leaves them: the
   * cluster map sends each node's key to the one cluster that holds the
   * node, which is the cluster of its hash; the list is strictly ordered by
   * hash and has one cluster per hash of the nodes; each cluster holds the
   * nodes of its hash in `MemberKey` order and has nothing cached yet.
   */
  ghost predicate ClusteredLevel(r: seq<GraphCluster>, clusterMap: map<string, GraphCluster>, hashOf: Member -> string, nodes: seq<Member>)
    reads set c | c in r
  {
    && clusterMap.Keys == Keys(nodes)
    && (forall m | m in nodes :: m.key in clusterMap && clusterMap[m.key] in r && clusterMap[m.key].hash == hashOf(m))
    && (forall c, m | c in r && m in nodes && m.key in clusterMap :: m in c.members <==> c == clusterMap[m.key])
    && (forall i, j | 0 <= i < j < |r| :: Less(r[i].hash, r[j].hash))
    && (set c | c in r :: c.hash) == Hashes(hashOf, nodes)
    && (forall c | c in r :: c.members == SortBy(Filter(hashOf, nodes, c.hash), MemberKey))
    && (forall c | c in r :: c.cachedDepCount == -1 && c.cachedWidth == -1)
  }

  /** The clusters of a finished grouping, sorted by hash, are the level's clusters and carry the counter's ids. */
  lemma FinishedClusters(r: seq<GraphCluster>, list: seq<GraphCluster>, byHash: map<string, GraphCluster>,
                         clusterMap: map<string, GraphCluster>, hashOf: Member -> string, nodes: seq<Member>, start: int)
    requires multiset(r) == multiset(list) && SortedBy(r, (c: GraphCluster) => c.hash)
    requires Numbered(list, start) && Indexed(list, byHash) && byHash.Keys == Hashes(hashOf, nodes)
    requires SortedGrouping(byHash, hashOf, nodes)
    requires MapPoints(clusterMap, byHash, hashOf, nodes, |nodes|)
    ensures ClusteredLevel(r, clusterMap, hashOf, nodes)
    ensures forall c | c in r :: c in list && start < c.id <= start + |list|
    ensures forall c1, c2 | c1 in r && c2 in r && c1 != c2 :: c1.id != c2.id
  {
    NumberedDistinct(list, start);
    SortedClustersStrict(r, list, byHash);
    ClusterIdsFresh(r, list, start);
    ClusterHashesCovered(r, list, byHash, hashOf, nodes);
    ClusterMapExact(r, byHash, clusterMap, hashOf, nodes);
    SortedClusters(r, byHash, hashOf, nodes);
    MembersExact(r, clusterMap, hashOf, nodes);
  }

  /**
   * `computeGraphClusters`: every node of the level goes to the cluster of
   * its hash, created on first use; then each cluster's members are sorted
   * and the cluster list is sorted by hash.
   */
  method ComputeGraphClusters(gen: Generation, style: Option<Options>, nodes: seq<Member>, ids: ClusterIds)
    returns (gc: GraphClusters)
    requires DistinctKeys(nodes)
    modifies ids
    ensures fresh(gc) && gc.cachedDepthMaps == map[]
    ensures ClusteredLevel(gc.clusterList, gc.clusterMap, HashOf(gen, style), nodes)
    ensures forall c | c in gc.clusterList :: fresh(c)
    ensures ids.last == old(ids.last) + |gc.clusterList|
    ensures forall c | c in gc.clusterList :: old(ids.last) < c.id <= ids.last
    ensures forall c1, c2 | c1 in gc.clusterList && c2 in gc.clusterList && c1 != c2 :: c1.id != c2.id
  {
    var hashOf := HashOf(gen, style);
    var clusterMap, clusterList, hashToCluster := GroupNodes(hashOf, nodes, ids);
    SortClusterMembers(hashToCluster, hashOf, nodes);
    var sorted := SortBy(clusterList, (c: GraphCluster) => c.hash);
    gc := new GraphClusters(clusterMap, sorted);
    FinishedClusters(sorted, clusterList, hashToCluster, clusterMap, hashOf, nodes, old(ids.last));
    assert |sorted| == |clusterList| by {
      assert |multiset(sorted)| == |multiset(clusterList)|;
    }
  }
}
