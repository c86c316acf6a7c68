/**
 * The replace report of lib/reveal/replacements.go: the replacements that
 * the go.mod files of dependencies declare, grouped by the module they
 * replace, the two filters on them and the text report.
 *
 * Reading and scanning go.mod files is not part of this model: the
 * aggregation takes the replacements each file declares as its input.
 */
module Reveal {
  import opened Util

  /** A `replace` found in the go.mod file of the module at path `offender`. */
  datatype Replacement = Replacement(offender: string, original: string, override: string, version: string)

  /**
   * `Replacements`: the main module, its own replaces (original to
   * override), the replaced modules and, for each, the replacements of it.
   */
  datatype Replacements = Replacements(
    main: string,
    topLevel: map<string, string>,
    replacedModules: seq<string>,
    originToReplace: map<string, seq<Replacement>>)

  function OffenderOf(x: Replacement): string
  {
    x.offender
  }

  /** `r.originToReplace[origin]`, where a missing entry reads as an empty list. */
  function ReplacesOf(r: Replacements, origin: string): seq<Replacement>
  {
    if origin in r.originToReplace then r.originToReplace[origin] else []
  }

  predicate Distinct(s: seq<string>)
  {
    forall i, j | 0 <= i < j < |s| :: s[i] != s[j]
  }

  predicate StrictlySorted(s: seq<string>)
  {
    forall i, j | 0 <= i < j < |s| :: Less(s[i], s[j])
  }

  /** The offender paths of a list of replacements strictly increase. */
  predicate OffendersIncreasing(reps: seq<Replacement>)
  {
    forall i, j | 0 <= i < j < |reps| :: Less(reps[i].offender, reps[j].offender)
  }

  /**
   * What `FindReplacements` establishes and the filters keep: the replaced
   * modules are sorted and are exactly the keys of `originToReplace`; each
   * has a non-empty list of replacements of it, sorted by offender path.
   */
  ghost predicate WellFormed(r: Replacements)
  {
    && StringsSorted(r.replacedModules)
    && (forall o :: o in r.originToReplace <==> o in r.replacedModules)
    && (forall o | o in r.originToReplace :: r.originToReplace[o] != [] && SortedBy(r.originToReplace[o], OffenderOf))
    && (forall o, x | o in r.originToReplace && x in r.originToReplace[o] :: x.original == o)
  }

  // ---------------------------------------------------------------------------
  // Sorting the caller's slice in place.

  /** `sort.Strings` on the caller's slice. */
  method SortInPlace(a: array<string>)
    modifies a
    ensures a[..] == SortStrings(old(a[..]))
  {
    var s := SortStrings(a[..]);
    SameLength(s, a[..]);
    for i := 0 to a.Length
      invariant forall j | 0 <= j < i :: a[j] == s[j]
    {
      a[i] := s[i];
    }
    assert a[..] == s;
  }

  lemma SameLength(s: seq<string>, t: seq<string>)
    requires multiset(s) == multiset(t)
    ensures |s| == |t|
  {
    assert |s| == |multiset(s)|;
  }

  // ---------------------------------------------------------------------------
  // FilterOnOffendingModule.

  /**
   * The two-index loop of `FilterOnOffendingModule`, as written: it keeps a
   * replacement when its offender path equals the current offender and
   * then advances both indexes, and otherwise advances the smaller side.
   */
  function Merge(reps: seq<Replacement>, offs: seq<string>): (r: seq<Replacement>)
    ensures forall x | x in r :: x in reps && x.offender in offs
    decreases |reps| + |offs|
  {
    if reps == [] || offs == [] then []
    else if reps[0].offender == offs[0] then [reps[0]] + Merge(reps[1..], offs[1..])
    else if Less(reps[0].offender, offs[0]) then Merge(reps[1..], offs)
    else Merge(reps, offs[1..])
  }

  /** The replacements, in order, whose offender is one of `offs`: what the filter means. */
  function Kept(reps: seq<Replacement>, offs: seq<string>): (r: seq<Replacement>)
    ensures forall x :: x in r <==> x in reps && x.offender in offs
  {
    if reps == [] then []
    else (if reps[0].offender in offs then [reps[0]] else []) + Kept(reps[1..], offs)
  }

  lemma {:induction false} KeptSame(reps: seq<Replacement>, offs1: seq<string>, offs2: seq<string>)
    requires forall x | x in reps :: x.offender in offs1 <==> x.offender in offs2
    ensures Kept(reps, offs1) == Kept(reps, offs2)
  {
    if reps != [] {
      KeptSame(reps[1..], offs1, offs2);
    }
  }

  lemma {:induction false} KeptNone(reps: seq<Replacement>)
    ensures Kept(reps, []) == []
  {
    if reps != [] {
      KeptNone(reps[1..]);
    }
  }

  /** On replacements with strictly increasing offender paths and sorted offenders, the merge is the filter. */
  lemma {:induction false} MergeKeeps(reps: seq<Replacement>, offs: seq<string>)
    requires OffendersIncreasing(reps) && StringsSorted(offs)
    ensures Merge(reps, offs) == Kept(reps, offs)
    decreases |reps| + |offs|
  {
    if reps == [] {
    } else if offs == [] {
      KeptNone(reps);
    } else {
      var r0, o0 := reps[0].offender, offs[0];
      if r0 == o0 {
        MergeKeeps(reps[1..], offs[1..]);
        forall x | x in reps[1..]
          ensures x.offender in offs <==> x.offender in offs[1..]
        {
          var k :| 0 <= k < |reps[1..]| && reps[1..][k] == x;
          assert Less(r0, reps[k + 1].offender);
          LessIrreflexive(r0);
          assert offs == [o0] + offs[1..];
        }
        KeptSame(reps[1..], offs, offs[1..]);
      } else if Less(r0, o0) {
        MergeKeeps(reps[1..], offs);
        forall j | 0 <= j < |offs|
          ensures offs[j] != r0
        {
          if j > 0 {
            assert LessEq(o0, offs[j]);
            if Less(o0, offs[j]) {
              LessTransitive(r0, o0, offs[j]);
            }
          }
          LessIrreflexive(r0);
        }
      } else {
        LessTotal(r0, o0);
        MergeKeeps(reps, offs[1..]);
        forall x | x in reps
          ensures x.offender in offs <==> x.offender in offs[1..]
        {
          var k :| 0 <= k < |reps| && reps[k] == x;
          if k > 0 {
            assert Less(r0, x.offender);
            LessTransitive(o0, r0, x.offender);
          }
          LessIrreflexive(o0);
          assert offs == [o0] + offs[1..];
        }
        KeptSame(reps, offs, offs[1..]);
      }
    }
  }

  /**
   * Out of order, the merge misses replacements: with offenders `[a, b]`
   * and replacements by `b` then by `a`, only the one by `b` is kept.
   */
  lemma MergeNeedsOrder(a: string, b: string, x: Replacement, y: Replacement)
    requires Less(a, b) && x.offender == b && y.offender == a
    ensures Merge([x, y], [a, b]) == [x]
    ensures Kept([x, y], [a, b]) == [x, y]
  {
    LessAsymmetric(a, b);
    LessIrreflexive(a);
    assert a != b;
    assert [x, y][1..] == [y] && [a, b][1..] == [b] && [y][1..] == [] && [b][1..] == [];
    assert Merge([x, y], [a, b]) == Merge([x, y], [b]);
    assert Merge([x, y], [b]) == [x] + Merge([y], []);
    assert Kept([y], [a, b]) == [y] + Kept([], [a, b]);
    assert Kept([x, y], [a, b]) == [x] + Kept([y], [a, b]);
  }

  /**
   * Each replacement, in order, paired with one still unused listing of its
   * offender in `offs`: an offender listed `k` times keeps the first `k`
   * replacements by it.
   */
  function Paired(reps: seq<Replacement>, offs: multiset<string>): (r: seq<Replacement>)
    ensures forall x | x in r :: x in reps && x.offender in offs
  {
    if reps == [] then []
    else if reps[0].offender in offs then [reps[0]] + Paired(reps[1..], offs - multiset{reps[0].offender})
    else Paired(reps[1..], offs)
  }

  /** Pairing keeps something exactly when some replacement is by a listed offender. */
  lemma {:induction false} PairedEmpty(reps: seq<Replacement>, offs: multiset<string>)
    ensures Paired(reps, offs) == [] <==> forall x | x in reps :: x.offender !in offs
  {
    if reps != [] && reps[0].offender !in offs {
      PairedEmpty(reps[1..], offs);
    }
  }

  /** A listing no replacement is by changes nothing. */
  lemma {:induction false} PairedIgnores(reps: seq<Replacement>, offs: multiset<string>, o: string)
    requires forall x | x in reps :: x.offender != o
    ensures Paired(reps, offs + multiset{o}) == Paired(reps, offs)
  {
    if reps != [] {
      var r0 := reps[0].offender;
      if r0 in offs {
        assert (offs + multiset{o}) - multiset{r0} == (offs - multiset{r0}) + multiset{o};
        PairedIgnores(reps[1..], offs - multiset{r0}, o);
      } else {
        PairedIgnores(reps[1..], offs, o);
      }
    }
  }

  /**
   * On replacements sorted by offender and sorted offenders, equal paths
   * allowed on both sides, the merge is the pairing.
   */
  lemma {:induction false} MergePairs(reps: seq<Replacement>, offs: seq<string>)
    requires SortedBy(reps, OffenderOf) && StringsSorted(offs)
    ensures Merge(reps, offs) == Paired(reps, multiset(offs))
    decreases |reps| + |offs|
  {
    if reps == [] {
    } else if offs == [] {
      PairedEmpty(reps, multiset{});
    } else if reps[0].offender == offs[0] {
      SortedTails(reps, offs);
      MergePairs(reps[1..], offs[1..]);
      PairsMatch(reps, offs);
    } else if Less(reps[0].offender, offs[0]) {
      SortedTails(reps, offs);
      MergePairs(reps[1..], offs);
      PairsBelow(reps, offs);
    } else {
      SortedTails(reps, offs);
      MergePairs(reps, offs[1..]);
      PairsAbove(reps, offs);
    }
  }

  lemma SortedTails(reps: seq<Replacement>, offs: seq<string>)
    requires SortedBy(reps, OffenderOf) && StringsSorted(offs) && reps != [] && offs != []
    ensures SortedBy(reps[1..], OffenderOf) && StringsSorted(offs[1..])
  {
  }

  /** A replacement by the current offender is paired with it. */
  lemma PairsMatch(reps: seq<Replacement>, offs: seq<string>)
    requires reps != [] && offs != [] && reps[0].offender == offs[0]
    requires Merge(reps[1..], offs[1..]) == Paired(reps[1..], multiset(offs[1..]))
    ensures Merge(reps, offs) == Paired(reps, multiset(offs))
  {
    HeadSplit(offs);
    assert multiset(offs) - multiset{offs[0]} == multiset(offs[1..]);
  }

  /** A replacement by a path below the current offender is by no listed offender. */
  lemma PairsBelow(reps: seq<Replacement>, offs: seq<string>)
    requires StringsSorted(offs) && reps != [] && offs != [] && Less(reps[0].offender, offs[0])
    requires Merge(reps[1..], offs) == Paired(reps[1..], multiset(offs))
    ensures Merge(reps, offs) == Paired(reps, multiset(offs))
  {
    LessIrreflexive(offs[0]);
    SmallerUnlisted(offs, reps[0].offender);
  }

  /** An offender below the current replacement's is by no replacement left. */
  lemma PairsAbove(reps: seq<Replacement>, offs: seq<string>)
    requires SortedBy(reps, OffenderOf) && reps != [] && offs != []
    requires reps[0].offender != offs[0] && !Less(reps[0].offender, offs[0])
    requires Merge(reps, offs[1..]) == Paired(reps, multiset(offs[1..]))
    ensures Merge(reps, offs) == Paired(reps, multiset(offs))
  {
    SmallerNoOffender(reps, offs[0]);
    HeadSplit(offs);
    PairedIgnores(reps, multiset(offs[1..]), offs[0]);
  }

  lemma HeadSplit(offs: seq<string>)
    requires offs != []
    ensures multiset(offs) == multiset(offs[1..]) + multiset{offs[0]}
  {
    assert offs == [offs[0]] + offs[1..];
  }

  /** A path below the first of sorted offenders is not among them. */
  lemma SmallerUnlisted(offs: seq<string>, r0: string)
    requires StringsSorted(offs) && offs != [] && Less(r0, offs[0])
    ensures r0 !in offs
  {
    forall j | 0 <= j < |offs|
      ensures offs[j] != r0
    {
      if j > 0 && Less(offs[0], offs[j]) {
        LessTransitive(r0, offs[0], offs[j]);
      }
      LessIrreflexive(r0);
    }
  }

  /** A path below the first offender of sorted replacements is no offender of theirs. */
  lemma SmallerNoOffender(reps: seq<Replacement>, o0: string)
    requires SortedBy(reps, OffenderOf) && reps != [] && reps[0].offender != o0 && !Less(reps[0].offender, o0)
    ensures forall x | x in reps :: x.offender != o0
  {
    var r0 := reps[0].offender;
    LessTotal(r0, o0);
    forall x | x in reps
      ensures x.offender != o0
    {
      var k :| 0 <= k < |reps| && reps[k] == x;
      assert LessEq(OffenderOf(reps[0]), OffenderOf(reps[k])) || k == 0;
      if k > 0 && Less(r0, x.offender) {
        LessTransitive(o0, r0, x.offender);
      }
      LessIrreflexive(o0);
    }
  }

  /**
   * An offender listed once keeps one replacement by it: two replacements by
   * the same offender `a` and offenders `[a]` keep only the first.
   */
  lemma MergePairsOnce(a: string, x: Replacement, y: Replacement)
    requires x.offender == a && y.offender == a
    ensures Merge([x, y], [a]) == [x]
    ensures Kept([x, y], [a]) == [x, y]
  {
    assert [x, y][1..] == [y] && [a][1..] == [] && [y][1..] == [];
    assert Merge([x, y], [a]) == [x] + Merge([y], []);
    assert Kept([y], [a]) == [y] + Kept([], [a]);
  }

  /** The replacements paired, in order, are sorted by offender when they were. */
  lemma {:induction false} PairedSorted(reps: seq<Replacement>, offs: multiset<string>)
    requires SortedBy(reps, OffenderOf)
    ensures SortedBy(Paired(reps, offs), OffenderOf)
  {
    if reps != [] {
      var m := if reps[0].offender in offs then offs - multiset{reps[0].offender} else offs;
      PairedSorted(reps[1..], m);
      var rest := Paired(reps[1..], m);
      forall j | 0 <= j < |rest|
        ensures LessEq(reps[0].offender, rest[j].offender)
      {
        assert rest[j] in reps[1..];
        var k :| 0 <= k < |reps[1..]| && reps[1..][k] == rest[j];
        assert reps[k + 1] == rest[j];
      }
    }
  }

  /** The replacements kept, in order, are sorted by offender when they were. */
  lemma {:induction false} KeptSorted(reps: seq<Replacement>, offs: seq<string>)
    requires SortedBy(reps, OffenderOf)
    ensures SortedBy(Kept(reps, offs), OffenderOf)
  {
    if reps != [] {
      KeptSorted(reps[1..], offs);
      var rest := Kept(reps[1..], offs);
      forall j | 0 <= j < |rest|
        ensures LessEq(reps[0].offender, rest[j].offender)
      {
        assert rest[j] in reps[1..];
        var k :| 0 <= k < |reps[1..]| && reps[1..][k] == rest[j];
        assert reps[k + 1] == rest[j];
      }
    }
  }

  /** The origins, in order, left with some replacement once filtered on `offs`. */
  function OffendingOrigins(r: Replacements, offs: seq<string>, origins: seq<string>): (kept: seq<string>)
    ensures forall o :: o in kept <==> o in origins && Merge(ReplacesOf(r, o), offs) != []
  {
    if origins == [] then []
    else
      var o := origins[|origins| - 1];
      assert origins == origins[..|origins| - 1] + [o];
      OffendingOrigins(r, offs, origins[..|origins| - 1]) + (if Merge(ReplacesOf(r, o), offs) != [] then [o] else [])
  }

  /** What `FilterOnOffendingModule` returns for sorted offenders. */
  function FilterOffending(r: Replacements, offs: seq<string>): Replacements
  {
    var kept := OffendingOrigins(r, offs, r.replacedModules);
    Replacements(r.main, r.topLevel, kept, map o | o in kept :: Merge(ReplacesOf(r, o), offs))
  }

  /** The merge loop on one origin's replacements. */
  method MergeOffenders(reps: seq<Replacement>, offs: seq<string>) returns (kept: seq<Replacement>)
    ensures kept == Merge(reps, offs)
  {
    var rIdx, oIdx := 0, 0;
    kept := [];
    while rIdx < |reps| && oIdx < |offs|
      invariant 0 <= rIdx <= |reps| && 0 <= oIdx <= |offs|
      invariant kept + Merge(reps[rIdx..], offs[oIdx..]) == Merge(reps, offs)
      decreases |reps| - rIdx + |offs| - oIdx
    {
      assert reps[rIdx..][1..] == reps[rIdx + 1..] && offs[oIdx..][1..] == offs[oIdx + 1..];
      if reps[rIdx].offender == offs[oIdx] {
        ghost var rest := Merge(reps[rIdx + 1..], offs[oIdx + 1..]);
        assert kept + ([reps[rIdx]] + rest) == (kept + [reps[rIdx]]) + rest;
        kept := kept + [reps[rIdx]];
        rIdx, oIdx := rIdx + 1, oIdx + 1;
      } else if Less(reps[rIdx].offender, offs[oIdx]) {
        rIdx := rIdx + 1;
      } else {
        oIdx := oIdx + 1;
      }
    }
    assert Merge(reps[rIdx..], offs[oIdx..]) == [];
  }

  /** The loop of `FilterOnOffendingModule` over the replaced modules. */
  method FilterOrigins(r: Replacements, offs: seq<string>) returns (f: Replacements)
    ensures f == FilterOffending(r, offs)
  {
    var mods: seq<string> := [];
    var otr: map<string, seq<Replacement>> := map[];
    for i := 0 to |r.replacedModules|
      invariant mods == OffendingOrigins(r, offs, r.replacedModules[..i])
      invariant forall o :: o in otr <==> o in mods
      invariant forall o | o in otr :: otr[o] == Merge(ReplacesOf(r, o), offs)
    {
      var origin := r.replacedModules[i];
      OriginsStep(r, offs, r.replacedModules, i);
      var kept := MergeOffenders(ReplacesOf(r, origin), offs);
      if |kept| != 0 {
        MergedStep(r, offs, mods, otr, origin);
        mods := mods + [origin];
        otr := otr[origin := kept];
      }
    }
    assert r.replacedModules[..|r.replacedModules|] == r.replacedModules;
    MapOfMerged(r, offs, mods, otr);
    f := Replacements(r.main, r.topLevel, mods, otr);
  }

  lemma OriginsStep(r: Replacements, offs: seq<string>, origins: seq<string>, i: int)
    requires 0 <= i < |origins|
    ensures OffendingOrigins(r, offs, origins[..i + 1])
      == OffendingOrigins(r, offs, origins[..i]) + (if Merge(ReplacesOf(r, origins[i]), offs) != [] then [origins[i]] else [])
  {
    assert origins[..i + 1][..i] == origins[..i];
  }

  lemma MergedStep(r: Replacements, offs: seq<string>, mods: seq<string>, otr: map<string, seq<Replacement>>, origin: string)
    requires forall o :: o in otr <==> o in mods
    requires forall o | o in otr :: otr[o] == Merge(ReplacesOf(r, o), offs)
    ensures var otr1 := otr[origin := Merge(ReplacesOf(r, origin), offs)];
      && (forall o :: o in otr1 <==> o in mods + [origin])
      && (forall o | o in otr1 :: otr1[o] == Merge(ReplacesOf(r, o), offs))
  {
  }

  lemma MapOfMerged(r: Replacements, offs: seq<string>, mods: seq<string>, otr: map<string, seq<Replacement>>)
    requires forall o :: o in otr <==> o in mods
    requires forall o | o in otr :: otr[o] == Merge(ReplacesOf(r, o), offs)
    ensures otr == map o | o in mods :: Merge(ReplacesOf(r, o), offs)
  {
  }

  /**
   * `FilterOnOffendingModule`: no offenders return the receiver; otherwise
   * the caller's offenders are sorted in place and the filtered copy is
   * returned.
   */
  method FilterOnOffendingModule(r: Replacements, offenders: array<string>) returns (f: Replacements)
    modifies offenders
    ensures offenders[..] == SortStrings(old(offenders[..]))
    ensures offenders.Length == 0 ==> f == r
    ensures offenders.Length > 0 ==> f == FilterOffending(r, offenders[..])
  {
    if offenders.Length == 0 {
      return r;
    }
    SortInPlace(offenders);
    f := FilterOrigins(r, offenders[..]);
  }

  /** A sorted list stays sorted when an element no smaller than its members is added at the end. */
  lemma SortedSnoc(s: seq<string>, x: string)
    requires StringsSorted(s) && forall y | y in s :: LessEq(y, x)
    ensures StringsSorted(s + [x])
  {
  }

  lemma LastGreatest(origins: seq<string>, y: string)
    requires StringsSorted(origins) && origins != [] && y in origins[..|origins| - 1]
    ensures LessEq(y, origins[|origins| - 1])
  {
    var k :| 0 <= k < |origins| - 1 && origins[k] == y;
  }

  lemma {:induction false} OffendingOriginsSorted(r: Replacements, offs: seq<string>, origins: seq<string>)
    requires StringsSorted(origins)
    ensures StringsSorted(OffendingOrigins(r, offs, origins))
  {
    if origins != [] {
      var init := origins[..|origins| - 1];
      var last := origins[|origins| - 1];
      OffendingOriginsSorted(r, offs, init);
      var res := OffendingOrigins(r, offs, init);
      forall y | y in res
        ensures LessEq(y, last)
      {
        LastGreatest(origins, y);
      }
      SortedSnoc(res, last);
    }
  }

  /**
   * What the offender filter keeps, on well-formed replacements and sorted
   * offenders: an origin stays exactly when one of its replacements is by a
   * listed offender; its replacements are those paired with a listing of
   * their offender, which is all those by a listed offender when its
   * offenders strictly increase; and the result is well-formed.
   */
  lemma FilterOffendingMeans(r: Replacements, offs: seq<string>)
    requires WellFormed(r) && StringsSorted(offs)
    ensures var f := FilterOffending(r, offs);
      && f.main == r.main && f.topLevel == r.topLevel && WellFormed(f)
      && (forall o :: o in f.replacedModules <==> o in r.replacedModules && exists x | x in ReplacesOf(r, o) :: x.offender in offs)
      && (forall o | o in f.originToReplace :: f.originToReplace[o] == Paired(r.originToReplace[o], multiset(offs)))
      && (forall o | o in f.originToReplace && OffendersIncreasing(r.originToReplace[o]) ::
            f.originToReplace[o] == Kept(r.originToReplace[o], offs))
  {
    var f := FilterOffending(r, offs);
    OffendingOriginsSorted(r, offs, r.replacedModules);
    forall o | o in r.replacedModules
      ensures Merge(ReplacesOf(r, o), offs) == Paired(ReplacesOf(r, o), multiset(offs))
    {
      MergePairs(ReplacesOf(r, o), offs);
    }
    forall o | o in f.originToReplace && OffendersIncreasing(r.originToReplace[o])
      ensures f.originToReplace[o] == Kept(r.originToReplace[o], offs)
    {
      MergeKeeps(r.originToReplace[o], offs);
    }
    forall o | o in f.originToReplace
      ensures f.originToReplace[o] != [] && SortedBy(f.originToReplace[o], OffenderOf)
    {
      PairedSorted(r.originToReplace[o], multiset(offs));
    }
    forall o
      ensures o in f.replacedModules <==> o in r.replacedModules && exists x | x in ReplacesOf(r, o) :: x.offender in offs
    {
      if o in r.replacedModules {
        PairedEmpty(ReplacesOf(r, o), multiset(offs));
      }
    }
  }

  // ---------------------------------------------------------------------------
  // FilterOnReplacedModule.

  /** The requested origins, in order, that have some replacement. */
  function RequestedOrigins(r: Replacements, originals: seq<string>): (kept: seq<string>)
    ensures forall o :: o in kept <==> o in originals && ReplacesOf(r, o) != []
  {
    if originals == [] then []
    else
      var o := originals[|originals| - 1];
      assert originals == originals[..|originals| - 1] + [o];
      RequestedOrigins(r, originals[..|originals| - 1]) + (if |ReplacesOf(r, o)| != 0 then [o] else [])
  }

  /** What `FilterOnReplacedModule` returns for sorted originals. */
  function FilterReplaced(r: Replacements, originals: seq<string>): Replacements
  {
    var kept := RequestedOrigins(r, originals);
    Replacements(r.main, r.topLevel, kept, map o | o in kept :: ReplacesOf(r, o))
  }

  /** The loop of `FilterOnReplacedModule` over the sorted originals. */
  method SelectOrigins(r: Replacements, originals: seq<string>) returns (f: Replacements)
    ensures f == FilterReplaced(r, originals)
  {
    var mods: seq<string> := [];
    var otr: map<string, seq<Replacement>> := map[];
    for i := 0 to |originals|
      invariant mods == RequestedOrigins(r, originals[..i])
      invariant forall o :: o in otr <==> o in mods
      invariant forall o | o in otr :: otr[o] == ReplacesOf(r, o)
    {
      var original := originals[i];
      RequestedStep(r, originals, i);
      if |ReplacesOf(r, original)| != 0 {
        mods := mods + [original];
        otr := otr[original := ReplacesOf(r, original)];
      }
    }
    assert originals[..|originals|] == originals;
    MapOfReplaces(r, mods, otr);
    f := Replacements(r.main, r.topLevel, mods, otr);
  }

  lemma RequestedStep(r: Replacements, originals: seq<string>, i: int)
    requires 0 <= i < |originals|
    ensures RequestedOrigins(r, originals[..i + 1])
      == RequestedOrigins(r, originals[..i]) + (if |ReplacesOf(r, originals[i])| != 0 then [originals[i]] else [])
  {
    assert originals[..i + 1][..i] == originals[..i];
  }

  lemma MapOfReplaces(r: Replacements, mods: seq<string>, otr: map<string, seq<Replacement>>)
    requires forall o :: o in otr <==> o in mods
    requires forall o | o in otr :: otr[o] == ReplacesOf(r, o)
    ensures otr == map o | o in mods :: ReplacesOf(r, o)
  {
  }

  /**
   * `FilterOnReplacedModule`: no originals return the receiver; otherwise
   * the caller's originals are sorted in place and the filtered copy is
   * returned.
   */
  method FilterOnReplacedModule(r: Replacements, originals: array<string>) returns (f: Replacements)
    modifies originals
    ensures originals[..] == SortStrings(old(originals[..]))
    ensures originals.Length == 0 ==> f == r
    ensures originals.Length > 0 ==> f == FilterReplaced(r, originals[..])
  {
    if originals.Length == 0 {
      return r;
    }
    SortInPlace(originals);
    f := SelectOrigins(r, originals[..]);
  }

  lemma {:induction false} RequestedOriginsSorted(r: Replacements, originals: seq<string>)
    requires StringsSorted(originals)
    ensures StringsSorted(RequestedOrigins(r, originals))
  {
    if originals != [] {
      var init := originals[..|originals| - 1];
      var last := originals[|originals| - 1];
      RequestedOriginsSorted(r, init);
      var res := RequestedOrigins(r, init);
      forall y | y in res
        ensures LessEq(y, last)
      {
        LastGreatest(originals, y);
      }
      SortedSnoc(res, last);
    }
  }

  /**
   * What the origin filter keeps, for sorted originals: exactly the
   * requested originals that have replacements, sorted, each with all of
   * its replacements; the result is well-formed when the receiver is.
   */
  lemma FilterReplacedMeans(r: Replacements, originals: seq<string>)
    requires WellFormed(r) && StringsSorted(originals)
    ensures var f := FilterReplaced(r, originals);
      && f.main == r.main && f.topLevel == r.topLevel && WellFormed(f)
      && (forall o :: o in f.replacedModules <==> o in originals && o in r.originToReplace)
      && (forall o | o in f.originToReplace :: f.originToReplace[o] == r.originToReplace[o])
  {
    RequestedOriginsSorted(r, originals);
  }

  // ---------------------------------------------------------------------------
  // The report.

  /** The largest byte length (`len`) of the keys of `reps`; 0 for none. */
  function MaxLen(reps: seq<Replacement>, key: Replacement -> string): (m: nat)
    ensures forall x | x in reps :: Utf8Len(key(x)) <= m
    ensures reps != [] ==> exists x | x in reps :: Utf8Len(key(x)) == m
    ensures reps == [] ==> m == 0
  {
    if reps == [] then 0
    else
      var last := reps[|reps| - 1];
      var m := MaxLen(reps[..|reps| - 1], key);
      assert reps == reps[..|reps| - 1] + [last];
      if Utf8Len(key(last)) > m then Utf8Len(key(last)) else m
  }

  function OverrideOf(x: Replacement): string
  {
    x.override
  }

  function VersionOf(x: Replacement): string
  {
    x.version
  }

  function Spaces(n: nat): (r: string)
    ensures |r| == n && forall i | 0 <= i < n :: r[i] == ' '
  {
    seq(n, _ => ' ')
  }

  /** fmt's `%-Ns`: `s` left-justified in a field of `width` runes. */
  function PadRight(s: string, width: nat): (r: string)
  {
    if |s| < width then s + Spaces(width - |s|) else s
  }

  /** fmt's `%Ns`: `s` right-justified in a field of `width` runes. */
  function PadLeft(s: string, width: nat): (r: string)
  {
    if |s| < width then Spaces(width - |s|) + s else s
  }

  const MatchedMark: string := " \U{2713} "
  const UnmatchedMark: string := "   "

  /** The main module's own replace of the same original has the same override. */
  predicate Matched(r: Replacements, x: Replacement)
  {
    x.original in r.topLevel && r.topLevel[x.original] == x.override
  }

  /** The formatted columns of a report line, padded to the given widths. */
  function Row(x: Replacement, wOff: nat, wOver: nat, wVer: nat): string
  {
    PadRight(x.offender, wOff) + " -> " + PadRight(x.override, wOver) + " @ " + PadLeft(x.version, wVer)
  }

  /** One report line: the match mark, the columns and a newline. */
  function Line(r: Replacements, x: Replacement, wOff: nat, wOver: nat, wVer: nat): string
  {
    (if Matched(r, x) then MatchedMark else UnmatchedMark) + Row(x, wOff, wOver, wVer) + "\n"
  }

  lemma Regrouped(m: string, a: string, b: string, c: string, d: string, e: string, f: string)
    ensures m + (a + b + c + d + e) + f == m + a + b + c + d + e + f
  {
  }

  lemma Appended(s: string, a: string, b: string, c: string)
    ensures s + a + b + c == s + (a + b + c)
  {
  }

  function Lines(r: Replacements, reps: seq<Replacement>, wOff: nat, wOver: nat, wVer: nat): string
  {
    if reps == [] then ""
    else Lines(r, reps[..|reps| - 1], wOff, wOver, wVer) + Line(r, reps[|reps| - 1], wOff, wOver, wVer)
  }

  predicate AnyMatched(r: Replacements, reps: seq<Replacement>)
  {
    exists x | x in reps :: Matched(r, x)
  }

  /** What `printModuleReplacements` returns for `original`. */
  function ModuleReport(r: Replacements, original: string): (string, bool)
  {
    var reps := ReplacesOf(r, original);
    var body := Lines(r, reps, MaxLen(reps, OffenderOf), MaxLen(reps, OverrideOf), MaxLen(reps, VersionOf));
    ("'" + original + "' is replaced:\n" + body + "\n", AnyMatched(r, reps))
  }

  /**
   * The layout of a line whose fields fit their widths (which the maximum
   * byte lengths always give): its length, the mark, and the separators at
   * the same columns on every line.
   */
  lemma LineSeparators(r: Replacements, x: Replacement, wOff: nat, wOver: nat, wVer: nat)
    requires Utf8Len(x.offender) <= wOff && Utf8Len(x.override) <= wOver && Utf8Len(x.version) <= wVer
    ensures var l := Line(r, x, wOff, wOver, wVer);
      && |l| == wOff + wOver + wVer + 11
      && l[..3] == (if Matched(r, x) then MatchedMark else UnmatchedMark)
      && l[3 + wOff..7 + wOff] == " -> "
      && l[7 + wOff + wOver..10 + wOff + wOver] == " @ "
  {
    var mark := if Matched(r, x) then MatchedMark else UnmatchedMark;
    var a, b, c := LineSplit(r, x, wOff, wOver, wVer);
    Columns(Line(r, x, wOff, wOver, wVer), mark, a, b, c, x.offender, x.override, x.version, wOff, wOver, wVer);
  }

  /**
   * The first two fields of such a line: the offender and the override,
   * left-aligned at the start of their columns.
   */
  lemma LineFields(r: Replacements, x: Replacement, wOff: nat, wOver: nat, wVer: nat)
    requires Utf8Len(x.offender) <= wOff && Utf8Len(x.override) <= wOver && Utf8Len(x.version) <= wVer
    ensures var l := Line(r, x, wOff, wOver, wVer);
      && |l| == wOff + wOver + wVer + 11
      && l[3..3 + |x.offender|] == x.offender
      && l[7 + wOff..7 + wOff + |x.override|] == x.override
  {
    var mark := if Matched(r, x) then MatchedMark else UnmatchedMark;
    var a, b, c := LineSplit(r, x, wOff, wOver, wVer);
    Columns(Line(r, x, wOff, wOver, wVer), mark, a, b, c, x.offender, x.override, x.version, wOff, wOver, wVer);
  }

  /** The last field of such a line: the version, right-aligned before the newline. */
  lemma LineVersion(r: Replacements, x: Replacement, wOff: nat, wOver: nat, wVer: nat)
    requires Utf8Len(x.offender) <= wOff && Utf8Len(x.override) <= wOver && Utf8Len(x.version) <= wVer
    ensures var l := Line(r, x, wOff, wOver, wVer);
      && |l| == wOff + wOver + wVer + 11
      && l[|l| - 1 - |x.version|..] == x.version + "\n"
  {
    var mark := if Matched(r, x) then MatchedMark else UnmatchedMark;
    var a, b, c := LineSplit(r, x, wOff, wOver, wVer);
    Columns(Line(r, x, wOff, wOver, wVer), mark, a, b, c, x.offender, x.override, x.version, wOff, wOver, wVer);
  }

  /** A line is the mark and three padded fields, each as wide as its column. */
  lemma LineSplit(r: Replacements, x: Replacement, wOff: nat, wOver: nat, wVer: nat) returns (a: string, b: string, c: string)
    requires Utf8Len(x.offender) <= wOff && Utf8Len(x.override) <= wOver && Utf8Len(x.version) <= wVer
    ensures Line(r, x, wOff, wOver, wVer) == (if Matched(r, x) then MatchedMark else UnmatchedMark) + a + " -> " + b + " @ " + c + "\n"
    ensures |a| == wOff && |x.offender| <= wOff && a[..|x.offender|] == x.offender
    ensures |b| == wOver && |x.override| <= wOver && b[..|x.override|] == x.override
    ensures |c| == wVer && |x.version| <= wVer && c[wVer - |x.version|..] == x.version
  {
    a, b, c := PadRight(x.offender, wOff), PadRight(x.override, wOver), PadLeft(x.version, wVer);
    PadRightFits(x.offender, wOff);
    PadRightFits(x.override, wOver);
    PadLeftFits(x.version, wVer);
    LinePieces(r, x, wOff, wOver, wVer);
  }

  lemma LinePieces(r: Replacements, x: Replacement, wOff: nat, wOver: nat, wVer: nat)
    ensures Line(r, x, wOff, wOver, wVer)
      == (if Matched(r, x) then MatchedMark else UnmatchedMark)
        + PadRight(x.offender, wOff) + " -> " + PadRight(x.override, wOver) + " @ " + PadLeft(x.version, wVer) + "\n"
  {
    Regrouped(if Matched(r, x) then MatchedMark else UnmatchedMark,
      PadRight(x.offender, wOff), " -> ", PadRight(x.override, wOver), " @ ", PadLeft(x.version, wVer), "\n");
  }

  lemma PadRightFits(s: string, width: nat)
    requires Utf8Len(s) <= width
    ensures |PadRight(s, width)| == width && PadRight(s, width)[..|s|] == s
  {
  }

  lemma PadLeftFits(s: string, width: nat)
    requires Utf8Len(s) <= width
    ensures |PadLeft(s, width)| == width && PadLeft(s, width)[width - |s|..] == s
  {
  }

  /**
   * Where the pieces of a line sit, for fields `a`, `b` and `c` of any
   * lengths that start with `p`, start with `q` and end with `v`.
   */
  lemma Columns(l: string, mark: string, a: string, b: string, c: string, p: string, q: string, v: string, wa: nat, wb: nat, wc: nat)
    requires l == mark + a + " -> " + b + " @ " + c + "\n"
    requires |mark| == 3 && |a| == wa && |b| == wb && |c| == wc
    requires |p| <= |a| && a[..|p|] == p && |q| <= |b| && b[..|q|] == q && |v| <= |c| && c[|c| - |v|..] == v
    ensures |l| == wa + wb + wc + 11
      && l[..3] == mark
      && l[3..3 + |p|] == p
      && l[3 + wa..7 + wa] == " -> "
      && l[7 + wa..7 + wa + |q|] == q
      && l[7 + wa + wb..10 + wa + wb] == " @ "
      && l[|l| - 1 - |v|..] == v + "\n"
  {
    assert l[3..3 + |p|] == a[..|p|];
    assert l[7 + |a|..7 + |a| + |q|] == b[..|q|];
    assert l[|l| - 1 - |v|..] == c[|c| - |v|..] + "\n";
  }

  /** The first loop of `printModuleReplacements`: the widest value of each column, in bytes. */
  method ColumnWidths(reps: seq<Replacement>) returns (maxOffenderLength: nat, maxOverrideLength: nat, maxVersionLength: nat)
    ensures maxOffenderLength == MaxLen(reps, OffenderOf)
    ensures maxOverrideLength == MaxLen(reps, OverrideOf)
    ensures maxVersionLength == MaxLen(reps, VersionOf)
  {
    maxOffenderLength, maxOverrideLength, maxVersionLength := 0, 0, 0;
    for i := 0 to |reps|
      invariant maxOffenderLength == MaxLen(reps[..i], OffenderOf)
      invariant maxOverrideLength == MaxLen(reps[..i], OverrideOf)
      invariant maxVersionLength == MaxLen(reps[..i], VersionOf)
    {
      assert reps[..i + 1][..i] == reps[..i] && reps[..i + 1][i] == reps[i];
      if Utf8Len(reps[i].offender) > maxOffenderLength {
        maxOffenderLength := Utf8Len(reps[i].offender);
      }
      if Utf8Len(reps[i].override) > maxOverrideLength {
        maxOverrideLength := Utf8Len(reps[i].override);
      }
      if Utf8Len(reps[i].version) > maxVersionLength {
        maxVersionLength := Utf8Len(reps[i].version);
      }
    }
    assert reps[..|reps|] == reps;
  }

  /** The second loop of `printModuleReplacements`: one line per replacement, marked when it matches. */
  method ReportLines(r: Replacements, reps: seq<Replacement>, wOff: nat, wOver: nat, wVer: nat)
    returns (body: string, foundMatch: bool)
    ensures body == Lines(r, reps, wOff, wOver, wVer) && foundMatch == AnyMatched(r, reps)
  {
    body := "";
    foundMatch := false;
    for i := 0 to |reps|
      invariant body == Lines(r, reps[..i], wOff, wOver, wVer)
      invariant foundMatch == AnyMatched(r, reps[..i])
    {
      var x := reps[i];
      assert reps[..i + 1][..i] == reps[..i] && reps[..i + 1][i] == x;
      ghost var before := body;
      if Matched(r, x) {
        body := body + MatchedMark;
        foundMatch := true;
      } else {
        body := body + UnmatchedMark;
      }
      body := body + Row(x, wOff, wOver, wVer);
      body := body + "\n";
      Appended(before, if Matched(r, x) then MatchedMark else UnmatchedMark, Row(x, wOff, wOver, wVer), "\n");
    }
    assert reps[..|reps|] == reps;
  }

  /** The header, the lines and a blank line; the flag says whether some line matched. */
  method PrintModuleReplacements(r: Replacements, original: string) returns (output: string, foundMatch: bool)
    ensures (output, foundMatch) == ModuleReport(r, original)
  {
    var reps := ReplacesOf(r, original);
    var maxOffenderLength, maxOverrideLength, maxVersionLength := ColumnWidths(reps);
    var header := "'" + original + "' is replaced:\n";
    var body;
    body, foundMatch := ReportLines(r, reps, maxOffenderLength, maxOverrideLength, maxVersionLength);
    output := header + body + "\n";
  }

  function Footer(main: string): string
  {
    "[\U{2713}] Match with a top-level replace in '" + main + "'\n"
  }

  /** The reports of `origins`, in order. */
  function Reports(f: Replacements, origins: seq<string>): string
  {
    if origins == [] then ""
    else Reports(f, origins[..|origins| - 1]) + ModuleReport(f, origins[|origins| - 1]).0
  }

  predicate SomeReportMatched(f: Replacements, origins: seq<string>)
  {
    exists o | o in origins :: ModuleReport(f, o).1
  }

  /** What `Print` writes: the reports of the filtered replacements, then the footer when a line matched. */
  function Output(r: Replacements, f: Replacements): string
  {
    Reports(f, f.replacedModules) + (if SomeReportMatched(f, f.replacedModules) then Footer(r.main) else "")
  }

  /** Both filters, each skipped when its list is empty. */
  function Filtered(r: Replacements, offenders: seq<string>, targets: seq<string>): Replacements
  {
    var f1 := if offenders == [] then r else FilterOffending(r, SortStrings(offenders));
    if targets == [] then f1 else FilterReplaced(f1, SortStrings(targets))
  }

  /** `Print`, returning the text it writes. */
  method Print(r: Replacements, offenders: array<string>, targets: array<string>) returns (output: string)
    requires offenders != targets
    modifies offenders, targets
    ensures offenders[..] == SortStrings(old(offenders[..])) && targets[..] == SortStrings(old(targets[..]))
    ensures output == Output(r, Filtered(r, old(offenders[..]), old(targets[..])))
  {
    ghost var f0 := Filtered(r, offenders[..], targets[..]);
    var f1 := FilterOnOffendingModule(r, offenders);
    var filtered := FilterOnReplacedModule(f1, targets);
    assert filtered == f0;
    output := WriteReports(r, filtered);
  }

  lemma ReportsStep(f: Replacements, mods: seq<string>, i: int)
    requires 0 <= i < |mods|
    ensures Reports(f, mods[..i + 1]) == Reports(f, mods[..i]) + ModuleReport(f, mods[i]).0
    ensures SomeReportMatched(f, mods[..i + 1]) <==> SomeReportMatched(f, mods[..i]) || ModuleReport(f, mods[i]).1
  {
    assert mods[..i + 1] == mods[..i] + [mods[i]];
    assert mods[..i + 1][..i] == mods[..i];
  }

  /** The loop of `Print` over the filtered replaced modules, then the footer. */
  method WriteReports(r: Replacements, filtered: Replacements) returns (output: string)
    ensures output == Output(r, filtered)
  {
    output := "";
    var matchFound := false;
    var mods := filtered.replacedModules;
    for i := 0 to |mods|
      invariant output == Reports(filtered, mods[..i])
      invariant matchFound == SomeReportMatched(filtered, mods[..i])
    {
      ReportsStep(filtered, mods, i);
      var newOutput, matched := PrintModuleReplacements(filtered, mods[i]);
      output := output + newOutput;
      matchFound := matchFound || matched;
    }
    assert mods[..|mods|] == mods;
    if matchFound {
      output := output + Footer(r.main);
    }
  }

  lemma {:induction false} ReportsEnd(f: Replacements, origins: seq<string>)
    ensures var s := Reports(f, origins); s == "" || (|s| >= 2 && s[|s| - 2] == '\n' && s[|s| - 1] == '\n')
  {
    if origins != [] {
      var m := ModuleReport(f, origins[|origins| - 1]).0;
      var s := Reports(f, origins);
      assert s == Reports(f, origins[..|origins| - 1]) + m;
      var h := "'" + origins[|origins| - 1] + "' is replaced:\n";
      var reps := ReplacesOf(f, origins[|origins| - 1]);
      var body := Lines(f, reps, MaxLen(reps, OffenderOf), MaxLen(reps, OverrideOf), MaxLen(reps, VersionOf));
      assert m == (h + body) + "\n";
      LinesEnd(f, reps, MaxLen(reps, OffenderOf), MaxLen(reps, OverrideOf), MaxLen(reps, VersionOf));
      assert (h + body)[|h + body| - 1] == '\n';
    }
  }

  lemma LinesEnd(r: Replacements, reps: seq<Replacement>, wOff: nat, wOver: nat, wVer: nat)
    ensures var s := Lines(r, reps, wOff, wOver, wVer); s == "" || s[|s| - 1] == '\n'
  {
  }

  lemma SuffixChar(s: string, t: string)
    requires |t| >= 2
    ensures HasSuffix(s, t) ==> |s| >= 2 && s[|s| - 2] == t[|t| - 2]
  {
    if HasSuffix(s, t) {
      assert s[|s| - |t|..][|t| - 2] == t[|t| - 2];
    }
  }

  /** The output ends with the footer exactly when some printed line matched. */
  lemma FooterIffMatch(r: Replacements, f: Replacements)
    ensures HasSuffix(Output(r, f), Footer(r.main)) <==> SomeReportMatched(f, f.replacedModules)
  {
    var s := Reports(f, f.replacedModules);
    var foot := Footer(r.main);
    if !SomeReportMatched(f, f.replacedModules) {
      ReportsEnd(f, f.replacedModules);
      assert foot[|foot| - 2] == '\'';
      SuffixChar(s, foot);
    } else {
      assert (s + foot)[|s + foot| - |foot|..] == foot;
    }
  }

  // ---------------------------------------------------------------------------
  // The aggregation in FindReplacements.

  /** The main module's own replaces: a later replace of the same original wins. */
  function TopLevelOf(declared: seq<Replacement>): (m: map<string, string>)
    ensures forall k :: k in m <==> exists x | x in declared :: x.original == k
  {
    if declared == [] then map[]
    else
      var x := declared[|declared| - 1];
      assert declared == declared[..|declared| - 1] + [x];
      TopLevelOf(declared[..|declared| - 1])[x.original := x.override]
  }

  /** The override of the last replace of an original is the one recorded. */
  lemma {:induction false} TopLevelLast(declared: seq<Replacement>, i: int)
    requires 0 <= i < |declared|
    requires forall j | i < j < |declared| :: declared[j].original != declared[i].original
    ensures TopLevelOf(declared)[declared[i].original] == declared[i].override
  {
    if i < |declared| - 1 {
      var init := declared[..|declared| - 1];
      TopLevelLast(init, i);
    }
  }

  function Concat(perModule: seq<seq<Replacement>>): seq<Replacement>
  {
    if perModule == [] then [] else Concat(perModule[..|perModule| - 1]) + perModule[|perModule| - 1]
  }

  /** The replacements, in order, of the original `o`. */
  function OfOrigin(xs: seq<Replacement>, o: string): (r: seq<Replacement>)
    ensures forall x :: x in r <==> x in xs && x.original == o
  {
    if xs == [] then []
    else
      var x := xs[|xs| - 1];
      assert xs == xs[..|xs| - 1] + [x];
      OfOrigin(xs[..|xs| - 1], o) + (if x.original == o then [x] else [])
  }

  lemma {:induction false} OfOriginAppend(a: seq<Replacement>, b: seq<Replacement>, o: string)
    ensures OfOrigin(a + b, o) == OfOrigin(a, o) + OfOrigin(b, o)
  {
    if b != [] {
      var n := |b| - 1;
      assert (a + b)[..|a + b| - 1] == a + b[..n];
      OfOriginAppend(a, b[..n], o);
    } else {
      assert a + b == a;
    }
  }

  function Lookup(m: map<string, seq<Replacement>>, o: string): seq<Replacement>
  {
    if o in m then m[o] else []
  }

  lemma DistinctSnoc(s: seq<string>, x: string)
    requires Distinct(s) && x !in s
    ensures Distinct(s + [x])
  {
  }

  /** Appending a replacement to the list of its original keeps the loop's bookkeeping. */
  lemma RecordStep(otr: map<string, seq<Replacement>>, otr1: map<string, seq<Replacement>>, declared: seq<Replacement>, i: int)
    requires 0 <= i < |declared|
    requires forall o :: Lookup(otr1, o) == Lookup(otr, o) + OfOrigin(declared[..i], o)
    ensures var x := declared[i]; var otr2 := otr1[x.original := Lookup(otr1, x.original) + [x]];
      forall o :: Lookup(otr2, o) == Lookup(otr, o) + OfOrigin(declared[..i + 1], o)
  {
    var x := declared[i];
    var otr2 := otr1[x.original := Lookup(otr1, x.original) + [x]];
    forall o
      ensures Lookup(otr2, o) == Lookup(otr, o) + OfOrigin(declared[..i + 1], o)
    {
      OfOriginSnoc(declared, i, o);
      RecordAt(Lookup(otr, o), otr1, x, o, OfOrigin(declared[..i], o));
    }
  }

  lemma OfOriginSnoc(xs: seq<Replacement>, i: int, o: string)
    requires 0 <= i < |xs|
    ensures OfOrigin(xs[..i + 1], o) == OfOrigin(xs[..i], o) + (if xs[i].original == o then [xs[i]] else [])
  {
    assert xs[..i + 1][..i] == xs[..i];
  }

  lemma RecordAt(before: seq<Replacement>, otr1: map<string, seq<Replacement>>, x: Replacement, o: string, seen: seq<Replacement>)
    requires Lookup(otr1, o) == before + seen
    ensures Lookup(otr1[x.original := Lookup(otr1, x.original) + [x]], o) == before + (seen + (if x.original == o then [x] else []))
  {
    if x.original == o {
      assert (before + seen) + [x] == before + (seen + [x]);
    } else {
      assert seen + [] == seen;
    }
  }

  /** The inner loop of `FindReplacements`: record one module's replacements. */
  method Record(mods: seq<string>, otr: map<string, seq<Replacement>>, declared: seq<Replacement>)
    returns (mods1: seq<string>, otr1: map<string, seq<Replacement>>)
    requires Distinct(mods) && forall o :: o in otr <==> o in mods
    requires forall o | o in otr :: otr[o] != []
    ensures Distinct(mods1) && forall o :: o in otr1 <==> o in mods1
    ensures forall o | o in otr1 :: otr1[o] != []
    ensures forall o :: Lookup(otr1, o) == Lookup(otr, o) + OfOrigin(declared, o)
  {
    mods1, otr1 := mods, otr;
    for i := 0 to |declared|
      invariant Distinct(mods1) && forall o :: o in otr1 <==> o in mods1
      invariant forall o | o in otr1 :: otr1[o] != []
      invariant forall o :: Lookup(otr1, o) == Lookup(otr, o) + OfOrigin(declared[..i], o)
    {
      var replace := declared[i];
      RecordStep(otr, otr1, declared, i);
      var list := Lookup(otr1, replace.original);
      if replace.original !in otr1 {
        DistinctSnoc(mods1, replace.original);
        mods1 := mods1 + [replace.original];
      }
      otr1 := otr1[replace.original := list + [replace]];
    }
    assert declared[..|declared|] == declared;
  }

  lemma {:induction false} DistinctCounts(s: seq<string>)
    requires Distinct(s)
    ensures forall x :: multiset(s)[x] <= 1
  {
    if s != [] {
      var init := s[..|s| - 1];
      assert s == init + [s[|s| - 1]];
      DistinctCounts(init);
      assert s[|s| - 1] !in init;
    }
  }

  lemma SortedDistinctStrict(s: seq<string>)
    requires StringsSorted(s) && forall x :: multiset(s)[x] <= 1
    ensures StrictlySorted(s)
  {
    forall i, j | 0 <= i < j < |s|
      ensures Less(s[i], s[j])
    {
      if s[i] == s[j] {
        assert multiset{s[i], s[j]} <= multiset(s) by {
          assert s == s[..i] + [s[i]] + s[i + 1..j] + [s[j]] + s[j + 1..];
        }
      }
    }
  }

  /** The main module's own replaces, by original. */
  method TopLevelReplaces(top: seq<Replacement>) returns (topLevel: map<string, string>)
    ensures topLevel == TopLevelOf(top)
  {
    topLevel := map[];
    for i := 0 to |top|
      invariant topLevel == TopLevelOf(top[..i])
    {
      assert top[..i + 1][..i] == top[..i] && top[..i + 1][i] == top[i];
      topLevel := topLevel[top[i].original := top[i].override];
    }
    assert top[..|top|] == top;
  }

  lemma ConcatStep(perModule: seq<seq<Replacement>>, i: int)
    requires 0 <= i < |perModule|
    ensures forall o :: OfOrigin(Concat(perModule[..i + 1]), o) == OfOrigin(Concat(perModule[..i]), o) + OfOrigin(perModule[i], o)
  {
    assert perModule[..i + 1][..i] == perModule[..i] && perModule[..i + 1][i] == perModule[i];
    forall o
      ensures OfOrigin(Concat(perModule[..i + 1]), o) == OfOrigin(Concat(perModule[..i]), o) + OfOrigin(perModule[i], o)
    {
      OfOriginAppend(Concat(perModule[..i]), perModule[i], o);
    }
  }

  /** The loop over the modules: each replaced original once, in order of first sight, with its replacements in order. */
  method Aggregate(perModule: seq<seq<Replacement>>) returns (mods: seq<string>, otr: map<string, seq<Replacement>>)
    ensures Distinct(mods) && forall o :: o in otr <==> o in mods
    ensures forall o | o in otr :: otr[o] != []
    ensures forall o :: Lookup(otr, o) == OfOrigin(Concat(perModule), o)
  {
    mods, otr := [], map[];
    for i := 0 to |perModule|
      invariant Distinct(mods) && forall o :: o in otr <==> o in mods
      invariant forall o | o in otr :: otr[o] != []
      invariant forall o :: Lookup(otr, o) == OfOrigin(Concat(perModule[..i]), o)
    {
      ConcatStep(perModule, i);
      mods, otr := Record(mods, otr, perModule[i]);
    }
    assert perModule[..|perModule|] == perModule;
  }

  /** Sorting the recorded originals and each one's replacements gives well-formed replacements with the same contents. */
  lemma {:induction false} GroupedWellFormed(main: string, topLevel: map<string, string>, xs: seq<Replacement>,
    mods: seq<string>, otr: map<string, seq<Replacement>>)
    requires Distinct(mods) && forall o :: o in otr <==> o in mods
    requires forall o | o in otr :: otr[o] != []
    requires forall o :: Lookup(otr, o) == OfOrigin(xs, o)
    ensures var r := Replacements(main, topLevel, SortStrings(mods), map o | o in otr :: SortBy(otr[o], OffenderOf));
      && WellFormed(r) && StrictlySorted(r.replacedModules)
      && (forall o :: o in r.replacedModules <==> exists x | x in xs :: x.original == o)
      && (forall o | o in r.originToReplace :: multiset(r.originToReplace[o]) == multiset(OfOrigin(xs, o)))
  {
    var sorted := SortStrings(mods);
    SortedByIdentity(sorted);
    DistinctCounts(mods);
    SortedDistinctStrict(sorted);
    var grouped := map o | o in otr :: SortBy(otr[o], OffenderOf);
    var r := Replacements(main, topLevel, sorted, grouped);
    forall o
      ensures o in r.replacedModules <==> exists x | x in xs :: x.original == o
    {
      assert o in sorted <==> o in multiset(mods);
      if o in otr {
        assert Lookup(otr, o) == otr[o];
        var x := otr[o][0];
        assert x in OfOrigin(xs, o);
      } else {
        assert OfOrigin(xs, o) == Lookup(otr, o) == [];
      }
    }
    forall o: string, x: Replacement | o in grouped && x in grouped[o]
      ensures x.original == o
    {
      assert x in multiset(otr[o]);
      assert Lookup(otr, o) == otr[o];
    }
    forall o | o in grouped
      ensures grouped[o] != []
    {
      assert |multiset(grouped[o])| == |multiset(otr[o])|;
    }
    forall o
      ensures o in grouped <==> o in sorted
    {
      assert o in sorted <==> o in multiset(mods);
    }
    forall o | o in grouped
      ensures multiset(grouped[o]) == multiset(OfOrigin(xs, o))
    {
      assert Lookup(otr, o) == otr[o];
    }
  }

  /**
   * The aggregation of `FindReplacements`, given the main module's own
   * replaces and those of every module in graph order: each replaced
   * original is recorded once, the list of them sorted, and each has the
   * replacements of it sorted by offender path.
   */
  method FindReplacementsFrom(main: string, top: seq<Replacement>, perModule: seq<seq<Replacement>>) returns (r: Replacements)
    ensures r.main == main && r.topLevel == TopLevelOf(top)
    ensures WellFormed(r) && StrictlySorted(r.replacedModules)
    ensures forall o :: o in r.replacedModules <==> exists x | x in Concat(perModule) :: x.original == o
    ensures forall o | o in r.originToReplace :: multiset(r.originToReplace[o]) == multiset(OfOrigin(Concat(perModule), o))
  {
    var topLevel := TopLevelReplaces(top);
    var mods, otr := Aggregate(perModule);
    GroupedWellFormed(main, topLevel, Concat(perModule), mods, otr);
    var sorted := SortStrings(mods);
    var grouped := map o | o in otr :: SortBy(otr[o], OffenderOf);
    r := Replacements(main, topLevel, sorted, grouped);
  }
}
