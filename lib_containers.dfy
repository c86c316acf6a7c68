/**
 * The name-indexed lists of the lib generation: `Edges`
 * (lib/depgraph/types.go) and `DependencyMap` (lib/depgraph/map.go).
 *
 * Both types keep the same elements twice, in a list in insertion order and
 * in a map by name, and their methods are the same code over different
 * element types: `Edges<T>` models both, with the element's `Name` method
 * as the function `nameOf`, and `DependencyMap` is `Edges` over dependency
 * references.
 */
module LibContainers {
  import opened Util

  /** `DependencyReference`: a dependency, by the name of its module, and the version the edge requires. */
  datatype DependencyReference = DependencyReference(name: string, versionConstraint: string)

  function RefName(r: DependencyReference): string
  {
    r.name
  }

  /** The list holds exactly the mapped elements, each once and under its own name. */
  ghost predicate Indexed<T>(list: seq<T>, index: map<string, T>, nameOf: T -> string)
  {
    && (forall k | k in index :: nameOf(index[k]) == k && index[k] in list)
    && (forall i | 0 <= i < |list| :: nameOf(list[i]) in index && index[nameOf(list[i])] == list[i])
    && DistinctNames(list, nameOf)
  }

  /** No two listed elements share a name. */
  ghost predicate DistinctNames<T>(list: seq<T>, nameOf: T -> string)
  {
    forall i, j | 0 <= i < j < |list| :: nameOf(list[i]) != nameOf(list[j])
  }

  /** The list without its first element named `name`. */
  function RemoveNamed<T>(list: seq<T>, name: string, nameOf: T -> string): seq<T>
  {
    if list == [] then []
    else if nameOf(list[0]) == name then list[1..]
    else [list[0]] + RemoveNamed(list[1..], name, nameOf)
  }

  /** In a list with distinct names, removing the element named `name` keeps every other element and no more. */
  lemma {:induction false} RemoveNamedMembers<T>(list: seq<T>, name: string, nameOf: T -> string)
    requires DistinctNames(list, nameOf)
    ensures forall x | x in RemoveNamed(list, name, nameOf) :: x in list && nameOf(x) != name
    ensures forall x | x in list && nameOf(x) != name :: x in RemoveNamed(list, name, nameOf)
  {
    if list != [] {
      DistinctTail(list, nameOf);
      RemoveNamedMembers(list[1..], name, nameOf);
      assert list == [list[0]] + list[1..];
      if nameOf(list[0]) == name {
        assert forall x | x in list[1..] :: nameOf(x) != nameOf(list[0]);
      }
    }
  }

  /** Removing an element keeps the names distinct. */
  lemma {:induction false} RemoveNamedDistinct<T>(list: seq<T>, name: string, nameOf: T -> string)
    requires DistinctNames(list, nameOf)
    ensures DistinctNames(RemoveNamed(list, name, nameOf), nameOf)
  {
    if list != [] && nameOf(list[0]) != name {
      DistinctTail(list, nameOf);
      RemoveNamedDistinct(list[1..], name, nameOf);
      RemoveNamedMembers(list[1..], name, nameOf);
      var rest := RemoveNamed(list[1..], name, nameOf);
      ConsDistinct(list[0], rest, nameOf);
    }
  }

  lemma ConsDistinct<T>(a: T, rest: seq<T>, nameOf: T -> string)
    requires DistinctNames(rest, nameOf) && forall x | x in rest :: nameOf(x) != nameOf(a)
    ensures DistinctNames([a] + rest, nameOf)
  {
    var r := [a] + rest;
    forall i, j | 0 <= i < j < |r|
      ensures nameOf(r[i]) != nameOf(r[j])
    {
      assert r[j] == rest[j - 1];
      if i > 0 {
        assert r[i] == rest[i - 1];
      }
    }
  }

  /** The rest of a list with distinct names has distinct names, none of them the first's. */
  lemma DistinctTail<T>(list: seq<T>, nameOf: T -> string)
    requires list != [] && DistinctNames(list, nameOf)
    ensures DistinctNames(list[1..], nameOf)
    ensures forall x | x in list[1..] :: nameOf(x) != nameOf(list[0])
  {
    forall i, j | 0 <= i < j < |list[1..]|
      ensures nameOf(list[1..][i]) != nameOf(list[1..][j])
    {
      assert list[1..][i] == list[i + 1] && list[1..][j] == list[j + 1];
    }
    forall x | x in list[1..]
      ensures nameOf(x) != nameOf(list[0])
    {
      var k :| 0 <= k < |list[1..]| && list[1..][k] == x;
      assert list[k + 1] == x;
    }
  }

  /** The map of an indexed list has one entry per listed element. */
  lemma {:induction false} IndexedSize<T>(list: seq<T>, index: map<string, T>, nameOf: T -> string)
    requires Indexed(list, index, nameOf)
    ensures |index| == |list|
    decreases |list|
  {
    if list == [] {
      assert index.Keys == {};
    } else {
      var last := list[|list| - 1];
      var init := list[..|list| - 1];
      var rest := index - {nameOf(last)};
      forall k | k in rest
        ensures nameOf(rest[k]) == k && rest[k] in init
      {
        var i :| 0 <= i < |list| && list[i] == index[k];
        assert init[i] == list[i];
      }
      forall i, j | 0 <= i < j < |init| ensures nameOf(init[i]) != nameOf(init[j]) {
        assert init[i] == list[i] && init[j] == list[j];
      }
      forall i | 0 <= i < |init|
        ensures nameOf(init[i]) in rest && rest[nameOf(init[i])] == init[i]
      {
        assert init[i] == list[i];
        assert nameOf(list[i]) != nameOf(list[|list| - 1]);
      }
      IndexedSize(init, rest, nameOf);
    }
  }

  class Edges<T> {
    const nameOf: T -> string
    var list: seq<T>
    var index: map<string, T>

    ghost predicate Valid()
      reads this
    {
      Indexed(list, index, nameOf)
    }

    /** `NewEdges` and `NewDependencyMap`: nothing listed. */
    constructor (nameOf: T -> string)
      ensures Valid() && this.nameOf == nameOf && list == [] && index == map[]
    {
      this.nameOf := nameOf;
      list := [];
      index := map[];
    }

    /** `Len`: the number of distinct names, which is the length of the list. */
    function Len(): (n: nat)
      requires Valid()
      reads this
      ensures n == |list| && n == |index.Keys|
    {
      IndexedSize(list, index, nameOf);
      |index|
    }

    /** `Get`: the element named `name`, if any. */
    function Get(name: string): (r: Option<T>)
      requires Valid()
      reads this
      ensures r.Some? <==> name in index
      ensures r.Some? ==> nameOf(r.value) == name && r.value in list
    {
      if name in index then Some(index[name]) else None
    }

    /** `Copy`: a new object with the same map and the same list. */
    method Copy() returns (c: Edges<T>)
      requires Valid()
      ensures fresh(c) && c.Valid() && c.nameOf == nameOf && c.list == list && c.index == index
    {
      var m: map<string, T> := map[];
      var todo := index.Keys;
      while todo != {}
        invariant todo <= index.Keys
        invariant m == map k | k in index.Keys - todo :: index[k]
        decreases |todo|
      {
        var k :| k in todo;
        m := m[nameOf(index[k]) := index[k]];
        todo := todo - {k};
      }
      c := new Edges(nameOf);
      c.index := m;
      c.list := list;
    }

    /** `Add`: an element whose name is already indexed changes nothing; any other is indexed and appended. */
    method Add(x: T)
      requires Valid()
      modifies this
      ensures Valid()
      ensures nameOf(x) in old(index) ==> list == old(list) && index == old(index)
      ensures nameOf(x) !in old(index) ==> list == old(list) + [x] && index == old(index)[nameOf(x) := x]
    {
      if nameOf(x) in index {
        return;
      }
      index := index[nameOf(x) := x];
      list := list + [x];
    }

    /**
     * `Delete`: an absent name changes nothing; otherwise the element goes
     * from the map and is cut out of the list, the rest keeping its order.
     */
    method Delete(name: string)
      requires Valid()
      modifies this
      ensures Valid()
      ensures index == old(index) - {name}
      ensures list == RemoveNamed(old(list), name, nameOf)
    {
      if name !in index {
        RemoveNamedAbsent(list, name, nameOf);
        return;
      }
      var k := Position(name);
      RemoveNamedAt(list, name, nameOf, k);
      IndexedRemove(list, index, nameOf, name);
      list := list[..k] + list[k + 1..];
      index := index - {name};
    }

    /** The position of the element named `name` in the list, found by a scan from the front. */
    method Position(name: string) returns (k: nat)
      requires Valid() && name in index
      ensures k < |list| && nameOf(list[k]) == name
      ensures forall i | 0 <= i < k :: nameOf(list[i]) != name
    {
      k := 0;
      while k < |list|
        invariant k <= |list|
        invariant forall i | 0 <= i < k :: nameOf(list[i]) != name
      {
        if nameOf(list[k]) == name {
          return;
        }
        k := k + 1;
      }
      assert false;
    }

    /** `List`: a copy of the list sorted by name; the names rise strictly. */
    method List() returns (l: seq<T>)
      requires Valid()
      ensures multiset(l) == multiset(list) && SortedBy(l, nameOf)
      ensures forall i, j | 0 <= i < j < |l| :: Less(nameOf(l[i]), nameOf(l[j]))
    {
      l := SortBy(list, nameOf);
      forall i, j | 0 <= i < j < |l|
        ensures Less(nameOf(l[i]), nameOf(l[j]))
      {
        SortedDistinct(list, l, nameOf, i, j);
      }
    }
  }

  /** `DependencyMap`: the lib graph's predecessor and successor sets. */
  type DependencyMap = Edges<DependencyReference>

  /** `NewDependencyMap`. */
  method NewDependencyMap() returns (m: DependencyMap)
    ensures fresh(m) && m.Valid() && m.nameOf == RefName && m.list == [] && m.index == map[]
  {
    m := new Edges(RefName);
  }

  /** A copy is its own object: adding to the original afterwards leaves the copy as it was. */
  method CopyThenAdd<T>(e: Edges<T>, x: T) returns (c: Edges<T>)
    requires e.Valid()
    modifies e
    ensures c.list == old(e.list) && c.index == old(e.index)
    ensures e.nameOf(x) !in old(e.index) ==> e.list == old(e.list) + [x]
  {
    c := e.Copy();
    e.Add(x);
  }

  /** Removing the element named `name` from the list and the key `name` from the map keeps them indexed. */
  lemma IndexedRemove<T>(list: seq<T>, index: map<string, T>, nameOf: T -> string, name: string)
    requires Indexed(list, index, nameOf)
    ensures Indexed(RemoveNamed(list, name, nameOf), index - {name}, nameOf)
  {
    RemoveNamedMembers(list, name, nameOf);
    RemoveNamedDistinct(list, name, nameOf);
    var r := RemoveNamed(list, name, nameOf);
    forall i | 0 <= i < |r|
      ensures nameOf(r[i]) in index - {name} && (index - {name})[nameOf(r[i])] == r[i]
    {
      assert r[i] in r;
      var j :| 0 <= j < |list| && list[j] == r[i];
    }
  }

  lemma {:induction false} RemoveNamedAbsent<T>(list: seq<T>, name: string, nameOf: T -> string)
    requires forall i | 0 <= i < |list| :: nameOf(list[i]) != name
    ensures RemoveNamed(list, name, nameOf) == list
  {
    if list != [] {
      RemoveNamedAbsent(list[1..], name, nameOf);
    }
  }

  lemma {:induction false} RemoveNamedAt<T>(list: seq<T>, name: string, nameOf: T -> string, k: nat)
    requires k < |list| && nameOf(list[k]) == name
    requires forall i | 0 <= i < k :: nameOf(list[i]) != name
    ensures RemoveNamed(list, name, nameOf) == list[..k] + list[k + 1..]
  {
    if k == 0 {
      assert list[..0] + list[1..] == list[1..];
    } else {
      RemoveNamedAt(list[1..], name, nameOf, k - 1);
      assert list[..k] == [list[0]] + list[1..][..k - 1];
      assert list[k + 1..] == list[1..][k..];
    }
  }

  /** A sorted permutation of a list with distinct names has strictly rising names. */
  lemma SortedDistinct<T>(list: seq<T>, l: seq<T>, nameOf: T -> string, i: int, j: int)
    requires forall a, b | 0 <= a < b < |list| :: nameOf(list[a]) != nameOf(list[b])
    requires multiset(l) == multiset(list) && SortedBy(l, nameOf) && 0 <= i < j < |l|
    ensures Less(nameOf(l[i]), nameOf(l[j]))
  {
    if nameOf(l[i]) == nameOf(l[j]) {
      assert l[i] in multiset(list) && l[j] in multiset(list);
      var a :| 0 <= a < |list| && list[a] == l[i];
      var b :| 0 <= b < |list| && list[b] == l[j];
      if a == b {
        assert multiset(l)[l[i]] >= 2 by {
          assert l == l[..i] + [l[i]] + l[i + 1..j] + [l[j]] + l[j + 1..];
        }
        OnceInDistinct(list, nameOf, a);
      }
    }
  }

  /** In a list with distinct names, each element occurs once. */
  lemma {:induction false} OnceInDistinct<T>(list: seq<T>, nameOf: T -> string, a: int)
    requires DistinctNames(list, nameOf)
    requires 0 <= a < |list|
    ensures multiset(list)[list[a]] == 1
  {
    var x := list[a];
    assert list == list[..a] + [x] + list[a + 1..];
    assert x !in list[..a] by {
      forall k | 0 <= k < a ensures list[..a][k] != x {
        assert list[k] != list[a];
      }
    }
    assert x !in list[a + 1..] by {
      forall k | a < k < |list| ensures list[k] != x {
        assert nameOf(list[a]) != nameOf(list[k]);
      }
    }
    assert multiset(list) == multiset(list[..a]) + multiset{x} + multiset(list[a + 1..]);
  }
}
