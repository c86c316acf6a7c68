/**
 * The nodes of the current dependency graph (internal/depgraph/module.go and
 * internal/depgraph/package.go): modules at the top level of the hierarchy,
 * packages below the module that provides them.
 *
 * A module or package is a value here. Its place in the hierarchical graph
 * is the `Node` it projects to: name, hash and parent; the reference sets
 * that the Go structs embed are held by the graph (module `Graph`).
 */
module DepGraphNodes {
  import opened Util
  import opened GraphNode

  /** A point in time, as the module proxy reports it for a version. */
  type Timestamp = int

  /** The fields of `modules.ModuleInfo` that the graph reads. */
  datatype ModuleInfo = ModuleInfo(path: string, version: string, time: Option<Timestamp>, replace: Option<ModuleInfo>)

  /** The fields of `modules.PackageInfo` that the graph reads: the import path and the package clause's name. */
  datatype PackageInfo = PackageInfo(importPath: string, name: string)

  datatype VersionConstraint = VersionConstraint(source: string, target: string)

  /**
   * `Module`: the module's information, the targets it requires indirectly
   * (by name), the version constraints it puts on its targets (by hash), and
   * whether some non-test import reaches it.
   */
  datatype Module = Module(info: ModuleInfo, indirects: map<string, bool>, constraints: map<string, VersionConstraint>, nonTest: bool)

  /** `Package`: the package's information, the module providing it, and whether some non-test import reaches it. */
  datatype Package = Package(info: PackageInfo, parent: Module, nonTest: bool)

  /** A member of the dependency graph: the two kinds of `graph.Node` the tool builds. */
  datatype DepNode = ModuleNode(mod: Module) | PackageNode(pkg: Package)

  /** `NewModule`: no indirects, no constraints, not yet reached by a non-test import. */
  function NewModule(info: ModuleInfo): (m: Module)
    ensures m.info == info && m.indirects == map[] && m.constraints == map[] && !m.nonTest
  {
    Module(info, map[], map[], false)
  }

  /** `moduleHash`. */
  function ModuleHash(name: string): string
  {
    "module " + name
  }

  /** `packageHash`. */
  function PackageHash(name: string): string
  {
    "package " + name
  }

  /**
   * The two hash spaces are disjoint and each is injective, so a hash names
   * at most one module or one package.
   */
  lemma HashesDistinct(a: string, b: string)
    ensures ModuleHash(a) != PackageHash(b)
    ensures ModuleHash(a) == ModuleHash(b) <==> a == b
    ensures PackageHash(a) == PackageHash(b) <==> a == b
  {
    assert ModuleHash(a)[0] == 'm' && PackageHash(b)[0] == 'p';
    if ModuleHash(a) == ModuleHash(b) {
      assert a == ModuleHash(a)[7..] == ModuleHash(b)[7..] == b;
    }
    if PackageHash(a) == PackageHash(b) {
      assert a == PackageHash(a)[8..] == PackageHash(b)[8..] == b;
    }
  }

  /** `Name`: a module's path, a package's import path. */
  function Name(n: DepNode): string
  {
    match n
    case ModuleNode(m) => m.info.path
    case PackageNode(p) => p.info.importPath
  }

  /** `Hash`. */
  function Hash(n: DepNode): string
  {
    match n
    case ModuleNode(m) => ModuleHash(m.info.path)
    case PackageNode(p) => PackageHash(p.info.importPath)
  }

  /** The place of a module in the hierarchy: no parent. */
  function ModuleGraphNode(m: Module): (r: Node)
    ensures r.name == m.info.path && r.hash == ModuleHash(m.info.path) && Depth(r) == 0
  {
    Node(m.info.path, ModuleHash(m.info.path), None)
  }

  /** The place of a node in the hierarchy: a package's parent is its module's node. */
  function GraphNodeOf(n: DepNode): (r: Node)
    ensures r.name == Name(n) && r.hash == Hash(n)
    ensures n.ModuleNode? ==> r.parent.None? && Depth(r) == 0
    ensures n.PackageNode? ==> r.parent == Some(ModuleGraphNode(n.pkg.parent)) && Depth(r) == 1
  {
    match n
    case ModuleNode(m) => ModuleGraphNode(m)
    case PackageNode(p) => Node(p.info.importPath, PackageHash(p.info.importPath), Some(ModuleGraphNode(p.parent)))
  }

  /** `SelectedVersion`: the replacement's version when the module is replaced, else its own. */
  function SelectedVersion(m: Module): (v: string)
    ensures m.info.replace.Some? ==> v == m.info.replace.value.version
    ensures m.info.replace.None? ==> v == m.info.version
  {
    if m.info.replace.Some? then m.info.replace.value.version else m.info.version
  }

  /** `Timestamp`: the replacement's time when the module is replaced, else its own. */
  function TimestampOf(m: Module): (t: Option<Timestamp>)
    ensures m.info.replace.Some? ==> t == m.info.replace.value.time
    ensures m.info.replace.None? ==> t == m.info.time
  {
    if m.info.replace.Some? then m.info.replace.value.time else m.info.time
  }

  /** `isTestDependency`: no non-test import reaches the node. */
  predicate IsTestDependency(n: DepNode)
  {
    match n
    case ModuleNode(m) => !m.nonTest
    case PackageNode(p) => !p.nonTest
  }

  /**
   * What name matching without `:test` discards: a test dependency, or a
   * package whose package clause names an external test package.
   */
  predicate TestOnly(n: DepNode)
  {
    (n.PackageNode? && HasSuffix(n.pkg.info.name, "_test")) || IsTestDependency(n)
  }

  /** The DOT label of an annotated module: its name over the replacement path, if any, and the selected version. */
  function ModuleLabel(m: Module): string
  {
    var replacement := if m.info.replace.Some? then m.info.replace.value.path + "<br />" else "";
    ("label=<" + m.info.path + "<br />") + ("<font point-size=\"10\">" + replacement) + (SelectedVersion(m) + "</font>>")
  }

  /** The label opens with the module's name and closes with its selected version. */
  lemma LabelShape(m: Module)
    ensures HasPrefix(ModuleLabel(m), "label=<" + m.info.path + "<br />")
    ensures HasSuffix(ModuleLabel(m), SelectedVersion(m) + "</font>>")
  {
    var replacement := if m.info.replace.Some? then m.info.replace.value.path + "<br />" else "";
    var head, middle, tail := "label=<" + m.info.path + "<br />", "<font point-size=\"10\">" + replacement, SelectedVersion(m) + "</font>>";
    assert ModuleLabel(m) == (head + middle) + tail;
    assert ((head + middle) + tail)[|head + middle|..] == tail;
    assert (head + middle) + tail == head + (middle + tail);
    assert (head + (middle + tail))[..|head|] == head;
  }

  /**
   * `NodeAttributes`: a module gets one label exactly when annotating and
   * its selected version is known; a package gets none.
   */
  function NodeAttributes(n: DepNode, annotate: bool): (r: seq<string>)
    ensures |r| <= 1
    ensures r != [] <==> n.ModuleNode? && annotate && SelectedVersion(n.mod) != ""
    ensures r != [] ==> HasPrefix(r[0], "label=<" + Name(n) + "<br />")
    ensures r != [] ==> HasSuffix(r[0], SelectedVersion(n.mod) + "</font>>")
  {
    match n
    case PackageNode(_) => []
    case ModuleNode(m) =>
      if annotate && SelectedVersion(m) != "" then
        LabelShape(m);
        [ModuleLabel(m)]
      else []
  }

  /** Whether the module records `name` as an indirect requirement; a missing entry reads as false. */
  predicate Indirect(m: Module, name: string)
  {
    name in m.indirects && m.indirects[name]
  }

  /**
   * `EdgeAttributes` between two modules: dashed exactly when the target is
   * required indirectly, then a label exactly when annotating and a version
   * constraint on the target is recorded. Packages give no edge attributes;
   * a module's edges lead to modules, which the type assertion in the source
   * relies on.
   */
  function EdgeAttributes(n: DepNode, target: DepNode, annotate: bool): (r: seq<string>)
    requires n.ModuleNode? ==> target.ModuleNode?
    ensures n.PackageNode? ==> r == []
    ensures n.ModuleNode? ==> ("style=dashed" in r <==> Indirect(n.mod, Name(target)))
    ensures n.ModuleNode? ==>
      |r| == (if Indirect(n.mod, Name(target)) then 1 else 0)
           + (if annotate && Hash(target) in n.mod.constraints then 1 else 0)
    ensures r != [] && !Indirect(n.mod, Name(target)) ==> HasPrefix(r[0], "label=<")
  {
    match n
    case PackageNode(_) => []
    case ModuleNode(m) =>
      var dashed := if Indirect(m, Name(target)) then ["style=dashed"] else [];
      var key := Hash(target);
      var labelled := if key in m.constraints && annotate
        then ["label=<<font point-size=\"10\">" + m.constraints[key].target + "</font>>"]
        else [];
      assert forall s | s in labelled :: s[0] == 'l';
      dashed + labelled
  }
}
