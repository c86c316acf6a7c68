/**
 * The generator of the shell-completion sources (internal/completion/gen/gen.go):
 * each `.sh` input becomes a Go file holding one string constant, whose
 * file name and constant name are derived from the input's name. Reading
 * and writing files are parameters and outcomes here.
 */
module CompletionGen {
  import opened Util

  // ---------------------------------------------------------------------------
  // Unix path names, as path/filepath computes them.

  /** `path` without its trailing separators. */
  function TrimSlashes(path: string): (r: string)
    ensures |r| <= |path| && r == path[..|r|]
    ensures r == [] || r[|r| - 1] != '/'
    ensures forall k | |r| <= k < |path| :: path[k] == '/'
  {
    if path != [] && path[|path| - 1] == '/' then TrimSlashes(path[..|path| - 1]) else path
  }

  /** What follows the last separator of `path`. */
  function LastSegment(path: string): (r: string)
    ensures '/' !in r && HasSuffix(path, r)
    ensures |r| < |path| ==> path[|path| - |r| - 1] == '/'
  {
    if path == [] || path[|path| - 1] == '/' then []
    else LastSegment(path[..|path| - 1]) + [path[|path| - 1]]
  }

  /** `filepath.Base`: the last element of `path`, `.` for the empty path and `/` for a path of separators. */
  function Base(path: string): (r: string)
    ensures r != [] && (r == "/" || '/' !in r)
  {
    if path == [] then "."
    else
      var trimmed := TrimSlashes(path);
      if trimmed == [] then "/" else LastSegment(trimmed)
  }

  /**
   * `filepath.Ext`: the suffix of `path` from the last dot of its last
   * element, or empty when that element has no dot.
   */
  function Ext(path: string): (r: string)
    ensures HasSuffix(path, r)
    ensures r == [] || r[0] == '.'
    ensures forall k | 0 < k < |r| :: r[k] != '.' && r[k] != '/'
    ensures r == [] ==> forall k | 0 <= k < |path| && path[k] == '.' :: '/' in path[k + 1..]
  {
    if path == [] then []
    else
      var init, c := path[..|path| - 1], path[|path| - 1];
      if c == '/' then []
      else if c == '.' then "."
      else
        var e := Ext(init);
        if e == [] then
          assert forall k | 0 <= k < |path| && path[k] == '.' :: '/' in path[k + 1..] by {
            forall k | 0 <= k < |path| && path[k] == '.'
              ensures '/' in path[k + 1..]
            {
              assert k < |init| && init[k] == '.';
              assert '/' in init[k + 1..];
              assert init[k + 1..] == path[k + 1..|path| - 1];
            }
          }
          []
        else e + [c]
  }

  /** The input's name without its directory and extension. */
  function Stem(inputPath: string): string
  {
    TrimSuffix(Base(inputPath), Ext(inputPath))
  }

  /**
   * `filepath.Join` of an output directory and a file name without
   * separators: the empty and the current directory leave the name alone.
   */
  function JoinDir(outputDir: string, name: string): string
  {
    if outputDir == "" || outputDir == "." then name
    else if outputDir[|outputDir| - 1] == '/' then outputDir + name
    else outputDir + "/" + name
  }

  /** The joined path ends with the file name. */
  lemma JoinDirEndsWith(outputDir: string, name: string)
    ensures HasSuffix(JoinDir(outputDir, name), name)
  {
    var r := JoinDir(outputDir, name);
    assert r[|r| - |name|..] == name;
  }

  // ---------------------------------------------------------------------------
  // getFilename and getVariableName

  /** `getFilename`: the input's stem, lower-cased, with the `.go` extension, in the output directory. */
  function GetFilename(outputDir: string, inputPath: string): (r: string)
    ensures HasSuffix(r, ToLower(Stem(inputPath)) + ".go")
  {
    var name := ToLower(Stem(inputPath)) + ".go";
    JoinDirEndsWith(outputDir, name);
    JoinDir(outputDir, name)
  }

  /**
   * The constant name built from `s`: underscores are dropped, the rune
   * after an underscore (or the first rune, while `wasUnderscore` holds)
   * is upper-cased and every other rune lower-cased.
   */
  function Camel(s: string, wasUnderscore: bool): string
  {
    if s == [] then []
    else if s[0] == '_' then Camel(s[1..], true)
    else if wasUnderscore then [ToUpperRune(s[0])] + Camel(s[1..], false)
    else [ToLowerRune(s[0])] + Camel(s[1..], false)
  }

  /** The constant name for an input. */
  function VariableName(inputPath: string): string
  {
    Camel(Stem(inputPath), true)
  }

  /** One rune of the loop of `getVariableName`: what it appends and the flag it leaves. */
  lemma CamelStep(s: string, i: int, wasUnderscore: bool)
    requires 0 <= i < |s|
    ensures Camel(s[i..], wasUnderscore) ==
      (if s[i] == '_' then [] else if wasUnderscore then [ToUpperRune(s[i])] else [ToLowerRune(s[i])])
      + Camel(s[i + 1..], s[i] == '_')
  {
    assert s[i..][1..] == s[i + 1..];
  }

  lemma AppendAssoc(a: string, b: string, c: string)
    ensures a + (b + c) == (a + b) + c
  {
  }

  /** `getVariableName`: the rune loop with its `wasUnderscore` flag. */
  method GetVariableName(inputPath: string) returns (varname: string)
    ensures varname == VariableName(inputPath)
  {
    var stem := Stem(inputPath);
    varname := "";
    var wasUnderscore := true;
    for i := 0 to |stem|
      invariant varname + Camel(stem[i..], wasUnderscore) == VariableName(inputPath)
    {
      CamelStep(stem, i, wasUnderscore);
      var r := stem[i];
      ghost var piece: string := if r == '_' then [] else if wasUnderscore then [ToUpperRune(r)] else [ToLowerRune(r)];
      AppendAssoc(varname, piece, Camel(stem[i + 1..], r == '_'));
      if r == '_' {
        wasUnderscore := true;
      } else if wasUnderscore {
        wasUnderscore := false;
        varname := varname + [ToUpperRune(r)];
      } else {
        varname := varname + [ToLowerRune(r)];
      }
    }
    assert stem[|stem|..] == [];
  }

  // ---------------------------------------------------------------------------
  // processFile

  /** `constTemplate` up to the constant's value, filled with the package and constant names. */
  function Header(outputPackage: string, varname: string): string
  {
    "// Code generated. DO NOT EDIT.\n\npackage " + outputPackage + "\n\nconst " + varname + " = `"
  }

  /** `constTemplate` filled in: the value is a raw string literal. */
  function Generated(outputPackage: string, varname: string, content: string): string
  {
    Header(outputPackage, varname) + content + "`\n"
  }

  /** What `processFile` does with one input. */
  datatype Outcome =
    | Skipped                                 // no `.sh` extension: nothing read, no error
    | ReadFailed                              // the input could not be read
    | Written(path: string, text: string)     // the generated file and its contents

  /**
   * `processFile`: inputs without the `.sh` extension are skipped; the
   * others are read (`raw`, `None` when reading fails) and their trimmed
   * contents, ending in a newline, become the constant.
   */
  function ProcessFile(outputDir: string, outputPackage: string, inputPath: string, raw: Option<string>): Outcome
  {
    if Ext(inputPath) != ".sh" then Skipped
    else if raw.None? then ReadFailed
    else Written(GetFilename(outputDir, inputPath), Generated(outputPackage, VariableName(inputPath), TrimSpace(raw.value) + "\n"))
  }

  // ---------------------------------------------------------------------------
  // Properties of the names.

  /** `s` without its underscores. */
  function Unscored(s: string): (r: string)
  {
    if s == [] then []
    else (if s[0] == '_' then [] else [s[0]]) + Unscored(s[1..])
  }

  /** The extension is part of the last element, so the stem and the extension make up the base name. */
  lemma {:induction false} ExtInSegment(path: string)
    ensures HasSuffix(LastSegment(path), Ext(path))
    decreases |path|
  {
    if path != [] && path[|path| - 1] != '/' {
      var init := path[..|path| - 1];
      ExtInSegment(init);
    }
  }

  lemma StemAndExt(inputPath: string)
    ensures Stem(inputPath) + Ext(inputPath) == Base(inputPath)
  {
    if inputPath != [] && TrimSlashes(inputPath) != [] {
      if inputPath[|inputPath| - 1] == '/' {
        assert Ext(inputPath) == [];
      } else {
        assert TrimSlashes(inputPath) == inputPath;
        ExtInSegment(inputPath);
      }
    }
  }

  /** A path ending in `.sh` has exactly that extension. */
  lemma ShellExt(inputPath: string)
    requires HasSuffix(inputPath, ".sh")
    ensures Ext(inputPath) == ".sh"
  {
    var n := |inputPath|;
    var p1, p2 := inputPath[..n - 1], inputPath[..n - 2];
    assert p1[..n - 2] == p2 && p1[n - 2] == 's' && p2[n - 3] == '.';
    assert Ext(p2) == ".";
  }

  /** `processFile` writes exactly the inputs whose names end in `.sh`, and ignores the others without an error. */
  lemma ProcessesShellOnly(outputDir: string, outputPackage: string, inputPath: string, raw: Option<string>)
    ensures ProcessFile(outputDir, outputPackage, inputPath, raw) == Skipped <==> !HasSuffix(inputPath, ".sh")
  {
    if HasSuffix(inputPath, ".sh") {
      ShellExt(inputPath);
    }
  }

  /** A path without separators is its own base name. */
  lemma {:induction false} WholeSegment(s: string)
    requires '/' !in s
    ensures LastSegment(s) == s
    decreases |s|
  {
    if s != [] {
      WholeSegment(s[..|s| - 1]);
    }
  }

  /** For an input `<stem>.sh` in the current directory, the stem is the name before the extension. */
  lemma ShellStem(stem: string)
    requires '/' !in stem
    ensures Stem(stem + ".sh") == stem
  {
    var p := stem + ".sh";
    ShellExt(p);
    assert '/' !in p;
    assert TrimSlashes(p) == p;
    WholeSegment(p);
  }

  /** The output file of `<stem>.sh`: the stem lower-cased with `.go`, placed in the output directory. */
  lemma ShellFilename(outputDir: string, stem: string)
    requires '/' !in stem
    ensures outputDir == "" || outputDir == "." ==> GetFilename(outputDir, stem + ".sh") == ToLower(stem) + ".go"
    ensures outputDir != "" && outputDir != "." && outputDir[|outputDir| - 1] != '/' ==>
      GetFilename(outputDir, stem + ".sh") == outputDir + "/" + ToLower(stem) + ".go"
  {
    ShellStem(stem);
    var name := ToLower(stem) + ".go";
    assert GetFilename(outputDir, stem + ".sh") == JoinDir(outputDir, name);
    AppendAssoc(outputDir + "/", ToLower(stem), ".go");
  }

  /** The constant name of `<stem>.sh` is built from the stem alone. */
  lemma ShellVariableName(stem: string)
    requires '/' !in stem
    ensures VariableName(stem + ".sh") == Camel(stem, true)
  {
    ShellStem(stem);
  }

  /** The constant name holds no underscore and one rune for each rune of the stem that is not one. */
  lemma {:induction false} CamelDropsUnderscores(s: string, wasUnderscore: bool)
    ensures '_' !in Camel(s, wasUnderscore)
    ensures |Camel(s, wasUnderscore)| == |Unscored(s)|
    decreases |s|
  {
    if s != [] {
      CamelDropsUnderscores(s[1..], true);
      CamelDropsUnderscores(s[1..], false);
    }
  }

  /**
   * Rune `j` of the stem, when it is not an underscore, appears in the
   * constant name after the runes kept before it: upper-cased when it is
   * the first rune or follows an underscore, lower-cased otherwise.
   */
  lemma {:induction false} CamelAt(s: string, wasUnderscore: bool, j: int)
    requires 0 <= j < |s| && s[j] != '_'
    ensures |Unscored(s[..j])| < |Camel(s, wasUnderscore)|
    ensures Camel(s, wasUnderscore)[|Unscored(s[..j])|] ==
      if (j == 0 && wasUnderscore) || (j > 0 && s[j - 1] == '_') then ToUpperRune(s[j]) else ToLowerRune(s[j])
    decreases j
  {
    CamelDropsUnderscores(s, wasUnderscore);
    if j > 0 {
      var rest := s[1..];
      assert rest[j - 1] == s[j] && rest[..j - 1] == s[1..j];
      assert s[..j][1..] == rest[..j - 1];
      if j > 1 {
        assert rest[j - 2] == s[j - 1];
      }
      CamelAt(rest, s[0] == '_', j - 1);
    }
  }

  lemma LowerFoldsCase(c: char)
    ensures ToLowerRune(ToUpperRune(c)) == ToLowerRune(ToLowerRune(c)) == ToLowerRune(c)
  {
  }

  /** Lower-cased, the constant name is the stem lower-cased without its underscores. */
  lemma {:induction false} CamelLowered(s: string, wasUnderscore: bool)
    ensures ToLower(Camel(s, wasUnderscore)) == Unscored(ToLower(s))
    decreases |s|
  {
    if s != [] {
      var head := if s[0] == '_' then [] else [s[0]];
      CamelLowered(s[1..], s[0] == '_');
      LowerFoldsCase(s[0]);
      assert ToLower(s)[1..] == ToLower(s[1..]);
      var c := Camel(s, wasUnderscore);
      if s[0] != '_' {
        assert c[1..] == Camel(s[1..], false);
        assert ToLower(c) == [ToLowerRune(c[0])] + ToLower(c[1..]);
      }
    }
  }

  /** The constant name and the output file name spell the same words: they agree once lower-cased and stripped of underscores. */
  lemma NamesAgree(outputDir: string, inputPath: string)
    ensures HasSuffix(GetFilename(outputDir, inputPath), ToLower(Stem(inputPath)) + ".go")
    ensures ToLower(VariableName(inputPath)) == Unscored(ToLower(Stem(inputPath)))
  {
    CamelLowered(Stem(inputPath), true);
  }

  /** Case does not matter in the input's name: names equal up to case give the same constant name. */
  lemma {:induction false} CamelIgnoresCase(a: string, b: string, wasUnderscore: bool)
    requires ToLower(a) == ToLower(b)
    ensures Camel(a, wasUnderscore) == Camel(b, wasUnderscore)
    decreases |a|
  {
    if a != [] {
      assert ToLowerRune(a[0]) == ToLowerRune(b[0]);
      assert ToLower(a[1..]) == ToLower(a)[1..] == ToLower(b)[1..] == ToLower(b[1..]);
      CamelIgnoresCase(a[1..], b[1..], a[0] == '_');
    }
  }

  /** The generated file begins with the generated-code notice and holds the content verbatim as the constant's value. */
  lemma GeneratedHolds(outputPackage: string, varname: string, content: string)
    ensures var t := Generated(outputPackage, varname, content);
      var h := |Header(outputPackage, varname)|;
      && HasPrefix(t, "// Code generated. DO NOT EDIT.\n")
      && h + 2 <= |t| && t[h..|t| - 2] == content
  {
    var t := Generated(outputPackage, varname, content);
    var h := Header(outputPackage, varname);
    assert t == h + content + "`\n";
    assert t[|h|..|t| - 2] == content;
    assert t[..32] == h[..32];
  }
}
