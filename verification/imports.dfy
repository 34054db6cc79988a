/** The import collector: which third-party top-level modules a project's source
    files import (`RequirementsGenerator.find_imports` and `get_project_imports`). */
module Imports {
  import opened Wrappers
  import opened Text

  /** One name of an `import` statement, `import name as asname`. */
  datatype Alias = Alias(name: string, asname: Option<string>)

  /** The nodes of a parsed file, in the order the syntax-tree walk visits them.
      `level` counts the leading dots of a from-import (0 for an absolute import);
      every node kind the scan does not inspect is `Other`. */
  datatype Node =
    | Import(names: seq<Alias>)
    | ImportFrom(level: nat, modulePath: Option<string>)
    | Other

  /** What reading and parsing one file produced. A syntax error is caught and the
      file is skipped; any other failure while reading or parsing (a file that is not
      valid UTF-8, for one) is not caught and ends the scan. */
  datatype ParseOutcome =
    | Parsed(nodes: seq<Node>)
    | SyntaxError
    | ReadError

  /** A file met by the directory walk: its base name and what parsing it produced. */
  datatype SourceFile = SourceFile(name: string, outcome: ParseOutcome)

  /** Exceptions that escape the scan. */
  datatype ScanError =
    | Unreadable(file: string)   // reading or parsing failed with something other than a syntax error
    | ModuleIsNone               // an absolute from-import without a module: `None.split` raises

  /** The top-level package of a dotted module path: the text before the first `.`,
      or the whole name when it has no dot. */
  function FirstSegment(name: string): (r: string)
    ensures '.' !in r
    ensures r <= name
    ensures r == name || name[|r|] == '.'
  {
    match IndexOf(name, '.')
    case None => name
    case Some(i) => name[..i]
  }

  /** The names one node contributes before the standard library is removed. */
  function NodeNames(n: Node): set<string>
  {
    match n
    case Import(names) => set a | a in names :: FirstSegment(a.name)
    case ImportFrom(level, path) =>
      if level == 0 && path.Some? then {FirstSegment(path.value)} else {}
    case Other => {}
  }

  /** Every top-level name the import statements of a file reference. */
  function Raw(nodes: seq<Node>): set<string>
  {
    set n, x | n in nodes && x in NodeNames(n) :: x
  }

  /** An absolute from-import without a module, on which the scan raises. */
  predicate Moduleless(n: Node)
  {
    n.ImportFrom? && n.level == 0 && n.modulePath.None?
  }

  predicate HasModuleless(nodes: seq<Node>)
  {
    exists n :: n in nodes && Moduleless(n)
  }

  lemma RawAppend(a: seq<Node>, b: seq<Node>)
    ensures Raw(a + b) == Raw(a) + Raw(b)
  {
    forall x | x in Raw(a + b) ensures x in Raw(a) + Raw(b) {
      var n :| n in a + b && x in NodeNames(n);
    }
  }

  lemma RawSingle(n: Node)
    ensures Raw([n]) == NodeNames(n)
  {
    assert n in [n];
  }

  /** `find_imports` on one file: the file's top-level imported names minus the
      standard library; nothing for a file with a syntax error. */
  method FindImports(file: SourceFile, stdlib: set<string>) returns (r: Result<set<string>, ScanError>)
    ensures file.outcome.SyntaxError? ==> r == Success({})
    ensures file.outcome.ReadError? ==> r == Failure(Unreadable(file.name))
    ensures file.outcome.Parsed? ==> (r.Failure? <==> HasModuleless(file.outcome.nodes))
    ensures file.outcome.Parsed? && r.Failure? ==> r.error == ModuleIsNone
    ensures file.outcome.Parsed? && r.Success? ==> r.value == Raw(file.outcome.nodes) - stdlib
    ensures r.Success? ==> r.value !! stdlib
    ensures r.Success? ==> forall x :: x in r.value ==> '.' !in x
  {
    match file.outcome
    case SyntaxError => return Success({});
    case ReadError => return Failure(Unreadable(file.name));
    case Parsed(nodes) =>
      var imports: set<string> := {};
      var i := 0;
      while i < |nodes|
        invariant 0 <= i <= |nodes|
        invariant imports == Raw(nodes[..i])
        invariant !HasModuleless(nodes[..i])
      {
        assert nodes[..i + 1] == nodes[..i] + [nodes[i]];
        RawAppend(nodes[..i], [nodes[i]]);
        RawSingle(nodes[i]);
        match nodes[i] {
          case Import(names) =>
            var j := 0;
            while j < |names|
              invariant 0 <= j <= |names|
              invariant imports == Raw(nodes[..i]) + set a | a in names[..j] :: FirstSegment(a.name)
            {
              assert names[..j + 1] == names[..j] + [names[j]];
              imports := imports + {FirstSegment(names[j].name)};
              j := j + 1;
            }
            assert names[..j] == names;
          case ImportFrom(level, path) =>
            if level == 0 {
              if path.None? {
                assert nodes[i] in nodes && Moduleless(nodes[i]);
                return Failure(ModuleIsNone);
              }
              imports := imports + {FirstSegment(path.value)};
            }
          case Other =>
        }
        i := i + 1;
      }
      assert nodes[..i] == nodes;
      return Success(imports - stdlib);
  }

  /** Python's `str.endswith('.py')`. */
  predicate IsPython(name: string): (r: bool)
    ensures r <==> exists stem :: name == stem + ".py"
  {
    var r := |name| >= 3 && name[|name| - 3..] == ".py";
    assert r ==> name == name[..|name| - 3] + ".py";
    r
  }

  /** A file whose scan raises instead of returning a set. */
  predicate Fails(f: SourceFile)
  {
    f.outcome.ReadError? || (f.outcome.Parsed? && HasModuleless(f.outcome.nodes))
  }

  function ErrorOf(f: SourceFile): ScanError
  {
    if f.outcome.ReadError? then Unreadable(f.name) else ModuleIsNone
  }

  /** The names one file contributes when its scan does not raise. */
  function FileImports(f: SourceFile, stdlib: set<string>): set<string>
  {
    if f.outcome.Parsed? then Raw(f.outcome.nodes) - stdlib else {}
  }

  /** The project's dependencies: everything the `.py` files contribute. */
  function ProjectSpec(files: seq<SourceFile>, stdlib: set<string>): set<string>
  {
    set f, x | f in files && IsPython(f.name) && x in FileImports(f, stdlib) :: x
  }

  lemma ProjectSpecAppend(a: seq<SourceFile>, b: seq<SourceFile>, stdlib: set<string>)
    ensures ProjectSpec(a + b, stdlib) == ProjectSpec(a, stdlib) + ProjectSpec(b, stdlib)
  {
    forall x | x in ProjectSpec(a + b, stdlib) ensures x in ProjectSpec(a, stdlib) + ProjectSpec(b, stdlib) {
      var f :| f in a + b && IsPython(f.name) && x in FileImports(f, stdlib);
    }
  }

  lemma ProjectSpecSingle(f: SourceFile, stdlib: set<string>)
    ensures ProjectSpec([f], stdlib) == if IsPython(f.name) then FileImports(f, stdlib) else {}
  {
    assert f in [f];
  }

  /** `get_project_imports`: the union of `find_imports` over the `.py` files, in the
      order the directory walk meets them. The first file whose scan raises ends it. */
  method ProjectImports(files: seq<SourceFile>, stdlib: set<string>) returns (r: Result<set<string>, ScanError>)
    ensures r.Failure? <==> exists f :: f in files && IsPython(f.name) && Fails(f)
    ensures r.Failure? ==> exists i :: (0 <= i < |files| && IsPython(files[i].name) && Fails(files[i])
      && r.error == ErrorOf(files[i])
      && forall j :: 0 <= j < i ==> !(IsPython(files[j].name) && Fails(files[j])))
    ensures r.Success? ==> r.value == ProjectSpec(files, stdlib)
    ensures r.Success? ==> r.value !! stdlib
  {
    var imports: set<string> := {};
    var i := 0;
    while i < |files|
      invariant 0 <= i <= |files|
      invariant imports == ProjectSpec(files[..i], stdlib)
      invariant forall j :: 0 <= j < i ==> !(IsPython(files[j].name) && Fails(files[j]))
    {
      assert files[..i + 1] == files[..i] + [files[i]];
      ProjectSpecAppend(files[..i], [files[i]], stdlib);
      ProjectSpecSingle(files[i], stdlib);
      if IsPython(files[i].name) {
        var found := FindImports(files[i], stdlib);
        if found.Failure? {
          return Failure(found.error);
        }
        imports := imports + found.value;
      }
      i := i + 1;
    }
    assert files[..i] == files;
    ProjectSpecExcludesStdlib(files, stdlib);
    return Success(imports);
  }

  lemma ProjectSpecExcludesStdlib(files: seq<SourceFile>, stdlib: set<string>)
    ensures ProjectSpec(files, stdlib) !! stdlib
  {
  }

  /** The node with every `as` clause dropped. */
  function Unaliased(n: Node): Node
  {
    match n
    case Import(names) => Import(seq(|names|, k requires 0 <= k < |names| => Alias(names[k].name, None)))
    case _ => n
  }

  /** Two walks that differ at most in the `as` names of their imports. */
  predicate SameUpToAliases(a: seq<Node>, b: seq<Node>)
  {
    |a| == |b| && forall k :: 0 <= k < |a| ==> Unaliased(a[k]) == Unaliased(b[k])
  }

  lemma NodeNamesUnaliased(n: Node)
    ensures NodeNames(Unaliased(n)) == NodeNames(n)
  {
    if n.Import? {
      var names := n.names;
      var plain := Unaliased(n).names;
      forall x | x in NodeNames(n) ensures x in NodeNames(Unaliased(n)) {
        var a :| a in names && FirstSegment(a.name) == x;
        var k :| 0 <= k < |names| && names[k] == a;
        assert plain[k] in plain;
      }
      forall x | x in NodeNames(Unaliased(n)) ensures x in NodeNames(n) {
        var a :| a in plain && FirstSegment(a.name) == x;
        var k :| 0 <= k < |plain| && plain[k] == a;
        assert names[k] in names;
      }
    }
  }

  /** `import x as y` reports `x`: renaming the aliases of any imports never changes
      what a file reports. */
  lemma AliasesIgnored(a: seq<Node>, b: seq<Node>)
    requires SameUpToAliases(a, b)
    ensures Raw(a) == Raw(b)
  {
    forall x | x in Raw(a) ensures x in Raw(b) {
      var n :| n in a && x in NodeNames(n);
      var k :| 0 <= k < |a| && a[k] == n;
      NodeNamesUnaliased(a[k]);
      NodeNamesUnaliased(b[k]);
      assert b[k] in b;
    }
    forall x | x in Raw(b) ensures x in Raw(a) {
      var n :| n in b && x in NodeNames(n);
      var k :| 0 <= k < |b| && b[k] == n;
      NodeNamesUnaliased(a[k]);
      NodeNamesUnaliased(b[k]);
      assert a[k] in a;
    }
  }

  /** A from-import adds the first segment of its module exactly when it is absolute
      (level 0); a relative one adds nothing. */
  lemma FromImportReportedIffAbsolute(nodes: seq<Node>, level: nat, path: string)
    ensures Raw(nodes + [ImportFrom(level, Some(path))])
         == Raw(nodes) + (if level == 0 then {FirstSegment(path)} else {})
  {
    RawAppend(nodes, [ImportFrom(level, Some(path))]);
    RawSingle(ImportFrom(level, Some(path)));
  }

  /** `import a, b.c` adds exactly the first segment of each imported name. */
  lemma ImportReportsEachName(nodes: seq<Node>, names: seq<Alias>)
    ensures Raw(nodes + [Import(names)])
         == Raw(nodes) + set k | 0 <= k < |names| :: FirstSegment(names[k].name)
  {
    RawAppend(nodes, [Import(names)]);
    RawSingle(Import(names));
    assert forall a :: a in names <==> exists k :: 0 <= k < |names| && names[k] == a;
  }

  /** Nodes that are not import statements, and relative from-imports, never add a name. */
  lemma OtherNodesIgnored(nodes: seq<Node>, n: Node)
    requires n.Other? || (n.ImportFrom? && n.level > 0)
    ensures Raw(nodes + [n]) == Raw(nodes)
  {
    RawAppend(nodes, [n]);
    RawSingle(n);
  }

  /** The package of `pkg.rest` is `pkg` whenever `pkg` has no dot. */
  lemma FirstSegmentOfDotted(pkg: string, rest: string)
    requires '.' !in pkg
    ensures FirstSegment(pkg + "." + rest) == pkg
  {
    var name := pkg + "." + rest;
    assert name == pkg + ['.'] + rest;
    IndexOfAfterPrefix(pkg, '.', rest);
    assert name[..|pkg|] == pkg;
  }

  /** A submodule import reports only its top-level package. */
  lemma SubmoduleReportsPackage()
    ensures FirstSegment("numpy.linalg") == "numpy"
  {
    assert '.' !in "numpy";
    FirstSegmentOfDotted("numpy", "linalg");
    assert "numpy" + "." + "linalg" == "numpy.linalg";
  }

  /** A name without a dot is reported whole. */
  lemma UndottedReportedWhole()
    ensures FirstSegment("requests") == "requests"
  {
    assert '.' !in "requests";
  }

  /** A file holding `import requests` and `from . import helper` reports only `requests`. */
  lemma RelativeImportExample()
    ensures Raw([Import([Alias("requests", None)]), ImportFrom(1, None)]) == {"requests"}
  {
    UndottedReportedWhole();
    var req := Import([Alias("requests", None)]);
    assert [req, ImportFrom(1, None)] == [req] + [ImportFrom(1, None)];
    OtherNodesIgnored([req], ImportFrom(1, None));
    RawSingle(req);
  }

  /** `import name as alias` reports the first segment of `name`, whatever the alias. */
  lemma AliasedImportReportsName(name: string, alias: string)
    ensures Raw([Import([Alias(name, Some(alias))])]) == {FirstSegment(name)}
  {
    RawSingle(Import([Alias(name, Some(alias))]));
  }

  /** `import numpy.linalg as la` reports `numpy`, neither the alias nor the submodule. */
  lemma AliasedSubmoduleExample()
    ensures Raw([Import([Alias("numpy.linalg", Some("la"))])]) == {"numpy"}
  {
    AliasedImportReportsName("numpy.linalg", "la");
    SubmoduleReportsPackage();
  }

  /** A file importing only standard modules contributes nothing. */
  lemma StandardOnlyFileContributesNothing()
    ensures FileImports(SourceFile("app.py", Parsed([Import([Alias("os", None)]), Import([Alias("json", None)])])),
                        {"os", "json", "sys"}) == {}
  {
    RawAppend([Import([Alias("os", None)])], [Import([Alias("json", None)])]);
    RawSingle(Import([Alias("os", None)]));
    RawSingle(Import([Alias("json", None)]));
  }

  /** Adding a file to the walk adds its names when it is a `.py` file, and nothing
      otherwise; a file with a syntax error adds nothing either way. */
  lemma AddedFileContribution(a: seq<SourceFile>, f: SourceFile, b: seq<SourceFile>, stdlib: set<string>)
    ensures ProjectSpec(a + [f] + b, stdlib)
         == ProjectSpec(a + b, stdlib) + (if IsPython(f.name) then FileImports(f, stdlib) else {})
    ensures f.outcome.SyntaxError? ==> ProjectSpec(a + [f] + b, stdlib) == ProjectSpec(a + b, stdlib)
  {
    ProjectSpecAppend(a + [f], b, stdlib);
    ProjectSpecAppend(a, [f], stdlib);
    ProjectSpecAppend(a, b, stdlib);
    ProjectSpecSingle(f, stdlib);
  }
}
