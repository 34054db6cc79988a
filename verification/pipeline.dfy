/** The whole run (`RequirementsGenerator.generate`): collect the project's imports,
    resolve their versions, list them and render the manifest. The run reports either
    the text it writes or the error it logs instead. */
module Pipeline {
  import opened Wrappers
  import opened Imports
  import opened Versions
  import opened Manifest

  datatype RunError =
    | ScanFailed(scan: ScanError)
    | FormatFailed(format: FormatError)

  method Generate(files: seq<SourceFile>, stdlib: set<string>, lookup: string -> Option<string>, format: string)
    returns (r: Result<string, RunError>)
    ensures r.Failure? && r.error.ScanFailed? <==> exists f :: f in files && IsPython(f.name) && Fails(f)
    ensures r.Failure? && r.error.FormatFailed? <==>
      (!(exists f :: f in files && IsPython(f.name) && Fails(f)) && format != "pip" && format != "poetry")
    ensures r.Success? ==> exists entries :: (Enumerates(entries, Resolve(ProjectSpec(files, stdlib), lookup))
      && Render(format, entries) == Success(r.value))
  {
    var imports := ProjectImports(files, stdlib);
    if imports.Failure? {
      return Failure(ScanFailed(imports.error));
    }
    var versions := ResolveVersions(imports.value, lookup);
    var entries := Items(versions);
    var text := Render(format, entries);
    if text.Failure? {
      return Failure(FormatFailed(text.error));
    }
    return Success(text.value);
  }

  /** A project that imports nothing outside the standard library gets a manifest with
      no dependency lines: empty for pip, the two fixed lines for Poetry. */
  lemma NoDependenciesNoLines(files: seq<SourceFile>, stdlib: set<string>, lookup: string -> Option<string>,
                              entries: seq<Entry>)
    requires ProjectSpec(files, stdlib) == {}
    requires Enumerates(entries, Resolve(ProjectSpec(files, stdlib), lookup))
    ensures Render("pip", entries) == Success("")
    ensures Render("poetry", entries) == Success(PoetryPreamble)
  {
    EnumerationCoversMapping(entries, Resolve(ProjectSpec(files, stdlib), lookup));
    assert entries == [];
    EmptyExamples();
  }
}
