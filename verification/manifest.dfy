/** The manifest writer (`RequirementsGenerator.write_requirements_file`): renders the
    resolved dependencies as pip requirements or as a Poetry dependency table. The
    entries arrive in the order the versions mapping yields them; the writer does not
    sort them. Reading a manifest back is the writer's partner: every manifest it
    renders parses back to the entries it was rendered from. */
module Manifest {
  import opened Wrappers
  import opened Text
  import opened Versions

  /** A (package, version) pair as the versions mapping yields it. */
  type Entry = (string, string)

  datatype FormatError = UnsupportedFormat

  const PoetryHeader := "[tool.poetry.dependencies]"
  const PythonConstraint := "python = \"^3.6\""
  /** The two fixed lines that open every Poetry manifest. */
  const PoetryPreamble := PoetryHeader + "\n" + PythonConstraint + "\n"

  /** `name==version`, or the bare name when the version is unknown. */
  function PipLine(e: Entry): (r: string)
    ensures e.0 <= r
    ensures r == e.0 <==> e.1 == Unknown
  {
    if e.1 != Unknown then e.0 + "==" + e.1 else e.0
  }

  /** `name = "^version"`, or `name = "*"` when the version is unknown. */
  function PoetryLine(e: Entry): (r: string)
    ensures e.0 + " = \"" <= r && r[|r| - 1] == '"'
    ensures r == e.0 + " = \"*\"" <==> e.1 == Unknown
  {
    if e.1 != Unknown then
      var head := e.0 + " = \"^";
      assert head[|e.0| + 4] == '^';
      var r := head + e.1 + "\"";
      assert r[|e.0| + 4] == (head + e.1)[|e.0| + 4] == head[|e.0| + 4];
      r
    else e.0 + " = \"*\""
  }

  function PipLines(entries: seq<Entry>): seq<string>
  {
    seq(|entries|, k requires 0 <= k < |entries| => PipLine(entries[k]))
  }

  function PoetryLines(entries: seq<Entry>): seq<string>
  {
    seq(|entries|, k requires 0 <= k < |entries| => PoetryLine(entries[k]))
  }

  /** The text written for `format`; any selector other than `pip` and `poetry`
      is refused with nothing rendered. */
  function Render(format: string, entries: seq<Entry>): (r: Result<string, FormatError>)
    ensures r.Failure? <==> format != "pip" && format != "poetry"
    ensures r.Failure? ==> r.error == UnsupportedFormat
    ensures format == "pip" && entries == [] ==> r == Success("")
    ensures format == "poetry" ==> r.Success? && PoetryPreamble <= r.value
  {
    if format == "pip" then
      Success(Terminated(PipLines(entries)))
    else if format == "poetry" then
      var r := Terminated([PoetryHeader, PythonConstraint] + PoetryLines(entries));
      TerminatedAppend([PoetryHeader, PythonConstraint], PoetryLines(entries));
      assert Terminated([PoetryHeader, PythonConstraint]) == PoetryPreamble by {
        assert [PoetryHeader, PythonConstraint][1..] == [PythonConstraint];
        assert [PythonConstraint][1..] == [];
      }
      Success(r)
    else
      Failure(UnsupportedFormat)
  }

  /** A dependency as a manifest line declares it: the package name and the version it
      pins, or `None` for a line that pins no version. */
  type Requirement = (string, Option<string>)

  /** What the line rendered for an entry should declare: its version, unless that is
      `Unknown`, in which case no version at all. */
  function Pin(e: Entry): Requirement
  {
    if e.1 != Unknown then (e.0, Some(e.1)) else (e.0, None)
  }

  function Pins(entries: seq<Entry>): seq<Requirement>
  {
    seq(|entries|, k requires 0 <= k < |entries| => Pin(entries[k]))
  }

  /** Reads one pip requirement line: `name==version` pins a version, a bare name pins none. */
  function ParsePipLine(line: string): Option<Requirement>
  {
    match IndexOf(line, '=')
    case None => Some((line, None))
    case Some(i) =>
      if i + 1 < |line| && line[i + 1] == '=' then Some((line[..i], Some(line[i + 2..]))) else None
  }

  /** Reads one Poetry dependency line: `name = "^version"` pins a version,
      `name = "*"` pins none. */
  function ParsePoetryLine(line: string): Option<Requirement>
  {
    match IndexOf(line, '=')
    case None => None
    case Some(i) =>
      if 1 <= i && i + 1 < |line| && line[i - 1] == ' ' && line[i + 1] == ' ' then
        var value := line[i + 2..];
        if value == "\"*\"" then Some((line[..i - 1], None))
        else if |value| >= 3 && value[..2] == "\"^" && value[|value| - 1] == '"' then
          Some((line[..i - 1], Some(value[2..|value| - 1])))
        else None
      else None
  }

  /** Reads every line with `parse`; fails if any line does not read. */
  function ParseAll(lines: seq<string>, parse: string -> Option<Requirement>): (r: Option<seq<Requirement>>)
    ensures r.Some? ==> |r.value| == |lines|
  {
    if |lines| == 0 then Some([])
    else match (parse(lines[0]), ParseAll(lines[1..], parse))
      case (Some(e), Some(rest)) => Some([e] + rest)
      case _ => None
  }

  /** Reads a manifest back into the requirements it declares. */
  function Parse(format: string, text: string): Option<seq<Requirement>>
  {
    var lines := SplitLines(text);
    if format == "pip" then ParseAll(lines, ParsePipLine)
    else if format == "poetry" then
      if |lines| >= 2 && lines[0] == PoetryHeader && lines[1] == PythonConstraint
      then ParseAll(lines[2..], ParsePoetryLine)
      else None
    else None
  }

  /** An entry whose name and version hold no line break, so that it renders as
      exactly one line. */
  predicate Unbroken(e: Entry)
  {
    '\n' !in e.0 && '\n' !in e.1
  }

  predicate AllUnbroken(entries: seq<Entry>)
  {
    forall k :: 0 <= k < |entries| ==> Unbroken(entries[k])
  }

  /** Entries the manifest syntax can carry unambiguously: unbroken, and a package
      name with no `=`. Python module names always qualify. */
  predicate Plain(e: Entry)
  {
    '=' !in e.0 && Unbroken(e)
  }

  predicate AllPlain(entries: seq<Entry>)
  {
    forall k :: 0 <= k < |entries| ==> Plain(entries[k])
  }

  lemma PipLineRoundTrip(e: Entry)
    requires Plain(e)
    ensures ParsePipLine(PipLine(e)) == Some(Pin(e))
    ensures '\n' !in PipLine(e)
  {
    if e.1 != Unknown {
      var line := PipLine(e);
      assert line == e.0 + ['='] + ("=" + e.1);
      IndexOfAfterPrefix(e.0, '=', "=" + e.1);
      assert line[..|e.0|] == e.0;
      assert line[|e.0| + 2..] == e.1;
    }
  }

  /** Where the `=` of a Poetry line sits, and what lies on either side of it. */
  lemma PoetryLineShape(name: string, quoted: string)
    requires '=' !in name
    ensures IndexOf(name + " = " + quoted, '=') == Some(|name| + 1)
    ensures (name + " = " + quoted)[..|name|] == name
    ensures (name + " = " + quoted)[|name|] == ' '
    ensures (name + " = " + quoted)[|name| + 2] == ' '
    ensures (name + " = " + quoted)[|name| + 3..] == quoted
  {
    var line := name + " = " + quoted;
    assert line == (name + " ") + ['='] + (" " + quoted);
    IndexOfAfterPrefix(name + " ", '=', " " + quoted);
  }

  /** A Poetry line reads back to the name before ` = ` and the version its quoted
      constraint carries. */
  lemma ParsePoetryLineOf(name: string, quoted: string)
    requires '=' !in name
    ensures ParsePoetryLine(name + " = " + quoted)
         == if quoted == "\"*\"" then Some((name, None))
            else if |quoted| >= 3 && quoted[..2] == "\"^" && quoted[|quoted| - 1] == '"'
            then Some((name, Some(quoted[2..|quoted| - 1])))
            else None
  {
    PoetryLineShape(name, quoted);
  }

  lemma PoetryLineRoundTrip(e: Entry)
    requires Plain(e)
    ensures ParsePoetryLine(PoetryLine(e)) == Some(Pin(e))
    ensures '\n' !in PoetryLine(e)
  {
    var quoted := if e.1 != Unknown then "\"^" + e.1 + "\"" else "\"*\"";
    assert PoetryLine(e) == e.0 + " = " + quoted;
    ParsePoetryLineOf(e.0, quoted);
    if e.1 != Unknown {
      assert quoted[1] == '^';
      assert quoted[..2] == "\"^";
      assert quoted[2..|quoted| - 1] == e.1;
    }
  }

  /** Reading lines that each read back to their requirement recovers all of them. */
  lemma {:induction false} ParseAllInverts(lines: seq<string>, parse: string -> Option<Requirement>, reqs: seq<Requirement>)
    requires |lines| == |reqs|
    requires forall k :: 0 <= k < |lines| ==> parse(lines[k]) == Some(reqs[k])
    ensures ParseAll(lines, parse) == Some(reqs)
  {
    if |lines| > 0 {
      assert parse(lines[0]) == Some(reqs[0]);
      ParseAllInverts(lines[1..], parse, reqs[1..]);
      assert reqs == [reqs[0]] + reqs[1..];
    }
  }

  /** An unbroken entry renders as a single line in either format. */
  lemma LinesUnbroken(e: Entry)
    requires Unbroken(e)
    ensures '\n' !in PipLine(e) && '\n' !in PoetryLine(e)
  {
  }

  lemma PipLinesHaveNoNewline(entries: seq<Entry>)
    requires AllUnbroken(entries)
    ensures NoNewline(PipLines(entries))
  {
    forall k | 0 <= k < |entries| ensures '\n' !in PipLines(entries)[k] {
      LinesUnbroken(entries[k]);
    }
  }

  lemma ParseAllPipLines(entries: seq<Entry>)
    requires AllPlain(entries)
    ensures ParseAll(PipLines(entries), ParsePipLine) == Some(Pins(entries))
    ensures NoNewline(PipLines(entries))
  {
    var lines := PipLines(entries);
    forall k | 0 <= k < |lines| ensures ParsePipLine(lines[k]) == Some(Pins(entries)[k]) && '\n' !in lines[k] {
      PipLineRoundTrip(entries[k]);
    }
    ParseAllInverts(lines, ParsePipLine, Pins(entries));
  }

  lemma ParseAllPoetryLines(entries: seq<Entry>)
    requires AllPlain(entries)
    ensures ParseAll(PoetryLines(entries), ParsePoetryLine) == Some(Pins(entries))
    ensures NoNewline(PoetryLines(entries))
  {
    var lines := PoetryLines(entries);
    forall k | 0 <= k < |lines| ensures ParsePoetryLine(lines[k]) == Some(Pins(entries)[k]) && '\n' !in lines[k] {
      PoetryLineRoundTrip(entries[k]);
    }
    ParseAllInverts(lines, ParsePoetryLine, Pins(entries));
  }

  /** A pip manifest holds exactly one line per entry, in entry order: `name==version`,
      or the bare name for an unknown version. Every line, the last included, ends in a
      newline, and there are no other newlines. */
  lemma PipManifestLines(entries: seq<Entry>)
    requires AllUnbroken(entries)
    ensures SplitLines(Render("pip", entries).value) == PipLines(entries)
    ensures multiset(Render("pip", entries).value)['\n'] == |entries|
    ensures entries != [] ==> EndsWithNewline(Render("pip", entries).value)
  {
    PipLinesHaveNoNewline(entries);
    SplitTerminated(PipLines(entries));
    TerminatedNewlines(PipLines(entries));
  }

  lemma PoetryRenderIsTerminated(entries: seq<Entry>)
    ensures Render("poetry", entries).value == Terminated([PoetryHeader, PythonConstraint] + PoetryLines(entries))
  {
  }

  lemma FixedLinesHaveNoNewline()
    ensures '\n' !in PoetryHeader && '\n' !in PythonConstraint
  {
  }

  lemma PoetryLinesHaveNoNewline(entries: seq<Entry>)
    requires AllUnbroken(entries)
    ensures NoNewline([PoetryHeader, PythonConstraint] + PoetryLines(entries))
  {
    var body := PoetryLines(entries);
    var lines := [PoetryHeader, PythonConstraint] + body;
    FixedLinesHaveNoNewline();
    forall k | 0 <= k < |lines| ensures '\n' !in lines[k] {
      if k >= 2 {
        assert lines[k] == body[k - 2];
        LinesUnbroken(entries[k - 2]);
      }
    }
  }

  /** A Poetry manifest is the table header, the Python constraint, then exactly one
      line per entry, in entry order. */
  lemma PoetryManifestLines(entries: seq<Entry>)
    requires AllUnbroken(entries)
    ensures SplitLines(Render("poetry", entries).value) == [PoetryHeader, PythonConstraint] + PoetryLines(entries)
  {
    PoetryLinesHaveNoNewline(entries);
    PoetryRenderIsTerminated(entries);
    SplitTerminated([PoetryHeader, PythonConstraint] + PoetryLines(entries));
  }

  /** Every line of a Poetry manifest, the last included, ends in a newline, and there
      are no other newlines: two for the fixed lines and one per entry. */
  lemma PoetryManifestNewlines(entries: seq<Entry>)
    requires AllUnbroken(entries)
    ensures multiset(Render("poetry", entries).value)['\n'] == |entries| + 2
    ensures EndsWithNewline(Render("poetry", entries).value)
  {
    PoetryLinesHaveNoNewline(entries);
    PoetryRenderIsTerminated(entries);
    TerminatedNewlines([PoetryHeader, PythonConstraint] + PoetryLines(entries));
  }

  /** Every manifest the writer renders reads back to the entries it was rendered
      from, in order: each known version pinned, each unknown one left unpinned. */
  lemma RenderParseRoundTrip(format: string, entries: seq<Entry>)
    requires AllPlain(entries)
    requires format == "pip" || format == "poetry"
    ensures Parse(format, Render(format, entries).value) == Some(Pins(entries))
  {
    assert AllUnbroken(entries);
    if format == "pip" {
      PipManifestLines(entries);
      ParseAllPipLines(entries);
    } else {
      PoetryManifestLines(entries);
      ParseAllPoetryLines(entries);
      var lines := [PoetryHeader, PythonConstraint] + PoetryLines(entries);
      assert lines[2..] == PoetryLines(entries);
    }
  }

  /** The entries list a mapping: distinct names, each with the mapping's version,
      covering every key. This is what iterating a dictionary's items yields. */
  predicate Enumerates(entries: seq<Entry>, versions: map<string, string>)
  {
    && (forall i, j :: 0 <= i < j < |entries| ==> entries[i].0 != entries[j].0)
    && (forall k :: 0 <= k < |entries| ==> entries[k].0 in versions && versions[entries[k].0] == entries[k].1)
    && (forall p :: p in versions ==> exists k :: 0 <= k < |entries| && entries[k].0 == p)
  }

  /** `versions.items()`: the entries of the mapping, in whatever order the mapping
      yields them. */
  method Items(versions: map<string, string>) returns (entries: seq<Entry>)
    ensures Enumerates(entries, versions)
  {
    entries := [];
    var remaining := versions.Keys;
    while remaining != {}
      invariant remaining <= versions.Keys
      invariant forall i, j :: 0 <= i < j < |entries| ==> entries[i].0 != entries[j].0
      invariant forall k :: 0 <= k < |entries| ==>
        entries[k].0 in versions && entries[k].0 !in remaining && versions[entries[k].0] == entries[k].1
      invariant forall p :: p in versions && p !in remaining ==> exists k :: 0 <= k < |entries| && entries[k].0 == p
      decreases remaining
    {
      var p :| p in remaining;
      var listed := entries;
      entries := entries + [(p, versions[p])];
      assert entries[|listed|].0 == p;
      assert forall k :: 0 <= k < |listed| ==> entries[k] == listed[k];
      remaining := remaining - {p};
    }
  }

  function Names(entries: seq<Entry>): set<string>
  {
    set k | 0 <= k < |entries| :: entries[k].0
  }

  lemma {:induction false} DistinctNamesCount(entries: seq<Entry>)
    requires forall i, j :: 0 <= i < j < |entries| ==> entries[i].0 != entries[j].0
    ensures |Names(entries)| == |entries|
  {
    if |entries| > 0 {
      var rest := entries[1..];
      DistinctNamesCount(rest);
      assert Names(entries) == {entries[0].0} + Names(rest) by {
        forall x | x in Names(entries) ensures x in {entries[0].0} + Names(rest) {
          var k :| 0 <= k < |entries| && entries[k].0 == x;
          if k > 0 { assert rest[k - 1].0 == x; }
        }
      }
      assert entries[0].0 !in Names(rest) by {
        forall k | 0 <= k < |rest| ensures rest[k].0 != entries[0].0 {
          assert rest[k] == entries[k + 1];
        }
      }
    }
  }

  /** Any listing of the resolved mapping has exactly one entry per dependency, so the
      manifest has exactly one dependency line per collected module. */
  lemma EnumerationCoversMapping(entries: seq<Entry>, versions: map<string, string>)
    requires Enumerates(entries, versions)
    ensures Names(entries) == versions.Keys
    ensures |entries| == |versions|
  {
    DistinctNamesCount(entries);
    assert Names(entries) == versions.Keys;
  }

  /** `{"alpha": "1.2.3"}` renders as the pip line `alpha==1.2.3`. */
  lemma PipKnownExample()
    ensures Render("pip", [("alpha", "1.2.3")]) == Success("alpha==1.2.3\n")
  {
    assert PipLine(("alpha", "1.2.3")) == "alpha==1.2.3";
    assert PipLines([("alpha", "1.2.3")]) == ["alpha==1.2.3"];
    TerminatedSingle("alpha==1.2.3");
    assert Terminated(["alpha==1.2.3"]) == "alpha==1.2.3\n";
  }

  /** An unresolved `beta` renders as the bare pip line `beta`. */
  lemma PipUnknownExample()
    ensures Render("pip", [("beta", Unknown)]) == Success("beta\n")
  {
    assert PipLine(("beta", Unknown)) == "beta";
    assert PipLines([("beta", Unknown)]) == ["beta"];
    TerminatedSingle("beta");
    assert Terminated(["beta"]) == "beta\n";
  }

  /** A Poetry manifest is the two fixed lines followed by the dependency lines. */
  lemma PoetryRenderShape(entries: seq<Entry>)
    ensures Render("poetry", entries) == Success(PoetryPreamble + Terminated(PoetryLines(entries)))
  {
    TerminatedAppend([PoetryHeader, PythonConstraint], PoetryLines(entries));
    assert [PoetryHeader, PythonConstraint][1..] == [PythonConstraint];
    TerminatedSingle(PythonConstraint);
    assert Terminated([PoetryHeader, PythonConstraint]) == PoetryHeader + "\n" + (PythonConstraint + "\n");
    assert PoetryHeader + "\n" + (PythonConstraint + "\n") == PoetryPreamble;
  }

  /** An unresolved `beta` renders as the Poetry line `beta = "*"` after the two fixed lines. */
  lemma PoetryUnknownExample()
    ensures Render("poetry", [("beta", Unknown)]) == Success(PoetryPreamble + "beta = \"*\"\n")
  {
    assert PoetryLine(("beta", Unknown)) == "beta = \"*\"";
    assert PoetryLines([("beta", Unknown)]) == ["beta = \"*\""];
    TerminatedSingle("beta = \"*\"");
    assert "beta = \"*\"" + "\n" == "beta = \"*\"\n";
    PoetryRenderShape([("beta", Unknown)]);
  }

  /** With nothing to list, a pip manifest is empty and a Poetry one holds only its two fixed lines. */
  lemma EmptyExamples()
    ensures Render("pip", []) == Success("")
    ensures Render("poetry", []) == Success(PoetryPreamble)
  {
    assert PoetryLines([]) == [];
    PoetryRenderShape([]);
    assert PoetryPreamble + "" == PoetryPreamble;
  }
}
