# Requmancer in Dafny

Requmancer scans a Python project and writes a requirements file. It collects the
top-level modules that the project's `.py` files import. It drops the standard
library, looks up the installed version of each remaining module, and renders the
result as pip requirements or as a Poetry dependency table. This project models that
pipeline as pure functions and methods and proves what each stage promises. It also
models the requirements-file filter of the packaging script.

Modules, following the program's stages:

- `Wrappers` (`wrappers.dfy`): `Option` and `Result`.
- `Text` (`text.dfy`): first occurrence of a character, splitting text into lines,
  and Python's `str.strip()` over the characters `str.isspace()` accepts.
- `Imports` (`imports.dfy`): `find_imports` and `get_project_imports`. A parsed file
  is the list of nodes the syntax-tree walk visits: `Import(names)`,
  `ImportFrom(level, modulePath)` or `Other`. Each file arrives as a base name plus
  one of three parse outcomes: parsed, syntax error, or another read failure. The
  standard-library set is a parameter.
- `Versions` (`versions.dfy`): `get_package_versions`. The installed-package
  metadata is an injected `lookup: string -> Option<string>`.
- `Manifest` (`manifest.dfy`): `write_requirements_file` as
  `Render(format, entries): Result<string, FormatError>` over the entries in the
  order the versions dictionary yields them. `Items` lists a mapping in arbitrary
  order. `Parse` reads a manifest back and serves as the renderer's partner.
- `Pipeline` (`pipeline.dfy`): `generate`, returning either the written text or the
  error that would be logged.
- `SetupRequirements` (`setup_requirements.dfy`): `read_requirements` over the lines
  a file iteration yields.

Three behaviours of the code are worth knowing, and the model follows them:

- Only `SyntaxError` is caught (requmancer/main.py:65). Any other failure while
  reading or parsing, for example a file that is not valid UTF-8, propagates and ends
  the whole run. The model gives such files the `ReadError` outcome, and the scan
  fails with `Unreadable`.
- The writer does not sort its output. The dependency lines come out in the order the
  versions dictionary yields its items. The model renders any given order and never
  claims sorted output.
- The output file is opened with `'w'` before the format is checked
  (requmancer/main.py:105, 121), so an unsupported format still truncates it. The
  model only claims that rendering fails with no content.

## Model

| member | source | states |
|---|---|---|
| `Imports.FirstSegment` | requmancer/main.py:73 | the reported name is a prefix of the imported path, contains no `.`, and is either the whole path or is followed by the path's first `.` |
| `Imports.SubmoduleReportsPackage` | requmancer/main.py:73 | `numpy.linalg` is reported as `numpy` |
| `Imports.UndottedReportedWhole` | requmancer/main.py:73 | a name without a dot, `requests`, is reported whole |
| `Imports.AliasesIgnored` | requmancer/main.py:71-73 | two walks that differ only in the `as` names of their imports report the same names, so an alias never matters |
| `Imports.AliasedImportReportsName` | requmancer/main.py:72-73 | `import name as alias` reports exactly the first segment of `name`, whatever the alias |
| `Imports.AliasedSubmoduleExample` | requmancer/main.py:71-73 | `import numpy.linalg as la` reports exactly `numpy` |
| `Imports.ImportReportsEachName` | requmancer/main.py:71-73 | an `import` statement adds exactly the first segment of each of its names |
| `Imports.FromImportReportedIffAbsolute` | requmancer/main.py:74-76 | a from-import adds the first segment of its module exactly when its level is 0; a relative one adds nothing |
| `Imports.OtherNodesIgnored` | requmancer/main.py:70-76 | nodes that are not import statements, and relative from-imports, never add a name |
| `Imports.RelativeImportExample` | requmancer/main.py:70-76 | a file with `import requests` and `from . import helper` reports exactly `requests` |
| `Imports.FindImports` | requmancer/main.py:52-78 | a file with a syntax error contributes the empty set; any other read failure raises; a parsed file fails exactly when it holds an absolute from-import with no module; otherwise the result is every name its imports reference minus the standard library, none of them dotted and none of them standard |
| `Imports.StandardOnlyFileContributesNothing` | requmancer/main.py:78 | a file importing only `os` and `json` contributes nothing when both are standard |
| `Imports.IsPython` | requmancer/main.py:86 | a file is scanned exactly when its base name is some stem followed by `.py`, as `str.endswith('.py')` decides; `.py` alone qualifies |
| `Imports.ProjectImports` | requmancer/main.py:80-88 | the scan fails exactly when some `.py` file's scan raises, and then with the error of the first such file in walk order; otherwise it returns the union of the `.py` files' names, none of them standard; files with other extensions and files with syntax errors are passed over and the scan continues |
| `Imports.ProjectSpecAppend` | requmancer/main.py:84-88 | the project set of two groups of files is the union of their sets, so walk order does not change the result |
| `Imports.AddedFileContribution` | requmancer/main.py:84-88 | adding a file adds its own names when it ends in `.py` and nothing otherwise; a file with a syntax error adds nothing |
| `Versions.VersionOf` | requmancer/main.py:95-99 | the recorded version is the installed one when the lookup finds the distribution, and the text `Unknown` when it does not |
| `Versions.ResolveVersions` | requmancer/main.py:90-99 | the mapping's keys are exactly the collected names; each value is the looked-up version when the lookup succeeds and `Unknown` when it misses, whatever order the names are visited in |
| `Versions.UnknownIffMissed` | requmancer/main.py:95-99 | an entry reads `Unknown` exactly when the lookup missed or the installed version is itself the text `Unknown` |
| `Versions.ResolveSplits` | requmancer/main.py:94-99 | resolving two groups of names separately and merging gives the mapping of the whole, so entries are independent |
| `Manifest.PipLine` | requmancer/main.py:108-111 | a pip line starts with the package name, and is the bare name exactly when the version is `Unknown` (otherwise `name==version`) |
| `Manifest.PoetryLine` | requmancer/main.py:116-119 | a Poetry line starts with the name and ` = "` and ends with `"`, and is `name = "*"` exactly when the version is `Unknown` (otherwise `name = "^version"`) |
| `Manifest.Render` | requmancer/main.py:101-121 | rendering fails, with `UnsupportedFormat` and no text, exactly when the selector is neither `pip` nor `poetry`; an empty pip manifest is empty; a Poetry manifest always starts with the table header and the `python = "^3.6"` line |
| `Manifest.PipLineRoundTrip` | requmancer/main.py:108-111 | a pip line reads back to its entry: `name==version`, or the bare name for an `Unknown` version; no line contains a line break |
| `Manifest.PoetryLineRoundTrip` | requmancer/main.py:116-119 | a Poetry line reads back to its entry: `name = "^version"`, or `name = "*"` for an `Unknown` version |
| `Manifest.PipManifestLines` | requmancer/main.py:106-111 | for entries whose names and versions hold no line break, a pip manifest splits into exactly one line per entry, in entry order; it holds exactly one newline per entry, and a non-empty manifest ends in a newline |
| `Manifest.PoetryManifestLines` | requmancer/main.py:112-119 | for entries whose names and versions hold no line break, a Poetry manifest splits into the header, the Python constraint, then exactly one line per entry, in entry order |
| `Manifest.PoetryManifestNewlines` | requmancer/main.py:112-119 | for entries whose names and versions hold no line break, a Poetry manifest holds exactly two more newlines than entries and ends in a newline |
| `Manifest.RenderParseRoundTrip` | requmancer/main.py:101-119 | in both formats, reading a rendered manifest back recovers exactly the entries, in order; a known version reads back pinned (`name==version`, `name = "^version"`) and an `Unknown` one reads back with no version (a bare name, `name = "*"`) |
| `Manifest.Items` | requmancer/main.py:107 | listing the mapping's items gives each key once, with its value, and covers every key |
| `Manifest.EnumerationCoversMapping` | requmancer/main.py:107 | any listing of the mapping has exactly one entry per key, so the manifest has one dependency line per resolved module |
| `Manifest.PoetryRenderShape` | requmancer/main.py:112-119 | a Poetry manifest is the header line, the `python = "^3.6"` line, then one newline-terminated line per entry |
| `Manifest.PipKnownExample` | requmancer/main.py:108-109 | `{"alpha": "1.2.3"}` renders as `alpha==1.2.3` followed by a newline |
| `Manifest.PipUnknownExample` | requmancer/main.py:110-111 | an unresolved `beta` renders as the pip line `beta` |
| `Manifest.PoetryUnknownExample` | requmancer/main.py:112-119 | an unresolved `beta` renders in Poetry format as the two fixed lines followed by `beta = "*"` |
| `Manifest.EmptyExamples` | requmancer/main.py:106-119 | with no entries, pip renders the empty text and Poetry renders only its two fixed lines |
| `Pipeline.Generate` | requmancer/main.py:123-133 | the run fails with a scan error exactly when some `.py` file's scan raises; it fails with a format error exactly when the scan succeeds and the selector is unsupported; otherwise its text renders some listing of the resolved versions of exactly the project's imports |
| `Pipeline.NoDependenciesNoLines` | requmancer/main.py:84-121 | a project importing nothing outside the standard library gets an empty pip manifest, or a Poetry manifest holding only its fixed lines |
| `Text.IsSpace` | setup.py:6 | the characters `str.strip()` removes: the 29 code points `str.isspace()` accepts (tab to carriage return, U+001C to space, U+0085, U+00A0, U+1680, U+2000 to U+200A, U+2028, U+2029, U+202F, U+205F, U+3000) |
| `Text.Strip` | setup.py:6 | the stripped line neither starts nor ends with whitespace and is no longer than the line |
| `Text.StripIsInfix` | setup.py:6 | the stripped line is a contiguous piece of the line with only whitespace before and after it |
| `Text.StripEmptyIffAllSpace` | setup.py:6 | a line strips to nothing exactly when it is all whitespace |
| `SetupRequirements.Kept` | setup.py:6 | a line is kept exactly when it is not all whitespace and its raw first character is not `#` |
| `SetupRequirements.ReadRequirements` | setup.py:4-6 | the result is no longer than the input, and no returned line is empty or has whitespace at either end |
| `SetupRequirements.ReadRequirementsAppend` | setup.py:6 | filtering two parts of a file and concatenating gives the filtered whole, so kept lines keep their input order |
| `SetupRequirements.LineContribution` | setup.py:6 | a kept line contributes exactly its stripped form at its position; removing a dropped line changes nothing |
| `SetupRequirements.ResultsComeFromKeptLines` | setup.py:6 | every returned line is the stripped form of some kept input line |
| `SetupRequirements.KeptLinesAppear` | setup.py:6 | every kept input line appears, stripped, in the result |
| `SetupRequirements.BlankLinesDropped` | setup.py:6 | empty and whitespace-only lines are dropped |
| `SetupRequirements.CommentLinesDropped` | setup.py:6 | a line whose raw first character is `#` is dropped |
| `SetupRequirements.IndentedCommentKept` | setup.py:6 | the comment test looks at the raw line, so an indented comment is kept with its `#` first, and filtering that result again would drop it |
| `SetupRequirements.IndentedCommentExample` | setup.py:6 | `"  # x"` is kept as `"# x"` |

## Left out

- Directory traversal and file reading (requmancer/main.py:62, 84-87; setup.py:5). The project is a sequence of files, each with a base name and a parse outcome, in walk order. The requirements file is the sequence of lines its iteration yields.
- Python's parser and syntax-tree walk (requmancer/main.py:64, 70). A parsed file is the flat list of nodes the walk visits, and other node kinds are `Other`. Python's grammar is not reproduced.
- An absolute from-import without a module cannot come out of Python's parser, but the node type admits it. The model treats it the way the code would: `None.split` raises, so the scan fails with `ModuleIsNone`.
- `pkg_resources.get_distribution` and `sys.stdlib_module_names` (requmancer/main.py:48, 96). Both are queries on the host environment. They become the `lookup` and `stdlib` parameters. A lookup that raises anything other than "not found" is not modelled.
- Logging (requmancer/main.py:50, 66, 98, 131, 133) and the command-line entry point (requmancer/main.py:135-149). They are diagnostics and argument plumbing. `Generate` returns the error that would be logged instead.
- Writing, flushing and truncating the output file, and I/O errors while writing (requmancer/main.py:105). Rendering returns the text. The model makes no claim about the file's state when the format is unsupported.
- Set iteration order (requmancer/main.py:94). The set of imports is visited in Python's hash order, and the dictionary then yields its items in that insertion order (requmancer/main.py:107, 115). `Items` lists a mapping in an arbitrary order, and `Render` takes whatever order it is given.
- The `setup(...)` call, the README read and the package metadata (setup.py:8-47). They are packaging, not logic.
- Pipeline.Generate: states that the text renders some listing of the resolved versions, not which one, because the listing order is the order in which the set of imports was visited, which is its hash order.
- Manifest.RenderParseRoundTrip: covers entries whose names contain no `=` and no line break and whose versions contain no line break. The manifest syntax cannot carry other names unambiguously, and Python module names never contain these characters.
