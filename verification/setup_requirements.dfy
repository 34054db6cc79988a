/** `read_requirements` from the packaging script: the lines of a requirements file,
    each stripped of surrounding whitespace, without blank lines and without lines
    whose first raw character is `#`. The file is given as the sequence of lines its
    iteration yields, each with its line terminator. */
module SetupRequirements {
  import opened Text

  /** A line the filter keeps: something besides whitespace, and no `#` as its first
      character before stripping. */
  predicate Kept(line: string): (r: bool)
    ensures r <==> !AllSpace(line) && !(|line| > 0 && line[0] == '#')
  {
    StripEmptyIffAllSpace(line);
    Strip(line) != "" && !(|line| > 0 && line[0] == '#')
  }

  function ReadRequirements(lines: seq<string>): (r: seq<string>)
    ensures |r| <= |lines|
    ensures forall k :: 0 <= k < |r| ==> r[k] != "" && Trimmed(r[k])
  {
    if |lines| == 0 then []
    else (if Kept(lines[0]) then [Strip(lines[0])] else []) + ReadRequirements(lines[1..])
  }

  /** Filtering a file in two parts and concatenating is filtering the whole file:
      the kept lines stay in their input order. */
  lemma {:induction false} ReadRequirementsAppend(a: seq<string>, b: seq<string>)
    ensures ReadRequirements(a + b) == ReadRequirements(a) + ReadRequirements(b)
  {
    if |a| > 0 {
      assert (a + b)[0] == a[0];
      assert (a + b)[1..] == a[1..] + b;
      ReadRequirementsAppend(a[1..], b);
    } else {
      assert a + b == b;
    }
  }

  /** One line yields its stripped form when kept and nothing otherwise. */
  lemma ReadRequirementsSingle(line: string)
    ensures ReadRequirements([line]) == if Kept(line) then [Strip(line)] else []
  {
    assert [line][1..] == [];
  }

  /** A dropped line (blank, whitespace only, or starting with `#`) can be removed from
      the file without changing the result; a kept line adds exactly its stripped form. */
  lemma LineContribution(a: seq<string>, line: string, b: seq<string>)
    ensures ReadRequirements(a + [line] + b)
         == ReadRequirements(a) + (if Kept(line) then [Strip(line)] else []) + ReadRequirements(b)
    ensures !Kept(line) ==> ReadRequirements(a + [line] + b) == ReadRequirements(a + b)
  {
    ReadRequirementsAppend(a + [line], b);
    ReadRequirementsAppend(a, [line]);
    ReadRequirementsAppend(a, b);
    ReadRequirementsSingle(line);
  }

  /** Every returned line is the stripped form of some kept input line. */
  lemma {:induction false} ResultsComeFromKeptLines(lines: seq<string>, k: nat)
    requires k < |ReadRequirements(lines)|
    ensures exists i :: 0 <= i < |lines| && Kept(lines[i]) && ReadRequirements(lines)[k] == Strip(lines[i])
  {
    var rest := ReadRequirements(lines[1..]);
    var head := if Kept(lines[0]) then [Strip(lines[0])] else [];
    assert ReadRequirements(lines) == head + rest;
    if k < |head| {
      assert ReadRequirements(lines)[k] == Strip(lines[0]);
    } else {
      assert ReadRequirements(lines)[k] == rest[k - |head|];
      ResultsComeFromKeptLines(lines[1..], k - |head|);
      var i :| 0 <= i < |lines[1..]| && Kept(lines[1..][i]) && rest[k - |head|] == Strip(lines[1..][i]);
      assert lines[1..][i] == lines[i + 1];
    }
  }

  /** Every kept input line appears, stripped, in the result. */
  lemma {:induction false} KeptLinesAppear(lines: seq<string>, i: nat)
    requires i < |lines| && Kept(lines[i])
    ensures Strip(lines[i]) in ReadRequirements(lines)
  {
    if i > 0 {
      assert lines[1..][i - 1] == lines[i];
      KeptLinesAppear(lines[1..], i - 1);
    }
  }

  /** Whitespace-only lines are dropped. */
  lemma BlankLinesDropped(line: string)
    requires AllSpace(line)
    ensures ReadRequirements([line]) == []
  {
    StripEmptyIffAllSpace(line);
    ReadRequirementsSingle(line);
  }

  /** A line whose raw first character is `#` is dropped. */
  lemma CommentLinesDropped(line: string)
    requires |line| > 0 && line[0] == '#'
    ensures ReadRequirements([line]) == []
  {
    ReadRequirementsSingle(line);
  }

  /** The comment test looks at the raw line, so a comment indented by whitespace is
      kept, with its `#` now first; filtering that result again would drop it. */
  lemma IndentedCommentKept(line: string)
    requires |line| > 0 && IsSpace(line[0])
    requires |Strip(line)| > 0 && Strip(line)[0] == '#'
    ensures ReadRequirements([line]) == [Strip(line)]
    ensures ReadRequirements(ReadRequirements([line])) == []
  {
    ReadRequirementsSingle(line);
    ReadRequirementsSingle(Strip(line));
  }

  lemma StripIndentedComment()
    ensures Strip("  # x") == "# x"
  {
    assert StripStart("  # x") == "# x" by {
      assert "  # x"[1..] == " # x";
      assert " # x"[1..] == "# x";
    }
    assert StripEnd("# x") == "# x";
  }

  /** `"  # x"` is kept as `"# x"`. */
  lemma IndentedCommentExample()
    ensures ReadRequirements(["  # x"]) == ["# x"]
  {
    StripIndentedComment();
    assert Kept("  # x");
    ReadRequirementsSingle("  # x");
  }
}
