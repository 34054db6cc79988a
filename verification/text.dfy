/** Character-level helpers the pipeline relies on: searching for a character,
    splitting newline-terminated text into lines, and Python's `str.strip()`. */
module Text {
  import opened Wrappers

  /** Position of the first occurrence of `c` in `s`, if any. */
  function IndexOf(s: string, c: char): (r: Option<nat>)
    ensures r.Some? ==> r.value < |s| && s[r.value] == c && c !in s[..r.value]
    ensures r.None? <==> c !in s
  {
    if |s| == 0 then None
    else if s[0] == c then Some(0)
    else match IndexOf(s[1..], c)
      case None => None
      case Some(i) => Some(i + 1)
  }

  /** When `c` does not occur in `a`, its first occurrence in `a + [c] + b` is right after `a`. */
  lemma IndexOfAfterPrefix(a: string, c: char, b: string)
    requires c !in a
    ensures IndexOf(a + [c] + b, c) == Some(|a|)
  {
    var s := a + [c] + b;
    assert s[..|a|] == a;
    assert s[|a|] == c;
  }

  /** Each line followed by a newline, as a file written line by line. */
  function Terminated(lines: seq<string>): string
  {
    if |lines| == 0 then "" else lines[0] + "\n" + Terminated(lines[1..])
  }

  lemma TerminatedSingle(line: string)
    ensures Terminated([line]) == line + "\n"
  {
    assert [line][1..] == [];
  }

  /** Splits text at each newline. A final fragment with no newline after it is a line
      of its own; text that ends with a newline has no empty line after the last one. */
  function SplitLines(t: string): seq<string>
    decreases |t|
  {
    if |t| == 0 then []
    else match IndexOf(t, '\n')
      case None => [t]
      case Some(i) => [t[..i]] + SplitLines(t[i + 1..])
  }

  predicate NoNewline(lines: seq<string>)
  {
    forall k :: 0 <= k < |lines| ==> '\n' !in lines[k]
  }

  predicate EndsWithNewline(t: string)
  {
    |t| > 0 && t[|t| - 1] == '\n'
  }

  /** Lines without newlines, written out with terminators: one newline per line, and a
      newline at the very end unless there are no lines. */
  lemma {:induction false} TerminatedNewlines(lines: seq<string>)
    requires NoNewline(lines)
    ensures multiset(Terminated(lines))['\n'] == |lines|
    ensures |lines| > 0 ==> EndsWithNewline(Terminated(lines))
  {
    if |lines| > 0 {
      var rest := lines[1..];
      assert NoNewline(rest) by {
        forall k | 0 <= k < |rest| ensures '\n' !in rest[k] {
          assert rest[k] == lines[k + 1];
        }
      }
      TerminatedNewlines(rest);
      assert '\n' !in lines[0];
      assert multiset(lines[0])['\n'] == 0;
      var t := Terminated(lines);
      assert t == lines[0] + "\n" + Terminated(rest);
      assert multiset(t) == multiset(lines[0]) + multiset("\n") + multiset(Terminated(rest));
    }
  }

  /** A line without a newline, followed by one, splits off as the first line. */
  lemma SplitFirstLine(line: string, rest: string)
    requires '\n' !in line
    ensures SplitLines(line + "\n" + rest) == [line] + SplitLines(rest)
  {
    var t := line + "\n" + rest;
    assert t == line + ['\n'] + rest;
    IndexOfAfterPrefix(line, '\n', rest);
    assert t[..|line|] == line;
    assert t[|line| + 1..] == rest;
  }

  /** Splitting inverts writing the lines out with terminators. */
  lemma {:induction false} SplitTerminated(lines: seq<string>)
    requires NoNewline(lines)
    ensures SplitLines(Terminated(lines)) == lines
  {
    if |lines| > 0 {
      var rest := lines[1..];
      assert NoNewline(rest) by {
        forall k | 0 <= k < |rest| ensures '\n' !in rest[k] {
          assert rest[k] == lines[k + 1];
        }
      }
      SplitTerminated(rest);
      assert '\n' !in lines[0];
      SplitFirstLine(lines[0], Terminated(rest));
      assert lines == [lines[0]] + rest;
    }
  }

  /** Terminated text is the concatenation of the terminated parts. */
  lemma {:induction false} TerminatedAppend(a: seq<string>, b: seq<string>)
    ensures Terminated(a + b) == Terminated(a) + Terminated(b)
  {
    if |a| > 0 {
      assert (a + b)[1..] == a[1..] + b;
      TerminatedAppend(a[1..], b);
    } else {
      assert a + b == b;
    }
  }

  /** The characters Python's `str.isspace()` accepts, which `str.strip()` removes:
      the ASCII controls tab through carriage return, the separators 0x1C-0x1F,
      the space, NEL, no-break space and the Unicode space separators. */
  predicate IsSpace(c: char)
  {
    var n := c as int;
    || (0x09 <= n <= 0x0D)
    || (0x1C <= n <= 0x20)
    || n == 0x85 || n == 0xA0 || n == 0x1680
    || (0x2000 <= n <= 0x200A)
    || n == 0x2028 || n == 0x2029 || n == 0x202F || n == 0x205F || n == 0x3000
  }

  predicate AllSpace(s: string)
  {
    forall k :: 0 <= k < |s| ==> IsSpace(s[k])
  }

  /** Neither end of `s` is whitespace. */
  predicate Trimmed(s: string)
  {
    |s| == 0 || (!IsSpace(s[0]) && !IsSpace(s[|s| - 1]))
  }

  /** `s` without its leading whitespace. */
  function StripStart(s: string): (r: string)
    ensures |r| <= |s|
    ensures |r| == 0 || !IsSpace(r[0])
  {
    if |s| > 0 && IsSpace(s[0]) then StripStart(s[1..]) else s
  }

  /** `s` without its trailing whitespace. */
  function StripEnd(s: string): (r: string)
    ensures |r| <= |s|
    ensures |r| == 0 || !IsSpace(r[|r| - 1])
  {
    if |s| > 0 && IsSpace(s[|s| - 1]) then StripEnd(s[..|s| - 1]) else s
  }

  /** What `StripStart` removes is a whitespace prefix. */
  lemma {:induction false} StripStartIsSuffix(s: string)
    ensures StripStart(s) == s[|s| - |StripStart(s)|..]
    ensures AllSpace(s[..|s| - |StripStart(s)|])
  {
    if |s| > 0 && IsSpace(s[0]) {
      StripStartIsSuffix(s[1..]);
      var r := StripStart(s);
      assert s[1..][|s| - 1 - |r|..] == s[|s| - |r|..];
      forall k | 0 <= k < |s| - |r| ensures IsSpace(s[k]) {
        if k > 0 { assert s[1..][..|s| - 1 - |r|][k - 1] == s[k]; }
      }
    }
  }

  /** What `StripEnd` removes is a whitespace suffix. */
  lemma {:induction false} StripEndIsPrefix(s: string)
    ensures StripEnd(s) == s[..|StripEnd(s)|]
    ensures AllSpace(s[|StripEnd(s)|..])
  {
    if |s| > 0 && IsSpace(s[|s| - 1]) {
      var t := s[..|s| - 1];
      StripEndIsPrefix(t);
      var r := StripEnd(s);
      assert t[..|r|] == s[..|r|];
      forall k | |r| <= k < |s| ensures IsSpace(s[k]) {
        if k < |s| - 1 { assert t[|r|..][k - |r|] == s[k]; }
      }
      assert forall k :: 0 <= k < |s[|r|..]| ==> s[|r|..][k] == s[|r| + k];
    }
  }

  /** Python's `str.strip()` with no argument. */
  function Strip(s: string): (r: string)
    ensures Trimmed(r)
    ensures |r| <= |s|
  {
    var a := StripStart(s);
    StripEndIsPrefix(a);
    StripEnd(a)
  }

  /** The stripped string is the longest infix of `s` with no whitespace at either end:
      everything around it is whitespace. */
  lemma StripIsInfix(s: string)
    ensures exists i :: 0 <= i <= |s| - |Strip(s)| && Strip(s) == s[i..i + |Strip(s)|]
                        && AllSpace(s[..i]) && AllSpace(s[i + |Strip(s)|..])
  {
    var a := StripStart(s);
    StripStartIsSuffix(s);
    StripEndIsPrefix(a);
    var r := StripEnd(a);
    var i := |s| - |a|;
    assert r == s[i..i + |r|];
    assert s[i + |r|..] == a[|r|..];
  }

  /** Stripping leaves nothing exactly when the string is all whitespace. */
  lemma StripEmptyIffAllSpace(s: string)
    ensures Strip(s) == "" <==> AllSpace(s)
  {
    var a := StripStart(s);
    StripStartIsSuffix(s);
    StripEndIsPrefix(a);
    var n := |s| - |a|;
    assert |a| > 0 ==> a[0] == s[n];
    assert a[0..] == a;
    if Strip(s) == "" {
      assert a == [];
      forall k | 0 <= k < |s| ensures IsSpace(s[k]) {
        assert s[..n][k] == s[k];
      }
    }
  }
}
