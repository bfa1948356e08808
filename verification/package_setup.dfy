/**
 The two helpers the package's setup.py calls for its metadata: `get_version`, which reads
 the version from app/main.py, and `get_requirements`, which reads requirements.txt.
 A file that does not exist is `None`.
 */
module PackageSetup {
  import opened Wrappers
  import opened Text
  import opened VersionPattern
  import SemVer

  const FallbackVersion: string := "2.0.0"

  /** `get_version()`: the first `version = "X.Y.Z"` of app/main.py, else its first
      `__version__ = "X.Y.Z"`, else "2.0.0". */
  function GetVersion(mainPy: Option<string>): (r: string)
    ensures IsVersionText(r)
    ensures mainPy.Some? && FindVersion(mainPy.value).Some? ==> r == FindVersion(mainPy.value).value
    ensures mainPy.None? || FindVersion(mainPy.value).None? ==> r == FallbackVersion
  {
    var found := if mainPy.Some? then FindVersion(mainPy.value) else None;
    match found
    case Some(v) => v
    case None =>
      assert Walk(Number(0, false), FallbackVersion) == Some(Number(2, true));
      FallbackVersion
  }

  /** Whatever app/main.py holds, the package version is one the bump script can bump. */
  lemma GetVersionParses(mainPy: Option<string>)
    ensures SemVer.ParseVersion(GetVersion(mainPy)).Some?
  {
    SemVer.VersionTextParses(GetVersion(mainPy));
  }

  // ---------------------------------------------------------------------------
  // get_requirements

  const DefaultRequirements: seq<string> := [
    "fastapi>=0.104.0",
    "uvicorn[standard]>=0.24.0",
    "pydantic>=2.5.0",
    "python-multipart>=0.0.6",
    "email-validator>=2.1.0"
  ]

  /** The comprehension's filter: the stripped line is non-empty and the line as read,
      leading whitespace included, does not start with '#'. */
  predicate KeepLine(line: string) {
    Strip(line) != "" && !StartsWith(line, "#")
  }

  /** A requirement as it is returned: non-empty, and without surrounding whitespace. */
  predicate IsRequirement(r: string) {
    |r| > 0 && !IsSpace(r[0]) && !IsSpace(r[|r| - 1])
  }

  /** `[line.strip() for line in lines if line.strip() and not line.startswith("#")]`. */
  function Requirements(lines: seq<string>): (r: seq<string>)
    ensures |r| <= |lines|
    ensures forall k :: 0 <= k < |r| ==> IsRequirement(r[k])
  {
    if |lines| == 0 then []
    else if KeepLine(lines[0]) then [Strip(lines[0])] + Requirements(lines[1..])
    else Requirements(lines[1..])
  }

  /** `get_requirements()`: the filtered lines of requirements.txt, else the five defaults. */
  function GetRequirements(requirementsTxt: Option<string>): (r: seq<string>)
    ensures requirementsTxt.None? ==> r == DefaultRequirements
    ensures forall k :: 0 <= k < |r| ==> IsRequirement(r[k]) && Strip(r[k]) == r[k]
  {
    match requirementsTxt
    case None =>
      assert forall k :: 0 <= k < |DefaultRequirements| ==> IsRequirement(DefaultRequirements[k]) by {
        assert DefaultRequirements[0][0] == 'f' && DefaultRequirements[1][0] == 'u';
        assert DefaultRequirements[2][0] == 'p' && DefaultRequirements[3][0] == 'p';
        assert DefaultRequirements[4][0] == 'e';
      }
      StripAllUnpadded(DefaultRequirements);
      DefaultRequirements
    case Some(txt) =>
      var r := Requirements(Lines(txt));
      StripAllUnpadded(r);
      r
  }

  /** A string without surrounding whitespace is its own `strip()`. */
  lemma StripUnpadded(s: string)
    requires IsRequirement(s)
    ensures Strip(s) == s
  {
    assert LeadingSpace(s) == 0;
    assert TrailingSpace(s) == 0;
  }

  lemma StripAllUnpadded(rs: seq<string>)
    requires forall k :: 0 <= k < |rs| ==> IsRequirement(rs[k])
    ensures forall k :: 0 <= k < |rs| ==> Strip(rs[k]) == rs[k]
  {
    forall k | 0 <= k < |rs| {
      StripUnpadded(rs[k]);
    }
  }

  /** The filter works line by line. */
  lemma {:induction false} RequirementsAppend(a: seq<string>, b: seq<string>)
    ensures Requirements(a + b) == Requirements(a) + Requirements(b)
  {
    if |a| == 0 {
      assert a + b == b;
    } else {
      assert (a + b)[0] == a[0] && (a + b)[1..] == a[1..] + b;
      RequirementsAppend(a[1..], b);
    }
  }

  /** A single line of the file is one item of the comprehension. */
  lemma LinesOfLine(l: string)
    requires IsLine(l)
    ensures Lines(l) == [l]
  {
    var i := IndexOf(l, '\n');
    IndexOfSpec(l, '\n');
    if i < |l| {
      assert i == |l| - 1;
      assert l[i + 1..] == "";
      assert l[..i + 1] == l;
    }
  }

  /** requirements.txt read as the concatenation of whole lines: the result is, in order, the
      stripped form of each line the filter keeps. */
  lemma {:induction false} GetRequirementsByLine(first: string, rest: string)
    requires IsLine(first) && first[|first| - 1] == '\n'
    ensures GetRequirements(Some(first + rest))
            == (if KeepLine(first) then [Strip(first)] else []) + GetRequirements(Some(rest))
  {
    LinesAppend(first, rest);
    LinesOfLine(first);
    RequirementsAppend([first], Lines(rest));
  }

  /** The last line of requirements.txt, with or without its '\n': its stripped form when
      the filter keeps it, and nothing otherwise. */
  lemma LastLine(l: string)
    requires IsLine(l)
    ensures GetRequirements(Some(l)) == (if KeepLine(l) then [Strip(l)] else [])
  {
    LinesOfLine(l);
  }

  /** An empty requirements.txt yields no requirements, not the defaults. */
  lemma EmptyFile()
    ensures GetRequirements(Some("")) == []
  {
  }

  /** Any requirements.txt, read as its lines (each a line of the file, all but the last
      ending in '\n'): the result is, in order, the stripped form of each line the filter
      keeps. */
  lemma {:induction false} GetRequirementsOfLines(ls: seq<string>)
    requires forall k :: 0 <= k < |ls| ==> IsLine(ls[k])
    requires forall k :: 0 <= k < |ls| - 1 ==> |ls[k]| > 0 && ls[k][|ls[k]| - 1] == '\n'
    ensures GetRequirements(Some(Concat(ls))) == Requirements(ls)
    decreases |ls|
  {
    if |ls| == 0 {
      EmptyFile();
    } else if |ls| == 1 {
      assert Concat(ls) == ls[0] + Concat(ls[1..]) && Concat(ls[1..]) == "";
      assert Concat(ls) == ls[0];
      LastLine(ls[0]);
    } else {
      GetRequirementsOfLines(ls[1..]);
      GetRequirementsByLine(ls[0], Concat(ls[1..]));
    }
  }

  /** A comment marker behind leading whitespace does not make a comment: the line
      "  # x" is returned as the requirement "# x". */
  lemma IndentedCommentKept()
    ensures GetRequirements(Some("  # x\n")) == ["# x"]
  {
    var l := "  # x\n";
    assert IsLine(l);
    LinesOfLine(l);
    assert LeadingSpace(l) == 2 by {
      assert l[2..] == "# x\n";
      assert LeadingSpace(l[2..]) == 0;
      assert l[1..][1..] == l[2..];
    }
    assert l[2..] == "# x\n";
    assert TrailingSpace(l[2..]) == 1 by {
      assert l[2..][..3] == "# x";
      assert TrailingSpace("# x") == 0;
    }
    assert Strip(l) == "# x";
    assert !StartsWith(l, "#") by {
      assert l[..1] == " ";
    }
  }

  /** A line that starts with '#' is dropped, wherever it stands in the file. */
  lemma CommentDropped(l: string, rest: string)
    requires IsLine(l) && l[|l| - 1] == '\n' && l[0] == '#'
    ensures GetRequirements(Some(l + rest)) == GetRequirements(Some(rest))
  {
    GetRequirementsByLine(l, rest);
    assert StartsWith(l, "#") by {
      assert l[..1] == "#";
    }
  }

  /** A last line that starts with '#' contributes nothing, '\n' or not. */
  lemma LastCommentDropped(l: string)
    requires IsLine(l) && l[0] == '#'
    ensures GetRequirements(Some(l)) == []
  {
    LastLine(l);
    assert StartsWith(l, "#") by {
      assert l[..1] == "#";
    }
  }
}
