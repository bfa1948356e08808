/**
 `V2VersionBumper` and `main` of the version bump script: where the current version is
 read from, how every project file is brought to the new version, and what a run of the
 command line reports. File contents are values; a file that does not exist is `None`.
 */
module VersionBumper {
  import opened Wrappers
  import opened Sequences
  import opened VersionPattern
  import opened SemVer

  /** What `json.load` makes of version.json: something other than an object with a
      string `version` (a syntax error, a list, ...) is `Unreadable`. */
  datatype VersionJson = Unreadable | JsonDoc(version: Option<string>)

  /** The four files the bumper knows, in the order of `version_files`. */
  datatype ProjectFiles = ProjectFiles(
    pyproject: Option<string>,
    setupPy: Option<string>,
    versionJson: Option<VersionJson>,
    srcPyproject: Option<string>)

  const VersionFileNames: seq<string> := ["pyproject.toml", "setup.py", "version.json", "src/pyproject.toml"]

  /** The `version` key of version.json, when the file exists and holds one. */
  function JsonVersion(files: ProjectFiles): Option<string> {
    match files.versionJson
    case Some(JsonDoc(Some(v))) => Some(v)
    case _ => None
  }

  /** The text files consulted after version.json, in the order they are tried. */
  function FallbackSources(files: ProjectFiles): seq<Option<string>> {
    [files.pyproject, files.srcPyproject, files.setupPy]
  }

  /** The version a single (possibly missing) file offers. */
  function Found(content: Option<string>): Option<string> {
    match content
    case None => None
    case Some(c) => FindVersion(c)
  }

  /** The version offered by the first source that offers one. */
  function FirstFound(sources: seq<Option<string>>): (r: Option<string>)
    ensures r.None? <==> forall k :: 0 <= k < |sources| ==> Found(sources[k]).None?
    ensures r.Some? ==> exists k :: 0 <= k < |sources| && Found(sources[k]) == r
                          && forall j :: 0 <= j < k ==> Found(sources[j]).None?
    ensures r.Some? ==> IsVersionText(r.value)
  {
    if |sources| == 0 then None
    else
      match Found(sources[0])
      case Some(v) => Some(v)
      case None =>
        var r := FirstFound(sources[1..]);
        assert forall k :: 1 <= k < |sources| ==> sources[k] == sources[1..][k - 1];
        if r.Some? then
          var k :| 0 <= k < |sources[1..]| && Found(sources[1..][k]) == r
                   && forall j :: 0 <= j < k ==> Found(sources[1..][j]).None?;
          assert Found(sources[k + 1]) == r;
          r
        else r
  }

  /** `get_current_version` (the reachable part): version.json's `version`, verbatim;
      else the first pyproject.toml, src/pyproject.toml, setup.py offering a match;
      else "1.0.0". */
  function CurrentVersion(files: ProjectFiles): (r: string)
    ensures JsonVersion(files).Some? ==> r == JsonVersion(files).value
    ensures JsonVersion(files).None? ==> IsVersionText(r)
    ensures JsonVersion(files).None? ==>
              forall k :: 0 <= k < 3 && Found(FallbackSources(files)[k]).Some?
                          && (forall j :: 0 <= j < k ==> Found(FallbackSources(files)[j]).None?)
                          ==> r == Found(FallbackSources(files)[k]).value
    ensures JsonVersion(files).None? && (forall k :: 0 <= k < 3 ==> Found(FallbackSources(files)[k]).None?)
            ==> r == "1.0.0"
  {
    match JsonVersion(files)
    case Some(v) => v
    case None =>
      match FirstFound(FallbackSources(files))
      case Some(v) => v
      case None =>
        assert Walk(Number(0, false), "1.0.0") == Some(Number(2, true));
        "1.0.0"
  }

  /** The result of one of the two text updaters: whether it reports an update, and the
      file's content afterwards. */
  datatype FileUpdate = FileUpdate(changed: bool, content: Option<string>)

  /** `_update_pyproject_version` and `_update_setup_version` (identical): a missing file
      is skipped; otherwise every match has its number replaced by `v`, the file is written
      only when that changed something, and the update is reported exactly then. The
      replacement template is taken literally, which holds while `v` has no backslash. */
  function UpdateVersionText(content: Option<string>, v: string): (u: FileUpdate)
    requires '\\' !in v
    ensures content.None? ==> u == FileUpdate(false, None)
    ensures content.Some? ==> u.content == Some(Render(WithNumber(Scan(content.value), v)))
    ensures u.content.Some? <==> content.Some?
    ensures u.changed <==> u.content != content
  {
    match content
    case None => FileUpdate(false, None)
    case Some(c) =>
      var t := Rewrite(c, v);
      RewriteIsFieldSubstitution(c, v);
      FileUpdate(t != c, Some(t))
  }

  /** With a version-shaped `v`, an update is reported exactly when some match of the file
      carries another number. */
  lemma UpdateReportsStaleMatch(c: string, v: string)
    requires IsVersionText(v) && '\\' !in v
    ensures UpdateVersionText(Some(c), v).changed <==> !AllNumbersAre(Scan(c), v)
    ensures UpdateVersionText(Some(c), v).changed <==> !EveryMatchIs(c, v)
  {
    RewriteChangesIff(c, v);
  }

  /** Updating twice with the same version: the second update changes nothing and reports
      no update. */
  lemma UpdateIdempotent(content: Option<string>, v: string)
    requires IsVersionText(v) && '\\' !in v
    ensures var once := UpdateVersionText(content, v);
            UpdateVersionText(once.content, v) == FileUpdate(false, once.content)
  {
    if content.Some? {
      RewriteIdempotent(content.value, v);
    }
  }

  /** The outcome of `update_all_files`: the files afterwards and the `updated_files` list. */
  datatype UpdateOutcome = UpdateOutcome(files: ProjectFiles, updated: seq<string>)

  /** `update_all_files(v)`: each entry of `version_files` in turn; version.json is always
      rewritten with `v` (the other keys and the timestamp are not modelled). */
  function UpdateAllFiles(files: ProjectFiles, v: string): (r: UpdateOutcome)
    requires '\\' !in v
    ensures IsSubsequence(r.updated, VersionFileNames)
    ensures "version.json" in r.updated
    ensures "pyproject.toml" in r.updated <==> r.files.pyproject != files.pyproject
    ensures "setup.py" in r.updated <==> r.files.setupPy != files.setupPy
    ensures "src/pyproject.toml" in r.updated <==> r.files.srcPyproject != files.srcPyproject
    ensures r.files.pyproject.Some? <==> files.pyproject.Some?
    ensures r.files.setupPy.Some? <==> files.setupPy.Some?
    ensures r.files.srcPyproject.Some? <==> files.srcPyproject.Some?
    ensures r.files.pyproject == UpdateVersionText(files.pyproject, v).content
    ensures r.files.setupPy == UpdateVersionText(files.setupPy, v).content
    ensures r.files.srcPyproject == UpdateVersionText(files.srcPyproject, v).content
    ensures r.files.versionJson == Some(JsonDoc(Some(v)))
    ensures JsonVersion(r.files) == Some(v)
  {
    Collect(files, UpdateVersionText(files.pyproject, v), UpdateVersionText(files.setupPy, v),
            UpdateVersionText(files.srcPyproject, v), v)
  }

  /** The loop of `update_all_files` once each text updater has run: the files afterwards
      and the names of those whose updater reported an update. */
  function Collect(files: ProjectFiles, py: FileUpdate, setup: FileUpdate, src: FileUpdate, v: string)
    : (r: UpdateOutcome)
    requires py.changed <==> py.content != files.pyproject
    requires setup.changed <==> setup.content != files.setupPy
    requires src.changed <==> src.content != files.srcPyproject
    ensures IsSubsequence(r.updated, VersionFileNames)
    ensures "version.json" in r.updated
    ensures "pyproject.toml" in r.updated <==> r.files.pyproject != files.pyproject
    ensures "setup.py" in r.updated <==> r.files.setupPy != files.setupPy
    ensures "src/pyproject.toml" in r.updated <==> r.files.srcPyproject != files.srcPyproject
    ensures r.files == ProjectFiles(py.content, setup.content, Some(JsonDoc(Some(v))), src.content)
  {
    SelectedNames(py.changed, setup.changed, src.changed);
    UpdateOutcome(ProjectFiles(py.content, setup.content, Some(JsonDoc(Some(v))), src.content),
                  Selected(0, py.changed) + Selected(1, setup.changed) + Selected(2, true)
                  + Selected(3, src.changed))
  }

  /** The name of the `k`-th entry of `version_files` if its updater reported an update. */
  function Selected(k: nat, changed: bool): seq<string>
    requires k < |VersionFileNames|
  {
    if changed then [VersionFileNames[k]] else []
  }

  /** The list `update_all_files` builds keeps the order of `version_files`, and names a
      text file exactly when its updater reported an update. */
  lemma SelectedNames(a: bool, b: bool, c: bool)
    ensures var names := Selected(0, a) + Selected(1, b) + Selected(2, true) + Selected(3, c);
            && IsSubsequence(names, VersionFileNames)
            && ("version.json" in names)
            && ("pyproject.toml" in names <==> a)
            && ("setup.py" in names <==> b)
            && ("src/pyproject.toml" in names <==> c)
  {
    var tail := Selected(1, b) + Selected(2, true) + Selected(3, c);
    SelectedTail(b, c);
    SelectedPrepend(0, a, tail);
    assert Selected(0, a) + Selected(1, b) + Selected(2, true) + Selected(3, c) == Selected(0, a) + tail;
  }

  lemma SelectedTail(b: bool, c: bool)
    ensures var tail := Selected(1, b) + Selected(2, true) + Selected(3, c);
            && IsSubsequence(tail, VersionFileNames[1..])
            && ("version.json" in tail)
            && ("pyproject.toml" !in tail)
            && ("setup.py" in tail <==> b)
            && ("src/pyproject.toml" in tail <==> c)
  {
    var last := Selected(3, c);
    assert IsSubsequence(last, VersionFileNames[3..]) by {
      assert VersionFileNames[3..] == ["src/pyproject.toml"];
      if c {
        assert last[1..] == [];
      }
    }
    SelectedPrepend(2, true, last);
    var mid := Selected(2, true) + last;
    SelectedPrepend(1, b, mid);
    assert Selected(1, b) + Selected(2, true) + last == Selected(1, b) + mid;
  }

  /** Putting the (possibly absent) `k`-th name in front of a selection from the later names. */
  lemma SelectedPrepend(k: nat, changed: bool, rest: seq<string>)
    requires k < |VersionFileNames|
    requires IsSubsequence(rest, VersionFileNames[k + 1..])
    ensures IsSubsequence(Selected(k, changed) + rest, VersionFileNames[k..])
    ensures forall n :: n in Selected(k, changed) + rest <==> (changed && n == VersionFileNames[k]) || n in rest
  {
    var names := Selected(k, changed) + rest;
    assert VersionFileNames[k..][1..] == VersionFileNames[k + 1..];
    if changed {
      assert names[1..] == rest;
      assert VersionFileNames[k..][0] == VersionFileNames[k];
    } else {
      assert names == rest;
      SubsequenceOfTail(rest, VersionFileNames[k..]);
    }
  }

  /** Whatever the files held before, the version read after `update_all_files(v)` is `v`,
      because version.json, which takes precedence, now holds it. */
  lemma UpdateAllFilesSetsCurrent(files: ProjectFiles, v: string)
    requires '\\' !in v
    ensures CurrentVersion(UpdateAllFiles(files, v).files) == v
  {
    var after := UpdateAllFiles(files, v).files;
    assert JsonVersion(after) == Some(v);
  }

  /** After `update_all_files(v)` with a version-shaped `v`, every text file in which the
      first pattern found a version now offers `v`, and the others are unchanged. */
  lemma UpdatedFilesReadBack(files: ProjectFiles, v: string)
    requires IsVersionText(v) && '\\' !in v
    ensures var after := UpdateAllFiles(files, v).files;
            && ReadsBack(files.pyproject, after.pyproject, v)
            && ReadsBack(files.setupPy, after.setupPy, v)
            && ReadsBack(files.srcPyproject, after.srcPyproject, v)
  {
    var after := UpdateAllFiles(files, v).files;
    if files.pyproject.Some? {
      FindVersionAfterRewrite(files.pyproject.value, v);
      SearchAfterRewrite(files.pyproject.value, v);
      RewriteIsFieldSubstitution(files.pyproject.value, v);
    }
    if files.setupPy.Some? {
      FindVersionAfterRewrite(files.setupPy.value, v);
      SearchAfterRewrite(files.setupPy.value, v);
      RewriteIsFieldSubstitution(files.setupPy.value, v);
    }
    if files.srcPyproject.Some? {
      FindVersionAfterRewrite(files.srcPyproject.value, v);
      SearchAfterRewrite(files.srcPyproject.value, v);
      RewriteIsFieldSubstitution(files.srcPyproject.value, v);
    }
  }

  /** `after` offers `v` if `before` had a `version = "X.Y.Z"` match, and equals `before`
      otherwise. */
  predicate ReadsBack(before: Option<string>, after: Option<string>, v: string) {
    match before
    case None => after.None?
    case Some(c) =>
      if Search(VersionKeyword, c).Some? then after.Some? && FindVersion(after.value) == Some(v)
      else after == before
  }

  // ---------------------------------------------------------------------------
  // The command line

  datatype Flags = Flags(major: bool, minor: bool, patch: bool, dryRun: bool)

  /** The bump type `main` derives from the flags: `--major` wins over `--minor`, and patch
      is the default whether or not `--patch` is given. */
  function BumpKindOf(flags: Flags): (k: string)
    ensures k in {"major", "minor", "patch"}
    ensures k == "major" <==> flags.major
    ensures k == "minor" <==> !flags.major && flags.minor
    ensures k == "patch" <==> !flags.major && !flags.minor
  {
    if flags.major then "major" else if flags.minor then "minor" else "patch"
  }

  datatype Report =
    | Bumped(from: string, to: string, updated: seq<string>)
    | WouldBump(from: string, to: string, present: seq<bool>)   // dry run: the files' existence
    | Failed(error: BumpError)

  datatype Outcome = Outcome(exitCode: int, files: ProjectFiles, report: Report)

  /** `main()`: a dry run computes the new version and lists the files without writing;
      otherwise `run` bumps and updates every file. Any exception ends with exit status 1. */
  function Main(files: ProjectFiles, flags: Flags): (o: Outcome)
    ensures o.exitCode == 0 <==> !o.report.Failed?
    ensures o.exitCode == 0 || o.exitCode == 1
    ensures o.report.Failed? || flags.dryRun ==> o.files == files
    ensures o.report.Failed? <==> ParseVersion(CurrentVersion(files)).None?
    ensures o.report.Failed? ==> o.report.error == MalformedVersion(CurrentVersion(files))
    ensures !o.report.Failed? ==> o.report.Bumped? == !flags.dryRun
    ensures !o.report.Failed? ==> o.report.from == CurrentVersion(files)
                                  && Bump(o.report.from, BumpKindOf(flags)) == Ok(o.report.to)
    ensures !o.report.Failed? ==> '\\' !in o.report.to
    ensures o.report.Bumped? ==> o.files == UpdateAllFiles(files, o.report.to).files
                                 && o.report.updated == UpdateAllFiles(files, o.report.to).updated
    ensures o.report.Bumped? ==> JsonVersion(o.files) == Some(o.report.to)
    ensures o.report.WouldBump? ==>
              o.report.present == [files.pyproject.Some?, files.setupPy.Some?,
                                   files.versionJson.Some?, files.srcPyproject.Some?]
  {
    var current := CurrentVersion(files);
    match Bump(current, BumpKindOf(flags))
    case Err(e) => Outcome(1, files, Failed(e))
    case Ok(next) =>
      NoBackslashInBumped(current, BumpKindOf(flags));
      if flags.dryRun then
        Outcome(0, files, WouldBump(current, next,
          [files.pyproject.Some?, files.setupPy.Some?, files.versionJson.Some?, files.srcPyproject.Some?]))
      else
        var u := UpdateAllFiles(files, next);
        Outcome(0, u.files, Bumped(current, next, u.updated))
  }

  /** What `bump_version` returns is digits and dots only. */
  lemma NoBackslashInBumped(version: string, kind: string)
    requires Bump(version, kind).Ok?
    ensures IsVersionText(Bump(version, kind).value)
    ensures '\\' !in Bump(version, kind).value
  {
    var r := Bump(version, kind).value;
    VersionTextParses(r);
    VersionTextHasNoBackslash(r);
  }

  lemma VersionTextHasNoBackslash(s: string)
    requires IsVersionText(s)
    ensures '\\' !in s
  {
    TextOfNumberRun(0, false, s);
  }

  /** Every character the number automaton walks over is a digit or a dot. */
  lemma {:induction false} TextOfNumberRun(p: nat, d: bool, s: string)
    requires Walk(Number(p, d), s).Some?
    ensures forall i :: 0 <= i < |s| ==> '0' <= s[i] <= '9' || s[i] == '.'
    decreases |s|
  {
    if |s| > 0 {
      var st := Step(Number(p, d), s[0]).state;
      TextOfNumberRun(st.part, st.hasDigit, s[1..]);
      assert forall i :: 1 <= i < |s| ==> s[i] == s[1..][i - 1];
    }
  }

  /** The bump can only fail on a version.json whose `version` is not `X.Y.Z`: a version
      taken from the other files, or the default, always parses. */
  lemma MainFailsOnlyOnJsonVersion(files: ProjectFiles, flags: Flags)
    ensures Main(files, flags).report.Failed? <==>
              JsonVersion(files).Some? && ParseVersion(JsonVersion(files).value).None?
  {
    VersionTextParses(CurrentVersion(files));
  }

  /** A real bump moves every text file that had a `version = "X.Y.Z"` to the new
      version, and the next run starts from that version. */
  lemma MainBumpReadsBack(files: ProjectFiles, flags: Flags)
    requires !flags.dryRun && !Main(files, flags).report.Failed?
    ensures var o := Main(files, flags);
            && ReadsBack(files.pyproject, o.files.pyproject, o.report.to)
            && ReadsBack(files.setupPy, o.files.setupPy, o.report.to)
            && ReadsBack(files.srcPyproject, o.files.srcPyproject, o.report.to)
            && CurrentVersion(o.files) == o.report.to
  {
    var o := Main(files, flags);
    NoBackslashInBumped(CurrentVersion(files), BumpKindOf(flags));
    UpdatedFilesReadBack(files, o.report.to);
  }
}
