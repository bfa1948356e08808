# TQFA API V2 release scripts, modelled in Dafny

The TQFA API V2 repository ships three small Python scripts around its service. This
project models their decision and string logic:

- **bump_version.py.** `V2VersionBumper` finds the current version of the project. It
  looks first in version.json, then in the first `version = "X.Y.Z"` or
  `__version__ = "X.Y.Z"` of pyproject.toml, src/pyproject.toml and setup.py, and
  otherwise uses `"1.0.0"`. It computes the major, minor or patch successor. It then
  rewrites every `version = 'X.Y.Z'` in pyproject.toml, setup.py and src/pyproject.toml,
  and writes version.json. `main` chooses the bump type from the flags and either does a
  dry run or bumps.
- **setup.py.** `get_version` reads the package version from app/main.py, falling back to
  `"2.0.0"`. `get_requirements` filters requirements.txt, falling back to a fixed list.
- **validate_phase_0_1.py.** `Phase01ValidationRunner` combines the unit-test outcome, a
  sample-file check and an agent-instruction check into five criteria. It derives an 80%
  verdict from them, and `main` turns the verdict into the exit status.

File contents are values (`Option<string>`: `None` is a missing file). The outcome of the
unit-test run is a value too. Every operation is a pure function.

The modules are:

- `Text`: `str.strip`, iteration over lines, `str.split`, `in`, ASCII `lower`.
- `Decimal`: `int()` and `str()` on plain digit strings.
- `VersionPattern`: the regular expression `version\s*=\s*["']([0-9]+\.[0-9]+\.[0-9]+)["']`
  (and its `__version__` twin) as a deterministic automaton, with `re.search` and
  `re.sub`.
- `SemVer`: `bump_version`.
- `VersionBumper`: the rest of bump_version.py.
- `PackageSetup`: setup.py.
- `PhaseValidation`: validate_phase_0_1.py.
- `Sequences`: order-keeping selection.
- `Wrappers`: `Option` and `Result`.

The automaton models the pattern exactly (`VersionPattern.MatchAtSpec`). Each character class in the pattern is disjoint
from the class that follows it, so the greedy match is the only match. `re.sub` is modelled
as a left-to-right scan without overlap. The scan meets every position where the pattern
matches, because no match can start inside another (`VersionPattern.ScanFieldsAreMatches`). The central result is that rewriting commutes with
scanning: for a version-shaped replacement, the rewritten text scans into the same pieces
with the new number in each match. Idempotence, the "changed iff some match carried another
number" rule, and the read-back after a bump all follow from it.

## Model

| member | source | states |
|---|---|---|
| `Text.Strip` | setup.py:42-44 | `strip()` returns the slice of the line between its leading and trailing whitespace: everything before and after it is whitespace, and the slice neither starts nor ends with whitespace. It is empty exactly when the line is all whitespace. |
| `Text.LinesSpec` | setup.py:43 | `Text.Lines` models iterating over a file. The lines it yields concatenate back to the content. Each line holds no '\n' except possibly as its last character, and every line but the last ends in '\n'. An empty file yields no lines. |
| `Text.LinesAppend` | setup.py:43 | Iterating over text that ends in '\n' followed by more text yields the lines of the first part, then the lines of the second. |
| `Text.Split` | bump_version.py:88 | `split('.')` yields at least one piece. No piece contains '.', and joining the pieces with '.' gives the input back. |
| `Text.SplitAfterPiece` | bump_version.py:88 | A '.'-free piece, then '.', then more text splits into that piece followed by the split of the rest. |
| `Text.Contains` | validate_phase_0_1.py:136 | The `in` test is true exactly when the word occurs at some position of the text. |
| `Text.Lower` | validate_phase_0_1.py:136 | `lower()` keeps the length and lowers every character in place: A-Z map to a-z, and every other character is unchanged. |
| `Decimal.Format` | bump_version.py:91-95 | Formatting an integer writes a non-empty digit string with no leading zero, except "0" itself. |
| `Decimal.ParseFormat` | bump_version.py:88-95 | `Decimal.ParseDecimal` models `int()`. `int()` of what the f-string wrote for n is n. |
| `Decimal.FormatParse` | bump_version.py:88-95 | Formatting the value of a numeral without leading zeros gives the numeral back. |
| `Decimal.LeadingZeroIgnored` | bump_version.py:88 | A leading zero of a numeral carries no value. |
| `VersionPattern.MatchShape` | bump_version.py:58 | Group 1 of a match is three non-empty digit runs joined by dots, and the match closes on `'` or `"`. |
| `VersionPattern.MatchAtSpec` | bump_version.py:58-59 | `VersionPattern.MatchAt` models a match of `version\s*=\s*["']([0-9]+\.[0-9]+\.[0-9]+)["']` (or its `__version__` twin) at one position. It finds a span exactly when the text there is the keyword, whitespace, '=', whitespace and an opening quote (group 1), then three dot-separated digit runs, then a closing quote. |
| `VersionPattern.Search` | bump_version.py:62-65 | Whatever `re.search(...).group(1)` returns is version text, X.Y.Z in digits. Which match it returns is stated by `VersionPattern.SearchLeftmost`. |
| `VersionPattern.SearchLeftmost` | bump_version.py:62-65 | `re.search` finds nothing exactly when no position of the text starts a match. Otherwise it returns the number of the match at the leftmost position that starts one. |
| `VersionPattern.FindVersion` | bump_version.py:57-65 | The `version =` pattern decides when it finds anything. The `__version__` pattern is consulted only when the first finds nothing. A result is version text. |
| `VersionPattern.RenderScan` | bump_version.py:139-142 | Cutting a text into plain characters and pattern matches loses nothing: the pieces spell the text back. |
| `VersionPattern.RewriteIsFieldSubstitution` | bump_version.py:139-142 | `VersionPattern.Rewrite` models `re.sub(pattern, r'\g<1>NEW\g<2>', s)`. It replaces the number of every field of the scan by the new version, and keeps each field's group 1, its closing quote and all text between fields. That the fields are exactly the pattern's matches is `VersionPattern.ScanFieldsAreMatches`. |
| `VersionPattern.ScanFieldsAreMatches` | bump_version.py:139-142 | The left-to-right scan finds every match and nothing else. A field starts at a position of the text exactly when the pattern matches there, and it carries that match's number. Matches never overlap, since a match holds no 'v' after its first letter. |
| `VersionPattern.EveryMatchIff` | bump_version.py:139-142 | All fields of the scan carry a version exactly when every match of the pattern, at any position of the text, carries it. |
| `VersionPattern.NoStaleMatch` | bump_version.py:139-148 | `re.sub` leaves no match behind. Wherever the pattern matches the rewritten text, the match carries the new version. |
| `VersionPattern.SearchIsFirstField` | bump_version.py:63-65 | `re.search` returns the number of the first match that the left-to-right scan meets. |
| `VersionPattern.ScanRewrite` | bump_version.py:139-142 | Rewriting with a version-shaped replacement neither creates nor destroys matches. The rewritten text scans into the same pieces, each match now carrying the new number. |
| `VersionPattern.RewriteIdempotent` | bump_version.py:139-148 | Rewriting a second time with the same version leaves the text as the first rewrite left it. |
| `VersionPattern.RewriteChangesIff` | bump_version.py:142-148 | A rewrite leaves the text unchanged exactly when every match of the pattern, at any position of the text, already carries the new version. |
| `VersionPattern.SearchAfterRewrite` | bump_version.py:139-142 | After a rewrite, the `version =` search returns the new version if it found anything before. A text where it found nothing is left untouched. |
| `VersionPattern.FindVersionAfterRewrite` | bump_version.py:57-65 | After a rewrite, the two-pattern lookup returns the new version if the first pattern matched before. Otherwise it returns what it returned before. |
| `SemVer.ParseVersion` | bump_version.py:88 | Unpacking `map(int, version.split('.'))` succeeds exactly when the split gives three pieces and each is a non-empty digit string. |
| `SemVer.Bump` | bump_version.py:83-97 | A malformed version is rejected before the bump type is looked at. A parseable version with bump type major, minor or patch always succeeds: major gives (M+1).0.0, minor gives M.(m+1).0, patch gives M.m.(p+1). Any other bump type is an error with no version. A result has three canonical parts. |
| `SemVer.ParseFormat` | bump_version.py:88-95 | `SemVer.FormatVersion` models `f"{major}.{minor}.{patch}"`. What it writes parses back to the same version, and its parts have no leading zeros. |
| `SemVer.FormatParse` | bump_version.py:88-95 | A version text without leading zeros is what formatting its parsed value writes. |
| `SemVer.BumpDropsLeadingZeros` | bump_version.py:88-95 | Leading zeros are dropped: "01.02.03" with patch gives "1.2.4". |
| `SemVer.ParseParts` | bump_version.py:88 | Three numerals joined by dots parse to their three values. |
| `SemVer.WalkSplit` | bump_version.py:58 | Reading the number part of the pattern from the middle of a version accepts exactly the texts whose '.'-split gives the missing parts as digit runs. |
| `SemVer.VersionTextParses` | bump_version.py:88 | The pattern's `[0-9]+\.[0-9]+\.[0-9]+` matches a whole text exactly when `bump_version` can parse it. This assumes version parts within the interpreter's digit limit (see Left out). |
| `VersionBumper.FirstFound` | bump_version.py:52-65 | The version of the first file, in the order tried, that offers one. Nothing is found exactly when no file offers a version, and a result is version text. |
| `VersionBumper.CurrentVersion` | bump_version.py:34-67 | version.json's `version` is returned verbatim. Otherwise the result is the first match of pyproject.toml, then src/pyproject.toml, then setup.py. Otherwise it is "1.0.0". Apart from version.json, the result is always version text. |
| `VersionBumper.UpdateVersionText` | bump_version.py:132-148 | A missing file reports no update and stays missing. Otherwise the content becomes the text with every match's number replaced. An update is reported exactly when the content changed. |
| `VersionBumper.UpdateReportsStaleMatch` | bump_version.py:142-148 | With a version-shaped new version, an update is reported exactly when the pattern matches somewhere in the file with a different number. |
| `VersionBumper.UpdateIdempotent` | bump_version.py:134-148 | Running an updater again with the same version changes nothing and reports no update. |
| `VersionBumper.UpdateAllFiles` | bump_version.py:190-202 | Each text file's new content is what its updater produces, and version.json holds the new version. The updated-files list keeps the order of `version_files` and always names version.json. It names each text file exactly when that file changed, and no file appears or disappears. |
| `VersionBumper.Collect` | bump_version.py:197-202 | The loop appends a file name exactly when its updater reports an update, in the order of `version_files`. |
| `VersionBumper.SelectedNames` | bump_version.py:199-202 | The names picked by the loop form an order-keeping selection of `version_files` that always holds version.json. Each other name appears exactly when its updater reported an update. |
| `VersionBumper.UpdateAllFilesSetsCurrent` | bump_version.py:168-185 | After the update, `get_current_version` returns the new version, whatever the files held before. |
| `VersionBumper.UpdatedFilesReadBack` | bump_version.py:199-202 | After the update, each text file in which the first pattern found a version offers the new version to the lookup. The other text files are unchanged. |
| `VersionBumper.BumpKindOf` | bump_version.py:288-294 | `--major` wins over `--minor`. Patch is the bump whenever neither is given, with or without `--patch`. |
| `VersionBumper.Main` | bump_version.py:296-315 | The exit status is 0 exactly when no exception occurs. A dry run or a failure leaves every file as it was. The failure is exactly a current version that does not parse. A dry run lists, in order, which of the four files exist. A real bump leaves the files and the updated list exactly as `update_all_files` with the new version produces them, and the new version has no backslash. |
| `VersionBumper.NoBackslashInBumped` | bump_version.py:88-95 | What `bump_version` returns is version text with no backslash, so the replacement template at line 140 is used literally. |
| `VersionBumper.MainFailsOnlyOnJsonVersion` | bump_version.py:220-253 | A run fails exactly when version.json holds a `version` that `bump_version` cannot parse. Versions found in the other files, and the default, always parse. This assumes version parts within the interpreter's digit limit (see Left out). |
| `VersionBumper.MainBumpReadsBack` | bump_version.py:211-249 | After a real bump, every text file that had a `version = "X.Y.Z"` offers the new version, and the next run starts from it. |
| `PackageSetup.GetVersion` | setup.py:10-32 | The first `version =` match of app/main.py, else its first `__version__` match, else "2.0.0". The result is always X.Y.Z in digits. |
| `PackageSetup.GetVersionParses` | setup.py:22-32 | The package version is always one that `bump_version` accepts. This assumes version parts within the interpreter's digit limit (see Left out). |
| `PackageSetup.Requirements` | setup.py:41-45 | The comprehension keeps at most one entry per line, and every entry is non-empty with no surrounding whitespace. |
| `PackageSetup.GetRequirements` | setup.py:35-54 | Without requirements.txt, the result is the fixed five-entry list. Every entry returned is non-empty and is its own `strip()`. |
| `PackageSetup.RequirementsAppend` | setup.py:41-45 | The filter treats lines independently: the result for two runs of lines is the two results concatenated. |
| `PackageSetup.GetRequirementsByLine` | setup.py:41-45 | The first line of requirements.txt adds its stripped form when the filter keeps it, and nothing otherwise. The remaining lines follow, in order. |
| `PackageSetup.IndentedCommentKept` | setup.py:44 | The '#' test looks at the unstripped line, so "  # x" is returned as the requirement "# x". |
| `PackageSetup.CommentDropped` | setup.py:44 | A '\n'-terminated line starting with '#' contributes nothing, wherever it stands in the file. |
| `PackageSetup.LastCommentDropped` | setup.py:44 | A last line starting with '#' contributes nothing, with or without its '\n'. |
| `PackageSetup.LastLine` | setup.py:41-45 | The last line of the file, with or without '\n', adds its stripped form when the filter keeps it, and nothing otherwise. |
| `PackageSetup.EmptyFile` | setup.py:39-45 | An existing but empty requirements.txt yields no requirements; the defaults are not used. |
| `PackageSetup.GetRequirementsOfLines` | setup.py:41-45 | For any file, read as the lines `Text.LinesSpec` describes, the result is the stripped form of each line the filter keeps, in file order. |
| `PhaseValidation.InitialResults` | validate_phase_0_1.py:36-49 | All five criteria and the verdict start false, with no error recorded. |
| `PhaseValidation.TestSuccessRate` | validate_phase_0_1.py:99 | The rate is 0 when no test ran. Otherwise it is (run - failures - errors) / run. |
| `PhaseValidation.FullRateIffPassed` | validate_phase_0_1.py:99-107 | The rate is exactly 1 when some test ran and none failed or erred, which is when the four criteria are set. |
| `PhaseValidation.RunUnitTests` | validate_phase_0_1.py:94-107 | Records the summary. The four test-backed criteria become true when some test ran and none failed or erred; otherwise all criteria are left as they were. |
| `PhaseValidation.Missing` | validate_phase_0_1.py:123-127 | The missing list holds exactly the required names that are absent, in declared order. |
| `PhaseValidation.ValidateSampleFiles` | validate_phase_0_1.py:111-139 | The check passes exactly when all six files exist and sample.txt contains "yellow" and "txtland" in any case. Only then is `yellow_sky_txtland` set, and nothing else changes. A missing file is reported with the exact missing list. When all files exist, the only possible failure is the non-canonical sample error. |
| `PhaseValidation.CanonicalIgnoresCase` | validate_phase_0_1.py:136 | Any capitalisation of the two words, such as "Yellow" and "TXTland", satisfies the sample check. |
| `PhaseValidation.MissingElements` | validate_phase_0_1.py:161-164 | The missing list holds exactly the required elements that do not occur in the content, in declared order. |
| `PhaseValidation.TestEnhancedInstructions` | validate_phase_0_1.py:142-167 | A missing gunicorn.conf.py fails. Otherwise the check passes exactly when all five elements occur, case-sensitively. A failure reports the exact missing list. |
| `PhaseValidation.GenerateSuccessReport` | validate_phase_0_1.py:174-179 | The rate is the number of met criteria out of 5. The verdict is "at least 80%", which is at least four of five. Nothing else changes. |
| `PhaseValidation.RunValidationVerdict` | validate_phase_0_1.py:51-77 | `PhaseValidation.RunValidation` models `run_validation`, with a flag for whether saving the results file raises. Its verdict holds exactly when the tests passed, the sample files are complete and canonical, and the instructions hold every element, whether or not the save raised. An error raised by a check means failure and no report. A failed save is recorded as an error after the verdict and rate were set. When produced, the report counts 5 criteria if the tests passed and 1 otherwise. |
| `PhaseValidation.RunValidation` | validate_phase_0_1.py:51-77 | The test summary is always kept. A missing sample file records the exact missing list. All files present with a non-canonical sample records that error. Otherwise the instruction check's error is recorded, else the failed save's error, else none. |
| `PhaseValidation.ExitCode` | validate_phase_0_1.py:228 | The exit status is 0 exactly when the verdict holds, and 1 otherwise. |
| `PhaseValidation.MainExitCode` | validate_phase_0_1.py:222-229 | `main` exits with 0 exactly when every check passes, even when saving the results file raised. |

## Left out

- File system, printing, `sys.exit` and `datetime` timestamps are not modelled. File contents are parameters, and exit statuses are return values.
- The contents of the JSON results file are not modelled. Whether writing it raises is an input to `PhaseValidation.RunValidation`.
- `_update_fastapi_version` (bump_version.py:99-130) is not modelled. It is not registered in `version_files`, and its third pattern has an unbalanced parenthesis, so `re.sub` would raise on it.
- The code after `return "1.0.0"` in `get_current_version` (bump_version.py:69-81) is not modelled. It can never run.
- `_update_version_json` is modelled only as "version.json now holds the new version". Its other keys, the timestamp and a failed write are not modelled.
- `json.load` is reduced to two outcomes. Either the file is an object whose `version` is a string (or is absent), or it is `Unreadable`. A `version` that is a number or another non-string value is not modelled; the script would fail on it at `.split`.
- SemVer.ParseVersion, SemVer.Bump, Decimal.Format: the interpreter's limit on int/str conversion (4300 digits by default since Python 3.11) is not modelled. A version part longer than that makes `int()` or the f-string raise, so `run` exits 1, while the model parses and bumps it. Read as claims about the scripts, `VersionBumper.MainFailsOnlyOnJsonVersion`, `SemVer.VersionTextParses` and `PackageSetup.GetVersionParses` hold only for version parts within that limit.
- `int()` is modelled on plain ASCII digit strings only. Python also accepts signs, surrounding whitespace, underscores and non-ASCII digits; such versions are treated as malformed here.
- The regex `\s`, `str.strip()` and `str.lower()` are restricted to ASCII. Whitespace is the ten ASCII characters Python counts as whitespace: space, tab, '\n', vertical tab, form feed, '\r', and U+001C to U+001F. Non-ASCII whitespace such as U+0085 and U+00A0 is not modelled, and lowering maps A-Z only.
- Newline translation by text-mode reads ('\r\n' to '\n') is not modelled. Contents are taken after translation.
- Encoding and decoding errors on reads are not modelled.
- VersionBumper.UpdateVersionText: the replacement template `\g<1>NEW\g<2>` is taken literally, which requires a new version without a backslash. `bump_version` only ever produces digits and dots (`VersionBumper.NoBackslashInBumped`).
- The unit tests themselves, and any exception raised while running them, are not modelled. Their outcome (run, failures, errors, skipped) is an input.
- Success rates are exact ratios, `Rate(num, den)`, not floats. The 80% threshold is compared as 5 * count >= 4 * total, which matches the float comparison for the five criteria.
- The module-level `setup(...)` call and `get_long_description` in setup.py are not modelled.
