/**
 `Phase01ValidationRunner` of validate_phase_0_1.py: five success criteria, the unit-test
 summary, the sample-file and agent-instruction checks, and the 80% verdict that sets the
 exit status. The unit-test run, the sample directory and the gunicorn configuration are
 inputs, and so is whether saving the results file raises; a step that raises records its
 error and skips the rest.
 */
module PhaseValidation {
  import opened Wrappers
  import opened Sequences
  import opened Text

  /** `success_criteria`, in the order of the dictionary literal. */
  datatype Criteria = Criteria(
    yellowSkyTxtland: bool,
    multiFormatSupport: bool,
    confidenceReporting: bool,
    sourceCitation: bool,
    fallbackStrategies: bool)

  function CriteriaValues(c: Criteria): seq<bool> {
    [c.yellowSkyTxtland, c.multiFormatSupport, c.confidenceReporting, c.sourceCitation, c.fallbackStrategies]
  }

  /** A ratio `num / den` kept exact; `den` is positive. */
  datatype Rate = Rate(num: int, den: nat)

  /** What `unittest.TextTestRunner.run` reports. */
  datatype UnitTestResult = UnitTestResult(testsRun: nat, failures: nat, errors: nat, skipped: nat)

  /** `test_summary`. */
  datatype TestSummary = TestSummary(testsRun: nat, failures: nat, errors: nat, skipped: nat, successRate: Rate)

  /** The exceptions the checks raise. */
  datatype ValidationError =
    | MissingSampleFiles(names: seq<string>)
    | NotCanonicalSample
    | MissingInstructionsFile
    | MissingInstructionElements(elements: seq<string>)
    | ResultsNotSaved                                   // writing the results file raised

  /** `test_results` (the timestamp and the constant phase tag are not modelled). */
  datatype Results = Results(
    testSummary: Option<TestSummary>,
    criteria: Criteria,
    overallSuccess: bool,
    successRate: Option<Rate>,
    error: Option<ValidationError>)

  /** `__init__`: every criterion and the verdict start false. */
  function InitialResults(): (r: Results)
    ensures forall k :: 0 <= k < 5 ==> !CriteriaValues(r.criteria)[k]
    ensures !r.overallSuccess && r.error.None? && r.testSummary.None? && r.successRate.None?
  {
    Results(None, Criteria(false, false, false, false, false), false, None, None)
  }

  // ---------------------------------------------------------------------------
  // _run_unit_tests

  /** The condition under which the unit tests vouch for four criteria. */
  predicate TestsPassed(t: UnitTestResult) {
    t.testsRun > 0 && t.failures == 0 && t.errors == 0
  }

  /** `success_rate` of the summary: 0 when nothing ran, else the share of tests that
      neither failed nor erred. */
  function TestSuccessRate(t: UnitTestResult): (r: Rate)
    ensures r.den > 0
    ensures t.testsRun == 0 ==> r.num == 0
    ensures t.testsRun > 0 ==> r.den == t.testsRun && r.num == t.testsRun - t.failures - t.errors
  {
    if t.testsRun > 0 then Rate(t.testsRun - t.failures - t.errors, t.testsRun) else Rate(0, 1)
  }

  /** `_run_unit_tests`: records the summary, and sets the four test-backed criteria when
      the tests passed; otherwise leaves them as they were. */
  function RunUnitTests(res: Results, t: UnitTestResult): (r: Results)
    ensures r.testSummary == Some(TestSummary(t.testsRun, t.failures, t.errors, t.skipped, TestSuccessRate(t)))
    ensures r.criteria.yellowSkyTxtland == res.criteria.yellowSkyTxtland
    ensures TestsPassed(t) ==> r.criteria.multiFormatSupport && r.criteria.confidenceReporting
                               && r.criteria.sourceCitation && r.criteria.fallbackStrategies
    ensures !TestsPassed(t) ==> r.criteria == res.criteria
    ensures r.overallSuccess == res.overallSuccess && r.successRate == res.successRate && r.error == res.error
  {
    var summary := TestSummary(t.testsRun, t.failures, t.errors, t.skipped, TestSuccessRate(t));
    if TestsPassed(t) then
      res.(testSummary := Some(summary),
           criteria := res.criteria.(multiFormatSupport := true, confidenceReporting := true,
                                     sourceCitation := true, fallbackStrategies := true))
    else res.(testSummary := Some(summary))
  }

  /** The summary's rate is exactly 1 when some test ran and none failed or erred, that is,
      exactly when the criteria are set. */
  lemma FullRateIffPassed(t: UnitTestResult)
    ensures var r := TestSuccessRate(t);
            r.num == r.den <==> TestsPassed(t)
  {
  }

  // ---------------------------------------------------------------------------
  // _validate_sample_files

  const RequiredSamples: seq<string> := [
    "sample.txt", "sample.csv", "sample.docx", "sample.xlsx", "sample.pdf", "test_files_and_questions.md"
  ]

  /** The names among `names` that `files` does not have, in the order of `names`. */
  function Missing(names: seq<string>, files: map<string, string>): (m: seq<string>)
    ensures IsSubsequence(m, names)
    ensures forall n :: n in m <==> n in names && n !in files
  {
    if |names| == 0 then []
    else
      var rest := Missing(names[1..], files);
      SubsequenceMembers(rest, names[1..]);
      assert forall n :: n in names <==> n == names[0] || n in names[1..];
      if names[0] in files then
        SubsequenceOfTail(rest, names);
        rest
      else
        assert ([names[0]] + rest)[1..] == rest;
        [names[0]] + rest
  }

  /** The canonical test case: "yellow" and "txtland" both occur in the lowered text. */
  ghost predicate IsCanonicalSample(content: string) {
    (exists i: nat :: OccursAt(Lower(content), "yellow", i))
    && (exists i: nat :: OccursAt(Lower(content), "txtland", i))
  }

  /** `_validate_sample_files`: every required file must exist, and sample.txt must hold the
      canonical case; only then is `yellow_sky_txtland` set. */
  function ValidateSampleFiles(res: Results, files: map<string, string>): (r: Result<Results, ValidationError>)
    ensures r.Ok? <==> (forall n :: n in RequiredSamples ==> n in files)
                       && IsCanonicalSample(files["sample.txt"])
    ensures r.Ok? ==> r.value == res.(criteria := res.criteria.(yellowSkyTxtland := true))
    ensures (exists n :: n in RequiredSamples && n !in files) ==>
              r == Err(MissingSampleFiles(Missing(RequiredSamples, files)))
    ensures r.Err? && (forall n :: n in RequiredSamples ==> n in files) ==> r == Err(NotCanonicalSample)
  {
    var missing := Missing(RequiredSamples, files);
    if |missing| > 0 then
      assert missing[0] in missing;
      Err(MissingSampleFiles(missing))
    else
      assert forall n :: n in RequiredSamples ==> n in files by {
        forall n | n in RequiredSamples
          ensures n in files
        {
          assert n !in missing;
        }
      }
      assert RequiredSamples[0] == "sample.txt";
      var lowered := Lower(files["sample.txt"]);
      if !(Contains(lowered, "yellow") && Contains(lowered, "txtland")) then Err(NotCanonicalSample)
      else Ok(res.(criteria := res.criteria.(yellowSkyTxtland := true)))
  }

  /** The check ignores case: any capitalisation of the two words ("Yellow", "TXTland")
      makes the sample canonical. */
  lemma CanonicalIgnoresCase(c: string, w1: string, i: nat, w2: string, j: nat)
    requires OccursAt(c, w1, i) && Lower(w1) == "yellow"
    requires OccursAt(c, w2, j) && Lower(w2) == "txtland"
    ensures IsCanonicalSample(c)
  {
    LowerOccurs(c, w1, i);
    LowerOccurs(c, w2, j);
  }

  /** Lowering a text lowers every occurrence in it. */
  lemma LowerOccurs(c: string, w: string, i: nat)
    requires OccursAt(c, w, i)
    ensures OccursAt(Lower(c), Lower(w), i)
  {
    var l := Lower(c);
    assert forall k :: 0 <= k < |w| ==> l[i..i + |w|][k] == LowerChar(c[i + k]) == LowerChar(w[k]);
  }

  // ---------------------------------------------------------------------------
  // _test_enhanced_instructions

  const RequiredElements: seq<string> := [
    "MANDATORY DOCUMENT SEARCH PROTOCOL", "SEARCH EXAMPLE", "CONFIDENCE REPORTING",
    "DOCUMENT SOURCE REPORTING", "TQ Assistant"
  ]

  /** The elements that do not occur in `content`, in the order given. */
  function MissingElements(elements: seq<string>, content: string): (m: seq<string>)
    ensures IsSubsequence(m, elements)
    ensures forall e :: e in m <==> e in elements && !(exists i: nat :: OccursAt(content, e, i))
  {
    if |elements| == 0 then []
    else
      var rest := MissingElements(elements[1..], content);
      SubsequenceMembers(rest, elements[1..]);
      assert forall e :: e in elements <==> e == elements[0] || e in elements[1..];
      if Contains(content, elements[0]) then
        SubsequenceOfTail(rest, elements);
        rest
      else
        assert ([elements[0]] + rest)[1..] == rest;
        [elements[0]] + rest
  }

  /** `_test_enhanced_instructions`: src/gunicorn.conf.py must exist and contain every
      required element, case-sensitively. */
  function TestEnhancedInstructions(gunicornConf: Option<string>): (r: Option<ValidationError>)
    ensures gunicornConf.None? ==> r == Some(MissingInstructionsFile)
    ensures gunicornConf.Some? ==>
              (r.None? <==> forall e :: e in RequiredElements ==> exists i: nat :: OccursAt(gunicornConf.value, e, i))
    ensures r.Some? && gunicornConf.Some? ==>
              r == Some(MissingInstructionElements(MissingElements(RequiredElements, gunicornConf.value)))
  {
    match gunicornConf
    case None => Some(MissingInstructionsFile)
    case Some(content) =>
      var missing := MissingElements(RequiredElements, content);
      if |missing| > 0 then
        assert missing[0] in missing;
        Some(MissingInstructionElements(missing))
      else None
  }

  // ---------------------------------------------------------------------------
  // _generate_success_report

  function CountTrue(bs: seq<bool>): (n: nat)
    ensures n <= |bs|
  {
    if |bs| == 0 then 0 else (if bs[0] then 1 else 0) + CountTrue(bs[1..])
  }

  /** `success_rate >= 0.8`, with the ratio `count / total` compared by cross-multiplying. */
  predicate MeetsThreshold(count: nat, total: nat) {
    5 * count >= 4 * total
  }

  /** `_generate_success_report`: the share of met criteria, and the verdict. */
  function GenerateSuccessReport(res: Results): (r: Results)
    ensures r.successRate == Some(Rate(CountTrue(CriteriaValues(res.criteria)), 5))
    ensures r.overallSuccess <==> CountTrue(CriteriaValues(res.criteria)) >= 4
    ensures r.criteria == res.criteria && r.testSummary == res.testSummary && r.error == res.error
  {
    var count := CountTrue(CriteriaValues(res.criteria));
    res.(overallSuccess := MeetsThreshold(count, |CriteriaValues(res.criteria)|),
         successRate := Some(Rate(count, |CriteriaValues(res.criteria)|)))
  }

  // ---------------------------------------------------------------------------
  // run_validation and main

  /** `run_validation`: the four steps in order; the first that raises records its error
      and skips the rest. The report step sets the verdict and the rate before it saves the
      results file, so a failed save (`saveFails`) records its error on a finished verdict. */
  function RunValidation(tests: UnitTestResult, samples: map<string, string>, gunicornConf: Option<string>,
                         saveFails: bool): (r: Results)
    ensures r.testSummary == Some(TestSummary(tests.testsRun, tests.failures, tests.errors, tests.skipped,
                                              TestSuccessRate(tests)))
    ensures (exists n :: n in RequiredSamples && n !in samples) ==>
              r.error == Some(MissingSampleFiles(Missing(RequiredSamples, samples)))
    ensures (forall n :: n in RequiredSamples ==> n in samples) && !IsCanonicalSample(samples["sample.txt"]) ==>
              r.error == Some(NotCanonicalSample)
    ensures (forall n :: n in RequiredSamples ==> n in samples) && IsCanonicalSample(samples["sample.txt"]) ==>
              r.error == (if TestEnhancedInstructions(gunicornConf).Some? then TestEnhancedInstructions(gunicornConf)
                          else if saveFails then Some(ResultsNotSaved) else None)
  {
    var afterTests := RunUnitTests(InitialResults(), tests);
    match ValidateSampleFiles(afterTests, samples)
    case Err(e) => afterTests.(error := Some(e))
    case Ok(afterSamples) =>
      match TestEnhancedInstructions(gunicornConf)
      case Some(e) => afterSamples.(error := Some(e))
      case None =>
        var reported := GenerateSuccessReport(afterSamples);
        if saveFails then reported.(error := Some(ResultsNotSaved)) else reported
  }

  /** The inputs pass every check: the tests vouch for their criteria, the sample files are
      complete and canonical, and the instructions hold every element. */
  ghost predicate AllChecksPass(tests: UnitTestResult, samples: map<string, string>, gunicornConf: Option<string>) {
    && TestsPassed(tests)
    && (forall n :: n in RequiredSamples ==> n in samples)
    && IsCanonicalSample(samples["sample.txt"])
    && gunicornConf.Some?
    && (forall e :: e in RequiredElements ==> exists i: nat :: OccursAt(gunicornConf.value, e, i))
  }

  /** The verdict holds exactly when every check passes, whether or not the results file
      is saved: a report is only generated once the sample and instruction checks passed,
      and then the yellow criterion is met, so the count is 5 or 1 according to the tests.
      An error raised by a check means failure and no report; a failed save keeps both. */
  lemma RunValidationVerdict(tests: UnitTestResult, samples: map<string, string>, gunicornConf: Option<string>,
                             saveFails: bool)
    ensures var r := RunValidation(tests, samples, gunicornConf, saveFails);
            && (r.overallSuccess <==> AllChecksPass(tests, samples, gunicornConf))
            && (r.error.Some? && r.error != Some(ResultsNotSaved) ==> !r.overallSuccess && r.successRate.None?)
            && (r.error.None? ==> r.successRate.Some?)
            && (r.error == Some(ResultsNotSaved) <==> saveFails && r.successRate.Some?)
            && (r.successRate.Some? ==> r.successRate.value.num == (if TestsPassed(tests) then 5 else 1))
  {
    var afterTests := RunUnitTests(InitialResults(), tests);
    match ValidateSampleFiles(afterTests, samples)
    case Err(_) =>
    case Ok(afterSamples) =>
      var c := afterSamples.criteria;
      assert c.yellowSkyTxtland;
      if TestsPassed(tests) {
        assert CriteriaValues(c) == [true, true, true, true, true];
      } else {
        assert CriteriaValues(c) == [true, false, false, false, false];
      }
  }

  /** The exit status of `main`. */
  function ExitCode(r: Results): (code: int)
    ensures code == 0 <==> r.overallSuccess
    ensures code == 0 || code == 1
  {
    if r.overallSuccess then 0 else 1
  }

  /** `main()` exits with 0 exactly when every check passes, even when saving the results
      file failed. */
  lemma MainExitCode(tests: UnitTestResult, samples: map<string, string>, gunicornConf: Option<string>,
                     saveFails: bool)
    ensures ExitCode(RunValidation(tests, samples, gunicornConf, saveFails)) == 0
            <==> AllChecksPass(tests, samples, gunicornConf)
  {
    RunValidationVerdict(tests, samples, gunicornConf, saveFails);
  }
}
