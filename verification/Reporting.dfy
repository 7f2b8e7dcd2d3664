/** The verdict of a run: `internal/report/model.go` and the accounting of `internal/report/junit.go`. */
module Reporting {
  import opened Bytes
  import opened Audit

  datatype ProbeInput = ProbeInput(name: Text, passed: bool, latency: int, failures: seq<Text>)

  datatype ScenarioInput = ScenarioInput(name: Text, probes: seq<ProbeInput>)

  datatype ReportFinding = ReportFinding(name: Text, level: Level, message: Text)

  datatype ProbeOutcome = ProbeOutcome(name: Text, passed: bool, latencyMS: int, failures: seq<Text>)

  datatype ScenarioOutcome = ScenarioOutcome(name: Text, passed: bool, probes: seq<ProbeOutcome>)

  datatype Summary = Summary(failed: nat, warnings: nat, passed: nat)

  datatype RunResult = RunResult(
    disposable: bool, summary: Summary, scenarios: seq<ScenarioOutcome>, findings: seq<ReportFinding>)

  // ---------------------------------------------------------------- what the result must be

  const MILLISECOND: int := 1_000_000

  /** `Duration.Milliseconds`, which truncates toward zero. */
  function Milliseconds(d: int): (ms: int)
    ensures d >= 0 ==> ms * 1_000_000 <= d < (ms + 1) * 1_000_000
    ensures d < 0 ==> (ms - 1) * 1_000_000 < d <= ms * 1_000_000
  {
    if d >= 0 then d / MILLISECOND else -(-d / MILLISECOND)
  }

  ghost predicate ReportsProbe(o: ProbeOutcome, p: ProbeInput) {
    o == ProbeOutcome(p.name, p.passed, Milliseconds(p.latency), p.failures)
  }

  /** A scenario passes if all of its probes do. */
  ghost predicate ReportsScenario(o: ScenarioOutcome, s: ScenarioInput) {
    && o.name == s.name && |o.probes| == |s.probes|
    && (forall j | 0 <= j < |s.probes| :: ReportsProbe(o.probes[j], s.probes[j]))
    && (o.passed <==> forall j | 0 <= j < |s.probes| :: s.probes[j].passed)
  }

  ghost function PassedScenarios(os: seq<ScenarioOutcome>): nat {
    if os == [] then 0 else PassedScenarios(os[..|os| - 1]) + if os[|os| - 1].passed then 1 else 0
  }

  ghost function WithLevel(fs: seq<ReportFinding>, level: Level): nat {
    if fs == [] then 0 else WithLevel(fs[..|fs| - 1], level) + if fs[|fs| - 1].level == level then 1 else 0
  }

  /** The result of a run on these scenarios and findings. */
  ghost predicate Built(r: RunResult, scenarios: seq<ScenarioInput>, findings: seq<ReportFinding>) {
    && |r.scenarios| == |scenarios|
    && (forall i | 0 <= i < |scenarios| :: ReportsScenario(r.scenarios[i], scenarios[i]))
    && r.findings == findings
    && r.summary.passed == PassedScenarios(r.scenarios)
    && r.summary.failed + r.summary.passed == |scenarios| + WithLevel(findings, FAIL)
    && r.summary.warnings == WithLevel(findings, WARN)
    && (r.disposable <==> r.summary.failed == 0)
  }

  method BuildScenario(s: ScenarioInput) returns (o: ScenarioOutcome)
    ensures ReportsScenario(o, s)
  {
    var passed := true;
    var probes: seq<ProbeOutcome> := [];
    for j := 0 to |s.probes|
      invariant |probes| == j && forall k | 0 <= k < j :: ReportsProbe(probes[k], s.probes[k])
      invariant passed <==> forall k | 0 <= k < j :: s.probes[k].passed
    {
      var p := s.probes[j];
      if !p.passed {
        passed := false;
      }
      probes := probes + [ProbeOutcome(p.name, p.passed, Milliseconds(p.latency), p.failures)];
    }
    return ScenarioOutcome(s.name, passed, probes);
  }

  method BuildRunResult(scenarios: seq<ScenarioInput>, findings: seq<ReportFinding>) returns (r: RunResult)
    ensures Built(r, scenarios, findings)
  {
    var passed: nat, failed: nat, warnings: nat := 0, 0, 0;
    var outcomes: seq<ScenarioOutcome> := [];
    for i := 0 to |scenarios|
      invariant |outcomes| == i && forall k | 0 <= k < i :: ReportsScenario(outcomes[k], scenarios[k])
      invariant passed == PassedScenarios(outcomes) && failed + passed == i
    {
      var outcome := BuildScenario(scenarios[i]);
      if outcome.passed {
        passed := passed + 1;
      } else {
        failed := failed + 1;
      }
      assert (outcomes + [outcome])[..i] == outcomes;
      outcomes := outcomes + [outcome];
    }
    ghost var failedScenarios := failed;
    for i := 0 to |findings|
      invariant failed == failedScenarios + WithLevel(findings[..i], FAIL)
      invariant warnings == WithLevel(findings[..i], WARN)
    {
      assert findings[..i + 1][..i] == findings[..i];
      match findings[i].level
      case FAIL => failed := failed + 1;
      case WARN => warnings := warnings + 1;
      case PASS =>
    }
    assert findings[..|findings|] == findings;
    return RunResult(failed == 0, Summary(failed, warnings, passed), outcomes, findings);
  }

  function ExitCode(r: RunResult, failOn: Text): (code: int)
    ensures code == 0 || code == 1
  {
    if r.summary.failed > 0 then 1
    else if failOn == Ascii("warn") && r.summary.warnings > 0 then 1
    else 0
  }

  // ---------------------------------------------------------------- the JUnit suite

  datatype TestCase = TestCase(scenario: Text, name: Text, failure: Option<Text>)

  datatype Suite = Suite(tests: nat, failures: nat, cases: seq<TestCase>)

  function FirstFailure(failures: seq<Text>): Text {
    if failures == [] then Ascii("failed") else failures[0]
  }

  predicate FindingFails(f: ReportFinding, failOn: Text) {
    f.level == FAIL || (f.level == WARN && failOn == Ascii("warn"))
  }

  function CaseOf(scenario: Text, p: ProbeOutcome): TestCase {
    TestCase(scenario, p.name, if p.passed then None else Some(FirstFailure(p.failures)))
  }

  ghost function CasesOfScenario(s: ScenarioOutcome): seq<TestCase> {
    seq(|s.probes|, j requires 0 <= j < |s.probes| => CaseOf(s.name, s.probes[j]))
  }

  /** Each probe's case by its parts: it fails exactly if the probe did, with the probe's first failure, or
      "failed" if it gave none. */
  lemma CaseExactly(scenario: Text, p: ProbeOutcome)
    ensures var c := CaseOf(scenario, p);
            && c.scenario == scenario && c.name == p.name
            && (c.failure.Some? <==> !p.passed)
            && (!p.passed && p.failures == [] ==> c.failure.value == Ascii("failed"))
            && (!p.passed && p.failures != [] ==> c.failure.value == p.failures[0])
  {}

  ghost function CasesOf(scenarios: seq<ScenarioOutcome>): seq<TestCase> {
    if scenarios == [] then []
    else CasesOf(scenarios[..|scenarios| - 1]) + CasesOfScenario(scenarios[|scenarios| - 1])
  }

  ghost function FindingCases(fs: seq<ReportFinding>, failOn: Text): seq<TestCase> {
    if fs == [] then []
    else
      var f := fs[|fs| - 1];
      FindingCases(fs[..|fs| - 1], failOn)
      + if FindingFails(f, failOn) then [TestCase(Ascii("finding"), f.name, Some(f.message))] else []
  }

  ghost function FailedCases(cs: seq<TestCase>): nat {
    if cs == [] then 0 else FailedCases(cs[..|cs| - 1]) + if cs[|cs| - 1].failure.Some? then 1 else 0
  }

  lemma OneCase(cs: seq<TestCase>, c: TestCase)
    ensures FailedCases(cs + [c]) == FailedCases(cs) + if c.failure.Some? then 1 else 0
  {
    assert (cs + [c])[..|cs|] == cs;
  }

  /** One case for every probe of every scenario, then one for every finding that counts as a failure. */
  method BuildSuite(r: RunResult, failOn: Text) returns (s: Suite)
    ensures s.cases == CasesOf(r.scenarios) + FindingCases(r.findings, failOn)
    ensures s.tests == |s.cases| && s.failures == FailedCases(s.cases)
  {
    hide FailedCases, CaseOf;
    var cases: seq<TestCase>, failures: nat := [], 0;
    assert FailedCases([]) == 0 by { NoCases(); }
    for i := 0 to |r.scenarios|
      invariant cases == CasesOf(r.scenarios[..i]) && failures == FailedCases(cases)
    {
      var scenario := r.scenarios[i];
      ghost var before := cases;
      assert r.scenarios[..i + 1][..i] == r.scenarios[..i];
      for j := 0 to |scenario.probes|
        invariant cases == before + CasesOfScenario(scenario)[..j] && failures == FailedCases(cases)
      {
        var c := CaseOf(scenario.name, scenario.probes[j]);
        OneCase(cases, c);
        if c.failure.Some? {
          failures := failures + 1;
        }
        cases := cases + [c];
      }
    }
    assert r.scenarios[..|r.scenarios|] == r.scenarios;
    for i := 0 to |r.findings|
      invariant cases == CasesOf(r.scenarios) + FindingCases(r.findings[..i], failOn)
      invariant failures == FailedCases(cases)
    {
      var f := r.findings[i];
      assert r.findings[..i + 1][..i] == r.findings[..i];
      if !FindingFails(f, failOn) {
        continue;
      }
      var c := TestCase(Ascii("finding"), f.name, Some(f.message));
      OneCase(cases, c);
      failures := failures + 1;
      cases := cases + [c];
    }
    assert r.findings[..|r.findings|] == r.findings;
    return Suite(|cases|, failures, cases);
  }

  lemma NoCases()
    ensures FailedCases([]) == 0
  {}

  // ---------------------------------------------------------------- the verdicts agree

  lemma {:induction false} PassedCount(os: seq<ScenarioOutcome>)
    ensures PassedScenarios(os) <= |os|
    ensures PassedScenarios(os) == |os| <==> forall i | 0 <= i < |os| :: os[i].passed
  {
    if os == [] {
    } else {
      PassedCount(os[..|os| - 1]);
    }
  }

  lemma {:induction false} LevelCount(fs: seq<ReportFinding>, level: Level)
    ensures WithLevel(fs, level) > 0 <==> exists i :: 0 <= i < |fs| && fs[i].level == level
  {
    if fs == [] {
    } else {
      var init := fs[..|fs| - 1];
      LevelCount(init, level);
      if i :| 0 <= i < |init| && init[i].level == level {
        assert fs[i].level == level;
      }
    }
  }

  /** Every scenario is either passed or failed, and the cache is called disposable if and only if every
      probe of every scenario passed and no finding is a failure. */
  lemma DisposableExactly(r: RunResult, scenarios: seq<ScenarioInput>, findings: seq<ReportFinding>)
    requires Built(r, scenarios, findings)
    ensures r.summary.passed + (r.summary.failed - WithLevel(findings, FAIL)) == |scenarios|
    ensures r.disposable <==>
            && (forall i, j | 0 <= i < |scenarios| && 0 <= j < |scenarios[i].probes| :: scenarios[i].probes[j].passed)
            && (forall i | 0 <= i < |findings| :: findings[i].level != FAIL)
  {
    PassedCount(r.scenarios);
    LevelCount(findings, FAIL);
    forall i | 0 <= i < |scenarios|
      ensures r.scenarios[i].passed <==> forall j | 0 <= j < |scenarios[i].probes| :: scenarios[i].probes[j].passed
    {
      assert ReportsScenario(r.scenarios[i], scenarios[i]);
    }
  }

  lemma {:induction false} FailedCasesAppend(a: seq<TestCase>, b: seq<TestCase>)
    ensures FailedCases(a + b) == FailedCases(a) + FailedCases(b)
  {
    if b == [] {
      assert a + b == a;
    } else {
      assert (a + b)[..|a + b| - 1] == a + b[..|b| - 1];
      FailedCasesAppend(a, b[..|b| - 1]);
    }
  }

  lemma {:induction false} FailedCasesExist(cs: seq<TestCase>)
    ensures FailedCases(cs) > 0 <==> exists i :: 0 <= i < |cs| && cs[i].failure.Some?
  {
    if cs == [] {
    } else {
      var init := cs[..|cs| - 1];
      FailedCasesExist(init);
      if i :| 0 <= i < |init| && init[i].failure.Some? {
        assert cs[i].failure.Some?;
      }
    }
  }

  lemma {:induction false} ScenarioCasesFail(os: seq<ScenarioOutcome>, scenarios: seq<ScenarioInput>)
    requires |os| == |scenarios| && forall i | 0 <= i < |os| :: ReportsScenario(os[i], scenarios[i])
    ensures FailedCases(CasesOf(os)) > 0 <==> PassedScenarios(os) < |os|
  {
    hide FailedCases;
    PassedCount(os);
    if os == [] {
      NoCases();
    } else {
      var n := |os| - 1;
      var last := CasesOfScenario(os[n]);
      ScenarioCasesFail(os[..n], scenarios[..n]);
      FailedCasesAppend(CasesOf(os[..n]), last);
      FailedCasesExist(last);
      assert ReportsScenario(os[n], scenarios[n]);
      if j :| 0 <= j < |last| && last[j].failure.Some? {
        assert ReportsProbe(os[n].probes[j], scenarios[n].probes[j]);
      }
      if !os[n].passed {
        var j :| 0 <= j < |scenarios[n].probes| && !scenarios[n].probes[j].passed;
        assert ReportsProbe(os[n].probes[j], scenarios[n].probes[j]);
        assert last[j].failure.Some?;
      }
      PassedCount(os[..n]);
    }
  }

  lemma {:induction false} FindingCasesFail(fs: seq<ReportFinding>, failOn: Text)
    ensures FailedCases(FindingCases(fs, failOn)) ==
            WithLevel(fs, FAIL) + if failOn == Ascii("warn") then WithLevel(fs, WARN) else 0
  {
    hide FailedCases;
    if fs == [] {
      NoCases();
    } else {
      var f, before := fs[|fs| - 1], FindingCases(fs[..|fs| - 1], failOn);
      FindingCasesFail(fs[..|fs| - 1], failOn);
      OneCase(before, TestCase(Ascii("finding"), f.name, Some(f.message)));
      assert before + [] == before;
    }
  }

  /** The exit code and the JUnit suite always give the same verdict. */
  lemma VerdictsAgree(r: RunResult, scenarios: seq<ScenarioInput>, findings: seq<ReportFinding>, failOn: Text)
    requires Built(r, scenarios, findings)
    ensures ExitCode(r, failOn) != 0 <==> FailedCases(CasesOf(r.scenarios) + FindingCases(r.findings, failOn)) > 0
  {
    hide FailedCases, ReportsScenario;
    PassedCount(r.scenarios);
    ScenarioCasesFail(r.scenarios, scenarios);
    FindingCasesFail(findings, failOn);
    FailedCasesAppend(CasesOf(r.scenarios), FindingCases(findings, failOn));
  }
}
