/** A whole run: `internal/orchestrator`. */
module Orchestration {
  import opened Bytes
  import opened Config
  import opened Faults
  import opened Audit
  import opened Reporting

  /** What a probe reports about itself. */
  datatype ProbeReport = ProbeReport(passed: bool, latency: int, failures: seq<Text>)

  datatype ProbeResult = ProbeResult(name: Text, report: ProbeReport)

  datatype Deed =
    | Reset | Warmup(probe: Text) | Wait | Ping | Count
    | Baseline(probe: Text)
    | DeleteKeys | CloseAll
    | Measured(scenario: Scenario, probe: Text, against: Option<ProbeResult>)
    | AuditRun

  datatype Outcome =
    | Fine | Failed | Probed(result: ProbeResult) | Counted(rows: nat) | Found(findings: seq<ReportFinding>)

  /** Something that was done, the engine the proxy ran with at that moment, and what came of it. */
  datatype Event = Event(engine: Engine, deed: Deed, outcome: Outcome)

  datatype RunError =
    | ResetFailed | WarmupFailed | UpstreamDown | ProbeFailed(probe: Text) | ColdCacheFailed
    | UnsupportedType | AuditFailed

  /** The proxy's engine and scenario, and everything outside: probes, Redis, reset command and clock, whose
      answers are arbitrary. */
  class World {
    const reports: nat -> Option<ProbeReport>
    const fine: nat -> bool
    const rows: nat -> nat
    const audits: nat -> Option<seq<ReportFinding>>
    var engine: Engine
    var scenario: Text
    var time: nat
    ghost var log: seq<Event>

    /** A proxy that was just started. */
    constructor (reports: nat -> Option<ProbeReport>, fine: nat -> bool, rows: nat -> nat,
                 audits: nat -> Option<seq<ReportFinding>>)
      ensures engine == PassThrough && log == []
    {
      this.reports, this.fine, this.rows, this.audits := reports, fine, rows, audits;
      engine, scenario, time, log := PassThrough, Ascii("baseline"), 0, [];
    }

    method SetEngine(e: Engine)
      modifies `engine
      ensures engine == e
    {
      engine := e;
    }

    method SetScenario(name: Text)
      modifies `scenario
      ensures scenario == name
    {
      scenario := name;
    }

    method CloseAllConns()
      modifies `log
      ensures log == old(log) + [Event(engine, CloseAll, Fine)]
    {
      log := log + [Event(engine, CloseAll, Fine)];
    }

    method Act(ghost deed: Deed) returns (ok: bool)
      modifies `time, `log
      ensures log == old(log) + [Event(engine, deed, if ok then Fine else Failed)]
    {
      ok := fine(time);
      time := time + 1;
      log := log + [Event(engine, deed, if ok then Fine else Failed)];
    }

    /** Runs a probe; what it returns carries the probe's name. */
    method RunProbe(probe: Text, ghost deed: Deed) returns (r: Option<ProbeResult>)
      modifies `time, `log
      ensures log == old(log) + [Event(engine, deed, if r.Some? then Probed(r.value) else Failed)]
      ensures r.Some? ==> r.value.name == probe
    {
      var report := reports(time);
      time := time + 1;
      r := if report.None? then None else Some(ProbeResult(probe, report.value));
      log := log + [Event(engine, deed, if r.Some? then Probed(r.value) else Failed)];
    }

    /** The rows that the recorder has observed so far. */
    method CountRows() returns (n: nat)
      modifies `time, `log
      ensures log == old(log) + [Event(engine, Count, Counted(n))]
    {
      n := rows(time);
      time := time + 1;
      log := log + [Event(engine, Count, Counted(n))];
    }

    method RunAudit() returns (findings: Option<seq<ReportFinding>>)
      modifies `time, `log
      ensures log == old(log) + [Event(engine, AuditRun, if findings.Some? then Found(findings.value) else Failed)]
    {
      findings := audits(time);
      time := time + 1;
      log := log + [Event(engine, AuditRun, if findings.Some? then Found(findings.value) else Failed)];
    }
  }

  // ---------------------------------------------------------------- the discipline

  function EngineOf(cfg: Config, s: Scenario): Engine {
    match s.kind
    case RandomMissType => RandomMiss((cfg.seed % TWO_TO_64) as uint64, s.probability)
    case UnavailableType => Unavailable
    case ColdCacheType => PassThrough
    case UnknownType => PassThrough
  }

  /** The fault that a scenario is about, in the proxy. */
  ghost predicate HasEngine(engine: Engine, cfg: Config, s: Scenario) {
    match s.kind
    case RandomMissType =>
      engine.RandomMiss? && engine.probability == s.probability && engine.seed as nat == cfg.seed % TWO_TO_64
    case UnavailableType => engine == Unavailable
    case ColdCacheType => engine == PassThrough
    case UnknownType => false
  }

  lemma EngineExactly(cfg: Config, s: Scenario)
    ensures !s.kind.UnknownType? ==> forall engine :: HasEngine(engine, cfg, s) <==> engine == EngineOf(cfg, s)
  {}

  /** Everything but a scenario's own measured probes (and the closing of connections that goes with an
      outage) happens without fault injection; those probes run with exactly the scenario's engine. */
  ghost predicate Disciplined(e: Event, cfg: Config) {
    match e.deed
    case Measured(s, probe, _) => HasEngine(e.engine, cfg, s)
    case CloseAll => e.engine == Unavailable
    case _ => e.engine == PassThrough
  }

  ghost predicate AllDisciplined(trace: seq<Event>, cfg: Config) {
    forall i | 0 <= i < |trace| :: Disciplined(trace[i], cfg)
  }

  /** The error is the failure of what was done last. */
  ghost predicate Explained(error: RunError, trace: seq<Event>) {
    && trace != []
    && trace[|trace| - 1].outcome.Failed?
    && Blames(error, trace[|trace| - 1].deed)
  }

  predicate Blames(error: RunError, deed: Deed) {
    match error
    case ResetFailed => deed.Reset?
    case WarmupFailed => deed.Warmup? || deed.Wait?
    case UpstreamDown => deed.Ping?
    case ProbeFailed(probe) => (deed.Baseline? || deed.Measured?) && deed.probe == probe
    case ColdCacheFailed => deed.DeleteKeys?
    case UnsupportedType => false
    case AuditFailed => deed.AuditRun?
  }

  /** The account of the log when `more` has been done after `trace`. */
  lemma More(log: seq<Event>, trace: seq<Event>, more: seq<Event>, cfg: Config)
    requires AllDisciplined(trace, cfg) && AllDisciplined(more, cfg)
    ensures (log + trace) + more == log + (trace + more)
    ensures AllDisciplined(trace + more, cfg)
    ensures forall error | Explained(error, more) :: Explained(error, trace + more)
  {
    hide Disciplined, Blames;
  }

  lemma One(e: Event, cfg: Config)
    requires Disciplined(e, cfg)
    ensures AllDisciplined([e], cfg) && AllDisciplined([], cfg)
    ensures forall error :: Explained(error, [e]) <==> e.outcome.Failed? && Blames(error, e.deed)
  {
    hide Disciplined, Blames;
  }

  // ---------------------------------------------------------------- warm-up

  /** A complete round of warm-up. */
  function RoundLog(probes: seq<Text>): (s: seq<Event>)
    ensures |s| == |probes|
  {
    seq(|probes|, i requires 0 <= i < |probes| => Event(PassThrough, Warmup(probes[i]), Fine))
  }

  /** A round that stopped at its first failure. */
  ghost predicate FailedRound(trace: seq<Event>, probes: seq<Text>) {
    exists k :: 0 <= k < |probes| && trace == RoundLog(probes[..k]) + [Event(PassThrough, Warmup(probes[k]), Failed)]
  }

  /** `n` failed rounds, each with a wait after it. */
  ghost predicate FailedRounds(trace: seq<Event>, probes: seq<Text>, n: nat)
    decreases n
  {
    if n == 0 then trace == []
    else
      exists before, round ::
        && FailedRounds(before, probes, n - 1) && FailedRound(round, probes)
        && trace == before + round + [Event(PassThrough, Wait, Fine)]
  }

  /** A warm-up that succeeded: at most as many failed rounds as may be retried, and a complete one. */
  ghost predicate WarmLog(trace: seq<Event>, cfg: Config, noWarmup: bool) {
    if noWarmup || cfg.warmupRetries < 0 then trace == []
    else
      exists n: nat, before ::
        n <= cfg.warmupRetries && FailedRounds(before, cfg.probes, n) && trace == before + RoundLog(cfg.probes)
  }

  /** A warm-up that failed: every round did, or the wait for another one was cut short. */
  ghost predicate WarmFailure(trace: seq<Event>, cfg: Config) {
    exists n: nat, before, round ::
      && FailedRounds(before, cfg.probes, n) && FailedRound(round, cfg.probes)
      && if n == cfg.warmupRetries then trace == before + round
         else n < cfg.warmupRetries && trace == before + round + [Event(PassThrough, Wait, Failed)]
  }

  /** Nothing but warm-up probes and waiting, and no failed wait. */
  ghost predicate Warming(trace: seq<Event>) {
    forall i | 0 <= i < |trace| ::
      trace[i].engine == PassThrough && (trace[i].deed.Warmup? || (trace[i].deed.Wait? && trace[i].outcome.Fine?))
  }

  lemma {:induction false} RoundsAreWarming(trace: seq<Event>, probes: seq<Text>, n: nat)
    requires FailedRounds(trace, probes, n)
    ensures Warming(trace)
    decreases n
  {
    if n == 0 {
    } else {
      var before, round :| FailedRounds(before, probes, n - 1) && FailedRound(round, probes)
                           && trace == before + round + [Event(PassThrough, Wait, Fine)];
      RoundsAreWarming(before, probes, n - 1);
    }
  }

  lemma WarmLogIsWarming(trace: seq<Event>, cfg: Config, noWarmup: bool)
    requires WarmLog(trace, cfg, noWarmup)
    ensures Warming(trace) && AllDisciplined(trace, cfg)
  {
    hide FailedRounds;
    if !noWarmup && cfg.warmupRetries >= 0 {
      var n: nat, before :| n <= cfg.warmupRetries && FailedRounds(before, cfg.probes, n)
                       && trace == before + RoundLog(cfg.probes);
      RoundsAreWarming(before, cfg.probes, n);
    }
  }

  lemma FailureIsExplained(trace: seq<Event>, cfg: Config)
    requires WarmFailure(trace, cfg)
    ensures AllDisciplined(trace, cfg) && Explained(WarmupFailed, trace)
  {
    hide FailedRounds;
    var n: nat, before, round :| FailedRounds(before, cfg.probes, n) && FailedRound(round, cfg.probes)
      && if n == cfg.warmupRetries then trace == before + round
         else n < cfg.warmupRetries && trace == before + round + [Event(PassThrough, Wait, Failed)];
    RoundsAreWarming(before, cfg.probes, n);
  }

  /** One round: all probes, up to the first that fails. */
  method RunRound(world: World, cfg: Config) returns (ok: bool, ghost trace: seq<Event>)
    requires world.engine == PassThrough
    modifies world`time, world`log
    ensures world.log == old(world.log) + trace
    ensures if ok then trace == RoundLog(cfg.probes) else FailedRound(trace, cfg.probes)
  {
    trace := [];
    for i := 0 to |cfg.probes|
      invariant trace == RoundLog(cfg.probes[..i])
      invariant world.log == old(world.log) + trace
    {
      ok := world.Act(Warmup(cfg.probes[i]));
      trace := trace + [Event(PassThrough, Warmup(cfg.probes[i]), if ok then Fine else Failed)];
      if !ok {
        return false, trace;
      }
    }
    assert cfg.probes[..|cfg.probes|] == cfg.probes;
    return true, trace;
  }

  /** `runWarmup`: up to `retries + 1` rounds with a wait between them.  It fails when all of them have
      failed, or when a wait is cut short. */
  method RunWarmup(world: World, cfg: Config) returns (ok: bool, ghost trace: seq<Event>)
    requires world.engine == PassThrough
    modifies world`time, world`log
    ensures world.log == old(world.log) + trace && AllDisciplined(trace, cfg)
    ensures ok ==> WarmLog(trace, cfg, false)
    ensures !ok ==> WarmFailure(trace, cfg) && cfg.warmupRetries >= 0 && Explained(WarmupFailed, trace)
  {
    hide Disciplined, RoundLog, FailedRound, AllDisciplined, Explained;
    var attempts := cfg.warmupRetries + 1;
    trace := [];
    NoEvents(cfg);
    for attempt := 0 to if attempts > 0 then attempts else 0
      invariant world.log == old(world.log) + trace
      invariant FailedRounds(trace, cfg.probes, attempt)
      invariant attempt > 0 ==> attempt < attempts
    {
      ghost var round;
      ok, round := RunRound(world, cfg);
      Longer(old(world.log), trace, round);
      if ok {
        WarmLogIsWarming(trace + round, cfg, false);
        return true, trace + round;
      }
      if attempt == attempts - 1 {
        FailureIsExplained(trace + round, cfg);
        return false, trace + round;
      }
      ok := world.Act(Wait);
      ghost var wait := Event(PassThrough, Wait, if ok then Fine else Failed);
      Longer(old(world.log), trace + round, [wait]);
      if !ok {
        FailureIsExplained(trace + round + [wait], cfg);
        return false, trace + round + [wait];
      }
      trace := trace + round + [wait];
    }
    return true, trace;
  }

  lemma NoEvents(cfg: Config)
    ensures AllDisciplined([], cfg)
  {}

  lemma Longer<T>(log: seq<T>, trace: seq<T>, more: seq<T>)
    ensures (log + trace) + more == log + (trace + more)
  {}

  // ---------------------------------------------------------------- measured probes

  /** The results of the baseline, by probe name. */
  type Results = map<Text, ProbeResult>

  ghost predicate Answers(results: seq<ProbeResult>, probes: seq<Text>) {
    |results| == |probes| && forall i | 0 <= i < |probes| :: results[i].name == probes[i]
  }

  /** The last result under each name. */
  function ByName(results: seq<ProbeResult>): Results {
    if results == [] then map[]
    else
      var last := results[|results| - 1];
      ByName(results[..|results| - 1])[last.name := last]
  }

  function ReportOf(r: ProbeResult): ProbeInput {
    ProbeInput(r.name, r.report.passed, r.report.latency, r.report.failures)
  }

  function ReportsOf(results: seq<ProbeResult>): seq<ProbeInput> {
    seq(|results|, i requires 0 <= i < |results| => ReportOf(results[i]))
  }

  /** Running a probe, of the baseline or of a scenario against its baseline result. */
  ghost function ProbeDeed(probe: Text, scenario: Option<Scenario>, baseline: Option<Results>): Deed {
    if scenario.None? then Baseline(probe)
    else
      Measured(scenario.value, probe,
               if baseline.Some? && probe in baseline.value then Some(baseline.value[probe]) else None)
  }

  ghost function ProbeLog(results: seq<ProbeResult>, engine: Engine, scenario: Option<Scenario>,
                          baseline: Option<Results>): (s: seq<Event>)
    ensures |s| == |results|
  {
    seq(|results|, i requires 0 <= i < |results| =>
          Event(engine, ProbeDeed(results[i].name, scenario, baseline), Probed(results[i])))
  }

  /** `runMeasuredProbes`: every probe once, in order, up to the first that cannot be run; what is returned
      is what the probes answered. */
  method RunMeasuredProbes(world: World, cfg: Config, scenario: Option<Scenario>, baseline: Option<Results>)
    returns (outcomes: seq<ProbeInput>, byName: Results, error: Option<RunError>,
             ghost results: seq<ProbeResult>, ghost trace: seq<Event>)
    requires world.engine == if scenario.Some? then EngineOf(cfg, scenario.value) else PassThrough
    requires scenario.Some? ==> !scenario.value.kind.UnknownType?
    modifies world`time, world`log
    ensures world.log == old(world.log) + trace && AllDisciplined(trace, cfg)
    ensures error.None? ==>
              && Answers(results, cfg.probes) && trace == ProbeLog(results, world.engine, scenario, baseline)
              && outcomes == ReportsOf(results) && byName == ByName(results)
    ensures error.Some? ==> Explained(error.value, trace)
  {
    hide Disciplined, EngineOf, ReportOf;
    outcomes, byName, error, results, trace := [], map[], None, [], [];
    for i := 0 to |cfg.probes|
      invariant world.log == old(world.log) + trace && AllDisciplined(trace, cfg)
      invariant Answers(results, cfg.probes[..i]) && trace == ProbeLog(results, world.engine, scenario, baseline)
      invariant outcomes == ReportsOf(results) && byName == ByName(results)
    {
      var probe := cfg.probes[i];
      ghost var deed := ProbeDeed(probe, scenario, baseline);
      var result := world.RunProbe(probe, deed);
      ghost var e := Event(world.engine, deed, if result.Some? then Probed(result.value) else Failed);
      ProbeIsDisciplined(e, cfg, probe, scenario, baseline);
      One(e, cfg);
      More(old(world.log), trace, [e], cfg);
      trace := trace + [e];
      if result.None? {
        return [], map[], Some(ProbeFailed(probe)), results, trace;
      }
      byName := byName[probe := result.value];
      outcomes := outcomes + [ReportOf(result.value)];
      assert (results + [result.value])[..i] == results;
      results := results + [result.value];
    }
    assert cfg.probes[..|cfg.probes|] == cfg.probes;
  }

  lemma ProbeIsDisciplined(e: Event, cfg: Config, probe: Text, scenario: Option<Scenario>, baseline: Option<Results>)
    requires e.deed == ProbeDeed(probe, scenario, baseline)
    requires e.engine == if scenario.Some? then EngineOf(cfg, scenario.value) else PassThrough
    requires scenario.Some? ==> !scenario.value.kind.UnknownType?
    ensures Disciplined(e, cfg) && Blames(ProbeFailed(probe), e.deed)
  {
    hide EngineOf, HasEngine;
    if scenario.Some? {
      EngineExactly(cfg, scenario.value);
    }
  }

  // ---------------------------------------------------------------- scenario.go

  function ResetLog(cfg: Config, ok: bool): seq<Event> {
    if cfg.hasReset then [Event(PassThrough, Reset, if ok then Fine else Failed)] else []
  }

  method RunReset(world: World, cfg: Config) returns (ok: bool)
    requires world.engine == PassThrough
    modifies world`time, world`log
    ensures world.log == old(world.log) + ResetLog(cfg, ok) && (ok || cfg.hasReset)
  {
    ok := true;
    if cfg.hasReset {
      ok := world.Act(Reset);
    }
  }

  function PrepareLog(s: Scenario, ok: bool): seq<Event> {
    match s.kind
    case UnavailableType => [Event(Unavailable, CloseAll, Fine)]
    case ColdCacheType => [Event(PassThrough, DeleteKeys, if ok then Fine else Failed)]
    case _ => []
  }

  /** Sets up the fault of a scenario; if that fails no fault is active.  An outage begins by closing what was
      open, with the engine already refusing. */
  method PrepareScenario(world: World, cfg: Config, s: Scenario) returns (error: Option<RunError>)
    requires world.engine == PassThrough
    modifies world`engine, world`time, world`log
    ensures world.log == old(world.log) + PrepareLog(s, error.None?)
    ensures world.engine == if error.None? then EngineOf(cfg, s) else PassThrough
    ensures error.None? ==> HasEngine(world.engine, cfg, s)
    ensures s.kind.UnknownType? <==> error == Some(UnsupportedType)
    ensures error.Some? && !s.kind.UnknownType? ==> s.kind.ColdCacheType? && error == Some(ColdCacheFailed)
  {
    error := None;
    match s.kind
    case RandomMissType =>
      world.SetEngine(EngineOf(cfg, s));
    case UnavailableType =>
      world.SetEngine(Unavailable);
      world.CloseAllConns();
    case ColdCacheType =>
      var ok := world.Act(DeleteKeys);
      if !ok {
        return Some(ColdCacheFailed);
      }
      world.SetEngine(PassThrough);
    case UnknownType =>
      return Some(UnsupportedType);
  }

  /** The baseline or one scenario: how its warm-up went, and what its measured probes answered. */
  datatype Stage = Stage(warm: seq<Event>, results: seq<ProbeResult>)

  ghost predicate StageOf(st: Stage, cfg: Config, noWarmup: bool) {
    WarmLog(st.warm, cfg, noWarmup) && Answers(st.results, cfg.probes)
  }

  ghost function ScenarioLog(st: Stage, s: Scenario, cfg: Config, baseline: Results): seq<Event> {
    ResetLog(cfg, true) + st.warm + [Event(PassThrough, Ping, Fine)] + PrepareLog(s, true)
    + ProbeLog(st.results, EngineOf(cfg, s), Some(s), Some(baseline))
  }

  lemma ShortLogs(cfg: Config, s: Scenario, ok: bool)
    ensures AllDisciplined([], cfg) && AllDisciplined(ResetLog(cfg, ok), cfg) && AllDisciplined(PrepareLog(s, ok), cfg)
    ensures !ok && cfg.hasReset ==> Explained(ResetFailed, ResetLog(cfg, ok))
    ensures !ok && s.kind.ColdCacheType? ==> Explained(ColdCacheFailed, PrepareLog(s, ok))
  {}

  /** `runScenario`: reset, warm-up, ping, fault, and then the measured probes; whatever fails ends it. */
  method RunScenario(world: World, cfg: Config, s: Scenario, baseline: Results, noWarmup: bool)
    returns (input: ScenarioInput, error: Option<RunError>, ghost stage: Stage, ghost trace: seq<Event>)
    requires world.engine == PassThrough
    modifies world
    ensures world.log == old(world.log) + trace && AllDisciplined(trace, cfg)
    ensures error.None? ==>
              && StageOf(stage, cfg, noWarmup) && trace == ScenarioLog(stage, s, cfg, baseline)
              && input == ScenarioInput(s.name, ReportsOf(stage.results)) && world.scenario == s.name
              && !s.kind.UnknownType?
    ensures error.Some? ==>
              if error.value.UnsupportedType? then s.kind.UnknownType? else Explained(error.value, trace)
  {
    hide Disciplined, AllDisciplined, Explained, ResetLog, PrepareLog, EngineOf, WarmLog, Answers, ByName, ReportsOf,
         ProbeLog;
    ghost var log := world.log;
    input, error, stage, trace := ScenarioInput(s.name, []), None, Stage([], []), [];
    assert log + trace == log;
    world.SetScenario(s.name);
    var ok := RunReset(world, cfg);
    ShortLogs(cfg, s, ok);
    More(log, trace, ResetLog(cfg, ok), cfg);
    trace := trace + ResetLog(cfg, ok);
    assert [] + ResetLog(cfg, ok) == ResetLog(cfg, ok);
    if !ok {
      return input, Some(ResetFailed), stage, trace;
    }
    ghost var warm: seq<Event> := [];
    NotWarmed(cfg, trace);
    if !noWarmup {
      ok, warm := RunWarmup(world, cfg);
    }
    More(log, trace, warm, cfg);
    trace := trace + warm;
    if !ok {
      return input, Some(WarmupFailed), stage, trace;
    }
    ok := world.Act(Ping);
    trace := AfterPing(log, trace, ok, cfg);
    if !ok {
      return input, Some(UpstreamDown), stage, trace;
    }
    error := PrepareScenario(world, cfg, s);
    ShortLogs(cfg, s, error.None?);
    More(log, trace, PrepareLog(s, error.None?), cfg);
    trace := trace + PrepareLog(s, error.None?);
    if error.Some? {
      return input, error, stage, trace;
    }
    var outcomes, byName;
    ghost var results, probed;
    outcomes, byName, error, results, probed := RunMeasuredProbes(world, cfg, Some(s), Some(baseline));
    More(log, trace, probed, cfg);
    trace := trace + probed;
    if error.Some? {
      NotUnsupported(error.value, trace);
      return input, error, stage, trace;
    }
    return ScenarioInput(s.name, outcomes), None, Stage(warm, results), trace;
  }

  lemma NotWarmed(cfg: Config, trace: seq<Event>)
    ensures WarmLog([], cfg, true) && trace + [] == trace
  {}

  /** The account of the log after a ping. */
  lemma AfterPing(log: seq<Event>, trace: seq<Event>, ok: bool, cfg: Config) returns (trace': seq<Event>)
    requires AllDisciplined(trace, cfg)
    ensures var ping := Event(PassThrough, Ping, if ok then Fine else Failed);
            trace' == trace + [ping] && (log + trace) + [ping] == log + trace' && AllDisciplined(trace', cfg)
    ensures !ok ==> Explained(UpstreamDown, trace')
  {
    var ping := Event(PassThrough, Ping, if ok then Fine else Failed);
    One(ping, cfg);
    More(log, trace, [ping], cfg);
    trace' := trace + [ping];
  }

  // ---------------------------------------------------------------- orchestrator.go

  /** What happened in a run that came to its end. */
  datatype Record = Record(baseline: Stage, before: nat, after: nat, scenarios: seq<Stage>, audit: seq<ReportFinding>)

  ghost function BaselineLog(st: Stage, before: nat, after: nat, cfg: Config): seq<Event> {
    [Event(PassThrough, Ping, Fine)] + ResetLog(cfg, true) + st.warm
    + [Event(PassThrough, Count, Counted(before))] + ProbeLog(st.results, PassThrough, None, None)
    + [Event(PassThrough, Count, Counted(after))]
  }

  predicate Wanted(s: Scenario, only: Text) {
    only == [] || s.name == only
  }

  function Selected(scenarios: seq<Scenario>, only: Text): seq<Scenario> {
    if scenarios == [] then []
    else
      var n := |scenarios| - 1;
      Selected(scenarios[..n], only) + if Wanted(scenarios[n], only) then [scenarios[n]] else []
  }

  ghost function StagesLog(stages: seq<Stage>, selected: seq<Scenario>, cfg: Config, baseline: Results): seq<Event>
    requires |stages| == |selected|
  {
    if stages == [] then []
    else
      var n := |stages| - 1;
      StagesLog(stages[..n], selected[..n], cfg, baseline) + ScenarioLog(stages[n], selected[n], cfg, baseline)
  }

  ghost predicate AllStages(stages: seq<Stage>, selected: seq<Scenario>, cfg: Config, noWarmup: bool) {
    && |stages| == |selected|
    && forall i | 0 <= i < |stages| :: StageOf(stages[i], cfg, noWarmup) && !selected[i].kind.UnknownType?
  }

  ghost function InputsOf(stages: seq<Stage>, selected: seq<Scenario>): seq<ScenarioInput>
    requires |stages| == |selected|
  {
    seq(|stages|, i requires 0 <= i < |stages| => ScenarioInput(selected[i].name, ReportsOf(stages[i].results)))
  }

  ghost predicate RecordOf(r: Record, cfg: Config, only: Text, noWarmup: bool) {
    StageOf(r.baseline, cfg, noWarmup) && AllStages(r.scenarios, Selected(cfg.scenarios, only), cfg, noWarmup)
  }

  /** Everything that was done, in order. */
  ghost function RunLog(r: Record, cfg: Config, only: Text): seq<Event>
    requires |r.scenarios| == |Selected(cfg.scenarios, only)|
  {
    BaselineLog(r.baseline, r.before, r.after, cfg)
    + StagesLog(r.scenarios, Selected(cfg.scenarios, only), cfg, ByName(r.baseline.results))
    + [Event(PassThrough, AuditRun, Found(r.audit))]
  }

  /** The inputs of the report: the baseline, then the selected scenarios in the order of the configuration. */
  ghost function ReportInputs(r: Record, cfg: Config, only: Text): seq<ScenarioInput>
    requires |r.scenarios| == |Selected(cfg.scenarios, only)|
  {
    [ScenarioInput(Ascii("baseline"), ReportsOf(r.baseline.results))]
    + InputsOf(r.scenarios, Selected(cfg.scenarios, only))
  }

  const NO_TRAFFIC: ReportFinding :=
    ReportFinding(Ascii("no-redis-traffic"), FAIL, Ascii("no Redis traffic observed through proxy"))

  /** The findings of the report: no traffic during the baseline, then those of the audit. */
  ghost function ReportFindings(r: Record): seq<ReportFinding> {
    (if r.after == r.before then [NO_TRAFFIC] else []) + r.audit
  }

  /** Everything before the first scenario. */
  method RunBaseline(world: World, cfg: Config, noWarmup: bool)
    returns (input: ScenarioInput, byName: Results, found: seq<ReportFinding>, error: Option<RunError>,
             ghost stage: Stage, ghost before: nat, ghost after: nat)
    requires world.engine == PassThrough && world.log == []
    modifies world`scenario, world`time, world`log
    ensures AllDisciplined(world.log, cfg)
    ensures error.None? ==>
              && StageOf(stage, cfg, noWarmup) && world.log == BaselineLog(stage, before, after, cfg)
              && input == ScenarioInput(Ascii("baseline"), ReportsOf(stage.results)) && byName == ByName(stage.results)
              && found == if after == before then [NO_TRAFFIC] else []
    ensures error.Some? ==> Explained(error.value, world.log)
  {
    hide Disciplined, AllDisciplined, Explained, ResetLog, WarmLog, Answers, ByName, ReportsOf, ProbeLog;
    input, byName, found, error := ScenarioInput(Ascii("baseline"), []), map[], [], None;
    stage, before, after := Stage([], []), 0, 0;
    NoEvents(cfg);
    var ok := world.Act(Ping);
    ghost var trace := AfterPing([], [], ok, cfg);
    assert world.log == trace == [Event(PassThrough, Ping, if ok then Fine else Failed)];
    if !ok {
      error := Some(UpstreamDown);
      return;
    }
    ok := RunReset(world, cfg);
    ResetIsDisciplined(cfg, ok);
    More([], trace, ResetLog(cfg, ok), cfg);
    trace := trace + ResetLog(cfg, ok);
    assert world.log == trace;
    if !ok {
      error := Some(ResetFailed);
      return;
    }
    ghost var warm: seq<Event> := [];
    NotWarmed(cfg, trace);
    if !noWarmup {
      ok, warm := RunWarmup(world, cfg);
    }
    More([], trace, warm, cfg);
    trace := trace + warm;
    assert world.log == trace;
    if !ok {
      error := Some(WarmupFailed);
      return;
    }
    world.SetScenario(Ascii("baseline"));
    var rows := world.CountRows();
    trace := AfterCount(trace, rows, cfg);
    var outcomes;
    ghost var results, probed;
    outcomes, byName, error, results, probed := RunMeasuredProbes(world, cfg, None, None);
    More([], trace, probed, cfg);
    trace := trace + probed;
    assert world.log == trace;
    if error.Some? {
      return;
    }
    var rows' := world.CountRows();
    trace := AfterCount(trace, rows', cfg);
    if rows' == rows {
      found := [NO_TRAFFIC];
    }
    input, stage, before, after := ScenarioInput(Ascii("baseline"), outcomes), Stage(warm, results), rows, rows';
  }

  lemma ResetIsDisciplined(cfg: Config, ok: bool)
    ensures AllDisciplined(ResetLog(cfg, ok), cfg)
    ensures !ok && cfg.hasReset ==> Explained(ResetFailed, ResetLog(cfg, ok))
  {}

  lemma AfterCount(trace: seq<Event>, rows: nat, cfg: Config) returns (trace': seq<Event>)
    requires AllDisciplined(trace, cfg)
    ensures trace' == trace + [Event(PassThrough, Count, Counted(rows))] && AllDisciplined(trace', cfg)
  {
    var e := Event(PassThrough, Count, Counted(rows));
    One(e, cfg);
    More([], trace, [e], cfg);
    trace' := trace + [e];
  }

  /** The loop over the scenarios: no fault before, no fault after, whatever happens in between. */
  method RunSelected(world: World, cfg: Config, only: Text, noWarmup: bool, base: ScenarioInput, byName: Results)
    returns (inputs: seq<ScenarioInput>, error: Option<RunError>, ghost stages: seq<Stage>, ghost trace: seq<Event>)
    requires world.engine == PassThrough
    modifies world
    ensures world.engine == PassThrough
    ensures world.log == old(world.log) + trace && AllDisciplined(trace, cfg)
    ensures error.None? ==>
              && AllStages(stages, Selected(cfg.scenarios, only), cfg, noWarmup)
              && trace == StagesLog(stages, Selected(cfg.scenarios, only), cfg, byName)
              && inputs == [base] + InputsOf(stages, Selected(cfg.scenarios, only))
    ensures error.Some? ==>
              if error.value.UnsupportedType? then exists s :: s in Selected(cfg.scenarios, only) && s.kind.UnknownType?
              else Explained(error.value, trace)
  {
    hide Disciplined, AllDisciplined, Explained, StageOf, ScenarioLog, ReportsOf, Selected, StagesLog, InputsOf;
    inputs, error, stages, trace := [base], None, [], [];
    NoStages(cfg, byName, only);
    ghost var log := world.log;
    assert log + [] == log && [base] + [] == [base];
    for i := 0 to |cfg.scenarios|
      invariant error.None? && world.engine == PassThrough
      invariant world.log == log + trace && AllDisciplined(trace, cfg)
      invariant AllStages(stages, Selected(cfg.scenarios[..i], only), cfg, noWarmup)
      invariant trace == StagesLog(stages, Selected(cfg.scenarios[..i], only), cfg, byName)
      invariant inputs == [base] + InputsOf(stages, Selected(cfg.scenarios[..i], only))
    {
      var s := cfg.scenarios[i];
      OneSelected(cfg.scenarios, i, only);
      if only != [] && s.name != only {
        continue;
      }
      world.SetEngine(PassThrough);
      var input;
      ghost var stage, more;
      input, error, stage, more := RunScenario(world, cfg, s, byName, noWarmup);
      world.SetEngine(PassThrough);
      More(log, trace, more, cfg);
      if error.Some? {
        return inputs, error, stages, trace + more;
      }
      OneStage(stages, stage, Selected(cfg.scenarios[..i], only), s, cfg, byName, inputs, base);
      trace := trace + more;
      stages := stages + [stage];
      inputs := inputs + [input];
    }
    assert cfg.scenarios[..|cfg.scenarios|] == cfg.scenarios;
  }

  lemma NoStages(cfg: Config, byName: Results, only: Text)
    ensures Selected(cfg.scenarios[..0], only) == [] && StagesLog([], [], cfg, byName) == [] && InputsOf([], []) == []
    ensures AllDisciplined([], cfg)
  {}

  lemma OneSelected(scenarios: seq<Scenario>, i: nat, only: Text)
    requires i < |scenarios|
    ensures var s, before := scenarios[i], Selected(scenarios[..i], only);
            Selected(scenarios[..i + 1], only) == if Wanted(s, only) then before + [s] else before
    ensures Wanted(scenarios[i], only) ==> scenarios[i] in Selected(scenarios, only)
  {
    assert scenarios[..i + 1][..i] == scenarios[..i];
    var at := SelectedExactly(scenarios, only);
    if Wanted(scenarios[i], only) {
      assert i in at;
      var k :| 0 <= k < |at| && at[k] == i;
      assert Selected(scenarios, only)[k] == scenarios[i];
    }
  }

  lemma OneStage(stages: seq<Stage>, stage: Stage, selected: seq<Scenario>, s: Scenario, cfg: Config, byName: Results,
                 inputs: seq<ScenarioInput>, base: ScenarioInput)
    requires |stages| == |selected| && inputs == [base] + InputsOf(stages, selected)
    ensures StagesLog(stages + [stage], selected + [s], cfg, byName) ==
            StagesLog(stages, selected, cfg, byName) + ScenarioLog(stage, s, cfg, byName)
    ensures inputs + [ScenarioInput(s.name, ReportsOf(stage.results))] ==
            [base] + InputsOf(stages + [stage], selected + [s])
  {
    hide ScenarioLog, ReportsOf;
    assert (stages + [stage])[..|stages|] == stages && (selected + [s])[..|selected|] == selected;
  }

  // ---------------------------------------------------------------- the report against the log

  /** What the probes of the baseline and of the scenarios answered, in order. */
  ghost function AnswersIn(log: seq<Event>): seq<ProbeResult> {
    if log == [] then []
    else AnswersIn(log[..|log| - 1]) + AnswerIn(log[|log| - 1])
  }

  ghost function AnswerIn(e: Event): seq<ProbeResult> {
    if e.outcome.Probed? && (e.deed.Baseline? || e.deed.Measured?) then [e.outcome.result] else []
  }

  /** The verdict that the log asks for: all probes passed, some traffic was counted during the baseline, and the
      audit found no failure. */
  ghost predicate Disposable(log: seq<Event>) {
    && (forall i | 0 <= i < |AnswersIn(log)| :: AnswersIn(log)[i].report.passed)
    && (exists e, e' :: e in log && e' in log && e.outcome.Counted? && e'.outcome.Counted?
                        && e.outcome.rows != e'.outcome.rows)
    && (forall e, f | e in log && e.outcome.Found? && f in e.outcome.findings :: f.level != FAIL)
  }

  /** All probes of a report, in order. */
  ghost function OutcomesIn(scenarios: seq<ScenarioOutcome>): seq<ProbeOutcome> {
    if scenarios == [] then []
    else OutcomesIn(scenarios[..|scenarios| - 1]) + scenarios[|scenarios| - 1].probes
  }

  /** Each reported probe has the name, verdict, latency and failures of the answer at its place. */
  ghost predicate Mirror(outcomes: seq<ProbeOutcome>, answers: seq<ProbeResult>) {
    && |outcomes| == |answers|
    && forall i | 0 <= i < |outcomes| ::
         && outcomes[i].name == answers[i].name
         && outcomes[i].passed == answers[i].report.passed
         && outcomes[i].latencyMS == Milliseconds(answers[i].report.latency)
         && outcomes[i].failures == answers[i].report.failures
  }

  lemma {:induction false} AnswersAppend(a: seq<Event>, b: seq<Event>)
    ensures AnswersIn(a + b) == AnswersIn(a) + AnswersIn(b)
  {
    hide AnswerIn;
    if b == [] {
      assert a + b == a;
    } else {
      var n := |b| - 1;
      assert (a + b)[..|a + b| - 1] == a + b[..n];
      AnswersAppend(a, b[..n]);
      Longer(AnswersIn(a), AnswersIn(b[..n]), AnswerIn(b[n]));
    }
  }

  lemma {:induction false} NoAnswers(log: seq<Event>)
    requires forall i | 0 <= i < |log| :: AnswerIn(log[i]) == []
    ensures AnswersIn(log) == []
  {
    hide AnswerIn;
    if log == [] {
    } else {
      NoAnswers(log[..|log| - 1]);
    }
  }

  lemma {:induction false} AnswersOfProbes(results: seq<ProbeResult>, engine: Engine, scenario: Option<Scenario>,
                                           baseline: Option<Results>)
    ensures AnswersIn(ProbeLog(results, engine, scenario, baseline)) == results
  {
    hide ProbeLog, AnswerIn;
    if results == [] {
    } else {
      var n := |results| - 1;
      LastProbe(results, engine, scenario, baseline);
      AnswersOfProbes(results[..n], engine, scenario, baseline);
    }
  }

  lemma LastProbe(results: seq<ProbeResult>, engine: Engine, scenario: Option<Scenario>, baseline: Option<Results>)
    requires results != []
    ensures var n := |results| - 1;
            var log := ProbeLog(results, engine, scenario, baseline);
            && log[..n] == ProbeLog(results[..n], engine, scenario, baseline)
            && AnswerIn(log[n]) == [results[n]] && results == results[..n] + [results[n]]
  {}

  /** Events that are no measured probes: nothing failed or was counted, and the audit has not spoken. */
  lemma QuietPieces(st: Stage, s: Scenario, cfg: Config, noWarmup: bool, rows: nat, findings: seq<ReportFinding>)
    requires StageOf(st, cfg, noWarmup)
    ensures AnswersIn(ResetLog(cfg, true)) == [] && AnswersIn(st.warm) == [] && AnswersIn(PrepareLog(s, true)) == []
    ensures AnswersIn([Event(PassThrough, Ping, Fine)]) == []
    ensures AnswersIn([Event(PassThrough, Count, Counted(rows))]) == []
    ensures AnswersIn([Event(PassThrough, AuditRun, Found(findings))]) == []
  {
    hide AnswersIn, WarmLog;
    WarmLogIsWarming(st.warm, cfg, noWarmup);
    NoAnswers(ResetLog(cfg, true));
    NoAnswers(st.warm);
    NoAnswers(PrepareLog(s, true));
    NoAnswers([Event(PassThrough, Ping, Fine)]);
    NoAnswers([Event(PassThrough, Count, Counted(rows))]);
    NoAnswers([Event(PassThrough, AuditRun, Found(findings))]);
  }

  lemma AnswersOfScenario(st: Stage, s: Scenario, cfg: Config, baseline: Results, noWarmup: bool)
    requires StageOf(st, cfg, noWarmup)
    ensures AnswersIn(ScenarioLog(st, s, cfg, baseline)) == st.results
  {
    hide AnswersIn, StageOf, ResetLog, PrepareLog, ProbeLog, EngineOf;
    QuietPieces(st, s, cfg, noWarmup, 0, []);
    AnswersOfProbes(st.results, EngineOf(cfg, s), Some(s), Some(baseline));
    var ping := [Event(PassThrough, Ping, Fine)];
    AnswersAppend(ResetLog(cfg, true), st.warm);
    AnswersAppend(ResetLog(cfg, true) + st.warm, ping);
    AnswersAppend(ResetLog(cfg, true) + st.warm + ping, PrepareLog(s, true));
    AnswersAppend(ResetLog(cfg, true) + st.warm + ping + PrepareLog(s, true),
                  ProbeLog(st.results, EngineOf(cfg, s), Some(s), Some(baseline)));
  }

  lemma AnswersOfBaseline(st: Stage, before: nat, after: nat, cfg: Config, noWarmup: bool)
    requires StageOf(st, cfg, noWarmup)
    ensures AnswersIn(BaselineLog(st, before, after, cfg)) == st.results
  {
    hide AnswersIn, StageOf, ResetLog, ProbeLog;
    var ping, probed := [Event(PassThrough, Ping, Fine)], ProbeLog(st.results, PassThrough, None, None);
    var count, count' := [Event(PassThrough, Count, Counted(before))], [Event(PassThrough, Count, Counted(after))];
    var s := Scenario([], UnknownType, 0.0);
    QuietPieces(st, s, cfg, noWarmup, before, []);
    QuietPieces(st, s, cfg, noWarmup, after, []);
    AnswersOfProbes(st.results, PassThrough, None, None);
    AnswersAppend(ping, ResetLog(cfg, true));
    AnswersAppend(ping + ResetLog(cfg, true), st.warm);
    AnswersAppend(ping + ResetLog(cfg, true) + st.warm, count);
    AnswersAppend(ping + ResetLog(cfg, true) + st.warm + count, probed);
    AnswersAppend(ping + ResetLog(cfg, true) + st.warm + count + probed, count');
  }

  /** The answers of the probes of all stages, in order. */
  ghost function AnswersOf(stages: seq<Stage>): seq<ProbeResult> {
    if stages == [] then [] else AnswersOf(stages[..|stages| - 1]) + stages[|stages| - 1].results
  }

  lemma {:induction false} AnswersOfStages(stages: seq<Stage>, selected: seq<Scenario>, cfg: Config, baseline: Results,
                                           noWarmup: bool)
    requires AllStages(stages, selected, cfg, noWarmup)
    ensures AnswersIn(StagesLog(stages, selected, cfg, baseline)) == AnswersOf(stages)
  {
    hide StageOf, ScenarioLog;
    if stages == [] {
    } else {
      var n := |stages| - 1;
      AnswersOfStages(stages[..n], selected[..n], cfg, baseline, noWarmup);
      AnswersOfScenario(stages[n], selected[n], cfg, baseline, noWarmup);
      AnswersAppend(StagesLog(stages[..n], selected[..n], cfg, baseline),
                    ScenarioLog(stages[n], selected[n], cfg, baseline));
    }
  }

  lemma AnswersOfRun(r: Record, cfg: Config, only: Text, noWarmup: bool)
    requires RecordOf(r, cfg, only, noWarmup)
    ensures AnswersIn(RunLog(r, cfg, only)) == r.baseline.results + AnswersOf(r.scenarios)
  {
    hide AnswersIn, StageOf, BaselineLog, StagesLog, AllStages, Selected, ByName, AnswersOf;
    var selected, audit := Selected(cfg.scenarios, only), [Event(PassThrough, AuditRun, Found(r.audit))];
    StagesCount(r.scenarios, selected, cfg, noWarmup);
    var baseline, rest := BaselineLog(r.baseline, r.before, r.after, cfg),
                          StagesLog(r.scenarios, selected, cfg, ByName(r.baseline.results));
    AnswersOfBaseline(r.baseline, r.before, r.after, cfg, noWarmup);
    AnswersOfStages(r.scenarios, selected, cfg, ByName(r.baseline.results), noWarmup);
    QuietPieces(r.baseline, Scenario([], UnknownType, 0.0), cfg, noWarmup, 0, r.audit);
    AnswersAppend(baseline, rest);
    AnswersAppend(baseline + rest, audit);
    assert AnswersIn(baseline) + AnswersIn(rest) + [] == AnswersIn(baseline) + AnswersIn(rest);
  }

  /** One scenario of the report has the probes its stage answered. */
  lemma OutcomesOfOne(o: ScenarioOutcome, name: Text, results: seq<ProbeResult>)
    requires ReportsScenario(o, ScenarioInput(name, ReportsOf(results)))
    ensures Mirror(o.probes, results) && (o.passed <==> forall i | 0 <= i < |results| :: results[i].report.passed)
  {
    hide Milliseconds;
    forall i | 0 <= i < |results|
      ensures ReportsProbe(o.probes[i], ReportOf(results[i]))
    {
      assert ReportsOf(results)[i] == ReportOf(results[i]);
    }
    assert forall i | 0 <= i < |results| :: ReportsOf(results)[i].passed == results[i].report.passed;
  }

  lemma {:induction false} OutcomesOfStages(os: seq<ScenarioOutcome>, names: seq<Text>, stages: seq<Stage>)
    requires |os| == |names| == |stages|
    requires forall i | 0 <= i < |os| ::
               ReportsScenario(os[i], ScenarioInput(names[i], ReportsOf(stages[i].results)))
    ensures Mirror(OutcomesIn(os), AnswersOf(stages))
    ensures (forall i | 0 <= i < |os| :: os[i].passed) <==>
            forall i | 0 <= i < |AnswersOf(stages)| :: AnswersOf(stages)[i].report.passed
  {
    hide ReportsOf, ReportsScenario, Mirror;
    if os == [] {
      assert Mirror([], []) by { NothingMirrored(); }
    } else {
      var n := |os| - 1;
      assert os == os[..n] + [os[n]];
      OutcomesOfStages(os[..n], names[..n], stages[..n]);
      OutcomesOfOne(os[n], names[n], stages[n].results);
      var before, last := AnswersOf(stages[..n]), stages[n].results;
      assert AnswersOf(stages) == before + last;
      MirrorAppend(OutcomesIn(os[..n]), before, os[n].probes, last);
      AllPassed(before, last);
    }
  }

  lemma NothingMirrored()
    ensures Mirror([], [])
  {}

  lemma MirrorAppend(a: seq<ProbeOutcome>, a': seq<ProbeResult>, b: seq<ProbeOutcome>, b': seq<ProbeResult>)
    requires Mirror(a, a') && Mirror(b, b')
    ensures Mirror(a + b, a' + b')
  {
    hide Milliseconds;
  }

  lemma AllPassed(a: seq<ProbeResult>, b: seq<ProbeResult>)
    ensures (forall i | 0 <= i < |a + b| :: (a + b)[i].report.passed) <==>
            (forall i | 0 <= i < |a| :: a[i].report.passed) && (forall i | 0 <= i < |b| :: b[i].report.passed)
  {
    if forall i | 0 <= i < |a + b| :: (a + b)[i].report.passed {
      assert forall i | 0 <= i < |a| :: a[i] == (a + b)[i];
      assert forall i | 0 <= i < |b| :: b[i] == (a + b)[|a| + i];
    }
  }

  /** Baseline and scenarios as one list of stages. */
  lemma {:induction false} AnswersOfFirst(st: Stage, stages: seq<Stage>)
    ensures AnswersOf([st] + stages) == st.results + AnswersOf(stages)
  {
    if stages == [] {
      assert [st] + stages == [st] && [st][..0] == [];
      assert [] + st.results == st.results == st.results + [];
    } else {
      var n := |stages| - 1;
      assert ([st] + stages)[..n + 1] == [st] + stages[..n] && ([st] + stages)[n + 1] == stages[n];
      AnswersOfFirst(st, stages[..n]);
      Longer(st.results, AnswersOf(stages[..n]), stages[n].results);
    }
  }

  /** The report against the log of its run. */
  lemma ReportIsFaithful(r: Record, report: RunResult, cfg: Config, only: Text, noWarmup: bool)
    requires RecordOf(r, cfg, only, noWarmup) && |r.scenarios| == |Selected(cfg.scenarios, only)|
    requires Built(report, ReportInputs(r, cfg, only), ReportFindings(r))
    ensures Mirror(OutcomesIn(report.scenarios), AnswersIn(RunLog(r, cfg, only)))
    ensures report.disposable <==> Disposable(RunLog(r, cfg, only))
  {
    hide StageOf, AnswersIn, AnswersOf, OutcomesIn, Mirror, RunLog, Selected, AllStages, ReportsScenario, ReportsOf,
         PassedScenarios, WithLevel;
    var selected := Selected(cfg.scenarios, only);
    var stages := [r.baseline] + r.scenarios;
    var names := [Ascii("baseline")] + seq(|selected|, i requires 0 <= i < |selected| => selected[i].name);
    AnswersOfRun(r, cfg, only, noWarmup);
    AnswersOfFirst(r.baseline, r.scenarios);
    forall i | 0 <= i < |stages|
      ensures ReportsScenario(report.scenarios[i], ScenarioInput(names[i], ReportsOf(stages[i].results)))
    {
      assert ReportInputs(r, cfg, only)[i] == ScenarioInput(names[i], ReportsOf(stages[i].results));
    }
    OutcomesOfStages(report.scenarios, names, stages);
    PassedCount(report.scenarios);
    LevelCount(ReportFindings(r), FAIL);
    CountsInRun(r, cfg, only, noWarmup);
    FailuresFound(r);
  }

  lemma FailuresFound(r: Record)
    ensures (exists i :: 0 <= i < |ReportFindings(r)| && ReportFindings(r)[i].level == FAIL) <==>
            r.after == r.before || exists f :: f in r.audit && f.level == FAIL
  {
    var fs := ReportFindings(r);
    if f :| f in r.audit && f.level == FAIL {
      var i :| 0 <= i < |r.audit| && r.audit[i] == f;
      assert fs[|fs| - |r.audit| + i] == f;
    }
    if r.after == r.before {
      assert fs[0] == NO_TRAFFIC;
    }
    if i :| 0 <= i < |fs| && fs[i].level == FAIL && r.after != r.before {
      assert r.audit[i] in r.audit;
    }
  }

  /** A stretch of a run in which nothing is counted and the audit does not speak. */
  ghost predicate Plain(log: seq<Event>) {
    forall i | 0 <= i < |log| :: !log[i].outcome.Counted? && !log[i].outcome.Found?
  }

  lemma PlainPieces(st: Stage, s: Scenario, cfg: Config, baseline: Option<Results>, engine: Engine,
                    scenario: Option<Scenario>, noWarmup: bool)
    requires StageOf(st, cfg, noWarmup)
    ensures Plain([]) && Plain(ResetLog(cfg, true)) && Plain(st.warm) && Plain(PrepareLog(s, true))
    ensures Plain([Event(PassThrough, Ping, Fine)]) && Plain(ProbeLog(st.results, engine, scenario, baseline))
  {
    WarmIsPlain(st.warm, cfg, noWarmup);
  }

  lemma {:induction false} RoundsArePlain(trace: seq<Event>, probes: seq<Text>, n: nat)
    requires FailedRounds(trace, probes, n)
    ensures Plain(trace)
    decreases n
  {
    if n == 0 {
    } else {
      var before, round :| FailedRounds(before, probes, n - 1) && FailedRound(round, probes)
                           && trace == before + round + [Event(PassThrough, Wait, Fine)];
      RoundsArePlain(before, probes, n - 1);
    }
  }

  lemma WarmIsPlain(trace: seq<Event>, cfg: Config, noWarmup: bool)
    requires WarmLog(trace, cfg, noWarmup)
    ensures Plain(trace)
  {
    hide FailedRounds;
    if !noWarmup && cfg.warmupRetries >= 0 {
      var n: nat, before :| n <= cfg.warmupRetries && FailedRounds(before, cfg.probes, n)
                            && trace == before + RoundLog(cfg.probes);
      RoundsArePlain(before, cfg.probes, n);
    }
  }

  lemma ScenarioIsPlain(st: Stage, s: Scenario, cfg: Config, baseline: Results, noWarmup: bool)
    requires StageOf(st, cfg, noWarmup)
    ensures Plain(ScenarioLog(st, s, cfg, baseline))
  {
    hide StageOf, ResetLog, PrepareLog, ProbeLog, EngineOf;
    PlainPieces(st, s, cfg, Some(baseline), EngineOf(cfg, s), Some(s), noWarmup);
  }

  lemma {:induction false} StagesArePlain(stages: seq<Stage>, selected: seq<Scenario>, cfg: Config, baseline: Results,
                                          noWarmup: bool)
    requires AllStages(stages, selected, cfg, noWarmup)
    ensures Plain(StagesLog(stages, selected, cfg, baseline))
  {
    hide StageOf, ScenarioLog;
    if stages == [] {
    } else {
      var n := |stages| - 1;
      StagesArePlain(stages[..n], selected[..n], cfg, baseline, noWarmup);
      ScenarioIsPlain(stages[n], selected[n], cfg, baseline, noWarmup);
    }
  }

  /** In the whole run the rows are counted twice, and the audit speaks once. */
  lemma CountsInRun(r: Record, cfg: Config, only: Text, noWarmup: bool)
    requires RecordOf(r, cfg, only, noWarmup) && |r.scenarios| == |Selected(cfg.scenarios, only)|
    ensures var log := RunLog(r, cfg, only);
            && Event(PassThrough, Count, Counted(r.before)) in log && Event(PassThrough, Count, Counted(r.after)) in log
            && Event(PassThrough, AuditRun, Found(r.audit)) in log
            && (forall e | e in log && e.outcome.Counted? :: e.outcome.rows == r.before || e.outcome.rows == r.after)
            && (forall e | e in log && e.outcome.Found? :: e.outcome.findings == r.audit)
  {
    hide StageOf, ResetLog, ProbeLog, StagesLog, AllStages, Selected, ByName;
    var st, s := r.baseline, Scenario([], UnknownType, 0.0);
    PlainPieces(st, s, cfg, None, PassThrough, None, noWarmup);
    StagesArePlain(r.scenarios, Selected(cfg.scenarios, only), cfg, ByName(st.results), noWarmup);
    PlainMeans(ResetLog(cfg, true));
    PlainMeans(st.warm);
    PlainMeans(ProbeLog(st.results, PassThrough, None, None));
    PlainMeans(StagesLog(r.scenarios, Selected(cfg.scenarios, only), cfg, ByName(st.results)));
  }

  lemma PlainMeans(log: seq<Event>)
    requires Plain(log)
    ensures forall e | e in log :: !e.outcome.Counted? && !e.outcome.Found?
  {}

  /** `Run`.  On every exit everything that was done was disciplined, the proxy is back without a fault, and an
      error is the failure of what was done last, or a scenario of unknown type.  A report is made exactly if
      there was no error; then everything that was done is known, event by event, and the report is built from
      what the probes and the audit answered, and nothing else. */
  method Run(world: World, cfg: Config, only: Text, noWarmup: bool)
    returns (result: Option<RunResult>, error: Option<RunError>, ghost r: Record)
    requires world.engine == PassThrough && world.log == []
    modifies world
    ensures AllDisciplined(world.log, cfg) && world.engine == PassThrough
    ensures result.Some? <==> error.None?
    ensures error.Some? ==>
              if error.value.UnsupportedType? then exists s :: s in Selected(cfg.scenarios, only) && s.kind.UnknownType?
              else Explained(error.value, world.log)
    ensures result.Some? ==>
              && RecordOf(r, cfg, only, noWarmup)
              && world.log == RunLog(r, cfg, only)
              && Built(result.value, ReportInputs(r, cfg, only), ReportFindings(r))
    // the verdict and the probes of the report, from the log alone
    ensures result.Some? ==> (result.value.disposable <==> Disposable(world.log))
    ensures result.Some? ==> Mirror(OutcomesIn(result.value.scenarios), AnswersIn(world.log))
  {
    hide Disciplined, AllDisciplined, Explained, StageOf, Built, AllStages, BaselineLog, StagesLog, Selected, ByName,
         ReportsOf, InputsOf, Disposable, Mirror, OutcomesIn, AnswersIn;
    result, r := None, Record(Stage([], []), 0, 0, [], []);
    var base, byName, found;
    ghost var stage, before, after;
    base, byName, found, error, stage, before, after := RunBaseline(world, cfg, noWarmup);
    if error.Some? {
      NotUnsupported(error.value, world.log);
      return;
    }
    ghost var log := world.log;
    var inputs;
    ghost var stages, trace;
    inputs, error, stages, trace := RunSelected(world, cfg, only, noWarmup, base, byName);
    More([], log, trace, cfg);
    if error.Some? {
      return;
    }
    var audit := world.RunAudit();
    ghost var e := Event(PassThrough, AuditRun, if audit.Some? then Found(audit.value) else Failed);
    AuditIsDisciplined(e, cfg);
    One(e, cfg);
    More([], log + trace, [e], cfg);
    if audit.None? {
      error := Some(AuditFailed);
      return;
    }
    found := found + audit.value;
    var report := BuildRunResult(inputs, found);
    StagesCount(stages, Selected(cfg.scenarios, only), cfg, noWarmup);
    r := Record(stage, before, after, stages, audit.value);
    ReportIsFaithful(r, report, cfg, only, noWarmup);
    return Some(report), None, r;
  }

  lemma NotUnsupported(error: RunError, trace: seq<Event>)
    requires Explained(error, trace)
    ensures !error.UnsupportedType?
  {}

  lemma AuditIsDisciplined(e: Event, cfg: Config)
    requires e.deed.AuditRun? && e.engine == PassThrough
    ensures Disciplined(e, cfg)
  {}

  lemma StagesCount(stages: seq<Stage>, selected: seq<Scenario>, cfg: Config, noWarmup: bool)
    requires AllStages(stages, selected, cfg, noWarmup)
    ensures |stages| == |selected|
  {}

  // ---------------------------------------------------------------- main results about completed runs

  /** Every probe of the list has a result under its name, the last one; with distinct names, its own. */
  lemma {:induction false} OwnBaseline(results: seq<ProbeResult>, probes: seq<Text>, i: nat)
    requires Answers(results, probes) && i < |probes|
    ensures probes[i] in ByName(results)
    ensures Distinct(probes) ==> ByName(results)[probes[i]] == results[i]
  {
    var n := |probes| - 1;
    if i < n {
      OwnBaseline(results[..n], probes[..n], i);
    }
  }

  /** A measured probe of the run was compared with the baseline result of its name. */
  ghost predicate Compared(e: Event, baseline: Results) {
    e.deed.Measured? ==> e.deed.probe in baseline && e.deed.against == Some(baseline[e.deed.probe])
  }

  /** Only warm-up probes may fail in a run that is reported. */
  ghost predicate Succeeded(e: Event) {
    e.outcome.Failed? ==> e.deed.Warmup?
  }

  ghost predicate AllGood(trace: seq<Event>, baseline: Results) {
    forall i | 0 <= i < |trace| :: Compared(trace[i], baseline) && Succeeded(trace[i])
  }

  lemma GoodAppend(a: seq<Event>, b: seq<Event>, baseline: Results)
    requires AllGood(a, baseline) && AllGood(b, baseline)
    ensures AllGood(a + b, baseline)
  {
    hide Compared, Succeeded;
  }

  lemma GoodPieces(cfg: Config, st: Stage, s: Scenario, baseline: Results, noWarmup: bool, rows: nat)
    requires StageOf(st, cfg, noWarmup)
    ensures AllGood([], baseline) && AllGood(ResetLog(cfg, true), baseline) && AllGood(st.warm, baseline)
    ensures AllGood([Event(PassThrough, Ping, Fine)], baseline) && AllGood(PrepareLog(s, true), baseline)
    ensures AllGood([Event(PassThrough, Count, Counted(rows))], baseline)
    ensures AllGood(ProbeLog(st.results, PassThrough, None, None), baseline)
    ensures (forall i | 0 <= i < |cfg.probes| :: cfg.probes[i] in baseline) ==>
              AllGood(ProbeLog(st.results, EngineOf(cfg, s), Some(s), Some(baseline)), baseline)
  {
    hide EngineOf, WarmLog;
    WarmLogIsWarming(st.warm, cfg, noWarmup);
    var probed := ProbeLog(st.results, EngineOf(cfg, s), Some(s), Some(baseline));
    if forall i | 0 <= i < |cfg.probes| :: cfg.probes[i] in baseline {
      forall i | 0 <= i < |probed|
        ensures Compared(probed[i], baseline) && Succeeded(probed[i])
      {
        assert st.results[i].name == cfg.probes[i];
      }
    }
  }

  lemma {:induction false} StagesGood(stages: seq<Stage>, selected: seq<Scenario>, cfg: Config, baseline: Results,
                                      noWarmup: bool)
    requires AllStages(stages, selected, cfg, noWarmup)
    requires forall i | 0 <= i < |cfg.probes| :: cfg.probes[i] in baseline
    ensures AllGood(StagesLog(stages, selected, cfg, baseline), baseline)
  {
    hide StageOf, AllGood, ResetLog, PrepareLog, ProbeLog, EngineOf;
    if stages == [] {
      assert AllGood([], baseline) by { NothingBad(baseline); }
    } else {
      var n := |stages| - 1;
      var st, s := stages[n], selected[n];
      StagesGood(stages[..n], selected[..n], cfg, baseline, noWarmup);
      GoodPieces(cfg, st, s, baseline, noWarmup, 0);
      var ping := [Event(PassThrough, Ping, Fine)];
      GoodAppend(ResetLog(cfg, true), st.warm, baseline);
      GoodAppend(ResetLog(cfg, true) + st.warm, ping, baseline);
      GoodAppend(ResetLog(cfg, true) + st.warm + ping, PrepareLog(s, true), baseline);
      GoodAppend(ResetLog(cfg, true) + st.warm + ping + PrepareLog(s, true),
                 ProbeLog(st.results, EngineOf(cfg, s), Some(s), Some(baseline)), baseline);
      GoodAppend(StagesLog(stages[..n], selected[..n], cfg, baseline), ScenarioLog(st, s, cfg, baseline), baseline);
    }
  }

  lemma NothingBad(baseline: Results)
    ensures AllGood([], baseline)
  {}

  /** In a completed run each measured probe was compared with the baseline result of its name, and nothing
      failed except warm-up probes that were retried. */
  lemma CompletedRun(r: Record, cfg: Config, only: Text, noWarmup: bool)
    requires RecordOf(r, cfg, only, noWarmup)
    ensures AllGood(RunLog(r, cfg, only), ByName(r.baseline.results))
  {
    hide AllGood, StageOf, ResetLog, ProbeLog, StagesLog, Selected, ByName, AllStages, Answers;
    var baseline, st := ByName(r.baseline.results), r.baseline;
    KnownProbes(st, cfg, noWarmup);
    StagesGood(r.scenarios, Selected(cfg.scenarios, only), cfg, baseline, noWarmup);
    var ping := [Event(PassThrough, Ping, Fine)];
    var count, count' := [Event(PassThrough, Count, Counted(r.before))], [Event(PassThrough, Count, Counted(r.after))];
    var probed, audit := ProbeLog(st.results, PassThrough, None, None), [Event(PassThrough, AuditRun, Found(r.audit))];
    var s := Scenario([], UnknownType, 0.0);
    GoodPieces(cfg, st, s, baseline, noWarmup, r.before);
    GoodPieces(cfg, st, s, baseline, noWarmup, r.after);
    GoodAppend(ping, ResetLog(cfg, true), baseline);
    GoodAppend(ping + ResetLog(cfg, true), st.warm, baseline);
    GoodAppend(ping + ResetLog(cfg, true) + st.warm, count, baseline);
    GoodAppend(ping + ResetLog(cfg, true) + st.warm + count, probed, baseline);
    GoodAppend(ping + ResetLog(cfg, true) + st.warm + count + probed, count', baseline);
    StagesCount(r.scenarios, Selected(cfg.scenarios, only), cfg, noWarmup);
    var stages := StagesLog(r.scenarios, Selected(cfg.scenarios, only), cfg, baseline);
    GoodAppend(BaselineLog(st, r.before, r.after, cfg), stages, baseline);
    assert AllGood(audit, baseline) by { AuditIsGood(r.audit, baseline); }
    GoodAppend(BaselineLog(st, r.before, r.after, cfg) + stages, audit, baseline);
  }

  lemma KnownProbes(st: Stage, cfg: Config, noWarmup: bool)
    requires StageOf(st, cfg, noWarmup)
    ensures forall i | 0 <= i < |cfg.probes| :: cfg.probes[i] in ByName(st.results)
  {
    hide ByName, WarmLog;
    forall i | 0 <= i < |cfg.probes|
      ensures cfg.probes[i] in ByName(st.results)
    {
      OwnBaseline(st.results, cfg.probes, i);
    }
  }

  lemma AuditIsGood(findings: seq<ReportFinding>, baseline: Results)
    ensures AllGood([Event(PassThrough, AuditRun, Found(findings))], baseline)
  {}

  /** `at` are the positions, in increasing order, of the scenarios in `selected`, all of them wanted ones. */
  ghost predicate StandAt(selected: seq<Scenario>, scenarios: seq<Scenario>, only: Text, at: seq<nat>) {
    && |at| == |selected|
    && (forall i, j | 0 <= i < j < |at| :: at[i] < at[j])
    && (forall i | 0 <= i < |at| ::
          at[i] < |scenarios| && selected[i] == scenarios[at[i]] && Wanted(scenarios[at[i]], only))
  }

  ghost predicate NoneMissed(scenarios: seq<Scenario>, only: Text, at: seq<nat>) {
    forall j: nat | j < |scenarios| && Wanted(scenarios[j], only) :: j in at
  }

  /** The selected scenarios are those of the configuration that were asked for, each as often as it is there and
      in its order; all of them if none was named. */
  lemma {:induction false} SelectedExactly(scenarios: seq<Scenario>, only: Text) returns (at: seq<nat>)
    ensures StandAt(Selected(scenarios, only), scenarios, only, at) && NoneMissed(scenarios, only, at)
    ensures only == [] ==> Selected(scenarios, only) == scenarios
  {
    hide StandAt, NoneMissed;
    if scenarios == [] {
      at := [];
      NothingSelected(only);
    } else {
      var n := |scenarios| - 1;
      var before := SelectedExactly(scenarios[..n], only);
      OneMorePosition(Selected(scenarios[..n], only), scenarios, only, before);
      at := if Wanted(scenarios[n], only) then before + [n] else before;
      assert scenarios == scenarios[..n] + [scenarios[n]];
      assert Selected(scenarios[..n], only) + [] == Selected(scenarios[..n], only);
    }
  }

  lemma NothingSelected(only: Text)
    ensures StandAt([], [], only, []) && NoneMissed([], only, [])
  {}

  lemma OneMorePosition(selected: seq<Scenario>, scenarios: seq<Scenario>, only: Text, at: seq<nat>)
    requires scenarios != []
    requires StandAt(selected, scenarios[..|scenarios| - 1], only, at)
    requires NoneMissed(scenarios[..|scenarios| - 1], only, at)
    ensures var n := |scenarios| - 1;
            if Wanted(scenarios[n], only) then
              StandAt(selected + [scenarios[n]], scenarios, only, at + [n]) && NoneMissed(scenarios, only, at + [n])
            else StandAt(selected, scenarios, only, at) && NoneMissed(scenarios, only, at)
  {
    hide Wanted;
    var n := |scenarios| - 1;
    forall j: nat | j < n && Wanted(scenarios[j], only)
      ensures j in at
    {
      assert scenarios[..n][j] == scenarios[j];
    }
  }
}
