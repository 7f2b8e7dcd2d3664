/** The configuration and the part of `internal/config/validate.go` that runs rely on. */
module Config {
  import opened Bytes
  import opened Globs

  datatype Profile = Profile(name: Text, patterns: seq<Text>, mustExpire: bool, maxTTL: int, disposable: bool)

  datatype Safety = Safety(allowKeyDeletes: bool, maxKeysDelete: int, minDeletePrefix: int)

  datatype ScenarioType = RandomMissType | UnavailableType | ColdCacheType | UnknownType

  datatype Scenario = Scenario(name: Text, kind: ScenarioType, probability: real)

  datatype Config = Config(
    safety: Safety, profiles: seq<Profile>, scenarios: seq<Scenario>, probes: seq<Text>,
    maxKeysScanned: int, warmupRetries: int, hasReset: bool, seed: nat)

  datatype Problem =
    | DuplicateProbe(name: Text) | DuplicateScenario(name: Text)
    | ReservedName | BadProbability(name: Text)
    | NeedsDisposable | NeedsAllowDeletes | UnsafePattern(pattern: Text)

  function HasDisposable(profiles: seq<Profile>): (b: bool)
    ensures b <==> exists i | 0 <= i < |profiles| :: profiles[i].disposable
  {
    profiles != [] && (profiles[0].disposable || HasDisposable(profiles[1..]))
  }

  // ---------------------------------------------------------------- what a valid configuration is

  ghost predicate Distinct(names: seq<Text>) {
    forall i, j | 0 <= i < j < |names| :: names[i] != names[j]
  }

  function ScenarioNames(scenarios: seq<Scenario>): (names: seq<Text>)
    ensures |names| == |scenarios| && forall i | 0 <= i < |names| :: names[i] == scenarios[i].name
  {
    seq(|scenarios|, i requires 0 <= i < |scenarios| => scenarios[i].name)
  }

  ghost predicate AllSafe(profiles: seq<Profile>, minPrefix: int) {
    forall i | 0 <= i < |profiles| && profiles[i].disposable :: AllSafePatterns(profiles[i].patterns, minPrefix)
  }

  ghost predicate AllSafePatterns(patterns: seq<Text>, minPrefix: int) {
    forall j | 0 <= j < |patterns| :: SafeToDelete(patterns[j], minPrefix)
  }

  ghost predicate ValidScenario(s: Scenario, cfg: Config) {
    && Upper(s.name) != Ascii("BASELINE")
    && (s.kind.RandomMissType? ==> 0.0 <= s.probability <= 1.0)
    && (s.kind.ColdCacheType? ==>
          HasDisposable(cfg.profiles) && cfg.safety.allowKeyDeletes
          && AllSafe(cfg.profiles, cfg.safety.minDeletePrefix))
  }

  ghost predicate ValidConfig(cfg: Config) {
    && Distinct(cfg.probes) && Distinct(ScenarioNames(cfg.scenarios))
    && forall i | 0 <= i < |cfg.scenarios| :: ValidScenario(cfg.scenarios[i], cfg)
  }

  // ---------------------------------------------------------------- the validator

  lemma DistinctSnoc(names: seq<Text>, name: Text)
    ensures Distinct(names + [name]) <==> Distinct(names) && name !in names
  {
    var all := names + [name];
    if Distinct(all) {
      forall i, j | 0 <= i < j < |names|
        ensures names[i] != names[j]
      {
        assert all[i] != all[j];
      }
      forall i | 0 <= i < |names|
        ensures names[i] != name
      {
        assert all[i] != all[|names|];
      }
    }
  }

  /** The names that were there before, each time they come again. */
  function Repeats(names: seq<Text>): seq<Text> {
    if names == [] then []
    else
      var n := |names| - 1;
      Repeats(names[..n]) + if names[n] in names[..n] then [names[n]] else []
  }

  ghost predicate Twice(names: seq<Text>, name: Text) {
    exists i, j :: 0 <= i < j < |names| && names[i] == names[j] == name
  }

  lemma {:induction false} RepeatsExactly(names: seq<Text>)
    ensures forall name :: name in Repeats(names) <==> Twice(names, name)
  {
    if names == [] {
    } else {
      var n := |names| - 1;
      RepeatsExactly(names[..n]);
      forall name | Twice(names, name)
        ensures name in Repeats(names)
      {
        var i, j :| 0 <= i < j < |names| && names[i] == names[j] == name;
        if j < n {
          assert names[..n][i] == names[..n][j] == name;
        } else {
          assert names[..n][i] == name;
        }
      }
      forall name | name in Repeats(names)
        ensures Twice(names, name)
      {
        if name in Repeats(names[..n]) {
          var i, j :| 0 <= i < j < n && names[..n][i] == names[..n][j] == name;
          assert names[i] == names[j] == name;
        } else {
          var i :| 0 <= i < n && names[..n][i] == names[n];
          assert names[i] == names[n] == name;
        }
      }
    }
  }

  lemma NoNames()
    ensures Distinct([]) && Repeats([]) == []
  {}

  lemma RepeatsSnoc(names: seq<Text>, name: Text)
    ensures Repeats(names + [name]) == Repeats(names) + if name in names then [name] else []
  {
    assert (names + [name])[..|names|] == names;
  }

  /** `uniqueNames`: the names that were seen before, each time they come again. */
  method UniqueNames(names: seq<Text>) returns (again: seq<Text>)
    ensures again == [] <==> Distinct(names)
    ensures again == Repeats(names)
    ensures |again| + |set n | n in names| == |names|
  {
    hide Distinct, Repeats;
    again := [];
    var seen: set<Text> := {};
    NoNames();
    assert names[..0] == [];
    for i := 0 to |names|
      invariant seen == set n | n in names[..i]
      invariant |again| + |seen| == i
      invariant again == [] <==> Distinct(names[..i])
      invariant again == Repeats(names[..i])
    {
      var name := names[i];
      DistinctSnoc(names[..i], name);
      RepeatsSnoc(names[..i], name);
      assert names[..i + 1] == names[..i] + [name];
      if name in seen {
        again := again + [name];
        assert seen + {name} == seen;
      }
      seen := seen + {name};
    }
    assert names[..|names|] == names;
  }

  /** The patterns that are unsafe, each with its own complaint. */
  method CheckPatterns(patterns: seq<Text>, minPrefix: int) returns (problems: seq<Problem>)
    ensures problems == [] <==> AllSafePatterns(patterns, minPrefix)
    ensures forall q :: q in problems <==>
              q.UnsafePattern? && q.pattern in patterns && !SafeToDelete(q.pattern, minPrefix)
  {
    hide SafeToDelete;
    problems := [];
    for j := 0 to |patterns|
      invariant problems == [] <==> forall k | 0 <= k < j :: SafeToDelete(patterns[k], minPrefix)
      invariant forall q :: q in problems <==>
                  q.UnsafePattern? && q.pattern in patterns[..j] && !SafeToDelete(q.pattern, minPrefix)
    {
      assert patterns[..j + 1] == patterns[..j] + [patterns[j]];
      if !SafeToDelete(patterns[j], minPrefix) {
        problems := problems + [UnsafePattern(patterns[j])];
      }
    }
    assert patterns[..|patterns|] == patterns;
  }

  /** `p` is an unsafe pattern of a disposable profile. */
  ghost predicate UnsafeIn(p: Text, profiles: seq<Profile>, minPrefix: int) {
    exists i :: 0 <= i < |profiles| && profiles[i].disposable && p in profiles[i].patterns
                && !SafeToDelete(p, minPrefix)
  }

  /** What is wrong with a scenario, complaint by complaint. */
  ghost predicate Complains(q: Problem, s: Scenario, cfg: Config) {
    match q
    case ReservedName => Upper(s.name) == Ascii("BASELINE")
    case BadProbability(name) => name == s.name && s.kind.RandomMissType? && !(0.0 <= s.probability <= 1.0)
    case NeedsDisposable => s.kind.ColdCacheType? && !HasDisposable(cfg.profiles)
    case NeedsAllowDeletes => s.kind.ColdCacheType? && !cfg.safety.allowKeyDeletes
    case UnsafePattern(p) => s.kind.ColdCacheType? && UnsafeIn(p, cfg.profiles, cfg.safety.minDeletePrefix)
    case _ => false
  }

  lemma MoreUnsafe(profiles: seq<Profile>, i: nat, minPrefix: int)
    requires i < |profiles|
    ensures forall p :: UnsafeIn(p, profiles[..i + 1], minPrefix) <==>
              UnsafeIn(p, profiles[..i], minPrefix)
              || (profiles[i].disposable && p in profiles[i].patterns && !SafeToDelete(p, minPrefix))
  {
    hide SafeToDelete;
    forall p
      ensures UnsafeIn(p, profiles[..i + 1], minPrefix) <==>
              UnsafeIn(p, profiles[..i], minPrefix)
              || (profiles[i].disposable && p in profiles[i].patterns && !SafeToDelete(p, minPrefix))
    {
      assert forall k | 0 <= k < i :: profiles[..i + 1][k] == profiles[..i][k];
      assert profiles[..i + 1][i] == profiles[i];
    }
  }

  lemma NothingUnsafe(minPrefix: int)
    ensures forall p :: !UnsafeIn(p, [], minPrefix)
  {}

  method CheckScenario(s: Scenario, cfg: Config) returns (problems: seq<Problem>)
    ensures problems == [] <==> ValidScenario(s, cfg)
    ensures forall q :: q in problems <==> Complains(q, s, cfg)
  {
    hide SafeToDelete, HasDisposable, UnsafeIn, Upper;
    problems := [];
    if Upper(s.name) == Ascii("BASELINE") {
      problems := problems + [ReservedName];
    }
    if s.kind.RandomMissType? && (s.probability < 0.0 || s.probability > 1.0) {
      problems := problems + [BadProbability(s.name)];
    }
    if s.kind.ColdCacheType? {
      if !HasDisposable(cfg.profiles) {
        problems := problems + [NeedsDisposable];
      }
      if !cfg.safety.allowKeyDeletes {
        problems := problems + [NeedsAllowDeletes];
      }
      ghost var before := problems;
      NothingUnsafe(cfg.safety.minDeletePrefix);
      assert cfg.profiles[..0] == [];
      for i := 0 to |cfg.profiles|
        invariant problems == [] <==>
                  before == [] && forall k | 0 <= k < i && cfg.profiles[k].disposable ::
                    AllSafePatterns(cfg.profiles[k].patterns, cfg.safety.minDeletePrefix)
        invariant forall q :: q in problems <==>
                    q in before || (q.UnsafePattern?
                                    && UnsafeIn(q.pattern, cfg.profiles[..i], cfg.safety.minDeletePrefix))
      {
        MoreUnsafe(cfg.profiles, i, cfg.safety.minDeletePrefix);
        if cfg.profiles[i].disposable {
          var more := CheckPatterns(cfg.profiles[i].patterns, cfg.safety.minDeletePrefix);
          problems := problems + more;
        }
      }
      assert cfg.profiles[..|cfg.profiles|] == cfg.profiles;
    }
  }

  ghost predicate ComplainsOfAny(q: Problem, scenarios: seq<Scenario>, cfg: Config) {
    exists i :: 0 <= i < |scenarios| && Complains(q, scenarios[i], cfg)
  }

  function Duplicates(probes: seq<Text>, scenarios: seq<Text>): seq<Problem> {
    seq(|probes|, i requires 0 <= i < |probes| => DuplicateProbe(probes[i]))
    + seq(|scenarios|, i requires 0 <= i < |scenarios| => DuplicateScenario(scenarios[i]))
  }

  lemma DuplicatesExactly(probes: seq<Text>, scenarios: seq<Text>)
    ensures forall q :: q in Duplicates(probes, scenarios) <==>
              (q.DuplicateProbe? && q.name in probes) || (q.DuplicateScenario? && q.name in scenarios)
    ensures Duplicates(probes, scenarios) == [] <==> probes == [] && scenarios == []
  {
    var qs := Duplicates(probes, scenarios);
    forall q: Problem | (q.DuplicateProbe? && q.name in probes) || (q.DuplicateScenario? && q.name in scenarios)
      ensures q in qs
    {
      if q.DuplicateProbe? {
        var i :| 0 <= i < |probes| && probes[i] == q.name;
        assert qs[i] == q;
      } else {
        var i :| 0 <= i < |scenarios| && scenarios[i] == q.name;
        assert qs[|probes| + i] == q;
      }
    }
  }

  lemma MoreComplaints(cfg: Config, i: nat)
    requires i < |cfg.scenarios|
    ensures forall q :: ComplainsOfAny(q, cfg.scenarios[..i + 1], cfg) <==>
              ComplainsOfAny(q, cfg.scenarios[..i], cfg) || Complains(q, cfg.scenarios[i], cfg)
  {
    hide Complains;
    assert forall k | 0 <= k < i :: cfg.scenarios[..i + 1][k] == cfg.scenarios[..i][k];
    assert cfg.scenarios[..i + 1][i] == cfg.scenarios[i];
  }

  /** No problem is reported exactly for the valid configurations. */
  method Validate(cfg: Config) returns (problems: seq<Problem>)
    ensures problems == [] <==> ValidConfig(cfg)
    ensures forall q :: q in problems <==>
              || (q.DuplicateProbe? && q.name in Repeats(cfg.probes))
              || (q.DuplicateScenario? && q.name in Repeats(ScenarioNames(cfg.scenarios)))
              || ComplainsOfAny(q, cfg.scenarios, cfg)
  {
    hide Repeats, Complains, Duplicates;
    var probes := UniqueNames(cfg.probes);
    var scenarios := UniqueNames(ScenarioNames(cfg.scenarios));
    problems := Duplicates(probes, scenarios);
    DuplicatesExactly(probes, scenarios);
    ghost var names := problems;
    assert cfg.scenarios[..0] == [];
    for i := 0 to |cfg.scenarios|
      invariant forall q :: q in problems <==> q in names || ComplainsOfAny(q, cfg.scenarios[..i], cfg)
      invariant problems == [] <==> names == [] && forall k | 0 <= k < i :: ValidScenario(cfg.scenarios[k], cfg)
    {
      var more := CheckScenario(cfg.scenarios[i], cfg);
      MoreComplaints(cfg, i);
      problems := problems + more;
    }
    assert cfg.scenarios[..|cfg.scenarios|] == cfg.scenarios;
  }
}
