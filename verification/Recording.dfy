/** The recorder of observed commands: `internal/recorder`. */
module Recording {
  import opened Bytes
  import opened Commands

  // ---------------------------------------------------------------- value sizes

  /** `valueSize`: how large a value a command writes, if it writes one. */
  function SizeOf(cmd: Command): Option<nat> {
    if cmd.name == Ascii("SET") || cmd.name == Ascii("APPEND") then
      if |cmd.args| >= 3 then Some(|cmd.args[2]|) else None
    else if cmd.name == Ascii("SETEX") || cmd.name == Ascii("PSETEX") then
      if |cmd.args| >= 4 then Some(|cmd.args[3]|) else None
    else if cmd.name == Ascii("HSET") then
      if |cmd.args| >= 4 then Some(LargestField(cmd.args, |cmd.args|)) else None
    else None
  }

  /** The length of the largest field value among the first `n` arguments: they are at 3, 5, 7, ... */
  function LargestField(args: seq<Text>, n: nat): (size: nat)
    requires n <= |args|
    ensures forall i | 3 <= i < n && i % 2 == 1 :: |args[i]| <= size
    ensures size == 0 || exists i :: 3 <= i < n && i % 2 == 1 && |args[i]| == size
  {
    if n <= 3 then 0
    else
      var size := LargestField(args, n - 1);
      if (n - 1) % 2 == 1 && |args[n - 1]| > size then |args[n - 1]| else size
  }

  ghost predicate IsLargestField(args: seq<Text>, n: nat) {
    && (forall i | 3 <= i < |args| && i % 2 == 1 :: |args[i]| <= n)
    && (exists i :: 3 <= i < |args| && i % 2 == 1 && |args[i]| == n)
  }

  /** Which commands write a value of which size, by name. */
  lemma SizeOfExactly(cmd: Command, n: nat)
    ensures SizeOf(cmd) == Some(n) <==>
            || ((cmd.name == Ascii("SET") || cmd.name == Ascii("APPEND")) && |cmd.args| >= 3 && n == |cmd.args[2]|)
            || ((cmd.name == Ascii("SETEX") || cmd.name == Ascii("PSETEX")) && |cmd.args| >= 4 && n == |cmd.args[3]|)
            || (cmd.name == Ascii("HSET") && IsLargestField(cmd.args, n))
  {
    hide Ascii;
    NamesDiffer();
    if |cmd.args| >= 4 {
      var size := LargestField(cmd.args, |cmd.args|);
      assert |cmd.args[3]| <= size;
      if size == 0 {
        assert |cmd.args[3]| == 0;
      }
      assert IsLargestField(cmd.args, size);
    }
  }

  lemma NamesDiffer()
    ensures Ascii("HSET") != Ascii("SET") && Ascii("HSET") != Ascii("APPEND")
    ensures Ascii("HSET") != Ascii("SETEX") && Ascii("HSET") != Ascii("PSETEX")
    ensures Ascii("SET") != Ascii("SETEX") && Ascii("SET") != Ascii("PSETEX")
    ensures Ascii("APPEND") != Ascii("SETEX") && Ascii("APPEND") != Ascii("PSETEX")
  {
    assert Ascii("HSET")[0] == 72 && Ascii("SET")[0] == 83 && Ascii("APPEND")[0] == 65;
    assert Ascii("SETEX")[0] == 83 && Ascii("PSETEX")[0] == 80;
  }

  method ValueSize(cmd: Command) returns (size: nat, found: bool)
    ensures SizeOf(cmd) == if found then Some(size) else None
  {
    if cmd.name == Ascii("SET") || cmd.name == Ascii("APPEND") {
      if |cmd.args| >= 3 {
        return |cmd.args[2]|, true;
      }
    } else if cmd.name == Ascii("SETEX") || cmd.name == Ascii("PSETEX") {
      if |cmd.args| >= 4 {
        return |cmd.args[3]|, true;
      }
    } else if cmd.name == Ascii("HSET") {
      var maxSize: nat, index: nat := 0, 3;
      found := false;
      while index < |cmd.args|
        invariant index % 2 == 1 && (index == 3 || 3 < index <= |cmd.args| + 1)
        invariant found <==> index > 3
        invariant maxSize == LargestField(cmd.args, if index <= |cmd.args| then index else |cmd.args|)
      {
        if |cmd.args[index]| > maxSize {
          maxSize := |cmd.args[index]|;
        }
        found := true;
        SkipField(cmd.args, index);
        index := index + 2;
      }
      return maxSize, found;
    }
    return 0, false;
  }

  lemma SkipField(args: seq<Text>, i: nat)
    requires 3 <= i < |args| && i % 2 == 1
    ensures i + 2 <= |args| ==> LargestField(args, i + 2) == LargestField(args, i + 1)
  {}

  // ---------------------------------------------------------------- sums over maps

  ghost function Sum(m: map<Text, nat>): nat {
    if m == map[] then 0
    else
      var k :| k in m;
      m[k] + Sum(m - {k})
  }

  /** A sum can be taken apart at any key. */
  lemma {:induction false} SumAt(m: map<Text, nat>, k: Text)
    requires k in m
    ensures Sum(m) == m[k] + Sum(m - {k})
    decreases m
  {
    var l :| l in m && Sum(m) == m[l] + Sum(m - {l});
    if l != k {
      SumAt(m - {l}, k);
      SumAt(m - {k}, l);
      assert m - {l} - {k} == m - {k} - {l};
    }
  }

  function Get(m: map<Text, nat>, k: Text): nat {
    if k in m then m[k] else 0
  }

  function Increment(m: map<Text, nat>, k: Text): map<Text, nat> {
    m[k := Get(m, k) + 1]
  }

  // ---------------------------------------------------------------- history

  /** One observed command and the scenario in force. */
  datatype Row = Row(scenario: Text, cmd: Command)

  ghost function Tally(h: seq<Row>, name: Text): nat {
    if h == [] then 0 else Tally(h[..|h| - 1], name) + if h[|h| - 1].cmd.name == name then 1 else 0
  }

  ghost function TallyIn(h: seq<Row>, scenario: Text, name: Text): nat {
    if h == [] then 0
    else
      TallyIn(h[..|h| - 1], scenario, name)
      + if h[|h| - 1].scenario == scenario && h[|h| - 1].cmd.name == name then 1 else 0
  }

  ghost function Largest(h: seq<Row>): nat {
    if h == [] then 0
    else
      var before, size := Largest(h[..|h| - 1]), SizeOf(h[|h| - 1].cmd);
      if size.Some? && size.value > before then size.value else before
  }

  ghost function Oversized(h: seq<Row>, limit: int): nat {
    if h == [] then 0
    else
      Oversized(h[..|h| - 1], limit)
      + var size := SizeOf(h[|h| - 1].cmd);
        if limit > 0 && size.Some? && size.value > limit then 1 else 0
  }

  ghost function Hashes(h: seq<Row>, hash: Text -> Text): set<Text> {
    set i | 0 <= i < |h| && h[i].cmd.Key().Some? :: hash(h[i].cmd.Key().value)
  }

  /** The maximum is one: no observed value is larger, and some observed value is as large. */
  lemma {:induction false} LargestIsMaximum(h: seq<Row>)
    ensures forall i | 0 <= i < |h| && SizeOf(h[i].cmd).Some? :: SizeOf(h[i].cmd).value <= Largest(h)
    ensures Largest(h) == 0 || exists i :: 0 <= i < |h| && SizeOf(h[i].cmd) == Some(Largest(h))
  {
    hide SizeOf;
    if h == [] {
    } else {
      var n := |h| - 1;
      LargestIsMaximum(h[..n]);
      if Largest(h) == Largest(h[..n]) && Largest(h) > 0 {
        var i :| 0 <= i < n && SizeOf(h[..n][i].cmd) == Some(Largest(h));
        assert SizeOf(h[i].cmd) == Some(Largest(h));
      } else if Largest(h) > 0 {
        assert SizeOf(h[n].cmd) == Some(Largest(h));
      }
      forall i | 0 <= i < |h| && SizeOf(h[i].cmd).Some?
        ensures SizeOf(h[i].cmd).value <= Largest(h)
      {
        if i < n {
          assert h[..n][i] == h[i];
        }
      }
    }
  }

  /** With a limit, some value was too big if and only if the largest was. */
  lemma {:induction false} OversizedExactly(h: seq<Row>, limit: int)
    requires limit > 0
    ensures Oversized(h, limit) > 0 <==> Largest(h) > limit
  {
    hide SizeOf;
    if h == [] {
    } else {
      OversizedExactly(h[..|h| - 1], limit);
    }
  }

  // ---------------------------------------------------------------- the recorder

  /** A Go map of counters: it is shared, and changed in place. */
  class Counters {
    var counts: map<Text, nat>

    constructor (counts: map<Text, nat>)
      ensures this.counts == counts
    {
      this.counts := counts;
    }

    method Add(k: Text)
      modifies this
      ensures counts == Increment(old(counts), k)
    {
      counts := Increment(counts, k);
    }
  }

  datatype Snapshot = Snapshot(
    commandCounts: Counters, byScenario: map<Text, Counters>,
    uniqueKeys: nat, maxValueSeen: nat, bigValueCount: nat, observedRows: nat)

  class Recorder {
    const hash: Text -> Text
    const maxValueBytes: int
    var scenario: Text
    var commandCounts: Counters
    var byScenario: map<Text, Counters>
    var seenKeys: set<Text>
    var maxValueSeen: nat
    var bigValueCount: nat
    var observedRows: nat
    ghost var history: seq<Row>

    /** The counter maps the recorder owns. */
    ghost function Owned(): set<Counters>
      reads `commandCounts, `byScenario
    {
      {commandCounts} + byScenario.Values
    }

    /** No two counter maps are the same object. */
    ghost predicate Separate()
      reads `commandCounts, `byScenario
    {
      && (forall s | s in byScenario :: byScenario[s] != commandCounts)
      && (forall s, t | s in byScenario && t in byScenario && s != t :: byScenario[s] != byScenario[t])
    }

    /** Every field is the function of the history it stands for. */
    ghost predicate Valid()
      reads this, Owned()
    {
      && Separate()
      && observedRows == |history|
      && Counted(history)
      && seenKeys == Hashes(history, hash)
      && maxValueSeen == Largest(history)
      && bigValueCount == Oversized(history, maxValueBytes)
    }

    /** The counters are the tallies of `h`. */
    ghost predicate Counted(h: seq<Row>)
      reads `commandCounts, `byScenario, Owned()
    {
      && (forall name :: Get(commandCounts.counts, name) == Tally(h, name))
      && (forall s, name :: CountIn(s, name) == TallyIn(h, s, name))
    }

    ghost function CountIn(s: Text, name: Text): nat
      reads `commandCounts, `byScenario, Owned()
    {
      if s in byScenario then Get(byScenario[s].counts, name) else 0
    }

    constructor (maxValueBytes: int, hash: Text -> Text)
      ensures Valid() && fresh(Owned()) && history == [] && scenario == Ascii("unknown")
      ensures this.maxValueBytes == maxValueBytes && this.hash == hash
    {
      this.hash := hash;
      this.maxValueBytes := maxValueBytes;
      scenario := Ascii("unknown");
      commandCounts := new Counters(map[]);
      byScenario := map[];
      seenKeys, maxValueSeen, bigValueCount, observedRows := {}, 0, 0, 0;
      history := [];
    }

    method SetScenario(name: Text)
      requires Valid()
      modifies this
      ensures Valid() && scenario == name && history == old(history)
      ensures commandCounts == old(commandCounts) && fresh(Owned() - old(Owned()))
    {
      scenario := name;
      EnsureScenario(name);
    }

    /** Makes sure a scenario has a counter map. */
    method EnsureScenario(name: Text)
      requires Separate()
      modifies this`byScenario
      ensures Separate() && name in byScenario && commandCounts == old(commandCounts)
      ensures fresh(Owned() - old(Owned()))
      ensures forall s | s in old(byScenario) :: s in byScenario && byScenario[s] == old(byScenario[s])
      ensures forall s | s in byScenario && s !in old(byScenario) ::
                s == name && byScenario[s].counts == map[]
    {
      if name !in byScenario {
        var counters := new Counters(map[]);
        byScenario := byScenario[name := counters];
      }
    }

    /** Counts a command, overall and in the present scenario. */
    method CountCommand(name: Text, ghost h: seq<Row>, ghost row: Row)
      requires Separate() && Counted(h) && row.scenario == scenario && row.cmd.name == name
      modifies this`byScenario, Owned()
      ensures Separate() && commandCounts == old(commandCounts) && fresh(Owned() - old(Owned()))
      ensures Counted(h + [row])
    {
      hide Tally, TallyIn;
      TalliesStep(h, row);
      commandCounts.Add(name);
      EnsureScenario(scenario);
      byScenario[scenario].Add(name);
    }

    method Observe(cmd: Command)
      requires Valid()
      modifies this, Owned()
      ensures Valid() && history == old(history) + [Row(old(scenario), cmd)] && scenario == old(scenario)
      ensures commandCounts == old(commandCounts) && fresh(Owned() - old(Owned()))
    {
      hide Counted, Separate, Largest, Oversized, Hashes, SizeOf, CountIn, Command.Key;
      ghost var row := Row(scenario, cmd);
      MeasuresStep(history, row, maxValueBytes, hash);
      observedRows := observedRows + 1;
      CountCommand(cmd.name, history, row);
      var key := cmd.Key();
      if key.Some? {
        seenKeys := seenKeys + {hash(key.value)};
      }
      RecordSize(cmd);
      history := history + [row];
    }

    method RecordSize(cmd: Command)
      modifies `maxValueSeen, `bigValueCount
      ensures var size := SizeOf(cmd);
              && maxValueSeen == (if size.Some? && size.value > old(maxValueSeen) then size.value
                                  else old(maxValueSeen))
              && bigValueCount == old(bigValueCount)
                                  + if maxValueBytes > 0 && size.Some? && size.value > maxValueBytes then 1 else 0
    {
      var size, found := ValueSize(cmd);
      if found {
        if size > maxValueSeen {
          maxValueSeen := size;
        }
        if maxValueBytes > 0 && size > maxValueBytes {
          bigValueCount := bigValueCount + 1;
        }
      }
    }

    /** A copy of everything: its counter maps are new objects. */
    method TakeSnapshot() returns (s: Snapshot)
      requires Valid()
      ensures fresh(s.commandCounts) && s.commandCounts.counts == commandCounts.counts
      ensures s.byScenario.Keys == byScenario.Keys
      ensures forall k | k in s.byScenario ::
                fresh(s.byScenario[k]) && s.byScenario[k].counts == byScenario[k].counts
      ensures s.uniqueKeys == |seenKeys| && s.maxValueSeen == maxValueSeen
      ensures s.bigValueCount == bigValueCount && s.observedRows == observedRows
    {
      var counts := new Counters(commandCounts.counts);
      var copied: map<Text, Counters> := map[];
      var todo := byScenario.Keys;
      while todo != {}
        invariant todo <= byScenario.Keys && copied.Keys == byScenario.Keys - todo
        invariant forall k | k in copied :: fresh(copied[k]) && copied[k].counts == byScenario[k].counts
        invariant fresh(counts) && counts.counts == commandCounts.counts
        decreases todo
      {
        var k :| k in todo;
        var one := new Counters(byScenario[k].counts);
        copied := copied[k := one];
        todo := todo - {k};
      }
      s := Snapshot(counts, copied, |seenKeys|, maxValueSeen, bigValueCount, observedRows);
    }
  }

  lemma TalliesStep(h: seq<Row>, row: Row)
    ensures forall name :: Tally(h + [row], name) == Tally(h, name) + if row.cmd.name == name then 1 else 0
    ensures forall s, name :: TallyIn(h + [row], s, name) ==
                              TallyIn(h, s, name) + if row.scenario == s && row.cmd.name == name then 1 else 0
  {
    assert (h + [row])[..|h|] == h;
  }

  lemma MeasuresStep(h: seq<Row>, row: Row, limit: int, hash: Text -> Text)
    ensures var h', size := h + [row], SizeOf(row.cmd);
            && Largest(h') == (if size.Some? && size.value > Largest(h) then size.value else Largest(h))
            && Oversized(h', limit) ==
               Oversized(h, limit) + (if limit > 0 && size.Some? && size.value > limit then 1 else 0)
            && Hashes(h', hash) ==
               Hashes(h, hash) + if row.cmd.Key().Some? then {hash(row.cmd.Key().value)} else {}
  {
    hide SizeOf;
    var h' := h + [row];
    assert h'[..|h'| - 1] == h;
    assert forall i | 0 <= i < |h| :: h'[i] == h[i];
    var added := if row.cmd.Key().Some? then {hash(row.cmd.Key().value)} else {};
    forall x | x in Hashes(h, hash) + added
      ensures x in Hashes(h', hash)
    {
      if x in Hashes(h, hash) {
        var i :| 0 <= i < |h| && h[i].cmd.Key().Some? && hash(h[i].cmd.Key().value) == x;
        assert h'[i].cmd.Key().Some? && hash(h'[i].cmd.Key().value) == x;
      } else {
        assert h'[|h|].cmd.Key().Some? && hash(h'[|h|].cmd.Key().value) == x;
      }
    }
  }

  // ---------------------------------------------------------------- conservation

  /** What the copies of a snapshot hold, as values. */
  datatype Totals = Totals(counts: map<Text, nat>, byScenario: map<Text, map<Text, nat>>)

  ghost predicate TotalsOf(t: Totals, h: seq<Row>) {
    && (forall name :: Get(t.counts, name) == Tally(h, name))
    && (forall s, name :: (if s in t.byScenario then Get(t.byScenario[s], name) else 0) == TallyIn(h, s, name))
  }

  /** The counts of one command in the scenarios of `m`. */
  ghost function PerScenario(m: map<Text, map<Text, nat>>, name: Text): map<Text, nat> {
    map s | s in m :: Get(m[s], name)
  }

  /** Nothing is lost and nothing counted twice: the observed rows are the sum of the command counts, and the
      count of each command is the sum of its counts in the scenarios. */
  lemma Conservation(t: Totals, h: seq<Row>)
    requires TotalsOf(t, h)
    ensures Sum(t.counts) == |h|
    ensures forall name :: Get(t.counts, name) == Sum(PerScenario(t.byScenario, name))
  {
    SumIsLength(t.counts, h);
    forall name
      ensures Get(t.counts, name) == Sum(PerScenario(t.byScenario, name))
    {
      var m := PerScenario(t.byScenario, name);
      forall s
        ensures Get(m, s) == TallyIn(h, s, name)
      {}
      SumIsTally(m, h, name);
    }
  }

  lemma {:induction false} SumZero(m: map<Text, nat>)
    requires forall k | k in m :: m[k] == 0
    ensures Sum(m) == 0
    decreases m
  {
    if m == map[] {
    } else {
      var k :| k in m;
      SumAt(m, k);
      SumZero(m - {k});
    }
  }

  /** The same sum with one less at `k`. */
  lemma SumDecrement(m: map<Text, nat>, k: Text)
    requires k in m && m[k] > 0
    ensures Sum(m) == Sum(m[k := m[k] - 1]) + 1
  {
    var m' := m[k := (m[k] - 1) as nat];
    SumAt(m, k);
    SumAt(m', k);
    assert m' - {k} == m - {k};
  }

  lemma {:induction false} SumIsLength(m: map<Text, nat>, h: seq<Row>)
    requires forall name :: Get(m, name) == Tally(h, name)
    ensures Sum(m) == |h|
  {
    if h == [] {
      forall k | k in m
        ensures m[k] == 0
      {
        assert Get(m, k) == Tally(h, k);
      }
      SumZero(m);
    } else {
      var k := h[|h| - 1].cmd.name;
      assert Get(m, k) == Tally(h, k) > 0;
      SumDecrement(m, k);
      var m' := m[k := (m[k] - 1) as nat];
      forall name
        ensures Get(m', name) == Tally(h[..|h| - 1], name)
      {
        assert Get(m, name) == Tally(h, name);
      }
      SumIsLength(m', h[..|h| - 1]);
    }
  }

  lemma {:induction false} SumIsTally(m: map<Text, nat>, h: seq<Row>, name: Text)
    requires forall s :: Get(m, s) == TallyIn(h, s, name)
    ensures Sum(m) == Tally(h, name)
  {
    if h == [] {
      forall k | k in m
        ensures m[k] == 0
      {
        assert Get(m, k) == TallyIn(h, k, name);
      }
      SumZero(m);
    } else {
      var last := h[|h| - 1];
      if last.cmd.name == name {
        assert Get(m, last.scenario) == TallyIn(h, last.scenario, name) > 0;
        SumDecrement(m, last.scenario);
        var m' := m[last.scenario := (m[last.scenario] - 1) as nat];
        forall s
          ensures Get(m', s) == TallyIn(h[..|h| - 1], s, name)
        {
          assert Get(m, s) == TallyIn(h, s, name);
        }
        SumIsTally(m', h[..|h| - 1], name);
      } else {
        forall s
          ensures Get(m, s) == TallyIn(h[..|h| - 1], s, name)
        {
          assert Get(m, s) == TallyIn(h, s, name);
        }
        SumIsTally(m, h[..|h| - 1], name);
      }
    }
  }

  /** A change of a recorder. */
  datatype Update = Observing(cmd: Command) | Switching(scenario: Text)

  ghost function ScenarioAfter(us: seq<Update>, scenario: Text): Text {
    if us == [] then scenario
    else
      var last := us[|us| - 1];
      if last.Switching? then last.scenario else ScenarioAfter(us[..|us| - 1], scenario)
  }

  /** The rows that updates add to the history. */
  ghost function RowsOf(us: seq<Update>, scenario: Text): seq<Row> {
    if us == [] then []
    else
      var before, last := us[..|us| - 1], us[|us| - 1];
      RowsOf(before, scenario) + if last.Observing? then [Row(ScenarioAfter(before, scenario), last.cmd)] else []
  }

  /** The counter maps of a snapshot. */
  ghost function Copies(s: Snapshot): set<Counters> {
    {s.commandCounts} + s.byScenario.Values
  }

  ghost function TotalsIn(s: Snapshot): Totals
    reads Copies(s)
  {
    Totals(s.commandCounts.counts, map k | k in s.byScenario :: s.byScenario[k].counts)
  }

  method Apply(recorder: Recorder, u: Update)
    requires recorder.Valid()
    modifies recorder, recorder.Owned()
    ensures recorder.Valid() && fresh(recorder.Owned() - old(recorder.Owned()))
    ensures recorder.history == old(recorder.history) + RowsOf([u], old(recorder.scenario))
    ensures recorder.scenario == ScenarioAfter([u], old(recorder.scenario))
  {
    hide Recorder.Valid;
    OneUpdate(u, recorder.scenario, recorder.history);
    match u
    case Observing(cmd) => recorder.Observe(cmd);
    case Switching(name) => recorder.SetScenario(name);
  }

  lemma OneUpdate(u: Update, scenario: Text, h: seq<Row>)
    ensures RowsOf([u], scenario) == if u.Observing? then [Row(scenario, u.cmd)] else []
    ensures ScenarioAfter([u], scenario) == if u.Switching? then u.scenario else scenario
    ensures h + [] == h
  {
    assert [u][..0] == [];
  }

  lemma MoreUpdates(us: seq<Update>, u: Update, scenario: Text, h: seq<Row>)
    ensures h + RowsOf(us + [u], scenario) == (h + RowsOf(us, scenario)) + RowsOf([u], ScenarioAfter(us, scenario))
    ensures ScenarioAfter(us + [u], scenario) == ScenarioAfter([u], ScenarioAfter(us, scenario))
  {
    OneUpdate(u, ScenarioAfter(us, scenario), h);
    assert (us + [u])[..|us|] == us;
  }

  /** What a valid recorder's snapshot says about the history so far, and that it keeps saying it: no sequence
      of later observations and scenario changes touches any of its maps. */
  method SnapshotThenMany(recorder: Recorder, us: seq<Update>) returns (s: Snapshot)
    requires recorder.Valid()
    modifies recorder, recorder.Owned()
    ensures recorder.Valid()
    ensures recorder.history == old(recorder.history) + RowsOf(us, old(recorder.scenario))
    ensures recorder.scenario == ScenarioAfter(us, old(recorder.scenario))
    ensures s.observedRows == |old(recorder.history)|
    ensures s.maxValueSeen == Largest(old(recorder.history))
    ensures s.bigValueCount == Oversized(old(recorder.history), recorder.maxValueBytes)
    ensures s.uniqueKeys == |Hashes(old(recorder.history), recorder.hash)|
    ensures TotalsOf(TotalsIn(s), old(recorder.history))
  {
    hide Largest, Oversized, Hashes, Recorder.Counted, Recorder.Separate, Recorder.CountIn, TotalsOf, RowsOf,
         ScenarioAfter;
    s := TakeTotals(recorder);
    ghost var totals := TotalsIn(s);
    NoUpdates(recorder.history, recorder.scenario);
    assert us[..0] == [];
    for i := 0 to |us|
      invariant recorder.Valid() && fresh(recorder.Owned() - old(recorder.Owned()))
      invariant recorder.history == old(recorder.history) + RowsOf(us[..i], old(recorder.scenario))
      invariant recorder.scenario == ScenarioAfter(us[..i], old(recorder.scenario))
      invariant Copies(s) !! recorder.Owned() && TotalsIn(s) == totals
    {
      MoreUpdates(us[..i], us[i], old(recorder.scenario), old(recorder.history));
      assert us[..i + 1] == us[..i] + [us[i]];
      Apply(recorder, us[i]);
    }
    assert us[..|us|] == us;
  }

  lemma NoUpdates(h: seq<Row>, scenario: Text)
    ensures h + RowsOf([], scenario) == h && ScenarioAfter([], scenario) == scenario
  {}

  /** The snapshot itself. */
  method TakeTotals(recorder: Recorder) returns (s: Snapshot)
    requires recorder.Valid()
    ensures fresh(Copies(s)) && TotalsOf(TotalsIn(s), recorder.history)
    ensures s.observedRows == |recorder.history| && s.maxValueSeen == Largest(recorder.history)
    ensures s.bigValueCount == Oversized(recorder.history, recorder.maxValueBytes)
    ensures s.uniqueKeys == |Hashes(recorder.history, recorder.hash)|
  {
    hide Largest, Oversized, Hashes, TotalsOf, Tally, TallyIn;
    s := recorder.TakeSnapshot();
    SnapshotTotals(recorder, TotalsIn(s));
  }

  lemma SnapshotTotals(recorder: Recorder, totals: Totals)
    requires recorder.Separate() && recorder.Counted(recorder.history)
    requires totals.counts == recorder.commandCounts.counts
    requires totals.byScenario == map k | k in recorder.byScenario :: recorder.byScenario[k].counts
    ensures TotalsOf(totals, recorder.history)
  {
    hide Tally, TallyIn;
    forall s, name
      ensures (if s in totals.byScenario then Get(totals.byScenario[s], name) else 0) ==
              TallyIn(recorder.history, s, name)
    {
      assert recorder.CountIn(s, name) == TallyIn(recorder.history, s, name);
    }
  }
}
