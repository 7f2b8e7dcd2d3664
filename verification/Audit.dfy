/** The policy audit: `internal/policy/auditor.go`. */
module Audit {
  import opened Bytes
  import opened Globs
  import opened Config
  import opened Values
  import opened Client
  import opened Scanning

  const SECOND: int := 1_000_000_000

  /** `asInt64`. */
  function AsInt64(v: Value): Option<int> {
    match v
    case Int(n) => Some(n)
    case Str(text) => Atoi(text)
    case _ => None
  }

  function TtlOf(a: Answer<Value>): Option<int> {
    if a.Value? then AsInt64(a.value) else None
  }

  /** The TTL that a reply carries: an integer, or the decimal text of one. */
  ghost predicate Carries(a: Answer<Value>, ttl: int) {
    a == Value(Int(ttl)) || (a.Value? && a.value.Str? && IsNumber(a.value.text, ttl))
  }

  ghost predicate IsNumber(s: Text, n: int) {
    && MIN_INT <= n <= MAX_INT
    && ((exists plus, zeros :: s == Written(n, plus, zeros))
        || (n == 0 && exists zeros: nat :: s == [MINUS] + (Zeros(zeros) + Itoa(0))))
  }

  ghost predicate CarriesAny(a: Answer<Value>) {
    exists ttl: int :: Carries(a, ttl)
  }

  /** `asInt64` reads exactly the TTL a reply carries, which is never more than one. */
  lemma TtlExactly(a: Answer<Value>, ttl: int)
    ensures TtlOf(a) == Some(ttl) <==> Carries(a, ttl)
    ensures TtlOf(a).Some? <==> CarriesAny(a)
  {
    hide Atoi, Written, Zeros, Itoa;
    if a.Value? && a.value.Str? {
      var text := a.value.text;
      AtoiExactly(text, ttl);
      if Atoi(text).Some? {
        AtoiExactly(text, Atoi(text).value);
        assert Carries(a, Atoi(text).value);
      }
      forall t: int | Carries(a, t)
        ensures Atoi(text) == Some(t)
      {
        AtoiExactly(text, t);
      }
    } else if a.Value? && a.value.Int? {
      assert Carries(a, a.value.number);
    }
  }

  /** Integers and their decimal texts are read as they are, and nothing else is read as a TTL. */
  lemma TtlReads(n: int, a: Answer<Value>)
    ensures TtlOf(Value(Int(n))) == Some(n)
    ensures TtlOf(Value(Str(Decimal(n)))) == if MIN_INT <= n <= MAX_INT then Some(n) else None
    ensures !a.Value? || a.value.Nil? || a.value.Array? || a.value.Dict? ==> TtlOf(a) == None
  {
    hide Itoa, Atoi;
    var m := if n < 0 then -n else n;
    assert Decimal(n) == (if n < 0 then [MINUS] else []) + (Zeros(0) + Itoa(m));
    ReadsWritten(Decimal(n), if n < 0 then [MINUS] else [], 0, m);
  }

  datatype Violation = NoExpiration | TooLong

  datatype TtlFinding = TtlFinding(violation: Violation, count: nat, pattern: Text)

  // ---------------------------------------------------------------- what a TTL violates

  /** What a key with this TTL reply violates: -2 is a key that is gone, -1 one that never expires. */
  ghost predicate Violates(profile: Profile, ttl: int, v: Violation) {
    match v
    case NoExpiration => profile.mustExpire && ttl == -1
    case TooLong => profile.maxTTL > 0 && ttl >= 0 && ttl * 1_000_000_000 > profile.maxTTL
  }

  /** The comparison in whole seconds loses nothing, whatever the configured duration. */
  lemma WholeSeconds(profile: Profile, ttl: int)
    requires profile.maxTTL > 0
    ensures ttl > profile.maxTTL / SECOND <==> ttl * SECOND > profile.maxTTL
  {}

  ghost function Count(profile: Profile, calls: seq<TtlCall>, v: Violation): nat {
    if calls == [] then 0
    else
      Count(profile, calls[..|calls| - 1], v)
      + if CallViolates(profile, calls[|calls| - 1], v) then 1 else 0
  }

  ghost predicate CallViolates(profile: Profile, call: TtlCall, v: Violation) {
    exists ttl: int :: Carries(call.answer, ttl) && Violates(profile, ttl, v)
  }

  lemma {:induction false} CountPositive(profile: Profile, calls: seq<TtlCall>, v: Violation)
    ensures Count(profile, calls, v) > 0 <==> exists call :: call in calls && CallViolates(profile, call, v)
    ensures Count(profile, calls, v) <= |calls|
  {
    hide CallViolates;
    if calls == [] {
    } else {
      var init, last := calls[..|calls| - 1], calls[|calls| - 1];
      CountPositive(profile, init, v);
      assert calls == init + [last];
    }
  }

  lemma OnlyTtl(a: Answer<Value>, ttl: int)
    requires Carries(a, ttl)
    ensures CarriesAny(a) && forall t: int | Carries(a, t) :: t == ttl
  {
    hide TtlOf, Carries;
    TtlExactly(a, ttl);
    forall t: int | Carries(a, t)
      ensures t == ttl
    {
      TtlExactly(a, t);
    }
  }

  lemma OneViolation(profile: Profile, call: TtlCall)
    ensures !CallViolates(profile, call, NoExpiration) || !CallViolates(profile, call, TooLong)
  {
    hide Carries;
    if CallViolates(profile, call, NoExpiration) {
      var ttl: int :| Carries(call.answer, ttl) && Violates(profile, ttl, NoExpiration);
      OnlyTtl(call.answer, ttl);
    }
  }

  /** No key is counted twice. */
  lemma {:induction false} CountedOnce(profile: Profile, calls: seq<TtlCall>)
    ensures Count(profile, calls, NoExpiration) + Count(profile, calls, TooLong) <= |calls|
  {
    hide CallViolates;
    if calls == [] {
    } else {
      OneViolation(profile, calls[|calls| - 1]);
      CountedOnce(profile, calls[..|calls| - 1]);
    }
  }

  // ---------------------------------------------------------------- the audit of TTLs

  /** The record of one pattern: the TTL calls made for it, and whether its SCAN ran to the end, which
      calls of SCAN that took. */
  datatype PatternAudit =
    PatternAudit(profile: Profile, pattern: Text, calls: seq<TtlCall>, from: nat, to: nat)

  ghost function FindingsOf(p: PatternAudit): seq<TtlFinding> {
    var none, long := Count(p.profile, p.calls, NoExpiration), Count(p.profile, p.calls, TooLong);
    (if none > 0 then [TtlFinding(NoExpiration, none, p.pattern)] else [])
    + (if long > 0 then [TtlFinding(TooLong, long, p.pattern)] else [])
  }

  ghost function AllFindings(ps: seq<PatternAudit>): seq<TtlFinding> {
    if ps == [] then [] else AllFindings(ps[..|ps| - 1]) + FindingsOf(ps[|ps| - 1])
  }

  ghost function AllCalls(ps: seq<PatternAudit>): seq<TtlCall> {
    if ps == [] then [] else AllCalls(ps[..|ps| - 1]) + ps[|ps| - 1].calls
  }

  /** All keys that SCAN returned were asked for, and SCAN ran to its end. */
  ghost predicate Complete(p: PatternAudit, scans: seq<ScanCall>) {
    && Iteration(scans, p.from, p.to, p.pattern)
    && Examined(p.calls, scans, p.from, p.to)
  }

  ghost predicate Examined(calls: seq<TtlCall>, scans: seq<ScanCall>, from: nat, to: nat) {
    forall j, key | from <= j < to <= |scans| && InPage(scans[j], key) :: Asked(calls, key)
  }

  ghost predicate Asked(calls: seq<TtlCall>, key: Text) {
    exists i :: 0 <= i < |calls| && calls[i].key == key
  }

  ghost predicate FromScans(calls: seq<TtlCall>, scans: seq<ScanCall>, pattern: Text) {
    forall i | 0 <= i < |calls| ::
      CarriesAny(calls[i].answer) && Returned(scans, pattern, calls[i].key)
  }

  ghost predicate Returned(scans: seq<ScanCall>, pattern: Text, key: Text) {
    exists j :: 0 <= j < |scans| && scans[j].pattern == pattern && InPage(scans[j], key)
  }

  /** The patterns of all profiles, each with its profile. */
  function AllPatterns(profiles: seq<Profile>): seq<(Profile, Text)> {
    if profiles == [] then []
    else AllPatterns(profiles[..|profiles| - 1]) + PatternsOf(profiles[|profiles| - 1])
  }

  function PatternsOf(p: Profile): (s: seq<(Profile, Text)>)
    ensures |s| == |p.patterns|
  {
    seq(|p.patterns|, j requires 0 <= j < |p.patterns| => (p, p.patterns[j]))
  }

  ghost function Audited(ps: seq<PatternAudit>): seq<(Profile, Text)> {
    seq(|ps|, i requires 0 <= i < |ps| => (ps[i].profile, ps[i].pattern))
  }

  /** The last TTL query since the first `before` gave no number. */
  ghost predicate TtlFailed(ttls: seq<TtlCall>, before: nat) {
    |ttls| > before && !CarriesAny(ttls[|ttls| - 1].answer)
  }

  /** `auditTTL` for one pattern.  `scanned` counts the TTL queries of the whole audit. */
  method AuditPattern(redis: Redis, profile: Profile, pattern: Text, scanned: nat, max: int)
    returns (none: nat, long: nat, scanned': nat, ok: bool, ghost record: PatternAudit)
    requires redis.Valid()
    modifies redis
    ensures redis.Valid() && redis.keys == old(redis.keys) && redis.deletes == old(redis.deletes)
    ensures old(redis.scans) <= redis.scans && old(redis.ttls) <= redis.ttls
    ensures scanned' - scanned == |redis.ttls| - |old(redis.ttls)|
    ensures scanned' <= scanned || scanned' <= max
    ensures !ok ==> ScanFailed(redis.scans, |old(redis.scans)|) || TtlFailed(redis.ttls, |old(redis.ttls)|)
    ensures ok ==>
              && record.profile == profile && record.pattern == pattern
              && redis.ttls == old(redis.ttls) + record.calls
              && none == Count(profile, record.calls, NoExpiration)
              && long == Count(profile, record.calls, TooLong)
              && FromScans(record.calls, redis.scans, pattern)
              && (scanned' < max ==> Complete(record, redis.scans) && record.from == |old(redis.scans)|)
    ensures forall j | |old(redis.scans)| <= j < |redis.scans| :: redis.scans[j].db == redis.keys
  {
    hide Count, Complete, Examined, FromScans, PageOf, HasPage, Returns, CursorOf, Iteration, Underway, Done, Asked,
         NextCursor, TtlOf, Carries;
    ghost var scans0, ttls0 := redis.scans, redis.ttls;
    ghost var calls: seq<TtlCall> := [];
    none, long, scanned' := 0, 0, scanned;
    var cursor := ZERO_CURSOR;
    NothingAsked(profile, scans0, pattern);
    assert ttls0 + [] == ttls0;
    while scanned' < max
      invariant redis.Valid() && redis.keys == old(redis.keys) && redis.deletes == old(redis.deletes)
      invariant scans0 <= redis.scans && redis.ttls == ttls0 + calls
      invariant scanned' == scanned + |calls| && (scanned' <= scanned || scanned' <= max)
      invariant none == Count(profile, calls, NoExpiration) && long == Count(profile, calls, TooLong)
      invariant FromScans(calls, redis.scans, pattern)
      invariant scanned' < max ==> Underway(redis.scans, |scans0|, calls, pattern, cursor)
      invariant forall j | |scans0| <= j < |redis.scans| :: redis.scans[j].db == redis.keys
      decreases |redis.scanReplies| - redis.scanned
    {
      ghost var scans1, calls1 := redis.scans, calls;
      var answer := redis.Scan(cursor, pattern);
      var page := PageOf(answer);
      PageExactly(answer);
      if page.None? {
        return none, long, scanned', false, PatternAudit(profile, pattern, calls, |scans0|, |redis.scans|);
      }
      cursor := page.value.cursor;
      MoreScans(calls, scans1, redis.scans, pattern);
      ghost var more: seq<TtlCall>;
      var none1, long1, ok1;
      none1, long1, scanned', ok1, more := AuditKeys(redis, profile, pattern, page.value.keys, scanned', max);
      if !ok1 {
        return none, long, scanned', false, PatternAudit(profile, pattern, calls, |scans0|, |redis.scans|);
      }
      CountAppend(profile, calls, more, NoExpiration);
      CountAppend(profile, calls, more, TooLong);
      none, long := none + none1, long + long1;
      assert ttls0 + calls + more == ttls0 + (calls + more);
      FromScansAppend(calls, more, redis.scans, pattern);
      calls := calls + more;
      if scanned' < max {
        OneMorePage(scans1, redis.scans, |scans0|, calls1, more, pattern, cursor);
      }
      if cursor == ZERO_CURSOR || scanned' >= max {
        if scanned' < max {
          CompleteMeans(PatternAudit(profile, pattern, calls, |scans0|, |redis.scans|), redis.scans);
        }
        return none, long, scanned', true, PatternAudit(profile, pattern, calls, |scans0|, |redis.scans|);
      }
    }
    return none, long, scanned', true, PatternAudit(profile, pattern, calls, |scans0|, |redis.scans|);
  }

  /** The loop over the keys of a page. */
  method AuditKeys(redis: Redis, profile: Profile, ghost pattern: Text, keys: seq<Text>, scanned: nat, max: int)
    returns (none: nat, long: nat, scanned': nat, ok: bool, ghost calls: seq<TtlCall>)
    requires redis.Valid() && scanned <= max
    requires redis.scans != []
    requires var last := redis.scans[|redis.scans| - 1];
             last.pattern == pattern && forall key | key in keys :: Returns(last.answer, key)
    modifies redis
    ensures redis.Valid() && redis.keys == old(redis.keys) && redis.deletes == old(redis.deletes)
    ensures redis.scans == old(redis.scans) && redis.scanned == old(redis.scanned)
    ensures redis.ttls == old(redis.ttls) + calls
    ensures scanned' == scanned + |calls| <= max
    ensures !ok ==> TtlFailed(redis.ttls, |old(redis.ttls)|)
    ensures ok ==>
              && none == Count(profile, calls, NoExpiration)
              && long == Count(profile, calls, TooLong)
              && FromScans(calls, redis.scans, pattern)
              && (scanned' < max ==> forall key | key in keys :: Asked(calls, key))
  {
    hide HasPage, Returns, TtlOf, Carries, CallViolates;
    ghost var ttls0 := redis.ttls;
    none, long, scanned', calls := 0, 0, scanned, [];
    assert ttls0 + [] == ttls0;
    for i := 0 to |keys|
      invariant redis.Valid() && redis.keys == old(redis.keys) && redis.deletes == old(redis.deletes)
      invariant redis.scans == old(redis.scans) && redis.scanned == old(redis.scanned)
      invariant redis.ttls == ttls0 + calls
      invariant scanned' == scanned + |calls| <= max
      invariant none == Count(profile, calls, NoExpiration) && long == Count(profile, calls, TooLong)
      invariant FromScans(calls, redis.scans, pattern)
      invariant forall k | 0 <= k < i :: Asked(calls, keys[k])
    {
      if scanned' >= max {
        break;
      }
      scanned' := scanned' + 1;
      ghost var calls0 := calls;
      var answer := redis.Ttl(keys[i]);
      ghost var call := TtlCall(keys[i], answer);
      calls := calls + [call];
      assert ttls0 + calls0 + [call] == ttls0 + calls;
      var ttl := TtlOf(answer);
      TtlExactly(answer, if ttl.Some? then ttl.value else 0);
      if ttl.None? {
        return none, long, scanned', false, calls;
      }
      OneCall(profile, calls0, call, redis.scans, pattern, ttl.value);
      if ttl.value == -2 {
        continue;
      }
      if profile.mustExpire && ttl.value == -1 {
        none := none + 1;
        continue;
      }
      if profile.maxTTL > 0 && ttl.value > profile.maxTTL / SECOND {
        long := long + 1;
      }
    }
    ok := true;
  }

  // ---------------------------------------------------------------- lemmas of the loops

  lemma OneCall(profile: Profile, calls: seq<TtlCall>, call: TtlCall, scans: seq<ScanCall>, pattern: Text, ttl: int)
    requires Carries(call.answer, ttl) && FromScans(calls, scans, pattern) && scans != []
    requires var last := scans[|scans| - 1]; last.pattern == pattern && Returns(last.answer, call.key)
    ensures Count(profile, calls + [call], NoExpiration) ==
            Count(profile, calls, NoExpiration) + (if profile.mustExpire && ttl == -1 then 1 else 0)
    ensures Count(profile, calls + [call], TooLong) ==
            Count(profile, calls, TooLong)
            + (if profile.maxTTL > 0 && ttl >= 0 && ttl > profile.maxTTL / SECOND then 1 else 0)
    ensures FromScans(calls + [call], scans, pattern)
    ensures Asked(calls + [call], call.key) && forall key | Asked(calls, key) :: Asked(calls + [call], key)
  {
    hide TtlOf, HasPage, Returns, Carries;
    assert (calls + [call])[..|calls|] == calls && (calls + [call])[|calls|] == call;
    OnlyTtl(call.answer, ttl);
    if profile.maxTTL > 0 {
      WholeSeconds(profile, ttl);
    }
    assert InPage(scans[|scans| - 1], call.key);
    assert Returned(scans, pattern, call.key);
    forall key | Asked(calls, key)
      ensures Asked(calls + [call], key)
    {
      var i :| 0 <= i < |calls| && calls[i].key == key;
      assert (calls + [call])[i].key == key;
    }
  }

  lemma {:induction false} CountAppend(profile: Profile, a: seq<TtlCall>, b: seq<TtlCall>, v: Violation)
    ensures Count(profile, a + b, v) == Count(profile, a, v) + Count(profile, b, v)
  {
    hide CallViolates;
    if b == [] {
      assert a + b == a;
    } else {
      assert (a + b)[..|a + b| - 1] == a + b[..|b| - 1];
      CountAppend(profile, a, b[..|b| - 1], v);
    }
  }

  lemma NothingAsked(profile: Profile, scans: seq<ScanCall>, pattern: Text)
    ensures Count(profile, [], NoExpiration) == Count(profile, [], TooLong) == 0
    ensures FromScans([], scans, pattern) && Underway(scans, |scans|, [], pattern, ZERO_CURSOR)
  {}

  lemma MoreScans(calls: seq<TtlCall>, scans: seq<ScanCall>, scans': seq<ScanCall>, pattern: Text)
    requires FromScans(calls, scans, pattern) && scans <= scans'
    ensures FromScans(calls, scans', pattern)
  {
    hide Carries;
    forall i | 0 <= i < |calls|
      ensures Returned(scans', pattern, calls[i].key)
    {
      var j :| 0 <= j < |scans| && scans[j].pattern == pattern && InPage(scans[j], calls[i].key);
      assert scans'[j] == scans[j];
    }
  }

  lemma FromScansAppend(a: seq<TtlCall>, b: seq<TtlCall>, scans: seq<ScanCall>, pattern: Text)
    requires FromScans(a, scans, pattern) && FromScans(b, scans, pattern)
    ensures FromScans(a + b, scans, pattern)
  {
    hide Carries, Returned;
  }

  /** The iteration begun at `a` has come to `cursor`, and every key it returned so far was asked for. */
  ghost predicate Underway(scans: seq<ScanCall>, a: nat, calls: seq<TtlCall>, pattern: Text, cursor: Text) {
    && a <= |scans|
    && (if a == |scans| then cursor == ZERO_CURSOR else cursor != ZERO_CURSOR && scans[a].cursor == ZERO_CURSOR)
    && (forall j | a <= j < |scans| :: PageAsked(scans[j], calls, pattern, NextCursor(scans, j, cursor)))
    && (forall j | a <= j < |scans| :: NextCursor(scans, j, cursor) != ZERO_CURSOR)
  }

  ghost predicate PageAsked(call: ScanCall, calls: seq<TtlCall>, pattern: Text, next: Text) {
    && call.pattern == pattern && HasPage(call.answer)
    && CursorOf(call.answer) == next
    && forall key | Returns(call.answer, key) :: Asked(calls, key)
  }

  ghost function NextCursor(scans: seq<ScanCall>, j: nat, cursor: Text): Text {
    if j + 1 < |scans| then scans[j + 1].cursor else cursor
  }

  /** Either the sweep goes on, or it is over and complete. */
  ghost predicate Done(scans: seq<ScanCall>, a: nat, calls: seq<TtlCall>, pattern: Text) {
    && a < |scans| && scans[a].cursor == ZERO_CURSOR
    && (forall j | a <= j < |scans| :: PageAsked(scans[j], calls, pattern, NextCursor(scans, j, ZERO_CURSOR)))
    && (forall j | a <= j < |scans| - 1 :: NextCursor(scans, j, ZERO_CURSOR) != ZERO_CURSOR)
  }

  lemma OneMorePage(scans: seq<ScanCall>, scans': seq<ScanCall>, a: nat, calls: seq<TtlCall>, more: seq<TtlCall>,
                    pattern: Text, cursor: Text)
    requires scans' != [] && scans == scans'[..|scans'| - 1]
    requires Underway(scans, a, calls, pattern, scans'[|scans'| - 1].cursor)
    requires PageAsked(scans'[|scans'| - 1], more, pattern, cursor)
    ensures cursor != ZERO_CURSOR ==> Underway(scans', a, calls + more, pattern, cursor)
    ensures cursor == ZERO_CURSOR ==> Done(scans', a, calls + more, pattern)
  {
    hide HasPage, Returns, CursorOf;
    var last := scans'[|scans'| - 1];
    AskedMore(calls, more);
    forall j | a <= j < |scans'|
      ensures PageAsked(scans'[j], calls + more, pattern, NextCursor(scans', j, cursor))
      ensures j < |scans'| - 1 ==> NextCursor(scans', j, cursor) != ZERO_CURSOR
    {
      if j < |scans| {
        assert PageAsked(scans[j], calls, pattern, NextCursor(scans, j, last.cursor));
        assert NextCursor(scans, j, last.cursor) == NextCursor(scans', j, cursor);
      }
    }
  }

  lemma AskedMore(a: seq<TtlCall>, b: seq<TtlCall>)
    ensures forall key | Asked(a, key) || Asked(b, key) :: Asked(a + b, key)
  {
    forall key | Asked(a, key) || Asked(b, key)
      ensures Asked(a + b, key)
    {
      if Asked(a, key) {
        var i :| 0 <= i < |a| && a[i].key == key;
        assert (a + b)[i].key == key;
      } else {
        var i :| 0 <= i < |b| && b[i].key == key;
        assert (a + b)[|a| + i].key == key;
      }
    }
  }

  lemma CompleteMeans(p: PatternAudit, scans: seq<ScanCall>)
    requires Done(scans, p.from, p.calls, p.pattern) && p.to == |scans|
    ensures Complete(p, scans)
  {
    hide HasPage, Returns, CursorOf, Asked;
    forall j | p.from <= j < |scans|
      ensures scans[j].pattern == p.pattern && HasPage(scans[j].answer)
      ensures CursorOf(scans[j].answer) == NextCursor(scans, j, ZERO_CURSOR)
      ensures forall key | InPage(scans[j], key) :: Asked(p.calls, key)
    {
      assert PageAsked(scans[j], p.calls, p.pattern, NextCursor(scans, j, ZERO_CURSOR));
    }
  }

  // ---------------------------------------------------------------- all patterns

  ghost predicate Recorded(ps: seq<PatternAudit>, scans: seq<ScanCall>) {
    forall i | 0 <= i < |ps| :: FromScans(ps[i].calls, scans, ps[i].pattern)
  }

  ghost predicate AllComplete(ps: seq<PatternAudit>, scans: seq<ScanCall>) {
    forall i | 0 <= i < |ps| :: Complete(ps[i], scans)
  }

  /** `auditTTL`: every pattern of every profile in order, under one budget of TTL queries. */
  method AuditTTL(redis: Redis, cfg: Config)
    returns (findings: seq<TtlFinding>, ok: bool, ghost audits: seq<PatternAudit>)
    requires redis.Valid() && redis.scans == [] && redis.ttls == []
    modifies redis
    ensures redis.Valid() && redis.keys == old(redis.keys) && redis.deletes == old(redis.deletes)
    ensures |redis.ttls| <= if cfg.maxKeysScanned > 0 then cfg.maxKeysScanned else 0
    ensures forall j | 0 <= j < |redis.scans| :: redis.scans[j].db == redis.keys
    ensures !ok ==> ScanFailed(redis.scans, 0) || TtlFailed(redis.ttls, 0)
    ensures ok ==>
              && Audited(audits) == AllPatterns(cfg.profiles)
              && AllCalls(audits) == redis.ttls
              && findings == AllFindings(audits)
              && Recorded(audits, redis.scans)
              && (|redis.ttls| < cfg.maxKeysScanned ==> AllComplete(audits, redis.scans))
  {
    hide Complete, FromScans, Count, AllFindings, AllCalls, AllPatterns, FindingsOf, Audited;
    findings, ok, audits := [], true, [];
    var scanned: nat := 0;
    var max := cfg.maxKeysScanned;
    NoAudits();
    for i := 0 to |cfg.profiles|
      invariant redis.Valid() && redis.keys == old(redis.keys) && redis.deletes == old(redis.deletes)
      invariant scanned == |redis.ttls| <= if max > 0 then max else 0
      invariant forall j | 0 <= j < |redis.scans| :: redis.scans[j].db == redis.keys
      invariant Audited(audits) == AllPatterns(cfg.profiles[..i])
      invariant AllCalls(audits) == redis.ttls && findings == AllFindings(audits)
      invariant Recorded(audits, redis.scans)
      invariant scanned < max ==> AllComplete(audits, redis.scans)
    {
      var profile := cfg.profiles[i];
      NextProfile(cfg.profiles, i);
      for j := 0 to |profile.patterns|
        invariant redis.Valid() && redis.keys == old(redis.keys) && redis.deletes == old(redis.deletes)
        invariant scanned == |redis.ttls| <= if max > 0 then max else 0
        invariant forall j | 0 <= j < |redis.scans| :: redis.scans[j].db == redis.keys
        invariant Audited(audits) == AllPatterns(cfg.profiles[..i]) + PatternsOf(profile)[..j]
        invariant AllCalls(audits) == redis.ttls && findings == AllFindings(audits)
        invariant Recorded(audits, redis.scans)
        invariant scanned < max ==> AllComplete(audits, redis.scans)
      {
        ghost var audits0, scans0 := audits, redis.scans;
        ghost var record;
        var none, long, ok1;
        none, long, scanned, ok1, record := AuditPattern(redis, profile, profile.patterns[j], scanned, max);
        if !ok1 {
          return findings, false, audits;
        }
        if none > 0 {
          findings := findings + [TtlFinding(NoExpiration, none, profile.patterns[j])];
        }
        if long > 0 {
          findings := findings + [TtlFinding(TooLong, long, profile.patterns[j])];
        }
        audits := audits + [record];
        OneAudit(audits0, record, AllFindings(audits0));
        MoreAudits(audits0, record, scans0, redis.scans);
        assert PatternsOf(profile)[..j + 1] == PatternsOf(profile)[..j] + [(profile, profile.patterns[j])];
      }
      assert PatternsOf(profile)[..|profile.patterns|] == PatternsOf(profile);
    }
    assert cfg.profiles[..|cfg.profiles|] == cfg.profiles;
  }

  lemma NoAudits()
    ensures Audited([]) == [] && AllCalls([]) == [] && AllFindings([]) == [] && AllPatterns([]) == []
  {}

  lemma NextProfile(profiles: seq<Profile>, i: nat)
    requires i < |profiles|
    ensures AllPatterns(profiles[..i + 1]) == AllPatterns(profiles[..i]) + PatternsOf(profiles[i])
    ensures AllPatterns(profiles[..i]) + PatternsOf(profiles[i])[..0] == AllPatterns(profiles[..i])
  {
    assert profiles[..i + 1][..i] == profiles[..i];
  }

  lemma OneAudit(ps: seq<PatternAudit>, p: PatternAudit, findings: seq<TtlFinding>)
    ensures Audited(ps + [p]) == Audited(ps) + [(p.profile, p.pattern)]
    ensures AllCalls(ps + [p]) == AllCalls(ps) + p.calls
    ensures AllFindings(ps + [p]) == AllFindings(ps) + FindingsOf(p)
    ensures var none, long := Count(p.profile, p.calls, NoExpiration), Count(p.profile, p.calls, TooLong);
            findings + FindingsOf(p) ==
            (var fs := if none > 0 then findings + [TtlFinding(NoExpiration, none, p.pattern)] else findings;
             if long > 0 then fs + [TtlFinding(TooLong, long, p.pattern)] else fs)
  {
    hide Count;
    assert (ps + [p])[..|ps|] == ps;
  }

  lemma MoreAudits(ps: seq<PatternAudit>, p: PatternAudit, scans: seq<ScanCall>, scans': seq<ScanCall>)
    requires scans <= scans' && Recorded(ps, scans) && FromScans(p.calls, scans', p.pattern)
    ensures Recorded(ps + [p], scans')
    ensures AllComplete(ps, scans) && Complete(p, scans') ==> AllComplete(ps + [p], scans')
  {
    hide FromScans, Complete;
    forall i | 0 <= i < |ps|
      ensures FromScans(ps[i].calls, scans', ps[i].pattern)
      ensures Complete(ps[i], scans) ==> Complete(ps[i], scans')
    {
      MoreScans(ps[i].calls, scans, scans', ps[i].pattern);
      if Complete(ps[i], scans) {
        StillComplete(ps[i], scans, scans');
      }
    }
  }

  lemma StillComplete(p: PatternAudit, scans: seq<ScanCall>, scans': seq<ScanCall>)
    requires scans <= scans' && Complete(p, scans)
    ensures Complete(p, scans')
  {
    hide HasPage, Returns, CursorOf, Asked;
    assert forall j | 0 <= j < |scans| :: scans'[j] == scans[j];
  }

  // ---------------------------------------------------------------- main result

  /** The server tells the truth about TTLs, and the TTLs do not change during the audit. */
  ghost predicate Truthful(calls: seq<TtlCall>, db: set<Text>, ttl: Text -> int) {
    forall call | call in calls :: Carries(call.answer, if call.key in db then ttl(call.key) else -2)
  }

  /** When the budget was not used up, a pattern has a finding of a kind if and only if some key of the
      database that matches the pattern violates its profile that way. */
  lemma AuditIsExact(p: PatternAudit, scans: seq<ScanCall>, db: set<Text>, ttl: Text -> int, rule: ClassRule,
                     v: Violation)
    requires Complete(p, scans) && FromScans(p.calls, scans, p.pattern)
    requires FullIteration(scans, rule) && OnlyMatches(scans, rule)
    requires forall j | 0 <= j < |scans| :: scans[j].db == db
    requires Truthful(p.calls, db, ttl)
    ensures Count(p.profile, p.calls, v) > 0 <==>
            exists key :: key in db && Matches(p.pattern, key, rule) && Violates(p.profile, ttl(key), v)
    ensures (exists f :: f in FindingsOf(p) && f.violation == v) <==> Count(p.profile, p.calls, v) > 0
  {
    hide Count, Matches, HasPage, Returns, CursorOf, Carries;
    CountPositive(p.profile, p.calls, v);
    if call :| call in p.calls && CallViolates(p.profile, call, v) {
      var i :| 0 <= i < |p.calls| && p.calls[i] == call;
      assert Returned(scans, p.pattern, call.key);
      var j :| 0 <= j < |scans| && scans[j].pattern == p.pattern && InPage(scans[j], call.key);
      assert Matches(p.pattern, call.key, rule);
      OnlyTtl(call.answer, if call.key in db then ttl(call.key) else -2);
      assert Violates(p.profile, if call.key in db then ttl(call.key) else -2, v);
    }
    if key :| key in db && Matches(p.pattern, key, rule) && Violates(p.profile, ttl(key), v) {
      assert key in scans[p.to - 1].db;
      assert InPages(scans, p.from, p.to, key);
      assert Asked(p.calls, key);
      var i :| 0 <= i < |p.calls| && p.calls[i].key == key;
      assert CallViolates(p.profile, p.calls[i], v);
    }
    KindsOfFindings(p, v);
  }

  lemma KindsOfFindings(p: PatternAudit, v: Violation)
    ensures (exists f :: f in FindingsOf(p) && f.violation == v) <==> Count(p.profile, p.calls, v) > 0
  {
    hide Count;
    var n := Count(p.profile, p.calls, v);
    if n > 0 {
      assert TtlFinding(v, n, p.pattern) in FindingsOf(p);
    }
  }

  ghost predicate Reported(findings: seq<TtlFinding>, pattern: Text, v: Violation) {
    exists f :: f in findings && f.pattern == pattern && f.violation == v
  }

  /** Some key of the database that matches the pattern violates a profile with that pattern. */
  ghost predicate Violated(profiles: seq<Profile>, pattern: Text, v: Violation, db: set<Text>, ttl: Text -> int,
                           rule: ClassRule)
  {
    exists profile, key ::
      (profile, pattern) in AllPatterns(profiles) && key in db && Matches(pattern, key, rule)
      && Violates(profile, ttl(key), v)
  }

  lemma {:induction false} FindingsIn(ps: seq<PatternAudit>, f: TtlFinding)
    ensures f in AllFindings(ps) <==> exists i :: 0 <= i < |ps| && f in FindingsOf(ps[i])
  {
    hide FindingsOf;
    if ps == [] {
    } else {
      var n := |ps| - 1;
      FindingsIn(ps[..n], f);
      if i :| 0 <= i < n && f in FindingsOf(ps[..n][i]) {
        assert f in FindingsOf(ps[i]);
      }
      if i :| 0 <= i < |ps| && f in FindingsOf(ps[i]) && i < n {
        assert f in FindingsOf(ps[..n][i]);
      }
    }
  }

  lemma {:induction false} CallsIn(ps: seq<PatternAudit>, i: nat)
    requires i < |ps|
    ensures forall call | call in ps[i].calls :: call in AllCalls(ps)
  {
    if i < |ps| - 1 {
      CallsIn(ps[..|ps| - 1], i);
    }
  }

  /** One audited pattern, as part of the whole audit. */
  lemma OneExact(audits: seq<PatternAudit>, i: nat, scans: seq<ScanCall>, db: set<Text>, ttl: Text -> int,
                 rule: ClassRule, v: Violation)
    requires i < |audits| && AllComplete(audits, scans) && Recorded(audits, scans)
    requires FullIteration(scans, rule) && OnlyMatches(scans, rule)
    requires forall j | 0 <= j < |scans| :: scans[j].db == db
    requires Truthful(AllCalls(audits), db, ttl)
    ensures (exists f :: f in FindingsOf(audits[i]) && f.violation == v) <==>
            exists key :: key in db && Matches(audits[i].pattern, key, rule)
                          && Violates(audits[i].profile, ttl(key), v)
  {
    hide Complete, FromScans, FullIteration, OnlyMatches, Matches, FindingsOf, Count, Carries;
    CallsIn(audits, i);
    AuditIsExact(audits[i], scans, db, ttl, rule, v);
  }

  lemma FindingsNamePattern(p: PatternAudit)
    ensures forall f | f in FindingsOf(p) :: f.pattern == p.pattern
  {
    hide Count;
  }

  /** The TTL audit.  With budget left, SCAN's guarantees and truthful replies, a pattern is reported for a
      violation if and only if some key of the database that it matches violates its profile that way. */
  method AuditExactly(redis: Redis, cfg: Config, ghost ttl: Text -> int, ghost rule: ClassRule)
    returns (findings: seq<TtlFinding>, ok: bool)
    requires redis.Valid() && redis.scans == [] && redis.ttls == []
    modifies redis
    ensures redis.keys == old(redis.keys) && redis.deletes == old(redis.deletes)
    ensures |redis.ttls| <= if cfg.maxKeysScanned > 0 then cfg.maxKeysScanned else 0
    ensures !ok ==> ScanFailed(redis.scans, 0) || TtlFailed(redis.ttls, 0)
    ensures ok && |redis.ttls| < cfg.maxKeysScanned && FullIteration(redis.scans, rule)
            && OnlyMatches(redis.scans, rule) && Truthful(redis.ttls, redis.keys, ttl) ==>
              forall pattern, v ::
                Reported(findings, pattern, v) <==> Violated(cfg.profiles, pattern, v, redis.keys, ttl, rule)
  {
    hide FullIteration, OnlyMatches, Truthful, AllComplete, Recorded, AllFindings, AllCalls, AllPatterns, Audited,
         Reported, Violated;
    ghost var audits;
    findings, ok, audits := AuditTTL(redis, cfg);
    if ok && |redis.ttls| < cfg.maxKeysScanned && FullIteration(redis.scans, rule)
       && OnlyMatches(redis.scans, rule) && Truthful(redis.ttls, redis.keys, ttl) {
      forall pattern, v
        ensures Reported(findings, pattern, v) <==> Violated(cfg.profiles, pattern, v, redis.keys, ttl, rule)
      {
        ReportedExactly(audits, cfg.profiles, redis.scans, redis.keys, ttl, rule, pattern, v);
      }
    }
  }

  lemma ReportedExactly(audits: seq<PatternAudit>, profiles: seq<Profile>, scans: seq<ScanCall>, db: set<Text>,
                        ttl: Text -> int, rule: ClassRule, pattern: Text, v: Violation)
    requires Audited(audits) == AllPatterns(profiles)
    requires AllComplete(audits, scans) && Recorded(audits, scans)
    requires FullIteration(scans, rule) && OnlyMatches(scans, rule)
    requires forall j | 0 <= j < |scans| :: scans[j].db == db
    requires Truthful(AllCalls(audits), db, ttl)
    ensures Reported(AllFindings(audits), pattern, v) <==> Violated(profiles, pattern, v, db, ttl, rule)
  {
    hide AllComplete, Recorded, FullIteration, OnlyMatches, Truthful, Matches, FindingsOf, AllFindings, AllCalls,
         AllPatterns, Violates;
    if Reported(AllFindings(audits), pattern, v) {
      var f :| f in AllFindings(audits) && f.pattern == pattern && f.violation == v;
      FindingsIn(audits, f);
      var i :| 0 <= i < |audits| && f in FindingsOf(audits[i]);
      FindingsNamePattern(audits[i]);
      OneExact(audits, i, scans, db, ttl, rule, v);
      assert Audited(audits)[i] == (audits[i].profile, pattern);
      assert (audits[i].profile, pattern) in AllPatterns(profiles);
    }
    if Violated(profiles, pattern, v, db, ttl, rule) {
      var profile, key :| (profile, pattern) in AllPatterns(profiles) && key in db && Matches(pattern, key, rule)
                          && Violates(profile, ttl(key), v);
      var i :| 0 <= i < |audits| && Audited(audits)[i] == (profile, pattern);
      OneExact(audits, i, scans, db, ttl, rule, v);
      var f :| f in FindingsOf(audits[i]) && f.violation == v;
      FindingsNamePattern(audits[i]);
      FindingsIn(audits, f);
    }
  }

  // ---------------------------------------------------------------- the report of the audit

  datatype Level = PASS | WARN | FAIL

  datatype Finding =
    | Contract(command: Text) | ValueSize(count: nat) | Ttl(finding: TtlFinding) | NothingFound | NoTraffic
  {
    function Level(): Level {
      match this
      case Contract(_) => FAIL
      case NoTraffic => FAIL
      case ValueSize(_) => WARN
      case Ttl(_) => WARN
      case NothingFound => PASS
    }
  }

  /** The configured commands are compared in upper case, as observed names are. */
  ghost predicate IsSuspicious(command: Text, suspicious: seq<Text>) {
    exists k :: 0 <= k < |suspicious| && Upper(suspicious[k]) == command
  }

  ghost function Contracts(observed: seq<Text>, suspicious: seq<Text>): seq<Finding> {
    if observed == [] then []
    else
      var last := observed[|observed| - 1];
      Contracts(observed[..|observed| - 1], suspicious)
      + if IsSuspicious(last, suspicious) then [Contract(last)] else []
  }

  function TtlReports(ttls: seq<TtlFinding>): seq<Finding> {
    seq(|ttls|, i requires 0 <= i < |ttls| => Ttl(ttls[i]))
  }

  /** Everything there is to report, in order: contract violations, big values, TTL violations. */
  ghost function Violations(observed: seq<Text>, suspicious: seq<Text>, disposable: bool, bigValues: nat,
                            ttls: seq<TtlFinding>): seq<Finding> {
    (if disposable then Contracts(observed, suspicious) else [])
    + (if bigValues > 0 then [ValueSize(bigValues)] else [])
    + TtlReports(ttls)
  }

  /** The set of suspicious commands. */
  method UpperCommands(commands: seq<Text>) returns (upper: set<Text>)
    ensures forall c :: c in upper <==> IsSuspicious(c, commands)
  {
    hide Upper;
    upper := {};
    for i := 0 to |commands|
      invariant forall c :: c in upper <==> IsSuspicious(c, commands[..i])
    {
      MoreSuspicious(commands, i);
      upper := upper + {Upper(commands[i])};
    }
    assert commands[..|commands|] == commands;
  }

  lemma MoreSuspicious(commands: seq<Text>, i: nat)
    requires i < |commands|
    ensures forall c ::
              IsSuspicious(c, commands[..i + 1]) <==> IsSuspicious(c, commands[..i]) || c == Upper(commands[i])
  {
    hide Upper;
    forall c | IsSuspicious(c, commands[..i]) || c == Upper(commands[i])
      ensures IsSuspicious(c, commands[..i + 1])
    {
      if c == Upper(commands[i]) {
        assert commands[..i + 1][i] == commands[i];
      } else {
        var k :| 0 <= k < i && Upper(commands[..i][k]) == c;
        assert commands[..i + 1][k] == commands[..i][k];
      }
    }
    forall c | IsSuspicious(c, commands[..i + 1]) && c != Upper(commands[i])
      ensures IsSuspicious(c, commands[..i])
    {
      var k :| 0 <= k < i + 1 && Upper(commands[..i + 1][k]) == c;
      assert commands[..i][k] == commands[..i + 1][k];
    }
  }

  /** `Audit`.  `observed` is the recorder's commands, sorted. */
  method AuditAll(redis: Redis, cfg: Config, suspicious: seq<Text>, observed: seq<Text>, bigValues: nat)
    returns (findings: seq<Finding>, ok: bool, ghost audits: seq<PatternAudit>)
    requires redis.Valid() && redis.scans == [] && redis.ttls == []
    modifies redis
    ensures redis.keys == old(redis.keys) && redis.deletes == old(redis.deletes)
    ensures |redis.ttls| <= if cfg.maxKeysScanned > 0 then cfg.maxKeysScanned else 0
    ensures !ok ==> findings == [] && (ScanFailed(redis.scans, 0) || TtlFailed(redis.ttls, 0))
    ensures ok ==>
              var all := Violations(observed, suspicious, HasDisposable(cfg.profiles), bigValues, AllFindings(audits));
              findings == if all == [] then [NothingFound] else all
    ensures ok ==>
              && Audited(audits) == AllPatterns(cfg.profiles)
              && AllCalls(audits) == redis.ttls
              && Recorded(audits, redis.scans)
              && (|redis.ttls| < cfg.maxKeysScanned ==> AllComplete(audits, redis.scans))
              && forall j | 0 <= j < |redis.scans| :: redis.scans[j].db == redis.keys
  {
    hide AllFindings, AllPatterns, AllCalls, Recorded, AllComplete, Audited, IsSuspicious;
    findings := [];
    if HasDisposable(cfg.profiles) {
      var upper := UpperCommands(suspicious);
      for i := 0 to |observed|
        invariant findings == Contracts(observed[..i], suspicious)
      {
        assert observed[..i + 1][..i] == observed[..i];
        if observed[i] in upper {
          findings := findings + [Contract(observed[i])];
        }
      }
      assert observed[..|observed|] == observed;
    }
    if bigValues > 0 {
      findings := findings + [ValueSize(bigValues)];
    }
    var ttls;
    ttls, ok, audits := AuditTTL(redis, cfg);
    if !ok {
      return [], false, audits;
    }
    findings := findings + TtlReports(ttls);
    if findings == [] {
      findings := [NothingFound];
    }
  }

  lemma {:induction false} ContractsExactly(observed: seq<Text>, suspicious: seq<Text>)
    ensures forall c :: Contract(c) in Contracts(observed, suspicious) <==> c in observed && IsSuspicious(c, suspicious)
    ensures forall f | f in Contracts(observed, suspicious) :: f.Contract?
  {
    hide IsSuspicious;
    if observed == [] {
    } else {
      var n := |observed| - 1;
      ContractsExactly(observed[..n], suspicious);
      assert observed == observed[..n] + [observed[n]];
    }
  }

  /** What is reported: an observed command that is suspicious although a profile is disposable, values over
      the limit, and the TTL findings; nothing else, and it is a failure exactly in the first case. */
  lemma ViolationsExactly(observed: seq<Text>, suspicious: seq<Text>, disposable: bool, bigValues: nat,
                          ttls: seq<TtlFinding>)
    ensures var all := Violations(observed, suspicious, disposable, bigValues, ttls);
            && (forall c :: Contract(c) in all <==> disposable && c in observed && IsSuspicious(c, suspicious))
            && (forall n :: ValueSize(n) in all <==> n == bigValues && n > 0)
            && (forall f :: Ttl(f) in all <==> f in ttls)
            && NothingFound !in all && NoTraffic !in all
            && (forall f | f in all :: f.Level() == if f.Contract? then FAIL else WARN)
            && NothingFound.Level() == PASS
            && ((exists f :: f in all && f.Level() == FAIL) <==>
                disposable && exists c :: c in observed && IsSuspicious(c, suspicious))
  {
    hide IsSuspicious, Contracts;
    var all := Violations(observed, suspicious, disposable, bigValues, ttls);
    ContractsExactly(observed, suspicious);
    forall f | f in ttls
      ensures Ttl(f) in TtlReports(ttls)
    {
      var i :| 0 <= i < |ttls| && ttls[i] == f;
      assert TtlReports(ttls)[i] == Ttl(f);
    }
    if disposable {
      forall c | c in observed && IsSuspicious(c, suspicious)
        ensures Contract(c) in all && Contract(c).Level() == FAIL
      {}
    }
  }
}
