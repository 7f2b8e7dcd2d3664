/** Deleting the cache: `internal/policy/cold_cache.go`. */
module ColdCache {
  import opened Bytes
  import opened Globs
  import opened Config
  import opened Values
  import opened Client
  import opened Scanning

  datatype ColdError = DeletesNotAllowed | NotLoopback | UnsafePattern(pattern: Text) | RedisFailed(pattern: Text)

  /** The successful delete commands. */
  function Successes(deletes: seq<DeleteCall>): nat {
    if deletes == [] then 0
    else Successes(deletes[..|deletes| - 1]) + if deletes[|deletes| - 1].Done() then 1 else 0
  }

  /** Every delete command is for a key that a SCAN for `pattern` had returned before. */
  ghost predicate FromPages(deletes: seq<DeleteCall>, scans: seq<ScanCall>, pattern: Text) {
    forall d | d in deletes :: exists j | 0 <= j < |scans| :: scans[j].pattern == pattern && InPage(scans[j], d.key)
  }

  /** No UNLINK follows a DEL. */
  ghost predicate UnlinksFirst(calls: seq<DeleteCall>) {
    forall i, j | 0 <= i < j < |calls| && calls[i].command.Del? :: calls[j].command.Del?
  }

  /** The same, and there was a DEL only if the fallback is on. */
  ghost predicate Fallback(calls: seq<DeleteCall>, useDel: bool) {
    UnlinksFirst(calls) && (!useDel ==> OnlyUnlink(calls))
  }

  ghost predicate OnlyUnlink(calls: seq<DeleteCall>) {
    forall i | 0 <= i < |calls| :: calls[i].command.Unlink?
  }

  ghost predicate OnlyDel(calls: seq<DeleteCall>) {
    forall i | 0 <= i < |calls| :: calls[i].command.Del?
  }

  lemma MoreCalls(a: seq<DeleteCall>, b: seq<DeleteCall>, useDel: bool, useDel': bool)
    requires Fallback(a, useDel) && Fallback(b, useDel') && (useDel ==> useDel' && OnlyDel(b))
    ensures Fallback(a + b, useDel')
    ensures OnlyDel(a) && OnlyDel(b) ==> OnlyDel(a + b)
  {}

  /** `pattern` was iterated to the end and none of the keys it returned is left. */
  ghost predicate Swept(scans: seq<ScanCall>, keys: set<Text>, pattern: Text) {
    exists a, b :: SweptIn(scans, a, b, keys, pattern)
  }

  ghost predicate SweptIn(scans: seq<ScanCall>, a: nat, b: nat, keys: set<Text>, pattern: Text) {
    && Iteration(scans, a, b, pattern)
    && keys <= scans[b - 1].db
    && forall key | InPages(scans, a, b, key) :: key !in keys
  }

  // ---------------------------------------------------------------- one pattern

  /** Deletes at most `remaining` keys that SCAN returns for `pattern`. */
  method DeletePattern(redis: Redis, pattern: Text, remaining: int) returns (deleted: nat, ok: bool)
    requires redis.Valid()
    modifies redis
    ensures redis.Valid() && redis.keys <= old(redis.keys)
    ensures old(redis.scans) <= redis.scans && old(redis.deletes) <= redis.deletes
    ensures forall j | |old(redis.scans)| <= j < |redis.scans| :: redis.scans[j].pattern == pattern
    ensures deleted == Successes(redis.deletes) - Successes(old(redis.deletes))
    ensures deleted <= if remaining > 0 then remaining else 0
    ensures FromPages(redis.deletes[|old(redis.deletes)|..], redis.scans, pattern)
    ensures UnlinksFirst(redis.deletes[|old(redis.deletes)|..])
    ensures !ok ==> ScanFailed(redis.scans, |old(redis.scans)|) || DeleteFailed(redis.deletes, |old(redis.deletes)|)
    ensures !ok ==> |redis.scans| > |old(redis.scans)|
    ensures ok && deleted < remaining ==>
              SweptIn(redis.scans, |old(redis.scans)|, |redis.scans|, redis.keys, pattern)
  {
    hide Sweeping, FromPages, SweptIn, Successes, PageOf, HasPage, Returns, CursorOf, UnlinksFirst, OnlyUnlink,
         OnlyDel;
    ghost var scans0, deletes0 := redis.scans, redis.deletes;
    deleted := 0;
    NothingSwept(scans0, deletes0, redis.keys, pattern);
    var left := remaining;
    var cursor := ZERO_CURSOR;
    var useDel := false;
    while left > 0
      invariant redis.Valid() && redis.keys <= old(redis.keys)
      invariant scans0 <= redis.scans && deletes0 <= redis.deletes
      invariant deleted + left == remaining && (left >= 0 || deleted == 0)
      invariant deleted == Successes(redis.deletes) - Successes(deletes0)
      invariant FromPages(redis.deletes[|deletes0|..], redis.scans, pattern)
      invariant Fallback(redis.deletes[|deletes0|..], useDel)
      invariant left > 0 ==> Sweeping(redis.scans, |scans0|, redis.keys, pattern, cursor)
      invariant forall j | |scans0| <= j < |redis.scans| :: redis.scans[j].pattern == pattern
      decreases |redis.scanReplies| - redis.scanned
    {
      ghost var scans1, deletes1, keys1 := redis.scans, redis.deletes, redis.keys;
      var answer := redis.Scan(cursor, pattern);
      var page := PageOf(answer);
      PageExactly(answer);
      MoreScans(redis.deletes[|deletes0|..], scans1, redis.scans, pattern);
      if page.None? {
        return deleted, false;
      }
      cursor := page.value.cursor;
      ghost var left1 := left;
      var count, more, ok1 := DeleteKeys(redis, page.value.keys, left, useDel, pattern);
      MoreCalls(deletes1[|deletes0|..], redis.deletes[|deletes1|..], useDel, more);
      assert deletes1[|deletes0|..] + redis.deletes[|deletes1|..] == redis.deletes[|deletes0|..];
      useDel := more;
      FromMorePages(deletes0, deletes1, redis.deletes, redis.scans, page.value.keys, pattern);
      deleted := deleted + count;
      left := left - count;
      if !ok1 {
        return deleted, false;
      }
      if left > 0 {
        FewerKeys(scans1, |scans0|, keys1, redis.keys, pattern, redis.scans[|scans1|].cursor);
        OnePage(scans1, redis.scans, |scans0|, redis.keys, pattern, cursor);
      }
      if cursor == ZERO_CURSOR {
        return deleted, true;
      }
    }
    return deleted, true;
  }

  /** The inner loop over the keys of one page, with the fallback from UNLINK to DEL. */
  method DeleteKeys(redis: Redis, keys: seq<Text>, remaining: nat, useDel: bool, ghost pattern: Text)
    returns (deleted: nat, useDel': bool, ok: bool)
    requires redis.Valid()
    modifies redis
    ensures redis.Valid() && redis.keys <= old(redis.keys) && redis.scans == old(redis.scans)
    ensures redis.scanned == old(redis.scanned)
    ensures old(redis.deletes) <= redis.deletes
    ensures forall d | d in redis.deletes[|old(redis.deletes)|..] :: d.key in keys
    ensures deleted == Successes(redis.deletes) - Successes(old(redis.deletes)) && deleted <= remaining
    ensures ok && deleted < remaining ==> forall key | key in keys :: key !in redis.keys
    ensures !ok ==> DeleteFailed(redis.deletes, |old(redis.deletes)|)
    ensures var calls := redis.deletes[|old(redis.deletes)|..];
            Fallback(calls, useDel') && (useDel ==> useDel' && OnlyDel(calls))
  {
    hide Successes, UnlinksFirst, OnlyUnlink, OnlyDel, IsUnknownCommand;
    ghost var deletes0 := redis.deletes;
    NoCalls(useDel);
    deleted, useDel' := 0, useDel;
    assert redis.deletes == deletes0 + [];
    for i := 0 to |keys|
      invariant redis.Valid() && redis.keys <= old(redis.keys) && redis.scans == old(redis.scans)
      invariant redis.scanned == old(redis.scanned)
      invariant deletes0 <= redis.deletes && deleted <= remaining
      invariant forall d | d in redis.deletes[|deletes0|..] :: d.key in keys
      invariant deleted == Successes(redis.deletes) - Successes(deletes0)
      invariant forall k | 0 <= k < i :: keys[k] !in redis.keys
      invariant Fallback(redis.deletes[|deletes0|..], useDel')
      invariant useDel ==> useDel' && OnlyDel(redis.deletes[|deletes0|..])
    {
      ghost var deletes1, before := redis.deletes, useDel';
      if deleted >= remaining {
        break;
      }
      ok, useDel' := DeleteKey(redis, keys[i], useDel');
      OneKey(redis.deletes[|deletes1|..], before, useDel');
      MoreCalls(deletes1[|deletes0|..], redis.deletes[|deletes1|..], before, useDel');
      assert deletes1[|deletes0|..] + redis.deletes[|deletes1|..] == redis.deletes[|deletes0|..];
      if !ok {
        return deleted, useDel', false;
      }
      deleted := deleted + 1;
    }
    ok := true;
  }

  lemma NoCalls(useDel: bool)
    ensures Fallback([], useDel) && OnlyDel([])
  {}

  lemma OneKey(calls: seq<DeleteCall>, useDel: bool, useDel': bool)
    requires 1 <= |calls| <= 2 && calls[0].command == (if useDel then Del else Unlink)
    requires |calls| == 2 ==> calls[1].command == Del && !useDel
    requires useDel' == (useDel || |calls| == 2)
    ensures Fallback(calls, useDel') && (useDel ==> OnlyDel(calls))
  {}

  /** One key: a refused UNLINK that the server does not know is retried as DEL. */
  method DeleteKey(redis: Redis, key: Text, useDel: bool) returns (ok: bool, useDel': bool)
    requires redis.Valid()
    modifies redis
    ensures redis.Valid() && redis.keys <= old(redis.keys) && redis.scans == old(redis.scans)
    ensures redis.scanned == old(redis.scanned)
    ensures old(redis.deletes) <= redis.deletes
    ensures forall d | d in redis.deletes[|old(redis.deletes)|..] :: d.key == key
    ensures Successes(redis.deletes) == Successes(old(redis.deletes)) + if ok then 1 else 0
    ensures ok ==> key !in redis.keys
    // which commands were sent: once the fallback was needed, UNLINK is not tried again
    ensures var calls := redis.deletes[|old(redis.deletes)|..];
            && 1 <= |calls| <= 2
            && calls[0].command == (if useDel then Del else Unlink)
            && (|calls| == 2 <==> !useDel && IsUnknownCommand(calls[0].answer))
            && (|calls| == 2 ==> calls[1].command == Del)
            && useDel' == (useDel || |calls| == 2)
            && ok == calls[|calls| - 1].Done()
  {
    useDel' := useDel;
    var answer := redis.Delete(if useDel then Del else Unlink, key);
    if answer.Value? {
      return true, useDel';
    }
    if useDel || !IsUnknownCommand(answer) {
      return false, useDel';
    }
    answer := redis.Delete(Del, key);
    return answer.Value?, true;
  }

  // ---------------------------------------------------------------- lemmas of the loops

  /** The iteration begun at `a` has come to `cursor`, and nothing it returned so far is left. */
  ghost predicate Sweeping(scans: seq<ScanCall>, a: nat, keys: set<Text>, pattern: Text, cursor: Text) {
    && a <= |scans|
    && (a == |scans| ==> cursor == ZERO_CURSOR)
    && (a < |scans| ==> cursor != ZERO_CURSOR && scans[a].cursor == ZERO_CURSOR)
    && (forall j | a <= j < |scans| :: PageGone(scans[j], keys, pattern, NextCursor(scans, j, cursor)))
    && (forall j | a <= j < |scans| :: NextCursor(scans, j, cursor) != ZERO_CURSOR)
  }

  ghost predicate PageGone(call: ScanCall, keys: set<Text>, pattern: Text, next: Text) {
    && call.pattern == pattern && HasPage(call.answer) && keys <= call.db
    && CursorOf(call.answer) == next
    && forall key | Returns(call.answer, key) :: key !in keys
  }

  ghost function NextCursor(scans: seq<ScanCall>, j: nat, cursor: Text): Text {
    if j + 1 < |scans| then scans[j + 1].cursor else cursor
  }

  lemma NothingSwept(scans: seq<ScanCall>, deletes: seq<DeleteCall>, keys: set<Text>, pattern: Text)
    ensures Sweeping(scans, |scans|, keys, pattern, ZERO_CURSOR)
    ensures FromPages(deletes[|deletes|..], scans, pattern)
    ensures Fallback(deletes[|deletes|..], false)
  {}

  lemma FewerKeys(scans: seq<ScanCall>, a: nat, keys: set<Text>, keys': set<Text>, pattern: Text, cursor: Text)
    requires Sweeping(scans, a, keys, pattern, cursor) && keys' <= keys
    ensures Sweeping(scans, a, keys', pattern, cursor)
  {}

  /** One more page, all of whose keys were deleted, carries the sweep on or ends it. */
  lemma OnePage(scans: seq<ScanCall>, scans': seq<ScanCall>, a: nat, keys: set<Text>, pattern: Text, cursor: Text)
    requires scans' != [] && scans == scans'[..|scans'| - 1]
    requires Sweeping(scans, a, keys, pattern, scans'[|scans'| - 1].cursor)
    requires PageGone(scans'[|scans'| - 1], keys, pattern, cursor)
    ensures cursor != ZERO_CURSOR ==> Sweeping(scans', a, keys, pattern, cursor)
    ensures cursor == ZERO_CURSOR ==> SweptIn(scans', a, |scans'|, keys, pattern)
  {
    var last := scans'[|scans'| - 1];
    forall j | a <= j < |scans'|
      ensures PageGone(scans'[j], keys, pattern, NextCursor(scans', j, cursor))
      ensures j < |scans'| - 1 ==> NextCursor(scans', j, cursor) != ZERO_CURSOR
    {
      if j < |scans| {
        assert PageGone(scans[j], keys, pattern, NextCursor(scans, j, last.cursor));
        assert NextCursor(scans, j, last.cursor) == NextCursor(scans', j, cursor);
      }
    }
    if cursor == ZERO_CURSOR {
      PagesGone(scans', a, keys, pattern, cursor);
    }
  }

  lemma PagesGone(scans: seq<ScanCall>, a: nat, keys: set<Text>, pattern: Text, cursor: Text)
    requires a < |scans| && cursor == ZERO_CURSOR && scans[a].cursor == ZERO_CURSOR
    requires forall j | a <= j < |scans| :: PageGone(scans[j], keys, pattern, NextCursor(scans, j, cursor))
    requires forall j | a <= j < |scans| - 1 :: NextCursor(scans, j, cursor) != ZERO_CURSOR
    ensures SweptIn(scans, a, |scans|, keys, pattern)
  {
    forall j | a <= j < |scans| - 1
      ensures HasPage(scans[j].answer)
      ensures CursorOf(scans[j].answer) == scans[j + 1].cursor && CursorOf(scans[j].answer) != ZERO_CURSOR
    {
      assert PageGone(scans[j], keys, pattern, NextCursor(scans, j, cursor));
    }
    assert PageGone(scans[|scans| - 1], keys, pattern, NextCursor(scans, |scans| - 1, cursor));
    forall key | InPages(scans, a, |scans|, key)
      ensures key !in keys
    {
      var j :| a <= j < |scans| && InPage(scans[j], key);
      assert PageGone(scans[j], keys, pattern, NextCursor(scans, j, cursor));
    }
  }

  lemma MoreScans(deletes: seq<DeleteCall>, scans: seq<ScanCall>, scans': seq<ScanCall>, pattern: Text)
    requires FromPages(deletes, scans, pattern) && scans <= scans'
    ensures FromPages(deletes, scans', pattern)
  {
    forall d | d in deletes
      ensures exists j | 0 <= j < |scans'| :: scans'[j].pattern == pattern && InPage(scans'[j], d.key)
    {
      var j :| 0 <= j < |scans| && scans[j].pattern == pattern && InPage(scans[j], d.key);
      assert scans'[j] == scans[j];
    }
  }

  lemma FromMorePages(deletes0: seq<DeleteCall>, deletes1: seq<DeleteCall>, deletes: seq<DeleteCall>,
                      scans: seq<ScanCall>, keys: seq<Text>, pattern: Text)
    requires deletes0 <= deletes1 <= deletes && scans != []
    requires FromPages(deletes1[|deletes0|..], scans, pattern)
    requires forall d | d in deletes[|deletes1|..] :: d.key in keys
    requires var last := scans[|scans| - 1];
             last.pattern == pattern && forall key | key in keys :: Returns(last.answer, key)
    ensures FromPages(deletes[|deletes0|..], scans, pattern)
  {
    assert deletes[|deletes0|..] == deletes1[|deletes0|..] + deletes[|deletes1|..];
    forall d | d in deletes[|deletes0|..]
      ensures exists j | 0 <= j < |scans| :: scans[j].pattern == pattern && InPage(scans[j], d.key)
    {
      if d in deletes[|deletes1|..] {
        assert InPage(scans[|scans| - 1], d.key);
      }
    }
  }

  // ---------------------------------------------------------------- the whole cold cache

  /** The patterns of the disposable profiles, in the order they are processed. */
  function DisposablePatterns(profiles: seq<Profile>): seq<Text> {
    if profiles == [] then []
    else (if profiles[0].disposable then profiles[0].patterns else []) + DisposablePatterns(profiles[1..])
  }

  /** A deletion the configuration permits: of a key that SCAN returned for a checked disposable pattern. */
  ghost predicate Permitted(d: DeleteCall, scans: seq<ScanCall>, cfg: Config) {
    exists j :: 0 <= j < |scans| && InPage(scans[j], d.key)
                && scans[j].pattern in DisposablePatterns(cfg.profiles)
                && SafeToDelete(scans[j].pattern, cfg.safety.minDeletePrefix)
  }

  method DeleteColdCache(redis: Redis, cfg: Config, allowRemote: bool, loopback: bool)
    returns (deleted: nat, error: Option<ColdError>)
    requires redis.Valid() && redis.scans == [] && redis.deletes == []
    modifies redis
    ensures redis.Valid() && redis.keys <= old(redis.keys)
    // the count: exact on success, never too high on failure, always within the budget
    ensures error.None? ==> deleted == Successes(redis.deletes)
    ensures deleted <= Successes(redis.deletes)
    ensures Successes(redis.deletes) <= if cfg.safety.maxKeysDelete > 0 then cfg.safety.maxKeysDelete else 0
    // soundness: nothing is deleted that the configuration does not permit
    ensures forall d | d in redis.deletes :: Permitted(d, redis.scans, cfg)
    ensures !cfg.safety.allowKeyDeletes || !(allowRemote || loopback) ==>
              error.Some? && redis.scans == [] && redis.deletes == [] && redis.keys == old(redis.keys)
    // completeness: with budget to spare every disposable pattern was swept
    ensures error.None? && deleted < cfg.safety.maxKeysDelete ==>
              forall p | p in DisposablePatterns(cfg.profiles) :: Swept(redis.scans, redis.keys, p)
    // the safety checks can only fail for configurations that are not valid for a cold cache
    ensures error == Some(DeletesNotAllowed) <==> !cfg.safety.allowKeyDeletes
    ensures error == Some(NotLoopback) <==> cfg.safety.allowKeyDeletes && !(allowRemote || loopback)
    ensures error.Some? && error.value.UnsafePattern? ==>
              && error.value.pattern in DisposablePatterns(cfg.profiles)
              && !SafeToDelete(error.value.pattern, cfg.safety.minDeletePrefix)
              && !AllSafe(cfg.profiles, cfg.safety.minDeletePrefix)
    // any other error is a reply of the server
    ensures error.Some? && error.value.RedisFailed? ==>
              && redis.scans != [] && redis.scans[|redis.scans| - 1].pattern == error.value.pattern
              && (ScanFailed(redis.scans, 0) || DeleteFailed(redis.deletes, 0))
  {
    hide Successes, Swept, Permitted, SafeToDelete, DisposablePatterns, FromPages, SweptIn;
    if !cfg.safety.allowKeyDeletes {
      NoDeletes();
      return 0, Some(DeletesNotAllowed);
    }
    NoDeletes();
    if !allowRemote && !loopback {
      return 0, Some(NotLoopback);
    }
    deleted := 0;
    var max := cfg.safety.maxKeysDelete;
    for i := 0 to |cfg.profiles|
      invariant redis.Valid() && redis.keys <= old(redis.keys)
      invariant deleted == Successes(redis.deletes) && deleted <= if max > 0 then max else 0
      invariant forall d | d in redis.deletes :: Permitted(d, redis.scans, cfg)
      invariant deleted < max ==>
                  forall p | p in DisposablePatterns(cfg.profiles[..i]) :: Swept(redis.scans, redis.keys, p)
    {
      PatternsSnoc(cfg.profiles, i);
      if cfg.profiles[i].disposable {
        var patterns := cfg.profiles[i].patterns;
        for j := 0 to |patterns|
          invariant redis.Valid() && redis.keys <= old(redis.keys)
          invariant deleted == Successes(redis.deletes) && deleted <= if max > 0 then max else 0
          invariant forall d | d in redis.deletes :: Permitted(d, redis.scans, cfg)
          invariant deleted < max ==>
                      forall p | p in DisposablePatterns(cfg.profiles[..i]) :: Swept(redis.scans, redis.keys, p)
          invariant deleted < max ==> forall k | 0 <= k < j :: Swept(redis.scans, redis.keys, patterns[k])
        {
          var pattern := patterns[j];
          if !SafeToDelete(pattern, cfg.safety.minDeletePrefix) {
            NotAllSafe(cfg, i, j);
            PatternsSnoc(cfg.profiles, i);
            return deleted, Some(ColdError.UnsafePattern(pattern));
          }
          ghost var scans1, deletes1, keys1 := redis.scans, redis.deletes, redis.keys;
          var count, ok := DeletePattern(redis, pattern, max - deleted);
          PermittedByPattern(cfg, i, j, deletes1, redis.deletes, scans1, redis.scans);
          if !ok {
            return deleted, Some(RedisFailed(pattern));
          }
          deleted := deleted + count;
          if deleted >= max {
            return deleted, None;
          }
          SweptMore(scans1, redis.scans, keys1, redis.keys, pattern);
        }
      }
    }
    assert cfg.profiles[..|cfg.profiles|] == cfg.profiles;
    return deleted, None;
  }

  lemma NoDeletes()
    ensures Successes([]) == 0 && DisposablePatterns([]) == []
  {}

  lemma {:induction false} PatternsSnoc(profiles: seq<Profile>, i: nat)
    requires i < |profiles|
    ensures DisposablePatterns(profiles[..i + 1]) ==
            DisposablePatterns(profiles[..i]) + if profiles[i].disposable then profiles[i].patterns else []
    ensures profiles[i].disposable ==> forall p | p in profiles[i].patterns :: p in DisposablePatterns(profiles)
    decreases i
  {
    var rest := profiles[1..];
    assert profiles == [profiles[0]] + rest;
    if i == 0 {
      assert profiles[..1] == [profiles[0]] && profiles[..1][1..] == [];
    } else {
      PatternsSnoc(rest, i - 1);
      assert profiles[..i + 1][1..] == rest[..i] && profiles[..i][1..] == rest[..i - 1];
    }
  }

  lemma NotAllSafe(cfg: Config, i: nat, j: nat)
    requires i < |cfg.profiles| && cfg.profiles[i].disposable && j < |cfg.profiles[i].patterns|
    requires !SafeToDelete(cfg.profiles[i].patterns[j], cfg.safety.minDeletePrefix)
    ensures !AllSafe(cfg.profiles, cfg.safety.minDeletePrefix)
  {
    hide SafeToDelete;
  }

  lemma PermittedByPattern(cfg: Config, i: nat, j: nat, deletes: seq<DeleteCall>, deletes': seq<DeleteCall>,
                           scans: seq<ScanCall>, scans': seq<ScanCall>)
    requires i < |cfg.profiles| && cfg.profiles[i].disposable && j < |cfg.profiles[i].patterns|
    requires SafeToDelete(cfg.profiles[i].patterns[j], cfg.safety.minDeletePrefix)
    requires deletes <= deletes' && scans <= scans'
    requires forall d | d in deletes :: Permitted(d, scans, cfg)
    requires FromPages(deletes'[|deletes|..], scans', cfg.profiles[i].patterns[j])
    ensures forall d | d in deletes' :: Permitted(d, scans', cfg)
  {
    hide SafeToDelete, InPage, DisposablePatterns;
    PatternsSnoc(cfg.profiles, i);
    assert deletes' == deletes + deletes'[|deletes|..];
    forall d | d in deletes'
      ensures Permitted(d, scans', cfg)
    {
      if d in deletes {
        assert Permitted(d, scans, cfg);
        var k :| 0 <= k < |scans| && InPage(scans[k], d.key)
                 && scans[k].pattern in DisposablePatterns(cfg.profiles)
                 && SafeToDelete(scans[k].pattern, cfg.safety.minDeletePrefix);
        assert scans'[k] == scans[k];
      } else {
        var k :| 0 <= k < |scans'| && scans'[k].pattern == cfg.profiles[i].patterns[j] && InPage(scans'[k], d.key);
      }
    }
  }

  /** A sweep stays a sweep while the history grows and keys go away. */
  lemma SweptMore(scans: seq<ScanCall>, scans': seq<ScanCall>, keys: set<Text>, keys': set<Text>, pattern: Text)
    requires scans <= scans' && keys' <= keys
    ensures forall p | Swept(scans, keys, p) :: Swept(scans', keys', p)
    ensures SweptIn(scans', |scans|, |scans'|, keys', pattern) ==> Swept(scans', keys', pattern)
  {
    forall p | Swept(scans, keys, p)
      ensures Swept(scans', keys', p)
    {
      var a, b :| SweptIn(scans, a, b, keys, p);
      assert forall j | 0 <= j < |scans| :: scans'[j] == scans[j];
      forall key | InPages(scans', a, b, key)
        ensures InPages(scans, a, b, key)
      {}
      assert SweptIn(scans', a, b, keys', p);
    }
  }

  // ---------------------------------------------------------------- main results

  /** Completeness.  With SCAN's guarantee, no key of a swept pattern is left. */
  lemma SweptMeansGone(scans: seq<ScanCall>, keys: set<Text>, pattern: Text, rule: ClassRule)
    requires Swept(scans, keys, pattern) && FullIteration(scans, rule)
    ensures forall key | key in keys :: !Matches(pattern, key, rule)
  {
    hide InPages, HasPage, Returns;
    var a, b :| SweptIn(scans, a, b, keys, pattern);
    forall key | key in keys
      ensures !Matches(pattern, key, rule)
    {
      assert key in scans[b - 1].db;
    }
  }

  /** No key that a disposable pattern matches is among `keys`. */
  ghost predicate AllGone(keys: set<Text>, profiles: seq<Profile>, rule: ClassRule) {
    forall p, key | p in DisposablePatterns(profiles) && key in keys :: !Matches(p, key, rule)
  }

  lemma AllSweptMeansGone(scans: seq<ScanCall>, keys: set<Text>, profiles: seq<Profile>, rule: ClassRule)
    requires forall p | p in DisposablePatterns(profiles) :: Swept(scans, keys, p)
    requires FullIteration(scans, rule)
    ensures AllGone(keys, profiles, rule)
  {
    hide Swept, FullIteration, Matches, DisposablePatterns;
    forall p | p in DisposablePatterns(profiles)
      ensures forall key | key in keys :: !Matches(p, key, rule)
    {
      SweptMeansGone(scans, keys, p, rule);
    }
  }

  /** Soundness.  A permitted deletion is of a key that starts with the literal part of a disposable pattern;
      without backslashes that part is the prefix the configuration check measured, and long enough. */
  lemma PermittedMeansPrefixed(d: DeleteCall, scans: seq<ScanCall>, cfg: Config, rule: ClassRule)
    requires Permitted(d, scans, cfg) && OnlyMatches(scans, rule)
    ensures exists p :: p in DisposablePatterns(cfg.profiles) && Prefixed(p, d.key, cfg.safety.minDeletePrefix)
  {
    hide InPage, DisposablePatterns, Matches;
    var j :| 0 <= j < |scans| && InPage(scans[j], d.key)
             && scans[j].pattern in DisposablePatterns(cfg.profiles)
             && SafeToDelete(scans[j].pattern, cfg.safety.minDeletePrefix);
    SafePatternPrefix(scans[j].pattern, cfg.safety.minDeletePrefix, d.key, rule);
    assert Prefixed(scans[j].pattern, d.key, cfg.safety.minDeletePrefix);
  }

  ghost predicate Prefixed(p: Text, key: Text, minPrefix: int) {
    && Literal(p) <= key
    && |Literal(p)| >= minPrefix - Escapes(p[..IndexWildcard(p)])
    && (Escapes(p[..IndexWildcard(p)]) == 0 ==> p[..IndexWildcard(p)] <= key && IndexWildcard(p) >= minPrefix)
  }

  /** A configuration with a cold-cache scenario that passed validation never fails the cold cache's own
      checks of permission and patterns. */
  lemma ValidConfigPassesChecks(cfg: Config, k: nat)
    requires ValidConfig(cfg) && k < |cfg.scenarios| && cfg.scenarios[k].kind.ColdCacheType?
    ensures cfg.safety.allowKeyDeletes && AllSafe(cfg.profiles, cfg.safety.minDeletePrefix)
  {
    hide AllSafe;
    assert ValidScenario(cfg.scenarios[k], cfg);
  }
  /** Some disposable pattern that the configuration check accepted explains the deletion. */
  ghost predicate Justified(d: DeleteCall, cfg: Config) {
    exists p :: p in DisposablePatterns(cfg.profiles) && Prefixed(p, d.key, cfg.safety.minDeletePrefix)
  }

  /** A cold-cache scenario from validation to the last deletion.  A configuration without problems never fails
      the checks of permission and patterns; what is deleted is explained by a checked pattern; and success
      below the budget leaves no key that a disposable pattern matches. */
  method ValidateAndDelete(redis: Redis, cfg: Config, k: nat, allowRemote: bool, loopback: bool, ghost rule: ClassRule)
    returns (problems: seq<Problem>, deleted: nat, error: Option<ColdError>)
    requires redis.Valid() && redis.scans == [] && redis.deletes == []
    requires k < |cfg.scenarios| && cfg.scenarios[k].kind.ColdCacheType?
    modifies redis
    ensures problems == [] <==> ValidConfig(cfg)
    ensures problems != [] ==> redis.scans == [] && redis.deletes == [] && redis.keys == old(redis.keys)
    ensures problems == [] && error.Some? ==>
              if error.value.NotLoopback? then !(allowRemote || loopback)
              else error.value.RedisFailed? && (ScanFailed(redis.scans, 0) || DeleteFailed(redis.deletes, 0))
    ensures deleted <= Successes(redis.deletes) <= if cfg.safety.maxKeysDelete > 0 then cfg.safety.maxKeysDelete else 0
    ensures OnlyMatches(redis.scans, rule) ==> forall d | d in redis.deletes :: Justified(d, cfg)
    ensures problems == [] && error.None? && deleted < cfg.safety.maxKeysDelete && FullIteration(redis.scans, rule) ==>
              deleted == Successes(redis.deletes) && AllGone(redis.keys, cfg.profiles, rule)
  {
    hide ValidConfig, Permitted, Swept, FullIteration, OnlyMatches, AllGone, Prefixed, Successes, SafeToDelete, AllSafe,
         DisposablePatterns;
    deleted, error := 0, None;
    NoDeletes();
    problems := Validate(cfg);
    if problems != [] {
      return;
    }
    ValidConfigPassesChecks(cfg, k);
    deleted, error := DeleteColdCache(redis, cfg, allowRemote, loopback);
    if OnlyMatches(redis.scans, rule) {
      forall d | d in redis.deletes
        ensures Justified(d, cfg)
      {
        PermittedMeansPrefixed(d, redis.scans, cfg, rule);
      }
    }
    if error.None? && deleted < cfg.safety.maxKeysDelete && FullIteration(redis.scans, rule) {
      AllSweptMeansGone(redis.scans, redis.keys, cfg.profiles, rule);
    }
  }
}
