/** The client of `internal/resp/client.go`: its reader of values as a program, the agreement of the two
    reply readers, and the lockstep of requests and replies in `Do`. */
module Client {
  import opened Bytes
  import opened Streams
  import opened Replies
  import opened ReplyTrees
  import opened Commands
  import opened Values

  datatype Answer<+T> = Value(value: T) | Refusal(message: Text) | Failure(error: Error)

  /** What a caller gets for a reading. */
  function AnswerOf<T>(r: Read<T>): Answer<T> {
    match r
    case Got(v, _) => Value(v)
    case Stopped(Refusing(m), _) => Refusal(m)
    case Stopped(Malformed(e), _) => Failure(e)
    case Broken(e) => Failure(e)
  }

  /** The reader stands where reading stopped, unless the stream failed. */
  ghost predicate FollowsRead<T>(spec: Read<T>, r: Answer<T>, before: Text, after: Text) {
    && r == AnswerOf(spec)
    && (!spec.Broken? ==> spec.used <= |before| && after == before[spec.used..])
  }

  // ---------------------------------------------------------------- the reader of values

  method ReadValue(reader: Reader, depth: nat) returns (r: Answer<Value>)
    requires reader.Valid()
    modifies reader
    ensures reader.Valid()
    ensures FollowsRead(ReadSpec(old(reader.Rest()), depth), r, old(reader.Rest()), reader.Rest())
    decreases |reader.data| - reader.pos, 0
  {
    hide BodySpec, HeadSpec;
    ghost var s := reader.Rest();
    if depth > MAX_DEPTH {
      return Failure(TooDeep);
    }
    var head := ReadHead(reader);
    if head.Err? {
      return Failure(head.error);
    }
    var (kind, line) := head.value;
    ghost var n := HeadSpec(s).used;
    ghost var body := BodySpec(kind, TrimCRLF(line), s[n..], depth);
    r := ReadValueBody(reader, kind, TrimCRLF(line), depth);
    if !body.Broken? {
      DropTwice(s, n, body.used);
    }
  }

  method ReadValueBody(reader: Reader, kind: byte, text: Text, depth: nat) returns (r: Answer<Value>)
    requires reader.Valid()
    modifies reader
    ensures reader.Valid()
    ensures FollowsRead(BodySpec(kind, text, old(reader.Rest()), depth), r, old(reader.Rest()), reader.Rest())
    decreases |reader.data| - reader.pos, 3
  {
    hide PayloadSpec, ItemsSpec, EntriesSpec, Atoi;
    if kind == PLUS {
      return Value(Str(text));
    }
    if kind == MINUS {
      return Refusal(text);
    }
    if kind == UNDERSCORE {
      return Value(Nil);
    }
    if !IsTypedKind(kind) {
      return Failure(BadKind);
    }
    var number := Atoi(text);
    if number.None? {
      return Failure(BadInteger);
    }
    var n := number.value;
    if kind == COLON {
      return Value(Int(n));
    }
    if n < 0 {
      return Value(Nil);
    }
    if kind == DOLLAR || kind == EQUALS {
      r := ReadStr(reader, n);
    } else if kind == PERCENT {
      r := ReadEntries(reader, n, depth);
    } else {
      r := ReadItems(reader, n, depth);
    }
  }

  method ReadStr(reader: Reader, n: nat) returns (r: Answer<Value>)
    requires reader.Valid()
    modifies reader
    ensures reader.Valid()
    ensures FollowsRead(PayloadSpec(n, old(reader.Rest())), r, old(reader.Rest()), reader.Rest())
  {
    if n > MAX_BULK {
      return Failure(BulkTooLong);
    }
    var payload := reader.ReadFull(n + 2);
    if payload.Err? {
      return Failure(payload.error);
    }
    return Value(Str(payload.value[..n]));
  }

  method ReadItems(reader: Reader, n: nat, depth: nat) returns (r: Answer<Value>)
    requires reader.Valid()
    modifies reader
    ensures reader.Valid()
    ensures FollowsRead(ItemsSpec(n, old(reader.Rest()), depth), r, old(reader.Rest()), reader.Rest())
    decreases |reader.data| - reader.pos, 2
  {
    hide ReadSpec, ValuesSpec, Accumulate, Reader.Rest;
    ghost var s := reader.Rest();
    if n > MAX_AGGREGATE {
      return Failure(TooManyElements);
    }
    var values: seq<Value> := [];
    ghost var used: nat := 0;
    AccumulateNone(ValuesSpec(s, n, depth + 1));
    for index := 0 to n
      invariant reader.Valid() && used <= |s| && reader.Rest() == s[used..]
      invariant |reader.data| - reader.pos <= |s|
      invariant ValuesSpec(s, n, depth + 1) ==
                Accumulate(values, ValuesSpec(s[used..], n - index, depth + 1)).Plus(used)
    {
      ghost var next := ReadSpec(s[used..], depth + 1);
      AccumulateOne(values, s[used..], n - index, depth + 1);
      var item := ReadValue(reader, depth + 1);
      if !next.Broken? {
        DropTwice(s, used, next.used);
      }
      match item {
        case Failure(e) => return Failure(e);
        case Refusal(m) => return Refusal(m);
        case Value(v) =>
          values := values + [v];
          used := used + next.used;
      }
    }
    NoMoreValues(values, s[used..], depth + 1, used);
    return Value(Array(values));
  }

  ghost function Accumulate(vs: seq<Value>, r: Read<seq<Value>>): Read<seq<Value>> {
    match r
    case Got(more, n) => Got(vs + more, n)
    case _ => r
  }

  lemma AccumulateNone(r: Read<seq<Value>>)
    ensures Accumulate([], r).Plus(0) == r
  {
    assert r.Got? ==> [] + r.value == r.value;
  }

  lemma NoMoreValues(vs: seq<Value>, s: Text, depth: nat, used: nat)
    ensures Accumulate(vs, ValuesSpec(s, 0, depth)).Plus(used) == Got(vs, used)
  {
    assert vs + [] == vs;
  }

  lemma AccumulateOne(vs: seq<Value>, s: Text, count: nat, depth: nat)
    requires count > 0
    ensures match ReadSpec(s, depth)
            case Broken(e) => Accumulate(vs, ValuesSpec(s, count, depth)) == Broken(e)
            case Stopped(c, n) => Accumulate(vs, ValuesSpec(s, count, depth)) == Stopped(c, n)
            case Got(v, n) =>
              Accumulate(vs, ValuesSpec(s, count, depth)) ==
              Accumulate(vs + [v], ValuesSpec(s[n..], count - 1, depth)).Plus(n)
  {
    hide ReadSpec;
    var r := ReadSpec(s, depth);
    if r.Got? && ValuesSpec(s[r.used..], count - 1, depth).Got? {
      var more := ValuesSpec(s[r.used..], count - 1, depth).value;
      assert vs + ([r.value] + more) == vs + [r.value] + more;
    }
  }

  method ReadEntries(reader: Reader, n: nat, depth: nat) returns (r: Answer<Value>)
    requires reader.Valid()
    modifies reader
    ensures reader.Valid()
    ensures FollowsRead(EntriesSpec(n, old(reader.Rest()), depth), r, old(reader.Rest()), reader.Rest())
    decreases |reader.data| - reader.pos, 2
  {
    hide ReadSpec, PairSpec, PairsSpec, Reader.Rest;
    ghost var s := reader.Rest();
    if n > MAX_AGGREGATE / 2 {
      return Failure(TooManyElements);
    }
    var values: map<Key, Value> := map[];
    ghost var used: nat := 0;
    for index := 0 to n
      invariant reader.Valid() && used <= |s| && reader.Rest() == s[used..]
      invariant |reader.data| - reader.pos <= |s|
      invariant PairsSpec(s, n, depth + 1, map[]) == PairsSpec(s[used..], n - index, depth + 1, values).Plus(used)
    {
      ghost var next := PairSpec(s[used..], depth + 1);
      OnePair(s[used..], n - index, depth + 1, values);
      var pair := ReadPair(reader, depth + 1);
      if !next.Broken? {
        DropTwice(s, used, next.used);
      }
      match pair {
        case Failure(e) => return Failure(e);
        case Refusal(m) => return Refusal(m);
        case Value((k, v)) =>
          values := values[k := v];
          used := used + next.used;
      }
    }
    NoMorePairs(s[used..], depth + 1, values);
    return Value(Dict(values));
  }

  /** One round of that loop: the key is checked before the value is read. */
  method ReadPair(reader: Reader, depth: nat) returns (r: Answer<(Key, Value)>)
    requires reader.Valid()
    modifies reader
    ensures reader.Valid()
    ensures FollowsRead(PairSpec(old(reader.Rest()), depth), r, old(reader.Rest()), reader.Rest())
    decreases |reader.data| - reader.pos, 1
  {
    hide ReadSpec, MapKey, Reader.Rest;
    ghost var s := reader.Rest();
    ghost var k := ReadSpec(s, depth);
    var key := ReadValue(reader, depth);
    match key {
      case Failure(e) => return Failure(e);
      case Refusal(m) => return Refusal(m);
      case Value(_) =>
    }
    var mapKey := MapKey(key.value);
    if mapKey.None? {
      return Failure(BadMapKey);
    }
    ghost var v := ReadSpec(s[k.used..], depth);
    var value := ReadValue(reader, depth);
    if !v.Broken? {
      DropTwice(s, k.used, v.used);
    }
    match value {
      case Failure(e) => return Failure(e);
      case Refusal(m) => return Refusal(m);
      case Value(_) => return Value((mapKey.value, value.value));
    }
  }

  lemma NoMorePairs(s: Text, depth: nat, entries: map<Key, Value>)
    ensures PairsSpec(s, 0, depth, entries) == Got(entries, 0)
  {}

  lemma OnePair(s: Text, count: nat, depth: nat, entries: map<Key, Value>)
    requires count > 0
    ensures match PairSpec(s, depth)
            case Broken(e) => PairsSpec(s, count, depth, entries) == Broken(e)
            case Stopped(c, n) => PairsSpec(s, count, depth, entries) == Stopped(c, n)
            case Got((k, v), n) =>
              PairsSpec(s, count, depth, entries) == PairsSpec(s[n..], count - 1, depth, entries[k := v]).Plus(n)
  {
    hide PairSpec;
  }

  // ---------------------------------------------------------------- the two readers agree

  lemma {:induction false} GotIsFrame(s: Text, depth: nat)
    requires ReadSpec(s, depth).Got?
    ensures s != [] && ParseReply(s, depth) == Done(s[0], ReadSpec(s, depth).used)
    decreases |s|, 0
  {
    hide BodySpec, ParseBody, LineSpec;
    var Done((kind, line), n) := HeadSpec(s);
    BodyIsFrame(kind, line, s[n..], depth);
  }

  lemma {:induction false} BodyIsFrame(kind: byte, line: Text, s: Text, depth: nat)
    requires BodySpec(kind, TrimCRLF(line), s, depth).Got?
    ensures ParseBody(kind, line, s, depth) == Done(kind, BodySpec(kind, TrimCRLF(line), s, depth).used)
    decreases |s|, 3
  {
    hide ValuesSpec, PairsSpec, ParseReplies, Atoi;
    if IsListKind(kind) && HeaderInt(line).value >= 0 {
      ValuesAreFrames(s, HeaderInt(line).value, depth + 1);
    } else if kind == PERCENT && HeaderInt(line).value >= 0 {
      PairsAreFrames(s, HeaderInt(line).value, depth + 1, map[]);
    }
  }

  lemma {:induction false} ValuesAreFrames(s: Text, count: nat, depth: nat)
    requires ValuesSpec(s, count, depth).Got?
    ensures ParseReplies(s, count, depth) == Done((), ValuesSpec(s, count, depth).used)
    decreases |s|, 1
  {
    hide ReadSpec, ParseReply;
    if count == 0 {
    } else {
      GotIsFrame(s, depth);
      ValuesAreFrames(s[ReadSpec(s, depth).used..], count - 1, depth);
    }
  }

  lemma {:induction false} PairsAreFrames(s: Text, count: nat, depth: nat, entries: map<Key, Value>)
    requires PairsSpec(s, count, depth, entries).Got?
    ensures ParseReplies(s, count * 2, depth) == Done((), PairsSpec(s, count, depth, entries).used)
    decreases |s|, 2
  {
    hide ReadSpec, ParseReply, ParseReplies, PairsSpec;
    if count == 0 {
      NoMorePairs(s, depth, entries);
      NoMoreReplies(s, depth);
    } else {
      OnePair(s, count, depth, entries);
      var pair := PairSpec(s, depth);
      var k := ReadSpec(s, depth);
      var v := ReadSpec(s[k.used..], depth);
      GotIsFrame(s, depth);
      GotIsFrame(s[k.used..], depth);
      DropTwice(s, k.used, v.used);
      PairsAreFrames(s[pair.used..], count - 1, depth, entries[pair.value.0 := pair.value.1]);
      OneReply(s, count * 2, depth);
      OneReply(s[k.used..], count * 2 - 1, depth);
    }
  }

  /** Whenever the typed reader succeeds, the byte-preserving reader succeeds on the same bytes; and an
      error reply at the top level is a frame for both. */
  lemma ReadersAgree(s: Text, depth: nat)
    ensures ReadSpec(s, depth).Got? ==>
              s != [] && ParseReply(s, depth) == Done(s[0], ReadSpec(s, depth).used)
    ensures s != [] && s[0] == MINUS && AnswerOf(ReadSpec(s, depth)).Refusal? ==>
              ParseReply(s, depth) == Done(MINUS, ReadSpec(s, depth).used)
  {
    hide LineSpec;
    if ReadSpec(s, depth).Got? {
      GotIsFrame(s, depth);
    }
  }

  /** On every frame the typed reader's result is the meaning of the frame's tree: in particular it does
      not depend on what follows the frame. */
  lemma MeaningOfFrame(f: Text, x: Text) returns (t: Tree)
    requires IsFrame(f)
    ensures WellFormed(t) && Serialize(t) == f && Depth(t) <= MAX_DEPTH
    ensures ReadSpec(f + x, 0) == ReadSpec(f, 0) == Meaning(t)
  {
    hide *;
    t := WholeTree(f);
    ReadsMeaning(t, x, 0);
    ReadsMeaning(t, [], 0);
    assert Serialize(t) + [] == f;
  }

  lemma WholeTree(f: Text) returns (t: Tree)
    requires IsFrame(f)
    ensures WellFormed(t) && Serialize(t) == f && Depth(t) <= MAX_DEPTH
  {
    hide ParseReply, WellFormed, Serialize, Depth, Kind;
    t := TreeOf(f, 0);
    assert f[..|f|] == f;
  }

  // ---------------------------------------------------------------- values and their texts

  /** A server's text of a value; maps have one for every order of their entries, and are left to the trees. */
  ghost function EncodeValue(v: Value): Text
    decreases v, 1
  {
    match v
    case Nil => Ascii("$-1") + CRLF
    case Str(text) => Ascii("$") + (Itoa(|text|) + CRLF) + (text + CRLF)
    case Int(n) => Ascii(":") + (Decimal(n) + CRLF)
    case Array(items) => Ascii("*") + (Itoa(|items|) + CRLF) + EncodeValues(items)
    case Dict(_) => []
  }

  ghost function EncodeValues(vs: seq<Value>): Text
    decreases vs, 0
  {
    if vs == [] then [] else EncodeValue(vs[0]) + EncodeValues(vs[1..])
  }

  /** Values without maps within the reader's limits, nested at most `room` deep. */
  ghost predicate Sendable(v: Value, room: int)
    decreases v, 1
  {
    room >= 0 &&
    match v
    case Nil => true
    case Str(text) => |text| <= MAX_BULK
    case Int(n) => MIN_INT <= n <= MAX_INT
    case Array(items) => |items| <= MAX_AGGREGATE && AllSendable(items, room - 1)
    case Dict(_) => false
  }

  ghost predicate AllSendable(vs: seq<Value>, room: int)
    decreases vs, 0
  {
    vs != [] ==> Sendable(vs[0], room) && AllSendable(vs[1..], room)
  }

  /** What a server sends for a value is read as that value, and nothing of what follows is touched. */
  lemma {:induction false} ValueRoundTrip(v: Value, x: Text, depth: nat)
    requires Sendable(v, MAX_DEPTH - depth)
    ensures ReadSpec(EncodeValue(v) + x, depth) == Got(v, |EncodeValue(v)|)
    ensures AnswerOf(ReadSpec(EncodeValue(v) + x, depth)) == Value(v)
    decreases v, 1
  {
    hide ReadSpec, Itoa, Decimal, ValuesSpec, EncodeValues, AllSendable;
    match v
    case Nil => NilText(x, depth);
    case Str(text) => StrText(text, x, depth);
    case Int(n) => IntText(n, x, depth);
    case Array(items) =>
      ValuesRoundTrip(items, x, depth + 1);
      ArrayText(items, EncodeValues(items), x, depth);
  }

  lemma StrText(text: Text, x: Text, depth: nat)
    requires |text| <= MAX_BULK && depth <= MAX_DEPTH
    ensures var t := Ascii("$") + (Itoa(|text|) + CRLF) + (text + CRLF);
            ReadSpec(t + x, depth) == Got(Str(text), |t|)
  {
    hide ReadSpec, Itoa, ItemsSpec, EntriesSpec, Ascii;
    AsciiKinds();
    var header, body := [DOLLAR] + (Itoa(|text|) + CRLF), text + CRLF;
    Reassociate(header, body, x);
    ReadsHeader(DOLLAR, |text|, body + x, depth);
    assert (body + x)[..|text| + 2] == body && body[..|text|] == text;
  }

  lemma IntText(n: int, x: Text, depth: nat)
    requires MIN_INT <= n <= MAX_INT && depth <= MAX_DEPTH
    ensures var t := Ascii(":") + (Decimal(n) + CRLF);
            ReadSpec(t + x, depth) == Got(Int(n), |t|)
  {
    hide ReadSpec, Decimal, HeadSpec, TrimCRLF, Atoi, ItemsSpec, EntriesSpec, PayloadSpec, Ascii;
    AsciiKinds();
    DecimalLine(n);
    HeadOfText(COLON, Decimal(n) + CRLF, x);
    ReadSpecUnfold([COLON] + (Decimal(n) + CRLF) + x, depth);
  }

  lemma ArrayText(items: seq<Value>, body: Text, x: Text, depth: nat)
    requires |items| <= MAX_AGGREGATE && depth <= MAX_DEPTH
    requires ValuesSpec(body + x, |items|, depth + 1) == Got(items, |body|)
    ensures var t := Ascii("*") + (Itoa(|items|) + CRLF) + body;
            ReadSpec(t + x, depth) == Got(Array(items), |t|)
  {
    hide ReadSpec, Itoa, ValuesSpec, EntriesSpec, PayloadSpec, Ascii;
    AsciiKinds();
    Reassociate([STAR] + (Itoa(|items|) + CRLF), body, x);
    ReadsHeader(STAR, |items|, body + x, depth);
  }

  lemma {:induction false} ValuesRoundTrip(vs: seq<Value>, x: Text, depth: nat)
    requires AllSendable(vs, MAX_DEPTH - depth)
    ensures ValuesSpec(EncodeValues(vs) + x, |vs|, depth) == Got(vs, |EncodeValues(vs)|)
    decreases vs, 0
  {
    hide ReadSpec, EncodeValue, Sendable;
    if vs == [] {
    } else {
      var rest := EncodeValues(vs[1..]) + x;
      Reassociate(EncodeValue(vs[0]), EncodeValues(vs[1..]), x);
      ValueRoundTrip(vs[0], rest, depth);
      ValuesRoundTrip(vs[1..], x, depth);
      assert vs == [vs[0]] + vs[1..];
    }
  }

  lemma AsciiKinds()
    ensures Ascii("$") == [DOLLAR] && Ascii(":") == [COLON] && Ascii("*") == [STAR]
    ensures Ascii("$-1") == [DOLLAR] + [MINUS, 49]
  {}

  lemma ReadSpecUnfold(s: Text, depth: nat)
    requires depth <= MAX_DEPTH && HeadSpec(s).Done?
    ensures var h := HeadSpec(s);
            ReadSpec(s, depth) == BodySpec(h.value.0, TrimCRLF(h.value.1), s[h.used..], depth).Plus(h.used)
  {
    hide BodySpec, HeadSpec, TrimCRLF;
  }

  lemma ReadsHeader(kind: byte, n: nat, rest: Text, depth: nat)
    requires depth <= MAX_DEPTH && n <= MAX_INT && IsTypedKind(kind)
    ensures var s := [kind] + (Itoa(n) + CRLF) + rest;
            && TrimCRLF(Itoa(n) + CRLF) == Itoa(n) && Atoi(Itoa(n)) == Some(n)
            && ReadSpec(s, depth) == BodySpec(kind, Itoa(n), rest, depth).Plus(1 + |Itoa(n) + CRLF|)
  {
    hide Itoa, ReadSpec, BodySpec, HeadSpec, TrimCRLF, Atoi;
    ReadEncodedHeader(kind, n, rest);
    ReadSpecUnfold([kind] + (Itoa(n) + CRLF) + rest, depth);
    EncodedHeader(n);
    TrimTerminated(Itoa(n), CRLF);
    AtoiOfItoa(n);
  }

  lemma NilText(x: Text, depth: nat)
    requires depth <= MAX_DEPTH
    ensures ReadSpec(Ascii("$-1") + CRLF + x, depth) == Got(Nil, 5)
  {
    hide ReadSpec, Atoi, TrimCRLF, HeadSpec;
    AsciiKinds();
    DecimalLine(-1);
    assert Itoa(1) == [49] && Decimal(-1) == [MINUS, 49];
    HeadOfText(DOLLAR, Decimal(-1) + CRLF, x);
    assert Ascii("$-1") + CRLF + x == [DOLLAR] + (Decimal(-1) + CRLF) + x;
    ReadSpecUnfold(Ascii("$-1") + CRLF + x, depth);
  }

  lemma DecimalLine(n: int)
    requires MIN_INT <= n <= MAX_INT
    ensures IsLine(Decimal(n) + CRLF) && TrimCRLF(Decimal(n) + CRLF) == Decimal(n) && Atoi(Decimal(n)) == Some(n)
  {
    hide Itoa, Atoi, TrimCRLF;
    var m := if n < 0 then -n else n;
    assert Decimal(n) == (if n < 0 then [MINUS] else []) + (Zeros(0) + Itoa(m));
    ReadsWritten(Decimal(n), if n < 0 then [MINUS] else [], 0, m);
    TrimTerminated(Decimal(n), CRLF);
    ItoaFits(m);
    assert forall i | 0 <= i < |Itoa(m)| :: IsDigit(Itoa(m)[i]);
  }

  /** One-line replies: a simple string is its text, and an error refuses with its text. */
  lemma LineReplies(text: Text, x: Text, depth: nat)
    requires depth <= MAX_DEPTH && |text| + 2 <= MAX_LINE && LF !in text
    requires text == [] || !IsLineEnd(text[|text| - 1])
    ensures AnswerOf(ReadSpec([PLUS] + (text + CRLF) + x, depth)) == Value(Str(text))
    ensures AnswerOf(ReadSpec([MINUS] + (text + CRLF) + x, depth)) == Refusal(text)
    ensures AnswerOf(ReadSpec([UNDERSCORE] + CRLF + x, depth)) == Value(Nil)
  {
    hide ReadSpec, TrimCRLF, HeadSpec;
    TrimTerminated(text, CRLF);
    HeadOfText(PLUS, text + CRLF, x);
    HeadOfText(MINUS, text + CRLF, x);
    HeadOfText(UNDERSCORE, CRLF, x);
    ReadSpecUnfold([PLUS] + (text + CRLF) + x, depth);
    ReadSpecUnfold([MINUS] + (text + CRLF) + x, depth);
    ReadSpecUnfold([UNDERSCORE] + CRLF + x, depth);
  }

  // ---------------------------------------------------------------- lockstep

  /** Reading a value from a stream that starts with `f` ends exactly at the end of `f`. */
  ghost predicate InStep(f: Text) {
    !ReadSpec(f, 0).Broken? && ReadSpec(f, 0).used == |f|
  }

  /** Every frame keeps the connection in step if and only if nothing in it makes the typed reader stop, or
      only its very last part does; a frame out of step leaves unread bytes behind, for the next request.
      The caller gets a value exactly in the first case. */
  lemma InStepExactly(f: Text, t: Tree)
    requires WellFormed(t) && Serialize(t) == f && Depth(t) <= MAX_DEPTH
    ensures !ReadSpec(f, 0).Broken? && ReadSpec(f, 0).used <= |f|
    ensures InStep(f) <==> StopperFree(t) || EndsInStopper(t)
    ensures AnswerOf(ReadSpec(f, 0)).Value? <==> StopperFree(t)
  {
    hide Meaning, Serialize, WellFormed, ReadSpec, StopperFree, EndsInStopper;
    assert f + [] == f;
    ReadsMeaning(t, [], 0);
    StopsExactly(t);
  }

  /** In particular a refusal at the top level, such as that of an unknown UNLINK, does. */
  lemma TopLevelRefusalInStep(f: Text)
    requires IsFrame(f) && f[0] == MINUS
    ensures InStep(f) && AnswerOf(ReadSpec(f, 0)).Refusal?
  {
    hide LineSpec, TrimCRLF;
    assert ReadSpec(f, 0) == Stopped(Refusing(TrimCRLF(HeadSpec(f).value.1)), HeadSpec(f).used);
    assert ParseReply(f, 0) == Done(MINUS, HeadSpec(f).used);
  }

  /** `n` replies read one after another; reading goes on unless the stream itself fails. */
  ghost function ReadMany(s: Text, n: nat): (seq<Read<Value>>, Text) {
    if n == 0 then ([], s)
    else
      var r := ReadSpec(s, 0);
      if r.Broken? then ([r], s)
      else
        var (rs, rest) := ReadMany(s[r.used..], n - 1);
        ([r] + rs, rest)
  }

  /** What each frame means on its own. */
  ghost function Readings(frames: seq<Text>): (rs: seq<Read<Value>>)
    ensures |rs| == |frames| && forall i | 0 <= i < |rs| :: rs[i] == ReadSpec(frames[i], 0)
  {
    seq(|frames|, i requires 0 <= i < |frames| => ReadSpec(frames[i], 0))
  }

  /** Against a server that answers every command with one frame, none of which is out of step, the i-th
      reading gives exactly what the i-th frame means on its own, and all frames are used up. */
  lemma {:induction false} Lockstep(frames: seq<Text>, x: Text)
    requires forall i | 0 <= i < |frames| :: IsFrame(frames[i]) && InStep(frames[i])
    ensures ReadMany(Concat(frames) + x, |frames|) == (Readings(frames), x)
  {
    hide ReadSpec, IsFrame, Readings, Concat;
    if frames == [] {
      NothingSent(x);
    } else {
      var f, rest := frames[0], Concat(frames[1..]) + x;
      FirstFrame(frames);
      Reassociate(f, Concat(frames[1..]), x);
      OneFrame(f, rest);
      Lockstep(frames[1..], x);
      assert ReadMany(f + rest, |frames|) == ([ReadSpec(f, 0)] + ReadMany(rest, |frames| - 1).0, x);
    }
  }

  lemma NothingSent(x: Text)
    ensures Concat([]) + x == x && Readings([]) == []
  {}

  lemma FirstFrame(frames: seq<Text>)
    requires frames != []
    ensures Concat(frames) == frames[0] + Concat(frames[1..])
    ensures Readings(frames) == [ReadSpec(frames[0], 0)] + Readings(frames[1..])
  {
    hide ReadSpec;
  }

  /** Both families that break lockstep are not empty: after an error inside an array that goes on, or after
      a kind the typed reader does not know, such as a boolean, the next request is answered with the rest of
      that array. */
  lemma NestedErrorBreaksLockstep()
    ensures var f := [STAR, 50, LF, MINUS, 69, LF, PLUS, LF];
            IsFrame(f) && ReadSpec(f, 0) == Stopped(Refusing([69]), 6) && ReadSpec(f[6..], 0) == Got(Str([]), 2)
  {
    hide TrimCRLF, Atoi;
    TinyTexts();
    assert Meaning(Simple(MINUS, [69, LF])) == Stopped(Refusing([69]), 3);
    assert IsLine([69, LF]);
    StopsInPair(MINUS, [69, LF]);
    assert [STAR, 50, LF, MINUS] + [69, LF] + [PLUS, LF] == [STAR, 50, LF, MINUS, 69, LF, PLUS, LF];
    assert [STAR, 50, LF, MINUS, 69, LF, PLUS, LF][6..] == [PLUS, LF];
  }

  lemma UnknownKindBreaksLockstep()
    ensures var f := [STAR, 50, LF, HASH, 116, LF, PLUS, LF];
            IsFrame(f) && ReadSpec(f, 0) == Stopped(Malformed(BadKind), 6) && ReadSpec(f[6..], 0) == Got(Str([]), 2)
  {
    hide TrimCRLF, Atoi;
    assert Meaning(Simple(HASH, [116, LF])) == Stopped(Malformed(BadKind), 3);
    assert IsLine([116, LF]);
    StopsInPair(HASH, [116, LF]);
    assert [STAR, 50, LF, HASH] + [116, LF] + [PLUS, LF] == [STAR, 50, LF, HASH, 116, LF, PLUS, LF];
    assert [STAR, 50, LF, HASH, 116, LF, PLUS, LF][6..] == [PLUS, LF];
  }

  /** A pair of a one-line reply at which the reader stops and an empty string. */
  lemma StopsInPair(kind: byte, line: Text)
    requires IsLineKind(kind) && IsLine(line) && Meaning(Simple(kind, line)).Stopped?
    ensures var first, f := Simple(kind, line), [STAR, 50, LF, kind] + line + [PLUS, LF];
            && IsFrame(f)
            && ReadSpec(f, 0) == Stopped(Meaning(first).cause, 3 + Meaning(first).used)
            && ReadSpec([PLUS, LF], 0) == Got(Str([]), 2)
  {
    hide ReadSpec, ParseReply, TrimCRLF, Atoi;
    var first, ok := Simple(kind, line), Simple(PLUS, [LF]);
    var t := List(STAR, [50, LF], [first, ok]);
    TinyTexts();
    TwoItems(first, ok);
    assert Serialize(first) == [kind] + line && Serialize(ok) == [PLUS, LF];
    assert Serialize(t) == [STAR, 50, LF, kind] + line + [PLUS, LF];
    assert Meaning(ok) == Got(Str([]), 2);
    ReadsTree(t, [], 0);
    ReadsMeaning(t, [], 0);
    ReadsMeaning(ok, [], 0);
    assert Serialize(t) + [] == Serialize(t) && Serialize(ok) + [] == [PLUS, LF];
  }

  lemma TinyTexts()
    ensures TrimCRLF([50, LF]) == [50] && TrimCRLF([69, LF]) == [69] && TrimCRLF([LF]) == []
    ensures Atoi([50]) == Some(2)
  {
    TrimTerminated([50], [LF]);
    TrimTerminated([69], [LF]);
    TrimTerminated([], [LF]);
    assert [50] + [LF] == [50, LF] && [69] + [LF] == [69, LF] && [] + [LF] == [LF];
    AtoiOfItoa(2);
    assert Itoa(2) == [50];
  }

  lemma TwoItems(a: Tree, b: Tree)
    ensures AllWellFormed([a, b]) <==> WellFormed(a) && WellFormed(b)
    ensures DepthAll([a, b]) == 1 + Max(Depth(a), Depth(b))
    ensures SerializeAll([a, b]) == Serialize(a) + Serialize(b)
    ensures Meaning(a).Stopped? ==> MeaningAll([a, b]) == Stopped(Meaning(a).cause, Meaning(a).used)
  {
    hide WellFormed, Depth, Serialize, Meaning;
    assert [a, b][1..] == [b] && [b][1..] == [];
    assert AllWellFormed([b]) == WellFormed(b) && DepthAll([b]) == 1 + Depth(b);
    assert SerializeAll([b]) == Serialize(b) + [];
  }

  // ---------------------------------------------------------------- Do

  /** A connection to Redis: what was sent, and the replies to come. */
  class Connection {
    const sent: Buffer
    const reader: Reader

    constructor (sent: Buffer, reader: Reader)
      ensures this.sent == sent && this.reader == reader
    {
      this.sent := sent;
      this.reader := reader;
    }

    /** Sends one command and reads one reply value.  No arguments, no traffic. */
    method Do(args: seq<Text>) returns (r: Option<Answer<Value>>)
      requires reader.Valid()
      modifies sent, reader
      ensures reader.Valid()
      ensures args == [] ==>
                r == None && sent.bytes == old(sent.bytes) && reader.Rest() == old(reader.Rest())
      ensures args != [] ==>
                && r.Some?
                && sent.bytes == old(sent.bytes) + Encode(args)
                && FollowsRead(ReadSpec(old(reader.Rest()), 0), r.value, old(reader.Rest()), reader.Rest())
    {
      if args == [] {
        return None;
      }
      var b := EncodeCommand(args);
      sent.Write(b);
      var answer := ReadValue(reader, 0);
      return Some(answer);
    }
  }
  /** The requests of a batch; a command without arguments is refused by the client itself. */
  function Requests(batch: seq<seq<Text>>): Text {
    if batch == [] then [] else Requests(batch[..|batch| - 1]) + Request(batch[|batch| - 1])
  }

  function Request(args: seq<Text>): Text {
    if args == [] then [] else Encode(args)
  }

  /** What the server sends for a command: one frame in step, or nothing if nothing was sent. */
  ghost predicate IsReplyTo(frame: Text, args: seq<Text>) {
    if args == [] then frame == [] else IsFrame(frame) && InStep(frame)
  }

  /** Any sequence of calls on one connection, against a server that sends one frame for each command, none of
      them out of step: exactly the encodings are sent, the i-th call returns what the i-th frame means on its
      own, and what the server sends after the last frame is still there. */
  method DoAll(c: Connection, batch: seq<seq<Text>>, ghost frames: seq<Text>, ghost x: Text)
    returns (answers: seq<Option<Answer<Value>>>)
    requires c.reader.Valid() && |frames| == |batch|
    requires forall i | 0 <= i < |batch| :: IsReplyTo(frames[i], batch[i])
    requires c.reader.Rest() == Concat(frames) + x
    modifies c.sent, c.reader
    ensures c.reader.Valid() && c.reader.Rest() == x
    ensures c.sent.bytes == old(c.sent.bytes) + Requests(batch)
    ensures |answers| == |batch|
    ensures forall i | 0 <= i < |batch| ::
              answers[i] == if batch[i] == [] then None else Some(AnswerOf(ReadSpec(frames[i], 0)))
  {
    hide ReadSpec, IsFrame, InStep, Encode, Reader.Rest, AnswerOf, Concat, Requests;
    answers := [];
    NoCalls(frames, x, c.sent.bytes);
    for i := 0 to |batch|
      invariant c.reader.Valid() && c.reader.Rest() == Concat(frames[i..]) + x
      invariant c.sent.bytes == old(c.sent.bytes) + Requests(batch[..i])
      invariant |answers| == i
      invariant forall k | 0 <= k < i ::
                  answers[k] == if batch[k] == [] then None else Some(AnswerOf(ReadSpec(frames[k], 0)))
    {
      ghost var rest := Concat(frames[i + 1..]) + x;
      NextCall(batch, frames, i, x, old(c.sent.bytes));
      if batch[i] != [] {
        OneFrame(frames[i], rest);
      }
      var answer := c.Do(batch[i]);
      answers := answers + [answer];
    }
    AllCalled(batch, frames, x);
  }

  lemma NoCalls(frames: seq<Text>, x: Text, sent: Text)
    ensures frames[0..] == frames && sent + Requests([]) == sent
  {}

  lemma AllCalled(batch: seq<seq<Text>>, frames: seq<Text>, x: Text)
    ensures batch[..|batch|] == batch && Concat(frames[|frames|..]) + x == x
  {}

  lemma NextCall(batch: seq<seq<Text>>, frames: seq<Text>, i: nat, x: Text, sent: Text)
    requires i < |batch| == |frames|
    ensures Concat(frames[i..]) + x == frames[i] + (Concat(frames[i + 1..]) + x)
    ensures sent + Requests(batch[..i + 1]) == (sent + Requests(batch[..i])) + Request(batch[i])
    ensures [] + (Concat(frames[i + 1..]) + x) == Concat(frames[i + 1..]) + x
    ensures (sent + Requests(batch[..i])) + [] == sent + Requests(batch[..i])
  {
    hide *;
    NextFrame(frames, i);
    NextRequest(batch, i);
    Reassociate(frames[i], Concat(frames[i + 1..]), x);
    Reassociate(sent, Requests(batch[..i]), Request(batch[i]));
  }

  lemma NextFrame(frames: seq<Text>, i: nat)
    requires i < |frames|
    ensures Concat(frames[i..]) == frames[i] + Concat(frames[i + 1..])
  {
    assert frames[i..][1..] == frames[i + 1..];
  }

  lemma NextRequest(batch: seq<seq<Text>>, i: nat)
    requires i < |batch|
    ensures Requests(batch[..i + 1]) == Requests(batch[..i]) + Request(batch[i])
  {
    hide Request;
    assert batch[..i + 1][..i] == batch[..i];
  }

  /** A frame in step, whatever follows it, is read on its own. */
  lemma OneFrame(f: Text, rest: Text)
    requires IsFrame(f) && InStep(f)
    ensures ReadSpec(f + rest, 0) == ReadSpec(f, 0) && !ReadSpec(f, 0).Broken?
    ensures (f + rest)[ReadSpec(f, 0).used..] == rest
  {
    hide ReadSpec, IsFrame;
    var t := MeaningOfFrame(f, rest);
  }
}
