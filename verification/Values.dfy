/** The typed client of `internal/resp/client.go`: the reader of reply values, its agreement with the
    byte-preserving reader, and the lockstep of requests and replies. */
module Values {
  import opened Bytes
  import opened Streams
  import opened Replies
  import opened ReplyTrees
  import opened Commands

  /** What a Go map of replies can be keyed by: the reply values of comparable type other than nil. */
  datatype Key = TextKey(text: Text) | IntKey(number: int)

  datatype Value =
    | Nil
    | Str(text: Text)
    | Int(number: int)
    | Array(items: seq<Value>)
    | Dict(entries: map<Key, Value>)

  /** Why reading stops in the middle of a stream that is fine: an error reply of the server, or something
      the reader does not accept. */
  datatype Cause = Refusing(message: Text) | Malformed(error: Error)

  /** A value; or what made the reader stop after `used` bytes, with the connection still open; or a stream
      that ended or never gave a line. */
  datatype Read<+T> = Got(value: T, used: nat) | Stopped(cause: Cause, used: nat) | Broken(error: Error) {
    function Plus(n: nat): Read<T> {
      match this
      case Got(v, used) => Got(v, used + n)
      case Stopped(c, used) => Stopped(c, used + n)
      case Broken(e) => Broken(e)
    }
  }

  /** `validateMapKey`: the key, if the value may be one. */
  function MapKey(v: Value): Option<Key> {
    match v
    case Str(text) => Some(TextKey(text))
    case Int(i) => Some(IntKey(i))
    case _ => None
  }

  /** Two values are the same key only if they are the same value. */
  lemma MapKeyInjective(v: Value, w: Value)
    requires MapKey(v).Some? && MapKey(v) == MapKey(w)
    ensures v == w
  {}

  // ---------------------------------------------------------------- specification on bytes

  /** One reply value at the front of `s`. */
  function ReadSpec(s: Text, depth: nat): (r: Read<Value>)
    ensures r.Got? ==> 2 <= r.used <= |s|
    ensures r.Stopped? ==> r.used <= |s|
    decreases |s|, 0
  {
    if depth > MAX_DEPTH then Stopped(Malformed(TooDeep), 0)
    else
      match HeadSpec(s)
      case Fail(e) => Broken(e)
      case Done((kind, line), n) => BodySpec(kind, TrimCRLF(line), s[n..], depth).Plus(n)
  }

  function BodySpec(kind: byte, text: Text, s: Text, depth: nat): (r: Read<Value>)
    ensures !r.Broken? ==> r.used <= |s|
    decreases |s|, 4
  {
    if kind == PLUS then Got(Str(text), 0)
    else if kind == MINUS then Stopped(Refusing(text), 0)
    else if kind == UNDERSCORE then Got(Nil, 0)
    else if !IsTypedKind(kind) then Stopped(Malformed(BadKind), 0)
    else
      match Atoi(text)
      case None => Stopped(Malformed(BadInteger), 0)
      case Some(n) =>
        if kind == COLON then Got(Int(n), 0)
        else if n < 0 then Got(Nil, 0)
        else if kind == DOLLAR || kind == EQUALS then PayloadSpec(n, s)
        else if kind == PERCENT then EntriesSpec(n, s, depth)
        else ItemsSpec(n, s, depth)
  }

  /** The kinds whose first line is a number and that the typed reader understands. */
  predicate IsTypedKind(kind: byte) {
    kind == COLON || kind == DOLLAR || kind == EQUALS || IsListKind(kind) || kind == PERCENT
  }

  function PayloadSpec(n: nat, s: Text): (r: Read<Value>)
    ensures !r.Broken? ==> r.used <= |s|
  {
    if n > MAX_BULK then Stopped(Malformed(BulkTooLong), 0)
    else
      match TakeSpec(s, n + 2)
      case Fail(e) => Broken(e)
      case Done(payload, used) => Got(Str(payload[..n]), used)
  }

  function ItemsSpec(n: nat, s: Text, depth: nat): (r: Read<Value>)
    ensures !r.Broken? ==> r.used <= |s|
    decreases |s|, 3
  {
    if n > MAX_AGGREGATE then Stopped(Malformed(TooManyElements), 0)
    else
      match ValuesSpec(s, n, depth + 1)
      case Broken(e) => Broken(e)
      case Stopped(c, used) => Stopped(c, used)
      case Got(items, used) => Got(Array(items), used)
  }

  function EntriesSpec(n: nat, s: Text, depth: nat): (r: Read<Value>)
    ensures !r.Broken? ==> r.used <= |s|
    decreases |s|, 3
  {
    if n > MAX_AGGREGATE / 2 then Stopped(Malformed(TooManyElements), 0)
    else
      match PairsSpec(s, n, depth + 1, map[])
      case Broken(e) => Broken(e)
      case Stopped(c, used) => Stopped(c, used)
      case Got(entries, used) => Got(Dict(entries), used)
  }

  function ValuesSpec(s: Text, count: nat, depth: nat): (r: Read<seq<Value>>)
    ensures !r.Broken? ==> r.used <= |s|
    decreases |s|, 1
  {
    if count == 0 then Got([], 0)
    else
      match ReadSpec(s, depth)
      case Broken(e) => Broken(e)
      case Stopped(c, n) => Stopped(c, n)
      case Got(v, n) => ConsRead(v, ValuesSpec(s[n..], count - 1, depth)).Plus(n)
  }

  function ConsRead(v: Value, r: Read<seq<Value>>): Read<seq<Value>> {
    match r
    case Got(vs, n) => Got([v] + vs, n)
    case _ => r
  }

  /** Key and value pairs, added to `entries` in order: a repeated key keeps its last value. */
  function PairsSpec(s: Text, count: nat, depth: nat, entries: map<Key, Value>): (r: Read<map<Key, Value>>)
    ensures !r.Broken? ==> r.used <= |s|
    decreases |s|, 2
  {
    if count == 0 then Got(entries, 0)
    else
      match PairSpec(s, depth)
      case Broken(e) => Broken(e)
      case Stopped(c, n) => Stopped(c, n)
      case Got((k, v), n) => PairsSpec(s[n..], count - 1, depth, entries[k := v]).Plus(n)
  }

  function PairSpec(s: Text, depth: nat): (r: Read<(Key, Value)>)
    ensures r.Got? ==> 2 <= r.used <= |s|
    ensures r.Stopped? ==> r.used <= |s|
    decreases |s|, 1
  {
    var k := ReadSpec(s, depth);
    JoinPair(k, if k.Got? then ReadSpec(s[k.used..], depth) else k)
  }

  /** A key, which is checked before the value is read, and the value. */
  function JoinPair(k: Read<Value>, v: Read<Value>): Read<(Key, Value)> {
    match k
    case Broken(e) => Broken(e)
    case Stopped(c, n) => Stopped(c, n)
    case Got(key, n) =>
      match MapKey(key)
      case None => Stopped(Malformed(BadMapKey), n)
      case Some(mapKey) =>
        match v
        case Broken(e) => Broken(e)
        case Stopped(c, n') => Stopped(c, n + n')
        case Got(value, n') => Got((mapKey, value), n + n')
  }

  // ---------------------------------------------------------------- meaning of a reply tree

  /** What the typed reader makes of a reply, by its structure alone. */
  ghost function Meaning(t: Tree): Read<Value>
    decreases t, 1
  {
    MeaningBody(t).Plus(1 + |t.line|)
  }

  ghost function MeaningBody(t: Tree): Read<Value>
    decreases t, 0
  {
    var text := TrimCRLF(t.line);
    match t
    case Simple(kind, _) =>
      if kind == PLUS then Got(Str(text), 0)
      else if kind == MINUS then Stopped(Refusing(text), 0)
      else if kind == UNDERSCORE then Got(Nil, 0)
      else if kind != COLON then Stopped(Malformed(BadKind), 0)
      else if Atoi(text).None? then Stopped(Malformed(BadInteger), 0)
      else Got(Int(Atoi(text).value), 0)
    case Null(kind, _) => if kind == BANG || kind == PIPE then Stopped(Malformed(BadKind), 0) else Got(Nil, 0)
    case Bulk(kind, _, payload) =>
      if kind == BANG || |payload| < 2 then Stopped(Malformed(BadKind), 0)
      else Got(Str(payload[..|payload| - 2]), |payload|)
    case List(_, _, items) =>
      (match MeaningAll(items)
       case Broken(e) => Broken(e)
       case Stopped(c, used) => Stopped(c, used)
       case Got(vs, used) => Got(Array(vs), used))
    case Map(_, items) =>
      (match MeaningPairs(items, map[])
       case Broken(e) => Broken(e)
       case Stopped(c, used) => Stopped(c, used)
       case Got(entries, used) => Got(Dict(entries), used))
    case Attribute(_, _, _) => Stopped(Malformed(BadKind), 0)
  }

  ghost function MeaningAll(ts: seq<Tree>): Read<seq<Value>>
    decreases ts, 0
  {
    if ts == [] then Got([], 0)
    else
      match Meaning(ts[0])
      case Broken(e) => Broken(e)
      case Stopped(c, n) => Stopped(c, n)
      case Got(v, n) => ConsRead(v, MeaningAll(ts[1..])).Plus(n)
  }

  ghost function MeaningPairs(ts: seq<Tree>, entries: map<Key, Value>): Read<map<Key, Value>>
    decreases ts, 0
  {
    if |ts| < 2 then Got(entries, 0)
    else
      match JoinPair(Meaning(ts[0]), Meaning(ts[1]))
      case Broken(e) => Broken(e)
      case Stopped(c, n) => Stopped(c, n)
      case Got((k, v), n) => MeaningPairs(ts[2..], entries[k := v]).Plus(n)
  }

  // ---------------------------------------------------------------- the typed reader reads trees

  /** On the text of a reply within the depth limit the typed reader gives that reply's meaning, whatever
      follows it. */
  lemma {:induction false} ReadsMeaning(t: Tree, x: Text, depth: nat)
    requires WellFormed(t) && depth + Depth(t) <= MAX_DEPTH
    ensures ReadSpec(Serialize(t) + x, depth) == Meaning(t)
    decreases t, 2
  {
    hide ReadSpec, Meaning, ValuesSpec, PairsSpec, BodySpec;
    assert Serialize(t) + x == [FirstByte(t)] + t.line + (Body(t) + x);
    HeadOfText(FirstByte(t), t.line, Body(t) + x);
    ReadsMeaningBody(t, x, depth);
    UnfoldRead(t, x, depth);
  }

  lemma UnfoldRead(t: Tree, x: Text, depth: nat)
    requires depth <= MAX_DEPTH
    requires HeadSpec(Serialize(t) + x) == Done((FirstByte(t), t.line), 1 + |t.line|)
    requires (Serialize(t) + x)[1 + |t.line|..] == Body(t) + x
    ensures ReadSpec(Serialize(t) + x, depth) ==
            BodySpec(FirstByte(t), TrimCRLF(t.line), Body(t) + x, depth).Plus(1 + |t.line|)
    ensures Meaning(t) == MeaningBody(t).Plus(1 + |t.line|)
  {
    hide BodySpec, MeaningBody, HeadSpec, Serialize;
  }

  lemma {:induction false} ReadsMeaningBody(t: Tree, x: Text, depth: nat)
    requires WellFormed(t) && depth + Depth(t) <= MAX_DEPTH
    ensures BodySpec(FirstByte(t), TrimCRLF(t.line), Body(t) + x, depth) == MeaningBody(t)
    decreases t, 1
  {
    hide ReadSpec, Meaning, ValuesSpec, PairsSpec, MeaningAll, MeaningPairs, Serialize, SerializeAll, Atoi, TrimCRLF,
      AllWellFormed, DepthAll, IsLine;
    if t.List? {
      ReadsMeanings(t.items, x, depth + 1);
    } else if t.Map? {
      ReadsPairs(t.items, x, depth + 1, map[]);
    } else if t.Bulk? {
      assert (Body(t) + x)[..|t.payload|] == t.payload;
    }
  }

  lemma {:induction false} ReadsMeanings(ts: seq<Tree>, x: Text, depth: nat)
    requires AllWellFormed(ts) && depth > 0 && depth - 1 + DepthAll(ts) <= MAX_DEPTH
    ensures ValuesSpec(SerializeAll(ts) + x, |ts|, depth) == MeaningAll(ts)
    decreases ts, 0
  {
    hide ReadSpec, Meaning, Serialize;
    if ts == [] {
    } else {
      var rest := SerializeAll(ts[1..]) + x;
      Reassociate(Serialize(ts[0]), SerializeAll(ts[1..]), x);
      ReadsMeaning(ts[0], rest, depth);
      ReadsMeanings(ts[1..], x, depth);
      if Meaning(ts[0]).Got? {
        StopsExactly(ts[0]);
      }
    }
  }

  lemma {:induction false} ReadsPairs(ts: seq<Tree>, x: Text, depth: nat, entries: map<Key, Value>)
    requires AllWellFormed(ts) && depth > 0 && depth - 1 + DepthAll(ts) <= MAX_DEPTH && |ts| % 2 == 0
    ensures PairsSpec(SerializeAll(ts) + x, |ts| / 2, depth, entries) == MeaningPairs(ts, entries)
    decreases ts, 0
  {
    hide *;
    if ts == [] {
      NoPairs(SerializeAll(ts) + x, depth, entries);
    } else {
      FirstTwo(ts);
      var others := SerializeAll(ts[2..]);
      TwoTexts(Serialize(ts[0]), Serialize(ts[1]), others, x);
      ReadsMeaning(ts[0], Serialize(ts[1]) + (others + x), depth);
      ReadsMeaning(ts[1], others + x, depth);
      StopsExactly(ts[0]);
      StopsExactly(ts[1]);
      var k, v := Meaning(ts[0]), Meaning(ts[1]);
      PairsStep(Serialize(ts[0]), Serialize(ts[1]), others + x, |ts| / 2, depth, entries, k, v);
      MeaningStep(ts, entries);
      var pair := JoinPair(k, v);
      if pair.Got? {
        ReadsPairs(ts[2..], x, depth, entries[pair.value.0 := pair.value.1]);
      }
    }
  }

  lemma NoPairs(s: Text, depth: nat, entries: map<Key, Value>)
    ensures PairsSpec(s, 0, depth, entries) == MeaningPairs([], entries)
  {}

  /** What follows once a pair has been read. */
  ghost function AfterPair(pair: Read<(Key, Value)>, rest: Read<map<Key, Value>>): Read<map<Key, Value>> {
    match pair
    case Broken(e) => Broken(e)
    case Stopped(c, n) => Stopped(c, n)
    case Got(_, n) => rest.Plus(n)
  }

  lemma PairsStep(kt: Text, vt: Text, rest: Text, count: nat, depth: nat, entries: map<Key, Value>,
                  k: Read<Value>, v: Read<Value>)
    requires count > 0
    requires ReadSpec(kt + (vt + rest), depth) == k && (k.Got? ==> k.used == |kt|)
    requires ReadSpec(vt + rest, depth) == v && (v.Got? ==> v.used == |vt|)
    ensures var pair := JoinPair(k, v);
            PairsSpec(kt + (vt + rest), count, depth, entries) ==
            AfterPair(pair, if pair.Got? then
                              PairsSpec(rest, count - 1, depth, entries[pair.value.0 := pair.value.1])
                            else Got(entries, 0))
  {
    hide ReadSpec, MapKey;
    assert (kt + (vt + rest))[|kt|..] == vt + rest;
    assert (kt + (vt + rest))[|kt| + |vt|..] == rest;
  }

  lemma MeaningStep(ts: seq<Tree>, entries: map<Key, Value>)
    requires |ts| >= 2
    ensures var pair := JoinPair(Meaning(ts[0]), Meaning(ts[1]));
            MeaningPairs(ts, entries) ==
            AfterPair(pair, if pair.Got? then MeaningPairs(ts[2..], entries[pair.value.0 := pair.value.1])
                            else Got(entries, 0))
  {
    hide Meaning, JoinPair;
  }

  lemma FirstTwo(ts: seq<Tree>)
    requires AllWellFormed(ts) && |ts| >= 2
    ensures WellFormed(ts[0]) && WellFormed(ts[1]) && AllWellFormed(ts[2..])
    ensures SerializeAll(ts) == Serialize(ts[0]) + (Serialize(ts[1]) + SerializeAll(ts[2..]))
    ensures DepthAll(ts) >= 1 + Depth(ts[0]) && DepthAll(ts) >= 1 + Depth(ts[1]) && DepthAll(ts) >= DepthAll(ts[2..])
  {
    hide WellFormed, Serialize, Depth;
    assert ts[1..][1..] == ts[2..] && ts[1..][0] == ts[1];
  }

  lemma TwoTexts(k: Text, v: Text, others: Text, x: Text)
    ensures k + (v + others) + x == k + (v + (others + x))
  {}

  // ---------------------------------------------------------------- what makes the reader stop

  /** The replies that a map may be keyed by. */
  ghost predicate IsKey(t: Tree) {
    match t
    case Simple(kind, _) => kind == PLUS || kind == COLON
    case Bulk(_, _, _) => true
    case _ => false
  }

  /** A first line the reader stops at: an error reply, a kind it does not know, or a bad integer. */
  ghost predicate IsStopper(t: Tree) {
    match t
    case Simple(kind, line) => kind != PLUS && kind != UNDERSCORE && (kind == COLON ==> HeaderInt(line).None?)
    case Null(kind, _) => kind == BANG || kind == PIPE
    case Bulk(kind, _, _) => kind == BANG
    case List(_, _, _) => false
    case Map(_, _) => false
    case Attribute(_, _, _) => true
  }

  /** Nothing in `t` makes the reader stop, and every map key is one. */
  ghost predicate StopperFree(t: Tree) {
    && !IsStopper(t)
    && match t
       case List(_, _, items) => AllStopperFree(items)
       case Map(_, items) => PairsStopperFree(items)
       case _ => true
  }

  ghost predicate AllStopperFree(ts: seq<Tree>) {
    ts != [] ==> StopperFree(ts[0]) && AllStopperFree(ts[1..])
  }

  ghost predicate PairsStopperFree(ts: seq<Tree>) {
    |ts| >= 2 ==> StopperFree(ts[0]) && IsKey(ts[0]) && StopperFree(ts[1]) && PairsStopperFree(ts[2..])
  }

  /** The only thing in `t` that makes the reader stop is its very last part. */
  ghost predicate EndsInStopper(t: Tree) {
    match t
    case List(_, _, items) => LastEndsInStopper(items)
    case Map(_, items) => LastPairEndsInStopper(items)
    case _ => IsStopper(t) && Body(t) == []
  }

  ghost predicate LastEndsInStopper(ts: seq<Tree>) {
    ts != [] && if |ts| == 1 then EndsInStopper(ts[0]) else StopperFree(ts[0]) && LastEndsInStopper(ts[1..])
  }

  ghost predicate LastPairEndsInStopper(ts: seq<Tree>) {
    && |ts| >= 2 && StopperFree(ts[0]) && IsKey(ts[0])
    && if |ts| == 2 then EndsInStopper(ts[1]) else StopperFree(ts[1]) && LastPairEndsInStopper(ts[2..])
  }

  /** A whole reply never breaks the reader.  It gives a value exactly if nothing in the reply makes the
      reader stop, and then the reply was read to its end; otherwise reading stops inside the reply, and at
      its end exactly if the stopper is the last thing in it. */
  lemma {:induction false} StopsExactly(t: Tree)
    requires WellFormed(t)
    ensures !Meaning(t).Broken? && Meaning(t).used <= |Serialize(t)|
    ensures Meaning(t).Got? <==> StopperFree(t)
    ensures Meaning(t).used == |Serialize(t)| <==> StopperFree(t) || EndsInStopper(t)
    ensures StopperFree(t) ==> !EndsInStopper(t) && (MapKey(Meaning(t).value).Some? <==> IsKey(t))
    decreases t, 2
  {
    hide MeaningAll, MeaningPairs, SerializeAll, AllStopperFree, PairsStopperFree, LastEndsInStopper,
      LastPairEndsInStopper, Atoi, TrimCRLF, IsLine, AllWellFormed;
    match t
    case Simple(_, _) =>
    case Null(_, _) =>
    case Bulk(_, _, _) =>
    case List(_, _, items) => AllStop(items);
    case Map(_, items) => PairsStop(items, map[]);
    case Attribute(_, items, reply) =>
      assert Serialize(reply) != [];
  }

  lemma {:induction false} AllStop(ts: seq<Tree>)
    requires AllWellFormed(ts)
    ensures !MeaningAll(ts).Broken? && MeaningAll(ts).used <= |SerializeAll(ts)|
    ensures MeaningAll(ts).Got? <==> AllStopperFree(ts)
    ensures MeaningAll(ts).used == |SerializeAll(ts)| <==> AllStopperFree(ts) || LastEndsInStopper(ts)
    ensures AllStopperFree(ts) ==> !LastEndsInStopper(ts)
    decreases ts, 0
  {
    hide Meaning, Serialize, StopperFree, EndsInStopper, MapKey;
    if ts == [] {
    } else {
      StopsExactly(ts[0]);
      AllStop(ts[1..]);
      TextPositive(ts[1..]);
    }
  }

  lemma {:induction false} PairsStop(ts: seq<Tree>, entries: map<Key, Value>)
    requires AllWellFormed(ts) && |ts| % 2 == 0
    ensures var r := MeaningPairs(ts, entries);
            && !r.Broken? && r.used <= |SerializeAll(ts)|
            && (r.Got? <==> PairsStopperFree(ts))
            && (r.used == |SerializeAll(ts)| <==> PairsStopperFree(ts) || LastPairEndsInStopper(ts))
    ensures PairsStopperFree(ts) ==> !LastPairEndsInStopper(ts)
    decreases ts, 0
  {
    hide Meaning, Serialize, StopperFree, EndsInStopper, WellFormed, MeaningPairs, MapKey, IsKey;
    if ts == [] {
      NoPairs([], 0, entries);
    } else {
      assert ts[1..][1..] == ts[2..] && ts[1..][0] == ts[1];
      StopsExactly(ts[0]);
      StopsExactly(ts[1]);
      MeaningStep(ts, entries);
      TextPositive(ts[1..]);
      TextPositive(ts[2..]);
      var pair := JoinPair(Meaning(ts[0]), Meaning(ts[1]));
      if pair.Got? {
        PairsStop(ts[2..], entries[pair.value.0 := pair.value.1]);
      }
    }
  }

  lemma TextPositive(ts: seq<Tree>)
    ensures ts == [] <==> SerializeAll(ts) == []
  {
    if ts != [] {
      assert |SerializeAll(ts)| >= |Serialize(ts[0])| >= 1;
    }
  }
}
