/** Commands from the application: `internal/resp/command.go`, the reader of `internal/resp/parser.go`
    and `EncodeCommand` of `internal/resp/client.go`. */
module Commands {
  import opened Bytes
  import opened Streams
  import opened Replies
  import opened ReplyTrees

  datatype Command = Command(args: seq<Text>, name: Text, raw: Text) {

    /** The key a command addresses, for the commands whose first argument is a key. */
    function Key(): Option<Text> {
      if name in KEYED_COMMANDS && |args| > 1 then Some(args[1]) else None
    }
  }

  const KEYED_COMMANDS: set<Text> := {
    Ascii("GET"), Ascii("SET"), Ascii("SETEX"), Ascii("SETNX"), Ascii("PSETEX"), Ascii("GETEX"), Ascii("GETDEL"),
    Ascii("DEL"), Ascii("UNLINK"), Ascii("EXPIRE"), Ascii("PEXPIRE"), Ascii("TTL"), Ascii("PTTL"), Ascii("PERSIST"),
    Ascii("INCR"), Ascii("DECR"), Ascii("INCRBY"), Ascii("APPEND"), Ascii("STRLEN"),
    Ascii("HGET"), Ascii("HSET"), Ascii("HDEL"), Ascii("HGETALL"), Ascii("HMGET"),
    Ascii("LPUSH"), Ascii("RPUSH"), Ascii("LPOP"), Ascii("RPOP"), Ascii("LRANGE"), Ascii("LLEN"),
    Ascii("SADD"), Ascii("SREM"), Ascii("SMEMBERS"),
    Ascii("ZADD"), Ascii("ZRANGE"), Ascii("ZSCORE"),
    Ascii("XADD"),
    Ascii("EXISTS"), Ascii("TYPE"), Ascii("DUMP")
  }

  function NewCommand(args: seq<Text>, raw: Text): Command {
    Command(args, if args == [] then [] else Upper(args[0]), raw)
  }

  /** The name is the first argument in upper case. */
  ghost predicate Named(c: Command) {
    c.args != [] && IsUpperOf(c.name, c.args[0])
  }

  /** `c` has these arguments and these raw bytes, and is named after its first argument. */
  ghost predicate IsCommand(c: Command, args: seq<Text>, raw: Text) {
    c.args == args && c.raw == raw && Named(c)
  }

  lemma NewCommandIs(args: seq<Text>, raw: Text)
    requires args != []
    ensures IsCommand(NewCommand(args, raw), args, raw)
  {
    UpperExactly(args[0], NewCommand(args, raw).name);
  }

  /** Commands whose first arguments differ in case only have the same name, and no others do. */
  lemma SameName(c: Command, d: Command)
    requires Named(c) && Named(d)
    ensures c.name == d.name <==> EqualFold(c.args[0], d.args[0])
    ensures forall i | 0 <= i < |c.name| :: !IsLower(c.name[i])
  {
    hide Upper;
    UpperExactly(c.args[0], c.name);
    UpperExactly(d.args[0], d.name);
    UpperFolds(c.args[0], d.args[0]);
  }

  /** The keyed commands by name, and where their key stands. */
  lemma KeyExactly(c: Command, key: Text)
    ensures c.Key() == Some(key) <==>
            && |c.args| >= 2 && key == c.args[1]
            && c.name in {
                 Ascii("GET"), Ascii("SET"), Ascii("SETEX"), Ascii("SETNX"), Ascii("PSETEX"), Ascii("GETEX"),
                 Ascii("GETDEL"), Ascii("DEL"), Ascii("UNLINK"), Ascii("EXPIRE"), Ascii("PEXPIRE"), Ascii("TTL"),
                 Ascii("PTTL"), Ascii("PERSIST"), Ascii("INCR"), Ascii("DECR"), Ascii("INCRBY"), Ascii("APPEND"),
                 Ascii("STRLEN"), Ascii("HGET"), Ascii("HSET"), Ascii("HDEL"), Ascii("HGETALL"), Ascii("HMGET"),
                 Ascii("LPUSH"), Ascii("RPUSH"), Ascii("LPOP"), Ascii("RPOP"), Ascii("LRANGE"), Ascii("LLEN"),
                 Ascii("SADD"), Ascii("SREM"), Ascii("SMEMBERS"), Ascii("ZADD"), Ascii("ZRANGE"), Ascii("ZSCORE"),
                 Ascii("XADD"), Ascii("EXISTS"), Ascii("TYPE"), Ascii("DUMP")}
  {
    hide Ascii;
  }

  // ---------------------------------------------------------------- specification of the reader

  /** One command at the front of `s`. */
  function ParseCommand(s: Text): (p: Parsed<Command>)
    ensures p.Done? ==> 1 <= p.used <= |s| && p.value.raw == s[..p.used]
  {
    if s == [] then Fail(EOF)
    else if s[0] != STAR then ParseInline(s)
    else
      match HeadSpec(s)
      case Fail(e) => Fail(e)
      case Done((_, line), n) =>
        match CommandCount(line)
        case Fail(e) => Fail(e)
        case Done(count, _) =>
          match ParseArgs(s[n..], count)
          case Fail(e) => Fail(e)
          case Done(args, used) => Done(NewCommand(args, s[..n + used]), n + used)
  }

  /** Every command that is read has arguments, and is named after the first. */
  lemma CommandNamed(s: Text)
    requires ParseCommand(s).Done?
    ensures Named(ParseCommand(s).value)
  {
    hide LineSpec, ParseArgs, Fields, Upper;
    var c := ParseCommand(s).value;
    NewCommandIs(c.args, c.raw);
  }

  function ParseInline(s: Text): (p: Parsed<Command>)
    ensures p.Done? ==> 1 <= p.used <= |s| && p.value.raw == s[..p.used]
  {
    match LineSpec(s)
    case Fail(e) => Fail(e)
    case Done(line, n) =>
      var args := Fields(TrimCRLF(line));
      if args == [] then Fail(EmptyInline) else Done(NewCommand(args, line), n)
  }

  /** The number of arguments an array header announces. */
  function CommandCount(line: Text): Parsed<nat> {
    match HeaderInt(line)
    case None => Fail(BadInteger)
    case Some(n) =>
      if n <= 0 then Fail(NonPositiveCount) else if n > MAX_AGGREGATE then Fail(TooManyElements) else Done(n, 0)
  }

  function ParseArgs(s: Text, count: nat): (p: Parsed<seq<Text>>)
    ensures p.Done? ==> |p.value| == count && p.used <= |s|
  {
    if count == 0 then Done([], 0)
    else
      match ParseArg(s)
      case Fail(e) => Fail(e)
      case Done(arg, n) =>
        match ParseArgs(s[n..], count - 1)
        case Fail(e) => Fail(e)
        case Done(args, m) => Done([arg] + args, n + m)
  }

  /** One bulk argument; its CRLF is checked, unlike that of a bulk reply. */
  function ParseArg(s: Text): (p: Parsed<Text>)
    ensures p.Done? ==> p.used <= |s|
  {
    if s == [] then Fail(EOF)
    else if s[0] != DOLLAR then Fail(NotBulk)
    else
      match HeadSpec(s)
      case Fail(e) => Fail(e)
      case Done((_, line), n) =>
        match BulkLength(line)
        case Fail(e) => Fail(e)
        case Done(length, _) => ParsePayloadCRLF(s[n..], length).Plus(n)
  }

  function BulkLength(line: Text): Parsed<nat> {
    match HeaderInt(line)
    case None => Fail(BadInteger)
    case Some(n) => if n < 0 then Fail(NegativeBulk) else if n > MAX_BULK then Fail(BulkTooLong) else Done(n, 0)
  }

  function ParsePayloadCRLF(s: Text, length: nat): (p: Parsed<Text>)
    ensures p.Done? ==> p.used == length + 2 <= |s|
  {
    match TakeSpec(s, length + 2)
    case Fail(e) => Fail(e)
    case Done(payload, n) => if payload[length..] != CRLF then Fail(NoCRLF) else Done(payload[..length], n)
  }

  // ---------------------------------------------------------------- the reader

  method ReadCommand(reader: Reader) returns (r: Result<Command>)
    requires reader.Valid()
    modifies reader
    ensures reader.Valid()
    ensures Follows(ParseCommand(old(reader.Rest())), r, old(reader.Rest()), reader.Rest())
    ensures r.Ok? ==> Named(r.value)
  {
    hide ParseArgs, ParseInline, LineSpec, CommandCount, NewCommand, HeadSpec, Reader.Rest;
    ghost var s := reader.Rest();
    HeadUnfold(s);
    var first := reader.ReadByte();
    if first.Err? {
      return Err(first.error);
    }
    if first.value != STAR {
      reader.UnreadByte();
      assert reader.Rest() == s;
      r := ReadInline(reader);
      if r.Ok? {
        CommandNamed(s);
      }
      return;
    }
    var line := ReadRESPLine(reader);
    if line.Err? {
      return Err(line.error);
    }
    var raw := [STAR] + line.value;
    DropTwice(s, 1, |line.value|);
    ghost var n := 1 + |line.value|;
    HeadBytes(s, raw, reader.Rest());
    var count := CommandCount(line.value);
    if count.Fail? {
      return Err(count.error);
    }
    var args, tail := ReadArgs(reader, count.value);
    if args.Err? {
      return Err(args.error);
    }
    raw := raw + tail;
    CommandRaw(s, n, raw, tail, reader.Rest());
    CommandNamed(s);
    return Ok(NewCommand(args.value, raw));
  }

  lemma HeadUnfold(s: Text)
    ensures s != [] ==>
              var p := LineSpec(s[1..]);
              HeadSpec(s) == if p.Fail? then Fail(p.error) else Done((s[0], p.value), 1 + p.used)
    ensures s != [] && LineSpec(s[1..]).Done? ==>
              |LineSpec(s[1..]).value| == LineSpec(s[1..]).used
  {
    hide IndexLF;
  }

  /** The bytes of the first line. */
  lemma HeadBytes(s: Text, raw: Text, rest: Text)
    requires HeadSpec(s).Done? && raw == [HeadSpec(s).value.0] + HeadSpec(s).value.1 && rest == s[HeadSpec(s).used..]
    ensures raw == s[..HeadSpec(s).used] && s == raw + rest
  {
    HeadExact(s);
  }

  lemma CommandRaw(s: Text, n: nat, raw: Text, tail: Text, rest: Text)
    requires |tail| + |rest| + n == |s| && n <= |raw| && raw == s[..n] + tail && s[n..] == tail + rest
    ensures raw == s[..n + |tail|] && rest == s[n + |tail|..]
  {
    assert s == s[..n] + (tail + rest);
  }

  method ReadInline(reader: Reader) returns (r: Result<Command>)
    requires reader.Valid()
    modifies reader
    ensures reader.Valid()
    ensures Follows(ParseInline(old(reader.Rest())), r, old(reader.Rest()), reader.Rest())
  {
    var line := ReadRESPLine(reader);
    if line.Err? {
      return Err(line.error);
    }
    var args := Fields(TrimCRLF(line.value));
    if args == [] {
      return Err(EmptyInline);
    }
    return Ok(NewCommand(args, line.value));
  }

  /** The loop over the arguments, which also collects their raw bytes. */
  method ReadArgs(reader: Reader, count: nat) returns (r: Result<seq<Text>>, raw: Text)
    requires reader.Valid()
    modifies reader
    ensures reader.Valid()
    ensures Follows(ParseArgs(old(reader.Rest()), count), r, old(reader.Rest()), reader.Rest())
    ensures r.Ok? ==> old(reader.Rest()) == raw + reader.Rest()
  {
    hide ParseArg, ParseArgs;
    ghost var s := reader.Rest();
    var args: seq<Text> := [];
    raw := [];
    PrependNone(ParseArgs(s, count));
    for index := 0 to count
      invariant reader.Valid()
      invariant s == raw + reader.Rest()
      invariant |args| == index
      invariant ParseArgs(s, count) == Prepend(args, |raw|, ParseArgs(reader.Rest(), count - index))
    {
      ghost var before := reader.Rest();
      var arg, bytes := ReadArg(reader);
      PrependOne(args, |raw|, before, count - index);
      if arg.Err? {
        return Err(arg.error), raw;
      }
      MoveBytes(raw, bytes, before, reader.Rest());
      args := args + [arg.value];
      raw := raw + bytes;
    }
    NoMoreArgs(args, reader.Rest());
    return Ok(args), raw;
  }

  ghost function Prepend(args: seq<Text>, used: nat, p: Parsed<seq<Text>>): Parsed<seq<Text>> {
    match p
    case Fail(e) => Fail(e)
    case Done(more, n) => Done(args + more, used + n)
  }

  lemma PrependNone(p: Parsed<seq<Text>>)
    ensures Prepend([], 0, p) == p
  {
    assert p.Done? ==> [] + p.value == p.value;
  }

  lemma NoMoreArgs(args: seq<Text>, s: Text)
    ensures ParseArgs(s, 0) == Done([], 0) && args + [] == args
  {}

  lemma PrependOne(args: seq<Text>, used: nat, s: Text, count: nat)
    requires count > 0
    ensures match ParseArg(s)
            case Fail(e) => Prepend(args, used, ParseArgs(s, count)) == Fail(e)
            case Done(arg, n) =>
              Prepend(args, used, ParseArgs(s, count)) ==
              Prepend(args + [arg], used + n, ParseArgs(s[n..], count - 1))
  {
    if ParseArg(s).Done? && ParseArgs(s, count).Done? {
      var more := ParseArgs(s[ParseArg(s).used..], count - 1).value;
      assert args + ([ParseArg(s).value] + more) == args + [ParseArg(s).value] + more;
    }
  }

  method ReadArg(reader: Reader) returns (r: Result<Text>, raw: Text)
    requires reader.Valid()
    modifies reader
    ensures reader.Valid()
    ensures Follows(ParseArg(old(reader.Rest())), r, old(reader.Rest()), reader.Rest())
    ensures r.Ok? ==> old(reader.Rest()) == raw + reader.Rest() && |raw| == ParseArg(old(reader.Rest())).used
  {
    hide LineSpec, BulkLength, ParsePayloadCRLF;
    ghost var s := reader.Rest();
    raw := [];
    var prefix := reader.ReadByte();
    if prefix.Err? {
      return Err(prefix.error), raw;
    }
    if prefix.value != DOLLAR {
      return Err(NotBulk), raw;
    }
    var line := ReadRESPLine(reader);
    if line.Err? {
      return Err(line.error), raw;
    }
    raw := [DOLLAR] + line.value;
    DropTwice(s, 1, |line.value|);
    ghost var s1 := reader.Rest();
    assert s == raw + s1 by {
      HeadExact(s);
    }
    var length := BulkLength(line.value);
    if length.Fail? {
      return Err(length.error), raw;
    }
    ghost var payload := ParsePayloadCRLF(s1, length.value);
    var arg, bytes := ReadPayloadCRLF(reader, length.value);
    if arg.Err? {
      return Err(arg.error), raw;
    }
    MoveBytes(raw, bytes, s1, reader.Rest());
    DropTwice(s, 1 + |line.value|, payload.used);
    raw := raw + bytes;
    return arg, raw;
  }

  method ReadPayloadCRLF(reader: Reader, length: nat) returns (r: Result<Text>, raw: Text)
    requires reader.Valid()
    modifies reader
    ensures reader.Valid()
    ensures Follows(ParsePayloadCRLF(old(reader.Rest()), length), r, old(reader.Rest()), reader.Rest())
    ensures r.Ok? ==> old(reader.Rest()) == raw + reader.Rest() && |raw| == length + 2
  {
    raw := [];
    var payload := reader.ReadFull(length + 2);
    if payload.Err? {
      return Err(payload.error), raw;
    }
    if payload.value[length..] != CRLF {
      return Err(NoCRLF), raw;
    }
    return Ok(payload.value[..length]), payload.value;
  }

  // ---------------------------------------------------------------- the encoder

  function EncodeArg(arg: Text): Text {
    [DOLLAR] + (Itoa(|arg|) + CRLF) + (arg + CRLF)
  }

  function EncodeArgs(args: seq<Text>): Text {
    if args == [] then [] else EncodeArg(args[0]) + EncodeArgs(args[1..])
  }

  function Encode(args: seq<Text>): Text {
    [STAR] + (Itoa(|args|) + CRLF) + EncodeArgs(args)
  }

  method EncodeCommand(args: seq<Text>) returns (b: Text)
    ensures b == Encode(args)
  {
    b := [STAR] + (Itoa(|args|) + CRLF);
    ghost var head := b;
    for i := 0 to |args|
      invariant b + EncodeArgs(args[i..]) == head + EncodeArgs(args)
    {
      assert args[i..][1..] == args[i + 1..];
      ghost var rest := EncodeArgs(args[i + 1..]);
      assert b + (EncodeArg(args[i]) + rest) == (b + EncodeArg(args[i])) + rest;
      b := b + EncodeArg(args[i]);
    }
    assert args[|args|..] == [];
  }

  // ---------------------------------------------------------------- round trips

  /** The argument lists the reader accepts. */
  ghost predicate InLimits(args: seq<Text>) {
    1 <= |args| <= MAX_AGGREGATE && ArgsInLimits(args)
  }

  ghost predicate ArgsInLimits(args: seq<Text>) {
    forall i | 0 <= i < |args| :: |args[i]| <= MAX_BULK
  }

  lemma {:induction false} ItoaLength(n: nat, k: nat)
    requires k > 0 && n < Power10(k)
    ensures |Itoa(n)| <= k
  {
    if n >= 10 {
      ItoaLength(n / 10, k - 1);
    }
  }

  /** A header line as it is encoded reads back as its number; a line of any other form the reader may see
      for the same text is no line at all. */
  lemma EncodedHeader(n: nat)
    ensures HeaderInt(Itoa(n) + CRLF) == if n <= MAX_INT then Some(n) else None
    ensures n <= MAX_INT ==> IsLine(Itoa(n) + CRLF)
    ensures LF !in Itoa(n)
  {
    hide Itoa, Atoi, TrimCRLF;
    TrimTerminated(Itoa(n), CRLF);
    AtoiOfItoa(n);
    if n <= MAX_INT {
      ItoaFits(n);
    }
  }

  lemma ItoaFits(n: nat)
    requires n <= MAX_INT + 1
    ensures |Itoa(n)| <= 19
  {
    hide Itoa;
    assert Power10(19) == 10_000_000_000_000_000_000 by {
      assert Power10(10) == 10_000_000_000;
    }
    ItoaLength(n, 19);
  }

  /** Reading the header that was encoded: the header line itself, or no line (it is too long). */
  lemma ReadEncodedHeader(kind: byte, n: nat, x: Text)
    ensures var s := [kind] + (Itoa(n) + CRLF) + x;
            HeadSpec(s).Done? ==>
              HeadSpec(s) == Done((kind, Itoa(n) + CRLF), 1 + |Itoa(n) + CRLF|) && s[HeadSpec(s).used..] == x
    ensures n <= MAX_INT ==> HeadSpec([kind] + (Itoa(n) + CRLF) + x).Done?
  {
    var header := Itoa(n) + CRLF;
    var s := [kind] + header + x;
    assert s[1..] == header + x;
    EncodedHeader(n);
    if LineSpec(s[1..]).Done? {
      var line := LineSpec(s[1..]).value;
      LineExact(s[1..], line);
      assert line[|line| - 1] == (header + x)[|line| - 1];
      assert (header + x)[|header| - 1] == LF;
      assert |line| == |header| && line == header;
    }
    if n <= MAX_INT {
      LineOfPrefix(header, x);
    }
  }

  lemma ReadsArg(arg: Text, x: Text)
    ensures |arg| <= MAX_BULK ==> ParseArg(EncodeArg(arg) + x) == Done(arg, |EncodeArg(arg)|)
    ensures |arg| > MAX_BULK ==> ParseArg(EncodeArg(arg) + x).Fail?
  {
    var rest := arg + CRLF + x;
    assert EncodeArg(arg) + x == [DOLLAR] + (Itoa(|arg|) + CRLF) + rest;
    ReadEncodedHeader(DOLLAR, |arg|, rest);
    EncodedHeader(|arg|);
    if |arg| <= MAX_BULK {
      assert rest[..|arg| + 2] == arg + CRLF;
      assert (arg + CRLF)[|arg|..] == CRLF && (arg + CRLF)[..|arg|] == arg;
    }
  }

  lemma {:induction false} ReadsArgs(args: seq<Text>, x: Text)
    ensures ArgsInLimits(args) ==> ParseArgs(EncodeArgs(args) + x, |args|) == Done(args, |EncodeArgs(args)|)
    ensures !ArgsInLimits(args) ==> ParseArgs(EncodeArgs(args) + x, |args|).Fail?
  {
    hide ParseArg, EncodeArg;
    if args == [] {
    } else {
      var first, others := EncodeArg(args[0]), EncodeArgs(args[1..]);
      assert EncodeArgs(args) + x == first + (others + x);
      assert (first + (others + x))[|first|..] == others + x;
      ReadsArg(args[0], others + x);
      ReadsArgs(args[1..], x);
      assert args == [args[0]] + args[1..];
      assert ArgsInLimits(args) <==> |args[0]| <= MAX_BULK && ArgsInLimits(args[1..]);
    }
  }

  /** The encoding byte for byte, on the example of the protocol's documentation. */
  lemma EncodingExample()
    ensures Encode([Ascii("LLEN"), Ascii("mylist")]) ==
            Ascii("*2\r\n") + Ascii("$4\r\n") + Ascii("LLEN\r\n") + Ascii("$6\r\n") + Ascii("mylist\r\n")
  {
    var a, b := Ascii("LLEN"), Ascii("mylist");
    ExampleArg("LLEN", 52);
    ExampleArg("mylist", 54);
    ExampleHeader(STAR, 2);
    ExampleLines();
    assert [a, b][1..] == [b] && [b][1..] == [];
    hide Ascii, Itoa, EncodeArg;
    assert EncodeArgs([b]) == EncodeArg(b) + [];
    assert EncodeArgs([a, b]) == EncodeArg(a) + EncodeArg(b);
  }

  lemma ExampleHeader(kind: byte, n: nat)
    requires n < 10
    ensures [kind] + (Itoa(n) + CRLF) == [kind, 48 + n as byte, CR, LF]
  {}

  lemma ExampleArg(s: string, digit: byte)
    requires |s| < 10 && digit as int == 48 + |s|
    ensures EncodeArg(Ascii(s)) == [DOLLAR, digit, CR, LF] + (Ascii(s) + CRLF)
  {
    hide Ascii;
    ExampleHeader(DOLLAR, |s|);
  }

  lemma ExampleLines()
    ensures Ascii("*2\r\n") == [STAR, 50, CR, LF]
    ensures Ascii("$4\r\n") == [DOLLAR, 52, CR, LF] && Ascii("$6\r\n") == [DOLLAR, 54, CR, LF]
    ensures Ascii("LLEN\r\n") == Ascii("LLEN") + CRLF && Ascii("mylist\r\n") == Ascii("mylist") + CRLF
  {}

  /** An encoded command is read back as its arguments, with its own bytes as `raw` and nothing of what
      follows touched, if it is within the limits; otherwise it is refused. */
  lemma {:induction false} CommandRoundTrip(args: seq<Text>, x: Text)
    ensures InLimits(args) ==>
              ParseCommand(Encode(args) + x) == Done(NewCommand(args, Encode(args)), |Encode(args)|)
    ensures InLimits(args) ==> IsCommand(ParseCommand(Encode(args) + x).value, args, Encode(args))
    ensures !InLimits(args) ==> ParseCommand(Encode(args) + x).Fail?
  {
    hide HeadSpec, ParseArgs, HeaderInt, Itoa, EncodeArgs, NewCommand, ArgsInLimits;
    var rest := EncodeArgs(args) + x;
    var s := Encode(args) + x;
    assert s == [STAR] + (Itoa(|args|) + CRLF) + rest;
    ReadEncodedHeader(STAR, |args|, rest);
    EncodedHeader(|args|);
    ReadsArgs(args, x);
    if InLimits(args) {
      assert s[..|Encode(args)|] == Encode(args);
      NewCommandIs(args, Encode(args));
    }
  }

  /** Every inline line, with LF or CRLF at its end: it is read as its words, whatever white space is between,
      before and after them, unless there are none or the line is too long. */
  lemma InlineRoundTrip(lead: Text, words: seq<Text>, gaps: seq<Text>, x: Text)
    requires |words| == |gaps| && AreWords(words) && AreGaps(gaps) && IsBlank(lead)
    requires LF !in lead && forall i | 0 <= i < |gaps| :: LF !in gaps[i]
    requires lead == [] && words != [] ==> words[0][0] != STAR
    ensures var line := lead + Spaced(words, gaps) + [LF];
            ParseCommand(line + x) ==
            if |line| > MAX_LINE then Fail(LineTooLong)
            else if words == [] then Fail(EmptyInline)
            else Done(NewCommand(words, line), |line|)
    ensures words != [] ==>
              var line := lead + Spaced(words, gaps) + [LF]; IsCommand(NewCommand(words, line), words, line)
  {
    hide Fields, Spaced, TrimCRLF;
    if words != [] {
      NewCommandIs(words, lead + Spaced(words, gaps) + [LF]);
    }
    var text := lead + Spaced(words, gaps);
    var line := text + [LF];
    OneLine(words, gaps);
    assert (line + x)[0] != STAR by {
      FirstByteOf(words, gaps);
      assert (line + x)[0] == (if lead != [] then lead[0] else if words != [] then words[0][0] else LF);
    }
    if |line| > MAX_LINE {
      OverlongLine(line, x);
    } else {
      LineOfPrefix(line, x);
      FieldsOfSpaced(lead, words, gaps);
      FieldsTrailing(text, [LF]);
      var t := TrimCRLF(line);
      assert line == t + line[|t|..];
      FieldsTrailing(t, line[|t|..]);
    }
  }

  lemma FirstByteOf(words: seq<Text>, gaps: seq<Text>)
    requires |words| == |gaps| && AreWords(words)
    ensures words == [] ==> Spaced(words, gaps) == []
    ensures words != [] ==> IsWord(words[0]) && Spaced(words, gaps) != [] && Spaced(words, gaps)[0] == words[0][0]
  {}

  lemma {:induction false} OneLine(words: seq<Text>, gaps: seq<Text>)
    requires |words| == |gaps| && AreWords(words) && forall i | 0 <= i < |gaps| :: LF !in gaps[i]
    ensures LF !in Spaced(words, gaps)
  {
    if words == [] {
    } else {
      OneLine(words[1..], gaps[1..]);
      assert IsWord(words[0]) && LF !in gaps[0];
    }
  }

  /** All the commands that can be read from `s`, up to the first one that cannot. */
  function ReadAll(s: Text): seq<Command> {
    match ParseCommand(s)
    case Fail(_) => []
    case Done(c, n) => [c] + ReadAll(s[n..])
  }

  function EncodeAll(batch: seq<seq<Text>>): Text {
    if batch == [] then [] else Encode(batch[0]) + EncodeAll(batch[1..])
  }

  /** Pipelined commands are read back one by one, in order, each with its own encoding as `raw`. */
  lemma {:induction false} Pipelining(batch: seq<seq<Text>>, x: Text)
    requires forall i | 0 <= i < |batch| :: InLimits(batch[i])
    ensures ReadAll(EncodeAll(batch) + x) ==
            seq(|batch|, i requires 0 <= i < |batch| => NewCommand(batch[i], Encode(batch[i]))) + ReadAll(x)
    ensures forall i | 0 <= i < |batch| :: IsCommand(ReadAll(EncodeAll(batch) + x)[i], batch[i], Encode(batch[i]))
  {
    hide ParseCommand, Encode, NewCommand;
    forall i | 0 <= i < |batch|
      ensures IsCommand(NewCommand(batch[i], Encode(batch[i])), batch[i], Encode(batch[i]))
    {
      NewCommandIs(batch[i], Encode(batch[i]));
    }
    if batch == [] {
      assert EncodeAll(batch) + x == x;
    } else {
      var first, others := Encode(batch[0]), EncodeAll(batch[1..]);
      assert EncodeAll(batch) + x == first + (others + x);
      assert (first + (others + x))[|first|..] == others + x;
      CommandRoundTrip(batch[0], others + x);
      Pipelining(batch[1..], x);
    }
  }

  // ---------------------------------------------------------------- self-delimiting commands

  lemma LineStable(s: Text, t: Text)
    requires LineSpec(s).Done? && s[..LineSpec(s).used] <= t
    ensures LineSpec(t) == LineSpec(s)
  {
    var l := LineSpec(s).value;
    LineExact(s, l);
    LineExact(t, l);
  }

  lemma HeadStable(s: Text, t: Text)
    requires HeadSpec(s).Done? && s[..HeadSpec(s).used] <= t
    ensures HeadSpec(t) == HeadSpec(s)
  {
    var n := HeadSpec(s).used;
    assert t[0] == s[..n][0] == s[0];
    assert s[1..][..n - 1] == s[..n][1..] <= t[1..];
    LineStable(s[1..], t[1..]);
  }

  /** If `t` starts as `s` does for `n` bytes, it does so for fewer, and from any of them on. */
  lemma SameStart(s: Text, t: Text, m: nat, n: nat)
    requires m <= n <= |s| && s[..n] <= t
    ensures m <= |t| && s[..m] <= t && s[m..][..n - m] <= t[m..]
    ensures n > 0 ==> t != [] && s[0] == t[0]
  {
    assert s[..n] == t[..n];
    assert s[..m] == s[..n][..m] && s[m..][..n - m] == s[..n][m..] == t[..n][m..] == t[m..][..n - m];
    assert n > 0 ==> s[0] == s[..n][0] == t[..n][0] == t[0];
  }

  lemma ArgStable(s: Text, t: Text)
    requires ParseArg(s).Done? && s[..ParseArg(s).used] <= t
    ensures ParseArg(t) == ParseArg(s)
  {
    hide HeadSpec, BulkLength, ParsePayloadCRLF;
    var m, n := HeadSpec(s).used, ParseArg(s).used;
    SameStart(s, t, m, n);
    HeadStable(s, t);
    PayloadStable(s[m..], t[m..], n - m - 2);
  }

  lemma PayloadStable(s: Text, t: Text, length: nat)
    requires ParsePayloadCRLF(s, length).Done? && s[..length + 2] <= t
    ensures ParsePayloadCRLF(t, length) == ParsePayloadCRLF(s, length)
  {
    assert t[..length + 2] == s[..length + 2];
  }

  lemma {:induction false} ArgsStable(s: Text, t: Text, count: nat)
    requires ParseArgs(s, count).Done? && s[..ParseArgs(s, count).used] <= t
    ensures ParseArgs(t, count) == ParseArgs(s, count)
  {
    hide ParseArg;
    if count == 0 {
    } else {
      var m, n := ParseArg(s).used, ParseArgs(s, count).used;
      SameStart(s, t, m, n);
      ArgStable(s, t);
      ArgsStable(s[m..], t[m..], count - 1);
    }
  }

  /** Commands delimit themselves too: an accepted command followed by anything else is read the same. */
  lemma CommandSelfDelimiting(s: Text, x: Text)
    requires ParseCommand(s).Done?
    ensures ParseCommand(s[..ParseCommand(s).used] + x) == ParseCommand(s)
  {
    CommandStable(s, s[..ParseCommand(s).used] + x);
  }

  lemma CommandStable(s: Text, t: Text)
    requires ParseCommand(s).Done? && s[..ParseCommand(s).used] <= t
    ensures ParseCommand(t) == ParseCommand(s)
  {
    hide LineSpec, HeadSpec, ParseArgs, CommandCount, NewCommand, Fields, TrimCRLF;
    var n := ParseCommand(s).used;
    SameStart(s, t, 0, n);
    if s[0] != STAR {
      LineStable(s, t);
    } else {
      var m := HeadSpec(s).used;
      SameStart(s, t, m, n);
      HeadStable(s, t);
      ArgsStable(s[m..], t[m..], CommandCount(HeadSpec(s).value.1).value);
      assert t[..n] == s[..n];
    }
  }

  /** The raw bytes of a command, alone, are that command. */
  lemma {:induction false} RawIsWhole(s: Text)
    requires ParseCommand(s).Done?
    ensures var c := ParseCommand(s).value; ParseCommand(c.raw) == Done(c, |c.raw|)
  {
    CommandSelfDelimiting(s, []);
    assert ParseCommand(s).value.raw + [] == ParseCommand(s).value.raw;
  }
  /** `c` is the text of one whole command. */
  ghost predicate IsCommandText(c: Text) {
    ParseCommand(c).Done? && ParseCommand(c).used == |c|
  }

  /** No command is a proper prefix of another. */
  lemma CommandPrefixFree(c: Text, d: Text)
    requires IsCommandText(c) && IsCommandText(d) && c <= d
    ensures c == d
  {
    hide ParseCommand;
    CommandSelfDelimiting(c, d[|c|..]);
    assert c[..|c|] + d[|c|..] == d;
  }
  // ---------------------------------------------------------------- the command grammar

  /** Arguments with their length lines verbatim, each argument followed by CRLF. */
  function ArgsText(lines: seq<Text>, args: seq<Text>): Text
    requires |lines| == |args|
  {
    if args == [] then [] else [DOLLAR] + lines[0] + (args[0] + CRLF) + ArgsText(lines[1..], args[1..])
  }

  ghost predicate ArgsFormed(lines: seq<Text>, args: seq<Text>) {
    && |lines| == |args|
    && (args != [] ==>
          && IsLine(lines[0]) && HeaderInt(lines[0]) == Some(|args[0]|) && |args[0]| <= MAX_BULK
          && ArgsFormed(lines[1..], args[1..]))
  }

  /** The first `n` bytes of `s` are a command array of these arguments. */
  ghost predicate IsArray(s: Text, n: nat, head: Text, lines: seq<Text>, args: seq<Text>) {
    && IsLine(head) && HeaderInt(head) == Some(|args|) && 1 <= |args| <= MAX_AGGREGATE
    && |lines| == |args| && ArgsFormed(lines, args)
    && n <= |s| && s[..n] == [STAR] + head + ArgsText(lines, args)
  }

  lemma ReadsArgText(line: Text, arg: Text, x: Text)
    requires IsLine(line) && HeaderInt(line) == Some(|arg|) && |arg| <= MAX_BULK
    ensures ParseArg([DOLLAR] + line + (arg + CRLF) + x) == Done(arg, |[DOLLAR] + line + (arg + CRLF)|)
  {
    hide HeaderInt, HeadSpec, IsLine;
    HeadOfText(DOLLAR, line, arg + CRLF + x);
    assert [DOLLAR] + line + (arg + CRLF) + x == [DOLLAR] + line + (arg + CRLF + x);
    assert (arg + CRLF + x)[..|arg| + 2] == arg + CRLF;
    assert (arg + CRLF)[|arg|..] == CRLF && (arg + CRLF)[..|arg|] == arg;
  }

  lemma {:induction false} ReadsArgsText(lines: seq<Text>, args: seq<Text>, x: Text)
    requires ArgsFormed(lines, args)
    ensures ParseArgs(ArgsText(lines, args) + x, |args|) == Done(args, |ArgsText(lines, args)|)
    decreases |args|
  {
    hide ParseArg, HeaderInt, IsLine;
    if args == [] {
    } else {
      var first, rest := [DOLLAR] + lines[0] + (args[0] + CRLF), ArgsText(lines[1..], args[1..]);
      Reassociate(first, rest, x);
      ReadsArgText(lines[0], args[0], rest + x);
      ReadsArgsText(lines[1..], args[1..], x);
      assert args == [args[0]] + args[1..];
    }
  }

  lemma ArgTextOf(s: Text) returns (line: Text)
    requires ParseArg(s).Done?
    ensures var p := ParseArg(s);
            && IsLine(line) && HeaderInt(line) == Some(|p.value|) && |p.value| <= MAX_BULK
            && s[..p.used] == [DOLLAR] + line + (p.value + CRLF)
  {
    hide LineSpec, HeaderInt;
    HeadExact(s);
    var h := HeadSpec(s);
    line := h.value.1;
    var arg, rest := ParseArg(s).value, s[h.used..];
    assert rest[..|arg| + 2] == arg + CRLF by {
      assert rest[..|arg| + 2] == rest[..|arg| + 2][..|arg|] + rest[..|arg| + 2][|arg|..];
    }
    TakeTwice(s, h.used, |arg| + 2);
  }

  lemma {:induction false} ArgsTextOf(s: Text, count: nat) returns (lines: seq<Text>)
    requires ParseArgs(s, count).Done?
    ensures |lines| == |ParseArgs(s, count).value|
    ensures var p := ParseArgs(s, count); ArgsFormed(lines, p.value) && ArgsText(lines, p.value) == s[..p.used]
    decreases count
  {
    hide ParseArg, HeaderInt, IsLine;
    if count == 0 {
      lines := [];
    } else {
      var m := ParseArg(s).used;
      var line := ArgTextOf(s);
      var others := ArgsTextOf(s[m..], count - 1);
      lines := [line] + others;
      assert lines[1..] == others && ParseArgs(s, count).value[1..] == ParseArgs(s[m..], count - 1).value;
      TakeTwice(s, m, ParseArgs(s[m..], count - 1).used);
    }
  }

  lemma ArrayOf(s: Text) returns (head: Text, lines: seq<Text>)
    requires ParseCommand(s).Done? && s[0] == STAR
    ensures IsArray(s, ParseCommand(s).used, head, lines, ParseCommand(s).value.args)
  {
    hide HeaderInt, HeadSpec, ParseArgs, ArgsText, ArgsFormed, IsLine, Upper;
    HeadExact(s);
    var h := HeadSpec(s);
    head := h.value.1;
    var p := ParseCommand(s);
    lines := ArgsTextOf(s[h.used..], |p.value.args|);
    TakeTwice(s, h.used, p.used - h.used);
  }

  lemma ReadsArray(s: Text, n: nat, head: Text, lines: seq<Text>, args: seq<Text>)
    requires IsArray(s, n, head, lines, args)
    ensures ParseCommand(s).Done? && ParseCommand(s).used == n && ParseCommand(s).value.args == args
  {
    hide HeaderInt, HeadSpec, ParseArgs, ArgsText, ArgsFormed, IsLine, Upper;
    var text := ArgsText(lines, args);
    assert s == [STAR] + head + (text + s[n..]);
    HeadOfText(STAR, head, text + s[n..]);
    ReadsArgsText(lines, args, s[n..]);
  }

  /** The reader accepts exactly the command arrays within the limits, lengths in any decimal form, each argument
      as long as announced and followed by CRLF. */
  lemma {:induction false} CommandGrammar(s: Text, n: nat, args: seq<Text>)
    requires s != [] && s[0] == STAR
    ensures ParseCommand(s).Done? && ParseCommand(s).used == n && ParseCommand(s).value.args == args <==>
            exists head, lines :: IsArray(s, n, head, lines, args)
  {
    hide ParseCommand, IsArray;
    if ParseCommand(s).Done? && ParseCommand(s).used == n && ParseCommand(s).value.args == args {
      var head, lines := ArrayOf(s);
    }
    if head, lines :| IsArray(s, n, head, lines, args) {
      ReadsArray(s, n, head, lines, args);
    }
  }
}
