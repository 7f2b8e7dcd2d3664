/** The byte-preserving reply reader of `internal/resp/reply.go`: its specification as a function on byte
    strings, and the recursive reader itself, which copies what it reads into a shared buffer. */
module Replies {
  import opened Bytes
  import opened Streams

  const MAX_DEPTH: nat := 128

  const STAR: byte := 42      // '*'
  const TILDE: byte := 126    // '~'
  const PUSH: byte := 62      // '>'
  const PERCENT: byte := 37   // '%'
  const PIPE: byte := 124     // '|'
  const DOLLAR: byte := 36    // '$'
  const EQUALS: byte := 61    // '='
  const BANG: byte := 33      // '!'
  const COLON: byte := 58     // ':'
  const UNDERSCORE: byte := 95
  const COMMA: byte := 44
  const HASH: byte := 35
  const PAREN: byte := 40

  /** Replies that end with their first line. */
  predicate IsLineKind(kind: byte) {
    kind == PLUS || kind == MINUS || kind == COLON || kind == UNDERSCORE || kind == COMMA || kind == HASH ||
    kind == PAREN
  }

  predicate IsBulkKind(kind: byte) {
    kind == DOLLAR || kind == EQUALS || kind == BANG
  }

  predicate IsListKind(kind: byte) {
    kind == STAR || kind == TILDE || kind == PUSH
  }

  predicate IsPairKind(kind: byte) {
    kind == PERCENT || kind == PIPE
  }

  /** Replies whose first line is a length or a count. */
  predicate IsSizedKind(kind: byte) {
    IsBulkKind(kind) || IsListKind(kind) || IsPairKind(kind)
  }

  /** The limits of lines, bulks, aggregates and nesting. */
  lemma LimitsExactly()
    ensures MAX_LINE == 1024 * 1024 && MAX_BULK == 64 * 1024 * 1024
    ensures MAX_AGGREGATE == 1024 * 1024 && MAX_DEPTH == 128
    ensures MAX_INT == 9_223_372_036_854_775_807 && MIN_INT == -9_223_372_036_854_775_808
  {}

  /** The kind bytes by the characters they are. */
  lemma KindsExactly(kind: byte)
    ensures IsLineKind(kind) <==> kind in Ascii("+-:_,#(")
    ensures IsBulkKind(kind) <==> kind in Ascii("$=!")
    ensures IsListKind(kind) <==> kind in Ascii("*~>")
    ensures IsPairKind(kind) <==> kind in Ascii("%|")
  {
    LineKinds();
    OtherKinds();
  }

  lemma LineKinds()
    ensures Ascii("+-:_,#(") == [PLUS, MINUS, COLON, UNDERSCORE, COMMA, HASH, PAREN]
  {}

  lemma OtherKinds()
    ensures Ascii("$=!") == [DOLLAR, EQUALS, BANG] && Ascii("*~>") == [STAR, TILDE, PUSH]
    ensures Ascii("%|") == [PERCENT, PIPE]
  {}

  /** The number on a header line. */
  function HeaderInt(line: Text): Option<int> {
    Atoi(TrimCRLF(line))
  }

  /** The kind byte and the first line, with which every reply begins. */
  function HeadSpec(s: Text): (p: Parsed<(byte, Text)>)
    ensures p.Done? ==> 2 <= p.used == 1 + |p.value.1| <= |s|
  {
    if s == [] then Fail(EOF)
    else
      match LineSpec(s[1..])
      case Fail(e) => Fail(e)
      case Done(line, n) => Done((s[0], line), 1 + n)
  }

  lemma HeadExact(s: Text)
    requires HeadSpec(s).Done?
    ensures var Done((kind, line), n) := HeadSpec(s);
            IsLine(line) && s[..n] == [kind] + line && s == [kind] + line + s[n..]
  {
    LineExact(s[1..], LineSpec(s[1..]).value);
  }

  /** One reply frame at the front of `s`: its kind (that of the reply after any attributes) and its length. */
  function ParseReply(s: Text, depth: nat): (p: Parsed<byte>)
    ensures p.Done? ==> 2 <= p.used <= |s|
    decreases |s|, 0
  {
    if depth > MAX_DEPTH then Fail(TooDeep)
    else
      match HeadSpec(s)
      case Fail(e) => Fail(e)
      case Done((kind, line), n) => ParseBody(kind, line, s[n..], depth).Plus(n)
  }

  /** What follows the first line of a reply. */
  function ParseBody(kind: byte, line: Text, s: Text, depth: nat): (p: Parsed<byte>)
    ensures p.Done? ==> p.used <= |s|
    decreases |s|, 3
  {
    if IsLineKind(kind) then Done(kind, 0)
    else if !IsSizedKind(kind) then Fail(BadKind)
    else if HeaderInt(line).None? then Fail(BadInteger)
    else
      var n := HeaderInt(line).value;
      if n < 0 then Done(kind, 0)
      else if IsBulkKind(kind) then ParsePayload(kind, n, s)
      else ParseElements(kind, n, s, depth)
  }

  /** The elements that a count of `n` announces, and after an attribute's elements the reply it describes. */
  function ParseElements(kind: byte, n: nat, s: Text, depth: nat): (p: Parsed<byte>)
    ensures p.Done? ==> p.used <= |s|
    decreases |s|, 2
  {
    if n > (if IsListKind(kind) then MAX_AGGREGATE else MAX_AGGREGATE / 2) then Fail(TooManyElements)
    else
      match ParseReplies(s, if IsListKind(kind) then n else n * 2, depth + 1)
      case Fail(e) => Fail(e)
      case Done(_, used) =>
        if kind == PIPE then ParseReply(s[used..], depth + 1).Plus(used) else Done(kind, used)
  }

  /** A bulk payload and two more bytes, whatever they are. */
  function ParsePayload(kind: byte, n: nat, s: Text): (p: Parsed<byte>)
    ensures p.Done? ==> p.used <= |s|
  {
    if n > MAX_BULK then Fail(BulkTooLong)
    else
      match TakeSpec(s, n + 2)
      case Fail(e) => Fail(e)
      case Done(_, used) => Done(kind, used)
  }

  /** `count` reply frames in a row. */
  function ParseReplies(s: Text, count: nat, depth: nat): (p: Parsed<()>)
    ensures p.Done? ==> 2 * count <= p.used <= |s|
    decreases |s|, 1
  {
    if count == 0 then Done((), 0)
    else
      match ParseReply(s, depth)
      case Fail(e) => Fail(e)
      case Done(_, n) => ParseReplies(s[n..], count - 1, depth).Plus(n)
  }

  /** What a reader that appends to `raw` does: follows `spec`, and every byte it used has moved to `raw`. */
  ghost predicate Copies<T>(spec: Parsed<T>, r: Result<T>, before: Text, after: Text, raw: Text, raw': Text) {
    && Follows(spec, r, before, after)
    && (r.Ok? ==> raw' + after == raw + before)
  }

  lemma DropTwice(s: Text, n: nat, m: nat)
    requires n + m <= |s|
    ensures s[n..][m..] == s[n + m..]
  {}

  /** Appending the next bytes `b` of a stream to `raw`. */
  lemma MoveBytes(raw: Text, b: Text, before: Text, after: Text)
    requires before == b + after
    ensures (raw + b) + after == raw + before
  {}

  method ReadReplyRaw(reader: Reader) returns (raw: Text, r: Result<byte>)
    requires reader.Valid()
    modifies reader
    ensures reader.Valid()
    ensures Follows(ParseReply(old(reader.Rest()), 0), r, old(reader.Rest()), reader.Rest())
    ensures r.Ok? ==> old(reader.Rest()) == raw + reader.Rest()
  {
    var buffer := new Buffer();
    r := ReadReplyRawDepth(reader, buffer, 0);
    raw := if r.Ok? then buffer.bytes else [];
  }

  method ReadHead(reader: Reader) returns (r: Result<(byte, Text)>)
    requires reader.Valid()
    modifies reader
    ensures reader.Valid()
    ensures Follows(HeadSpec(old(reader.Rest())), r, old(reader.Rest()), reader.Rest())
  {
    ghost var s := reader.Rest();
    var kind := reader.ReadByte();
    if kind.Err? {
      return Err(kind.error);
    }
    var line := ReadRESPLine(reader);
    if line.Err? {
      return Err(line.error);
    }
    DropTwice(s, 1, |line.value|);
    return Ok((kind.value, line.value));
  }

  method ReadReplyRawDepth(reader: Reader, raw: Buffer, depth: nat) returns (r: Result<byte>)
    requires reader.Valid()
    modifies reader, raw
    ensures reader.Valid()
    ensures Copies(ParseReply(old(reader.Rest()), depth), r,
                   old(reader.Rest()), reader.Rest(), old(raw.bytes), raw.bytes)
    decreases |reader.data| - reader.pos, 0
  {
    hide ParseBody, HeadSpec;
    ghost var s, raw0 := reader.Rest(), raw.bytes;
    if depth > MAX_DEPTH {
      return Err(TooDeep);
    }
    var head := ReadHead(reader);
    if head.Err? {
      return Err(head.error);
    }
    var (kind, line) := head.value;
    raw.Write([kind] + line);
    ghost var n := 1 + |line|;
    HeadExact(s);
    MoveBytes(raw0, [kind] + line, s, reader.Rest());
    ghost var body := ParseBody(kind, line, s[n..], depth);
    r := ReadBody(reader, raw, kind, line, depth);
    if body.Done? {
      DropTwice(s, n, body.used);
    }
  }

  method ReadBody(reader: Reader, raw: Buffer, kind: byte, line: Text, depth: nat) returns (r: Result<byte>)
    requires reader.Valid()
    modifies reader, raw
    ensures reader.Valid()
    ensures Copies(ParseBody(kind, line, old(reader.Rest()), depth), r,
                   old(reader.Rest()), reader.Rest(), old(raw.bytes), raw.bytes)
    decreases |reader.data| - reader.pos, 3
  {
    if IsLineKind(kind) {
      return Ok(kind);
    }
    if !IsSizedKind(kind) {
      return Err(BadKind);
    }
    var length := HeaderInt(line);
    if length.None? {
      return Err(BadInteger);
    }
    var n := length.value;
    if n < 0 {
      return Ok(kind);
    }
    if IsBulkKind(kind) {
      r := ReadPayload(reader, raw, kind, n);
    } else {
      r := ReadElements(reader, raw, kind, n, depth);
    }
  }

  method ReadPayload(reader: Reader, raw: Buffer, kind: byte, n: nat) returns (r: Result<byte>)
    requires reader.Valid()
    modifies reader, raw
    ensures reader.Valid()
    ensures Copies(ParsePayload(kind, n, old(reader.Rest())), r,
                   old(reader.Rest()), reader.Rest(), old(raw.bytes), raw.bytes)
  {
    ghost var s, raw0 := reader.Rest(), raw.bytes;
    if n > MAX_BULK {
      return Err(BulkTooLong);
    }
    var payload := reader.ReadFull(n + 2);
    if payload.Err? {
      return Err(payload.error);
    }
    raw.Write(payload.value);
    MoveBytes(raw0, payload.value, s, reader.Rest());
    return Ok(kind);
  }

  method ReadElements(reader: Reader, raw: Buffer, kind: byte, n: nat, depth: nat) returns (r: Result<byte>)
    requires reader.Valid()
    modifies reader, raw
    ensures reader.Valid()
    ensures Copies(ParseElements(kind, n, old(reader.Rest()), depth), r,
                   old(reader.Rest()), reader.Rest(), old(raw.bytes), raw.bytes)
    decreases |reader.data| - reader.pos, 2
  {
    hide ParseReply, ParseReplies, Reader.Rest;
    ghost var s := reader.Rest();
    if n > (if IsListKind(kind) then MAX_AGGREGATE else MAX_AGGREGATE / 2) {
      return Err(TooManyElements);
    }
    var count := if IsListKind(kind) then n else n * 2;
    var items := ReadReplies(reader, raw, count, depth + 1);
    if items.Err? {
      return Err(items.error);
    }
    if kind != PIPE {
      return Ok(kind);
    }
    ghost var used := ParseReplies(s, count, depth + 1).used;
    ghost var next := ParseReply(s[used..], depth + 1);
    r := ReadReplyRawDepth(reader, raw, depth + 1);
    if next.Done? {
      DropTwice(s, used, next.used);
    }
  }

  lemma NoMoreReplies(s: Text, depth: nat)
    ensures ParseReplies(s, 0, depth) == Done((), 0)
  {}

  lemma OneReply(s: Text, count: nat, depth: nat)
    requires count > 0
    ensures var p := ParseReply(s, depth);
            ParseReplies(s, count, depth) ==
            if p.Fail? then Fail(p.error) else ParseReplies(s[p.used..], count - 1, depth).Plus(p.used)
  {
    hide ParseReply;
  }

  /** The loop over the elements of an aggregate. */
  method ReadReplies(reader: Reader, raw: Buffer, count: nat, depth: nat) returns (r: Result<()>)
    requires reader.Valid()
    modifies reader, raw
    ensures reader.Valid()
    ensures Copies(ParseReplies(old(reader.Rest()), count, depth), r,
                   old(reader.Rest()), reader.Rest(), old(raw.bytes), raw.bytes)
    decreases |reader.data| - reader.pos, 1
  {
    hide ParseReply, ParseReplies, Reader.Rest;
    ghost var s, raw0 := reader.Rest(), raw.bytes;
    ghost var used: nat := 0;
    for index := 0 to count
      invariant reader.Valid() && |reader.data| - reader.pos <= |s|
      invariant used <= |s| && reader.Rest() == s[used..]
      invariant raw.bytes + reader.Rest() == raw0 + s
      invariant ParseReplies(s, count, depth) == ParseReplies(s[used..], count - index, depth).Plus(used)
    {
      ghost var next := ParseReply(s[used..], depth);
      OneReply(s[used..], count - index, depth);
      var element := ReadReplyRawDepth(reader, raw, depth);
      if element.Err? {
        return Err(element.error);
      }
      DropTwice(s, used, next.used);
      used := used + next.used;
    }
    NoMoreReplies(s[used..], depth);
    return Ok(());
  }
}
