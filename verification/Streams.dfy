/** The byte streams under the readers: `bufio.Reader` over a connection, the growing `bytes.Buffer`,
    and the chunked reading of one protocol line. */
module Streams {
  import opened Bytes

  const MAX_LINE: nat := 1024 * 1024
  const MAX_BULK: nat := 64 * 1024 * 1024
  const MAX_AGGREGATE: nat := 1048576

  datatype Error =
    | EOF | UnexpectedEOF | LineTooLong
    | BadInteger | NonPositiveCount | TooManyElements | NegativeBulk | BulkTooLong
    | NotBulk | NoCRLF | EmptyInline | TooDeep | BadKind | BadMapKey

  /** What reading from the front of a byte string gives: a value and how many bytes it used, or an error. */
  datatype Parsed<+T> = Fail(error: Error) | Done(value: T, used: nat) {
    function Plus(n: nat): Parsed<T> {
      if Fail? then this else Done(value, used + n)
    }
  }

  datatype Result<+T> = Ok(value: T) | Err(error: Error)

  /** A reader that stood before `before` and now stands before `after` did what `spec` says.
      After an error nothing is promised about the position: the connection is given up. */
  ghost predicate Follows<T>(spec: Parsed<T>, r: Result<T>, before: Text, after: Text) {
    match spec
    case Fail(e) => r == Err(e)
    case Done(v, n) => r == Ok(v) && n <= |before| && after == before[n..]
  }

  function IndexLF(s: Text): (k: nat)
    ensures k <= |s|
    ensures forall i | 0 <= i < k :: s[i] != LF
    ensures k < |s| ==> s[k] == LF
  {
    if s == [] || s[0] == LF then 0 else 1 + IndexLF(s[1..])
  }

  /** One protocol line: the bytes up to and including the first LF, if they number at most `MAX_LINE`. */
  function LineSpec(s: Text): (p: Parsed<Text>)
    ensures p.Done? ==> 1 <= p.used <= |s| && p.value == s[..p.used]
  {
    var k := IndexLF(s);
    if k < |s| && k < MAX_LINE then Done(s[..k + 1], k + 1)
    else if k >= MAX_LINE && |s| > MAX_LINE then Fail(LineTooLong)
    else Fail(EOF)
  }

  /** A complete line: its only LF is its last byte. */
  ghost predicate IsLine(l: Text) {
    1 <= |l| <= MAX_LINE && l[|l| - 1] == LF && forall i | 0 <= i < |l| - 1 :: l[i] != LF
  }

  /** Reading a line gives `l` exactly when the stream starts with the complete line `l`. */
  lemma LineExact(s: Text, l: Text)
    ensures LineSpec(s) == Done(l, |l|) <==> IsLine(l) && l <= s
  {
    var k := IndexLF(s);
    if IsLine(l) && l <= s {
      assert s[|l| - 1] == LF;
      assert k == |l| - 1 && s[..k + 1] == l;
    }
  }

  lemma LineOfPrefix(l: Text, x: Text)
    requires IsLine(l)
    ensures LineSpec(l + x) == Done(l, |l|)
  {
    LineExact(l + x, l);
  }

  lemma OverlongLine(line: Text, x: Text)
    requires |line| > MAX_LINE && forall i | 0 <= i < |line| - 1 :: line[i] != LF
    ensures LineSpec(line + x) == Fail(LineTooLong)
  {
    assert IndexLF(line + x) >= |line| - 1;
  }

  /** One more chunk of a line that has no LF so far. */
  lemma Chunk(line: Text, part: Text, rest: Text)
    requires LF !in line && forall i | 0 <= i < |part| - 1 :: part[i] != LF
    ensures line + (part + rest) == (line + part) + rest
    ensures forall i | 0 <= i < |line + part| - 1 :: (line + part)[i] != LF
    ensures LF !in part ==> LF !in line + part
    ensures part != [] ==> (line + part)[|line + part| - 1] == part[|part| - 1]
  {}

  lemma UnfinishedLine(line: Text)
    requires LF !in line && |line| <= MAX_LINE
    ensures LineSpec(line) == Fail(EOF)
  {}

  function TakeSpec(s: Text, n: nat): (p: Parsed<Text>)
    requires n > 0
  {
    if |s| >= n then Done(s[..n], n) else if s == [] then Fail(EOF) else Fail(UnexpectedEOF)
  }

  function ByteSpec(s: Text): (p: Parsed<byte>) {
    if s == [] then Fail(EOF) else Done(s[0], 1)
  }

  datatype Slice = Found | BufferFull | AtEnd

  /** `bufio.Reader` over a connection.  `data` is everything the peer sends before it closes. */
  class Reader {
    const data: Text
    const size: nat
    var pos: nat

    constructor (data: Text, size: nat)
      ensures Valid() && Rest() == data && this.data == data
    {
      this.data := data;
      this.size := if size < 16 then 16 else size;
      pos := 0;
    }

    ghost predicate Valid()
      reads this
    {
      pos <= |data| && 16 <= size
    }

    /** The bytes not yet read. */
    ghost function Rest(): (s: Text)
      requires Valid()
      reads this
      ensures |s| == |data| - pos
    {
      data[pos..]
    }

    method ReadByte() returns (r: Result<byte>)
      requires Valid()
      modifies this
      ensures Valid() && Follows(ByteSpec(old(Rest())), r, old(Rest()), Rest())
      ensures r.Ok? ==> pos == old(pos) + 1 && r.value == data[old(pos)]
    {
      if pos == |data| {
        return Err(EOF);
      }
      r := Ok(data[pos]);
      pos := pos + 1;
    }

    /** Steps back over the byte just read. */
    method UnreadByte()
      requires Valid() && pos > 0
      modifies this
      ensures Valid() && Rest() == [data[old(pos) - 1]] + old(Rest())
    {
      pos := pos - 1;
    }

    /** `ReadSlice('\n')`: up to the LF if it is among the next `size` bytes, else a full buffer, else the
        tail of a stream that ended. */
    method ReadSlice() returns (part: Text, status: Slice)
      requires Valid()
      modifies this
      ensures Valid()
      ensures old(Rest()) == part + Rest()
      ensures forall i | 0 <= i < |part| - 1 :: part[i] != LF
      ensures status == Found ==> part != [] && part[|part| - 1] == LF
      ensures status != Found ==> LF !in part
      ensures status == BufferFull ==> |part| == size
      ensures status == AtEnd ==> part == old(Rest())
    {
      var s := data[pos..];
      var k := IndexLF(s);
      if k < |s| && k < size {
        part, status := s[..k + 1], Found;
      } else if |s| >= size {
        part, status := s[..size], BufferFull;
      } else {
        part, status := s, AtEnd;
      }
      pos := pos + |part|;
    }

    /** `io.ReadFull` of `n` bytes. */
    method ReadFull(n: nat) returns (r: Result<Text>)
      requires Valid() && n > 0
      modifies this
      ensures Valid() && Follows(TakeSpec(old(Rest()), n), r, old(Rest()), Rest())
    {
      if |data| - pos >= n {
        assert data[pos..pos + n] == data[pos..][..n];
        r := Ok(data[pos..pos + n]);
        pos := pos + n;
      } else {
        r := Err(if pos == |data| then EOF else UnexpectedEOF);
        pos := |data|;
      }
    }
  }

  /** `bytes.Buffer`, as far as it is used: bytes are only appended. */
  class Buffer {
    var bytes: Text

    constructor ()
      ensures bytes == []
    {
      bytes := [];
    }

    method Write(b: Text)
      modifies this
      ensures bytes == old(bytes) + b
    {
      bytes := bytes + b;
    }
  }

  /** Reading a line in chunks of the buffer's size refines the simple line specification, for every
      stream and every buffer size, errors included. */
  method ReadRESPLine(reader: Reader) returns (r: Result<Text>)
    requires reader.Valid()
    modifies reader
    ensures reader.Valid()
    ensures Follows(LineSpec(old(reader.Rest())), r, old(reader.Rest()), reader.Rest())
  {
    hide LineSpec, IndexLF, Reader.Rest;
    ghost var s := reader.Rest();
    var line: Text := [];
    while true
      invariant reader.Valid()
      invariant s == line + reader.Rest()
      invariant LF !in line && |line| <= MAX_LINE
      decreases |reader.data| - reader.pos
    {
      var part, status := reader.ReadSlice();
      Chunk(line, part, reader.Rest());
      line := line + part;
      if |line| > MAX_LINE {
        OverlongLine(line, reader.Rest());
        return Err(LineTooLong);
      }
      if status == Found {
        LineOfPrefix(line, reader.Rest());
        return Ok(line);
      }
      if status == AtEnd {
        assert s == line;
        UnfinishedLine(line);
        return Err(EOF);
      }
    }
  }
}
