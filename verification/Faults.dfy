/** The fault engines of `internal/fault` and the synthetic replies of `internal/resp/reply.go`. */
module Faults {
  import opened Bytes
  import opened Streams
  import opened Replies
  import opened ReplyTrees
  import opened Commands

  newtype uint64 = x: int | 0 <= x < 0x1_0000_0000_0000_0000

  datatype Engine = PassThrough | RandomMiss(seed: uint64, probability: real) | Unavailable {

    predicate RefuseConnections() {
      Unavailable?
    }

    function Decide(cmd: Command): Action {
      match this
      case PassThrough => Forward
      case Unavailable => DropConnection
      case RandomMiss(seed, probability) =>
        if cmd.name !in READ_COMMANDS then Forward
        else
          match cmd.Key()
          case None => Forward
          case Some(key) => if ShouldMiss(seed, key, probability) then ReplaceWithMiss else Forward
    }
  }

  datatype Action = Forward | ReplaceWithMiss | DropConnection

  const READ_COMMANDS: set<Text> := {Ascii("GET"), Ascii("GETEX"), Ascii("GETDEL"), Ascii("HGET")}

  /** The four commands that read one key. */
  predicate ReadsOneKey(name: Text) {
    name == Ascii("GET") || name == Ascii("GETEX") || name == Ascii("GETDEL") || name == Ascii("HGET")
  }

  /** The commands that a random miss answers with nil. */
  predicate IsMiss(engine: Engine, c: Command) {
    && engine.RandomMiss? && ReadsOneKey(c.name) && |c.args| >= 2
    && Bucket(engine.seed, c.args[1]) as real < engine.probability * 1_000_000.0
  }

  /** Which commands are replaced by a miss, and that every other one is forwarded, unless Redis is down. */
  lemma DecideExactly(engine: Engine, c: Command)
    ensures engine.Decide(c) ==
            if engine.Unavailable? then DropConnection else if IsMiss(engine, c) then ReplaceWithMiss else Forward
  {
    hide ShouldMiss, Bucket, Ascii;
    if engine.RandomMiss? && |c.args| >= 2 {
      MissThreshold(engine.seed, c.args[1], engine.probability);
    }
    if ReadsOneKey(c.name) {
      assert c.name in KEYED_COMMANDS;
    }
  }

  // ---------------------------------------------------------------- which keys are missed

  const FNV_OFFSET: nat := 14695981039346656037
  const FNV_PRIME: nat := 1099511628211
  const TWO_TO_64: nat := 0x1_0000_0000_0000_0000

  /** The 64-bit FNV-1a hash: each byte is xor-ed into the low byte, then comes the multiplication. */
  function Fnv1a(s: Text, hash: nat): nat {
    if s == [] then hash
    else Fnv1a(s[1..], ((hash - hash % 256 + XorByte(hash % 256, s[0])) * FNV_PRIME) % TWO_TO_64)
  }

  function XorByte(low: nat, b: byte): nat
    requires low < 256
  {
    ((low as bv8) ^ (b as bv8)) as nat
  }

  function LittleEndian(n: nat, bytes: nat): (s: Text)
    ensures |s| == bytes
  {
    if bytes == 0 then [] else [(n % 256) as byte] + LittleEndian(n / 256, bytes - 1)
  }

  /** Byte `i` of the little-endian form is digit `i` of the number to base 256. */
  lemma {:induction false} LittleEndianDigits(n: nat, bytes: nat, i: nat)
    requires i < bytes
    ensures LittleEndian(n, bytes)[i] as nat == Shift(n, i) % 256
  {
    if i == 0 {
    } else {
      LittleEndianDigits(n / 256, bytes - 1, i - 1);
    }
  }

  /** `n` without its last `i` bytes. */
  function Shift(n: nat, i: nat): nat {
    if i == 0 then n else Shift(n / 256, i - 1)
  }

  lemma XorExample()
    ensures XorByte(0x25, 0x61) == 0x44
  {}

  lemma FnvStep(b: byte, hash: nat)
    ensures Fnv1a([b], hash) == ((hash - hash % 256 + XorByte(hash % 256, b)) * FNV_PRIME) % TWO_TO_64
  {
    hide XorByte;
    assert [b][1..] == [];
  }

  /** The published values of the hash of the empty string and of "a". */
  lemma FnvExamples()
    ensures Fnv1a([], FNV_OFFSET) == 0xcbf29ce484222325
    ensures Fnv1a([97], FNV_OFFSET) == 0xaf63dc4c8601ec8c
  {
    assert Fnv1a([], FNV_OFFSET) == FNV_OFFSET;
    hide *;
    FnvStep(97, FNV_OFFSET);
    XorExample();
    assert FNV_OFFSET % 256 == 0x25;
  }

  const BUCKETS: nat := 1_000_000

  function Bucket(seed: uint64, key: Text): (b: nat)
    ensures b < BUCKETS
  {
    Fnv1a(LittleEndian(seed as nat, 8) + key, FNV_OFFSET) % BUCKETS
  }

  lemma {:induction false} FnvAppend(a: Text, b: Text, hash: nat)
    ensures Fnv1a(a + b, hash) == Fnv1a(b, Fnv1a(a, hash))
  {
    hide XorByte;
    if a == [] {
      assert a + b == b;
    } else {
      assert (a + b)[1..] == a[1..] + b;
      FnvAppend(a[1..], b, ((hash - hash % 256 + XorByte(hash % 256, a[0])) * FNV_PRIME) % TWO_TO_64);
    }
  }

  /** The eight bytes of the seed are hashed first, and then the key. */
  lemma BucketExactly(seed: uint64, key: Text)
    ensures Bucket(seed, key) ==
            Fnv1a(key, Fnv1a(LittleEndian(seed as nat, 8), FNV_OFFSET)) % 1_000_000
  {
    hide Fnv1a, LittleEndian;
    FnvAppend(LittleEndian(seed as nat, 8), key, FNV_OFFSET);
  }

  function ShouldMiss(seed: uint64, key: Text, probability: real): bool {
    if probability <= 0.0 then false
    else if probability >= 1.0 then true
    else Bucket(seed, key) as real / BUCKETS as real < probability
  }

  /** The set of missed keys is a threshold on the bucket, at every probability, so it can only grow with
      the probability; at 0 it is empty and at 1 it is everything. */
  lemma MissThreshold(seed: uint64, key: Text, probability: real)
    ensures ShouldMiss(seed, key, probability) <==> Bucket(seed, key) as real < probability * BUCKETS as real
  {
    hide Fnv1a, Bucket;
    var b := Bucket(seed, key) as real;
    assert b / BUCKETS as real * BUCKETS as real == b;
  }

  lemma MissesGrow(seed: uint64, key: Text, p: real, q: real)
    requires p <= q
    ensures ShouldMiss(seed, key, p) ==> ShouldMiss(seed, key, q)
    ensures !ShouldMiss(seed, key, 0.0) && ShouldMiss(seed, key, 1.0)
  {
    hide Bucket;
    MissThreshold(seed, key, p);
    MissThreshold(seed, key, q);
  }

  /** Two commands that read the same key are missed together: the decision depends on nothing else. */
  lemma MissDependsOnKeyOnly(engine: Engine, c: Command, d: Command)
    requires c.Key() == d.Key() && c.name in READ_COMMANDS && d.name in READ_COMMANDS
    ensures engine.Decide(c) == engine.Decide(d)
  {
    hide ShouldMiss;
  }

  // ---------------------------------------------------------------- synthetic replies

  function NilReply(resp3: bool): Text {
    if resp3 then [UNDERSCORE] + CRLF else [DOLLAR, MINUS, 49] + CRLF
  }

  /** Line ends inside the message become spaces, so that they cannot end the reply. */
  function Sanitize(message: Text): (s: Text)
    ensures |s| == |message|
    ensures forall i | 0 <= i < |s| :: s[i] == if IsLineEnd(message[i]) then 32 else message[i]
  {
    seq(|message|, i requires 0 <= i < |message| => if IsLineEnd(message[i]) then 32 else message[i])
  }

  function ErrorReply(message: Text): Text {
    [MINUS] + (Ascii("ERR ") + Sanitize(message) + CRLF)
  }

  lemma NilReplyIs(resp3: bool)
    ensures NilReply(resp3) == Ascii(if resp3 then "_\r\n" else "$-1\r\n")
  {}

  lemma {:induction false} NilReplyIsFrame(resp3: bool)
    ensures IsFrame(NilReply(resp3))
    ensures ParseReply(NilReply(resp3), 0).value == if resp3 then UNDERSCORE else DOLLAR
  {
    var t := if resp3 then Simple(UNDERSCORE, CRLF) else Null(DOLLAR, [MINUS, 49] + CRLF);
    if !resp3 {
      TrimTerminated([MINUS, 49], CRLF);
      assert DigitsValue([49]) == 1 by {
        assert [49][..0] == [];
      }
      assert [MINUS, 49][1..] == [49];
    }
    assert WellFormed(t) && Serialize(t) == NilReply(resp3);
    ReadsTree(t, [], 0);
    assert Serialize(t) + [] == Serialize(t);
  }

  /** An error reply, whatever its message, is exactly one error frame as long as its line fits the limit. */
  lemma {:induction false} ErrorReplyIsFrame(message: Text)
    ensures IsFrame(ErrorReply(message)) <==> |message| + 6 <= MAX_LINE
    ensures IsFrame(ErrorReply(message)) ==> ParseReply(ErrorReply(message), 0).value == MINUS
  {
    hide Serialize, WellFormed;
    var text := Ascii("ERR ") + Sanitize(message);
    var line := text + CRLF;
    ErrorLine(message);
    if |line| <= MAX_LINE {
      ErrorTree(line);
      ReadsTree(Simple(MINUS, line), [], 0);
      assert [MINUS] + line + [] == [MINUS] + line;
    } else {
      assert ErrorReply(message)[1..] == line + [];
      OverlongLine(line, []);
    }
  }

  lemma ErrorTree(line: Text)
    requires IsLine(line)
    ensures WellFormed(Simple(MINUS, line)) && Serialize(Simple(MINUS, line)) == [MINUS] + line
  {}

  lemma ErrorLine(message: Text)
    ensures var line := Ascii("ERR ") + Sanitize(message) + CRLF;
            |line| == |message| + 6 && line[|line| - 1] == LF && forall i | 0 <= i < |line| - 1 :: line[i] != LF
  {
    var head := Ascii("ERR ");
    assert head[0] == 69 && head[1] == 82 && head[2] == 82 && head[3] == 32;
  }
}
