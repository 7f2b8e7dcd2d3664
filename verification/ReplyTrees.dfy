/** The reply grammar, as trees, and the exact agreement of the reply reader with it. */
module ReplyTrees {
  import opened Bytes
  import opened Streams
  import opened Replies

  /** A reply with its first line verbatim (LF included), so that every accepted encoding, canonical or
      not, is the text of exactly one tree. */
  datatype Tree =
    | Simple(kind: byte, line: Text)
    | Null(kind: byte, line: Text)
    | Bulk(kind: byte, line: Text, payload: Text)
    | List(kind: byte, line: Text, items: seq<Tree>)
    | Map(line: Text, items: seq<Tree>)
    | Attribute(line: Text, items: seq<Tree>, reply: Tree)

  ghost predicate WellFormed(t: Tree) {
    && IsLine(t.line)
    && match t
       case Simple(kind, line) => IsLineKind(kind)
       case Null(kind, line) => IsSizedKind(kind) && HeaderInt(line).Some? && HeaderInt(line).value < 0
       case Bulk(kind, line, payload) =>
         IsBulkKind(kind) && HeaderInt(line) == Some(|payload| - 2) && 0 <= |payload| - 2 <= MAX_BULK
       case List(kind, line, items) =>
         IsListKind(kind) && HeaderInt(line) == Some(|items|) && |items| <= MAX_AGGREGATE && AllWellFormed(items)
       case Map(line, items) => IsPairHeader(line, |items|) && AllWellFormed(items)
       case Attribute(line, items, reply) =>
         IsPairHeader(line, |items|) && AllWellFormed(items) && WellFormed(reply)
  }

  ghost predicate IsPairHeader(line: Text, count: nat) {
    count % 2 == 0 && HeaderInt(line) == Some(count / 2) && count <= MAX_AGGREGATE
  }

  ghost predicate AllWellFormed(ts: seq<Tree>) {
    ts != [] ==> WellFormed(ts[0]) && AllWellFormed(ts[1..])
  }

  /** The kind byte a tree starts with. */
  function FirstByte(t: Tree): byte {
    match t
    case Map(_, _) => PERCENT
    case Attribute(_, _, _) => PIPE
    case _ => t.kind
  }

  /** The bytes of a tree. */
  function Serialize(t: Tree): (s: Text)
    decreases t, 1
  {
    [FirstByte(t)] + t.line + Body(t)
  }

  function Body(t: Tree): Text
    decreases t, 0
  {
    match t
    case Simple(_, _) => []
    case Null(_, _) => []
    case Bulk(_, _, payload) => payload
    case List(_, _, items) => SerializeAll(items)
    case Map(_, items) => SerializeAll(items)
    case Attribute(_, items, reply) => SerializeAll(items) + Serialize(reply)
  }

  function SerializeAll(ts: seq<Tree>): Text
    decreases ts, 0
  {
    if ts == [] then [] else Serialize(ts[0]) + SerializeAll(ts[1..])
  }

  /** The kind of the reply once attributes are stripped. */
  function Kind(t: Tree): byte {
    if t.Attribute? then Kind(t.reply) else FirstByte(t)
  }

  /** Nesting depth; the elements of an attribute and the reply after it are both one deeper. */
  function Depth(t: Tree): nat {
    match t
    case Simple(_, _) => 0
    case Null(_, _) => 0
    case Bulk(_, _, _) => 0
    case List(_, _, items) => DepthAll(items)
    case Map(_, items) => DepthAll(items)
    case Attribute(_, items, reply) => Max(DepthAll(items), 1 + Depth(reply))
  }

  /** How far below their parent a list of elements reaches: nothing if there are none. */
  function DepthAll(ts: seq<Tree>): nat {
    if ts == [] then 0 else Max(1 + Depth(ts[0]), DepthAll(ts[1..]))
  }

  function Max(a: nat, b: nat): nat {
    if a < b then b else a
  }

  function Nodes(t: Tree): nat {
    1 + match t
        case Simple(_, _) => 0
        case Null(_, _) => 0
        case Bulk(_, _, _) => 0
        case List(_, _, items) => NodesAll(items)
        case Map(_, items) => NodesAll(items)
        case Attribute(_, items, reply) => NodesAll(items) + Nodes(reply)
  }

  function NodesAll(ts: seq<Tree>): nat {
    if ts == [] then 0 else Nodes(ts[0]) + NodesAll(ts[1..])
  }

  // ---------------------------------------------------------------- from trees to bytes

  lemma HeadOfText(kind: byte, line: Text, b: Text)
    requires IsLine(line)
    ensures HeadSpec([kind] + line + b) == Done((kind, line), 1 + |line|)
    ensures ([kind] + line + b)[1 + |line|..] == b
  {
    assert ([kind] + line + b)[1..] == line + b;
    LineOfPrefix(line, b);
  }

  lemma Reassociate(a: Text, b: Text, x: Text)
    ensures (a + b) + x == a + (b + x)
    ensures ((a + b) + x)[|a|..] == b + x
  {}

  /** The text of a well-formed tree, whatever follows it, is read as exactly that text with that kind,
      if the nesting fits the limit; otherwise the reader refuses it. */
  lemma {:induction false} ReadsTree(t: Tree, x: Text, depth: nat)
    requires WellFormed(t)
    ensures ParseReply(Serialize(t) + x, depth) ==
            if depth + Depth(t) <= MAX_DEPTH then Done(Kind(t), |Serialize(t)|) else Fail(TooDeep)
    decreases t, 2
  {
    hide ParseBody, HeadSpec, Depth, Kind, IsLine;
    assert Serialize(t) + x == [FirstByte(t)] + t.line + (Body(t) + x);
    HeadOfText(FirstByte(t), t.line, Body(t) + x);
    if depth <= MAX_DEPTH {
      ReadsBody(t, x, depth);
    }
  }

  lemma {:induction false} ReadsBody(t: Tree, x: Text, depth: nat)
    requires WellFormed(t) && depth <= MAX_DEPTH
    ensures ParseBody(FirstByte(t), t.line, Body(t) + x, depth) ==
            if depth + Depth(t) <= MAX_DEPTH then Done(Kind(t), |Body(t)|) else Fail(TooDeep)
    decreases t, 1
  {
    hide ParseReply, ParseReplies, Serialize, SerializeAll, HeaderInt, IsLine, AllWellFormed, DepthAll;
    if t.List? || t.Map? {
      ReadsAll(t.items, x, depth + 1);
    } else if t.Attribute? {
      ReadsAttribute(t, x, depth);
    }
  }

  lemma {:induction false} ReadsAttribute(t: Tree, x: Text, depth: nat)
    requires WellFormed(t) && t.Attribute? && depth <= MAX_DEPTH
    ensures ParseElements(PIPE, |t.items| / 2, Body(t) + x, depth) ==
            if depth + Depth(t) <= MAX_DEPTH then Done(Kind(t), |Body(t)|) else Fail(TooDeep)
    decreases t, 0
  {
    hide ParseReply, ParseReplies, ParseElements, Serialize, SerializeAll, WellFormed, AllWellFormed, Body, Depth,
         DepthAll, Kind;
    AttributeParts(t);
    Reassociate(SerializeAll(t.items), Serialize(t.reply), x);
    ReadsAll(t.items, Serialize(t.reply) + x, depth + 1);
    ReadsTree(t.reply, x, depth + 1);
    AttributeElements(SerializeAll(t.items), Serialize(t.reply) + x, |t.items| / 2, depth);
  }

  lemma AttributeParts(t: Tree)
    requires WellFormed(t) && t.Attribute?
    ensures WellFormed(t.reply) && AllWellFormed(t.items) && |t.items| % 2 == 0 && |t.items| <= MAX_AGGREGATE
    ensures Body(t) == SerializeAll(t.items) + Serialize(t.reply) && Kind(t) == Kind(t.reply)
    ensures Depth(t) == if DepthAll(t.items) < 1 + Depth(t.reply) then 1 + Depth(t.reply) else DepthAll(t.items)
  {}

  lemma AttributeElements(items: Text, rest: Text, n: nat, depth: nat)
    requires n <= MAX_AGGREGATE / 2
    ensures ParseReplies(items + rest, n * 2, depth + 1).Fail? ==>
              ParseElements(PIPE, n, items + rest, depth) ==
              Fail(ParseReplies(items + rest, n * 2, depth + 1).error)
    ensures ParseReplies(items + rest, n * 2, depth + 1) == Done((), |items|) ==>
              ParseElements(PIPE, n, items + rest, depth) == ParseReply(rest, depth + 1).Plus(|items|)
  {
    assert (items + rest)[|items|..] == rest;
  }

  lemma {:induction false} ReadsAll(ts: seq<Tree>, x: Text, depth: nat)
    requires AllWellFormed(ts) && depth <= MAX_DEPTH + 1
    ensures ParseReplies(SerializeAll(ts) + x, |ts|, depth) ==
            if depth - 1 + DepthAll(ts) <= MAX_DEPTH then Done((), |SerializeAll(ts)|) else Fail(TooDeep)
    decreases ts, 0
  {
    if ts == [] {
    } else {
      Reassociate(Serialize(ts[0]), SerializeAll(ts[1..]), x);
      ReadsTree(ts[0], SerializeAll(ts[1..]) + x, depth);
      ReadsAll(ts[1..], x, depth);
    }
  }

  // ---------------------------------------------------------------- from bytes to trees

  /** `t` is the tree of the frame of length `n` and kind `kind` that `s` starts with. */
  ghost predicate Describes(t: Tree, s: Text, n: nat, kind: byte, depth: nat) {
    && WellFormed(t)
    && n <= |s| && Serialize(t) == s[..n]
    && Kind(t) == kind
    && depth + Depth(t) <= MAX_DEPTH
  }

  lemma {:induction false} TreeOf(s: Text, depth: nat) returns (t: Tree)
    requires ParseReply(s, depth).Done?
    ensures Describes(t, s, ParseReply(s, depth).used, ParseReply(s, depth).value, depth)
    decreases |s|, 0
  {
    HeadExact(s);
    var Done((kind, line), n) := HeadSpec(s);
    t := TreeOfBody(kind, line, s[n..], depth);
    TakeTwice(s, n, |Body(t)|);
  }

  lemma {:induction false} TreeOfBody(kind: byte, line: Text, s: Text, depth: nat) returns (t: Tree)
    requires IsLine(line) && depth <= MAX_DEPTH
    requires ParseBody(kind, line, s, depth).Done?
    ensures WellFormed(t) && t.line == line && FirstByte(t) == kind
    ensures var p := ParseBody(kind, line, s, depth);
            Body(t) == s[..p.used] && Kind(t) == p.value && depth + Depth(t) <= MAX_DEPTH
    decreases |s|, 3
  {
    if IsLineKind(kind) {
      return Simple(kind, line);
    }
    var n := HeaderInt(line).value;
    if n < 0 {
      return Null(kind, line);
    }
    if IsBulkKind(kind) {
      return Bulk(kind, line, s[..n + 2]);
    }
    t := TreeOfElements(kind, line, n, s, depth);
  }

  lemma {:induction false} TreeOfElements(kind: byte, line: Text, n: nat, s: Text, depth: nat) returns (t: Tree)
    requires IsLine(line) && HeaderInt(line) == Some(n) && depth <= MAX_DEPTH
    requires IsListKind(kind) || IsPairKind(kind)
    requires ParseElements(kind, n, s, depth).Done?
    ensures WellFormed(t) && t.line == line && FirstByte(t) == kind
    ensures var p := ParseElements(kind, n, s, depth);
            Body(t) == s[..p.used] && Kind(t) == p.value && depth + Depth(t) <= MAX_DEPTH
    decreases |s|, 2
  {
    hide ParseReply, ParseReplies, Serialize, SerializeAll, HeaderInt, IsLine, AllWellFormed, DepthAll;
    var count := if IsListKind(kind) then n else n * 2;
    var items := TreesOf(s, count, depth + 1);
    var used := ParseReplies(s, count, depth + 1).used;
    if IsListKind(kind) {
      t := List(kind, line, items);
    } else if kind == PERCENT {
      t := Map(line, items);
    } else {
      var reply := TreeOf(s[used..], depth + 1);
      t := Attribute(line, items, reply);
      TakeTwice(s, used, |Serialize(reply)|);
    }
  }

  lemma TakeTwice(s: Text, n: nat, m: nat)
    requires n + m <= |s|
    ensures s[..n] + s[n..][..m] == s[..n + m]
  {}

  lemma {:induction false} TreesOf(s: Text, count: nat, depth: nat) returns (ts: seq<Tree>)
    requires 0 < depth <= MAX_DEPTH + 1 && ParseReplies(s, count, depth).Done?
    ensures |ts| == count && AllWellFormed(ts)
    ensures SerializeAll(ts) == s[..ParseReplies(s, count, depth).used]
    ensures depth - 1 + DepthAll(ts) <= MAX_DEPTH
    decreases |s|, 1
  {
    hide ParseReply, Serialize, Depth, WellFormed;
    if count == 0 {
      return [];
    }
    var first := TreeOf(s, depth);
    var n := ParseReply(s, depth).used;
    var others := TreesOf(s[n..], count - 1, depth);
    ts := [first] + others;
    assert ts[1..] == others;
    TakeTwice(s, n, |SerializeAll(others)|);
  }

  // ---------------------------------------------------------------- main results

  /** The reader accepts exactly the reply grammar within the depth limit: it reports a frame of `n` bytes
      of kind `kind` if and only if those bytes are the text of such a tree. */
  lemma {:induction false} ReplyGrammar(s: Text, n: nat, kind: byte, depth: nat)
    ensures ParseReply(s, depth) == Done(kind, n) <==> exists t :: Describes(t, s, n, kind, depth)
  {
    hide ParseReply, Serialize, WellFormed, Depth, Kind;
    if ParseReply(s, depth) == Done(kind, n) {
      var t := TreeOf(s, depth);
    }
    if t :| Describes(t, s, n, kind, depth) {
      ReadsTree(t, s[n..], depth);
      assert s == Serialize(t) + s[n..];
    }
  }

  /** Frames delimit themselves: the bytes of an accepted frame followed by anything else are read the same. */
  lemma SelfDelimiting(s: Text, x: Text, depth: nat)
    requires ParseReply(s, depth).Done?
    ensures ParseReply(s[..ParseReply(s, depth).used] + x, depth) == ParseReply(s, depth)
  {
    var t := TreeOf(s, depth);
    ReadsTree(t, x, depth);
  }

  /** `f` is one whole reply frame. */
  ghost predicate IsFrame(f: Text) {
    ParseReply(f, 0).Done? && ParseReply(f, 0).used == |f|
  }

  /** What a frame is read as, and where it ends, does not depend on what follows. */
  lemma FrameThen(f: Text, x: Text)
    requires IsFrame(f)
    ensures ParseReply(f + x, 0) == ParseReply(f, 0)
  {
    SelfDelimiting(f, x, 0);
    assert f[..|f|] == f;
  }

  /** No frame is a proper prefix of another. */
  lemma PrefixFree(f: Text, g: Text)
    requires IsFrame(f) && IsFrame(g) && f <= g
    ensures f == g
  {
    FrameThen(f, g[|f|..]);
    assert f + g[|f|..] == g;
  }

  /** Every node costs at least two bytes. */
  lemma {:induction false} NodesBound(t: Tree)
    requires WellFormed(t)
    ensures 2 * Nodes(t) <= |Serialize(t)|
  {
    match t
    case Simple(_, _) =>
    case Null(_, _) =>
    case Bulk(_, _, _) =>
    case List(_, _, items) => NodesBoundAll(items);
    case Map(_, items) => NodesBoundAll(items);
    case Attribute(_, items, reply) => NodesBoundAll(items); NodesBound(reply);
  }

  lemma {:induction false} NodesBoundAll(ts: seq<Tree>)
    requires AllWellFormed(ts)
    ensures 2 * NodesAll(ts) <= |SerializeAll(ts)|
  {
    if ts == [] {
    } else {
      NodesBound(ts[0]);
      NodesBoundAll(ts[1..]);
    }
  }

  /** So a frame of `n` bytes is read with at most `n / 2` calls of the recursive reader. */
  lemma FrameNodes(s: Text, depth: nat)
    requires ParseReply(s, depth).Done?
    ensures var n := ParseReply(s, depth).used;
            exists t :: Describes(t, s, n, ParseReply(s, depth).value, depth) && 2 * Nodes(t) <= n
  {
    hide ParseReply, Nodes, Serialize, WellFormed;
    var t := TreeOf(s, depth);
    NodesBound(t);
  }
}
