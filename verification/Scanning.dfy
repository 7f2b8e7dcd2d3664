/** A Redis as the policy code meets it: SCAN, UNLINK, DEL and TTL on one connection, with every reply the
    server may give, and the guarantees Redis documents for SCAN. */
module Scanning {
  import opened Bytes
  import opened Streams
  import opened Globs
  import opened Values
  import opened Client

  const ZERO_CURSOR: Text := Ascii("0")

  datatype Page = Page(cursor: Text, keys: seq<Text>)

  // ---------------------------------------------------------------- reading a SCAN reply

  /** `parseScanResult`: a two-element array of a cursor and an array of keys. */
  function ParseScan(v: Value): Option<Page> {
    if !v.Array? || |v.items| != 2 || !v.items[0].Str? || !v.items[1].Array? then None
    else
      match ParseKeys(v.items[1].items)
      case None => None
      case Some(keys) => Some(Page(v.items[0].text, keys))
  }

  function ParseKeys(vs: seq<Value>): (keys: Option<seq<Text>>)
    ensures keys.Some? <==> forall i | 0 <= i < |vs| :: vs[i].Str?
    ensures keys.Some? ==> |keys.value| == |vs| && forall i | 0 <= i < |vs| :: keys.value[i] == vs[i].text
  {
    if vs == [] then Some([])
    else if !vs[0].Str? then None
    else
      match ParseKeys(vs[1..])
      case None => None
      case Some(keys) => Some([vs[0].text] + keys)
  }

  function PageOf(a: Answer<Value>): Option<Page> {
    if a.Value? then ParseScan(a.value) else None
  }

  // ---------------------------------------------------------------- what a SCAN reply says

  /** A SCAN reply: an array of a cursor and an array of strings, and nothing else. */
  ghost predicate HasPage(a: Answer<Value>) {
    && a.Value? && a.value.Array? && |a.value.items| == 2
    && a.value.items[0].Str? && a.value.items[1].Array?
    && forall i | 0 <= i < |a.value.items[1].items| :: a.value.items[1].items[i].Str?
  }

  ghost function CursorOf(a: Answer<Value>): Text
    requires HasPage(a)
  {
    a.value.items[0].text
  }

  ghost predicate Returns(a: Answer<Value>, key: Text) {
    HasPage(a) && Str(key) in a.value.items[1].items
  }

  /** `ParseScan` accepts exactly the SCAN replies, and gives their cursor and all of their keys in order. */
  lemma ParseScanExactly(v: Value, cursor: Text, keys: seq<Text>)
    ensures ParseScan(v) == Some(Page(cursor, keys)) <==>
            v == Array([Str(cursor), Array(seq(|keys|, i requires 0 <= i < |keys| => Str(keys[i])))])
  {
    if ParseScan(v) == Some(Page(cursor, keys)) {
      assert v.items == [v.items[0], v.items[1]];
      assert v.items[1].items == seq(|keys|, i requires 0 <= i < |keys| => Str(keys[i]));
    }
    if v == Array([Str(cursor), Array(seq(|keys|, i requires 0 <= i < |keys| => Str(keys[i])))]) {
      var ks := ParseKeys(v.items[1].items);
      assert ks.value == keys;
    }
  }

  lemma PageExactly(a: Answer<Value>)
    ensures PageOf(a).Some? <==> HasPage(a)
    ensures HasPage(a) ==> a.Value? && PageOf(a).value.cursor == CursorOf(a)
    ensures HasPage(a) ==> forall key :: key in PageOf(a).value.keys <==> Returns(a, key)
  {
    if HasPage(a) {
      var page, items := PageOf(a).value, a.value.items[1].items;
      forall key | Returns(a, key)
        ensures key in page.keys
      {
        var i :| 0 <= i < |items| && items[i] == Str(key);
        assert page.keys[i] == key;
      }
      forall key | key in page.keys
        ensures Returns(a, key)
      {
        var i :| 0 <= i < |page.keys| && page.keys[i] == key;
        assert items[i] == Str(key);
      }
    }
  }

  /** `IsUnknownCommand`. */
  predicate IsUnknownCommand<T>(a: Answer<T>) {
    a.Refusal? && Contains(Upper(a.message), Ascii("UNKNOWN COMMAND"))
  }

  /** A refusal that says "unknown command" somewhere, in whatever case. */
  lemma UnknownExactly<T>(a: Answer<T>)
    ensures IsUnknownCommand(a) <==> a.Refusal? && exists i: nat :: SaysAt(a.message, Ascii("unknown command"), i)
  {
    hide Upper, Contains, Ascii;
    if a.Refusal? {
      var big, small, m := Ascii("UNKNOWN COMMAND"), Ascii("unknown command"), a.message;
      UpperOfUnknown();
      UpperExactly(m, Upper(m));
      ContainsExactly(Upper(m), big);
      if i: nat :| OccursAt(Upper(m), big, i) {
        OccursMeans(m, small, i);
      }
      if i: nat :| SaysAt(m, small, i) {
        OccursMeans(m, small, i);
      }
    }
  }

  /** `word` stands at position `i` of `s`, up to the case of letters. */
  ghost predicate SaysAt(s: Text, word: Text, i: nat) {
    i + |word| <= |s| && EqualFold(s[i..i + |word|], word)
  }

  lemma UpperOfUnknown()
    ensures Upper(Ascii("unknown command")) == Ascii("UNKNOWN COMMAND")
  {}

  lemma OccursMeans(s: Text, word: Text, i: nat)
    ensures OccursAt(Upper(s), Upper(word), i) <==> SaysAt(s, word, i)
  {
    if i + |word| <= |s| {
      UpperFolds(s[i..i + |word|], word);
      assert Upper(s[i..i + |word|]) == Upper(s)[i..][..|word|];
    }
  }

  predicate Contains(s: Text, sub: Text) {
    sub <= s || (s != [] && Contains(s[1..], sub))
  }

  predicate OccursAt(s: Text, sub: Text, i: nat) {
    i <= |s| && sub <= s[i..]
  }

  lemma {:induction false} ContainsExactly(s: Text, sub: Text)
    ensures Contains(s, sub) <==> exists i: nat :: OccursAt(s, sub, i)
  {
    assert s[0..] == s;
    if s == [] {
    } else {
      ContainsExactly(s[1..], sub);
      if i: nat :| OccursAt(s[1..], sub, i) {
        assert s[1..][i..] == s[i + 1..];
        assert OccursAt(s, sub, i + 1);
      }
      if i: nat :| OccursAt(s, sub, i) && i > 0 {
        assert s[1..][i - 1..] == s[i..];
        assert OccursAt(s[1..], sub, i - 1);
      }
    }
    if Contains(s, sub) && sub <= s {
      assert OccursAt(s, sub, 0);
    }
  }

  // ---------------------------------------------------------------- the server and its history

  /** One SCAN call: the pattern, the cursor sent, the reply, and the keys the server held at that moment. */
  datatype ScanCall = ScanCall(pattern: Text, cursor: Text, answer: Answer<Value>, db: set<Text>)

  datatype TtlCall = TtlCall(key: Text, answer: Answer<Value>)

  datatype DeleteCommand = Unlink | Del

  datatype DeleteCall = DeleteCall(command: DeleteCommand, key: Text, answer: Answer<Value>) {
    predicate Done() {
      answer.Value?
    }
  }

  /** What the server says to a delete command; a lost reply leaves open whether the key is gone. */
  datatype DeleteReply = DeleteReply(answer: Answer<Value>, applied: bool) {
    predicate Removes() {
      answer.Value? || (answer.Failure? && applied)
    }
  }

  /** The replies to come are fixed in advance but arbitrary: `scanReplies` until the connection ends, the
      others by position. */
  class Redis {
    const scanReplies: seq<Answer<Value>>
    const deleteReplies: nat -> DeleteReply
    const ttlReplies: nat -> Answer<Value>
    var keys: set<Text>
    var scanned: nat
    var requested: nat
    var asked: nat
    ghost var scans: seq<ScanCall>
    ghost var deletes: seq<DeleteCall>
    ghost var ttls: seq<TtlCall>

    ghost predicate Valid()
      reads this
    {
      |scans| == scanned
    }

    constructor (keys: set<Text>, scanReplies: seq<Answer<Value>>, deleteReplies: nat -> DeleteReply,
                 ttlReplies: nat -> Answer<Value>)
      ensures Valid() && this.keys == keys && scans == [] && deletes == [] && ttls == []
      ensures this.scanReplies == scanReplies && this.deleteReplies == deleteReplies && this.ttlReplies == ttlReplies
    {
      this.scanReplies := scanReplies;
      this.deleteReplies := deleteReplies;
      this.ttlReplies := ttlReplies;
      this.keys := keys;
      scanned, requested, asked, scans, deletes, ttls := 0, 0, 0, [], [], [];
    }

    method Scan(cursor: Text, pattern: Text) returns (a: Answer<Value>)
      requires Valid()
      modifies this
      ensures Valid() && keys == old(keys) && deletes == old(deletes) && ttls == old(ttls)
      ensures scans == old(scans) + [ScanCall(pattern, cursor, a, keys)]
      ensures old(scanned) >= |scanReplies| ==> a.Failure?
    {
      a := if scanned < |scanReplies| then scanReplies[scanned] else Failure(EOF);
      scanned := scanned + 1;
      scans := scans + [ScanCall(pattern, cursor, a, keys)];
    }

    method Delete(command: DeleteCommand, key: Text) returns (a: Answer<Value>)
      requires Valid()
      modifies this
      ensures Valid() && scans == old(scans) && ttls == old(ttls)
      ensures deletes == old(deletes) + [DeleteCall(command, key, a)]
      ensures keys <= old(keys) && old(keys) - {key} <= keys
      ensures a.Value? ==> key !in keys
      ensures a.Refusal? ==> keys == old(keys)
    {
      var reply := deleteReplies(requested);
      requested := requested + 1;
      if reply.Removes() {
        keys := keys - {key};
      }
      a := reply.answer;
      deletes := deletes + [DeleteCall(command, key, a)];
    }

    method Ttl(key: Text) returns (a: Answer<Value>)
      requires Valid()
      modifies this
      ensures Valid() && keys == old(keys) && scans == old(scans) && deletes == old(deletes)
      ensures scanned == old(scanned)
      ensures ttls == old(ttls) + [TtlCall(key, a)]
    {
      a := ttlReplies(asked);
      asked := asked + 1;
      ttls := ttls + [TtlCall(key, a)];
    }
  }

  /** The last SCAN since the first `before` gave no page. */
  ghost predicate ScanFailed(scans: seq<ScanCall>, before: nat) {
    |scans| > before && !HasPage(scans[|scans| - 1].answer)
  }

  /** The last delete command since the first `before` was refused or got no reply. */
  ghost predicate DeleteFailed(deletes: seq<DeleteCall>, before: nat) {
    |deletes| > before && !deletes[|deletes| - 1].Done()
  }

  // ---------------------------------------------------------------- what Redis guarantees about SCAN

  /** The calls `a .. b` are one full iteration for `pattern`: from cursor 0, following the returned cursors,
      to the first returned 0. */
  ghost predicate Iteration(scans: seq<ScanCall>, a: nat, b: nat, pattern: Text) {
    && a < b <= |scans|
    && scans[a].cursor == Ascii("0")
    && (forall j | a <= j < b :: scans[j].pattern == pattern && HasPage(scans[j].answer))
    && (forall j | a <= j < b - 1 ::
          CursorOf(scans[j].answer) == scans[j + 1].cursor && CursorOf(scans[j].answer) != Ascii("0"))
    && CursorOf(scans[b - 1].answer) == Ascii("0")
  }

  ghost predicate InPages(scans: seq<ScanCall>, a: nat, b: nat, key: Text) {
    exists j | a <= j < b <= |scans| :: InPage(scans[j], key)
  }

  ghost predicate InPage(call: ScanCall, key: Text) {
    Returns(call.answer, key)
  }

  /** A full iteration returns every matching key that was there from its first call to its last.  (Keys are
      only ever removed, so those are the matching keys still there at the last call.) */
  ghost predicate FullIteration(scans: seq<ScanCall>, rule: ClassRule) {
    forall a, b, pattern :: Iteration(scans, a, b, pattern) ==>
      forall key | key in scans[b - 1].db && Matches(pattern, key, rule) :: InPages(scans, a, b, key)
  }

  /** SCAN MATCH returns matching keys only. */
  ghost predicate OnlyMatches(scans: seq<ScanCall>, rule: ClassRule) {
    forall j, key | 0 <= j < |scans| && InPage(scans[j], key) :: Matches(scans[j].pattern, key, rule)
  }
}
