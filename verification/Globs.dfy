/** Key patterns: Redis's glob matching, as far as it is documented for SCAN MATCH, and the check of
    delete patterns that `internal/policy/cold_cache.go` and `internal/config/validate.go` both contain. */
module Globs {
  import opened Bytes

  const ANY: byte := 42        // '*'
  const ONE: byte := 63        // '?'
  const CLASS: byte := 91      // '['
  const ESCAPE: byte := 92     // '\'

  /** What a server makes of a character class: given the pattern after `[` and a byte, how much of the
      pattern the class takes if the byte is in it.  Nothing below depends on the rule. */
  type ClassRule = (Text, byte) -> Option<nat>

  predicate Matches(p: Text, key: Text, rule: ClassRule)
    decreases |p| + |key|
  {
    if p == [] then key == []
    else if p[0] == ANY then Matches(p[1..], key, rule) || (key != [] && Matches(p, key[1..], rule))
    else if key == [] then false
    else if p[0] == ONE then Matches(p[1..], key[1..], rule)
    else if p[0] == CLASS then
      match rule(p[1..], key[0])
      case None => false
      case Some(n) => n < |p| && Matches(p[1 + n..], key[1..], rule)
    else if p[0] == ESCAPE && |p| >= 2 then p[1] == key[0] && Matches(p[2..], key[1..], rule)
    else p[0] == key[0] && Matches(p[1..], key[1..], rule)
  }

  // ---------------------------------------------------------------- the laws of matching

  /** `*` stands for any run of bytes. */
  lemma {:induction false} AnyMatches(p: Text, key: Text, rule: ClassRule)
    ensures Matches([ANY] + p, key, rule) <==> exists i: nat :: i <= |key| && Matches(p, key[i..], rule)
    decreases |key|
  {
    assert ([ANY] + p)[1..] == p && key[0..] == key;
    if key == [] {
    } else {
      AnyMatches(p, key[1..], rule);
      if i: nat :| i <= |key[1..]| && Matches(p, key[1..][i..], rule) {
        assert key[1..][i..] == key[i + 1..];
      }
      if i: nat :| i <= |key| && Matches(p, key[i..], rule) && i > 0 {
        assert key[i..] == key[1..][i - 1..];
      }
    }
  }

  /** `?` stands for any one byte. */
  lemma OneMatches(p: Text, key: Text, rule: ClassRule)
    ensures Matches([ONE] + p, key, rule) <==> key != [] && Matches(p, key[1..], rule)
  {
    assert ([ONE] + p)[1..] == p;
  }

  /** A backslash takes the next byte as it is, and other bytes stand for themselves. */
  lemma ByteMatches(b: byte, p: Text, key: Text, rule: ClassRule)
    ensures Matches([ESCAPE, b] + p, key, rule) <==> key != [] && key[0] == b && Matches(p, key[1..], rule)
    ensures !IsWildcard(b) && b != ESCAPE ==>
              (Matches([b] + p, key, rule) <==> key != [] && key[0] == b && Matches(p, key[1..], rule))
    ensures Matches([], key, rule) <==> key == []
  {
    assert ([ESCAPE, b] + p)[2..] == p && ([b] + p)[1..] == p;
  }

  /** A class takes one byte that the rule finds in it, and as much of the pattern as the rule says. */
  lemma ClassMatches(p: Text, key: Text, rule: ClassRule)
    ensures Matches([CLASS] + p, key, rule) <==>
            && key != [] && rule(p, key[0]).Some? && rule(p, key[0]).value <= |p|
            && Matches(p[rule(p, key[0]).value..], key[1..], rule)
  {
    assert ([CLASS] + p)[1..] == p;
    if key != [] && rule(p, key[0]).Some? && rule(p, key[0]).value <= |p| {
      assert ([CLASS] + p)[1 + rule(p, key[0]).value..] == p[rule(p, key[0]).value..];
    }
  }

  /** A pattern without wildcards matches its literal part only. */
  lemma {:induction false} LiteralMatches(p: Text, key: Text, rule: ClassRule)
    requires IsLiteral(p)
    ensures Matches(p, key, rule) <==> key == Literal(p)
    decreases |p|
  {
    if p == [] {
    } else {
      var rest := if p[0] == ESCAPE && |p| >= 2 then p[2..] else p[1..];
      if key == [] {
      } else {
        LiteralMatches(rest, key[1..], rule);
        assert key == [key[0]] + key[1..];
      }
    }
  }

  predicate IsWildcard(b: byte) {
    b == ANY || b == ONE || b == CLASS
  }

  /** `strings.IndexAny(pattern, "*?[")`, or the length if there is none. */
  function IndexWildcard(p: Text): (w: nat)
    ensures w <= |p| && (w < |p| ==> IsWildcard(p[w]))
    ensures forall i | 0 <= i < w :: !IsWildcard(p[i])
  {
    if p == [] || IsWildcard(p[0]) then 0 else 1 + IndexWildcard(p[1..])
  }

  /** `validateDeletePattern`. */
  predicate SafeToDelete(p: Text, minPrefix: int) {
    p != [] && p != [ANY] && IndexWildcard(p) >= minPrefix
  }

  /** The check accepts exactly the patterns other than "" and "*" whose first bytes, as many as configured, are
      there and are none of "*?[". */
  lemma SafeExactly(p: Text, minPrefix: int)
    ensures SafeToDelete(p, minPrefix) <==>
            && p != [] && p != Ascii("*")
            && minPrefix <= |p| && forall i | 0 <= i < minPrefix :: p[i] !in Ascii("*?[")
  {
    WildcardBytes();
    if minPrefix <= |p| && forall i | 0 <= i < minPrefix :: p[i] !in Ascii("*?[") {
      var w := IndexWildcard(p);
      assert w < |p| ==> p[w] in Ascii("*?[");
    }
  }

  lemma WildcardBytes()
    ensures Ascii("*?[") == [ANY, ONE, CLASS] && Ascii("*") == [ANY]
  {}

  // ---------------------------------------------------------------- what the check is worth

  /** The bytes every match must start with, escapes resolved. */
  function Literal(p: Text): Text {
    if p == [] || IsWildcard(p[0]) then []
    else if p[0] == ESCAPE && |p| >= 2 then [p[1]] + Literal(p[2..])
    else [p[0]] + Literal(p[1..])
  }

  /** Every key that a pattern matches starts with the pattern's literal part. */
  lemma {:induction false} MatchStartsLiteral(p: Text, key: Text, rule: ClassRule)
    requires Matches(p, key, rule)
    ensures Literal(p) <= key
    decreases |p|
  {
    if p != [] && !IsWildcard(p[0]) {
      if p[0] == ESCAPE && |p| >= 2 {
        MatchStartsLiteral(p[2..], key[1..], rule);
      } else {
        MatchStartsLiteral(p[1..], key[1..], rule);
      }
      assert key == [key[0]] + key[1..];
    }
  }

  function Escapes(p: Text): nat {
    if p == [] then 0 else (if p[0] == ESCAPE then 1 else 0) + Escapes(p[1..])
  }

  /** It is how many backslashes there are. */
  lemma {:induction false} EscapesExactly(p: Text)
    ensures Escapes(p) == multiset(p)[ESCAPE]
    ensures Escapes(p) == 0 <==> ESCAPE !in p
  {
    if p == [] {
    } else {
      EscapesExactly(p[1..]);
      assert p == [p[0]] + p[1..];
    }
  }

  /** The checked prefix counts escaping backslashes as if they were literal: the true literal part is shorter
      by at most their number, and is the checked prefix itself if there are none. */
  lemma {:induction false} LiteralLength(p: Text)
    ensures |Literal(p)| + Escapes(p[..IndexWildcard(p)]) >= IndexWildcard(p)
    ensures Escapes(p[..IndexWildcard(p)]) == 0 ==> Literal(p) == p[..IndexWildcard(p)]
    decreases |p|
  {
    var w := IndexWildcard(p);
    if w == 0 {
    } else {
      assert p[..w][1..] == p[1..][..w - 1];
      if p[0] == ESCAPE && |p| >= 2 {
        LiteralLength(p[2..]);
        if w > 1 {
          assert IndexWildcard(p[1..]) == w - 1 && IndexWildcard(p[2..]) == w - 2;
          assert p[..w][1..][1..] == p[2..][..w - 2];
        }
      } else {
        LiteralLength(p[1..]);
        assert Literal(p) == [p[0]] + Literal(p[1..]);
        assert p[..w] == [p[0]] + p[1..][..w - 1];
      }
    }
  }

  /** A pattern that passed the check and has no backslash in its checked prefix can only match keys that
      start with that prefix, which is at least as long as configured. */
  lemma SafePatternPrefix(p: Text, minPrefix: int, key: Text, rule: ClassRule)
    requires SafeToDelete(p, minPrefix) && Matches(p, key, rule)
    ensures |Literal(p)| >= minPrefix - Escapes(p[..IndexWildcard(p)]) && Literal(p) <= key
    ensures Escapes(p[..IndexWildcard(p)]) == 0 ==>
              p[..IndexWildcard(p)] <= key && IndexWildcard(p) >= minPrefix
  {
    MatchStartsLiteral(p, key, rule);
    LiteralLength(p);
  }

  /** With backslashes the check is weaker than it looks: a pattern accepted for a prefix of three bytes
      matches a key of two. */
  lemma EscapedPatternIsTooWide(rule: ClassRule)
    ensures var p := [ESCAPE, 97, ESCAPE, 98, ANY];
            SafeToDelete(p, 3) && Matches(p, [97, 98], rule) && Literal(p) == [97, 98]
  {
    var p := [ESCAPE, 97, ESCAPE, 98, ANY];
    assert p[1..] == [97, ESCAPE, 98, ANY] && p[2..] == [ESCAPE, 98, ANY];
    assert p[2..][1..] == [98, ANY] && p[2..][2..] == [ANY] && [ANY][1..] == [] && [98, ANY][1..] == [ANY];
    assert IndexWildcard([98, ANY]) == 1 && IndexWildcard(p[2..]) == 2 && IndexWildcard(p[1..]) == 3;
    assert [97, 98][1..] == [98] && [98][1..] == [];
    assert Matches([ANY], [], rule) && Matches(p[2..], [98], rule);
    assert Literal([ANY]) == [] && Literal(p[2..]) == [98];
  }

  // ---------------------------------------------------------------- exactly what matching keys share

  /** No character class: every `[` is escaped. */
  predicate ClassFree(p: Text) {
    p == [] || (p[0] != CLASS && ClassFree(if p[0] == ESCAPE && |p| >= 2 then p[2..] else p[1..]))
  }

  /** A key that the pattern matches: `x` stands for every wildcard. */
  function Instance(p: Text, x: byte): Text {
    if p == [] then []
    else if p[0] == ANY || p[0] == ONE then [x] + Instance(p[1..], x)
    else if p[0] == ESCAPE && |p| >= 2 then [p[1]] + Instance(p[2..], x)
    else [p[0]] + Instance(p[1..], x)
  }

  lemma {:induction false} InstanceMatches(p: Text, x: byte, rule: ClassRule)
    requires ClassFree(p)
    ensures Matches(p, Instance(p, x), rule)
    decreases |p|
  {
    if p == [] {
    } else {
      var key := Instance(p, x);
      if p[0] == ESCAPE && |p| >= 2 {
        InstanceMatches(p[2..], x, rule);
        assert key[1..] == Instance(p[2..], x);
      } else {
        InstanceMatches(p[1..], x, rule);
        assert key[1..] == Instance(p[1..], x);
        if p[0] == ANY {
          assert Matches(p, key[1..], rule);
        }
      }
    }
  }

  lemma {:induction false} InstanceShape(p: Text, x: byte)
    requires ClassFree(p)
    ensures var n, key := |Literal(p)|, Instance(p, x);
            Literal(p) <= key && if IsLiteral(p) then |key| == n else |key| > n && key[n] == x
    decreases |p|
  {
    if p != [] && !IsWildcard(p[0]) {
      InstanceShape(if p[0] == ESCAPE && |p| >= 2 then p[2..] else p[1..], x);
    }
  }

  /** No wildcard outside an escape. */
  predicate IsLiteral(p: Text) {
    p == [] || (!IsWildcard(p[0]) && IsLiteral(if p[0] == ESCAPE && |p| >= 2 then p[2..] else p[1..]))
  }

  /** All keys that `p` matches start with the same `n` bytes. */
  ghost predicate SharePrefix(p: Text, n: int, rule: ClassRule) {
    exists f: Text :: |f| >= n && forall key :: Matches(p, key, rule) ==> f <= key
  }

  /** For patterns without character classes, the keys to be deleted share at least `n` leading bytes if and
      only if the literal part with escapes resolved is that long. */
  lemma SharedPrefixExactly(p: Text, n: int, rule: ClassRule)
    requires ClassFree(p)
    ensures SharePrefix(p, n, rule) <==> |Literal(p)| >= n
  {
    if |Literal(p)| >= n {
      forall key | Matches(p, key, rule)
        ensures Literal(p) <= key
      {
        MatchStartsLiteral(p, key, rule);
      }
    }
    if SharePrefix(p, n, rule) {
      var f: Text :| |f| >= n && forall key :: Matches(p, key, rule) ==> f <= key;
      InstanceMatches(p, 0, rule);
      InstanceMatches(p, 1, rule);
      InstanceShape(p, 0);
      InstanceShape(p, 1);
      assert f <= Instance(p, 0) && f <= Instance(p, 1);
    }
  }
}
