/** Byte strings, and the few functions of Go's `strings` and `strconv` packages the proxy relies on. */
module Bytes {

  /** Go's `byte`.  A Go string and a Go byte slice are both a `seq<byte>`. */
  newtype byte = x: int | 0 <= x < 256

  type Text = seq<byte>

  datatype Option<+T> = None | Some(value: T)

  const CR: byte := 13
  const LF: byte := 10
  const CRLF: Text := [CR, LF]
  const PLUS: byte := 43
  const MINUS: byte := 45

  /** The platform's 64-bit `int`. */
  const MIN_INT: int := -0x8000_0000_0000_0000
  const MAX_INT: int := 0x7FFF_FFFF_FFFF_FFFF

  /** The bytes of an ASCII literal. */
  function Ascii(s: string): (b: Text)
    ensures |b| == |s|
  {
    seq(|s|, i requires 0 <= i < |s| => if s[i] as int < 256 then s[i] as int as byte else 63)
  }

  /** The literal's characters, one byte each. */
  lemma AsciiExactly(s: string)
    ensures forall i | 0 <= i < |s| && s[i] as int < 256 :: Ascii(s)[i] as int == s[i] as int
  {}

  predicate IsDigit(b: byte) {
    48 <= b <= 57
  }

  predicate AllDigits(s: Text) {
    forall i | 0 <= i < |s| :: IsDigit(s[i])
  }

  function DigitsValue(s: Text): (v: int)
    requires AllDigits(s)
    ensures 0 <= v
  {
    if s == [] then 0 else DigitsValue(s[..|s| - 1]) * 10 + (s[|s| - 1] - 48) as int
  }

  /** `strconv.Itoa` on the non-negative lengths and counts that are ever encoded. */
  function Itoa(n: nat): (s: Text)
    ensures s != [] && AllDigits(s)
  {
    if n < 10 then [48 + n as byte] else Itoa(n / 10) + [48 + (n % 10) as byte]
  }

  /** `strconv.Atoi`, which is also `strconv.ParseInt(s, 10, 64)`: an optional sign, at least one digit,
      and a value that fits 64 bits.  Leading zeros are accepted. */
  function Atoi(s: Text): Option<int> {
    var signed := s != [] && (s[0] == PLUS || s[0] == MINUS);
    var digits := if signed then s[1..] else s;
    if digits == [] || !AllDigits(digits) then None
    else
      var v: int := if signed && s[0] == MINUS then -DigitsValue(digits) else DigitsValue(digits);
      if MIN_INT <= v <= MAX_INT then Some(v) else None
  }

  lemma {:induction false} DigitsOfItoa(n: nat)
    ensures DigitsValue(Itoa(n)) == n
  {
    if n < 10 {
      assert Itoa(n)[..0] == [];
    } else {
      DigitsOfItoa(n / 10);
      assert Itoa(n)[..|Itoa(n)| - 1] == Itoa(n / 10);
    }
  }

  /** Parsing what was printed gives the number back, for every number that fits the machine's `int`,
      and only for those. */
  lemma {:induction false} AtoiOfItoa(n: nat)
    ensures Atoi(Itoa(n)) == if n <= MAX_INT then Some(n) else None
  {
    DigitsOfItoa(n);
  }

  function Power10(k: nat): (p: nat)
    ensures p >= 1
  {
    if k == 0 then 1 else 10 * Power10(k - 1)
  }

  lemma DivideTwice(n: nat, p: nat)
    requires p > 0
    ensures (n / 10) / p == n / (10 * p)
  {
    var q, r := (n / 10) / p, (n / 10) % p;
    assert n == (10 * p) * q + (10 * r + n % 10);
    assert 10 * r + n % 10 < 10 * p;
    DivisionIs(n, 10 * p, q, 10 * r + n % 10);
  }

  lemma DivisionIs(n: nat, d: nat, q: nat, r: nat)
    requires d > 0 && n == d * q + r && r < d
    ensures n / d == q
  {
    assert d * (n / d - q) == r - n % d;
    SmallMultiple(n / d - q, d);
  }

  lemma SmallMultiple(x: int, d: nat)
    requires 0 - d < d * x < d
    ensures x == 0
  {}

  /** The decimal digits of a number, from the last one on, and as many as it takes, with no zero in front. */
  lemma {:induction false} ItoaDigits(n: nat)
    ensures var s := Itoa(n);
            && (forall i | 0 <= i < |s| :: s[|s| - 1 - i] as int == 48 + n / Power10(i) % 10)
            && n < Power10(|s|) && (n > 0 ==> Power10(|s| - 1) <= n) && (n == 0 ==> |s| == 1)
  {
    var s := Itoa(n);
    if n < 10 {
      assert s[0] as int == 48 + n / Power10(0) % 10;
      assert Power10(1) == 10 * Power10(0);
    } else {
      var t := Itoa(n / 10);
      ItoaDigits(n / 10);
      assert s == t + [48 + (n % 10) as byte];
      forall i | 0 <= i < |s|
        ensures s[|s| - 1 - i] as int == 48 + n / Power10(i) % 10
      {
        if i == 0 {
          assert n / Power10(0) == n;
        } else {
          hide Itoa;
          assert s[|s| - 1 - i] == t[|t| - 1 - (i - 1)];
          DivideTwice(n, Power10(i - 1));
        }
      }
    }
  }

  function Zeros(k: nat): (s: Text)
    ensures |s| == k && AllDigits(s) && forall i | 0 <= i < k :: s[i] == 48
  {
    seq(k, i requires 0 <= i < k => 48)
  }

  /** The number in decimal, with a sign if it is negative. */
  function Decimal(v: int): Text {
    if v < 0 then [MINUS] + Itoa(-v) else Itoa(v)
  }

  /** Every string of digits is a number with zeros in front of it. */
  lemma {:induction false} DigitsAre(s: Text) returns (k: nat)
    requires s != [] && AllDigits(s)
    ensures s == Zeros(k) + Itoa(DigitsValue(s))
  {
    var t, d := s[..|s| - 1], s[|s| - 1];
    if t == [] {
      k := 0;
      assert DigitsValue(s) == (d - 48) as int;
    } else {
      k := DigitsAre(t);
      if DigitsValue(t) == 0 {
        k := k + 1;
        assert t == Zeros(k);
      }
      assert s == t + [d];
    }
  }

  lemma {:induction false} DigitsValueZeros(k: nat, s: Text)
    requires AllDigits(s)
    ensures AllDigits(Zeros(k) + s) && DigitsValue(Zeros(k) + s) == DigitsValue(s)
  {
    if s == [] {
      assert Zeros(k) + s == Zeros(k);
      if k > 0 {
        DigitsValueZeros(k - 1, []);
        assert Zeros(k)[..k - 1] == Zeros(k - 1) + [];
      }
    } else {
      assert (Zeros(k) + s)[..|Zeros(k) + s| - 1] == Zeros(k) + s[..|s| - 1];
      DigitsValueZeros(k, s[..|s| - 1]);
    }
  }

  /** The sign, the zeros in front, and the digits of a number that was written in decimal. */
  function Written(v: int, plus: bool, zeros: nat): Text {
    (if v < 0 then [MINUS] else if plus then [PLUS] else []) + (Zeros(zeros) + Itoa(if v < 0 then -v else v))
  }

  /** Parsing accepts exactly the numbers written in decimal, with zeros in front or a plus sign if need be, that
      fit the machine's `int`; and a minus sign before zeros. */
  lemma {:induction false} AtoiExactly(s: Text, v: int)
    ensures Atoi(s) == Some(v) <==>
            && MIN_INT <= v <= MAX_INT
            && ((exists plus, zeros :: s == Written(v, plus, zeros))
                || (v == 0 && exists zeros: nat :: s == [MINUS] + (Zeros(zeros) + Itoa(0))))
  {
    hide Itoa, Zeros, DigitsValue;
    if Atoi(s) == Some(v) {
      var signed := s[0] == PLUS || s[0] == MINUS;
      var digits := if signed then s[1..] else s;
      var k := DigitsAre(digits);
      assert s == (if signed then [s[0]] else []) + digits;
      if v == 0 && s[0] == MINUS {
        assert s == [MINUS] + (Zeros(k) + Itoa(0));
      } else {
        assert s == Written(v, s[0] == PLUS, k);
      }
    }
    if plus, zeros :| s == Written(v, plus, zeros) {
      ReadsWritten(s, if v < 0 then [MINUS] else if plus then [PLUS] else [], zeros, if v < 0 then -v else v);
    }
    if zeros: nat :| v == 0 && s == [MINUS] + (Zeros(zeros) + Itoa(0)) {
      ReadsWritten(s, [MINUS], zeros, 0);
    }
  }

  lemma ReadsWritten(s: Text, sign: Text, zeros: nat, n: nat)
    requires s == sign + (Zeros(zeros) + Itoa(n)) && (sign == [] || sign == [PLUS] || sign == [MINUS])
    ensures var v: int := if sign == [MINUS] then 0 - n else n;
            Atoi(s) == if MIN_INT <= v <= MAX_INT then Some(v) else None
  {
    hide Itoa, DigitsValue;
    var digits := Zeros(zeros) + Itoa(n);
    DigitsValueZeros(zeros, Itoa(n));
    DigitsOfItoa(n);
    assert digits != [] && IsDigit(digits[0]);
    if sign != [] {
      assert s[0] == sign[0] && s[1..] == digits;
    } else {
      assert s == digits;
    }
  }

  predicate IsLineEnd(b: byte) {
    b == CR || b == LF
  }

  /** `strings.TrimRight(s, "\r\n")`: drops the whole trailing run of CR and LF, not just one CRLF. */
  function TrimCRLF(s: Text): (t: Text)
    ensures t <= s
    ensures t == [] || !IsLineEnd(t[|t| - 1])
    ensures forall i | |t| <= i < |s| :: IsLineEnd(s[i])
  {
    if s != [] && IsLineEnd(s[|s| - 1]) then TrimCRLF(s[..|s| - 1]) else s
  }

  lemma {:induction false} TrimTerminated(s: Text, end: Text)
    requires s == [] || !IsLineEnd(s[|s| - 1])
    requires forall i | 0 <= i < |end| :: IsLineEnd(end[i])
    ensures TrimCRLF(s + end) == s
  {
    if end == [] {
      assert s + end == s;
    } else {
      assert (s + end)[..|s + end| - 1] == s + end[..|end| - 1];
      TrimTerminated(s, end[..|end| - 1]);
    }
  }

  /** The ASCII part of `strings.ToUpper`. */
  function Upper(s: Text): (u: Text)
    ensures |u| == |s|
  {
    seq(|s|, i requires 0 <= i < |s| => if 97 <= s[i] <= 122 then s[i] - 32 else s[i])
  }

  predicate IsLower(b: byte) {
    'a' as int <= b as int <= 'z' as int
  }

  /** `u` is `b`, or its capital if it is a lower-case letter. */
  predicate IsCapitalOf(u: byte, b: byte) {
    if IsLower(b) then u as int - 'A' as int == b as int - 'a' as int else u == b
  }

  /** `u` is `s` in upper case. */
  predicate IsUpperOf(u: Text, s: Text) {
    |u| == |s| && forall i | 0 <= i < |s| :: IsCapitalOf(u[i], s[i])
  }

  /** The same text up to the case of letters. */
  predicate EqualFold(s: Text, t: Text) {
    |s| == |t| && forall i | 0 <= i < |s| ::
      s[i] == t[i] || (IsLower(s[i]) && IsCapitalOf(t[i], s[i])) || (IsLower(t[i]) && IsCapitalOf(s[i], t[i]))
  }

  lemma UpperExactly(s: Text, u: Text)
    ensures u == Upper(s) <==> IsUpperOf(u, s)
    ensures forall i | 0 <= i < |s| :: !IsLower(Upper(s)[i])
  {
    if IsUpperOf(u, s) {
      assert forall i | 0 <= i < |s| :: u[i] == Upper(s)[i];
    }
  }

  /** Two texts have the same upper case exactly if they differ in case only. */
  lemma UpperFolds(s: Text, t: Text)
    ensures Upper(s) == Upper(t) <==> EqualFold(s, t)
  {
    if Upper(s) == Upper(t) {
      forall i | 0 <= i < |s|
        ensures s[i] == t[i] || (IsLower(s[i]) && IsCapitalOf(t[i], s[i])) || (IsLower(t[i]) && IsCapitalOf(s[i], t[i]))
      {
        assert Upper(s)[i] == Upper(t)[i];
      }
    }
    if EqualFold(s, t) {
      assert forall i | 0 <= i < |s| :: Upper(s)[i] == Upper(t)[i];
    }
  }

  /** The ASCII part of `unicode.IsSpace`. */
  predicate IsSpace(b: byte) {
    9 <= b <= 13 || b == 32
  }

  /** White space and line ends by the characters they are. */
  lemma SpacesExactly(b: byte)
    ensures IsSpace(b) <==> b in Ascii(" \t\n\U{0B}\U{0C}\r")
    ensures IsLineEnd(b) <==> b in Ascii("\r\n")
    ensures IsDigit(b) <==> '0' as int <= b as int <= '9' as int
  {
    assert Ascii(" \t\n\U{0B}\U{0C}\r") == [32, 9, 10, 11, 12, 13];
    assert Ascii("\r\n") == [13, 10];
  }

  function WordLength(s: Text): (n: nat)
    ensures n <= |s|
    ensures forall i | 0 <= i < n :: !IsSpace(s[i])
    ensures n < |s| ==> IsSpace(s[n])
  {
    if s == [] || IsSpace(s[0]) then 0 else 1 + WordLength(s[1..])
  }

  /** `strings.Fields`. */
  function Fields(s: Text): (fs: seq<Text>)
    ensures forall i | 0 <= i < |fs| :: IsWord(fs[i])
    decreases |s|
  {
    if s == [] then []
    else if IsSpace(s[0]) then Fields(s[1..])
    else [s[..WordLength(s)]] + Fields(s[WordLength(s)..])
  }

  predicate IsWord(w: Text) {
    w != [] && forall i | 0 <= i < |w| :: !IsSpace(w[i])
  }

  predicate IsBlank(s: Text) {
    forall i | 0 <= i < |s| :: IsSpace(s[i])
  }

  /** What may stand after each of a list of words: white space, and after the last one also nothing. */
  predicate AreGaps(gaps: seq<Text>) {
    forall i | 0 <= i < |gaps| :: IsBlank(gaps[i]) && (gaps[i] == [] ==> i == |gaps| - 1)
  }

  predicate AreWords(words: seq<Text>) {
    forall i | 0 <= i < |words| :: IsWord(words[i])
  }

  /** Words, each followed by its gap. */
  function Spaced(words: seq<Text>, gaps: seq<Text>): Text
    requires |words| == |gaps|
  {
    if words == [] then [] else words[0] + (gaps[0] + Spaced(words[1..], gaps[1..]))
  }

  /** Splitting gives the words back that white space separates, whatever white space it is, and whether or not
      some comes first or last. */
  lemma {:induction false} FieldsOfSpaced(lead: Text, words: seq<Text>, gaps: seq<Text>)
    requires |words| == |gaps| && AreWords(words) && AreGaps(gaps) && IsBlank(lead)
    ensures Fields(lead + Spaced(words, gaps)) == words
    decreases |words|
  {
    SkipSpaces(lead, Spaced(words, gaps));
    if words == [] {
    } else {
      var w, rest := words[0], gaps[0] + Spaced(words[1..], gaps[1..]);
      var s := w + rest;
      assert forall i | 0 <= i < |w| :: s[i] == w[i];
      assert |w| < |s| ==> s[|w|] == gaps[0][0];
      assert WordLength(s) == |w|;
      assert s[..|w|] == w && s[|w|..] == rest;
      FieldsOfSpaced(gaps[0], words[1..], gaps[1..]);
    }
  }

  /** Every text is of that form. */
  lemma {:induction false} SpacedOf(s: Text) returns (lead: Text, words: seq<Text>, gaps: seq<Text>)
    ensures |words| == |gaps| && AreWords(words) && AreGaps(gaps) && IsBlank(lead)
    ensures s == lead + Spaced(words, gaps)
    ensures s != [] && IsSpace(s[0]) ==> lead != []
    ensures s == [] ==> words == []
    decreases |s|
  {
    hide Spaced, WordLength;
    if s == [] {
      assert [] + Spaced([], []) == [] by { NoWords(); }
      return [], [], [];
    } else if IsSpace(s[0]) {
      lead, words, gaps := SpacedOf(s[1..]);
      lead := [s[0]] + lead;
      assert s == lead + Spaced(words, gaps);
    } else {
      var n := WordLength(s);
      assert s == s[..n] + s[n..];
      lead, words, gaps := SpacedOf(s[n..]);
      OneMoreWord(s[..n], lead, words, gaps);
      assert s == [] + s;
      return [], [s[..n]] + words, [lead] + gaps;
    }
  }

  lemma NoWords()
    ensures Spaced([], []) == []
  {}

  lemma OneMoreWord(w: Text, lead: Text, words: seq<Text>, gaps: seq<Text>)
    requires |words| == |gaps| && AreWords(words) && AreGaps(gaps)
    requires IsWord(w) && IsBlank(lead) && (lead == [] ==> words == [])
    ensures AreWords([w] + words) && AreGaps([lead] + gaps)
    ensures Spaced([w] + words, [lead] + gaps) == w + (lead + Spaced(words, gaps))
  {
    assert ([w] + words)[1..] == words && ([lead] + gaps)[1..] == gaps;
  }

  /** White space at the end does not matter. */
  lemma {:induction false} FieldsTrailing(s: Text, tail: Text)
    requires IsBlank(tail)
    ensures Fields(s + tail) == Fields(s)
    decreases |s|
  {
    if s == [] {
      SkipSpaces(tail, []);
      assert s + tail == tail + [];
    } else if IsSpace(s[0]) {
      assert (s + tail)[1..] == s[1..] + tail;
      FieldsTrailing(s[1..], tail);
    } else {
      var n := WordLength(s);
      assert forall i | 0 <= i < n :: (s + tail)[i] == s[i];
      assert n < |s + tail| ==> IsSpace((s + tail)[n]);
      assert WordLength(s + tail) == n;
      assert (s + tail)[..n] == s[..n] && (s + tail)[n..] == s[n..] + tail;
      FieldsTrailing(s[n..], tail);
    }
  }

  lemma {:induction false} SkipSpaces(space: Text, rest: Text)
    requires forall i | 0 <= i < |space| :: IsSpace(space[i])
    ensures Fields(space + rest) == Fields(rest)
  {
    if space == [] {
      assert space + rest == rest;
    } else {
      assert (space + rest)[1..] == space[1..] + rest;
      SkipSpaces(space[1..], rest);
    }
  }

  /** The concatenation of a sequence of byte strings. */
  function Concat(parts: seq<Text>): Text {
    if parts == [] then [] else parts[0] + Concat(parts[1..])
  }
}
