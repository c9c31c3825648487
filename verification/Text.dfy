/** The pieces of text the cron engine and the exit marker are made of: splitting,
    trimming, and decimal numbers. */
module Text {
  import opened Options

  // ---- splitting -------------------------------------------------------

  /** The pieces of `s` between the separators: always at least one. */
  function Split(s: string, sep: char): (parts: seq<string>)
    ensures |parts| >= 1
  {
    if s == [] then [[]]
    else if s[0] == sep then [[]] + Split(s[1..], sep)
    else
      var rest := Split(s[1..], sep);
      [[s[0]] + rest[0]] + rest[1..]
  }

  function Join(parts: seq<string>, sep: char): string
    requires |parts| >= 1
  {
    if |parts| == 1 then parts[0] else parts[0] + [sep] + Join(parts[1..], sep)
  }

  /** `s` cut at its first `sep`. */
  function SplitOnce(s: string, sep: char): Option<(string, string)> {
    if s == [] then None
    else if s[0] == sep then Some(([], s[1..]))
    else match SplitOnce(s[1..], sep)
      case None => None
      case Some((a, b)) => Some(([s[0]] + a, b))
  }

  /** The Unicode property White_Space. */
  predicate IsWhitespace(c: char) {
    var n := c as int;
    9 <= n <= 13 || n == 0x20 || n == 0x85 || n == 0xA0 || n == 0x1680
    || 0x2000 <= n <= 0x200A || n == 0x2028 || n == 0x2029 || n == 0x202F
    || n == 0x205F || n == 0x3000
  }

  predicate NoSpace(s: string) {
    forall i :: 0 <= i < |s| ==> !IsWhitespace(s[i])
  }

  function TrimStart(s: string): string {
    if s != [] && IsWhitespace(s[0]) then TrimStart(s[1..]) else s
  }

  function TrimEnd(s: string): string {
    if s != [] && IsWhitespace(s[|s| - 1]) then TrimEnd(s[..|s| - 1]) else s
  }

  function Trim(s: string): string {
    TrimEnd(TrimStart(s))
  }

  /** The length of the longest prefix of `s` without white space. */
  function WordLength(s: string): (n: nat)
    ensures n <= |s|
  {
    if s == [] || IsWhitespace(s[0]) then 0 else 1 + WordLength(s[1..])
  }

  /** The maximal runs of characters of `s` that are not white space. */
  function SplitWhitespace(s: string): seq<string>
    decreases |s|
  {
    if s == [] then []
    else if IsWhitespace(s[0]) then SplitWhitespace(s[1..])
    else [s[..WordLength(s)]] + SplitWhitespace(s[WordLength(s)..])
  }

  // ---- numbers ---------------------------------------------------------

  predicate IsDigit(c: char) { '0' <= c <= '9' }

  /** The value of a string of digits; None if some character is not one. */
  function ParseDigits(s: string): Option<nat> {
    if s == [] then Some(0)
    else match ParseDigits(s[..|s| - 1])
      case None => None
      case Some(n) =>
        var c := s[|s| - 1];
        if IsDigit(c) then Some(10 * n + DigitValue(c)) else None
  }

  /** An unsigned 32-bit number: digits, at least one, perhaps after a plus sign. */
  function ParseU32(s: string): (r: Option<nat>)
    ensures r.Some? ==> r.value < 0x1_0000_0000
  {
    var digits := if s != [] && s[0] == '+' then s[1..] else s;
    if digits == [] then None
    else match ParseDigits(digits)
      case None => None
      case Some(n) => if n < 0x1_0000_0000 then Some(n) else None
  }

  /** A signed 32-bit number. */
  function ParseI32(s: string): (r: Option<int>)
    ensures r.Some? ==> -0x8000_0000 <= r.value < 0x8000_0000
  {
    var negative := s != [] && s[0] == '-';
    var digits := if s != [] && (s[0] == '+' || s[0] == '-') then s[1..] else s;
    if digits == [] then None
    else match ParseDigits(digits)
      case None => None
      case Some(n) =>
        var v := if negative then 0 - (n as int) else n as int;
        if -0x8000_0000 <= v < 0x8000_0000 then Some(v) else None
  }

  /** A number in decimal. */
  function Decimal(n: nat): (s: string)
    ensures s != [] && forall i :: 0 <= i < |s| ==> IsDigit(s[i])
  {
    (if n < 10 then [] else Decimal(n / 10)) + [Digit(n % 10)]
  }

  function Digit(d: nat): (c: char)
    requires d < 10
    ensures IsDigit(c) && DigitValue(c) == d
  {
    ('0' as int + d) as char
  }

  function DigitValue(c: char): int { c as int - '0' as int }

  function SignedDecimal(n: int): string {
    if n < 0 then "-" + Decimal(-n) else Decimal(n)
  }

  // ---- what a number is worth ------------------------------------------

  predicate AllDigits(s: string) {
    forall i :: 0 <= i < |s| ==> IsDigit(s[i])
  }

  function Pow10(k: nat): nat { if k == 0 then 1 else 10 * Pow10(k - 1) }

  /** Every digit times the power of ten of its place. */
  function Worth(s: string): nat
    requires AllDigits(s)
  {
    if s == [] then 0 else DigitValue(s[0]) * Pow10(|s| - 1) + Worth(s[1..])
  }

  lemma {:induction false} WorthOneMore(s: string, c: char)
    requires AllDigits(s) && IsDigit(c)
    ensures AllDigits(s + [c]) && Worth(s + [c]) == 10 * Worth(s) + DigitValue(c)
  {
    assert AllDigits(s + [c]);
    if s == [] {
      assert [] + [c] == [c];
    } else {
      assert (s + [c])[1..] == s[1..] + [c];
      WorthOneMore(s[1..], c);
      assert DigitValue(s[0]) * Pow10(|s|) == 10 * (DigitValue(s[0]) * Pow10(|s| - 1));
    }
  }

  lemma {:induction false} ParseIsWorth(s: string)
    ensures ParseDigits(s) == if AllDigits(s) then Some(Worth(s)) else None
  {
    if s != [] {
      var front, c := s[..|s| - 1], s[|s| - 1];
      assert s == front + [c];
      ParseIsWorth(front);
      if AllDigits(front) && IsDigit(c) {
        WorthOneMore(front, c);
      }
    }
  }

  function Unsigned(s: string): string {
    if s != [] && s[0] == '+' then s[1..] else s
  }

  /** Digits, at least one, perhaps after a plus sign, with zeros in front or not. */
  predicate IsNumeral(s: string) {
    Unsigned(s) != [] && AllDigits(Unsigned(s))
  }

  /** Any string whatever: it is read as the sum of its digits times their powers of
      ten, if it is a numeral and that is below 2^32, and else not at all. */
  lemma U32Means(s: string)
    ensures ParseU32(s)
      == if IsNumeral(s) && Worth(Unsigned(s)) < 0x1_0000_0000 then Some(Worth(Unsigned(s))) else None
  {
    ParseIsWorth(Unsigned(s));
  }

  /** The same for a number with a sign. */
  lemma I32Means(s: string)
    ensures var digits := if s != [] && s[0] == '-' then s[1..] else Unsigned(s);
      ParseI32(s)
        == if digits == [] || !AllDigits(digits) then None
           else
             var v := if s[0] == '-' then -(Worth(digits) as int) else Worth(digits);
             if -0x8000_0000 <= v < 0x8000_0000 then Some(v) else None
  {
    ParseIsWorth(if s != [] && s[0] == '-' then s[1..] else Unsigned(s));
  }

  // ---- reading back what was written -----------------------------------

  lemma {:induction false} DigitsOfDecimal(n: nat)
    ensures ParseDigits(Decimal(n)) == Some(n)
  {
    var front := if n < 10 then [] else Decimal(n / 10);
    if n >= 10 {
      DigitsOfDecimal(n / 10);
    }
    ParseOneMore(front, n / 10, n % 10);
  }

  lemma ParseOneMore(front: string, n: nat, d: nat)
    requires d < 10 && ParseDigits(front) == Some(n)
    ensures ParseDigits(front + [Digit(d)]) == Some(10 * n + d)
  {
    assert (front + [Digit(d)])[..|front|] == front;
  }

  lemma DecimalU32(n: nat)
    requires n < 0x1_0000_0000
    ensures ParseU32(Decimal(n)) == Some(n)
  {
    DigitsOfDecimal(n);
  }

  lemma DecimalI32(n: int)
    requires -0x8000_0000 <= n < 0x8000_0000
    ensures ParseI32(SignedDecimal(n)) == Some(n)
  {
    hide ParseDigits, Decimal;
    if n < 0 {
      DigitsOfDecimal(-n);
      assert SignedDecimal(n)[1..] == Decimal(-n);
    } else {
      DigitsOfDecimal(n);
      assert IsDigit(SignedDecimal(n)[0]);
    }
  }

  lemma {:induction false} SplitOfPiece(a: string, sep: char, k: string)
    requires sep !in a
    ensures Split(a + [sep] + k, sep) == [a] + Split(k, sep)
  {
    if a == [] {
      assert a + [sep] + k == [sep] + k;
    } else {
      SplitOfPiece(a[1..], sep, k);
      assert (a + [sep] + k)[1..] == a[1..] + [sep] + k;
      assert [a[0]] + a[1..] == a;
      assert ([a[1..]] + Split(k, sep))[1..] == Split(k, sep);
    }
  }

  lemma {:induction false} SplitOfLastPiece(a: string, sep: char)
    requires sep !in a
    ensures Split(a, sep) == [a]
  {
    if a != [] {
      SplitOfLastPiece(a[1..], sep);
      assert [a[0]] + a[1..] == a;
    }
  }

  lemma {:induction false} SplitOfJoin(parts: seq<string>, sep: char)
    requires |parts| >= 1
    requires forall i :: 0 <= i < |parts| ==> sep !in parts[i]
    ensures Split(Join(parts, sep), sep) == parts
  {
    if |parts| == 1 {
      SplitOfLastPiece(parts[0], sep);
    } else {
      SplitOfPiece(parts[0], sep, Join(parts[1..], sep));
      SplitOfJoin(parts[1..], sep);
    }
  }

  /** Splitting loses nothing, and leaves no separator in the pieces. */
  lemma {:induction false} JoinOfSplit(s: string, sep: char)
    ensures Join(Split(s, sep), sep) == s
    ensures forall i :: 0 <= i < |Split(s, sep)| ==> sep !in Split(s, sep)[i]
  {
    if s != [] {
      JoinOfSplit(s[1..], sep);
      var rest := Split(s[1..], sep);
      if s[0] == sep {
        assert ([[]] + rest)[1..] == rest;
        assert Join([[]] + rest, sep) == [] + [sep] + Join(rest, sep);
      } else {
        var parts := [[s[0]] + rest[0]] + rest[1..];
        if |rest| > 1 {
          assert parts[1..] == rest[1..];
          assert Join(parts, sep) == [s[0]] + (rest[0] + [sep] + Join(rest[1..], sep));
        }
      }
    }
  }

  /** What is in front of the cut has no separator. */
  lemma {:induction false} SplitOnceIs(s: string, sep: char)
    ensures match SplitOnce(s, sep)
      case None => sep !in s
      case Some((a, b)) => sep !in a && s == a + [sep] + b
  {
    if s != [] && s[0] != sep {
      SplitOnceIs(s[1..], sep);
    }
  }

  lemma {:induction false} SplitOnceAt(a: string, sep: char, b: string)
    requires sep !in a
    ensures SplitOnce(a + [sep] + b, sep) == Some((a, b))
  {
    if a == [] {
      assert a + [sep] + b == [sep] + b;
    } else {
      SplitOnceAt(a[1..], sep, b);
      assert (a + [sep] + b)[1..] == a[1..] + [sep] + b;
      assert [a[0]] + a[1..] == a;
    }
  }

  lemma {:induction false} SplitOnceNever(a: string, sep: char)
    requires sep !in a
    ensures SplitOnce(a, sep) == None
  {
    if a != [] {
      SplitOnceNever(a[1..], sep);
    }
  }

  lemma {:induction false} WordBeforeSpace(w: string, k: string)
    requires NoSpace(w)
    requires k == [] || IsWhitespace(k[0])
    ensures WordLength(w + k) == |w|
  {
    if w == [] {
      assert w + k == k;
    } else {
      assert (w + k)[1..] == w[1..] + k;
      WordBeforeSpace(w[1..], k);
    }
  }

  predicate AllSpace(s: string) {
    forall i :: 0 <= i < |s| ==> IsWhitespace(s[i])
  }

  lemma {:induction false} SpaceSkipped(gap: string, k: string)
    requires AllSpace(gap)
    ensures SplitWhitespace(gap + k) == SplitWhitespace(k)
  {
    if gap == [] {
      assert gap + k == k;
    } else {
      assert (gap + k)[1..] == gap[1..] + k;
      SpaceSkipped(gap[1..], k);
    }
  }

  /** Words with white space before, between and after them. */
  predicate AreSpaced(words: seq<string>, gaps: seq<string>) {
    && |gaps| == |words| + 1
    && (forall i :: 0 <= i < |gaps| ==> AllSpace(gaps[i]))
    && (forall i :: 0 < i < |words| ==> gaps[i] != [])
    && (forall i :: 0 <= i < |words| ==> words[i] != [] && NoSpace(words[i]))
  }

  function Spaced(words: seq<string>, gaps: seq<string>): string
    requires |gaps| == |words| + 1
  {
    if words == [] then gaps[0] else gaps[0] + (words[0] + Spaced(words[1..], gaps[1..]))
  }

  /** Words come back whatever white space is around them, any run of it. */
  lemma {:induction false} WordsOfSpaced(words: seq<string>, gaps: seq<string>)
    requires AreSpaced(words, gaps)
    ensures SplitWhitespace(Spaced(words, gaps)) == words
    decreases |words|
  {
    if words == [] {
      SpaceSkipped(gaps[0], []);
      assert gaps[0] + [] == gaps[0];
    } else {
      var w, k := words[0], Spaced(words[1..], gaps[1..]);
      SpaceSkipped(gaps[0], w + k);
      assert AreSpaced(words[1..], gaps[1..]);
      WordsOfSpaced(words[1..], gaps[1..]);
      assert k == [] || IsWhitespace(k[0]) by {
        if |words| > 1 {
          assert k[0] == gaps[1][0];
        }
      }
      WordBeforeSpace(w, k);
      assert (w + k)[..|w|] == w && (w + k)[|w|..] == k;
    }
  }

  lemma GapGrows(words: seq<string>, gaps: seq<string>, c: char)
    requires AreSpaced(words, gaps) && IsWhitespace(c)
    ensures var more := [[c] + gaps[0]] + gaps[1..];
      AreSpaced(words, more) && Spaced(words, more) == [c] + Spaced(words, gaps)
  {
    hide IsWhitespace;
    var more := [[c] + gaps[0]] + gaps[1..];
    assert more[1..] == gaps[1..];
  }

  lemma WordBefore(w: string, words: seq<string>, gaps: seq<string>)
    requires AreSpaced(words, gaps) && w != [] && NoSpace(w) && (words != [] ==> gaps[0] != [])
    ensures AreSpaced([w] + words, [[]] + gaps) && Spaced([w] + words, [[]] + gaps) == w + Spaced(words, gaps)
  {
    hide IsWhitespace, NoSpace, AllSpace;
    assert ([w] + words)[1..] == words && ([[]] + gaps)[1..] == gaps;
    assert AllSpace([]) by { NoGap(); }
  }

  lemma NoGap()
    ensures AllSpace([])
  {}

  /** And every string is such words. */
  lemma {:induction false} SpacedOfWords(s: string) returns (gaps: seq<string>)
    ensures AreSpaced(SplitWhitespace(s), gaps) && Spaced(SplitWhitespace(s), gaps) == s
    ensures s != [] && !IsWhitespace(s[0]) ==> gaps[0] == []
    ensures SplitWhitespace(s) != [] && gaps[0] == [] ==> !IsWhitespace(s[0])
    decreases |s|
  {
    hide IsWhitespace, NoSpace, AllSpace, AreSpaced, Spaced, WordLength;
    if s == [] {
      gaps := [[]];
      assert AreSpaced([], [[]]) && Spaced([], [[]]) == [] by { NoWords(); }
    } else if IsWhitespace(s[0]) {
      var rest := SpacedOfWords(s[1..]);
      AreAsMany(SplitWhitespace(s), rest);
      GapGrows(SplitWhitespace(s), rest, s[0]);
      gaps := [[s[0]] + rest[0]] + rest[1..];
      assert [s[0]] + s[1..] == s;
    } else {
      var n := WordLength(s);
      WordIsLongest(s);
      var rest := SpacedOfWords(s[n..]);
      AreAsMany(SplitWhitespace(s[n..]), rest);
      WordBefore(s[..n], SplitWhitespace(s[n..]), rest);
      gaps := [[]] + rest;
      assert s[..n] + s[n..] == s;
    }
  }

  lemma NoWords()
    ensures AreSpaced([], [[]]) && Spaced([], [[]]) == []
  {}

  lemma AreAsMany(words: seq<string>, gaps: seq<string>)
    requires AreSpaced(words, gaps)
    ensures |gaps| == |words| + 1
  {}

  lemma {:induction false} WordIsLongest(s: string)
    ensures NoSpace(s[..WordLength(s)])
    ensures WordLength(s) < |s| ==> IsWhitespace(s[WordLength(s)])
    ensures s != [] && !IsWhitespace(s[0]) ==> WordLength(s) > 0
  {
    if s != [] && !IsWhitespace(s[0]) {
      WordIsLongest(s[1..]);
      assert s[..WordLength(s)] == [s[0]] + s[1..][..WordLength(s[1..])];
    }
  }
}
