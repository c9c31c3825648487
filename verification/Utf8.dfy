/** UTF-8: the grammar of RFC 3629, reading one character, and decoding with
    replacement of what is ill-formed. Strings are kept as their UTF-8 bytes. */
module Utf8 {

  type byte = x: int | 0 <= x < 256

  predicate IsAsciiSpace(b: byte) { b == 0x20 || b == 9 || b == 10 || b == 12 || b == 13 }

  /** A byte stream that arrives in chunks. */
  function Concat(chunks: seq<seq<byte>>): seq<byte> {
    if chunks == [] then [] else chunks[0] + Concat(chunks[1..])
  }

  lemma {:induction false} ConcatOneMore(chunks: seq<seq<byte>>, c: seq<byte>)
    ensures Concat(chunks + [c]) == Concat(chunks) + c
  {
    if chunks == [] {
      assert [c][1..] == [];
    } else {
      assert (chunks + [c])[1..] == chunks[1..] + [c];
      ConcatOneMore(chunks[1..], c);
    }
  }

  // ---- the grammar: section 4 of RFC 3629 ------------------------------

  predicate IsTail(b: byte) { 0x80 <= b <= 0xBF }

  /** `s` is the encoding of one character. */
  predicate IsChar(s: seq<byte>) {
    || (|s| == 1 && s[0] <= 0x7F)
    || (|s| == 2 && 0xC2 <= s[0] <= 0xDF && IsTail(s[1]))
    || (|s| == 3 && IsTail(s[2])
        && (|| (s[0] == 0xE0 && 0xA0 <= s[1] <= 0xBF)
            || (0xE1 <= s[0] <= 0xEC && IsTail(s[1]))
            || (s[0] == 0xED && 0x80 <= s[1] <= 0x9F)
            || (0xEE <= s[0] <= 0xEF && IsTail(s[1]))))
    || (|s| == 4 && IsTail(s[2]) && IsTail(s[3])
        && (|| (s[0] == 0xF0 && 0x90 <= s[1] <= 0xBF)
            || (0xF1 <= s[0] <= 0xF3 && IsTail(s[1]))
            || (s[0] == 0xF4 && 0x80 <= s[1] <= 0x8F)))
  }

  /** `s` could be continued to the encoding of one character. */
  ghost predicate IsPartial(s: seq<byte>) {
    exists t: seq<byte> :: t != [] && IsChar(s + t)
  }

  /** `n` bytes of `s` are its maximal subpart in the sense of section 3.9 of the
      Unicode Standard: the longest beginning of a character, or one byte. */
  ghost predicate IsMaximalSubpart(s: seq<byte>, n: nat) {
    1 <= n <= |s|
    && (n == 1 || IsPartial(s[..n]))
    && forall m :: n < m <= |s| ==> !IsPartial(s[..m])
  }

  // ---- reading one character -------------------------------------------

  datatype Read = Char(len: nat) | Invalid(len: nat) | Incomplete

  /** Reads the lead byte, then each further byte in turn. */
  function ReadChar(s: seq<byte>): (r: Read)
    requires s != []
    ensures r.Char? ==> 1 <= r.len <= |s| && r.len <= 4
    ensures r.Invalid? ==> 1 <= r.len <= |s| && r.len <= 3
    ensures r.Incomplete? ==> |s| <= 3
  {
    if s[0] <= 0x7F then Char(1)
    else if 0xC2 <= s[0] <= 0xDF then
      if |s| < 2 then Incomplete
      else if IsTail(s[1]) then Char(2) else Invalid(1)
    else if 0xE0 <= s[0] <= 0xEF then
      if |s| < 2 then Incomplete
      else if !SecondOfThree(s[0], s[1]) then Invalid(1)
      else if |s| < 3 then Incomplete
      else if IsTail(s[2]) then Char(3) else Invalid(2)
    else if 0xF0 <= s[0] <= 0xF4 then
      if |s| < 2 then Incomplete
      else if !SecondOfFour(s[0], s[1]) then Invalid(1)
      else if |s| < 3 then Incomplete
      else if !IsTail(s[2]) then Invalid(2)
      else if |s| < 4 then Incomplete
      else if IsTail(s[3]) then Char(4) else Invalid(3)
    else Invalid(1)
  }

  predicate SecondOfThree(a: byte, b: byte) {
    if a == 0xE0 then 0xA0 <= b <= 0xBF
    else if a == 0xED then 0x80 <= b <= 0x9F
    else IsTail(b)
  }

  predicate SecondOfFour(a: byte, b: byte) {
    if a == 0xF0 then 0x90 <= b <= 0xBF
    else if a == 0xF4 then 0x80 <= b <= 0x8F
    else IsTail(b)
  }

  /** The reader finds a character exactly when the grammar does, waits exactly
      when the grammar could still go on, and skips a maximal subpart otherwise. */
  lemma ReadCharMeaning(s: seq<byte>)
    requires s != []
    ensures forall n: nat :: n <= |s| ==> (ReadChar(s) == Char(n) <==> IsChar(s[..n]))
    ensures ReadChar(s).Incomplete? <==> IsPartial(s)
    ensures ReadChar(s).Invalid? ==> IsMaximalSubpart(s, ReadChar(s).len)
  {
    PartialMeaning(s);
    forall n | 1 <= n <= |s|
      ensures IsPartial(s[..n]) <==> ReadChar(s[..n]).Incomplete?
    {
      PartialMeaning(s[..n]);
    }
  }

  lemma PartialMeaning(s: seq<byte>)
    requires s != []
    ensures ReadChar(s).Incomplete? <==> IsPartial(s)
  {
    if ReadChar(s).Incomplete? {
      var second: byte := if s[0] == 0xED || s[0] == 0xF4 then 0x80 else 0xA0;
      var t: seq<byte> := if |s| == 1 then [second] else [];
      var u: seq<byte> :=
        if s[0] <= 0xDF then []
        else if s[0] <= 0xEF then (if |s| <= 2 then [0x80] else [])
        else if |s| <= 2 then [0x80, 0x80] else [0x80];
      assert IsChar(s + (t + u));
    }
    if IsPartial(s) {
      var t :| t != [] && IsChar(s + t);
      assert (s + t)[..|s|] == s;
      assert forall i :: 0 <= i < |s| ==> (s + t)[i] == s[i];
    }
  }

  /** What comes later does not change a character or an error already read. */
  lemma ReadIsStable(s: seq<byte>, more: seq<byte>)
    requires s != [] && !ReadChar(s).Incomplete?
    ensures ReadChar(s + more) == ReadChar(s)
  {}

  // ---- whole strings ---------------------------------------------------

  /** The bytes of U+FFFD. */
  const REPLACEMENT: seq<byte> := [0xEF, 0xBF, 0xBD]

  /** The outcome of validating a byte string; `errorLen` is None when the string
      ends inside a character. */
  datatype Validity = Valid | Error(validUpTo: nat, errorLen: ErrorLen)
  datatype ErrorLen = AtEnd | Skip(len: nat)

  function Validate(s: seq<byte>): (v: Validity)
    ensures v.Error? ==> v.validUpTo < |s|
    ensures v.Error? && v.errorLen.Skip? ==> 1 <= v.errorLen.len <= |s| - v.validUpTo
    decreases |s|
  {
    if s == [] then Valid
    else match ReadChar(s)
      case Invalid(n) => Error(0, Skip(n))
      case Incomplete => Error(0, AtEnd)
      case Char(n) =>
        match Validate(s[n..])
        case Valid => Valid
        case Error(k, e) => Error(n + k, e)
  }

  predicate IsText(s: seq<byte>) { Validate(s).Valid? }

  /** One-shot decoding: every character is kept, every maximal subpart of what is
      no character becomes one U+FFFD, and so does a character cut off at the end. */
  function Lossy(s: seq<byte>): seq<byte>
    decreases |s|
  {
    if s == [] then []
    else match ReadChar(s)
      case Char(n) => s[..n] + Lossy(s[n..])
      case Invalid(n) => REPLACEMENT + Lossy(s[n..])
      case Incomplete => REPLACEMENT
  }

  /** There is only one maximal subpart. */
  lemma MaximalIsUnique(s: seq<byte>, m: nat, n: nat)
    requires IsMaximalSubpart(s, m) && IsMaximalSubpart(s, n)
    ensures m == n
  {}

  /** What lossy decoding does with any bytes, in the words of the two standards: a
      character is copied; where none begins, the maximal subpart becomes one U+FFFD. */
  lemma LossyMeans(s: seq<byte>, n: nat)
    requires 1 <= n <= |s|
    ensures Lossy([]) == []
    ensures IsChar(s[..n]) ==> Lossy(s) == s[..n] + Lossy(s[n..])
    ensures (forall k: nat :: k <= |s| ==> !IsChar(s[..k])) && IsMaximalSubpart(s, n) ==>
      Lossy(s) == REPLACEMENT + Lossy(s[n..])
  {
    ReadCharMeaning(s);
    assert ReadChar(s).Char? ==> IsChar(s[..ReadChar(s).len]);
    if (forall k: nat :: k <= |s| ==> !IsChar(s[..k])) && IsMaximalSubpart(s, n) {
      match ReadChar(s)
      case Char(_) =>
      case Invalid(k) => MaximalIsUnique(s, k, n);
      case Incomplete =>
        assert s[..|s|] == s;
        assert IsPartial(s[..|s|]);
        assert n == |s|;
        assert s[n..] == [] && REPLACEMENT + [] == REPLACEMENT;
    }
  }

  /** Text is a sequence of characters. */
  lemma {:induction false} TextMeans(s: seq<byte>) returns (chars: seq<seq<byte>>)
    ensures IsText(s) ==> Concat(chars) == s && forall i :: 0 <= i < |chars| ==> IsChar(chars[i])
    decreases |s|
  {
    hide IsChar;
    chars := [];
    if s != [] && IsText(s) {
      var n := ReadChar(s).len;
      ReadCharMeaning(s);
      assert IsChar(s[..n]);
      var rest := TextMeans(s[n..]);
      chars := [s[..n]] + rest;
      assert s == s[..n] + s[n..] && chars[1..] == rest;
    }
  }

  /** And every sequence of characters is text. */
  lemma {:induction false} CharsAreText(chars: seq<seq<byte>>)
    requires forall i :: 0 <= i < |chars| ==> IsChar(chars[i])
    ensures IsText(Concat(chars))
  {
    hide IsPartial, IsMaximalSubpart;
    if chars != [] {
      var c := chars[0];
      CharsAreText(chars[1..]);
      ReadCharMeaning(c);
      assert c[..|c|] == c;
      CharIsText(c);
      TextAppend(c, Concat(chars[1..]));
    }
  }

  /** Decoding that holds a cut-off character back instead: the text so far, and
      the bytes that are still open. */
  function Decode(s: seq<byte>): (r: (seq<byte>, seq<byte>))
    ensures |r.1| <= 3 && (r.1 != [] ==> ReadChar(r.1).Incomplete?)
    decreases |s|
  {
    if s == [] then ([], [])
    else match ReadChar(s)
      case Incomplete => ([], s)
      case Char(n) => var r := Decode(s[n..]); (s[..n] + r.0, r.1)
      case Invalid(n) => var r := Decode(s[n..]); (REPLACEMENT + r.0, r.1)
  }

  /** The two differ only in the open bytes. */
  lemma {:induction false} LossyIsDecode(s: seq<byte>)
    ensures Lossy(s) == Decode(s).0 + Lossy(Decode(s).1)
    decreases |s|
  {
    if s != [] {
      match ReadChar(s)
      case Incomplete =>
      case Char(n) => LossyIsDecode(s[n..]);
      case Invalid(n) => LossyIsDecode(s[n..]);
    }
  }

  /** Decoding may stop anywhere and go on from the open bytes. */
  lemma {:induction false} DecodeInTwo(s: seq<byte>, more: seq<byte>)
    ensures var d := Decode(s); var e := Decode(d.1 + more); Decode(s + more) == (d.0 + e.0, e.1)
    decreases |s|
  {
    hide ReadChar, Piece, Decode;
    if s == [] || ReadChar(s).Incomplete? {
      DecodeNothing(s);
      assert [] + Decode(s + more).0 == Decode(s + more).0;
    } else {
      var n := ReadChar(s).len;
      PieceIsStable(s, more);
      DecodeInTwo(s[n..], more);
      DecodeFirst(s);
      DecodeFirst(s + more);
      var d := Decode(s[n..]);
      var e := Decode(d.1 + more);
      assert Piece(s) + (d.0 + e.0) == (Piece(s) + d.0) + e.0;
    }
  }

  /** What the first read puts out. */
  function Piece(s: seq<byte>): seq<byte>
    requires s != []
  {
    match ReadChar(s)
    case Char(n) => s[..n]
    case Invalid(_) => REPLACEMENT
    case Incomplete => []
  }

  lemma PieceIsStable(s: seq<byte>, more: seq<byte>)
    requires s != [] && !ReadChar(s).Incomplete?
    ensures ReadChar(s + more) == ReadChar(s) && Piece(s + more) == Piece(s)
    ensures (s + more)[ReadChar(s).len..] == s[ReadChar(s).len..] + more
  {
    ReadIsStable(s, more);
    assert (s + more)[..ReadChar(s).len] == s[..ReadChar(s).len];
  }

  lemma DecodeNothing(s: seq<byte>)
    requires s == [] || ReadChar(s).Incomplete?
    ensures Decode(s) == ([], s)
  {}

  lemma DecodeFirst(s: seq<byte>)
    requires s != [] && !ReadChar(s).Incomplete?
    ensures var d := Decode(s[ReadChar(s).len..]); Decode(s) == (Piece(s) + d.0, d.1)
  {}

  /** Text is decoded to itself, whole or in pieces. */
  lemma {:induction false} TextIsKept(s: seq<byte>)
    requires IsText(s)
    ensures Lossy(s) == s && Decode(s) == (s, [])
    decreases |s|
  {
    if s != [] {
      var n := ReadChar(s).len;
      TextIsKept(s[n..]);
      assert s == s[..n] + s[n..];
    }
  }

  lemma {:induction false} TextAppend(a: seq<byte>, b: seq<byte>)
    requires IsText(a)
    ensures IsText(a + b) <==> IsText(b)
    decreases |a|
  {
    if a == [] {
      assert a + b == b;
    } else {
      var n := ReadChar(a).len;
      ReadIsStable(a, b);
      assert (a + b)[n..] == a[n..] + b;
      TextAppend(a[n..], b);
    }
  }

  lemma CharIsText(c: seq<byte>)
    requires c != [] && ReadChar(c) == Char(|c|)
    ensures IsText(c)
  {
    assert c[|c|..] == [];
  }

  lemma FirstCharIsText(s: seq<byte>)
    requires s != [] && ReadChar(s).Char?
    ensures IsText(s[..ReadChar(s).len])
  {
    CharIsText(s[..ReadChar(s).len]);
  }

  /** Whatever comes in, what goes out is text. */
  lemma {:induction false} DecodedIsText(s: seq<byte>)
    ensures IsText(Decode(s).0)
    decreases |s|
  {
    if s != [] && !ReadChar(s).Incomplete? {
      var n := ReadChar(s).len;
      DecodedIsText(s[n..]);
      if ReadChar(s).Char? {
        FirstCharIsText(s);
        TextAppend(s[..n], Decode(s[n..]).0);
      } else {
        CharIsText(REPLACEMENT);
        TextAppend(REPLACEMENT, Decode(s[n..]).0);
      }
    }
  }

  // ---- where a character may start -------------------------------------

  /** `i` is a place where text may be cut. */
  predicate IsBoundary(s: seq<byte>, i: nat) {
    i == 0 || i == |s| || (i < |s| && !IsTail(s[i]))
  }

  lemma TextStart(s: seq<byte>)
    requires IsText(s) && s != []
    ensures ReadChar(s).Char? && !IsTail(s[0]) && IsText(s[ReadChar(s).len..])
  {}

  /** Text cut at a boundary is text. */
  lemma {:induction false} CutIsText(s: seq<byte>, i: nat)
    requires IsText(s) && i <= |s| && IsBoundary(s, i)
    ensures IsText(s[..i])
    decreases |s|
  {
    hide Validate;
    if i == 0 {
      assert s[..i] == [];
    } else if i == |s| {
      assert s[..i] == s;
    } else {
      TextStart(s);
      var n := ReadChar(s).len;
      assert forall k :: 0 < k < n ==> IsTail(s[k]);
      CutIsText(s[n..], i - n);
      assert s[..i] == s[..n] + s[n..][..i - n];
      FirstCharIsText(s);
      TextAppend(s[..n], s[n..][..i - n]);
    }
  }

  /** And nowhere else: a place of text is a boundary if and only if what is before it is
      text. */
  lemma BoundaryMeans(s: seq<byte>, i: nat)
    requires IsText(s) && i <= |s|
    ensures IsBoundary(s, i) <==> IsText(s[..i])
  {
    hide Validate;
    if IsBoundary(s, i) {
      CutIsText(s, i);
    } else if IsText(s[..i]) {
      assert s == s[..i] + s[i..];
      TextAppend(s[..i], s[i..]);
      TextStart(s[i..]);
    }
  }

  /** Text has a boundary among any four places in a row. */
  lemma {:induction false} BoundaryIsNear(s: seq<byte>, i: nat) returns (k: nat)
    requires IsText(s) && i <= |s|
    ensures k <= i < k + 4 && IsBoundary(s, k)
    decreases |s|
  {
    if i == 0 {
      return 0;
    }
    TextStart(s);
    var n := ReadChar(s).len;
    if i < n {
      return 0;
    }
    k := BoundaryIsNear(s[n..], i - n);
    if k == 0 && n < |s| {
      TextStart(s[n..]);
    }
    k := n + k;
  }
}
