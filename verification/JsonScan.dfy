/** The two scanners that dig a JSON object out of a model's answer: one takes the
    first object out of the text around it, one drops trailing commas. */
module JsonScan {
  import opened Options
  import opened Utf8

  const QUOTE: byte := 0x22
  const COMMA: byte := 0x2C
  const COLON: byte := 0x3A
  const LBRACKET: byte := 0x5B
  const BACKSLASH: byte := 0x5C
  const RBRACKET: byte := 0x5D
  const LBRACE: byte := 0x7B
  const RBRACE: byte := 0x7D

  // ---- the scanners ----------------------------------------------------

  /** Where a scanner is: outside strings, inside one, or after a backslash in one. */
  datatype Mode = Outside | Inside | Escaped

  function Step(m: Mode, c: byte): Mode {
    match m
    case Escaped => Inside
    case Inside => if c == BACKSLASH then Escaped else if c == QUOTE then Outside else Inside
    case Outside => if c == QUOTE then Inside else Outside
  }

  function ModeOf(inStr: bool, esc: bool): Mode {
    if !inStr then Outside else if esc then Escaped else Inside
  }

  /** Is the next byte that is not white space a closing bracket or brace? */
  predicate ClosesNext(s: seq<byte>) {
    s != [] && (if IsAsciiSpace(s[0]) then ClosesNext(s[1..]) else s[0] == RBRACE || s[0] == RBRACKET)
  }

  function Repaired(s: seq<byte>, m: Mode): seq<byte> {
    if s == [] then []
    else if m == Outside && s[0] == COMMA && ClosesNext(s[1..]) then Repaired(s[1..], m)
    else [s[0]] + Repaired(s[1..], Step(m, s[0]))
  }

  /** The look-ahead of the repair. */
  method PeekCloses(s: seq<byte>) returns (closes: bool)
    ensures closes == ClosesNext(s)
  {
    var i := 0;
    while i < |s| && IsAsciiSpace(s[i])
      invariant i <= |s| && ClosesNext(s) == ClosesNext(s[i..])
    {
      i := i + 1;
    }
    return i < |s| && (s[i] == RBRACE || s[i] == RBRACKET);
  }

  lemma RepairStep(s: seq<byte>, i: nat, m: Mode, out: seq<byte>)
    requires i < |s|
    ensures out + Repaired(s[i..], m)
      == if m == Outside && s[i] == COMMA && ClosesNext(s[i + 1..]) then out + Repaired(s[i + 1..], m)
         else out + [s[i]] + Repaired(s[i + 1..], Step(m, s[i]))
  {
    assert s[i..][1..] == s[i + 1..];
    var rest := Repaired(s[i + 1..], Step(m, s[i]));
    assert out + ([s[i]] + rest) == out + [s[i]] + rest;
  }

  method RepairJson(s: seq<byte>) returns (r: seq<byte>)
    ensures IsText(s) ==> r == Repaired(s, Outside)
    ensures IsText(s) ==> IsText(r)
  {
    hide ClosesNext, IsText;
    var out: seq<byte> := [];
    var inStr, esc := false, false;
    assert s[0..] == s && out + Repaired(s, Outside) == Repaired(s, Outside);
    hide Repaired;
    for i := 0 to |s|
      invariant esc ==> inStr
      invariant out + Repaired(s[i..], ModeOf(inStr, esc)) == Repaired(s, Outside)
    {
      var c := s[i];
      RepairStep(s, i, ModeOf(inStr, esc), out);
      if inStr {
        out := out + [c];
        if esc {
          esc := false;
        } else if c == BACKSLASH {
          esc := true;
        } else if c == QUOTE {
          inStr := false;
        }
        continue;
      }
      if c == COMMA {
        var closes := PeekCloses(s[i + 1..]);
        if closes {
          continue;
        }
      }
      if c == QUOTE {
        inStr := true;
      }
      out := out + [c];
    }
    RepairEnd(s, out, ModeOf(inStr, esc));
    if IsText(s) {
      RepairedIsText(s, Outside);
    }
    return if IsText(out) then out else s;
  }

  lemma RepairEnd(s: seq<byte>, out: seq<byte>, m: Mode)
    ensures out + Repaired(s[|s|..], m) == out
  {}

  /** What follows the brace that closes the object open at depth `depth`. */
  function AfterObject(s: seq<byte>, depth: int, m: Mode): (rest: Option<seq<byte>>)
    ensures rest.Some? ==> |rest.value| < |s|
  {
    if s == [] then None
    else if m == Outside && s[0] == LBRACE then AfterObject(s[1..], depth + 1, m)
    else if m == Outside && s[0] == RBRACE then
      if depth - 1 == 0 then Some(s[1..]) else AfterObject(s[1..], depth - 1, m)
    else AfterObject(s[1..], depth, Step(m, s[0]))
  }

  function FirstBrace(s: seq<byte>): (i: nat)
    ensures i <= |s| && (i < |s| ==> s[i] == LBRACE)
    ensures forall j :: 0 <= j < i ==> s[j] != LBRACE
  {
    if s == [] || s[0] == LBRACE then 0 else 1 + FirstBrace(s[1..])
  }

  /** The first object of `s`, if a complete one starts at its first brace. */
  function FirstObject(s: seq<byte>): Option<seq<byte>> {
    var t := s[FirstBrace(s)..];
    match AfterObject(t, 0, Outside)
    case None => None
    case Some(rest) => Some(t[..|t| - |rest|])
  }

  method FirstBalancedObject(s: seq<byte>) returns (r: Option<seq<byte>>)
    ensures r == FirstObject(s)
  {
    var start := FirstBrace(s);
    if start == |s| {
      return None;
    }
    var depth, inStr, esc := 0, false, false;
    for i := start to |s|
      invariant esc ==> inStr
      invariant AfterObject(s[i..], depth, ModeOf(inStr, esc)) == AfterObject(s[start..], 0, Outside)
    {
      var c := s[i];
      assert s[i..][1..] == s[i + 1..];
      if inStr {
        if esc {
          esc := false;
        } else if c == BACKSLASH {
          esc := true;
        } else if c == QUOTE {
          inStr := false;
        }
      } else if c == QUOTE {
        inStr := true;
      } else if c == LBRACE {
        depth := depth + 1;
      } else if c == RBRACE {
        depth := depth - 1;
        if depth == 0 {
          assert AfterObject(s[start..], 0, Outside) == Some(s[i + 1..]);
          assert s[start..][..i + 1 - start] == s[start..i + 1];
          return Some(s[start..i + 1]);
        }
      }
    }
    return None;
  }

  // ---- the repair keeps text -------------------------------------------

  /** Bytes of a character that is not one byte long are all copied. */
  lemma {:induction false} CopyHighBytes(s: seq<byte>, n: nat, m: Mode) returns (after: Mode)
    requires n <= |s| && forall i :: 0 <= i < n ==> s[i] >= 0x80
    ensures Repaired(s, m) == s[..n] + Repaired(s[n..], after)
  {
    if n == 0 {
      after := m;
      assert s[..0] + Repaired(s, m) == Repaired(s, m) && s[0..] == s;
    } else {
      after := CopyHighBytes(s[1..], n - 1, Step(m, s[0]));
      assert s[..n] == [s[0]] + s[1..][..n - 1];
      assert s[1..][n - 1..] == s[n..];
    }
  }

  lemma {:induction false} RepairedIsText(s: seq<byte>, m: Mode)
    requires IsText(s)
    ensures IsText(Repaired(s, m))
    decreases |s|
  {
    if s != [] {
      FirstCharIsText(s);
      var n := ReadChar(s).len;
      var head := s[..n];
      if s[0] <= 0x7F {
        if m == Outside && s[0] == COMMA && ClosesNext(s[1..]) {
          RepairedIsText(s[1..], m);
        } else {
          RepairedIsText(s[1..], Step(m, s[0]));
          TextAppend(head, Repaired(s[1..], Step(m, s[0])));
        }
      } else {
        var after := CopyHighBytes(s, n, m);
        RepairedIsText(s[n..], after);
        TextAppend(head, Repaired(s[n..], after));
      }
    }
  }

  // ---- JSON, as it is written ------------------------------------------

  type Space = s: seq<byte> | forall i :: 0 <= i < |s| ==> IsAsciiSpace(s[i])

  /** Numbers, true, false, null: nothing that could open, close or separate. */
  predicate IsAtomByte(b: byte) {
    !IsAsciiSpace(b) && b != QUOTE && b != COMMA && b != COLON && b != BACKSLASH
    && b != LBRACKET && b != RBRACKET && b != LBRACE && b != RBRACE
  }

  type AtomText = s: seq<byte> | s != [] && forall i :: 0 <= i < |s| ==> IsAtomByte(s[i]) witness [0x30]

  /** A byte of a string, or a backslash and the byte it escapes. */
  datatype StrPart = Plain(b: byte) | Esc(b: byte)

  type Str = s: seq<StrPart> | forall i :: 0 <= i < |s| && s[i].Plain? ==> s[i].b != QUOTE && s[i].b != BACKSLASH

  /** A JSON value with its white space. `comma` says that an array or object has a
      comma too many before it closes; `end` is the white space there. */
  datatype Value =
    | Atom(text: AtomText)
    | Text(str: Str)
    | Array(elems: Elems, comma: bool, end: Space)
    | Object(members: Members, comma: bool, end: Space)
  datatype Elems =
    | NoElems
    | Elem(pre: Space, value: Value, post: Space, rest: Elems)
  datatype Members =
    | NoMembers
    | Member(pre: Space, key: Str, mid: Space, gap: Space, value: Value, post: Space, rest: Members)

  // Each of these puts the bytes of something in front of `k`; without `extra` the
  // commas too many are left out.

  function StrBytes(s: Str, k: seq<byte>): seq<byte> {
    if s == [] then [QUOTE] + k
    else match s[0]
      case Plain(b) => [b] + StrBytes(s[1..], k)
      case Esc(b) => [BACKSLASH] + ([b] + StrBytes(s[1..], k))
  }

  function Bytes(v: Value, extra: bool, k: seq<byte>): seq<byte> {
    match v
    case Atom(text) => text + k
    case Text(str) => [QUOTE] + StrBytes(str, k)
    case Array(elems, comma, end) =>
      [LBRACKET] + ElemBytes(elems, extra, Closing(extra && comma, end, RBRACKET, k))
    case Object(members, comma, end) =>
      [LBRACE] + MemberBytes(members, extra, Closing(extra && comma, end, RBRACE, k))
  }

  function Closing(comma: bool, end: Space, close: byte, k: seq<byte>): seq<byte> {
    var rest := end + ([close] + k);
    if comma then [COMMA] + rest else rest
  }

  function ElemBytes(e: Elems, extra: bool, k: seq<byte>): seq<byte> {
    match e
    case NoElems => k
    case Elem(pre, v, post, rest) =>
      pre + Bytes(v, extra, post + (if rest.NoElems? then k else [COMMA] + ElemBytes(rest, extra, k)))
  }

  function MemberBytes(e: Members, extra: bool, k: seq<byte>): seq<byte> {
    match e
    case NoMembers => k
    case Member(pre, key, mid, gap, v, post, rest) =>
      KeyBytes(pre, key, mid, gap,
        Bytes(v, extra, post + (if rest.NoMembers? then k else [COMMA] + MemberBytes(rest, extra, k))))
  }

  function KeyBytes(pre: Space, key: Str, mid: Space, gap: Space, k: seq<byte>): seq<byte> {
    pre + ([QUOTE] + StrBytes(key, mid + ([COLON] + (gap + k))))
  }

  // ---- the repair ------------------------------------------------------

  /** Bytes outside strings that are neither quotes nor commas are copied. */
  lemma {:induction false} CopyBare(b: seq<byte>, k: seq<byte>)
    requires forall i :: 0 <= i < |b| ==> b[i] != QUOTE && b[i] != COMMA
    ensures Repaired(b + k, Outside) == b + Repaired(k, Outside)
  {
    if b == [] {
      assert b + k == k;
    } else {
      CopyBare(b[1..], k);
      assert (b + k)[1..] == b[1..] + k;
      assert [b[0]] + (b[1..] + Repaired(k, Outside)) == b + Repaired(k, Outside);
    }
  }

  lemma CopyByte(c: byte, k: seq<byte>, m: Mode)
    requires m == Outside && c == COMMA ==> !ClosesNext(k)
    ensures Repaired([c] + k, m) == [c] + Repaired(k, Step(m, c))
  {
    assert ([c] + k)[1..] == k;
  }

  lemma {:induction false} CopyStr(s: Str, k: seq<byte>)
    ensures Repaired(StrBytes(s, k), Inside) == StrBytes(s, Repaired(k, Outside))
  {
    if s == [] {
      CopyByte(QUOTE, k, Inside);
    } else {
      CopyStr(s[1..], k);
      match s[0]
      case Plain(b) => CopyByte(b, StrBytes(s[1..], k), Inside);
      case Esc(b) =>
        CopyByte(BACKSLASH, [b] + StrBytes(s[1..], k), Inside);
        CopyByte(b, StrBytes(s[1..], k), Escaped);
    }
  }

  lemma {:induction false} SpaceHides(s: Space, k: seq<byte>)
    ensures ClosesNext(s + k) == ClosesNext(k)
  {
    if s == [] {
      assert s + k == k;
    } else {
      assert (s + k)[1..] == s[1..] + k;
      SpaceHides(s[1..], k);
    }
  }

  lemma ValueOpens(pre: Space, v: Value, extra: bool, k: seq<byte>)
    ensures !ClosesNext(pre + Bytes(v, extra, k))
  {
    SpaceHides(pre, Bytes(v, extra, k));
  }

  lemma {:induction false} RepairClosing(comma: bool, end: Space, close: byte, k: seq<byte>)
    requires close == RBRACKET || close == RBRACE
    ensures Repaired(Closing(comma, end, close, k), Outside) == Closing(false, end, close, Repaired(k, Outside))
  {
    var rest := end + ([close] + k);
    CopyBare(end, [close] + k);
    CopyByte(close, k, Outside);
    SpaceHides(end, [close] + k);
    assert ([COMMA] + rest)[1..] == rest;
  }

  /** Commas too many go, and nothing else does. */
  lemma {:induction false} RepairValue(v: Value, k: seq<byte>)
    ensures Repaired(Bytes(v, true, k), Outside) == Bytes(v, false, Repaired(k, Outside))
  {
    match v
    case Atom(text) => CopyBare(text, k);
    case Text(str) =>
      CopyByte(QUOTE, StrBytes(str, k), Outside);
      CopyStr(str, k);
    case Array(elems, comma, end) =>
      var rest := Closing(comma, end, RBRACKET, k);
      CopyByte(LBRACKET, ElemBytes(elems, true, rest), Outside);
      RepairElems(elems, rest);
      RepairClosing(comma, end, RBRACKET, k);
    case Object(members, comma, end) =>
      var rest := Closing(comma, end, RBRACE, k);
      CopyByte(LBRACE, MemberBytes(members, true, rest), Outside);
      RepairMembers(members, rest);
      RepairClosing(comma, end, RBRACE, k);
  }

  lemma {:induction false} RepairElems(e: Elems, k: seq<byte>)
    ensures Repaired(ElemBytes(e, true, k), Outside) == ElemBytes(e, false, Repaired(k, Outside))
  {
    match e
    case NoElems =>
    case Elem(pre, v, post, rest) =>
      var more := if rest.NoElems? then k else [COMMA] + ElemBytes(rest, true, k);
      if rest.Elem? {
        RepairElems(rest, k);
        var r := rest.post + (if rest.rest.NoElems? then k else [COMMA] + ElemBytes(rest.rest, true, k));
        ValueOpens(rest.pre, rest.value, true, r);
        CopyByte(COMMA, ElemBytes(rest, true, k), Outside);
      }
      CopyBare(post, more);
      RepairValue(v, post + more);
      CopyBare(pre, Bytes(v, true, post + more));
  }

  lemma {:induction false} RepairMembers(e: Members, k: seq<byte>)
    ensures Repaired(MemberBytes(e, true, k), Outside) == MemberBytes(e, false, Repaired(k, Outside))
  {
    match e
    case NoMembers =>
    case Member(pre, key, mid, gap, v, post, rest) =>
      var more := if rest.NoMembers? then k else [COMMA] + MemberBytes(rest, true, k);
      if rest.Member? {
        RepairMembers(rest, k);
        var r := rest.post + (if rest.rest.NoMembers? then k else [COMMA] + MemberBytes(rest.rest, true, k));
        RepairKey(rest.pre, rest.key, rest.mid, rest.gap, Bytes(rest.value, true, r));
        CopyByte(COMMA, MemberBytes(rest, true, k), Outside);
      }
      CopyBare(post, more);
      RepairValue(v, post + more);
      RepairKey(pre, key, mid, gap, Bytes(v, true, post + more));
  }

  lemma RepairKey(pre: Space, key: Str, mid: Space, gap: Space, k: seq<byte>)
    ensures Repaired(KeyBytes(pre, key, mid, gap, k), Outside) == KeyBytes(pre, key, mid, gap, Repaired(k, Outside))
    ensures !ClosesNext(KeyBytes(pre, key, mid, gap, k))
  {
    CopyBare(gap, k);
    CopyByte(COLON, gap + k, Outside);
    CopyBare(mid, [COLON] + (gap + k));
    var tail := mid + ([COLON] + (gap + k));
    CopyStr(key, tail);
    CopyByte(QUOTE, StrBytes(key, tail), Outside);
    CopyBare(pre, [QUOTE] + StrBytes(key, tail));
    SpaceHides(pre, [QUOTE] + StrBytes(key, tail));
  }

  // ---- where an object ends --------------------------------------------

  lemma {:induction false} SkipBare(b: seq<byte>, k: seq<byte>, depth: int)
    requires forall i :: 0 <= i < |b| ==> b[i] != QUOTE && b[i] != LBRACE && b[i] != RBRACE
    ensures AfterObject(b + k, depth, Outside) == AfterObject(k, depth, Outside)
  {
    if b == [] {
      assert b + k == k;
    } else {
      SkipBare(b[1..], k, depth);
      assert (b + k)[1..] == b[1..] + k;
    }
  }

  lemma {:induction false} SkipStr(s: Str, k: seq<byte>, depth: int)
    ensures AfterObject(StrBytes(s, k), depth, Inside) == AfterObject(k, depth, Outside)
  {
    if s != [] {
      SkipStr(s[1..], k, depth);
      assert s[0].Esc? ==> StrBytes(s, k)[1..] == [s[0].b] + StrBytes(s[1..], k);
    }
  }

  lemma SkipByte(c: byte, k: seq<byte>, depth: int)
    requires c != LBRACE && c != RBRACE
    ensures AfterObject([c] + k, depth, Outside) == AfterObject(k, depth, Step(Outside, c))
  {
    assert ([c] + k)[1..] == k;
  }

  lemma SkipClosing(comma: bool, end: Space, close: byte, k: seq<byte>, depth: int)
    ensures AfterObject(Closing(comma, end, close, k), depth, Outside) == AfterObject([close] + k, depth, Outside)
  {
    var sep := if comma then [COMMA] + end else end;
    assert Closing(comma, end, close, k) == sep + ([close] + k);
    SkipBare(sep, [close] + k, depth);
  }

  /** Inside an object, a value leaves the scanner where it found it. */
  lemma {:induction false} SkipValue(v: Value, extra: bool, k: seq<byte>, depth: int)
    requires depth >= 1
    ensures AfterObject(Bytes(v, extra, k), depth, Outside) == AfterObject(k, depth, Outside)
  {
    match v
    case Atom(text) => SkipBare(text, k, depth);
    case Text(str) =>
      SkipByte(QUOTE, StrBytes(str, k), depth);
      SkipStr(str, k, depth);
    case Array(elems, comma, end) =>
      var rest := Closing(extra && comma, end, RBRACKET, k);
      SkipByte(LBRACKET, ElemBytes(elems, extra, rest), depth);
      SkipElems(elems, extra, rest, depth);
      SkipClosing(extra && comma, end, RBRACKET, k, depth);
      SkipByte(RBRACKET, k, depth);
    case Object(members, comma, end) =>
      SkipObject(members, extra && comma, end, extra, k, depth);
      assert ([RBRACE] + k)[1..] == k;
  }

  /** The inside of an object, up to the brace that closes it. */
  lemma {:induction false} SkipObject(members: Members, comma: bool, end: Space, extra: bool, k: seq<byte>, depth: int)
    requires depth >= 0
    ensures AfterObject([LBRACE] + MemberBytes(members, extra, Closing(comma, end, RBRACE, k)), depth, Outside)
      == AfterObject([RBRACE] + k, depth + 1, Outside)
    decreases members, 1
  {
    var rest := Closing(comma, end, RBRACE, k);
    assert ([LBRACE] + MemberBytes(members, extra, rest))[1..] == MemberBytes(members, extra, rest);
    SkipMembers(members, extra, rest, depth + 1);
    SkipClosing(comma, end, RBRACE, k, depth + 1);
  }

  lemma {:induction false} SkipElems(e: Elems, extra: bool, k: seq<byte>, depth: int)
    requires depth >= 1
    ensures AfterObject(ElemBytes(e, extra, k), depth, Outside) == AfterObject(k, depth, Outside)
  {
    match e
    case NoElems =>
    case Elem(pre, v, post, rest) =>
      var more := if rest.NoElems? then k else [COMMA] + ElemBytes(rest, extra, k);
      if rest.Elem? {
        SkipByte(COMMA, ElemBytes(rest, extra, k), depth);
        SkipElems(rest, extra, k, depth);
      }
      SkipBare(post, more, depth);
      SkipValue(v, extra, post + more, depth);
      SkipBare(pre, Bytes(v, extra, post + more), depth);
  }

  lemma {:induction false} SkipMembers(e: Members, extra: bool, k: seq<byte>, depth: int)
    requires depth >= 1
    ensures AfterObject(MemberBytes(e, extra, k), depth, Outside) == AfterObject(k, depth, Outside)
    decreases e, 0
  {
    match e
    case NoMembers =>
    case Member(pre, key, mid, gap, v, post, rest) =>
      var more := if rest.NoMembers? then k else [COMMA] + MemberBytes(rest, extra, k);
      if rest.Member? {
        SkipByte(COMMA, MemberBytes(rest, extra, k), depth);
        SkipMembers(rest, extra, k, depth);
      }
      SkipBare(post, more, depth);
      SkipValue(v, extra, post + more, depth);
      SkipKey(pre, key, mid, gap, Bytes(v, extra, post + more), depth);
  }

  lemma SkipKey(pre: Space, key: Str, mid: Space, gap: Space, k: seq<byte>, depth: int)
    ensures AfterObject(KeyBytes(pre, key, mid, gap, k), depth, Outside) == AfterObject(k, depth, Outside)
  {
    var tail := mid + ([COLON] + (gap + k));
    SkipBare(gap, k, depth);
    SkipByte(COLON, gap + k, depth);
    SkipBare(mid, [COLON] + (gap + k), depth);
    SkipStr(key, tail, depth);
    SkipByte(QUOTE, StrBytes(key, tail), depth);
    SkipBare(pre, [QUOTE] + StrBytes(key, tail), depth);
  }

  // ---- what comes out --------------------------------------------------

  lemma {:induction false} StrBytesAppend(s: Str, k: seq<byte>)
    ensures StrBytes(s, k) == StrBytes(s, []) + k
  {
    if s != [] {
      StrBytesAppend(s[1..], k);
    }
  }

  lemma Regroup(a: seq<byte>, b: seq<byte>, c: seq<byte>, k: seq<byte>)
    ensures a + (b + (c + k)) == (a + (b + c)) + k
  {}

  lemma PreAppend(pre: Space, b: seq<byte>, k: seq<byte>)
    ensures pre + (b + k) == (pre + b) + k
  {}

  /** A value is written the same whatever follows it. */
  lemma {:induction false} BytesAppend(v: Value, extra: bool, k: seq<byte>)
    ensures Bytes(v, extra, k) == Bytes(v, extra, []) + k
  {
    match v
    case Atom(text) =>
    case Text(str) => StrBytesAppend(str, k);
    case Array(elems, comma, end) =>
      var c, c0 := Closing(extra && comma, end, RBRACKET, k), Closing(extra && comma, end, RBRACKET, []);
      assert c == c0 + k;
      ElemBytesAppend(elems, extra, c);
      ElemBytesAppend(elems, extra, c0);
      Regroup([LBRACKET], ElemBytes(elems, extra, []), c0, k);
    case Object(members, comma, end) =>
      var c, c0 := Closing(extra && comma, end, RBRACE, k), Closing(extra && comma, end, RBRACE, []);
      assert c == c0 + k;
      MemberBytesAppend(members, extra, c);
      MemberBytesAppend(members, extra, c0);
      Regroup([LBRACE], MemberBytes(members, extra, []), c0, k);
  }

  lemma {:induction false} ElemBytesAppend(e: Elems, extra: bool, k: seq<byte>)
    ensures ElemBytes(e, extra, k) == ElemBytes(e, extra, []) + k
  {
    match e
    case NoElems =>
    case Elem(pre, v, post, rest) =>
      var more := if rest.NoElems? then k else [COMMA] + ElemBytes(rest, extra, k);
      var more0 := if rest.NoElems? then [] else [COMMA] + ElemBytes(rest, extra, []);
      ElemBytesAppend(rest, extra, k);
      assert more == more0 + k;
      forall t ensures Bytes(v, extra, t) == Bytes(v, extra, []) + t { BytesAppend(v, extra, t); }
      ValueAppend(v, extra, post, more0, k);
      PreAppend(pre, Bytes(v, extra, post + more0), k);
  }

  lemma {:induction false} MemberBytesAppend(e: Members, extra: bool, k: seq<byte>)
    ensures MemberBytes(e, extra, k) == MemberBytes(e, extra, []) + k
  {
    match e
    case NoMembers =>
    case Member(pre, key, mid, gap, v, post, rest) =>
      var more := if rest.NoMembers? then k else [COMMA] + MemberBytes(rest, extra, k);
      var more0 := if rest.NoMembers? then [] else [COMMA] + MemberBytes(rest, extra, []);
      MemberBytesAppend(rest, extra, k);
      assert more == more0 + k;
      forall t ensures Bytes(v, extra, t) == Bytes(v, extra, []) + t { BytesAppend(v, extra, t); }
      ValueAppend(v, extra, post, more0, k);
      KeyAppend(pre, key, mid, gap, Bytes(v, extra, post + more0), k);
  }

  lemma ValueAppend(v: Value, extra: bool, post: Space, rest: seq<byte>, k: seq<byte>)
    requires forall t :: Bytes(v, extra, t) == Bytes(v, extra, []) + t
    ensures Bytes(v, extra, post + (rest + k)) == Bytes(v, extra, post + rest) + k
  {
    hide Bytes;
    assert post + (rest + k) == (post + rest) + k;
  }

  lemma KeyAppend(pre: Space, key: Str, mid: Space, gap: Space, t: seq<byte>, k: seq<byte>)
    ensures KeyBytes(pre, key, mid, gap, t + k) == KeyBytes(pre, key, mid, gap, t) + k
  {
    var u := mid + ([COLON] + (gap + t));
    assert mid + ([COLON] + (gap + (t + k))) == u + k;
    StrBytesAppend(key, u);
    StrBytesAppend(key, u + k);
    assert StrBytes(key, []) + (u + k) == StrBytes(key, u) + k;
    assert pre + ([QUOTE] + (StrBytes(key, u) + k)) == (pre + ([QUOTE] + StrBytes(key, u))) + k;
  }

  /** What a scanner found stays found when more text follows. */
  lemma {:induction false} FoundStays(s: seq<byte>, more: seq<byte>, depth: int, m: Mode)
    requires AfterObject(s, depth, m).Some?
    ensures AfterObject(s + more, depth, m) == Some(AfterObject(s, depth, m).value + more)
  {
    assert (s + more)[1..] == s[1..] + more;
    if m == Outside && s[0] == LBRACE {
      FoundStays(s[1..], more, depth + 1, m);
    } else if m == Outside && s[0] == RBRACE {
      if depth != 1 {
        FoundStays(s[1..], more, depth - 1, m);
      }
    } else {
      FoundStays(s[1..], more, depth, Step(m, s[0]));
    }
  }

  lemma FirstBraceAt(p: seq<byte>, t: seq<byte>)
    requires LBRACE !in p && t != [] && t[0] == LBRACE
    ensures FirstBrace(p + t) == |p| && (p + t)[|p|..] == t
  {
    assert (p + t)[|p|] == LBRACE;
    assert forall j :: 0 <= j < |p| ==> (p + t)[j] == p[j];
  }

  /** Out of any text that has no brace before it and anything at all after it, the
      object comes out whole, and repaired it is the object without its extra commas. */
  lemma ObjectIsFound(p: seq<byte>, o: Value, s: seq<byte>)
    requires LBRACE !in p && o.Object?
    ensures FirstObject(p + Bytes(o, true, s)) == Some(Bytes(o, true, []))
    ensures Repaired(Bytes(o, true, []), Outside) == Bytes(o, false, [])
  {
    var t := Bytes(o, true, s);
    FirstBraceAt(p, t);
    SkipObject(o.members, o.comma, o.end, true, s, 0);
    assert ([RBRACE] + s)[1..] == s;
    assert AfterObject(t, 0, Outside) == Some(s);
    BytesAppend(o, true, s);
    RepairValue(o, []);
  }

  /** An object that is cut off is not found. */
  lemma TruncatedIsNotFound(p: seq<byte>, o: Value, t: seq<byte>)
    requires LBRACE !in p && o.Object? && t < Bytes(o, true, [])
    ensures FirstObject(p + t) == None
  {
    if t == [] {
      assert LBRACE !in p + t;
    } else {
      FirstBraceAt(p, t);
      var cut := Bytes(o, true, [])[|t|..];
      assert t + cut == Bytes(o, true, []);
      SkipObject(o.members, o.comma, o.end, true, [], 0);
      assert ([RBRACE] + [])[1..] == [];
      if AfterObject(t, 0, Outside).Some? {
        FoundStays(t, cut, 0, Outside);
      }
    }
  }

  // ---- the limits of the repair ----------------------------------------

  predicate NoCommas(v: Value) {
    match v
    case Atom(_) => true
    case Text(_) => true
    case Array(elems, comma, _) => !comma && NoElemCommas(elems)
    case Object(members, comma, _) => !comma && NoMemberCommas(members)
  }

  predicate NoElemCommas(e: Elems) {
    e.Elem? ==> NoCommas(e.value) && NoElemCommas(e.rest)
  }

  predicate NoMemberCommas(e: Members) {
    e.Member? ==> NoCommas(e.value) && NoMemberCommas(e.rest)
  }

  lemma {:induction false} SameBytes(v: Value, k: seq<byte>)
    requires NoCommas(v)
    ensures Bytes(v, true, k) == Bytes(v, false, k)
  {
    match v
    case Atom(_) =>
    case Text(_) =>
    case Array(elems, comma, end) => SameElemBytes(elems, Closing(false, end, RBRACKET, k));
    case Object(members, comma, end) => SameMemberBytes(members, Closing(false, end, RBRACE, k));
  }

  lemma {:induction false} SameElemBytes(e: Elems, k: seq<byte>)
    requires NoElemCommas(e)
    ensures ElemBytes(e, true, k) == ElemBytes(e, false, k)
  {
    if e.Elem? {
      SameElemBytes(e.rest, k);
      SameBytes(e.value, e.post + (if e.rest.NoElems? then k else [COMMA] + ElemBytes(e.rest, true, k)));
    }
  }

  lemma {:induction false} SameMemberBytes(e: Members, k: seq<byte>)
    requires NoMemberCommas(e)
    ensures MemberBytes(e, true, k) == MemberBytes(e, false, k)
  {
    if e.Member? {
      SameMemberBytes(e.rest, k);
      SameBytes(e.value, e.post + (if e.rest.NoMembers? then k else [COMMA] + MemberBytes(e.rest, true, k)));
    }
  }

  /** JSON that has no commas too many is left as it is. */
  lemma GoodJsonIsKept(v: Value)
    requires NoCommas(v)
    ensures Repaired(Bytes(v, true, []), Outside) == Bytes(v, true, [])
  {
    RepairValue(v, []);
    SameBytes(v, []);
  }

  // Commas too many, in any bytes whatever.

  /** A comma too many comes next: a comma behind which something closes. */
  predicate DanglingNext(s: seq<byte>) {
    s != [] && (if IsAsciiSpace(s[0]) then DanglingNext(s[1..]) else s[0] == COMMA && ClosesNext(s[1..]))
  }

  /** Somewhere outside strings there is a comma too many. */
  predicate HasDangling(s: seq<byte>, m: Mode) {
    s != []
    && ((m == Outside && s[0] == COMMA && ClosesNext(s[1..])) || HasDangling(s[1..], Step(m, s[0])))
  }

  /** Somewhere outside strings there is a comma and behind it, but for white space,
      a comma too many. */
  predicate TwoInARow(s: seq<byte>, m: Mode) {
    s != []
    && ((m == Outside && s[0] == COMMA && DanglingNext(s[1..])) || TwoInARow(s[1..], Step(m, s[0])))
  }

  lemma ConsIs(c: byte, k: seq<byte>)
    ensures ([c] + k)[0] == c && ([c] + k)[1..] == k
  {}

  /** What closes next behind a repair closed next before it, or did so behind one
      comma that is gone. */
  lemma {:induction false} ClosesAfterRepair(s: seq<byte>)
    ensures ClosesNext(Repaired(s, Outside)) <==> ClosesNext(s) || DanglingNext(s)
  {
    if s != [] {
      if s[0] == COMMA && ClosesNext(s[1..]) {
        ClosesAfterRepair(s[1..]);
      } else {
        ConsIs(s[0], Repaired(s[1..], Step(Outside, s[0])));
        if IsAsciiSpace(s[0]) {
          ClosesAfterRepair(s[1..]);
        }
      }
    }
  }

  lemma {:induction false} ClosingIsNoComma(s: seq<byte>)
    ensures !(ClosesNext(s) && DanglingNext(s))
  {
    if s != [] && IsAsciiSpace(s[0]) {
      ClosingIsNoComma(s[1..]);
    }
  }

  /** One repair leaves a comma too many in some bytes if and only if there are two in a
      row in them, with nothing but white space between. */
  lemma {:induction false} CommaStays(s: seq<byte>, m: Mode)
    ensures HasDangling(Repaired(s, m), m) <==> TwoInARow(s, m)
    decreases |s|
  {
    if s != [] {
      var next := Step(m, s[0]);
      CommaStays(s[1..], next);
      if m == Outside && s[0] == COMMA {
        if ClosesNext(s[1..]) {
          ClosingIsNoComma(s[1..]);
        } else {
          ConsIs(s[0], Repaired(s[1..], next));
          ClosesAfterRepair(s[1..]);
        }
      } else {
        ConsIs(s[0], Repaired(s[1..], next));
      }
    }
  }

  /** The repair changes something if and only if there is a comma too many. */
  lemma {:induction false} RepairedIsSame(s: seq<byte>, m: Mode)
    ensures |Repaired(s, m)| <= |s|
    ensures Repaired(s, m) == s <==> !HasDangling(s, m)
    decreases |s|
  {
    if s != [] {
      RepairedIsSame(s[1..], Step(m, s[0]));
      var rest := Repaired(s[1..], Step(m, s[0]));
      ConsIs(s[0], rest);
      assert s == [s[0]] + s[1..];
    }
  }

  /** So a second repair finds nothing to do if and only if no two stood in a row. */
  lemma RepairTwice(s: seq<byte>)
    ensures var once := Repaired(s, Outside);
      Repaired(once, Outside) == once <==> !TwoInARow(s, Outside)
  {
    CommaStays(s, Outside);
    RepairedIsSame(Repaired(s, Outside), Outside);
  }

  /** Two such commas, and the one that stays. */
  lemma TwoCommasStayOne()
    ensures var two := [LBRACKET, 0x31, COMMA, COMMA, RBRACKET];
      Repaired(two, Outside) == [LBRACKET, 0x31, COMMA, RBRACKET]
  {
    CopyByte(RBRACKET, [], Outside);
    assert [RBRACKET] + [] == [RBRACKET];
    var a := [COMMA] + [RBRACKET];
    assert a[1..] == [RBRACKET] && ClosesNext([RBRACKET]);
    assert Repaired(a, Outside) == [RBRACKET];
    CopyByte(COMMA, a, Outside);
    CopyByte(0x31, [COMMA] + a, Outside);
    CopyByte(LBRACKET, [0x31] + ([COMMA] + a), Outside);
    assert [LBRACKET, 0x31, COMMA, COMMA, RBRACKET] == [LBRACKET] + ([0x31] + ([COMMA] + a));
  }

  // ---- any bytes at all ------------------------------------------------

  /** Bytes cut at their strings: stretches without a quote, and whole strings. */
  datatype Piece = Bare(b: BareBytes) | Quoted(str: Str)

  type BareBytes = b: seq<byte> | QUOTE !in b

  function PieceBytes(p: Piece, k: seq<byte>): seq<byte> {
    match p
    case Bare(b) => b + k
    case Quoted(str) => [QUOTE] + StrBytes(str, k)
  }

  function PiecesBytes(ps: seq<Piece>, k: seq<byte>): seq<byte> {
    if ps == [] then k else PieceBytes(ps[0], PiecesBytes(ps[1..], k))
  }

  /** A string that is never closed, perhaps with a backslash at its very end. */
  function OpenBytes(str: Str, slash: bool): seq<byte> {
    if str == [] then (if slash then [BACKSLASH] else [])
    else match str[0]
      case Plain(b) => [b] + OpenBytes(str[1..], slash)
      case Esc(b) => [BACKSLASH] + ([b] + OpenBytes(str[1..], slash))
  }

  /** Nothing, or a quote that opens a string that is never closed. */
  datatype Tail = Done | Open(str: Str, slash: bool)

  function TailBytes(t: Tail): seq<byte> {
    match t
    case Done => []
    case Open(str, slash) => [QUOTE] + OpenBytes(str, slash)
  }

  /** Inside a string: its end and what is behind it, or no end. */
  lemma {:induction false} CutString(s: seq<byte>) returns (str: Str, closed: bool, slash: bool, rest: seq<byte>)
    ensures closed ==> s == StrBytes(str, rest) && |rest| < |s|
    ensures !closed ==> s == OpenBytes(str, slash)
    decreases |s|
  {
    str, closed, slash, rest := [], false, false, [];
    if s != [] {
      if s[0] == QUOTE {
        closed, rest := true, s[1..];
        assert s == [QUOTE] + rest;
      } else if s[0] != BACKSLASH {
        str, closed, slash, rest := CutString(s[1..]);
        str := [Plain(s[0])] + str;
        assert s == [s[0]] + s[1..];
      } else if |s| == 1 {
        slash := true;
        assert s == [BACKSLASH];
      } else {
        str, closed, slash, rest := CutString(s[2..]);
        str := [Esc(s[1])] + str;
        assert s == [BACKSLASH] + ([s[1]] + s[2..]);
      }
    }
  }

  /** Every string of bytes is such pieces and such a tail. */
  lemma {:induction false} AnyBytes(s: seq<byte>) returns (ps: seq<Piece>, t: Tail)
    ensures s == PiecesBytes(ps, TailBytes(t))
    decreases |s|
  {
    hide StrBytes, OpenBytes;
    ps, t := [], Done;
    if s != [] {
      if s[0] == QUOTE {
        var str, closed, slash, rest := CutString(s[1..]);
        assert s == [QUOTE] + s[1..];
        if closed {
          ps, t := AnyBytes(rest);
          ps := [Quoted(str)] + ps;
        } else {
          t := Open(str, slash);
        }
      } else {
        ps, t := AnyBytes(s[1..]);
        ps := [Bare([s[0]])] + ps;
        assert s == [s[0]] + s[1..];
      }
    }
  }

  /** Behind white space a bracket or brace closes. */
  ghost predicate Closes(s: seq<byte>) {
    exists i :: 0 <= i < |s| && (s[i] == RBRACE || s[i] == RBRACKET) && forall j :: 0 <= j < i ==> IsAsciiSpace(s[j])
  }

  lemma {:induction false} ClosesMeans(s: seq<byte>)
    ensures ClosesNext(s) <==> Closes(s)
  {
    if s != [] {
      ClosesMeans(s[1..]);
      if Closes(s) {
        var i :| 0 <= i < |s| && (s[i] == RBRACE || s[i] == RBRACKET) && forall j :: 0 <= j < i ==> IsAsciiSpace(s[j]);
        assert i > 0 ==> s[1..][i - 1] == s[i] && forall j :: 0 <= j < i - 1 ==> s[1..][j] == s[j + 1];
      }
      if IsAsciiSpace(s[0]) && Closes(s[1..]) {
        var i :| 0 <= i < |s[1..]| && (s[1..][i] == RBRACE || s[1..][i] == RBRACKET)
          && forall j :: 0 <= j < i ==> IsAsciiSpace(s[1..][j]);
        assert s[i + 1] == s[1..][i] && forall j :: 0 < j < i + 1 ==> s[j] == s[1..][j - 1];
      }
    }
  }

  /** A stretch without its commas that something closes behind; `k` is what follows it. */
  ghost function Thin(b: BareBytes, k: seq<byte>): seq<byte> {
    if b == [] then []
    else (if b[0] == COMMA && Closes(b[1..] + k) then [] else [b[0]]) + Thin(b[1..], k)
  }

  ghost function ThinPieces(ps: seq<Piece>, t: Tail): seq<byte> {
    if ps == [] then TailBytes(t)
    else match ps[0]
      case Bare(b) => Thin(b, PiecesBytes(ps[1..], TailBytes(t))) + ThinPieces(ps[1..], t)
      case Quoted(str) => [QUOTE] + StrBytes(str, ThinPieces(ps[1..], t))
  }

  lemma {:induction false} RepairBare(b: BareBytes, k: seq<byte>)
    ensures Repaired(b + k, Outside) == Thin(b, k) + Repaired(k, Outside)
  {
    if b == [] {
      assert b + k == k && [] + Repaired(k, Outside) == Repaired(k, Outside);
    } else {
      RepairBare(b[1..], k);
      assert (b + k)[1..] == b[1..] + k;
      ClosesMeans(b[1..] + k);
      var rest := Thin(b[1..], k);
      assert [b[0]] + (rest + Repaired(k, Outside)) == ([b[0]] + rest) + Repaired(k, Outside);
      assert [] + rest == rest;
    }
  }

  lemma {:induction false} RepairOpen(str: Str, slash: bool)
    ensures Repaired(OpenBytes(str, slash), Inside) == OpenBytes(str, slash)
  {
    if str == [] {
      if slash {
        CopyByte(BACKSLASH, [], Inside);
        assert [BACKSLASH] + [] == [BACKSLASH];
      }
    } else {
      RepairOpen(str[1..], slash);
      match str[0]
      case Plain(b) => CopyByte(b, OpenBytes(str[1..], slash), Inside);
      case Esc(b) =>
        CopyByte(BACKSLASH, [b] + OpenBytes(str[1..], slash), Inside);
        CopyByte(b, OpenBytes(str[1..], slash), Escaped);
    }
  }

  /** Any bytes at all: the repair takes out exactly the commas outside strings behind
      which, but for white space, a bracket or brace closes. Strings, closed or not,
      stay as they are. */
  lemma {:induction false} RepairMeans(ps: seq<Piece>, t: Tail)
    ensures Repaired(PiecesBytes(ps, TailBytes(t)), Outside) == ThinPieces(ps, t)
  {
    if ps == [] {
      if t.Open? {
        RepairOpen(t.str, t.slash);
        CopyByte(QUOTE, OpenBytes(t.str, t.slash), Outside);
      }
    } else {
      RepairMeans(ps[1..], t);
      var k := PiecesBytes(ps[1..], TailBytes(t));
      match ps[0]
      case Bare(b) => RepairBare(b, k);
      case Quoted(str) =>
        CopyStr(str, k);
        CopyByte(QUOTE, StrBytes(str, k), Outside);
    }
  }

  /** Opening braces less closing ones. */
  function Depth(b: seq<byte>): int {
    if b == [] then 0
    else (if b[0] == LBRACE then 1 else if b[0] == RBRACE then -1 else 0) + Depth(b[1..])
  }

  /** A closing brace at `j` brings the depth to zero. */
  predicate EndsAt(b: seq<byte>, depth: int, j: int)
    requires 0 <= j < |b|
  {
    b[j] == RBRACE && depth + Depth(b[..j + 1]) == 0
  }

  /** Any bytes at all: the object ends at the first closing brace outside strings that
      brings the braces outside strings into balance ... */
  lemma {:induction false} BareEnds(b: BareBytes, k: seq<byte>, depth: int, j: nat)
    requires j < |b| && EndsAt(b, depth, j) && forall i :: 0 <= i < j ==> !EndsAt(b, depth, i)
    ensures AfterObject(b + k, depth, Outside) == Some(b[j + 1..] + k)
  {
    hide Depth, EndsAt;
    FirstBare(b, k, depth);
    if j > 0 {
      var next := depth + Depth(b[..1]);
      forall i | 0 <= i < |b| - 1
        ensures EndsAt(b[1..], next, i) <==> EndsAt(b, depth, i + 1)
      {
        DepthStep(b, depth, i);
      }
      assert !EndsAt(b, depth, 0);
      BareEnds(b[1..], k, next, j - 1);
      assert b[1..][j..] == b[j + 1..];
    }
  }

  /** One byte that is no quote. */
  lemma FirstBare(b: BareBytes, k: seq<byte>, depth: int)
    requires b != []
    ensures AfterObject(b + k, depth, Outside)
      == if EndsAt(b, depth, 0) then Some(b[1..] + k) else AfterObject(b[1..] + k, depth + Depth(b[..1]), Outside)
  {
    assert (b + k)[1..] == b[1..] + k;
    var one := b[..1];
    assert one != [] && one[0] == b[0] && one[1..] == [];
    assert Depth(one) == if b[0] == LBRACE then 1 else if b[0] == RBRACE then -1 else 0;
    assert b[0] != QUOTE;
    assert EndsAt(b, depth, 0) <==> b[0] == RBRACE && depth == 1;
  }

  lemma DepthStep(b: seq<byte>, depth: int, i: nat)
    requires i + 1 < |b|
    ensures EndsAt(b[1..], depth + Depth(b[..1]), i) <==> EndsAt(b, depth, i + 1)
  {
    assert b[..i + 2][1..] == b[1..][..i + 1] && b[..1][1..] == [];
  }

  /** ... a stretch without such a brace only moves the depth ... */
  lemma {:induction false} BareGoesOn(b: BareBytes, k: seq<byte>, depth: int)
    requires forall i :: 0 <= i < |b| ==> !EndsAt(b, depth, i)
    ensures AfterObject(b + k, depth, Outside) == AfterObject(k, depth + Depth(b), Outside)
  {
    hide EndsAt;
    if b == [] {
      assert b + k == k;
    } else {
      FirstBare(b, k, depth);
      var next := depth + Depth(b[..1]);
      forall i | 0 <= i < |b| - 1
        ensures EndsAt(b[1..], next, i) <==> EndsAt(b, depth, i + 1)
      {
        DepthStep(b, depth, i);
      }
      BareGoesOn(b[1..], k, next);
      assert b[..1][1..] == [];
    }
  }

  /** ... and a string moves nothing, whatever is in it, and ends the search if it is
      never closed. */
  lemma QuotedIsSkipped(str: Str, k: seq<byte>, slash: bool, depth: int)
    ensures AfterObject([QUOTE] + StrBytes(str, k), depth, Outside) == AfterObject(k, depth, Outside)
    ensures AfterObject([QUOTE] + OpenBytes(str, slash), depth, Outside) == None
  {
    SkipByte(QUOTE, StrBytes(str, k), depth);
    SkipStr(str, k, depth);
    SkipByte(QUOTE, OpenBytes(str, slash), depth);
    SkipOpen(str, slash, depth);
  }

  lemma {:induction false} SkipOpen(str: Str, slash: bool, depth: int)
    ensures AfterObject(OpenBytes(str, slash), depth, Inside) == None
  {
    if str == [] {
      assert [BACKSLASH][1..] == [];
    } else {
      SkipOpen(str[1..], slash, depth);
      var rest := OpenBytes(str[1..], slash);
      match str[0]
      case Plain(b) => SkipInside(b, rest, depth, Inside);
      case Esc(b) =>
        SkipInside(BACKSLASH, [b] + rest, depth, Inside);
        SkipInside(b, rest, depth, Escaped);
    }
  }

  lemma SkipInside(c: byte, k: seq<byte>, depth: int, m: Mode)
    requires m != Outside
    ensures AfterObject([c] + k, depth, m) == AfterObject(k, depth, Step(m, c))
  {
    assert ([c] + k)[1..] == k;
  }
}
