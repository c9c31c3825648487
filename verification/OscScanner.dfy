/** Finding the lifecycle markers of the shim in the output of a terminal, which
    arrives cut into chunks anywhere. */
module OscScanner {
  import opened Options
  import opened Utf8
  import opened Search
  import opened Sliding
  import T = Text

  const ESC: byte := 0x1B
  const BEL: byte := 0x07

  /** ESC ] 633 ; A BEL */
  const READY: seq<byte> := [ESC, 0x5D, 0x36, 0x33, 0x33, 0x3B, 0x41, BEL]
  /** ESC ] 633 ; D ; */
  const EXIT_PREFIX: seq<byte> := [ESC, 0x5D, 0x36, 0x33, 0x33, 0x3B, 0x44, 0x3B]

  const MAX_BUFFER := 4096
  const KEEP := 256

  // ---- the scanner -----------------------------------------------------

  datatype Lifecycle = Lifecycle(ready: bool, exit: Option<int>)

  datatype Event = ShimReady | ShimExit(code: int)

  function Chars(b: seq<byte>): string
    requires forall i :: 0 <= i < |b| ==> b[i] < 0x80
  {
    seq(|b|, i requires 0 <= i < |b| => b[i] as char)
  }

  /** The exit code in the marker; -1 for anything that is no 32-bit number. */
  function ExitCode(b: seq<byte>): int {
    if forall i :: 0 <= i < |b| ==> b[i] < 0x80 then
      match T.ParseI32(Chars(b))
      case Some(n) => n
      case None => -1
    else -1
  }

  function Bound(buf: seq<byte>): (b: seq<byte>)
    ensures |b| <= |buf|
  {
    if |buf| > MAX_BUFFER then buf[|buf| - KEEP..] else buf
  }

  predicate IsDigits(b: seq<byte>) {
    b != [] && forall i :: 0 <= i < |b| ==> 0x30 <= b[i] <= 0x39
  }

  function DigitText(b: seq<byte>): (t: string)
    requires IsDigits(b)
    ensures T.AllDigits(t)
  {
    Chars(b)
  }

  lemma DigitsAreDigits(b: seq<byte>)
    requires forall i :: 0 <= i < |b| ==> b[i] < 0x80
    ensures IsDigits(b) <==> Chars(b) != [] && T.AllDigits(Chars(b))
    ensures IsDigits(b) ==> DigitText(b) == Chars(b)
  {
    assert forall i :: 0 <= i < |b| ==> (T.IsDigit(Chars(b)[i]) <==> 0x30 <= b[i] <= 0x39);
  }

  lemma NoDigits(b: seq<byte>, i: nat)
    requires i < |b| && b[i] >= 0x80
    ensures !IsDigits(b)
  {}

  /** The bytes of a marker, read for any bytes whatever: digits, at least one, perhaps
      behind one sign, are worth their decimal value if it fits 32 bits; anything else,
      text or not, is worth -1. */
  lemma ExitCodeMeans(b: seq<byte>)
    ensures var signed := b != [] && (b[0] == 0x2B || b[0] == 0x2D);
      var digits := if signed then b[1..] else b;
      if IsDigits(digits) then
        var v := if b[0] == 0x2D then -(T.Worth(DigitText(digits)) as int) else T.Worth(DigitText(digits));
        ExitCode(b) == if -0x8000_0000 <= v < 0x8000_0000 then v else -1
      else ExitCode(b) == -1
  {
    hide T.ParseI32, T.Worth, T.AllDigits, IsDigits, DigitText;
    var signed := b != [] && (b[0] == 0x2B || b[0] == 0x2D);
    var digits := if signed then b[1..] else b;
    if forall i :: 0 <= i < |b| ==> b[i] < 0x80 {
      var text := Chars(b);
      T.I32Means(text);
      assert signed ==> text[1..] == Chars(digits);
      assert b != [] ==> text[0] as int == b[0];
      DigitsAreDigits(digits);
    } else {
      var i :| 0 <= i < |b| && b[i] >= 0x80;
      assert digits != [] && digits[if signed then i - 1 else i] == b[i];
      NoDigits(digits, if signed then i - 1 else i);
    }
  }

  /** What a pass over the buffer comes to first, and what is behind it. */
  datatype Found = Nothing | ReadyMark(rest: seq<byte>) | ExitMark(code: int, rest: seq<byte>)

  function NextMark(b: seq<byte>): (f: Found)
    ensures !f.Nothing? ==> |f.rest| < |b|
  {
    match Find(b, READY)
    case Some(p) => ReadyMark(b[p + |READY|..])
    case None =>
      match Find(b, EXIT_PREFIX)
      case None => Nothing
      case Some(p) =>
        var after := b[p + |EXIT_PREFIX|..];
        match FindByte(after, BEL)
        case None => Nothing
        case Some(end) => ExitMark(ExitCode(after[..end]), after[end + 1..])
  }

  /** The first ready marker and the first exit marker count. */
  function See(life: Lifecycle, f: Found): Lifecycle {
    match f
    case Nothing => life
    case ReadyMark(_) => life.(ready := true)
    case ExitMark(code, _) => if life.exit.Some? then life else life.(exit := Some(code))
  }

  function Tell(life: Lifecycle, f: Found): seq<Event> {
    match f
    case Nothing => []
    case ReadyMark(_) => if life.ready then [] else [ShimReady]
    case ExitMark(code, _) => if life.exit.Some? then [] else [ShimExit(code)]
  }

  datatype Scan = Scan(buf: seq<byte>, life: Lifecycle, events: seq<Event>)

  function ScanLoop(buf: seq<byte>, life: Lifecycle): Scan
    decreases |buf|
  {
    var b := Bound(buf);
    var f := NextMark(b);
    if f.Nothing? then Scan(b, life, [])
    else
      var r := ScanLoop(f.rest, See(life, f));
      r.(events := Tell(life, f) + r.events)
  }

  /** The same, behind the events already sent. */
  function Go(buf: seq<byte>, life: Lifecycle, sent: seq<Event>): Scan {
    var r := ScanLoop(buf, life);
    r.(events := sent + r.events)
  }

  lemma ScanIs(buf: seq<byte>, life: Lifecycle)
    ensures var f := NextMark(Bound(buf));
      ScanLoop(buf, life) == if f.Nothing? then Scan(Bound(buf), life, [])
        else var r := ScanLoop(f.rest, See(life, f)); r.(events := Tell(life, f) + r.events)
  {
    hide NextMark, Bound, See, Tell;
  }

  /** One pass, and the rest. */
  lemma GoOn(buf: seq<byte>, life: Lifecycle, sent: seq<Event>)
    ensures var f := NextMark(Bound(buf));
      Go(buf, life, sent) == if f.Nothing? then Scan(Bound(buf), life, sent)
        else Go(f.rest, See(life, f), sent + Tell(life, f))
  {
    hide NextMark, Bound, See, Tell, ScanLoop;
    ScanIs(buf, life);
    var f := NextMark(Bound(buf));
    if f.Nothing? {
      assert sent + [] == sent;
    } else {
      var r := ScanLoop(f.rest, See(life, f));
      assert sent + (Tell(life, f) + r.events) == sent + Tell(life, f) + r.events;
    }
  }

  /** `p` is the first place in `b` where `m` stands. */
  ghost predicate FirstAt(b: seq<byte>, m: seq<byte>, p: nat) {
    OccursAt(b, m, p) && forall i: nat :: i < p ==> !OccursAt(b, m, i)
  }

  ghost predicate Nowhere(b: seq<byte>, m: seq<byte>) {
    forall i: nat :: !OccursAt(b, m, i)
  }

  lemma FindFirst(b: seq<byte>, m: seq<byte>)
    requires m != []
    ensures Find(b, m).None? <==> Nowhere(b, m)
    ensures forall p: nat :: FirstAt(b, m, p) ==> Find(b, m) == Some(p)
  {
    FindFinds(b, m);
  }

  // What a pass comes to, for any bytes: a ready marker anywhere goes first, and takes
  // all before it along, exit markers too; without one it is the first exit marker, up
  // to the first bell behind it.

  lemma PassReady(b: seq<byte>, p: nat)
    requires FirstAt(b, READY, p)
    ensures NextMark(b) == ReadyMark(b[p + 8..])
  {
    hide Find, NextMark, FirstAt;
    FindFirst(b, READY);
    MarkIs(b);
  }

  lemma PassExit(b: seq<byte>, p: nat, end: nat)
    requires Nowhere(b, READY) && FirstAt(b, EXIT_PREFIX, p)
    requires p + 8 <= end < |b| && b[end] == BEL && forall k :: p + 8 <= k < end ==> b[k] != BEL
    ensures NextMark(b) == ExitMark(ExitCode(b[p + 8..end]), b[end + 1..])
  {
    hide Find, FindByte, NextMark, FirstAt, Nowhere, ExitCode;
    FindFirst(b, READY);
    FindFirst(b, EXIT_PREFIX);
    MarkIs(b);
    var after := b[p + 8..];
    assert after == b[p + 8..end] + [BEL] + b[end + 1..];
    FindByteFinds(b[p + 8..end], BEL, b[end + 1..]);
    assert after[..end - p - 8] == b[p + 8..end] && after[end - p - 8 + 1..] == b[end + 1..];
  }

  lemma PassNothing(b: seq<byte>, p: nat)
    requires Nowhere(b, READY)
    requires Nowhere(b, EXIT_PREFIX) || (FirstAt(b, EXIT_PREFIX, p) && forall k :: p + 8 <= k < |b| ==> b[k] != BEL)
    ensures NextMark(b) == Nothing
  {
    hide Find, FindByte, NextMark, FirstAt, Nowhere, ExitCode;
    FindFirst(b, READY);
    FindFirst(b, EXIT_PREFIX);
    MarkIs(b);
    if !Nowhere(b, EXIT_PREFIX) {
      FindByteFinds(b[p + 8..], BEL, []);
    }
  }

  /** So an exit marker in front of a ready marker in the same buffer is never read. */
  lemma ReadyHidesExit(b: seq<byte>, p: nat, life: Lifecycle)
    requires |b| <= MAX_BUFFER && OccursAt(b, READY, p) && forall i: nat :: OccursAt(b, READY, i) ==> i == p
    requires forall i: nat :: i >= p + 8 ==> !OccursAt(b, EXIT_PREFIX, i)
    ensures ScanLoop(b, life).life == life.(ready := true) && ScanLoop(b, life).buf == b[p + 8..]
  {
    hide NextMark, ScanLoop;
    PassReady(b, p);
    ScanIs(b, life);
    var rest := b[p + 8..];
    forall i: nat
      ensures !OccursAt(rest, READY, i) && !OccursAt(rest, EXIT_PREFIX, i)
    {
      OccursBehind(b[..p + 8], rest, READY, i);
      OccursBehind(b[..p + 8], rest, EXIT_PREFIX, i);
      assert b[..p + 8] + rest == b;
    }
    PassNothing(rest, 0);
    ScanIs(rest, See(life, ReadyMark(rest)));
  }

  lemma BoundIs(buf: seq<byte>)
    ensures Bound(buf) == if |buf| > MAX_BUFFER then buf[|buf| - KEEP..] else buf
  {}

  lemma MarkIs(b: seq<byte>)
    ensures Find(b, READY).Some? ==> NextMark(b) == ReadyMark(b[Find(b, READY).value + |READY|..])
    ensures Find(b, READY).None? && Find(b, EXIT_PREFIX).Some? ==>
      var after := b[Find(b, EXIT_PREFIX).value + |EXIT_PREFIX|..];
      NextMark(b) == match FindByte(after, BEL)
        case None => Nothing
        case Some(end) => ExitMark(ExitCode(after[..end]), after[end + 1..])
    ensures Find(b, READY).None? && Find(b, EXIT_PREFIX).None? ==> NextMark(b) == Nothing
  {}

  lemma ReadySeen(life: Lifecycle, rest: seq<byte>, sent: seq<Event>)
    ensures See(life, ReadyMark(rest)) == life.(ready := true)
    ensures sent + Tell(life, ReadyMark(rest)) == if life.ready then sent else sent + [ShimReady]
  {}

  lemma ExitSeen(life: Lifecycle, code: int, rest: seq<byte>, sent: seq<Event>)
    ensures See(life, ExitMark(code, rest)) == if life.exit.Some? then life else life.(exit := Some(code))
    ensures sent + Tell(life, ExitMark(code, rest)) == if life.exit.Some? then sent else sent + [ShimExit(code)]
  {}

  class Scanner {
    var oscBuf: seq<byte>
    var life: Lifecycle
    var sent: seq<Event>

    constructor ()
      ensures oscBuf == [] && life == Lifecycle(false, None) && sent == []
    {
      oscBuf, life, sent := [], Lifecycle(false, None), [];
    }

    method ScanOsc(chunk: seq<byte>)
      modifies this
      ensures var r := ScanLoop(old(oscBuf) + chunk, old(life));
        oscBuf == r.buf && life == r.life && sent == old(sent) + r.events
    {
      hide Find, FindByte, ExitCode, ScanLoop, NextMark, Bound, See, Tell;
      oscBuf := oscBuf + chunk;
      ghost var goal := Go(oscBuf, life, sent);
      assert goal == ScanLoop(oscBuf, life).(events := sent + ScanLoop(oscBuf, life).events);
      hide Go;
      while true
        invariant Go(oscBuf, life, sent) == goal
        decreases |oscBuf|
      {
        GoOn(oscBuf, life, sent);
        BoundIs(oscBuf);
        if |oscBuf| > MAX_BUFFER {
          oscBuf := oscBuf[|oscBuf| - KEEP..];
        }
        var found := TakeMark();
        if !found {
          break;
        }
      }
    }

    /** One pass over the buffer: takes out the mark it comes to first, if there is one. */
    method TakeMark() returns (found: bool)
      modifies this
      ensures var f := NextMark(old(oscBuf));
        && found == !f.Nothing?
        && oscBuf == (if found then f.rest else old(oscBuf))
        && life == (if found then See(old(life), f) else old(life))
        && sent == if found then old(sent) + Tell(old(life), f) else old(sent)
    {
      hide Find, FindByte, ExitCode, NextMark, See, Tell;
      MarkIs(oscBuf);
      var pos := Find(oscBuf, READY);
      if pos.Some? {
        oscBuf := oscBuf[pos.value + |READY|..];
        ReadySeen(life, oscBuf, sent);
        var already := life.ready;
        life := life.(ready := true);
        if !already {
          sent := sent + [ShimReady];
        }
        return true;
      }
      pos := Find(oscBuf, EXIT_PREFIX);
      if pos.None? {
        return false;
      }
      var after := oscBuf[pos.value + |EXIT_PREFIX|..];
      var end := FindByte(after, BEL);
      if end.None? {
        return false;
      }
      var code := ExitCode(after[..end.value]);
      oscBuf := after[end.value + 1..];
      ExitSeen(life, code, oscBuf, sent);
      if life.exit.None? {
        life := life.(exit := Some(code));
        sent := sent + [ShimExit(code)];
      }
      return true;
    }
  }

  // ---- whatever comes in -----------------------------------------------

  function ScanAll(buf: seq<byte>, life: Lifecycle, chunks: seq<seq<byte>>): Scan
    decreases |chunks|
  {
    if chunks == [] then Scan(buf, life, [])
    else
      var r := ScanLoop(buf + chunks[0], life);
      var rest := ScanAll(r.buf, r.life, chunks[1..]);
      rest.(events := r.events + rest.events)
  }

  /** The events are the changes of the lifecycle, each told once; a lifecycle that
      is ready stays ready, and an exit code stays what it is. */
  predicate TellsChanges(life: Lifecycle, r: Scan) {
    && (life.ready ==> r.life.ready)
    && (life.exit.Some? ==> r.life.exit == life.exit)
    && multiset(r.events)
      == (if r.life.ready && !life.ready then multiset{ShimReady} else multiset{})
       + (if r.life.exit.Some? && life.exit.None? then multiset{ShimExit(r.life.exit.value)} else multiset{})
  }

  lemma {:induction false} LoopTellsChanges(buf: seq<byte>, life: Lifecycle)
    ensures TellsChanges(life, ScanLoop(buf, life))
    decreases |buf|
  {
    hide NextMark, Bound;
    var f := NextMark(Bound(buf));
    if !f.Nothing? {
      LoopTellsChanges(f.rest, See(life, f));
    }
  }

  lemma {:induction false} AnyInput(buf: seq<byte>, life: Lifecycle, chunks: seq<seq<byte>>)
    ensures TellsChanges(life, ScanAll(buf, life, chunks))
    decreases |chunks|
  {
    hide ScanLoop;
    if chunks != [] {
      LoopTellsChanges(buf + chunks[0], life);
      var r := ScanLoop(buf + chunks[0], life);
      AnyInput(r.buf, r.life, chunks[1..]);
    }
  }

  // ---- what the shim writes --------------------------------------------

  /** Output in which no marker begins. */
  ghost predicate Clean(n: seq<byte>) {
    forall i: nat :: !OccursAt(n, READY, i) && !OccursAt(n, EXIT_PREFIX, i)
  }

  function Ascii(s: string): (b: seq<byte>)
    requires forall i :: 0 <= i < |s| ==> s[i] as int < 0x80
    ensures |b| == |s| && forall i :: 0 <= i < |s| ==> b[i] == s[i] as int
  {
    seq(|s|, i requires 0 <= i < |s| => s[i] as int)
  }

  function CodeText(code: int): (b: seq<byte>)
    ensures forall i :: 0 <= i < |b| ==> b[i] == 0x2D || 0x30 <= b[i] <= 0x39
  {
    Ascii(T.SignedDecimal(code))
  }

  function ExitMarker(code: int): seq<byte> {
    EXIT_PREFIX + CodeText(code) + [BEL]
  }

  lemma CodeIsRead(code: int)
    requires -0x8000_0000 <= code < 0x8000_0000
    ensures ExitCode(CodeText(code)) == code
  {
    assert Chars(CodeText(code)) == T.SignedDecimal(code);
    T.DecimalI32(code);
  }

  lemma {:induction false} DecimalLength(n: nat, k: nat, bound: nat)
    requires k >= 1 && bound == Tens(k) && n < bound
    ensures |T.Decimal(n)| <= k
    decreases k
  {
    if n >= 10 {
      DecimalLength(n / 10, k - 1, Tens(k - 1));
    }
  }

  function Tens(k: nat): nat { if k == 0 then 1 else 10 * Tens(k - 1) }

  lemma CodeIsShort(code: int)
    requires -0x8000_0000 <= code < 0x8000_0000
    ensures |CodeText(code)| <= 11
  {
    assert Tens(10) == 10_000_000_000 by {
      assert Tens(5) == 100_000;
      assert Tens(10) == 100_000 * Tens(5);
    }
    DecimalLength(if code < 0 then -code else code, 10, Tens(10));
  }

  // ---- a stream with at most one marker of each kind -------------------

  /** A ready marker at `r` and an exit marker from `e` to `stop`, as far as they are
      inside `s`, and no other. There is none of the first kind if `r` is negative, and
      none of the second if `e` is behind the end. */
  ghost predicate Marked(s: seq<byte>, r: int, e: nat, stop: nat, code: int) {
    && r + 8 <= e && e + 8 < stop
    && (forall i: nat :: OccursAt(s, READY, i) <==> i == r && r + 8 <= |s|)
    && (forall i: nat :: OccursAt(s, EXIT_PREFIX, i) <==> i == e && e + 8 <= |s|)
    && (forall k :: e + 8 <= k < stop - 1 && k < |s| ==> s[k] != BEL)
    && (stop <= |s| ==> s[stop - 1] == BEL && ExitCode(s[e + 8..stop - 1]) == code)
  }

  /** A marker, and what may stand around it without making another. */
  predicate IsMark(m: seq<byte>) {
    |m| == 8 && m[0] == ESC && forall i :: 1 <= i < 8 ==> m[i] != ESC
  }

  /** Where `m` can occur when something that starts with the only ESC of it stands
      in the middle: before it, at it, or behind it. */
  lemma OccursAround(a: seq<byte>, x: seq<byte>, b: seq<byte>, m: seq<byte>, i: nat)
    requires IsMark(m) && x != [] && x[0] == ESC && forall k :: 1 <= k < |x| ==> x[k] != ESC
    requires OccursAt(a + x + b, m, i)
    ensures OccursAt(a, m, i) || i == |a| || (i >= |a| + |x| && OccursAt(b, m, i - |a| - |x|))
  {
    var s := a + x + b;
    assert forall k :: 0 <= k < 8 ==> s[i + k] == m[k];
    assert forall k :: i < k < i + 8 ==> s[k] == m[k - i];
    assert s[|a|] == ESC && s[i] == ESC;
    assert forall k :: |a| < k < |a| + |x| ==> s[k] == x[k - |a|];
    if i < |a| {
      assert a[i..i + 8] == s[i..i + 8];
    } else if i > |a| {
      assert b[i - |a| - |x|..][..8] == s[i..i + 8];
    }
  }

  /** What the shim writes around any clean output is marked. */
  lemma ShimStreamIsMarked(n1: seq<byte>, n2: seq<byte>, n3: seq<byte>, code: int)
    requires Clean(n1) && Clean(n2) && Clean(n3) && -0x8000_0000 <= code < 0x8000_0000
    ensures var r := |n1|; var e := r + 8 + |n2|;
      Marked(n1 + READY + (n2 + ExitMarker(code) + n3), r, e, e + |ExitMarker(code)|, code)
  {
    hide ExitCode, CodeText, OccursAt, ExitMarker;
    var text := CodeText(code);
    var x := ExitMarker(code);
    assert x == EXIT_PREFIX + text + [BEL] by { ExitMarkerIs(code); }
    CodeIsRead(code);
    CodeIsShort(code);
    ShimPositions(n1, n2, text, n3);
    var s := n1 + READY + (n2 + x + n3);
    forall i: nat
      ensures OccursAt(s, READY, i) <==> i == |n1|
      ensures OccursAt(s, EXIT_PREFIX, i) <==> i == |n1| + 8 + |n2|
    {
      OnlyThere(n1, n2, n3, x, READY, i);
      OnlyThere(n1, n2, n3, x, EXIT_PREFIX, i);
    }
  }

  lemma ExitMarkerIs(code: int)
    ensures ExitMarker(code) == EXIT_PREFIX + CodeText(code) + [BEL]
  {}

  /** Where the parts of the stream are. */
  lemma ShimPositions(n1: seq<byte>, n2: seq<byte>, text: seq<byte>, n3: seq<byte>)
    ensures var x := EXIT_PREFIX + text + [BEL];
      var s := n1 + READY + (n2 + x + n3);
      var e := |n1| + 8 + |n2|;
      && OccursAt(s, READY, |n1|) && !OccursAt(s, EXIT_PREFIX, |n1|)
      && OccursAt(s, EXIT_PREFIX, e) && !OccursAt(s, READY, e)
      && s[e + 8..e + |x| - 1] == text && s[e + |x| - 1] == BEL && e + |x| <= |s|
  {
    var x := EXIT_PREFIX + text + [BEL];
    var s := n1 + READY + (n2 + x + n3);
    var e := |n1| + 8 + |n2|;
    assert s[|n1|..|n1| + 8] == READY;
    assert s == (n1 + READY + n2) + x + n3;
    assert s[e..e + 8] == EXIT_PREFIX;
    assert s[e + 8..e + |x| - 1] == text;
    assert READY[6] != EXIT_PREFIX[6];
    assert s[|n1|..|n1| + 8][6] != EXIT_PREFIX[6] && s[e..e + 8][6] != READY[6];
  }

  lemma OnlyThere(n1: seq<byte>, n2: seq<byte>, n3: seq<byte>, x: seq<byte>, m: seq<byte>, i: nat)
    requires Clean(n1) && Clean(n2) && Clean(n3) && (m == READY || m == EXIT_PREFIX)
    requires x != [] && x[0] == ESC && forall k :: 1 <= k < |x| ==> x[k] != ESC
    ensures OccursAt(n1 + READY + (n2 + x + n3), m, i) ==> i == |n1| || i == |n1| + 8 + |n2|
  {
    var t := n2 + x + n3;
    if OccursAt(n1 + READY + t, m, i) {
      OccursAround(n1, READY, t, m, i);
      if i >= |n1| + 8 {
        OccursAround(n2, x, n3, m, i - |n1| - 8);
      }
    }
  }

  /** A ready marker alone in clean bytes. */
  lemma ShimReadyIsMarked(n1: seq<byte>, n2: seq<byte>, code: int)
    requires Clean(n1) && Clean(n2)
    ensures var w := n1 + READY + n2; Marked(w, |n1|, |w|, |w| + 9, code)
  {
    hide OccursAt, Clean, ExitCode;
    var w := n1 + READY + n2;
    MarkerAt(n1, READY, [], n2);
    forall i: nat
      ensures OccursAt(w, READY, i) ==> i == |n1|
      ensures OccursAt(w, EXIT_PREFIX, i) ==> i == |n1|
    {
      OnlyHere(n1, READY, n2, READY, i);
      OnlyHere(n1, READY, n2, EXIT_PREFIX, i);
    }
  }

  /** An exit marker alone in clean bytes. */
  lemma ShimExitIsMarked(n1: seq<byte>, n2: seq<byte>, code: int)
    requires Clean(n1) && Clean(n2) && -0x8000_0000 <= code < 0x8000_0000
    ensures Marked(n1 + ExitMarker(code) + n2, -8, |n1|, |n1| + |ExitMarker(code)|, code)
  {
    hide ExitCode, CodeText, OccursAt, ExitMarker, Clean;
    var text := CodeText(code);
    var x := ExitMarker(code);
    assert x == EXIT_PREFIX + text + [BEL] by { ExitMarkerIs(code); }
    CodeIsRead(code);
    var w := n1 + x + n2;
    var stop := |n1| + |x|;
    MarkerAt(n1, EXIT_PREFIX, text + [BEL], n2);
    assert x == EXIT_PREFIX + (text + [BEL]);
    assert w[|n1| + 8..stop - 1] == text && w[stop - 1] == BEL;
    assert forall k :: |n1| + 8 <= k < stop - 1 ==> w[k] == text[k - |n1| - 8];
    forall i: nat
      ensures OccursAt(w, READY, i) ==> i == |n1|
      ensures OccursAt(w, EXIT_PREFIX, i) ==> i == |n1|
    {
      OnlyHere(n1, x, n2, READY, i);
      OnlyHere(n1, x, n2, EXIT_PREFIX, i);
    }
  }

  /** A marker stands where it stands, and the other one does not. */
  lemma MarkerAt(n1: seq<byte>, m: seq<byte>, text: seq<byte>, n2: seq<byte>)
    requires m == READY || m == EXIT_PREFIX
    ensures var w := n1 + (m + text) + n2;
      OccursAt(w, m, |n1|) && !OccursAt(w, if m == READY then EXIT_PREFIX else READY, |n1|)
    ensures text == [] ==> n1 + (m + text) + n2 == n1 + m + n2
  {
    var w := n1 + (m + text) + n2;
    assert w[|n1|..|n1| + 8] == m;
    assert w[|n1|..|n1| + 8][6] == m[6] && READY[6] != EXIT_PREFIX[6];
    assert text == [] ==> m + text == m;
  }

  lemma OnlyHere(n1: seq<byte>, x: seq<byte>, n2: seq<byte>, m: seq<byte>, i: nat)
    requires Clean(n1) && Clean(n2) && (m == READY || m == EXIT_PREFIX)
    requires x != [] && x[0] == ESC && forall k :: 1 <= k < |x| ==> x[k] != ESC
    ensures OccursAt(n1 + x + n2, m, i) ==> i == |n1|
  {
    if OccursAt(n1 + x + n2, m, i) {
      OccursAround(n1, x, n2, m, i);
    }
  }

  // ---- the scanner on such a stream ------------------------------------

  const WINDOW := Window(MAX_BUFFER, KEEP)

  /** A part of the stream has the marker where the stream has it. */
  lemma FindInPart(s: seq<byte>, m: seq<byte>, at: int, lo: nat, hi: nat)
    requires lo <= hi <= |s| && |m| == 8
    requires forall i: nat :: OccursAt(s, m, i) <==> i == at && at + 8 <= |s|
    ensures Find(s[lo..hi], m) == if lo <= at && at + 8 <= hi then Some(at - lo) else None
  {
    var p := s[lo..hi];
    FindFinds(p, m);
    forall i: nat
      ensures OccursAt(p, m, i) <==> i + 8 <= hi - lo && lo + i == at
    {
      OccursInPart(s, m, lo, hi, i);
    }
    assert lo <= at && at + 8 <= hi ==> OccursAt(p, m, at - lo);
  }

  /** The exit code is read when the bell behind it has come. */
  lemma CodeInPart(s: seq<byte>, e: nat, stop: nat, code: int, hi: nat)
    requires e + 8 < stop && e + 8 <= hi <= |s|
    requires forall k :: e + 8 <= k < stop - 1 && k < |s| ==> s[k] != BEL
    requires stop <= |s| ==> s[stop - 1] == BEL && ExitCode(s[e + 8..stop - 1]) == code
    ensures var after := s[e + 8..hi];
      match FindByte(after, BEL)
      case None => hi < stop
      case Some(end) => stop <= hi && ExitCode(after[..end]) == code && after[end + 1..] == s[stop..hi]
  {
    hide FindByte, ExitCode;
    var after := s[e + 8..hi];
    if stop <= hi {
      var text := s[e + 8..stop - 1];
      assert BEL !in text;
      assert after == text + [BEL] + s[stop..hi];
      FindByteFinds(text, BEL, s[stop..hi]);
      assert after[..|text|] == text && after[|text| + 1..] == s[stop..hi];
    } else {
      assert BEL !in after;
      FindByteFinds(after, BEL, []);
    }
  }

  /** What a pass over a part of the stream comes to first. */
  lemma MarkInPart(s: seq<byte>, r: int, e: nat, stop: nat, code: int, lo: nat, hi: nat)
    requires Marked(s, r, e, stop, code) && lo <= hi <= |s|
    ensures NextMark(s[lo..hi])
      == if lo <= r && r + 8 <= hi then ReadyMark(s[r + 8..hi])
         else if lo <= e && stop <= hi then ExitMark(code, s[stop..hi])
         else Nothing
  {
    hide Find, FindByte, ExitCode, NextMark, OccursAt;
    var p := s[lo..hi];
    FindInPart(s, READY, r, lo, hi);
    FindInPart(s, EXIT_PREFIX, e, lo, hi);
    MarkIs(p);
    if lo <= r && r + 8 <= hi {
      assert p[r - lo + 8..] == s[r + 8..hi];
    } else if lo <= e && e + 8 <= hi {
      assert p[e - lo + 8..] == s[e + 8..hi];
      CodeInPart(s, e, stop, code, hi);
    }
  }

  /** The lifecycle when the given markers have been seen as well. */
  function Seen(life: Lifecycle, ready: bool, exit: bool, code: int): Lifecycle {
    Lifecycle(life.ready || ready, if exit && life.exit.None? then Some(code) else life.exit)
  }

  function Told(life: Lifecycle, ready: bool, exit: bool, code: int): seq<Event> {
    (if ready && !life.ready then [ShimReady] else []) + (if exit && life.exit.None? then [ShimExit(code)] else [])
  }

  /** One call, with the part of the stream from `lo` on in buffer and chunk, however
      long it is: a marker is seen exactly when it is complete and stands in what is
      left after the cut; and what is kept is what is behind it. */
  lemma {:induction false} OneCall(s: seq<byte>, r: int, e: nat, stop: nat, code: int,
      lo: nat, hi: nat, life: Lifecycle)
    requires Marked(s, r, e, stop, code) && lo <= hi <= |s|
    ensures var k := Kept(WINDOW, lo, hi);
      var ready, exit := k <= r && r + 8 <= hi, k <= e && stop <= hi;
      ScanLoop(s[lo..hi], life)
        == Scan(s[if exit then stop else if ready then r + 8 else k..hi],
                Seen(life, ready, exit, code), Told(life, ready, exit, code))
    decreases hi - lo
  {
    hide NextMark, ScanLoop, Bound, Marked, Seen, Told, See, Tell;
    MarkedOrder(s, r, e, stop, code);
    var k := Kept(WINDOW, lo, hi);
    BoundIs(s[lo..hi]);
    assert Bound(s[lo..hi]) == s[k..hi];
    MarkInPart(s, r, e, stop, code, k, hi);
    ScanIs(s[lo..hi], life);
    var f := NextMark(s[k..hi]);
    var exit := k <= e && stop <= hi;
    if k <= r && r + 8 <= hi {
      OneCall(s, r, e, stop, code, r + 8, hi, See(life, f));
      ThenReady(life, f.rest, exit, code);
    } else if exit {
      OneCall(s, r, e, stop, code, stop, hi, See(life, f));
      ThenExit(life, code, f.rest);
    } else {
      NoneSeen(life, code);
    }
  }

  lemma ThenReady(life: Lifecycle, rest: seq<byte>, exit: bool, code: int)
    ensures var f := ReadyMark(rest);
      && Seen(See(life, f), false, exit, code) == Seen(life, true, exit, code)
      && Tell(life, f) + Told(See(life, f), false, exit, code) == Told(life, true, exit, code)
  {}

  lemma ThenExit(life: Lifecycle, code: int, rest: seq<byte>)
    ensures var f := ExitMark(code, rest);
      && Seen(See(life, f), false, false, code) == Seen(life, false, true, code)
      && Tell(life, f) + Told(See(life, f), false, false, code) == Told(life, false, true, code)
  {}

  lemma NoneSeen(life: Lifecycle, code: int)
    ensures Seen(life, false, false, code) == life && Told(life, false, false, code) == []
  {}

  lemma MarkedOrder(s: seq<byte>, r: int, e: nat, stop: nat, code: int)
    requires Marked(s, r, e, stop, code)
    ensures r + 8 <= e && e + 8 < stop
  {}

  /** Is the marker from `from` to `stop` seen, behind a ready marker at `r`, when the
      buffer holds the bytes from `lo` to `m` and chunks of these lengths follow? */
  predicate Sees(lo: nat, m: nat, lens: seq<nat>, r: int, from: int, stop: int)
    requires lo <= m
  {
    IsSeen(WINDOW, lo, m, lens, r, r + 8, from, stop)
  }

  /** Any chunks whatever, long or short: which of the two markers are seen is decided
      by the lengths of the chunks, and each that is gives its one event. */
  lemma {:induction false} AnyChunks(s: seq<byte>, r: int, e: nat, stop: nat, code: int,
      lo: nat, m: nat, chunks: seq<seq<byte>>, life: Lifecycle)
    requires Marked(s, r, e, stop, code) && lo <= m <= |s| && s[m..] == Concat(chunks)
    ensures var all := ScanAll(s[lo..m], life, chunks);
      var ready, exit := Sees(lo, m, Lens(chunks), r, r, r + 8), Sees(lo, m, Lens(chunks), r, e, stop);
      all.life == Seen(life, ready, exit, code) && all.events == Told(life, ready, exit, code)
    decreases |chunks|
  {
    hide ScanLoop, Marked, Concat, Seen, Told;
    MarkedOrder(s, r, e, stop, code);
    if chunks == [] {
      NoneSeen(life, code);
    } else {
      var hi := m + |chunks[0]|;
      NextChunk(s, m, lo, chunks);
      OneCall(s, r, e, stop, code, lo, hi, life);
      var k := Kept(WINDOW, lo, hi);
      var ready, exit := k <= r && r + 8 <= hi, k <= e && stop <= hi;
      var next := if exit then stop else if ready then r + 8 else k;
      AnyChunks(s, r, e, stop, code, next, hi, chunks[1..], Seen(life, ready, exit, code));
      assert Lens(chunks)[1..] == Lens(chunks[1..]);
      var lens := Lens(chunks[1..]);
      SeenThen(life, ready, exit, Sees(next, hi, lens, r, r, r + 8), Sees(next, hi, lens, r, e, stop), code);
    }
  }

  /** What one call sees, and what the later ones see. */
  lemma SeenThen(life: Lifecycle, ready: bool, exit: bool, laterReady: bool, laterExit: bool, code: int)
    requires exit ==> !laterReady
    ensures var next := Seen(life, ready, exit, code);
      && Seen(next, laterReady, laterExit, code) == Seen(life, ready || laterReady, exit || laterExit, code)
      && Told(life, ready, exit, code) + Told(next, laterReady, laterExit, code)
        == Told(life, ready || laterReady, exit || laterExit, code)
  {}

  lemma NextChunk(s: seq<byte>, m: nat, lo: nat, chunks: seq<seq<byte>>)
    requires lo <= m <= |s| && chunks != [] && s[m..] == Concat(chunks)
    ensures var hi := m + |chunks[0]|;
      hi <= |s| && s[hi..] == Concat(chunks[1..]) && s[lo..m] + chunks[0] == s[lo..hi]
  {
    var c := chunks[0];
    var hi := m + |c|;
    assert |s[m..]| == |c| + |Concat(chunks[1..])|;
    assert s[m..][|c|..] == s[hi..];
    assert s[m..][..|c|] == s[m..hi];
  }

  // ---- what comes of the shim's markers --------------------------------

  /** Clean output around the two markers of the shim, in any chunks whatever: the
      lengths of the chunks decide which events there are, in their order and with
      the exit code that was written. */
  lemma ShimIsSeen(n1: seq<byte>, n2: seq<byte>, n3: seq<byte>, code: int, chunks: seq<seq<byte>>)
    requires Clean(n1) && Clean(n2) && Clean(n3) && -0x8000_0000 <= code < 0x8000_0000
    requires Concat(chunks) == n1 + READY + (n2 + ExitMarker(code) + n3)
    ensures var r := |n1|;
      var e := r + 8 + |n2|;
      var ready := Sees(0, 0, Lens(chunks), r, r, r + 8);
      var exit := Sees(0, 0, Lens(chunks), r, e, e + |ExitMarker(code)|);
      var all := ScanAll([], Lifecycle(false, None), chunks);
      && all.life == Lifecycle(ready, if exit then Some(code) else None)
      && all.events == (if ready then [ShimReady] else []) + (if exit then [ShimExit(code)] else [])
  {
    hide Clean, Marked, ExitMarker, ScanAll, Sees, Concat;
    var s := Concat(chunks);
    ShimStreamIsMarked(n1, n2, n3, code);
    var e := |n1| + 8 + |n2|;
    assert s[0..] == s && s[0..0] == [];
    AnyChunks(s, |n1|, e, e + |ExitMarker(code)|, code, 0, 0, chunks, Lifecycle(false, None));
  }

  /** All of it in one chunk of any length: each marker is seen if and only if the chunk
      fits the buffer or the marker stands in the last 256 bytes. */
  lemma ShimInOneChunk(n1: seq<byte>, n2: seq<byte>, n3: seq<byte>, code: int)
    requires Clean(n1) && Clean(n2) && Clean(n3) && -0x8000_0000 <= code < 0x8000_0000
    ensures var x := n2 + ExitMarker(code) + n3;
      var w := n1 + READY + x;
      var all := ScanLoop(w, Lifecycle(false, None));
      && (all.life.ready <==> |w| <= MAX_BUFFER || |READY + x| <= KEEP)
      && all.life.exit == if |w| <= MAX_BUFFER || |ExitMarker(code) + n3| <= KEEP then Some(code) else None
  {
    hide Clean, Marked, ExitMarker, ScanLoop;
    ShimStreamIsMarked(n1, n2, n3, code);
    var w := n1 + READY + (n2 + ExitMarker(code) + n3);
    var e := |n1| + 8 + |n2|;
    assert w[0..|w|] == w;
    OneCall(w, |n1|, e, e + |ExitMarker(code)|, code, 0, |w|, Lifecycle(false, None));
  }

  /** A ready marker alone, in buffer and chunk together. */
  lemma LongChunk(n1: seq<byte>, n2: seq<byte>)
    requires Clean(n1) && Clean(n2)
    ensures var w := n1 + READY + n2;
      (|w| <= MAX_BUFFER || |READY + n2| <= KEEP) <==> ScanLoop(w, Lifecycle(false, None)).life.ready
  {
    hide Clean, Marked, ScanLoop;
    ShimReadyIsMarked(n1, n2, 0);
    var w := n1 + READY + n2;
    assert w[0..|w|] == w;
    OneCall(w, |n1|, |w|, |w| + 9, 0, 0, |w|, Lifecycle(false, None));
  }

  /** An exit marker alone, in buffer and chunk together. */
  lemma LongChunkExit(n1: seq<byte>, n2: seq<byte>, code: int, life: Lifecycle)
    requires Clean(n1) && Clean(n2) && -0x8000_0000 <= code < 0x8000_0000 && life.exit.None?
    ensures var w := n1 + ExitMarker(code) + n2;
      ScanLoop(w, life).life.exit
        == if |w| <= MAX_BUFFER || |ExitMarker(code) + n2| <= KEEP then Some(code) else None
  {
    hide Clean, Marked, ExitMarker, ScanLoop;
    ShimExitIsMarked(n1, n2, code);
    var w := n1 + ExitMarker(code) + n2;
    assert w[0..|w|] == w;
    OneCall(w, -8, |n1|, |n1| + |ExitMarker(code)|, code, 0, |w|, life);
  }

  /** The longest chunk after which a marker that has begun, in its first 19 bytes, is
      still whole. */
  const SAFE_CHUNK := KEEP - 19

  lemma MarkerLength(code: int)
    requires -0x8000_0000 <= code < 0x8000_0000
    ensures 9 <= |ExitMarker(code)| <= 20
  {
    hide CodeText;
    CodeIsShort(code);
  }

  /** Any clean output around the two markers of the shim, cut into chunks of at most
      237 bytes anywhere, gives the two events in their order and the exit code that
      was written. */
  lemma MarkersAreSeen(n1: seq<byte>, n2: seq<byte>, n3: seq<byte>, code: int, chunks: seq<seq<byte>>)
    requires Clean(n1) && Clean(n2) && Clean(n3) && -0x8000_0000 <= code < 0x8000_0000
    requires Concat(chunks) == n1 + READY + (n2 + ExitMarker(code) + n3)
    requires forall i :: 0 <= i < |chunks| ==> |chunks[i]| <= SAFE_CHUNK
    ensures var all := ScanAll([], Lifecycle(false, None), chunks);
      all.life == Lifecycle(true, Some(code)) && all.events == [ShimReady, ShimExit(code)]
  {
    hide Clean, ExitMarker, ScanAll, Concat, IsSeen;
    ShimIsSeen(n1, n2, n3, code, chunks);
    SumOfLens(chunks);
    MarkerLength(code);
    var r := |n1|;
    var e := r + 8 + |n2|;
    ShortChunksSee(WINDOW, 0, 0, Lens(chunks), r, r + 8, r, r + 8, 20);
    ShortChunksSee(WINDOW, 0, 0, Lens(chunks), r, r + 8, e, e + |ExitMarker(code)|, 20);
  }

  /** One byte more is too much. Let the exit marker of an 11-letter code come all but
      its bell, behind enough clean output, in any chunks; if the last chunk then has
      238 bytes the code is never read. */
  lemma SafeChunkIsLongest(n1: seq<byte>, n2: seq<byte>, code: int, life: Lifecycle, front: seq<seq<byte>>)
    requires Clean(n1) && Clean(n2) && -0x8000_0000 <= code < 0x8000_0000 && |CodeText(code)| == 11
    requires life.exit.None?
    requires MAX_BUFFER - SAFE_CHUNK - 19 <= |n1| <= MAX_BUFFER - 19 && |n2| == SAFE_CHUNK
    requires Concat(front) == n1 + ExitMarker(code)[..19]
    ensures var last := [BEL] + n2;
      && |last| == SAFE_CHUNK + 1 && Concat(front) + last == n1 + ExitMarker(code) + n2
      && ScanAll([], life, front + [last]).life.exit == None
  {
    hide Clean, CodeText, ScanAll, Concat, Marked;
    var x := ExitMarker(code);
    var w := n1 + x + n2;
    var last := [BEL] + n2;
    assert |x| == 20 && x == x[..19] + [BEL];
    assert w == n1 + x[..19] + last;
    ConcatOneMore(front, last);
    assert w[0..] == w && w[0..0] == [];
    ShimExitIsMarked(n1, n2, code);
    AnyChunks(w, -8, |n1|, |n1| + 20, code, 0, 0, front + [last], life);
    SumOfLens(front);
    assert Lens(front + [last]) == Lens(front) + [|last|];
    FullAndMissed(0, Lens(front), |n1|);
  }

  /** A buffer that is filled without a cut, and the chunk that is one byte too long. */
  lemma {:induction false} FullAndMissed(m: nat, lens: seq<nat>, from: nat)
    requires m + Sum(lens) == from + 19 && MAX_BUFFER - SAFE_CHUNK <= from + 19 <= MAX_BUFFER
    ensures !Sees(0, m, lens + [SAFE_CHUNK + 1], -8, from, from + 20)
    decreases |lens|
  {
    if lens != [] {
      assert (lens + [SAFE_CHUNK + 1])[1..] == lens[1..] + [SAFE_CHUNK + 1];
      FullAndMissed(m + lens[0], lens[1..], from);
    }
  }
}
