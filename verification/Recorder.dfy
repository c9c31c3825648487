/** The recorder: turns terminal output, as it arrives in chunks, into text events. */
module Recorder {
  import opened Utf8

  // ---- validating against decoding -------------------------------------

  /** What the outcome of one validation of `s` says about its decoding. */
  ghost predicate Explains(v: Validity, s: seq<byte>) {
    match v
    case Valid => Decode(s) == (s, [])
    case Error(k, AtEnd) => k <= |s| && IsText(s[..k]) && Decode(s) == (s[..k], s[k..])
    case Error(k, Skip(n)) =>
      && k + n <= |s| && IsText(s[..k])
      && Decode(s) == (s[..k] + REPLACEMENT + Decode(s[k + n..]).0, Decode(s[k + n..]).1)
  }

  lemma {:induction false} ValidateIsDecode(s: seq<byte>)
    ensures Explains(Validate(s), s)
    decreases |s|
  {
    hide Decode;
    if s == [] {
      DecodeNothing(s);
    } else {
      match ReadChar(s)
      case Incomplete =>
        DecodeNothing(s);
        assert s[..0] == [] && s[0..] == s;
      case Invalid(n) =>
        DecodeFirst(s);
        assert s[..0] == [] && [] + REPLACEMENT == REPLACEMENT;
      case Char(n) =>
        ValidateIsDecode(s[n..]);
        OneMoreChar(s, n, Validate(s[n..]));
    }
  }

  lemma OneMoreChar(s: seq<byte>, n: nat, v: Validity)
    requires s != [] && ReadChar(s) == Char(n) && Explains(v, s[n..])
    ensures Explains(match v case Valid => Valid case Error(k, e) => Error(n + k, e), s)
  {
    hide Decode, ReadChar, Validate;
    DecodeFirst(s);
    var t := s[n..];
    assert Piece(s) == s[..n] && s == s[..n] + t;
    FirstCharIsText(s);
    match v
    case Valid =>
    case Error(k, e) =>
      TextAppend(s[..n], t[..k]);
      assert s[..n + k] == s[..n] + t[..k];
      match e {
        case AtEnd => assert s[n + k..] == t[k..];
        case Skip(l) =>
          assert s[n + k + l..] == t[k + l..];
          var d := Decode(t[k + l..]).0;
          assert s[..n] + (t[..k] + REPLACEMENT + d) == s[..n + k] + REPLACEMENT + d;
      }
  }

  // ---- the writer ------------------------------------------------------

  /** What becomes of an event line: it is in the file, it is not, or it is handed over
      but the flush behind it fails. */
  datatype Disk = Works | LineFails | FlushFails

  class Writer {
    /** Bytes of a character that is not complete yet. */
    var pending: seq<byte>
    /** The text of the events handed to the file, in order. */
    var events: seq<seq<byte>>
    var lastSeq: nat
    var written: nat
    var ioFailed: bool
    const maxBytes: nat

    /** Every byte that came in, and the part of it that went to the decoder. */
    ghost var received: seq<byte>
    ghost var decoded: seq<byte>

    ghost predicate Valid()
      reads this
    {
      && lastSeq == |received|
      && decoded <= received
      && Concat(events) <= Decode(decoded).0
      && (!ioFailed ==> (Concat(events), pending) == Decode(decoded))
      && (decoded != received ==> ioFailed || (maxBytes > 0 && written >= maxBytes))
      && |pending| <= 3
      && (forall i :: 0 <= i < |events| ==> IsText(events[i]))
    }

    constructor (maxBytes: nat)
      ensures Valid() && received == [] && events == [] && !ioFailed && this.maxBytes == maxBytes
    {
      this.maxBytes := maxBytes;
      pending, events, lastSeq, written, ioFailed := [], [], 0, 0, false;
      received, decoded := [], [];
    }

    /** Decodes a chunk after what was left open, and leaves open what the end cuts off. */
    method DecodeChunk(chunk: seq<byte>) returns (out: seq<byte>)
      modifies this`pending
      ensures (out, pending) == Decode(old(pending) + chunk)
      ensures IsText(out)
    {
      hide ReadChar, Decode, Validate;
      var buf := pending + chunk;
      pending := [];
      out := [];
      var rest := buf;
      DecodedIsText(buf);
      assert out + Decode(rest).0 == Decode(rest).0;
      while true
        invariant pending == []
        invariant var d := Decode(rest); Decode(buf) == (out + d.0, d.1)
        decreases |rest|
      {
        ValidateIsDecode(rest);
        match Validate(rest)
        case Valid =>
          out := out + rest;
          break;
        case Error(k, errorLen) =>
          TextIsKept(rest[..k]);
          match errorLen {
            case Skip(n) =>
              ghost var e := Decode(rest[k + n..]);
              assert out + (rest[..k] + REPLACEMENT + e.0) == out + Lossy(rest[..k]) + REPLACEMENT + e.0;
              out := out + Lossy(rest[..k]) + REPLACEMENT;
              rest := rest[k + n..];
            case AtEnd =>
              out := out + Lossy(rest[..k]);
              pending := rest[k..];
              break;
          }
      }
    }

    /** One chunk arrives; `lineLen` is the length of the event line it makes. */
    method Receive(chunk: seq<byte>, lineLen: nat, disk: Disk)
      requires Valid()
      modifies this
      ensures Valid() && received == old(received) + chunk
      ensures if old(ioFailed) || (maxBytes > 0 && old(written) >= maxBytes) then
                written == old(written) && events == old(events) && pending == old(pending) && ioFailed == old(ioFailed)
              else
                var d := Decode(old(pending) + chunk);
                && pending == d.1 && (ioFailed <==> !disk.Works?)
                && (if disk.LineFails? then written == old(written) && events == old(events)
                    else written == old(written) + lineLen + 1 && events == old(events) + [d.0])
      ensures |pending| <= 3
    {
      hide ReadChar, Decode, Validate;
      lastSeq := lastSeq + |chunk|;
      received := received + chunk;
      if ioFailed {
        return;
      }
      if maxBytes > 0 && written >= maxBytes {
        return;
      }
      DecodeInTwo(decoded, chunk);
      var data := DecodeChunk(chunk);
      decoded := decoded + chunk;
      if disk.LineFails? {
        ioFailed := true;
        return;
      }
      ConcatOneMore(events, data);
      events := events + [data];
      written := written + lineLen + 1;
      if disk.FlushFails? {
        ioFailed := true;
      }
    }

    /** The channel closes; `tailOk` says whether a last line can be written. What was
        handed to the file then is a beginning of the decoding of everything that
        arrived, and all of it if the disk worked and the size cap was not reached. */
    method Finish(tailOk: bool) returns (last: nat)
      requires Valid()
      modifies this
      ensures last == |received| && received == old(received) && ioFailed == old(ioFailed)
      ensures Concat(events) <= Lossy(received)
      ensures !ioFailed && tailOk && (maxBytes == 0 || old(written) < maxBytes) ==> Concat(events) == Lossy(received)
      ensures forall i :: 0 <= i < |events| ==> IsText(events[i])
    {
      hide ReadChar, Decode, Validate;
      ghost var was := events;
      LossyIsDecode(decoded);
      DecodeInTwo(decoded, received[|decoded|..]);
      LossyIsDecode(received);
      assert decoded + received[|decoded|..] == received;
      assert Concat(was) <= Decode(received).0;
      if pending != [] && !ioFailed && (maxBytes == 0 || written < maxBytes) {
        var data := Lossy(pending);
        LossyIsText(pending);
        if tailOk {
          ConcatOneMore(events, data);
          events := events + [data];
        }
      }
      last := lastSeq;
    }
  }

  // ---- every way of cutting the output into chunks ---------------------

  /** The texts of the events the chunks make, and the bytes left open after them. */
  function DecodeEach(chunks: seq<seq<byte>>): (seq<seq<byte>>, seq<byte>) {
    if chunks == [] then ([], [])
    else
      var front := DecodeEach(chunks[..|chunks| - 1]);
      var d := Decode(front.1 + chunks[|chunks| - 1]);
      (front.0 + [d.0], d.1)
  }

  lemma {:induction false} EachIsWhole(chunks: seq<seq<byte>>)
    ensures (Concat(DecodeEach(chunks).0), DecodeEach(chunks).1) == Decode(Concat(chunks))
  {
    hide ReadChar, Decode;
    if chunks == [] {
      DecodeNothing([]);
    } else {
      var front := chunks[..|chunks| - 1];
      EachIsWhole(front);
      DecodeInTwo(Concat(front), chunks[|chunks| - 1]);
      ConcatOneMore(DecodeEach(front).0, Decode(DecodeEach(front).1 + chunks[|chunks| - 1]).0);
      ConcatOneMore(front, chunks[|chunks| - 1]);
      assert chunks == front + [chunks[|chunks| - 1]];
    }
  }

  /** However the output is cut into chunks, the events and the open end say what
      decoding all of it at once says; at most three bytes are ever open; and text
      comes through unchanged, with nothing open at its end. */
  lemma AnySplit(chunks: seq<seq<byte>>)
    ensures var r := DecodeEach(chunks);
      && Concat(r.0) + Lossy(r.1) == Lossy(Concat(chunks))
      && |r.1| <= 3
      && (IsText(Concat(chunks)) ==> Concat(r.0) == Concat(chunks) && r.1 == [])
  {
    hide ReadChar, Decode, Lossy;
    EachIsWhole(chunks);
    LossyIsDecode(Concat(chunks));
    if IsText(Concat(chunks)) {
      TextIsKept(Concat(chunks));
    }
  }

  lemma LossyIsText(s: seq<byte>)
    ensures IsText(Lossy(s))
  {
    LossyIsDecode(s);
    DecodedIsText(s);
    var open := Decode(s).1;
    if open != [] {
      CharIsText(REPLACEMENT);
    }
    TextAppend(Decode(s).0, Lossy(open));
  }
}
