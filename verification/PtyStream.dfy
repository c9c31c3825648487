/** The byte stream of one terminal: numbered chunks, the newest of them kept for
    subscribers that come back, the oldest given up when there are too many bytes. */
module Stream {
  import opened Utf8

  const MAX_BUFFER_BYTES := 1024 * 1024
  const SEQ_MAX := 0xFFFF_FFFF

  type Chunk = seq<byte>

  // ---- what the buffer should hold -------------------------------------

  function Total(h: seq<Chunk>): nat {
    if h == [] then 0 else |h[0]| + Total(h[1..])
  }

  /** The kept part of history `h` starts at `k`: it is the longest end of `h` that
      fits, or the newest chunk alone if not even that does. */
  predicate IsKept(h: seq<Chunk>, k: nat) {
    if h == [] then k == 0
    else
      && k < |h|
      && (Total(h[k..]) <= MAX_BUFFER_BYTES || k == |h| - 1)
      && forall j :: 0 <= j < k ==> Total(h[j..]) > MAX_BUFFER_BYTES
  }

  function KeptFrom(h: seq<Chunk>): (k: nat)
    ensures IsKept(h, k) && (h != [] ==> k < |h|)
  {
    if h == [] then 0 else TrimFrom(h, 0)
  }

  function TrimFrom(h: seq<Chunk>, k: nat): (r: nat)
    requires k < |h| && forall j :: 0 <= j < k ==> Total(h[j..]) > MAX_BUFFER_BYTES
    ensures IsKept(h, r)
    decreases |h| - k
  {
    if k + 1 == |h| || Total(h[k..]) <= MAX_BUFFER_BYTES then k else TrimFrom(h, k + 1)
  }

  lemma {:induction false} TotalAppend(h: seq<Chunk>, c: Chunk)
    ensures Total(h + [c]) == Total(h) + |c|
  {
    if h != [] {
      assert (h + [c])[1..] == h[1..] + [c];
      TotalAppend(h[1..], c);
    } else {
      assert h + [c] == [c];
    }
  }

  lemma TotalDrop(h: seq<Chunk>, k: nat)
    requires k < |h|
    ensures Total(h[k..]) == |h[k]| + Total(h[k + 1..])
  {
    assert h[k..][1..] == h[k + 1..];
  }

  /** There is only one kept part. */
  lemma KeptIsUnique(h: seq<Chunk>, k: nat)
    requires k < |h| && (Total(h[k..]) <= MAX_BUFFER_BYTES || k == |h| - 1)
    requires forall j :: 0 <= j < k ==> Total(h[j..]) > MAX_BUFFER_BYTES
    ensures k == KeptFrom(h)
  {
    assert IsKept(h, k) && IsKept(h, KeptFrom(h));
  }

  /** What was given up stays given up. */
  lemma KeptMoves(h: seq<Chunk>, c: Chunk)
    ensures KeptFrom(h) <= KeptFrom(h + [c])
    ensures forall j :: 0 <= j < KeptFrom(h) ==> Total((h + [c])[j..]) > MAX_BUFFER_BYTES
  {
    var k := KeptFrom(h);
    forall j | 0 <= j < k
      ensures Total((h + [c])[j..]) > MAX_BUFFER_BYTES
    {
      assert (h + [c])[j..] == h[j..] + [c];
      TotalAppend(h[j..], c);
    }
    var n := KeptFrom(h + [c]);
    assert n < k ==> n != |h + [c]| - 1;
  }

  /** The number of the `i`th chunk: 32 bits, 0 left out. */
  function SeqOf(i: nat): nat { i % SEQ_MAX + 1 }

  /** Numbers start at 1, go up one by one to 2^32 - 1, and start at 1 again. */
  lemma NumbersMean(i: nat)
    ensures SeqOf(0) == 1 && 1 <= SeqOf(i) <= 0xFFFF_FFFF
    ensures SeqOf(i + 1) == if SeqOf(i) == 0xFFFF_FFFF then 1 else SeqOf(i) + 1
  {}

  lemma SeqNext(i: nat)
    ensures SeqOf(i + 1) == if SeqOf(i) == SEQ_MAX then 1 else SeqOf(i) + 1
    ensures i < SEQ_MAX ==> SeqOf(i) == i + 1
  {}

  // ---- the stream ------------------------------------------------------

  datatype Entry = Entry(number: nat, bytes: Chunk)

  datatype FetchResult = Fetched(entries: seq<Entry>) | Gap(currentSeq: nat)

  /** The answer to a subscriber that has everything up to number `after`. */
  function Answer(h: seq<Chunk>, after: nat): FetchResult {
    if after >= Newest(h) then Fetched([])
    else if after + 1 < SeqOf(KeptFrom(h)) then Gap(Newest(h))
    else Fetched(Later(h, KeptFrom(h), after))
  }

  /** The number before the next one. */
  function Newest(h: seq<Chunk>): nat { |h| % SEQ_MAX }

  /** The chunks from the `k`th on that have a number above `after`. */
  function Later(h: seq<Chunk>, k: nat, after: nat): seq<Entry>
    decreases |h| - k
  {
    if k >= |h| then []
    else (if SeqOf(k) > after then [Entry(SeqOf(k), h[k])] else []) + Later(h, k + 1, after)
  }

  /** The answer as it should be: nothing new, a gap if the next chunk was evicted, or
      all later chunks. */
  function Fetch(h: seq<Chunk>, after: nat): FetchResult {
    if after >= |h| then Fetched([])
    else if after < KeptFrom(h) then Gap(|h|)
    else Fetched(Numbered(h, after))
  }

  function Numbered(h: seq<Chunk>, from: nat): (r: seq<Entry>)
    requires from <= |h|
    ensures |r| == |h| - from
  {
    seq(|h| - from, i requires 0 <= i < |h| - from => Entry(from + i + 1, h[from + i]))
  }

  lemma {:induction false} LaterIsNumbered(h: seq<Chunk>, k: nat, after: nat)
    requires |h| < SEQ_MAX && k <= |h| && after <= |h|
    ensures Later(h, k, after) == Numbered(h, if k <= after then after else k)
    decreases |h| - k
  {
    if k < |h| {
      LaterIsNumbered(h, k + 1, after);
      if k >= after {
        assert Numbered(h, k) == [Entry(k + 1, h[k])] + Numbered(h, k + 1);
      }
    } else {
      assert Numbered(h, |h|) == [];
    }
  }

  /** It is so as long as the numbers have not wrapped. */
  lemma AnswerIsFetch(h: seq<Chunk>, after: nat)
    requires |h| < SEQ_MAX
    ensures Answer(h, after) == Fetch(h, after)
  {
    hide IsKept, Later, Numbered, Total;
    if KeptFrom(h) <= after < |h| {
      LaterIsNumbered(h, KeptFrom(h), after);
    }
  }

  lemma {:induction false} LaterHasNewest(h: seq<Chunk>, k: nat, after: nat)
    requires k < |h| && SeqOf(|h| - 1) > after
    ensures Later(h, k, after) != []
    decreases |h| - k
  {
    if k + 1 < |h| {
      LaterHasNewest(h, k + 1, after);
    }
  }

  /** For any number of appends: a subscriber is told that there is nothing new if and
      only if its cursor is not below the number of appends modulo 2^32 - 1. */
  lemma ToldNothing(h: seq<Chunk>, after: nat)
    ensures Answer(h, after) == Fetched([]) <==> after >= |h| % SEQ_MAX
  {
    hide IsKept, Later, Total;
    if after < |h| % SEQ_MAX {
      NewestNumber(|h|);
      LaterHasNewest(h, KeptFrom(h), after);
    }
  }

  lemma NewestNumber(n: nat)
    requires n % SEQ_MAX > 0
    ensures n > 0 && SeqOf(n - 1) == n % SEQ_MAX
  {}

  class PtyStream {
    var entries: seq<Entry>
    var totalBytes: nat
    var nextSeq: nat
    var closed: bool

    /** Every chunk ever appended. */
    ghost var history: seq<Chunk>

    ghost predicate Valid()
      reads this
    {
      && |entries| <= |history|
      && |history| - |entries| == KeptFrom(history)
      && Holds(|history| - |entries|)
      && nextSeq == SeqOf(|history|)
    }

    /** The entries are the history from `first` on, numbered and counted. */
    ghost predicate Holds(first: nat)
      reads this
    {
      && first + |entries| == |history|
      && totalBytes == Total(history[first..])
      && forall i :: 0 <= i < |entries| ==> entries[i] == Entry(SeqOf(first + i), history[first + i])
    }

    constructor ()
      ensures Valid() && history == [] && !closed
    {
      entries, totalBytes, nextSeq, closed := [], 0, 1, false;
      history := [];
    }

    method Append(bytes: Chunk) returns (number: nat)
      requires Valid()
      modifies this
      ensures Valid() && history == old(history) + [bytes] && closed == old(closed)
      ensures number == SeqOf(|old(history)|)
    {
      hide SeqOf, Total, IsKept, KeptFrom;
      ghost var first := |history| - |entries|;
      KeptMoves(history, bytes);
      TotalAppend(history[first..], bytes);
      assert (history + [bytes])[first..] == history[first..] + [bytes];
      SeqNext(|history|);

      number := nextSeq;
      nextSeq := if nextSeq == SEQ_MAX then 1 else nextSeq + 1;
      totalBytes := totalBytes + |bytes|;
      entries := entries + [Entry(number, bytes)];
      history := history + [bytes];
      while totalBytes > MAX_BUFFER_BYTES && |entries| > 1
        invariant |entries| >= 1 && Holds(first)
        invariant history == old(history) + [bytes] && closed == old(closed) && nextSeq == SeqOf(|history|)
        invariant forall j :: 0 <= j < first ==> Total(history[j..]) > MAX_BUFFER_BYTES
        decreases |entries|
      {
        TotalDrop(history, first);
        assert entries[0] == Entry(SeqOf(first), history[first]);
        totalBytes := totalBytes - |entries[0].bytes|;
        entries := entries[1..];
        first := first + 1;
      }
      KeptIsUnique(history, first);
    }

    method Close()
      requires Valid()
      modifies this`closed
      ensures Valid() && closed && history == old(history)
    {
      hide SeqOf, Total, KeptFrom;
      closed := true;
    }

    method Snapshot() returns (next: nat, oldest: nat, isClosed: bool)
      requires Valid()
      ensures isClosed == closed && next == SeqOf(|history|)
      ensures oldest == if history == [] then 0 else SeqOf(KeptFrom(history))
    {
      next, oldest, isClosed := nextSeq, if entries == [] then 0 else entries[0].number, closed;
    }

    method FetchSince(after: nat) returns (r: FetchResult)
      requires Valid()
      ensures r == Answer(history, after)
      ensures |history| < SEQ_MAX ==> r == Fetch(history, after)
      ensures r == Fetched([]) <==> after >= |history| % SEQ_MAX
    {
      hide Total, IsKept, KeptFrom, SeqOf, Later, Fetch, Newest;
      ghost var first := |history| - |entries|;
      NewestIs(history);
      ToldNothing(history, after);
      if |history| < SEQ_MAX {
        AnswerIsFetch(history, after);
      }
      var currentSeq := nextSeq - 1;
      if after >= currentSeq || entries == [] {
        return Fetched([]);
      }
      if after + 1 < entries[0].number {
        return Gap(currentSeq);
      }
      var out: seq<Entry> := [];
      for i := 0 to |entries|
        invariant out + Later(history, first + i, after) == Later(history, first, after)
      {
        LaterStep(history, first + i, after, out);
        if entries[i].number > after {
          out := out + [entries[i]];
        }
      }
      LaterEnd(history, after, out);
      return Fetched(out);
    }
  }

  lemma NewestIs(h: seq<Chunk>)
    ensures Newest(h) == SeqOf(|h|) - 1
    ensures h == [] ==> Newest(h) == 0
  {}

  lemma LaterIs(h: seq<Chunk>, k: nat, after: nat)
    requires k < |h|
    ensures Later(h, k, after)
      == (if SeqOf(k) > after then [Entry(SeqOf(k), h[k])] else []) + Later(h, k + 1, after)
  {}

  lemma LaterStep(h: seq<Chunk>, k: nat, after: nat, out: seq<Entry>)
    requires k < |h|
    ensures out + Later(h, k, after)
      == (if SeqOf(k) > after then out + [Entry(SeqOf(k), h[k])] else out) + Later(h, k + 1, after)
  {
    hide SeqOf, Later;
    LaterIs(h, k, after);
    var e := Entry(SeqOf(k), h[k]);
    var rest := Later(h, k + 1, after);
    if SeqOf(k) > after {
      assert out + ([e] + rest) == out + [e] + rest;
    } else {
      assert [] + rest == rest;
    }
  }

  lemma LaterEnd(h: seq<Chunk>, after: nat, out: seq<Entry>)
    ensures out + Later(h, |h|, after) == out
  {}

  // ---- a subscriber ----------------------------------------------------

  datatype Event = Append(bytes: Chunk) | Poll

  /** What a subscriber was told: a chunk, or that the chunks after `from` up to
      `to` are gone. */
  datatype Told = Got(entry: Entry) | Lost(from: nat, to: nat)

  datatype Subscriber = Subscriber(cursor: nat, log: seq<Told>)

  function Take(sub: Subscriber, entries: seq<Entry>): Subscriber
    decreases |entries|
  {
    if entries == [] then sub
    else Take(Subscriber(entries[0].number, sub.log + [Got(entries[0])]), entries[1..])
  }

  function PollOnce(h: seq<Chunk>, sub: Subscriber): Subscriber {
    match Answer(h, sub.cursor)
    case Fetched(entries) => Take(sub, entries)
    case Gap(current) => Subscriber(current, sub.log + [Lost(sub.cursor, current)])
  }

  function Run(h: seq<Chunk>, sub: Subscriber, events: seq<Event>): (seq<Chunk>, Subscriber)
    decreases |events|
  {
    if events == [] then (h, sub)
    else match events[0]
      case Append(bytes) => Run(h + [bytes], sub, events[1..])
      case Poll => Run(h, PollOnce(h, sub), events[1..])
  }

  /** The log leads from `from` to `to` without a step left out, back or twice: each
      chunk is the next one, and chunks are lost only from where they were evicted. */
  predicate Leads(h: seq<Chunk>, from: nat, log: seq<Told>, to: nat)
    decreases |log|
  {
    if log == [] then from == to
    else
      var front, last := log[..|log| - 1], log[|log| - 1];
      match last
      case Got(e) => 1 <= to <= |h| && e == Entry(to, h[to - 1]) && Leads(h, from, front, to - 1)
      case Lost(a, b) => a < b == to <= |h| && a < KeptFrom(h) && Leads(h, from, front, a)
  }

  lemma {:induction false} LeadsStill(h: seq<Chunk>, c: Chunk, from: nat, log: seq<Told>, to: nat)
    requires Leads(h, from, log, to)
    ensures Leads(h + [c], from, log, to)
    decreases |log|
  {
    hide KeptFrom, IsKept, Total;
    if log != [] {
      KeptMoves(h, c);
      var front := log[..|log| - 1];
      match log[|log| - 1]
      case Got(_) => LeadsStill(h, c, from, front, to - 1);
      case Lost(a, _) => LeadsStill(h, c, from, front, a);
    }
  }

  lemma {:induction false} TakeLeads(h: seq<Chunk>, from: nat, sub: Subscriber)
    requires sub.cursor <= |h| && Leads(h, from, sub.log, sub.cursor)
    ensures var r := Take(sub, Numbered(h, sub.cursor)); r.cursor == |h| && Leads(h, from, r.log, |h|)
    decreases |h| - sub.cursor
  {
    if sub.cursor < |h| {
      var n := Numbered(h, sub.cursor);
      var next := Subscriber(n[0].number, sub.log + [Got(n[0])]);
      assert next.log[..|next.log| - 1] == sub.log;
      assert n[1..] == Numbered(h, next.cursor);
      TakeLeads(h, from, next);
    }
  }

  /** A poll catches up to the head, and tells of a loss exactly when the next chunk was
      evicted. */
  lemma PollLeads(h: seq<Chunk>, from: nat, sub: Subscriber)
    requires |h| < SEQ_MAX
    requires Leads(h, from, sub.log, sub.cursor)
    ensures var r := PollOnce(h, sub);
      r.cursor == (if sub.cursor <= |h| then |h| else sub.cursor) && Leads(h, from, r.log, r.cursor)
    ensures sub.cursor < KeptFrom(h) <==> PollOnce(h, sub).log == sub.log + [Lost(sub.cursor, |h|)]
  {
    hide Answer, KeptFrom, Total, Numbered;
    AnswerIsFetch(h, sub.cursor);
    match Fetch(h, sub.cursor)
    case Gap(current) =>
      assert (sub.log + [Lost(sub.cursor, current)])[..|sub.log|] == sub.log;
    case Fetched(entries) =>
      if sub.cursor < |h| {
        TakeLeads(h, from, sub);
        TakeGets(sub, entries, 0);
      }
  }

  /** Whatever is taken is logged as got. */
  lemma {:induction false} TakeGets(sub: Subscriber, entries: seq<Entry>, i: nat)
    ensures |Take(sub, entries).log| == |sub.log| + |entries|
    ensures i < |entries| ==> Take(sub, entries).log[|sub.log| + i] == Got(entries[i])
    ensures Take(sub, entries).log[..|sub.log|] == sub.log
    decreases |entries|
  {
    if entries != [] {
      var next := Subscriber(entries[0].number, sub.log + [Got(entries[0])]);
      TakeGets(next, entries[1..], if i == 0 then 0 else i - 1);
      var r := Take(next, entries[1..]).log;
      assert r[..|sub.log|] == next.log[..|sub.log|];
      assert r[|sub.log|] == r[..|next.log|][|sub.log|];
    }
  }

  function Appends(events: seq<Event>): nat
    decreases |events|
  {
    if events == [] then 0 else (if events[0].Append? then 1 else 0) + Appends(events[1..])
  }

  /** However appends and polls alternate, as long as there are fewer than 2^32 - 1
      appends in all, a subscriber gets every chunk after the one it started at, in
      order, once each, except the ones it is told are lost. */
  lemma {:induction false} SubscriberGetsAll(h: seq<Chunk>, from: nat, sub: Subscriber, events: seq<Event>)
    requires |h| + Appends(events) < SEQ_MAX
    requires Leads(h, from, sub.log, sub.cursor)
    ensures var r := Run(h, sub, events); Leads(r.0, from, r.1.log, r.1.cursor)
    decreases |events|
  {
    if events != [] {
      match events[0]
      case Append(bytes) =>
        LeadsStill(h, bytes, from, sub.log, sub.cursor);
        SubscriberGetsAll(h + [bytes], from, sub, events[1..]);
      case Poll =>
        PollLeads(h, from, sub);
        SubscriberGetsAll(h, from, PollOnce(h, sub), events[1..]);
    }
  }

  /** A log without losses is exactly the chunks from one cursor to the other. */
  lemma {:induction false} NoLossIsAll(h: seq<Chunk>, from: nat, log: seq<Told>, to: nat)
    requires Leads(h, from, log, to) && from <= |h|
    requires forall i :: 0 <= i < |log| ==> log[i].Got?
    ensures from <= to <= |h| && |log| == to - from
    ensures forall i :: 0 <= i < |log| ==> log[i].entry == Entry(from + i + 1, h[from + i])
    decreases |log|
  {
    if log != [] {
      NoLossIsAll(h, from, log[..|log| - 1], to - 1);
    }
  }
}
