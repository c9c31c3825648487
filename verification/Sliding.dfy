/** A buffer that takes in chunks and, when it grows too long, keeps only its end:
    where it begins, told from the lengths of the chunks alone. */
module Sliding {
  import opened Options
  import opened Utf8

  /** More than `max` bytes are cut to the last `keep`. */
  datatype Window = Window(max: nat, keep: nat)

  /** Where a buffer from `lo` to `hi` begins after the cut. */
  function Kept(win: Window, lo: nat, hi: nat): (k: nat)
    requires lo <= hi && win.keep <= win.max
    ensures lo <= k <= hi && hi - k <= win.max
  {
    if hi - lo > win.max then hi - win.keep else lo
  }

  /** The same when a mark from `at` to `end` is taken out, with all before it, once
      it is there as a whole. */
  function Past(win: Window, lo: nat, hi: nat, at: int, end: int): (k: nat)
    requires lo <= hi && win.keep <= win.max
    ensures lo <= k <= hi
  {
    var k := Kept(win, lo, hi);
    if k <= at && end <= hi && at <= end then end else k
  }

  /** Where the buffer begins when the byte before `stop` is in it: it holds the bytes
      from `lo` to `m`, and then come chunks of these lengths. */
  function Begins(win: Window, lo: nat, m: nat, lens: seq<nat>, at: int, end: int, stop: int): (k: Option<nat>)
    requires lo <= m && win.keep <= win.max
    ensures k.Some? ==> lo <= k.value
    decreases |lens|
  {
    if lens == [] then None
    else
      var hi := m + lens[0];
      if stop <= hi then Some(Kept(win, lo, hi))
      else Begins(win, Past(win, lo, hi, at, end), hi, lens[1..], at, end, stop)
  }

  function Sum(lens: seq<nat>): nat {
    if lens == [] then 0 else lens[0] + Sum(lens[1..])
  }

  function Lens(chunks: seq<seq<byte>>): (lens: seq<nat>)
    ensures |lens| == |chunks| && forall i :: 0 <= i < |chunks| ==> lens[i] == |chunks[i]|
  {
    seq(|chunks|, i requires 0 <= i < |chunks| => |chunks[i]|)
  }

  lemma {:induction false} SumOfLens(chunks: seq<seq<byte>>)
    ensures Sum(Lens(chunks)) == |Concat(chunks)|
  {
    if chunks != [] {
      SumOfLens(chunks[1..]);
      assert Lens(chunks)[1..] == Lens(chunks[1..]);
    }
  }

  /** Something from `from` to `stop` is whole in the buffer when its last byte comes. */
  predicate IsSeen(win: Window, lo: nat, m: nat, lens: seq<nat>, at: int, end: int, from: int, stop: int)
    requires lo <= m && win.keep <= win.max
  {
    var k := Begins(win, lo, m, lens, at, end, stop);
    k.Some? && k.value <= from
  }

  /** Something of at most `n` bytes is always seen if no chunk is longer than what is
      kept less `n - 1`. */
  lemma {:induction false} ShortChunksSee(win: Window, lo: nat, m: nat, lens: seq<nat>, at: int, end: int,
      from: int, stop: int, n: nat)
    requires lo <= m < stop <= m + Sum(lens) && win.keep <= win.max
    requires lo <= from < stop <= from + n && n <= win.keep && (end <= from || stop <= end || at < lo)
    requires forall i :: 0 <= i < |lens| ==> lens[i] + n <= win.keep + 1
    ensures IsSeen(win, lo, m, lens, at, end, from, stop)
    decreases |lens|
  {
    var hi := m + lens[0];
    if hi < stop {
      ShortChunksSee(win, Past(win, lo, hi, at, end), hi, lens[1..], at, end, from, stop, n);
    }
  }

  /** One byte longer is too long: all but the last byte of those `n` is there, the
      buffer is full enough, and the chunk with that byte cuts the first of them off. */
  lemma LongerChunkMisses(win: Window, lo: nat, m: nat, len: nat, rest: seq<nat>, from: int, n: nat)
    requires lo <= from && 0 < n <= win.keep <= win.max && m == from + n - 1
    requires len + n == win.keep + 2 && m - lo + len > win.max
    ensures !IsSeen(win, lo, m, [len] + rest, -1, 0, from, from + n)
  {}
}
