/** Looking for a byte string in another one. */
module Search {
  import opened Options
  import opened Utf8

  predicate OccursAt(h: seq<byte>, n: seq<byte>, i: nat) {
    i + |n| <= |h| && h[i..i + |n|] == n
  }

  /** The first occurrence of `n`. */
  function Find(h: seq<byte>, n: seq<byte>): (r: Option<nat>)
    requires n != []
    ensures r.Some? ==> r.value + |n| <= |h|
  {
    FindFrom(h, n, 0)
  }

  function FindFrom(h: seq<byte>, n: seq<byte>, from: nat): (r: Option<nat>)
    requires n != []
    ensures r.Some? ==> r.value + |n| <= |h|
    decreases |h| - from
  {
    if from + |n| > |h| then None
    else if OccursAt(h, n, from) then Some(from)
    else FindFrom(h, n, from + 1)
  }

  lemma {:induction false} FindFromFinds(h: seq<byte>, n: seq<byte>, from: nat)
    requires n != [] && forall i: nat :: i < from ==> !OccursAt(h, n, i)
    ensures var r := FindFrom(h, n, from);
      && (r.None? ==> forall i: nat :: !OccursAt(h, n, i))
      && (r.Some? ==> OccursAt(h, n, r.value) && forall i: nat :: i < r.value ==> !OccursAt(h, n, i))
    decreases |h| - from
  {
    if from + |n| <= |h| && !OccursAt(h, n, from) {
      FindFromFinds(h, n, from + 1);
    }
  }

  /** The search finds the first occurrence, and finds one if there is one. */
  lemma FindFinds(h: seq<byte>, n: seq<byte>)
    requires n != []
    ensures var r := Find(h, n);
      && (r.None? ==> forall i: nat :: !OccursAt(h, n, i))
      && (r.Some? ==> OccursAt(h, n, r.value) && forall i: nat :: i < r.value ==> !OccursAt(h, n, i))
  {
    FindFromFinds(h, n, 0);
  }

  function FindByte(h: seq<byte>, b: byte): (r: Option<nat>)
    ensures r.Some? ==> r.value < |h|
  {
    if h == [] then None
    else if h[0] == b then Some(0)
    else match FindByte(h[1..], b)
      case None => None
      case Some(i) => Some(i + 1)
  }

  lemma {:induction false} FindByteFinds(a: seq<byte>, b: byte, k: seq<byte>)
    requires b !in a
    ensures FindByte(a, b) == None && FindByte(a + [b] + k, b) == Some(|a|)
  {
    if a == [] {
      assert a + [b] + k == [b] + k;
    } else {
      assert (a + [b] + k)[1..] == a[1..] + [b] + k;
      FindByteFinds(a[1..], b, k);
    }
  }

  lemma OccursInPart(s: seq<byte>, m: seq<byte>, lo: nat, hi: nat, i: nat)
    requires lo <= hi <= |s|
    ensures OccursAt(s[lo..hi], m, i) <==> i + |m| <= hi - lo && OccursAt(s, m, lo + i)
  {
    if i + |m| <= hi - lo {
      var a, b := s[lo..hi][i..i + |m|], s[lo + i..lo + i + |m|];
      assert |a| == |b| && forall k :: 0 <= k < |a| ==> a[k] == s[lo + i + k] == b[k];
      assert a == b;
    }
  }

  lemma OccursBehind(a: seq<byte>, b: seq<byte>, m: seq<byte>, i: nat)
    ensures OccursAt(b, m, i) <==> OccursAt(a + b, m, |a| + i)
  {
    if i + |m| <= |b| {
      assert (a + b)[|a| + i..|a| + i + |m|] == b[i..i + |m|];
    }
  }
}
