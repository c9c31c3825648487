/** The stuck watchdog: which silent agents are woken, which are marked as stuck,
    and when a mark goes away. */
module Watchdog {
  import opened Options
  import opened Arith

  const SILENCE_THRESHOLD := 10 * 60 * 1000
  const MAX_WAKES := 2

  type Id = string

  datatype WatchState = WatchState(wakesIssued: nat, lastWakeAt: int, marked: bool)

  datatype Snapshot = Snapshot(
    alive: bool, paused: bool, shimReady: bool, dbLive: bool, hasError: bool,
    owesHandoff: bool, waitingOnDeps: bool, spawnedAt: int, lastSignalAt: Option<int>)

  datatype Verdict = Quiet | Wake | Mark | Recovered

  function Decide(snap: Snapshot, state: Option<WatchState>, now: int, threshold: int, maxWakes: nat): Verdict {
    if state.Some? && snap.lastSignalAt.Some? && snap.lastSignalAt.value > state.value.lastWakeAt then Recovered
    else if !snap.alive || snap.paused || !snap.shimReady || !snap.dbLive || snap.hasError then Quiet
    else
      var anchor := snap.spawnedAt;
      var anchor := if snap.lastSignalAt.Some? then Max(anchor, snap.lastSignalAt.value) else anchor;
      var anchor := if state.Some? then Max(anchor, state.value.lastWakeAt) else anchor;
      if now - anchor <= threshold then Quiet
      else if !snap.owesHandoff || snap.waitingOnDeps then Quiet
      else match state
        case None => Wake
        case Some(st) => if st.marked then Quiet else if st.wakesIssued >= maxWakes then Mark else Wake
  }

  // ---- one sweep -------------------------------------------------------

  /** The persisted error of an agent; `stuck` is the watchdog's own kind. */
  datatype Error = Error(stuck: bool, at: int)

  /** A row of the agent table; `live` is neither killed nor exited. */
  datatype Row = Row(id: Id, live: bool, ready: bool, error: Option<Error>, spawnedAt: int)

  /** What one sweep sees of an agent: its slot, the newest sign of life (0 for none)
      when each pass looks, its obligations, and whether writes about it succeed. */
  datatype Probe = Probe(
    slot: bool, alive: bool, paused: bool, signal1: int, signal2: int,
    owes: bool, waiting: bool, clearOk: bool, recordOk: bool)

  datatype Tick = Tick(now: int, listOk: bool, signals1Ok: bool, signals2Ok: bool)

  predicate Resumed(row: Row, p: Probe, t: Tick) {
    row.live && row.error.Some? && row.error.value.stuck && t.signals1Ok && p.signal1 > row.error.value.at
  }

  predicate IsCandidate(row: Row, p: Probe) {
    row.live && row.ready && row.error.None? && p.slot && p.alive && !p.paused
  }

  function Signal(p: Probe): Option<int> {
    if p.signal2 > 0 then Some(p.signal2) else None
  }

  function Snap(row: Row, p: Probe): Snapshot {
    Snapshot(true, false, true, true, false, p.owes, p.waiting, row.spawnedAt, Signal(p))
  }

  function Tracked(m: map<Id, WatchState>, id: Id): Option<WatchState> {
    if id in m then Some(m[id]) else None
  }

  /** What a sweep does to the outside about one agent. */
  datatype Effect = Nothing | Cleared | Woke | MarkedStuck

  /** What a verdict makes of the tracked state. */
  function Applied(v: Verdict, s: Option<WatchState>, p: Probe, now: int): Option<WatchState> {
    match v
    case Quiet => s
    case Recovered => None
    case Wake => Some(WatchState((if s.Some? then s.value.wakesIssued else 0) + 1, now, false))
    case Mark =>
      var prev := if s.Some? then s.value else WatchState(0, 0, false);
      if p.recordOk then
        Some(WatchState(if prev.wakesIssued < MAX_WAKES then MAX_WAKES else prev.wakesIssued, prev.lastWakeAt, true))
      else s
  }

  function EffectOf(v: Verdict, p: Probe): Effect {
    match v
    case Quiet => Nothing
    case Recovered => Nothing
    case Wake => Woke
    case Mark => if p.recordOk then MarkedStuck else Nothing
  }

  function VerdictOn(row: Row, p: Probe, t: Tick, s: Option<WatchState>): Verdict {
    Decide(Snap(row, p), s, t.now, SILENCE_THRESHOLD, MAX_WAKES)
  }

  /** The first pass: a persisted mark and newer life. */
  function Pass1(row: Row, p: Probe, t: Tick, s: Option<WatchState>): Option<WatchState> {
    if Resumed(row, p, t) && p.clearOk then None else s
  }

  /** Forgetting, and the candidates: an agent with an error loses its count. */
  function Pass2(row: Row, s: Option<WatchState>): Option<WatchState> {
    if !row.live || (row.ready && row.error.Some?) then None else s
  }

  /** One sweep, seen from one agent: what is tracked after it, and what it did. */
  function AgentSweep(row: Row, p: Probe, t: Tick, s: Option<WatchState>): (Option<WatchState>, Effect) {
    if !t.listOk then (s, Nothing)
    else
      var s2 := Pass2(row, Pass1(row, p, t, s));
      if IsCandidate(row, p) && t.signals2Ok then
        var v := VerdictOn(row, p, t, s2);
        (Applied(v, s2, p, t.now), EffectOf(v, p))
      else (s2, if Resumed(row, p, t) && p.clearOk then Cleared else Nothing)
  }

  predicate DistinctIds(rows: seq<Row>) {
    forall i, j :: 0 <= i < j < |rows| ==> rows[i].id != rows[j].id
  }

  class Watchdog {
    var states: map<Id, WatchState>

    constructor ()
      ensures states == map[]
    {
      states := map[];
    }

    /** One sweep over the table. */
    method Sweep(rows: seq<Row>, probes: map<Id, Probe>, t: Tick) returns (effects: map<Id, Effect>)
      requires DistinctIds(rows) && forall i :: 0 <= i < |rows| ==> rows[i].id in probes
      modifies this
      ensures forall i :: 0 <= i < |rows| ==>
        var r := AgentSweep(rows[i], probes[rows[i].id], t, Tracked(old(states), rows[i].id));
        Tracked(states, rows[i].id) == r.0
        && (if rows[i].id in effects then effects[rows[i].id] else Nothing) == r.1
      ensures t.listOk ==> forall id :: id in states ==> exists i :: 0 <= i < |rows| && rows[i].id == id
      ensures !t.listOk ==> states == old(states) && effects == map[]
    {
      hide AgentSweep, Pass1, Resumed, IsCandidate, Judged, Tracked, IsLiveId, DistinctIds;
      effects := map[];
      if !t.listOk {
        forall i | 0 <= i < |rows|
          ensures AgentSweep(rows[i], probes[rows[i].id], t, Tracked(states, rows[i].id))
            == (Tracked(states, rows[i].id), Nothing)
        {
          NothingSwept(rows[i], probes[rows[i].id], t, Tracked(states, rows[i].id));
        }
        return;
      }
      effects := ClearMarks(rows, probes, t);
      ghost var m1, e1 := states, effects;
      states := map id | id in states && IsLiveId(rows, id) :: states[id];
      ghost var m2 := states;
      var candidates := Candidates(rows, probes);
      ghost var m3 := states;
      LiveIds(rows, m1, m2);
      if candidates != [] && t.signals2Ok {
        NoneCleared(rows, probes, t, candidates, effects);
        effects := Judge(rows, probes, t, candidates, effects);
      }
      forall i | 0 <= i < |rows|
        ensures AgentSweep(rows[i], probes[rows[i].id], t, Tracked(old(states), rows[i].id))
          == (Tracked(states, rows[i].id), Effected(effects, rows[i].id))
      {
        var id := rows[i].id;
        OneSwept(rows[i], probes[id], t, Tracked(old(states), id), Tracked(m1, id), Tracked(m2, id), Tracked(m3, id),
          Tracked(states, id), Effected(e1, id), Effected(effects, id));
      }
      forall id | id in states
        ensures exists i :: 0 <= i < |rows| && rows[i].id == id
      {
        if id in m3 {
          assert id in m2;
          IsSomeId(rows, id);
        } else {
          var j :| 0 <= j < |candidates| && rows[candidates[j]].id == id;
        }
      }
    }

    /** Pass 1: marks that newer life clears. */
    method ClearMarks(rows: seq<Row>, probes: map<Id, Probe>, t: Tick) returns (effects: map<Id, Effect>)
      requires DistinctIds(rows) && forall i :: 0 <= i < |rows| ==> rows[i].id in probes
      modifies this
      ensures forall i :: 0 <= i < |rows| ==>
        Tracked(states, rows[i].id) == Pass1(rows[i], probes[rows[i].id], t, Tracked(old(states), rows[i].id))
      ensures forall i :: 0 <= i < |rows| ==>
        (rows[i].id in effects <==> Resumed(rows[i], probes[rows[i].id], t) && probes[rows[i].id].clearOk)
      ensures forall id :: id in effects ==> effects[id] == Cleared
    {
      effects := map[];
      for k := 0 to |rows|
        invariant forall i :: 0 <= i < k ==>
          Tracked(states, rows[i].id) == Pass1(rows[i], probes[rows[i].id], t, Tracked(old(states), rows[i].id))
        invariant forall i :: k <= i < |rows| ==>
          Tracked(states, rows[i].id) == Tracked(old(states), rows[i].id) && rows[i].id !in effects
        invariant forall i :: 0 <= i < k ==>
          (rows[i].id in effects <==> Resumed(rows[i], probes[rows[i].id], t) && probes[rows[i].id].clearOk)
        invariant forall id :: id in effects ==> effects[id] == Cleared
      {
        var r := rows[k];
        if Resumed(r, probes[r.id], t) {
          if !probes[r.id].clearOk {
            continue;
          }
          states := states - {r.id};
          effects := effects[r.id := Cleared];
        }
      }
    }

    /** The candidates; agents with an error are dropped from the states on the way. */
    method Candidates(rows: seq<Row>, probes: map<Id, Probe>) returns (ids: seq<nat>)
      requires DistinctIds(rows) && forall i :: 0 <= i < |rows| ==> rows[i].id in probes
      modifies this
      ensures forall i :: 0 <= i < |rows| ==>
        Tracked(states, rows[i].id)
          == if rows[i].live && rows[i].ready && rows[i].error.Some? then None else Tracked(old(states), rows[i].id)
      ensures forall id :: id in states ==> id in old(states)
      ensures forall j :: 0 <= j < |ids| ==> ids[j] < |rows|
      ensures forall j, k :: 0 <= j < k < |ids| ==> ids[j] < ids[k]
      ensures forall i :: 0 <= i < |rows| ==> (i in ids <==> IsCandidate(rows[i], probes[rows[i].id]))
    {
      ids := [];
      for k := 0 to |rows|
        invariant forall i :: 0 <= i < k ==>
          Tracked(states, rows[i].id)
            == if rows[i].live && rows[i].ready && rows[i].error.Some? then None else Tracked(old(states), rows[i].id)
        invariant forall i :: k <= i < |rows| ==> Tracked(states, rows[i].id) == Tracked(old(states), rows[i].id)
        invariant forall id :: id in states ==> id in old(states)
        invariant forall j :: 0 <= j < |ids| ==> ids[j] < k
        invariant forall i, j :: 0 <= i < j < |ids| ==> ids[i] < ids[j]
        invariant forall i :: 0 <= i < k ==> (i in ids <==> IsCandidate(rows[i], probes[rows[i].id]))
      {
        var r := rows[k];
        if !r.live || !r.ready {
          continue;
        }
        if r.error.Some? {
          states := states - {r.id};
          continue;
        }
        var p := probes[r.id];
        if !p.slot || !p.alive || p.paused {
          continue;
        }
        ids := ids + [k];
      }
    }

    /** Pass 2 proper: cheap exits first, the decision on the whole snapshot last. */
    method Judge(rows: seq<Row>, probes: map<Id, Probe>, t: Tick, ids: seq<nat>, before: map<Id, Effect>)
        returns (effects: map<Id, Effect>)
      requires DistinctIds(rows) && forall i :: 0 <= i < |rows| ==> rows[i].id in probes
      requires forall j :: 0 <= j < |ids| ==> ids[j] < |rows|
      requires forall j, k :: 0 <= j < k < |ids| ==> ids[j] < ids[k]
      requires forall j :: 0 <= j < |ids| ==> rows[ids[j]].id !in before
      modifies this
      ensures forall j :: 0 <= j < |ids| ==>
        var row := rows[ids[j]];
        Judged(row, probes[row.id], t, Tracked(old(states), row.id), Tracked(states, row.id),
          Effected(effects, row.id))
      ensures forall i :: 0 <= i < |rows| && i !in ids ==>
        Tracked(states, rows[i].id) == Tracked(old(states), rows[i].id)
        && Effected(effects, rows[i].id) == Effected(before, rows[i].id)
      ensures forall id :: id in states ==> id in old(states) || exists j :: 0 <= j < |ids| && rows[ids[j]].id == id
    {
      hide Judged, DistinctIds, Tracked, Effected;
      CandidatesDistinct(rows, ids);
      effects := before;
      for k := 0 to |ids|
        invariant forall j :: 0 <= j < k ==>
          var row := rows[ids[j]];
          Judged(row, probes[row.id], t, Tracked(old(states), row.id), Tracked(states, row.id),
            Effected(effects, row.id))
        invariant forall j :: k <= j < |ids| ==>
          Tracked(states, rows[ids[j]].id) == Tracked(old(states), rows[ids[j]].id) && rows[ids[j]].id !in effects
        invariant forall i :: 0 <= i < |rows| && i !in ids ==>
          Tracked(states, rows[i].id) == Tracked(old(states), rows[i].id)
          && Effected(effects, rows[i].id) == Effected(before, rows[i].id)
        invariant forall id :: id in states ==> id in old(states) || exists j :: 0 <= j < k && rows[ids[j]].id == id
      {
        var row := rows[ids[k]];
        var p := probes[row.id];
        var s, e := JudgeOne(row, p, t, Tracked(states, row.id));
        TrackedAfter(states, row.id, s);
        EffectedAfter(effects, row.id, e);
        states := if s.None? then states - {row.id} else states[row.id := s.value];
        if e != Nothing {
          effects := effects[row.id := e];
        }
      }
    }

    static method JudgeOne(row: Row, p: Probe, t: Tick, tracked: Option<WatchState>)
        returns (s: Option<WatchState>, e: Effect)
      ensures Judged(row, p, t, tracked, s, e)
    {
      s, e := tracked, Nothing;
      var signal := Signal(p);
      if tracked.Some? && signal.Some? && signal.value > tracked.value.lastWakeAt {
        s := None;
        return;
      }
      var anchor := row.spawnedAt;
      if signal.Some? {
        anchor := Max(anchor, signal.value);
      }
      if tracked.Some? {
        anchor := Max(anchor, tracked.value.lastWakeAt);
      }
      if t.now - anchor <= SILENCE_THRESHOLD {
        return;
      }
      match Decide(Snap(row, p), tracked, t.now, SILENCE_THRESHOLD, MAX_WAKES)
      case Wake =>
        var wakes := (if tracked.Some? then tracked.value.wakesIssued else 0) + 1;
        s, e := Some(WatchState(wakes, t.now, false)), Woke;
      case Mark =>
        if p.recordOk {
          var prev := tracked.value;
          var wakes := if prev.wakesIssued < MAX_WAKES then MAX_WAKES else prev.wakesIssued;
          s, e := Some(WatchState(wakes, prev.lastWakeAt, true)), MarkedStuck;
        }
      case Recovered =>
        assert false;  // the first exit above has taken it
      case Quiet =>
    }
  }

  lemma NothingSwept(row: Row, p: Probe, t: Tick, s: Option<WatchState>)
    requires !t.listOk
    ensures AgentSweep(row, p, t, s) == (s, Nothing)
  {}

  /** The passes put together, for one agent. */
  lemma OneSwept(row: Row, p: Probe, t: Tick, s: Option<WatchState>, s1: Option<WatchState>, s2: Option<WatchState>,
      s3: Option<WatchState>, s4: Option<WatchState>, e1: Effect, e4: Effect)
    requires t.listOk && s1 == Pass1(row, p, t, s) && s2 == (if row.live then s1 else None)
    requires s3 == if row.live && row.ready && row.error.Some? then None else s2
    requires e1 == if Resumed(row, p, t) && p.clearOk then Cleared else Nothing
    requires if IsCandidate(row, p) && t.signals2Ok then Judged(row, p, t, s3, s4, e4) else s4 == s3 && e4 == e1
    ensures AgentSweep(row, p, t, s) == (s4, e4)
  {
    hide Resumed, IsCandidate, VerdictOn, Applied, EffectOf;
  }

  lemma LiveIds(rows: seq<Row>, m1: map<Id, WatchState>, m2: map<Id, WatchState>)
    requires DistinctIds(rows) && m2 == map id | id in m1 && IsLiveId(rows, id) :: m1[id]
    ensures forall i :: 0 <= i < |rows| ==>
      Tracked(m2, rows[i].id) == if rows[i].live then Tracked(m1, rows[i].id) else None
  {
    forall i | 0 <= i < |rows|
      ensures IsLiveId(rows, rows[i].id) <==> rows[i].live
    {
      if IsLiveId(rows, rows[i].id) {
        var j :| 0 <= j < |rows| && rows[j].id == rows[i].id && rows[j].live;
        assert i == j;
      }
    }
  }

  lemma IsSomeId(rows: seq<Row>, id: Id)
    requires IsLiveId(rows, id)
    ensures exists i :: 0 <= i < |rows| && rows[i].id == id
  {}

  /** No candidate had a mark to clear. */
  lemma NoneCleared(rows: seq<Row>, probes: map<Id, Probe>, t: Tick, ids: seq<nat>, effects: map<Id, Effect>)
    requires forall i :: 0 <= i < |rows| ==> rows[i].id in probes
    requires forall j :: 0 <= j < |ids| ==> ids[j] < |rows|
    requires forall i :: 0 <= i < |rows| ==> (i in ids <==> IsCandidate(rows[i], probes[rows[i].id]))
    requires forall i :: 0 <= i < |rows| ==>
      (rows[i].id in effects <==> Resumed(rows[i], probes[rows[i].id], t) && probes[rows[i].id].clearOk)
    ensures forall j :: 0 <= j < |ids| ==> rows[ids[j]].id !in effects
  {
    forall j | 0 <= j < |ids|
      ensures rows[ids[j]].id !in effects
    {
      assert ids[j] in ids;
    }
  }

  lemma CandidatesDistinct(rows: seq<Row>, ids: seq<nat>)
    requires DistinctIds(rows)
    requires forall j :: 0 <= j < |ids| ==> ids[j] < |rows|
    requires forall j, k :: 0 <= j < k < |ids| ==> ids[j] < ids[k]
    ensures forall j, k :: 0 <= j < k < |ids| ==> rows[ids[j]].id != rows[ids[k]].id
    ensures forall i, k :: 0 <= i < |rows| && 0 <= k < |ids| && i !in ids ==> rows[i].id != rows[ids[k]].id
  {}

  predicate IsLiveId(rows: seq<Row>, id: Id) {
    exists i :: 0 <= i < |rows| && rows[i].id == id && rows[i].live
  }

  function Effected(effects: map<Id, Effect>, id: Id): Effect {
    if id in effects then effects[id] else Nothing
  }

  lemma TrackedAfter(m: map<Id, WatchState>, id: Id, s: Option<WatchState>)
    ensures var n := if s.None? then m - {id} else m[id := s.value];
      Tracked(n, id) == s && forall k :: k != id ==> Tracked(n, k) == Tracked(m, k)
  {}

  lemma EffectedAfter(m: map<Id, Effect>, id: Id, e: Effect)
    requires id !in m
    ensures var n := if e != Nothing then m[id := e] else m;
      Effected(n, id) == e && forall k :: k != id ==> Effected(n, k) == Effected(m, k)
  {}

  predicate Judged(row: Row, p: Probe, t: Tick, s: Option<WatchState>, s': Option<WatchState>, e: Effect) {
    var v := VerdictOn(row, p, t, s);
    s' == Applied(v, s, p, t.now) && e == EffectOf(v, p)
  }

  // ---- what a sweep does to an agent -----------------------------------

  /** Up, ready, without an error and not paused, and both looks at it came. */
  predicate Watched(row: Row, p: Probe, t: Tick) {
    && t.listOk && t.signals2Ok && row.live && row.ready && row.error.None? && p.slot && p.alive && !p.paused
  }

  /** There is a sign of life newer than the last wake. */
  predicate Answered(p: Probe, s: Option<WatchState>) {
    s.Some? && p.signal2 > 0 && p.signal2 > s.value.lastWakeAt
  }

  /** More than ten minutes have gone by since it was spawned, since its newest sign of
      life and since the last wake. */
  predicate LongSilent(row: Row, p: Probe, t: Tick, s: Option<WatchState>) {
    && t.now - row.spawnedAt > 600_000
    && (p.signal2 > 0 ==> t.now - p.signal2 > 600_000)
    && (s.Some? ==> t.now - s.value.lastWakeAt > 600_000)
  }

  /** Whatever is tracked before a sweep: exactly when it wakes the agent, marks it or
      clears its mark, and what is tracked afterwards. */
  lemma SweepMeans(row: Row, p: Probe, t: Tick, s: Option<WatchState>)
    ensures var r := AgentSweep(row, p, t, s);
      var due := Watched(row, p, t) && p.owes && !p.waiting && !Answered(p, s) && LongSilent(row, p, t, s);
      && (r.1 == Woke <==> due && (s.None? || (!s.value.marked && s.value.wakesIssued < 2)))
      && (r.1 == MarkedStuck <==> due && s.Some? && !s.value.marked && s.value.wakesIssued >= 2 && p.recordOk)
      && (r.1 == Cleared <==>
            && t.listOk && t.signals1Ok && row.live && row.error.Some? && row.error.value.stuck
            && p.signal1 > row.error.value.at && p.clearOk)
      && r.0 == (
           if r.1 == Woke then Some(WatchState(if s.Some? then s.value.wakesIssued + 1 else 1, t.now, false))
           else if r.1 == MarkedStuck then Some(WatchState(s.value.wakesIssued, s.value.lastWakeAt, true))
           else if t.listOk && (!row.live || (row.ready && row.error.Some?)) then None
           else if r.1 == Cleared || (Watched(row, p, t) && Answered(p, s)) then None
           else s)
  {}

  // ---- many sweeps, one agent ------------------------------------------

  /** What a sweep sees of one agent: it is gone from the table, or its row. */
  datatype Obs = Gone | Seen(row: Row, p: Probe, t: Tick)

  function Step(o: Obs, s: Option<WatchState>): (Option<WatchState>, Effect) {
    match o
    case Gone => (None, Nothing)
    case Seen(row, p, t) => AgentSweep(row, p, t, s)
  }

  /** The newest sign of life seen: spawning counts as one. */
  function Life(row: Row, p: Probe): int {
    match Signal(p)
    case None => row.spawnedAt
    case Some(sig) => Max(row.spawnedAt, sig)
  }

  /** A wake: when it was, and the newest sign of life then. */
  datatype Poke = Poke(at: int, life: int)

  /** The state after a run of sweeps from nothing, and the wakes of the silence that
      is still going on. */
  function Run(obs: seq<Obs>): (Option<WatchState>, seq<Poke>) {
    if obs == [] then (None, [])
    else
      var prev := Run(obs[..|obs| - 1]);
      var o := obs[|obs| - 1];
      var r := Step(o, prev.0);
      (r.0, if r.0.None? then [] else if r.1 == Woke then prev.1 + [Poke(o.t.now, Life(o.row, o.p))] else prev.1)
  }

  ghost predicate StreakSound(s: Option<WatchState>, streak: seq<Poke>) {
    match s
    case None => streak == []
    case Some(st) =>
      && 1 <= |streak| == st.wakesIssued <= MAX_WAKES
      && streak[|streak| - 1].at == st.lastWakeAt
      && streak[0].at - streak[0].life > SILENCE_THRESHOLD
      && forall i :: 0 < i < |streak| ==> streak[i].at - streak[i - 1].at > SILENCE_THRESHOLD
  }

  lemma StreakStep(o: Obs, s: Option<WatchState>, streak: seq<Poke>)
    requires StreakSound(s, streak)
    ensures var r := Step(o, s);
      StreakSound(r.0,
        if r.0.None? then [] else if r.1 == Woke then streak + [Poke(o.t.now, Life(o.row, o.p))] else streak)
  {}

  lemma {:induction false} RunIsSound(obs: seq<Obs>)
    ensures StreakSound(Run(obs).0, Run(obs).1)
  {
    hide Step;
    if obs != [] {
      RunIsSound(obs[..|obs| - 1]);
      StreakStep(obs[|obs| - 1], Run(obs[..|obs| - 1]).0, Run(obs[..|obs| - 1]).1);
    }
  }

  /** The same in every run of sweeps: the next one wakes the agent if and only if it owes
      a handoff, does not wait for anything, has long been silent and has had no more than
      one wake in this silence; it marks it if and only if it has had two. */
  lemma NextInRun(obs: seq<Obs>, row: Row, p: Probe, t: Tick)
    ensures var (s, streak) := Run(obs);
      var e := Step(Seen(row, p, t), s).1;
      var due := Watched(row, p, t) && p.owes && !p.waiting && !Answered(p, s) && LongSilent(row, p, t, s)
                 && (s.Some? ==> !s.value.marked);
      && (e == Woke <==> due && |streak| < 2)
      && (e == MarkedStuck <==> due && |streak| == 2 && p.recordOk)
  {
    RunIsSound(obs);
    SweepMeans(row, p, t, Run(obs).0);
  }

  /** Whatever sweeps there were: a mark comes after exactly MAX_WAKES wakes in one
      silence, each a whole threshold after the one before, none answered; so the last
      sign of life before the first of them is more than MAX_WAKES + 1 thresholds ago. */
  lemma MarkAfterSilence(obs: seq<Obs>, o: Obs)
    requires Step(o, Run(obs).0).1 == MarkedStuck
    ensures var streak := Run(obs).1;
      && |streak| == MAX_WAKES
      && o.t.now - streak[MAX_WAKES - 1].at > SILENCE_THRESHOLD
      && Life(o.row, o.p) < o.t.now - SILENCE_THRESHOLD
      && (Signal(o.p).Some? ==> Signal(o.p).value <= streak[MAX_WAKES - 1].at)
      && o.t.now - streak[0].life > (MAX_WAKES + 1) * SILENCE_THRESHOLD
      && o.p.owes && !o.p.waiting && o.p.alive && !o.p.paused
  {
    RunIsSound(obs);
  }

  // ---- a persisted mark ------------------------------------------------

  /** The sweeps of a world in which nobody else touches the agent's error. */
  function Persisted(error: Option<Error>, s: Option<WatchState>, obs: seq<Obs>)
      : (r: (Option<Error>, Option<WatchState>, seq<Effect>))
    decreases |obs|
  {
    if obs == [] then (error, s, [])
    else
      var o := match obs[0]
        case Gone => Gone
        case Seen(row, p, t) => Seen(row.(error := error), p, t);
      var e := Step(o, s);
      var next := match e.1
        case Cleared => None
        case MarkedStuck => Some(Error(true, o.t.now))
        case _ => error;
      var rest := Persisted(next, e.0, obs[1..]);
      (rest.0, rest.1, [e.1] + rest.2)
  }

  /** A marked agent is neither woken nor marked again, and keeps its mark, until a
      sign of life newer than the mark. */
  lemma {:induction false} MarkedIsLeftAlone(error: Error, s: Option<WatchState>, obs: seq<Obs>)
    requires error.stuck && forall i :: 0 <= i < |obs| && obs[i].Seen? ==> obs[i].p.signal1 <= error.at
    ensures var r := Persisted(Some(error), s, obs);
      r.0 == Some(error) && |r.2| == |obs| && forall i :: 0 <= i < |obs| ==> r.2[i] == Nothing
    decreases |obs|
  {
    if obs != [] {
      var o := match obs[0]
        case Gone => Gone
        case Seen(row, p, t) => Seen(row.(error := Some(error)), p, t);
      MarkedIsLeftAlone(error, Step(o, s).0, obs[1..]);
    }
  }

  /** Such a sign clears it, and the count starts over. */
  lemma NewerLifeClears(error: Error, s: Option<WatchState>, o: Obs)
    requires o.Seen? && o.row.error == Some(error) && error.stuck && o.row.live
    requires o.t.listOk && o.t.signals1Ok && o.p.clearOk
    ensures Step(o, s).1 == Cleared <==> o.p.signal1 > error.at
    ensures Step(o, s).1 == Cleared ==> Step(o, s).0 == None
  {}

  // ---- silence that goes on --------------------------------------------

  /** A sweep that finds the agent up, in debt and not waiting, and silent since
      `life`. */
  predicate Silent(o: Obs, life: int) {
    && o.Seen? && o.t.listOk && o.t.signals2Ok && o.row.live && o.row.ready
    && o.p.slot && o.p.alive && !o.p.paused && o.p.owes && !o.p.waiting
    && Life(o.row, o.p) == life && o.p.signal1 <= life
  }

  /** Sweeps in the order of time, each at most `d` after the one before. */
  ghost predicate Steady(obs: seq<Obs>, life: int, d: nat) {
    && (forall i :: 0 <= i < |obs| ==> Silent(obs[i], life))
    && forall i :: 0 < i < |obs| ==> obs[i - 1].t.now <= obs[i].t.now <= obs[i - 1].t.now + d
  }

  /** What was done, the sweeps that did nothing left out. */
  function Acts(effects: seq<Effect>): seq<Effect> {
    if effects == [] then []
    else (if effects[0] == Nothing then [] else [effects[0]]) + Acts(effects[1..])
  }

  lemma {:induction false} NoActs(effects: seq<Effect>)
    requires forall i :: 0 <= i < |effects| ==> effects[i] == Nothing
    ensures Acts(effects) == []
  {
    if effects != [] {
      NoActs(effects[1..]);
    }
  }

  /** What is still to come for an agent with this count. */
  function ToCome(s: Option<WatchState>): seq<Effect> {
    if s.None? then [Woke, Woke, MarkedStuck]
    else if s.value.wakesIssued == 1 then [Woke, MarkedStuck]
    else [MarkedStuck]
  }

  /** The count is not late: with the next sweep at `now` the first wake comes by
      `first`, and the second at most `d` later than it could. */
  predicate OnTime(s: Option<WatchState>, now: int, life: int, first: int, d: nat) {
    match s
    case None => now <= first
    case Some(st) =>
      && !st.marked && 1 <= st.wakesIssued <= MAX_WAKES && st.lastWakeAt > life
      && st.lastWakeAt <= first + (st.wakesIssued - 1) * (SILENCE_THRESHOLD + d)
      && (st.wakesIssued < MAX_WAKES ==> now <= st.lastWakeAt + SILENCE_THRESHOLD + d)
  }

  /** One such sweep, by an agent without an error. */
  lemma SilentStep(o: Obs, s: Option<WatchState>, life: int, first: int, d: nat, next: int)
    requires Silent(o, life) && o.row.error.None? && OnTime(s, o.t.now, life, first, d)
    requires first >= life + SILENCE_THRESHOLD + d && o.t.now <= next <= o.t.now + d
    ensures var r := Step(o, s);
      match r.1
      case Nothing => r.0 == s && OnTime(s, next, life, first, d)
      case Woke => ToCome(s) == [Woke] + ToCome(r.0) && OnTime(r.0, next, life, first, d)
      case MarkedStuck => ToCome(s) == [MarkedStuck] && o.t.now > life
      case Cleared => false
  {}

  /** The last sweep of a silence that is long enough. */
  lemma SilentEnd(o: Obs, s: Option<WatchState>, life: int, first: int, d: nat)
    requires Silent(o, life) && o.row.error.None? && OnTime(s, o.t.now, life, first, d)
    requires first >= life && o.t.now > first + 2 * SILENCE_THRESHOLD + d && o.p.recordOk
    ensures Step(o, s).1 == MarkedStuck && ToCome(s) == [MarkedStuck] && o.t.now > life
  {}

  lemma {:induction false} SilentRun(obs: seq<Obs>, s: Option<WatchState>, life: int, first: int, d: nat)
    requires obs != [] && Steady(obs, life, d) && OnTime(s, obs[0].t.now, life, first, d)
    requires first >= life + SILENCE_THRESHOLD + d
    requires var last := obs[|obs| - 1]; last.t.now > first + 2 * SILENCE_THRESHOLD + d && last.p.recordOk
    ensures var r := Persisted(None, s, obs);
      r.0.Some? && r.0.value.stuck && |r.2| == |obs| && Acts(r.2) == ToCome(s)
    decreases |obs|
  {
    hide Step, OnTime, Silent, ToCome;
    SilentIgnoresError(obs[0], life);
    var o := Seen(obs[0].row.(error := None), obs[0].p, obs[0].t);
    var e := Step(o, s);
    var rest := obs[1..];
    if rest == [] {
      SilentEnd(o, s, life, first, d);
      assert Persisted(Some(Error(true, o.t.now)), e.0, rest) == (Some(Error(true, o.t.now)), e.0, []);
    } else {
      SilentIgnoresError(rest[0], life);
      SilentStep(o, s, life, first, d, rest[0].t.now);
      if e.1 == MarkedStuck {
        var error := Error(true, o.t.now);
        SilentIsQuiet(rest, life, d, error.at);
        MarkedIsLeftAlone(error, e.0, rest);
        NoActs(Persisted(Some(error), e.0, rest).2);
      } else {
        SilentRun(rest, e.0, life, first, d);
      }
    }
  }

  lemma SilentIgnoresError(o: Obs, life: int)
    requires Silent(o, life)
    ensures o.Seen? && Silent(Seen(o.row.(error := None), o.p, o.t), life)
  {}

  lemma SilentIsQuiet(obs: seq<Obs>, life: int, d: nat, at: int)
    requires Steady(obs, life, d) && at >= life
    ensures forall i :: 0 <= i < |obs| && obs[i].Seen? ==> obs[i].p.signal1 <= at
  {}

  /** And a mark does come. However often the sweeps look, at most `d` apart, an agent
      that stays silent and in debt is woken, woken again and marked, once each and
      nothing else, by any sweep later than three thresholds and two gaps after its last
      sign of life (or, if watching began late, two thresholds and a gap after that). */
  lemma SilenceIsMarked(obs: seq<Obs>, life: int, d: nat)
    requires obs != [] && Steady(obs, life, d)
    requires var last := obs[|obs| - 1];
      && last.p.recordOk
      && last.t.now > Max(life + SILENCE_THRESHOLD + d, obs[0].t.now) + 2 * SILENCE_THRESHOLD + d
    ensures var r := Persisted(None, None, obs);
      r.0.Some? && r.0.value.stuck && Acts(r.2) == [Woke, Woke, MarkedStuck]
  {
    hide Persisted, Acts;
    SilentRun(obs, None, life, Max(life + SILENCE_THRESHOLD + d, obs[0].t.now), d);
  }
}
