/** The budget brake of one workspace, one operation at a time: tripping it, taking
    a trip back, lifting it. */
module Budget {
  import opened Options

  type Id = string

  datatype Persist = Tripped | AlreadyTripped | BudgetMoved | Failed

  /** The registry says of every live agent whether it is paused; the store keeps the
      cap, the marker and the agents the brake paused. */
  datatype State = State(paused: map<Id, bool>, cap: Option<real>, marker: bool, ledger: seq<Id>)

  predicate Covers(cap: Option<real>, cost: real) {
    cap.Some? && cap.value > 0.0 && cap.value <= cost
  }

  /** What the store answers to a trip at `cost`. */
  function Outcome(st: State, cost: real, storeOk: bool): Persist {
    if !storeOk then Failed
    else if st.marker then AlreadyTripped
    else if Covers(st.cap, cost) then Tripped
    else BudgetMoved
  }

  /** The agents a trip pauses: those of `targets` that are live and not paused. */
  function Claimed(paused: map<Id, bool>, targets: seq<Id>): (ids: seq<Id>)
    ensures forall id :: id in ids <==> id in targets && id in paused && !paused[id]
    ensures forall i, j :: 0 <= i < j < |ids| ==> ids[i] != ids[j]
  {
    if targets == [] then []
    else
      var front := Claimed(paused, targets[..|targets| - 1]);
      var id := targets[|targets| - 1];
      assert targets == targets[..|targets| - 1] + [id];
      if id in paused && !paused[id] && id !in front then front + [id] else front
  }

  /** The agents without those of `gone` that a trip finds running. */
  function Without(paused: map<Id, bool>, targets: seq<Id>, gone: set<Id>): (r: map<Id, bool>)
    ensures forall id :: id in r <==> id in paused && !(id in targets && !paused[id] && id in gone)
    ensures forall id :: id in r ==> r[id] == paused[id]
  {
    map id | id in paused && !(id in targets && !paused[id] && id in gone) :: paused[id]
  }

  function SetAll(paused: map<Id, bool>, ids: seq<Id>, flag: bool): (r: map<Id, bool>)
    ensures r.Keys == paused.Keys
    ensures forall id :: id in paused ==> r[id] == if id in ids then flag else paused[id]
  {
    map id | id in paused :: if id in ids then flag else paused[id]
  }

  predicate EachOnce(ids: seq<Id>) {
    forall i, j :: 0 <= i < j < |ids| ==> ids[i] != ids[j]
  }

  /** The ledger with the agents of another trip, each once. */
  function Union(ledger: seq<Id>, ids: seq<Id>): (r: seq<Id>)
    ensures ledger <= r && forall id :: id in r <==> id in ledger || id in ids
    ensures EachOnce(ledger) ==> EachOnce(r)
  {
    if ids == [] then ledger
    else
      var front := Union(ledger, ids[..|ids| - 1]);
      var id := ids[|ids| - 1];
      assert ids == ids[..|ids| - 1] + [id];
      if id in front then front else front + [id]
  }

  /** A trip stands, or leaves no trace. */
  function Trip(st: State, targets: seq<Id>, cost: real, storeOk: bool): State {
    var mine := Claimed(st.paused, targets);
    match Outcome(st, cost, storeOk)
    case Tripped => State(SetAll(st.paused, mine, true), st.cap, true, Union(st.ledger, mine))
    case AlreadyTripped => State(SetAll(st.paused, mine, true), st.cap, true, Union(st.ledger, mine))
    case BudgetMoved => st
    case Failed => st
  }

  function Lift(st: State, storeOk: bool): State {
    if storeOk then State(SetAll(st.paused, st.ledger, false), st.cap, false, []) else st
  }

  /** The agents of a list that are still there. */
  function Live(paused: map<Id, bool>, ids: seq<Id>): seq<Id> {
    if ids == [] then []
    else
      var id := ids[|ids| - 1];
      Live(paused, ids[..|ids| - 1]) + (if id in paused then [id] else [])
  }

  /** What every trip does: it stands if and only if the store works and the marker is set
      already or there is a cap, above zero and not above the cost. If it stands the
      marker is set, every target that is there is paused, and the ledger grows by those
      that ran; if not, nothing is different. */
  lemma TripMeans(st: State, targets: seq<Id>, cost: real, storeOk: bool)
    ensures var n := Trip(st, targets, cost, storeOk);
      var covered := st.cap.Some? && 0.0 < st.cap.value && st.cap.value <= cost;
      var stands := storeOk && (st.marker || covered);
      && (n.marker <==> st.marker || stands) && n.cap == st.cap
      && (!stands ==> n == st)
      && n.paused.Keys == st.paused.Keys
      && (forall id :: id in st.paused ==> n.paused[id] == (st.paused[id] || (stands && id in targets)))
      && (forall id :: id in n.ledger <==>
            id in st.ledger || (stands && id in targets && id in st.paused && !st.paused[id]))
      && (EachOnce(st.ledger) ==> EachOnce(n.ledger))
      && (Outcome(st, cost, storeOk).Tripped? <==> stands && !st.marker)
  {}

  /** And every lift: without a working store nothing; with one the marker is gone, the
      ledger empty, its agents that are there run, and all others are as they were. */
  lemma LiftMeans(st: State, storeOk: bool)
    ensures var n := Lift(st, storeOk);
      && (!storeOk ==> n == st)
      && (storeOk ==> !n.marker && n.ledger == [] && n.cap == st.cap && n.paused.Keys == st.paused.Keys)
      && (storeOk ==> forall id :: id in st.paused ==> n.paused[id] == (st.paused[id] && id !in st.ledger))
  {}

  /** The live agents of a list are those that are there, in their order. */
  lemma {:induction false} LiveMeans(paused: map<Id, bool>, ids: seq<Id>) returns (at: seq<nat>)
    ensures |at| == |Live(paused, ids)|
    ensures forall k :: 0 <= k < |at| ==> at[k] < |ids| && Live(paused, ids)[k] == ids[at[k]]
    ensures forall j, k :: 0 <= j < k < |at| ==> at[j] < at[k]
    ensures forall i :: 0 <= i < |ids| ==> (i in at <==> ids[i] in paused)
    decreases |ids|
  {
    at := [];
    if ids != [] {
      var last := |ids| - 1;
      at := LiveMeans(paused, ids[..last]);
      if ids[last] in paused {
        at := at + [last];
      }
    }
  }

  lemma SetNone(paused: map<Id, bool>)
    ensures SetAll(paused, [], false) == paused && Live(paused, []) == []
  {}

  lemma SetStep(paused: map<Id, bool>, ids: seq<Id>, i: nat)
    requires i < |ids|
    ensures var now := SetAll(paused, ids[..i], false);
      var id := ids[i];
      if id in now then
        && SetAll(paused, ids[..i + 1], false) == now[id := false]
        && Live(paused, ids[..i + 1]) == Live(paused, ids[..i]) + [id]
      else SetAll(paused, ids[..i + 1], false) == now && Live(paused, ids[..i + 1]) == Live(paused, ids[..i])
  {
    assert ids[..i + 1] == ids[..i] + [ids[i]];
    assert ids[..i + 1][..i] == ids[..i];
  }

  lemma ClaimNone(paused: map<Id, bool>)
    ensures Claimed(paused, []) == [] && SetAll(paused, [], true) == paused
  {}

  lemma ClaimStep(paused: map<Id, bool>, targets: seq<Id>, i: nat)
    requires i < |targets|
    ensures var mine := Claimed(paused, targets[..i]);
      var more := Claimed(paused, targets[..i + 1]);
      var now := SetAll(paused, mine, true);
      var id := targets[i];
      if id in now && !now[id] then more == mine + [id] && SetAll(paused, more, true) == now[id := true]
      else more == mine
  {
    assert targets[..i + 1][..i] == targets[..i];
  }

  lemma OutcomeSeesNoPauses(st: State, paused: map<Id, bool>, cost: real, storeOk: bool)
    ensures Outcome(st.(paused := paused), cost, storeOk) == Outcome(st, cost, storeOk)
  {}

  lemma RevertUndoes(paused: map<Id, bool>, targets: seq<Id>)
    ensures var mine := Claimed(paused, targets);
      SetAll(SetAll(paused, mine, true), mine, false) == paused
  {}

  class Brake {
    var paused: map<Id, bool>
    var cap: Option<real>
    var marker: bool
    var ledger: seq<Id>
    /** The changes told to the user interface: the brake is on, or off. */
    var told: seq<bool>
    /** The agents a lift woke. */
    var wakes: seq<Id>

    ghost function Now(): State
      reads this
    {
      State(paused, cap, marker, ledger)
    }

    constructor (paused: map<Id, bool>, cap: Option<real>)
      ensures Now() == State(paused, cap, false, []) && told == [] && wakes == []
    {
      this.paused, this.cap, marker, ledger, told, wakes := paused, cap, false, [], [], [];
    }

    /** A trip that cannot list the agents does nothing; one during which running agents
        exit before they are interrupted, those of `gone`, is the trip without them. */
    method TripWorkspace(targets: Option<seq<Id>>, gone: set<Id>, cost: real, storeOk: bool)
      modifies this
      ensures wakes == old(wakes)
      ensures match targets
        case None => Now() == old(Now()) && told == old(told)
        case Some(ids) =>
          && Now() == Trip(old(Now()).(paused := Without(old(paused), ids, gone)), ids, cost, storeOk)
          && told == old(told) + (if Outcome(old(Now()), cost, storeOk).Tripped? then [true] else [])
    {
      if targets.None? {
        return;
      }
      hide Claimed, Outcome, SetAll, Union, Without;
      ghost var was := Now();
      ghost var base := Without(paused, targets.value, gone);
      var pausedNow := PauseRunning(targets.value, gone);
      var outcome := PersistTrip(cost, pausedNow, storeOk);
      OutcomeSeesNoPauses(was, paused, cost, storeOk);
      OutcomeSeesNoPauses(was, base, cost, storeOk);
      RevertUndoes(base, targets.value);
      HandleTripPersist(pausedNow, outcome);
    }

    /** Pauses the targets that run, and tells which those were. */
    method PauseRunning(targets: seq<Id>, gone: set<Id>) returns (pausedNow: seq<Id>)
      modifies this`paused
      ensures var base := Without(old(paused), targets, gone);
        pausedNow == Claimed(base, targets) && paused == SetAll(base, pausedNow, true)
    {
      hide Claimed, Without;
      ghost var base := Without(paused, targets, gone);
      pausedNow := [];
      assert targets[..0] == [] && Claimed(base, []) == [] by { ClaimNone(base); }
      for i := 0 to |targets|
        invariant pausedNow == Claimed(base, targets[..i])
        invariant forall id :: id in paused <==> id in old(paused) && (id in base || id !in targets[..i])
        invariant forall id :: id in paused ==> paused[id] == (id in pausedNow || old(paused)[id])
      {
        ClaimStep(base, targets, i);
        var id := targets[i];
        assert targets[..i + 1] == targets[..i] + [id];
        var alreadyPaused := if id in paused then paused[id] else true;
        if alreadyPaused {
          continue;
        }
        if id in gone {
          paused := paused - {id};
          continue;
        }
        paused := paused[id := true];
        pausedNow := pausedNow + [id];
      }
      assert targets[..|targets|] == targets;
    }

    /** The store's half of a trip, in one transaction. */
    method PersistTrip(cost: real, ids: seq<Id>, storeOk: bool) returns (outcome: Persist)
      modifies this`marker, this`ledger
      ensures outcome == Outcome(old(Now()), cost, storeOk)
      ensures if outcome.Tripped? || outcome.AlreadyTripped? then marker && ledger == Union(old(ledger), ids)
              else marker == old(marker) && ledger == old(ledger)
    {
      if !storeOk {
        return Failed;
      }
      var first := !marker && Covers(cap, cost);
      marker := marker || first;
      if !marker {
        return BudgetMoved;
      }
      ledger := Union(ledger, ids);
      return if first then Tripped else AlreadyTripped;
    }

    method HandleTripPersist(pausedNow: seq<Id>, outcome: Persist)
      modifies this`paused, this`told
      ensures paused == if outcome.BudgetMoved? || outcome.Failed? then SetAll(old(paused), pausedNow, false)
                        else old(paused)
      ensures told == old(told) + (if outcome.Tripped? then [true] else [])
    {
      match outcome
      case Tripped => told := told + [true];
      case AlreadyTripped =>
      case BudgetMoved => RevertPauses(pausedNow);
      case Failed => RevertPauses(pausedNow);
    }

    method RevertPauses(pausedNow: seq<Id>)
      modifies this`paused
      ensures paused == SetAll(old(paused), pausedNow, false)
    {
      hide SetAll, Live;
      SetNone(paused);
      for i := 0 to |pausedNow|
        invariant paused == SetAll(old(paused), pausedNow[..i], false)
      {
        SetStep(old(paused), pausedNow, i);
        if pausedNow[i] in paused {
          paused := paused[pausedNow[i] := false];
        }
      }
      assert pausedNow[..|pausedNow|] == pausedNow;
    }

    method LiftWorkspace(storeOk: bool)
      modifies this
      ensures Now() == Lift(old(Now()), storeOk)
      ensures told == old(told) + (if storeOk then [false] else [])
      ensures wakes == old(wakes) + (if storeOk then Live(old(paused), old(ledger)) else [])
    {
      if !storeOk {
        return;
      }
      hide SetAll, Live;
      var lifted := ledger;
      ledger, marker := [], false;
      SetNone(paused);
      for i := 0 to |lifted|
        invariant paused == SetAll(old(paused), lifted[..i], false)
        invariant cap == old(cap) && !marker && ledger == [] && told == old(told)
        invariant wakes == old(wakes) + Live(old(paused), lifted[..i])
      {
        SetStep(old(paused), lifted, i);
        if lifted[i] !in paused {
          continue;
        }
        paused := paused[lifted[i] := false];
        wakes := wakes + [lifted[i]];
      }
      assert lifted[..|lifted|] == lifted;
      told := told + [false];
    }
  }

  /** A trip and the lift after it give every agent back as it was, and so does a trip
      that does not stand on its own. */
  lemma LiftUndoesTrip(st: State, targets: seq<Id>, cost: real, ok: bool)
    requires !st.marker && st.ledger == []
    ensures Lift(Trip(st, targets, cost, ok), true) == st
    ensures !Trip(st, targets, cost, ok).marker <==> Trip(st, targets, cost, ok) == st
  {
    var mine := Claimed(st.paused, targets);
    var back := SetAll(SetAll(st.paused, mine, true), Union([], mine), false);
    assert back == st.paused;
    assert SetAll(st.paused, [], false) == st.paused;
  }

  /** While the marker stands, trips only add: every live target is paused after one,
      and a lift resumes what all of them paused and nothing else. */
  lemma TripsAddUp(st: State, first: seq<Id>, second: seq<Id>, cost: real, cost2: real)
    requires !st.marker && st.ledger == [] && Covers(st.cap, cost)
    ensures var two := Trip(Trip(st, first, cost, true), second, cost2, true);
      && two.marker
      && (forall id :: id in st.paused && (id in first || id in second) ==> two.paused[id])
      && (forall id :: id in two.ledger <==> id in st.paused && !st.paused[id] && (id in first || id in second))
      && Lift(two, true) == st
  {
    var one := Trip(st, first, cost, true);
    var two := Trip(one, second, cost2, true);
    assert Lift(two, true).paused == st.paused;
  }
}
