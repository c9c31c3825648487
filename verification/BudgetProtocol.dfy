/** The budget brake with everything at once: any number of trips and lifts in
    flight, an operator pausing and resuming, agents coming and going. */
module BudgetProtocol {
  import opened Options

  type Id = nat

  /** A trip goes over its targets, looking at each and then pausing it; a trip the
      store refused takes its pauses back one by one. */
  datatype Trip = Pausing(todo: seq<Id>, looked: Option<Id>, mine: set<Id>) | Reverting(mine: set<Id>)

  /** `operator` is whose pause is the operator's own, made and not ended by anyone. */
  datatype State = State(
    live: set<Id>, paused: set<Id>, operator: set<Id>, marker: bool, ledger: set<Id>,
    trips: map<nat, Trip>, lifts: map<nat, set<Id>>)

  /** The store answers that the trip stands or that the cap has moved, or it fails. */
  datatype Answer = Stands | Moved | Failed

  datatype Step =
    | Spawn(id: Id)
    | Exit(id: Id)
    | OperatorPause(id: Id)
    | OperatorResume(id: Id)
    | TripBegin(t: nat, targets: seq<Id>)
    | TripLook(t: nat)
    | TripPause(t: nat)
    | TripPersist(t: nat, answer: Answer)
    | TripRevert(t: nat, id: Id)
    | TripEnd(t: nat)
    | LiftBegin(l: nat)
    | LiftResume(l: nat, id: Id)
    | LiftEnd(l: nat)

  /** A store that answers takes no trip back while the marker is set. The gates in front
      of spawning and resuming are looked up first and fail open, so both can come
      through while the marker is set. */
  predicate Enabled(s: State, step: Step) {
    match step
    case Spawn(id) => id !in s.live
    case Exit(id) => id in s.live
    case OperatorPause(id) => id in s.live
    case OperatorResume(id) => id in s.live
    case TripBegin(t, _) => t !in s.trips
    case TripLook(t) => t in s.trips && s.trips[t].Pausing? && s.trips[t].todo != [] && s.trips[t].looked.None?
    case TripPause(t) => t in s.trips && s.trips[t].Pausing? && s.trips[t].looked.Some?
    case TripPersist(t, answer) =>
      && t in s.trips && s.trips[t].Pausing? && s.trips[t].todo == [] && s.trips[t].looked.None?
      && (answer.Moved? ==> !s.marker)
    case TripRevert(t, id) => t in s.trips && s.trips[t].Reverting? && id in s.trips[t].mine
    case TripEnd(t) => t in s.trips && s.trips[t] == Reverting({})
    case LiftBegin(l) => l !in s.lifts
    case LiftResume(l, id) => l in s.lifts && id in s.lifts[l]
    case LiftEnd(l) => l in s.lifts && s.lifts[l] == {}
  }

  function Next(s: State, step: Step): State
    requires Enabled(s, step)
  {
    match step
    case Spawn(id) => s.(live := s.live + {id}, operator := s.operator - {id}, paused := s.paused - {id})
    case Exit(id) => s.(live := s.live - {id}, operator := s.operator - {id}, paused := s.paused - {id})
    case OperatorPause(id) => s.(paused := s.paused + {id}, operator := s.operator + {id})
    case OperatorResume(id) => s.(paused := s.paused - {id}, operator := s.operator - {id})
    case TripBegin(t, targets) => s.(trips := s.trips[t := Pausing(targets, None, {})])
    case TripLook(t) =>
      var trip := s.trips[t];
      var id := trip.todo[0];
      var looked := if id in s.live && id !in s.paused then Some(id) else None;
      s.(trips := s.trips[t := Pausing(trip.todo[1..], looked, trip.mine)])
    case TripPause(t) =>
      var trip := s.trips[t];
      var id := trip.looked.value;
      if id in s.live then
        s.(paused := s.paused + {id}, trips := s.trips[t := Pausing(trip.todo, None, trip.mine + {id})])
      else s.(trips := s.trips[t := Pausing(trip.todo, None, trip.mine)])
    case TripPersist(t, answer) =>
      match answer {
        case Stands => s.(marker := true, ledger := s.ledger + s.trips[t].mine, trips := s.trips - {t})
        case _ => s.(trips := s.trips[t := Reverting(s.trips[t].mine)])
      }
    case TripRevert(t, id) =>
      s.(paused := s.paused - {id}, operator := s.operator - {id},
         trips := s.trips[t := Reverting(s.trips[t].mine - {id})])
    case TripEnd(t) => s.(trips := s.trips - {t})
    case LiftBegin(l) => s.(marker := false, ledger := {}, lifts := s.lifts[l := s.ledger])
    case LiftResume(l, id) =>
      s.(paused := s.paused - {id}, operator := s.operator - {id}, lifts := s.lifts[l := s.lifts[l] - {id}])
    case LiftEnd(l) => s.(lifts := s.lifts - {l})
  }

  ghost predicate Runs(s: State, steps: seq<Step>)
    decreases |steps|
  {
    steps == [] || (Enabled(s, steps[0]) && Runs(Next(s, steps[0]), steps[1..]))
  }

  ghost function Final(s: State, steps: seq<Step>): State
    requires Runs(s, steps)
    decreases |steps|
  {
    if steps == [] then s else Final(Next(s, steps[0]), steps[1..])
  }

  const START := State({}, {}, {}, false, {}, map[], map[])

  // ---- who keeps an agent paused ---------------------------------------

  /** A trip or a lift in flight is about to unpause `id`, or may still be. */
  ghost predicate InFlight(s: State, id: Id) {
    (exists t :: t in s.trips && id in s.trips[t].mine) || (exists l :: l in s.lifts && id in s.lifts[l])
  }

  /** Every paused agent is accounted for. */
  ghost predicate Accounted(s: State) {
    && (!s.marker ==> s.ledger == {})
    && s.paused <= s.live
    && forall id :: id in s.paused ==> id in s.operator || (s.marker && id in s.ledger) || InFlight(s, id)
  }

  lemma AccountedStep(s: State, step: Step)
    requires Accounted(s) && Enabled(s, step)
    ensures Accounted(Next(s, step))
  {
    var n := Next(s, step);
    forall id | id in n.paused
      ensures id in n.operator || (n.marker && id in n.ledger) || InFlight(n, id)
    {
      StillAccounted(s, step, id);
    }
  }

  lemma StillAccounted(s: State, step: Step, id: Id)
    requires Accounted(s) && Enabled(s, step) && id in Next(s, step).paused
    ensures var n := Next(s, step); id in n.operator || (n.marker && id in n.ledger) || InFlight(n, id)
  {
    var n := Next(s, step);
    if id in s.paused && id !in n.operator && !(n.marker && id in n.ledger) {
      if t :| t in s.trips && id in s.trips[t].mine {
        assert t in n.trips && id in n.trips[t].mine;
      } else if l :| l in s.lifts && id in s.lifts[l] {
        assert l in n.lifts && id in n.lifts[l];
      } else {
        assert step.LiftBegin? && id in n.lifts[step.l];
      }
    } else if id !in s.paused && step.TripPause? {
      assert id in n.trips[step.t].mine;
    }
  }

  /** In every run, whenever nothing is in flight, an agent is paused only because the
      operator paused it or because it is in the ledger of a marker that is set. */
  lemma {:induction false} PausedForAReason(s: State, steps: seq<Step>)
    requires Accounted(s) && Runs(s, steps)
    ensures var f := Final(s, steps);
      Accounted(f)
      && (f.trips == map[] && f.lifts == map[] ==>
            forall id :: id in f.paused ==> id in f.operator || (f.marker && id in f.ledger))
    decreases |steps|
  {
    if steps != [] {
      AccountedStep(s, steps[0]);
      PausedForAReason(Next(s, steps[0]), steps[1..]);
    }
  }

  // ---- how long a pause lasts ------------------------------------------

  /** A trip has looked at `id`, found it running and is about to pause it. */
  ghost predicate InWindow(s: State, id: Id) {
    exists t :: t in s.trips && s.trips[t].Pausing? && s.trips[t].looked == Some(id)
  }

  /** Something in flight has its hand on `id`. */
  ghost predicate Grasped(s: State, id: Id) {
    InFlight(s, id) || InWindow(s, id)
  }

  /** The brake has its hand on `id`: now, or with the next lift. */
  ghost predicate Held(s: State, id: Id) {
    id in s.ledger || Grasped(s, id)
  }

  predicate BrakeStep(step: Step) {
    match step
    case Spawn(_) => false
    case Exit(_) => false
    case OperatorPause(_) => false
    case OperatorResume(_) => false
    case _ => true
  }

  /** Steps of the brake alone, with lifts begun only if `lifting`. */
  ghost predicate BrakeOnly(steps: seq<Step>, lifting: bool) {
    forall i :: 0 <= i < |steps| ==> BrakeStep(steps[i]) && (steps[i].LiftBegin? ==> lifting)
  }

  /** Whatever the brake does, `id` stays paused. */
  ghost predicate Lasts(s: State, id: Id, lifting: bool) {
    forall steps :: Runs(s, steps) && BrakeOnly(steps, lifting) ==> id in Final(s, steps).paused
  }

  /** Paused, and no hand on it that the steps considered could open. */
  ghost predicate Firm(s: State, id: Id, lifting: bool) {
    id in s.live && id in s.paused && !Grasped(s, id) && (lifting ==> id !in s.ledger)
  }

  lemma FirmStep(s: State, step: Step, id: Id, lifting: bool)
    requires Firm(s, id, lifting) && Enabled(s, step)
    requires step != OperatorResume(id) && step != Exit(id) && (step.LiftBegin? ==> lifting)
    ensures Firm(Next(s, step), id, lifting)
  {
    var n := Next(s, step);
    forall t | t in n.trips
      ensures id !in n.trips[t].mine && (n.trips[t].Pausing? ==> n.trips[t].looked != Some(id))
    {
      if t in s.trips {
        assert id !in s.trips[t].mine;
      }
    }
    forall l | l in n.lifts
      ensures id !in n.lifts[l]
    {
      if l in s.lifts {
        assert id !in s.lifts[l];
      }
    }
  }

  /** A firm pause lasts through everything, trips, rollbacks, lifts, spawns and other
      agents' pauses, until the operator ends it or the agent exits. */
  lemma {:induction false} FirmLasts(s: State, steps: seq<Step>, id: Id, lifting: bool)
    requires Firm(s, id, lifting) && Runs(s, steps)
    requires OperatorResume(id) !in steps && Exit(id) !in steps
    requires forall i :: 0 <= i < |steps| && steps[i].LiftBegin? ==> lifting
    ensures Firm(Final(s, steps), id, lifting)
    decreases |steps|
  {
    if steps != [] {
      FirmStep(s, steps[0], id, lifting);
      FirmLasts(Next(s, steps[0]), steps[1..], id, lifting);
    }
  }

  /** A trip with its hand on `id` can still end in a failed write that unpauses it. */
  lemma {:induction false} TripLetsGo(s: State, t: nat, id: Id) returns (steps: seq<Step>)
    requires t in s.trips && id in s.live
    requires id in s.trips[t].mine || (s.trips[t].Pausing? && s.trips[t].looked == Some(id))
    ensures Runs(s, steps) && BrakeOnly(steps, false) && id !in Final(s, steps).paused
    decreases s.trips[t].Pausing?, if s.trips[t].Pausing? then |s.trips[t].todo| else 0,
      s.trips[t].Pausing? && s.trips[t].looked.Some?
  {
    var trip := s.trips[t];
    var step := match trip
      case Reverting(_) => TripRevert(t, id)
      case Pausing(todo, looked, _) =>
        if looked.Some? then TripPause(t) else if todo != [] then TripLook(t) else TripPersist(t, Failed);
    var rest := [];
    if trip.Pausing? {
      rest := TripLetsGo(Next(s, step), t, id);
    }
    steps := RunsBefore(s, step, Next(s, step), rest);
  }

  /** So can every other hand. */
  lemma HandLetsGo(s: State, id: Id, lifting: bool) returns (steps: seq<Step>)
    requires id in s.live && (Grasped(s, id) || (lifting && id in s.ledger))
    ensures Runs(s, steps) && BrakeOnly(steps, lifting) && id !in Final(s, steps).paused
  {
    if t :| t in s.trips && (id in s.trips[t].mine || (s.trips[t].Pausing? && s.trips[t].looked == Some(id))) {
      steps := TripLetsGo(s, t, id);
    } else if l :| l in s.lifts && id in s.lifts[l] {
      steps := RunsBefore(s, LiftResume(l, id), Next(s, LiftResume(l, id)), []);
    } else {
      var l := Above(s.lifts.Keys);
      var b := Next(s, LiftBegin(l));
      steps := RunsBefore(b, LiftResume(l, id), Next(b, LiftResume(l, id)), []);
      steps := RunsBefore(s, LiftBegin(l), b, steps);
    }
  }

  /** With or without lifts, in any state: a pause lasts through all the brake can do if
      and only if no hand of the brake is on the agent that could let go. */
  lemma PauseLasts(s: State, id: Id, lifting: bool)
    requires id in s.live && id in s.paused
    ensures Lasts(s, id, lifting) <==> Firm(s, id, lifting)
  {
    if Firm(s, id, lifting) {
      forall steps | Runs(s, steps) && BrakeOnly(steps, lifting)
        ensures id in Final(s, steps).paused
      {
        FirmLasts(s, steps, id, lifting);
      }
    } else {
      var steps := HandLetsGo(s, id, lifting);
    }
  }

  // ---- the operator's own pauses ---------------------------------------

  /** The moment of the pause decides, whatever is in flight: the operator's pause
      outlives all the brake can do, lifts too, if and only if the brake does not hold
      the agent then, neither in its ledger nor in a trip or lift under way. */
  lemma OperatorPauseLasts(s: State, id: Id)
    requires id in s.live
    ensures Lasts(Next(s, OperatorPause(id)), id, true) <==> !Held(s, id)
  {
    var p := Next(s, OperatorPause(id));
    assert InFlight(p, id) <==> InFlight(s, id);
    assert InWindow(p, id) <==> InWindow(s, id);
    PauseLasts(p, id, true);
  }

  /** With nothing in flight the ledger alone decides, and the next lift undoes the pause
      of an agent in it. */
  lemma PauseAgainstLift(s: State, id: Id, l: nat)
    requires s.trips == map[] && s.lifts == map[] && id in s.live
    ensures var p := Next(s, OperatorPause(id));
      var b := Next(p, LiftBegin(l));
      && (Lasts(p, id, true) <==> id !in s.ledger)
      && (id in s.ledger <==> Enabled(b, LiftResume(l, id)))
      && (id in s.ledger ==> id !in Next(b, LiftResume(l, id)).paused)
  {
    OperatorPauseLasts(s, id);
    assert !Grasped(s, id);
    assert Next(Next(s, OperatorPause(id)), LiftBegin(l)).lifts[l] == s.ledger;
  }

  /** And it stays the operator's as long as it lasts. */
  lemma {:induction false} OperatorKeepsIt(s: State, steps: seq<Step>, id: Id)
    requires Firm(s, id, true) && id in s.operator && Runs(s, steps)
    requires OperatorResume(id) !in steps && Exit(id) !in steps
    ensures Firm(Final(s, steps), id, true) && id in Final(s, steps).operator
    decreases |steps|
  {
    if steps != [] {
      FirmStep(s, steps[0], id, true);
      OperatorKeepsIt(Next(s, steps[0]), steps[1..], id);
    }
  }

  // ---- a store that answers --------------------------------------------

  /** No write of a trip fails. */
  predicate StoreAnswers(steps: seq<Step>) {
    forall i :: 0 <= i < |steps| ==> !(steps[i].TripPersist? && steps[i].answer.Failed?)
  }

  /** Something that lets go of `id` is under way: a trip taken back, or a lift. */
  ghost predicate LettingGo(s: State, id: Id) {
    || (exists t :: t in s.trips && s.trips[t].Reverting? && id in s.trips[t].mine)
    || (exists l :: l in s.lifts && id in s.lifts[l])
  }

  /** Paused under the marker, and nothing under way that lets go. */
  ghost predicate Braked(s: State, id: Id) {
    s.marker && id in s.live && id in s.paused && !LettingGo(s, id)
  }

  lemma BrakedStep(s: State, step: Step, id: Id)
    requires Braked(s, id) && Enabled(s, step) && StoreAnswers([step])
    requires step != OperatorResume(id) && step != Exit(id) && !step.LiftBegin?
    ensures Braked(Next(s, step), id)
  {
    assert [step][0] == step;
    var n := Next(s, step);
    forall t | t in n.trips && n.trips[t].Reverting?
      ensures id !in n.trips[t].mine
    {
      assert t in s.trips && s.trips[t].Reverting?;
      assert id !in s.trips[t].mine;
    }
    forall l | l in n.lifts
      ensures id !in n.lifts[l]
    {
      assert l in s.lifts && id !in s.lifts[l];
    }
  }

  lemma {:induction false} BrakedLasts(s: State, steps: seq<Step>, id: Id)
    requires Braked(s, id) && Runs(s, steps) && StoreAnswers(steps)
    requires OperatorResume(id) !in steps && Exit(id) !in steps
    requires forall i :: 0 <= i < |steps| ==> !steps[i].LiftBegin?
    ensures Braked(Final(s, steps), id)
    decreases |steps|
  {
    if steps != [] {
      BrakedStep(s, steps[0], id);
      BrakedLasts(Next(s, steps[0]), steps[1..], id);
    }
  }

  /** Whatever the brake does with a store that answers, without a lift, `id` stays
      paused. */
  ghost predicate LastsAnswered(s: State, id: Id) {
    forall steps :: Runs(s, steps) && BrakeOnly(steps, false) && StoreAnswers(steps) ==>
      id in Final(s, steps).paused
  }

  /** Under the marker, with a store that answers, a pause lasts until a lift if and only
      if nothing under way lets go of the agent: trips still pausing do no harm. */
  lemma PauseLastsAnswered(s: State, id: Id)
    requires s.marker && id in s.live && id in s.paused
    ensures LastsAnswered(s, id) <==> !LettingGo(s, id)
  {
    if t :| t in s.trips && s.trips[t].Reverting? && id in s.trips[t].mine {
      var steps := RunsBefore(s, TripRevert(t, id), Next(s, TripRevert(t, id)), []);
      assert BrakeOnly(steps, false) && StoreAnswers(steps) && id !in Final(s, steps).paused;
    } else if l :| l in s.lifts && id in s.lifts[l] {
      var steps := RunsBefore(s, LiftResume(l, id), Next(s, LiftResume(l, id)), []);
      assert BrakeOnly(steps, false) && StoreAnswers(steps) && id !in Final(s, steps).paused;
    } else {
      forall steps | Runs(s, steps) && BrakeOnly(steps, false) && StoreAnswers(steps)
        ensures id in Final(s, steps).paused
      {
        BrakedLasts(s, steps, id);
      }
    }
  }

  // ---- the marker over a running agent ---------------------------------

  /** The trip `t` aside, something in flight has its hand on `id`. */
  ghost predicate GraspedByOthers(s: State, t: nat, id: Id) {
    Grasped(s.(trips := s.trips - {t}), id)
  }

  /** A trip that stands stops an agent for good, until a lift, if and only if the
      agent is paused at that moment and nothing else in flight has its hand on it;
      and, if no later write fails, if and only if it is paused and nothing under way
      lets go of it. */
  lemma StandingTripStops(s: State, t: nat, id: Id)
    requires Enabled(s, TripPersist(t, Stands)) && id in s.live
    ensures var n := Next(s, TripPersist(t, Stands));
      && n.marker
      && (Lasts(n, id, false) <==> id in s.paused && !GraspedByOthers(s, t, id))
      && (LastsAnswered(n, id) <==> id in s.paused && !LettingGo(s, id))
  {
    var n := Next(s, TripPersist(t, Stands));
    if id in s.paused {
      PauseLasts(n, id, false);
      PauseLastsAnswered(n, id);
      var others := s.(trips := s.trips - {t});
      assert n.trips == others.trips && n.lifts == others.lifts;
      assert Grasped(n, id) <==> Grasped(others, id);
      StandingLetsGo(s, t, id);
    } else {
      RunsNothing(n);
      assert BrakeOnly([], false) && StoreAnswers([]) && id !in Final(n, []).paused;
    }
  }

  lemma StandingLetsGo(s: State, t: nat, id: Id)
    requires Enabled(s, TripPersist(t, Stands))
    ensures LettingGo(Next(s, TripPersist(t, Stands)), id) <==> LettingGo(s, id)
  {
    var n := Next(s, TripPersist(t, Stands));
    if k :| k in s.trips && s.trips[k].Reverting? && id in s.trips[k].mine {
      assert k in n.trips && n.trips[k] == s.trips[k];
    }
    if l :| l in s.lifts && id in s.lifts[l] {
      assert l in n.lifts;
    }
  }

  /** Another trip's hand: the second trip finds the agent paused by the first and stands
      without it, and the write of the first fails, so that it is taken back. */
  lemma MarkerOverARunningAgent() returns (steps: seq<Step>)
    ensures Runs(START, steps)
    ensures Final(START, steps) == State({7}, {}, {}, true, {}, map[], map[])
  {
    hide Runs, Final;
    var looking := Pausing([7], None, {});
    var s1 := State({7}, {}, {}, false, {}, map[], map[]);
    var s2 := s1.(trips := map[1 := looking]);
    var s3 := s1.(trips := map[1 := looking, 2 := looking]);
    var s4 := s1.(trips := map[1 := Pausing([], Some(7), {}), 2 := looking]);
    var s5 := s1.(paused := {7}, trips := map[1 := Pausing([], None, {7}), 2 := looking]);
    steps := SecondTripStandsAlone(s5);
    assert [7][1..] == [];
    var none: set<Id> := {};
    assert none + {7} == {7} && none - {7} == none;
    assert s4.trips[1 := Pausing([], None, none + {7})] == s5.trips;
    steps := RunsBefore(s4, TripPause(1), s5, steps);
    steps := RunsBefore(s3, TripLook(1), s4, steps);
    steps := RunsBefore(s2, TripBegin(2, [7]), s3, steps);
    steps := RunsBefore(s1, TripBegin(1, [7]), s2, steps);
    steps := RunsBefore(START, Spawn(7), s1, steps);
  }

  lemma SecondTripStandsAlone(s5: State) returns (steps: seq<Step>)
    requires s5 == State({7}, {7}, {}, false, {},
      map[1 := Pausing([], None, {7}), 2 := Pausing([7], None, {})], map[])
    ensures Runs(s5, steps)
    ensures Final(s5, steps) == State({7}, {}, {}, true, {}, map[], map[])
  {
    hide Runs, Final;
    var s6 := s5.(trips := map[1 := Pausing([], None, {7}), 2 := Pausing([], None, {})]);
    var s7 := s5.(marker := true, trips := map[1 := Pausing([], None, {7})]);
    var s8 := s7.(trips := map[1 := Reverting({7})]);
    var s9 := s8.(paused := {}, trips := map[1 := Reverting({})]);
    var s10 := s9.(trips := map[]);
    assert s6.trips - {2} == s7.trips && s9.trips - {1} == s10.trips && [7][1..] == [];
    var one: set<Id> := {7};
    assert one - {7} == {} && map[1 := Reverting(one)][1 := Reverting({})] == s9.trips;
    RunsNothing(s10);
    steps := RunsBefore(s9, TripEnd(1), s10, []);
    steps := RunsBefore(s8, TripRevert(1, 7), s9, steps);
    steps := RunsBefore(s7, TripPersist(1, Failed), s8, steps);
    steps := RunsBefore(s6, TripPersist(2, Stands), s7, steps);
    steps := RunsBefore(s5, TripLook(2), s6, steps);
  }

  /** Not paused at that moment: the operator resumes the agent while the only trip
      there is waits for the store, and the trip stands. */
  lemma ResumedBeforeTheAnswer() returns (steps: seq<Step>)
    ensures Runs(START, steps)
    ensures Final(START, steps) == State({7}, {}, {}, true, {7}, map[], map[])
  {
    hide Runs, Final;
    var s1 := State({7}, {}, {}, false, {}, map[], map[]);
    var s2 := s1.(trips := map[1 := Pausing([7], None, {})]);
    var s3 := s1.(trips := map[1 := Pausing([], Some(7), {})]);
    var s4 := s1.(paused := {7}, trips := map[1 := Pausing([], None, {7})]);
    var s5 := s4.(paused := {});
    var s6 := s1.(marker := true, ledger := {7});
    var none: set<Id> := {};
    assert [7][1..] == [] && none + {7} == {7} && none - {7} == none && s4.paused - {7} == none;
    assert s3.trips[1 := Pausing([], None, none + {7})] == s4.trips;
    assert s5.trips - {1} == s6.trips;
    RunsNothing(s6);
    steps := RunsBefore(s5, TripPersist(1, Stands), s6, []);
    steps := RunsBefore(s4, OperatorResume(7), s5, steps);
    steps := RunsBefore(s3, TripPause(1), s4, steps);
    steps := RunsBefore(s2, TripLook(1), s3, steps);
    steps := RunsBefore(s1, TripBegin(1, [7]), s2, steps);
    steps := RunsBefore(START, Spawn(7), s1, steps);
  }

  lemma RunsNothing(s: State)
    ensures Runs(s, []) && Final(s, []) == s
  {}

  lemma RunsBefore(s: State, step: Step, next: State, rest: seq<Step>) returns (steps: seq<Step>)
    requires Enabled(s, step) && Next(s, step) == next && Runs(next, rest)
    ensures steps == [step] + rest && Runs(s, steps) && Final(s, steps) == Final(next, rest)
  {
    steps := [step] + rest;
  }

  /** There is always a name for another lift. */
  lemma {:induction false} Above(names: set<nat>) returns (l: nat)
    ensures forall n :: n in names ==> n < l
    decreases |names|
  {
    if names == {} {
      l := 0;
    } else {
      var n :| n in names;
      var above := Above(names - {n});
      l := if n < above then above else n + 1;
      assert forall k :: k in names ==> k == n || k in names - {n};
    }
  }
}
