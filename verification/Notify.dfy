/** Waiting for the stream to change: producers that update and then notify,
    against waiters that register, look, and only then go to sleep, in any
    interleaving of their steps. */
module Notify {

  type Id = nat

  datatype Phase = Looping | Registered | Asleep | Returned

  /** One call that waits for a number above `after`. `notified` belongs to the
      registration it holds. */
  datatype Waiter = Waiter(after: nat, phase: Phase, notified: bool)

  /** `owed` counts the producers between their update and their notification. */
  datatype State = State(head: nat, closed: bool, owed: nat, waiters: map<Id, Waiter>)

  datatype Step =
    | Append
    | Close
    | NotifyAll
    | Arrive(id: Id, after: nat)
    | Register(id: Id)
    | Look(id: Id)
    | Wake(id: Id)
    | GiveUp(id: Id)

  /** There is something for the waiter to return for. */
  predicate Ready(s: State, w: Waiter) { s.head > w.after || s.closed }

  predicate Enabled(s: State, step: Step) {
    match step
    case Append => true
    case Close => true
    case NotifyAll => s.owed > 0
    case Arrive(id, _) => id !in s.waiters
    case Register(id) => id in s.waiters && s.waiters[id].phase == Looping
    case Look(id) => id in s.waiters && s.waiters[id].phase == Registered
    case Wake(id) => id in s.waiters && s.waiters[id].phase == Asleep && s.waiters[id].notified
    case GiveUp(id) => id in s.waiters
  }

  /** A notification reaches every registration there is, looked at or not. */
  function Told(w: Waiter): Waiter {
    if w.phase == Registered || w.phase == Asleep then w.(notified := true) else w
  }

  function Next(s: State, step: Step): State
    requires Enabled(s, step)
  {
    match step
    case Append => s.(head := s.head + 1, owed := s.owed + 1)
    case Close => s.(closed := true, owed := s.owed + 1)
    case NotifyAll => s.(owed := s.owed - 1, waiters := map id | id in s.waiters :: Told(s.waiters[id]))
    case Arrive(id, after) => s.(waiters := s.waiters[id := Waiter(after, Looping, false)])
    case Register(id) => s.(waiters := s.waiters[id := s.waiters[id].(phase := Registered, notified := false)])
    case Look(id) =>
      var w := s.waiters[id];
      s.(waiters := s.waiters[id := w.(phase := if Ready(s, w) then Returned else Asleep)])
    case Wake(id) => s.(waiters := s.waiters[id := s.waiters[id].(phase := Looping)])
    case GiveUp(id) => s.(waiters := s.waiters - {id})
  }

  const START := State(0, false, 0, map[])

  ghost predicate Runs(s: State, steps: seq<Step>)
    decreases |steps|
  {
    steps == [] || (Enabled(s, steps[0]) && Runs(Next(s, steps[0]), steps[1..]))
  }

  ghost function Final(s: State, steps: seq<Step>): State
    requires Runs(s, steps)
    decreases |steps|
  {
    if steps == [] then s else Final(Next(s, steps[0]), steps[1..])
  }

  /** Asleep, not notified, and with something to return for. */
  predicate Missing(s: State, w: Waiter) { w.phase == Asleep && !w.notified && Ready(s, w) }

  /** Nobody sleeps through a change unless the notification of it is still to come. */
  ghost predicate NoneMissed(s: State) {
    forall id :: id in s.waiters && Missing(s, s.waiters[id]) ==> s.owed > 0
  }

  /** Nobody returns without a reason. */
  ghost predicate ReturnsForCause(s: State) {
    forall id :: id in s.waiters && s.waiters[id].phase == Returned ==> Ready(s, s.waiters[id])
  }

  lemma NoneMissedStep(s: State, step: Step)
    requires Enabled(s, step) && NoneMissed(s) && ReturnsForCause(s)
    ensures NoneMissed(Next(s, step)) && ReturnsForCause(Next(s, step))
  {
    var t := Next(s, step);
    forall id | id in t.waiters
      ensures step.GiveUp? ==> id in s.waiters && t.waiters[id] == s.waiters[id]
    {}
    forall id | id in t.waiters && t.waiters[id].phase == Returned
      ensures Ready(t, t.waiters[id])
    {
      assert id in s.waiters;
    }
  }

  lemma {:induction false} NoLostWakeup(s: State, steps: seq<Step>)
    requires NoneMissed(s) && ReturnsForCause(s) && Runs(s, steps)
    ensures NoneMissed(Final(s, steps)) && ReturnsForCause(Final(s, steps))
    decreases |steps|
  {
    if steps != [] {
      NoneMissedStep(s, steps[0]);
      NoLostWakeup(Next(s, steps[0]), steps[1..]);
    }
  }

  /** From the start, whatever happens: no wake-up is lost, and once no notification
      is owed every waiter with cause returns after at most three steps of its own. */
  lemma EveryRun(steps: seq<Step>, id: Id) returns (own: seq<Step>)
    requires Runs(START, steps)
    ensures NoneMissed(Final(START, steps)) && ReturnsForCause(Final(START, steps))
    ensures var s := Final(START, steps);
      s.owed == 0 && id in s.waiters && Ready(s, s.waiters[id]) ==>
        && |own| <= 3 && (forall i :: 0 <= i < |own| ==> own[i] in {Wake(id), Register(id), Look(id)})
        && Runs(s, own) && id in Final(s, own).waiters && Final(s, own).waiters[id].phase == Returned
  {
    NoLostWakeup(START, steps);
    var s := Final(START, steps);
    own := [];
    if s.owed == 0 && id in s.waiters && Ready(s, s.waiters[id]) {
      own := match s.waiters[id].phase
        case Returned => []
        case Registered => [Look(id)]
        case Looping => [Register(id), Look(id)]
        case Asleep => [Wake(id), Register(id), Look(id)];
      OwnSteps(s, id, own);
    }
  }

  lemma OwnSteps(s: State, id: Id, own: seq<Step>)
    requires id in s.waiters && Ready(s, s.waiters[id])
    requires s.waiters[id].phase == Asleep ==> s.waiters[id].notified
    requires own == match s.waiters[id].phase
      case Returned => []
      case Registered => [Look(id)]
      case Looping => [Register(id), Look(id)]
      case Asleep => [Wake(id), Register(id), Look(id)]
    ensures Runs(s, own) && id in Final(s, own).waiters && Final(s, own).waiters[id].phase == Returned
    decreases |own|
  {
    if own != [] {
      OwnSteps(Next(s, own[0]), id, own[1..]);
    }
  }
}
