/** The Stop hook: claims an agent's unread wakes and delivers them, no more than a
    few times in a window. */
module WakeThrottle {
  import opened Options
  import opened Arith

  type Wake = nat

  const U64_MAX := 0xFFFF_FFFF_FFFF_FFFF
  const U32_MAX := 0xFFFF_FFFF

  datatype Config = Config(throttleSecs: nat, maxWakes: nat)

  /** The state file. */
  datatype Throttle = Throttle(lastAtMs: nat, count: nat)

  datatype Emit = Noop | Block(wakes: seq<Wake>)

  /** The file, the mailbox of the server, all the hook has put out, and the wakes the
      server marked read for an answer that never came. */
  datatype State = State(file: Option<Throttle>, unread: seq<Wake>, delivered: seq<Wake>, lost: seq<Wake>)

  /** The server is out of reach or fails before it claims anything; it says zero
      because the budget brake is on; it claims, but its answer is late or broken; or
      it claims and answers. */
  datatype Server = Unreachable | Braked | AnswerLost | Answers

  /** What one invocation meets: the time, the flag of the caller, the server, and
      whether the file can be written and removed. */
  datatype Call = Call(
    nowMs: nat, stopActive: bool, agentKnown: bool, server: Server, writeOk: bool, removeOk: bool)

  function SatMul(a: nat, b: nat): nat { if a * b > U64_MAX then U64_MAX else a * b }

  function WindowMs(cfg: Config): nat { SatMul(cfg.throttleSecs, 1000) }

  function Loaded(file: Option<Throttle>): Throttle {
    if file.Some? then file.value else Throttle(0, 0)
  }

  predicate WindowActive(cfg: Config, file: Option<Throttle>, now: nat) {
    Loaded(file).lastAtMs != 0 && SatSub(now, Loaded(file).lastAtMs) < WindowMs(cfg)
  }

  function Bumped(cfg: Config, file: Option<Throttle>, now: nat): Throttle {
    if WindowActive(cfg, file, now) then
      Throttle(now, if Loaded(file).count < U32_MAX then Loaded(file).count + 1 else U32_MAX)
    else Throttle(now, 1)
  }

  /** The hook gets as far as asking the server. */
  predicate Asks(cfg: Config, file: Option<Throttle>, c: Call) {
    !c.stopActive && c.agentKnown && !(WindowActive(cfg, file, c.nowMs) && Loaded(file).count >= cfg.maxWakes)
  }

  /** It is told that there is nothing for it. */
  predicate ToldZero(cfg: Config, st: State, c: Call) {
    Asks(cfg, st.file, c) && (c.server.Braked? || (c.server.Answers? && st.unread == []))
  }

  function Invoke(cfg: Config, st: State, c: Call): (State, Emit) {
    if !Asks(cfg, st.file, c) then (st, Noop)
    else if ToldZero(cfg, st, c) then (st.(file := if c.removeOk then None else st.file), Noop)
    else match c.server
      case Unreachable => (st, Noop)
      case AnswerLost => (st.(unread := [], lost := st.lost + st.unread), Noop)
      case _ =>
        var file := if c.writeOk then Some(Bumped(cfg, st.file, c.nowMs)) else st.file;
        (st.(file := file, unread := [], delivered := st.delivered + st.unread), Block(st.unread))
  }

  /** The gate is closed: there is a file with a time in it, the window since that time
      (in milliseconds of 64 bits) is not over, and its count has reached the limit. */
  predicate Closed(cfg: Config, file: Option<Throttle>, now: nat) {
    && file.Some? && file.value.lastAtMs != 0 && file.value.count >= cfg.maxWakes
    && 0 < cfg.throttleSecs && now < file.value.lastAtMs + Min(cfg.throttleSecs * 1000, 0xFFFF_FFFF_FFFF_FFFF)
  }

  /** Every call in every state: a block carries exactly the unread wakes in their order,
      and it comes if and only if the hook is not stopping already, the agent is known,
      the gate is open, the server answers and there are unread wakes. */
  lemma DeliveryMeans(cfg: Config, st: State, c: Call)
    ensures var open := !c.stopActive && c.agentKnown && !Closed(cfg, st.file, c.nowMs);
      Invoke(cfg, st, c).1
        == if open && c.server.Answers? && st.unread != [] then Block(st.unread) else Noop
  {
    hide SatMul;
    WindowIs(cfg);
  }

  /** And what is left behind: the wakes a block carries are delivered, those of a lost
      answer are lost, and all others stay; a zero answer removes the file, a block
      writes its time and one more than the count of a window that is not over (up to
      32 bits), and nothing else touches it. */
  lemma InvocationMeans(cfg: Config, st: State, c: Call)
    ensures var n := Invoke(cfg, st, c).0;
      var open := !c.stopActive && c.agentKnown && !Closed(cfg, st.file, c.nowMs);
      var claimed := open && (c.server.Answers? || c.server.AnswerLost?);
      var zero := open && (c.server.Braked? || (c.server.Answers? && st.unread == []));
      var window := Min(cfg.throttleSecs * 1000, 0xFFFF_FFFF_FFFF_FFFF);
      var again := st.file.Some? && st.file.value.lastAtMs != 0 && 0 < cfg.throttleSecs
        && c.nowMs < st.file.value.lastAtMs + window;
      && n.unread == (if claimed then [] else st.unread)
      && n.delivered == (if claimed && c.server.Answers? then st.delivered + st.unread else st.delivered)
      && n.lost == (if claimed && c.server.AnswerLost? then st.lost + st.unread else st.lost)
      && n.file == (
           if zero then (if c.removeOk then None else st.file)
           else if claimed && c.server.Answers? && c.writeOk then
             Some(Throttle(c.nowMs, if again then Min(st.file.value.count + 1, 0xFFFF_FFFF) else 1))
           else st.file)
  {
    hide SatMul;
    WindowIs(cfg);
  }

  lemma WindowIs(cfg: Config)
    ensures WindowMs(cfg) == Min(cfg.throttleSecs * 1000, 0xFFFF_FFFF_FFFF_FFFF)
  {}

  class Hook {
    const cfg: Config
    var file: Option<Throttle>
    var unread: seq<Wake>
    var delivered: seq<Wake>
    ghost var lost: seq<Wake>

    ghost function Now(): State
      reads this
    {
      State(file, unread, delivered, lost)
    }

    constructor (cfg: Config)
      ensures this.cfg == cfg && Now() == State(None, [], [], [])
    {
      this.cfg := cfg;
      file, unread, delivered, lost := None, [], [], [];
    }

    method Run(c: Call) returns (emit: Emit)
      modifies this
      ensures (Now(), emit) == Invoke(cfg, old(Now()), c)
    {
      if c.stopActive || !c.agentKnown {
        return Noop;
      }
      var state := if file.Some? then file.value else Throttle(0, 0);
      var windowMs := SatMul(cfg.throttleSecs, 1000);
      var windowActive := state.lastAtMs != 0 && SatSub(c.nowMs, state.lastAtMs) < windowMs;
      if windowActive && state.count >= cfg.maxWakes {
        return Noop;
      }
      var claimed: seq<Wake> := [];
      match c.server {
        case Unreachable =>
          return Noop;
        case Braked =>
        case AnswerLost =>
          lost, unread := lost + unread, [];
          return Noop;
        case Answers =>
          claimed, unread := unread, [];
      }
      if |claimed| <= 0 {
        if c.removeOk {
          file := None;
        }
        return Noop;
      }
      var next := if windowActive
        then Throttle(c.nowMs, if state.count < U32_MAX then state.count + 1 else U32_MAX)
        else Throttle(c.nowMs, 1);
      if c.writeOk {
        file := Some(next);
      }
      delivered := delivered + claimed;
      return Block(claimed);
    }
  }

  // ---- runs ------------------------------------------------------------

  datatype Event = Arrive(wake: Wake) | Stop(call: Call)

  /** A run, with the wakes that arrived in it and, for those no longer unread, whether
      they were delivered; the times of the blocks since the file was last removed; and
      the times of the blocks since the mailbox was last found empty. */
  datatype Trace = Trace(
    st: State, arrived: seq<Wake>, fates: seq<bool>, times: seq<nat>, sinceEmpty: seq<nat>)

  function Step(cfg: Config, tr: Trace, e: Event): Trace {
    match e
    case Arrive(w) => tr.(st := tr.st.(unread := tr.st.unread + [w]), arrived := tr.arrived + [w])
    case Stop(c) =>
      var r := Invoke(cfg, tr.st, c);
      var zero := ToldZero(cfg, tr.st, c);
      Trace(r.0, tr.arrived,
        tr.fates + seq(|tr.st.unread| - |r.0.unread|, _ => r.1.Block?),
        if r.1.Block? then tr.times + [c.nowMs] else if zero && c.removeOk then [] else tr.times,
        if r.1.Block? then tr.sinceEmpty + [c.nowMs] else if zero && tr.st.unread == [] then [] else tr.sinceEmpty)
  }

  function RunAll(cfg: Config, tr: Trace, events: seq<Event>): Trace
    decreases |events|
  {
    if events == [] then tr else RunAll(cfg, Step(cfg, tr, events[0]), events[1..])
  }

  const START := Trace(State(None, [], [], []), [], [], [], [])

  // ---- no wake is delivered twice, and which are lost ------------------

  /** The wakes with the given fate, in order. */
  function WithFate(wakes: seq<Wake>, fates: seq<bool>, fate: bool): seq<Wake>
    requires |wakes| == |fates|
    decreases |wakes|
  {
    if wakes == [] then []
    else
      var i := |wakes| - 1;
      WithFate(wakes[..i], fates[..i], fate) + (if fates[i] == fate then [wakes[i]] else [])
  }

  /** Every wake that arrived is delivered, lost or still unread, each once, in order. */
  ghost predicate Accounted(tr: Trace) {
    && |tr.fates| <= |tr.arrived|
    && tr.st.unread == tr.arrived[|tr.fates|..]
    && tr.st.delivered == WithFate(tr.arrived[..|tr.fates|], tr.fates, true)
    && tr.st.lost == WithFate(tr.arrived[..|tr.fates|], tr.fates, false)
  }

  lemma {:induction false} WithFateAppend(wakes: seq<Wake>, fates: seq<bool>, more: seq<Wake>, same: seq<bool>,
      fate: bool)
    requires |wakes| == |fates| && |more| == |same|
    requires forall i, j :: 0 <= i < j < |same| ==> same[i] == same[j]
    ensures WithFate(wakes + more, fates + same, fate)
      == WithFate(wakes, fates, fate) + (if more != [] && same[0] == fate then more else [])
    decreases |more|
  {
    if more == [] {
      assert wakes + more == wakes && fates + same == fates;
    } else {
      var i := |more| - 1;
      var all := wakes + more;
      assert all[..|all| - 1] == wakes + more[..i] && (fates + same)[..|all| - 1] == fates + same[..i];
      WithFateAppend(wakes, fates, more[..i], same[..i], fate);
      assert more == more[..i] + [more[i]];
    }
  }

  lemma AccountedStep(cfg: Config, tr: Trace, e: Event)
    requires Accounted(tr)
    ensures Accounted(Step(cfg, tr, e))
  {
    hide Asks, SatMul, WithFate, Bumped;
    var n := Step(cfg, tr, e);
    var k := |tr.fates|;
    match e
    case Arrive(w) =>
      assert n.arrived[..k] == tr.arrived[..k] && n.arrived[k..] == tr.arrived[k..] + [w];
    case Stop(c) =>
      var more := tr.st.unread;
      if n.st.unread == [] {
        var same := seq(|more|, _ => Invoke(cfg, tr.st, c).1.Block?);
        assert n.fates == tr.fates + same;
        assert tr.arrived[..|n.fates|] == tr.arrived[..k] + more;
        WithFateAppend(tr.arrived[..k], tr.fates, more, same, true);
        WithFateAppend(tr.arrived[..k], tr.fates, more, same, false);
      } else {
        assert n.fates == tr.fates;
      }
  }

  /** Whatever fails, in every run: no wake is delivered twice or out of order, and one
      that is not delivered is still unread or lost with an answer. */
  lemma {:induction false} EveryWakeAccounted(cfg: Config, tr: Trace, events: seq<Event>)
    requires Accounted(tr)
    ensures Accounted(RunAll(cfg, tr, events))
    decreases |events|
  {
    hide Accounted, Step;
    if events != [] {
      AccountedStep(cfg, tr, events[0]);
      EveryWakeAccounted(cfg, Step(cfg, tr, events[0]), events[1..]);
    }
  }

  /** The hook asks while there are wakes, and the answer is lost. */
  predicate LosesAnswer(cfg: Config, st: State, e: Event) {
    e.Stop? && Asks(cfg, st.file, e.call) && e.call.server.AnswerLost? && st.unread != []
  }

  ghost predicate SomeAnswerLost(cfg: Config, tr: Trace, events: seq<Event>) {
    exists i :: 0 <= i < |events| && LosesAnswer(cfg, RunAll(cfg, tr, events[..i]).st, events[i])
  }

  /** In every run: no wake is lost, and every wake that arrived is delivered or unread,
      if and only if no answer to a call that found wakes was lost. */
  lemma {:induction false} NothingLost(cfg: Config, tr: Trace, events: seq<Event>)
    ensures tr.st.lost <= RunAll(cfg, tr, events).st.lost
    ensures RunAll(cfg, tr, events).st.lost == tr.st.lost <==> !SomeAnswerLost(cfg, tr, events)
    decreases |events|
  {
    hide Asks, Bumped;
    if events != [] {
      var n := Step(cfg, tr, events[0]);
      NothingLost(cfg, n, events[1..]);
      assert RunAll(cfg, tr, events[..0]) == tr;
      assert n.st.lost == tr.st.lost <==> !LosesAnswer(cfg, tr.st, events[0]);
      forall i | 0 < i < |events|
        ensures RunAll(cfg, tr, events[..i]) == RunAll(cfg, n, events[1..][..i - 1])
      {
        assert events[..i][1..] == events[1..][..i - 1];
      }
      if SomeAnswerLost(cfg, n, events[1..]) {
        var j :| 0 <= j < |events[1..]| && LosesAnswer(cfg, RunAll(cfg, n, events[1..][..j]).st, events[1..][j]);
        assert LosesAnswer(cfg, RunAll(cfg, tr, events[..j + 1]).st, events[j + 1]);
      }
      if i :| 0 < i < |events| && LosesAnswer(cfg, RunAll(cfg, tr, events[..i]).st, events[i]) {
        assert LosesAnswer(cfg, RunAll(cfg, n, events[1..][..i - 1]).st, events[1..][i - 1]);
      }
    }
  }

  // ---- the rate --------------------------------------------------------

  /** The time from the block before the `k`th to it. */
  function Gap(times: seq<nat>, k: nat): nat
    requires 0 < k < |times|
  {
    SatSub(times[k], times[k - 1])
  }

  /** How many of the last times follow each other within less than a window. */
  function Burst(times: seq<nat>, window: nat): (n: nat)
    ensures n <= |times|
    decreases |times|
  {
    if |times| <= 1 then |times|
    else
      var last := |times| - 1;
      if Gap(times, last) < window then Burst(times[..last], window) + 1 else 1
  }

  function Limit(cfg: Config): nat {
    if cfg.maxWakes == 0 then 1 else cfg.maxWakes
  }

  /** No burst is longer than the limit. */
  ghost predicate Limited(cfg: Config, times: seq<nat>) {
    forall k :: 0 <= k <= |times| ==> Burst(times[..k], WindowMs(cfg)) <= Limit(cfg)
  }

  /** The file holds the time of the last block and the length of its burst. */
  ghost predicate Throttled(cfg: Config, tr: Trace) {
    && (tr.st.file.None? ==> tr.times == [])
    && (tr.st.file.Some? ==>
          && tr.times != [] && tr.st.file.value == Throttle(tr.times[|tr.times| - 1], Burst(tr.times, WindowMs(cfg)))
          && tr.times[|tr.times| - 1] != 0)
    && Limited(cfg, tr.times)
  }

  /** The clock is above zero and the file can be written. */
  predicate Regular(events: seq<Event>) {
    forall i :: 0 <= i < |events| && events[i].Stop? ==> events[i].call.nowMs > 0 && events[i].call.writeOk
  }

  lemma ThrottledStep(cfg: Config, tr: Trace, e: Event)
    requires cfg.maxWakes <= U32_MAX && Throttled(cfg, tr)
    requires e.Stop? ==> e.call.nowMs > 0 && e.call.writeOk
    ensures Throttled(cfg, Step(cfg, tr, e))
  {
    hide SatMul;
    var n := Step(cfg, tr, e);
    if e.Stop? && n.times == tr.times + [e.call.nowMs] && Invoke(cfg, tr.st, e.call).1.Block? {
      BurstGrows(tr.times, e.call.nowMs, WindowMs(cfg));
      assert tr.times[..|tr.times|] == tr.times;
      forall k | 0 <= k <= |n.times|
        ensures Burst(n.times[..k], WindowMs(cfg)) <= Limit(cfg)
      {
        if k <= |tr.times| {
          assert n.times[..k] == tr.times[..k];
        } else {
          assert n.times[..k] == n.times;
        }
      }
    }
  }

  lemma BurstGrows(times: seq<nat>, now: nat, window: nat)
    ensures Burst(times + [now], window)
      == if times != [] && SatSub(now, times[|times| - 1]) < window then Burst(times, window) + 1 else 1
  {
    assert (times + [now])[..|times|] == times;
  }

  lemma {:induction false} ThrottledRun(cfg: Config, tr: Trace, events: seq<Event>)
    requires cfg.maxWakes <= U32_MAX && Throttled(cfg, tr)
    requires Regular(events)
    ensures Throttled(cfg, RunAll(cfg, tr, events))
    decreases |events|
  {
    hide Throttled, Step;
    if events != [] {
      ThrottledStep(cfg, tr, events[0]);
      ThrottledRun(cfg, Step(cfg, tr, events[0]), events[1..]);
    }
  }

  /** Times that all follow each other closely are a burst. */
  lemma {:induction false} CloseIsBurst(times: seq<nat>, window: nat, i: nat)
    requires i < |times| && forall k :: i < k < |times| ==> Gap(times, k) < window
    ensures Burst(times, window) >= |times| - i
    decreases |times|
  {
    if i + 1 < |times| {
      var front := times[..|times| - 1];
      assert forall k :: i < k < |front| ==> Gap(front, k) == Gap(times, k);
      CloseIsBurst(front, window, i);
    }
  }

  /** In every run with a clock above zero and a file that can be written: of any
      limit-and-one blocks in a row without a zero answer between them, two neighbours
      lie at least a window apart. */
  lemma RateIsLimited(cfg: Config, events: seq<Event>, i: nat) returns (k: nat)
    requires cfg.maxWakes <= U32_MAX && Regular(events)
    requires i + Limit(cfg) < |RunAll(cfg, START, events).times|
    ensures var times := RunAll(cfg, START, events).times;
      i < k <= i + Limit(cfg) && Gap(times, k) >= WindowMs(cfg)
  {
    hide RunAll, SatMul, SatSub, Burst, Limit;
    ThrottledRun(cfg, START, events);
    var times := RunAll(cfg, START, events).times;
    k := GapIn(times[..i + Limit(cfg) + 1], WindowMs(cfg), i, Limit(cfg));
  }

  lemma GapIn(times: seq<nat>, window: nat, i: nat, limit: nat) returns (k: nat)
    requires i < |times| && Burst(times, window) <= limit < |times| - i
    ensures i < k < |times| && Gap(times, k) >= window
  {
    hide Gap, Burst;
    if forall j :: i < j < |times| ==> Gap(times, j) < window {
      CloseIsBurst(times, window, i);
    }
    k :| i < k < |times| && Gap(times, k) >= window;
  }

  // ---- what the budget brake does to the rate --------------------------

  /** The brake answers none of these calls. */
  predicate Unbraked(events: seq<Event>) {
    forall i :: 0 <= i < |events| && events[i].Stop? ==> !events[i].call.server.Braked?
  }

  /** The file remembers at least the blocks since the mailbox was last found empty. */
  ghost predicate Remembers(tr: Trace) {
    |tr.sinceEmpty| <= |tr.times| && tr.sinceEmpty == tr.times[|tr.times| - |tr.sinceEmpty|..]
  }

  lemma {:induction false} RemembersRun(cfg: Config, tr: Trace, events: seq<Event>)
    requires Remembers(tr) && Unbraked(events)
    ensures Remembers(RunAll(cfg, tr, events))
    decreases |events|
  {
    hide Asks, Bumped;
    if events != [] {
      RemembersRun(cfg, Step(cfg, tr, events[0]), events[1..]);
    }
  }

  lemma {:induction false} BurstOfEnd(times: seq<nat>, j: nat, window: nat)
    requires j <= |times|
    ensures Burst(times[j..], window) <= Burst(times, window)
    decreases |times|
  {
    if j + 1 < |times| {
      var front := times[..|times| - 1];
      assert times[j..][..|times| - 1 - j] == front[j..];
      BurstOfEnd(front, j, window);
    }
  }

  lemma EndIsLimited(cfg: Config, times: seq<nat>, j: nat)
    requires Limited(cfg, times) && j <= |times|
    ensures Limited(cfg, times[j..])
  {
    hide Burst, Limit, SatMul;
    forall k | 0 <= k <= |times| - j
      ensures Burst(times[j..][..k], WindowMs(cfg)) <= Limit(cfg)
    {
      assert times[j..][..k] == times[..j + k][j..];
      BurstOfEnd(times[..j + k], j, WindowMs(cfg));
    }
  }

  /** As long as the brake keeps out of it, the limit holds from one empty mailbox to
      the next. */
  lemma UnbrakedIsLimited(cfg: Config, tr: Trace, events: seq<Event>)
    requires cfg.maxWakes <= U32_MAX && Throttled(cfg, tr) && Remembers(tr) && Regular(events) && Unbraked(events)
    ensures Limited(cfg, RunAll(cfg, tr, events).sinceEmpty)
  {
    hide RunAll, Limited, SatMul;
    ThrottledRun(cfg, tr, events);
    RemembersRun(cfg, tr, events);
    var r := RunAll(cfg, tr, events);
    EndIsLimited(cfg, r.times, |r.times| - |r.sinceEmpty|);
  }

  function Prompt(now: nat): Call { Call(now, false, true, Answers, true, true) }

  /** Wakes that keep arriving, each claimed at once. */
  function Flood(now: nat, n: nat): (events: seq<Event>)
    ensures now > 0 ==> Regular(events)
    ensures Unbraked(events)
  {
    if n == 0 then [] else [Arrive(0), Stop(Prompt(now))] + Flood(now, n - 1)
  }

  /** A wake arrives, and the next call gets it through the gate. */
  lemma GetsThrough(cfg: Config, tr: Trace, now: nat)
    requires now > 0 && Asks(cfg, tr.st.file, Prompt(now))
    ensures var n := Step(cfg, Step(cfg, tr, Arrive(0)), Stop(Prompt(now)));
      n.sinceEmpty == tr.sinceEmpty + [now] && n.st.file == Some(Bumped(cfg, tr.st.file, now)) && n.st.unread == []
  {
    hide Asks, Bumped;
  }

  /** All of them get through as long as the file counts less than the limit. */
  lemma {:induction false} FloodGetsThrough(cfg: Config, tr: Trace, now: nat, n: nat)
    requires now > 0 && cfg.maxWakes <= U32_MAX
    requires match tr.st.file
      case None => n <= Limit(cfg)
      case Some(t) => n == 0 || (t.lastAtMs == now && t.count + n <= cfg.maxWakes)
    ensures RunAll(cfg, tr, Flood(now, n)).sinceEmpty == tr.sinceEmpty + seq(n, _ => now)
    decreases n
  {
    hide SatMul, Step;
    if n > 0 {
      GetsThrough(cfg, tr, now);
      var next := Step(cfg, Step(cfg, tr, Arrive(0)), Stop(Prompt(now)));
      FloodGetsThrough(cfg, next, now, n - 1);
      var events := Before(cfg, tr, Arrive(0), Stop(Prompt(now)), Flood(now, n - 1));
      assert tr.sinceEmpty + [now] + seq(n - 1, _ => now) == tr.sinceEmpty + seq(n, _ => now);
    }
  }

  lemma FloodIsTooMuch(cfg: Config, times: seq<nat>)
    requires times != [] && WindowMs(cfg) > 0
    ensures !Limited(cfg, times + seq(Limit(cfg), _ => times[|times| - 1]))
  {
    hide SatMul;
    var all := times + seq(Limit(cfg), _ => times[|times| - 1]);
    CloseIsBurst(all, WindowMs(cfg), |times| - 1);
    assert all[..|all|] == all;
  }

  lemma NoWindowNoLimit(cfg: Config, times: seq<nat>)
    requires WindowMs(cfg) == 0
    ensures Limited(cfg, times)
  {
    hide SatMul;
  }

  /** Everything that can happen next, as long as the brake keeps out of it, keeps to
      the limit from one empty mailbox to the next. */
  ghost predicate StaysLimited(cfg: Config, tr: Trace) {
    forall events :: Regular(events) && Unbraked(events) ==> Limited(cfg, RunAll(cfg, tr, events).sinceEmpty)
  }

  /** A zero answer of the brake removes the file while wakes are waiting. The limit
      survives it if and only if there is nothing to forget: no window, no block since
      the mailbox was last found empty, or an empty mailbox now. */
  lemma BrakeForgets(cfg: Config, tr: Trace, c: Call)
    requires cfg.maxWakes <= U32_MAX && Throttled(cfg, tr) && Remembers(tr)
    requires Asks(cfg, tr.st.file, c) && c.server.Braked? && c.removeOk
    ensures StaysLimited(cfg, Step(cfg, tr, Stop(c)))
      <==> WindowMs(cfg) == 0 || tr.sinceEmpty == [] || tr.st.unread == []
  {
    hide Asks, Burst, Limited, RunAll, SatMul;
    var n := Step(cfg, tr, Stop(c));
    assert n.st.file == None && n.times == [];
    if WindowMs(cfg) == 0 {
      forall events ensures Limited(cfg, RunAll(cfg, n, events).sinceEmpty) {
        NoWindowNoLimit(cfg, RunAll(cfg, n, events).sinceEmpty);
      }
    } else if n.sinceEmpty == [] {
      NothingIsThrottled(cfg, n);
      forall events | Regular(events) && Unbraked(events)
        ensures Limited(cfg, RunAll(cfg, n, events).sinceEmpty)
      {
        UnbrakedIsLimited(cfg, n, events);
      }
    } else {
      var now := n.sinceEmpty[|n.sinceEmpty| - 1];
      assert now == tr.times[|tr.times| - 1];
      FloodGetsThrough(cfg, n, now, Limit(cfg));
      FloodIsTooMuch(cfg, n.sinceEmpty);
      assert seq(Limit(cfg), _ => now) == seq(Limit(cfg), _ => n.sinceEmpty[|n.sinceEmpty| - 1]);
      assert !Limited(cfg, RunAll(cfg, n, Flood(now, Limit(cfg))).sinceEmpty);
    }
  }

  lemma NothingIsThrottled(cfg: Config, tr: Trace)
    requires tr.st.file == None && tr.times == []
    ensures Throttled(cfg, tr)
  {}

  /** With the limit of 3 in 30 seconds that is the default: five blocks in 5 ms, and
      the mailbox never empty. */
  lemma FiveInAWindow() returns (events: seq<Event>)
    ensures var cfg := Config(30, 3);
      RunAll(cfg, START, events).sinceEmpty == [1, 2, 4, 5, 6] && WindowMs(cfg) == 30_000 && Regular(events)
  {
    hide Step;
    var cfg := Config(30, 3);
    var braked := Call(3, false, true, Braked, true, true);
    GetsThrough(cfg, START, 1);
    var s1 := Step(cfg, Step(cfg, START, Arrive(0)), Stop(Prompt(1)));
    GetsThrough(cfg, s1, 2);
    var s2 := Step(cfg, Step(cfg, s1, Arrive(0)), Stop(Prompt(2)));
    BrakedStep(cfg, s2, braked);
    var s3 := Step(cfg, Step(cfg, s2, Arrive(0)), Stop(braked));
    events := ThreeMore(cfg, s3);
    events := Before(cfg, s2, Arrive(0), Stop(braked), events);
    events := Before(cfg, s1, Arrive(0), Stop(Prompt(2)), events);
    events := Before(cfg, START, Arrive(0), Stop(Prompt(1)), events);
    assert [1, 2] + [4, 5, 6] == [1, 2, 4, 5, 6];
  }

  lemma ThreeMore(cfg: Config, tr: Trace) returns (events: seq<Event>)
    requires cfg == Config(30, 3) && tr.st.file == None
    ensures RunAll(cfg, tr, events).sinceEmpty == tr.sinceEmpty + [4, 5, 6] && Regular(events)
  {
    hide Step;
    GetsThrough(cfg, tr, 4);
    var s4 := Step(cfg, Step(cfg, tr, Arrive(0)), Stop(Prompt(4)));
    GetsThrough(cfg, s4, 5);
    var s5 := Step(cfg, Step(cfg, s4, Arrive(0)), Stop(Prompt(5)));
    GetsThrough(cfg, s5, 6);
    events := Before(cfg, s5, Arrive(0), Stop(Prompt(6)), []);
    events := Before(cfg, s4, Arrive(0), Stop(Prompt(5)), events);
    events := Before(cfg, tr, Arrive(0), Stop(Prompt(4)), events);
    assert tr.sinceEmpty + [4] + [5] + [6] == tr.sinceEmpty + [4, 5, 6];
  }

  lemma BrakedStep(cfg: Config, tr: Trace, c: Call)
    requires Asks(cfg, tr.st.file, c) && c.server.Braked? && c.removeOk
    ensures var n := Step(cfg, Step(cfg, tr, Arrive(0)), Stop(c));
      n.sinceEmpty == tr.sinceEmpty && n.st.file == None && n.st.unread == tr.st.unread + [0]
  {
    hide Asks, Bumped;
  }

  lemma Before(cfg: Config, tr: Trace, first: Event, second: Event, rest: seq<Event>) returns (events: seq<Event>)
    ensures events == [first, second] + rest
    ensures RunAll(cfg, tr, events) == RunAll(cfg, Step(cfg, Step(cfg, tr, first), second), rest)
  {
    hide Step;
    events := [first, second] + rest;
    assert events[1..] == [second] + rest && events[1..][1..] == rest;
  }
}
