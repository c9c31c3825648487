/** The readiness plan of a terminal: steps done strictly one after the other, each
    waiting for its needle in the output or running out of time. */
module ReadyPlan {
  import opened Options
  import opened Utf8
  import opened Search
  import opened Sliding

  const MAX_BUFFER := 8 * 1024
  const KEEP := 1024

  datatype Kind = AnswerDialog | WaitFor | Input | ExtractSessionId

  datatype PlanStep = PlanStep(kind: Kind, needle: seq<byte>, response: seq<byte>, window: nat, into: string)

  predicate Responds(kind: Kind) { kind == AnswerDialog || kind == Input }

  /** A step of the manifest that can be carried out. */
  predicate Usable(s: PlanStep) {
    && (s.kind != Input ==> s.needle != [])
    && (Responds(s.kind) ==> s.response != [])
    && (s.kind == ExtractSessionId ==> s.into != [])
  }

  function UsableSteps(plan: seq<PlanStep>): (steps: seq<PlanStep>)
    ensures forall i :: 0 <= i < |steps| ==> Usable(steps[i])
  {
    if plan == [] then []
    else
      var last := plan[|plan| - 1];
      UsableSteps(plan[..|plan| - 1]) + (if Usable(last) then [last] else [])
  }

  lemma {:induction false} PlanIndices(plan: seq<PlanStep>) returns (at: seq<nat>)
    ensures |at| == |UsableSteps(plan)|
    ensures forall k :: 0 <= k < |at| ==> at[k] < |plan| && UsableSteps(plan)[k] == plan[at[k]]
    ensures forall j, k :: 0 <= j < k < |at| ==> at[j] < at[k]
    ensures forall i :: 0 <= i < |plan| ==> (i in at <==> Usable(plan[i]))
    decreases |plan|
  {
    hide Usable;
    at := [];
    if plan != [] {
      var last := |plan| - 1;
      at := PlanIndices(plan[..last]);
      if Usable(plan[last]) {
        at := at + [last];
      }
    }
  }

  /** A step has a needle unless it is an input, a response if it is an input or answers
      a dialog, and a slot if it extracts. */
  predicate IsComplete(s: PlanStep) {
    && (s.needle == [] ==> s.kind == Input)
    && (s.response == [] ==> s.kind == WaitFor || s.kind == ExtractSessionId)
    && (s.into == [] ==> s.kind != ExtractSessionId)
  }

  lemma UsableIsComplete(s: PlanStep)
    ensures Usable(s) <==> IsComplete(s)
  {}

  /** The runner's steps are exactly the complete steps of the plan, each once, in order. */
  lemma PlanOrder(plan: seq<PlanStep>) returns (at: seq<nat>)
    ensures |at| == |UsableSteps(plan)|
    ensures forall k :: 0 <= k < |at| ==> at[k] < |plan| && UsableSteps(plan)[k] == plan[at[k]]
    ensures forall j, k :: 0 <= j < k < |at| ==> at[j] < at[k]
    ensures forall i :: 0 <= i < |plan| ==> (i in at <==> IsComplete(plan[i]))
  {
    hide Usable, UsableSteps, IsComplete;
    at := PlanIndices(plan);
    forall i | 0 <= i < |plan|
      ensures Usable(plan[i]) <==> IsComplete(plan[i])
    {
      UsableIsComplete(plan[i]);
    }
  }

  /** How a step was left behind, and at which reading of the clock. */
  datatype Outcome = Matched(read: nat) | Expired(read: nat)

  /** What every reading of the clock shows, and whether the input channel has room then. */
  datatype World = World(clock: nat -> int, taken: nat -> bool)

  /** `sent` is what was typed into the terminal; `log` tells of every step passed. */
  datatype State = State(
    cursor: nat, deadline: Option<int>, buf: seq<byte>, captured: map<string, seq<byte>>,
    ticks: nat, sent: seq<seq<byte>>, log: seq<Outcome>)

  type Steps = s: seq<PlanStep> | forall i :: 0 <= i < |s| ==> Usable(s[i])

  function Arm(steps: Steps, cursor: nat, now: int): Option<int> {
    if cursor < |steps| && steps[cursor].kind != Input then Some(now + steps[cursor].window) else None
  }

  function Pass(steps: Steps, st: State, outcome: Outcome, now: int): State {
    st.(cursor := st.cursor + 1, deadline := Arm(steps, st.cursor + 1, now), log := st.log + [outcome])
  }

  predicate IsBlank(b: byte) { b == 0x20 || b == 9 }

  function SkipBlanks(s: seq<byte>): seq<byte> {
    if s != [] && IsBlank(s[0]) then SkipBlanks(s[1..]) else s
  }

  function Word(s: seq<byte>): seq<byte> {
    if s == [] || IsAsciiSpace(s[0]) then [] else [s[0]] + Word(s[1..])
  }

  /** The token after position `start`, as text. */
  function TokenAfter(buf: seq<byte>, start: nat): seq<byte> {
    Lossy(Word(SkipBlanks(if start <= |buf| then buf[start..] else [])))
  }

  /** The token is the word behind the blanks, up to white space or the end. */
  lemma {:induction false} TokenIsWord(blanks: seq<byte>, word: seq<byte>, rest: seq<byte>)
    requires forall i :: 0 <= i < |blanks| ==> IsBlank(blanks[i])
    requires forall i :: 0 <= i < |word| ==> !IsAsciiSpace(word[i])
    requires rest == [] || IsAsciiSpace(rest[0])
    requires word == [] ==> rest == [] || !IsBlank(rest[0])
    ensures TokenAfter(blanks + word + rest, 0) == Lossy(word)
  {
    hide Lossy;
    BlanksSkipped(blanks, word + rest);
    assert blanks + word + rest == blanks + (word + rest);
    assert (blanks + word + rest)[0..] == blanks + word + rest;
    WordTaken(word, rest);
  }

  lemma {:induction false} BlanksSkipped(blanks: seq<byte>, k: seq<byte>)
    requires forall i :: 0 <= i < |blanks| ==> IsBlank(blanks[i])
    requires k == [] || !IsBlank(k[0])
    ensures SkipBlanks(blanks + k) == k
  {
    if blanks == [] {
      assert blanks + k == k;
    } else {
      assert (blanks + k)[1..] == blanks[1..] + k;
      BlanksSkipped(blanks[1..], k);
    }
  }

  lemma {:induction false} WordTaken(word: seq<byte>, rest: seq<byte>)
    requires forall i :: 0 <= i < |word| ==> !IsAsciiSpace(word[i])
    requires rest == [] || IsAsciiSpace(rest[0])
    ensures Word(word + rest) == word
  {
    if word == [] {
      assert word + rest == rest;
    } else {
      assert (word + rest)[1..] == word[1..] + rest;
      WordTaken(word[1..], rest);
    }
  }

  /** A response is typed if the channel takes it, and dropped if not. */
  function Typed(sent: seq<seq<byte>>, response: seq<byte>, taken: bool): seq<seq<byte>> {
    if taken then sent + [response] else sent
  }

  /** The step under the cursor, done, if it can be done now. */
  function Do(step: PlanStep, st: State, taken: bool): Option<State>
    requires Usable(step)
  {
    match step.kind
    case Input => Some(st.(sent := Typed(st.sent, step.response, taken)))
    case AnswerDialog =>
      if Find(st.buf, step.needle).None? then None
      else Some(st.(sent := Typed(st.sent, step.response, taken)))
    case WaitFor => if Find(st.buf, step.needle).None? then None else Some(st)
    case ExtractSessionId =>
      match Find(st.buf, step.needle)
      case None => None
      case Some(pos) =>
        Some(st.(captured := st.captured[step.into := TokenAfter(st.buf, pos + |step.needle|)]))
  }

  /** Past the deadline a step is dropped, whatever the buffer holds. */
  function Advance(steps: Steps, world: World, st: State): State
    decreases |steps| - st.cursor
  {
    if st.cursor >= |steps| then st
    else
      var now := world.clock(st.ticks);
      var st' := st.(ticks := st.ticks + 1);
      if st.deadline.Some? && now > st.deadline.value then
        Advance(steps, world, Pass(steps, st', Expired(st.ticks), now))
      else match Do(steps[st.cursor], st', world.taken(st.ticks))
        case None => st'
        case Some(done) => Advance(steps, world, Pass(steps, done, Matched(st.ticks), now))
  }

  lemma AdvanceOnce(steps: Steps, world: World, st: State)
    requires st.cursor < |steps|
    ensures var now := world.clock(st.ticks);
      var st' := st.(ticks := st.ticks + 1);
      Advance(steps, world, st) ==
        if st.deadline.Some? && now > st.deadline.value then
          Advance(steps, world, Pass(steps, st', Expired(st.ticks), now))
        else match Do(steps[st.cursor], st', world.taken(st.ticks))
          case None => st'
          case Some(done) => Advance(steps, world, Pass(steps, done, Matched(st.ticks), now))
  {}

  lemma AdvanceDone(steps: Steps, world: World, st: State)
    requires st.cursor >= |steps|
    ensures Advance(steps, world, st) == st
  {}

  function Bound(buf: seq<byte>): seq<byte> {
    if |buf| > MAX_BUFFER then buf[|buf| - KEEP..] else buf
  }

  function Scan(steps: Steps, world: World, st: State, chunk: seq<byte>): State {
    if st.cursor >= |steps| then st
    else
      var next := Advance(steps, world, st.(buf := Bound(st.buf + chunk)));
      if next.cursor >= |steps| then next.(buf := []) else next
  }

  function Start(steps: Steps, world: World): State {
    State(0, Arm(steps, 0, world.clock(0)), [], map[], 1, [], [])
  }

  // ---- the runner ------------------------------------------------------

  class Runner {
    const steps: Steps
    const world: World
    var cursor: nat
    var deadline: Option<int>
    var buf: seq<byte>
    var captured: map<string, seq<byte>>
    var ticks: nat
    var sent: seq<seq<byte>>
    ghost var log: seq<Outcome>

    ghost function Now(): State
      reads this
    {
      State(cursor, deadline, buf, captured, ticks, sent, log)
    }

    static method FromPlan(plan: seq<PlanStep>, world: World) returns (r: Runner?)
      ensures r == null <==> UsableSteps(plan) == []
      ensures r != null ==> fresh(r) && r.steps == UsableSteps(plan) && r.world == world
      ensures r != null ==> r.Now() == Start(r.steps, world)
    {
      var steps: seq<PlanStep> := [];
      for i := 0 to |plan|
        invariant steps == UsableSteps(plan[..i])
      {
        var step := plan[i];
        assert plan[..i + 1][..i] == plan[..i];
        if step.kind != Input && step.needle == [] {
          continue;
        }
        if Responds(step.kind) && step.response == [] {
          continue;
        }
        if step.kind == ExtractSessionId && step.into == [] {
          continue;
        }
        steps := steps + [step];
      }
      assert plan[..|plan|] == plan;
      if steps == [] {
        return null;
      }
      r := new Runner(steps, world);
    }

    constructor (steps: Steps, world: World)
      ensures this.steps == steps && this.world == world && Now() == Start(steps, world)
    {
      this.steps, this.world := steps, world;
      cursor, buf, captured, sent, log := 0, [], map[], [], [];
      deadline := Arm(steps, 0, world.clock(0));
      ticks := 1;
    }

    method ArmDeadline(now: int)
      modifies this`deadline
      ensures deadline == Arm(steps, cursor, now)
    {
      deadline := if cursor < |steps| && steps[cursor].kind != Input
        then Some(now + steps[cursor].window) else None;
    }

    method Inject(response: seq<byte>, taken: bool)
      modifies this`sent
      ensures sent == Typed(old(sent), response, taken)
    {
      if taken {
        sent := sent + [response];
      }
    }

    method AdvanceCursor()
      modifies this
      ensures Now() == Advance(steps, world, old(Now()))
    {
      hide Find, TokenAfter, Advance, Arm;
      while cursor < |steps|
        invariant cursor >= old(cursor)
        invariant Advance(steps, world, Now()) == Advance(steps, world, old(Now()))
        decreases |steps| - cursor
      {
        ghost var st := Now();
        AdvanceOnce(steps, world, st);
        var now := world.clock(ticks);
        var read := ticks;
        ticks := ticks + 1;
        if deadline.Some? && now > deadline.value {
          log := log + [Expired(read)];
          cursor := cursor + 1;
          ArmDeadline(now);
          assert Now() == Pass(steps, st.(ticks := read + 1), Expired(read), now);
          continue;
        }
        var s := steps[cursor];
        match s.kind {
          case Input =>
            Inject(s.response, world.taken(read));
          case AnswerDialog =>
            if Find(buf, s.needle).None? {
              break;
            }
            Inject(s.response, world.taken(read));
          case WaitFor =>
            if Find(buf, s.needle).None? {
              break;
            }
          case ExtractSessionId =>
            var pos := Find(buf, s.needle);
            if pos.None? {
              break;
            }
            captured := captured[s.into := TokenAfter(buf, pos.value + |s.needle|)];
        }
        assert Do(s, st.(ticks := read + 1), world.taken(read)) == Some(Now());
        log := log + [Matched(read)];
        cursor := cursor + 1;
        ArmDeadline(now);
      }
      if cursor >= |steps| {
        AdvanceDone(steps, world, Now());
      }
    }

    method ScanChunk(chunk: seq<byte>)
      modifies this
      ensures Now() == Scan(steps, world, old(Now()), chunk)
    {
      if cursor >= |steps| {
        return;
      }
      buf := buf + chunk;
      if |buf| > MAX_BUFFER {
        buf := buf[|buf| - KEEP..];
      }
      AdvanceCursor();
      if cursor >= |steps| {
        buf := [];
      }
    }
  }

  // ---- every run -------------------------------------------------------

  function ScanEach(steps: Steps, world: World, st: State, chunks: seq<seq<byte>>): State
    decreases |chunks|
  {
    if chunks == [] then st else ScanEach(steps, world, Scan(steps, world, st, chunks[0]), chunks[1..])
  }

  ghost predicate Contains(s: seq<byte>, n: seq<byte>) {
    exists i: nat :: OccursAt(s, n, i)
  }

  /** The reading of the clock at which the step after the logged ones became active. */
  function Since(log: seq<Outcome>): nat {
    if log == [] then 0 else Tick(log[|log| - 1])
  }

  function Tick(o: Outcome): nat {
    match o
    case Matched(t) => t
    case Expired(t) => t
  }

  /** A step was left for a good reason: its needle stands in the output in one piece
      and came in time, or it has a needle and its time was over. */
  ghost predicate LeftRightly(step: PlanStep, o: Outcome, since: nat, world: World, output: seq<byte>) {
    match o
    case Matched(t) =>
      step.kind != Input ==> Contains(output, step.needle) && world.clock(t) <= world.clock(since) + step.window
    case Expired(t) =>
      step.kind != Input && world.clock(t) > world.clock(since) + step.window
  }

  /** A step left like this had its response typed. */
  predicate Sends(step: PlanStep, world: World, o: Outcome) {
    o.Matched? && Responds(step.kind) && world.taken(Tick(o))
  }

  /** The responses of the steps that sent one, in the order of the plan. */
  function Answers(steps: Steps, world: World, log: seq<Outcome>): seq<seq<byte>>
    requires |log| <= |steps|
    decreases |log|
  {
    if log == [] then []
    else
      var i := |log| - 1;
      Answers(steps, world, log[..i])
        + (if Sends(steps[i], world, log[i]) then [steps[i].response] else [])
  }

  /** The log accounts for every step it names. */
  ghost predicate LogSound(steps: Steps, world: World, log: seq<Outcome>, ticks: nat, output: seq<byte>)
    decreases |log|
  {
    0 < ticks && (log == [] ||
      var i := |log| - 1;
      && i < |steps| && Tick(log[i]) < ticks
      && LeftRightly(steps[i], log[i], Since(log[..i]), world, output)
      && LogSound(steps, world, log[..i], Tick(log[i]), output))
  }

  /** The invariant: the log accounts for every step before the cursor, what was sent
      is what the log says, and the buffer is the end of the output. */
  ghost predicate Sound(steps: Steps, world: World, st: State, output: seq<byte>) {
    && LogSound(steps, world, st.log, st.ticks, output)
    && st.cursor == |st.log|
    && st.sent == Answers(steps, world, st.log)
    && st.deadline == Arm(steps, st.cursor, world.clock(Since(st.log)))
    && |st.buf| <= |output| && st.buf == output[|output| - |st.buf|..]
  }

  lemma StartIsSound(steps: Steps, world: World)
    ensures Sound(steps, world, Start(steps, world), [])
  {}

  lemma SuffixContains(output: seq<byte>, buf: seq<byte>, n: seq<byte>)
    requires n != [] && |buf| <= |output| && buf == output[|output| - |buf|..] && Find(buf, n).Some?
    ensures Contains(output, n)
  {
    FindFinds(buf, n);
    var front := output[..|output| - |buf|];
    OccursBehind(front, buf, n, Find(buf, n).value);
    assert front + buf == output;
  }

  lemma LogGrows(steps: Steps, world: World, log: seq<Outcome>, o: Outcome, output: seq<byte>)
    requires LogSound(steps, world, log, Tick(o), output) && |log| < |steps|
    requires LeftRightly(steps[|log|], o, Since(log), world, output)
    ensures LogSound(steps, world, log + [o], Tick(o) + 1, output)
  {
    assert (log + [o])[..|log|] == log;
  }

  /** `done` is `st` with the step under the cursor done. */
  predicate IsDone(st: State, done: State, sent: seq<seq<byte>>) {
    done.cursor == st.cursor && done.log == st.log && done.buf == st.buf
    && done.ticks == st.ticks + 1 && done.sent == st.sent + sent
  }

  lemma PassIsSound(steps: Steps, world: World, st: State, done: State, o: Outcome, output: seq<byte>)
    requires Sound(steps, world, st, output) && st.cursor < |steps| && Tick(o) == st.ticks
    requires LeftRightly(steps[st.cursor], o, Since(st.log), world, output)
    requires IsDone(st, done,
      if Sends(steps[st.cursor], world, o) then [steps[st.cursor].response] else [])
    ensures Sound(steps, world, Pass(steps, done, o, world.clock(st.ticks)), output)
  {
    hide LeftRightly, LogSound, Arm;
    LogGrows(steps, world, st.log, o, output);
    assert (st.log + [o])[..|st.log|] == st.log;
  }

  lemma {:induction false} AdvanceIsSound(steps: Steps, world: World, st: State, output: seq<byte>)
    requires Sound(steps, world, st, output)
    ensures var r := Advance(steps, world, st);
      Sound(steps, world, r, output) && r.buf == st.buf && st.log <= r.log && st.sent <= r.sent
    decreases |steps| - st.cursor
  {
    hide Find, TokenAfter, Advance, Sound, Arm, LeftRightly;
    if st.cursor >= |steps| {
      AdvanceDone(steps, world, st);
    } else {
      AdvanceOnce(steps, world, st);
      StepIsSound(steps, world, st, output);
      var now := world.clock(st.ticks);
      var st' := st.(ticks := st.ticks + 1);
      if st.deadline.Some? && now > st.deadline.value {
        AdvanceIsSound(steps, world, Pass(steps, st', Expired(st.ticks), now), output);
      } else if Do(steps[st.cursor], st', world.taken(st.ticks)).Some? {
        var done := Do(steps[st.cursor], st', world.taken(st.ticks)).value;
        AdvanceIsSound(steps, world, Pass(steps, done, Matched(st.ticks), now), output);
      }
    }
  }

  lemma StepIsSound(steps: Steps, world: World, st: State, output: seq<byte>)
    requires Sound(steps, world, st, output) && st.cursor < |steps|
    ensures var now := world.clock(st.ticks);
      var st' := st.(ticks := st.ticks + 1);
      if st.deadline.Some? && now > st.deadline.value then
        Sound(steps, world, Pass(steps, st', Expired(st.ticks), now), output)
      else match Do(steps[st.cursor], st', world.taken(st.ticks))
        case None => Sound(steps, world, st', output)
        case Some(done) =>
          && done.log == st.log && done.buf == st.buf && st.sent <= done.sent && done.cursor == st.cursor
          && Sound(steps, world, Pass(steps, done, Matched(st.ticks), now), output)
  {
    hide Find, TokenAfter, Advance, LogSound, Answers;
    var now := world.clock(st.ticks);
    var step := steps[st.cursor];
    var st' := st.(ticks := st.ticks + 1);
    if st.deadline.Some? && now > st.deadline.value {
      PassIsSound(steps, world, st, st', Expired(st.ticks), output);
    } else if Do(step, st', world.taken(st.ticks)).Some? {
      if step.kind != Input {
        SuffixContains(output, st.buf, step.needle);
      }
      PassIsSound(steps, world, st, Do(step, st', world.taken(st.ticks)).value, Matched(st.ticks), output);
    } else {
      LaterIsSound(steps, world, st.log, st.ticks, output);
    }
  }

  lemma LaterIsSound(steps: Steps, world: World, log: seq<Outcome>, ticks: nat, output: seq<byte>)
    requires LogSound(steps, world, log, ticks, output)
    ensures LogSound(steps, world, log, ticks + 1, output) && |log| <= |steps|
  {}

  /** More output takes no reason away. */
  lemma {:induction false} OutputGrows(steps: Steps, world: World, log: seq<Outcome>, ticks: nat,
      output: seq<byte>, chunk: seq<byte>)
    requires LogSound(steps, world, log, ticks, output)
    ensures LogSound(steps, world, log, ticks, output + chunk)
    decreases |log|
  {
    if log != [] {
      var i := |log| - 1;
      OutputGrows(steps, world, log[..i], Tick(log[i]), output, chunk);
      var n := steps[i].needle;
      if Contains(output, n) {
        var k: nat :| OccursAt(output, n, k);
        assert (output + chunk)[k..k + |n|] == output[k..k + |n|];
        assert OccursAt(output + chunk, n, k);
      }
    }
  }

  /** What the log says of one step. */
  lemma {:induction false} LogTells(steps: Steps, world: World, log: seq<Outcome>, ticks: nat,
      output: seq<byte>, i: nat)
    requires LogSound(steps, world, log, ticks, output) && i < |log|
    ensures |log| <= |steps| && LeftRightly(steps[i], log[i], Since(log[..i]), world, output)
    ensures Tick(log[i]) < ticks && (i > 0 ==> Tick(log[i - 1]) < Tick(log[i]))
    decreases |log|
  {
    var last := |log| - 1;
    var front := log[..last];
    if i < last {
      LogTells(steps, world, front, Tick(log[last]), output, i);
      assert front[..i] == log[..i];
    } else if i > 0 {
      LogTells(steps, world, front, Tick(log[last]), output, i - 1);
    }
  }

  lemma ScanIsSound(steps: Steps, world: World, st: State, output: seq<byte>, chunk: seq<byte>)
    requires Sound(steps, world, st, output) && |st.buf| <= MAX_BUFFER && (st.cursor >= |steps| ==> st.buf == [])
    ensures var r := Scan(steps, world, st, chunk);
      && Sound(steps, world, r, output + chunk) && st.log <= r.log && st.sent <= r.sent
      && |r.buf| <= MAX_BUFFER && (r.cursor >= |steps| ==> r.buf == [])
  {
    hide Advance, LogSound, Answers, Arm, Bound;
    OutputGrows(steps, world, st.log, st.ticks, output, chunk);
    SuffixGrows(st.buf, output, chunk);
    if st.cursor < |steps| {
      AdvanceIsSound(steps, world, st.(buf := Bound(st.buf + chunk)), output + chunk);
    }
  }

  /** The buffer stays an end of the output, and short. */
  lemma SuffixGrows(buf: seq<byte>, output: seq<byte>, chunk: seq<byte>)
    requires |buf| <= |output| && buf == output[|output| - |buf|..]
    ensures var b := Bound(buf + chunk);
      var all := output + chunk;
      |b| <= MAX_BUFFER && |b| <= |all| && b == all[|all| - |b|..]
  {
    var all := output + chunk;
    assert buf + chunk == all[|all| - |buf + chunk|..];
  }

  /** Over any output, in any chunks, on any clock, from any sound state: the log stays
      sound, nothing that was logged or typed is taken back, and the buffer is bounded. */
  lemma {:induction false} EveryRun(steps: Steps, world: World, st: State, output: seq<byte>,
      chunks: seq<seq<byte>>)
    requires Sound(steps, world, st, output) && |st.buf| <= MAX_BUFFER && (st.cursor >= |steps| ==> st.buf == [])
    ensures var r := ScanEach(steps, world, st, chunks);
      && Sound(steps, world, r, output + Concat(chunks)) && |r.buf| <= MAX_BUFFER
      && st.log <= r.log && st.sent <= r.sent
    decreases |chunks|
  {
    hide Scan, Sound;
    if chunks == [] {
      assert output + Concat(chunks) == output;
    } else {
      ScanIsSound(steps, world, st, output, chunks[0]);
      EveryRun(steps, world, Scan(steps, world, st, chunks[0]), output + chunks[0], chunks[1..]);
      assert output + Concat(chunks) == output + chunks[0] + Concat(chunks[1..]);
    }
  }

  /** The steps of the plan that sent their response: in order, each once, all of them. */
  function Senders(steps: Steps, world: World, log: seq<Outcome>): (from: seq<nat>)
    requires |log| <= |steps|
    ensures forall k :: 0 <= k < |from| ==> from[k] < |log|
    ensures forall j, k :: 0 <= j < k < |from| ==> from[j] < from[k]
    ensures forall i :: 0 <= i < |log| ==> (i in from <==> Sends(steps[i], world, log[i]))
    decreases |log|
  {
    if log == [] then []
    else
      var i := |log| - 1;
      var front := Senders(steps, world, log[..i]);
      assert forall k :: 0 <= k < i ==> log[..i][k] == log[k];
      if Sends(steps[i], world, log[i]) then front + [i] else front
  }

  lemma {:induction false} AnswersInOrder(steps: Steps, world: World, log: seq<Outcome>)
    requires |log| <= |steps|
    ensures var from := Senders(steps, world, log);
      |from| == |Answers(steps, world, log)|
      && forall k :: 0 <= k < |from| ==> Answers(steps, world, log)[k] == steps[from[k]].response
    decreases |log|
  {
    if log != [] {
      AnswersInOrder(steps, world, log[..|log| - 1]);
    }
  }

  /** A runner from its start, over any output in any chunks, any clock and any channel:
      what was typed is, in the order of the plan and at most once each, the responses
      of matched steps that the channel took; every step before the cursor was matched
      with its needle in one piece in the output and in time, or had run out of time,
      one after the other; and the buffer is bounded. */
  lemma PlanRuns(steps: Steps, world: World, chunks: seq<seq<byte>>)
    ensures var r := ScanEach(steps, world, Start(steps, world), chunks);
      && r.cursor == |r.log| <= |steps| && |r.buf| <= MAX_BUFFER
      && (forall i :: 0 <= i < |r.log| ==>
            LeftRightly(steps[i], r.log[i], Since(r.log[..i]), world, Concat(chunks))
            && (i > 0 ==> Tick(r.log[i - 1]) < Tick(r.log[i])))
      && |r.sent| == |Senders(steps, world, r.log)|
      && forall k :: 0 <= k < |r.sent| ==> r.sent[k] == steps[Senders(steps, world, r.log)[k]].response
  {
    hide ScanEach, LogSound, LeftRightly, Arm;
    StartIsSound(steps, world);
    EveryRun(steps, world, Start(steps, world), [], chunks);
    var r := ScanEach(steps, world, Start(steps, world), chunks);
    var output := Concat(chunks);
    assert [] + output == output;
    LaterIsSound(steps, world, r.log, r.ticks, output);
    forall i | 0 <= i < |r.log|
      ensures LeftRightly(steps[i], r.log[i], Since(r.log[..i]), world, output)
        && (i > 0 ==> Tick(r.log[i - 1]) < Tick(r.log[i]))
    {
      LogTells(steps, world, r.log, r.ticks, output, i);
    }
    AnswersInOrder(steps, world, r.log);
  }

  /** The same for the plan as it is written: every response typed is that of a complete
      step of the plan, in the plan's order, each at most once; and the step that was left
      `i`th is the `i`th complete step of the plan. */
  lemma WrittenPlanRuns(plan: seq<PlanStep>, world: World, chunks: seq<seq<byte>>)
      returns (at: seq<nat>, from: seq<nat>)
    ensures (forall j, k :: 0 <= j < k < |at| ==> at[j] < at[k]) && forall k :: 0 <= k < |at| ==> at[k] < |plan|
    ensures forall i :: 0 <= i < |plan| ==> (i in at <==> IsComplete(plan[i]))
    ensures var steps := UsableSteps(plan);
      var r := ScanEach(steps, world, Start(steps, world), chunks);
      && |r.log| <= |at|
      && (forall i :: 0 <= i < |r.log| ==>
            LeftRightly(plan[at[i]], r.log[i], Since(r.log[..i]), world, Concat(chunks)))
      && |from| == |r.sent|
      && (forall j, k :: 0 <= j < k < |from| ==> from[j] < from[k])
      && (forall k :: 0 <= k < |from| ==> from[k] < |plan| && r.sent[k] == plan[from[k]].response)
      && forall k :: 0 <= k < |r.log| ==>
        (at[k] in from <==>
          && r.log[k].Matched? && world.taken(Tick(r.log[k]))
          && (plan[at[k]].kind == Input || plan[at[k]].kind == AnswerDialog))
  {
    hide ScanEach, LeftRightly, IsComplete, Arm, UsableSteps;
    at := PlanOrder(plan);
    var steps := UsableSteps(plan);
    PlanRuns(steps, world, chunks);
    var log := ScanEach(steps, world, Start(steps, world), chunks).log;
    var senders := Senders(steps, world, log);
    from := Through(at, senders);
  }

  /** Places of places. */
  lemma Through(at: seq<nat>, inner: seq<nat>) returns (from: seq<nat>)
    requires forall j, k :: 0 <= j < k < |at| ==> at[j] < at[k]
    requires forall k :: 0 <= k < |inner| ==> inner[k] < |at|
    requires forall j, k :: 0 <= j < k < |inner| ==> inner[j] < inner[k]
    ensures |from| == |inner| && forall k :: 0 <= k < |from| ==> from[k] == at[inner[k]]
    ensures forall j, k :: 0 <= j < k < |from| ==> from[j] < from[k]
    ensures forall i :: 0 <= i < |at| ==> (at[i] in from <==> i in inner)
  {
    from := seq(|inner|, k requires 0 <= k < |inner| => at[inner[k]]);
    forall i | 0 <= i < |at|
      ensures at[i] in from <==> i in inner
    {
      if i in inner {
        var j :| 0 <= j < |inner| && inner[j] == i;
        assert from[j] == at[i];
      }
      if at[i] in from {
        var j :| 0 <= j < |from| && from[j] == at[i];
        assert inner[j] == i;
      }
    }
  }

  // ---- what is captured ------------------------------------------------

  /** An extract step whose time is not over stores the word behind the first occurrence
      of its needle in the buffer. */
  lemma ExtractStores(steps: Steps, world: World, st: State, front: seq<byte>, blanks: seq<byte>,
      word: seq<byte>, rest: seq<byte>)
    requires st.cursor < |steps| && steps[st.cursor].kind == ExtractSessionId
    requires st.deadline.Some? ==> world.clock(st.ticks) <= st.deadline.value
    requires st.buf == front + steps[st.cursor].needle + (blanks + word + rest)
    requires forall i: nat :: i < |front| ==> !OccursAt(st.buf, steps[st.cursor].needle, i)
    requires forall i :: 0 <= i < |blanks| ==> IsBlank(blanks[i])
    requires forall i :: 0 <= i < |word| ==> !IsAsciiSpace(word[i])
    requires rest == [] || IsAsciiSpace(rest[0])
    requires word == [] ==> rest == [] || !IsBlank(rest[0])
    ensures var done := st.(ticks := st.ticks + 1, captured := st.captured[steps[st.cursor].into := Lossy(word)]);
      Advance(steps, world, st)
        == Advance(steps, world, Pass(steps, done, Matched(st.ticks), world.clock(st.ticks)))
  {
    hide Find, TokenAfter, Advance, Arm, Lossy;
    var n := steps[st.cursor].needle;
    var tail := blanks + word + rest;
    FindFinds(st.buf, n);
    assert st.buf[|front|..|front| + |n|] == n;
    assert OccursAt(st.buf, n, |front|);
    assert Find(st.buf, n) == Some(|front|);
    AdvanceOnce(steps, world, st);
    TokenIsWord(blanks, word, rest);
    TokenBehind(front + n, tail);
  }

  lemma TokenBehind(front: seq<byte>, tail: seq<byte>)
    ensures TokenAfter(front + tail, |front|) == TokenAfter(tail, 0)
  {
    hide Lossy;
    assert (front + tail)[|front|..] == tail && tail[0..] == tail;
  }

  /** A slot is only written by a step that extracts into it: without one from the cursor
      on, what it holds stays through every run. */
  lemma {:induction false} SlotStays(steps: Steps, world: World, st: State, chunks: seq<seq<byte>>, slot: string)
    requires forall i :: st.cursor <= i < |steps| && steps[i].kind == ExtractSessionId ==> steps[i].into != slot
    ensures var r := ScanEach(steps, world, st, chunks);
      slot in r.captured <==> slot in st.captured
    ensures var r := ScanEach(steps, world, st, chunks);
      slot in st.captured ==> r.captured[slot] == st.captured[slot]
    decreases |chunks|
  {
    hide Advance, Bound;
    if chunks != [] {
      if st.cursor < |steps| {
        SlotStaysOnce(steps, world, st.(buf := Bound(st.buf + chunks[0])), slot);
      }
      SlotStays(steps, world, Scan(steps, world, st, chunks[0]), chunks[1..], slot);
    }
  }

  lemma {:induction false} SlotStaysOnce(steps: Steps, world: World, st: State, slot: string)
    requires forall i :: st.cursor <= i < |steps| && steps[i].kind == ExtractSessionId ==> steps[i].into != slot
    ensures var r := Advance(steps, world, st);
      && r.cursor >= st.cursor && (slot in r.captured <==> slot in st.captured)
      && (slot in st.captured ==> r.captured[slot] == st.captured[slot])
    decreases |steps| - st.cursor
  {
    hide Find, TokenAfter, Advance, Arm;
    if st.cursor >= |steps| {
      AdvanceDone(steps, world, st);
    } else {
      AdvanceOnce(steps, world, st);
      var now := world.clock(st.ticks);
      var st' := st.(ticks := st.ticks + 1);
      if st.deadline.Some? && now > st.deadline.value {
        SlotStaysOnce(steps, world, Pass(steps, st', Expired(st.ticks), now), slot);
      } else if Do(steps[st.cursor], st', world.taken(st.ticks)).Some? {
        var done := Do(steps[st.cursor], st', world.taken(st.ticks)).value;
        SlotStaysOnce(steps, world, Pass(steps, done, Matched(st.ticks), now), slot);
      }
    }
  }

  /** What the deadline does. At the next reading of the clock the step under the cursor
      is dropped if and only if it has a needle and more than its window has passed
      since it became active, wherever the needle is; otherwise it is done if and only
      if it has no needle or the needle is in the buffer; and if neither, it waits. */
  lemma DeadlineDecides(steps: Steps, world: World, st: State, output: seq<byte>)
    requires Sound(steps, world, st, output) && st.cursor < |steps|
    ensures var step := steps[st.cursor];
      var r := Advance(steps, world, st);
      if step.kind != Input && world.clock(st.ticks) > world.clock(Since(st.log)) + step.window then
        st.log + [Expired(st.ticks)] <= r.log
      else if step.kind == Input || Find(st.buf, step.needle).Some? then
        st.log + [Matched(st.ticks)] <= r.log
      else
        r == st.(ticks := st.ticks + 1)
  {
    hide Find, TokenAfter, Advance, LogSound, Answers, LeftRightly;
    AdvanceOnce(steps, world, st);
    StepIsSound(steps, world, st, output);
    var now := world.clock(st.ticks);
    var st' := st.(ticks := st.ticks + 1);
    if st.deadline.Some? && now > st.deadline.value {
      AdvanceIsSound(steps, world, Pass(steps, st', Expired(st.ticks), now), output);
    } else if Do(steps[st.cursor], st', world.taken(st.ticks)).Some? {
      var done := Do(steps[st.cursor], st', world.taken(st.ticks)).value;
      AdvanceIsSound(steps, world, Pass(steps, done, Matched(st.ticks), now), output);
    }
  }

  /** When a scan comes to rest before the end of the plan, the step under the cursor
      really waits: its needle is not in the buffer and its time is not over. */
  lemma {:induction false} RestsOnlyToWait(steps: Steps, world: World, st: State)
    requires st.cursor <= |steps|
    ensures var r := Advance(steps, world, st);
      r.cursor < |steps| ==>
        && steps[r.cursor].kind != Input && Find(r.buf, steps[r.cursor].needle) == None
        && r.ticks > 0 && (r.deadline.Some? ==> world.clock(r.ticks - 1) <= r.deadline.value)
    decreases |steps| - st.cursor
  {
    hide Find, TokenAfter, Advance, Arm;
    if st.cursor >= |steps| {
      AdvanceDone(steps, world, st);
    } else {
      AdvanceOnce(steps, world, st);
      var now := world.clock(st.ticks);
      var st' := st.(ticks := st.ticks + 1);
      if st.deadline.Some? && now > st.deadline.value {
        RestsOnlyToWait(steps, world, Pass(steps, st', Expired(st.ticks), now));
      } else if Do(steps[st.cursor], st', world.taken(st.ticks)).Some? {
        var done := Do(steps[st.cursor], st', world.taken(st.ticks)).value;
        RestsOnlyToWait(steps, world, Pass(steps, done, Matched(st.ticks), now));
      }
    }
  }

  // ---- when a needle in the output is missed ---------------------------

  const WINDOW := Window(MAX_BUFFER, KEEP)

  /** From `lo` on, `n` stands in `w` at `p` and nowhere else. */
  ghost predicate OnlyAt(w: seq<byte>, n: seq<byte>, lo: nat, p: nat) {
    forall i: nat :: i >= lo ==> (OccursAt(w, n, i) <==> i == p && p + |n| <= |w|)
  }

  lemma FindOnly(w: seq<byte>, n: seq<byte>, lo: nat, hi: nat, p: nat)
    requires n != [] && lo <= hi <= |w| && OnlyAt(w, n, lo, p)
    ensures Find(w[lo..hi], n).Some? <==> lo <= p && p + |n| <= hi
  {
    FindFinds(w[lo..hi], n);
    forall i: nat
      ensures OccursAt(w[lo..hi], n, i) <==> lo + i == p && p + |n| <= hi
    {
      OccursInPart(w, n, lo, hi, i);
    }
    assert lo <= p && p + |n| <= hi ==> OccursAt(w[lo..hi], n, p - lo);
  }

  /** The step under the cursor waits for a needle, and its time is not over at any of
      the next `count` readings of the clock. */
  ghost predicate InTime(steps: Steps, world: World, st: State, count: nat) {
    && st.cursor < |steps| && steps[st.cursor].kind != Input
    && forall t :: st.ticks <= t < st.ticks + count ==>
      world.clock(t) <= world.clock(Since(st.log)) + steps[st.cursor].window
  }

  /** The step under the cursor was matched. */
  predicate MatchedNext(st: State, r: State) {
    |r.log| > |st.log| && r.log[|st.log|].Matched?
  }

  /** One chunk, in time. */
  lemma NeedleInChunk(steps: Steps, world: World, st: State, output: seq<byte>, w: seq<byte>, chunk: seq<byte>, p: nat)
    requires Sound(steps, world, st, output) && InTime(steps, world, st, 1)
    requires output + chunk <= w && OnlyAt(w, steps[st.cursor].needle, |output| - |st.buf|, p)
    ensures var r := Scan(steps, world, st, chunk);
      var hi := |output| + |chunk|;
      var k := Kept(WINDOW, |output| - |st.buf|, hi);
      if k <= p && p + |steps[st.cursor].needle| <= hi then st.log + [Matched(st.ticks)] <= r.log
      else r == st.(buf := w[k..hi], ticks := st.ticks + 1)
  {
    hide Find, Advance, LogSound, Answers, LeftRightly, OnlyAt;
    var lo, hi := |output| - |st.buf|, |output| + |chunk|;
    var k := Kept(WINDOW, lo, hi);
    var n := steps[st.cursor].needle;
    assert st.buf + chunk == w[lo..hi];
    assert Bound(st.buf + chunk) == w[k..hi];
    OnlyAtFrom(w, n, lo, k, p);
    FindOnly(w, n, k, hi, p);
    OutputGrows(steps, world, st.log, st.ticks, output, chunk);
    SuffixGrows(st.buf, output, chunk);
    DeadlineDecides(steps, world, st.(buf := w[k..hi]), output + chunk);
  }

  lemma OnlyAtFrom(w: seq<byte>, n: seq<byte>, lo: nat, k: nat, p: nat)
    requires OnlyAt(w, n, lo, p) && lo <= k
    ensures OnlyAt(w, n, k, p)
  {}

  /** Any chunks, in time: a needle that stands in the output once is matched if and
      only if the buffer still begins at or before it when its last byte comes, which
      the lengths of the chunks decide. */
  lemma {:induction false} NeedleInRun(steps: Steps, world: World, st: State, output: seq<byte>,
      chunks: seq<seq<byte>>, p: nat)
    requires Sound(steps, world, st, output) && |st.buf| <= MAX_BUFFER && InTime(steps, world, st, |chunks|)
    requires OnlyAt(output + Concat(chunks), steps[st.cursor].needle, |output| - |st.buf|, p)
    ensures MatchedNext(st, ScanEach(steps, world, st, chunks))
      <==> IsSeen(WINDOW, |output| - |st.buf|, |output|, Lens(chunks), -1, 0, p, p + |steps[st.cursor].needle|)
    decreases |chunks|
  {
    hide Scan, Sound, OnlyAt;
    if chunks != [] {
      var w := output + Concat(chunks);
      var c := chunks[0];
      SoundIsSuffix(steps, world, st, output);
      assert w == output + c + Concat(chunks[1..]);
      NeedleInChunk(steps, world, st, output, w, c, p);
      ScanIsSound(steps, world, st, output, c);
      var next := Scan(steps, world, st, c);
      assert Lens(chunks)[1..] == Lens(chunks[1..]);
      if |next.log| > |st.log| {
        EveryRun(steps, world, next, output + c, chunks[1..]);
      } else {
        OnlyAtFrom(w, steps[st.cursor].needle, |output| - |st.buf|, |output + c| - |next.buf|, p);
        NeedleInRun(steps, world, next, output + c, chunks[1..], p);
      }
    }
  }

  lemma SoundIsSuffix(steps: Steps, world: World, st: State, output: seq<byte>)
    requires Sound(steps, world, st, output)
    ensures |st.buf| <= |output|
  {}

  /** Chunks so short that what is kept holds a needle that has begun: a needle of `n`
      bytes that comes whole after a step became active is matched, in time, if no
      chunk has more than 1025 - n bytes. */
  lemma ShortChunksMatch(steps: Steps, world: World, st: State, output: seq<byte>, chunks: seq<seq<byte>>, p: nat)
    requires Sound(steps, world, st, output) && |st.buf| <= MAX_BUFFER && InTime(steps, world, st, |chunks|)
    requires OnlyAt(output + Concat(chunks), steps[st.cursor].needle, |output| - |st.buf|, p)
    requires var end := p + |steps[st.cursor].needle|;
      |output| - |st.buf| <= p && |output| < end <= |output| + |Concat(chunks)| && end - p <= KEEP
    requires forall i :: 0 <= i < |chunks| ==> |chunks[i]| + |steps[st.cursor].needle| <= KEEP + 1
    ensures MatchedNext(st, ScanEach(steps, world, st, chunks))
  {
    hide ScanEach, Sound, OnlyAt, Concat;
    SoundIsSuffix(steps, world, st, output);
    var n := |steps[st.cursor].needle|;
    NeedleInRun(steps, world, st, output, chunks, p);
    SumOfLens(chunks);
    ShortChunksSee(WINDOW, |output| - |st.buf|, |output|, Lens(chunks), -1, 0, p, p + n, n);
  }

  /** And 1026 - n bytes are too many: with all but the last byte of the needle there and
      the buffer nearly full, such a chunk makes the plan miss it for good. */
  lemma LongerChunkIsTooMuch(steps: Steps, world: World, st: State, output: seq<byte>,
      chunks: seq<seq<byte>>, p: nat)
    requires Sound(steps, world, st, output) && |st.buf| <= MAX_BUFFER && InTime(steps, world, st, |chunks|)
    requires OnlyAt(output + Concat(chunks), steps[st.cursor].needle, |output| - |st.buf|, p)
    requires var n := |steps[st.cursor].needle|;
      && |output| - |st.buf| <= p && |output| == p + n - 1 && n <= KEEP
      && chunks != [] && |chunks[0]| + n == KEEP + 2 && |st.buf| + |chunks[0]| > MAX_BUFFER
    ensures !MatchedNext(st, ScanEach(steps, world, st, chunks))
  {
    hide ScanEach, Sound, OnlyAt, Concat;
    SoundIsSuffix(steps, world, st, output);
    var n := |steps[st.cursor].needle|;
    NeedleInRun(steps, world, st, output, chunks, p);
    assert Lens(chunks) == [|chunks[0]|] + Lens(chunks)[1..];
    LongerChunkMisses(WINDOW, |output| - |st.buf|, |output|, |chunks[0]|, Lens(chunks)[1..], p, n);
  }
}
