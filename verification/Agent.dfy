/** The agent (`internal/agent/agent.go`): source goroutines that share one spool behind a mutex, the shipper
    goroutine, and the main goroutine that joins them all, closes the spool and drains it. A step of the agent
    that enters the spool or the shipper takes a step of the protocol; that the step is possible there is not
    assumed but proved. */
module Agents {
  import opened Storage
  import opened Protocol
  import opened Invariant
  import opened Preservation
  import opened Theorems
  import opened SpoolDirectory
  import opened Options
  import Spooling
  import Shipping

  /** Where a source goroutine is: before its first tick, in its select loop, in `collect`, with envelopes
      still to write, holding the mutex, in `Spool.Write`, past its loop, or done. */
  datatype Source =
    | Waiting
    | Selecting
    | Collecting
    | Writing(envs: seq<Line>)
    | Holding(envs: seq<Line>)
    | InWrite(envs: seq<Line>)
    | Stopped
    | Done

  datatype ShipLoop = NoShipper | ShipWaiting | InRun | ShipDone

  datatype Main = Waits | Joins | InClose | InDrain | Returned

  /** An envelope passed to `Spool.Write`, and the source it came from. */
  datatype Written = Written(src: nat, line: Line)

  /** `written` records the calls of `Spool.Write`, in order. */
  datatype Agent = Agent(q: Sys, cancelled: bool, lock: Option<nat>, srcs: seq<Source>, ship: ShipLoop, main: Main,
                         written: seq<Written>)

  datatype Step =
    | Cancel
    | Tick(i: nat) | Collect(i: nat, envs: seq<Line>) | TickDone(i: nat)
    | Lock(i: nat) | CallWrite(i: nat, aged: bool) | WriteStep(i: nat, e: Event) | Unlock(i: nat)
    | StopSource(i: nat) | CloseSource(i: nat)
    | ShipTick | ShipStep(e: Event) | ShipReturn | ShipStop
    | WaitReturns | CallClose | CloseStep(e: Event) | StartDrain | DrainStep(e: Event) | Return

  /** `Run` starts with an opened spool, one goroutine per source, and a shipper goroutine if configured. */
  function Start(c: Config, q: Sys, sources: nat): Agent {
    Agent(q, false, None, seq(sources, _ => Waiting), if c.push then ShipWaiting else NoShipper, Waits, [])
  }

  /** The steps a call of `Write` or of `Close` makes after it has begun. */
  predicate Inner(e: Event) {
    WriterEvent(e) && !e.WriteCall? && !e.CloseCall?
  }

  predicate AllEnvelopes(ls: seq<Line>) {
    forall i | 0 <= i < |ls| :: ls[i].Envelope?
  }

  /** Whether goroutine code permits the step. It looks into the protocol state only to see whether a call it
      is in has returned, and which step that call takes next. */
  predicate Can(c: Config, a: Agent, t: Step) {
    match t
    case Cancel => true
    case Tick(i) => i < |a.srcs| && (a.srcs[i].Waiting? || a.srcs[i].Selecting?)
    case Collect(i, envs) => i < |a.srcs| && a.srcs[i].Collecting? && AllEnvelopes(envs)
    case TickDone(i) => i < |a.srcs| && a.srcs[i] == Writing([])
    case Lock(i) => i < |a.srcs| && a.srcs[i].Writing? && a.srcs[i].envs != [] && a.lock.None?
    case CallWrite(i, _) => i < |a.srcs| && a.srcs[i].Holding? && a.srcs[i].envs != []
    case WriteStep(i, e) => i < |a.srcs| && a.srcs[i].InWrite? && Inner(e) && Enabled(c, a.q, e)
    case Unlock(i) => i < |a.srcs| && a.srcs[i].InWrite? && a.srcs[i].envs != [] && a.q.w.WIdle?
    case StopSource(i) => i < |a.srcs| && a.cancelled && (a.srcs[i].Waiting? || a.srcs[i].Selecting?)
    case CloseSource(i) => i < |a.srcs| && a.srcs[i].Stopped?
    case ShipTick => a.ship.ShipWaiting?
    case ShipStep(e) => a.ship.InRun? && ShipperEvent(e) && !e.RunCall? && Enabled(c, a.q, e)
    case ShipReturn => a.ship.InRun? && a.q.s.SOut?
    case ShipStop => a.cancelled && a.ship.ShipWaiting?
    case WaitReturns =>
      a.main.Waits? && (forall i | 0 <= i < |a.srcs| :: a.srcs[i].Done?) && (a.ship.NoShipper? || a.ship.ShipDone?)
    case CallClose => a.main.Joins?
    case CloseStep(e) => a.main.InClose? && Inner(e) && Enabled(c, a.q, e)
    case StartDrain => a.main.InClose? && a.q.w.WClosed?
    case DrainStep(e) => a.main.InDrain? && ShipperEvent(e) && !e.RunCall? && Enabled(c, a.q, e)
    case Return => a.main.InDrain? && a.q.phase.Exited?
  }

  /** The protocol steps a step of the agent makes: none or one. */
  function Calls(c: Config, a: Agent, t: Step): (es: seq<Event>)
    requires Can(c, a, t)
    ensures |es| <= 1
  {
    match t
    case CallWrite(i, aged) => [WriteCall(a.srcs[i].envs[0], aged)]
    case WriteStep(_, e) => [e]
    case ShipTick => [RunCall]
    case ShipStep(e) => [e]
    case WaitReturns => [Join]
    case CallClose => [CloseCall]
    case CloseStep(e) => [e]
    case StartDrain => if a.ship.NoShipper? then [LeaveBundle] else [RunCall]
    case DrainStep(e) => [e]
    case _ => []
  }

  /** The goroutines' own part of the step. */
  function Move(c: Config, a: Agent, t: Step): Agent
    requires Can(c, a, t)
  {
    match t
    case Cancel => a.(cancelled := true)
    case Tick(i) => a.(srcs := a.srcs[i := Collecting])
    case Collect(i, envs) => a.(srcs := a.srcs[i := Writing(envs)])
    case TickDone(i) => a.(srcs := a.srcs[i := Selecting])
    case Lock(i) => a.(srcs := a.srcs[i := Holding(a.srcs[i].envs)], lock := Some(i))
    case CallWrite(i, _) =>
      a.(srcs := a.srcs[i := InWrite(a.srcs[i].envs)], written := a.written + [Written(i, a.srcs[i].envs[0])])
    case Unlock(i) => a.(srcs := a.srcs[i := Writing(a.srcs[i].envs[1..])], lock := None)
    case StopSource(i) => a.(srcs := a.srcs[i := Stopped])
    case CloseSource(i) => a.(srcs := a.srcs[i := Done])
    case ShipTick => a.(ship := InRun)
    case ShipReturn => a.(ship := ShipWaiting)
    case ShipStop => a.(ship := ShipDone)
    case WaitReturns => a.(main := Joins)
    case CallClose => a.(main := InClose)
    case StartDrain => a.(main := if a.ship.NoShipper? then Returned else InDrain)
    case Return => a.(main := Returned)
    case _ => a
  }

  /** The protocol permits the call the step makes. */
  predicate Possible(c: Config, a: Agent, t: Step)
    requires Can(c, a, t)
  {
    Calls(c, a, t) == [] || Enabled(c, a.q, Calls(c, a, t)[0])
  }

  /** The step. A call the protocol does not permit would leave everything as it is; `NeverBlocked` says
      there is none. */
  function Do(c: Config, a: Agent, t: Step): Agent
    requires Can(c, a, t)
  {
    var es := Calls(c, a, t);
    if es == [] then Move(c, a, t)
    else if Enabled(c, a.q, es[0]) then Move(c, a, t).(q := Next(c, a.q, es[0]))
    else a
  }

  /** `ts` can be done from `a`. */
  predicate Doable(c: Config, a: Agent, ts: seq<Step>)
    decreases |ts|, 0
  {
    ts == [] || (Doable(c, a, ts[..|ts| - 1]) && Can(c, End(c, a, ts[..|ts| - 1]), ts[|ts| - 1]))
  }

  function End(c: Config, a: Agent, ts: seq<Step>): Agent
    requires Doable(c, a, ts)
    decreases |ts|, 1
  {
    if ts == [] then a else Do(c, End(c, a, ts[..|ts| - 1]), ts[|ts| - 1])
  }

  // ---- The invariant ----

  predicate HasMutex(s: Source) {
    s.Holding? || s.InWrite?
  }

  ghost predicate SourcesOk(a: Agent) {
    && (forall i | 0 <= i < |a.srcs| :: HasMutex(a.srcs[i]) <==> a.lock == Some(i))
    && (a.lock.Some? ==> a.lock.value < |a.srcs|)
    && (forall i | 0 <= i < |a.srcs| ::
          && (a.srcs[i].Writing? || HasMutex(a.srcs[i]) ==> AllEnvelopes(a.srcs[i].envs))
          && (HasMutex(a.srcs[i]) ==> a.srcs[i].envs != []))
  }

  /** In `Spool.Close`, or past it. */
  ghost predicate Closing(w: Writer) {
    w.WClosed? || (Rotating(w) && w.k.Shut?)
  }

  ghost predicate MainOk(c: Config, a: Agent) {
    && (a.ship.NoShipper? <==> !c.push)
    && (if a.main.Waits? then
          && a.q.phase.Running? && Up(a.q.w)
          && (a.q.w.WIdle? || (a.lock.Some? && a.lock.value < |a.srcs| && a.srcs[a.lock.value].InWrite?))
          && (a.ship.InRun? || a.q.s.SOut?)
        else
          && (forall i | 0 <= i < |a.srcs| :: a.srcs[i].Done?)
          && (a.ship.NoShipper? || a.ship.ShipDone?)
          && (match a.main
              case Joins => a.q.phase.Joined? && a.q.w.WIdle? && a.q.s.SOut?
              case InClose => a.q.phase.Joined? && a.q.s.SOut? && Closing(a.q.w)
              case InDrain => c.push && (a.q.phase.Draining? || a.q.phase.Exited?)
              case _ => a.q.phase.Exited?))
  }

  ghost predicate AgentInv(c: Config, a: Agent) {
    SourcesOk(a) && MainOk(c, a)
  }

  /** Whatever the goroutine code permits, the spool and the shipper permit: no two writes overlap, no write
      or shipping overlaps the close, and nothing precedes the join. */
  lemma NeverBlocked(c: Config, a: Agent, t: Step)
    requires AgentInv(c, a) && Can(c, a, t)
    ensures Possible(c, a, t)
  {
  }

  lemma SourceMoves(a: Agent, i: nat, s: Source)
    requires SourcesOk(a) && i < |a.srcs|
    requires (s.Writing? || HasMutex(s) ==> AllEnvelopes(s.envs)) && (HasMutex(s) ==> s.envs != [])
    requires HasMutex(s) <==> HasMutex(a.srcs[i])
    ensures SourcesOk(a.(srcs := a.srcs[i := s]))
  {
  }

  lemma SourcesKept(c: Config, a: Agent, t: Step)
    requires AgentInv(c, a) && Can(c, a, t)
    ensures SourcesOk(Move(c, a, t))
  {
    match t
    case Tick(i) => SourceMoves(a, i, Collecting);
    case Collect(i, envs) => SourceMoves(a, i, Writing(envs));
    case TickDone(i) => SourceMoves(a, i, Selecting);
    case Lock(i) =>
    case CallWrite(i, _) => SourceMoves(a, i, InWrite(a.srcs[i].envs));
    case Unlock(i) =>
    case StopSource(i) => SourceMoves(a, i, Stopped);
    case CloseSource(i) => SourceMoves(a, i, Done);
    case _ =>
  }

  /** What a step of the protocol inside `Write`, `Close` or `Run` cannot change. */
  lemma InnerStep(c: Config, s: Sys, e: Event)
    requires Enabled(c, s, e) && (Inner(e) || (ShipperEvent(e) && !e.RunCall?))
    ensures var t := Next(c, s, e);
      && (Up(s.w) ==> Up(t.w))
      && (Inner(e) ==> t.s == s.s && t.phase == s.phase && (Closing(s.w) ==> Closing(t.w)))
      && (ShipperEvent(e) ==> t.w == s.w && (t.phase == s.phase || (s.phase.Draining? && t.phase.Exited?)))
  {
  }

  lemma {:induction false} StepKeepsAgent(c: Config, a: Agent, t: Step)
    requires AgentInv(c, a) && Can(c, a, t)
    ensures AgentInv(c, Do(c, a, t)) && Possible(c, a, t)
  {
    SourcesKept(c, a, t);
    MainKept(c, a, t);
  }

  lemma MainKept(c: Config, a: Agent, t: Step)
    requires AgentInv(c, a) && Can(c, a, t)
    ensures MainOk(c, Do(c, a, t))
  {
    NeverBlocked(c, a, t);
    match t
    case WriteStep(_, _) => InsideKept(c, a, t);
    case ShipStep(_) => InsideKept(c, a, t);
    case CloseStep(_) => InsideKept(c, a, t);
    case DrainStep(_) => InsideKept(c, a, t);
    case ShipTick => ShipKept(c, a, t);
    case ShipReturn => ShipKept(c, a, t);
    case ShipStop => ShipKept(c, a, t);
    case WaitReturns => ShutdownKept(c, a, t);
    case CallClose => ShutdownKept(c, a, t);
    case StartDrain => ShutdownKept(c, a, t);
    case Return => ShutdownKept(c, a, t);
    case _ => SourceKept(c, a, t);
  }

  lemma ShipKept(c: Config, a: Agent, t: Step)
    requires AgentInv(c, a) && Can(c, a, t) && Possible(c, a, t) && (t.ShipTick? || t.ShipReturn? || t.ShipStop?)
    ensures MainOk(c, Do(c, a, t))
  {
  }

  lemma ShutdownKept(c: Config, a: Agent, t: Step)
    requires AgentInv(c, a) && Can(c, a, t) && Possible(c, a, t)
    requires t.WaitReturns? || t.CallClose? || t.StartDrain? || t.Return?
    ensures MainOk(c, Do(c, a, t))
  {
  }

  lemma SourceKept(c: Config, a: Agent, t: Step)
    requires AgentInv(c, a) && Can(c, a, t) && Possible(c, a, t)
    requires t.Cancel? || t.Tick? || t.Collect? || t.TickDone? || t.Lock? || t.CallWrite? || t.Unlock?
             || t.StopSource? || t.CloseSource?
    ensures MainOk(c, Do(c, a, t))
  {
  }

  lemma InsideKept(c: Config, a: Agent, t: Step)
    requires AgentInv(c, a) && Can(c, a, t) && (t.WriteStep? || t.ShipStep? || t.CloseStep? || t.DrainStep?)
    ensures MainOk(c, Do(c, a, t))
  {
    InnerStep(c, a.q, t.e);
  }

  // ---- Envelopes ----

  /** The envelopes among the lines, in order. */
  ghost function Envelopes(ls: seq<Line>): seq<Line> {
    if ls == [] then []
    else Envelopes(ls[..|ls| - 1]) + (if ls[|ls| - 1].Envelope? then [ls[|ls| - 1]] else [])
  }

  /** An envelope passed to `Write` and not appended yet. */
  ghost function InFlight(w: Writer): seq<Line> {
    if w.WWrite? then [w.line]
    else if Rotating(w) && w.k.Append? then [w.k.line]
    else []
  }

  ghost function Taken(s: Sys): seq<Line> {
    Envelopes(s.h.appended) + InFlight(s.w)
  }

  lemma TakenStep(c: Config, s: Sys, e: Event)
    requires Enabled(c, s, e) && (WriterEvent(e) || ShipperEvent(e) || e.Join? || e.LeaveBundle?)
    requires s.w.WWrite? ==> s.w.line.Envelope?
    ensures Taken(Next(c, s, e)) == Taken(s) + (if e.WriteCall? then [e.line] else [])
  {
    if e.AppendLine? {
      assert (s.h.appended + [s.w.line])[..|s.h.appended|] == s.h.appended;
    } else if e.AppendWarning? {
      var l := Warning(s.w.oldest, e.body);
      assert (s.h.appended + [l])[..|s.h.appended|] == s.h.appended;
    } else {
      OnlyAppendsLog(c, s, e);
    }
  }

  lemma OnlyAppendsLog(c: Config, s: Sys, e: Event)
    requires Enabled(c, s, e) && !e.AppendLine? && !e.AppendWarning? && !e.Crash? && !e.Restart?
    ensures Next(c, s, e).h.appended == s.h.appended
    ensures e.WriteCall? ==> InFlight(s.w) == [] && InFlight(Next(c, s, e).w) == [e.line]
    ensures !e.WriteCall? ==> InFlight(Next(c, s, e).w) == InFlight(s.w)
  {
  }

  // ---- Runs of the agent ----

  /** The run `run` of the protocol, which goes on from `es`, is what the agent has done so far. */
  ghost predicate Matches(c: Config, es: seq<Event>, sources: nat, a: Agent, run: seq<Event>) {
    && AgentInv(c, a)
    && Legal(c, es) && es <= run && Legal(c, run) && a.q == Play(c, run)
    && Taken(a.q) == Taken(Play(c, es)) + Lines(a.written)
    && |a.srcs| == sources
    && (forall k | 0 <= k < |a.written| :: a.written[k].src < sources)
  }

  /** The envelopes written, in order. */
  function Lines(ws: seq<Written>): (ls: seq<Line>)
    ensures |ls| == |ws| && forall k | 0 <= k < |ws| :: ls[k] == ws[k].line
  {
    seq(|ws|, k requires 0 <= k < |ws| => ws[k].line)
  }

  /** Every run of the agent is, for the spool and the shipper, a run of the protocol. */
  lemma {:induction false} Refines(c: Config, es: seq<Event>, sources: nat, ts: seq<Step>) returns (run: seq<Event>)
    requires Legal(c, es) && Play(c, es).phase.Running? && Play(c, es).w.WIdle? && Play(c, es).s.SOut?
    requires Doable(c, Start(c, Play(c, es), sources), ts)
    ensures Matches(c, es, sources, End(c, Start(c, Play(c, es), sources), ts), run)
    decreases |ts|
  {
    var a0 := Start(c, Play(c, es), sources);
    if ts == [] {
      run := es;
    } else {
      var n := |ts| - 1;
      var prior := Refines(c, es, sources, ts[..n]);
      run := RefinesOne(c, es, sources, prior, End(c, a0, ts[..n]), ts[n]);
    }
  }

  lemma RefinesOne(c: Config, es: seq<Event>, sources: nat, prior: seq<Event>, a: Agent, t: Step) returns (run: seq<Event>)
    requires Matches(c, es, sources, a, prior) && Can(c, a, t)
    ensures Matches(c, es, sources, Do(c, a, t), run)
  {
    StepKeepsAgent(c, a, t);
    run := RefinesStep(c, prior, a, t);
    LinesConcat(a.written, Adds(c, a, t));
    assert t.CallWrite? ==> t.i < |a.srcs|;
  }

  lemma LinesConcat(a: seq<Written>, b: seq<Written>)
    ensures Lines(a + b) == Lines(a) + Lines(b)
  {
  }

  /** What a call of `Write` adds, if the step makes one. */
  function Adds(c: Config, a: Agent, t: Step): seq<Written>
    requires Can(c, a, t)
  {
    if t.CallWrite? then [Written(t.i, a.srcs[t.i].envs[0])] else []
  }

  lemma AgentStep(c: Config, a: Agent, t: Step)
    requires Can(c, a, t) && Possible(c, a, t)
    ensures |Do(c, a, t).srcs| == |a.srcs| && Do(c, a, t).written == a.written + Adds(c, a, t)
    ensures var es := Calls(c, a, t);
      if es == [] then Do(c, a, t).q == a.q && Adds(c, a, t) == []
      else Do(c, a, t).q == Next(c, a.q, es[0])
           && (WriterEvent(es[0]) || ShipperEvent(es[0]) || es[0].Join? || es[0].LeaveBundle?)
           && Lines(Adds(c, a, t)) == if es[0].WriteCall? then [es[0].line] else []
  {
  }

  lemma RefinesStep(c: Config, prior: seq<Event>, a: Agent, t: Step) returns (run: seq<Event>)
    requires Legal(c, prior) && a.q == Play(c, prior) && Can(c, a, t) && Possible(c, a, t)
    ensures prior <= run && Legal(c, run) && Do(c, a, t).q == Play(c, run)
    ensures |Do(c, a, t).srcs| == |a.srcs|
    ensures Do(c, a, t).written == a.written + Adds(c, a, t)
    ensures Taken(Do(c, a, t).q) == Taken(a.q) + Lines(Adds(c, a, t))
  {
    AgentStep(c, a, t);
    var es := Calls(c, a, t);
    if es == [] {
      run := prior;
    } else {
      run := prior + [es[0]];
      PlayStep(c, prior, es[0]);
      WriteIsEnvelope(c, prior);
      TakenStep(c, a.q, es[0]);
    }
  }

  lemma WriteIsEnvelope(c: Config, es: seq<Event>)
    requires Legal(c, es)
    ensures Play(c, es).w.WWrite? ==> Play(c, es).w.line.Envelope?
  {
    Reachable(c, es);
  }

  // ---- Nothing ends before it is cancelled ----

  /** A source that has left its loop, or a shipper goroutine that has, has seen the cancellation. */
  ghost predicate EndsOk(a: Agent) {
    && (forall i | 0 <= i < |a.srcs| :: a.srcs[i].Stopped? || a.srcs[i].Done? ==> a.cancelled)
    && (a.ship.ShipDone? ==> a.cancelled)
  }

  lemma EndsStep(c: Config, a: Agent, t: Step)
    requires Can(c, a, t) && EndsOk(a)
    ensures EndsOk(Do(c, a, t))
  {
  }

  lemma CancelStep(c: Config, a: Agent, t: Step)
    requires Can(c, a, t)
    ensures Do(c, a, t).cancelled <==> a.cancelled || t == Cancel
  {
  }

  lemma {:induction false} EndsKept(c: Config, a: Agent, ts: seq<Step>)
    requires Doable(c, a, ts) && EndsOk(a)
    ensures EndsOk(End(c, a, ts))
    decreases |ts|
  {
    if ts != [] {
      var n := |ts| - 1;
      EndsKept(c, a, ts[..n]);
      EndsStep(c, End(c, a, ts[..n]), ts[n]);
    }
  }

  lemma {:induction false} CancelKept(c: Config, a: Agent, ts: seq<Step>)
    requires Doable(c, a, ts) && !a.cancelled
    ensures End(c, a, ts).cancelled <==> Cancel in ts
    decreases |ts|
  {
    if ts != [] {
      var n := |ts| - 1;
      CancelKept(c, a, ts[..n]);
      CancelStep(c, End(c, a, ts[..n]), ts[n]);
      assert ts == ts[..n] + [ts[n]];
    }
  }

  /** With `cancelled` saying whether there was a cancellation: a goroutine has ended, and `Run` has stopped
      waiting for them, only after it, if there is any goroutine at all; and every source that waits or is in
      its loop can tick, and then collects, and the shipper's goroutine can tick. */
  ghost predicate EndsOnly(c: Config, a: Agent, cancelled: bool) {
    && (forall i | 0 <= i < |a.srcs| && (a.srcs[i].Stopped? || a.srcs[i].Done?) :: cancelled)
    && (a.ship.ShipDone? ==> cancelled)
    && ((|a.srcs| > 0 || c.push) && !a.main.Waits? ==> cancelled)
    && (forall i: nat | i < |a.srcs| && (a.srcs[i].Waiting? || a.srcs[i].Selecting?) ::
          Can(c, a, Tick(i)) && Do(c, a, Tick(i)) == a.(srcs := a.srcs[i := Collecting]))
    && (a.ship.ShipWaiting? ==> Can(c, a, ShipTick))
  }

  /** That holds in every state the agent reaches, and `cancelled` is exactly that a cancellation is among its
      steps. */
  lemma {:induction false} EndsOnlyCancelled(c: Config, es: seq<Event>, sources: nat, ts: seq<Step>)
    requires Legal(c, es) && Play(c, es).phase.Running? && Play(c, es).w.WIdle? && Play(c, es).s.SOut?
    requires Doable(c, Start(c, Play(c, es), sources), ts)
    ensures var a := End(c, Start(c, Play(c, es), sources), ts);
      |a.srcs| == sources && (a.cancelled <==> Cancel in ts) && EndsOnly(c, a, Cancel in ts)
  {
    var a0 := Start(c, Play(c, es), sources);
    var run := Refines(c, es, sources, ts);
    EndsKept(c, a0, ts);
    CancelKept(c, a0, ts);
    JoinedAll(c, End(c, a0, ts));
  }

  lemma JoinedAll(c: Config, a: Agent)
    requires AgentInv(c, a) && EndsOk(a)
    ensures EndsOnly(c, a, a.cancelled)
  {
    if !a.main.Waits? && |a.srcs| > 0 {
      assert a.srcs[0].Done?;
    }
  }

  /** Every run up to the point where `Run` has joined its goroutines contains the cancellation. */
  ghost predicate Blocks(c: Config, a: Agent) {
    forall ts | Doable(c, a, ts) :: !End(c, a, ts).main.Waits? ==> Cancel in ts
  }

  /** That `Run` blocks until it is cancelled holds if and only if it has a goroutine to wait for: with no source
      and no shipper it goes straight on to the close. */
  lemma {:induction false} BlocksIff(c: Config, es: seq<Event>, sources: nat)
    requires Legal(c, es) && Play(c, es).phase.Running? && Play(c, es).w.WIdle? && Play(c, es).s.SOut?
    ensures Blocks(c, Start(c, Play(c, es), sources)) <==> sources > 0 || c.push
  {
    var a := Start(c, Play(c, es), sources);
    if sources > 0 || c.push {
      forall ts | Doable(c, a, ts) ensures !End(c, a, ts).main.Waits? ==> Cancel in ts {
        EndsOnlyCancelled(c, es, sources, ts);
      }
    } else {
      NothingToJoin(c, a);
    }
  }

  lemma NothingToJoin(c: Config, a: Agent)
    requires a.main.Waits? && a.srcs == [] && a.ship.NoShipper? && a.q.phase.Running? && a.q.w.WIdle? && a.q.s.SOut?
    ensures !Blocks(c, a)
  {
    var ts := [WaitReturns];
    assert ts[..0] == [];
    assert Doable(c, a, ts[..0]) && End(c, a, ts[..0]) == a && Can(c, a, WaitReturns);
    assert Doable(c, a, ts) && !End(c, a, ts).main.Waits?;
  }

  /** A tick of the shipper's loop calls `Shipper.Run`, and so does the main goroutine for the final drain. */
  ghost predicate Ships(c: Config, a: Agent) {
    && (Can(c, a, ShipTick) ==>
          Enabled(c, a.q, RunCall)
          && Do(c, a, ShipTick) == a.(ship := InRun, q := a.q.(s := SList)))
    && (Can(c, a, StartDrain) && c.push ==>
          Enabled(c, a.q, RunCall)
          && Do(c, a, StartDrain) == a.(main := InDrain, q := a.q.(s := SList, phase := Draining)))
  }

  lemma ShipsNow(c: Config, a: Agent)
    requires AgentInv(c, a)
    ensures Ships(c, a)
  {
    if Can(c, a, ShipTick) {
      NeverBlocked(c, a, ShipTick);
    }
    if Can(c, a, StartDrain) {
      NeverBlocked(c, a, StartDrain);
    }
  }

  lemma {:induction false} TickShips(c: Config, es: seq<Event>, sources: nat, ts: seq<Step>)
    requires Legal(c, es) && Play(c, es).phase.Running? && Play(c, es).w.WIdle? && Play(c, es).s.SOut?
    requires Doable(c, Start(c, Play(c, es), sources), ts)
    ensures Ships(c, End(c, Start(c, Play(c, es), sources), ts))
  {
    var run := Refines(c, es, sources, ts);
    ShipsNow(c, End(c, Start(c, Play(c, es), sources), ts));
  }

  /** At most one source is inside the spool at any time. */
  lemma {:induction false} MutualExclusion(c: Config, es: seq<Event>, sources: nat, ts: seq<Step>, i: nat, j: nat)
    requires Legal(c, es) && Play(c, es).phase.Running? && Play(c, es).w.WIdle? && Play(c, es).s.SOut?
    requires Doable(c, Start(c, Play(c, es), sources), ts)
    requires var a := End(c, Start(c, Play(c, es), sources), ts);
      i < |a.srcs| && j < |a.srcs| && HasMutex(a.srcs[i]) && HasMutex(a.srcs[j])
    ensures i == j
  {
    var run := Refines(c, es, sources, ts);
  }

  // ---- The order of shutdown ----

  /** The steps of source goroutine `i`. */
  predicate Of(t: Step, i: nat) {
    match t
    case Tick(k) => k == i
    case Collect(k, _) => k == i
    case TickDone(k) => k == i
    case Lock(k) => k == i
    case CallWrite(k, _) => k == i
    case WriteStep(k, _) => k == i
    case Unlock(k) => k == i
    case StopSource(k) => k == i
    case CloseSource(k) => k == i
    case _ => false
  }

  lemma {:induction false} StaysDone(c: Config, a: Agent, ts: seq<Step>, j: nat, i: nat)
    requires Doable(c, a, ts) && j <= |ts| && Doable(c, a, ts[..j])
    requires i < |End(c, a, ts[..j]).srcs| && End(c, a, ts[..j]).srcs[i].Done?
    ensures i < |End(c, a, ts).srcs| && End(c, a, ts).srcs[i].Done?
    decreases |ts|
  {
    if j == |ts| {
      assert ts[..j] == ts;
    } else {
      var n := |ts| - 1;
      assert ts[..n][..j] == ts[..j];
      StaysDone(c, a, ts[..n], j, i);
      DoneStep(c, End(c, a, ts[..n]), ts[n], i);
    }
  }

  lemma DoneStep(c: Config, a: Agent, t: Step, i: nat)
    requires Can(c, a, t) && i < |a.srcs| && a.srcs[i].Done?
    ensures i < |Do(c, a, t).srcs| && Do(c, a, t).srcs[i].Done?
  {
  }

  lemma {:induction false} PrefixDoable(c: Config, a: Agent, ts: seq<Step>, j: nat)
    requires Doable(c, a, ts) && j <= |ts|
    ensures Doable(c, a, ts[..j])
    ensures j < |ts| ==> Can(c, End(c, a, ts[..j]), ts[j])
    decreases |ts|
  {
    var n := |ts| - 1;
    if j == |ts| {
      assert ts[..j] == ts;
    } else if j < n {
      PrefixDoable(c, a, ts[..n], j);
      assert ts[..n][..j] == ts[..j];
    }
  }

  /** A source's close is its last step: it never collects or writes afterwards. */
  lemma {:induction false} CloseIsLast(c: Config, a: Agent, ts: seq<Step>, j: nat, k: nat, i: nat)
    requires Doable(c, a, ts) && j < k < |ts| && ts[j] == CloseSource(i)
    ensures !Of(ts[k], i)
  {
    PrefixDoable(c, a, ts, k);
    DoneAfterClose(c, a, ts, j, i);
    assert ts[..k][..j + 1] == ts[..j + 1];
    StaysDone(c, a, ts[..k], j + 1, i);
    DoneStops(c, End(c, a, ts[..k]), ts[k], i);
  }

  lemma DoneAfterClose(c: Config, a: Agent, ts: seq<Step>, j: nat, i: nat)
    requires Doable(c, a, ts) && j < |ts| && ts[j] == CloseSource(i)
    ensures Doable(c, a, ts[..j + 1])
    ensures i < |End(c, a, ts[..j + 1]).srcs| && End(c, a, ts[..j + 1]).srcs[i].Done?
  {
    PrefixDoable(c, a, ts, j);
    PrefixDoable(c, a, ts, j + 1);
    assert ts[..j + 1][..j] == ts[..j];
  }

  lemma DoneStops(c: Config, a: Agent, t: Step, i: nat)
    requires Can(c, a, t) && i < |a.srcs| && a.srcs[i].Done?
    ensures !Of(t, i)
  {
  }

  lemma OnlyCloseEnds(c: Config, a: Agent, t: Step, i: nat)
    requires Can(c, a, t) && t != CloseSource(i)
    requires i < |Do(c, a, t).srcs| && Do(c, a, t).srcs[i].Done?
    ensures i < |a.srcs| && a.srcs[i].Done?
  {
  }

  lemma {:induction false} DoneWasClosed(c: Config, a: Agent, ts: seq<Step>, i: nat) returns (j: nat)
    requires Doable(c, a, ts) && i < |a.srcs| && !a.srcs[i].Done?
    requires i < |End(c, a, ts).srcs| && End(c, a, ts).srcs[i].Done?
    ensures j < |ts| && ts[j] == CloseSource(i)
    decreases |ts|
  {
    var n := |ts| - 1;
    if ts[n] == CloseSource(i) {
      j := n;
    } else {
      OnlyCloseEnds(c, End(c, a, ts[..n]), ts[n], i);
      j := DoneWasClosed(c, a, ts[..n], i);
    }
  }

  /** Every source has been closed before the spool is closed, and before the final drain starts. */
  lemma {:induction false} ClosesComeFirst(c: Config, es: seq<Event>, sources: nat, ts: seq<Step>, k: nat, i: nat)
    requires Legal(c, es) && Play(c, es).phase.Running? && Play(c, es).w.WIdle? && Play(c, es).s.SOut?
    requires Doable(c, Start(c, Play(c, es), sources), ts) && k < |ts| && i < sources
    requires ts[k].CallClose? || ts[k].StartDrain?
    ensures exists j :: 0 <= j < k && ts[j] == CloseSource(i)
  {
    var a := Start(c, Play(c, es), sources);
    PrefixDoable(c, a, ts, k);
    var run := Refines(c, es, sources, ts[..k]);
    var j := DoneWasClosed(c, a, ts[..k], i);
    assert ts[j] == CloseSource(i);
  }

  /** After a clean exit no envelope is left in the active file: each is in a published segment that is on
      disk, answered, or evicted on record; and if the final drain completed, none of those is on disk. */
  lemma {:induction false} EnvelopesAtExit(c: Config, es: seq<Event>, j: nat)
    requires Legal(c, es) && Play(c, es).phase.Exited?
    requires j < |Play(c, es).h.appended| && Play(c, es).h.appended[j].Envelope?
    ensures var s := Play(c, es);
      exists i, q :: PublishedIn(s, j, i, q) && Accounted(s, i)
                     && (s.phase.exit.Drained? ==> s.h.published[i] !in s.disk.segs)
  {
    var s := Play(c, es);
    Conservation(c, es, j);
    ExitLeavesWarnings(c, es);
    assert forall q :: !StillActive(s, j, q);
    var i, q :| PublishedIn(s, j, i, q) && Accounted(s, i);
    assert s.phase.exit.Drained? ==> s.h.published[i] !in s.disk.segs;
  }

  lemma ExitLeavesWarnings(c: Config, es: seq<Event>)
    requires Legal(c, es) && Play(c, es).phase.Exited?
    ensures AllWarnings(Play(c, es).disk.active) && InFlight(Play(c, es).w) == []
    ensures Play(c, es).phase.exit.Drained? ==> Play(c, es).disk.segs == []
  {
    Reachable(c, es);
  }

  ghost predicate AllAccounted(s: Sys) {
    forall j | 0 <= j < |s.h.appended| && s.h.appended[j].Envelope? ::
      exists i, q :: PublishedIn(s, j, i, q) && Accounted(s, i)
                     && (s.phase == Exited(Drained) ==> s.h.published[i] !in s.disk.segs)
  }

  lemma AllAccountedAtExit(c: Config, es: seq<Event>)
    requires Legal(c, es) && Play(c, es).phase.Exited?
    ensures AllAccounted(Play(c, es))
  {
    var s := Play(c, es);
    forall j | 0 <= j < |s.h.appended| && s.h.appended[j].Envelope?
      ensures exists i, q :: PublishedIn(s, j, i, q) && Accounted(s, i)
                             && (s.phase == Exited(Drained) ==> s.h.published[i] !in s.disk.segs)
    {
      EnvelopesAtExit(c, es, j);
    }
  }

  // ---- What each source delivers ----

  /** The envelopes of source `i` among those written, in order. */
  function By(ws: seq<Written>, i: nat): seq<Line> {
    if ws == [] then []
    else
      var w := ws[|ws| - 1];
      By(ws[..|ws| - 1], i) + (if w.src == i then [w.line] else [])
  }

  /** What the step adds to the envelopes that source `i` has collected. */
  function Batch(t: Step, i: nat): seq<Line> {
    if t.Collect? && t.i == i then t.envs else []
  }

  /** All batches of source `i`, in order. */
  function Collected(ts: seq<Step>, i: nat): seq<Line> {
    if ts == [] then [] else Collected(ts[..|ts| - 1], i) + Batch(ts[|ts| - 1], i)
  }

  /** What a source has collected and not yet passed on. */
  function Unwritten(s: Source): seq<Line> {
    match s
    case Writing(envs) => envs
    case Holding(envs) => envs
    case InWrite(envs) => if envs == [] then [] else envs[1..]
    case _ => []
  }

  lemma BySnoc(ws: seq<Written>, w: Written, i: nat)
    ensures By(ws + [w], i) == By(ws, i) + (if w.src == i then [w.line] else [])
  {
    assert (ws + [w])[..|ws|] == ws;
  }

  lemma DeliversStep(c: Config, a: Agent, t: Step, i: nat)
    requires Can(c, a, t) && i < |a.srcs|
    ensures i < |Do(c, a, t).srcs|
    ensures By(Do(c, a, t).written, i) + Unwritten(Do(c, a, t).srcs[i])
            == By(a.written, i) + (Unwritten(a.srcs[i]) + Batch(t, i))
  {
    if t.CallWrite? {
      WriteDelivers(c, a, t, i);
    } else if t.Collect? {
      HoldsBatch(c, a, t, i);
    } else {
      Keeps(c, a, t, i);
    }
    assert !t.Collect? ==> Unwritten(a.srcs[i]) + Batch(t, i) == Unwritten(a.srcs[i]);
  }

  lemma WriteDelivers(c: Config, a: Agent, t: Step, i: nat)
    requires Can(c, a, t) && i < |a.srcs| && t.CallWrite?
    ensures |Do(c, a, t).srcs| == |a.srcs|
    ensures By(Do(c, a, t).written, i) + Unwritten(Do(c, a, t).srcs[i]) == By(a.written, i) + Unwritten(a.srcs[i])
  {
    CallWritePasses(c, a, t);
    PassesOn(a, Do(c, a, t), t.i, i);
  }

  lemma PassesOn(a: Agent, b: Agent, k: nat, i: nat)
    requires k < |a.srcs| && i < |a.srcs| && a.srcs[k].Holding? && a.srcs[k].envs != []
    requires var envs := a.srcs[k].envs;
      b == a || (b.written == a.written + [Written(k, envs[0])] && b.srcs == a.srcs[k := InWrite(envs)])
    ensures |b.srcs| == |a.srcs|
    ensures By(b.written, i) + Unwritten(b.srcs[i]) == By(a.written, i) + Unwritten(a.srcs[i])
  {
    var envs := a.srcs[k].envs;
    Passed(a.written, k, envs, i);
    if k != i {
      assert By(a.written + [Written(k, envs[0])], i) + [] == By(a.written + [Written(k, envs[0])], i);
      assert By(a.written, i) + [] == By(a.written, i);
    }
  }

  lemma CallWritePasses(c: Config, a: Agent, t: Step)
    requires Can(c, a, t) && t.CallWrite?
    ensures var envs := a.srcs[t.i].envs;
      || Do(c, a, t) == a
      || (Do(c, a, t).written == a.written + [Written(t.i, envs[0])] && Do(c, a, t).srcs == a.srcs[t.i := InWrite(envs)])
  {
  }

  lemma Passed(ws: seq<Written>, k: nat, envs: seq<Line>, i: nat)
    requires envs != []
    ensures By(ws + [Written(k, envs[0])], i) + (if k == i then envs[1..] else []) == By(ws, i) + (if k == i then envs else [])
  {
    BySnoc(ws, Written(k, envs[0]), i);
    assert envs == [envs[0]] + envs[1..];
    assert By(ws, i) + ([envs[0]] + envs[1..]) == (By(ws, i) + [envs[0]]) + envs[1..];
  }

  lemma HoldsBatch(c: Config, a: Agent, t: Step, i: nat)
    requires Can(c, a, t) && i < |a.srcs| && t.Collect?
    ensures |Do(c, a, t).srcs| == |a.srcs| && Do(c, a, t).written == a.written
    ensures Unwritten(Do(c, a, t).srcs[i]) == Unwritten(a.srcs[i]) + Batch(t, i)
  {
  }

  lemma Keeps(c: Config, a: Agent, t: Step, i: nat)
    requires Can(c, a, t) && i < |a.srcs| && !t.CallWrite? && !t.Collect?
    ensures |Do(c, a, t).srcs| == |a.srcs| && Do(c, a, t).written == a.written
    ensures Unwritten(Do(c, a, t).srcs[i]) == Unwritten(a.srcs[i])
  {
  }

  /** Everything a source collects it passes on exactly once and in order; until then it holds it. */
  lemma {:induction false} Delivers(c: Config, a: Agent, ts: seq<Step>, i: nat)
    requires Doable(c, a, ts) && i < |a.srcs| && a.written == [] && Unwritten(a.srcs[i]) == []
    ensures i < |End(c, a, ts).srcs|
    ensures By(End(c, a, ts).written, i) + Unwritten(End(c, a, ts).srcs[i]) == Collected(ts, i)
    decreases |ts|
  {
    if ts != [] {
      var n := |ts| - 1;
      Delivers(c, a, ts[..n], i);
      var b := End(c, a, ts[..n]);
      DeliversStep(c, b, ts[n], i);
      Associate(By(b.written, i), Unwritten(b.srcs[i]), Batch(ts[n], i));
    }
  }

  lemma Associate(a: seq<Line>, b: seq<Line>, d: seq<Line>)
    ensures a + (b + d) == (a + b) + d
  {
  }

  /** End to end: when the agent returns, each source has passed on every envelope it collected, once and in
      order; the log has gained exactly these, in the order the sources took the mutex; and each is accounted
      for. */
  lemma {:induction false} EndToEnd(c: Config, es: seq<Event>, sources: nat, ts: seq<Step>) returns (run: seq<Event>)
    requires Legal(c, es) && Play(c, es).phase.Running? && Play(c, es).w.WIdle? && Play(c, es).s.SOut?
    requires Doable(c, Start(c, Play(c, es), sources), ts)
    requires End(c, Start(c, Play(c, es), sources), ts).main.Returned?
    ensures var a := End(c, Start(c, Play(c, es), sources), ts);
      && es <= run && Legal(c, run) && a.q == Play(c, run) && a.q.phase.Exited?
      && Envelopes(a.q.h.appended) == Envelopes(Play(c, es).h.appended) + Lines(a.written)
      && (forall k | 0 <= k < |a.written| :: a.written[k].src < sources)
      && (forall i | 0 <= i < sources :: By(a.written, i) == Collected(ts, i))
      && AllWarnings(a.q.disk.active)
      && AllAccounted(a.q)
  {
    var a0 := Start(c, Play(c, es), sources);
    run := Refines(c, es, sources, ts);
    AtReturn(c, es, sources, End(c, a0, ts), run);
    forall i: nat | i < sources ensures By(End(c, a0, ts).written, i) == Collected(ts, i) {
      Delivers(c, a0, ts, i);
    }
  }

  lemma AtReturn(c: Config, es: seq<Event>, sources: nat, a: Agent, run: seq<Event>)
    requires Matches(c, es, sources, a, run) && Play(c, es).w.WIdle? && a.main.Returned?
    ensures a.q.phase.Exited? && AllWarnings(a.q.disk.active) && AllAccounted(a.q)
    ensures Envelopes(a.q.h.appended) == Envelopes(Play(c, es).h.appended) + Lines(a.written)
  {
    ExitLeavesWarnings(c, run);
    AllAccountedAtExit(c, run);
    TakenAtRest(Play(c, es));
    TakenAtRest(a.q);
  }

  lemma TakenAtRest(s: Sys)
    requires InFlight(s.w) == []
    ensures Taken(s) == Envelopes(s.h.appended)
  {
  }

  // ---- The end of Run ----

  /** What the main goroutine does once every other has returned: close the spool, then one final drain. The
      result says how it went; an incomplete drain still leaves everything on disk, in whole segments. */
  method Finish(spool: Spooling.Spool, shipper: Shipping.Shipper?) returns (exit: Exit)
    requires spool.Valid() && spool.dir.sys.w.WIdle? && spool.dir.sys.phase.Joined?
    requires shipper == null <==> !spool.dir.c.push
    requires shipper != null ==> shipper.Valid() && shipper.dir == spool.dir
    modifies spool, spool.dir, if shipper == null then {} else {shipper}
    ensures spool.dir.Valid() && old(spool.dir.trace) <= spool.dir.trace
    ensures spool.dir.sys.phase == Exited(exit) && (exit.Bundled? <==> shipper == null)
    ensures AllWarnings(spool.dir.disk.active)
    ensures exit.Drained? ==> spool.dir.disk.segs == []
    ensures forall i | 0 <= i < |spool.dir.disk.segs| :: spool.dir.disk.segs[i].file.whole
  {
    spool.Close();
    if shipper == null {
      spool.dir.Commit(LeaveBundle);
      exit := Bundled;
    } else {
      spool.dir.Joined();
      var drained := shipper.Run();
      exit := if drained then Drained else Incomplete;
    }
    spool.dir.Exit();
  }
}
