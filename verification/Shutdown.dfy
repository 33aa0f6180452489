/** Why a cancelled agent can always come to its end: each call of the spool and of the shipper that has not
    returned gets closer to returning with every step of its own, and each goroutine gets closer to its end. */
module Shutdown {
  import opened Storage
  import opened Protocol
  import opened Invariant
  import opened Preservation
  import opened Theorems
  import opened Options
  import opened Agents

  // ---- Inside the spool ----

  /** How much of a call of `Write` or `Close` is still to come: a rotation before the append, its cap, the
      append, a last rotation, its cap. */
  function Stage(w: Writer): nat {
    match w
    case WRead(k) => if k.Append? then 5 else 2
    case WCreate(_, k) => if k.Append? then 5 else 2
    case WEncode(_, _, k) => if k.Append? then 5 else 2
    case WRename(_, k) => if k.Append? then 5 else 2
    case WTruncate(k) => if k.Append? then 5 else 2
    case WList(k) => if k.Append? then 4 else 1
    case WStat(_, _, _, k) => if k.Append? then 4 else 1
    case WEvict(_, k) => if k.Append? then 4 else 1
    case WWarn(_, k) => if k.Append? then 4 else 1
    case WWrite(_) => 3
    case _ => 0
  }

  /** While the cap is enforced: the segments left. */
  function Left(q: Sys): nat {
    if (q.w.WList? || q.w.WStat? || q.w.WEvict? || q.w.WWarn?) && |q.h.removed| <= |q.h.published|
    then |q.h.published| - |q.h.removed|
    else 0
  }

  /** Within a round of it: a listing that has gone stale leads to a new one, which leads to an eviction. */
  function Freshness(q: Sys): nat {
    match q.w
    case WWarn(_, _) => 3
    case WStat(listed, _, _, _) => if |q.h.published| - |listed| < |q.h.removed| then 3 else 1
    case WEvict(oldest, _) => if Has(q.disk.segs, oldest) then 1 else 3
    case WList(_) => 2
    case _ => 0
  }

  function Position(w: Writer): nat {
    match w
    case WRead(_) => 4
    case WCreate(_, _) => 3
    case WEncode(_, _, _) => 2
    case WRename(_, _) => 1
    case WStat(listed, i, _, _) => if i <= |listed| then |listed| - i + 1 else 0
    case _ => 0
  }

  ghost predicate Closer(q: Sys, t: Sys) {
    || Stage(t.w) < Stage(q.w)
    || (Stage(t.w) == Stage(q.w) && Left(t) < Left(q))
    || (Stage(t.w) == Stage(q.w) && Left(t) == Left(q) && Freshness(t) < Freshness(q))
    || (Stage(t.w) == Stage(q.w) && Left(t) == Left(q) && Freshness(t) == Freshness(q) && Position(t.w) < Position(q.w))
  }

  lemma OutsideCapCloser(c: Config, q: Sys, e: Event)
    requires Enabled(c, q, e) && Inner(e)
    requires e.AppendLine? || e.ReadActive? || e.CreateTmp? || e.EncodeTmp? || e.RenameTmp? || e.TruncateActive?
    ensures Closer(q, Next(c, q, e))
  {
  }

  lemma ListCloser(c: Config, q: Sys)
    requires Enabled(c, q, ListSegments) && Fifo(q.disk.segs, q.h.published, q.h.removed)
    ensures Closer(q, Next(c, q, ListSegments))
  {
  }

  lemma StatCloser(c: Config, q: Sys)
    requires Enabled(c, q, StatSegment)
    ensures Closer(q, Next(c, q, StatSegment))
  {
  }

  lemma CheckCloser(c: Config, q: Sys)
    requires Enabled(c, q, CheckTotal) && CapOk(c.maxBytes, q.w, q.h.published, |q.h.removed|)
    requires Catalog(q.h.published, q.h.dups, q.h.minted) && Fifo(q.disk.segs, q.h.published, q.h.removed)
    ensures Closer(q, Next(c, q, CheckTotal))
  {
    if q.w.total > c.maxBytes {
      var a := |q.h.published| - |q.w.listed|;
      assert q.w.listed[0] == q.h.published[a].ulid;
      PresentIff(q.disk.segs, q.h.published, q.h.dups, q.h.minted, q.h.removed, a);
    }
  }

  lemma RemoveCloser(c: Config, q: Sys)
    requires Enabled(c, q, RemoveOldest) && CapOk(c.maxBytes, q.w, q.h.published, |q.h.removed|)
    requires Catalog(q.h.published, q.h.dups, q.h.minted) && Fifo(q.disk.segs, q.h.published, q.h.removed)
    ensures Closer(q, Next(c, q, RemoveOldest))
  {
    if Has(q.disk.segs, q.w.oldest) {
      assert q.disk.segs != [] && |q.h.removed| < |q.h.published|;
    }
  }

  lemma WarnCloser(c: Config, q: Sys, body: string)
    requires Enabled(c, q, AppendWarning(body))
    ensures Closer(q, Next(c, q, AppendWarning(body)))
  {
  }

  lemma CapFacts(c: Config, run: seq<Event>)
    requires Legal(c, run)
    ensures var q := Play(c, run);
      && CapOk(c.maxBytes, q.w, q.h.published, |q.h.removed|)
      && Catalog(q.h.published, q.h.dups, q.h.minted) && Fifo(q.disk.segs, q.h.published, q.h.removed)
  {
    Reachable(c, run);
  }

  /** Undisturbed, every step inside a call of the spool brings it closer to its return. */
  lemma {:induction false} SpoolCloser(c: Config, run: seq<Event>, e: Event)
    requires Legal(c, run) && Enabled(c, Play(c, run), e) && Inner(e)
    ensures Closer(Play(c, run), Next(c, Play(c, run), e))
  {
    var q := Play(c, run);
    CapFacts(c, run);
    match e
    case ListSegments => ListCloser(c, q);
    case StatSegment => StatCloser(c, q);
    case CheckTotal => CheckCloser(c, q);
    case RemoveOldest => RemoveCloser(c, q);
    case AppendWarning(body) => WarnCloser(c, q, body);
    case _ => OutsideCapCloser(c, q, e);
  }

  /** A call of the spool that has not returned has a next step. */
  lemma SpoolProceeds(c: Config, run: seq<Event>) returns (e: Event)
    requires Legal(c, run) && Up(Play(c, run).w) && !Play(c, run).w.WIdle? && !Play(c, run).w.WClosed?
    ensures Inner(e) && Enabled(c, Play(c, run), e)
  {
    var s := Play(c, run);
    if s.w.WWrite? {
      e := AppendLine;
    } else {
      RotationProceeds(c, run);
      e := NextCall(s);
    }
  }

  // ---- Inside the shipper ----

  /** How far a call of `Run` is from its end once every further reply is a failure: what is left of an old
      listing, a new one, its first segment, the failure, the sleep cut short. */
  function ToGo(q: Sys): nat {
    match q.s
    case SRemove(_, _, todo) => 6 + |todo|
    case SRead(u, todo) => if Has(q.disk.segs, u) then 3 else 5 + |todo|
    case SList => 4
    case SPost(_, _, _) => 2
    case SSleep(_, _) => 1
    case SOut => 0
  }

  lemma ShipperCloser(c: Config, q: Sys) returns (e: Event)
    requires !q.s.SOut?
    ensures ShipperEvent(e) && !e.RunCall? && Enabled(c, q, e) && ToGo(Next(c, q, e)) < ToGo(q)
  {
    match q.s
    case SList =>
      e := ListForShip;
      if q.disk.segs != [] {
        assert q.disk.segs[0].ulid == Names(q.disk.segs)[0];
      }
    case SRead(_, _) => e := ReadSegment;
    case SPost(_, _, _) => e := Respond(Retryable);
    case SRemove(_, _, _) => e := RemoveShipped;
    case SSleep(_, _) => e := Cancelled;
  }

  // ---- The agent ----

  function MainRank(m: Main): nat {
    match m
    case Waits => 4
    case Joins => 3
    case InClose => 2
    case InDrain => 1
    case Returned => 0
  }

  function LoopRank(s: ShipLoop): nat {
    match s
    case InRun => 2
    case ShipWaiting => 1
    case _ => 0
  }

  function SourceRank(s: Source): nat {
    match s
    case Done => 0
    case Stopped => 1
    case Waiting => 2
    case Selecting => 2
    case Collecting => 6
    case Writing(envs) => 5 + 3 * |envs|
    case Holding(envs) => 4 + 3 * |envs|
    case InWrite(envs) => 3 + 3 * |envs|
  }

  function SourcesRank(srcs: seq<Source>): nat {
    if srcs == [] then 0 else SourcesRank(srcs[..|srcs| - 1]) + SourceRank(srcs[|srcs| - 1])
  }

  lemma {:induction false} RankUpdate(srcs: seq<Source>, i: nat, s: Source)
    requires i < |srcs| && SourceRank(s) < SourceRank(srcs[i])
    ensures SourcesRank(srcs[i := s]) < SourcesRank(srcs)
  {
    var n := |srcs| - 1;
    if i < n {
      RankUpdate(srcs[..n], i, s);
      assert srcs[i := s][..n] == srcs[..n][i := s];
    } else {
      assert srcs[i := s][..n] == srcs[..n];
    }
  }

  /** The rank of the goroutines, then that of the calls they are in. */
  ghost predicate Nearer(a: Agent, b: Agent) {
    || MainRank(b.main) < MainRank(a.main)
    || (b.main == a.main && LoopRank(b.ship) < LoopRank(a.ship))
    || (b.main == a.main && b.ship == a.ship && SourcesRank(b.srcs) < SourcesRank(a.srcs))
    || (b.main == a.main && b.ship == a.ship && b.srcs == a.srcs && Closer(a.q, b.q))
    || (b.main == a.main && b.ship == a.ship && b.srcs == a.srcs && b.q.w == a.q.w && Left(b.q) == Left(a.q)
        && Freshness(b.q) == Freshness(a.q) && ToGo(b.q) < ToGo(a.q))
  }

  ghost predicate Winds(t: Step) {
    !t.Cancel? && !t.Tick? && !t.ShipTick?
  }

  lemma SourceNearer(c: Config, a: Agent, t: Step, i: nat, s: Source)
    requires Can(c, a, t) && Possible(c, a, t) && i < |a.srcs| && SourceRank(s) < SourceRank(a.srcs[i])
    requires Move(c, a, t).srcs == a.srcs[i := s] && Move(c, a, t).main == a.main && Move(c, a, t).ship == a.ship
    ensures Nearer(a, Do(c, a, t))
  {
    RankUpdate(a.srcs, i, s);
  }

  lemma SpoolNearer(c: Config, run: seq<Event>, a: Agent, t: Step)
    requires Legal(c, run) && a.q == Play(c, run) && Can(c, a, t) && (t.WriteStep? || t.CloseStep?)
    ensures Nearer(a, Do(c, a, t))
  {
    SpoolCloser(c, run, t.e);
  }

  lemma ShipperKeepsWriter(c: Config, q: Sys, e: Event)
    requires Enabled(c, q, e) && ShipperEvent(e) && (q.w.WIdle? || q.w.WClosed?)
    ensures var t := Next(c, q, e); t.w == q.w && Left(t) == Left(q) && Freshness(t) == Freshness(q)
  {
  }

  lemma ShipperNearer(c: Config, a: Agent, t: Step)
    requires Can(c, a, t) && (t.ShipStep? || t.DrainStep?) && (a.q.w.WIdle? || a.q.w.WClosed?)
    requires ToGo(Next(c, a.q, t.e)) < ToGo(a.q)
    ensures Nearer(a, Do(c, a, t))
  {
    ShipperKeepsWriter(c, a.q, t.e);
  }

  lemma PhaseFacts(c: Config, run: seq<Event>)
    requires Legal(c, run)
    ensures var s := Play(c, run); (s.phase.Running? ==> !s.w.WClosed?) && (s.phase.Draining? ==> !s.s.SOut? && s.w.WClosed?)
  {
    Reachable(c, run);
  }

  lemma SourceAdvances(c: Config, run: seq<Event>, a: Agent, i: nat) returns (t: Step)
    requires AgentInv(c, a) && Legal(c, run) && a.q == Play(c, run) && a.cancelled && a.main.Waits?
    requires i < |a.srcs| && !a.srcs[i].Done? && (a.lock.None? || a.lock.value == i)
    ensures Can(c, a, t) && Winds(t) && Nearer(a, Do(c, a, t))
  {
    var s := a.srcs[i];
    if s.InWrite? && !a.q.w.WIdle? {
      PhaseFacts(c, run);
      var e := SpoolProceeds(c, run);
      t := WriteStep(i, e);
      SpoolNearer(c, run, a, t);
    } else {
      var next: Source;
      match s {
        case Waiting => t, next := StopSource(i), Stopped;
        case Selecting => t, next := StopSource(i), Stopped;
        case Collecting => t, next := Collect(i, []), Writing([]);
        case Writing(envs) =>
          if envs == [] {
            t, next := TickDone(i), Selecting;
          } else {
            t, next := Lock(i), Holding(envs);
          }
        case Holding(envs) => t, next := CallWrite(i, false), InWrite(envs);
        case InWrite(envs) => t, next := Unlock(i), Writing(envs[1..]);
        case Stopped => t, next := CloseSource(i), Done;
      }
      NeverBlocked(c, a, t);
      SourceNearer(c, a, t, i, next);
    }
  }

  lemma MainAdvances(c: Config, run: seq<Event>, a: Agent) returns (t: Step)
    requires AgentInv(c, a) && Legal(c, run) && a.q == Play(c, run) && !a.main.Waits? && !a.main.Returned?
    ensures Can(c, a, t) && Winds(t) && Nearer(a, Do(c, a, t))
  {
    match a.main
    case Joins =>
      t := CallClose;
      NeverBlocked(c, a, t);
    case InClose =>
      if a.q.w.WClosed? {
        t := StartDrain;
        NeverBlocked(c, a, t);
      } else {
        var e := SpoolProceeds(c, run);
        t := CloseStep(e);
        SpoolNearer(c, run, a, t);
      }
    case InDrain =>
      if a.q.phase.Exited? {
        t := Step.Return;
      } else {
        PhaseFacts(c, run);
        var e := ShipperCloser(c, a.q);
        t := DrainStep(e);
        ShipperNearer(c, a, t);
      }
  }

  /** Whatever is going on, some goroutine can get nearer to the end. */
  lemma Advances(c: Config, run: seq<Event>, a: Agent) returns (t: Step)
    requires AgentInv(c, a) && Legal(c, run) && a.q == Play(c, run) && a.cancelled && !a.main.Returned?
    ensures Can(c, a, t) && Winds(t) && Nearer(a, Do(c, a, t))
  {
    if !a.main.Waits? {
      t := MainAdvances(c, run, a);
    } else if a.lock.Some? {
      assert HasMutex(a.srcs[a.lock.value]);
      t := SourceAdvances(c, run, a, a.lock.value);
    } else if i: nat :| i < |a.srcs| && !a.srcs[i].Done? {
      t := SourceAdvances(c, run, a, i);
    } else {
      t := LastAdvances(c, a);
    }
  }

  /** Once all sources are done, the shipper's goroutine and the main one. */
  lemma LastAdvances(c: Config, a: Agent) returns (t: Step)
    requires AgentInv(c, a) && a.cancelled && a.main.Waits? && a.lock.None?
    requires forall i: nat | i < |a.srcs| :: a.srcs[i].Done?
    ensures Can(c, a, t) && Winds(t) && Nearer(a, Do(c, a, t))
  {
    if a.ship.ShipWaiting? {
      t := ShipStop;
    } else if a.ship.InRun? {
      if a.q.s.SOut? {
        t := ShipReturn;
      } else {
        var e := ShipperCloser(c, a.q);
        t := ShipStep(e);
        ShipperNearer(c, a, t);
      }
    } else {
      t := WaitReturns;
      NeverBlocked(c, a, t);
    }
  }

  lemma Snoc(c: Config, a: Agent, ts: seq<Step>, t: Step)
    requires Doable(c, a, ts) && Can(c, End(c, a, ts), t)
    ensures Doable(c, a, ts + [t]) && End(c, a, ts + [t]) == Do(c, End(c, a, ts), t)
  {
    assert (ts + [t])[..|ts|] == ts;
  }

  /** The steps `ts` of an agent started on the spool that `es` has opened lead to `a`. */
  ghost predicate Leads(c: Config, es: seq<Event>, sources: nat, ts: seq<Step>, a: Agent) {
    && Legal(c, es) && Play(c, es).phase.Running? && Play(c, es).w.WIdle? && Play(c, es).s.SOut?
    && Doable(c, Start(c, Play(c, es), sources), ts)
    && a == End(c, Start(c, Play(c, es), sources), ts)
  }

  /** Once cancelled, the agent is never stuck before it returns, and it need not start anything new to go on. */
  lemma Proceeds(c: Config, es: seq<Event>, sources: nat, ts: seq<Step>, a: Agent) returns (t: Step)
    requires Leads(c, es, sources, ts, a) && a.cancelled && !a.main.Returned?
    ensures Can(c, a, t) && Winds(t)
  {
    var run := Refines(c, es, sources, ts);
    t := Advances(c, run, a);
  }

  lemma StepAhead(c: Config, es: seq<Event>, sources: nat, ts: seq<Step>, a: Agent) returns (t: Step, b: Agent)
    requires Leads(c, es, sources, ts, a) && a.cancelled && !a.main.Returned?
    ensures Leads(c, es, sources, ts + [t], b) && b.cancelled && Winds(t) && Nearer(a, b)
  {
    var run := Refines(c, es, sources, ts);
    t := Advances(c, run, a);
    Snoc(c, Start(c, Play(c, es), sources), ts, t);
    CancelStep(c, a, t);
    b := Do(c, a, t);
  }

  lemma Regroup(ts: seq<Step>, t: Step, rest: seq<Step>)
    ensures ts + ([t] + rest) == (ts + [t]) + rest
  {
  }

  /** From every state that the agent reaches and in which it is cancelled, steps that start nothing new lead to
      its return: a shutdown can always be completed. */
  lemma {:induction false} CanShutDown(c: Config, es: seq<Event>, sources: nat, ts: seq<Step>, a: Agent)
    returns (more: seq<Step>, b: Agent)
    requires Leads(c, es, sources, ts, a) && a.cancelled
    ensures Leads(c, es, sources, ts + more, b) && b.main.Returned?
    ensures forall t | t in more :: Winds(t)
    decreases MainRank(a.main), LoopRank(a.ship), SourcesRank(a.srcs),
              Stage(a.q.w), Left(a.q), Freshness(a.q), Position(a.q.w), ToGo(a.q)
  {
    if a.main.Returned? {
      more, b := [], a;
      assert ts + more == ts;
    } else {
      var t, next := StepAhead(c, es, sources, ts, a);
      var rest;
      rest, b := CanShutDown(c, es, sources, ts + [t], next);
      more := [t] + rest;
      Regroup(ts, t, rest);
    }
  }
}
