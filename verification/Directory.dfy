/** The shared directory as an object, and what one goroutine may assume while the other runs. */
module SpoolDirectory {
  import opened Storage
  import opened Protocol
  import opened Invariant
  import opened Preservation
  import opened Theorems

  /** The spool directory. `disk` is what system calls see; the ghost fields record the run of the protocol
      that produced it. `budget` bounds what the rest of the world still does before the shipper's context is
      cancelled; it is arbitrary. */
  class Directory {
    const c: Config
    var disk: Disk
    var minted: nat
    var clock: int
    var budget: nat
    ghost var sys: Sys
    ghost var trace: seq<Event>

    /** What is on disk was produced by a run of the protocol. */
    ghost predicate Valid()
      reads this
    {
      Legal(c, trace) && sys == Play(c, trace) && disk == sys.disk && minted == sys.h.minted
    }

    constructor (c: Config, clock: int, budget: nat)
      ensures Valid() && this.c == c && sys == INIT
    {
      this.c := c;
      this.clock := clock;
      this.budget := budget;
      disk := INIT.disk;
      minted := 0;
      sys := INIT;
      trace := [];
    }

    /** Records that the change just made to `disk` is the step `e` of the protocol. */
    ghost method Commit(e: Event)
      requires Legal(c, trace) && sys == Play(c, trace)
      requires Enabled(c, sys, e) && disk == Next(c, sys, e).disk && minted == Next(c, sys, e).h.minted
      modifies this`sys, this`trace
      ensures Valid() && sys == Next(c, old(sys), e) && trace == old(trace) + [e]
    {
      PlayStep(c, trace, e);
      sys := Next(c, sys, e);
      trace := trace + [e];
    }

    /** The clock never goes back. */
    method Now() returns (t: int)
      modifies this`clock
      ensures t == clock >= old(clock)
    {
      var reading: int := *;
      if reading > clock {
        clock := reading;
      }
      t := clock;
    }

    /** A ULID is larger than every earlier one. */
    method NewUlid() returns (u: nat)
      modifies this`minted
      ensures old(minted) <= u && minted == u + 1
    {
      var drawn: int := *;
      u := if drawn > minted then drawn else minted;
      minted := u + 1;
    }

    /** The shipper takes any number of steps. Callers may rely on nothing but the postcondition; the body is
        the case of no step. */
    method LetShipperRun()
      requires Valid()
      modifies this`disk, this`sys, this`trace
      ensures Valid() && old(trace) <= trace
      ensures forall i | |old(trace)| <= i < |trace| :: ShipperEvent(trace[i])
    {
    }

    /** The same for the writer, which can take only finitely many steps before the context is cancelled. */
    method LetWriterRun()
      requires Valid()
      modifies this`disk, this`sys, this`trace, this`budget, this`minted
      ensures Valid() && old(trace) <= trace
      ensures forall i | |old(trace)| <= i < |trace| :: WriterEvent(trace[i])
      ensures budget <= old(budget) && (budget == old(budget) ==> trace == old(trace))
    {
    }

    /** A point between two system calls of the writer. */
    method WriterYields()
      requires Valid() && !sys.w.WClosed?
      modifies this`disk, this`sys, this`trace
      ensures Valid() && old(trace) <= trace
      ensures ShipperOnly(c, old(sys), sys)
    {
      ghost var before := trace;
      LetShipperRun();
      ShipperFrame(c, before, trace);
    }

    /** A point between two system calls of the shipper. */
    method ShipperYields()
      requires Valid()
      modifies this`disk, this`sys, this`trace, this`budget, this`minted
      ensures Valid() && old(trace) <= trace
      ensures WriterOnly(old(sys), sys)
      ensures budget <= old(budget) && (budget == old(budget) ==> sys == old(sys))
    {
      ghost var before := trace;
      LetWriterRun();
      WriterFrame(c, before, trace);
    }

    /** A published segment is on disk exactly until it is removed. */
    lemma Present(n: nat)
      requires Valid() && n < |sys.h.published|
      ensures Has(disk.segs, sys.h.published[n].ulid) <==> |sys.h.removed| <= n
    {
      Queue();
      PresentIff(disk.segs, sys.h.published, sys.h.dups, sys.h.minted, sys.h.removed, n);
    }

    /** The segment the shipper is at is the published one at its cursor, and all before it are gone. */
    lemma AtCursor()
      requires Valid() && (sys.s.SRead? || sys.s.SPost? || sys.s.SRemove? || sys.s.SSleep?)
      ensures sys.h.cursor < |sys.h.published| && sys.h.published[sys.h.cursor].ulid == sys.s.u
      ensures sys.h.cursor <= |sys.h.removed|
    {
      Reachable(c, trace);
    }

    /** After the join no shipper is running. */
    lemma Joined()
      requires Valid() && sys.phase.Joined?
      ensures sys.s.SOut?
    {
      Reachable(c, trace);
    }

    /** What a clean exit leaves on disk. */
    lemma Exit()
      requires Valid() && sys.phase.Exited?
      ensures AllWarnings(disk.active)
      ensures sys.phase.exit.Drained? ==> disk.segs == []
      ensures forall i | 0 <= i < |disk.segs| :: disk.segs[i].file.whole
    {
      Reachable(c, trace);
    }

    /** A completed total within the cap bounds what is on disk. */
    lemma CheckBound()
      requires Valid() && Enabled(c, sys, CheckTotal)
      ensures sys.w.total <= c.maxBytes ==> SegBytes(disk.segs) <= c.maxBytes
    {
      Reachable(c, trace);
      if sys.w.total <= c.maxBytes {
        WithinCap(c, sys);
      }
    }

    lemma RemovalFacts()
      requires Valid()
      ensures Removals(c.maxBytes, sys.h.published, sys.h.removed, sys.h.answers)
    {
      Reachable(c, trace);
    }

    lemma ActiveSize()
      requires Valid() && Up(sys.w)
      ensures sys.asize == Size(disk.active)
    {
      ActiveSizeExact(c, trace);
    }

    /** What is on disk is the queue of published segments not removed yet, under distinct names. */
    lemma Queue()
      requires Valid()
      ensures Catalog(sys.h.published, sys.h.dups, sys.h.minted)
      ensures Fifo(disk.segs, sys.h.published, sys.h.removed)
    {
      Reachable(c, trace);
    }
  }

  /** No shipper is running: it has been joined, or there is none. */
  predicate Alone(c: Config, phase: Phase) {
    phase.Joined? || !c.push
  }

  /** All that the steps of the shipper change: segments are removed, and its own position and records move. */
  ghost predicate ShipperOnly(c: Config, s: Sys, t: Sys) {
    && t == s.(disk := s.disk.(segs := t.disk.segs), s := t.s,
               h := s.h.(removed := t.h.removed, answers := t.h.answers, cursor := t.h.cursor))
    && s.h.removed <= t.h.removed
    && (forall i | |s.h.removed| <= i < |t.h.removed| :: t.h.removed[i].Shipped?)
    && SegBytes(t.disk.segs) <= SegBytes(s.disk.segs)
    && (Alone(c, s.phase) ==> t == s)
  }

  /** All that the steps of the writer change. */
  ghost predicate WriterOnly(s: Sys, t: Sys) {
    && t == s.(disk := t.disk, asize := t.asize, w := t.w,
               h := s.h.(appended := t.h.appended, published := t.h.published, dups := t.h.dups,
                         removed := t.h.removed, redo := t.h.redo, minted := t.h.minted))
    && (Up(s.w) ==> Up(t.w))
    && s.h.published <= t.h.published && s.h.removed <= t.h.removed && s.h.appended <= t.h.appended
    && (forall i | |s.h.removed| <= i < |t.h.removed| :: t.h.removed[i].Evicted?)
    && (s.w.WClosed? ==> t == s)
  }

  lemma ShipperStepFrame(c: Config, s: Sys, e: Event)
    requires Enabled(c, s, e) && ShipperEvent(e) && !s.w.WClosed?
    requires Alone(c, s.phase) ==> s.s.SOut?
    requires !s.phase.Draining?
    ensures ShipperOnly(c, s, Next(c, s, e))
  {
    ShrinkOnly(c, s, e);
  }

  lemma {:induction false} ShipperFrame(c: Config, before: seq<Event>, after: seq<Event>)
    requires Legal(c, after) && before <= after
    requires forall i | |before| <= i < |after| :: ShipperEvent(after[i])
    requires Legal(c, before) && !Play(c, before).w.WClosed?
    ensures ShipperOnly(c, Play(c, before), Play(c, after))
    decreases |after|
  {
    if before == after {
    } else {
      var n := |after| - 1;
      assert before <= after[..n];
      ShipperFrame(c, before, after[..n]);
      ShipperOnlyStep(c, before, after[..n], after[n]);
    }
  }

  lemma NotClosed(c: Config, s: Sys, t: Sys)
    requires ShipperOnly(c, s, t)
    ensures t.w == s.w
  {
  }

  lemma ShipperOnlyTrans(c: Config, s: Sys, t: Sys, u: Sys)
    requires ShipperOnly(c, s, t) && ShipperOnly(c, t, u)
    ensures ShipperOnly(c, s, u)
  {
  }

  lemma ShipperOnlyStep(c: Config, before: seq<Event>, after: seq<Event>, e: Event)
    requires Legal(c, before) && Legal(c, after) && Enabled(c, Play(c, after), e) && ShipperEvent(e)
    requires ShipperOnly(c, Play(c, before), Play(c, after)) && !Play(c, before).w.WClosed?
    ensures ShipperOnly(c, Play(c, before), Next(c, Play(c, after), e))
  {
    NotClosed(c, Play(c, before), Play(c, after));
    InPhase(c, after);
    ShipperStepFrame(c, Play(c, after), e);
    ShipperOnlyTrans(c, Play(c, before), Play(c, after), Next(c, Play(c, after), e));
  }

  lemma InPhase(c: Config, es: seq<Event>)
    requires Legal(c, es) && !Play(c, es).w.WClosed?
    ensures var s := Play(c, es); (Alone(c, s.phase) ==> s.s.SOut?) && !s.phase.Draining?
  {
    if !c.push {
      NoShipper(c, es);
    }
    Reachable(c, es);
  }

  lemma WriterStepFrame(c: Config, s: Sys, e: Event)
    requires Enabled(c, s, e) && WriterEvent(e)
    ensures WriterOnly(s, Next(c, s, e))
  {
  }

  lemma {:induction false} WriterFrame(c: Config, before: seq<Event>, after: seq<Event>)
    requires Legal(c, after) && before <= after
    requires forall i | |before| <= i < |after| :: WriterEvent(after[i])
    requires Legal(c, before)
    ensures WriterOnly(Play(c, before), Play(c, after))
    decreases |after|
  {
    if before == after {
    } else {
      var n := |after| - 1;
      assert before <= after[..n];
      WriterFrame(c, before, after[..n]);
      WriterStepFrame(c, Play(c, after[..n]), after[n]);
    }
  }
}
