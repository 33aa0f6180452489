/** The shipper (`internal/ship/ship.go`) as an object. It reads, posts and deletes segment files while the
    writer may take steps between any two of its calls; everything it does is a run of the protocol. */
module Shipping {
  import opened Storage
  import opened Protocol
  import opened Invariant
  import opened Preservation
  import opened Theorems
  import opened SpoolDirectory
  import opened Options
  import Backoff

  const SECOND := 1_000_000_000
  const DEFAULT_MIN_BACKOFF := 1 * SECOND
  const DEFAULT_MAX_BACKOFF := 5 * 60 * SECOND

  /** What `ship` makes of a reply, an HTTP status or none if the request failed: success exactly for 200 to
      299, rejection exactly for 400 to 499, and anything else is retried. */
  function Classify(reply: Option<nat>): (r: Response)
    ensures r.Ok2xx? <==> reply.Some? && 200 <= reply.value < 300
    ensures r.Bad4xx? <==> reply.Some? && 400 <= reply.value < 500
  {
    match reply
    case None => Retryable
    case Some(status) =>
      if status / 100 == 2 then Ok2xx else if status / 100 == 4 then Bad4xx else Retryable
  }

  predicate Between(reply: Option<nat>, low: nat, high: nat) {
    reply.Some? && low <= reply.value < high
  }

  /** What is documented to be retried: network errors and 5xx. */
  predicate DocumentedRetry(reply: Option<nat>) {
    reply.None? || 500 <= reply.value < 600
  }

  /** The code retries what is documented, for every reply but a status that is neither 2xx, nor 4xx, nor 5xx;
      such a status, a 302 say, is retried too. */
  lemma RetryIff(reply: Option<nat>)
    ensures (Classify(reply).Retryable? <==> DocumentedRetry(reply))
            <==> reply.None? || Between(reply, 200, 300) || Between(reply, 400, 600)
    ensures DocumentedRetry(reply) ==> Classify(reply).Retryable?
    ensures Classify(Some(302)).Retryable? && !DocumentedRetry(Some(302))
  {
  }

  /** How one round of `shipWithRetry` ended. */
  datatype Round = Done | Stopped | Again

  class Shipper {
    const dir: Directory
    const minBackoff: int
    const maxBackoff: int
    var backoff: int
    /** Every attempt so far, over all segments and all calls of `Run`. */
    ghost var attempts: seq<Backoff.Attempt>
    /** Every sleep asked for, with the number of attempts before it. */
    ghost var sleeps: seq<(nat, int)>

    ghost predicate Valid()
      reads this, dir
    {
      dir.Valid() && SleepsOk() && backoff == Backoff.After(minBackoff, maxBackoff, attempts)
    }

    /** Every sleep was for the backoff that the attempts before it had led to. */
    ghost predicate SleepsOk()
      reads this
    {
      forall i | 0 <= i < |sleeps| ::
        sleeps[i].0 <= |attempts|
        && sleeps[i].1 == Backoff.After(minBackoff, maxBackoff, attempts[..sleeps[i].0])
    }

    constructor (dir: Directory, minBackoff: int, maxBackoff: int)
      requires dir.Valid()
      ensures Valid() && this.dir == dir && attempts == [] && sleeps == []
      ensures this.minBackoff == if minBackoff <= 0 then 1 * SECOND else minBackoff
      ensures this.maxBackoff == if maxBackoff <= 0 then 5 * 60 * SECOND else maxBackoff
    {
      this.dir := dir;
      this.minBackoff := if minBackoff <= 0 then DEFAULT_MIN_BACKOFF else minBackoff;
      this.maxBackoff := if maxBackoff <= 0 then DEFAULT_MAX_BACKOFF else maxBackoff;
      backoff := if minBackoff <= 0 then DEFAULT_MIN_BACKOFF else minBackoff;
      attempts, sleeps := [], [];
    }

    /** Drains the spool: ships every listed segment in order, then lists again, until a listing is empty
        (true) or the context is cancelled during a sleep (false). It terminates for any finite amount of
        writing and of failed attempts before the cancellation. */
    method Run() returns (drained: bool)
      requires Valid() && Enabled(dir.c, dir.sys, RunCall)
      modifies this, dir`disk, dir`sys, dir`trace, dir`budget, dir`minted
      ensures Valid() && dir.sys.s.SOut? && old(dir.trace) <= dir.trace
      ensures Recorded(old(attempts), old(sleeps), attempts, sleeps)
      ensures var draining := old(dir.sys.phase.Joined?);
        dir.sys.phase == if draining then Exited(if drained then Drained else Incomplete) else old(dir.sys.phase)
      ensures drained ==> dir.disk.segs == []
      ensures old(dir.sys.w.WClosed?) ==> dir.sys.w.WClosed? && dir.disk.active == old(dir.disk.active)
    {
      dir.Commit(RunCall);
      ghost var phase := dir.sys.phase;
      var more, ok := true, true;
      while more
        invariant Valid() && old(dir.trace) <= dir.trace && Recorded(old(attempts), old(sleeps), attempts, sleeps)
        invariant if more then dir.sys.s.SList? && dir.sys.phase == phase
                  else dir.sys.s.SOut?
                       && dir.sys.phase == if phase.Draining? then Exited(if ok then Drained else Incomplete) else phase
        invariant !more && ok ==> dir.disk.segs == []
        invariant old(dir.sys.w.WClosed?) ==> dir.sys.w.WClosed? && dir.disk.active == old(dir.disk.active)
        decreases more, dir.budget, |dir.sys.h.published| - |dir.sys.h.removed|
      {
        more, ok := ShipListing();
      }
      drained := ok;
    }

    /** One listing of `Run`: `more` if it was not empty and all of it was dealt with. */
    method ShipListing() returns (more: bool, ok: bool)
      requires Valid() && dir.sys.s.SList?
      modifies this, dir`disk, dir`sys, dir`trace, dir`budget, dir`minted
      ensures Valid() && old(dir.trace) <= dir.trace && Recorded(old(attempts), old(sleeps), attempts, sleeps)
      ensures if more then dir.sys.s.SList? && dir.sys.phase == old(dir.sys.phase)
              else dir.sys.s.SOut?
                   && dir.sys.phase == if old(dir.sys.phase.Draining?) then Exited(if ok then Drained else Incomplete)
                                       else old(dir.sys.phase)
      ensures !more && ok ==> dir.disk.segs == []
      ensures Beside(old(dir.sys), dir.sys)
      ensures dir.budget <= old(dir.budget) && |dir.sys.h.removed| <= |dir.sys.h.published|
      ensures more && dir.budget == old(dir.budget) ==>
        |dir.sys.h.published| - |dir.sys.h.removed| < |old(dir.sys.h.published)| - |old(dir.sys.h.removed)|
    {
      var segs := List();
      if segs == [] {
        return false, true;
      }
      ghost var listed := dir.sys;
      ok := ShipAll(segs);
      more := ok;
      dir.Queue();
    }

    /** Lists the spool; an empty listing ends `Run`. */
    method List() returns (segs: seq<nat>)
      requires dir.Valid() && dir.sys.s.SList?
      modifies dir`disk, dir`sys, dir`trace, dir`budget, dir`minted
      ensures dir.Valid() && old(dir.trace) <= dir.trace && Beside(old(dir.sys), dir.sys)
      ensures segs == Names(dir.disk.segs)
      ensures if segs == [] then dir.sys.s.SOut?
                   && dir.sys.phase == if old(dir.sys.phase.Draining?) then Exited(Drained) else old(dir.sys.phase)
              else dir.sys.s == NextSegment(segs) && dir.sys.phase == old(dir.sys.phase)
                   && dir.sys.h.cursor == |dir.sys.h.removed|
      ensures |dir.sys.h.published| == |dir.sys.h.removed| + |segs|
      ensures Fewer(old(dir.budget), old(dir.sys), dir.budget, dir.sys)
    {
      dir.ShipperYields();
      segs := Names(dir.disk.segs);
      dir.Queue();
      dir.Commit(ListForShip);
    }

    /** Ships the segments of a listing in order, until the context is cancelled (false). */
    method ShipAll(segs: seq<nat>) returns (ok: bool)
      requires Valid() && segs != [] && dir.sys.s == NextSegment(segs) && dir.sys.h.cursor == |dir.sys.h.removed|
      modifies this, dir`disk, dir`sys, dir`trace, dir`budget, dir`minted
      ensures Valid() && old(dir.trace) <= dir.trace && Recorded(old(attempts), old(sleeps), attempts, sleeps)
      ensures Beside(old(dir.sys), dir.sys) && Fewer(old(dir.budget), old(dir.sys), dir.budget, dir.sys)
      ensures if ok then dir.sys.s.SList? && dir.sys.phase == old(dir.sys.phase)
                         && |dir.sys.h.removed| >= |old(dir.sys.h.removed)| + |segs|
              else dir.sys.s.SOut?
                   && dir.sys.phase == if old(dir.sys.phase.Draining?) then Exited(Incomplete) else old(dir.sys.phase)
    {
      ghost var n := |dir.sys.h.removed|;
      assert segs == segs[0..];
      var i := 0;
      while i < |segs|
        invariant 0 <= i <= |segs|
        invariant Valid() && old(dir.trace) <= dir.trace && Recorded(old(attempts), old(sleeps), attempts, sleeps)
        invariant dir.sys.s == NextSegment(segs[i..]) && dir.sys.phase == old(dir.sys.phase)
        invariant n + i <= |dir.sys.h.removed| && dir.sys.h.cursor == n + i
        invariant Beside(old(dir.sys), dir.sys) && Fewer(old(dir.budget), old(dir.sys), dir.budget, dir.sys)
      {
        var done := ShipWithRetry(segs[i], segs[i + 1..]);
        if !done {
          return false;
        }
        i := i + 1;
      }
      ok := true;
    }

    /** Ships one segment, retrying retryable failures after the shared backoff, until it is gone or (false)
        the context is cancelled. */
    method ShipWithRetry(u: nat, ghost todo: seq<nat>) returns (done: bool)
      requires Valid() && dir.sys.s == SRead(u, todo)
      modifies this, dir`disk, dir`sys, dir`trace, dir`budget, dir`minted
      ensures Valid() && old(dir.trace) <= dir.trace && Recorded(old(attempts), old(sleeps), attempts, sleeps)
      ensures Beside(old(dir.sys), dir.sys) && Fewer(old(dir.budget), old(dir.sys), dir.budget, dir.sys)
      ensures Outcome(if done then Done else Stopped, u, todo, old(dir.sys), dir.sys)
      ensures done ==> backoff == minBackoff
    {
      var o := Again;
      while o.Again?
        invariant Valid() && old(dir.trace) <= dir.trace && Recorded(old(attempts), old(sleeps), attempts, sleeps)
        invariant Beside(old(dir.sys), dir.sys) && Fewer(old(dir.budget), old(dir.sys), dir.budget, dir.sys)
        invariant Outcome(o, u, todo, old(dir.sys), dir.sys)
        invariant o.Done? ==> backoff == minBackoff
        decreases o.Again?, dir.budget
      {
        o := TryOnce(u, todo);
      }
      done := o.Done?;
    }

    /** One round of `shipWithRetry`. A terminal outcome resets the backoff; a sleep doubles it, capped. */
    method TryOnce(u: nat, ghost todo: seq<nat>) returns (o: Round)
      requires Valid() && dir.sys.s == SRead(u, todo)
      modifies this, dir`disk, dir`sys, dir`trace, dir`budget, dir`minted
      ensures Valid() && old(dir.trace) <= dir.trace && Recorded(old(attempts), old(sleeps), attempts, sleeps)
      ensures Beside(old(dir.sys), dir.sys) && Fewer(old(dir.budget), old(dir.sys), dir.budget, dir.sys)
      ensures Outcome(o, u, todo, old(dir.sys), dir.sys)
      ensures attempts == old(attempts) + [if o.Done? then Backoff.Terminal else if o.Again? then Backoff.Slept else Backoff.Cut]
      ensures sleeps == if o.Done? then old(sleeps) else old(sleeps) + [(|old(attempts)|, old(backoff))]
      ensures o.Done? ==> backoff == minBackoff
      ensures o.Again? ==> dir.budget < old(dir.budget)
    {
      var retry, failed, _, _, _ := Ship(u, todo);
      if !failed || !retry {
        Record(Backoff.Terminal);
        backoff := minBackoff;
        return Done;
      }
      var cancelled := Pause(u, todo);
      o := if cancelled then Stopped else Again;
    }

    /** Sleeps and, unless cut short, doubles the backoff, capped. */
    method Pause(u: nat, ghost todo: seq<nat>) returns (cancelled: bool)
      requires Valid() && dir.sys.s == SSleep(u, todo)
      modifies this, dir`sys, dir`trace, dir`budget
      ensures Valid() && old(dir.trace) <= dir.trace
      ensures sleeps == old(sleeps) + [(|old(attempts)|, old(backoff))]
      ensures attempts == old(attempts) + [if cancelled then Backoff.Cut else Backoff.Slept]
      ensures dir.sys == old(dir.sys).(s := dir.sys.s, phase := dir.sys.phase)
      ensures dir.sys.s == if cancelled then SOut else SRead(u, todo)
      ensures dir.sys.phase == if cancelled && old(dir.sys.phase.Draining?) then Exited(Incomplete) else old(dir.sys.phase)
      ensures if cancelled then dir.budget == old(dir.budget) else dir.budget < old(dir.budget)
    {
      cancelled := Sleep(u, todo);
      if !cancelled {
        backoff := Backoff.Wrap64(2 * backoff);
        if backoff > maxBackoff {
          backoff := maxBackoff;
        }
      }
    }

    /** Adds an attempt to the record. */
    ghost method Record(a: Backoff.Attempt)
      requires SleepsOk()
      modifies this`attempts
      ensures SleepsOk() && attempts == old(attempts) + [a]
      ensures attempts[..|attempts| - 1] == old(attempts)
    {
      attempts := attempts + [a];
      forall i | 0 <= i < |sleeps|
        ensures sleeps[i].0 <= |attempts|
                && sleeps[i].1 == Backoff.After(minBackoff, maxBackoff, attempts[..sleeps[i].0])
      {
        assert attempts[..sleeps[i].0] == old(attempts)[..sleeps[i].0];
      }
    }

    /** Sleeps for the current backoff; true if the context is cancelled first. */
    method Sleep(u: nat, ghost todo: seq<nat>) returns (cancelled: bool)
      requires Valid() && dir.sys.s == SSleep(u, todo)
      modifies this`attempts, this`sleeps, dir`sys, dir`trace, dir`budget
      ensures dir.Valid() && SleepsOk() && old(dir.trace) <= dir.trace
      ensures sleeps == old(sleeps) + [(|old(attempts)|, backoff)]
      ensures attempts == old(attempts) + [if cancelled then Backoff.Cut else Backoff.Slept]
      ensures attempts[..|attempts| - 1] == old(attempts)
      ensures dir.sys.s == if cancelled then SOut else SRead(u, todo)
      ensures dir.sys.phase == if cancelled && old(dir.sys.phase.Draining?) then Exited(Incomplete) else old(dir.sys.phase)
      ensures dir.sys == old(dir.sys).(s := dir.sys.s, phase := dir.sys.phase)
      ensures if cancelled then dir.budget == old(dir.budget) else dir.budget < old(dir.budget)
    {
      assert attempts[..|attempts|] == attempts;
      sleeps := sleeps + [(|attempts|, backoff)];
      cancelled := *;
      if dir.budget == 0 {
        cancelled := true;
      }
      if cancelled {
        Record(Backoff.Cut);
        dir.Commit(Cancelled);
      } else {
        dir.budget := dir.budget - 1;
        Record(Backoff.Slept);
        dir.Commit(Retry);
      }
    }

    /** Sends one segment: whether to retry, and whether it failed. Unless it is to be retried, it is gone. It
        has not failed if and only if it was posted, the answer was 2xx, and this very call removed it. */
    method Ship(u: nat, ghost todo: seq<nat>)
      returns (retry: bool, failed: bool, ghost posted: bool, ghost raw: File, ghost reply: Option<nat>)
      requires Valid() && dir.sys.s == SRead(u, todo)
      modifies dir`disk, dir`sys, dir`trace, dir`budget, dir`minted
      ensures dir.Valid() && old(dir.trace) <= dir.trace && dir.sys.phase == old(dir.sys.phase)
      ensures Beside(old(dir.sys), dir.sys)
      ensures retry <==> posted && !Between(reply, 200, 300) && !Between(reply, 400, 500)
      ensures failed <==> !(posted && Between(reply, 200, 300) && RemovedBy(old(dir.sys.h), dir.sys.h))
      ensures if posted && Between(reply, 200, 300) then Answered(old(dir.sys.h), u, raw, Accepted, dir.sys.h)
              else if posted && Between(reply, 400, 500) then Answered(old(dir.sys.h), u, raw, Rejected, dir.sys.h)
              else dir.sys.h.answers == old(dir.sys.h.answers)
      ensures if retry then dir.sys.s == SSleep(u, todo) && dir.sys.h.cursor == old(dir.sys.h.cursor)
              else dir.sys.s == NextSegment(todo)
                   && dir.sys.h.cursor == old(dir.sys.h.cursor) + 1 <= |dir.sys.h.removed|
      ensures Fewer(old(dir.budget), old(dir.sys), dir.budget, dir.sys)
    {
      var found, bytes := ReadFile(u, todo);
      posted, raw, reply := found, bytes, None;
      if !found {
        return false, true, false, bytes, None;
      }
      var answer := Post(u, bytes, todo);
      reply := answer;
      match Classify(answer) {
        case Ok2xx =>
          var removed := Remove(u, Accepted, todo);
          retry, failed := false, !removed;
        case Bad4xx =>
          var removed := Remove(u, Rejected, todo);
          retry, failed := false, true;
        case Retryable =>
          retry, failed := true, true;
      }
    }

    method ReadFile(u: nat, ghost todo: seq<nat>) returns (found: bool, raw: File)
      requires dir.Valid() && dir.sys.s == SRead(u, todo)
      modifies dir`disk, dir`sys, dir`trace, dir`budget, dir`minted
      ensures dir.Valid() && old(dir.trace) <= dir.trace && dir.sys.phase == old(dir.sys.phase)
      ensures Beside(old(dir.sys), dir.sys)
      ensures dir.sys.h.answers == old(dir.sys.h.answers) && dir.sys.h.crashes == old(dir.sys.h.crashes)
      ensures Evicting(old(dir.sys.h), dir.sys.h)
      ensures if found then dir.sys.s == SPost(u, raw, todo) && dir.sys.h.cursor == old(dir.sys.h.cursor)
              else dir.sys.s == NextSegment(todo)
                   && dir.sys.h.cursor == old(dir.sys.h.cursor) + 1 <= |dir.sys.h.removed|
      ensures Fewer(old(dir.budget), old(dir.sys), dir.budget, dir.sys)
    {
      dir.ShipperYields();
      dir.AtCursor();
      dir.Present(dir.sys.h.cursor);
      found, raw := Has(dir.disk.segs, u), File([], 0, false);
      if found {
        raw := Lookup(dir.disk.segs, u);
      }
      dir.Commit(ReadSegment);
    }

    /** Posts the bytes just read; the server may answer anything, or not at all. */
    method Post(u: nat, raw: File, ghost todo: seq<nat>) returns (reply: Option<nat>)
      requires dir.Valid() && dir.sys.s == SPost(u, raw, todo)
      modifies dir`disk, dir`sys, dir`trace, dir`budget, dir`minted
      ensures dir.Valid() && old(dir.trace) <= dir.trace && dir.sys.phase == old(dir.sys.phase)
      ensures Beside(old(dir.sys), dir.sys) && dir.sys.h.cursor == old(dir.sys.h.cursor)
      ensures dir.sys.s == if Between(reply, 200, 300) then SRemove(u, Accepted, todo)
                           else if Between(reply, 400, 500) then SRemove(u, Rejected, todo)
                           else SSleep(u, todo)
      ensures if Between(reply, 200, 300) then Answered(old(dir.sys.h), u, raw, Accepted, dir.sys.h)
              else if Between(reply, 400, 500) then Answered(old(dir.sys.h), u, raw, Rejected, dir.sys.h)
              else dir.sys.h.answers == old(dir.sys.h.answers)
      ensures Evicting(old(dir.sys.h), dir.sys.h)
      ensures Fewer(old(dir.budget), old(dir.sys), dir.budget, dir.sys)
    {
      dir.ShipperYields();
      reply := *;
      dir.Commit(Respond(Classify(reply)));
    }

    /** `os.Remove` of a segment the server has answered; false if the cap was faster. */
    method Remove(u: nat, verdict: Verdict, ghost todo: seq<nat>) returns (removed: bool)
      requires dir.Valid() && dir.sys.s == SRemove(u, verdict, todo)
      modifies dir`disk, dir`sys, dir`trace, dir`budget, dir`minted
      ensures dir.Valid() && old(dir.trace) <= dir.trace && dir.sys.phase == old(dir.sys.phase)
      ensures Beside(old(dir.sys), dir.sys) && dir.sys.s == NextSegment(todo)
      ensures dir.sys.h.cursor == old(dir.sys.h.cursor) + 1 <= |dir.sys.h.removed|
      ensures removed <==> RemovedBy(old(dir.sys.h), dir.sys.h)
      ensures dir.sys.h.answers == old(dir.sys.h.answers)
      ensures Fewer(old(dir.budget), old(dir.sys), dir.budget, dir.sys)
    {
      dir.ShipperYields();
      dir.AtCursor();
      dir.Present(dir.sys.h.cursor);
      removed := Has(dir.disk.segs, u);
      if removed {
        dir.disk := dir.disk.(segs := Drop(dir.disk.segs, u));
      }
      dir.Commit(RemoveShipped);
    }
  }

  /** History only grows while the shipper runs, and once the spool is closed it adds nothing to the log. */
  ghost predicate Beside(s: Sys, t: Sys) {
    && s.h.published <= t.h.published && s.h.removed <= t.h.removed && s.h.appended <= t.h.appended
    && (s.w.WClosed? ==> t.w.WClosed? && t.disk.active == s.disk.active
                         && t.h.published == s.h.published && t.h.appended == s.h.appended)
  }

  /** Since `h`, only the cap removed segments. */
  ghost predicate Evicting(h: History, h': History) {
    h.removed <= h'.removed && forall i | |h.removed| <= i < |h'.removed| :: h'.removed[i].Evicted?
  }

  /** Since `h`, one terminal answer arrived: this verdict on these bytes, posted for the segment at the cursor. */
  ghost predicate Answered(h: History, u: nat, raw: File, verdict: Verdict, h': History) {
    h'.answers == h.answers + [Answer(h.cursor, u, raw, verdict, h.crashes)]
  }

  /** The segment at the cursor of `h` was present then, and the shipper has removed it since. */
  ghost predicate RemovedBy(h: History, h': History) {
    |h.removed| <= h.cursor < |h'.removed| && h'.removed[h.cursor].Shipped?
  }

  /** If the budget is untouched, so is what was published. */
  ghost predicate Fewer(budget: nat, s: Sys, left: nat, t: Sys) {
    left <= budget && (left == budget ==> t.h.published == s.h.published)
  }

  ghost predicate Recorded(attempts: seq<Backoff.Attempt>, sleeps: seq<(nat, int)>,
                           attempts': seq<Backoff.Attempt>, sleeps': seq<(nat, int)>) {
    attempts <= attempts' && sleeps <= sleeps'
  }

  /** Where the shipper is after a round for segment `u`: past it, with the segment gone; out of `Run`; or
      about to try again. */
  ghost predicate Outcome(o: Round, u: nat, todo: seq<nat>, s: Sys, t: Sys) {
    match o
    case Done => t.s == NextSegment(todo) && t.phase == s.phase && t.h.cursor == s.h.cursor + 1 <= |t.h.removed|
    case Stopped => t.s.SOut? && t.phase == if s.phase.Draining? then Exited(Incomplete) else s.phase
    case Again => t.s == SRead(u, todo) && t.phase == s.phase && t.h.cursor == s.h.cursor
  }

  /** Every sleep of every run lies within the bounds, and is the minimum doubled once for each failure
      slept through since the last terminal outcome, if the bounds are in order and cannot overflow. */
  lemma SleepsWithinBounds(sh: Shipper, i: nat)
    requires sh.Valid() && i < |sh.sleeps| && 0 < sh.minBackoff <= sh.maxBackoff < Backoff.TWO_62
    ensures var k := Backoff.Streak(sh.attempts[..sh.sleeps[i].0]);
      && sh.minBackoff <= sh.sleeps[i].1 <= sh.maxBackoff
      && sh.sleeps[i].1 == Backoff.Min(sh.minBackoff * Backoff.Pow2(k), sh.maxBackoff)
  {
    Backoff.ClosedForm(sh.minBackoff, sh.maxBackoff, sh.attempts[..sh.sleeps[i].0]);
  }

  /** With the defaults, the sleep after `k` failures in a row is 2^k seconds, at most five minutes. */
  lemma DefaultSleeps(sh: Shipper, i: nat)
    requires sh.Valid() && i < |sh.sleeps| && sh.minBackoff == 1_000_000_000 && sh.maxBackoff == 300_000_000_000
    ensures var k := Backoff.Streak(sh.attempts[..sh.sleeps[i].0]);
      && 1_000_000_000 <= sh.sleeps[i].1 <= 300_000_000_000
      && sh.sleeps[i].1 == Backoff.Min(1_000_000_000 * Backoff.Pow2(k), 300_000_000_000)
  {
    SleepsWithinBounds(sh, i);
  }

  /** A shipper built with zero bounds has these. */
  method DefaultShipper(dir: Directory) returns (sh: Shipper)
    requires dir.Valid()
    ensures sh.Valid() && sh.dir == dir && sh.minBackoff == 1_000_000_000 && sh.maxBackoff == 300_000_000_000
  {
    sh := new Shipper(dir, 0, 0);
  }
}
