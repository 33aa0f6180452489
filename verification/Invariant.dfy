/** The inductive invariant of the spool/ship protocol. Each conjunct takes only the parts of the state it
    speaks about. */
module Invariant {
  import opened Storage
  import opened Protocol

  /** The published lines that were new when published: each segment without the leading lines that an
      earlier segment already holds. */
  ghost function Fresh(published: seq<Entry>, dups: seq<nat>): seq<Line>
    requires |dups| == |published|
  {
    if published == [] then []
    else
      var n := |published| - 1;
      var lines := published[n].file.lines;
      Fresh(published[..n], dups[..n]) + (if dups[n] <= |lines| then lines[dups[n]..] else [])
  }

  /** The evictions in order, without those whose warning was lost. */
  ghost function Evictions(removed: seq<Removal>, lost: set<nat>): seq<nat> {
    if removed == [] then []
    else
      var r := removed[|removed| - 1];
      Evictions(removed[..|removed| - 1], lost) + (if r.Evicted? && r.ulid !in lost then [r.ulid] else [])
  }

  /** An eviction whose warning is the writer's very next step. */
  ghost function Pending(w: Writer): seq<nat> {
    if w.WWarn? then [w.oldest] else []
  }

  /** Every published segment is a whole, non-empty batch under a name larger than all before it, and repeats
      at most its immediate predecessor, entirely. */
  ghost predicate Catalog(p: seq<Entry>, dups: seq<nat>, minted: nat) {
    && |dups| == |p|
    && (forall i | 0 <= i < |p| :: p[i].ulid < minted && p[i].file.whole && p[i].file.lines != [])
    && (forall i, j | 0 <= i < j < |p| :: p[i].ulid < p[j].ulid)
    && (forall i {:trigger Repeats(p, dups[i], i)} | 0 <= i < |p| :: Repeats(p, dups[i], i))
  }

  ghost predicate Repeats(p: seq<Entry>, dup: nat, i: int)
    requires 0 <= i < |p|
  {
    dup > 0 ==>
      i > 0 && dup == |p[i - 1].file.lines| && p[i - 1].file.lines <= p[i].file.lines
  }

  /** Conservation of lines: the fresh published lines followed by the unpublished part of the active file
      are exactly what was appended. */
  ghost predicate Conserved(active: seq<Line>, redo: nat, p: seq<Entry>, dups: seq<nat>, appended: seq<Line>) {
    && |dups| == |p|
    && redo <= |active|
    && (redo > 0 ==>
          p != [] && redo == |p[|p| - 1].file.lines| && p[|p| - 1].file.lines <= active)
    && Fresh(p, dups) + active[redo..] == appended
  }

  /** The directory is a queue: removals took the oldest published segments in order, and the rest is there. */
  ghost predicate Fifo(segs: seq<Entry>, p: seq<Entry>, removed: seq<Removal>) {
    && |removed| <= |p|
    && segs == p[|removed|..]
    && (forall i {:trigger removed[i]} | 0 <= i < |removed| :: removed[i].ulid == p[i].ulid)
  }

  /** Each removal was either a needed eviction or followed a terminal answer for that very segment. */
  ghost predicate RemovalOk(maxBytes: int, r: Removal, i: nat, p: seq<Entry>, answers: seq<Answer>) {
    match r
    case Evicted(_, of) => i < of <= |p| && SegBytes(p[i..of]) > maxBytes
    case Shipped(_, a) => 0 < a <= |answers| && answers[a - 1].seg == i
  }

  ghost predicate Removals(maxBytes: int, p: seq<Entry>, removed: seq<Removal>, answers: seq<Answer>) {
    forall i {:trigger RemovalOk(maxBytes, removed[i], i, p, answers)} | 0 <= i < |removed| ::
      RemovalOk(maxBytes, removed[i], i, p, answers)
  }

  /** The warnings in the log are exactly the evictions, in order; a crash loses at most one. */
  ghost predicate Warnings(appended: seq<Line>, removed: seq<Removal>, lost: set<nat>, pending: seq<nat>, crashes: nat) {
    && Evictions(removed, lost) == WarnedOf(appended) + pending
    && |lost| <= crashes
    && (forall u | u in lost :: EvictedBefore(removed, u))
  }

  ghost predicate EvictedBefore(removed: seq<Removal>, u: nat) {
    exists i :: 0 <= i < |removed| && removed[i].Evicted? && removed[i].ulid == u
  }

  /** Inside `rotate`, and so with somewhere to return to. */
  ghost predicate Rotating(w: Writer) {
    w.WRead? || w.WCreate? || w.WEncode? || w.WRename? || w.WTruncate? || w.WList? || w.WStat? || w.WEvict? || w.WWarn?
  }

  ghost predicate Capping(w: Writer) {
    w.WList? || w.WStat? || w.WEvict? || w.WWarn?
  }

  /** The active file as the writer sees it. */
  ghost predicate ActiveOk(active: seq<Line>, asize: int, redo: nat, w: Writer) {
    && (Up(w) ==> asize == Size(active))
    && (w.WWrite? ==> w.line.Envelope?)
    && (Rotating(w) && w.k.Append? ==> w.k.line.Envelope?)
    && (Capping(w) || w.WClosed? ==> AllWarnings(active))
    && (w.WRead? || w.WCreate? || w.WEncode? || w.WRename? ==> active != [])
    && (w.WCreate? || w.WEncode? ==> w.raw == active)
    && (w.WTruncate? ==> redo == |active|)
  }

  /** The temporaries: the one being written, and outside `rotate` none at all. */
  ghost predicate TmpsOk(tmps: map<nat, File>, active: seq<Line>, w: Writer, p: seq<Entry>, minted: nat) {
    match w
    case WDown => true
    case WOpening(todo) => tmps.Keys <= todo
    case WEncode(u, _, _) => tmps.Keys == {u} && Newest(u, p, minted)
    case WRename(u, _) => tmps.Keys == {u} && Newest(u, p, minted) && tmps[u].whole && tmps[u].lines == active
    case _ => tmps == map[]
  }

  /** `u` was minted after every published segment. */
  ghost predicate Newest(u: nat, p: seq<Entry>, minted: nat) {
    u < minted && forall i | 0 <= i < |p| :: p[i].ulid < u
  }

  /** What the writer knows while it enforces the cap; `k` segments have been removed so far. A listing ends
      with the latest segment, so its length says where it starts. The running total covers every segment
      that was stat'ed and is still present, and is exact while none is gone. */
  ghost predicate CapOk(maxBytes: int, w: Writer, p: seq<Entry>, k: nat) {
    match w
    case WStat(listed, i, total, _) =>
      var a := |p| - |listed|;
      && 0 < |listed| && 0 <= a <= k <= |p|
      && listed == Names(p[a..])
      && i <= |listed|
      && (k <= a + i ==> SegBytes(p[k..a + i]) <= total)
      && (k == a ==> SegBytes(p[a..a + i]) == total)
    case WEvict(oldest, _) =>
      exists a :: Candidate(maxBytes, a, oldest, p, k)
    case _ => true
  }

  /** The segment about to be evicted is published segment `a`; if it is still there it is the oldest, and the
      total is over the cap. */
  ghost predicate Candidate(maxBytes: int, a: nat, oldest: nat, p: seq<Entry>, k: nat) {
    a <= k && a < |p| && p[a].ulid == oldest && (k == a ==> SegBytes(p[a..]) > maxBytes)
  }

  /** The shipper's current segment, with the rest of its listing, is a run of the published sequence starting
      at `cursor`, and everything before it is gone. */
  ghost predicate Listing(u: nat, todo: seq<nat>, p: seq<Entry>, k: nat, cursor: nat) {
    && cursor <= k
    && cursor + 1 + |todo| <= |p|
    && p[cursor].ulid == u
    && (forall j | 0 <= j < |todo| :: todo[j] == p[cursor + 1 + j].ulid)
  }

  ghost predicate ShipperOk(s: Shipper, p: seq<Entry>, k: nat, cursor: nat) {
    match s
    case SOut => true
    case SList => true
    case SRead(u, todo) => Listing(u, todo, p, k, cursor)
    case SPost(u, f, todo) => Listing(u, todo, p, k, cursor) && f == p[cursor].file
    case SRemove(u, _, todo) => Listing(u, todo, p, k, cursor)
    case SSleep(u, todo) => Listing(u, todo, p, k, cursor)
  }

  /** An answer is for the exact published bytes under their batch id, and for a segment that is gone or the
      oldest present. */
  ghost predicate AnswerOk(a: Answer, p: seq<Entry>, k: nat, crashes: nat) {
    && a.seg < |p|
    && p[a.seg] == Entry(a.ulid, a.file)
    && a.seg <= k
    && a.epoch <= crashes
  }

  ghost predicate Precedes(a: Answer, b: Answer) {
    a.seg <= b.seg && a.epoch <= b.epoch && (a.seg == b.seg ==> a.epoch < b.epoch)
  }

  /** Answers come in name order, and repeat a segment only across a crash. */
  ghost predicate Answers(answers: seq<Answer>, p: seq<Entry>, k: nat, crashes: nat) {
    && (forall i {:trigger AnswerOk(answers[i], p, k, crashes)} | 0 <= i < |answers| :: AnswerOk(answers[i], p, k, crashes))
    && (forall i, j {:trigger Precedes(answers[i], answers[j])} | 0 <= i < j < |answers| :: Precedes(answers[i], answers[j]))
  }

  /** How far the answers have got, by where the shipper is. */
  ghost predicate Progress(s: Shipper, answers: seq<Answer>, k: nat, cursor: nat, crashes: nat) {
    match s
    case SOut => Settled(answers, k, crashes)
    case SList => Settled(answers, k, crashes)
    case SRemove(_, v, _) =>
      && (forall i | 0 <= i < |answers| :: answers[i].seg <= cursor)
      && answers != []
      && var a := answers[|answers| - 1]; a.seg == cursor && a.verdict == v
    case _ => Before(answers, cursor, crashes)
  }

  /** Every segment answered since the last crash is gone. */
  ghost predicate Settled(answers: seq<Answer>, k: nat, crashes: nat) {
    forall i | 0 <= i < |answers| :: answers[i].epoch == crashes ==> answers[i].seg < k
  }

  /** No answer passes segment `n`, and none since the last crash reaches it. */
  ghost predicate Before(answers: seq<Answer>, n: nat, crashes: nat) {
    forall i | 0 <= i < |answers| ::
      answers[i].seg <= n && (answers[i].seg == n ==> answers[i].epoch < crashes)
  }

  ghost predicate Phases(phase: Phase, w: Writer, s: Shipper, segs: seq<Entry>) {
    match phase
    case Running => !w.WClosed? && (Rotating(w) ==> !w.k.Shut?) && (!Up(w) ==> s.SOut?)
    case Joined => s.SOut? && (w.WIdle? || w.WClosed? || (Rotating(w) && w.k.Shut?))
    case Draining => w.WClosed? && !s.SOut?
    case Exited(x) => w.WClosed? && s.SOut? && (x.Drained? ==> segs == [])
  }

  ghost predicate Inv(c: Config, s: Sys) {
    var h := s.h;
    && Catalog(h.published, h.dups, h.minted)
    && Conserved(s.disk.active, h.redo, h.published, h.dups, h.appended)
    && Fifo(s.disk.segs, h.published, h.removed)
    && Removals(c.maxBytes, h.published, h.removed, h.answers)
    && Warnings(h.appended, h.removed, h.lost, Pending(s.w), h.crashes)
    && ActiveOk(s.disk.active, s.asize, h.redo, s.w)
    && TmpsOk(s.disk.tmps, s.disk.active, s.w, h.published, h.minted)
    && CapOk(c.maxBytes, s.w, h.published, |h.removed|)
    && ShipperOk(s.s, h.published, |h.removed|, h.cursor)
    && Answers(h.answers, h.published, |h.removed|, h.crashes)
    && Progress(s.s, h.answers, |h.removed|, h.cursor, h.crashes)
    && Phases(s.phase, s.w, s.s, s.disk.segs)
  }
}
