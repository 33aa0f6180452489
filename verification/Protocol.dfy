/** The spool and the shipper as one small-step transition system over a shared directory.

    Each step is one system call of the writer (`internal/spool/spool.go`), one of the shipper
    (`internal/ship/ship.go`), or a life-cycle step of the process (`internal/agent/agent.go`), so every
    interleaving of the two goroutines, and a crash between any two calls, is a run of this system. */
module Protocol {
  import opened Storage

  datatype Config = Config(rotateBytes: int, maxBytes: int, push: bool)

  /** What `rotate` was called for: the append that an aged segment held up, the end of `Write`, or `Close`. */
  datatype After = Append(line: Line) | Return | Shut

  /** Where the writer is. */
  datatype Writer =
    | WDown
    | WOpening(todo: set<nat>)
    | WIdle
    | WWrite(line: Line)
    | WRead(k: After)
    | WCreate(raw: seq<Line>, k: After)
    | WEncode(u: nat, raw: seq<Line>, k: After)
    | WRename(u: nat, k: After)
    | WTruncate(k: After)
    | WList(k: After)
    | WStat(listed: seq<nat>, i: nat, total: nat, k: After)
    | WEvict(oldest: nat, k: After)
    | WWarn(oldest: nat, k: After)
    | WClosed

  datatype Verdict = Accepted | Rejected
  datatype Response = Ok2xx | Bad4xx | Retryable

  /** Where the shipper is; `todo` is the rest of its current listing. */
  datatype Shipper =
    | SOut
    | SList
    | SRead(u: nat, todo: seq<nat>)
    | SPost(u: nat, file: File, todo: seq<nat>)
    | SRemove(u: nat, verdict: Verdict, todo: seq<nat>)
    | SSleep(u: nat, todo: seq<nat>)

  datatype Exit = Drained | Incomplete | Bundled
  datatype Phase = Running | Joined | Draining | Exited(exit: Exit)

  /** Who removed a published segment: the cap, when `of` segments had been published, or the shipper, when
      `answers` terminal answers had been received, the last of them for this segment. */
  datatype Removal = Evicted(ulid: nat, of: nat) | Shipped(ulid: nat, answers: nat)

  /** A terminal answer of the server: which published segment, the batch id and bytes that were posted, the
      verdict, and how many crashes had happened before it. */
  datatype Answer = Answer(seg: nat, ulid: nat, file: File, verdict: Verdict, epoch: nat)

  /** What has happened so far; no program step reads it, except that a new ULID exceeds every earlier one.
      - `appended`: every line ever appended to the active file, warnings included;
      - `published`: every segment ever published, oldest first, and in `dups` how many of its leading lines
        had already been published;
      - `removed`: every removal of a published segment, in order;
      - `answers`: every terminal answer of the server, in order;
      - `lost`: evicted segments whose warning a crash prevented;
      - `redo`: how many leading lines of the active file are already published;
      - `cursor`: the index of the segment the shipper is at. */
  datatype History = History(
    appended: seq<Line>, published: seq<Entry>, dups: seq<nat>, removed: seq<Removal>, answers: seq<Answer>,
    lost: set<nat>, redo: nat, cursor: nat, crashes: nat, minted: nat)

  datatype Sys = Sys(disk: Disk, asize: int, phase: Phase, w: Writer, s: Shipper, h: History)

  datatype Event =
    // Spool
    | OpenGlob | OpenRemove(u: nat) | OpenActive
    | WriteCall(line: Line, aged: bool) | AppendLine
    | ReadActive | CreateTmp(u: nat) | EncodeTmp(size: nat) | RenameTmp | TruncateActive
    | ListSegments | StatSegment | CheckTotal | RemoveOldest | AppendWarning(body: string)
    | CloseCall
    // Shipper
    | RunCall | ListForShip | ReadSegment | Respond(response: Response) | RemoveShipped | Retry | Cancelled
    // Process
    | Join | LeaveBundle | Restart | Crash

  const INIT: Sys :=
    Sys(Disk([], map[], []), 0, Running, WDown, SOut, History([], [], [], [], [], {}, 0, 0, 0, 0))

  predicate Up(w: Writer) {
    !w.WDown? && !w.WOpening?
  }

  predicate WriterEvent(e: Event) {
    || e.WriteCall? || e.AppendLine? || e.ReadActive? || e.CreateTmp? || e.EncodeTmp? || e.RenameTmp?
    || e.TruncateActive? || e.ListSegments? || e.StatSegment? || e.CheckTotal? || e.RemoveOldest?
    || e.AppendWarning? || e.CloseCall?
  }

  predicate ShipperEvent(e: Event) {
    || e.RunCall? || e.ListForShip? || e.ReadSegment? || e.Respond? || e.RemoveShipped? || e.Retry? || e.Cancelled?
  }

  /** Whether the step `e` can happen in `s`. */
  predicate Enabled(c: Config, s: Sys, e: Event) {
    match e
    case OpenGlob => s.w.WDown?
    case OpenRemove(u) => s.w.WOpening? && u in s.w.todo
    case OpenActive => s.w.WOpening? && s.w.todo == {}
    case WriteCall(line, _) => s.phase.Running? && s.w.WIdle? && line.Envelope?
    case AppendLine => s.w.WWrite?
    case ReadActive => s.w.WRead?
    case CreateTmp(u) => s.w.WCreate? && s.h.minted <= u
    case EncodeTmp(_) => s.w.WEncode?
    case RenameTmp => s.w.WRename? && s.w.u in s.disk.tmps
    case TruncateActive => s.w.WTruncate?
    case ListSegments => s.w.WList?
    case StatSegment => s.w.WStat? && s.w.i < |s.w.listed|
    case CheckTotal => s.w.WStat? && s.w.i == |s.w.listed| > 0
    case RemoveOldest => s.w.WEvict?
    case AppendWarning(_) => s.w.WWarn?
    case CloseCall => s.phase.Joined? && s.w.WIdle?
    case RunCall => c.push && s.s.SOut? && Up(s.w) && (s.phase.Running? || (s.phase.Joined? && s.w.WClosed?))
    case ListForShip => s.s.SList?
    case ReadSegment => s.s.SRead?
    case Respond(_) => s.s.SPost?
    case RemoveShipped => s.s.SRemove?
    case Retry => s.s.SSleep?
    case Cancelled => s.s.SSleep?
    case Join => s.phase.Running? && s.w.WIdle? && s.s.SOut?
    case LeaveBundle => !c.push && s.phase.Joined? && s.w.WClosed?
    case Restart => s.phase.Exited?
    case Crash => !s.w.WDown? && !s.phase.Exited?
  }

  /** Where `rotate` returns to. */
  function Resume(k: After): Writer {
    match k
    case Append(line) => WWrite(line)
    case Return => WIdle
    case Shut => WClosed
  }

  /** The shipper is done with the current segment and takes the next one of its listing, or lists again. */
  function NextSegment(todo: seq<nat>): Shipper {
    if todo == [] then SList else SRead(todo[0], todo[1..])
  }

  /** One `Stat` of `enforceCap`: a listed segment that has vanished counts nothing. */
  function AddSize(w: Writer, segs: seq<Entry>): Writer
    requires w.WStat? && w.i < |w.listed|
  {
    var u := w.listed[w.i];
    var size := if Has(segs, u) then Lookup(segs, u).size else 0;
    WStat(w.listed, w.i + 1, w.total + size, w.k)
  }

  function AddLine(s: Sys, line: Line): Sys {
    s.(disk := s.disk.(active := s.disk.active + [line]),
       asize := s.asize + Bytes(line),
       h := s.h.(appended := s.h.appended + [line]))
  }

  function Next(c: Config, s: Sys, e: Event): Sys
    requires Enabled(c, s, e)
  {
    if WriterEvent(e) then WriterNext(c, s, e)
    else if ShipperEvent(e) then ShipperNext(c, s, e)
    else ProcessNext(c, s, e)
  }

  function WriterNext(c: Config, s: Sys, e: Event): Sys
    requires Enabled(c, s, e) && WriterEvent(e)
  {
    match e
    case WriteCall(line, aged) =>
      s.(w := if s.asize > 0 && aged then WRead(Append(line)) else WWrite(line))
    case AppendLine =>
      var t := AddLine(s, s.w.line);
      t.(w := if t.asize >= c.rotateBytes then WRead(Return) else WIdle)
    case ReadActive =>
      s.(w := WCreate(s.disk.active, s.w.k))
    case CreateTmp(u) =>
      s.(disk := s.disk.(tmps := s.disk.tmps[u := File([], 0, false)]),
         h := s.h.(minted := u + 1),
         w := WEncode(u, s.w.raw, s.w.k))
    case EncodeTmp(size) =>
      s.(disk := s.disk.(tmps := s.disk.tmps[s.w.u := File(s.w.raw, size, true)]),
         w := WRename(s.w.u, s.w.k))
    case RenameTmp =>
      var f := s.disk.tmps[s.w.u];
      s.(disk := s.disk.(tmps := s.disk.tmps - {s.w.u}, segs := Insert(s.disk.segs, s.w.u, f)),
         h := s.h.(published := s.h.published + [Entry(s.w.u, f)],
                   dups := s.h.dups + [s.h.redo],
                   redo := |s.disk.active|),
         w := WTruncate(s.w.k))
    case TruncateActive =>
      s.(disk := s.disk.(active := []), asize := 0, h := s.h.(redo := 0), w := WList(s.w.k))
    case ListSegments =>
      s.(w := if s.disk.segs == [] then Resume(s.w.k) else WStat(Names(s.disk.segs), 0, 0, s.w.k))
    case StatSegment =>
      s.(w := AddSize(s.w, s.disk.segs))
    case CheckTotal =>
      s.(w := if s.w.total <= c.maxBytes then Resume(s.w.k) else WEvict(s.w.listed[0], s.w.k))
    case RemoveOldest =>
      if Has(s.disk.segs, s.w.oldest) then
        s.(disk := s.disk.(segs := Drop(s.disk.segs, s.w.oldest)),
           h := s.h.(removed := s.h.removed + [Evicted(s.w.oldest, |s.h.published|)]),
           w := WWarn(s.w.oldest, s.w.k))
      else
        s.(w := WList(s.w.k))
    case AppendWarning(body) =>
      AddLine(s, Warning(s.w.oldest, body)).(w := WList(s.w.k))
    case CloseCall =>
      s.(w := if s.asize > 0 then WRead(Shut) else WClosed)
  }

  function ShipperNext(c: Config, s: Sys, e: Event): Sys
    requires Enabled(c, s, e) && ShipperEvent(e)
  {
    match e
    case RunCall =>
      s.(s := SList, phase := if s.phase.Joined? then Draining else s.phase)
    case ListForShip =>
      if s.disk.segs == [] then
        s.(s := SOut, phase := if s.phase.Draining? then Exited(Drained) else s.phase)
      else
        s.(s := NextSegment(Names(s.disk.segs)), h := s.h.(cursor := |s.h.removed|))
    case ReadSegment =>
      if Has(s.disk.segs, s.s.u) then s.(s := SPost(s.s.u, Lookup(s.disk.segs, s.s.u), s.s.todo))
      else MoveOn(s, s.s.todo)
    case Respond(r) =>
      if r.Retryable? then s.(s := SSleep(s.s.u, s.s.todo))
      else
        var v := if r.Ok2xx? then Accepted else Rejected;
        s.(s := SRemove(s.s.u, v, s.s.todo),
           h := s.h.(answers := s.h.answers + [Answer(s.h.cursor, s.s.u, s.s.file, v, s.h.crashes)]))
    case RemoveShipped =>
      if Has(s.disk.segs, s.s.u) then
        MoveOn(s.(disk := s.disk.(segs := Drop(s.disk.segs, s.s.u)),
                  h := s.h.(removed := s.h.removed + [Shipped(s.s.u, |s.h.answers|)])),
               s.s.todo)
      else MoveOn(s, s.s.todo)
    case Retry =>
      s.(s := SRead(s.s.u, s.s.todo))
    case Cancelled =>
      s.(s := SOut, phase := if s.phase.Draining? then Exited(Incomplete) else s.phase)
  }

  function MoveOn(s: Sys, todo: seq<nat>): Sys {
    s.(s := NextSegment(todo), h := s.h.(cursor := s.h.cursor + 1))
  }

  function ProcessNext(c: Config, s: Sys, e: Event): Sys
    requires Enabled(c, s, e) && !WriterEvent(e) && !ShipperEvent(e)
  {
    match e
    case OpenGlob =>
      s.(w := WOpening(s.disk.tmps.Keys))
    case OpenRemove(u) =>
      s.(disk := s.disk.(tmps := s.disk.tmps - {u}), w := WOpening(s.w.todo - {u}))
    case OpenActive =>
      s.(asize := Size(s.disk.active), w := WIdle)
    case Join =>
      s.(phase := Joined)
    case LeaveBundle =>
      s.(phase := Exited(Bundled))
    case Restart =>
      s.(phase := Running, w := WDown)
    case Crash =>
      s.(phase := Running, w := WDown, s := SOut,
         h := s.h.(crashes := s.h.crashes + 1,
                   lost := if s.w.WWarn? then s.h.lost + {s.w.oldest} else s.h.lost))
  }

  /** `es` is a run of the system from the empty directory. */
  predicate Legal(c: Config, es: seq<Event>)
    decreases |es|, 0
  {
    es == [] || (Legal(c, es[..|es| - 1]) && Enabled(c, Play(c, es[..|es| - 1]), es[|es| - 1]))
  }

  /** The state in which the run `es` ends. */
  function Play(c: Config, es: seq<Event>): Sys
    requires Legal(c, es)
    decreases |es|, 1
  {
    if es == [] then INIT else Next(c, Play(c, es[..|es| - 1]), es[|es| - 1])
  }

  lemma PlayStep(c: Config, es: seq<Event>, e: Event)
    requires Legal(c, es) && Enabled(c, Play(c, es), e)
    ensures Legal(c, es + [e]) && Play(c, es + [e]) == Next(c, Play(c, es), e)
  {
    assert (es + [e])[..|es|] == es;
  }
}
