/** Every step keeps the invariant. */
module Preservation {
  import opened Storage
  import opened Protocol
  import opened Invariant

  lemma InitInv(c: Config)
    ensures Inv(c, INIT)
  {
  }

  // ---- What is on disk, in terms of what was published ----

  /** A published segment is present exactly when it has not been removed yet, with its original contents. */
  lemma PresentIff(segs: seq<Entry>, p: seq<Entry>, dups: seq<nat>, minted: nat, removed: seq<Removal>, n: nat)
    requires Catalog(p, dups, minted) && Fifo(segs, p, removed) && n < |p|
    ensures Has(segs, p[n].ulid) <==> |removed| <= n
    ensures |removed| <= n ==> Lookup(segs, p[n].ulid) == p[n].file
  {
    var k := |removed|;
    if k <= n {
      assert segs[n - k] == p[n];
    }
  }

  /** Removing a published segment that no present one precedes takes the head of the queue. */
  lemma DropHead(segs: seq<Entry>, p: seq<Entry>, dups: seq<nat>, minted: nat, removed: seq<Removal>, n: nat)
    requires Catalog(p, dups, minted) && Fifo(segs, p, removed) && n < |p| && n <= |removed|
    requires Has(segs, p[n].ulid)
    ensures n == |removed|
    ensures Drop(segs, p[n].ulid) == p[n + 1..]
  {
    PresentIff(segs, p, dups, minted, removed, n);
    assert segs[0] == p[n];
  }

  lemma SegBytesSlice(p: seq<Entry>, lo: nat, hi: nat)
    requires lo <= hi < |p|
    ensures SegBytes(p[lo..hi + 1]) == SegBytes(p[lo..hi]) + p[hi].file.size
  {
    assert p[lo..hi + 1] == p[lo..hi] + [p[hi]];
    SegBytesAppend(p[lo..hi], p[hi]);
  }

  lemma SegBytesSliceHead(p: seq<Entry>, lo: nat, hi: nat)
    requires lo < hi <= |p|
    ensures SegBytes(p[lo..hi]) == p[lo].file.size + SegBytes(p[lo + 1..hi])
  {
    SegBytesTail(p[lo..hi]);
    assert p[lo..hi][1..] == p[lo + 1..hi];
  }

  // ---- Writer ----

  /** What a step of the writer has to establish anew. */
  ghost predicate WriterPart(c: Config, s: Sys, active: seq<Line>, tmps: map<nat, File>, asize: int, appended: seq<Line>,
                             redo: nat, minted: nat, w: Writer) {
    && s.h.minted <= minted
    && Conserved(active, redo, s.h.published, s.h.dups, appended)
    && Warnings(appended, s.h.removed, s.h.lost, Pending(w), s.h.crashes)
    && ActiveOk(active, asize, redo, w)
    && TmpsOk(tmps, active, w, s.h.published, minted)
    && CapOk(c.maxBytes, w, s.h.published, |s.h.removed|)
    && Phases(s.phase, w, s.s, s.disk.segs)
  }

  /** What a step of the writer (or of `Open`) must establish when it neither publishes nor removes a segment. */
  lemma WriterActs(c: Config, s: Sys, active: seq<Line>, tmps: map<nat, File>, asize: int, appended: seq<Line>,
                   redo: nat, minted: nat, w: Writer)
    requires Inv(c, s) && WriterPart(c, s, active, tmps, asize, appended, redo, minted, w)
    ensures Inv(c, s.(disk := s.disk.(active := active, tmps := tmps), asize := asize, w := w,
                      h := s.h.(appended := appended, redo := redo, minted := minted)))
  {
  }

  ghost predicate MovePart(c: Config, s: Sys, w: Writer) {
    && Pending(w) == Pending(s.w)
    && ActiveOk(s.disk.active, s.asize, s.h.redo, w)
    && TmpsOk(s.disk.tmps, s.disk.active, w, s.h.published, s.h.minted)
    && CapOk(c.maxBytes, w, s.h.published, |s.h.removed|)
    && Phases(s.phase, w, s.s, s.disk.segs)
  }

  /** The same for a step that touches nothing but the writer's position. */
  lemma WriterMoves(c: Config, s: Sys, w: Writer)
    requires Inv(c, s)
    requires MovePart(c, s, w)
    ensures Inv(c, s.(w := w))
  {
    WriterActs(c, s, s.disk.active, s.disk.tmps, s.asize, s.h.appended, s.h.redo, s.h.minted, w);
  }

  lemma WriteCallKeeps(c: Config, s: Sys, line: Line, aged: bool)
    requires Inv(c, s) && Enabled(c, s, WriteCall(line, aged))
    ensures Inv(c, Next(c, s, WriteCall(line, aged)))
  {
    if s.asize > 0 && aged {
      SizePositive(s.disk.active);
      WriterMoves(c, s, WRead(Append(line)));
    } else {
      WriterMoves(c, s, WWrite(line));
    }
  }

  lemma CloseCallKeeps(c: Config, s: Sys)
    requires Inv(c, s) && Enabled(c, s, CloseCall)
    ensures Inv(c, Next(c, s, CloseCall))
  {
    SizePositive(s.disk.active);
    if s.asize > 0 {
      WriterMoves(c, s, WRead(Shut));
    } else {
      WriterMoves(c, s, WClosed);
    }
  }

  lemma ReadActiveKeeps(c: Config, s: Sys)
    requires Inv(c, s) && Enabled(c, s, ReadActive)
    ensures Inv(c, Next(c, s, ReadActive))
  {
    WriterMoves(c, s, WCreate(s.disk.active, s.w.k));
  }

  lemma ConservedAppend(active: seq<Line>, redo: nat, p: seq<Entry>, dups: seq<nat>, appended: seq<Line>, line: Line)
    requires Conserved(active, redo, p, dups, appended)
    ensures Conserved(active + [line], redo, p, dups, appended + [line])
  {
    assert (active + [line])[redo..] == active[redo..] + [line];
    assert Fresh(p, dups) + (active[redo..] + [line]) == (Fresh(p, dups) + active[redo..]) + [line];
  }

  lemma WarningsAppend(appended: seq<Line>, removed: seq<Removal>, lost: set<nat>, pending: seq<nat>, crashes: nat, line: Line)
    requires Warnings(appended, removed, lost, pending, crashes)
    requires pending == if line.Warning? then [line.dropped] else []
    ensures Warnings(appended + [line], removed, lost, [], crashes)
  {
    WarnedAppend(appended, line);
  }

  /** Appending a line, of either kind, at a point where the writer is not between rename and truncate. */
  lemma LineKeeps(c: Config, s: Sys, line: Line, w: Writer)
    requires Inv(c, s) && Up(s.w)
    requires Pending(s.w) == (if line.Warning? then [line.dropped] else []) && Pending(w) == []
    requires ActiveOk(s.disk.active + [line], s.asize + Bytes(line), s.h.redo, w)
    requires TmpsOk(s.disk.tmps, s.disk.active + [line], w, s.h.published, s.h.minted)
    requires CapOk(c.maxBytes, w, s.h.published, |s.h.removed|)
    requires Phases(s.phase, w, s.s, s.disk.segs)
    ensures Inv(c, AddLine(s, line).(w := w))
  {
    var appended := s.h.appended + [line];
    ConservedAppend(s.disk.active, s.h.redo, s.h.published, s.h.dups, s.h.appended, line);
    WarningsAppend(s.h.appended, s.h.removed, s.h.lost, Pending(s.w), s.h.crashes, line);
    WriterActs(c, s, s.disk.active + [line], s.disk.tmps, s.asize + Bytes(line), appended, s.h.redo, s.h.minted, w);
  }

  lemma AppendLineKeeps(c: Config, s: Sys)
    requires Inv(c, s) && Enabled(c, s, AppendLine)
    ensures Inv(c, Next(c, s, AppendLine))
  {
    SizeAppend(s.disk.active, s.w.line);
    LineKeeps(c, s, s.w.line, Next(c, s, AppendLine).w);
  }

  lemma AppendWarningKeeps(c: Config, s: Sys, body: string)
    requires Inv(c, s) && Enabled(c, s, AppendWarning(body))
    ensures Inv(c, Next(c, s, AppendWarning(body)))
  {
    var line := Warning(s.w.oldest, body);
    SizeAppend(s.disk.active, line);
    LineKeeps(c, s, line, WList(s.w.k));
  }

  lemma TmpKeeps(c: Config, s: Sys, e: Event)
    requires Inv(c, s) && Enabled(c, s, e) && (e.CreateTmp? || e.EncodeTmp?)
    ensures Inv(c, Next(c, s, e))
  {
    var t := Next(c, s, e);
    WriterActs(c, s, t.disk.active, t.disk.tmps, t.asize, t.h.appended, t.h.redo, t.h.minted, t.w);
  }

  lemma ConservedPublish(active: seq<Line>, redo: nat, p: seq<Entry>, dups: seq<nat>, appended: seq<Line>, x: Entry)
    requires Conserved(active, redo, p, dups, appended) && x.file.lines == active
    ensures Conserved(active, |active|, p + [x], dups + [redo], appended)
  {
    assert (p + [x])[..|p|] == p && (dups + [redo])[..|p|] == dups;
    assert active[|active|..] == [];
  }

  lemma RemovalsPublish(maxBytes: int, p: seq<Entry>, removed: seq<Removal>, answers: seq<Answer>, x: Entry)
    requires Removals(maxBytes, p, removed, answers)
    ensures Removals(maxBytes, p + [x], removed, answers)
  {
    forall i | 0 <= i < |removed| ensures RemovalOk(maxBytes, removed[i], i, p + [x], answers) {
      assert RemovalOk(maxBytes, removed[i], i, p, answers);
      var r := removed[i];
      if r.Evicted? {
        assert (p + [x])[i..r.of] == p[i..r.of];
      }
    }
  }

  lemma CatalogPublish(p: seq<Entry>, dups: seq<nat>, minted: nat, x: Entry, active: seq<Line>, redo: nat, appended: seq<Line>)
    requires Catalog(p, dups, minted) && Newest(x.ulid, p, minted)
    requires x.file.whole && x.file.lines == active != []
    requires Conserved(active, redo, p, dups, appended)
    ensures Catalog(p + [x], dups + [redo], minted)
  {
    var q, d := p + [x], dups + [redo];
    forall i | 0 <= i < |q| ensures Repeats(q, d[i], i) {
      if i < |p| {
        assert Repeats(p, dups[i], i);
      }
    }
  }

  lemma AnswersPublish(answers: seq<Answer>, p: seq<Entry>, k: nat, crashes: nat, x: Entry)
    requires Answers(answers, p, k, crashes)
    ensures Answers(answers, p + [x], k, crashes)
  {
    forall i | 0 <= i < |answers| ensures AnswerOk(answers[i], p + [x], k, crashes) {
      assert AnswerOk(answers[i], p, k, crashes);
    }
  }

  lemma RenamePublishes(c: Config, s: Sys)
    requires Inv(c, s) && Enabled(c, s, RenameTmp)
    ensures Next(c, s, RenameTmp).disk.segs == s.disk.segs + [Entry(s.w.u, s.disk.tmps[s.w.u])]
    ensures Fifo(Next(c, s, RenameTmp).disk.segs, Next(c, s, RenameTmp).h.published, s.h.removed)
  {
    var x := Entry(s.w.u, s.disk.tmps[s.w.u]);
    InsertLast(s.disk.segs, s.w.u, s.disk.tmps[s.w.u]);
    assert s.disk.segs + [x] == (s.h.published + [x])[|s.h.removed|..];
  }

  lemma RenameKeepsHistory(c: Config, s: Sys)
    requires Inv(c, s) && Enabled(c, s, RenameTmp)
    ensures var t := Next(c, s, RenameTmp);
      && Catalog(t.h.published, t.h.dups, t.h.minted)
      && Conserved(t.disk.active, t.h.redo, t.h.published, t.h.dups, t.h.appended)
      && Removals(c.maxBytes, t.h.published, t.h.removed, t.h.answers)
      && Answers(t.h.answers, t.h.published, |t.h.removed|, t.h.crashes)
  {
    var t, h := Next(c, s, RenameTmp), s.h;
    var x := Entry(s.w.u, s.disk.tmps[s.w.u]);
    assert Catalog(t.h.published, t.h.dups, t.h.minted) by {
      CatalogPublish(h.published, h.dups, h.minted, x, s.disk.active, h.redo, h.appended);
    }
    assert Conserved(t.disk.active, t.h.redo, t.h.published, t.h.dups, t.h.appended) by {
      ConservedPublish(s.disk.active, h.redo, h.published, h.dups, h.appended, x);
    }
    assert Removals(c.maxBytes, t.h.published, t.h.removed, t.h.answers) by {
      RemovalsPublish(c.maxBytes, h.published, h.removed, h.answers, x);
    }
    assert Answers(t.h.answers, t.h.published, |t.h.removed|, t.h.crashes) by {
      AnswersPublish(h.answers, h.published, |h.removed|, h.crashes, x);
    }
  }

  lemma RenameKeepsProcesses(c: Config, s: Sys)
    requires Inv(c, s) && Enabled(c, s, RenameTmp)
    ensures var t := Next(c, s, RenameTmp);
      && TmpsOk(t.disk.tmps, t.disk.active, t.w, t.h.published, t.h.minted)
      && ShipperOk(t.s, t.h.published, |t.h.removed|, t.h.cursor)
      && Progress(t.s, t.h.answers, |t.h.removed|, t.h.cursor, t.h.crashes)
      && Phases(t.phase, t.w, t.s, t.disk.segs)
  {
    assert s.phase.Running? || s.phase.Joined?;
  }

  lemma RenameKeeps(c: Config, s: Sys)
    requires Inv(c, s) && Enabled(c, s, RenameTmp)
    ensures Inv(c, Next(c, s, RenameTmp))
  {
    var t := Next(c, s, RenameTmp);
    RenamePublishes(c, s);
    RenameKeepsHistory(c, s);
    RenameKeepsProcesses(c, s);
    assert t.w.WTruncate? && Pending(t.w) == Pending(s.w);
  }

  lemma TruncateKeeps(c: Config, s: Sys)
    requires Inv(c, s) && Enabled(c, s, TruncateActive)
    ensures Inv(c, Next(c, s, TruncateActive))
  {
    var t := Next(c, s, TruncateActive);
    WriterActs(c, s, t.disk.active, t.disk.tmps, t.asize, t.h.appended, t.h.redo, t.h.minted, t.w);
  }

  /** A fresh listing is everything that has not been removed. */
  lemma ListSound(maxBytes: int, k: After, segs: seq<Entry>, p: seq<Entry>, removed: seq<Removal>)
    requires Fifo(segs, p, removed) && segs != []
    ensures CapOk(maxBytes, WStat(Names(segs), 0, 0, k), p, |removed|)
  {
    assert p[|removed|..|removed|] == [];
  }

  /** A step within the enforcement of the cap that changes nothing but what the writer knows. */
  lemma CapMoves(c: Config, s: Sys, w: Writer)
    requires Inv(c, s) && (s.w.WList? || s.w.WStat?) && (w.WStat? || w.WEvict?) && w.k == s.w.k
    requires CapOk(c.maxBytes, w, s.h.published, |s.h.removed|)
    ensures Inv(c, s.(w := w))
  {
    WriterMoves(c, s, w);
  }

  lemma ListKeeps(c: Config, s: Sys)
    requires Inv(c, s) && Enabled(c, s, ListSegments)
    ensures Inv(c, Next(c, s, ListSegments))
  {
    if s.disk.segs != [] {
      ListSound(c.maxBytes, s.w.k, s.disk.segs, s.h.published, s.h.removed);
    }
    WriterMoves(c, s, Next(c, s, ListSegments).w);
  }

  /** One more segment stat'ed: its size is counted if it is still there. */
  lemma CapAdvance(maxBytes: int, w: Writer, size: nat, p: seq<Entry>, k: nat)
    requires w.WStat? && w.i < |w.listed| && CapOk(maxBytes, w, p, k)
    requires var n := |p| - |w.listed| + w.i; size == if k <= n then p[n].file.size else 0
    ensures CapOk(maxBytes, WStat(w.listed, w.i + 1, w.total + size, w.k), p, k)
  {
    var n := |p| - |w.listed| + w.i;
    if k <= n {
      SegBytesSlice(p, k, n);
    } else {
      assert p[n + 1..n + 1] == [];
    }
  }

  /** What a stat adds to the total. */
  lemma StatAdds(maxBytes: int, w: Writer, s: Sys) returns (size: nat)
    requires Catalog(s.h.published, s.h.dups, s.h.minted) && Fifo(s.disk.segs, s.h.published, s.h.removed)
    requires w.WStat? && w.i < |w.listed| && CapOk(maxBytes, w, s.h.published, |s.h.removed|)
    ensures AddSize(w, s.disk.segs) == WStat(w.listed, w.i + 1, w.total + size, w.k)
    ensures var n := |s.h.published| - |w.listed| + w.i;
      0 <= n < |s.h.published| && size == if |s.h.removed| <= n then s.h.published[n].file.size else 0
  {
    var p, k := s.h.published, |s.h.removed|;
    var n := |p| - |w.listed| + w.i;
    ListedAt(maxBytes, w, p, k);
    SizeFound(s.disk.segs, p, s.h.dups, s.h.minted, s.h.removed, n);
    size := if k <= n then p[n].file.size else 0;
  }

  lemma ListedAt(maxBytes: int, w: Writer, p: seq<Entry>, k: nat)
    requires w.WStat? && w.i < |w.listed| && CapOk(maxBytes, w, p, k)
    ensures |w.listed| <= |p| && w.listed[w.i] == p[|p| - |w.listed| + w.i].ulid
  {
  }

  /** What a stat of published segment `n` finds. */
  lemma SizeFound(segs: seq<Entry>, p: seq<Entry>, dups: seq<nat>, minted: nat, removed: seq<Removal>, n: nat)
    requires Catalog(p, dups, minted) && Fifo(segs, p, removed) && n < |p|
    ensures (if Has(segs, p[n].ulid) then Lookup(segs, p[n].ulid).size else 0)
            == if |removed| <= n then p[n].file.size else 0
  {
    PresentIff(segs, p, dups, minted, removed, n);
  }

  lemma StatSound(maxBytes: int, w: Writer, s: Sys)
    requires Catalog(s.h.published, s.h.dups, s.h.minted) && Fifo(s.disk.segs, s.h.published, s.h.removed)
    requires w.WStat? && w.i < |w.listed| && CapOk(maxBytes, w, s.h.published, |s.h.removed|)
    ensures CapOk(maxBytes, AddSize(w, s.disk.segs), s.h.published, |s.h.removed|)
  {
    var size := StatAdds(maxBytes, w, s);
    CapAdvance(maxBytes, w, size, s.h.published, |s.h.removed|);
  }

  lemma StatKeeps(c: Config, s: Sys)
    requires Inv(c, s) && Enabled(c, s, StatSegment)
    ensures Inv(c, Next(c, s, StatSegment))
  {
    StatSound(c.maxBytes, s.w, s);
    CapMoves(c, s, AddSize(s.w, s.disk.segs));
  }

  /** When every listed segment has been stat'ed, the total bounds what is on disk; and if it is over the cap
      while the oldest listed segment is still there, then what is on disk is over the cap. */
  lemma CheckSound(maxBytes: int, w: Writer, segs: seq<Entry>, p: seq<Entry>, removed: seq<Removal>)
    requires Fifo(segs, p, removed)
    requires w.WStat? && w.i == |w.listed| && CapOk(maxBytes, w, p, |removed|)
    ensures w.total <= maxBytes ==> SegBytes(segs) <= maxBytes
    ensures w.total > maxBytes ==> Candidate(maxBytes, |p| - |w.listed|, w.listed[0], p, |removed|)
  {
    var a, k := |p| - |w.listed|, |removed|;
    assert p[k..|p|] == p[k..] && p[a..|p|] == p[a..];
  }

  lemma CheckKeeps(c: Config, s: Sys)
    requires Inv(c, s) && Enabled(c, s, CheckTotal)
    ensures Inv(c, Next(c, s, CheckTotal))
  {
    if s.w.total <= c.maxBytes {
      WriterMoves(c, s, Resume(s.w.k));
    } else {
      CheckEvicts(c, s);
    }
  }

  lemma CheckEvicts(c: Config, s: Sys)
    requires Inv(c, s) && Enabled(c, s, CheckTotal) && s.w.total > c.maxBytes
    ensures Inv(c, s.(w := WEvict(s.w.listed[0], s.w.k)))
  {
    OverCap(c.maxBytes, s);
    CapMoves(c, s, WEvict(s.w.listed[0], s.w.k));
  }

  lemma OverCap(maxBytes: int, s: Sys)
    requires Fifo(s.disk.segs, s.h.published, s.h.removed) && s.w.WStat? && s.w.total > maxBytes
    requires s.w.i == |s.w.listed| && CapOk(maxBytes, s.w, s.h.published, |s.h.removed|)
    ensures CapOk(maxBytes, WEvict(s.w.listed[0], s.w.k), s.h.published, |s.h.removed|)
  {
    CheckSound(maxBytes, s.w, s.disk.segs, s.h.published, s.h.removed);
  }

  lemma WithinCap(c: Config, s: Sys)
    requires Inv(c, s) && Enabled(c, s, CheckTotal) && s.w.total <= c.maxBytes
    ensures SegBytes(s.disk.segs) <= c.maxBytes
  {
    CheckSound(c.maxBytes, s.w, s.disk.segs, s.h.published, s.h.removed);
  }

  // ---- Removals ----

  /** What every removal keeps, whoever makes it. */
  lemma RemovalKeeps(maxBytes: int, s: Sys, n: nat, r: Removal)
    requires Catalog(s.h.published, s.h.dups, s.h.minted) && Fifo(s.disk.segs, s.h.published, s.h.removed)
    requires Removals(maxBytes, s.h.published, s.h.removed, s.h.answers)
    requires Answers(s.h.answers, s.h.published, |s.h.removed|, s.h.crashes)
    requires n < |s.h.published| && n <= |s.h.removed| && Has(s.disk.segs, s.h.published[n].ulid)
    requires r.ulid == s.h.published[n].ulid && RemovalOk(maxBytes, r, n, s.h.published, s.h.answers)
    ensures n == |s.h.removed|
    ensures Fifo(Drop(s.disk.segs, r.ulid), s.h.published, s.h.removed + [r])
    ensures Removals(maxBytes, s.h.published, s.h.removed + [r], s.h.answers)
    ensures Answers(s.h.answers, s.h.published, |s.h.removed| + 1, s.h.crashes)
  {
    DropHead(s.disk.segs, s.h.published, s.h.dups, s.h.minted, s.h.removed, n);
    forall i | 0 <= i < |s.h.answers| ensures AnswerOk(s.h.answers[i], s.h.published, |s.h.removed| + 1, s.h.crashes) {
      assert AnswerOk(s.h.answers[i], s.h.published, |s.h.removed|, s.h.crashes);
    }
  }

  /** A removal by one process leaves what the other knows valid. */
  lemma RemovalSeen(maxBytes: int, w: Writer, sh: Shipper, p: seq<Entry>, answers: seq<Answer>, k: nat, cursor: nat, crashes: nat)
    requires k < |p|
    ensures CapOk(maxBytes, w, p, k) ==> CapOk(maxBytes, w, p, k + 1)
    ensures ShipperOk(sh, p, k, cursor) ==> ShipperOk(sh, p, k + 1, cursor)
    ensures Progress(sh, answers, k, cursor, crashes) ==> Progress(sh, answers, k + 1, cursor, crashes)
  {
    if CapOk(maxBytes, w, p, k) {
      match w
      case WStat(listed, i, total, _) =>
        var a := |p| - |listed|;
        if k + 1 <= a + i {
          SegBytesSliceHead(p, k, a + i);
        }
      case WEvict(oldest, _) =>
        var a: nat :| Candidate(maxBytes, a, oldest, p, k);
        assert Candidate(maxBytes, a, oldest, p, k + 1);
      case _ =>
    }
  }

  lemma EvictionsAppend(removed: seq<Removal>, lost: set<nat>, r: Removal)
    ensures Evictions(removed + [r], lost)
            == Evictions(removed, lost) + (if r.Evicted? && r.ulid !in lost then [r.ulid] else [])
  {
    assert (removed + [r])[..|removed|] == removed;
  }

  /** The state after `rotate` has removed its oldest listed segment. */
  function Evict(s: Sys): Sys
    requires s.w.WEvict?
  {
    s.(disk := s.disk.(segs := Drop(s.disk.segs, s.w.oldest)),
       w := WWarn(s.w.oldest, s.w.k),
       h := s.h.(removed := s.h.removed + [Evicted(s.w.oldest, |s.h.published|)]))
  }

  /** What a removal has to establish anew. */
  ghost predicate RemovalPart(c: Config, s: Sys, segs: seq<Entry>, removed: seq<Removal>, w: Writer) {
    && Fifo(segs, s.h.published, removed)
    && Removals(c.maxBytes, s.h.published, removed, s.h.answers)
    && Warnings(s.h.appended, removed, s.h.lost, Pending(w), s.h.crashes)
    && ActiveOk(s.disk.active, s.asize, s.h.redo, w)
    && TmpsOk(s.disk.tmps, s.disk.active, w, s.h.published, s.h.minted)
    && CapOk(c.maxBytes, w, s.h.published, |removed|)
    && ShipperOk(s.s, s.h.published, |removed|, s.h.cursor)
    && Answers(s.h.answers, s.h.published, |removed|, s.h.crashes)
    && Progress(s.s, s.h.answers, |removed|, s.h.cursor, s.h.crashes)
    && Phases(s.phase, w, s.s, segs)
  }

  /** What a removal must establish. */
  lemma RemovalActs(c: Config, s: Sys, segs: seq<Entry>, removed: seq<Removal>, w: Writer)
    requires Inv(c, s) && RemovalPart(c, s, segs, removed, w)
    ensures Inv(c, s.(disk := s.disk.(segs := segs), w := w, h := s.h.(removed := removed)))
  {
  }

  lemma EvictionOk(maxBytes: int, s: Sys) returns (a: nat)
    requires Catalog(s.h.published, s.h.dups, s.h.minted) && Fifo(s.disk.segs, s.h.published, s.h.removed)
    requires s.w.WEvict? && Has(s.disk.segs, s.w.oldest) && CapOk(maxBytes, s.w, s.h.published, |s.h.removed|)
    ensures a < |s.h.published| && a <= |s.h.removed| && s.h.published[a].ulid == s.w.oldest
    ensures RemovalOk(maxBytes, Evicted(s.w.oldest, |s.h.published|), a, s.h.published, s.h.answers)
  {
    var p := s.h.published;
    a :| Candidate(maxBytes, a, s.w.oldest, p, |s.h.removed|);
    PresentIff(s.disk.segs, p, s.h.dups, s.h.minted, s.h.removed, a);
    assert p[a..|p|] == p[a..];
  }

  lemma EvictionKeeps(c: Config, s: Sys)
    requires Inv(c, s) && s.w.WEvict? && Has(s.disk.segs, s.w.oldest)
    ensures Inv(c, Evict(s))
  {
    var h := s.h;
    var r := Evicted(s.w.oldest, |h.published|);
    var a := EvictionOk(c.maxBytes, s);
    RemovalKeeps(c.maxBytes, s, a, r);
    EvictedKeepsLog(s, r);
    var w := WWarn(s.w.oldest, s.w.k);
    RemovalSeen(c.maxBytes, w, s.s, h.published, h.answers, |h.removed|, h.cursor, h.crashes);
    assert |h.removed + [r]| == |h.removed| + 1;
    RemovalActs(c, s, Drop(s.disk.segs, r.ulid), h.removed + [r], w);
  }

  lemma RemoveOldestKeeps(c: Config, s: Sys)
    requires Inv(c, s) && Enabled(c, s, RemoveOldest)
    ensures Inv(c, Next(c, s, RemoveOldest))
  {
    if Has(s.disk.segs, s.w.oldest) {
      EvictionKeeps(c, s);
    } else {
      WriterMoves(c, s, WList(s.w.k));
    }
  }

  lemma EvictedKeepsLog(s: Sys, r: Removal)
    requires Warnings(s.h.appended, s.h.removed, s.h.lost, [], s.h.crashes)
    requires Catalog(s.h.published, s.h.dups, s.h.minted) && Fifo(s.disk.segs, s.h.published, s.h.removed)
    requires r.Evicted? && |s.h.removed| < |s.h.published| && r.ulid == s.h.published[|s.h.removed|].ulid
    ensures Warnings(s.h.appended, s.h.removed + [r], s.h.lost, [r.ulid], s.h.crashes)
  {
    EvictionsAppend(s.h.removed, s.h.lost, r);
    forall u | u in s.h.lost ensures u != r.ulid && EvictedBefore(s.h.removed + [r], u) {
      assert EvictedBefore(s.h.removed, u);
      var i :| 0 <= i < |s.h.removed| && s.h.removed[i].Evicted? && s.h.removed[i].ulid == u;
      assert (s.h.removed + [r])[i] == s.h.removed[i];
    }
  }

  // ---- Shipper ----

  /** What a step of the shipper has to establish anew. */
  ghost predicate ShipperPart(s: Sys, phase: Phase, sh: Shipper, cursor: nat) {
    && ShipperOk(sh, s.h.published, |s.h.removed|, cursor)
    && Progress(sh, s.h.answers, |s.h.removed|, cursor, s.h.crashes)
    && Phases(phase, s.w, sh, s.disk.segs)
  }

  /** A step of the shipper that touches nothing but its own position. */
  lemma ShipperMoves(c: Config, s: Sys, phase: Phase, sh: Shipper, cursor: nat)
    requires Inv(c, s) && ShipperPart(s, phase, sh, cursor)
    ensures Inv(c, s.(phase := phase, s := sh, h := s.h.(cursor := cursor)))
  {
  }

  lemma RunCallKeeps(c: Config, s: Sys, e: Event)
    requires Inv(c, s) && Enabled(c, s, e) && (e.RunCall? || e.Retry? || e.Cancelled?)
    ensures Inv(c, Next(c, s, e))
  {
    var t := Next(c, s, e);
    ShipperMoves(c, s, t.phase, t.s, s.h.cursor);
  }

  lemma ListForShipKeeps(c: Config, s: Sys)
    requires Inv(c, s) && Enabled(c, s, ListForShip)
    ensures Inv(c, Next(c, s, ListForShip))
  {
    var t, k := Next(c, s, ListForShip), |s.h.removed|;
    if s.disk.segs != [] {
      forall i | 0 <= i < |s.h.answers|
        ensures s.h.answers[i].seg <= k && (s.h.answers[i].seg == k ==> s.h.answers[i].epoch < s.h.crashes)
      {
        assert AnswerOk(s.h.answers[i], s.h.published, k, s.h.crashes);
      }
    }
    ShipperMoves(c, s, t.phase, t.s, t.h.cursor);
  }

  /** Moving within a pass over a listing is always in phase. */
  lemma InPassPhase(phase: Phase, w: Writer, a: Shipper, b: Shipper, segs: seq<Entry>)
    requires Phases(phase, w, a, segs) && !a.SOut? && !b.SOut?
    ensures Phases(phase, w, b, segs)
  {
  }

  /** Leaving a segment that is gone for the next one of the listing. */
  lemma MoveOnSound(u: nat, todo: seq<nat>, p: seq<Entry>, k: nat, cursor: nat, answers: seq<Answer>, crashes: nat)
    requires Listing(u, todo, p, k, cursor) && cursor < k
    requires forall i | 0 <= i < |answers| :: answers[i].seg <= cursor
    ensures ShipperOk(NextSegment(todo), p, k, cursor + 1)
    ensures Progress(NextSegment(todo), answers, k, cursor + 1, crashes)
  {
  }

  lemma MoveOnKeeps(c: Config, s: Sys, u: nat, todo: seq<nat>)
    requires Inv(c, s) && Listing(u, todo, s.h.published, |s.h.removed|, s.h.cursor)
    requires s.h.cursor < |s.h.removed| && !s.s.SOut? && !s.s.SList?
    ensures Inv(c, MoveOn(s, todo))
  {
    assert Phases(s.phase, s.w, NextSegment(todo), s.disk.segs) by {
      InPassPhase(s.phase, s.w, s.s, NextSegment(todo), s.disk.segs);
    }
    MoveOnSound(u, todo, s.h.published, |s.h.removed|, s.h.cursor, s.h.answers, s.h.crashes);
    ShipperMoves(c, s, s.phase, NextSegment(todo), s.h.cursor + 1);
  }

  lemma ReadSegmentKeeps(c: Config, s: Sys)
    requires Inv(c, s) && Enabled(c, s, ReadSegment)
    ensures Inv(c, Next(c, s, ReadSegment))
  {
    PresentIff(s.disk.segs, s.h.published, s.h.dups, s.h.minted, s.h.removed, s.h.cursor);
    if Has(s.disk.segs, s.s.u) {
      var t := Next(c, s, ReadSegment);
      ShipperMoves(c, s, t.phase, t.s, t.h.cursor);
    } else {
      MoveOnKeeps(c, s, s.s.u, s.s.todo);
    }
  }

  /** A terminal answer for the segment at the cursor comes after all others, in name order. */
  lemma AnswerSound(maxBytes: int, h: History, a: Answer)
    requires Answers(h.answers, h.published, |h.removed|, h.crashes) && Before(h.answers, h.cursor, h.crashes)
    requires Removals(maxBytes, h.published, h.removed, h.answers)
    requires a.seg == h.cursor && a.epoch == h.crashes && AnswerOk(a, h.published, |h.removed|, h.crashes)
    ensures Answers(h.answers + [a], h.published, |h.removed|, h.crashes)
    ensures Removals(maxBytes, h.published, h.removed, h.answers + [a])
  {
    var n, all := |h.answers|, h.answers + [a];
    forall i | 0 <= i < |all| ensures AnswerOk(all[i], h.published, |h.removed|, h.crashes) {
      assert i < n ==> AnswerOk(h.answers[i], h.published, |h.removed|, h.crashes);
    }
    forall i, j | 0 <= i < j < |all| ensures Precedes(all[i], all[j]) {
      assert AnswerOk(h.answers[i], h.published, |h.removed|, h.crashes);
      assert j < n ==> Precedes(h.answers[i], h.answers[j]);
    }
    forall i | 0 <= i < |h.removed| ensures RemovalOk(maxBytes, h.removed[i], i, h.published, h.answers + [a]) {
      assert RemovalOk(maxBytes, h.removed[i], i, h.published, h.answers);
    }
  }

  lemma RespondKeeps(c: Config, s: Sys, r: Response)
    requires Inv(c, s) && Enabled(c, s, Respond(r))
    ensures Inv(c, Next(c, s, Respond(r)))
  {
    var t := Next(c, s, Respond(r));
    if r.Retryable? {
      ShipperMoves(c, s, t.phase, t.s, t.h.cursor);
    } else {
      var a := t.h.answers[|s.h.answers|];
      AnswerSound(c.maxBytes, s.h, a);
      assert Progress(t.s, t.h.answers, |t.h.removed|, t.h.cursor, t.h.crashes);
      assert Phases(t.phase, t.w, t.s, t.disk.segs);
    }
  }

  /** The shipper's own removal, before it moves on. */
  function Taken(s: Sys, r: Removal): Sys {
    s.(disk := s.disk.(segs := Drop(s.disk.segs, r.ulid)), h := s.h.(removed := s.h.removed + [r]))
  }

  lemma WarningsKeepShipped(s: Sys, r: Removal)
    requires Warnings(s.h.appended, s.h.removed, s.h.lost, Pending(s.w), s.h.crashes) && r.Shipped?
    ensures Warnings(s.h.appended, s.h.removed + [r], s.h.lost, Pending(s.w), s.h.crashes)
  {
    EvictionsAppend(s.h.removed, s.h.lost, r);
    forall u | u in s.h.lost ensures EvictedBefore(s.h.removed + [r], u) {
      assert EvictedBefore(s.h.removed, u);
      var i :| 0 <= i < |s.h.removed| && s.h.removed[i].Evicted? && s.h.removed[i].ulid == u;
      assert (s.h.removed + [r])[i] == s.h.removed[i];
    }
  }

  lemma TakenKeeps(c: Config, s: Sys)
    requires Inv(c, s) && s.s.SRemove? && Has(s.disk.segs, s.s.u)
    ensures var t := Taken(s, Shipped(s.s.u, |s.h.answers|)); Inv(c, t) && s.h.cursor < |t.h.removed|
  {
    var h := s.h;
    var r := Shipped(s.s.u, |h.answers|);
    var t := Taken(s, r);
    PresentIff(s.disk.segs, h.published, h.dups, h.minted, h.removed, h.cursor);
    RemovalKeeps(c.maxBytes, s, h.cursor, r);
    RemovalSeen(c.maxBytes, s.w, s.s, h.published, h.answers, |h.removed|, h.cursor, h.crashes);
    WarningsKeepShipped(s, r);
    assert |t.h.removed| == |h.removed| + 1;
    assert CapOk(c.maxBytes, s.w, h.published, |t.h.removed|);
    assert ShipperOk(s.s, h.published, |t.h.removed|, h.cursor);
    assert Progress(s.s, h.answers, |t.h.removed|, h.cursor, h.crashes);
    RemovalActs(c, s, t.disk.segs, t.h.removed, s.w);
  }

  lemma RemoveShippedKeeps(c: Config, s: Sys)
    requires Inv(c, s) && Enabled(c, s, RemoveShipped)
    ensures Inv(c, Next(c, s, RemoveShipped))
  {
    if Has(s.disk.segs, s.s.u) {
      TakenKeeps(c, s);
      MoveOnKeeps(c, Taken(s, Shipped(s.s.u, |s.h.answers|)), s.s.u, s.s.todo);
    } else {
      PresentIff(s.disk.segs, s.h.published, s.h.dups, s.h.minted, s.h.removed, s.h.cursor);
      MoveOnKeeps(c, s, s.s.u, s.s.todo);
    }
  }

  // ---- Process ----

  lemma OpenKeeps(c: Config, s: Sys, e: Event)
    requires Inv(c, s) && Enabled(c, s, e) && (e.OpenGlob? || e.OpenRemove?)
    ensures Inv(c, Next(c, s, e))
  {
    var t := Next(c, s, e);
    WriterActs(c, s, s.disk.active, t.disk.tmps, s.asize, s.h.appended, s.h.redo, s.h.minted, t.w);
  }

  lemma OpenActiveKeeps(c: Config, s: Sys)
    requires Inv(c, s) && Enabled(c, s, OpenActive)
    ensures Inv(c, Next(c, s, OpenActive))
  {
    WriterActs(c, s, s.disk.active, s.disk.tmps, Size(s.disk.active), s.h.appended, s.h.redo, s.h.minted, WIdle);
  }

  lemma ProcessKeeps(c: Config, s: Sys, e: Event)
    requires Inv(c, s) && Enabled(c, s, e) && (e.Join? || e.LeaveBundle? || e.Restart?)
    ensures Inv(c, Next(c, s, e))
  {
  }

  /** The eviction whose warning is pending is the last one counted, so losing it drops exactly that one. */
  lemma {:induction false} EvictionsLose(removed: seq<Removal>, lost: set<nat>, done: seq<nat>, u: nat)
    requires forall i, j | 0 <= i < j < |removed| :: removed[i].ulid != removed[j].ulid
    requires Evictions(removed, lost) == done + [u]
    ensures Evictions(removed, lost + {u}) == done
    ensures EvictedBefore(removed, u)
  {
    var n := |removed| - 1;
    var r := removed[n];
    if r.Evicted? && r.ulid !in lost {
      var rest := Evictions(removed[..n], lost);
      assert (rest + [r.ulid])[|rest|] == r.ulid && (done + [u])[|done|] == u;
      assert (rest + [r.ulid])[..|rest|] == rest && (done + [u])[..|done|] == done;
      EvictionsWithout(removed[..n], lost, u);
    } else {
      EvictionsLose(removed[..n], lost, done, u);
      var i :| 0 <= i < n && removed[..n][i].Evicted? && removed[..n][i].ulid == u;
      assert removed[i].ulid == u;
    }
  }

  lemma {:induction false} EvictionsWithout(removed: seq<Removal>, lost: set<nat>, u: nat)
    requires forall i | 0 <= i < |removed| :: removed[i].ulid != u
    ensures Evictions(removed, lost + {u}) == Evictions(removed, lost)
  {
    if removed != [] {
      EvictionsWithout(removed[..|removed| - 1], lost, u);
    }
  }

  lemma CrashKeeps(c: Config, s: Sys)
    requires Inv(c, s) && Enabled(c, s, Crash)
    ensures Inv(c, Next(c, s, Crash))
  {
    var t, h := Next(c, s, Crash), s.h;
    CrashAnswers(h.answers, h.published, |h.removed|, h.crashes);
    CrashWarnings(s);
    assert t.h.lost == LostBy(s);
  }

  function LostBy(s: Sys): set<nat> {
    if s.w.WWarn? then s.h.lost + {s.w.oldest} else s.h.lost
  }

  lemma CrashAnswers(answers: seq<Answer>, p: seq<Entry>, k: nat, crashes: nat)
    requires Answers(answers, p, k, crashes)
    ensures Answers(answers, p, k, crashes + 1) && Settled(answers, k, crashes + 1)
  {
    forall i | 0 <= i < |answers| ensures AnswerOk(answers[i], p, k, crashes + 1) && answers[i].epoch <= crashes {
      assert AnswerOk(answers[i], p, k, crashes);
    }
  }

  lemma CrashWarnings(s: Sys)
    requires Warnings(s.h.appended, s.h.removed, s.h.lost, Pending(s.w), s.h.crashes)
    requires forall i, j | 0 <= i < j < |s.h.removed| :: s.h.removed[i].ulid < s.h.removed[j].ulid
    ensures Warnings(s.h.appended, s.h.removed, LostBy(s), [], s.h.crashes + 1)
  {
    if s.w.WWarn? {
      EvictionsLose(s.h.removed, s.h.lost, WarnedOf(s.h.appended), s.w.oldest);
    }
  }

  // ---- All steps ----

  lemma WriterKeeps(c: Config, s: Sys, e: Event)
    requires Inv(c, s) && Enabled(c, s, e) && WriterEvent(e)
    ensures Inv(c, Next(c, s, e))
  {
    if e.WriteCall? { WriteCallKeeps(c, s, e.line, e.aged); }
    else if e.CloseCall? { CloseCallKeeps(c, s); }
    else if e.ReadActive? { ReadActiveKeeps(c, s); }
    else if e.CreateTmp? || e.EncodeTmp? { TmpKeeps(c, s, e); }
    else if e.AppendLine? { AppendLineKeeps(c, s); }
    else if e.RenameTmp? { RenameKeeps(c, s); }
    else if e.TruncateActive? { TruncateKeeps(c, s); }
    else if e.ListSegments? { ListKeeps(c, s); }
    else if e.StatSegment? { StatKeeps(c, s); }
    else if e.CheckTotal? { CheckKeeps(c, s); }
    else if e.RemoveOldest? { RemoveOldestKeeps(c, s); }
    else { AppendWarningKeeps(c, s, e.body); }
  }

  lemma ShipperKeeps(c: Config, s: Sys, e: Event)
    requires Inv(c, s) && Enabled(c, s, e) && ShipperEvent(e)
    ensures Inv(c, Next(c, s, e))
  {
    if e.RunCall? || e.Retry? || e.Cancelled? { RunCallKeeps(c, s, e); }
    else if e.ListForShip? { ListForShipKeeps(c, s); }
    else if e.ReadSegment? { ReadSegmentKeeps(c, s); }
    else if e.Respond? { RespondKeeps(c, s, e.response); }
    else { RemoveShippedKeeps(c, s); }
  }

  lemma StepKeeps(c: Config, s: Sys, e: Event)
    requires Inv(c, s) && Enabled(c, s, e)
    ensures Inv(c, Next(c, s, e))
  {
    if WriterEvent(e) { WriterKeeps(c, s, e); }
    else if ShipperEvent(e) { ShipperKeeps(c, s, e); }
    else if e.OpenGlob? || e.OpenRemove? { OpenKeeps(c, s, e); }
    else if e.OpenActive? { OpenActiveKeeps(c, s); }
    else if e.Crash? { CrashKeeps(c, s); }
    else { ProcessKeeps(c, s, e); }
  }

  /** The invariant holds in every reachable state. */
  lemma {:induction false} Reachable(c: Config, es: seq<Event>)
    requires Legal(c, es)
    ensures Inv(c, Play(c, es))
    decreases |es|
  {
    if es == [] {
      InitInv(c);
    } else {
      var n := |es| - 1;
      Reachable(c, es[..n]);
      StepKeeps(c, Play(c, es[..n]), es[n]);
    }
  }
}
