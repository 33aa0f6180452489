/** What holds of every run of the spool and the shipper, under every interleaving and any number of crashes. */
module Theorems {
  import opened Storage
  import opened Protocol
  import opened Invariant
  import opened Preservation

  // ---- Conservation ----

  /** What became of published segment `i`: it is on disk as published; or the server gave a terminal answer
      to exactly its bytes under its batch id, and the shipper removed it; or it was evicted, and that is
      recorded by a warning in the log, about to be, or lost to a crash. */
  ghost predicate Accounted(s: Sys, i: nat)
    requires i < |s.h.published|
  {
    var e := s.h.published[i];
    || e in s.disk.segs
    || (exists a :: 0 <= a < |s.h.answers| && s.h.answers[a].ulid == e.ulid && s.h.answers[a].file == e.file)
    || Warned(s, e.ulid)
    || e.ulid in Pending(s.w)
    || e.ulid in s.h.lost
  }

  ghost predicate Warned(s: Sys, u: nat) {
    exists j :: 0 <= j < |s.h.appended| && s.h.appended[j].Warning? && s.h.appended[j].dropped == u
  }

  /** Line `j` of everything ever appended is line `q` of the active file, not published yet. */
  ghost predicate StillActive(s: Sys, j: nat, q: int) {
    && s.h.redo <= q < |s.disk.active|
    && j < |s.h.appended| && j == |s.h.appended| - |s.disk.active| + q
    && s.disk.active[q] == s.h.appended[j]
  }

  /** Line `j` of everything ever appended is line `q` of published segment `i`, new there. */
  ghost predicate PublishedIn(s: Sys, j: nat, i: int, q: int) {
    && 0 <= i < |s.h.published| == |s.h.dups|
    && s.h.dups[i] <= q < |s.h.published[i].file.lines|
    && j < |s.h.appended| && j == |Fresh(s.h.published[..i], s.h.dups[..i])| + q - s.h.dups[i]
    && s.h.published[i].file.lines[q] == s.h.appended[j]
  }

  /** Locating a line of the fresh published lines. */
  lemma {:induction false} Locate(p: seq<Entry>, dups: seq<nat>, minted: nat, j: nat)
    returns (i: nat, q: nat)
    requires Catalog(p, dups, minted) && j < |Fresh(p, dups)|
    ensures i < |p| && dups[i] <= q < |p[i].file.lines|
    ensures j == |Fresh(p[..i], dups[..i])| + q - dups[i]
    ensures p[i].file.lines[q] == Fresh(p, dups)[j]
  {
    var n := |p| - 1;
    var before := Fresh(p[..n], dups[..n]);
    if j < |before| {
      CatalogPrefix(p, dups, minted);
      i, q := Locate(p[..n], dups[..n], minted, j);
      assert p[..n][..i] == p[..i] && dups[..n][..i] == dups[..i];
    } else {
      i, q := n, j - |before| + dups[n];
    }
  }

  lemma CatalogPrefix(p: seq<Entry>, dups: seq<nat>, minted: nat)
    requires Catalog(p, dups, minted) && p != []
    ensures var n := |p| - 1; Catalog(p[..n], dups[..n], minted)
  {
    var n := |p| - 1;
    forall k | 0 <= k < n ensures Repeats(p[..n], dups[..n][k], k) {
      assert Repeats(p, dups[k], k);
    }
  }

  lemma {:induction false} EvictionsMember(removed: seq<Removal>, lost: set<nat>, u: nat)
    ensures u in Evictions(removed, lost) <==> u !in lost && EvictedBefore(removed, u)
  {
    if removed != [] {
      var n := |removed| - 1;
      EvictionsMember(removed[..n], lost, u);
      if EvictedBefore(removed[..n], u) {
        var i :| 0 <= i < n && removed[..n][i].Evicted? && removed[..n][i].ulid == u;
        assert removed[i].Evicted? && removed[i].ulid == u;
      }
      if EvictedBefore(removed, u) {
        var i :| 0 <= i < |removed| && removed[i].Evicted? && removed[i].ulid == u;
        assert i < n ==> removed[..n][i].Evicted? && removed[..n][i].ulid == u;
      }
    }
  }

  lemma {:induction false} WarnedMember(ls: seq<Line>, u: nat)
    ensures u in WarnedOf(ls) <==> exists j :: 0 <= j < |ls| && ls[j].Warning? && ls[j].dropped == u
  {
    if ls != [] {
      var n := |ls| - 1;
      WarnedMember(ls[..n], u);
      if u in WarnedOf(ls[..n]) {
        var j :| 0 <= j < n && ls[..n][j].Warning? && ls[..n][j].dropped == u;
        assert ls[j].Warning? && ls[j].dropped == u;
      }
      if exists j :: 0 <= j < |ls| && ls[j].Warning? && ls[j].dropped == u {
        var j :| 0 <= j < |ls| && ls[j].Warning? && ls[j].dropped == u;
        assert j < n ==> ls[..n][j].Warning? && ls[..n][j].dropped == u;
      }
    }
  }

  lemma {:induction false} AccountedFor(c: Config, s: Sys, i: nat)
    requires Inv(c, s) && i < |s.h.published|
    ensures Accounted(s, i)
  {
    var h := s.h;
    var e := h.published[i];
    if |h.removed| <= i {
      assert s.disk.segs[i - |h.removed|] == e;
    } else {
      assert RemovalOk(c.maxBytes, h.removed[i], i, h.published, h.answers);
      match h.removed[i]
      case Shipped(_, a) =>
        assert AnswerOk(h.answers[a - 1], h.published, |h.removed|, h.crashes);
      case Evicted(_, _) =>
        assert EvictedBefore(h.removed, e.ulid);
        EvictionsMember(h.removed, h.lost, e.ulid);
        WarnedMember(h.appended, e.ulid);
    }
  }

  lemma Placed(s: Sys, j: nat) returns (i: nat, q: nat)
    requires Catalog(s.h.published, s.h.dups, s.h.minted) && j < |s.h.appended|
    requires Conserved(s.disk.active, s.h.redo, s.h.published, s.h.dups, s.h.appended)
    ensures StillActive(s, j, q) || (i < |s.h.published| && PublishedIn(s, j, i, q))
  {
    var flat := Fresh(s.h.published, s.h.dups);
    if j < |flat| {
      i, q := Locate(s.h.published, s.h.dups, s.h.minted, j);
    } else {
      i, q := 0, j - |flat| + s.h.redo;
    }
  }

  /** No silent loss: at every moment, every line ever appended (envelope or warning) has a place, either in the
      unpublished part of the active file or in a published segment, and each published segment is accounted
      for. */
  lemma {:induction false} Conservation(c: Config, es: seq<Event>, j: nat)
    requires Legal(c, es) && j < |Play(c, es).h.appended|
    ensures var s := Play(c, es);
      || (exists q :: StillActive(s, j, q))
      || (exists i, q :: PublishedIn(s, j, i, q) && Accounted(s, i))
  {
    Reachable(c, es);
    var s := Play(c, es);
    var i, q := Placed(s, j);
    if !StillActive(s, j, q) {
      AccountedFor(c, s, i);
    }
  }

  /** Where a line is. */
  datatype Place = InActive(q: int) | InSegment(i: int, q: int)

  ghost predicate At(s: Sys, j: nat, place: Place) {
    match place
    case InActive(q) => StillActive(s, j, q)
    case InSegment(i, q) => PublishedIn(s, j, i, q)
  }

  lemma {:induction false} FreshGrows(p: seq<Entry>, dups: seq<nat>, i: nat, k: nat)
    requires |dups| == |p| && i <= k <= |p|
    ensures |Fresh(p[..i], dups[..i])| <= |Fresh(p[..k], dups[..k])|
  {
    if i < k {
      FreshGrows(p, dups, i, k - 1);
      assert p[..k][..k - 1] == p[..k - 1] && dups[..k][..k - 1] == dups[..k - 1];
    }
  }

  /** A line of published segment `i` comes before the fresh lines of all later ones. */
  lemma {:induction false} Position(s: Sys, j: nat, i: int, q: int, k: nat)
    requires PublishedIn(s, j, i, q) && i < k <= |s.h.published|
    ensures |Fresh(s.h.published[..i], s.h.dups[..i])| <= j < |Fresh(s.h.published[..k], s.h.dups[..k])|
  {
    var p, dups := s.h.published, s.h.dups;
    FreshGrows(p, dups, i + 1, k);
    assert p[..i + 1][..i] == p[..i] && dups[..i + 1][..i] == dups[..i];
  }

  lemma {:induction false} PlaceUnique(s: Sys, j: nat, a: Place, b: Place)
    requires Conserved(s.disk.active, s.h.redo, s.h.published, s.h.dups, s.h.appended)
    requires At(s, j, a) && At(s, j, b) && (a.InSegment? && b.InSegment? ==> a.i <= b.i)
    ensures a == b
  {
    var p, dups := s.h.published, s.h.dups;
    assert p[..|p|] == p && dups[..|p|] == dups;
    if a.InSegment? {
      Position(s, j, a.i, a.q, |p|);
    }
    if b.InSegment? {
      Position(s, j, b.i, b.q, |p|);
      if a.InSegment? && a.i < b.i {
        Position(s, j, a.i, a.q, b.i);
      }
    }
  }

  /** And it has only one: no line is counted twice. */
  lemma {:induction false} OnePlace(c: Config, es: seq<Event>, j: nat, a: Place, b: Place)
    requires Legal(c, es) && At(Play(c, es), j, a) && At(Play(c, es), j, b)
    ensures a == b
  {
    ConservedOf(c, es);
    if a.InSegment? && b.InSegment? && b.i < a.i {
      PlaceUnique(Play(c, es), j, b, a);
    } else {
      PlaceUnique(Play(c, es), j, a, b);
    }
  }

  lemma ConservedOf(c: Config, es: seq<Event>)
    requires Legal(c, es)
    ensures var s := Play(c, es); Conserved(s.disk.active, s.h.redo, s.h.published, s.h.dups, s.h.appended)
  {
    Reachable(c, es);
  }

  // ---- Order ----

  /** The segments on disk are the queue of published segments without its first elements: shipping and
      eviction only ever removed the oldest one present. The published lines in name order followed by the
      active file are the append history, each batch caught by a crash counted once. */
  lemma {:induction false} FifoRefinement(c: Config, es: seq<Event>)
    requires Legal(c, es)
    ensures var s := Play(c, es);
      && |s.h.removed| <= |s.h.published| == |s.h.dups|
      && s.disk.segs == s.h.published[|s.h.removed|..]
      && (forall i, j | 0 <= i < j < |s.h.published| :: s.h.published[i].ulid < s.h.published[j].ulid)
      && (forall i | 0 <= i < |s.h.removed| :: s.h.removed[i].ulid == s.h.published[i].ulid)
      && s.h.redo <= |s.disk.active|
      && Fresh(s.h.published, s.h.dups) + s.disk.active[s.h.redo..] == s.h.appended
  {
    Reachable(c, es);
  }

  /** Terminal answers arrive in name order. Between two crashes a segment gets at most one, and over the
      whole history the repeats are at most as many as the crashes. */
  lemma {:induction false} AnswersInOrder(c: Config, es: seq<Event>)
    requires Legal(c, es)
    ensures var h := Play(c, es).h;
      && (forall i, j | 0 <= i < j < |h.answers| ::
            && h.answers[i].ulid <= h.answers[j].ulid
            && (h.answers[i].ulid == h.answers[j].ulid ==> h.answers[i].epoch < h.answers[j].epoch))
      && |h.answers| <= |h.published| + h.crashes
  {
    Reachable(c, es);
    var h := Play(c, es).h;
    forall i, j | 0 <= i < j < |h.answers|
      ensures && h.answers[i].ulid <= h.answers[j].ulid
              && (h.answers[i].ulid == h.answers[j].ulid ==> h.answers[i].epoch < h.answers[j].epoch)
    {
      assert AnswerOk(h.answers[i], h.published, |h.removed|, h.crashes);
      assert AnswerOk(h.answers[j], h.published, |h.removed|, h.crashes);
      assert Precedes(h.answers[i], h.answers[j]);
    }
    if h.answers != [] {
      var n := |h.answers| - 1;
      AnswerRank(h.answers, n);
      assert AnswerOk(h.answers[n], h.published, |h.removed|, h.crashes);
    }
  }

  lemma {:induction false} AnswerRank(answers: seq<Answer>, n: nat)
    requires n < |answers|
    requires forall i, j | 0 <= i < j < |answers| :: Precedes(answers[i], answers[j])
    ensures n <= answers[n].seg + answers[n].epoch
  {
    if n > 0 {
      AnswerRank(answers, n - 1);
      assert Precedes(answers[n - 1], answers[n]);
    }
  }

  // ---- What is rotated first ----

  /** A call of `Write` rotates before it appends if and only if the file is not empty and too old. So that a
      file grown too large or too old is rotated first holds of a call if and only if the file is not both
      too large and young. */
  lemma RotatesFirstIff(c: Config, s: Sys, line: Line, aged: bool)
    requires Enabled(c, s, WriteCall(line, aged)) && c.rotateBytes > 0
    ensures var rotates := Next(c, s, WriteCall(line, aged)).w.WRead?;
      && (rotates <==> s.asize > 0 && aged)
      && ((s.asize > 0 && (s.asize >= c.rotateBytes || aged) ==> rotates) <==> !(s.asize >= c.rotateBytes && !aged))
  {
  }

  lemma PlayMore(c: Config, es: seq<Event>, e: Event, s: Sys)
    requires Legal(c, es) && Enabled(c, Play(c, es), e) && s == Next(c, Play(c, es), e)
    ensures Legal(c, es + [e]) && Play(c, es + [e]) == s
  {
    PlayStep(c, es, e);
  }

  /** A spool with no temporary on disk is opened. */
  lemma Opened(c: Config, es: seq<Event>, s: Sys) returns (more: seq<Event>)
    requires Legal(c, es) && s == Play(c, es) && s.w.WDown? && s.disk.tmps == map[]
    ensures Legal(c, more) && Play(c, more) == s.(asize := Size(s.disk.active), w := WIdle)
  {
    assert s.disk.tmps.Keys == {};
    PlayMore(c, es, OpenGlob, s.(w := WOpening({})));
    more := es + [OpenGlob];
    PlayMore(c, more, OpenActive, s.(asize := Size(s.disk.active), w := WIdle));
    more := more + [OpenActive];
  }

  /** The first line, appended to a spool that has just been created and rotates at once. */
  lemma FirstAppend(c: Config, line: Line) returns (es: seq<Event>)
    requires c.rotateBytes == 1 && line.Envelope?
    ensures Legal(c, es) && Play(c, es) == AddLine(INIT, line).(w := WRead(Return))
  {
    es := Opened(c, [], INIT);
    PlayMore(c, es, WriteCall(line, false), INIT.(w := WWrite(line)));
    es := es + [WriteCall(line, false)];
    PlayMore(c, es, AppendLine, AddLine(INIT, line).(w := WRead(Return)));
    es := es + [AppendLine];
  }

  /** It happens: a crash between an append and its rotation leaves a file too large, and the next `Write`
      appends to it. */
  lemma LargeFileGrows() returns (c: Config, es: seq<Event>, line: Line)
    ensures Legal(c, es) && Enabled(c, Play(c, es), WriteCall(line, false))
    ensures Play(c, es).asize >= c.rotateBytes > 0
    ensures Next(c, Play(c, es), WriteCall(line, false)).w == WWrite(line)
  {
    c, line := Config(1, 100, false), Envelope("");
    es := FirstAppend(c, line);
    var s := Play(c, es);
    var t := s.(w := WDown, h := s.h.(crashes := 1));
    PlayMore(c, es, Crash, t);
    SizePositive(t.disk.active);
    es := Opened(c, es + [Crash], t);
  }

  // ---- Evictions and warnings ----

  /** A warning names a segment if and only if the cap's own removal of it succeeded and the warning is
      neither still to be written nor lost to a crash; there is at most one per segment, and none for a
      segment the shipper removed. */
  lemma {:induction false} WarningsExact(c: Config, es: seq<Event>, u: nat)
    requires Legal(c, es)
    ensures var s := Play(c, es);
      && (Warned(s, u) <==> EvictedBefore(s.h.removed, u) && u !in s.h.lost && u !in Pending(s.w))
      && (forall i, j | 0 <= i < j < |s.h.appended| ::
            s.h.appended[i].Warning? && s.h.appended[j].Warning? ==> s.h.appended[i].dropped < s.h.appended[j].dropped)
      && (forall i | 0 <= i < |s.h.removed| :: s.h.removed[i].Shipped? ==> !EvictedBefore(s.h.removed, s.h.removed[i].ulid))
  {
    Reachable(c, es);
    var s := Play(c, es);
    EvictionsMember(s.h.removed, s.h.lost, u);
    WarnedMember(s.h.appended, u);
    WarningsSorted(s.h, Pending(s.w));
    OneRemover(s.h.removed);
  }

  lemma OneRemover(removed: seq<Removal>)
    requires forall i, j | 0 <= i < j < |removed| :: removed[i].ulid < removed[j].ulid
    ensures forall i | 0 <= i < |removed| :: removed[i].Shipped? ==> !EvictedBefore(removed, removed[i].ulid)
  {
  }

  lemma WarningsSorted(h: History, pending: seq<nat>)
    requires Warnings(h.appended, h.removed, h.lost, pending, h.crashes)
    requires forall i, j | 0 <= i < j < |h.removed| :: h.removed[i].ulid < h.removed[j].ulid
    ensures forall u | u in pending :: u !in WarnedOf(h.appended)
    ensures forall i, j | 0 <= i < j < |h.appended| ::
      h.appended[i].Warning? && h.appended[j].Warning? ==> h.appended[i].dropped < h.appended[j].dropped
  {
    EvictionsIncrease(h.removed, h.lost);
    SortedSplit(WarnedOf(h.appended), pending);
    WarnedOrder(h.appended);
  }

  lemma SortedSplit(a: seq<nat>, b: seq<nat>)
    requires forall i, j | 0 <= i < j < |a + b| :: (a + b)[i] < (a + b)[j]
    ensures forall i, j | 0 <= i < j < |a| :: a[i] < a[j]
    ensures forall u | u in b :: u !in a
  {
    assert forall i | 0 <= i < |a| :: a[i] == (a + b)[i];
    forall i, j | 0 <= i < |a| && 0 <= j < |b| ensures a[i] != b[j] {
      assert (a + b)[|a| + j] == b[j];
    }
  }

  lemma {:induction false} EvictionsIncrease(removed: seq<Removal>, lost: set<nat>)
    requires forall i, j | 0 <= i < j < |removed| :: removed[i].ulid < removed[j].ulid
    ensures forall i, j | 0 <= i < j < |Evictions(removed, lost)| :: Evictions(removed, lost)[i] < Evictions(removed, lost)[j]
    ensures forall u | u in Evictions(removed, lost) :: removed != [] && u <= removed[|removed| - 1].ulid
  {
    if removed != [] {
      var n := |removed| - 1;
      EvictionsIncrease(removed[..n], lost);
      var before, all := Evictions(removed[..n], lost), Evictions(removed, lost);
      forall i, j | 0 <= i < j < |all| ensures all[i] < all[j] {
        if j == |before| {
          assert before[i] in before && before[i] <= removed[..n][n - 1].ulid;
        }
      }
    }
  }

  lemma {:induction false} WarnedOrder(ls: seq<Line>)
    requires forall i, j | 0 <= i < j < |WarnedOf(ls)| :: WarnedOf(ls)[i] < WarnedOf(ls)[j]
    ensures forall i, j | 0 <= i < j < |ls| :: ls[i].Warning? && ls[j].Warning? ==> ls[i].dropped < ls[j].dropped
  {
    if ls != [] {
      var n := |ls| - 1;
      var prior, all := WarnedOf(ls[..n]), WarnedOf(ls);
      assert forall i | 0 <= i < |prior| :: prior[i] == all[i];
      WarnedOrder(ls[..n]);
      forall i | 0 <= i < n && ls[i].Warning? && ls[n].Warning? ensures ls[i].dropped < ls[n].dropped {
        WarnedMember(ls[..n], ls[i].dropped);
        assert ls[..n][i] == ls[i];
        var k :| 0 <= k < |prior| && prior[k] == ls[i].dropped;
        assert all[|prior|] == ls[n].dropped;
      }
    }
  }

  // ---- The cap ----

  /** Whenever the cap check lets `rotate` return, what is really on disk is within the cap, however many
      segments the shipper removed between the listing, the stats and the check; and it stays so, in any
      continuation, until the next segment is published. */
  lemma {:induction false} CapHolds(c: Config, es: seq<Event>, more: seq<Event>)
    requires Legal(c, es) && Play(c, es).w.WStat? && Play(c, es).w.total <= c.maxBytes
    requires Legal(c, es + [CheckTotal] + more) && RenameTmp !in more
    ensures SegBytes(Play(c, es + [CheckTotal] + more).disk.segs) <= c.maxBytes
    decreases |more|
  {
    var run := es + [CheckTotal] + more;
    var n := |run| - 1;
    if more == [] {
      assert run == es + [CheckTotal];
      CheckBounds(c, es);
    } else {
      var m := |more| - 1;
      assert run[..n] == es + [CheckTotal] + more[..m] && run[n] == more[m];
      CapHolds(c, es, more[..m]);
      LastShrinks(c, run);
    }
  }

  lemma LastShrinks(c: Config, es: seq<Event>)
    requires es != [] && Legal(c, es) && es[|es| - 1] != RenameTmp
    ensures SegBytes(Play(c, es).disk.segs) <= SegBytes(Play(c, es[..|es| - 1]).disk.segs)
  {
    ShrinkOnly(c, Play(c, es[..|es| - 1]), es[|es| - 1]);
  }

  lemma CheckBounds(c: Config, es: seq<Event>)
    requires Legal(c, es) && Legal(c, es + [CheckTotal]) && Play(c, es).w.WStat? && Play(c, es).w.total <= c.maxBytes
    ensures SegBytes(Play(c, es + [CheckTotal]).disk.segs) <= c.maxBytes
  {
    assert (es + [CheckTotal])[..|es|] == es;
    LastShrinks(c, es + [CheckTotal]);
    CheckedTotal(c, es);
  }

  lemma CheckedTotal(c: Config, es: seq<Event>)
    requires Legal(c, es) && Enabled(c, Play(c, es), CheckTotal) && Play(c, es).w.total <= c.maxBytes
    ensures SegBytes(Play(c, es).disk.segs) <= c.maxBytes
  {
    Reachable(c, es);
    WithinCap(c, Play(c, es));
  }

  /** Only publishing grows the directory. */
  lemma ShrinkOnly(c: Config, s: Sys, e: Event)
    requires Enabled(c, s, e) && !e.RenameTmp?
    ensures SegBytes(Next(c, s, e).disk.segs) <= SegBytes(s.disk.segs)
  {
    SegsAfter(c, s, e);
    if e.RemoveOldest? {
      DropShrinks(s.disk.segs, s.w.oldest);
    } else if e.RemoveShipped? {
      DropShrinks(s.disk.segs, s.s.u);
    }
  }

  lemma SegsAfter(c: Config, s: Sys, e: Event)
    requires Enabled(c, s, e) && !e.RenameTmp?
    ensures var segs := Next(c, s, e).disk.segs;
      || segs == s.disk.segs
      || (e.RemoveOldest? && segs == Drop(s.disk.segs, s.w.oldest))
      || (e.RemoveShipped? && segs == Drop(s.disk.segs, s.s.u))
  {
  }

  lemma {:induction false} DropShrinks(segs: seq<Entry>, u: nat)
    ensures SegBytes(Drop(segs, u)) <= SegBytes(segs)
  {
    if segs != [] {
      SegBytesTail(segs);
      if segs[0].ulid != u {
        DropShrinks(segs[1..], u);
        SegBytesTail(Drop(segs, u));
      }
    }
  }

  /** No needless eviction, even in a race: at the instant a segment is evicted it is the oldest on disk, and
      what is on disk exceeds the cap. */
  lemma {:induction false} EvictsOnlyOverCap(c: Config, es: seq<Event>)
    requires Legal(c, es) && Enabled(c, Play(c, es), RemoveOldest)
    requires var s := Play(c, es); Next(c, s, RemoveOldest).disk != s.disk
    ensures var s := Play(c, es);
      && SegBytes(s.disk.segs) > c.maxBytes
      && s.disk.segs != [] && s.w.oldest == s.disk.segs[0].ulid
      && Next(c, s, RemoveOldest).disk.segs == s.disk.segs[1..]
  {
    Reachable(c, es);
    var s := Play(c, es);
    var a: nat :| Candidate(c.maxBytes, a, s.w.oldest, s.h.published, |s.h.removed|);
    DropHead(s.disk.segs, s.h.published, s.h.dups, s.h.minted, s.h.removed, a);
    assert s.h.published[a..][1..] == s.h.published[a + 1..];
  }

  // ---- Published segments ----

  /** History only grows. */
  lemma {:induction false} PublishedGrows(c: Config, es: seq<Event>, n: nat)
    requires Legal(c, es) && n <= |es|
    ensures Legal(c, es[..n])
    ensures Play(c, es[..n]).h.published <= Play(c, es).h.published
    ensures Play(c, es[..n]).h.appended <= Play(c, es).h.appended
    decreases |es|
  {
    if n == |es| {
      assert es[..n] == es;
    } else {
      var m := |es| - 1;
      PublishedGrows(c, es[..m], n);
      assert es[..m][..n] == es[..n];
      HistoryStep(c, Play(c, es[..m]), es[m]);
    }
  }

  lemma HistoryStep(c: Config, s: Sys, e: Event)
    requires Enabled(c, s, e)
    ensures s.h.published <= Next(c, s, e).h.published
    ensures s.h.appended <= Next(c, s, e).h.appended
  {
  }

  /** At every moment, each name a listing returns holds a whole, non-empty batch: exactly the active file as
      it was when that segment was renamed into place, unchanged since. */
  lemma {:induction false} PublishComplete(c: Config, es: seq<Event>, i: nat)
    requires Legal(c, es) && i < |Play(c, es).disk.segs|
    ensures var e := Play(c, es).disk.segs[i];
      && e.file.whole && e.file.lines != []
      && exists n :: 0 <= n < |es| && es[n] == RenameTmp && Legal(c, es[..n]) && e.file.lines == Play(c, es[..n]).disk.active
  {
    ListedWasPublished(c, es, i);
    var n := ListedWhen(c, es, i);
  }

  lemma {:induction false} ListedWhen(c: Config, es: seq<Event>, i: nat) returns (n: nat)
    requires Legal(c, es) && i < |Play(c, es).disk.segs|
    ensures n < |es| && es[n] == RenameTmp && Legal(c, es[..n])
    ensures Play(c, es).disk.segs[i].file.lines == Play(c, es[..n]).disk.active
  {
    ListedWasPublished(c, es, i);
    n := PublishedWhen(c, es, |Play(c, es).h.removed| + i);
  }

  lemma QueueOf(c: Config, es: seq<Event>)
    requires Legal(c, es)
    ensures var s := Play(c, es); Catalog(s.h.published, s.h.dups, s.h.minted) && Fifo(s.disk.segs, s.h.published, s.h.removed)
  {
    Reachable(c, es);
  }

  lemma ListedWasPublished(c: Config, es: seq<Event>, i: nat)
    requires Legal(c, es) && i < |Play(c, es).disk.segs|
    ensures var s := Play(c, es);
      && |s.h.removed| + i < |s.h.published| && s.disk.segs[i] == s.h.published[|s.h.removed| + i]
      && s.disk.segs[i].file.whole && s.disk.segs[i].file.lines != []
  {
    QueueOf(c, es);
  }

  lemma {:induction false} PublishedWhen(c: Config, es: seq<Event>, i: nat) returns (n: nat)
    requires Legal(c, es) && i < |Play(c, es).h.published|
    ensures n < |es| && es[n] == RenameTmp && Legal(c, es[..n])
    ensures Play(c, es).h.published[i].file.lines == Play(c, es[..n]).disk.active
    decreases |es|
  {
    var m := |es| - 1;
    var s := Play(c, es[..m]);
    HistoryStep(c, s, es[m]);
    if i < |s.h.published| {
      n := PublishedWhen(c, es[..m], i);
      assert es[..m][..n] == es[..n];
    } else {
      n := m;
      PublishStep(c, es[..m], es[m], i);
    }
  }

  lemma PublishStep(c: Config, es: seq<Event>, e: Event, i: nat)
    requires Legal(c, es) && Enabled(c, Play(c, es), e)
    requires |Play(c, es).h.published| <= i < |Next(c, Play(c, es), e).h.published|
    ensures e == RenameTmp && Next(c, Play(c, es), e).h.published[i].file.lines == Play(c, es).disk.active
  {
    OnlyRenamePublishes(c, Play(c, es), e);
    RenamesActive(c, es);
  }

  lemma OnlyRenamePublishes(c: Config, s: Sys, e: Event)
    requires Enabled(c, s, e)
    ensures !e.RenameTmp? ==> Next(c, s, e).h.published == s.h.published
  {
  }

  lemma RenamesActive(c: Config, es: seq<Event>)
    requires Legal(c, es) && Enabled(c, Play(c, es), RenameTmp)
    ensures var s := Play(c, es); s.disk.tmps[s.w.u].lines == s.disk.active
  {
    Reachable(c, es);
  }

  /** A rotation never blocks: the temporary it renames is there, and a listing it checks is not empty. */
  lemma {:induction false} RotationProceeds(c: Config, es: seq<Event>)
    requires Legal(c, es) && Rotating(Play(c, es).w)
    ensures Enabled(c, Play(c, es), NextCall(Play(c, es)))
  {
    Reachable(c, es);
  }

  /** The call a rotation makes next. */
  ghost function NextCall(s: Sys): (e: Event)
    requires Rotating(s.w)
    ensures WriterEvent(e) && !e.WriteCall? && !e.CloseCall?
  {
    match s.w
    case WRead(_) => ReadActive
    case WCreate(_, _) => CreateTmp(s.h.minted)
    case WEncode(_, _, _) => EncodeTmp(0)
    case WRename(_, _) => RenameTmp
    case WTruncate(_) => TruncateActive
    case WList(_) => ListSegments
    case WStat(listed, i, _, _) => if i < |listed| then StatSegment else CheckTotal
    case WEvict(_, _) => RemoveOldest
    case WWarn(_, _) => AppendWarning("")
  }

  /** A shipper that comes back to a segment evicted meanwhile moves on at its next attempt. */
  lemma {:induction false} EvictedMovesOn(c: Config, es: seq<Event>)
    requires Legal(c, es) && Play(c, es).s.SRead? && EvictedBefore(Play(c, es).h.removed, Play(c, es).s.u)
    ensures var s := Play(c, es); Next(c, s, ReadSegment).s == NextSegment(s.s.todo)
  {
    EvictedIsGone(c, es, Play(c, es).s.u);
  }

  lemma EvictedIsGone(c: Config, es: seq<Event>, u: nat)
    requires Legal(c, es) && EvictedBefore(Play(c, es).h.removed, u)
    ensures !Has(Play(c, es).disk.segs, u)
  {
    Reachable(c, es);
    var s := Play(c, es);
    var i :| 0 <= i < |s.h.removed| && s.h.removed[i].Evicted? && s.h.removed[i].ulid == u;
    PresentIff(s.disk.segs, s.h.published, s.h.dups, s.h.minted, s.h.removed, i);
  }

  // ---- Crashes ----

  ghost predicate Recovering(es: seq<Event>) {
    forall i | 0 <= i < |es| :: es[i].Crash? || es[i].OpenGlob? || es[i].OpenRemove?
  }

  /** A crash at any step, followed by however many attempts to open the spool, loses nothing of the active
      file or of any segment on disk, and once `Open` returns no temporary is left and the size is right. */
  lemma {:induction false} Recovery(c: Config, es: seq<Event>, opening: seq<Event>)
    requires Legal(c, es) && Recovering(opening)
    requires Legal(c, es + [Crash] + opening + [OpenActive])
    ensures var s, t := Play(c, es), Play(c, es + [Crash] + opening + [OpenActive]);
      && t.disk == Disk(s.disk.active, map[], s.disk.segs)
      && t.w.WIdle? && t.asize == Size(s.disk.active)
      && t.h.appended == s.h.appended && t.h.published == s.h.published
      && t.h.lost == s.h.lost + (set u | u in Pending(s.w))
  {
    var run := es + [Crash] + opening + [OpenActive];
    var n := |run| - 1;
    assert run[..n] == es + [Crash] + opening && run[n] == OpenActive;
    OpenLeavesNoTmp(c, run[..n]);
    RecoveryKeeps(c, es, opening);
  }

  lemma OpenLeavesNoTmp(c: Config, es: seq<Event>)
    requires Legal(c, es) && Enabled(c, Play(c, es), OpenActive)
    ensures Play(c, es).disk.tmps == map[]
  {
    Reachable(c, es);
  }

  lemma {:induction false} RecoveryKeeps(c: Config, es: seq<Event>, opening: seq<Event>)
    requires Legal(c, es) && Recovering(opening) && Legal(c, es + [Crash] + opening)
    ensures var s, t := Play(c, es), Play(c, es + [Crash] + opening);
      && t.disk.active == s.disk.active && t.disk.segs == s.disk.segs
      && t.h.appended == s.h.appended && t.h.published == s.h.published
      && t.h.lost == s.h.lost + (set u | u in Pending(s.w))
      && !Up(t.w)
    decreases |opening|
  {
    var run := es + [Crash] + opening;
    var n := |run| - 1;
    if opening == [] {
      assert run[..n] == es && run[n] == Crash;
    } else {
      var m := |opening| - 1;
      assert run[..n] == es + [Crash] + opening[..m] && run[n] == opening[m];
      RecoveryKeeps(c, es, opening[..m]);
      RecoveryStep(c, Play(c, run[..n]), run[n]);
    }
  }

  lemma RecoveryStep(c: Config, s: Sys, e: Event)
    requires Enabled(c, s, e) && !Up(s.w) && (e.Crash? || e.OpenGlob? || e.OpenRemove?)
    ensures var t := Next(c, s, e);
      && t.disk.active == s.disk.active && t.disk.segs == s.disk.segs && !Up(t.w)
      && t.h.appended == s.h.appended && t.h.published == s.h.published && t.h.lost == s.h.lost
  {
  }

  /** How many published segments begin with lines that were already published. */
  ghost function Repeated(dups: seq<nat>): nat {
    if dups == [] then 0
    else Repeated(dups[..|dups| - 1]) + (if dups[|dups| - 1] > 0 then 1 else 0)
  }

  ghost predicate RepeatsBounded(s: Sys) {
    Repeated(s.h.dups) + (if s.h.redo > 0 && !s.w.WTruncate? then 1 else 0) <= s.h.crashes
  }

  lemma RepeatsStep(c: Config, s: Sys, e: Event)
    requires Enabled(c, s, e) && RepeatsBounded(s) && (s.phase.Exited? ==> s.w.WClosed?)
    ensures RepeatsBounded(Next(c, s, e))
  {
    if e.RenameTmp? {
      assert (s.h.dups + [s.h.redo])[..|s.h.dups|] == s.h.dups;
    }
  }

  lemma ExitedIsClosed(c: Config, es: seq<Event>)
    requires Legal(c, es) && Play(c, es).phase.Exited?
    ensures Play(c, es).w.WClosed?
  {
    Reachable(c, es);
  }

  /** What crashes cost: each makes at most one eviction go unreported and at most one segment begin with
      lines already published, and those lines are the whole batch of the segment before it, the one whose
      truncation the crash prevented. */
  lemma {:induction false} CrashCosts(c: Config, es: seq<Event>)
    requires Legal(c, es)
    ensures var h := Play(c, es).h;
      && RepeatsBounded(Play(c, es))
      && |h.lost| <= h.crashes
      && |h.dups| == |h.published|
      && (forall i | 0 <= i < |h.published| && h.dups[i] > 0 ::
            i > 0 && h.dups[i] <= |h.published[i].file.lines|
            && h.published[i].file.lines[..h.dups[i]] == h.published[i - 1].file.lines)
    decreases |es|
  {
    Reachable(c, es);
    var h := Play(c, es).h;
    if es != [] {
      var n := |es| - 1;
      CrashCosts(c, es[..n]);
      if Play(c, es[..n]).phase.Exited? {
        ExitedIsClosed(c, es[..n]);
      }
      RepeatsStep(c, Play(c, es[..n]), es[n]);
    }
    forall i | 0 <= i < |h.published| && h.dups[i] > 0
      ensures i > 0 && h.dups[i] <= |h.published[i].file.lines|
              && h.published[i].file.lines[..h.dups[i]] == h.published[i - 1].file.lines
    {
      assert Repeats(h.published, h.dups[i], i);
    }
  }

  // ---- Bundle mode ----

  lemma NoShipperStep(c: Config, s: Sys, e: Event)
    requires Enabled(c, s, e) && !c.push && s.s.SOut? && s.h.answers == []
    ensures Next(c, s, e).s.SOut? && Next(c, s, e).h.answers == []
  {
  }

  /** Without push there is never a shipper, */
  lemma {:induction false} NoShipper(c: Config, es: seq<Event>)
    requires Legal(c, es) && !c.push
    ensures Play(c, es).s.SOut? && Play(c, es).h.answers == []
    decreases |es|
  {
    if es != [] {
      var n := |es| - 1;
      NoShipper(c, es[..n]);
      NoShipperStep(c, Play(c, es[..n]), es[n]);
    }
  }

  /** and only the cap removes segments. */
  lemma {:induction false} BundleEvicts(c: Config, es: seq<Event>)
    requires Legal(c, es) && !c.push
    ensures var h := Play(c, es).h; forall i | 0 <= i < |h.removed| :: h.removed[i].Evicted?
  {
    NoShipper(c, es);
    RemovalsOf(c, es);
    var h := Play(c, es).h;
    forall i | 0 <= i < |h.removed| ensures h.removed[i].Evicted? {
      assert RemovalOk(c.maxBytes, h.removed[i], i, h.published, h.answers);
    }
  }

  lemma RemovalsOf(c: Config, es: seq<Event>)
    requires Legal(c, es)
    ensures var h := Play(c, es).h; Removals(c.maxBytes, h.published, h.removed, h.answers)
  {
    Reachable(c, es);
  }

  // ---- Shutdown ----

  /** When the process has ended cleanly, the active file holds nothing but eviction warnings. If the final
      drain completed, no segment is left, so every segment ever published was answered, or evicted with a
      warning (or an earlier crash lost it). If it did not, every other line is in a whole segment on disk. */
  lemma {:induction false} CleanExit(c: Config, es: seq<Event>)
    requires Legal(c, es) && Play(c, es).phase.Exited?
    ensures var s := Play(c, es);
      && AllWarnings(s.disk.active)
      && Pending(s.w) == []
      && (s.phase.exit.Drained? ==> s.disk.segs == [])
      && (forall k | 0 <= k < |s.disk.segs| :: s.disk.segs[k].file.whole)
      && (forall i | 0 <= i < |s.h.published| ::
            Accounted(s, i) && (s.phase.exit.Drained? ==> s.h.published[i] !in s.disk.segs))
  {
    Reachable(c, es);
    var s := Play(c, es);
    forall i | 0 <= i < |s.h.published| ensures Accounted(s, i) {
      AccountedFor(c, s, i);
    }
  }

  /** The writer's idea of the active file's size is its size, whenever the process is up. */
  lemma {:induction false} ActiveSizeExact(c: Config, es: seq<Event>)
    requires Legal(c, es) && Up(Play(c, es).w)
    ensures Play(c, es).asize == Size(Play(c, es).disk.active)
  {
    Reachable(c, es);
  }
}
