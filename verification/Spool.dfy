/** The spool (`internal/spool/spool.go`) as an object. Its methods make the source's system calls in the
    source's order; between any two of them the shipper may take any number of steps. Every method keeps
    `Directory.Valid`, so whatever it does is a run of the protocol and all its theorems apply. */
module Spooling {
  import opened Storage
  import opened Protocol
  import opened Invariant
  import opened Preservation
  import opened Theorems
  import opened SpoolDirectory

  const SECOND := 1_000_000_000
  const DEFAULT_ROTATE_BYTES := 8 * 1024 * 1024
  const DEFAULT_ROTATE_AGE := 60 * SECOND
  const DEFAULT_MAX_BYTES := 2 * 1024 * 1024 * 1024

  /** Zero or negative options fall back to the defaults. */
  function OrDefault(n: int, default: int): (r: int)
    requires default > 0
    ensures n > 0 ==> r == n
    ensures n <= 0 ==> r == default
  {
    if n <= 0 then default else n
  }

  class Spool {
    const dir: Directory
    const rotateBytes: int
    const rotateAge: int
    const maxBytes: int
    var activeSize: int
    var activeStart: int

    ghost predicate Valid()
      reads this, dir
    {
      && dir.Valid()
      && Up(dir.sys.w)
      && activeSize == dir.sys.asize
      && rotateBytes == dir.c.rotateBytes > 0 && maxBytes == dir.c.maxBytes > 0
    }

    /** Opening the spool of a directory, however the previous process ended: abandoned temporaries go, and
        the active file and the segments are taken over as they are. Positive options are taken as given; the
        defaults are 8 MiB, 60 s and 2 GiB. An empty active file starts now, another one at its `mtime`. */
    constructor Open(dir: Directory, rotateBytes: int, rotateAge: int, maxBytes: int, mtime: int)
      requires dir.Valid() && dir.sys.w.WDown?
      requires dir.c.rotateBytes == if rotateBytes <= 0 then 8_388_608 else rotateBytes
      requires dir.c.maxBytes == if maxBytes <= 0 then 2_147_483_648 else maxBytes
      modifies dir
      ensures Valid() && this.dir == dir && dir.sys.w.WIdle?
      ensures this.rotateBytes == if rotateBytes > 0 then rotateBytes else 8_388_608
      ensures this.rotateAge == if rotateAge > 0 then rotateAge else 60_000_000_000
      ensures this.maxBytes == if maxBytes > 0 then maxBytes else 2_147_483_648
      ensures dir.disk == Disk(old(dir.disk.active), map[], old(dir.disk.segs))
      ensures dir.sys.h == old(dir.sys.h)
      ensures activeSize == Size(dir.disk.active)
      ensures old(dir.clock) <= dir.clock
      ensures activeStart == if old(dir.disk.active) == [] then dir.clock else mtime
    {
      this.dir := dir;
      this.rotateBytes := OrDefault(rotateBytes, DEFAULT_ROTATE_BYTES);
      this.rotateAge := OrDefault(rotateAge, DEFAULT_ROTATE_AGE);
      this.maxBytes := OrDefault(maxBytes, DEFAULT_MAX_BYTES);
      activeSize, activeStart := 0, 0;
      new;
      RemoveTmps(dir);
      activeSize := Size(dir.disk.active);
      activeStart := dir.Now();
      SizePositive(dir.disk.active);
      if activeSize > 0 {
        activeStart := mtime;
      }
      dir.Commit(OpenActive);
    }

    /** Removes every temporary an earlier process left. */
    static method RemoveTmps(dir: Directory)
      requires dir.Valid() && dir.sys.w.WDown?
      modifies dir`disk, dir`sys, dir`trace
      ensures dir.Valid() && dir.sys.w == WOpening({})
      ensures dir.disk == old(dir.disk).(tmps := map[]) && dir.sys.h == old(dir.sys.h)
    {
      var tmps := dir.disk.tmps.Keys;
      dir.Commit(OpenGlob);
      while tmps != {}
        invariant dir.Valid() && dir.sys.w == WOpening(tmps)
        invariant dir.disk.tmps.Keys <= tmps
        invariant dir.disk == old(dir.disk).(tmps := dir.disk.tmps)
        invariant dir.sys.h == old(dir.sys.h)
        decreases |tmps|
      {
        var p :| p in tmps;
        dir.disk := dir.disk.(tmps := dir.disk.tmps - {p});
        dir.Commit(OpenRemove(p));
        tmps := tmps - {p};
      }
    }

    /** The names of the published segments, oldest first. */
    method Segments() returns (segs: seq<nat>)
      requires Valid()
      ensures segs == Names(dir.disk.segs)
      ensures forall i, j | 0 <= i < j < |segs| :: segs[i] < segs[j]
    {
      dir.Queue();
      segs := Names(dir.disk.segs);
    }

    /** Appends `e` to the active file, first rotating a file that has grown too old, then, after the append,
        rotating one that has grown too large, and only then. Whatever the shipper does meanwhile, the log gains
        exactly this line and eviction warnings; the active file ends up below the rotation size or holding
        nothing but warnings; and if anything was published, what is on disk is within the cap. Without a
        shipper, the cap keeps exactly the longest run of latest segments that fits. */
    method Write(e: Line)
      requires Valid() && dir.sys.w.WIdle? && dir.sys.phase.Running? && e.Envelope?
      modifies this`activeSize, this`activeStart, dir
      ensures Valid() && dir.sys.w.WIdle? && dir.sys.phase.Running? && old(dir.trace) <= dir.trace
      ensures exists before, after ::
        && Logged(old(dir.sys.h.appended), before, e, after, dir.sys.h.appended)
        && (!dir.c.push ==> WriteKept(old(dir.sys), before, after, dir.sys, maxBytes))
      ensures Size(dir.disk.active) < rotateBytes || AllWarnings(dir.disk.active)
      ensures old(activeSize) > 0 && old(dir.clock) - old(activeStart) >= rotateAge ==>
                |dir.sys.h.published| > |old(dir.sys.h.published)|
                && dir.sys.h.published[|old(dir.sys.h.published)|].file.lines == old(dir.disk.active)
      ensures old(activeSize) + Bytes(e) >= rotateBytes ==> dir.sys.h.published != old(dir.sys.h.published)
      ensures old(activeSize) + Bytes(e) >= rotateBytes
              && (old(activeSize) == 0 || dir.clock - old(activeStart) < rotateAge) ==>
                |dir.sys.h.published| == |old(dir.sys.h.published)| + 1
                && dir.sys.h.published[|old(dir.sys.h.published)|].file.lines == old(dir.disk.active) + [e]
      ensures old(activeSize) + Bytes(e) < rotateBytes
              && (old(activeSize) == 0 || dir.clock - old(activeStart) < rotateAge) ==>
                dir.sys.h.published == old(dir.sys.h.published) && activeStart == old(activeStart)
      ensures old(dir.sys.h.published) <= dir.sys.h.published
      ensures dir.sys.h.published != old(dir.sys.h.published) ==> SegBytes(dir.disk.segs) <= maxBytes
    {
      ghost var s := dir.sys;
      ghost var before := RotateIfAged(e);
      ghost var t := dir.sys;
      AppendEnvelope(e);
      if activeSize >= rotateBytes {
        ghost var u := dir.sys;
        Rotate(Return);
        assert Logged(s.h.appended, before, e, dir.disk.active, dir.sys.h.appended);
        if !dir.c.push {
          KeptAfter(s, before, t, u, dir.disk.active, dir.sys, maxBytes);
        }
      } else {
        dir.ActiveSize();
        assert Logged(s.h.appended, before, e, [], dir.sys.h.appended);
        assert WarnedOf(before) + WarnedOf([]) == WarnedOf(before);
      }
    }

    /** The start of `Write`: a file that is not empty and too old is rotated first. */
    method RotateIfAged(e: Line) returns (ghost before: seq<Line>)
      requires Valid() && dir.sys.w.WIdle? && dir.sys.phase.Running? && e.Envelope?
      modifies this`activeSize, this`activeStart, dir
      ensures Valid() && dir.sys.w == WWrite(e) && dir.sys.phase.Running? && old(dir.trace) <= dir.trace
      ensures dir.sys.h.appended == old(dir.sys.h.appended) + before && AllWarnings(before)
      ensures old(dir.sys.h.published) <= dir.sys.h.published
      ensures old(activeSize) > 0 && old(dir.clock) - old(activeStart) >= rotateAge ==>
                dir.sys.h.published != old(dir.sys.h.published)
      ensures old(activeSize) == 0 || dir.clock - old(activeStart) < rotateAge ==>
                dir.sys.h.published == old(dir.sys.h.published)
      ensures if dir.sys.h.published == old(dir.sys.h.published)
              then activeStart == old(activeStart) && activeSize == old(activeSize) && dir.disk.active == old(dir.disk.active)
              else activeStart >= old(dir.clock)
                   && |dir.sys.h.published| == |old(dir.sys.h.published)| + 1
                   && dir.sys.h.published[|old(dir.sys.h.published)|].file.lines == old(dir.disk.active)
      ensures old(dir.clock) <= dir.clock
      ensures dir.sys.h.published != old(dir.sys.h.published) ==> SegBytes(dir.disk.segs) <= maxBytes
      ensures !dir.c.push ==> WriteKept(old(dir.sys), before, [], dir.sys, maxBytes)
    {
      var now := dir.Now();
      var aged := activeSize > 0 && now - activeStart >= rotateAge;
      dir.Commit(WriteCall(e, aged));
      before := [];
      if aged {
        Rotate(Append(e));
        before := dir.disk.active;
        assert WarnedOf(before) + WarnedOf([]) == WarnedOf(before);
      }
    }

    method AppendEnvelope(e: Line)
      requires Valid() && dir.sys.w == WWrite(e)
      modifies this`activeSize, dir`disk, dir`sys, dir`trace
      ensures Valid() && old(dir.trace) <= dir.trace && dir.sys.phase == old(dir.sys.phase)
      ensures dir.sys.w == if activeSize >= rotateBytes then WRead(Return) else WIdle
      ensures dir.sys.h.appended == old(dir.sys.h.appended) + [e]
      ensures dir.sys.h.published == old(dir.sys.h.published)
      ensures activeSize == old(activeSize) + Bytes(e) && dir.disk.active == old(dir.disk.active) + [e]
      ensures SegBytes(dir.disk.segs) <= SegBytes(old(dir.disk.segs))
      ensures Alone(dir.c, dir.sys.phase) ==>
        dir.sys.h.removed == old(dir.sys.h.removed) && dir.disk.segs == old(dir.disk.segs)
    {
      dir.WriterYields();
      AppendActive(e);
      dir.Commit(AppendLine);
    }

    /** Rotates what is left and closes the spool. No goroutine runs any more, so this is exact: the rest of
        the active file becomes the last segment; the cap keeps the longest run of latest segments that fits,
        even when that evicts the segment just published; and the active file is left with one warning for
        each segment evicted, oldest first. */
    method Close()
      requires Valid() && dir.sys.w.WIdle? && dir.sys.phase.Joined?
      modifies this`activeSize, this`activeStart, dir
      ensures Valid() && dir.sys.w.WClosed? && dir.sys.phase.Joined? && old(dir.trace) <= dir.trace
      ensures old(dir.disk.active) == [] ==> dir.disk == old(dir.disk) && dir.sys.h == old(dir.sys.h)
      ensures old(dir.disk.active) != [] ==> Closed(old(dir.sys), dir.sys, maxBytes)
    {
      dir.ActiveSize();
      dir.Commit(CloseCall);
      if activeSize > 0 {
        ghost var s := dir.sys;
        Rotate(Shut);
        ClosedBy(dir.c, old(dir.sys), s, dir.sys, maxBytes);
      }
    }

    /** Turns the active file into a published segment, starts a new one, and enforces the cap. */
    method Rotate(ghost k: After)
      requires Valid() && dir.sys.w == WRead(k)
      modifies this`activeSize, this`activeStart, dir
      ensures Valid() && dir.sys.w == Resume(k) && old(dir.trace) <= dir.trace
      ensures SegBytes(dir.disk.segs) <= maxBytes
      ensures old(dir.clock) <= activeStart == dir.clock
      ensures Rotated(dir.c, old(dir.sys), dir.sys)
      ensures Alone(dir.c, dir.sys.phase) ==>
        Kept(|old(dir.sys.h.removed)|, WarnedOf(dir.disk.active), dir.sys, maxBytes)
    {
      ghost var s := dir.sys;
      Publish(k);
      ghost var t := dir.sys;
      Truncate(k);
      ghost var u := dir.sys;
      EnforceCap(k);
      RotatedSteps(dir.c, s, t, u, dir.sys);
    }

    /** Starts a new, empty active file. */
    method Truncate(ghost k: After)
      requires Valid() && dir.sys.w == WTruncate(k)
      modifies this`activeSize, this`activeStart, dir
      ensures Valid() && dir.sys.w == WList(k) && old(dir.trace) <= dir.trace
      ensures old(dir.clock) <= activeStart == dir.clock
      ensures Truncated(dir.c, old(dir.sys), dir.sys)
    {
      dir.WriterYields();
      dir.disk := dir.disk.(active := []);
      activeSize := 0;
      activeStart := dir.Now();
      dir.Commit(TruncateActive);
    }

    /** Appends one line to the active file. */
    method AppendActive(line: Line)
      modifies this`activeSize, dir`disk
      ensures activeSize == old(activeSize) + Bytes(line)
      ensures dir.disk == old(dir.disk).(active := old(dir.disk.active) + [line])
    {
      dir.disk := dir.disk.(active := dir.disk.active + [line]);
      activeSize := activeSize + Bytes(line);
    }

    /** Compresses the active file under a temporary name, then renames it into place. */
    method Publish(ghost k: After)
      requires Valid() && dir.sys.w == WRead(k)
      modifies dir`disk, dir`sys, dir`trace, dir`minted
      ensures Valid() && dir.sys.w == WTruncate(k) && old(dir.trace) <= dir.trace
      ensures Published(dir.c, old(dir.sys), dir.sys)
    {
      ghost var s := dir.sys;
      var raw := ReadActive(k);
      ghost var s1 := dir.sys;
      var u := CreateTmp(raw, k);
      ghost var s2 := dir.sys;
      WriteTmp(u, raw, k);
      ApartTrans(dir.c, s, s1, s2);
      ApartTrans(dir.c, s, s2, dir.sys);
      ghost var s3 := dir.sys;
      RenameTmp(u, raw, k);
      PublishedApart(dir.c, s, s3, dir.sys);
    }

    method ReadActive(ghost k: After) returns (raw: seq<Line>)
      requires Valid() && dir.sys.w == WRead(k)
      modifies dir`disk, dir`sys, dir`trace, dir`minted
      ensures Valid() && old(dir.trace) <= dir.trace && Apart(dir.c, old(dir.sys), dir.sys)
      ensures raw == dir.disk.active && dir.sys.w == WCreate(raw, k)
    {
      dir.WriterYields();
      raw := dir.disk.active;
      dir.Commit(Event.ReadActive);
    }

    method CreateTmp(ghost raw: seq<Line>, ghost k: After) returns (u: nat)
      requires Valid() && dir.sys.w == WCreate(raw, k)
      modifies dir`disk, dir`sys, dir`trace, dir`minted
      ensures Valid() && old(dir.trace) <= dir.trace && Apart(dir.c, old(dir.sys), dir.sys)
      ensures dir.sys.w == WEncode(u, raw, k)
    {
      dir.WriterYields();
      u := dir.NewUlid();
      dir.disk := dir.disk.(tmps := dir.disk.tmps[u := File([], 0, false)]);
      dir.Commit(Event.CreateTmp(u));
    }

    method WriteTmp(u: nat, raw: seq<Line>, ghost k: After)
      requires Valid() && dir.sys.w == WEncode(u, raw, k)
      modifies dir`disk, dir`sys, dir`trace, dir`minted
      ensures Valid() && old(dir.trace) <= dir.trace && Apart(dir.c, old(dir.sys), dir.sys)
      ensures dir.sys.w == WRename(u, k) && u in dir.disk.tmps
      ensures dir.disk.tmps[u] == File(raw, dir.disk.tmps[u].size, true)
    {
      dir.WriterYields();
      var size := Compressed();
      dir.disk := dir.disk.(tmps := dir.disk.tmps[u := File(raw, size, true)]);
      dir.Commit(EncodeTmp(size));
    }

    method RenameTmp(u: nat, ghost raw: seq<Line>, ghost k: After)
      requires Valid() && dir.sys.w == WRename(u, k) && u in dir.disk.tmps
      requires dir.disk.tmps[u] == File(raw, dir.disk.tmps[u].size, true) && raw == dir.disk.active
      modifies dir`disk, dir`sys, dir`trace, dir`minted
      ensures Valid() && old(dir.trace) <= dir.trace && dir.sys.w == WTruncate(k)
      ensures Published(dir.c, old(dir.sys), dir.sys)
    {
      dir.WriterYields();
      var f := dir.disk.tmps[u];
      dir.disk := dir.disk.(tmps := dir.disk.tmps - {u}, segs := Insert(dir.disk.segs, u, f));
      dir.Commit(Event.RenameTmp);
      assert dir.sys.h.published == old(dir.sys.h.published) + [Entry(u, f)];
    }

    /** The size zstd makes of a batch: any. */
    method Compressed() returns (size: nat) {
      var n: int := *;
      size := if n > 0 then n else 0;
    }

    /** Drops the oldest segments, with a warning for each, until what is on disk is within the cap. Each round
        but the last leaves one segment fewer, whoever removed it. */
    method EnforceCap(ghost k: After)
      requires Valid() && dir.sys.w == WList(k) && dir.disk.active == []
      modifies this`activeSize, dir`disk, dir`sys, dir`trace
      ensures Valid() && dir.sys.w == Resume(k) && old(dir.trace) <= dir.trace
      ensures SegBytes(dir.disk.segs) <= maxBytes
      ensures Capped(dir.c, old(dir.sys), dir.sys)
      ensures Alone(dir.c, dir.sys.phase) ==>
        Kept(|old(dir.sys.h.removed)|, WarnedOf(dir.disk.active), dir.sys, maxBytes)
    {
      ghost var s := dir.sys;
      assert s.h.removed[|s.h.removed|..] == [];
      var over := true;
      while over
        invariant Valid() && old(dir.trace) <= dir.trace && Capped(dir.c, s, dir.sys)
        invariant dir.sys.w == if over then WList(k) else Resume(k)
        invariant !over ==> SegBytes(dir.disk.segs) <= maxBytes
        decreases over, |dir.sys.h.published| - |dir.sys.h.removed|
      {
        ghost var n := |dir.sys.h.removed|;
        over := CapRound(s, k);
        dir.Queue();
      }
      if Alone(dir.c, dir.sys.phase) {
        KeptAlone(s);
      }
    }

    lemma KeptAlone(s: Sys)
      requires Valid() && Capped(dir.c, s, dir.sys) && Alone(dir.c, dir.sys.phase) && SegBytes(dir.disk.segs) <= maxBytes
      ensures Kept(|s.h.removed|, WarnedOf(dir.disk.active), dir.sys, maxBytes)
    {
      dir.Queue();
      dir.RemovalFacts();
      KeptIsLongest(maxBytes, dir.sys.h, |s.h.removed|);
      KeptBy(dir.c, s, dir.sys, maxBytes);
    }

    /** One round of `enforceCap`: whether it goes on. If so, the oldest listed segment is gone. */
    method CapRound(ghost s: Sys, ghost k: After) returns (over: bool)
      requires Valid() && dir.sys.w == WList(k) && Capped(dir.c, s, dir.sys)
      modifies this`activeSize, dir`disk, dir`sys, dir`trace
      ensures Valid() && old(dir.trace) <= dir.trace && Capped(dir.c, s, dir.sys)
      ensures dir.sys.w == if over then WList(k) else Resume(k)
      ensures over ==> |dir.sys.h.removed| > |old(dir.sys.h.removed)|
      ensures !over ==> SegBytes(dir.disk.segs) <= maxBytes
    {
      var segs := List(s, k);
      if segs == [] {
        return false;
      }
      ghost var n := |dir.sys.h.removed|;
      assert segs[0] == dir.sys.h.published[n].ulid by {
        dir.Queue();
      }
      var total := TotalSize(segs, s, k);
      over := Check(segs, total, s, k);
      if over {
        EvictOldest(segs[0], n, s, k);
      }
    }

    method List(ghost s: Sys, ghost k: After) returns (segs: seq<nat>)
      requires Valid() && dir.sys.w == WList(k) && Capped(dir.c, s, dir.sys)
      modifies dir`disk, dir`sys, dir`trace
      ensures Valid() && old(dir.trace) <= dir.trace && Capped(dir.c, s, dir.sys)
      ensures dir.sys.h.published == old(dir.sys.h.published) && old(dir.sys.h.removed) <= dir.sys.h.removed
      ensures segs == Names(dir.disk.segs)
      ensures dir.sys.w == if segs == [] then Resume(k) else WStat(segs, 0, 0, k)
    {
      Yield(s);
      segs := Segments();
      dir.Commit(ListSegments);
    }

    method Check(segs: seq<nat>, total: nat, ghost s: Sys, ghost k: After) returns (over: bool)
      requires Valid() && segs != [] && dir.sys.w == WStat(segs, |segs|, total, k) && Capped(dir.c, s, dir.sys)
      modifies dir`disk, dir`sys, dir`trace
      ensures Valid() && old(dir.trace) <= dir.trace && Capped(dir.c, s, dir.sys)
      ensures dir.sys.h == old(dir.sys.h)
      ensures dir.sys.w == if over then WEvict(segs[0], k) else Resume(k)
      ensures !over ==> SegBytes(dir.disk.segs) <= maxBytes
    {
      dir.CheckBound();
      over := total > maxBytes;
      dir.Commit(CheckTotal);
    }

    /** A point between two system calls of `enforceCap`, which began in `s`. */
    method Yield(ghost s: Sys)
      requires Valid() && !dir.sys.w.WClosed? && Capped(dir.c, s, dir.sys)
      modifies dir`disk, dir`sys, dir`trace
      ensures Valid() && old(dir.trace) <= dir.trace && ShipperOnly(dir.c, old(dir.sys), dir.sys)
      ensures Capped(dir.c, s, dir.sys)
    {
      dir.WriterYields();
      CapRecordYield(dir.c, old(dir.sys), dir.sys, s.h.removed, WarnedOf(dir.disk.active));
    }

    /** Stats every listed segment; one that has vanished counts nothing. */
    method TotalSize(segs: seq<nat>, ghost s: Sys, ghost k: After) returns (total: nat)
      requires Valid() && dir.sys.w == WStat(segs, 0, 0, k) && Capped(dir.c, s, dir.sys)
      modifies dir`disk, dir`sys, dir`trace
      ensures Valid() && old(dir.trace) <= dir.trace && dir.sys.w == WStat(segs, |segs|, total, k)
      ensures Capped(dir.c, s, dir.sys)
      ensures dir.sys.h.published == old(dir.sys.h.published) && old(dir.sys.h.removed) <= dir.sys.h.removed
    {
      total := 0;
      for i := 0 to |segs|
        invariant Valid() && old(dir.trace) <= dir.trace && dir.sys.w == WStat(segs, i, total, k)
        invariant Capped(dir.c, s, dir.sys)
        invariant dir.sys.h.published == old(dir.sys.h.published) && old(dir.sys.h.removed) <= dir.sys.h.removed
      {
        total := Stat(segs, i, total, s, k);
      }
    }

    method Stat(segs: seq<nat>, i: nat, total: nat, ghost s: Sys, ghost k: After) returns (sum: nat)
      requires Valid() && dir.sys.w == WStat(segs, i, total, k) && i < |segs| && Capped(dir.c, s, dir.sys)
      modifies dir`disk, dir`sys, dir`trace
      ensures Valid() && old(dir.trace) <= dir.trace && dir.sys.w == WStat(segs, i + 1, sum, k)
      ensures Capped(dir.c, s, dir.sys)
      ensures dir.sys.h.published == old(dir.sys.h.published) && old(dir.sys.h.removed) <= dir.sys.h.removed
    {
      Yield(s);
      sum := total + (if Has(dir.disk.segs, segs[i]) then Lookup(dir.disk.segs, segs[i]).size else 0);
      dir.Commit(StatSegment);
    }

    /** Removes the oldest listed segment, published as number `n`, and records it, unless the shipper was
        faster. Either way it is gone. */
    method EvictOldest(oldest: nat, ghost n: nat, ghost s: Sys, ghost k: After)
      requires Valid() && dir.sys.w == WEvict(oldest, k) && Capped(dir.c, s, dir.sys)
      requires n < |dir.sys.h.published| && dir.sys.h.published[n].ulid == oldest && n <= |dir.sys.h.removed|
      modifies this`activeSize, dir`disk, dir`sys, dir`trace
      ensures Valid() && old(dir.trace) <= dir.trace && dir.sys.w == WList(k)
      ensures Capped(dir.c, s, dir.sys) && n < |dir.sys.h.removed|
    {
      var removed := RemoveListed(oldest, n, s, k);
      if removed {
        Warn(oldest, s, k);
      }
    }

    /** `os.Remove` of the oldest listed segment: false if it does not exist any more. */
    method RemoveListed(oldest: nat, ghost n: nat, ghost s: Sys, ghost k: After) returns (removed: bool)
      requires Valid() && dir.sys.w == WEvict(oldest, k) && Capped(dir.c, s, dir.sys)
      requires n < |dir.sys.h.published| && dir.sys.h.published[n].ulid == oldest && n <= |dir.sys.h.removed|
      modifies dir`disk, dir`sys, dir`trace
      ensures Valid() && old(dir.trace) <= dir.trace
      ensures dir.sys.w == if removed then WWarn(oldest, k) else WList(k)
      ensures n < |dir.sys.h.removed|
      ensures if removed then Evicting(dir.c, s, dir.sys, oldest) else Capped(dir.c, s, dir.sys)
    {
      Yield(s);
      ghost var t := dir.sys;
      dir.Present(n);
      removed := Has(dir.disk.segs, oldest);
      if removed {
        dir.disk := dir.disk.(segs := Drop(dir.disk.segs, oldest));
      }
      dir.Commit(RemoveOldest);
      if removed {
        CapRecordEvict(dir.c, t, dir.sys, s.h.removed, WarnedOf(dir.disk.active));
      } else {
        assert WarnedOf(dir.disk.active) + [] == WarnedOf(dir.disk.active);
      }
    }

    /** Records an eviction just made. */
    method Warn(oldest: nat, ghost s: Sys, ghost k: After)
      requires Valid() && dir.sys.w == WWarn(oldest, k) && Evicting(dir.c, s, dir.sys, oldest)
      modifies this`activeSize, dir`disk, dir`sys, dir`trace
      ensures Valid() && old(dir.trace) <= dir.trace && dir.sys.w == WList(k)
      ensures Capped(dir.c, s, dir.sys) && old(dir.sys.h.removed) <= dir.sys.h.removed
    {
      YieldEvicting(oldest, s);
      ghost var t := dir.sys;
      var body: string := *;
      AppendActive(Warning(oldest, body));
      dir.Commit(AppendWarning(body));
      WarningRecorded(dir.c, s, t, dir.sys, oldest, body);
    }

    /** A point between an eviction and its warning. */
    method YieldEvicting(oldest: nat, ghost s: Sys)
      requires Valid() && dir.sys.w.WWarn? && Evicting(dir.c, s, dir.sys, oldest)
      modifies dir`disk, dir`sys, dir`trace
      ensures Valid() && old(dir.trace) <= dir.trace && ShipperOnly(dir.c, old(dir.sys), dir.sys)
      ensures Evicting(dir.c, s, dir.sys, oldest)
    {
      dir.WriterYields();
      CapRecordYield(dir.c, old(dir.sys), dir.sys, s.h.removed, WarnedOf(dir.disk.active) + [oldest]);
    }
  }

  // ---- What the methods promise ----

  /** The log gained `e`, between eviction warnings. */
  ghost predicate Logged(prior: seq<Line>, before: seq<Line>, e: Line, after: seq<Line>, appended: seq<Line>) {
    appended == prior + before + [e] + after && AllWarnings(before) && AllWarnings(after)
  }

  /** Nothing the writer relies on differs but its own position and the temporaries. */
  ghost predicate Apart(c: Config, s: Sys, t: Sys) {
    && t == s.(disk := s.disk.(tmps := t.disk.tmps, segs := t.disk.segs), w := t.w, s := t.s,
               h := s.h.(removed := t.h.removed, answers := t.h.answers, cursor := t.h.cursor, minted := t.h.minted))
    && OthersShipped(c, t, s.h.removed)
  }

  /** The active file of `s` has been published whole, as the last segment. */
  ghost predicate Published(c: Config, s: Sys, t: Sys) {
    && t.phase == s.phase && t.asize == s.asize && t.disk.active == s.disk.active && t.h.appended == s.h.appended
    && |t.h.published| == |s.h.published| + 1 && s.h.published <= t.h.published
    && (var x := t.h.published[|s.h.published|]; x.file == File(s.disk.active, x.file.size, true))
    && OthersShipped(c, t, s.h.removed)
  }

  ghost predicate Truncated(c: Config, s: Sys, t: Sys) {
    && t.phase == s.phase && t.disk.active == [] && t.h.appended == s.h.appended && t.h.published == s.h.published
    && OthersShipped(c, t, s.h.removed)
  }

  /** The cap has been enforced since `s`, and the active file is the record of it. */
  ghost predicate Capped(c: Config, s: Sys, t: Sys) {
    && t.phase == s.phase && t.h.published == s.h.published
    && AllWarnings(t.disk.active) && t.h.appended == s.h.appended + t.disk.active
    && CapRecord(c, t, s.h.removed, WarnedOf(t.disk.active))
  }

  /** The same, between the eviction of `oldest` and its warning. */
  ghost predicate Evicting(c: Config, s: Sys, t: Sys, oldest: nat) {
    && t.phase == s.phase && t.h.published == s.h.published
    && AllWarnings(t.disk.active) && t.h.appended == s.h.appended + t.disk.active
    && CapRecord(c, t, s.h.removed, WarnedOf(t.disk.active) + [oldest])
  }

  lemma {:induction false} WarningRecorded(c: Config, s: Sys, t: Sys, u: Sys, oldest: nat, body: string)
    requires Evicting(c, s, t, oldest) && u == AddLine(t, Warning(oldest, body)).(w := u.w)
    ensures Capped(c, s, u)
  {
    var l := Warning(oldest, body);
    WarnedAppend(t.disk.active, l);
    assert (s.h.appended + t.disk.active) + [l] == s.h.appended + (t.disk.active + [l]);
  }

  /** One rotation: the active file of `s` became the last segment, and the new active file holds exactly the
      warnings for the evictions this made necessary. */
  ghost predicate Rotated(c: Config, s: Sys, t: Sys) {
    && t.phase == s.phase
    && |t.h.published| == |s.h.published| + 1 && s.h.published <= t.h.published
    && (var x := t.h.published[|s.h.published|]; x.file == File(s.disk.active, x.file.size, true))
    && AllWarnings(t.disk.active) && t.h.appended == s.h.appended + t.disk.active
    && CapRecord(c, t, s.h.removed, WarnedOf(t.disk.active))
  }

  lemma RotatedSteps(c: Config, s: Sys, t: Sys, u: Sys, v: Sys)
    requires Published(c, s, t) && Truncated(c, t, u) && Capped(c, u, v)
    ensures Rotated(c, s, v)
  {
    assert CapRecord(c, v, s.h.removed, WarnedOf(v.disk.active)) by {
      CapRecordSince(c, t.h.removed, u.h.removed, v, WarnedOf(v.disk.active));
      CapRecordSince(c, s.h.removed, t.h.removed, v, WarnedOf(v.disk.active));
    }
  }

  /** Removals by the shipper before the cap was enforced leave the record as it is. */
  lemma CapRecordSince(c: Config, earlier: seq<Removal>, removed: seq<Removal>, t: Sys, warned: seq<nat>)
    requires CapRecord(c, t, removed, warned)
    requires earlier <= removed && (forall i | |earlier| <= i < |removed| :: removed[i].Shipped?)
    requires Alone(c, t.phase) ==> earlier == removed
    ensures CapRecord(c, t, earlier, warned)
  {
    var n, m := |earlier|, |removed|;
    assert t.h.removed[n..] == removed[n..] + t.h.removed[m..];
    EvictionsConcat(removed[n..], t.h.removed[m..], {});
    NoEvictions(removed[n..], {});
  }

  lemma ApartTrans(c: Config, s: Sys, t: Sys, u: Sys)
    requires Apart(c, s, t) && Apart(c, t, u)
    ensures Apart(c, s, u)
  {
  }

  lemma PublishedApart(c: Config, s: Sys, t: Sys, u: Sys)
    requires Apart(c, s, t) && Published(c, t, u)
    ensures Published(c, s, u)
  {
  }

  /** Since `removed`, only the shipper removed segments, and after the join nobody did. */
  ghost predicate OthersShipped(c: Config, s: Sys, removed: seq<Removal>) {
    && removed <= s.h.removed
    && (forall i | |removed| <= i < |s.h.removed| :: s.h.removed[i].Shipped?)
    && (Alone(c, s.phase) ==> s.h.removed == removed)
  }

  /** The evictions since `removed`, all decided against the segments published by now, are exactly `warned`,
      in order; after the join there was no other removal. */
  ghost predicate CapRecord(c: Config, s: Sys, removed: seq<Removal>, warned: seq<nat>) {
    && removed <= s.h.removed
    && (forall i | |removed| <= i < |s.h.removed| ::
          s.h.removed[i].Evicted? ==> s.h.removed[i].of == |s.h.published|)
    && (Alone(c, s.phase) ==> forall i | |removed| <= i < |s.h.removed| :: s.h.removed[i].Evicted?)
    && warned == Evictions(s.h.removed[|removed|..], {})
  }

  /** What is on disk in `t` is exactly the longest run of the latest published segments that fits; the others
      that `n` earlier removals had left were evicted, and `warned` names them, oldest first. */
  ghost predicate Kept(n: nat, warned: seq<nat>, t: Sys, maxBytes: int) {
    var p, k := t.h.published, |t.h.removed|;
    && n <= k <= |p|
    && t.disk.segs == p[k..]
    && SegBytes(p[k..]) <= maxBytes
    && (forall j | n <= j < k :: SegBytes(p[j..]) > maxBytes)
    && warned == Names(p[n..k])
  }

  /** `t` is `s` with the whole active file published as the last segment, and the cap enforced with no one else
      around. */
  ghost predicate Closed(s: Sys, t: Sys, maxBytes: int) {
    && |t.h.published| == |s.h.published| + 1 && s.h.published <= t.h.published
    && (var x := t.h.published[|s.h.published|]; x.file == File(s.disk.active, x.file.size, true))
    && s.h.removed <= t.h.removed
    && AllWarnings(t.disk.active) && t.h.appended == s.h.appended + t.disk.active
    && Kept(|s.h.removed|, WarnedOf(t.disk.active), t, maxBytes)
  }

  /** A call of `Write` with no one else around: if it published nothing it removed nothing, and otherwise the
      cap keeps the longest run that fits, with one warning for each eviction. */
  ghost predicate WriteKept(s: Sys, before: seq<Line>, after: seq<Line>, t: Sys, maxBytes: int) {
    if t.h.published == s.h.published then
      t.h.removed == s.h.removed && t.disk.segs == s.disk.segs && before == after == []
    else
      Kept(|s.h.removed|, WarnedOf(before) + WarnedOf(after), t, maxBytes)
  }

  // ---- Bookkeeping ----

  lemma KeptBy(c: Config, s: Sys, t: Sys, maxBytes: int)
    requires CapRecord(c, t, s.h.removed, WarnedOf(t.disk.active)) && Alone(c, t.phase)
    requires SegBytes(t.disk.segs) <= maxBytes && Fifo(t.disk.segs, t.h.published, t.h.removed)
    requires forall i | |s.h.removed| <= i < |t.h.removed| :: SegBytes(t.h.published[i..]) > maxBytes
    ensures Kept(|s.h.removed|, WarnedOf(t.disk.active), t, maxBytes)
  {
    var n, k := |s.h.removed|, |t.h.removed|;
    AllEvictions(t.h.removed[n..], t.h.published[n..k]);
  }

  lemma ClosedBy(c: Config, s: Sys, called: Sys, t: Sys, maxBytes: int)
    requires called == s.(w := called.w) && Rotated(c, called, t)
    requires Kept(|s.h.removed|, WarnedOf(t.disk.active), t, maxBytes)
    ensures Closed(s, t, maxBytes)
  {
  }

  /** Two rotations in one call keep what one would. */
  lemma KeptTwice(n: nat, w1: seq<nat>, t: Sys, w2: seq<nat>, u: Sys, maxBytes: int)
    requires Kept(n, w1, t, maxBytes) && Kept(|t.h.removed|, w2, u, maxBytes)
    requires t.h.published <= u.h.published
    ensures Kept(n, w1 + w2, u, maxBytes)
  {
    var p, q, k, l := t.h.published, u.h.published, |t.h.removed|, |u.h.removed|;
    forall j | n <= j < l ensures SegBytes(q[j..]) > maxBytes {
      if j < k {
        LongerIsLarger(p, q, j);
      }
    }
    NamesSplit(p, q, n, k, l);
  }

  lemma LongerIsLarger(p: seq<Entry>, q: seq<Entry>, j: nat)
    requires p <= q && j <= |p|
    ensures SegBytes(q[j..]) >= SegBytes(p[j..])
  {
    SegBytesConcat(p[j..], q[|p|..]);
    assert p[j..] + q[|p|..] == q[j..];
  }

  lemma NamesSplit(p: seq<Entry>, q: seq<Entry>, n: nat, k: nat, l: nat)
    requires p <= q && n <= k <= |p| && k <= l <= |q|
    ensures Names(q[n..l]) == Names(p[n..k]) + Names(q[k..l])
  {
  }

  /** The rotation at the end of `Write`, after one at its start or none. */
  lemma KeptAfter(s: Sys, before: seq<Line>, t: Sys, u: Sys, after: seq<Line>, v: Sys, maxBytes: int)
    requires WriteKept(s, before, [], t, maxBytes)
    requires t.h.removed == u.h.removed && t.h.published == u.h.published
    requires Kept(|u.h.removed|, WarnedOf(after), v, maxBytes)
    requires s.h.published <= t.h.published && |v.h.published| == |u.h.published| + 1 && u.h.published <= v.h.published
    ensures WriteKept(s, before, after, v, maxBytes)
  {
    if t.h.published == s.h.published {
      assert WarnedOf([]) + WarnedOf(after) == WarnedOf(after);
    } else {
      assert WarnedOf(before) + WarnedOf([]) == WarnedOf(before);
      KeptTwice(|s.h.removed|, WarnedOf(before), t, WarnedOf(after), v, maxBytes);
    }
  }

  lemma {:induction false} SegBytesConcat(a: seq<Entry>, b: seq<Entry>)
    ensures SegBytes(a + b) == SegBytes(a) + SegBytes(b)
  {
    if b == [] {
      assert a + b == a;
    } else {
      var n := |b| - 1;
      SegBytesConcat(a, b[..n]);
      assert (a + b)[..|a + b| - 1] == a + b[..n];
    }
  }

  lemma {:induction false} EvictionsConcat(a: seq<Removal>, b: seq<Removal>, lost: set<nat>)
    ensures Evictions(a + b, lost) == Evictions(a, lost) + Evictions(b, lost)
  {
    if b == [] {
      assert a + b == a;
    } else {
      var n := |b| - 1;
      EvictionsConcat(a, b[..n], lost);
      assert (a + b)[..|a + b| - 1] == a + b[..n];
    }
  }

  lemma {:induction false} NoEvictions(a: seq<Removal>, lost: set<nat>)
    requires forall i | 0 <= i < |a| :: a[i].Shipped?
    ensures Evictions(a, lost) == []
  {
    if a != [] {
      NoEvictions(a[..|a| - 1], lost);
    }
  }

  lemma {:induction false} AllEvictions(a: seq<Removal>, p: seq<Entry>)
    requires |a| == |p| && forall i | 0 <= i < |a| :: a[i].Evicted? && a[i].ulid == p[i].ulid
    ensures Evictions(a, {}) == Names(p)
  {
    if a != [] {
      var n := |a| - 1;
      AllEvictions(a[..n], p[..n]);
      assert Names(p) == Names(p[..n]) + [p[n].ulid];
    }
  }

  /** The shipper's removals change nothing in the record. */
  lemma CapRecordYield(c: Config, s: Sys, t: Sys, removed: seq<Removal>, warned: seq<nat>)
    requires CapRecord(c, s, removed, warned) && ShipperOnly(c, s, t)
    ensures CapRecord(c, t, removed, warned)
  {
    var n, m := |removed|, |s.h.removed|;
    var later := t.h.removed[m..];
    assert t.h.removed[n..] == s.h.removed[n..] + later;
    EvictionsConcat(s.h.removed[n..], later, {});
    NoEvictions(later, {});
  }

  lemma CapRecordEvict(c: Config, s: Sys, t: Sys, removed: seq<Removal>, warned: seq<nat>)
    requires CapRecord(c, s, removed, warned)
    requires t.h.published == s.h.published && t.phase == s.phase
    requires s.w.WEvict? && t.h.removed == s.h.removed + [Evicted(s.w.oldest, |s.h.published|)]
    ensures CapRecord(c, t, removed, warned + [s.w.oldest])
  {
    var n, r := |removed|, Evicted(s.w.oldest, |s.h.published|);
    assert t.h.removed[n..] == s.h.removed[n..] + [r];
    EvictionsConcat(s.h.removed[n..], [r], {});
    assert Evictions([r], {}) == [s.w.oldest];
  }

  /** Evictions against the final set of published segments were all needed, so what is kept is the longest
      suffix that fits. */
  lemma KeptIsLongest(maxBytes: int, h: History, n: nat)
    requires |h.removed| <= |h.published| && Removals(maxBytes, h.published, h.removed, h.answers)
    requires forall i | n <= i < |h.removed| :: h.removed[i].Evicted? && h.removed[i].of == |h.published|
    ensures forall i | n <= i < |h.removed| :: SegBytes(h.published[i..]) > maxBytes
  {
    forall i | n <= i < |h.removed| ensures SegBytes(h.published[i..]) > maxBytes {
      assert RemovalOk(maxBytes, h.removed[i], i, h.published, h.answers);
      assert h.published[i..|h.published|] == h.published[i..];
    }
  }
}
