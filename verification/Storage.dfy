/** What the spool directory holds: JSONL lines, compressed segment files, and the three kinds of name the
    spool uses (the active file, temporaries, published segments). */
module Storage {

  /** One JSONL line. Its content is opaque; an eviction warning also says which segment was dropped. */
  datatype Line = Envelope(body: string) | Warning(dropped: nat, body: string)

  /** Bytes on disk, counting the newline. */
  function Bytes(l: Line): (n: nat)
    ensures n > 0
  {
    |l.body| + 1
  }

  function Size(ls: seq<Line>): nat {
    if ls == [] then 0 else Size(ls[..|ls| - 1]) + Bytes(ls[|ls| - 1])
  }

  predicate AllWarnings(ls: seq<Line>) {
    forall i | 0 <= i < |ls| :: ls[i].Warning?
  }

  /** The segments named by the warnings among `ls`, in order. */
  function WarnedOf(ls: seq<Line>): seq<nat> {
    if ls == [] then []
    else
      var l := ls[|ls| - 1];
      WarnedOf(ls[..|ls| - 1]) + (if l.Warning? then [l.dropped] else [])
  }

  /** A file being compressed or already compressed: `lines` is what it decodes to, `size` its length on
      disk, `whole` whether the encoder has finished and the file was synced. */
  datatype File = File(lines: seq<Line>, size: nat, whole: bool)

  /** A published segment: its ULID (which determines its name and its place in name order) and contents. */
  datatype Entry = Entry(ulid: nat, file: File)

  /** The spool directory. `segs` lists the published names in name order, as a directory read returns them. */
  datatype Disk = Disk(active: seq<Line>, tmps: map<nat, File>, segs: seq<Entry>)

  function Names(segs: seq<Entry>): (names: seq<nat>)
    ensures |names| == |segs|
    ensures forall i | 0 <= i < |segs| :: names[i] == segs[i].ulid
  {
    seq(|segs|, i requires 0 <= i < |segs| => segs[i].ulid)
  }

  predicate Has(segs: seq<Entry>, u: nat) {
    exists i :: 0 <= i < |segs| && segs[i].ulid == u
  }

  /** The contents under name `u`. */
  function Lookup(segs: seq<Entry>, u: nat): (f: File)
    requires Has(segs, u)
    ensures exists i :: 0 <= i < |segs| && segs[i] == Entry(u, f)
  {
    if segs[0].ulid == u then segs[0].file
    else
      assert Has(segs[1..], u) by {
        var i :| 0 <= i < |segs| && segs[i].ulid == u;
        assert segs[1..][i - 1].ulid == u;
      }
      var f := Lookup(segs[1..], u);
      assert exists i :: 0 <= i < |segs| && segs[i] == Entry(u, f) by {
        var i :| 0 <= i < |segs[1..]| && segs[1..][i] == Entry(u, f);
        assert segs[i + 1] == Entry(u, f);
      }
      f
  }

  /** Removing the name `u`. */
  function Drop(segs: seq<Entry>, u: nat): seq<Entry> {
    if segs == [] then []
    else if segs[0].ulid == u then segs[1..]
    else [segs[0]] + Drop(segs[1..], u)
  }

  /** Renaming a file to `u`: it takes its place in name order, replacing any file already there. */
  function Insert(segs: seq<Entry>, u: nat, f: File): seq<Entry> {
    if segs == [] || u < segs[0].ulid then [Entry(u, f)] + segs
    else if u == segs[0].ulid then [Entry(u, f)] + segs[1..]
    else [segs[0]] + Insert(segs[1..], u, f)
  }

  /** Total size on disk of the published segments. */
  function SegBytes(segs: seq<Entry>): nat {
    if segs == [] then 0 else SegBytes(segs[..|segs| - 1]) + segs[|segs| - 1].file.size
  }

  lemma {:induction false} InsertLast(segs: seq<Entry>, u: nat, f: File)
    requires forall i | 0 <= i < |segs| :: segs[i].ulid < u
    ensures Insert(segs, u, f) == segs + [Entry(u, f)]
  {
    if segs == [] {
    } else {
      InsertLast(segs[1..], u, f);
      assert segs == [segs[0]] + segs[1..];
    }
  }

  lemma SizePositive(ls: seq<Line>)
    ensures Size(ls) > 0 <==> ls != []
  {
  }

  lemma SizeAppend(ls: seq<Line>, l: Line)
    ensures Size(ls + [l]) == Size(ls) + Bytes(l)
  {
    assert (ls + [l])[..|ls|] == ls;
  }

  lemma WarnedAppend(ls: seq<Line>, l: Line)
    ensures WarnedOf(ls + [l]) == WarnedOf(ls) + (if l.Warning? then [l.dropped] else [])
  {
    assert (ls + [l])[..|ls|] == ls;
  }

  lemma SegBytesAppend(segs: seq<Entry>, e: Entry)
    ensures SegBytes(segs + [e]) == SegBytes(segs) + e.file.size
  {
    assert (segs + [e])[..|segs|] == segs;
  }

  lemma {:induction false} SegBytesTail(segs: seq<Entry>)
    requires segs != []
    ensures SegBytes(segs) == segs[0].file.size + SegBytes(segs[1..])
  {
    if |segs| == 1 {
      assert segs[..0] == [] && segs[1..] == [];
    } else {
      var n := |segs| - 1;
      SegBytesTail(segs[..n]);
      assert segs[..n][1..] == segs[1..][..n - 1];
    }
  }
}
