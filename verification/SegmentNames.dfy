/** File names in the spool directory, and why the model can stand a ULID's number for a segment's name: the
    name says the number and back, name order is number order, and the listing's suffix picks out exactly
    the published segments. */
module SegmentNames {
  import opened Storage

  const ACTIVE := "active.jsonl"
  const SEG_SUFFIX := ".jsonl.zst"
  const TMP_SUFFIX := ".jsonl.zst.tmp"

  /** Crockford's base 32, in ascending order: no I, L, O or U. */
  function Letter(d: nat): char
    requires d < 32
  {
    if d < 10 then '0' + d as char
    else if d < 18 then 'A' + (d - 10) as char
    else if d < 20 then 'J' + (d - 18) as char
    else if d < 22 then 'M' + (d - 20) as char
    else if d < 27 then 'P' + (d - 22) as char
    else 'V' + (d - 27) as char
  }

  const ULID_LEN: nat := 26

  /** `u` has at most `width` digits. */
  predicate Fits(u: nat, width: nat) {
    if width == 0 then u == 0 else Fits(u / 32, width - 1)
  }

  function Ulid(u: nat, width: nat): (s: string)
    ensures |s| == width
  {
    if width == 0 then "" else Ulid(u / 32, width - 1) + [Letter(u % 32)]
  }

  function SegName(u: nat): string {
    Ulid(u, ULID_LEN) + SEG_SUFFIX
  }

  function TmpName(u: nat): string {
    Ulid(u, ULID_LEN) + TMP_SUFFIX
  }

  predicate HasSuffix(s: string, suffix: string) {
    |suffix| <= |s| && s[|s| - |suffix|..] == suffix
  }

  /** `batchID`, on a base name. */
  function BatchId(name: string): string {
    if HasSuffix(name, SEG_SUFFIX) then name[..|name| - |SEG_SUFFIX|] else name
  }

  /** The order of `sort.Strings`. */
  predicate Less(a: string, b: string) {
    b != "" && (a == "" || a[0] < b[0] || (a[0] == b[0] && Less(a[1..], b[1..])))
  }

  lemma {:induction false} LessSnoc(a: string, x: char, b: string, y: char)
    requires |a| == |b|
    ensures Less(a + [x], b + [y]) <==> Less(a, b) || (a == b && x < y)
  {
    if a != "" {
      assert (a + [x])[1..] == a[1..] + [x] && (b + [y])[1..] == b[1..] + [y];
      LessSnoc(a[1..], x, b[1..], y);
      assert a == [a[0]] + a[1..] && b == [b[0]] + b[1..];
    }
  }

  lemma {:induction false} LessIrreflexive(s: string)
    ensures !Less(s, s)
  {
    if s != "" {
      LessIrreflexive(s[1..]);
    }
  }

  lemma {:induction false} LessSuffix(a: string, b: string, suffix: string)
    requires |a| == |b|
    ensures Less(a + suffix, b + suffix) <==> Less(a, b)
  {
    if a == "" {
      LessIrreflexive(suffix);
      assert a + suffix == suffix && b + suffix == suffix;
    } else {
      assert (a + suffix)[1..] == a[1..] + suffix && (b + suffix)[1..] == b[1..] + suffix;
      LessSuffix(a[1..], b[1..], suffix);
    }
  }

  lemma LettersAscend(i: nat, j: nat)
    requires i < 32 && j < 32
    ensures Letter(i) < Letter(j) <==> i < j
    ensures Letter(i) == Letter(j) <==> i == j
  {
  }

  lemma {:induction false} UlidOrder(u: nat, v: nat, width: nat)
    requires Fits(u, width) && Fits(v, width)
    ensures Less(Ulid(u, width), Ulid(v, width)) <==> u < v
    ensures Ulid(u, width) == Ulid(v, width) <==> u == v
  {
    if width > 0 {
      UlidOrder(u / 32, v / 32, width - 1);
      LettersAscend(u % 32, v % 32);
      var a, b := Ulid(u / 32, width - 1), Ulid(v / 32, width - 1);
      LessSnoc(a, Letter(u % 32), b, Letter(v % 32));
      Snoc(a, Letter(u % 32), b, Letter(v % 32));
      Digits(u, v);
    }
  }

  lemma Snoc(a: string, x: char, b: string, y: char)
    ensures a + [x] == b + [y] <==> a == b && x == y
  {
    if a + [x] == b + [y] {
      assert (a + [x])[|a|] == x && (a + [x])[..|a|] == a && (b + [y])[..|b|] == b;
    }
  }

  lemma Digits(u: nat, v: nat)
    ensures u < v <==> u / 32 < v / 32 || (u / 32 == v / 32 && u % 32 < v % 32)
    ensures u == v <==> u / 32 == v / 32 && u % 32 == v % 32
  {
  }

  /** Name order is the order of the ULIDs, and distinct ULIDs have distinct names. */
  lemma NameOrder(u: nat, v: nat)
    requires Fits(u, ULID_LEN) && Fits(v, ULID_LEN)
    ensures Less(SegName(u), SegName(v)) <==> u < v
    ensures SegName(u) == SegName(v) <==> u == v
  {
    UlidOrder(u, v, ULID_LEN);
    LessSuffix(Ulid(u, ULID_LEN), Ulid(v, ULID_LEN), SEG_SUFFIX);
    assert SegName(u)[..ULID_LEN] == Ulid(u, ULID_LEN) && SegName(v)[..ULID_LEN] == Ulid(v, ULID_LEN);
  }

  /** A segment is posted under its ULID, so a segment sent again is sent under the same batch id. */
  lemma BatchIdIsUlid(u: nat, v: nat)
    requires Fits(u, ULID_LEN) && Fits(v, ULID_LEN)
    ensures BatchId(SegName(u)) == Ulid(u, ULID_LEN)
    ensures BatchId(SegName(u)) == BatchId(SegName(v)) <==> u == v
  {
    UlidOrder(u, v, ULID_LEN);
  }

  /** Which names end how. */
  lemma Suffixes(u: nat)
    ensures SegName(u) == Ulid(u, 26) + ".jsonl.zst" && TmpName(u) == SegName(u) + ".tmp"
    ensures HasSuffix(SegName(u), ".jsonl.zst") && !HasSuffix(SegName(u), ".jsonl.zst.tmp")
    ensures HasSuffix(TmpName(u), ".jsonl.zst.tmp") && !HasSuffix(TmpName(u), ".jsonl.zst")
    ensures !HasSuffix("active.jsonl", ".jsonl.zst") && !HasSuffix("active.jsonl", ".jsonl.zst.tmp")
  {
    var s, t := SegName(u), TmpName(u);
    assert ".jsonl.zst" + ".tmp" == ".jsonl.zst.tmp";
    assert s[|s| - 1] == 't' && t[|t| - 1] == 'p';
  }

  /** Every name in the directory. */
  ghost predicate InDirectory(d: Disk, name: string) {
    || name == ACTIVE
    || (exists u :: u in d.tmps && name == TmpName(u))
    || (exists i :: 0 <= i < |d.segs| && name == SegName(d.segs[i].ulid))
  }

  predicate Ascending(names: seq<string>) {
    forall i, j | 0 <= i < j < |names| :: Less(names[i], names[j])
  }

  function SegNames(segs: seq<Entry>): (names: seq<string>)
    ensures |names| == |segs|
    ensures forall i | 0 <= i < |segs| :: names[i] == SegName(segs[i].ulid)
  {
    seq(|segs|, i requires 0 <= i < |segs| => SegName(segs[i].ulid))
  }

  /** `Segments`, the sorted names in the directory with the segment suffix, is the published segments, oldest
      first; the active file and the temporaries are never among them. */
  lemma SegmentsListing(d: Disk, names: seq<string>)
    requires forall i | 0 <= i < |d.segs| :: Fits(d.segs[i].ulid, ULID_LEN)
    requires forall i, j | 0 <= i < j < |d.segs| :: d.segs[i].ulid < d.segs[j].ulid
    requires Ascending(names)
    requires forall name :: name in names <==> InDirectory(d, name) && HasSuffix(name, SEG_SUFFIX)
    ensures names == SegNames(d.segs)
  {
    var segs := SegNames(d.segs);
    forall i, j | 0 <= i < j < |segs| ensures Less(segs[i], segs[j]) {
      NameOrder(d.segs[i].ulid, d.segs[j].ulid);
    }
    forall name ensures name in names <==> name in segs {
      SegmentsOnly(d, name);
    }
    SortedUnique(names, segs);
  }

  lemma SegmentsOnly(d: Disk, name: string)
    ensures InDirectory(d, name) && HasSuffix(name, SEG_SUFFIX) <==> name in SegNames(d.segs)
  {
    Suffixes(0);
    forall u | u in d.tmps ensures !HasSuffix(TmpName(u), SEG_SUFFIX) {
      Suffixes(u);
    }
    if name in SegNames(d.segs) {
      var i :| 0 <= i < |d.segs| && name == SegNames(d.segs)[i];
      assert name == SegName(d.segs[i].ulid);
      Suffixes(d.segs[i].ulid);
    }
  }

  lemma {:induction false} LessTotal(a: string, b: string)
    ensures a == b || Less(a, b) || Less(b, a)
    ensures !(Less(a, b) && Less(b, a))
  {
    if a != "" && b != "" {
      LessTotal(a[1..], b[1..]);
      assert a == [a[0]] + a[1..] && b == [b[0]] + b[1..];
    }
  }

  lemma {:induction false} SortedUnique(a: seq<string>, b: seq<string>)
    requires Ascending(a) && Ascending(b) && forall name :: name in a <==> name in b
    ensures a == b
  {
    assert a != [] ==> a[0] in a;
    assert b != [] ==> b[0] in b;
    if a != [] && b != [] {
      SameHead(a, b);
      assert a == [a[0]] + a[1..] && b == [b[0]] + b[1..];
      forall name ensures name in a[1..] <==> name in b[1..] {
        Distinct(a, name);
        Distinct(b, name);
      }
      SortedUnique(a[1..], b[1..]);
    }
  }

  lemma SameHead(a: seq<string>, b: seq<string>)
    requires Ascending(a) && Ascending(b) && a != [] && b != [] && a[0] in b && b[0] in a
    ensures a[0] == b[0]
  {
    var i :| 0 <= i < |b| && b[i] == a[0];
    var j :| 0 <= j < |a| && a[j] == b[0];
    LessTotal(a[0], b[0]);
  }

  lemma Distinct(s: seq<string>, name: string)
    requires Ascending(s) && s != []
    ensures name in s[1..] <==> name in s && name != s[0]
  {
    LessIrreflexive(s[0]);
    assert s == [s[0]] + s[1..];
    if name in s[1..] {
      var i :| 0 <= i < |s| - 1 && s[1..][i] == name;
      assert Less(s[0], s[i + 1]);
    }
  }
}
