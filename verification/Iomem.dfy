/** The reader of `/proc/iomem` (`pkg/damon/iomem.go`) against the format the kernel writes. */
module Iomem {
  import opened Options
  import opened Numbers

  /** An inclusive range of physical addresses. */
  datatype AddrRange = AddrRange(start: U64, end: U64)

  datatype Error = BadStart(hex: string) | BadEnd(hex: string) | Masked | Unreadable

  datatype Result = Ranges(ranges: seq<AddrRange>) | Failed(error: Error)

  /** What one line says. */
  datatype Fact = Nothing | Ram(range: AddrRange) | Bad(error: Error)

  const RAM := "System RAM"

  datatype Halves = Halves(before: string, after: string, found: bool)

  /** `strings.Cut`: at the first occurrence of the separator. */
  function Cut(s: string, sep: string): Halves {
    if |s| < |sep| then Halves(s, "", false)
    else if s[..|sep|] == sep then Halves("", s[|sep|..], true)
    else if s == "" then Halves(s, "", false)
    else
      var h := Cut(s[1..], sep);
      Halves(if h.found then [s[0]] + h.before else s, h.after, h.found)
  }

  predicate Indented(line: string) {
    line == "" || line[0] == ' ' || line[0] == '\t'
  }

  /** The body of the scanner loop. */
  function Read(line: string): Fact {
    if Indented(line) then Nothing
    else
      var l := Cut(line, " : ");
      if !l.found || l.after != RAM then Nothing
      else
        var a := Cut(l.before, "-");
        if !a.found then Nothing
        else
          var start := ParseUint(a.before, 16);
          var end := ParseUint(a.after, 16);
          if start.None? then Bad(BadStart(a.before))
          else if end.None? then Bad(BadEnd(a.after))
          else if start.value == 0 && end.value == 0 then Bad(Masked)
          else Ram(AddrRange(start.value, end.value))
  }

  /** The ranges on these lines, in order. */
  function Found(lines: seq<string>): seq<AddrRange> {
    if lines == [] then []
    else
      var n := |lines| - 1;
      var f := Read(lines[n]);
      Found(lines[..n]) + (if f.Ram? then [f.range] else [])
  }

  /** What the whole listing amounts to: all its ranges, or the first error in it, or the reader's own. */
  ghost predicate Parsed(lines: seq<string>, broken: bool, r: Result) {
    match r
    case Ranges(ranges) =>
      !broken && ranges == Found(lines) && (forall i | 0 <= i < |lines| :: !Read(lines[i]).Bad?)
    case Failed(error) =>
      || (exists k :: FirstBad(lines, k, error))
      || (broken && error == Unreadable && forall i | 0 <= i < |lines| :: !Read(lines[i]).Bad?)
  }

  ghost predicate FirstBad(lines: seq<string>, k: int, error: Error) {
    && 0 <= k < |lines|
    && Read(lines[k]) == Bad(error)
    && (forall i | 0 <= i < k :: !Read(lines[i]).Bad?)
  }

  /** `parseIomemReader` on the lines its scanner delivers; `broken` says that the scanner then stops with an
      error of its own. */
  method ParseIomemReader(lines: seq<string>, broken: bool) returns (r: Result)
    ensures Parsed(lines, broken, r)
  {
    var ranges: seq<AddrRange> := [];
    for k := 0 to |lines|
      invariant ranges == Found(lines[..k])
      invariant forall i | 0 <= i < k :: !Read(lines[i]).Bad?
    {
      var line := lines[k];
      assert lines[..k + 1][..k] == lines[..k];
      if Indented(line) {
        continue;
      }
      var l := Cut(line, " : ");
      if !l.found || l.after != RAM {
        continue;
      }
      var a := Cut(l.before, "-");
      if !a.found {
        continue;
      }
      var start := ParseUint(a.before, 16);
      if start.None? {
        assert FirstBad(lines, k, BadStart(a.before));
        return Failed(BadStart(a.before));
      }
      var end := ParseUint(a.after, 16);
      if end.None? {
        assert FirstBad(lines, k, BadEnd(a.after));
        return Failed(BadEnd(a.after));
      }
      if start.value == 0 && end.value == 0 {
        assert FirstBad(lines, k, Masked);
        return Failed(Masked);
      }
      ranges := ranges + [AddrRange(start.value, end.value)];
    }
    assert lines[..|lines|] == lines;
    return if broken then Failed(Unreadable) else Ranges(ranges);
  }

  // ---- Reading a line ----

  lemma {:induction false} CutJoins(s: string, sep: string)
    requires Cut(s, sep).found
    ensures s == Cut(s, sep).before + sep + Cut(s, sep).after
  {
    if s[..|sep|] == sep {
      assert s == sep + s[|sep|..];
    } else {
      CutJoins(s[1..], sep);
      var h := Cut(s[1..], sep);
      assert [s[0]] + (h.before + sep + h.after) == ([s[0]] + h.before) + sep + h.after;
      assert s == [s[0]] + s[1..];
    }
  }

  lemma CutLater(c: char, s: string, sep: string)
    requires sep != "" && c != sep[0] && Cut(s, sep).found
    ensures var h := Cut(s, sep); Cut([c] + s, sep) == Halves([c] + h.before, h.after, true)
  {
    var t := [c] + s;
    assert t[..|sep|][0] == c && t[1..] == s;
  }

  lemma CutHere(sep: string, b: string)
    requires sep != ""
    ensures Cut(sep + b, sep) == Halves("", b, true)
  {
    assert (sep + b)[..|sep|] == sep && (sep + b)[|sep|..] == b;
  }

  lemma Front(a: string, sep: string, b: string)
    requires a != ""
    ensures a == [a[0]] + a[1..] && a + sep + b == [a[0]] + (a[1..] + sep + b)
  {
  }

  /** The first separator of `a + sep + b` is the one after `a`, if `a` lacks the separator's first
      character. */
  lemma {:induction false} CutAt(a: string, sep: string, b: string)
    requires sep != "" && sep[0] !in a
    ensures Cut(a + sep + b, sep) == Halves(a, b, true)
  {
    if a == "" {
      CutHere(sep, b);
      assert a + sep + b == sep + b;
    } else {
      CutAt(a[1..], sep, b);
      CutLater(a[0], a[1..] + sep + b, sep);
      Front(a, sep, b);
    }
  }

  /** The line is a top-level System RAM entry for the range: two hexadecimal numbers, of any width and in
      either case, with nothing else around them. */
  ghost predicate RamLine(line: string, r: AddrRange) {
    exists a, b :: Written(line, a, b, r)
  }

  ghost predicate Written(line: string, a: string, b: string, r: AddrRange) {
    && line == a + "-" + b + " : " + "System RAM"
    && ParseUint(a, 16) == Some(r.start)
    && ParseUint(b, 16) == Some(r.end)
  }

  lemma NoSeparators(s: string)
    requires IsNumber(s, 16)
    ensures '-' !in s && ' ' !in s && '\t' !in s
  {
    assert DigitValue('-') == DigitValue(' ') == DigitValue('\t') == 16;
  }

  lemma ReadsWritten(line: string, a: string, b: string, r: AddrRange)
    requires Written(line, a, b, r)
    ensures Read(line) == if r == AddrRange(0, 0) then Bad(Masked) else Ram(r)
  {
    NoSeparators(a);
    NoSeparators(b);
    var addrs := a + "-" + b;
    assert line == addrs + " : " + RAM;
    assert line[0] == a[0];
    CutAt(addrs, " : ", RAM);
    CutAt(a, "-", b);
  }

  /** A range is taken from exactly the lines that say so, and the all-zero range is exactly what is reported
      as masked. */
  lemma ReadExact(line: string, r: AddrRange)
    ensures Read(line) == Ram(r) <==> RamLine(line, r) && r != AddrRange(0, 0)
    ensures Read(line) == Bad(Masked) <==> RamLine(line, AddrRange(0, 0))
  {
    if Read(line).Ram? || Read(line) == Bad(Masked) {
      var l := Cut(line, " : ");
      var a := Cut(l.before, "-");
      CutJoins(line, " : ");
      CutJoins(l.before, "-");
      assert line == a.before + "-" + a.after + " : " + RAM;
      var s := if Read(line).Ram? then Read(line).range else AddrRange(0, 0);
      assert Written(line, a.before, a.after, s);
    }
    forall x, y, s | Written(line, x, y, s)
      ensures Read(line) == if s == AddrRange(0, 0) then Bad(Masked) else Ram(s)
    {
      ReadsWritten(line, x, y, s);
    }
  }

  // ---- Bad lines ----

  ghost predicate Occurs(s: string, sep: string, k: int) {
    0 <= k && k + |sep| <= |s| && s[k..k + |sep|] == sep
  }

  lemma OccursTail(s: string, sep: string, k: int)
    requires s != "" && k > 0
    ensures Occurs(s, sep, k) <==> Occurs(s[1..], sep, k - 1)
  {
    if k + |sep| <= |s| {
      assert s[1..][k - 1..k - 1 + |sep|] == s[k..k + |sep|];
    }
  }

  /** `Cut` cuts at the first occurrence. */
  lemma {:induction false} CutFirst(before: string, sep: string, after: string)
    requires sep != "" && forall k | 0 <= k < |before| :: !Occurs(before + sep + after, sep, k)
    ensures Cut(before + sep + after, sep) == Halves(before, after, true)
  {
    var s := before + sep + after;
    if before == "" {
      CutHere(sep, after);
      assert s == sep + after;
    } else {
      var rest := before[1..] + sep + after;
      Front(before, sep, after);
      assert s[1..] == rest;
      forall k | 0 <= k < |before[1..]| ensures !Occurs(rest, sep, k) {
        OccursTail(s, sep, k + 1);
        assert !Occurs(s, sep, k + 1);
      }
      CutFirst(before[1..], sep, after);
      assert !Occurs(s, sep, 0) && s[..|sep|] == s[0..0 + |sep|];
    }
  }

  lemma {:induction false} CutIsFirst(s: string, sep: string, k: int)
    requires sep != "" && Cut(s, sep).found && 0 <= k < |Cut(s, sep).before|
    ensures !Occurs(s, sep, k)
  {
    assert s[..|sep|] == s[0..0 + |sep|];
    if k > 0 {
      CutIsFirst(s[1..], sep, k - 1);
      OccursTail(s, sep, k);
    }
  }

  /** The line is a top-level System RAM entry, whatever its two numbers `a` and `b` look like: not indented,
      cut at its first colon between spaces and then at the first dash. */
  ghost predicate Entry(line: string, a: string, b: string) {
    && line == a + "-" + b + " : " + "System RAM"
    && line[0] != ' ' && line[0] != '\t'
    && '-' !in a
    && (forall k | 0 <= k < |a + "-" + b| :: !Occurs(line, " : ", k))
  }

  lemma EntryCuts(line: string, a: string, b: string)
    requires Entry(line, a, b)
    ensures Cut(line, " : ") == Halves(a + "-" + b, "System RAM", true) && Cut(a + "-" + b, "-") == Halves(a, b, true)
  {
    CutFirst(a + "-" + b, " : ", "System RAM");
    CutAt(a, "-", b);
  }

  /** A line that says something is such an entry. */
  lemma ReadIsEntry(line: string) returns (a: string, b: string)
    requires !Read(line).Nothing?
    ensures Entry(line, a, b)
  {
    var l := Cut(line, " : ");
    var h := Cut(l.before, "-");
    a, b := h.before, h.after;
    CutJoins(line, " : ");
    CutJoins(l.before, "-");
    forall k | 0 <= k < |a + "-" + b| ensures !Occurs(line, " : ", k) {
      CutIsFirst(line, " : ", k);
    }
    forall k | 0 <= k < |a| ensures a[k] != '-' {
      CutIsFirst(l.before, "-", k);
      assert l.before[k..k + 1] == [a[k]];
    }
  }

  /** What any line says, by its two number strings: a bad first number, a bad second one, all zeros, or a
      range; and a line that is no such entry says nothing. */
  lemma ReadComplete(line: string, a: string, b: string)
    ensures Entry(line, a, b) ==>
      Read(line) == if ParseUint(a, 16).None? then Bad(BadStart(a))
                    else if ParseUint(b, 16).None? then Bad(BadEnd(b))
                    else if ParseUint(a, 16) == Some(0) && ParseUint(b, 16) == Some(0) then Bad(Masked)
                    else Ram(AddrRange(ParseUint(a, 16).value, ParseUint(b, 16).value))
    ensures Read(line).Nothing? <==> forall x, y :: !Entry(line, x, y)
  {
    forall x, y | Entry(line, x, y)
      ensures Read(line) == if ParseUint(x, 16).None? then Bad(BadStart(x))
                            else if ParseUint(y, 16).None? then Bad(BadEnd(y))
                            else if ParseUint(x, 16) == Some(0) && ParseUint(y, 16) == Some(0) then Bad(Masked)
                            else Ram(AddrRange(ParseUint(x, 16).value, ParseUint(y, 16).value))
    {
      EntryCuts(line, x, y);
    }
    if !Read(line).Nothing? {
      var x, y := ReadIsEntry(line);
    }
  }

  // ---- Reading what the kernel writes ----

  /** An entry of the resource tree: how deep it is, its range, its label, and the width of its numbers. */
  datatype Resource = Resource(depth: nat, range: AddrRange, name: string, width: nat)

  function Spaces(n: nat): (s: string)
    ensures |s| == n && forall i | 0 <= i < n :: s[i] == ' '
  {
    seq(n, _ => ' ')
  }

  /** Its line: two spaces per level, the range, and the label, which may hold anything. */
  function Line(r: Resource): string {
    Spaces(2 * r.depth) + Padded(r.range.start, 16, r.width) + "-" + Padded(r.range.end, 16, r.width) + " : " + r.name
  }

  function Listing(rs: seq<Resource>): (lines: seq<string>)
    ensures |lines| == |rs| && forall i | 0 <= i < |rs| :: lines[i] == Line(rs[i])
  {
    seq(|rs|, i requires 0 <= i < |rs| => Line(rs[i]))
  }

  predicate IsRam(r: Resource) {
    r.depth == 0 && r.name == "System RAM"
  }

  /** The top-level System RAM ranges, in order. */
  function RamOf(rs: seq<Resource>): seq<AddrRange> {
    if rs == [] then []
    else RamOf(rs[..|rs| - 1]) + (if IsRam(rs[|rs| - 1]) then [rs[|rs| - 1].range] else [])
  }

  lemma ReadsLine(r: Resource)
    ensures Read(Line(r)) ==
            if !IsRam(r) then Nothing else if r.range == AddrRange(0, 0) then Bad(Masked) else Ram(r.range)
  {
    var a, b := Padded(r.range.start, 16, r.width), Padded(r.range.end, 16, r.width);
    if r.depth > 0 {
      assert Line(r)[0] == ' ';
    } else {
      NoSeparators(a);
      NoSeparators(b);
      var addrs := a + "-" + b;
      assert Line(r) == addrs + " : " + r.name;
      CutAt(addrs, " : ", r.name);
      if IsRam(r) {
        ParseFormat(r.range.start, 16, r.width);
        ParseFormat(r.range.end, 16, r.width);
        assert Written(Line(r), a, b, r.range);
        ReadsWritten(Line(r), a, b, r.range);
      }
    }
  }

  lemma ParsedMasked(lines: seq<string>, r: Result, k: nat)
    requires Parsed(lines, false, r) && k < |lines| && Read(lines[k]).Bad?
    requires forall i | 0 <= i < |lines| :: Read(lines[i]).Bad? ==> Read(lines[i]) == Bad(Masked)
    ensures r == Failed(Masked)
  {
    if r.Failed? {
      var i :| FirstBad(lines, i, r.error);
    }
  }

  lemma ParsedClean(lines: seq<string>, r: Result)
    requires Parsed(lines, false, r) && forall i | 0 <= i < |lines| :: !Read(lines[i]).Bad?
    ensures r == Ranges(Found(lines))
  {
  }

  lemma BadIsMasked(rs: seq<Resource>)
    ensures forall i | 0 <= i < |rs| ::
      (Read(Listing(rs)[i]).Bad? <==> RamAt(rs, i, AddrRange(0, 0)))
      && (Read(Listing(rs)[i]).Bad? ==> Read(Listing(rs)[i]) == Bad(Masked))
  {
    forall i | 0 <= i < |rs|
      ensures Read(Listing(rs)[i]).Bad? <==> RamAt(rs, i, AddrRange(0, 0))
      ensures Read(Listing(rs)[i]).Bad? ==> Read(Listing(rs)[i]) == Bad(Masked)
    {
      ReadsLine(rs[i]);
    }
  }

  /** Round trip: whatever the resource tree, reading its listing returns exactly its top-level System RAM
      ranges, in order, unless one of them reads as all zeros, and then the listing is reported as masked. */
  lemma ReadsListing(rs: seq<Resource>, r: Result)
    requires Parsed(Listing(rs), false, r)
    ensures r == if AddrRange(0, 0) in RamOf(rs) then Failed(Masked) else Ranges(RamOf(rs))
  {
    BadIsMasked(rs);
    RamMember(rs, AddrRange(0, 0));
    if AddrRange(0, 0) in RamOf(rs) {
      var k :| RamAt(rs, k, AddrRange(0, 0));
      ParsedMasked(Listing(rs), r, k);
    } else {
      FoundAll(rs);
      ParsedClean(Listing(rs), r);
    }
  }

  ghost predicate RamAt(rs: seq<Resource>, i: int, a: AddrRange) {
    0 <= i < |rs| && IsRam(rs[i]) && rs[i].range == a
  }

  lemma {:induction false} RamMember(rs: seq<Resource>, a: AddrRange)
    ensures a in RamOf(rs) <==> exists i :: RamAt(rs, i, a)
  {
    if rs != [] {
      var n := |rs| - 1;
      RamMember(rs[..n], a);
      forall i | 0 <= i < n ensures RamAt(rs[..n], i, a) <==> RamAt(rs, i, a) {
      }
      if i :| RamAt(rs, i, a) {
        assert i == n || RamAt(rs[..n], i, a);
      }
      if i :| RamAt(rs[..n], i, a) {
        assert RamAt(rs, i, a);
      }
      assert RamAt(rs, n, a) <==> IsRam(rs[n]) && rs[n].range == a;
    }
  }

  lemma {:induction false} FoundAll(rs: seq<Resource>)
    requires AddrRange(0, 0) !in RamOf(rs)
    ensures Found(Listing(rs)) == RamOf(rs)
  {
    if rs != [] {
      var n := |rs| - 1;
      assert Listing(rs)[..n] == Listing(rs[..n]);
      FoundAll(rs[..n]);
      ReadsLine(rs[n]);
    }
  }
}
