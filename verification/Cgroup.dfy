/** Selecting cgroups (`internal/collector/cgroup.go`): a depth-capped, pruned, output-capped walk of the
    cgroup tree, against the obvious exhaustive one. */
module Cgroups {
  import opened Glob

  const MAX_DEPTH := 5

  type Path = seq<string>

  /** A directory entry: a file, or a directory with its own entries. */
  datatype Node = Node(name: string, isDir: bool, kids: seq<Node>)

  // ---- The exhaustive walk ----

  /** Every directory below `segs`, at most `MAX_DEPTH` segments deep, a directory before its own entries. */
  function AllDirs(entries: seq<Node>, segs: Path): seq<Path> {
    if entries == [] then [] else DirsOf(entries[0], segs) + AllDirs(entries[1..], segs)
  }

  function DirsOf(e: Node, segs: Path): seq<Path> {
    if !e.isDir then []
    else
      var p := segs + [e.name];
      [p] + (if |p| < MAX_DEPTH then AllDirs(e.kids, p) else [])
  }

  function Select(m: Matcher, globs: seq<Path>, paths: seq<Path>): seq<Path> {
    if paths == [] then []
    else (if MatchesAny(m, paths[0], globs) then [paths[0]] else []) + Select(m, globs, paths[1..])
  }

  /** The first `max` of a list. */
  function Capped(max: int, paths: seq<Path>): seq<Path> {
    if |paths| <= max then paths else if max <= 0 then [] else paths[..max]
  }

  // ---- What the walk visits ----

  /** For each entry the pruned walk would look at if the output were not capped, in order, whether it is
      selected. */
  function Visits(m: Matcher, globs: seq<Path>, entries: seq<Node>, segs: Path): seq<bool> {
    if entries == [] then [] else VisitsOf(m, globs, entries[0], segs) + Visits(m, globs, entries[1..], segs)
  }

  function VisitsOf(m: Matcher, globs: seq<Path>, e: Node, segs: Path): seq<bool> {
    if !e.isDir then [false]
    else
      var p := segs + [e.name];
      [MatchesAny(m, p, globs)]
      + (if |p| < MAX_DEPTH && PossibleForAny(m, p, globs) then Visits(m, globs, e.kids, p) else [])
  }

  function Count(flags: seq<bool>): nat {
    if flags == [] then 0 else (if flags[0] then 1 else 0) + Count(flags[1..])
  }

  /** With `n` selected already, some entry is looked at when the output is full. */
  predicate Overrun(max: int, n: nat, flags: seq<bool>) {
    exists i :: 0 <= i < |flags| && n + Count(flags[..i]) >= max
  }

  // ---- Lemmas on the reference walk ----

  lemma Reassociate(a: seq<Path>, b: seq<Path>, c: seq<Path>)
    ensures a + (b + c) == (a + b) + c
  {
  }

  lemma {:induction false} SelectConcat(m: Matcher, globs: seq<Path>, a: seq<Path>, b: seq<Path>)
    ensures Select(m, globs, a + b) == Select(m, globs, a) + Select(m, globs, b)
  {
    if a == [] {
      assert a + b == b;
    } else {
      SelectConcat(m, globs, a[1..], b);
      assert (a + b)[0] == a[0] && (a + b)[1..] == a[1..] + b;
      Reassociate(if MatchesAny(m, a[0], globs) then [a[0]] else [], Select(m, globs, a[1..]), Select(m, globs, b));
    }
  }

  lemma {:induction false} CountConcat(a: seq<bool>, b: seq<bool>)
    ensures Count(a + b) == Count(a) + Count(b)
  {
    if a == [] {
      assert a + b == b;
    } else {
      CountConcat(a[1..], b);
      assert (a + b)[1..] == a[1..] + b;
    }
  }

  /** Everything listed below `segs` is a proper extension of it, at most `MAX_DEPTH` segments deep. */
  lemma {:induction false} DirsBelow(entries: seq<Node>, segs: Path)
    requires |segs| < MAX_DEPTH
    ensures forall i | 0 <= i < |AllDirs(entries, segs)| ::
      segs < AllDirs(entries, segs)[i] && |AllDirs(entries, segs)[i]| <= MAX_DEPTH
    decreases entries, 0
  {
    if entries != [] {
      DirsBelowOf(entries[0], segs);
      DirsBelow(entries[1..], segs);
    }
  }

  lemma {:induction false} DirsBelowOf(e: Node, segs: Path)
    requires |segs| < MAX_DEPTH
    ensures forall i | 0 <= i < |DirsOf(e, segs)| ::
      segs + [e.name] <= DirsOf(e, segs)[i] && |DirsOf(e, segs)[i]| <= MAX_DEPTH
    decreases e, 1
  {
    var p := segs + [e.name];
    if e.isDir && |p| < MAX_DEPTH {
      DirsBelow(e.kids, p);
    }
  }

  lemma {:induction false} NothingSelected(m: Matcher, globs: seq<Path>, paths: seq<Path>)
    requires forall i | 0 <= i < |paths| :: !MatchesAny(m, paths[i], globs)
    ensures Select(m, globs, paths) == []
  {
    if paths != [] {
      NothingSelected(m, globs, paths[1..]);
    }
  }

  /** Nothing is selected below a directory the walk does not go into. */
  lemma PrunedIsEmpty(m: Matcher, globs: seq<Path>, kids: seq<Node>, p: Path)
    requires |p| < MAX_DEPTH && !PossibleForAny(m, p, globs)
    ensures Select(m, globs, AllDirs(kids, p)) == []
  {
    var paths := AllDirs(kids, p);
    DirsBelow(kids, p);
    forall i | 0 <= i < |paths| ensures !MatchesAny(m, paths[i], globs) {
      forall g | g in globs ensures !MatchGlob(m, g, paths[i]) {
        if MatchGlob(m, g, paths[i]) {
          assert paths[i] == p + paths[i][|p|..];
          PrefixSound(m, p, g, paths[i][|p|..]);
        }
      }
    }
    NothingSelected(m, globs, paths);
  }

  /** The pruned walk sees every selected directory. */
  lemma {:induction false} VisitsSelect(m: Matcher, globs: seq<Path>, entries: seq<Node>, segs: Path)
    requires |segs| < MAX_DEPTH
    ensures Count(Visits(m, globs, entries, segs)) == |Select(m, globs, AllDirs(entries, segs))|
    decreases entries, 0
  {
    if entries != [] {
      VisitsSelectOf(m, globs, entries[0], segs);
      VisitsSelect(m, globs, entries[1..], segs);
      CountConcat(VisitsOf(m, globs, entries[0], segs), Visits(m, globs, entries[1..], segs));
      SelectConcat(m, globs, DirsOf(entries[0], segs), AllDirs(entries[1..], segs));
    }
  }

  lemma {:induction false} VisitsSelectOf(m: Matcher, globs: seq<Path>, e: Node, segs: Path)
    requires |segs| < MAX_DEPTH
    ensures Count(VisitsOf(m, globs, e, segs)) == |Select(m, globs, DirsOf(e, segs))|
    decreases e, 1
  {
    if e.isDir {
      var p := segs + [e.name];
      var below := if |p| < MAX_DEPTH then AllDirs(e.kids, p) else [];
      assert ([p] + below)[1..] == below;
      if |p| < MAX_DEPTH {
        if PossibleForAny(m, p, globs) {
          VisitsSelect(m, globs, e.kids, p);
          assert VisitsOf(m, globs, e, segs)[1..] == Visits(m, globs, e.kids, p);
        } else {
          PrunedIsEmpty(m, globs, e.kids, p);
        }
      }
    }
  }

  // ---- The walk ----

  /** Whether every newly selected record can be read. */
  predicate Readable(readable: Path -> bool, n: nat, out: seq<Path>) {
    forall i | n <= i < |out| :: readable(out[i])
  }

  /** What one call of `walk` accumulates. */
  class Selection {
    var out: seq<Path>
    var truncated: bool

    constructor ()
      ensures out == [] && !truncated
    {
      out, truncated := [], false;
    }
  }

  class Cgroup {
    const m: Matcher
    const globs: seq<Path>
    const max: int
    /** Whether the record of a cgroup can be read (`readCgroup`). */
    const readable: Path -> bool

    constructor (m: Matcher, globs: seq<Path>, max: int, readable: Path -> bool)
      ensures this.m == m && this.globs == globs && this.max == max && this.readable == readable
    {
      this.m := m;
      this.globs := globs;
      this.max := max;
      this.readable := readable;
    }

    /** The selection after visiting `paths` exhaustively with `out` selected already: the first `max`. */
    ghost function Wanted(out: seq<Path>, paths: seq<Path>): seq<Path> {
      if |out| >= max then out else Capped(max, out + Select(m, globs, paths))
    }

    /** What visiting entries with these paths and flags must do to a selection. A record that cannot be read
        ends the walk; otherwise the selection gains exactly the selected directories of the exhaustive walk,
        up to the cap, and it is marked truncated if and only if some entry was looked at when it was full. */
    ghost predicate Visited(out: seq<Path>, truncated: bool, paths: seq<Path>, flags: seq<bool>,
                            ok: bool, out': seq<Path>, truncated': bool) {
      && (ok <==> Readable(readable, |out|, Wanted(out, paths)))
      && (ok ==> out' == Wanted(out, paths))
      && (ok ==> truncated' == (truncated || Overrun(max, |out|, flags)))
    }

    /** Visits the entries of the directory `segs`, until the selection is full. */
    method Walk(entries: seq<Node>, segs: Path, depth: nat, sel: Selection) returns (ok: bool)
      requires depth == |segs| < MAX_DEPTH
      modifies sel
      ensures Visited(old(sel.out), old(sel.truncated), AllDirs(entries, segs), Visits(m, globs, entries, segs),
                      ok, sel.out, sel.truncated)
      decreases entries, 0
    {
      ghost var out0, truncated0 := sel.out, sel.truncated;
      ghost var final := Wanted(out0, AllDirs(entries, segs));
      WantedGrows(out0, AllDirs(entries, segs));
      assert entries[0..] == entries;
      for i := 0 to |entries|
        invariant out0 <= sel.out <= final && Wanted(sel.out, AllDirs(entries[i..], segs)) == final
        invariant Readable(readable, |out0|, final) <==> Readable(readable, |sel.out|, final)
        invariant (truncated0 || Overrun(max, |out0|, Visits(m, globs, entries, segs)))
                  == (sel.truncated || Overrun(max, |sel.out|, Visits(m, globs, entries[i..], segs)))
      {
        ghost var e, rest := entries[i], entries[i + 1..];
        assert entries[i..][0] == e && entries[i..][1..] == rest;
        if |sel.out| >= max {
          assert Count(Visits(m, globs, entries[i..], segs)[..0]) == 0;
          sel.truncated := true;
          return true;
        }
        ghost var out := sel.out;
        WantedConcat(out, DirsOf(e, segs), AllDirs(rest, segs));
        WantedGrows(out, DirsOf(e, segs));
        WantedGrows(Wanted(out, DirsOf(e, segs)), AllDirs(rest, segs));
        OverrunSelect(out, e, segs, Visits(m, globs, rest, segs));
        ok := Visit(entries[i], segs, depth, sel);
        if !ok {
          return false;
        }
      }
      ok := true;
    }

    /** Visits one entry, with the selection not full. */
    method Visit(e: Node, segs: Path, depth: nat, sel: Selection) returns (ok: bool)
      requires depth == |segs| < MAX_DEPTH && |sel.out| < max
      modifies sel
      ensures Visited(old(sel.out), old(sel.truncated), DirsOf(e, segs), VisitsOf(m, globs, e, segs),
                      ok, sel.out, sel.truncated)
      decreases e, 1
    {
      ghost var out0 := sel.out;
      if !e.isDir {
        assert out0 + [] == out0;
        return true;
      }
      var childSegs := segs + [e.name];
      var matched := AnyMatches(m, childSegs, globs);
      WantedOne(out0, e, segs);
      OverrunOne(out0, e, segs);
      if matched {
        if !readable(childSegs) {
          assert Wanted(out0, DirsOf(e, segs))[|out0|] == childSegs;
          return false;
        }
        sel.out := sel.out + [childSegs];
      }
      var possible := IsPossiblePrefixForAny(m, childSegs, globs);
      ok := true;
      if depth + 1 < MAX_DEPTH && possible {
        ok := Walk(e.kids, childSegs, depth + 1, sel);
      }
    }

    lemma WantedGrows(out: seq<Path>, paths: seq<Path>)
      ensures out <= Wanted(out, paths)
      ensures |out| < max ==> |Wanted(out, paths)| == if |out| + |Select(m, globs, paths)| <= max
                                                      then |out| + |Select(m, globs, paths)| else max
    {
    }

    lemma WantedConcat(out: seq<Path>, a: seq<Path>, b: seq<Path>)
      ensures Wanted(out, a + b) == Wanted(Wanted(out, a), b)
    {
      SelectConcat(m, globs, a, b);
      assert out + Select(m, globs, a + b) == (out + Select(m, globs, a)) + Select(m, globs, b);
    }

    /** Going on to `flags` after an entry: the output is full then exactly when it would be without the cap. */
    lemma OverrunSelect(out: seq<Path>, e: Node, segs: Path, flags: seq<bool>)
      requires |segs| < MAX_DEPTH && |out| < max
      ensures Overrun(max, |out|, VisitsOf(m, globs, e, segs) + flags)
              == (Overrun(max, |out|, VisitsOf(m, globs, e, segs))
                  || Overrun(max, |Wanted(out, DirsOf(e, segs))|, flags))
    {
      VisitsSelectOf(m, globs, e, segs);
      WantedGrows(out, DirsOf(e, segs));
      OverrunConcat(max, |out|, VisitsOf(m, globs, e, segs), flags);
      OverrunFull(max, |out| + Count(VisitsOf(m, globs, e, segs)), |Wanted(out, DirsOf(e, segs))|, flags);
    }

    /** What one directory entry contributes to the selection, itself and below. */
    lemma WantedOne(out: seq<Path>, e: Node, segs: Path)
      requires e.isDir && |segs| < MAX_DEPTH && |out| < max
      ensures var p := segs + [e.name];
        var out' := if MatchesAny(m, p, globs) then out + [p] else out;
        var descends := |p| < MAX_DEPTH && PossibleForAny(m, p, globs);
        Wanted(out, DirsOf(e, segs)) == (if descends then Wanted(out', AllDirs(e.kids, p)) else out')
    {
      var p := segs + [e.name];
      var below := if |p| < MAX_DEPTH then AllDirs(e.kids, p) else [];
      WantedConcat(out, [p], below);
      assert Select(m, globs, [p]) == if MatchesAny(m, p, globs) then [p] else [];
      assert Wanted(out, [p]) == if MatchesAny(m, p, globs) then out + [p] else out;
      if |p| < MAX_DEPTH && !PossibleForAny(m, p, globs) {
        PrunedIsEmpty(m, globs, e.kids, p);
      }
    }

    /** And to whether something is looked at when the output is full. */
    lemma OverrunOne(out: seq<Path>, e: Node, segs: Path)
      requires e.isDir && |segs| < MAX_DEPTH && |out| < max
      ensures var p := segs + [e.name];
        var n := |out| + (if MatchesAny(m, p, globs) then 1 else 0);
        Overrun(max, |out|, VisitsOf(m, globs, e, segs))
        == (|p| < MAX_DEPTH && PossibleForAny(m, p, globs) && Overrun(max, n, Visits(m, globs, e.kids, p)))
    {
      var p := segs + [e.name];
      var matched := MatchesAny(m, p, globs);
      var visited := if |p| < MAX_DEPTH && PossibleForAny(m, p, globs) then Visits(m, globs, e.kids, p) else [];
      OverrunConcat(max, |out|, [matched], visited);
      assert [matched][..0] == [];
      assert Count([matched]) == if matched then 1 else 0;
    }

    /** The selection, or no record at all on a host without the unified hierarchy (`v2` false) or if a record
        cannot be read. */
    method Collect(v2: bool, entries: seq<Node>) returns (ok: bool, out: seq<Path>, truncated: bool)
      ensures !v2 ==> ok && out == [] && !truncated
      ensures v2 ==> (ok <==> Readable(readable, 0, Capped(max, Select(m, globs, AllDirs(entries, [])))))
      ensures v2 && ok ==> out == Capped(max, Select(m, globs, AllDirs(entries, [])))
      ensures v2 && ok ==> (truncated <==> Overrun(max, 0, Visits(m, globs, entries, [])))
      ensures ok && !truncated && v2 ==> out == Select(m, globs, AllDirs(entries, []))
      ensures !ok ==> out == [] && !truncated
      ensures v2 && ok ==> forall p | p in out :: IsDir(entries, p) && 1 <= |p| <= 5 && MatchesAny(m, p, globs)
      ensures v2 && ok && (!truncated || |out| < max) ==>
        forall p :: p in out <==> IsDir(entries, p) && 1 <= |p| <= 5 && MatchesAny(m, p, globs)
      ensures v2 && ok && truncated && max > 0 ==> |out| == max
    {
      if !v2 {
        return true, [], false;
      }
      var sel := new Selection();
      ok := Walk(entries, [], 0, sel);
      if !ok {
        return false, [], false;
      }
      out, truncated := sel.out, sel.truncated;
      CollectSpec(entries);
      CollectTree(entries, out, truncated);
    }

    /** What is collected, on the tree itself. */
    lemma CollectTree(entries: seq<Node>, out: seq<Path>, truncated: bool)
      requires out == Capped(max, Select(m, globs, AllDirs(entries, [])))
      requires truncated <==> Overrun(max, 0, Visits(m, globs, entries, []))
      ensures forall p | p in out :: IsDir(entries, p) && 1 <= |p| <= 5 && MatchesAny(m, p, globs)
      ensures !truncated || |out| < max ==>
        forall p :: p in out <==> IsDir(entries, p) && 1 <= |p| <= 5 && MatchesAny(m, p, globs)
      ensures truncated && max > 0 ==> |out| == max
    {
      var selected := Select(m, globs, AllDirs(entries, []));
      CollectSpec(entries);
      TruncatedIff(m, globs, entries, max);
      forall p ensures p in selected <==> IsDir(entries, p) && 1 <= |p| <= 5 && MatchesAny(m, p, globs) {
        SelectedIff(m, globs, entries, p);
      }
      forall p | p in out ensures p in selected {
      }
    }

    lemma CollectSpec(entries: seq<Node>)
      ensures Wanted([], AllDirs(entries, [])) == Capped(max, Select(m, globs, AllDirs(entries, [])))
      ensures var selected := Select(m, globs, AllDirs(entries, []));
        !Overrun(max, 0, Visits(m, globs, entries, [])) ==> Capped(max, selected) == selected
    {
      var selected := Select(m, globs, AllDirs(entries, []));
      assert [] + selected == selected;
      VisitsSelect(m, globs, entries, []);
      var flags := Visits(m, globs, entries, []);
      if flags != [] && !Overrun(max, 0, flags) {
        var n := |flags| - 1;
        CountConcat(flags[..n], flags[n..]);
        assert flags[..n] + flags[n..] == flags;
      }
    }
  }

  lemma OverrunConcat(max: int, n: nat, a: seq<bool>, b: seq<bool>)
    ensures Overrun(max, n, a + b) == (Overrun(max, n, a) || Overrun(max, n + Count(a), b))
  {
    if i :| 0 <= i < |a| && n + Count(a[..i]) >= max {
      assert (a + b)[..i] == a[..i];
    }
    if i :| 0 <= i < |b| && n + Count(a) + Count(b[..i]) >= max {
      assert (a + b)[..|a| + i] == a + b[..i];
      CountConcat(a, b[..i]);
    }
    if i :| 0 <= i < |a + b| && n + Count((a + b)[..i]) >= max {
      if i < |a| {
        assert (a + b)[..i] == a[..i];
      } else {
        assert (a + b)[..i] == a + b[..i - |a|];
        CountConcat(a, b[..i - |a|]);
      }
    }
  }

  /** Once the output is full it does not matter by how much it would have been exceeded. */
  lemma OverrunFull(max: int, n: nat, capped: nat, flags: seq<bool>)
    requires capped == n || (n >= max && capped >= max)
    ensures Overrun(max, n, flags) == Overrun(max, capped, flags)
  {
    if capped != n && flags != [] {
      assert Count(flags[..0]) == 0;
    }
  }

  // ---- What is selected, and in what order ----

  /** `p` leads from these entries to a directory. */
  predicate IsDir(entries: seq<Node>, p: Path) {
    p != [] && exists i :: 0 <= i < |entries| && entries[i].isDir && entries[i].name == p[0]
                           && (|p| == 1 || IsDir(entries[i].kids, p[1..]))
  }

  lemma {:induction false} DirsExact(entries: seq<Node>, segs: Path, p: Path)
    requires |segs| < MAX_DEPTH
    ensures segs + p in AllDirs(entries, segs) <==> IsDir(entries, p) && |segs| + |p| <= MAX_DEPTH
    decreases entries, 0
  {
    if entries != [] {
      var e, rest := entries[0], entries[1..];
      DirsExactOf(e, segs, p);
      DirsExact(rest, segs, p);
      if p != [] {
        assert IsDir(entries, p) <==> (IsDir([e], p) || IsDir(rest, p)) by {
          assert entries == [e] + rest;
          assert forall i | 0 <= i < |rest| :: entries[i + 1] == rest[i];
        }
      }
    }
  }

  lemma {:induction false} DirsExactOf(e: Node, segs: Path, p: Path)
    requires |segs| < MAX_DEPTH
    ensures segs + p in DirsOf(e, segs) <==> IsDir([e], p) && |segs| + |p| <= MAX_DEPTH
    decreases e, 1
  {
    var child := segs + [e.name];
    DirsBelowOf(e, segs);
    if p == [] || p[0] != e.name || !e.isDir {
      if p != [] {
        assert child[|segs|] == e.name && (segs + p)[|segs|] == p[0];
      }
    } else {
      assert [e][0] == e;
      assert segs + p == child + p[1..];
      if |p| == 1 {
        assert segs + p == child;
      } else if |child| < MAX_DEPTH {
        DirsExact(e.kids, child, p[1..]);
        assert segs + p != child;
      }
    }
  }

  lemma {:induction false} SelectExact(m: Matcher, globs: seq<Path>, paths: seq<Path>, p: Path)
    ensures p in Select(m, globs, paths) <==> p in paths && MatchesAny(m, p, globs)
  {
    if paths != [] {
      SelectExact(m, globs, paths[1..], p);
    }
  }

  /** The exhaustive selection is what the options promise: the directories one to five segments below the
      root whose path matches some glob. */
  lemma SelectedIff(m: Matcher, globs: seq<Path>, entries: seq<Node>, p: Path)
    ensures p in Select(m, globs, AllDirs(entries, []))
            <==> IsDir(entries, p) && 1 <= |p| <= 5 && MatchesAny(m, p, globs)
  {
    DirsExact(entries, [], p);
    assert [] + p == p;
    SelectExact(m, globs, AllDirs(entries, []), p);
  }

  /** Names in a directory are distinct, as a directory read returns them. */
  predicate Distinct(entries: seq<Node>) {
    && (forall i, j | 0 <= i < j < |entries| :: entries[i].name != entries[j].name)
    && (forall i | 0 <= i < |entries| :: Distinct(entries[i].kids))
  }

  /** No path comes after itself or after something below it. */
  ghost predicate AncestorsFirst(paths: seq<Path>) {
    forall i, j | 0 <= i < j < |paths| :: !(paths[j] <= paths[i])
  }

  lemma AncestorsConcat(a: seq<Path>, b: seq<Path>)
    requires AncestorsFirst(a) && AncestorsFirst(b)
    requires forall i, j | 0 <= i < |a| && 0 <= j < |b| :: !(b[j] <= a[i])
    ensures AncestorsFirst(a + b)
  {
  }

  lemma {:induction false} DirsInOrder(entries: seq<Node>, segs: Path)
    requires Distinct(entries) && |segs| < MAX_DEPTH
    ensures AncestorsFirst(AllDirs(entries, segs))
    decreases entries, 0
  {
    if entries != [] {
      var e, rest := entries[0], entries[1..];
      var a, b := DirsOf(e, segs), AllDirs(rest, segs);
      DirsInOrderOf(e, segs);
      DirsInOrder(rest, segs);
      DirsBelowOf(e, segs);
      forall i, j | 0 <= i < |a| && 0 <= j < |b| ensures !(b[j] <= a[i]) {
        var k := UnderSome(rest, segs, j);
        assert a[i][|segs|] == (segs + [e.name])[|segs|] && b[j][|segs|] == (segs + [rest[k].name])[|segs|];
        assert entries[k + 1] == rest[k];
      }
      AncestorsConcat(a, b);
    }
  }

  lemma {:induction false} DirsInOrderOf(e: Node, segs: Path)
    requires Distinct(e.kids) && |segs| < MAX_DEPTH
    ensures AncestorsFirst(DirsOf(e, segs))
    decreases e, 1
  {
    var p := segs + [e.name];
    if e.isDir && |p| < MAX_DEPTH {
      DirsInOrder(e.kids, p);
      DirsBelow(e.kids, p);
      AncestorsConcat([p], AllDirs(e.kids, p));
    }
  }

  /** Which entry a listed path lies under. */
  lemma {:induction false} UnderSome(entries: seq<Node>, segs: Path, j: nat) returns (k: nat)
    requires |segs| < MAX_DEPTH && j < |AllDirs(entries, segs)|
    ensures k < |entries| && segs + [entries[k].name] <= AllDirs(entries, segs)[j]
  {
    var n := |DirsOf(entries[0], segs)|;
    DirsBelowOf(entries[0], segs);
    if j < n {
      k := 0;
    } else {
      var i := UnderSome(entries[1..], segs, j - n);
      k := i + 1;
    }
  }

  lemma {:induction false} SelectKeepsOrder(m: Matcher, globs: seq<Path>, paths: seq<Path>)
    requires AncestorsFirst(paths)
    ensures AncestorsFirst(Select(m, globs, paths))
  {
    if paths != [] {
      SelectKeepsOrder(m, globs, paths[1..]);
      var rest := Select(m, globs, paths[1..]);
      forall j | 0 <= j < |rest| ensures !(rest[j] <= paths[0]) {
        SelectExact(m, globs, paths[1..], rest[j]);
      }
    }
  }

  /** The selection lists every ancestor before its descendants, and nothing twice. */
  lemma SelectionInOrder(m: Matcher, globs: seq<Path>, entries: seq<Node>)
    requires Distinct(entries)
    ensures AncestorsFirst(Select(m, globs, AllDirs(entries, [])))
  {
    DirsInOrder(entries, []);
    SelectKeepsOrder(m, globs, AllDirs(entries, []));
  }

  // ---- What the comments promise and the code does not ----

  lemma CountMonotone(flags: seq<bool>, i: nat)
    requires i <= |flags|
    ensures Count(flags[..i]) <= Count(flags)
  {
    CountConcat(flags[..i], flags[i..]);
    assert flags[..i] + flags[i..] == flags;
  }

  lemma OverrunAtLast(max: int, flags: seq<bool>)
    ensures Overrun(max, 0, flags) <==> flags != [] && Count(flags[..|flags| - 1]) >= max
  {
    if i :| 0 <= i < |flags| && 0 + Count(flags[..i]) >= max {
      CountMonotone(flags[..|flags| - 1], i);
      assert flags[..|flags| - 1][..i] == flags[..i];
    }
  }

  /** When a selection is marked truncated: it was really cut, or it is exactly full and the last entry looked
      at was not selected. In the second case nothing is missing. */
  lemma TruncatedIff(m: Matcher, globs: seq<Path>, entries: seq<Node>, max: int)
    ensures var flags, n := Visits(m, globs, entries, []), |Select(m, globs, AllDirs(entries, []))|;
      Overrun(max, 0, flags) <==> flags != [] && (n > max || (n == max && !flags[|flags| - 1]))
  {
    var flags := Visits(m, globs, entries, []);
    VisitsSelect(m, globs, entries, []);
    OverrunAtLast(max, flags);
    if flags != [] {
      var k := |flags| - 1;
      CountConcat(flags[..k], [flags[k]]);
      assert flags == flags[..k] + [flags[k]];
      assert Count([flags[k]]) == if flags[k] then 1 else 0;
    }
  }

  /** One matching directory followed by a plain file, with room for one: all is selected, yet marked truncated. */
  lemma TruncatedWithoutLoss(m: Matcher)
    ensures var entries := [Node("a", true, []), Node("f", false, [])];
      && Select(m, [[ANY]], AllDirs(entries, [])) == [["a"]] == Capped(1, Select(m, [[ANY]], AllDirs(entries, [])))
      && Overrun(1, 0, Visits(m, [[ANY]], entries, []))
  {
    var entries := [Node("a", true, []), Node("f", false, [])];
    AnyMatchesAll(m, ["a"]);
    assert [ANY] in [[ANY]];
    assert MatchesAny(m, ["a"], [[ANY]]);
    assert entries[1..] == [Node("f", false, [])] && entries[1..][1..] == [];
    assert [] + ["a"] == ["a"];
    assert DirsOf(entries[0], []) == [["a"]];
    assert AllDirs(entries, []) == [["a"]];
    assert [["a"]][1..] == [];
    var flags := Visits(m, [[ANY]], entries, []);
    assert Visits(m, [[ANY]], [], ["a"]) == [];
    assert VisitsOf(m, [[ANY]], entries[0], []) == [true];
    assert Visits(m, [[ANY]], entries[1..], []) == [false];
    assert flags == [true, false];
    assert flags[..1] == [true] && [true][1..] == [];
    assert Count(flags[..1]) == 1;
  }

  predicate ShallowFirst(paths: seq<Path>) {
    forall i, j {:trigger |paths[i]|, |paths[j]|} | 0 <= i < j < |paths| :: |paths[i]| <= |paths[j]|
  }

  predicate HasDir(entries: seq<Node>) {
    exists i :: 0 <= i < |entries| && entries[i].isDir
  }

  /** Of the entries among the first `room` directories listed, none has directories of its own and one more
      sibling directory after it that is still listed. */
  predicate Spine(entries: seq<Node>, segs: Path, room: int)
    decreases entries
  {
    if entries == [] || room <= 0 then true
    else if !entries[0].isDir then Spine(entries[1..], segs, room)
    else
      var p := segs + [entries[0].name];
      var below := |Below(entries[0], p)|;
      && (|p| < MAX_DEPTH ==> Spine(entries[0].kids, p, room - 1))
      && Spine(entries[1..], segs, room - 1 - below)
      && !(0 < below < room - 1 && HasDir(entries[1..]))
  }

  lemma CappedConcat(room: int, a: seq<Path>, b: seq<Path>)
    ensures Capped(room, a + b) == Capped(room, a) + Capped(room - |a|, b)
  {
  }

  lemma ShallowConcat(a: seq<Path>, b: seq<Path>)
    ensures ShallowFirst(a + b) <==>
      ShallowFirst(a) && ShallowFirst(b) && (forall i, j | 0 <= i < |a| && 0 <= j < |b| :: |a[i]| <= |b[j]|)
  {
    if ShallowFirst(a + b) {
      assert forall i | 0 <= i < |a| :: (a + b)[i] == a[i];
      assert forall j | 0 <= j < |b| :: (a + b)[|a| + j] == b[j];
    }
  }

  lemma {:induction false} FirstListed(entries: seq<Node>, segs: Path)
    requires |segs| < MAX_DEPTH
    ensures AllDirs(entries, segs) != [] <==> HasDir(entries)
    ensures AllDirs(entries, segs) != [] ==> |AllDirs(entries, segs)[0]| == |segs| + 1
  {
    if entries != [] {
      FirstListed(entries[1..], segs);
      assert HasDir(entries) <==> entries[0].isDir || HasDir(entries[1..]) by {
        assert forall i | 0 <= i < |entries[1..]| :: entries[1..][i] == entries[i + 1];
      }
    }
  }

  lemma {:induction false} ShallowIffSpine(entries: seq<Node>, segs: Path, room: int)
    requires |segs| < MAX_DEPTH
    ensures ShallowFirst(Capped(room, AllDirs(entries, segs))) <==> Spine(entries, segs, room)
    decreases entries
  {
    if entries != [] && room > 0 {
      var e, rest := entries[0], entries[1..];
      if e.isDir {
        var p := segs + [e.name];
        var a, b := Below(e, p), AllDirs(rest, segs);
        ShallowIffSpine(rest, segs, room - 1 - |a|);
        if |p| < MAX_DEPTH {
          ShallowIffSpine(e.kids, p, room - 1);
        }
        DirInOrder(e, p, a, rest, segs, b, room);
        SpineUnfolds(entries, segs, room);
      } else {
        assert AllDirs(entries, segs) == AllDirs(rest, segs);
        ShallowIffSpine(rest, segs, room);
      }
    }
  }

  lemma {:induction false} DirInOrder(e: Node, p: Path, a: seq<Path>, rest: seq<Node>, segs: Path, b: seq<Path>, room: int)
    requires |segs| < MAX_DEPTH && room > 0
    requires p == segs + [e.name] && a == Below(e, p) && b == AllDirs(rest, segs)
    ensures ShallowFirst(Capped(room, ([p] + a) + b)) <==>
      ShallowFirst(Capped(room - 1, a)) && ShallowFirst(Capped(room - 1 - |a|, b))
      && !(0 < |a| < room - 1 && HasDir(rest))
  {
    ListedBelow(e, p, a);
    ListedDepths(rest, segs, b);
    ShallowThree(p, a, b, room);
  }

  lemma ListedBelow(e: Node, p: Path, a: seq<Path>)
    requires |p| <= MAX_DEPTH && a == Below(e, p)
    ensures Starts(a, |p|)
  {
    if |p| < MAX_DEPTH {
      ListedDepths(e.kids, p, a);
    }
  }

  /** All paths are longer than `n`, the first one by one segment. */
  ghost predicate Starts(paths: seq<Path>, n: int) {
    (paths != [] ==> |paths[0]| == n + 1) && forall i | 0 <= i < |paths| :: n < |paths[i]|
  }

  lemma {:induction false} ListedDepths(entries: seq<Node>, segs: Path, paths: seq<Path>)
    requires |segs| < MAX_DEPTH && paths == AllDirs(entries, segs)
    ensures paths != [] <==> HasDir(entries)
    ensures Starts(paths, |segs|)
  {
    FirstListed(entries, segs);
    DirsBelow(entries, segs);
  }

  /** What is listed below the directory `e`, which is at `p`. */
  function Below(e: Node, p: Path): seq<Path> {
    if |p| < MAX_DEPTH then AllDirs(e.kids, p) else []
  }

  lemma {:induction false} SpineUnfolds(entries: seq<Node>, segs: Path, room: int)
    requires entries != [] && entries[0].isDir && room > 0
    ensures var e, rest := entries[0], entries[1..];
      var p := segs + [e.name];
      var a := Below(e, p);
      && AllDirs(entries, segs) == ([p] + a) + AllDirs(rest, segs)
      && (Spine(entries, segs, room) <==>
          && (|p| < MAX_DEPTH ==> Spine(e.kids, p, room - 1))
          && Spine(rest, segs, room - 1 - |a|)
          && !(0 < |a| < room - 1 && HasDir(rest)))
  {
  }

  /** A directory, what is below it, and what comes after. */
  lemma {:induction false} ShallowThree(p: Path, a: seq<Path>, b: seq<Path>, room: int)
    requires room > 0
    requires Starts(a, |p|) && Starts(b, |p| - 1)
    ensures ShallowFirst(Capped(room, ([p] + a) + b)) <==>
      ShallowFirst(Capped(room - 1, a)) && ShallowFirst(Capped(room - 1 - |a|, b)) && !(0 < |a| < room - 1 && b != [])
  {
    var a', b' := Capped(room - 1, a), Capped(room - 1 - |a|, b);
    CappedConcat(room, [p] + a, b);
    CappedConcat(room, [p], a);
    Reassociate([p], a', b');
    assert Capped(room, ([p] + a) + b) == [p] + (a' + b');
    ShallowConcat([p], a' + b');
    ShallowConcat(a', b');
    if 0 < |a| < room - 1 && b != [] {
      assert |a'[0]| > |b'[0]|;
    } else {
      assert a' == [] || b' == [];
    }
  }

  lemma {:induction false} SelectAll(m: Matcher, paths: seq<Path>)
    ensures Select(m, [[ANY]], paths) == paths
  {
    if paths != [] {
      AnyMatchesAll(m, paths[0]);
      assert [ANY] in [[ANY]];
      SelectAll(m, paths[1..]);
    }
  }

  /** "Most-shallow first" is not what a preorder walk gives: with `**`, what `Collect` returns comes in order
      of depth if and only if, among the first `max` directories, none that has directories of its own is
      followed by a sibling. */
  lemma MostShallowFirstIff(m: Matcher, entries: seq<Node>, max: int)
    ensures ShallowFirst(Capped(max, Select(m, [[ANY]], AllDirs(entries, [])))) <==> Spine(entries, [], max)
  {
    SelectAll(m, AllDirs(entries, []));
    ShallowIffSpine(entries, [], max);
  }

  /** For instance, with room for three, `a/b` is listed before `c`. */
  lemma ShallowFirstFails(m: Matcher)
    ensures var entries := [Node("a", true, [Node("b", true, [])]), Node("c", true, [])];
      var out := Capped(3, Select(m, [[ANY]], AllDirs(entries, [])));
      out == [["a"], ["a", "b"], ["c"]] && !ShallowFirst(out)
  {
    var b := [Node("b", true, [])];
    var c := [Node("c", true, [])];
    var entries := [Node("a", true, b), Node("c", true, [])];
    assert entries[1..] == c && b[1..] == [] && c[1..] == [];
    assert ["a"] + ["b"] == ["a", "b"] && [] + ["a"] == ["a"] && [] + ["c"] == ["c"];
    assert AllDirs(b, ["a"]) == [["a", "b"]];
    assert DirsOf(entries[0], []) == [["a"], ["a", "b"]];
    assert AllDirs(c, []) == [["c"]];
    assert AllDirs(entries, []) == [["a"], ["a", "b"], ["c"]];
    SelectAll(m, AllDirs(entries, []));
    var out := Capped(3, Select(m, [[ANY]], AllDirs(entries, [])));
    assert |out[1]| > |out[2]|;
  }

  /** A selected path: one to five segments that match some glob. */
  predicate Selectable(m: Matcher, globs: seq<Path>, p: Path) {
    1 <= |p| <= 5 && MatchesAny(m, p, globs)
  }

  /** `p` leads down through directories with nothing beside them to `kids`. */
  function Branch(p: Path, kids: seq<Node>): seq<Node> {
    if p == [] then kids else [Node(p[0], true, Branch(p[1..], kids))]
  }

  lemma {:induction false} BranchDistinct(p: Path, kids: seq<Node>)
    requires Distinct(kids)
    ensures Distinct(Branch(p, kids))
  {
    if p != [] {
      BranchDistinct(p[1..], kids);
    }
  }

  /** The directories on the way down to `p`, itself included. */
  function Trail(p: Path): (t: seq<Path>)
    ensures |t| == |p| && forall k | 0 <= k < |p| :: t[k] == p[..k + 1]
  {
    seq(|p|, k requires 0 <= k < |p| => p[..k + 1])
  }

  lemma TrailLast(p: Path)
    requires p != []
    ensures Trail(p) == Trail(p[..|p| - 1]) + [p]
  {
    TrailSplit(p, |p| - 1);
    assert Trail(p)[|p| - 1] == p[..|p|] == p;
  }

  /** How many of them the globs select. */
  function Ancestors(m: Matcher, globs: seq<Path>, p: Path): nat {
    |Select(m, globs, Trail(p))|
  }

  lemma {:induction false} AncestorsStep(m: Matcher, globs: seq<Path>, p: Path)
    requires p != []
    ensures Select(m, globs, Trail(p)) ==
            Select(m, globs, Trail(p[..|p| - 1])) + (if MatchesAny(m, p, globs) then [p] else [])
  {
    TrailLast(p);
    SelectConcat(m, globs, Trail(p[..|p| - 1]), [p]);
    assert [p][1..] == [];
  }

  lemma OneEntry(e: Node, segs: Path)
    ensures AllDirs([e], segs) == DirsOf(e, segs)
  {
    assert [e][1..] == [];
  }

  lemma TrailFrom(segs: Path, name: string, p: Path)
    ensures Trail(segs + ([name] + p))[|segs|..] == [segs + [name]] + Trail((segs + [name]) + p)[|segs| + 1..]
  {
    assert segs + ([name] + p) == (segs + [name]) + p;
    assert ((segs + [name]) + p)[..|segs| + 1] == segs + [name];
  }

  /** A single branch lists the directories on the way, then what is below. */
  lemma {:induction false} BranchLists(p: Path, kids: seq<Node>, segs: Path)
    requires |segs| + |p| < MAX_DEPTH || (kids == [] && |segs| + |p| <= MAX_DEPTH)
    ensures AllDirs(Branch(p, kids), segs) == Trail(segs + p)[|segs|..] + AllDirs(kids, segs + p)
    decreases p
  {
    if p == [] {
      assert segs + p == segs;
    } else {
      var child := segs + [p[0]];
      var below := AllDirs(kids, segs + p);
      assert p == [p[0]] + p[1..] && child + p[1..] == segs + p;
      OneEntry(Branch(p, kids)[0], segs);
      TrailFrom(segs, p[0], p[1..]);
      if |child| < MAX_DEPTH {
        BranchLists(p[1..], kids, child);
      } else {
        assert below == [] && Trail(child + p[1..])[|segs| + 1..] == [];
      }
      Reassociate([child], Trail(segs + p)[|segs| + 1..], below);
    }
  }

  lemma {:induction false} AllDirsConcat(a: seq<Node>, b: seq<Node>, segs: Path)
    ensures AllDirs(a + b, segs) == AllDirs(a, segs) + AllDirs(b, segs)
  {
    if a == [] {
      assert a + b == b;
    } else {
      AllDirsConcat(a[1..], b, segs);
      assert (a + b)[0] == a[0] && (a + b)[1..] == a[1..] + b;
      Reassociate(DirsOf(a[0], segs), AllDirs(a[1..], segs), AllDirs(b, segs));
    }
  }

  /** Where two paths part. */
  lemma Diverge(p: Path, q: Path) returns (k: nat)
    requires |q| < |p| && !(q <= p)
    ensures k < |q| && p[..k] == q[..k] && p[k] != q[k]
  {
    k := 0;
    while k < |q| && p[k] == q[k]
      invariant k <= |q| && p[..k] == q[..k]
    {
      k := k + 1;
    }
  }

  /** A tree that lists the way down to `p` and then the rest of the way down to `q`. */
  lemma {:induction false} Fork(p: Path, q: Path, k: nat) returns (entries: seq<Node>)
    requires k < |p| <= MAX_DEPTH && k < |q| <= MAX_DEPTH && p[..k] == q[..k] && p[k] != q[k]
    ensures Distinct(entries) && AllDirs(entries, []) == Trail(p) + Trail(q)[k..]
  {
    entries := Branch(p[..k], Branch(p[k..], []) + Branch(q[k..], []));
    ForkDistinct(p[k..], q[k..]);
    BranchDistinct(p[..k], Branch(p[k..], []) + Branch(q[k..], []));
    ForkLists(p, q, k);
    TrailSplit(p, k);
    Reassociate(Trail(p[..k]), Trail(p)[k..], Trail(q)[k..]);
  }

  lemma {:induction false} ForkLists(p: Path, q: Path, k: nat)
    requires k < |p| <= MAX_DEPTH && k < |q| <= MAX_DEPTH && p[..k] == q[..k]
    ensures AllDirs(Branch(p[..k], Branch(p[k..], []) + Branch(q[k..], [])), [])
            == Trail(p[..k]) + (Trail(p)[k..] + Trail(q)[k..])
  {
    var stem := p[..k];
    var left, right := Branch(p[k..], []), Branch(q[k..], []);
    BranchLists(stem, left + right, []);
    assert [] + stem == stem && Trail(stem)[0..] == Trail(stem);
    TwigLists(p, k);
    TwigLists(q, k);
    AllDirsConcat(left, right, stem);
  }

  lemma {:induction false} TwigLists(p: Path, k: nat)
    requires k < |p| <= MAX_DEPTH
    ensures AllDirs(Branch(p[k..], []), p[..k]) == Trail(p)[k..]
  {
    BranchLists(p[k..], [], p[..k]);
    assert p[..k] + p[k..] == p;
  }

  lemma {:induction false} ForkDistinct(p: Path, q: Path)
    requires p != [] && q != [] && p[0] != q[0]
    ensures Distinct(Branch(p, []) + Branch(q, []))
  {
    BranchDistinct(p, []);
    BranchDistinct(q, []);
    assert Branch(p, []) == [Branch(p, [])[0]] && Branch(q, []) == [Branch(q, [])[0]];
  }

  lemma {:induction false} TrailSplit(p: Path, k: nat)
    requires k <= |p|
    ensures Trail(p) == Trail(p[..k]) + Trail(p)[k..]
  {
    var whole, part := Trail(p), Trail(p[..k]);
    forall i | 0 <= i < k ensures part[i] == whole[i] {
      assert p[..k][..i + 1] == p[..i + 1];
    }
    assert part == whole[..k];
  }

  /** `p` is selected on some tree with a shallower `q` selected right behind it or later, and by then there
      is room for another: `q` is no ancestor of `p`, and fewer than `max` directories are selected on the way
      down to `p`. */
  predicate Wrong(m: Matcher, globs: seq<Path>, max: int, p: Path, q: Path) {
    && Selectable(m, globs, p) && Selectable(m, globs, q)
    && |q| < |p| && !(q <= p)
    && Ancestors(m, globs, p) < max
  }

  /** Such a pair comes in the wrong order on some tree. */
  lemma {:induction false} WrongOrder(m: Matcher, globs: seq<Path>, max: int, p: Path, q: Path) returns (entries: seq<Node>)
    requires Wrong(m, globs, max, p, q)
    ensures Distinct(entries) && !ShallowFirst(Capped(max, Select(m, globs, AllDirs(entries, []))))
  {
    var k := Diverge(p, q);
    entries := Fork(p, q, k);
    var a, b := Select(m, globs, Trail(p)), Select(m, globs, Trail(q)[k..]);
    SelectConcat(m, globs, Trail(p), Trail(q)[k..]);
    AncestorsStep(m, globs, p);
    assert Trail(q)[k..][|q| - 1 - k] == q;
    SelectExact(m, globs, Trail(q)[k..], q);
    SelectExact(m, globs, Trail(q)[k..], b[0]);
    assert b[0] in Trail(q)[k..];
    var n := |a|;
    var out := Capped(max, a + b);
    assert out[n - 1] == p && out[n] == b[0] && |b[0]| <= |q|;
  }

  lemma {:induction false} PrefixIsDir(entries: seq<Node>, p: Path, s: Path)
    requires IsDir(entries, p) && s <= p && s != []
    ensures IsDir(entries, s)
  {
    var i :| 0 <= i < |entries| && entries[i].isDir && entries[i].name == p[0]
             && (|p| == 1 || IsDir(entries[i].kids, p[1..]));
    if |s| > 1 {
      PrefixIsDir(entries[i].kids, p[1..], s[1..]);
    }
    assert entries[i].name == s[0];
  }

  /** A prefix of the path at `pos` is listed before it. */
  lemma Earlier(sel: seq<Path>, k: nat, pos: nat, s: Path)
    requires AncestorsFirst(sel) && pos < k <= |sel| && s < sel[pos] && s in sel[..k]
    ensures s in sel[..pos]
  {
    var x :| 0 <= x < k && sel[..k][x] == s;
    assert sel[x] == s && x < pos;
  }

  /** Where every selected directory on the way down to `r` is listed before position `k`, there are at most
      `k` of them. */
  lemma {:induction false} AncestorsListed(m: Matcher, globs: seq<Path>, sel: seq<Path>, r: Path, k: nat)
    requires AncestorsFirst(sel) && k <= |sel|
    requires forall s | s != [] && s <= r && MatchesAny(m, s, globs) :: s in sel[..k]
    ensures Ancestors(m, globs, r) <= k
  {
    if r != [] {
      var r' := r[..|r| - 1];
      AncestorsStep(m, globs, r);
      if MatchesAny(m, r, globs) {
        assert r in sel[..k];
        var pos: nat :| pos < k && sel[pos] == r;
        forall s | s != [] && s <= r' && MatchesAny(m, s, globs) ensures s in sel[..pos] {
          assert s <= r && s in sel[..k];
          Earlier(sel, k, pos, s);
        }
        AncestorsListed(m, globs, sel, r', pos);
      } else {
        AncestorsListed(m, globs, sel, r', k);
      }
    }
  }

  /** What `Collect` returns for these globs and this cap comes in order of depth, whatever the tree. */
  ghost predicate AlwaysShallowFirst(m: Matcher, globs: seq<Path>, max: int) {
    forall entries | Distinct(entries) :: ShallowFirst(Capped(max, Select(m, globs, AllDirs(entries, []))))
  }

  /** Whatever the globs and the cap: every tree's selection comes in order of depth, if and only if no two
      selectable paths are such a wrong pair. */
  lemma ShallowFirstIff(m: Matcher, globs: seq<Path>, max: int)
    ensures AlwaysShallowFirst(m, globs, max) <==> forall p, q :: !Wrong(m, globs, max, p, q)
  {
    if p, q :| Wrong(m, globs, max, p, q) {
      var entries := WrongOrder(m, globs, max, p, q);
      assert !AlwaysShallowFirst(m, globs, max);
    } else {
      forall entries | Distinct(entries) ensures ShallowFirst(Capped(max, Select(m, globs, AllDirs(entries, [])))) {
        NoneWrong(m, globs, max, entries);
      }
      assert AlwaysShallowFirst(m, globs, max);
    }
  }

  lemma {:induction false} NoneWrong(m: Matcher, globs: seq<Path>, max: int, entries: seq<Node>)
    requires Distinct(entries) && forall p, q :: !Wrong(m, globs, max, p, q)
    ensures ShallowFirst(Capped(max, Select(m, globs, AllDirs(entries, []))))
  {
    var sel := Select(m, globs, AllDirs(entries, []));
    var out := Capped(max, sel);
    SelectionInOrder(m, globs, entries);
    forall i, j | 0 <= i < j < |out| ensures |out[i]| <= |out[j]| {
      assert out[i] == sel[i] && out[j] == sel[j] && !(sel[j] <= sel[i]);
      AncestorsBefore(m, globs, entries, i);
      SelectedIff(m, globs, entries, sel[i]);
      SelectedIff(m, globs, entries, sel[j]);
      assert !Wrong(m, globs, max, sel[i], sel[j]);
    }
  }

  /** The selected directory at position `i` comes after everything selected on the way down to it. */
  lemma {:induction false} AncestorsBefore(m: Matcher, globs: seq<Path>, entries: seq<Node>, i: nat)
    requires Distinct(entries) && i < |Select(m, globs, AllDirs(entries, []))|
    ensures Ancestors(m, globs, Select(m, globs, AllDirs(entries, []))[i]) <= i + 1
  {
    var sel := Select(m, globs, AllDirs(entries, []));
    SelectionInOrder(m, globs, entries);
    SelectedIff(m, globs, entries, sel[i]);
    forall s | s != [] && s <= sel[i] && MatchesAny(m, s, globs) ensures s in sel[..i + 1] {
      PrefixIsDir(entries, sel[i], s);
      SelectedIff(m, globs, entries, s);
      if s != sel[i] {
        assert sel[..|sel|] == sel;
        Earlier(sel, |sel|, i, s);
      }
    }
    AncestorsListed(m, globs, sel, sel[i], i + 1);
  }

  lemma AnySelectable(m: Matcher, p: Path)
    ensures MatchesAny(m, p, [[ANY]]) && Ancestors(m, [[ANY]], p) == |p|
  {
    AnyMatchesAll(m, p);
    assert [ANY] in [[ANY]];
    SelectAll(m, Trail(p));
  }

  /** For `**` that means a cap of at most two. */
  lemma AnyShallowFirstIff(m: Matcher, max: int)
    ensures AlwaysShallowFirst(m, [[ANY]], max) <==> max <= 2
  {
    ShallowFirstIff(m, [[ANY]], max);
    if p, q :| Wrong(m, [[ANY]], max, p, q) {
      AnySelectable(m, p);
    }
    AnySelectable(m, ["a", "b"]);
    AnySelectable(m, ["c"]);
    assert ["a", "b"][0] == "a" && ["c"][0] == "c";
    assert max > 2 ==> Wrong(m, [[ANY]], max, ["a", "b"], ["c"]);
  }
}
