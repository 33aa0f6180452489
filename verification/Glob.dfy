/** Cgroup path globs (`internal/collector/cgroup.go`): `**` stands for any number of path segments, every
    other pattern element for exactly one. Matching one segment is `filepath.Match`, left uninterpreted. */
module Glob {

  /** `m(p, s)`: the single-segment pattern `p` is well formed and matches the segment `s`. */
  type Matcher = (string, string) -> bool

  const ANY := "**"

  predicate MatchGlob(m: Matcher, pattern: seq<string>, segs: seq<string>)
    decreases |pattern|, |segs|
  {
    if |pattern| == 0 then |segs| == 0
    else if pattern[0] == ANY then
      MatchGlob(m, pattern[1..], segs) || (|segs| > 0 && MatchGlob(m, pattern, segs[1..]))
    else
      |segs| > 0 && m(pattern[0], segs[0]) && MatchGlob(m, pattern[1..], segs[1..])
  }

  // ---- What a glob means ----

  predicate Fits(m: Matcher, element: string, piece: seq<string>) {
    element == "**" || (|piece| == 1 && m(element, piece[0]))
  }

  /** The path cut into consecutive pieces, one for each pattern element. */
  predicate Cut(m: Matcher, pattern: seq<string>, pieces: seq<seq<string>>) {
    |pieces| == |pattern| && forall i | 0 <= i < |pattern| :: Fits(m, pattern[i], pieces[i])
  }

  function Join(pieces: seq<seq<string>>): seq<string> {
    if pieces == [] then [] else pieces[0] + Join(pieces[1..])
  }

  lemma {:induction false} CutOf(m: Matcher, pattern: seq<string>, segs: seq<string>) returns (pieces: seq<seq<string>>)
    requires MatchGlob(m, pattern, segs)
    ensures Cut(m, pattern, pieces) && Join(pieces) == segs
    decreases |pattern|, |segs|
  {
    if pattern == [] {
      pieces := [];
    } else if pattern[0] == ANY {
      if MatchGlob(m, pattern[1..], segs) {
        var rest := CutOf(m, pattern[1..], segs);
        pieces := [[]] + rest;
        assert pieces[1..] == rest;
      } else {
        var rest := CutOf(m, pattern, segs[1..]);
        pieces := rest[0 := [segs[0]] + rest[0]];
        assert pieces[1..] == rest[1..];
      }
    } else {
      var rest := CutOf(m, pattern[1..], segs[1..]);
      pieces := [[segs[0]]] + rest;
      assert pieces[1..] == rest;
    }
  }

  lemma {:induction false} CutMatches(m: Matcher, pattern: seq<string>, pieces: seq<seq<string>>)
    requires Cut(m, pattern, pieces)
    ensures MatchGlob(m, pattern, Join(pieces))
    decreases |pattern|, |Join(pieces)|
  {
    if pattern != [] {
      var segs := Join(pieces);
      CutMatches(m, pattern[1..], pieces[1..]);
      if pattern[0] == ANY {
        AbsorbMatches(m, pattern, pieces[0], Join(pieces[1..]));
      } else {
        assert segs[1..] == Join(pieces[1..]);
      }
    }
  }

  /** `**` absorbs any number of segments. */
  lemma {:induction false} AbsorbMatches(m: Matcher, pattern: seq<string>, absorbed: seq<string>, segs: seq<string>)
    requires pattern != [] && pattern[0] == ANY && MatchGlob(m, pattern[1..], segs)
    ensures MatchGlob(m, pattern, absorbed + segs)
  {
    if absorbed == [] {
      assert absorbed + segs == segs;
    } else {
      AbsorbMatches(m, pattern, absorbed[1..], segs);
      assert (absorbed + segs)[1..] == absorbed[1..] + segs;
    }
  }

  /** `MatchGlob` is the declarative relation: the path matches exactly when it can be cut into consecutive
      pieces, one segment for each ordinary element and any number for each `**`. */
  lemma MatchIffCut(m: Matcher, pattern: seq<string>, segs: seq<string>)
    ensures MatchGlob(m, pattern, segs) <==> exists pieces :: Cut(m, pattern, pieces) && Join(pieces) == segs
  {
    if MatchGlob(m, pattern, segs) {
      var pieces := CutOf(m, pattern, segs);
    }
    if pieces :| Cut(m, pattern, pieces) && Join(pieces) == segs {
      CutMatches(m, pattern, pieces);
    }
  }

  ghost predicate MatchesAt(m: Matcher, p: seq<string>, q: seq<string>, segs: seq<string>, k: int) {
    0 <= k <= |segs| && MatchGlob(m, p, segs[..k]) && MatchGlob(m, q, segs[k..])
  }

  lemma {:induction false} ConcatSplits(m: Matcher, p: seq<string>, q: seq<string>, segs: seq<string>) returns (k: nat)
    requires MatchGlob(m, p + q, segs)
    ensures MatchesAt(m, p, q, segs, k)
    decreases |p|, |segs|
  {
    if p == [] {
      assert p + q == q && segs[0..] == segs;
      k := 0;
    } else {
      assert (p + q)[1..] == p[1..] + q;
      if p[0] == ANY && MatchGlob(m, p[1..] + q, segs) {
        k := ConcatSplits(m, p[1..], q, segs);
      } else {
        var j := ConcatSplits(m, if p[0] == ANY then p else p[1..], q, segs[1..]);
        k := j + 1;
        assert segs[..k][1..] == segs[1..][..j] && segs[k..] == segs[1..][j..];
      }
    }
  }

  lemma {:induction false} SplitConcats(m: Matcher, p: seq<string>, q: seq<string>, a: seq<string>, b: seq<string>)
    requires MatchGlob(m, p, a) && MatchGlob(m, q, b)
    ensures MatchGlob(m, p + q, a + b)
    decreases |p|, |a|
  {
    if p == [] {
      assert p + q == q && a + b == b;
    } else {
      assert (p + q)[1..] == p[1..] + q;
      if p[0] == ANY && MatchGlob(m, p[1..], a) {
        SplitConcats(m, p[1..], q, a, b);
      } else {
        assert (a + b)[1..] == a[1..] + b;
        SplitConcats(m, if p[0] == ANY then p else p[1..], q, a[1..], b);
      }
    }
  }

  /** Patterns compose: `p/q` matches exactly the paths that split into one matched by `p` and one by `q`. */
  lemma MatchConcat(m: Matcher, p: seq<string>, q: seq<string>, segs: seq<string>)
    ensures MatchGlob(m, p + q, segs) <==> exists k :: MatchesAt(m, p, q, segs, k)
  {
    if MatchGlob(m, p + q, segs) {
      var k := ConcatSplits(m, p, q, segs);
    }
    if k :| MatchesAt(m, p, q, segs, k) {
      SplitConcats(m, p, q, segs[..k], segs[k..]);
      assert segs[..k] + segs[k..] == segs;
    }
  }

  lemma AnyMatchesAll(m: Matcher, segs: seq<string>)
    ensures MatchGlob(m, [ANY], segs)
    ensures MatchGlob(m, [ANY, ANY], segs)
  {
    AbsorbMatches(m, [ANY], segs, []);
    assert segs + [] == segs && [ANY, ANY][1..] == [ANY];
  }

  /** Adjacent `**` elements collapse into one, anywhere in a pattern. */
  lemma AnyCollapses(m: Matcher, p: seq<string>, q: seq<string>, segs: seq<string>)
    ensures MatchGlob(m, p + [ANY, ANY] + q, segs) <==> MatchGlob(m, p + [ANY] + q, segs)
  {
    forall s ensures MatchGlob(m, [ANY], s) && MatchGlob(m, [ANY, ANY], s) {
      AnyMatchesAll(m, s);
    }
    Swap(m, p, [ANY, ANY], [ANY], q, segs);
    Swap(m, p, [ANY], [ANY, ANY], q, segs);
  }

  lemma Swap(m: Matcher, p: seq<string>, x: seq<string>, y: seq<string>, q: seq<string>, segs: seq<string>)
    requires forall s :: MatchGlob(m, x, s) ==> MatchGlob(m, y, s)
    ensures MatchGlob(m, p + x + q, segs) ==> MatchGlob(m, p + y + q, segs)
  {
    if MatchGlob(m, p + x + q, segs) {
      var k := ConcatSplits(m, p + x, q, segs);
      var j := ConcatSplits(m, p, x, segs[..k]);
      SplitConcats(m, p, y, segs[..k][..j], segs[..k][j..]);
      assert segs[..k][..j] + segs[..k][j..] == segs[..k];
      SplitConcats(m, p + y, q, segs[..k], segs[k..]);
      assert segs[..k] + segs[k..] == segs;
    }
  }

  // ---- Pruning ----

  /** Whether the walk still goes below `segs` for this pattern. */
  predicate PossiblePrefix(m: Matcher, segs: seq<string>, pattern: seq<string>) {
    if segs == [] then true
    else if pattern == [] then false
    else if pattern[0] == ANY then true
    else m(pattern[0], segs[0]) && PossiblePrefix(m, segs[1..], pattern[1..])
  }

  /** Pruning is sound: a path below which anything matches is never cut off. */
  lemma {:induction false} PrefixSound(m: Matcher, segs: seq<string>, pattern: seq<string>, ext: seq<string>)
    requires MatchGlob(m, pattern, segs + ext)
    ensures PossiblePrefix(m, segs, pattern)
  {
    if segs != [] && pattern != [] && pattern[0] != ANY {
      assert (segs + ext)[1..] == segs[1..] + ext;
      PrefixSound(m, segs[1..], pattern[1..], ext);
    }
  }

  /** Every ordinary element of the pattern matches some segment. */
  ghost predicate Satisfiable(m: Matcher, pattern: seq<string>) {
    forall i | 0 <= i < |pattern| :: pattern[i] == ANY || exists s :: m(pattern[i], s)
  }

  lemma {:induction false} Witness(m: Matcher, pattern: seq<string>) returns (segs: seq<string>)
    requires Satisfiable(m, pattern)
    ensures MatchGlob(m, pattern, segs)
  {
    if pattern == [] {
      segs := [];
    } else {
      var rest := Witness(m, pattern[1..]);
      if pattern[0] == ANY {
        segs := rest;
      } else {
        var s :| m(pattern[0], s);
        segs := [s] + rest;
        assert segs[1..] == rest;
      }
    }
  }

  lemma {:induction false} Extension(m: Matcher, segs: seq<string>, pattern: seq<string>) returns (ext: seq<string>)
    requires PossiblePrefix(m, segs, pattern) && Satisfiable(m, pattern)
    ensures MatchGlob(m, pattern, segs + ext)
  {
    if segs == [] {
      ext := Witness(m, pattern);
      assert segs + ext == ext;
    } else if pattern[0] == ANY {
      ext := Witness(m, pattern[1..]);
      AbsorbMatches(m, pattern, segs, ext);
    } else {
      ext := Extension(m, segs[1..], pattern[1..]);
      assert (segs + ext)[1..] == segs[1..] + ext;
    }
  }

  /** Pruning is exact: as long as no element of the pattern is unsatisfiable (a malformed one, say), the walk
      goes below a path exactly when some extension of it, possibly itself, matches. */
  lemma PrefixExact(m: Matcher, segs: seq<string>, pattern: seq<string>)
    requires Satisfiable(m, pattern)
    ensures PossiblePrefix(m, segs, pattern) <==> exists ext :: MatchGlob(m, pattern, segs + ext)
  {
    if PossiblePrefix(m, segs, pattern) {
      var ext := Extension(m, segs, pattern);
    }
    if ext :| MatchGlob(m, pattern, segs + ext) {
      PrefixSound(m, segs, pattern, ext);
    }
  }

  /** The loop of `isPossiblePrefix`. */
  method IsPossiblePrefix(m: Matcher, segs: seq<string>, pattern: seq<string>) returns (r: bool)
    ensures r == PossiblePrefix(m, segs, pattern)
  {
    var i := 0;
    while i < |segs|
      invariant 0 <= i <= |segs| && i <= |pattern|
      invariant PossiblePrefix(m, segs, pattern) == PossiblePrefix(m, segs[i..], pattern[i..])
    {
      if i >= |pattern| {
        return false;
      }
      if pattern[i] == ANY {
        return true;
      }
      if !m(pattern[i], segs[i]) {
        return false;
      }
      assert segs[i..][1..] == segs[i + 1..] && pattern[i..][1..] == pattern[i + 1..];
      i := i + 1;
    }
    return true;
  }

  predicate MatchesAny(m: Matcher, segs: seq<string>, globs: seq<seq<string>>) {
    exists g :: g in globs && MatchGlob(m, g, segs)
  }

  predicate PossibleForAny(m: Matcher, segs: seq<string>, globs: seq<seq<string>>) {
    exists g :: g in globs && PossiblePrefix(m, segs, g)
  }

  method AnyMatches(m: Matcher, segs: seq<string>, globs: seq<seq<string>>) returns (r: bool)
    ensures r == MatchesAny(m, segs, globs)
  {
    for i := 0 to |globs|
      invariant forall j | 0 <= j < i :: !MatchGlob(m, globs[j], segs)
    {
      if MatchGlob(m, globs[i], segs) {
        return true;
      }
    }
    return false;
  }

  method IsPossiblePrefixForAny(m: Matcher, segs: seq<string>, globs: seq<seq<string>>) returns (r: bool)
    ensures r == PossibleForAny(m, segs, globs)
  {
    for i := 0 to |globs|
      invariant forall j | 0 <= j < i :: !PossiblePrefix(m, segs, globs[j])
    {
      var possible := IsPossiblePrefix(m, segs, globs[i]);
      if possible {
        return true;
      }
    }
    return false;
  }
}
