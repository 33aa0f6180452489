/** The cold-page histogram (`internal/collector/damon.go`), in 64-bit arithmetic, against a count of
    addresses. */
module Histogram {
  import opened Numbers

  /** A region as DAMON reports it: half-open, with its access count and age in aggregation intervals. */
  datatype Region = Region(start: U64, end: U64, nrAccesses: U32, age: U32)

  datatype Hist = Hist(monitored: U64, hot: U64, cold60s: U64, cold300s: U64, cold1h: U64, cold6h: U64, cold24h: U64)

  /** The bucket boundaries in microseconds: 60 s, 300 s, 1 h, 6 h, 24 h. */
  const THRESHOLDS: seq<int> := [60_000_000, 300_000_000, 3_600_000_000, 21_600_000_000, 86_400_000_000]

  /** Which regions a total is over: all; those not accessed in the last interval and at least this old as
      the 64-bit product says; or those not accessed and really at least this old. */
  datatype Filter = All | ColdFor(aggrUS: U64, threshold: int) | ReallyCold(aggrUS: U64, threshold: int)

  predicate Passes(keep: Filter, r: Region) {
    match keep
    case All => true
    case ColdFor(aggrUS, threshold) => r.nrAccesses == 0 && Wrap(r.age * aggrUS) >= threshold
    case ReallyCold(aggrUS, threshold) => r.nrAccesses == 0 && r.age * aggrUS >= threshold
  }

  /** The sizes of the regions that pass, added up without wrapping. */
  function Sum(regions: seq<Region>, keep: Filter): int {
    if regions == [] then 0
    else Sum(regions[..|regions| - 1], keep) + SizeIf(regions[|regions| - 1], keep)
  }

  function SizeIf(r: Region, keep: Filter): int {
    if Passes(keep, r) then r.end - r.start else 0
  }

  /** What the histogram holds, whatever the regions. */
  function Buckets(regions: seq<Region>, aggrUS: U64): Hist {
    var cold := (i: int) requires 0 <= i < 5 => Wrap(Sum(regions, ColdFor(aggrUS, THRESHOLDS[i])));
    Hist(Wrap(Sum(regions, All)),
         Wrap(Sum(regions, All) - Sum(regions, ColdFor(aggrUS, THRESHOLDS[0]))),
         cold(0), cold(1), cold(2), cold(3), cold(4))
  }

  lemma SumStep(regions: seq<Region>, n: nat, keep: Filter)
    requires n < |regions|
    ensures Sum(regions[..n + 1], keep) == Sum(regions[..n], keep) + SizeIf(regions[n], keep)
  {
    assert regions[..n + 1][..n] == regions[..n];
  }

  lemma PlusWraps(a: int, b: int)
    ensures Wrap(Wrap(a) + Wrap(b)) == Wrap(a + b)
  {
  }

  /** Modular addition of a wrapped size. */
  lemma AddWraps(total: int, r: Region, keep: Filter)
    ensures Passes(keep, r) ==> Wrap(Wrap(total) + Wrap(r.end - r.start)) == Wrap(total + SizeIf(r, keep))
    ensures !Passes(keep, r) ==> Wrap(total) == Wrap(total + SizeIf(r, keep))
  {
    PlusWraps(total, r.end - r.start);
  }

  lemma SubWraps(a: int, b: int)
    ensures Wrap(Wrap(a) - Wrap(b)) == Wrap(a - b)
  {
  }

  /** The array holds the buckets of these regions. */
  ghost predicate Holds(cold: seq<U64>, regions: seq<Region>, aggrUS: U64) {
    |cold| == 5 && forall i | 0 <= i < 5 :: cold[i] == Wrap(Sum(regions, ColdFor(aggrUS, THRESHOLDS[i])))
  }

  /** The accumulation loop. */
  method BucketRegions(regions: seq<Region>, aggrUS: U64) returns (hist: Hist)
    ensures hist == Buckets(regions, aggrUS)
    ensures Disjoint(regions) ==> CountsIff(hist, regions, aggrUS)
    ensures Disjoint(regions) && AgesFit(regions, aggrUS) ==> Counts(hist, regions, aggrUS)
  {
    var monitored: U64 := 0;
    var cold := new U64[5](_ => 0);
    for n := 0 to |regions|
      invariant monitored == Wrap(Sum(regions[..n], All))
      invariant Holds(cold[..], regions[..n], aggrUS)
    {
      SumStep(regions, n, All);
      AddWraps(Sum(regions[..n], All), regions[n], All);
      monitored := Wrap(monitored + Wrap(regions[n].end - regions[n].start));
      AddRegion(cold, regions, n, aggrUS);
    }
    assert regions[..|regions|] == regions;
    Finished(cold[..], monitored, regions, aggrUS);
    hist := Hist(monitored, Wrap(monitored - cold[0]), cold[0], cold[1], cold[2], cold[3], cold[4]);
    BucketsMean(regions, aggrUS);
  }

  // ---- What the fields mean, in microseconds ----

  /** Each field counts the addresses of the regions it is about. */
  ghost predicate Counts(h: Hist, regions: seq<Region>, aggrUS: U64) {
    && h.monitored == |Covered(regions, All)|
    && h.hot == |Covered(regions, All) - Covered(regions, ReallyCold(aggrUS, 60 * 1_000_000))|
    && h.cold60s == |Covered(regions, ReallyCold(aggrUS, 60 * 1_000_000))|
    && h.cold300s == |Covered(regions, ReallyCold(aggrUS, 300 * 1_000_000))|
    && h.cold1h == |Covered(regions, ReallyCold(aggrUS, 3600 * 1_000_000))|
    && h.cold6h == |Covered(regions, ReallyCold(aggrUS, 6 * 3600 * 1_000_000))|
    && h.cold24h == |Covered(regions, ReallyCold(aggrUS, 24 * 3600 * 1_000_000))|
  }

  /** The exact condition, field by field. */
  ghost predicate CountsIff(h: Hist, regions: seq<Region>, aggrUS: U64) {
    && h.monitored == |Covered(regions, All)|
    && (h.hot == |Covered(regions, All) - Covered(regions, ReallyCold(aggrUS, 60 * 1_000_000))|
        <==> NoneMisjudged(regions, aggrUS, 60 * 1_000_000))
    && (h.cold60s == |Covered(regions, ReallyCold(aggrUS, 60 * 1_000_000))|
        <==> NoneMisjudged(regions, aggrUS, 60 * 1_000_000))
    && (h.cold300s == |Covered(regions, ReallyCold(aggrUS, 300 * 1_000_000))|
        <==> NoneMisjudged(regions, aggrUS, 300 * 1_000_000))
    && (h.cold1h == |Covered(regions, ReallyCold(aggrUS, 3600 * 1_000_000))|
        <==> NoneMisjudged(regions, aggrUS, 3600 * 1_000_000))
    && (h.cold6h == |Covered(regions, ReallyCold(aggrUS, 6 * 3600 * 1_000_000))|
        <==> NoneMisjudged(regions, aggrUS, 6 * 3600 * 1_000_000))
    && (h.cold24h == |Covered(regions, ReallyCold(aggrUS, 24 * 3600 * 1_000_000))|
        <==> NoneMisjudged(regions, aggrUS, 24 * 3600 * 1_000_000))
  }

  lemma {:induction false} BucketsMean(regions: seq<Region>, aggrUS: U64)
    ensures Disjoint(regions) ==> CountsIff(Buckets(regions, aggrUS), regions, aggrUS)
    ensures Disjoint(regions) && AgesFit(regions, aggrUS) ==> Counts(Buckets(regions, aggrUS), regions, aggrUS)
  {
    if Disjoint(regions) {
      BucketsCountIff(regions, aggrUS);
      if AgesFit(regions, aggrUS) {
        BucketsCount(regions, aggrUS);
      }
    }
  }

  /** An address is really cold if it lies in a region without an access whose age, in microseconds, reaches
      the threshold. */
  lemma ColdMeans(regions: seq<Region>, aggrUS: U64, threshold: int, a: U64)
    ensures a in Covered(regions, ReallyCold(aggrUS, threshold)) <==>
      exists r | r in regions :: r.nrAccesses == 0 && r.age * aggrUS >= threshold && r.start <= a < r.end
  {
    var keep := ReallyCold(aggrUS, threshold);
    if a in Covered(regions, keep) {
      var i :| HeldBy(a, regions, keep, i);
      assert regions[i] in regions;
    }
    if r :| r in regions && r.nrAccesses == 0 && r.age * aggrUS >= threshold && r.start <= a < r.end {
      var i :| 0 <= i < |regions| && regions[i] == r;
      assert HeldBy(a, regions, keep, i);
    }
  }

  lemma Finished(cold: seq<U64>, monitored: U64, regions: seq<Region>, aggrUS: U64)
    requires Holds(cold, regions, aggrUS) && monitored == Wrap(Sum(regions, All))
    ensures Hist(monitored, Wrap(monitored - cold[0]), cold[0], cold[1], cold[2], cold[3], cold[4]) == Buckets(regions, aggrUS)
  {
    SubWraps(Sum(regions, All), Sum(regions, ColdFor(aggrUS, THRESHOLDS[0])));
  }

  lemma BucketStep(regions: seq<Region>, n: nat, aggrUS: U64, threshold: int)
    requires n < |regions|
    ensures var r := regions[n];
      var was := Wrap(Sum(regions[..n], ColdFor(aggrUS, threshold)));
      Wrap(Sum(regions[..n + 1], ColdFor(aggrUS, threshold)))
      == if r.nrAccesses == 0 && Wrap(r.age * aggrUS) >= threshold then Wrap(was + Wrap(r.end - r.start)) else was
  {
    SumStep(regions, n, ColdFor(aggrUS, threshold));
    AddWraps(Sum(regions[..n], ColdFor(aggrUS, threshold)), regions[n], ColdFor(aggrUS, threshold));
  }

  /** One round of it: region `n` goes into every bucket it is old enough for. */
  method AddRegion(cold: array<U64>, regions: seq<Region>, n: nat, aggrUS: U64)
    requires n < |regions| && Holds(cold[..], regions[..n], aggrUS)
    modifies cold
    ensures Holds(cold[..], regions[..n + 1], aggrUS)
  {
    var r := regions[n];
    var sz: int := Wrap(r.end - r.start);
    forall i | 0 <= i < 5
      ensures cold[i] == Wrap(Sum(regions[..n], ColdFor(aggrUS, THRESHOLDS[i])))
      ensures Wrap(Sum(regions[..n + 1], ColdFor(aggrUS, THRESHOLDS[i])))
              == if r.nrAccesses == 0 && Wrap(r.age * aggrUS) >= THRESHOLDS[i] then Wrap(cold[i] + sz) else cold[i]
    {
      assert cold[i] == cold[..][i];
      BucketStep(regions, n, aggrUS, THRESHOLDS[i]);
    }
    if r.nrAccesses > 0 {
      return;
    }
    var ageUS := Wrap(r.age * aggrUS);
    ghost var before := cold[..];
    for i := 0 to 5
      invariant forall k | i <= k < 5 :: cold[k] == before[k]
      invariant forall k | 0 <= k < i :: cold[k] == if ageUS >= THRESHOLDS[k] then Wrap(before[k] + sz) else before[k]
    {
      if ageUS >= THRESHOLDS[i] {
        cold[i] := Wrap(cold[i] + sz);
      }
    }
  }

  // ---- The histogram as a count of addresses ----

  predicate Within(a: int, lo: int, hi: int) {
    lo <= a < hi
  }

  function Interval(lo: int, hi: int): set<int> {
    set a: int | lo <= a < hi && Within(a, lo, hi)
  }

  lemma {:induction false} IntervalSize(lo: int, hi: int)
    requires lo <= hi
    ensures |Interval(lo, hi)| == hi - lo
    decreases hi - lo
  {
    if lo == hi {
      assert Interval(lo, hi) == {};
    } else {
      IntervalSize(lo, hi - 1);
      assert Interval(lo, hi) == Interval(lo, hi - 1) + {hi - 1};
    }
  }

  /** Address `a` lies in region `i`, which passes. */
  ghost predicate HeldBy(a: int, regions: seq<Region>, keep: Filter, i: int) {
    0 <= i < |regions| && Passes(keep, regions[i]) && regions[i].start <= a < regions[i].end
  }

  ghost predicate Held(a: int, regions: seq<Region>, keep: Filter) {
    exists i :: HeldBy(a, regions, keep, i)
  }

  /** The addresses in the regions that pass. */
  ghost function Covered(regions: seq<Region>, keep: Filter): set<int> {
    set a: int | 0 <= a < TWO_64 && Held(a, regions, keep)
  }

  /** Pairwise disjoint half-open regions. */
  ghost predicate Disjoint(regions: seq<Region>) {
    && (forall i | 0 <= i < |regions| :: regions[i].start <= regions[i].end)
    && (forall i, j | 0 <= i < j < |regions| ::
          regions[i].end <= regions[j].start || regions[j].end <= regions[i].start)
  }

  lemma CoveredStep(regions: seq<Region>, n: nat, keep: Filter)
    requires n + 1 == |regions|
    ensures Covered(regions, keep) == Covered(regions[..n], keep) + Own(regions[n], keep)
  {
    var rest, own := Covered(regions[..n], keep), Own(regions[n], keep);
    forall a | a in rest + own ensures a in Covered(regions, keep) {
      if a in rest {
        var i :| HeldBy(a, regions[..n], keep, i);
        assert HeldBy(a, regions, keep, i);
      } else {
        assert HeldBy(a, regions, keep, n);
      }
    }
    forall a | a in Covered(regions, keep) ensures a in rest + own {
      var i :| HeldBy(a, regions, keep, i);
      if i < n {
        assert HeldBy(a, regions[..n], keep, i);
      }
    }
  }

  /** The addresses a region adds. */
  ghost function Own(r: Region, keep: Filter): set<int> {
    if Passes(keep, r) then Interval(r.start, r.end) else {}
  }

  lemma OwnSize(r: Region, keep: Filter)
    requires r.start <= r.end
    ensures |Own(r, keep)| == SizeIf(r, keep)
  {
    IntervalSize(r.start, r.end);
  }

  lemma OwnApart(regions: seq<Region>, n: nat, keep: Filter)
    requires n + 1 == |regions| && Disjoint(regions)
    ensures Covered(regions[..n], keep) !! Own(regions[n], keep)
  {
    forall a | a in Covered(regions[..n], keep) ensures a !in Own(regions[n], keep) {
      var i :| HeldBy(a, regions[..n], keep, i);
      assert regions[..n][i] == regions[i];
    }
  }

  lemma {:induction false} SumCounts(regions: seq<Region>, keep: Filter)
    requires Disjoint(regions)
    ensures Sum(regions, keep) == |Covered(regions, keep)|
  {
    if regions == [] {
      assert Covered(regions, keep) == {};
    } else {
      var n := |regions| - 1;
      SumCounts(regions[..n], keep);
      CoveredStep(regions, n, keep);
      OwnApart(regions, n, keep);
      OwnSize(regions[n], keep);
    }
  }

  lemma SubsetSize(a: set<int>, b: set<int>)
    requires a <= b
    ensures |a| <= |b|
  {
    assert b == a + (b - a);
  }

  /** Disjoint regions cannot hold more addresses than there are. */
  lemma CoveredFits(regions: seq<Region>, keep: Filter)
    ensures |Covered(regions, keep)| < TWO_64
  {
    SubsetSize(Covered(regions, keep), Interval(0, TWO_64 - 1));
    IntervalSize(0, TWO_64 - 1);
  }

  lemma WrapSmall(n: int)
    requires 0 <= n < TWO_64
    ensures Wrap(n) == n
  {
  }

  lemma Rest(all: set<int>, part: set<int>)
    requires part <= all
    ensures |all - part| == |all| - |part|
  {
    assert all == part + (all - part);
  }

  lemma AllCounts(regions: seq<Region>)
    requires Disjoint(regions)
    ensures Wrap(Sum(regions, All)) == Sum(regions, All) == |Covered(regions, All)|
  {
    SumCounts(regions, All);
    CoveredFits(regions, All);
    WrapSmall(Sum(regions, All));
  }

  lemma ColdIsPart(regions: seq<Region>, aggrUS: U64, threshold: int)
    ensures Covered(regions, ReallyCold(aggrUS, threshold)) <= Covered(regions, All)
  {
    forall a | a in Covered(regions, ReallyCold(aggrUS, threshold)) ensures a in Covered(regions, All) {
      var i :| HeldBy(a, regions, ReallyCold(aggrUS, threshold), i);
      assert HeldBy(a, regions, All, i);
    }
  }

  lemma ColderIsPart(regions: seq<Region>, aggrUS: U64, colder: int, threshold: int)
    requires threshold <= colder
    ensures |Covered(regions, ReallyCold(aggrUS, colder))| <= |Covered(regions, ReallyCold(aggrUS, threshold))|
  {
    var a, b := Covered(regions, ReallyCold(aggrUS, colder)), Covered(regions, ReallyCold(aggrUS, threshold));
    forall x | x in a ensures x in b {
      var i :| HeldBy(x, regions, ReallyCold(aggrUS, colder), i);
      assert HeldBy(x, regions, ReallyCold(aggrUS, threshold), i);
    }
    SubsetSize(a, b);
  }

  // ---- Exactly when the histogram is right ----

  /** An age that has reached the threshold falls below it once wrapped. */
  predicate FallsShort(age: int, threshold: int) {
    Wrap(age) < threshold <= age
  }

  /** The wrapped product takes an unaccessed, non-empty region for younger than the threshold it has reached. */
  predicate Misjudged(r: Region, aggrUS: U64, threshold: int) {
    r.nrAccesses == 0 && r.start < r.end && FallsShort(r.age * aggrUS, threshold)
  }

  lemma WrapAtMost(n: int)
    requires n >= 0
    ensures Wrap(n) <= n
  {
  }

  /** What one region contributes: never too much, and too little exactly if it is misjudged. */
  lemma MisjudgedSize(r: Region, aggrUS: U64, threshold: int)
    requires r.start <= r.end
    ensures SizeIf(r, ColdFor(aggrUS, threshold)) <= SizeIf(r, ReallyCold(aggrUS, threshold))
    ensures SizeIf(r, ColdFor(aggrUS, threshold)) == SizeIf(r, ReallyCold(aggrUS, threshold))
            <==> !Misjudged(r, aggrUS, threshold)
  {
    WrapAtMost(r.age * aggrUS);
  }

  ghost predicate NoneMisjudged(regions: seq<Region>, aggrUS: U64, threshold: int) {
    forall i | 0 <= i < |regions| :: !Misjudged(regions[i], aggrUS, threshold)
  }

  lemma {:induction false} MisjudgedSum(regions: seq<Region>, aggrUS: U64, threshold: int)
    requires forall i | 0 <= i < |regions| :: regions[i].start <= regions[i].end
    ensures Sum(regions, ColdFor(aggrUS, threshold)) <= Sum(regions, ReallyCold(aggrUS, threshold))
    ensures Sum(regions, ColdFor(aggrUS, threshold)) == Sum(regions, ReallyCold(aggrUS, threshold))
            <==> NoneMisjudged(regions, aggrUS, threshold)
  {
    if regions != [] {
      var n := |regions| - 1;
      MisjudgedSum(regions[..n], aggrUS, threshold);
      MisjudgedSize(regions[n], aggrUS, threshold);
      assert NoneMisjudged(regions, aggrUS, threshold)
        <==> NoneMisjudged(regions[..n], aggrUS, threshold) && !Misjudged(regions[n], aggrUS, threshold);
    }
  }

  lemma {:induction false} SumBounds(regions: seq<Region>, aggrUS: U64, threshold: int)
    requires Disjoint(regions)
    ensures 0 <= Sum(regions, ColdFor(aggrUS, threshold)) <= Sum(regions, All) < TWO_64
    ensures Sum(regions, ReallyCold(aggrUS, threshold)) == |Covered(regions, ReallyCold(aggrUS, threshold))|
  {
    SumCounts(regions, ColdFor(aggrUS, threshold));
    SumCounts(regions, ReallyCold(aggrUS, threshold));
    MisjudgedSum(regions, aggrUS, threshold);
    ColdIsPart(regions, aggrUS, threshold);
    SubsetSize(Covered(regions, ReallyCold(aggrUS, threshold)), Covered(regions, All));
    AllCounts(regions);
    CoveredFits(regions, All);
  }

  /** One cold bucket is the number of addresses in unaccessed regions at least that old, if and only if no
      region is misjudged at its threshold. */
  lemma ColdCountsIff(regions: seq<Region>, aggrUS: U64, threshold: int)
    requires Disjoint(regions)
    ensures Wrap(Sum(regions, ColdFor(aggrUS, threshold))) == |Covered(regions, ReallyCold(aggrUS, threshold))|
            <==> NoneMisjudged(regions, aggrUS, threshold)
  {
    SumBounds(regions, aggrUS, threshold);
    WrapSmall(Sum(regions, ColdFor(aggrUS, threshold)));
    MisjudgedSum(regions, aggrUS, threshold);
  }

  lemma {:induction false} RestSize(regions: seq<Region>, aggrUS: U64, threshold: int)
    requires Disjoint(regions)
    ensures |Covered(regions, All) - Covered(regions, ReallyCold(aggrUS, threshold))|
            == Sum(regions, All) - Sum(regions, ReallyCold(aggrUS, threshold))
  {
    SumCounts(regions, All);
    SumCounts(regions, ReallyCold(aggrUS, threshold));
    ColdIsPart(regions, aggrUS, threshold);
    Rest(Covered(regions, All), Covered(regions, ReallyCold(aggrUS, threshold)));
  }

  /** And `hot` is exactly the rest, if and only if no region is misjudged at the first threshold. */
  lemma {:induction false} HotCountsIff(regions: seq<Region>, aggrUS: U64)
    requires Disjoint(regions)
    ensures Buckets(regions, aggrUS).hot == |Covered(regions, All) - Covered(regions, ReallyCold(aggrUS, THRESHOLDS[0]))|
            <==> NoneMisjudged(regions, aggrUS, THRESHOLDS[0])
  {
    SumBounds(regions, aggrUS, THRESHOLDS[0]);
    RestSize(regions, aggrUS, THRESHOLDS[0]);
    HotIs(regions, aggrUS);
    MisjudgedSum(regions, aggrUS, THRESHOLDS[0]);
  }

  lemma {:induction false} HotIs(regions: seq<Region>, aggrUS: U64)
    requires 0 <= Sum(regions, ColdFor(aggrUS, THRESHOLDS[0])) <= Sum(regions, All) < TWO_64
    ensures Buckets(regions, aggrUS).hot == Sum(regions, All) - Sum(regions, ColdFor(aggrUS, THRESHOLDS[0]))
  {
    WrapSmall(Sum(regions, All) - Sum(regions, ColdFor(aggrUS, THRESHOLDS[0])));
  }

  lemma {:induction false} MonitoredIs(regions: seq<Region>, aggrUS: U64)
    requires Disjoint(regions)
    ensures Buckets(regions, aggrUS).monitored == |Covered(regions, All)|
  {
    AllCounts(regions);
  }

  /** What bucket `i` should hold. */
  ghost function TrulyCold(regions: seq<Region>, aggrUS: U64, i: nat): nat
    requires i < 5
  {
    |Covered(regions, ReallyCold(aggrUS, THRESHOLDS[i]))|
  }

  function ColdBucket(h: Hist, i: nat): U64
    requires i < 5
  {
    if i == 0 then h.cold60s else if i == 1 then h.cold300s else if i == 2 then h.cold1h
    else if i == 3 then h.cold6h else h.cold24h
  }

  /** Every bucket of the histogram is the right count. */
  ghost predicate Exact(regions: seq<Region>, aggrUS: U64) {
    var h := Buckets(regions, aggrUS);
    && h.monitored == |Covered(regions, All)|
    && h.hot == |Covered(regions, All) - Covered(regions, ReallyCold(aggrUS, THRESHOLDS[0]))|
    && (forall i | 0 <= i < 5 :: ColdBucket(h, i) == TrulyCold(regions, aggrUS, i))
  }

  lemma BucketCountsIff(regions: seq<Region>, aggrUS: U64, i: nat)
    requires Disjoint(regions) && i < 5
    ensures ColdBucket(Buckets(regions, aggrUS), i) == TrulyCold(regions, aggrUS, i)
            <==> NoneMisjudged(regions, aggrUS, THRESHOLDS[i])
  {
    ColdCountsIff(regions, aggrUS, THRESHOLDS[i]);
  }

  /** The exact condition, bucket by bucket: on disjoint regions the total is always right; a cold bucket is
      right if and only if no region is misjudged at its threshold; and `hot` is right if and only if the
      60-second bucket is. */
  lemma {:induction false} BucketsCountIff(regions: seq<Region>, aggrUS: U64)
    requires Disjoint(regions)
    ensures CountsIff(Buckets(regions, aggrUS), regions, aggrUS)
    ensures forall i | 0 <= i < 5 ::
      ColdBucket(Buckets(regions, aggrUS), i) == TrulyCold(regions, aggrUS, i)
      <==> NoneMisjudged(regions, aggrUS, THRESHOLDS[i])
  {
    MonitoredIs(regions, aggrUS);
    HotCountsIff(regions, aggrUS);
    BucketCountsIff(regions, aggrUS, 0);
    BucketCountsIff(regions, aggrUS, 1);
    BucketCountsIff(regions, aggrUS, 2);
    BucketCountsIff(regions, aggrUS, 3);
    BucketCountsIff(regions, aggrUS, 4);
    assert THRESHOLDS[0] == 60 * 1_000_000 && THRESHOLDS[1] == 300 * 1_000_000 && THRESHOLDS[2] == 3600 * 1_000_000;
    assert THRESHOLDS[3] == 6 * 3600 * 1_000_000 && THRESHOLDS[4] == 24 * 3600 * 1_000_000;
  }

  lemma ExactIff(regions: seq<Region>, aggrUS: U64)
    requires Disjoint(regions)
    ensures Exact(regions, aggrUS) <==> forall i | 0 <= i < 5 :: NoneMisjudged(regions, aggrUS, THRESHOLDS[i])
  {
    BucketsCountIff(regions, aggrUS);
    assert Exact(regions, aggrUS) ==> ColdBucket(Buckets(regions, aggrUS), 0) == TrulyCold(regions, aggrUS, 0);
  }

  ghost predicate AlwaysExact(aggrUS: U64) {
    forall regions: seq<Region> | Disjoint(regions) :: Exact(regions, aggrUS)
  }

  /** Some 32-bit age is taken for younger than the threshold it has reached. */
  ghost predicate AgeMisjudged(aggrUS: U64, threshold: int, age: U32) {
    FallsShort(age * aggrUS, threshold)
  }

  /** For an aggregation interval: the histogram of every list of disjoint regions is right, if and only if no
      32-bit age is misjudged at any of the five thresholds. */
  lemma AlwaysExactIff(aggrUS: U64)
    ensures AlwaysExact(aggrUS) <==> forall i, age | 0 <= i < 5 :: !AgeMisjudged(aggrUS, THRESHOLDS[i], age)
  {
    if i, age :| 0 <= i < 5 && AgeMisjudged(aggrUS, THRESHOLDS[i], age) {
      var regions := [Region(0, 1, 0, age)];
      assert Disjoint(regions) && Misjudged(regions[0], aggrUS, THRESHOLDS[i]);
      assert !NoneMisjudged(regions, aggrUS, THRESHOLDS[i]);
      ExactIff(regions, aggrUS);
    } else {
      forall regions: seq<Region> | Disjoint(regions) ensures Exact(regions, aggrUS) {
        forall i, k | 0 <= i < 5 && 0 <= k < |regions| ensures !Misjudged(regions[k], aggrUS, THRESHOLDS[i]) {
          assert !AgeMisjudged(aggrUS, THRESHOLDS[i], regions[k].age);
        }
        ExactIff(regions, aggrUS);
      }
    }
  }

  lemma SmallIsRight(age: int, threshold: int)
    requires 0 <= age < TWO_64
    ensures !FallsShort(age, threshold)
  {
  }

  /** No age overflows its 64-bit product. */
  ghost predicate AgesFit(regions: seq<Region>, aggrUS: U64) {
    forall i | 0 <= i < |regions| :: regions[i].age * aggrUS < TWO_64
  }

  lemma NoneMisjudgedIfFit(regions: seq<Region>, aggrUS: U64, threshold: int)
    requires AgesFit(regions, aggrUS)
    ensures NoneMisjudged(regions, aggrUS, threshold)
  {
    forall i | 0 <= i < |regions| ensures !Misjudged(regions[i], aggrUS, threshold) {
      Times(0, regions[i].age, 0, aggrUS);
      SmallIsRight(regions[i].age * aggrUS, threshold);
    }
  }

  /** The histogram counts bytes: on disjoint regions whose ages fit, no step wraps, every cold bucket is the
      number of addresses in unaccessed regions at least that old, and `hot` is exactly the rest. */
  lemma {:induction false} BucketsCount(regions: seq<Region>, aggrUS: U64)
    requires Disjoint(regions) && AgesFit(regions, aggrUS)
    ensures Exact(regions, aggrUS) && Counts(Buckets(regions, aggrUS), regions, aggrUS)
  {
    forall i | 0 <= i < 5 ensures NoneMisjudged(regions, aggrUS, THRESHOLDS[i]) {
      NoneMisjudgedIfFit(regions, aggrUS, THRESHOLDS[i]);
    }
    ExactIff(regions, aggrUS);
    BucketFields(Buckets(regions, aggrUS), regions, aggrUS);
  }

  lemma BucketFields(h: Hist, regions: seq<Region>, aggrUS: U64)
    requires forall i | 0 <= i < 5 :: ColdBucket(h, i) == TrulyCold(regions, aggrUS, i)
    ensures h.cold60s == |Covered(regions, ReallyCold(aggrUS, 60 * 1_000_000))|
    ensures h.cold300s == |Covered(regions, ReallyCold(aggrUS, 300 * 1_000_000))|
    ensures h.cold1h == |Covered(regions, ReallyCold(aggrUS, 3600 * 1_000_000))|
    ensures h.cold6h == |Covered(regions, ReallyCold(aggrUS, 6 * 3600 * 1_000_000))|
    ensures h.cold24h == |Covered(regions, ReallyCold(aggrUS, 24 * 3600 * 1_000_000))|
  {
    assert ColdBucket(h, 0) == TrulyCold(regions, aggrUS, 0) && ColdBucket(h, 1) == TrulyCold(regions, aggrUS, 1);
    assert ColdBucket(h, 2) == TrulyCold(regions, aggrUS, 2) && ColdBucket(h, 3) == TrulyCold(regions, aggrUS, 3);
    assert ColdBucket(h, 4) == TrulyCold(regions, aggrUS, 4);
  }

  /** The buckets are nested. */
  lemma BucketsNested(regions: seq<Region>, aggrUS: U64)
    requires Disjoint(regions) && AgesFit(regions, aggrUS)
    ensures var h := Buckets(regions, aggrUS);
      h.cold24h <= h.cold6h <= h.cold1h <= h.cold300s <= h.cold60s <= h.monitored && h.hot + h.cold60s == h.monitored
  {
    BucketsCount(regions, aggrUS);
    ColderIsPart(regions, aggrUS, THRESHOLDS[4], THRESHOLDS[3]);
    ColderIsPart(regions, aggrUS, THRESHOLDS[3], THRESHOLDS[2]);
    ColderIsPart(regions, aggrUS, THRESHOLDS[2], THRESHOLDS[1]);
    ColderIsPart(regions, aggrUS, THRESHOLDS[1], THRESHOLDS[0]);
    ColdIsPart(regions, aggrUS, THRESHOLDS[0]);
    Rest(Covered(regions, All), Covered(regions, ReallyCold(aggrUS, THRESHOLDS[0])));
  }

  /** Every 32-bit age, times the interval, fits a word exactly when the aggregation interval is at most 2^32 + 1 microseconds. */
  lemma AllAgesFitIff(aggrUS: U64)
    ensures (forall age: U32 :: age * aggrUS < TWO_64) <==> aggrUS <= TWO_32 + 1
  {
    var top: U32 := TWO_32 - 1;
    assert top * (TWO_32 + 1) == TWO_64 - 1;
    if aggrUS <= TWO_32 + 1 {
      forall age: U32 ensures age * aggrUS < TWO_64 {
        Times(age, top, aggrUS, TWO_32 + 1);
      }
    } else {
      Times(top, top, TWO_32 + 2, aggrUS);
      assert top * aggrUS >= TWO_64;
    }
  }

  lemma Times(a: int, b: int, c: int, d: int)
    requires 0 <= a <= b && 0 <= c <= d
    ensures a * c <= b * d
  {
    assert a * c <= b * c <= b * d;
  }

  /** So up to that interval every histogram is right. */
  lemma SmallIntervalsExact(aggrUS: U64)
    requires aggrUS <= TWO_32 + 1
    ensures AlwaysExact(aggrUS)
  {
    forall i, age: U32 | 0 <= i < 5 ensures !AgeMisjudged(aggrUS, THRESHOLDS[i], age) {
      AgeFits(aggrUS, THRESHOLDS[i], age);
    }
    AlwaysExactIff(aggrUS);
  }

  lemma AgeFits(aggrUS: U64, threshold: int, age: U32)
    requires aggrUS <= TWO_32 + 1
    ensures !AgeMisjudged(aggrUS, threshold, age)
  {
    Times(age, TWO_32 - 1, aggrUS, TWO_32 + 1);
    Times(0, age, 0, aggrUS);
    ProductFits(age * aggrUS);
    SmallIsRight(age * aggrUS, threshold);
  }

  lemma ProductFits(n: int)
    requires n <= (TWO_32 - 1) * (TWO_32 + 1)
    ensures n < TWO_64
  {
  }

  /** Right beyond that bound the histogram can be wrong: a page idle for as long as an age can say is not counted
      as cold for six hours. */
  lemma OldestAgeWraps()
    ensures var r := Region(0, 4096, 0, TWO_32 - 1);
      && Buckets([r], TWO_32 + 2).cold6h == 0
      && Covered([r], ReallyCold(TWO_32 + 2, THRESHOLDS[3])) == Interval(0, 4096)
      && Misjudged(r, TWO_32 + 2, THRESHOLDS[3])
  {
    var r := Region(0, 4096, 0, TWO_32 - 1);
    var keep := ReallyCold(TWO_32 + 2, THRESHOLDS[3]);
    assert (TWO_32 - 1) * (TWO_32 + 2) == TWO_64 + TWO_32 - 2;
    assert [r][..0] == [];
    assert Sum([r], ColdFor(TWO_32 + 2, THRESHOLDS[3])) == 0;
    forall a | a in Interval(0, 4096) ensures a in Covered([r], keep) {
      assert HeldBy(a, [r], keep, 0);
    }
  }

  // ---- What the histogram does not depend on ----

  lemma {:induction false} SumConcat(a: seq<Region>, b: seq<Region>, keep: Filter)
    ensures Sum(a + b, keep) == Sum(a, keep) + Sum(b, keep)
  {
    if b == [] {
      assert a + b == a;
    } else {
      var n := |b| - 1;
      SumConcat(a, b[..n], keep);
      assert (a + b)[..|a + b| - 1] == a + b[..n];
    }
  }

  lemma WithoutOne(s: seq<Region>, l: seq<Region>, t: seq<Region>, r: Region, a: seq<Region>, b: seq<Region>)
    requires a == s + [r] && b == l + [r] + t && multiset(a) == multiset(b)
    ensures multiset(s) == multiset(l + t)
  {
    assert multiset(a) == multiset(s) + multiset{r};
    assert multiset(b) == multiset(l) + multiset{r} + multiset(t);
    assert multiset(l + t) == multiset(l) + multiset(t);
    assert multiset(s) == multiset(a) - multiset{r};
    assert multiset(l + t) == multiset(b) - multiset{r};
  }

  lemma {:induction false} SumPermuted(a: seq<Region>, b: seq<Region>, keep: Filter)
    requires multiset(a) == multiset(b)
    ensures Sum(a, keep) == Sum(b, keep)
  {
    if a == [] {
      assert |multiset(b)| == 0;
    } else {
      var n := |a| - 1;
      var r := a[n];
      assert a == a[..n] + [r];
      assert r in multiset(a);
      var i :| 0 <= i < |b| && b[i] == r;
      var l, t := b[..i], b[i + 1..];
      WithoutOne(a[..n], l, t, r, a, b);
      assert b == l + [r] + t;
      SumPermuted(a[..n], l + t, keep);
      SumConcat(l, t, keep);
      SumConcat(l + [r], t, keep);
      SumConcat(l, [r], keep);
      assert [r][..0] == [];
    }
  }

  /** The order of the regions does not matter, for any regions at all. */
  lemma BucketsPermuted(a: seq<Region>, b: seq<Region>, aggrUS: U64)
    requires multiset(a) == multiset(b)
    ensures Buckets(a, aggrUS) == Buckets(b, aggrUS)
  {
    SumPermuted(a, b, All);
    forall k | 0 <= k < 5
      ensures Sum(a, ColdFor(aggrUS, THRESHOLDS[k])) == Sum(b, ColdFor(aggrUS, THRESHOLDS[k]))
    {
      SumPermuted(a, b, ColdFor(aggrUS, THRESHOLDS[k]));
    }
  }

  lemma SumAround(before: seq<Region>, mid: seq<Region>, after: seq<Region>, keep: Filter)
    ensures Sum(before + mid + after, keep) == Sum(before, keep) + Sum(mid, keep) + Sum(after, keep)
  {
    SumConcat(before + mid, after, keep);
    SumConcat(before, mid, keep);
  }

  lemma SumOne(r: Region, keep: Filter)
    ensures Sum([r], keep) == SizeIf(r, keep)
  {
    assert [r][..0] == [];
  }

  lemma SumSplit(before: seq<Region>, r: Region, mid: U64, after: seq<Region>, keep: Filter)
    requires Passes(keep, r) == Passes(keep, r.(end := mid)) == Passes(keep, r.(start := mid))
    ensures Sum(before + [r] + after, keep) == Sum(before + [r.(end := mid), r.(start := mid)] + after, keep)
  {
    var low, high := r.(end := mid), r.(start := mid);
    SumAround(before, [r], after, keep);
    SumAround(before, [low, high], after, keep);
    SumConcat([low], [high], keep);
    assert [low, high] == [low] + [high];
    SumOne(r, keep);
    SumOne(low, keep);
    SumOne(high, keep);
  }

  /** Nor does cutting a region in two of the same age and access count, at any point. */
  lemma BucketsSplit(before: seq<Region>, r: Region, mid: U64, after: seq<Region>, aggrUS: U64)
    ensures Buckets(before + [r] + after, aggrUS)
            == Buckets(before + [r.(end := mid), r.(start := mid)] + after, aggrUS)
  {
    SumSplit(before, r, mid, after, All);
    forall k | 0 <= k < 5
      ensures Sum(before + [r] + after, ColdFor(aggrUS, THRESHOLDS[k]))
              == Sum(before + [r.(end := mid), r.(start := mid)] + after, ColdFor(aggrUS, THRESHOLDS[k]))
    {
      SumSplit(before, r, mid, after, ColdFor(aggrUS, THRESHOLDS[k]));
    }
  }
}
