/** Starting a DAMON session (`pkg/damon/start_stop.go`): the program of sysfs writes it generates, run against
    a model of the admin tree that DAMON keeps behind those files. */
module SysfsProgram {
  import opened Options
  import opened Numbers
  import opened Iomem

  // ---- The files ----

  datatype Bound = Low | High

  datatype RegionFile = RegionStart | RegionEnd
  datatype TargetFile = NrRegions | InRegion(i: nat, r: RegionFile)
  datatype SchemeFile = Action | Sz(b: Bound) | NrAccesses(b: Bound) | Age(b: Bound)
  datatype ContextFile =
    | Operations | SampleUS | AggrUS | UpdateUS | RegionCount(b: Bound)
    | NrTargets | InTarget(i: nat, t: TargetFile)
    | NrSchemes | InScheme(i: nat, s: SchemeFile)
  datatype KdamondFile = State | NrContexts | InContext(i: nat, c: ContextFile)
  datatype File = NrKdamonds | InKdamond(i: nat, k: KdamondFile)

  datatype Write = Write(file: File, value: string)

  // ---- The tree behind them ----

  /** A monitored range, half-open. */
  datatype Region = Region(start: U64, end: U64)
  datatype Target = Target(regions: seq<Region>)
  datatype Range = Range(low: U64, high: U64)
  datatype Scheme = Scheme(action: string, sz: Range, nrAccesses: Range, age: Range)
  datatype Context = Context(ops: string, sampleUS: U64, aggrUS: U64, updateUS: U64, count: Range,
                             targets: seq<Target>, schemes: seq<Scheme>)
  datatype Kdamond = Kdamond(on: bool, contexts: seq<Context>)
  datatype Admin = Admin(kdamonds: seq<Kdamond>)

  const NEW_REGION := Region(0, 0)
  const NEW_TARGET := Target([])
  const NEW_SCHEME := Scheme("", Range(0, 0), Range(0, 0), Range(0, 0))
  const NEW_CONTEXT := Context("", 0, 0, 0, Range(0, 0), [], [])
  const NEW_KDAMOND := Kdamond(false, [])

  const WIDE := Range(0, TWO_64 - 1)

  predicate AnyOn(t: Admin) {
    exists i :: 0 <= i < |t.kdamonds| && t.kdamonds[i].on
  }

  // ---- What a write does: None if there is no such file, if the value is not one it takes, or if it would
  //      change the configuration while a kdamond is on. Writing `n` to an `nr_` file replaces what is there by
  //      `n` new nodes. ----

  function Fill<T>(value: string, node: T): Option<seq<T>> {
    if IsNumber(value, 10) then Some(seq(ValueOf(value, 10), _ => node)) else None
  }

  function SetBound(r: Range, b: Bound, value: string): Option<Range> {
    match ParseUint(value, 10)
    case None => None
    case Some(n) => Some(if b.Low? then r.(low := n) else r.(high := n))
  }

  function WriteRegion(r: Region, f: RegionFile, value: string): Option<Region> {
    match ParseUint(value, 10)
    case None => None
    case Some(n) => Some(if f.RegionStart? then r.(start := n) else r.(end := n))
  }

  function WriteTarget(t: Target, f: TargetFile, value: string): Option<Target> {
    match f
    case NrRegions =>
      (match Fill(value, NEW_REGION)
       case None => None
       case Some(regions) => Some(Target(regions)))
    case InRegion(i, g) =>
      if i >= |t.regions| then None
      else match WriteRegion(t.regions[i], g, value)
        case None => None
        case Some(r) => Some(Target(t.regions[i := r]))
  }

  function WriteScheme(s: Scheme, f: SchemeFile, value: string): Option<Scheme> {
    match f
    case Action => Some(s.(action := value))
    case Sz(b) =>
      (match SetBound(s.sz, b, value)
       case None => None
       case Some(r) => Some(s.(sz := r)))
    case NrAccesses(b) =>
      (match SetBound(s.nrAccesses, b, value)
       case None => None
       case Some(r) => Some(s.(nrAccesses := r)))
    case Age(b) =>
      match SetBound(s.age, b, value)
      case None => None
      case Some(r) => Some(s.(age := r))
  }

  function WriteContext(c: Context, f: ContextFile, value: string): Option<Context> {
    match f
    case Operations => Some(c.(ops := value))
    case SampleUS =>
      (match ParseUint(value, 10)
       case None => None
       case Some(n) => Some(c.(sampleUS := n)))
    case AggrUS =>
      (match ParseUint(value, 10)
       case None => None
       case Some(n) => Some(c.(aggrUS := n)))
    case UpdateUS =>
      (match ParseUint(value, 10)
       case None => None
       case Some(n) => Some(c.(updateUS := n)))
    case RegionCount(b) =>
      (match SetBound(c.count, b, value)
       case None => None
       case Some(r) => Some(c.(count := r)))
    case NrTargets =>
      (match Fill(value, NEW_TARGET)
       case None => None
       case Some(targets) => Some(c.(targets := targets)))
    case InTarget(i, g) =>
      if i >= |c.targets| then None
      else (match WriteTarget(c.targets[i], g, value)
            case None => None
            case Some(t) => Some(c.(targets := c.targets[i := t])))
    case NrSchemes =>
      (match Fill(value, NEW_SCHEME)
       case None => None
       case Some(schemes) => Some(c.(schemes := schemes)))
    case InScheme(i, g) =>
      if i >= |c.schemes| then None
      else match WriteScheme(c.schemes[i], g, value)
        case None => None
        case Some(s) => Some(c.(schemes := c.schemes[i := s]))
  }

  function WriteKdamond(k: Kdamond, f: KdamondFile, value: string): Option<Kdamond> {
    match f
    case State => if value == "on" then Some(k.(on := true)) else if value == "off" then Some(k.(on := false)) else None
    case NrContexts =>
      (match Fill(value, NEW_CONTEXT)
       case None => None
       case Some(contexts) => Some(k.(contexts := contexts)))
    case InContext(i, g) =>
      if i >= |k.contexts| then None
      else match WriteContext(k.contexts[i], g, value)
        case None => None
        case Some(c) => Some(k.(contexts := k.contexts[i := c]))
  }

  predicate Configures(f: File) {
    f.NrKdamonds? || !f.k.State?
  }

  function Apply(t: Admin, w: Write): Option<Admin> {
    if Configures(w.file) && AnyOn(t) then None
    else match w.file
      case NrKdamonds =>
        (match Fill(w.value, NEW_KDAMOND)
         case None => None
         case Some(kdamonds) => Some(Admin(kdamonds)))
      case InKdamond(i, g) =>
        if i >= |t.kdamonds| then None
        else match WriteKdamond(t.kdamonds[i], g, w.value)
          case None => None
          case Some(k) => Some(Admin(t.kdamonds[i := k]))
  }

  /** All writes in order; None as soon as one is refused. */
  function Replay(t: Admin, ws: seq<Write>): Option<Admin> {
    if ws == [] then Some(t)
    else match Replay(t, ws[..|ws| - 1])
      case None => None
      case Some(u) => Apply(u, ws[|ws| - 1])
  }

  // ---- The program ----

  datatype Config = Config(ops: string, sampleUS: U64, aggrUS: U64, updateUS: U64, minRegions: U64, maxRegions: U64,
                           regions: seq<AddrRange>)

  const MAX_U64_STR := "18446744073709551615"

  const OFF := Write(InKdamond(0, State), "off")
  const ON := Write(InKdamond(0, State), "on")

  function InContext0(f: ContextFile): File {
    InKdamond(0, InContext(0, f))
  }

  function InRegion0(i: nat, f: RegionFile): File {
    InContext0(InTarget(0, TargetFile.InRegion(i, f)))
  }

  /** What the writes leave behind, whatever was there: one kdamond, still off, with one context, one target
      whose regions are the configured ranges made half-open, in order, and one scheme open to everything. */
  function Image(cfg: Config): Admin {
    Admin([Kdamond(false, [ContextOf(cfg)])])
  }

  function ContextOf(cfg: Config): Context {
    Context(cfg.ops, cfg.sampleUS, cfg.aggrUS, cfg.updateUS, Range(cfg.minRegions, cfg.maxRegions),
            [Target(HalfOpen(cfg.regions))],
            [Scheme("stat", WIDE, WIDE, WIDE)])
  }

  function HalfOpen(ranges: seq<AddrRange>): (regions: seq<Region>)
    ensures |regions| == |ranges|
    ensures forall i | 0 <= i < |ranges| :: regions[i] == Region(ranges[i].start, Wrap(ranges[i].end + 1))
  {
    seq(|ranges|, i requires 0 <= i < |ranges| => Region(ranges[i].start, Wrap(ranges[i].end + 1)))
  }

  function Head(cfg: Config): seq<Write> {
    [Write(NrKdamonds, "1"),
     Write(InKdamond(0, NrContexts), "1"),
     Write(InContext0(Operations), cfg.ops),
     Write(InContext0(SampleUS), Format(cfg.sampleUS, 10)),
     Write(InContext0(AggrUS), Format(cfg.aggrUS, 10)),
     Write(InContext0(UpdateUS), Format(cfg.updateUS, 10)),
     Write(InContext0(RegionCount(Low)), Format(cfg.minRegions, 10)),
     Write(InContext0(RegionCount(High)), Format(cfg.maxRegions, 10)),
     Write(InContext0(NrTargets), "1"),
     Write(InContext0(InTarget(0, NrRegions)), Format(|cfg.regions|, 10))]
  }

  function PerRegion(ranges: seq<AddrRange>): seq<Write> {
    if ranges == [] then []
    else
      var n := |ranges| - 1;
      PerRegion(ranges[..n])
      + [Write(InRegion0(n, RegionStart), Format(ranges[n].start, 10)),
         Write(InRegion0(n, RegionEnd), Format(Wrap(ranges[n].end + 1), 10))]
  }

  function Tail(): seq<Write> {
    [Write(InContext0(NrSchemes), "1"),
     Write(InContext0(InScheme(0, Action)), "stat"),
     Write(InContext0(InScheme(0, Sz(Low))), "0"),
     Write(InContext0(InScheme(0, Sz(High))), MAX_U64_STR),
     Write(InContext0(InScheme(0, NrAccesses(Low))), "0"),
     Write(InContext0(InScheme(0, NrAccesses(High))), MAX_U64_STR),
     Write(InContext0(InScheme(0, Age(Low))), "0"),
     Write(InContext0(InScheme(0, Age(High))), MAX_U64_STR)]
  }

  function Program(cfg: Config): seq<Write> {
    Head(cfg) + PerRegion(cfg.regions) + Tail()
  }

  // ---- Replaying it ----

  lemma {:induction false} ReplayConcat(t: Admin, a: seq<Write>, b: seq<Write>)
    ensures Replay(t, a + b) == match Replay(t, a) case None => None case Some(u) => Replay(u, b)
  {
    if b == [] {
      assert a + b == a;
    } else {
      var n := |b| - 1;
      ReplayConcat(t, a, b[..n]);
      assert (a + b)[..|a + b| - 1] == a + b[..n];
    }
  }

  lemma ReplayOne(t: Admin, w: Write)
    ensures Replay(t, [w]) == Apply(t, w)
  {
    assert [w][..0] == [];
  }

  function With(c: Context): Admin {
    Admin([Kdamond(false, [c])])
  }

  lemma ApplyInContext(c: Context, f: ContextFile, value: string)
    ensures Apply(With(c), Write(InContext0(f), value))
            == match WriteContext(c, f, value) case None => None case Some(d) => Some(With(d))
  {
    assert [Kdamond(false, [c])][0 := Kdamond(false, [c])] == [Kdamond(false, [c])];
    forall d: Context ensures [c][0 := d] == [d] {
    }
    forall k, l: Kdamond ensures [k][0 := l] == [l] {
    }
    assert !AnyOn(With(c));
  }

  /** One more write to a file of the context. */
  lemma Then(t: Admin, ws: seq<Write>, c: Context, f: ContextFile, value: string, d: Context)
    requires Replay(t, ws) == Some(With(c)) && WriteContext(c, f, value) == Some(d)
    ensures Replay(t, ws + [Write(InContext0(f), value)]) == Some(With(d))
  {
    ReplayConcat(t, ws, [Write(InContext0(f), value)]);
    ReplayOne(With(c), Write(InContext0(f), value));
    ApplyInContext(c, f, value);
  }

  lemma OneDigit(s: string, c: char)
    requires (s == "" || IsNumber(s, 10)) && '0' <= c <= '9'
    ensures IsNumber(s + [c], 10) && ValueOf(s + [c], 10) == 10 * ValueOf(s, 10) + (c as int - '0' as int)
  {
    assert (s + [c])[..|s|] == s;
  }

  lemma TwoDigits(s: string, c: char, d: char)
    requires (s == "" || IsNumber(s, 10)) && '0' <= c <= '9' && '0' <= d <= '9'
    ensures IsNumber(s + [c, d], 10)
    ensures ValueOf(s + [c, d], 10) == 100 * ValueOf(s, 10) + 10 * DigitValue(c) + DigitValue(d)
  {
    OneDigit(s, c);
    OneDigit(s + [c], d);
    assert s + [c, d] == s + [c] + [d];
  }

  lemma FourDigits(s: string, n: nat, four: string, t: string)
    requires (s == "" || IsNumber(s, 10)) && ValueOf(s, 10) == n
    requires |four| == 4 && (forall i | 0 <= i < 4 :: '0' <= four[i] <= '9') && t == s + four
    ensures IsNumber(t, 10)
    ensures ValueOf(t, 10)
            == 10000 * n + 1000 * DigitValue(four[0]) + 100 * DigitValue(four[1]) + 10 * DigitValue(four[2]) + DigitValue(four[3])
  {
    TwoDigits(s, four[0], four[1]);
    TwoDigits(s + [four[0], four[1]], four[2], four[3]);
    assert t == s + [four[0], four[1]] + [four[2], four[3]];
  }

  lemma Bits()
    ensures ParseUint("0", 10) == Some(0) && ParseUint("1", 10) == Some(1)
  {
    OneDigit("", '0');
    OneDigit("", '1');
    assert "" + ['0'] == "0" && "" + ['1'] == "1";
  }

  lemma MaxValue()
    ensures ParseUint(MAX_U64_STR, 10) == Some(TWO_64 - 1)
  {
    var four := ["1844", "6744", "0737", "0955", "1615"];
    var s1 := MAX_U64_STR[..4];
    var s2, s3, s4 := MAX_U64_STR[..8], MAX_U64_STR[..12], MAX_U64_STR[..16];
    FourDigits("", 0, four[0], s1);
    FourDigits(s1, 1844, four[1], s2);
    FourDigits(s2, 18446744, four[2], s3);
    FourDigits(s3, 184467440737, four[3], s4);
    FourDigits(s4, 1844674407370955, four[4], MAX_U64_STR);
  }

  lemma FillsOne<T>(node: T)
    ensures Fill("1", node) == Some([node])
  {
    Bits();
    assert seq(1, _ => node) == [node];
  }

  // ---- The three parts of the program ----

  lemma HeadFirst(t: Admin, cfg: Config)
    requires !AnyOn(t)
    ensures Replay(t, Head(cfg)[..2]) == Some(With(NEW_CONTEXT))
  {
    var first, second := Head(cfg)[0], Head(cfg)[1];
    FillsOne(NEW_KDAMOND);
    FillsOne(NEW_CONTEXT);
    ReplayOne(t, first);
    assert Apply(t, first) == Some(Admin([NEW_KDAMOND]));
    ReplayConcat(t, [first], [second]);
    ReplayOne(Admin([NEW_KDAMOND]), second);
    assert [NEW_KDAMOND][0 := Kdamond(false, [NEW_CONTEXT])] == [Kdamond(false, [NEW_CONTEXT])];
    assert Head(cfg)[..2] == [first] + [second];
  }

  function Intervals(cfg: Config): Context {
    NEW_CONTEXT.(ops := cfg.ops, sampleUS := cfg.sampleUS, aggrUS := cfg.aggrUS, updateUS := cfg.updateUS)
  }

  function Settings(cfg: Config): Context {
    Intervals(cfg).(count := Range(cfg.minRegions, cfg.maxRegions))
  }

  lemma HeadIntervals(t: Admin, cfg: Config)
    requires !AnyOn(t)
    ensures Replay(t, Head(cfg)[..6]) == Some(With(Intervals(cfg)))
  {
    HeadFirst(t, cfg);
    var h := Head(cfg);
    var c3 := NEW_CONTEXT.(ops := cfg.ops);
    var c4 := c3.(sampleUS := cfg.sampleUS);
    var c5 := c4.(aggrUS := cfg.aggrUS);
    ThenAt(t, h, 2, NEW_CONTEXT, Operations, c3);
    ThenAt(t, h, 3, c3, SampleUS, c4);
    ThenAt(t, h, 4, c4, AggrUS, c5);
    ThenAt(t, h, 5, c5, UpdateUS, Intervals(cfg));
  }

  lemma HeadCounts(t: Admin, cfg: Config)
    requires !AnyOn(t)
    ensures Replay(t, Head(cfg)[..8]) == Some(With(Settings(cfg)))
  {
    HeadIntervals(t, cfg);
    var c := Intervals(cfg);
    var d := c.(count := Range(cfg.minRegions, 0));
    ThenAt(t, Head(cfg), 6, c, RegionCount(Low), d);
    ThenAt(t, Head(cfg), 7, d, RegionCount(High), Settings(cfg));
  }

  /** The settings, and the nodes for the regions. */
  lemma HeadLeaves(t: Admin, cfg: Config)
    requires !AnyOn(t)
    ensures Replay(t, Head(cfg)) == Some(With(Settings(cfg).(targets := [Target(Blank(|cfg.regions|))])))
  {
    HeadCounts(t, cfg);
    var c, n := Settings(cfg), |cfg.regions|;
    var d := c.(targets := [NEW_TARGET]);
    FillsOne(NEW_TARGET);
    ThenAt(t, Head(cfg), 8, c, NrTargets, d);
    assert d.targets[0 := Target(Blank(n))] == [Target(Blank(n))];
    ThenAt(t, Head(cfg), 9, d, InTarget(0, NrRegions), c.(targets := [Target(Blank(n))]));
    assert Head(cfg)[..10] == Head(cfg);
  }

  function Blank(n: nat): seq<Region> {
    seq(n, _ => NEW_REGION)
  }

  lemma ThenAt(t: Admin, ws: seq<Write>, i: nat, c: Context, f: ContextFile, d: Context)
    requires i < |ws| && ws[i].file == InContext0(f)
    requires Replay(t, ws[..i]) == Some(With(c)) && WriteContext(c, f, ws[i].value) == Some(d)
    ensures Replay(t, ws[..i + 1]) == Some(With(d))
  {
    Then(t, ws[..i], c, f, ws[i].value, d);
    assert ws[..i + 1] == ws[..i] + [ws[i]];
  }

  /** The context once these regions have been written and `n` are still to come. */
  function Filled(c: Context, ranges: seq<AddrRange>, n: nat): Context {
    c.(targets := [Target(HalfOpen(ranges) + Blank(n))])
  }

  lemma PerRegionLast(ranges: seq<AddrRange>)
    requires ranges != []
    ensures var k := |ranges| - 1;
      PerRegion(ranges) == PerRegion(ranges[..k])
                           + [Write(InRegion0(k, RegionStart), Format(ranges[k].start, 10))]
                           + [Write(InRegion0(k, RegionEnd), Format(Wrap(ranges[k].end + 1), 10))]
  {
  }

  /** Each region's files exist by the time they are written, and the next region's are still blank. */
  lemma {:induction false} RegionsLeave(t: Admin, c: Context, ranges: seq<AddrRange>, n: nat)
    requires t == With(Filled(c, [], |ranges| + n))
    ensures Replay(t, PerRegion(ranges)) == Some(With(Filled(c, ranges, n)))
  {
    if ranges == [] {
    } else {
      var k := |ranges| - 1;
      RegionsLeave(t, c, ranges[..k], n + 1);
      RegionWritten(t, PerRegion(ranges[..k]), c, ranges, n);
      PerRegionLast(ranges);
    }
  }

  lemma RegionWritten(t: Admin, before: seq<Write>, c: Context, ranges: seq<AddrRange>, n: nat)
    requires ranges != [] && Replay(t, before) == Some(With(Filled(c, ranges[..|ranges| - 1], n + 1)))
    ensures var k := |ranges| - 1;
      Replay(t, before + [Write(InRegion0(k, RegionStart), Format(ranges[k].start, 10))]
                + [Write(InRegion0(k, RegionEnd), Format(Wrap(ranges[k].end + 1), 10))])
      == Some(With(Filled(c, ranges, n)))
  {
    var k := |ranges| - 1;
    var r := Region(ranges[k].start, Wrap(ranges[k].end + 1));
    var c0 := Filled(c, ranges[..k], n + 1);
    var c1 := c.(targets := [Target(HalfOpen(ranges[..k]) + [r.(end := 0)] + Blank(n))]);
    Slot(HalfOpen(ranges[..k]), NEW_REGION, r.(end := 0), n);
    Slot(HalfOpen(ranges[..k]), r.(end := 0), r, n);
    assert [NEW_REGION] + Blank(n) == Blank(n + 1);
    SetRegion(c0, k, RegionStart, ranges[k].start, c1);
    Then(t, before, c0, InTarget(0, TargetFile.InRegion(k, RegionStart)), Format(ranges[k].start, 10), c1);
    assert HalfOpen(ranges[..k]) + [r] == HalfOpen(ranges);
    SetRegion(c1, k, RegionEnd, r.end, Filled(c, ranges, n));
    Then(t, before + [Write(InRegion0(k, RegionStart), Format(ranges[k].start, 10))], c1,
         InTarget(0, TargetFile.InRegion(k, RegionEnd)), Format(r.end, 10), Filled(c, ranges, n));
  }

  lemma Slot(done: seq<Region>, was: Region, r: Region, n: nat)
    ensures var all := done + [was] + Blank(n);
      all == done + ([was] + Blank(n)) && all[|done|] == was && all[|done| := r] == done + [r] + Blank(n)
  {
  }

  lemma SetRegion(c: Context, k: nat, f: RegionFile, v: U64, d: Context)
    requires |c.targets| == |d.targets| == 1 && d == c.(targets := d.targets)
    requires k < |c.targets[0].regions|
    requires var old' := c.targets[0].regions;
      d.targets[0].regions == old'[k := if f.RegionStart? then old'[k].(start := v) else old'[k].(end := v)]
    ensures WriteContext(c, InTarget(0, TargetFile.InRegion(k, f)), Format(v, 10)) == Some(d)
  {
    assert c.targets[0 := d.targets[0]] == d.targets;
  }

  lemma TailActs(c: Context)
    ensures Replay(With(c), Tail()[..2]) == Some(With(c.(schemes := [NEW_SCHEME.(action := "stat")])))
  {
    assert Tail()[..0] == [];
    FillsOne(NEW_SCHEME);
    ThenAt(With(c), Tail(), 0, c, NrSchemes, c.(schemes := [NEW_SCHEME]));
    SchemeAt(c, Tail(), 1, NEW_SCHEME, Action, NEW_SCHEME.(action := "stat"));
  }

  lemma TailOpens(c: Context)
    ensures Replay(With(c), Tail()[..6])
            == Some(With(c.(schemes := [NEW_SCHEME.(action := "stat", sz := WIDE, nrAccesses := WIDE)])))
  {
    TailActs(c);
    Bits();
    MaxValue();
    var s2 := NEW_SCHEME.(action := "stat");
    var s4 := s2.(sz := WIDE);
    SchemeRange(c, Tail(), 2, s2, Sz(Low), Sz(High), s2, s4);
    SchemeRange(c, Tail(), 4, s4, NrAccesses(Low), NrAccesses(High), s4, s4.(nrAccesses := WIDE));
  }

  /** The scheme. */
  lemma TailLeaves(c: Context)
    ensures Replay(With(c), Tail()) == Some(With(c.(schemes := [Scheme("stat", WIDE, WIDE, WIDE)])))
  {
    TailOpens(c);
    Bits();
    MaxValue();
    var s6 := NEW_SCHEME.(action := "stat", sz := WIDE, nrAccesses := WIDE);
    SchemeRange(c, Tail(), 6, s6, Age(Low), Age(High), s6, s6.(age := WIDE));
    assert Tail()[..8] == Tail();
  }

  lemma SchemeAt(c: Context, ws: seq<Write>, i: nat, s: Scheme, f: SchemeFile, s': Scheme)
    requires i < |ws| && ws[i].file == InContext0(InScheme(0, f))
    requires Replay(With(c), ws[..i]) == Some(With(c.(schemes := [s]))) && WriteScheme(s, f, ws[i].value) == Some(s')
    ensures Replay(With(c), ws[..i + 1]) == Some(With(c.(schemes := [s'])))
  {
    assert [s][0 := s'] == [s'];
    ThenAt(With(c), ws, i, c.(schemes := [s]), InScheme(0, f), c.(schemes := [s']));
  }

  /** A pair of writes that opens one range as wide as it goes. */
  lemma SchemeRange(c: Context, ws: seq<Write>, i: nat, s: Scheme, low: SchemeFile, high: SchemeFile, s1: Scheme, s2: Scheme)
    requires i + 1 < |ws| && ws[i].value == "0" && ws[i + 1].value == MAX_U64_STR
    requires ws[i].file == InContext0(InScheme(0, low)) && ws[i + 1].file == InContext0(InScheme(0, high))
    requires Replay(With(c), ws[..i]) == Some(With(c.(schemes := [s])))
    requires WriteScheme(s, low, "0") == Some(s1) && WriteScheme(s1, high, MAX_U64_STR) == Some(s2)
    ensures Replay(With(c), ws[..i + 2]) == Some(With(c.(schemes := [s2])))
  {
    SchemeAt(c, ws, i, s, low, s1);
    SchemeAt(c, ws, i + 1, s1, high, s2);
  }

  // ---- What the program achieves ----

  lemma ReplayThree(t: Admin, a: seq<Write>, u: Admin, b: seq<Write>, v: Admin, c: seq<Write>)
    requires Replay(t, a) == Some(u) && Replay(u, b) == Some(v)
    ensures Replay(t, a + b + c) == Replay(v, c)
  {
    ReplayConcat(t, a, b);
    ReplayConcat(t, a + b, c);
  }

  lemma FilledEnds(c: Context, ranges: seq<AddrRange>)
    ensures Filled(c, [], |ranges|) == c.(targets := [Target(Blank(|ranges|))])
    ensures Filled(c, ranges, 0) == c.(targets := [Target(HalfOpen(ranges))])
  {
    assert HalfOpen([]) + Blank(|ranges|) == Blank(|ranges|);
    assert HalfOpen(ranges) + Blank(0) == HalfOpen(ranges);
  }

  /** On any tree with nothing on, the empty one included, every write of the program finds its file and is
      accepted, and what is left is the configured session, whatever was there before. */
  lemma ProgramLeaves(t: Admin, cfg: Config)
    requires !AnyOn(t)
    ensures Replay(t, Program(cfg)) == Some(Image(cfg))
  {
    var c := Settings(cfg);
    var u, v := With(Filled(c, [], |cfg.regions|)), With(Filled(c, cfg.regions, 0));
    FilledEnds(c, cfg.regions);
    HeadLeaves(t, cfg);
    RegionsLeave(u, c, cfg.regions, 0);
    ReplayThree(t, Head(cfg), u, PerRegion(cfg.regions), v, Tail());
    TailLeaves(Filled(c, cfg.regions, 0));
  }

  lemma {:induction false} ReplayPrefix(t: Admin, ws: seq<Write>, n: nat)
    requires Replay(t, ws).Some? && n < |ws|
    ensures Replay(t, ws[..n]).Some? && Apply(Replay(t, ws[..n]).value, ws[n]).Some?
    decreases |ws|
  {
    if n < |ws| - 1 {
      ReplayPrefix(t, ws[..|ws| - 1], n);
      assert ws[..|ws| - 1][..n] == ws[..n];
    }
  }

  /** A write that changes the configuration is taken only while nothing is on, and turns nothing on. */
  lemma ConfiguringIsOff(t: Admin, w: Write)
    requires Configures(w.file) && Apply(t, w).Some?
    ensures !AnyOn(t) && !AnyOn(Apply(t, w).value)
  {
    var u := Apply(t, w).value;
    assert forall i | 0 <= i < |u.kdamonds| :: !u.kdamonds[i].on;
  }

  predicate AllConfigure(ws: seq<Write>) {
    forall i | 0 <= i < |ws| :: Configures(ws[i].file)
  }

  lemma {:induction false} PerRegionConfigures(ranges: seq<AddrRange>)
    ensures AllConfigure(PerRegion(ranges))
  {
    if ranges != [] {
      PerRegionConfigures(ranges[..|ranges| - 1]);
      PerRegionLast(ranges);
    }
  }

  lemma Together(a: seq<Write>, b: seq<Write>)
    requires AllConfigure(a) && AllConfigure(b)
    ensures AllConfigure(a + b)
  {
  }

  lemma HeadTailConfigure(cfg: Config)
    ensures AllConfigure(Head(cfg)) && AllConfigure(Tail())
  {
  }

  lemma ProgramConfigures(cfg: Config)
    ensures AllConfigure(Program(cfg)) && Program(cfg) != []
  {
    HeadTailConfigure(cfg);
    PerRegionConfigures(cfg.regions);
    Together(Head(cfg), PerRegion(cfg.regions));
    Together(Head(cfg) + PerRegion(cfg.regions), Tail());
  }

  // ---- Sessions, with writes that can fail ----

  /** How a write went: taken; refused because the tree does not allow it; or failed for another reason. */
  datatype Verdict = Taken | Refused | Fault

  datatype Attempt = Attempt(write: Write, verdict: Verdict)

  function AllTaken(ws: seq<Write>): (log: seq<Attempt>)
    ensures |log| == |ws| && forall i | 0 <= i < |ws| :: log[i] == Attempt(ws[i], Taken)
  {
    seq(|ws|, i requires 0 <= i < |ws| => Attempt(ws[i], Taken))
  }

  /** One write took the tree from `t` to `u`. */
  ghost predicate Wrote(t: Admin, w: Write, v: Verdict, u: Admin) {
    match v
    case Taken => Apply(t, w) == Some(u)
    case Refused => Apply(t, w).None? && u == t
    case Fault => u == t
  }

  /** Writing `ws` in order up to the first failure took `t` to `u`: the first `n` were taken, and if that is
      not all of them, the next one failed with `v`. */
  ghost predicate Ran(t: Admin, ws: seq<Write>, n: nat, v: Verdict, log: seq<Attempt>, u: Admin) {
    && n <= |ws|
    && Replay(t, ws[..n]) == Some(u)
    && (if n == |ws| then log == AllTaken(ws)
        else !v.Taken? && log == AllTaken(ws[..n]) + [Attempt(ws[n], v)] && Wrote(u, ws[n], v, u))
  }

  function Session(cfg: Config): seq<Write> {
    Program(cfg) + [ON]
  }

  lemma SessionLeaves(t: Admin, cfg: Config)
    requires !AnyOn(t)
    ensures Replay(t, Session(cfg)) == Some(Admin([Image(cfg).kdamonds[0].(on := true)]))
  {
    ProgramLeaves(t, cfg);
    ReplayConcat(t, Program(cfg), [ON]);
    ReplayOne(Image(cfg), ON);
    var k := Image(cfg).kdamonds[0];
    assert [k][0 := k.(on := true)] == [k.(on := true)];
  }

  lemma CutShortIsOff(t: Admin, ws: seq<Write>, n: nat, u: Admin)
    requires 0 < n <= |ws| && AllConfigure(ws[..n]) && Replay(t, ws[..n]) == Some(u)
    ensures !AnyOn(t) && !AnyOn(u)
  {
    var done := ws[..n];
    assert done[n - 1] == ws[n - 1] && Configures(done[n - 1].file) && Configures(done[0].file);
    ReplayPrefix(t, done, n - 1);
    ConfiguringIsOff(Replay(t, done[..n - 1]).value, done[n - 1]);
    FirstIsOff(t, done);
  }

  lemma FirstIsOff(t: Admin, ws: seq<Write>)
    requires ws != [] && Configures(ws[0].file) && Replay(t, ws).Some?
    ensures !AnyOn(t)
  {
    ReplayPrefix(t, ws, 0);
    assert ws[..0] == [];
    ConfiguringIsOff(t, ws[0]);
  }

  /** A start that fails turns nothing on: if something was on already, nothing has changed, and otherwise
      everything is still off. */
  lemma FailureStaysOff(t: Admin, cfg: Config, n: nat, v: Verdict, log: seq<Attempt>, u: Admin)
    requires Ran(t, Session(cfg), n, v, log, u) && n < |Session(cfg)|
    ensures if AnyOn(t) then u == t && n == 0 else !AnyOn(u)
  {
    if n > 0 {
      ProgramConfigures(cfg);
      Upto(Program(cfg), ON, n);
      CutShortIsOff(t, Session(cfg), n, u);
    }
  }

  lemma Upto(ws: seq<Write>, last: Write, n: nat)
    requires AllConfigure(ws) && n <= |ws|
    ensures AllConfigure((ws + [last])[..n])
  {
  }

  /** If nothing is on to begin with, no write of a start is ever refused: no node is missing, no value is
      bad, and nothing is busy. */
  lemma NeverRefused(t: Admin, cfg: Config, n: nat, v: Verdict, log: seq<Attempt>, u: Admin)
    requires Ran(t, Session(cfg), n, v, log, u) && !AnyOn(t)
    ensures forall i | 0 <= i < |log| :: !log[i].verdict.Refused?
    ensures n < |Session(cfg)| ==> v.Fault?
  {
    SessionLeaves(t, cfg);
    if n < |Session(cfg)| {
      ReplayPrefix(t, Session(cfg), n);
    }
  }

  /** "on" is written at most once, last, and only after every other write was taken. */
  lemma OnIsLast(t: Admin, cfg: Config, n: nat, v: Verdict, log: seq<Attempt>, u: Admin, i: nat)
    requires Ran(t, Session(cfg), n, v, log, u) && i < |log| && log[i].write == ON
    ensures i == |log| - 1 == |Program(cfg)| && log[..i] == AllTaken(Program(cfg))
  {
    ProgramConfigures(cfg);
    LastOnly(t, Program(cfg), n, v, log, u, i);
  }

  lemma LastOnly(t: Admin, ws: seq<Write>, n: nat, v: Verdict, log: seq<Attempt>, u: Admin, i: nat)
    requires AllConfigure(ws) && Ran(t, ws + [ON], n, v, log, u) && i < |log| && log[i].write == ON
    ensures i == |log| - 1 == |ws| && log[..i] == AllTaken(ws)
  {
    assert log[i].write == (ws + [ON])[i];
  }

  /** How a start ends. */
  lemma Outcome(t: Admin, cfg: Config, n: nat, v: Verdict, log: seq<Attempt>, u: Admin)
    requires Ran(t, Session(cfg), n, v, log, u)
    ensures n == |Session(cfg)| ==> u == Admin([Image(cfg).kdamonds[0].(on := true)])
    ensures n < |Session(cfg)| && AnyOn(u) ==> u == t
  {
    if n < |Session(cfg)| {
      FailureStaysOff(t, cfg, n, v, log, u);
    } else {
      assert Session(cfg)[..n] == Session(cfg);
      ReplayPrefix(t, Session(cfg), 0);
      assert Session(cfg)[..0] == [] && Session(cfg)[0] == Head(cfg)[0];
      ConfiguringIsOff(t, Session(cfg)[0]);
      SessionLeaves(t, cfg);
    }
  }

  /** The program cut short by a failure is the session cut short; */
  lemma CutShort(t: Admin, cfg: Config, n: nat, v: Verdict, log: seq<Attempt>, u: Admin)
    requires Ran(t, Program(cfg), n, v, log, u) && n < |Program(cfg)|
    ensures Ran(t, Session(cfg), n, v, log, u)
  {
    assert Session(cfg)[..n] == Program(cfg)[..n];
  }

  /** and the whole program followed by "on" is the session. */
  lemma Completed(t: Admin, cfg: Config, u: Admin, v: Verdict, u': Admin)
    requires Replay(t, Program(cfg)) == Some(u) && Wrote(u, ON, v, u')
    ensures var n := |Program(cfg)| + (if v.Taken? then 1 else 0);
      Ran(t, Session(cfg), n, v, AllTaken(Program(cfg)) + [Attempt(ON, v)], u')
  {
    var ws, p := Session(cfg), |Program(cfg)|;
    assert ws[..p] == Program(cfg) && ws[p] == ON && ws[..p + 1] == ws;
    ReplayConcat(t, Program(cfg), [ON]);
    ReplayOne(u, ON);
    if v.Taken? {
      assert AllTaken(Program(cfg)) + [Attempt(ON, v)] == AllTaken(ws);
    }
  }

  class Sysfs {
    var tree: Admin
    ghost var log: seq<Attempt>

    constructor (tree: Admin)
      ensures this.tree == tree && log == []
    {
      this.tree := tree;
      log := [];
    }

    /** One write, which may fail for reasons outside the model. */
    method WriteFile(w: Write) returns (ok: bool, ghost v: Verdict)
      modifies this
      ensures Wrote(old(tree), w, v, tree) && (ok <==> v.Taken?)
      ensures log == old(log) + [Attempt(w, v)]
    {
      var fault: bool := *;
      var next := Apply(tree, w);
      ok := !fault && next.Some?;
      v := if fault then Fault else if ok then Taken else Refused;
      log := log + [Attempt(w, v)];
      if ok {
        tree := next.value;
      }
    }

    /** The writes of a start but the first and the last. */
    method Writes(cfg: Config) returns (writes: seq<Write>)
      ensures writes == Program(cfg)
    {
      writes := Head(cfg);
      for i := 0 to |cfg.regions|
        invariant writes == Head(cfg) + PerRegion(cfg.regions[..i])
      {
        var r := cfg.regions[i];
        writes := writes + [Write(InRegion0(i, RegionStart), Format(r.start, 10)),
                            Write(InRegion0(i, RegionEnd), Format(Wrap(r.end + 1), 10))];
        assert cfg.regions[..i + 1][..i] == cfg.regions[..i];
      }
      assert cfg.regions[..|cfg.regions|] == cfg.regions;
      writes := writes + Tail();
    }

    /** Writes in order, up to the first failure. */
    method Perform(ws: seq<Write>) returns (ok: bool, ghost n: nat, ghost v: Verdict)
      modifies this
      ensures old(log) <= log && Ran(old(tree), ws, n, v, log[|old(log)|..], tree)
      ensures ok <==> n == |ws|
    {
      n, v := 0, Taken;
      ghost var t := tree;
      for i := 0 to |ws|
        invariant n == i && Replay(t, ws[..i]) == Some(tree) && log == old(log) + AllTaken(ws[..i])
      {
        var taken;
        taken, v := WriteFile(ws[i]);
        if !taken {
          assert log[|old(log)|..] == AllTaken(ws[..i]) + [Attempt(ws[i], v)];
          return false, i, v;
        }
        n := n + 1;
        assert ws[..i + 1][..i] == ws[..i];
        assert AllTaken(ws[..i + 1]) == AllTaken(ws[..i]) + [Attempt(ws[i], v)];
      }
      assert ws[..|ws|] == ws;
      assert log[|old(log)|..] == AllTaken(ws);
      ok := true;
    }

    /** `start`: turns off what an earlier session may have left on, whether or not that works; then writes the
        configuration and, only if all of it was taken, "on". */
    method Start(cfg: Config) returns (ok: bool, ghost off: Verdict, ghost t: Admin, ghost n: nat, ghost v: Verdict)
      modifies this
      ensures Wrote(old(tree), OFF, off, t)
      ensures old(log) + [Attempt(OFF, off)] <= log
      ensures Ran(t, Session(cfg), n, v, log[|old(log)| + 1..], tree)
      ensures ok <==> n == |Session(cfg)|
      ensures ok ==> tree == Admin([Image(cfg).kdamonds[0].(on := true)])
      ensures !ok && AnyOn(tree) ==> tree == t && AnyOn(old(tree))
    {
      var ignored;
      ignored, off := WriteFile(OFF);
      t := tree;
      ok, n, v := TurnOn(cfg);
    }

    /** The rest of it: the configuration and, only if all of it was taken, "on". */
    method TurnOn(cfg: Config) returns (ok: bool, ghost n: nat, ghost v: Verdict)
      modifies this
      ensures old(log) <= log && Ran(old(tree), Session(cfg), n, v, log[|old(log)|..], tree)
      ensures ok <==> n == |Session(cfg)|
      ensures ok ==> tree == Admin([Image(cfg).kdamonds[0].(on := true)])
      ensures !ok && AnyOn(tree) ==> tree == old(tree)
    {
      ghost var t, before := tree, log;
      var writes := Writes(cfg);
      var done;
      done, n, v := Perform(writes);
      ghost var during, u := log, tree;
      ok := false;
      if done {
        assert writes[..|writes|] == writes;
        ok, v := WriteFile(ON);
        n := if ok then n + 1 else n;
        Completed(t, cfg, u, v, tree);
        assert log[|before|..] == during[|before|..] + [Attempt(ON, v)];
      } else {
        CutShort(t, cfg, n, v, log[|before|..], tree);
      }
      Outcome(t, cfg, n, v, log[|before|..], tree);
    }

    /** `Stop`. */
    method Stop() returns (ok: bool, ghost v: Verdict)
      modifies this
      ensures Wrote(old(tree), OFF, v, tree) && (ok <==> v.Taken?) && log == old(log) + [Attempt(OFF, v)]
      ensures ok ==> tree == Admin(old(tree).kdamonds[0 := old(tree).kdamonds[0].(on := false)])
    {
      ok, v := WriteFile(OFF);
    }
  }

  // ---- What is monitored ----

  predicate Monitors(r: Region, a: U64) {
    r.start <= a < r.end
  }

  predicate Contains(r: AddrRange, a: U64) {
    r.start <= a <= r.end
  }

  /** Region by region, the half-open regions hold exactly the addresses of the inclusive ranges, if and only
      if no range ends at the very last address. */
  lemma HalfOpenExactIff(ranges: seq<AddrRange>)
    ensures (forall i, a: U64 | 0 <= i < |ranges| :: Monitors(HalfOpen(ranges)[i], a) <==> Contains(ranges[i], a))
            <==> (forall i | 0 <= i < |ranges| :: ranges[i].end < TWO_64 - 1)
  {
    var last: U64 := TWO_64 - 1;
    forall i | 0 <= i < |ranges| && ranges[i].end == last
      ensures Contains(ranges[i], last) && !Monitors(HalfOpen(ranges)[i], last)
    {
    }
    forall i | 0 <= i < |ranges| && ranges[i].end < last ensures Wrap(ranges[i].end + 1) == ranges[i].end + 1 {
    }
  }

  ghost predicate MonitoredSomewhere(t: Admin, a: U64) {
    exists k, c, g, i ::
      && 0 <= k < |t.kdamonds| && t.kdamonds[k].on
      && 0 <= c < |t.kdamonds[k].contexts| && 0 <= g < |t.kdamonds[k].contexts[c].targets|
      && 0 <= i < |t.kdamonds[k].contexts[c].targets[g].regions|
      && Monitors(t.kdamonds[k].contexts[c].targets[g].regions[i], a)
  }

  ghost predicate InRam(rs: seq<Resource>, a: U64) {
    exists k :: 0 <= k < |rs| && IsRam(rs[k]) && Contains(rs[k].range, a)
  }

  /** From `/proc/iomem` to monitoring: a session started on what was read from a listing monitors an address
      if and only if the address is in a top-level System RAM entry, provided none of these ends at the very
      last address. */
  lemma SessionMonitorsRam(rs: seq<Resource>, r: Result, cfg: Config, t: Admin, a: U64)
    requires Parsed(Listing(rs), false, r) && r.Ranges? && cfg.regions == r.ranges
    requires t == Admin([Image(cfg).kdamonds[0].(on := true)])
    requires forall i | 0 <= i < |rs| && IsRam(rs[i]) :: rs[i].range.end < TWO_64 - 1
    ensures MonitoredSomewhere(t, a) <==> InRam(rs, a)
  {
    ReadsListing(rs, r);
    var ranges := RamOf(rs);
    forall i | 0 <= i < |ranges| ensures ranges[i].end < TWO_64 - 1 {
      RamMember(rs, ranges[i]);
      var k :| RamAt(rs, k, ranges[i]);
    }
    HalfOpenExactIff(ranges);
    if InRam(rs, a) {
      var k :| 0 <= k < |rs| && IsRam(rs[k]) && Contains(rs[k].range, a);
      RamMember(rs, rs[k].range);
      assert RamAt(rs, k, rs[k].range);
      var i :| 0 <= i < |ranges| && ranges[i] == rs[k].range;
      assert Monitors(HalfOpen(ranges)[i], a);
      assert Monitors(t.kdamonds[0].contexts[0].targets[0].regions[i], a);
    }
    if i :| 0 <= i < |ranges| && Monitors(HalfOpen(ranges)[i], a) {
      RamMember(rs, ranges[i]);
      var k :| RamAt(rs, k, ranges[i]);
    }
  }
}
