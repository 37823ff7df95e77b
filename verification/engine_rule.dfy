/**
 * The matrix engine in strict mode (internal/engine/engine.go), on values: probe the stores for every pair,
 * plan and execute walks over the misses, fill the matrix.
 *
 * The context is a function from the number of the look taken at it to whether it had expired; the provider is a
 * function of the route and the packet, or of the look before a single-pair call; the arc-cover planner is a function
 * of the vertex count, the misses and the leg limit.  A time slot is given.
 */
module EngineRule {
  import opened ArcTypes
  import opened Batching
  import opened Sums

  // ---------- Stores ----------

  datatype Edge = Edge(origin: Point, destination: Point, distance: real, duration: real, slot: string)

  datatype Scope = Scope(tenant: string, mode: int, strategy: int)

  /** Edges are filed under the cells of their ends. */
  datatype Key = Key(scope: Scope, from: string, to: string, slot: string)

  /** L1 is the cache, L2 the archive. */
  datatype Stores = Stores(l1: map<Key, Edge>, l2: map<Key, Edge>)

  /** `cell` is the geohash, `coord` the formatted coordinates; with `async` the archive is written elsewhere. */
  datatype Setup = Setup(scope: Scope, slot: string, hasL1: bool, hasL2: bool, async: bool, batchSize: int,
                         cell: Point -> string, coord: Point -> string)

  function KeyFor(u: Setup, o: Point, d: Point): Key { Key(u.scope, u.cell(o), u.cell(d), u.slot) }

  function KeyOfEdge(u: Setup, e: Edge): Key { Key(u.scope, u.cell(e.origin), u.cell(e.destination), e.slot) }

  function EdgeToStep(e: Edge): Step { Step(e.origin, e.destination, e.distance, e.duration, FromCache) }

  function StepToEdge(s: Step, slot: string): Edge { Edge(s.origin, s.destination, s.distance, s.duration, slot) }

  function Put(u: Setup, l1: map<Key, Edge>, e: Edge): map<Key, Edge> { l1[KeyOfEdge(u, e) := e] }

  /** The archive skips edges of distance zero. */
  function Upsert(u: Setup, l2: map<Key, Edge>, e: Edge): map<Key, Edge> {
    if e.distance == 0.0 then l2 else l2[KeyOfEdge(u, e) := e]
  }

  datatype Hit = Miss | Warm(step: Step) | Cold(step: Step)

  datatype Found = Found(hit: Hit, stores: Stores)

  /** The cache, a zero-distance hit within one cell, then the archive, whose edges are promoted. */
  function Lookup(u: Setup, st: Stores, o: Point, d: Point): Found {
    var key := KeyFor(u, o, d);
    if u.hasL1 && key in st.l1 then Found(Warm(EdgeToStep(st.l1[key])), st)
    else if u.hasL1 && key.from == key.to then Found(Warm(Step(o, d, 0.0, 0.0, FromCache)), st)
    else if u.hasL2 && key in st.l2 then
      Found(Cold(EdgeToStep(st.l2[key])), if u.hasL1 then st.(l1 := Put(u, st.l1, st.l2[key])) else st)
    else Found(Miss, st)
  }

  function Persist(u: Setup, st: Stores, e: Edge): Stores {
    var cached := if u.hasL1 then st.(l1 := Put(u, st.l1, e)) else st;
    if u.async || !u.hasL2 then cached else cached.(l2 := Upsert(u, st.l2, e))
  }

  // ---------- A run ----------

  datatype PairKey = PairKey(from: string, to: string)

  datatype Cell = Cell(row: nat, col: nat)

  datatype Value = Value(distance: real, duration: real)

  datatype Stats = Stats(cacheHits: int, coldHits: int, cacheMisses: int, providerCalls: int, fallbackEdges: int,
                         arcCoverCalls: int)

  datatype Status = Running | Expired | Broken

  /** `tick` counts the looks at the context; cells missing from `matrix` are zero. */
  datatype Run = Run(status: Status, tick: nat, stores: Stores, segments: map<PairKey, Step>, misses: seq<Arc>,
                     stats: Stats, matrix: map<Cell, Value>)

  datatype Env = Env(setup: Setup, points: seq<Point>, initial: Stores,
                     expired: nat -> bool, cover: (nat, seq<Arc>, int) -> Plan,
                     provider: nat -> (nat, seq<Point>) -> Reply, callCancelled: nat -> nat -> bool,
                     pairProvider: nat -> seq<Point> -> Reply)

  function PointAt(env: Env, i: nat): Point {
    if i < |env.points| then env.points[i] else Point(0.0, 0.0)
  }

  function PairKeyFor(u: Setup, o: Point, d: Point): PairKey { PairKey(u.coord(o), u.coord(d)) }

  function ValueOf(s: Step): Value { Value(s.distance, s.duration) }

  /** Cells are numbered row by row. */
  function Row(env: Env, p: nat): nat { if env.points == [] then 0 else p / |env.points| }
  function Col(env: Env, p: nat): nat { if env.points == [] then 0 else p % |env.points| }

  function CellCount(env: Env): nat { |env.points| * |env.points| }

  function CheckContext(env: Env, s: Run): Run {
    s.(tick := s.tick + 1, status := if env.expired(s.tick) then Expired else s.status)
  }

  // ---------- Phase 1: probe ----------

  function ProbePair(env: Env, s: Run, i: nat, j: nat): Run {
    var o, d := PointAt(env, i), PointAt(env, j);
    var key := PairKeyFor(env.setup, o, d);
    if key in s.segments then s
    else
      var found := Lookup(env.setup, s.stores, o, d);
      match found.hit
      case Warm(st) => s.(stores := found.stores, segments := s.segments[key := st],
                          stats := s.stats.(cacheHits := s.stats.cacheHits + 1))
      case Cold(st) => s.(stores := found.stores, segments := s.segments[key := st],
                          stats := s.stats.(coldHits := s.stats.coldHits + 1))
      case Miss => s.(misses := s.misses + [Arc(0, i, j)],
                      stats := s.stats.(cacheMisses := s.stats.cacheMisses + 1))
  }

  function ProbeCell(env: Env, s: Run, i: nat, j: nat): Run {
    if s.status != Running || i == j then s
    else
      var looked := CheckContext(env, s);
      if looked.status != Running then looked else ProbePair(env, looked, i, j)
  }

  function Start(env: Env): Run {
    Run(Running, 0, env.initial, map[], [], Stats(0, 0, 0, 0, 0, 0), map[])
  }

  /** The run when the cells below p have been probed. */
  function ProbeTo(env: Env, p: nat): Run {
    if p == 0 then Start(env) else ProbeCell(env, ProbeTo(env, p - 1), Row(env, p - 1), Col(env, p - 1))
  }

  function Probed(env: Env): Run { ProbeTo(env, CellCount(env)) }

  // ---------- Phase 2: plan and execute ----------

  function MaxLegs(u: Setup): int { if u.batchSize > 1 then u.batchSize - 1 else 11 }

  /** The plan over the misses, from whatever arc-cover planner the engine was given. */
  function PlanOf(env: Env): Plan {
    var s := Probed(env);
    if s.status == Running && s.misses != [] then env.cover(|env.points|, s.misses, MaxLegs(env.setup))
    else Plan([], NO_STATS)
  }

  function WaypointsOf(env: Env, legs: seq<Leg>): seq<Point> {
    if legs == [] then []
    else [PointAt(env, legs[0].from)] + seq(|legs|, i requires 0 <= i < |legs| => PointAt(env, legs[i].to))
  }

  /** A step enters the segments; unless it is a fallback it is stored. */
  function AddStep(env: Env, s: Run, st: Step): Run {
    var kept := s.(segments := s.segments[PairKeyFor(env.setup, st.origin, st.destination) := st]);
    if st.source == FromFallback then kept.(stats := s.stats.(fallbackEdges := s.stats.fallbackEdges + 1))
    else kept.(stores := Persist(env.setup, s.stores, StepToEdge(st, env.setup.slot)))
  }

  function AddSteps(env: Env, s: Run, steps: seq<Step>): Run {
    if steps == [] then s else AddStep(env, AddSteps(env, s, steps[..|steps| - 1]), steps[|steps| - 1])
  }

  function AddCalls(s: Run, calls: int): Run {
    s.(stats := s.stats.(providerCalls := s.stats.providerCalls + calls))
  }

  function Fail(env: Env, s: Run): Run {
    var looked := CheckContext(env, s);
    if looked.status == Running then looked.(status := Broken) else looked
  }

  /** What route number r brings back. */
  ghost function Fetched(env: Env, r: nat, wps: seq<Point>): Routed {
    Collected(Packets(env.setup.batchSize, wps), env.provider(r), env.callCancelled(r))
  }

  ghost function CallsOf(env: Env, r: nat, wps: seq<Point>): nat {
    |Started(env.callCancelled(r), |Packets(env.setup.batchSize, wps)|)|
  }

  ghost function ExecuteWalk(env: Env, s: Run, r: nat, wps: seq<Point>): Run {
    var called := AddCalls(s, CallsOf(env, r, wps));
    match Fetched(env, r, wps)
    case Routed(steps) => AddSteps(env, called, steps)
    case Failed => Fail(env, called)
  }

  ghost function ExecuteRoute(env: Env, s: Run, r: nat, route: Route): Run {
    if s.status != Running then s
    else
      var looked := CheckContext(env, s);
      var wps := WaypointsOf(env, route.legs);
      if looked.status != Running || |wps| < 2 then looked else ExecuteWalk(env, looked, r, wps)
  }

  /** The run after planning. */
  ghost function AfterPlan(env: Env): Run {
    var s := Probed(env);
    if s.status != Running || s.misses == [] then s
    else
      var looked := CheckContext(env, s);
      if looked.status != Running then looked
      else looked.(stats := looked.stats.(arcCoverCalls := |PlanOf(env).routes|))
  }

  /** The run when the first k routes have been executed. */
  ghost function ExecuteTo(env: Env, k: nat): Run {
    if k == 0 || k > |PlanOf(env).routes| then AfterPlan(env)
    else ExecuteRoute(env, ExecuteTo(env, k - 1), k - 1, PlanOf(env).routes[k - 1])
  }

  ghost function Executed(env: Env): Run { ExecuteTo(env, |PlanOf(env).routes|) }

  // ---------- Phase 3: fill ----------

  /** The step a single-pair call stands for. */
  function PairStep(r: Reply, o: Point, d: Point): Step
    requires r.Answer?
  {
    if r.steps == [] then Step(o, d, r.distance, r.duration, r.source) else r.steps[0]
  }

  function SetCell(s: Run, i: nat, j: nat, v: Value): Run { s.(matrix := s.matrix[Cell(i, j) := v]) }

  function CallPair(env: Env, s: Run, i: nat, j: nat): Run {
    var o, d := PointAt(env, i), PointAt(env, j);
    var called, reply := AddCalls(s, 1), env.pairProvider(s.tick)([o, d]);
    if reply.Failure? then Fail(env, called)
    else
      var st := PairStep(reply, o, d);
      SetCell(if st.source == FromFallback
              then called.(stats := called.stats.(fallbackEdges := called.stats.fallbackEdges + 1))
              else called.(stores := Persist(env.setup, s.stores, StepToEdge(st, env.setup.slot))),
              i, j, ValueOf(st))
  }

  function FillPair(env: Env, s: Run, i: nat, j: nat): Run {
    var o, d := PointAt(env, i), PointAt(env, j);
    var key := PairKeyFor(env.setup, o, d);
    if key in s.segments then SetCell(s, i, j, ValueOf(s.segments[key]))
    else
      var found := Lookup(env.setup, s.stores, o, d);
      match found.hit
      case Miss => CallPair(env, s, i, j)
      case Warm(st) => SetCell(s.(stores := found.stores), i, j, ValueOf(st))
      case Cold(st) => SetCell(s.(stores := found.stores), i, j, ValueOf(st))
  }

  function FillCell(env: Env, s: Run, i: nat, j: nat): Run {
    if s.status != Running then s
    else
      var looked := CheckContext(env, s);
      if looked.status != Running || i == j then looked else FillPair(env, looked, i, j)
  }

  ghost function FillTo(env: Env, p: nat): Run {
    if p == 0 then Executed(env) else FillCell(env, FillTo(env, p - 1), Row(env, p - 1), Col(env, p - 1))
  }

  /** The whole computation. */
  ghost function Computed(env: Env): Run { FillTo(env, CellCount(env)) }

  // ---------- Cells ----------

  lemma CellBounds(env: Env, p: nat)
    requires p < CellCount(env)
    ensures Row(env, p) < |env.points| && Col(env, p) < |env.points|
  {
    DivLt(p, |env.points|, |env.points|);
  }

  lemma DivMod(i: nat, j: nat, n: nat)
    requires j < n
    ensures (i * n + j) / n == i && (i * n + j) % n == j
  {
    var p := i * n + j;
    var q := p / n;
    assert q * n <= p < q * n + n && p % n == p - q * n;
    if q < i {
      MulSucc(q, n);
      MulLe(q + 1, i, n);
    } else if q > i {
      MulSucc(i, n);
      MulLe(i + 1, q, n);
    }
  }

  lemma CellNumber(env: Env, i: nat, j: nat)
    requires i < |env.points| && j < |env.points|
    ensures var p := i * |env.points| + j; p < CellCount(env) && Row(env, p) == i && Col(env, p) == j
  {
    var n := |env.points|;
    DivMod(i, j, n);
    MulSucc(i, n);
    MulLe(i + 1, n, n);
  }

  lemma NextRow(n: nat, i: nat)
    ensures i * n + n == (i + 1) * n
  {
  }

  /** What the matrix shows in a cell. */
  function Shown(matrix: map<Cell, Value>, i: nat, j: nat): Value {
    if Cell(i, j) in matrix then matrix[Cell(i, j)] else Value(0.0, 0.0)
  }

  // ---------- One more step; a run that has ended stays as it is ----------

  lemma ProbeToNext(env: Env, p: nat)
    ensures ProbeTo(env, p + 1) == ProbeCell(env, ProbeTo(env, p), Row(env, p), Col(env, p))
  {
  }

  lemma {:induction false} ProbeSticks(env: Env, p: nat, q: nat)
    requires p <= q && ProbeTo(env, p).status != Running
    ensures ProbeTo(env, q) == ProbeTo(env, p)
    decreases q
  {
    if p < q {
      ProbeSticks(env, p, q - 1);
    }
  }

  lemma {:induction false} MissesInRange(env: Env, p: nat)
    requires p <= CellCount(env)
    ensures InRange(|env.points|, ProbeTo(env, p).misses)
  {
    if p > 0 {
      hide Lookup, PointAt, Row, Col;
      MissesInRange(env, p - 1);
      CellBounds(env, p - 1);
    }
  }

  /** A planner stays within the vertices it is given. */
  ghost predicate CoverWithin(env: Env) {
    forall n, arcs, maxLegs :: InRange(n, arcs) ==> AllWithin(env.cover(n, arcs, maxLegs).routes, n)
  }

  lemma NothingToPlan(env: Env)
    ensures Probed(env).misses == [] ==> PlanOf(env).routes == [] && Executed(env) == Probed(env)
  {
  }

  lemma ExecuteToNext(env: Env, k: nat)
    requires k < |PlanOf(env).routes|
    ensures ExecuteTo(env, k + 1) == ExecuteRoute(env, ExecuteTo(env, k), k, PlanOf(env).routes[k])
  {
  }

  lemma {:induction false} ExecuteSticks(env: Env, k: nat, m: nat)
    requires k <= m <= |PlanOf(env).routes| && ExecuteTo(env, k).status != Running
    ensures ExecuteTo(env, m) == ExecuteTo(env, k)
    decreases m
  {
    hide PlanOf, AfterPlan;
    if k < m {
      ExecuteSticks(env, k, m - 1);
    }
  }

  /** A run that ended while probing plans nothing. */
  lemma ExpiredProbeEnds(env: Env)
    requires Probed(env).status != Running
    ensures Executed(env) == Probed(env)
  {
  }

  lemma FillToNext(env: Env, p: nat)
    ensures FillTo(env, p + 1) == FillCell(env, FillTo(env, p), Row(env, p), Col(env, p))
  {
  }

  lemma {:induction false} FillSticks(env: Env, p: nat, q: nat)
    requires p <= q && FillTo(env, p).status != Running
    ensures FillTo(env, q) == FillTo(env, p)
    decreases q
  {
    if p < q {
      FillSticks(env, p, q - 1);
    }
  }

  lemma FillStarts(env: Env)
    ensures FillTo(env, 0) == Executed(env)
  {
  }

  /** A run that ended before the third phase fills nothing. */
  lemma EndedEarly(env: Env)
    requires Executed(env).status != Running
    ensures Computed(env) == Executed(env)
  {
    hide ExecuteTo, PlanOf, FillTo;
    FillStarts(env);
    FillSticks(env, 0, CellCount(env));
  }

  /** The packets in their own order. */
  function InOrder(n: nat): seq<nat> { seq(n, i requires 0 <= i < n => i) }

  lemma InOrderIsOrder(n: nat)
    ensures IsOrder(InOrder(n), n)
  {
    forall k | 0 <= k < n ensures k in InOrder(n) {
      assert InOrder(n)[k] == k;
    }
  }
}
