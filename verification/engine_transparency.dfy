/**
 * Cache transparency of the engine: with coherent stores and a provider that answers every leg, an uninterrupted
 * strict run returns the provider's value in every cell, whatever the stores held.
 *
 * `Coherent` and `Faithful` say what is assumed.  The first phase leaves every pair with a segment or among the
 * misses (ProbeTrue); the plan passes every miss, so after the second phase every pair has a segment with the right
 * value (ExecuteTrue, EveryPairSegmented); the third phase then fills every cell without calling the provider
 * (FillTrue).  CacheTransparency and CallsAreRoutes put these together; the planner may be any that fits.
 */
module EngineTransparency {
  import opened ArcTypes
  import opened Batching
  import opened EngineRule

  /** The value of a pair of cells. */
  type Truth = (string, string) -> Value

  function TruthOf(u: Setup, truth: Truth, o: Point, d: Point): Value { truth(u.cell(o), u.cell(d)) }

  // ---------- What is assumed ----------

  /** What is filed for this request's scope and slot has the right value. */
  ghost predicate MapTrue(u: Setup, truth: Truth, m: map<Key, Edge>) {
    forall k :: k in m && k.scope == u.scope && k.slot == u.slot ==>
      Value(m[k].distance, m[k].duration) == truth(k.from, k.to)
  }

  /** Edges are filed under their own ends. */
  ghost predicate WellKeyed(u: Setup, m: map<Key, Edge>) {
    forall k :: k in m && k.scope == u.scope && k.slot == u.slot ==> KeyOfEdge(u, m[k]) == k
  }

  ghost predicate Coherent(u: Setup, truth: Truth, st: Stores) {
    MapTrue(u, truth, st.l1) && MapTrue(u, truth, st.l2) && WellKeyed(u, st.l2)
  }

  ghost predicate Over(env: Env, wps: seq<Point>) { forall i :: 0 <= i < |wps| ==> wps[i] in env.points }

  /** A real step between points of the request, with the right value. */
  ghost predicate StepTrue(env: Env, truth: Truth, st: Step) {
    && st.origin in env.points && st.destination in env.points
    && st.source != FromFallback && ValueOf(st) == TruthOf(env.setup, truth, st.origin, st.destination)
  }

  ghost predicate StepsTrue(env: Env, truth: Truth, steps: seq<Step>) {
    forall i :: 0 <= i < |steps| ==> StepTrue(env, truth, steps[i])
  }

  /** The provider answers every leg of every packet over the request's points, with the right value. */
  ghost predicate ProviderTrue(env: Env, truth: Truth) {
    forall r, i, packet :: Over(env, packet) ==>
      AnswersLegs(packet, env.provider(r)(i, packet)) && StepsTrue(env, truth, StepsOf(env.provider(r)(i, packet)))
  }

  /** Points formatted alike have the same values. */
  ghost predicate CoordsTrue(env: Env, truth: Truth) {
    forall o, d, o2, d2 | o in env.points && d in env.points && o2 in env.points && d2 in env.points ::
      PairKeyFor(env.setup, o, d) == PairKeyFor(env.setup, o2, d2) ==>
        TruthOf(env.setup, truth, o, d) == TruthOf(env.setup, truth, o2, d2)
  }

  /** Within a cell there is no distance; this matters only where a cache answers such pairs by itself. */
  ghost predicate CellsTrue(env: Env, truth: Truth) {
    env.setup.hasL1 ==> forall o :: o in env.points ==> TruthOf(env.setup, truth, o, o) == Value(0.0, 0.0)
  }

  ghost predicate Walks(r: Route, maxLegs: int) { r.legs != [] && Continuous(r.legs) && |r.legs| <= maxLegs }

  /** Some leg of the plan runs along the pair. */
  ghost predicate Passed(routes: seq<Route>, a: Arc) {
    exists r, i :: 0 <= r < |routes| && 0 <= i < |routes[r].legs|
      && routes[r].legs[i].from == a.from && routes[r].legs[i].to == a.to
  }

  /** Non-empty walks within the limit and the vertices that pass every arc. */
  ghost predicate Fits(routes: seq<Route>, n: nat, arcs: seq<Arc>, maxLegs: int) {
    && AllWithin(routes, n)
    && (forall r :: 0 <= r < |routes| ==> Walks(routes[r], maxLegs))
    && forall a :: a in arcs ==> Passed(routes, a)
  }

  ghost predicate CoverServes(env: Env) {
    forall n, arcs, maxLegs :: InRange(n, arcs) && maxLegs > 0 ==> Fits(env.cover(n, arcs, maxLegs).routes, n, arcs, maxLegs)
  }

  ghost predicate Uninterrupted(env: Env) {
    (forall t :: !env.expired(t)) && forall r, i :: !env.callCancelled(r)(i)
  }

  ghost predicate Faithful(env: Env, truth: Truth) {
    && Uninterrupted(env) && env.setup.batchSize >= 1 && CoverServes(env)
    && ProviderTrue(env, truth) && CoordsTrue(env, truth) && CellsTrue(env, truth)
  }

  // ---------- What every state keeps ----------

  ghost predicate SegmentsTrue(env: Env, truth: Truth, segments: map<PairKey, Step>) {
    forall o, d :: o in env.points && d in env.points && PairKeyFor(env.setup, o, d) in segments ==>
      ValueOf(segments[PairKeyFor(env.setup, o, d)]) == TruthOf(env.setup, truth, o, d)
  }

  ghost predicate Good(env: Env, truth: Truth, s: Run) {
    s.status == Running && Coherent(env.setup, truth, s.stores) && SegmentsTrue(env, truth, s.segments)
  }

  lemma LookupTrue(env: Env, truth: Truth, st: Stores, o: Point, d: Point)
    requires Coherent(env.setup, truth, st) && CellsTrue(env, truth) && o in env.points
    ensures var found := Lookup(env.setup, st, o, d);
      && Coherent(env.setup, truth, found.stores)
      && (found.hit != Miss ==> ValueOf(found.hit.step) == TruthOf(env.setup, truth, o, d))
  {
    assert CellsTrue(env, truth) && env.setup.hasL1 ==> TruthOf(env.setup, truth, o, o) == Value(0.0, 0.0);
  }

  lemma PersistTrue(u: Setup, truth: Truth, st: Stores, step: Step)
    requires Coherent(u, truth, st) && ValueOf(step) == TruthOf(u, truth, step.origin, step.destination)
    ensures Coherent(u, truth, Persist(u, st, StepToEdge(step, u.slot)))
  {
  }

  lemma SegmentAdded(env: Env, truth: Truth, segments: map<PairKey, Step>, o: Point, d: Point, st: Step)
    requires SegmentsTrue(env, truth, segments) && CoordsTrue(env, truth)
    requires o in env.points && d in env.points && ValueOf(st) == TruthOf(env.setup, truth, o, d)
    ensures SegmentsTrue(env, truth, segments[PairKeyFor(env.setup, o, d) := st])
  {
    hide TruthOf, PairKeyFor;
  }

  // ---------- Phase 1 ----------

  /** The pair has a segment, or is among the misses. */
  ghost predicate Handled(env: Env, s: Run, i: nat, j: nat) {
    PairKeyFor(env.setup, PointAt(env, i), PointAt(env, j)) in s.segments || Arc(0, i, j) in s.misses
  }

  lemma ProbePairTrue(env: Env, truth: Truth, s: Run, i: nat, j: nat)
    requires CoordsTrue(env, truth) && CellsTrue(env, truth) && Good(env, truth, s)
    requires i < |env.points| && j < |env.points|
    ensures Good(env, truth, ProbePair(env, s, i, j)) && Handled(env, ProbePair(env, s, i, j), i, j)
  {
    var o, d := PointAt(env, i), PointAt(env, j);
    hide CoordsTrue, CellsTrue, Coherent, SegmentsTrue, Lookup, PairKeyFor, TruthOf;
    LookupTrue(env, truth, s.stores, o, d);
    var found := Lookup(env.setup, s.stores, o, d);
    if found.hit != Miss {
      SegmentAdded(env, truth, s.segments, o, d, found.hit.step);
    }
  }

  lemma ProbePairKeeps(env: Env, s: Run, i: nat, j: nat)
    ensures var t := ProbePair(env, s, i, j);
      && (forall k :: k in s.segments ==> k in t.segments)
      && (forall a :: a in s.misses ==> a in t.misses)
      && forall a :: a in t.misses ==> a in s.misses || a == Arc(0, i, j)
  {
    hide Lookup, PairKeyFor, PointAt;
  }

  ghost predicate HandledTo(env: Env, s: Run, p: nat) {
    forall q :: 0 <= q < p && Row(env, q) != Col(env, q) ==> Handled(env, s, Row(env, q), Col(env, q))
  }

  lemma {:induction false} ProbeTrue(env: Env, truth: Truth, p: nat)
    requires Faithful(env, truth) && Coherent(env.setup, truth, env.initial) && p <= CellCount(env)
    ensures var s := ProbeTo(env, p);
      && Good(env, truth, s) && HandledTo(env, s, p)
      && InRange(|env.points|, s.misses) && s.stats.providerCalls == 0 && s.matrix == map[]
  {
    hide Coherent, ProviderTrue, CoordsTrue, CellsTrue, ProbePair, PairKeyFor, PointAt, Row, Col, SegmentsTrue;
    if p == 0 {
      NoSegments(env, truth);
    } else {
      ProbeTrue(env, truth, p - 1);
      var s, i, j := ProbeTo(env, p - 1), Row(env, p - 1), Col(env, p - 1);
      CellBounds(env, p - 1);
      if i != j {
        var looked := CheckContext(env, s);
        ProbePairTrue(env, truth, looked, i, j);
        ProbePairKeeps(env, looked, i, j);
        ProbePairCounts(env, looked, i, j, |env.points|);
      }
    }
  }

  lemma ProbePairCounts(env: Env, s: Run, i: nat, j: nat, n: nat)
    requires InRange(n, s.misses) && i < n && j < n
    ensures InRange(n, ProbePair(env, s, i, j).misses)
    ensures ProbePair(env, s, i, j).stats.providerCalls == s.stats.providerCalls
    ensures ProbePair(env, s, i, j).matrix == s.matrix
  {
    hide Lookup, PairKeyFor, PointAt;
  }

  lemma NoSegments(env: Env, truth: Truth)
    ensures SegmentsTrue(env, truth, map[])
  {
  }

  // ---------- Phase 2 ----------

  lemma AddStepTrue(env: Env, truth: Truth, s: Run, st: Step)
    requires CoordsTrue(env, truth) && Good(env, truth, s) && StepTrue(env, truth, st)
    ensures Good(env, truth, AddStep(env, s, st))
  {
    hide CoordsTrue, Coherent, SegmentsTrue, Persist, PairKeyFor, TruthOf;
    PersistTrue(env.setup, truth, s.stores, st);
    SegmentAdded(env, truth, s.segments, st.origin, st.destination, st);
  }

  ghost predicate HasHop(env: Env, s: Run, h: Hop) { PairKeyFor(env.setup, h.from, h.to) in s.segments }

  lemma {:induction false} AddStepsTrue(env: Env, truth: Truth, s: Run, steps: seq<Step>)
    requires CoordsTrue(env, truth) && Good(env, truth, s) && StepsTrue(env, truth, steps)
    ensures var t := AddSteps(env, s, steps);
      && Good(env, truth, t) && t.stats.providerCalls == s.stats.providerCalls && t.matrix == s.matrix
      && (forall k :: k in s.segments ==> k in t.segments)
      && forall h :: h in HopsOfSteps(steps) ==> HasHop(env, t, h)
  {
    hide CoordsTrue, Good, StepTrue, PairKeyFor;
    if steps == [] {
      assert HopsOfSteps(steps) == [];
    } else {
      var init, last := steps[..|steps| - 1], steps[|steps| - 1];
      AddStepsTrue(env, truth, s, init);
      AddStepTrue(env, truth, AddSteps(env, s, init), last);
      assert HopsOfSteps(steps) == HopsOfSteps(init) + [Hop(last.origin, last.destination)];
    }
  }

  lemma PacketOver(env: Env, wps: seq<Point>, k: nat)
    requires Over(env, wps) && k < |Packets(env.setup.batchSize, wps)|
    ensures Over(env, Packets(env.setup.batchSize, wps)[k])
  {
    PacketSpan(env.setup.batchSize, wps, k);
  }

  lemma {:induction false} AssembledTrue(env: Env, truth: Truth, r: nat, packets: seq<seq<Point>>, k: nat)
    requires k <= |packets| && ProviderTrue(env, truth) && forall i :: 0 <= i < |packets| ==> Over(env, packets[i])
    ensures StepsTrue(env, truth, Assembled(packets, env.provider(r), k))
  {
    hide StepTrue, Over, AnswersLegs;
    if k > 0 {
      AssembledTrue(env, truth, r, packets, k - 1);
      assert Over(env, packets[k - 1]);
    }
  }

  /** An uninterrupted route brings back the right steps, along exactly its waypoints. */
  lemma FetchedTrue(env: Env, truth: Truth, r: nat, wps: seq<Point>)
    requires Faithful(env, truth) && Over(env, wps)
    ensures var f := Fetched(env, r, wps);
      f.Routed? && StepsTrue(env, truth, f.steps) && HopsOfSteps(f.steps) == Hops(wps)
  {
    hide StepsTrue, Over, CoordsTrue, CellsTrue, Packets, Assembled, HopsOfSteps, Hops;
    var packets := Packets(env.setup.batchSize, wps);
    forall i | 0 <= i < |packets|
      ensures Over(env, packets[i]) && AnswersLegs(packets[i], env.provider(r)(i, packets[i]))
    {
      PacketOver(env, wps, i);
    }
    AssembledTrue(env, truth, r, packets, |packets|);
    StepsFollowTheWaypoints(env.setup.batchSize, wps, env.provider(r));
  }

  lemma WaypointsOver(env: Env, legs: seq<Leg>)
    requires LegsWithin(legs, |env.points|)
    ensures Over(env, WaypointsOf(env, legs))
  {
    var wps := WaypointsOf(env, legs);
    forall i | 0 <= i < |wps| ensures wps[i] in env.points {
      if i > 0 {
        assert wps[i] == PointAt(env, legs[i - 1].to);
      }
    }
  }

  /** Leg i of a continuous route is hop i of its waypoints. */
  lemma LegIsHop(env: Env, legs: seq<Leg>, i: nat)
    requires Continuous(legs) && i < |legs|
    ensures Hop(PointAt(env, legs[i].from), PointAt(env, legs[i].to)) in Hops(WaypointsOf(env, legs))
  {
    var wps := WaypointsOf(env, legs);
    assert wps[i] == PointAt(env, legs[i].from) && wps[i + 1] == PointAt(env, legs[i].to);
    assert Hops(wps)[i] == Hop(wps[i], wps[i + 1]);
  }

  ghost predicate LegsSegmented(env: Env, s: Run, legs: seq<Leg>) {
    forall i :: 0 <= i < |legs| ==> HasHop(env, s, Hop(PointAt(env, legs[i].from), PointAt(env, legs[i].to)))
  }

  lemma ExecuteRouteTrue(env: Env, truth: Truth, s: Run, r: nat, route: Route)
    requires Faithful(env, truth) && Good(env, truth, s)
    requires LegsWithin(route.legs, |env.points|) && Continuous(route.legs) && route.legs != []
    ensures var t := ExecuteRoute(env, s, r, route);
      && Good(env, truth, t) && LegsSegmented(env, t, route.legs) && t.matrix == s.matrix
      && (forall k :: k in s.segments ==> k in t.segments)
      && t.stats.providerCalls == s.stats.providerCalls + CallsOf(env, r, WaypointsOf(env, route.legs))
  {
    hide ProviderTrue, CoordsTrue, CellsTrue, Coherent, SegmentsTrue, Fetched, CallsOf, AddSteps, HopsOfSteps, Hops,
      StepsTrue, PointAt, HasHop, Over;
    var wps := WaypointsOf(env, route.legs);
    WaypointsOver(env, route.legs);
    FetchedTrue(env, truth, r, wps);
    var called := AddCalls(CheckContext(env, s), CallsOf(env, r, wps));
    AddStepsTrue(env, truth, called, Fetched(env, r, wps).steps);
    var t := ExecuteRoute(env, s, r, route);
    forall i | 0 <= i < |route.legs|
      ensures HasHop(env, t, Hop(PointAt(env, route.legs[i].from), PointAt(env, route.legs[i].to)))
    {
      LegIsHop(env, route.legs, i);
    }
  }

  /** A route within the limit of a batch costs one call. */
  lemma OneCallPerRoute(env: Env, r: nat, legs: seq<Leg>)
    requires Uninterrupted(env) && env.setup.batchSize > 1 && 0 < |legs| <= env.setup.batchSize - 1
    ensures CallsOf(env, r, WaypointsOf(env, legs)) == 1
  {
    var wps := WaypointsOf(env, legs);
    ShortListIsOnePacket(env.setup.batchSize, wps);
    AllStarted(env.callCancelled(r), 1);
  }

  /** The plan the run works on: non-empty walks over the request's points that pass every miss. */
  lemma PlanServes(env: Env)
    requires CoverServes(env) && Probed(env).status == Running && InRange(|env.points|, Probed(env).misses)
    ensures Fits(PlanOf(env).routes, |env.points|, Probed(env).misses, MaxLegs(env.setup))
  {
    hide ProbeTo, Fits;
    if Probed(env).misses == [] {
      NothingFits(|env.points|, MaxLegs(env.setup));
    }
  }

  lemma NothingFits(n: nat, maxLegs: int)
    ensures Fits([], n, [], maxLegs)
  {
  }

  ghost predicate RoutesSegmented(env: Env, s: Run, routes: seq<Route>) {
    forall r :: 0 <= r < |routes| ==> LegsSegmented(env, s, routes[r].legs)
  }

  lemma SegmentsStay(env: Env, s: Run, t: Run, routes: seq<Route>)
    requires RoutesSegmented(env, s, routes) && forall k :: k in s.segments ==> k in t.segments
    ensures RoutesSegmented(env, t, routes)
  {
    forall r | 0 <= r < |routes| ensures LegsSegmented(env, t, routes[r].legs) {
      assert LegsSegmented(env, s, routes[r].legs);
    }
  }

  lemma AfterPlanTrue(env: Env, truth: Truth)
    requires Uninterrupted(env) && Good(env, truth, Probed(env))
    ensures var s := AfterPlan(env);
      && Good(env, truth, s) && s.segments == Probed(env).segments && s.matrix == Probed(env).matrix
      && s.stats.providerCalls == Probed(env).stats.providerCalls
      && (s.stats.arcCoverCalls == if Probed(env).misses == [] then Probed(env).stats.arcCoverCalls else |PlanOf(env).routes|)
  {
    hide ProbeTo, PlanOf;
  }

  lemma {:induction false} ExecuteTrue(env: Env, truth: Truth, k: nat)
    requires Faithful(env, truth) && Coherent(env.setup, truth, env.initial) && k <= |PlanOf(env).routes|
    ensures var s := ExecuteTo(env, k);
      && Good(env, truth, s) && RoutesSegmented(env, s, PlanOf(env).routes[..k]) && s.matrix == map[]
      && (forall key :: key in Probed(env).segments ==> key in s.segments)
      && (env.setup.batchSize > 1 ==> s.stats.providerCalls == k)
  {
    hide Faithful, Coherent, ExecuteRoute, PlanOf, AfterPlan, ProbeTo, Good, LegsSegmented, LegsWithin, MaxLegs, Passed;
    ProbeTrue(env, truth, CellCount(env));
    UninterruptedRuns(env, truth, Probed(env));
    AfterPlanTrue(env, truth);
    if k > 0 {
      ExecuteTrue(env, truth, k - 1);
      PlanServes(env);
      var routes := PlanOf(env).routes;
      var route := routes[k - 1];
      assert LegsWithin(route.legs, |env.points|) && Walks(route, MaxLegs(env.setup));
      ExecuteRouteTrue(env, truth, ExecuteTo(env, k - 1), k - 1, route);
      SegmentsStay(env, ExecuteTo(env, k - 1), ExecuteTo(env, k), routes[..k - 1]);
      assert routes[..k] == routes[..k - 1] + [route];
      if env.setup.batchSize > 1 {
        LimitOfBatch(env.setup);
        OneCallPerRoute(env, k - 1, route.legs);
      }
    }
  }

  lemma LimitOfBatch(u: Setup)
    requires u.batchSize > 1
    ensures MaxLegs(u) == u.batchSize - 1
  {
  }

  lemma UninterruptedRuns(env: Env, truth: Truth, s: Run)
    requires Faithful(env, truth) && Good(env, truth, s)
    ensures Uninterrupted(env) && CoverServes(env) && s.status == Running
  {
  }

  /** After phase 2 every pair of the request has a segment. */
  lemma EveryPairSegmented(env: Env, truth: Truth, p: nat)
    requires Faithful(env, truth) && Coherent(env.setup, truth, env.initial)
    requires p < CellCount(env) && Row(env, p) != Col(env, p)
    ensures HasHop(env, Executed(env), Hop(PointAt(env, Row(env, p)), PointAt(env, Col(env, p))))
  {
    hide Faithful, Coherent, ExecuteTo, PlanOf, ProbeTo, Good, PointAt, PairKeyFor, Row, Col, AllWithin, Walks, CoverServes;
    var i, j := Row(env, p), Col(env, p);
    ProbeTrue(env, truth, CellCount(env));
    UninterruptedRuns(env, truth, Probed(env));
    var routes := PlanOf(env).routes;
    ExecuteTrue(env, truth, |routes|);
    assert routes[..|routes|] == routes;
    assert Handled(env, Probed(env), i, j);
    if Arc(0, i, j) in Probed(env).misses {
      PlanServes(env);
      var r, l :| 0 <= r < |routes| && 0 <= l < |routes[r].legs|
        && routes[r].legs[l].from == i && routes[r].legs[l].to == j;
      assert LegsSegmented(env, Executed(env), routes[r].legs);
    }
  }

  // ---------- Phase 3 ----------

  /** The first p cells are filled with the right values, the diagonal is left alone. */
  ghost predicate FilledTo(env: Env, truth: Truth, matrix: map<Cell, Value>, p: nat) {
    forall q :: 0 <= q < p ==>
      var c := Cell(Row(env, q), Col(env, q));
      if c.row == c.col then c !in matrix
      else c in matrix && matrix[c] == TruthOf(env.setup, truth, PointAt(env, c.row), PointAt(env, c.col))
  }

  ghost predicate OnlyOffDiagonal(matrix: map<Cell, Value>) { forall c :: c in matrix ==> c.row != c.col }

  lemma FillCellTrue(env: Env, truth: Truth, s: Run, p: nat)
    requires Uninterrupted(env) && Good(env, truth, s) && p < CellCount(env)
    requires Row(env, p) != Col(env, p) ==> HasHop(env, s, Hop(PointAt(env, Row(env, p)), PointAt(env, Col(env, p))))
    requires FilledTo(env, truth, s.matrix, p) && OnlyOffDiagonal(s.matrix)
    ensures var t := FillCell(env, s, Row(env, p), Col(env, p));
      && Good(env, truth, t) && t.segments == s.segments && t.stats.providerCalls == s.stats.providerCalls
      && t.stats.arcCoverCalls == s.stats.arcCoverCalls
      && FilledTo(env, truth, t.matrix, p + 1) && OnlyOffDiagonal(t.matrix)
  {
    CellBounds(env, p);
    var i, j := Row(env, p), Col(env, p);
    assert PointAt(env, i) in env.points && PointAt(env, j) in env.points;
    hide PointAt, TruthOf, PairKeyFor, Coherent, Row, Col;
    if i != j {
      var key := PairKeyFor(env.setup, PointAt(env, i), PointAt(env, j));
      assert ValueOf(s.segments[key]) == TruthOf(env.setup, truth, PointAt(env, i), PointAt(env, j));
      FillingOne(env, truth, s.matrix, p, ValueOf(s.segments[key]));
    } else {
      SkippingOne(env, truth, s.matrix, p);
    }
  }

  lemma FillingOne(env: Env, truth: Truth, matrix: map<Cell, Value>, p: nat, v: Value)
    requires FilledTo(env, truth, matrix, p) && Row(env, p) != Col(env, p)
    requires v == TruthOf(env.setup, truth, PointAt(env, Row(env, p)), PointAt(env, Col(env, p)))
    ensures FilledTo(env, truth, matrix[Cell(Row(env, p), Col(env, p)) := v], p + 1)
  {
    hide Row, Col, PointAt, TruthOf;
  }

  lemma SkippingOne(env: Env, truth: Truth, matrix: map<Cell, Value>, p: nat)
    requires FilledTo(env, truth, matrix, p) && OnlyOffDiagonal(matrix) && Row(env, p) == Col(env, p)
    ensures FilledTo(env, truth, matrix, p + 1)
  {
    hide Row, Col, PointAt, TruthOf;
  }

  lemma {:induction false} FillTrue(env: Env, truth: Truth, p: nat)
    requires Faithful(env, truth) && Coherent(env.setup, truth, env.initial) && p <= CellCount(env)
    ensures var s, e := FillTo(env, p), Executed(env);
      && Good(env, truth, s) && s.segments == e.segments && s.stats.providerCalls == e.stats.providerCalls
      && s.stats.arcCoverCalls == e.stats.arcCoverCalls
      && FilledTo(env, truth, s.matrix, p) && OnlyOffDiagonal(s.matrix)
  {
    hide Faithful, Coherent, FillCell, ExecuteTo, PlanOf, Good, FilledTo, Row, Col, PointAt, PairKeyFor;
    if p == 0 {
      ExecuteTrue(env, truth, |PlanOf(env).routes|);
      NothingFilled(env, truth);
    } else {
      FillTrue(env, truth, p - 1);
      UninterruptedRuns(env, truth, FillTo(env, p - 1));
      if Row(env, p - 1) != Col(env, p - 1) {
        EveryPairSegmented(env, truth, p - 1);
      }
      FillCellTrue(env, truth, FillTo(env, p - 1), p - 1);
    }
  }

  lemma NothingFilled(env: Env, truth: Truth)
    ensures FilledTo(env, truth, map[], 0)
  {
  }

  // ---------- The theorem ----------

  /** Zero on the diagonal and the right value everywhere else, whatever the stores held at the start. */
  lemma CacheTransparency(env: Env, truth: Truth, i: nat, j: nat)
    requires Faithful(env, truth) && Coherent(env.setup, truth, env.initial)
    requires i < |env.points| && j < |env.points|
    ensures Computed(env).status == Running
    ensures i == j ==> Cell(i, j) !in Computed(env).matrix
    ensures i != j ==> Cell(i, j) in Computed(env).matrix
    ensures i != j ==> Computed(env).matrix[Cell(i, j)] == TruthOf(env.setup, truth, env.points[i], env.points[j])
  {
    hide Faithful, Coherent, FillTo, Row, Col, TruthOf;
    FillTrue(env, truth, CellCount(env));
    UninterruptedRuns(env, truth, Computed(env));
    CellNumber(env, i, j);
    var p := i * |env.points| + j;
    assert Cell(Row(env, p), Col(env, p)) == Cell(i, j);
  }

  lemma {:induction false} ArcCoverCallsStay(env: Env, k: nat)
    requires k <= |PlanOf(env).routes|
    ensures ExecuteTo(env, k).stats.arcCoverCalls == AfterPlan(env).stats.arcCoverCalls
  {
    hide PlanOf, AfterPlan, ExecuteRoute;
    if k > 0 {
      ArcCoverCallsStay(env, k - 1);
      RouteKeepsArcCoverCalls(env, ExecuteTo(env, k - 1), k - 1, PlanOf(env).routes[k - 1]);
    }
  }

  lemma RouteKeepsArcCoverCalls(env: Env, s: Run, r: nat, route: Route)
    ensures ExecuteRoute(env, s, r, route).stats.arcCoverCalls == s.stats.arcCoverCalls
  {
    hide Fetched, CallsOf, WaypointsOf, AddSteps;
    var wps := WaypointsOf(env, route.legs);
    if Fetched(env, r, wps).Routed? {
      StepsKeepArcCoverCalls(env, AddCalls(CheckContext(env, s), CallsOf(env, r, wps)), Fetched(env, r, wps).steps);
    }
  }

  lemma {:induction false} StepsKeepArcCoverCalls(env: Env, s: Run, steps: seq<Step>)
    ensures AddSteps(env, s, steps).stats.arcCoverCalls == s.stats.arcCoverCalls
  {
    if steps != [] {
      StepsKeepArcCoverCalls(env, s, steps[..|steps| - 1]);
    }
  }

  /** The third phase makes no provider call; with a batch size above one, calls are the planned routes. */
  lemma CallsAreRoutes(env: Env, truth: Truth)
    requires Faithful(env, truth) && Coherent(env.setup, truth, env.initial)
    ensures Computed(env).stats.providerCalls == Executed(env).stats.providerCalls
    ensures env.setup.batchSize > 1 ==> Computed(env).stats.providerCalls == |PlanOf(env).routes|
    ensures Probed(env).misses != [] ==> Computed(env).stats.arcCoverCalls == |PlanOf(env).routes|
  {
    hide Faithful, Coherent, FillTo, ExecuteTo, PlanOf, ProbeTo;
    FillTrue(env, truth, CellCount(env));
    ExecuteTrue(env, truth, |PlanOf(env).routes|);
    ProbeTrue(env, truth, CellCount(env));
    UninterruptedRuns(env, truth, Probed(env));
    AfterPlanTrue(env, truth);
    ArcCoverCallsStay(env, |PlanOf(env).routes|);
  }

  /** Two runs of one request that differ only in what coherent stores hold return the same matrix. */
  lemma StoresDoNotShow(a: Env, b: Env, truth: Truth, i: nat, j: nat)
    requires Faithful(a, truth) && Coherent(a.setup, truth, a.initial)
    requires Faithful(b, truth) && Coherent(b.setup, truth, b.initial)
    requires b.setup == a.setup && b.points == a.points && i < |a.points| && j < |a.points| && i != j
    ensures Cell(i, j) in Computed(a).matrix && Cell(i, j) in Computed(b).matrix
    ensures Computed(a).matrix[Cell(i, j)] == Computed(b).matrix[Cell(i, j)]
  {
    hide Faithful, Coherent, FillTo;
    CacheTransparency(a, truth, i, j);
    CacheTransparency(b, truth, i, j);
  }
}
