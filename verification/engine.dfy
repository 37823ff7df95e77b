/** Compute, lookupEdge, persistEdge, fillPair and routeWaypoints of internal/engine/engine.go, in strict mode. */
module Engines {
  import opened ArcTypes
  import opened Batching
  import opened EngineRule

  /** The two stores, which outlive a request. */
  class Engine {
    const setup: Setup
    const maxPoints: int
    var l1: map<Key, Edge>
    var l2: map<Key, Edge>

    function Held(): Stores
      reads this
    {
      Stores(l1, l2)
    }

    constructor (setup: Setup, maxPoints: int, stores: Stores)
      ensures this.setup == setup && this.maxPoints == maxPoints && Held() == stores
    {
      this.setup, this.maxPoints := setup, maxPoints;
      l1, l2 := stores.l1, stores.l2;
    }

    /** L1, then L2 with promotion. */
    method LookupEdge(o: Point, d: Point) returns (hit: Hit)
      modifies this
      ensures Found(hit, Held()) == Lookup(setup, old(Held()), o, d)
    {
      var key := KeyFor(setup, o, d);
      if setup.hasL1 {
        if key in l1 {
          return Warm(EdgeToStep(l1[key]));
        }
        if key.from == key.to {
          return Warm(Step(o, d, 0.0, 0.0, FromCache));
        }
      }
      if !setup.hasL2 || key !in l2 {
        return Miss;
      }
      var edge := l2[key];
      if setup.hasL1 {
        l1 := l1[KeyOfEdge(setup, edge) := edge];
      }
      return Cold(EdgeToStep(edge));
    }

    method PersistEdge(edge: Edge)
      modifies this
      ensures Held() == Persist(setup, old(Held()), edge)
    {
      if setup.hasL1 {
        l1 := l1[KeyOfEdge(setup, edge) := edge];
      }
      if setup.async || !setup.hasL2 {
        return;
      }
      if edge.distance != 0.0 {
        l2 := l2[KeyOfEdge(setup, edge) := edge];
      }
    }
  }

  /** One request being computed. */
  class Computation {
    const env: Env
    const engine: Engine
    const distances: array2<real>
    const durations: array2<real>
    var status: Status
    var tick: nat
    var segments: map<PairKey, Step>
    var misses: seq<Arc>
    var stats: Stats
    ghost var matrix: map<Cell, Value>

    /** The arrays hold the matrix, with zeros where it has no cell. */
    ghost predicate Valid()
      reads this, distances, durations
    {
      var n := |env.points|;
      && engine.setup == env.setup && n > 0 && distances != durations
      && distances.Length0 == distances.Length1 == n && durations.Length0 == durations.Length1 == n
      && forall i, j :: 0 <= i < n && 0 <= j < n ==>
        Value(distances[i, j], durations[i, j]) == Shown(matrix, i, j)
    }

    ghost function Model(): Run
      reads this, engine
    {
      Run(status, tick, engine.Held(), segments, misses, stats, matrix)
    }

    constructor (engine: Engine, env: Env)
      requires engine.setup == env.setup && env.points != [] && engine.Held() == env.initial
      ensures Valid() && fresh(distances) && fresh(durations)
      ensures this.engine == engine && this.env == env && Model() == Start(env)
    {
      this.engine, this.env := engine, env;
      status, tick, segments, misses := Running, 0, map[], [];
      stats, matrix := Stats(0, 0, 0, 0, 0, 0), map[];
      distances := new real[|env.points|, |env.points|]((i, j) => 0.0);
      durations := new real[|env.points|, |env.points|]((i, j) => 0.0);
    }

    /** Look at the context. */
    method Check()
      requires Valid()
      modifies this`status, this`tick
      ensures Valid() && Model() == CheckContext(env, old(Model()))
    {
      if env.expired(tick) {
        status := Expired;
      }
      tick := tick + 1;
    }

    // ---------- Phase 1 ----------

    method ProbeOne(i: nat, j: nat)
      requires Valid() && i < |env.points| && j < |env.points| && status == Running
      modifies this`status, this`tick, this`segments, this`misses, this`stats, engine
      ensures Valid() && Model() == ProbeCell(env, old(Model()), i, j)
    {
      if i == j {
        return;
      }
      Check();
      if status != Running {
        return;
      }
      var o, d := env.points[i], env.points[j];
      var key := PairKeyFor(env.setup, o, d);
      if key in segments {
        return;
      }
      var hit := engine.LookupEdge(o, d);
      match hit {
        case Warm(step) =>
          stats := stats.(cacheHits := stats.cacheHits + 1);
          segments := segments[key := step];
        case Cold(step) =>
          stats := stats.(coldHits := stats.coldHits + 1);
          segments := segments[key := step];
        case Miss =>
          stats := stats.(cacheMisses := stats.cacheMisses + 1);
          misses := misses + [Arc(0, i, j)];
      }
    }

    /** Probe every pair; stop at once when the context has expired. */
    method Probe()
      requires Valid() && Model() == Start(env)
      modifies this`status, this`tick, this`segments, this`misses, this`stats, engine
      ensures Valid() && Model() == Probed(env)
    {
      hide ProbeCell, Row, Col, Shown;
      var n := |env.points|;
      for i := 0 to n
        invariant Valid() && status == Running
        invariant Model() == ProbeTo(env, i * n)
      {
        for j := 0 to n
          invariant Valid() && status == Running
          invariant Model() == ProbeTo(env, i * n + j)
        {
          CellNumber(env, i, j);
          ProbeOne(i, j);
          ProbeToNext(env, i * n + j);
          if status != Running {
            ProbeSticks(env, i * n + j + 1, CellCount(env));
            return;
          }
        }
        NextRow(n, i);
      }
    }

    // ---------- Phase 2 ----------

    method TakeStep(st: Step)
      requires Valid()
      modifies this`segments, this`stats, engine
      ensures Valid() && Model() == AddStep(env, old(Model()), st)
    {
      if st.source == FromFallback {
        stats := stats.(fallbackEdges := stats.fallbackEdges + 1);
      }
      segments := segments[PairKeyFor(env.setup, st.origin, st.destination) := st];
      if st.source != FromFallback {
        engine.PersistEdge(StepToEdge(st, env.setup.slot));
      }
    }

    method TakeSteps(steps: seq<Step>)
      requires Valid()
      modifies this`segments, this`stats, engine
      ensures Valid() && Model() == AddSteps(env, old(Model()), steps)
    {
      ghost var before := Model();
      for k := 0 to |steps|
        invariant Valid() && Model() == AddSteps(env, before, steps[..k])
      {
        hide AddStep;
        assert steps[..k + 1][..k] == steps[..k];
        TakeStep(steps[k]);
      }
      assert steps[..|steps|] == steps;
    }

    method RouteWaypointsOf(route: Route) returns (out: seq<Point>)
      requires Valid() && LegsWithin(route.legs, |env.points|)
      ensures out == WaypointsOf(env, route.legs)
    {
      if |route.legs| == 0 {
        return [];
      }
      out := [env.points[route.legs[0].from]];
      for k := 0 to |route.legs|
        invariant out == [PointAt(env, route.legs[0].from)] + seq(k, i requires 0 <= i < k => PointAt(env, route.legs[i].to))
      {
        out := out + [env.points[route.legs[k].to]];
      }
    }

    /** A failed call: the deadline if it has passed, else an error. */
    method GiveUp()
      requires Valid() && status == Running
      modifies this`status, this`tick
      ensures Valid() && Model() == Fail(env, old(Model()))
    {
      Check();
      if status == Running {
        status := Broken;
      }
    }

    /** Call the provider for the waypoints of route r and take what it brings. */
    method ExecuteWalkOf(r: nat, wps: seq<Point>)
      requires Valid() && status == Running && |wps| >= 2
      modifies this`status, this`tick, this`segments, this`stats, engine
      ensures Valid() && Model() == ExecuteWalk(env, old(Model()), r, wps)
    {
      hide AddSteps, Fail, Packets, Collected, Started, Shown;
      InOrderIsOrder(|Packets(env.setup.batchSize, wps)|);
      var order := InOrder(|Packets(env.setup.batchSize, wps)|);
      var routed, calls := RouteWaypoints(env.setup.batchSize, wps, env.provider(r), env.callCancelled(r), order);
      stats := stats.(providerCalls := stats.providerCalls + calls);
      match routed {
        case Failed => GiveUp();
        case Routed(steps) => TakeSteps(steps);
      }
    }

    method ExecuteOne(r: nat, route: Route)
      requires Valid() && status == Running && LegsWithin(route.legs, |env.points|)
      modifies this`status, this`tick, this`segments, this`stats, engine
      ensures Valid() && Model() == ExecuteRoute(env, old(Model()), r, route)
    {
      hide ExecuteWalk, WaypointsOf, Shown;
      Check();
      if status != Running {
        return;
      }
      var wps := RouteWaypointsOf(route);
      if |wps| < 2 {
        return;
      }
      ExecuteWalkOf(r, wps);
    }

    /** Plan walks over the misses and execute them. */
    method Execute()
      requires Valid() && Model() == Probed(env) && status == Running && CoverWithin(env)
      modifies this`status, this`tick, this`segments, this`stats, engine
      ensures Valid() && Model() == Executed(env)
    {
      hide ProbeTo, AfterPlan, ExecuteRoute, PlanOf, LegsWithin;
      NothingToPlan(env);
      if |misses| == 0 {
        return;
      }
      var routes := PlanMisses();
      if status != Running {
        ExecuteSticks(env, 0, |PlanOf(env).routes|);
        return;
      }
      for k := 0 to |routes|
        invariant Valid() && status == Running && Model() == ExecuteTo(env, k)
      {
        ExecuteOne(k, routes[k]);
        ExecuteToNext(env, k);
        if status != Running {
          ExecuteSticks(env, k + 1, |routes|);
          return;
        }
      }
    }

    /** Plan, then look at the context. */
    method PlanMisses() returns (routes: seq<Route>)
      requires Valid() && Model() == Probed(env) && status == Running && misses != [] && CoverWithin(env)
      modifies this`status, this`tick, this`stats
      ensures Valid() && Model() == AfterPlan(env) == ExecuteTo(env, 0)
      ensures routes == PlanOf(env).routes && AllWithin(routes, |env.points|)
    {
      hide ProbeTo, AllWithin, LegsWithin;
      MissesInRange(env, CellCount(env));
      var plan := env.cover(|env.points|, misses, MaxLegs(env.setup));
      routes := plan.routes;
      Check();
      if status == Running {
        stats := stats.(arcCoverCalls := |routes|);
      }
    }

    // ---------- Phase 3 ----------

    method SetValue(i: nat, j: nat, v: Value)
      requires Valid() && i < |env.points| && j < |env.points|
      modifies this`matrix, distances, durations
      ensures Valid() && Model() == SetCell(old(Model()), i, j, v)
    {
      distances[i, j], durations[i, j] := v.distance, v.duration;
      matrix := matrix[Cell(i, j) := v];
    }

    /** No segment for the pair: look it up once more, else ask the provider for it alone. */
    method FillGap(i: nat, j: nat)
      requires Valid() && i < |env.points| && j < |env.points| && status == Running
      requires PairKeyFor(env.setup, env.points[i], env.points[j]) !in segments
      modifies this`status, this`tick, this`stats, this`matrix, distances, durations, engine
      ensures Valid() && Model() == FillPair(env, old(Model()), i, j)
    {
      var o, d := env.points[i], env.points[j];
      var hit := engine.LookupEdge(o, d);
      if hit != Miss {
        SetValue(i, j, ValueOf(hit.step));
        return;
      }
      var step, calls, ok := RoutePair(env.pairProvider(tick), o, d);
      stats := stats.(providerCalls := stats.providerCalls + calls);
      if !ok {
        GiveUp();
        return;
      }
      if step.source == FromFallback {
        stats := stats.(fallbackEdges := stats.fallbackEdges + 1);
      } else {
        engine.PersistEdge(StepToEdge(step, env.setup.slot));
      }
      SetValue(i, j, ValueOf(step));
    }

    method FillOne(i: nat, j: nat)
      requires Valid() && i < |env.points| && j < |env.points| && status == Running
      modifies this`status, this`tick, this`stats, this`matrix, distances, durations, engine
      ensures Valid() && Model() == FillCell(env, old(Model()), i, j)
    {
      Check();
      if status != Running || i == j {
        return;
      }
      var key := PairKeyFor(env.setup, env.points[i], env.points[j]);
      if key in segments {
        SetValue(i, j, ValueOf(segments[key]));
        return;
      }
      FillGap(i, j);
    }

    method Fill()
      requires Valid() && Model() == Executed(env) && status == Running
      modifies this`status, this`tick, this`stats, this`matrix, distances, durations, engine
      ensures Valid() && Model() == Computed(env)
    {
      hide ExecuteTo, PlanOf, FillTo, FillCell, Row, Col, Shown;
      FillStarts(env);
      var n := |env.points|;
      for i := 0 to n
        invariant Valid() && status == Running
        invariant Model() == FillTo(env, i * n)
      {
        for j := 0 to n
          invariant Valid() && status == Running
          invariant Model() == FillTo(env, i * n + j)
        {
          CellNumber(env, i, j);
          FillOne(i, j);
          FillToNext(env, i * n + j);
          if status != Running {
            FillSticks(env, i * n + j + 1, CellCount(env));
            return;
          }
        }
        NextRow(n, i);
      }
    }
  }

  /** What the caller gets; a deadline still returns what has been filled. */
  datatype Outcome = Done(result: Computation) | Deadline(result: Computation) | Refused | ProviderError

  /** Probe, plan and execute, fill. */
  method Compute(engine: Engine, env: Env) returns (outcome: Outcome)
    requires engine.setup == env.setup && engine.Held() == env.initial && CoverWithin(env)
    modifies engine
    ensures outcome.Refused? <==> |env.points| < 2 || (engine.maxPoints > 0 && |env.points| > engine.maxPoints)
    ensures outcome.Refused? ==> engine.Held() == env.initial
    ensures !outcome.Refused? ==> engine.Held() == Computed(env).stores
    ensures outcome.Done? <==> !outcome.Refused? && Computed(env).status == Running
    ensures outcome.Deadline? <==> !outcome.Refused? && Computed(env).status == Expired
    ensures outcome.Done? || outcome.Deadline? ==>
      outcome.result.Valid() && outcome.result.env == env && outcome.result.Model() == Computed(env)
  {
    hide ProbeTo, PlanOf, ExecuteTo, FillTo;
    if engine.maxPoints > 0 && |env.points| > engine.maxPoints {
      return Refused;
    }
    if |env.points| < 2 {
      return Refused;
    }
    var c := new Computation(engine, env);
    c.Probe();
    if c.status == Running {
      c.Execute();
      if c.status == Running {
        c.Fill();
      } else {
        EndedEarly(env);
      }
    } else {
      ExpiredProbeEnds(env);
      EndedEarly(env);
    }
    match c.status {
      case Running => outcome := Done(c);
      case Expired => outcome := Deadline(c);
      case Broken => outcome := ProviderError;
    }
  }
}
