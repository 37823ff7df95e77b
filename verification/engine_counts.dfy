/** At which look at the context a run of the engine ends, how often it looks, and what its counters count. */
module EngineCounts {
  import opened ArcTypes
  import opened Batching
  import opened EngineRule
  import opened EngineCells

  // ---------- At which look a run ends ----------

  /** No look but the last found the context expired, and the last did exactly if the run ended for that. */
  ghost predicate Looked(env: Env, s: Run) {
    && (forall t: nat :: t + 1 < s.tick ==> !env.expired(t))
    && (s.status == Expired <==> s.tick > 0 && env.expired(s.tick - 1))
  }

  lemma CheckLooked(env: Env, s: Run)
    requires Looked(env, s) && s.status == Running
    ensures Looked(env, CheckContext(env, s))
  {
    forall t: nat | t + 1 < s.tick + 1 ensures !env.expired(t) {
      if t + 1 == s.tick {
        assert !env.expired(s.tick - 1);
      }
    }
  }

  lemma FailLooked(env: Env, s: Run)
    requires Looked(env, s) && s.status == Running
    ensures Looked(env, Fail(env, s))
  {
    CheckLooked(env, s);
  }

  lemma SameLooked(env: Env, s: Run, t: Run)
    requires Looked(env, s) && t.status == s.status && t.tick == s.tick
    ensures Looked(env, t)
  {
  }

  lemma ProbeCellLooked(env: Env, s: Run, i: nat, j: nat)
    requires Looked(env, s)
    ensures Looked(env, ProbeCell(env, s, i, j))
  {
    hide Looked, Lookup, PairKeyFor, PointAt;
    if s.status == Running && i != j {
      CheckLooked(env, s);
      SameLooked(env, CheckContext(env, s), ProbeCell(env, s, i, j));
    }
  }

  lemma {:induction false} ProbeLooked(env: Env, p: nat)
    ensures Looked(env, ProbeTo(env, p))
  {
    hide *;
    if p == 0 {
      StartLooked(env);
    } else {
      ProbeLooked(env, p - 1);
      ProbeToNext(env, p - 1);
      ProbeCellLooked(env, ProbeTo(env, p - 1), Row(env, p - 1), Col(env, p - 1));
    }
  }

  lemma StartLooked(env: Env)
    ensures Looked(env, ProbeTo(env, 0))
  {
  }

  lemma PlanLooked(env: Env)
    ensures Looked(env, ExecuteTo(env, 0))
  {
    ProbeLooked(env, CellCount(env));
    hide ProbeTo, PlanOf, Looked;
    var s := Probed(env);
    if s.status == Running && s.misses != [] {
      CheckLooked(env, s);
      SameLooked(env, CheckContext(env, s), AfterPlan(env));
    }
  }

  lemma RouteLooked(env: Env, s: Run, r: nat, route: Route)
    requires Looked(env, s)
    ensures Looked(env, ExecuteRoute(env, s, r, route))
  {
    hide Looked, WaypointsOf, CallsOf, Fetched, AddSteps, Fail;
    var wps := WaypointsOf(env, route.legs);
    if s.status == Running {
      CheckLooked(env, s);
      var looked := CheckContext(env, s);
      var called := AddCalls(looked, CallsOf(env, r, wps));
      SameLooked(env, looked, called);
      if looked.status == Running && |wps| >= 2 {
        if Fetched(env, r, wps).Routed? {
          var steps := Fetched(env, r, wps).steps;
          SameSteps(env, called, called, steps);
          SameLooked(env, called, AddSteps(env, called, steps));
        } else {
          FailLooked(env, called);
        }
      }
    }
  }

  lemma {:induction false} ExecuteLooked(env: Env, k: nat)
    requires k <= |PlanOf(env).routes|
    ensures Looked(env, ExecuteTo(env, k))
  {
    hide *;
    if k == 0 {
      PlanLooked(env);
    } else {
      ExecuteLooked(env, k - 1);
      ExecuteToNext(env, k - 1);
      RouteLooked(env, ExecuteTo(env, k - 1), k - 1, PlanOf(env).routes[k - 1]);
    }
  }

  lemma FillCellLooked(env: Env, s: Run, i: nat, j: nat)
    requires Looked(env, s)
    ensures Looked(env, FillCell(env, s, i, j))
  {
    hide Looked, Lookup, PairKeyFor, PointAt, Persist, Fail;
    if s.status == Running {
      CheckLooked(env, s);
      var looked := CheckContext(env, s);
      if looked.status == Running && i != j {
        SameLooked(env, looked, AddCalls(looked, 1));
        FailLooked(env, AddCalls(looked, 1));
        var t := FillCell(env, s, i, j);
        if t != Fail(env, AddCalls(looked, 1)) {
          SameLooked(env, looked, t);
        }
      }
    }
  }

  lemma {:induction false} FillLooked(env: Env, p: nat)
    ensures Looked(env, FillTo(env, p))
  {
    hide *;
    if p == 0 {
      FillStarts(env);
      EveryRouteLooked(env);
    } else {
      FillLooked(env, p - 1);
      FillToNext(env, p - 1);
      FillCellLooked(env, FillTo(env, p - 1), Row(env, p - 1), Col(env, p - 1));
    }
  }

  lemma EveryRouteLooked(env: Env)
    ensures Looked(env, Executed(env))
  {
    ExecuteLooked(env, |PlanOf(env).routes|);
    hide ExecuteTo, PlanOf, Looked;
  }

  /** The run ends with the deadline at the first look that finds the context expired, and otherwise takes no such
      look. */
  lemma LooksDecide(env: Env)
    ensures var s := Computed(env);
      && (forall t: nat :: t + 1 < s.tick ==> !env.expired(t))
      && (s.status == Expired <==> s.tick > 0 && env.expired(s.tick - 1))
  {
    FillLooked(env, CellCount(env));
    hide FillTo;
  }

  // ---------- What is counted ----------

  /** The packets of route number r, none if it has fewer than two waypoints. */
  ghost function PacketsOf(env: Env, r: nat): nat
    requires r < |PlanOf(env).routes|
  {
    var wps := WaypointsOf(env, PlanOf(env).routes[r].legs);
    if |wps| < 2 then 0 else |Packets(env.setup.batchSize, wps)|
  }

  ghost function AllPackets(env: Env, k: nat): nat
    requires k <= |PlanOf(env).routes|
  {
    if k == 0 then 0 else AllPackets(env, k - 1) + PacketsOf(env, k - 1)
  }

  /** Every packet of an answered route was one call. */
  lemma AnsweredRouteCalls(env: Env, r: nat, wps: seq<Point>)
    requires Fetched(env, r, wps).Routed?
    ensures CallsOf(env, r, wps) == |Packets(env.setup.batchSize, wps)|
  {
    hide Packets, Assembled;
    var packets := Packets(env.setup.batchSize, wps);
    forall i | 0 <= i < |packets| ensures !env.callCancelled(r)(i) {
      assert Answered(packets, env.provider(r), env.callCancelled(r), i);
    }
    AllStarted(env.callCancelled(r), |packets|);
  }

  lemma RouteCalls(env: Env, s: Run, r: nat, route: Route)
    requires ExecuteRoute(env, s, r, route).status == Running
    ensures var wps := WaypointsOf(env, route.legs);
      ExecuteRoute(env, s, r, route).stats.providerCalls ==
        s.stats.providerCalls + if |wps| < 2 then 0 else |Packets(env.setup.batchSize, wps)|
  {
    RouteRuns(env, s, r, route);
    hide ExecuteRoute, WaypointsOf, CallsOf, Fetched, Packets, AddSteps;
    var wps := WaypointsOf(env, route.legs);
    if |wps| >= 2 {
      AnsweredRouteCalls(env, r, wps);
      FallbacksAdd(env, AddCalls(CheckContext(env, s), CallsOf(env, r, wps)), Fetched(env, r, wps).steps);
    }
  }

  lemma PacketsNext(env: Env, k: nat)
    requires 0 < k <= |PlanOf(env).routes|
    ensures var wps := WaypointsOf(env, PlanOf(env).routes[k - 1].legs);
      AllPackets(env, k) == AllPackets(env, k - 1) + if |wps| < 2 then 0 else |Packets(env.setup.batchSize, wps)|
  {
    hide PlanOf, WaypointsOf, Packets;
  }

  lemma PlannedCounts(env: Env)
    requires ExecuteTo(env, 0).status == Running
    ensures Probed(env).status == Running
    ensures ExecuteTo(env, 0).stats.providerCalls == AllPackets(env, 0) == 0
    ensures ExecuteTo(env, 0).tick == Probed(env).tick + if Probed(env).misses == [] then 0 else 1
  {
    PlannedRuns(env);
    ProbeIdle(env, CellCount(env));
    hide ProbeTo, AfterPlan, PlanOf;
  }

  lemma {:induction false} ExecutedCounts(env: Env, k: nat)
    requires k <= |PlanOf(env).routes| && ExecuteTo(env, k).status == Running
    ensures Probed(env).status == Running
    ensures ExecuteTo(env, k).stats.providerCalls == AllPackets(env, k)
    ensures ExecuteTo(env, k).tick == Probed(env).tick + (if Probed(env).misses == [] then 0 else 1) + k
  {
    hide *;
    if k == 0 {
      PlannedCounts(env);
    } else {
      RouteEffect(env, k);
      RunningRoutes(env, k);
      PacketsNext(env, k);
      ExecutedCounts(env, k - 1);
      RouteCalls(env, ExecuteTo(env, k - 1), k - 1, PlanOf(env).routes[k - 1]);
    }
  }

  /** No route brought a step for the pair of cell q, no probe hit for it, and the second lookup misses too. */
  ghost predicate Asks(env: Env, q: nat) {
    var o, d := PointAt(env, Row(env, q)), PointAt(env, Col(env, q));
    var key := PairKeyFor(env.setup, o, d);
    && Row(env, q) != Col(env, q)
    && NoneOf(AllBrought(env), ForPair(env, key)) && NoHit(env, key, CellCount(env))
    && Lookup(env.setup, FillTo(env, q).stores, o, d).hit == Miss
  }

  /** Asked for its pair, the provider falls back. */
  ghost predicate FallsBack(env: Env, q: nat) {
    var o, d := PointAt(env, Row(env, q)), PointAt(env, Col(env, q));
    var reply := env.pairProvider(FillTo(env, q).tick + 1)([o, d]);
    Asks(env, q) && reply.Answer? && FromFallback == if reply.steps == [] then reply.source else reply.steps[0].source
  }

  ghost function Asked(env: Env, p: nat): nat {
    if p == 0 then 0 else Asked(env, p - 1) + if Asks(env, p - 1) then 1 else 0
  }

  ghost function FellBack(env: Env, p: nat): nat {
    if p == 0 then 0 else FellBack(env, p - 1) + if FallsBack(env, p - 1) then 1 else 0
  }

  lemma NoSegmentMeans(env: Env, key: PairKey)
    requires Executed(env).status == Running
    ensures key !in Executed(env).segments <==>
      NoneOf(AllBrought(env), ForPair(env, key)) && NoHit(env, key, CellCount(env))
  {
    SegmentIs(env, key);
    var m, q := OneOfThree(env, key);
    hide AllBrought, Executed, ForPair, ProbeHit, HitsFor, LastOf, NoneOf, CellCount;
  }

  lemma FillCellCounts(env: Env, s: Run, i: nat, j: nat)
    requires FillCell(env, s, i, j).status == Running
    ensures var o, d, t := PointAt(env, i), PointAt(env, j), FillCell(env, s, i, j);
      var asks := i != j && PairKeyFor(env.setup, o, d) !in s.segments && Lookup(env.setup, s.stores, o, d).hit == Miss;
      var reply := env.pairProvider(s.tick + 1)([o, d]);
      && s.status == Running && (asks ==> reply.Answer?)
      && t.stats.providerCalls == s.stats.providerCalls + (if asks then 1 else 0)
      && t.stats.fallbackEdges == s.stats.fallbackEdges +
           if asks && FromFallback == (if reply.steps == [] then reply.source else reply.steps[0].source) then 1 else 0
  {
    hide Lookup, PairKeyFor, PointAt, Persist;
  }

  lemma AsksMeans(env: Env, q: nat)
    requires Executed(env).status == Running
    ensures var o, d := PointAt(env, Row(env, q)), PointAt(env, Col(env, q));
      Asks(env, q) <==>
        Row(env, q) != Col(env, q) && PairKeyFor(env.setup, o, d) !in FillTo(env, q).segments
        && Lookup(env.setup, FillTo(env, q).stores, o, d).hit == Miss
  {
    FillSegments(env, q);
    NoSegmentMeans(env, PairKeyFor(env.setup, PointAt(env, Row(env, q)), PointAt(env, Col(env, q))));
    hide FillTo, Executed, AllBrought, ForPair, HitsFor, NoneOf, Row, Col, PointAt, PairKeyFor, Lookup, CellCount, NoHit;
  }

  lemma FilledCellCounts(env: Env, p: nat)
    requires FillTo(env, p + 1).status == Running && Executed(env).status == Running
    ensures var s, t := FillTo(env, p), FillTo(env, p + 1);
      && s.status == Running && t.tick == s.tick + 1
      && t.stats.providerCalls == s.stats.providerCalls + (if Asks(env, p) then 1 else 0)
      && t.stats.fallbackEdges == s.stats.fallbackEdges + if FallsBack(env, p) then 1 else 0
  {
    FillToNext(env, p);
    FillCellEffect(env, FillTo(env, p), Row(env, p), Col(env, p));
    FillCellCounts(env, FillTo(env, p), Row(env, p), Col(env, p));
    AsksMeans(env, p);
    hide FillTo, Executed, FillCell, Asks, Row, Col, PointAt, PairKeyFor, Lookup, FilledFrom;
  }

  lemma {:induction false} FilledCounts(env: Env, p: nat)
    requires FillTo(env, p).status == Running && Executed(env).status == Running
    ensures FillTo(env, p).stats.providerCalls == Executed(env).stats.providerCalls + Asked(env, p)
    ensures FillTo(env, p).stats.fallbackEdges == Executed(env).stats.fallbackEdges + FellBack(env, p)
    ensures FillTo(env, p).tick == Executed(env).tick + p
  {
    hide FillTo, Executed, Asks, FallsBack;
    if p == 0 {
      FillStarts(env);
    } else {
      FilledCellCounts(env, p - 1);
      FilledCounts(env, p - 1);
    }
  }

  lemma ExecutedTotals(env: Env)
    requires Executed(env).status == Running
    ensures Probed(env).status == Running
    ensures var s, k := Executed(env), |PlanOf(env).routes|;
      && s.stats.providerCalls == AllPackets(env, k) && s.stats.fallbackEdges == Fallbacks(AllBrought(env))
      && s.tick == Probed(env).tick + (if Probed(env).misses == [] then 0 else 1) + k
  {
    ExecutedCounts(env, |PlanOf(env).routes|);
    ExecutedFiles(env, |PlanOf(env).routes|, PairKey("", ""));
    hide ExecuteTo, PlanOf, ProbeTo, Brought, AllPackets, Shows, At;
  }

  /** A finished run made one call per packet of its routes and one per pair it asked for, and counts a fallback for
      every fallback step either brought. */
  lemma RunCalls(env: Env)
    requires Computed(env).status == Running
    ensures Computed(env).stats.providerCalls == AllPackets(env, |PlanOf(env).routes|) + Asked(env, CellCount(env))
    ensures Computed(env).stats.fallbackEdges == Fallbacks(AllBrought(env)) + FellBack(env, CellCount(env))
  {
    FillRunsBefore(env, CellCount(env));
    FilledCounts(env, CellCount(env));
    ExecutedTotals(env);
    hide FillTo, Executed, PlanOf, ProbeTo, AllBrought, AllPackets, Asked, FellBack, CellCount;
  }

  // ---------- What probing counts ----------

  ghost function KeyOfCell(env: Env, q: nat): PairKey {
    PairKeyFor(env.setup, PointAt(env, Row(env, q)), PointAt(env, Col(env, q)))
  }

  /** Cell q is the first for its pair whose lookup hits. */
  ghost predicate Opens(env: Env, q: nat) { FirstHit(env, KeyOfCell(env, q), q + 1, q) }

  /** Cells below p that open their pair with a hit in the cache, with one in the archive, and cells off the diagonal
      whose pair has had no hit yet. */
  ghost function WarmCells(env: Env, p: nat): nat {
    if p == 0 then 0 else WarmCells(env, p - 1) + if Opens(env, p - 1) && ProbeHit(env, p - 1).Warm? then 1 else 0
  }

  ghost function ColdCells(env: Env, p: nat): nat {
    if p == 0 then 0 else ColdCells(env, p - 1) + if Opens(env, p - 1) && ProbeHit(env, p - 1).Cold? then 1 else 0
  }

  ghost predicate StillMissing(env: Env, q: nat) {
    Row(env, q) != Col(env, q) && NoHit(env, KeyOfCell(env, q), q + 1)
  }

  ghost function MissedCells(env: Env, p: nat): nat {
    if p == 0 then 0 else MissedCells(env, p - 1) + if StillMissing(env, p - 1) then 1 else 0
  }

  lemma ProbeCellStats(env: Env, p: nat)
    requires ProbeTo(env, p + 1).status == Running
    ensures ProbeTo(env, p).status == Running
    ensures var s, t, fresh0 := ProbeTo(env, p).stats, ProbeTo(env, p + 1).stats,
        Row(env, p) != Col(env, p) && KeyOfCell(env, p) !in ProbeTo(env, p).segments;
      && t.cacheHits == s.cacheHits + (if fresh0 && ProbeHit(env, p).Warm? then 1 else 0)
      && t.coldHits == s.coldHits + (if fresh0 && ProbeHit(env, p).Cold? then 1 else 0)
      && t.cacheMisses == s.cacheMisses + if fresh0 && ProbeHit(env, p).Miss? then 1 else 0
  {
    hide Lookup, PointAt, PairKeyFor, Row, Col;
    ProbeToNext(env, p);
  }

  lemma OpensMeans(env: Env, p: nat)
    requires ProbeTo(env, p).status == Running
    ensures var fresh0 := Row(env, p) != Col(env, p) && KeyOfCell(env, p) !in ProbeTo(env, p).segments;
      && (fresh0 && !ProbeHit(env, p).Miss? <==> Opens(env, p))
      && (fresh0 && ProbeHit(env, p).Miss? <==> StillMissing(env, p))
  {
    var key := KeyOfCell(env, p);
    ProbedSegment(env, key, p);
    var q := HitOrNone(env, key, p);
    hide ProbeTo, Row, Col, PointAt, PairKeyFor, ProbeHit;
    if !NoHit(env, key, p) {
      assert FirstHit(env, key, p, q);
    }
  }

  lemma NothingProbedYet(env: Env)
    ensures ProbeTo(env, 0).stats == Stats(0, 0, 0, 0, 0, 0)
  {
  }

  /** While probing goes on, cache hits, cold hits and cache misses are these numbers of cells. */
  lemma {:induction false} ProbeCountsCells(env: Env, p: nat)
    requires ProbeTo(env, p).status == Running
    ensures var stats := ProbeTo(env, p).stats;
      && stats.cacheHits == WarmCells(env, p) && stats.coldHits == ColdCells(env, p)
      && stats.cacheMisses == MissedCells(env, p)
  {
    hide ProbeTo, ProbeHit, Opens, StillMissing, Row, Col, KeyOfCell;
    if p == 0 {
      NothingProbedYet(env);
    } else {
      ProbeCellStats(env, p - 1);
      OpensMeans(env, p - 1);
      ProbeCountsCells(env, p - 1);
    }
  }

  ghost predicate SameHits(s: Run, t: Run) {
    && t.stats.cacheHits == s.stats.cacheHits && t.stats.coldHits == s.stats.coldHits
    && t.stats.cacheMisses == s.stats.cacheMisses
  }

  lemma {:induction false} StepsKeepHits(env: Env, s: Run, steps: seq<Step>)
    ensures SameHits(s, AddSteps(env, s, steps))
  {
    if steps != [] {
      StepsKeepHits(env, s, steps[..|steps| - 1]);
    }
  }

  lemma RouteKeepsHits(env: Env, s: Run, r: nat, route: Route)
    ensures SameHits(s, ExecuteRoute(env, s, r, route))
  {
    hide WaypointsOf, CallsOf, Fetched, AddSteps;
    var wps := WaypointsOf(env, route.legs);
    if Fetched(env, r, wps).Routed? {
      StepsKeepHits(env, AddCalls(CheckContext(env, s), CallsOf(env, r, wps)), Fetched(env, r, wps).steps);
    }
  }

  lemma PlanKeepsHits(env: Env)
    ensures SameHits(Probed(env), ExecuteTo(env, 0))
  {
    hide ProbeTo, PlanOf;
  }

  lemma {:induction false} ExecuteKeepsHits(env: Env, k: nat)
    requires k <= |PlanOf(env).routes|
    ensures SameHits(Probed(env), ExecuteTo(env, k))
  {
    hide ProbeTo, PlanOf, ExecuteTo, ExecuteRoute;
    if k == 0 {
      PlanKeepsHits(env);
    } else {
      ExecuteKeepsHits(env, k - 1);
      ExecuteToNext(env, k - 1);
      RouteKeepsHits(env, ExecuteTo(env, k - 1), k - 1, PlanOf(env).routes[k - 1]);
    }
  }

  lemma FillCellKeepsHits(env: Env, s: Run, i: nat, j: nat)
    ensures SameHits(s, FillCell(env, s, i, j))
  {
    hide Lookup, PairKeyFor, PointAt, Persist;
  }

  lemma {:induction false} FillKeepsHits(env: Env, p: nat)
    ensures SameHits(Executed(env), FillTo(env, p))
  {
    hide Executed, FillTo, FillCell;
    if p == 0 {
      FillStarts(env);
    } else {
      FillKeepsHits(env, p - 1);
      FillToNext(env, p - 1);
      FillCellKeepsHits(env, FillTo(env, p - 1), Row(env, p - 1), Col(env, p - 1));
    }
  }

  /** Hits and misses are counted while probing only; a run that was not cut there ends with these numbers. */
  lemma RunCountsHits(env: Env)
    requires Probed(env).status == Running
    ensures var stats, n := Computed(env).stats, CellCount(env);
      && stats.cacheHits == WarmCells(env, n) && stats.coldHits == ColdCells(env, n)
      && stats.cacheMisses == MissedCells(env, n)
  {
    hide ProbeTo, PlanOf, ExecuteTo, FillTo, WarmCells, ColdCells, MissedCells, CellCount;
    ProbeCountsCells(env, CellCount(env));
    ExecuteKeepsHits(env, |PlanOf(env).routes|);
    FillKeepsHits(env, CellCount(env));
  }

  // ---------- How often a finished run looks ----------

  lemma ProbeTick(env: Env, p: nat)
    requires ProbeTo(env, p + 1).status == Running
    ensures ProbeTo(env, p).status == Running
    ensures ProbeTo(env, p + 1).tick == ProbeTo(env, p).tick + if Row(env, p) == Col(env, p) then 0 else 1
  {
    ProbeToNext(env, p);
    hide Lookup, PointAt, PairKeyFor, Row, Col;
  }

  /** The cells below p off the diagonal. */
  ghost function OffDiagonal(env: Env, p: nat): nat {
    if p == 0 then 0 else OffDiagonal(env, p - 1) + if Row(env, p - 1) == Col(env, p - 1) then 0 else 1
  }

  lemma {:induction false} ProbeLooks(env: Env, p: nat)
    requires ProbeTo(env, p).status == Running
    ensures ProbeTo(env, p).tick == OffDiagonal(env, p)
  {
    if p > 0 {
      ProbeTick(env, p - 1);
      hide ProbeTo, Row, Col;
      ProbeLooks(env, p - 1);
    }
  }

  /** A finished run looked once per cell off the diagonal while probing, once after planning if there was anything to
      plan, once per route, and once per cell while filling. */
  lemma RunLooks(env: Env)
    requires Computed(env).status == Running
    ensures Computed(env).tick ==
      OffDiagonal(env, CellCount(env)) + (if Probed(env).misses == [] then 0 else 1) + |PlanOf(env).routes| + CellCount(env)
  {
    hide FillTo, Executed, PlanOf, ProbeTo, CellCount;
    FillRunsBefore(env, CellCount(env));
    FilledCounts(env, CellCount(env));
    ExecutedTotals(env);
    ProbeLooks(env, CellCount(env));
  }
}
