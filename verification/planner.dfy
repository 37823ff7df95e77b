/**
 * The planner end to end: DensePlan (internal/arccover/dense.go) and DensePlanner.Plan
 * (internal/arccover/planner.go).
 *
 * `cancelled(k)` is what the k-th look at the context in the growth loop finds, `late` what the last look finds;
 * the theorems hold for all of them.  `Planned` is the plan as a function of the inputs, and MakePlan computes it.
 *
 * PlanIsExactCover: walks within the limit in which every normalized arc appears exactly once as a required leg.
 * PlanBounds: never fewer routes than the lower bound, and a plan flagged optimal is beaten by no plan.
 * PlanStatistics: what the counters of a finished plan count.  PlanOrderIndependence: the order and the ids of the
 * arcs handed in do not matter.  PlanWithin: bridges, too, stay within the vertices of the graph.
 */
module Planner {
  import opened ArcTypes
  import opened GraphRule
  import opened HeapRule
  import opened DenseRule
  import opened PackingRule
  import opened PackingRoutes
  import opened LowerBounds
  import opened ValidateRule
  import opened Validate
  import opened Normalize
  import opened Graphs
  import opened Dense
  import opened RequiredSets
  import Sums
  import P = Packers

  datatype Config = Config(maxLegs: int, denseCandidateWindow: int)

  const DEFAULT_CONFIG := Config(17, 8)

  function NewDensePlanner(cfg: Config): (r: Config)
    ensures r.maxLegs > 0 && r.denseCandidateWindow > 0
    ensures cfg.maxLegs > 0 ==> r.maxLegs == cfg.maxLegs
    ensures cfg.maxLegs <= 0 ==> r.maxLegs == 17
    ensures cfg.denseCandidateWindow > 0 ==> r.denseCandidateWindow == cfg.denseCandidateWindow
    ensures cfg.denseCandidateWindow <= 0 ==> r.denseCandidateWindow == 8
  {
    Config(if cfg.maxLegs <= 0 then 17 else cfg.maxLegs,
           if cfg.denseCandidateWindow <= 0 then DEFAULT_CONFIG.denseCandidateWindow else cfg.denseCandidateWindow)
  }

  /** The limit in force: the caller's, else the configured one, else 17. */
  function LegLimit(config: Config, maxLegs: int): (r: int)
    ensures r > 0
    ensures maxLegs > 0 ==> r == maxLegs
    ensures maxLegs <= 0 && config.maxLegs > 0 ==> r == config.maxLegs
    ensures maxLegs <= 0 && config.maxLegs <= 0 ==> r == 17
  {
    if maxLegs > 0 then maxLegs else if config.maxLegs > 0 then config.maxLegs else 17
  }

  // ---------- The result, as a function of the inputs ----------

  ghost function Fragments(n: nat, required: seq<Arc>, cancelled: nat -> bool, maxLegs: int, window: int): seq<Fragment>
    requires InRange(n, required) && IdsAreIndexes(required)
  {
    InitialConsistent(n, required);
    DenseFragments(InitialGraph(n, required), cancelled, maxLegs, window)
  }

  /** The fragments are trails within the limit that together hold every required arc once. */
  lemma FragmentsExact(n: nat, required: seq<Arc>, cancelled: nat -> bool, maxLegs: int, window: int)
    requires InRange(n, required) && IdsAreIndexes(required) && maxLegs > 0
    ensures var fs := Fragments(n, required, cancelled, maxLegs, window);
      && NonEmptyFragments(fs) && IdsIncrease(fs) && ChainFragments(fs)
      && (forall i :: 0 <= i < |fs| ==> fs[i].Len() <= maxLegs)
      && multiset(FragmentArcs(fs)) == multiset(required)
  {
    hide DenseTrails, Consistent;
    InitialConsistent(n, required);
    var g, w := InitialGraph(n, required), if window <= 0 then 8 else window;
    NewHeapTracks(g);
    var ts := DenseTrails(g, NewHeap(g, n), cancelled, maxLegs, w);
    DenseTrailsExact(g, NewHeap(g, n), cancelled, maxLegs, w);
    FragmentArcsOfTrails(ts);
    AllArcsFlatten(ts);
  }

  lemma {:induction false} FragmentArcsOfTrails(ts: seq<seq<Arc>>)
    ensures FragmentArcs(Numbered(ts)) == Flatten(ts)
  {
    if ts != [] {
      FragmentArcsOfTrails(ts[..|ts| - 1]);
      assert Numbered(ts)[..|ts| - 1] == Numbered(ts[..|ts| - 1]);
    }
  }

  ghost function DensePlanned(n: nat, required: seq<Arc>, cancelled: nat -> bool, maxLegs: int, window: int): Plan
    requires InRange(n, required) && IdsAreIndexes(required) && maxLegs > 0
  {
    FragmentsExact(n, required, cancelled, maxLegs, window);
    var routes := PackedRoutes(Fragments(n, required, cancelled, maxLegs, window), maxLegs, required);
    Plan(routes, NO_STATS.(requiredEdges := |required|, providerCalls := |routes|, branch := "dense"))
  }

  ghost function Planned(config: Config, cancelled: nat -> bool, late: bool, n: nat, required: seq<Arc>, maxLegs: int): Plan
    requires InRange(n, required)
  {
    if required == [] then Plan([], NO_STATS)
    else
      var arcs, limit := Normalized(required), LegLimit(config, maxLegs);
      NormalizedInRange(n, required);
      NormalForm(required);
      var dense := DensePlanned(n, arcs, cancelled, limit, config.denseCandidateWindow);
      Finalized(dense.(stats := dense.stats.(lowerBound := LowerBound(n, arcs, limit), cancelled := late)), arcs, limit)
  }

  // ---------- What the packed routes are like ----------

  ghost predicate FragmentsWithin(fs: seq<Fragment>, n: nat) {
    forall i :: 0 <= i < |fs| ==> InRange(n, fs[i].edges)
  }

  lemma {:induction false} TailWithin(fs: seq<Fragment>, picks: seq<nat>, end: nat, n: nat)
    requires NonEmptyFragments(fs) && IndicesOf(fs, picks) && FragmentsWithin(fs, n) && end < n
    ensures LegsWithin(TailLegs(fs, picks, end), n)
    decreases |picks|
  {
    if picks != [] {
      var f := fs[picks[0]];
      assert InRange(n, f.edges);
      TailWithin(fs, picks[1..], f.End(), n);
    }
  }

  lemma RoutesWithin(fs: seq<Fragment>, maxLegs: int, arcs: seq<Arc>, n: nat)
    requires NonEmptyFragments(fs) && FragmentsWithin(fs, n)
    ensures AllWithin(PackedRoutes(fs, maxLegs, arcs), n)
    ensures BridgesWithin(PackedRoutes(fs, maxLegs, arcs), n)
  {
    var groups := PackedGroups(fs, maxLegs, arcs);
    forall r | 0 <= r < |groups| ensures LegsWithin(RouteOf(fs, groups[r]).legs, n) {
      var f := fs[groups[r][0]];
      assert InRange(n, f.edges);
      TailWithin(fs, groups[r][1..], f.End(), n);
    }
  }

  lemma {:induction false} FragmentsOfArcs(fs: seq<Fragment>, arcs: seq<Arc>, n: nat)
    requires InRange(n, arcs) && forall e :: e in FragmentArcs(fs) ==> e in arcs
    ensures FragmentsWithin(fs, n)
  {
    if fs != [] {
      var k := |fs| - 1;
      FragmentsOfArcs(fs[..k], arcs, n);
      forall i | 0 <= i < |fs[k].edges| ensures fs[k].edges[i].from < n && fs[k].edges[i].to < n {
        assert fs[k].edges[i] in FragmentArcs(fs);
      }
    }
  }

  lemma {:induction false} RequiredLegFound(legs: seq<Leg>, e: Arc) returns (i: nat)
    requires e in RequiredOf(legs)
    ensures i < |legs| && LegArc(legs[i]) == e && legs[i].kind.LegRequired?
  {
    var n := |legs| - 1;
    if legs[n].kind.LegRequired? && LegArc(legs[n]) == e {
      i := n;
    } else {
      i := RequiredLegFound(legs[..n], e);
    }
  }

  /** An arc listed among the required legs is carried by a leg with its id and endpoints. */
  lemma {:induction false} RequiredArcFound(routes: seq<Route>, e: Arc) returns (p: Place)
    requires e in RequiredOfAll(routes)
    ensures IdLegAt(routes, p, e)
  {
    var n := |routes| - 1;
    if e in RequiredOf(routes[n].legs) {
      var i := RequiredLegFound(routes[n].legs, e);
      p := Place(n, i);
    } else {
      p := RequiredArcFound(routes[..n], e);
    }
  }

  /** Each arc listed once as a required leg: the routes cover the arcs in every sense. */
  lemma ExactMeansCovered(routes: seq<Route>, required: seq<Arc>)
    requires IdsAreIndexes(required) && multiset(RequiredOfAll(routes)) == multiset(required)
    ensures CoversIds(routes, required) && Covers(routes, required)
  {
    forall i | 0 <= i < |required| ensures PlanHasId(routes, required[i].id) && HasIdLeg(routes, required[i]) {
      assert required[i] in multiset(RequiredOfAll(routes));
      var p := RequiredArcFound(routes, required[i]);
      assert Carries(routes[p.route].legs[p.leg], required[i].id);
      assert HasId(routes[p.route].legs, required[i].id);
    }
    CoverById(routes, required);
  }

  lemma KeptMeansWalks(routes: seq<Route>, maxLegs: int)
    requires AllKept(routes, maxLegs)
    ensures AreWalks(routes, maxLegs)
  {
    forall r | 0 <= r < |routes| ensures Continuous(routes[r].legs) && |routes[r].legs| <= maxLegs {
      assert Keeps(routes[r], maxLegs);
    }
  }

  /** DensePlan's routes are walks within the limit that carry every required arc exactly once; validation
      has nothing to drop and nothing to add. */
  lemma DensePlanExact(n: nat, required: seq<Arc>, cancelled: nat -> bool, maxLegs: int, window: int)
    requires InRange(n, required) && IdsAreIndexes(required) && maxLegs > 0
    ensures var p := DensePlanned(n, required, cancelled, maxLegs, window);
      && AllKept(p.routes, maxLegs)
      && multiset(RequiredOfAll(p.routes)) == multiset(required)
      && CoversIds(p.routes, required) && Covers(p.routes, required)
  {
    hide Fragments;
    FragmentsExact(n, required, cancelled, maxLegs, window);
    var fs := Fragments(n, required, cancelled, maxLegs, window);
    var routes := PackedRoutes(fs, maxLegs, required);
    PackedArcs(fs, maxLegs, required);
    forall r | 0 <= r < |routes| ensures Keeps(routes[r], maxLegs) {
      PackedWalk(fs, maxLegs, required, r);
    }
    ExactMeansCovered(routes, required);
  }

  // ---------- The theorems ----------

  /** Planned on a non-empty list, unfolded as far as the theorems need. */
  lemma PlannedShape(config: Config, cancelled: nat -> bool, late: bool, n: nat, required: seq<Arc>, maxLegs: int)
    requires InRange(n, required) && required != []
    ensures var p, arcs, limit := Planned(config, cancelled, late, n, required, maxLegs), Normalized(required), LegLimit(config, maxLegs);
      && InRange(n, arcs) && IdsAreIndexes(arcs) && |arcs| == |required|
      && p.routes == DensePlanned(n, arcs, cancelled, limit, config.denseCandidateWindow).routes
      && p.stats == FinalStats(p.routes, NO_STATS.(requiredEdges := |arcs|, providerCalls := |p.routes|, branch := "dense",
                                 lowerBound := LowerBound(n, arcs, limit), cancelled := late), arcs)
  {
    hide DensePlanned, Completed, FinalStats, LowerBound;
    var arcs, limit := Normalized(required), LegLimit(config, maxLegs);
    NormalizedInRange(n, required);
    NormalForm(required);
    var dense := DensePlanned(n, arcs, cancelled, limit, config.denseCandidateWindow);
    DensePlanExact(n, arcs, cancelled, limit, config.denseCandidateWindow);
    DensePlannedStats(n, arcs, cancelled, limit, config.denseCandidateWindow);
    CompleteIsUnchanged(dense.(stats := dense.stats.(lowerBound := LowerBound(n, arcs, limit), cancelled := late)), arcs, limit);
  }

  lemma DensePlannedStats(n: nat, required: seq<Arc>, cancelled: nat -> bool, maxLegs: int, window: int)
    requires InRange(n, required) && IdsAreIndexes(required) && maxLegs > 0
    ensures var p := DensePlanned(n, required, cancelled, maxLegs, window);
      p.stats == NO_STATS.(requiredEdges := |required|, providerCalls := |p.routes|, branch := "dense")
  {
    hide Fragments, PackedRoutes;
  }

  /** Whatever the cancellation: non-empty walks within the limit, in which each normalized arc appears
      exactly once as a required leg, under its own id and endpoints; validation adds nothing. */
  lemma PlanIsExactCover(config: Config, cancelled: nat -> bool, late: bool, n: nat, required: seq<Arc>, maxLegs: int)
    requires InRange(n, required)
    ensures var p, arcs := Planned(config, cancelled, late, n, required, maxLegs), Normalized(required);
      && AllKept(p.routes, if maxLegs > 0 then maxLegs else if config.maxLegs > 0 then config.maxLegs else 17)
      && multiset(RequiredOfAll(p.routes)) == multiset(arcs)
      && CoversIds(p.routes, arcs) && Covers(p.routes, arcs)
      && p.stats.singlePairFallbacks == 0
  {
    hide DensePlanned, LowerBound;
    if required == [] {
      assert Normalized(required) == [];
      ExactMeansCovered([], []);
    } else {
      PlannedShape(config, cancelled, late, n, required, maxLegs);
      DensePlanExact(n, Normalized(required), cancelled, LegLimit(config, maxLegs), config.denseCandidateWindow);
    }
  }

  /** The limit is the caller's, else the configured one, else 17.  Calls are routes and never fewer than the bound for
      that limit; no plan of walks within it has fewer routes than the bound, and none at all fewer than a plan flagged
      optimal. */
  lemma PlanBounds(config: Config, cancelled: nat -> bool, late: bool, n: nat, required: seq<Arc>, maxLegs: int,
                   limit: int, rival: seq<Route>)
    requires InRange(n, required)
    requires limit == if maxLegs > 0 then maxLegs else if config.maxLegs > 0 then config.maxLegs else 17
    requires AreWalks(rival, limit) && Covers(rival, Normalized(required))
    ensures var p := Planned(config, cancelled, late, n, required, maxLegs);
      && InRange(n, Normalized(required)) && p.stats.lowerBound == LowerBound(n, Normalized(required), limit)
      && p.stats.providerCalls == |p.routes|
      && p.stats.lowerBound <= p.stats.providerCalls
      && p.stats.lowerBound <= |rival|
      && (p.stats.optimal ==> |p.routes| <= |rival|)
  {
    hide DensePlanned, Covers;
    NormalizedInRange(n, required);
    NormalForm(required);
    if required != [] {
      hide LowerBound;
      PlannedShape(config, cancelled, late, n, required, maxLegs);
      PlanIsExactCover(config, cancelled, late, n, required, maxLegs);
      var p := Planned(config, cancelled, late, n, required, maxLegs);
      KeptMeansWalks(p.routes, limit);
      LowerBoundSound(n, Normalized(required), limit, p.routes);
      LowerBoundSound(n, Normalized(required), limit, rival);
    }
  }

  lemma DensePlanHalfFull(n: nat, required: seq<Arc>, cancelled: nat -> bool, maxLegs: int, window: int)
    requires InRange(n, required) && IdsAreIndexes(required) && maxLegs > 0
    ensures var p := DensePlanned(n, required, cancelled, maxLegs, window);
      |p.routes| > 0 ==> (|p.routes| - 1) * (maxLegs + 2) <= 4 * |required|
  {
    hide Fragments, PackedRoutes;
    FragmentsExact(n, required, cancelled, maxLegs, window);
    var fs := Fragments(n, required, cancelled, maxLegs, window);
    PackedHalfFull(fs, maxLegs, required);
    SameBag(FragmentArcs(fs), required);
  }

  lemma FourTimes(r: nat, k: nat, m: nat, maxLegs: int)
    requires maxLegs > 0 && r * (maxLegs + 2) <= 4 * m && 0 < m <= k * maxLegs
    ensures r < 4 * k
  {
    assert 4 * k * (maxLegs + 2) == 4 * (k * maxLegs) + 8 * k;
    if 4 * k <= r {
      Sums.MulLe(4 * k, r, maxLegs + 2);
    }
  }

  /** End to end: whatever the input and the cancellation, the plan has at most four times the routes of any plan that
      covers the arcs by walks within the caller's limit, else the configured one, else 17. */
  lemma PlanWithinFour(config: Config, cancelled: nat -> bool, late: bool, n: nat, required: seq<Arc>, maxLegs: int,
                       limit: int, rival: seq<Route>)
    requires InRange(n, required)
    requires limit == if maxLegs > 0 then maxLegs else if config.maxLegs > 0 then config.maxLegs else 17
    requires AreWalks(rival, limit) && Covers(rival, Normalized(required))
    ensures |Planned(config, cancelled, late, n, required, maxLegs).routes| <= 4 * |rival|
  {
    hide DensePlanned, LowerBound, Covers;
    if required != [] {
      var arcs := Normalized(required);
      PlannedShape(config, cancelled, late, n, required, maxLegs);
      var p := Planned(config, cancelled, late, n, required, maxLegs);
      DensePlanHalfFull(n, arcs, cancelled, limit, config.denseCandidateWindow);
      var ts := CoverSplitsIntoTrails(arcs, limit, rival);
      if |p.routes| > 0 {
        FourTimes(|p.routes| - 1, |rival|, |arcs|, limit);
      }
    }
  }

  lemma {:induction false} RequiredOfAllLegs(routes: seq<Route>)
    ensures RequiredOf(AllLegs(routes)) == RequiredOfAll(routes)
  {
    if routes != [] {
      var k := |routes| - 1;
      RequiredOfAllLegs(routes[..k]);
      RequiredOfConcat(AllLegs(routes[..k]), routes[k].legs);
    }
  }

  lemma {:induction false} NumberedLegsAll(legs: seq<Leg>, m: nat)
    requires forall e :: e in RequiredOf(legs) ==> e.id < m
    ensures NumberedLegs(legs, m) == |RequiredOf(legs)|
  {
    if legs != [] {
      var k := |legs| - 1;
      assert forall e :: e in RequiredOf(legs[..k]) ==> e in RequiredOf(legs);
      NumberedLegsAll(legs[..k], m);
      if legs[k].kind.LegRequired? {
        assert LegArc(legs[k]) in RequiredOf(legs);
      }
    }
  }

  /** The bridges among the legs that run along a required pair. */
  ghost function DuplicatePlaces(legs: seq<Leg>, required: seq<Arc>): set<nat> {
    set i: nat | i < |legs| && legs[i].kind.LegBridge?
      && exists k :: 0 <= k < |required| && required[k].from == legs[i].from && required[k].to == legs[i].to
  }

  lemma {:induction false} DuplicatesArePlaces(legs: seq<Leg>, required: seq<Arc>)
    ensures DuplicateBridges(legs, required) == |DuplicatePlaces(legs, required)|
  {
    if legs == [] {
      assert DuplicatePlaces(legs, required) == {};
    } else {
      var k := |legs| - 1;
      DuplicatesArePlaces(legs[..k], required);
      PlacesSnoc(legs, required);
    }
  }

  lemma PlacesSnoc(legs: seq<Leg>, required: seq<Arc>)
    requires legs != []
    ensures var k := |legs| - 1;
      var before := DuplicatePlaces(legs[..k], required);
      && k !in before
      && DuplicatePlaces(legs, required) ==
           before + if legs[k].kind.LegBridge? && IsRequiredPair(required, legs[k].from, legs[k].to) then {k} else {}
  {
    var k := |legs| - 1;
    forall i: nat
      ensures i in DuplicatePlaces(legs, required) <==>
        i in DuplicatePlaces(legs[..k], required)
        || (i == k && legs[k].kind.LegBridge? && IsRequiredPair(required, legs[k].from, legs[k].to))
    {
      if i < k {
        assert legs[..k][i] == legs[i];
      }
    }
  }

  /** A plan is optimal exactly if its calls meet a positive bound, the gap is in proportion to that bound, and it is
      cancelled if the last look at the context found it so. */
  lemma PlanFlags(config: Config, cancelled: nat -> bool, late: bool, n: nat, required: seq<Arc>, maxLegs: int)
    requires InRange(n, required)
    ensures var p := Planned(config, cancelled, late, n, required, maxLegs);
      && (p.stats.optimal <==> p.stats.lowerBound > 0 && |p.routes| == p.stats.lowerBound)
      && (p.stats.optimalityGap ==
           if p.stats.lowerBound > 0 then (|p.routes| - p.stats.lowerBound) as real / p.stats.lowerBound as real else 0.0)
      && p.stats.cancelled == (late && required != [])
  {
    hide DensePlanned, LowerBound, BridgesOf, Duplicates;
    if required != [] {
      PlannedShape(config, cancelled, late, n, required, maxLegs);
    }
  }

  /** The statistics: one required leg per required arc, every other leg a bridge, and the only duplicates are bridges
      that happen to run along a required pair. */
  lemma PlanStatistics(config: Config, cancelled: nat -> bool, late: bool, n: nat, required: seq<Arc>, maxLegs: int)
    requires InRange(n, required)
    ensures var p := Planned(config, cancelled, late, n, required, maxLegs);
      && p.stats.requiredEdges == |required|
      && p.stats.requiredEdges + p.stats.bridgeEdges == |AllLegs(p.routes)|
      && p.stats.duplicateRequiredEdges == |DuplicatePlaces(AllLegs(p.routes), Normalized(required))|
  {
    DuplicatesArePlaces(AllLegs(Planned(config, cancelled, late, n, required, maxLegs).routes), Normalized(required));
    hide DensePlanned, LowerBound, DuplicateBridges, DuplicatePlaces;
    if required == [] {
      NoDuplicatesOnNothing(Normalized(required));
    } else {
      PlannedShape(config, cancelled, late, n, required, maxLegs);
      PlanIsExactCover(config, cancelled, late, n, required, maxLegs);
      var p := Planned(config, cancelled, late, n, required, maxLegs);
      ExactCoverCounts(p.routes, Normalized(required));
    }
  }

  lemma NoDuplicatesOnNothing(required: seq<Arc>)
    ensures DuplicateBridges([], required) == 0
  {
  }

  lemma SameBag(a: seq<Arc>, b: seq<Arc>)
    requires multiset(a) == multiset(b)
    ensures |a| == |b|
    ensures forall e :: e in a ==> e in b
  {
    assert |a| == |multiset(a)| == |multiset(b)| == |b|;
    forall e | e in a ensures e in b {
      assert e in multiset(a);
    }
  }

  lemma CountsOfExact(legs: seq<Leg>, required: seq<Arc>)
    requires IdsAreIndexes(required) && |RequiredOf(legs)| == |required| == |IdsOn(legs, |required|)|
    requires forall e :: e in RequiredOf(legs) ==> e in required
    ensures |required| + BridgesOf(legs) == |legs|
    ensures Duplicates(legs, required) == DuplicateBridges(legs, required)
  {
    LegsAreRequiredOrBridge(legs);
    NumberedLegsAll(legs, |required|);
  }

  lemma ExactCoverCounts(routes: seq<Route>, required: seq<Arc>)
    requires IdsAreIndexes(required) && multiset(RequiredOfAll(routes)) == multiset(required)
    ensures |required| + BridgesOf(AllLegs(routes)) == |AllLegs(routes)|
    ensures Duplicates(AllLegs(routes), required) == DuplicateBridges(AllLegs(routes), required)
  {
    hide Duplicates, DuplicateBridges, BridgesOf;
    RequiredOfAllLegs(routes);
    SameBag(RequiredOfAll(routes), required);
    ExactMeansCovered(routes, required);
    FullCoverage(routes, required);
    CountsOfExact(AllLegs(routes), required);
  }

  /** The order and the ids the arcs come in do not change the plan. */
  lemma PlanOrderIndependence(config: Config, cancelled: nat -> bool, late: bool, n: nat,
                              a: seq<Arc>, b: seq<Arc>, maxLegs: int)
    requires InRange(n, a) && InRange(n, b) && multiset(PairsOf(a)) == multiset(PairsOf(b))
    ensures Planned(config, cancelled, late, n, a, maxLegs) == Planned(config, cancelled, late, n, b, maxLegs)
  {
    OrderIndependence(a, b);
    NormalizedInRange(n, a);
    NormalizedInRange(n, b);
  }

  // ---------- The code ----------

  method DensePlan(cancelled: nat -> bool, n: nat, required: seq<Arc>, maxLegs: int, window: int) returns (plan: Plan)
    requires InRange(n, required) && IdsAreIndexes(required) && maxLegs > 0
    ensures plan == DensePlanned(n, required, cancelled, maxLegs, window)
  {
    hide PackedRoutes, DenseFragments;
    FragmentsExact(n, required, cancelled, maxLegs, window);
    var g := MutableGraph.New(n, required);
    var frags := DenseRouteFirst(cancelled, g, maxLegs, window);
    var reqSet := RequiredSet.New(n, required);
    FragmentEnds(frags, required, n);
    var routes := P.PackFragments(frags, maxLegs, reqSet, required);
    plan := Plan(routes, NO_STATS.(requiredEdges := |required|, providerCalls := |routes|, branch := "dense"));
  }

  lemma FragmentEnds(fs: seq<Fragment>, arcs: seq<Arc>, n: nat)
    requires NonEmptyFragments(fs) && InRange(n, arcs) && multiset(FragmentArcs(fs)) == multiset(arcs)
    ensures FragmentsWithin(fs, n) && P.EndpointsBelow(fs, n)
  {
    forall e | e in FragmentArcs(fs) ensures e in arcs {
      assert e in multiset(FragmentArcs(fs));
    }
    FragmentsOfArcs(fs, arcs, n);
    forall i | 0 <= i < |fs| ensures fs[i].Start() < n && fs[i].End() < n {
      assert InRange(n, fs[i].edges);
    }
  }

  lemma DensePlanBridges(n: nat, required: seq<Arc>, cancelled: nat -> bool, maxLegs: int, window: int)
    requires InRange(n, required) && IdsAreIndexes(required) && maxLegs > 0
    ensures BridgesWithin(DensePlanned(n, required, cancelled, maxLegs, window).routes, Max(VertexCount(required), 1))
  {
    hide Fragments, BridgesWithin, PackedRoutes;
    FragmentsExact(n, required, cancelled, maxLegs, window);
    VertexCountBounds(required);
    var k := Max(VertexCount(required), 1);
    FragmentEnds(Fragments(n, required, cancelled, maxLegs, window), required, k);
    RoutesWithin(Fragments(n, required, cancelled, maxLegs, window), maxLegs, required, k);
  }

  /** Every leg of the plan, bridge or not, runs between vertices of the graph. */
  lemma PlanWithin(config: Config, cancelled: nat -> bool, late: bool, n: nat, required: seq<Arc>, maxLegs: int)
    requires InRange(n, required)
    ensures AllWithin(Planned(config, cancelled, late, n, required, maxLegs).routes, n)
  {
    hide AllWithin, DensePlanned, BridgesWithin;
    if required == [] {
      NothingWithin(n);
    } else {
      var arcs, limit := Normalized(required), LegLimit(config, maxLegs);
      PlannedShape(config, cancelled, late, n, required, maxLegs);
      DensePlanWithin(n, arcs, cancelled, limit, config.denseCandidateWindow);
    }
  }

  lemma NothingWithin(n: nat)
    ensures AllWithin([], n)
  {
  }

  lemma DensePlanWithin(n: nat, required: seq<Arc>, cancelled: nat -> bool, maxLegs: int, window: int)
    requires InRange(n, required) && IdsAreIndexes(required) && maxLegs > 0
    ensures AllWithin(DensePlanned(n, required, cancelled, maxLegs, window).routes, n)
  {
    hide Fragments, AllWithin, BridgesWithin, PackedRoutes;
    FragmentsExact(n, required, cancelled, maxLegs, window);
    FragmentEnds(Fragments(n, required, cancelled, maxLegs, window), required, n);
    RoutesWithin(Fragments(n, required, cancelled, maxLegs, window), maxLegs, required, n);
  }

  /** Normalize, bound, grow, pack, validate. */
  method MakePlan(config: Config, cancelled: nat -> bool, late: bool, n: nat, required0: seq<Arc>, maxLegs0: int)
    returns (plan: Plan)
    requires InRange(n, required0)
    ensures plan == Planned(config, cancelled, late, n, required0, maxLegs0)
  {
    hide DensePlanned, Finalized, LowerBound;
    var maxLegs := maxLegs0;
    if maxLegs <= 0 {
      maxLegs := config.maxLegs;
    }
    if maxLegs <= 0 {
      maxLegs := 17;
    }
    if |required0| == 0 {
      return Plan([], NO_STATS);
    }
    var required := NormalizeRequired(required0);
    NormalizedInRange(n, required0);
    NormalForm(required0);
    var lowerBound := ComputeLowerBound(n, required, maxLegs);
    var window := config.denseCandidateWindow;
    if window <= 0 {
      window := 8;
    }
    DefaultWindow(n, required, cancelled, maxLegs, config.denseCandidateWindow);
    plan := DensePlan(cancelled, n, required, maxLegs, window);
    plan := plan.(stats := plan.stats.(lowerBound := lowerBound, branch := "dense"));
    if late {
      plan := plan.(stats := plan.stats.(cancelled := true));
    }
    DensePlannedStats(n, required, cancelled, maxLegs, window);
    DensePlanBridges(n, required, cancelled, maxLegs, window);
    plan := FinalizePlan(plan, required, maxLegs);
  }

  /** A window of zero or less means 8. */
  lemma DefaultWindow(n: nat, required: seq<Arc>, cancelled: nat -> bool, maxLegs: int, window: int)
    requires InRange(n, required) && IdsAreIndexes(required) && maxLegs > 0
    ensures DensePlanned(n, required, cancelled, maxLegs, if window <= 0 then 8 else window) ==
      DensePlanned(n, required, cancelled, maxLegs, window)
  {
    hide PackedRoutes, DenseTrails;
    assert Fragments(n, required, cancelled, maxLegs, if window <= 0 then 8 else window) ==
      Fragments(n, required, cancelled, maxLegs, window);
  }
}
