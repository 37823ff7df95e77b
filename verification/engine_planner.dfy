/**
 * The engine with its default planner (internal/engine/engine.go with internal/arccover/planner.go).
 *
 * The engine is modelled with any arc-cover planner; this file puts DensePlanner in its place.  Two facts have to be
 * carried over.  The planner covers the normalized misses, while the engine needs every miss as it was collected to be
 * passed by some leg: the normal form keeps every pair, so a cover of it passes every miss (CoveredMeansPassed).  And
 * the engine turns vertices into points, so every leg, bridges included, must stay within the request's points
 * (PlannedWithin).
 *
 * DensePlannerServes says that the default planner meets both, whatever its own looks at the context find.  EndToEnd
 * is the transparency theorem for the whole: cache, planner, batching and provider.
 */
module EnginePlanner {
  import opened ArcTypes
  import opened EngineRule
  import opened EngineTransparency
  import opened LowerBounds
  import P = Planner
  import N = Normalize
  import V = ValidateRule

  /** What the default planner answers, for some cancellation of its own looks at the context. */
  ghost predicate CoversDensely(env: Env, cancelled: nat -> bool, late: bool) {
    forall n, arcs, maxLegs :: InRange(n, arcs) ==>
      env.cover(n, arcs, maxLegs) == P.Planned(P.NewDensePlanner(P.DEFAULT_CONFIG), cancelled, late, n, arcs, maxLegs)
  }

  lemma CoveredMeansPassed(routes: seq<Route>, misses: seq<Arc>, a: Arc)
    requires Covers(routes, N.Normalized(misses)) && a in misses
    ensures Passed(routes, a)
  {
    hide N.Normalized;
    var arcs := N.Normalized(misses);
    var k := SomewhereNormalized(misses, a);
    var at :| CoversAt(routes, arcs, at);
    var p: Place := at[k];
    assert LegAt(routes, p, arcs[k]);
    assert N.PairOf(arcs[k]) == N.PairOf(a);
    assert routes[p.route].legs[p.leg].from == a.from;
  }

  lemma SomewhereNormalized(misses: seq<Arc>, a: Arc) returns (k: nat)
    requires a in misses
    ensures k < |N.Normalized(misses)| && N.PairOf(N.Normalized(misses)[k]) == N.PairOf(a)
  {
    hide N.Normalized;
    N.NormalForm(misses);
    var i :| 0 <= i < |misses| && misses[i] == a;
    assert N.PairsOf(misses)[i] in multiset(N.PairsOf(misses));
    assert N.PairOf(a) in multiset(N.PairsOf(N.Normalized(misses)));
    k :| 0 <= k < |N.PairsOf(N.Normalized(misses))| && N.PairsOf(N.Normalized(misses))[k] == N.PairOf(a);
  }

  lemma PlannedFits(config: P.Config, cancelled: nat -> bool, late: bool, n: nat, arcs: seq<Arc>, maxLegs: int)
    requires InRange(n, arcs) && maxLegs > 0
    ensures Fits(P.Planned(config, cancelled, late, n, arcs, maxLegs).routes, n, arcs, maxLegs)
  {
    P.PlanIsExactCover(config, cancelled, late, n, arcs, maxLegs);
    P.PlanWithin(config, cancelled, late, n, arcs, maxLegs);
    hide P.Planned, Passed, Covers, N.Normalized, Continuous;
    var routes := P.Planned(config, cancelled, late, n, arcs, maxLegs).routes;
    forall r | 0 <= r < |routes| ensures Walks(routes[r], maxLegs) && LegsWithin(routes[r].legs, n) {
      assert V.Keeps(routes[r], maxLegs) && LegsWithin(routes[r].legs, n);
    }
    forall a | a in arcs ensures Passed(routes, a) {
      CoveredMeansPassed(routes, arcs, a);
    }
  }

  /** The default planner gives the engine what it needs, whatever its own cancellation. */
  lemma DensePlannerServes(env: Env, cancelled: nat -> bool, late: bool)
    requires CoversDensely(env, cancelled, late)
    ensures CoverServes(env) && CoverWithin(env)
  {
    hide P.Planned, Fits, AllWithin;
    forall n: nat, arcs, maxLegs | InRange(n, arcs)
      ensures AllWithin(env.cover(n, arcs, maxLegs).routes, n)
    {
      P.PlanWithin(P.NewDensePlanner(P.DEFAULT_CONFIG), cancelled, late, n, arcs, maxLegs);
    }
    forall n: nat, arcs, maxLegs | InRange(n, arcs) && maxLegs > 0
      ensures Fits(env.cover(n, arcs, maxLegs).routes, n, arcs, maxLegs)
    {
      PlannedFits(P.NewDensePlanner(P.DEFAULT_CONFIG), cancelled, late, n, arcs, maxLegs);
    }
  }

  /** End to end: cache, planner, batching and provider together return the provider's value in every cell off the
      diagonal, at one call per planned route. */
  lemma EndToEnd(env: Env, truth: Truth, cancelled: nat -> bool, late: bool, i: nat, j: nat)
    requires CoversDensely(env, cancelled, late) && Coherent(env.setup, truth, env.initial)
    requires Uninterrupted(env) && env.setup.batchSize > 1
    requires ProviderTrue(env, truth) && CoordsTrue(env, truth) && CellsTrue(env, truth)
    requires i < |env.points| && j < |env.points| && i != j
    ensures Cell(i, j) in Computed(env).matrix
    ensures Computed(env).matrix[Cell(i, j)] == TruthOf(env.setup, truth, env.points[i], env.points[j])
    ensures Computed(env).stats.providerCalls == |PlanOf(env).routes|
  {
    hide FillTo, ProbeTo, CoversDensely, Coherent, Uninterrupted, ProviderTrue, CoordsTrue, CellsTrue, CoverServes;
    DensePlannerServes(env, cancelled, late);
    CacheTransparency(env, truth, i, j);
    CallsAreRoutes(env, truth);
  }

  // ---------- How many calls ----------

  /** Position of a pair of points, row by row. */
  function Position(env: Env, a: Arc): nat { a.from * |env.points| + a.to }

  lemma PositionOfCell(env: Env, p: nat)
    requires p < CellCount(env)
    ensures Position(env, Arc(0, Row(env, p), Col(env, p))) == p
  {
    var n := |env.points|;
    assert p == (p / n) * n + p % n;
  }

  /** Misses come row by row, each pair once. */
  ghost predicate Ascending(env: Env, misses: seq<Arc>, p: nat) {
    && (forall k :: 0 <= k < |misses| ==> Position(env, misses[k]) < p)
    && forall k, l :: 0 <= k < l < |misses| ==> Position(env, misses[k]) < Position(env, misses[l])
  }

  lemma ProbeCellMisses(env: Env, s: Run, i: nat, j: nat)
    ensures ProbeCell(env, s, i, j).misses == s.misses || ProbeCell(env, s, i, j).misses == s.misses + [Arc(0, i, j)]
  {
    hide Lookup, PointAt, PairKeyFor;
  }

  lemma AscendingNext(env: Env, misses: seq<Arc>, p: nat, a: Arc)
    requires Ascending(env, misses, p) && Position(env, a) == p
    ensures Ascending(env, misses, p + 1) && Ascending(env, misses + [a], p + 1)
  {
    hide Position;
  }

  lemma ProbingAscends(env: Env, s: Run, p: nat)
    requires p < CellCount(env) && Ascending(env, s.misses, p)
    ensures Ascending(env, ProbeCell(env, s, Row(env, p), Col(env, p)).misses, p + 1)
  {
    hide ProbeCell, Position, Ascending, CellCount, Row, Col;
    ProbeCellMisses(env, s, Row(env, p), Col(env, p));
    PositionOfCell(env, p);
    AscendingNext(env, s.misses, p, Arc(0, Row(env, p), Col(env, p)));
  }

  lemma {:induction false} MissesAscend(env: Env, p: nat)
    requires p <= CellCount(env)
    ensures Ascending(env, ProbeTo(env, p).misses, p)
  {
    hide ProbeTo, ProbeCell, Position, Ascending, CellCount, Row, Col;
    if p == 0 {
      NothingMissed(env);
    } else {
      MissesAscend(env, p - 1);
      ProbeToNext(env, p - 1);
      ProbingAscends(env, ProbeTo(env, p - 1), p - 1);
    }
  }

  lemma NothingMissed(env: Env)
    ensures Ascending(env, ProbeTo(env, 0).misses, 0)
  {
  }

  ghost predicate DifferentPairs(arcs: seq<Arc>) {
    forall i, j :: 0 <= i < j < |arcs| ==> N.PairOf(arcs[i]) != N.PairOf(arcs[j])
  }

  lemma MissesDiffer(env: Env)
    ensures DifferentPairs(Probed(env).misses)
  {
    MissesAscend(env, CellCount(env));
    hide ProbeTo, CellCount;
    var misses := Probed(env).misses;
    forall i, j | 0 <= i < j < |misses| ensures N.PairOf(misses[i]) != N.PairOf(misses[j]) {
      assert Position(env, misses[i]) < Position(env, misses[j]);
    }
  }

  /** Lists with the same bag are both without repetition or neither is. */
  lemma {:induction false} DistinctCounts<T>(s: seq<T>, x: T)
    requires forall i, j :: 0 <= i < j < |s| ==> s[i] != s[j]
    ensures multiset(s)[x] <= 1
  {
    if s != [] {
      var n := |s| - 1;
      DistinctCounts(s[..n], x);
      assert s == s[..n] + [s[n]];
      if s[n] == x {
        assert x !in multiset(s[..n]);
      }
    }
  }

  lemma CountsDistinct<T>(s: seq<T>, i: nat, j: nat)
    requires i < j < |s| && s[i] == s[j]
    ensures multiset(s)[s[i]] >= 2
  {
    assert s == s[..i + 1] + s[i + 1..];
    assert s[..i + 1][i] in multiset(s[..i + 1]) && s[i + 1..][j - i - 1] in multiset(s[i + 1..]);
  }

  lemma NormalizedDiffer(misses: seq<Arc>)
    requires DifferentPairs(misses)
    ensures DifferentPairs(N.Normalized(misses))
  {
    hide N.Normalized;
    N.NormalForm(misses);
    var arcs := N.Normalized(misses);
    forall i, j | 0 <= i < j < |arcs| ensures N.PairOf(arcs[i]) != N.PairOf(arcs[j]) {
      if N.PairOf(arcs[i]) == N.PairOf(arcs[j]) {
        CountsDistinct(N.PairsOf(arcs), i, j);
        DistinctCounts(N.PairsOf(misses), N.PairOf(arcs[i]));
        assert false;
      }
    }
  }

  lemma SomewhereMissed(misses: seq<Arc>, k: nat) returns (a: Arc)
    requires k < |N.Normalized(misses)|
    ensures a in misses && N.PairOf(a) == N.PairOf(N.Normalized(misses)[k])
  {
    hide N.Normalized;
    N.NormalForm(misses);
    var arcs := N.Normalized(misses);
    assert N.PairsOf(arcs)[k] in multiset(N.PairsOf(arcs));
    assert N.PairOf(arcs[k]) in multiset(N.PairsOf(misses));
    var i :| 0 <= i < |N.PairsOf(misses)| && N.PairsOf(misses)[i] == N.PairOf(arcs[k]);
    a := misses[i];
  }

  /** Walks that pass every miss cover the normalized misses. */
  lemma PassedMeansCovered(rival: seq<Route>, misses: seq<Arc>)
    requires DifferentPairs(misses) && forall a :: a in misses ==> Passed(rival, a)
    ensures Covers(rival, N.Normalized(misses))
  {
    NormalizedDiffer(misses);
    hide N.Normalized;
    var arcs := N.Normalized(misses);
    forall k | 0 <= k < |arcs| ensures HasLeg(rival, arcs[k]) {
      var a := SomewhereMissed(misses, k);
      var r, i :| 0 <= r < |rival| && 0 <= i < |rival[r].legs|
        && rival[r].legs[i].from == a.from && rival[r].legs[i].to == a.to;
      assert LegAt(rival, Place(r, i), arcs[k]);
    }
    CoverByPair(rival, arcs);
  }

  lemma PlanIsPlanned(env: Env, cancelled: nat -> bool, late: bool, limit: int)
    requires CoversDensely(env, cancelled, late) && InRange(|env.points|, Probed(env).misses)
    requires limit == if env.setup.batchSize > 1 then env.setup.batchSize - 1 else 11
    ensures var config := P.NewDensePlanner(P.DEFAULT_CONFIG);
      PlanOf(env).routes == []
      || PlanOf(env) == P.Planned(config, cancelled, late, |env.points|, Probed(env).misses, limit)
  {
    hide ProbeTo, P.Planned;
  }

  /** With the default planner, a run plans at most four times the routes of any list of walks of one leg less than a
      batch, or of eleven legs without a batch, that passes every pair the stores missed. */
  lemma RoutesWithinFour(env: Env, cancelled: nat -> bool, late: bool, rival: seq<Route>)
    requires CoversDensely(env, cancelled, late)
    requires AreWalks(rival, if env.setup.batchSize > 1 then env.setup.batchSize - 1 else 11)
    requires forall a :: a in Probed(env).misses ==> Passed(rival, a)
    ensures |PlanOf(env).routes| <= 4 * |rival|
  {
    hide PlanOf, ProbeTo, CellCount, P.Planned, Covers, CoversDensely, Passed, DifferentPairs, N.Normalized, AreWalks;
    MissesInRange(env, CellCount(env));
    MissesDiffer(env);
    PassedMeansCovered(rival, Probed(env).misses);
    var misses, limit := Probed(env).misses, if env.setup.batchSize > 1 then env.setup.batchSize - 1 else 11;
    PlanIsPlanned(env, cancelled, late, limit);
    var config := P.NewDensePlanner(P.DEFAULT_CONFIG);
    P.PlanWithinFour(config, cancelled, late, |env.points|, misses, limit, limit, rival);
  }

  /** So, uninterrupted and with coherent stores, the whole computation makes at most four times the calls. */
  lemma CallsWithinFour(env: Env, truth: Truth, cancelled: nat -> bool, late: bool, rival: seq<Route>)
    requires CoversDensely(env, cancelled, late) && Coherent(env.setup, truth, env.initial)
    requires Uninterrupted(env) && env.setup.batchSize > 1
    requires ProviderTrue(env, truth) && CoordsTrue(env, truth) && CellsTrue(env, truth)
    requires AreWalks(rival, env.setup.batchSize - 1)
    requires forall a :: a in Probed(env).misses ==> Passed(rival, a)
    ensures Computed(env).stats.providerCalls <= 4 * |rival|
  {
    hide FillTo, ProbeTo, CoversDensely, Coherent, Uninterrupted, ProviderTrue, CoordsTrue, CellsTrue, CoverServes, Passed;
    DensePlannerServes(env, cancelled, late);
    RoutesWithinFour(env, cancelled, late, rival);
    CallsAreRoutes(env, truth);
  }
}
