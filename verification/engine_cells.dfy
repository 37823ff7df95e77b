/**
 * What a cell of the matrix shows, for any mix of real and fallback steps and wherever the deadline cuts the run.
 *
 * CellShows: the last step the executed routes brought for the pair; else the pair's first hit while probing; else the
 * second lookup or the single-pair call.  CellsAreFilledInOrder says which cells are filled, StoredLast what the stores
 * hold after the routes.
 */
module EngineCells {
  import opened ArcTypes
  import opened Batching
  import opened EngineRule

  // ---------- What the routes bring ----------

  /** The replies to the packets of route number r, one after the other. */
  ghost function BroughtBy(env: Env, r: nat): seq<Step>
    requires r < |PlanOf(env).routes|
  {
    var wps := WaypointsOf(env, PlanOf(env).routes[r].legs);
    var packets := Packets(env.setup.batchSize, wps);
    if |wps| < 2 then []
    else
      Flatten(seq(|packets|, i requires 0 <= i < |packets| =>
        var reply := env.provider(r)(i, packets[i]);
        if reply.Answer? then reply.steps else []))
  }

  /** The steps of the first k routes, in order. */
  ghost function Brought(env: Env, k: nat): seq<Step>
    requires k <= |PlanOf(env).routes|
  {
    if k == 0 then [] else Brought(env, k - 1) + BroughtBy(env, k - 1)
  }

  /** Step m is the last of the steps that match. */
  ghost predicate LastOf(steps: seq<Step>, matches: Step -> bool, m: nat) {
    m < |steps| && matches(steps[m]) && forall k :: m < k < |steps| ==> !matches(steps[k])
  }

  ghost predicate NoneOf(steps: seq<Step>, matches: Step -> bool) {
    forall k :: 0 <= k < |steps| ==> !matches(steps[k])
  }

  lemma {:induction false} LastOrNone(steps: seq<Step>, matches: Step -> bool) returns (m: nat)
    ensures NoneOf(steps, matches) || LastOf(steps, matches, m)
  {
    m := 0;
    if steps != [] {
      var k := |steps| - 1;
      if matches(steps[k]) {
        m := k;
      } else {
        m := LastOrNone(steps[..k], matches);
      }
    }
  }

  // ---------- Filing steps one after the other ----------

  datatype Entry<V> = Absent | Present(value: V)

  function At<K, V>(m: map<K, V>, key: K): Entry<V> { if key in m then Present(m[key]) else Absent }

  /** The entry shows the last step that matches, or is as it was. */
  ghost predicate Shows<V>(before: Entry<V>, steps: seq<Step>, matches: Step -> bool, value: Step -> V, after: Entry<V>) {
    && (forall m: nat :: LastOf(steps, matches, m) ==> after == Present(value(steps[m])))
    && (NoneOf(steps, matches) ==> after == before)
  }

  lemma ShowsNothing<V>(before: Entry<V>, matches: Step -> bool, value: Step -> V)
    ensures Shows(before, [], matches, value, before)
  {
  }

  lemma ShowsOne<V>(before: Entry<V>, st: Step, matches: Step -> bool, value: Step -> V)
    ensures Shows(before, [st], matches, value, if matches(st) then Present(value(st)) else before)
  {
    if NoneOf([st], matches) {
      assert !matches([st][0]);
    }
  }

  lemma LastInSecond(a: seq<Step>, b: seq<Step>, matches: Step -> bool, m: nat)
    requires LastOf(a + b, matches, m) && m >= |a|
    ensures LastOf(b, matches, m - |a|)
  {
    forall k | m - |a| < k < |b| ensures !matches(b[k]) {
      assert (a + b)[|a| + k] == b[k];
    }
  }

  lemma LastInFirst(a: seq<Step>, b: seq<Step>, matches: Step -> bool, m: nat)
    requires LastOf(a + b, matches, m) && m < |a|
    ensures LastOf(a, matches, m) && NoneOf(b, matches)
  {
    forall k | m < k < |a| ensures !matches(a[k]) {
      assert (a + b)[k] == a[k];
    }
    forall k | 0 <= k < |b| ensures !matches(b[k]) {
      assert (a + b)[|a| + k] == b[k];
    }
  }

  lemma NoneInEither(a: seq<Step>, b: seq<Step>, matches: Step -> bool)
    requires NoneOf(a + b, matches)
    ensures NoneOf(a, matches) && NoneOf(b, matches)
  {
    forall k | 0 <= k < |a| ensures !matches(a[k]) {
      assert (a + b)[k] == a[k];
    }
    forall k | 0 <= k < |b| ensures !matches(b[k]) {
      assert (a + b)[|a| + k] == b[k];
    }
  }

  lemma ShowsMore<V>(before: Entry<V>, a: seq<Step>, mid: Entry<V>, b: seq<Step>, after: Entry<V>,
                     matches: Step -> bool, value: Step -> V)
    requires Shows(before, a, matches, value, mid) && Shows(mid, b, matches, value, after)
    ensures Shows(before, a + b, matches, value, after)
  {
    hide NoneOf;
    var all := a + b;
    forall m: nat | LastOf(all, matches, m) ensures after == Present(value(all[m])) {
      if m >= |a| {
        LastInSecond(a, b, matches, m);
      } else {
        LastInFirst(a, b, matches, m);
      }
    }
    if NoneOf(all, matches) {
      NoneInEither(a, b, matches);
    }
  }

  // ---------- What filing does to the segments and the stores ----------

  /** Steps of this pair. */
  ghost function ForPair(env: Env, key: PairKey): Step -> bool {
    (st: Step) => PairKeyFor(env.setup, st.origin, st.destination) == key
  }

  /** Real steps whose edge is filed under this key. */
  ghost function ForKey(env: Env, key: Key): Step -> bool {
    (st: Step) => st.source != FromFallback && KeyFor(env.setup, st.origin, st.destination) == key
  }

  /** Of these, the archive takes only those that go anywhere. */
  ghost function ForArchive(env: Env, key: Key): Step -> bool {
    (st: Step) => st.source != FromFallback && KeyFor(env.setup, st.origin, st.destination) == key && st.distance != 0.0
  }

  function EdgeOf(env: Env): Step -> Edge {
    (st: Step) => Edge(st.origin, st.destination, st.distance, st.duration, env.setup.slot)
  }

  function Itself(): Step -> Step { (st: Step) => st }

  lemma StepFiles(env: Env, s: Run, st: Step, pair: PairKey, key: Key)
    ensures var t := AddStep(env, s, st);
      && At(t.segments, pair) == (if ForPair(env, pair)(st) then Present(st) else At(s.segments, pair))
      && At(t.stores.l1, key) ==
           (if env.setup.hasL1 && ForKey(env, key)(st) then Present(EdgeOf(env)(st)) else At(s.stores.l1, key))
      && At(t.stores.l2, key) ==
           (if env.setup.hasL2 && !env.setup.async && ForArchive(env, key)(st) then Present(EdgeOf(env)(st))
            else At(s.stores.l2, key))
  {
  }

  /** The pair's segment shows the last of its steps. */
  lemma {:induction false} StepsFileSegment(env: Env, s: Run, steps: seq<Step>, pair: PairKey)
    ensures Shows(At(s.segments, pair), steps, ForPair(env, pair), Itself(), At(AddSteps(env, s, steps).segments, pair))
  {
    hide Shows, At, ForPair, AddStep;
    if steps == [] {
      ShowsNothing(At(s.segments, pair), ForPair(env, pair), Itself());
    } else {
      var init, last := steps[..|steps| - 1], steps[|steps| - 1];
      var before := AddSteps(env, s, init);
      StepsFileSegment(env, s, init, pair);
      StepFiles(env, before, last, pair, KeyFor(env.setup, last.origin, last.destination));
      ShowsOne(At(before.segments, pair), last, ForPair(env, pair), Itself());
      ShowsMore(At(s.segments, pair), init, At(before.segments, pair), [last],
                At(AddSteps(env, s, steps).segments, pair), ForPair(env, pair), Itself());
      assert init + [last] == steps;
    }
  }

  /** The cache shows the last real step filed under the key. */
  lemma {:induction false} StepsFileCache(env: Env, s: Run, steps: seq<Step>, key: Key)
    requires env.setup.hasL1
    ensures Shows(At(s.stores.l1, key), steps, ForKey(env, key), EdgeOf(env), At(AddSteps(env, s, steps).stores.l1, key))
  {
    hide Shows, At, ForKey, AddStep, EdgeOf;
    if steps == [] {
      ShowsNothing(At(s.stores.l1, key), ForKey(env, key), EdgeOf(env));
    } else {
      var init, last := steps[..|steps| - 1], steps[|steps| - 1];
      var before := AddSteps(env, s, init);
      StepsFileCache(env, s, init, key);
      StepFiles(env, before, last, PairKeyFor(env.setup, last.origin, last.destination), key);
      ShowsOne(At(before.stores.l1, key), last, ForKey(env, key), EdgeOf(env));
      ShowsMore(At(s.stores.l1, key), init, At(before.stores.l1, key), [last],
                At(AddSteps(env, s, steps).stores.l1, key), ForKey(env, key), EdgeOf(env));
      assert init + [last] == steps;
    }
  }

  /** So does the archive, if the engine writes it. */
  lemma {:induction false} StepsFileArchive(env: Env, s: Run, steps: seq<Step>, key: Key)
    requires env.setup.hasL2 && !env.setup.async
    ensures Shows(At(s.stores.l2, key), steps, ForArchive(env, key), EdgeOf(env),
                  At(AddSteps(env, s, steps).stores.l2, key))
  {
    hide Shows, At, ForArchive, AddStep, EdgeOf;
    if steps == [] {
      ShowsNothing(At(s.stores.l2, key), ForArchive(env, key), EdgeOf(env));
    } else {
      var init, last := steps[..|steps| - 1], steps[|steps| - 1];
      var before := AddSteps(env, s, init);
      StepsFileArchive(env, s, init, key);
      StepFiles(env, before, last, PairKeyFor(env.setup, last.origin, last.destination), key);
      ShowsOne(At(before.stores.l2, key), last, ForArchive(env, key), EdgeOf(env));
      ShowsMore(At(s.stores.l2, key), init, At(before.stores.l2, key), [last],
                At(AddSteps(env, s, steps).stores.l2, key), ForArchive(env, key), EdgeOf(env));
      assert init + [last] == steps;
    }
  }

  // ---------- One route ----------

  /** A route that leaves the run running found the context alive and was answered in full. */
  lemma RouteRuns(env: Env, s: Run, r: nat, route: Route)
    requires ExecuteRoute(env, s, r, route).status == Running
    ensures s.status == Running && !env.expired(s.tick) && CheckContext(env, s) == s.(tick := s.tick + 1)
    ensures var t, wps := ExecuteRoute(env, s, r, route), WaypointsOf(env, route.legs);
      if |wps| < 2 then t == CheckContext(env, s)
      else
        && Fetched(env, r, wps).Routed?
        && t == AddSteps(env, AddCalls(CheckContext(env, s), CallsOf(env, r, wps)), Fetched(env, r, wps).steps)
  {
    hide WaypointsOf, CallsOf, Fetched, AddSteps;
  }

  /** What such a route does, given its steps. */
  lemma RouteFiles(env: Env, s: Run, r: nat, route: Route, steps: seq<Step>)
    requires ExecuteRoute(env, s, r, route).status == Running
    requires var wps := WaypointsOf(env, route.legs);
      if |wps| < 2 then steps == [] else Fetched(env, r, wps).Routed? ==> Fetched(env, r, wps).steps == steps
    ensures s.status == Running && !env.expired(s.tick)
    ensures var t := ExecuteRoute(env, s, r, route);
      && t.tick == s.tick + 1
      && t.segments == AddSteps(env, s, steps).segments && t.stores == AddSteps(env, s, steps).stores
      && t.stats.fallbackEdges == s.stats.fallbackEdges + Fallbacks(steps)
      && t.matrix == s.matrix
  {
    RouteRuns(env, s, r, route);
    hide ExecuteRoute, WaypointsOf, CallsOf, Fetched;
    var wps := WaypointsOf(env, route.legs);
    if |wps| >= 2 {
      var called := AddCalls(CheckContext(env, s), CallsOf(env, r, wps));
      SameSteps(env, s, called, steps);
      FallbacksAdd(env, called, steps);
    }
  }

  /** How many of the steps are fallbacks. */
  function Fallbacks(steps: seq<Step>): nat {
    if steps == [] then 0
    else Fallbacks(steps[..|steps| - 1]) + if steps[|steps| - 1].source == FromFallback then 1 else 0
  }

  lemma {:induction false} FallbacksAdd(env: Env, s: Run, steps: seq<Step>)
    ensures AddSteps(env, s, steps).stats.fallbackEdges == s.stats.fallbackEdges + Fallbacks(steps)
    ensures AddSteps(env, s, steps).stats.providerCalls == s.stats.providerCalls
    ensures AddSteps(env, s, steps).matrix == s.matrix && AddSteps(env, s, steps).tick == s.tick
  {
    if steps != [] {
      FallbacksAdd(env, s, steps[..|steps| - 1]);
    }
  }

  /** A route that was executed brought its replies. */
  lemma RouteBrings(env: Env, s: Run, r: nat)
    requires r < |PlanOf(env).routes| && ExecuteRoute(env, s, r, PlanOf(env).routes[r]).status == Running
    ensures s.status == Running && !env.expired(s.tick)
    ensures var t, steps := ExecuteRoute(env, s, r, PlanOf(env).routes[r]), BroughtBy(env, r);
      && t.tick == s.tick + 1
      && t.segments == AddSteps(env, s, steps).segments && t.stores == AddSteps(env, s, steps).stores
      && t.stats.fallbackEdges == s.stats.fallbackEdges + Fallbacks(steps)
      && t.matrix == s.matrix
  {
    BroughtIsFetched(env, r);
    hide *;
    RouteFiles(env, s, r, PlanOf(env).routes[r], BroughtBy(env, r));
  }

  lemma BroughtIsFetched(env: Env, r: nat)
    requires r < |PlanOf(env).routes|
    ensures var wps := WaypointsOf(env, PlanOf(env).routes[r].legs);
      if |wps| < 2 then BroughtBy(env, r) == []
      else Fetched(env, r, wps).Routed? ==> Fetched(env, r, wps).steps == BroughtBy(env, r)
  {
    hide PlanOf, WaypointsOf, Packets, Flatten, Fetched;
    if |WaypointsOf(env, PlanOf(env).routes[r].legs)| >= 2 {
      FetchedIsBrought(env, r);
    }
  }

  lemma FetchedIsBrought(env: Env, r: nat)
    requires r < |PlanOf(env).routes| && |WaypointsOf(env, PlanOf(env).routes[r].legs)| >= 2
    ensures var f := Fetched(env, r, WaypointsOf(env, PlanOf(env).routes[r].legs));
      f.Routed? ==> f.steps == BroughtBy(env, r)
  {
    hide PlanOf, WaypointsOf, Packets, Flatten;
    var packets := Packets(env.setup.batchSize, WaypointsOf(env, PlanOf(env).routes[r].legs));
    var parts := seq(|packets|, i requires 0 <= i < |packets| =>
      var reply := env.provider(r)(i, packets[i]);
      if reply.Answer? then reply.steps else []);
    CollectedIsReplies(packets, env.provider(r), env.callCancelled(r), parts);
  }

  /** Filing steps depends on nothing but the segments and the stores. */
  lemma {:induction false} SameSteps(env: Env, s: Run, t: Run, steps: seq<Step>)
    requires s.segments == t.segments && s.stores == t.stores
    ensures AddSteps(env, s, steps).segments == AddSteps(env, t, steps).segments
    ensures AddSteps(env, s, steps).stores == AddSteps(env, t, steps).stores
    ensures AddSteps(env, s, steps).status == s.status && AddSteps(env, s, steps).tick == s.tick
  {
    if steps != [] {
      SameSteps(env, s, t, steps[..|steps| - 1]);
    }
  }

  // ---------- All routes ----------

  lemma {:induction false} FallbacksConcat(a: seq<Step>, b: seq<Step>)
    ensures Fallbacks(a + b) == Fallbacks(a) + Fallbacks(b)
  {
    if b == [] {
      assert a + b == a;
    } else {
      FallbacksConcat(a, b[..|b| - 1]);
      assert (a + b)[..|a + b| - 1] == a + b[..|b| - 1];
    }
  }

  lemma {:induction false} ProbeIdle(env: Env, p: nat)
    ensures ProbeTo(env, p).matrix == map[]
    ensures ProbeTo(env, p).stats.providerCalls == ProbeTo(env, p).stats.fallbackEdges == 0
  {
    if p > 0 {
      hide Lookup, PointAt, PairKeyFor;
      ProbeIdle(env, p - 1);
    }
  }

  lemma PlannedRuns(env: Env)
    requires AfterPlan(env).status == Running
    ensures Probed(env).status == Running
    ensures var s, t := Probed(env), AfterPlan(env);
      && t.segments == s.segments && t.stores == s.stores && t.matrix == s.matrix
      && t.stats.fallbackEdges == s.stats.fallbackEdges && t.stats.providerCalls == s.stats.providerCalls
      && t.tick == s.tick + (if s.misses == [] then 0 else 1)
      && (s.misses != [] ==> !env.expired(s.tick))
  {
    hide ProbeTo, PlanOf;
  }

  lemma RunningRoutes(env: Env, k: nat)
    requires 0 < k <= |PlanOf(env).routes| && ExecuteTo(env, k).status == Running
    ensures ExecuteTo(env, k) == ExecuteRoute(env, ExecuteTo(env, k - 1), k - 1, PlanOf(env).routes[k - 1])
  {
    hide PlanOf, AfterPlan, ExecuteRoute;
  }

  lemma PlannedFiles(env: Env, pair: PairKey)
    requires ExecuteTo(env, 0).status == Running
    ensures Probed(env).status == Running && ExecuteTo(env, 0).matrix == map[]
    ensures Shows(At(Probed(env).segments, pair), Brought(env, 0), ForPair(env, pair), Itself(),
                  At(ExecuteTo(env, 0).segments, pair))
    ensures ExecuteTo(env, 0).stats.fallbackEdges == Fallbacks(Brought(env, 0))
  {
    PlannedRuns(env);
    ProbeIdle(env, CellCount(env));
    ShowsNothing(At(Probed(env).segments, pair), ForPair(env, pair), Itself());
    hide ProbeTo, AfterPlan, PlanOf, Shows;
  }

  lemma MoreShown(env: Env, k: nat, pair: PairKey)
    requires 0 < k <= |PlanOf(env).routes| && ExecuteTo(env, k).status == Running
    requires Shows(At(Probed(env).segments, pair), Brought(env, k - 1), ForPair(env, pair), Itself(),
                   At(ExecuteTo(env, k - 1).segments, pair))
    ensures Shows(At(Probed(env).segments, pair), Brought(env, k), ForPair(env, pair), Itself(),
                  At(ExecuteTo(env, k).segments, pair))
  {
    hide *;
    RunningRoutes(env, k);
    BroughtNext(env, k);
    var s := ExecuteTo(env, k - 1);
    RouteBrings(env, s, k - 1);
    StepsFileSegment(env, s, BroughtBy(env, k - 1), pair);
    ShowsMore(At(Probed(env).segments, pair), Brought(env, k - 1), At(s.segments, pair), BroughtBy(env, k - 1),
              At(ExecuteTo(env, k).segments, pair), ForPair(env, pair), Itself());
  }

  lemma RouteEffect(env: Env, k: nat)
    requires 0 < k <= |PlanOf(env).routes| && ExecuteTo(env, k).status == Running
    ensures var s, t, steps := ExecuteTo(env, k - 1), ExecuteTo(env, k), BroughtBy(env, k - 1);
      && s.status == Running && !env.expired(s.tick) && t.tick == s.tick + 1 && t.matrix == s.matrix
      && t.stats.fallbackEdges == s.stats.fallbackEdges + Fallbacks(steps)
      && Brought(env, k) == Brought(env, k - 1) + steps
  {
    hide *;
    RunningRoutes(env, k);
    BroughtNext(env, k);
    RouteBrings(env, ExecuteTo(env, k - 1), k - 1);
  }

  /** As long as the run goes on, each pair's segment shows the last step the routes brought for it, or what probing
      left there. */
  lemma {:induction false} ExecutedFiles(env: Env, k: nat, pair: PairKey)
    requires k <= |PlanOf(env).routes| && ExecuteTo(env, k).status == Running
    ensures Probed(env).status == Running && ExecuteTo(env, k).matrix == map[]
    ensures Shows(At(Probed(env).segments, pair), Brought(env, k), ForPair(env, pair), Itself(),
                  At(ExecuteTo(env, k).segments, pair))
    ensures ExecuteTo(env, k).stats.fallbackEdges == Fallbacks(Brought(env, k))
  {
    hide *;
    if k == 0 {
      PlannedFiles(env, pair);
    } else {
      RouteEffect(env, k);
      ExecutedFiles(env, k - 1, pair);
      MoreShown(env, k, pair);
      FallbacksConcat(Brought(env, k - 1), BroughtBy(env, k - 1));
    }
  }

  lemma BroughtNext(env: Env, k: nat)
    requires 0 < k <= |PlanOf(env).routes|
    ensures Brought(env, k) == Brought(env, k - 1) + BroughtBy(env, k - 1)
  {
  }

  /** And each key of a store the engine writes shows the last real step filed under it, or what probing left there. */
  ghost predicate StoresShow(env: Env, before: Stores, steps: seq<Step>, after: Stores, key: Key) {
    && (env.setup.hasL1 ==> Shows(At(before.l1, key), steps, ForKey(env, key), EdgeOf(env), At(after.l1, key)))
    && (env.setup.hasL2 && !env.setup.async ==>
      Shows(At(before.l2, key), steps, ForArchive(env, key), EdgeOf(env), At(after.l2, key)))
  }

  lemma StoresShowNothing(env: Env, st: Stores, key: Key)
    ensures StoresShow(env, st, [], st, key)
  {
    hide At, ForKey, ForArchive, EdgeOf;
    ShowsNothing(At(st.l1, key), ForKey(env, key), EdgeOf(env));
    ShowsNothing(At(st.l2, key), ForArchive(env, key), EdgeOf(env));
  }

  lemma StoresShowMore(env: Env, before: Stores, a: seq<Step>, s: Run, b: seq<Step>, key: Key)
    requires StoresShow(env, before, a, s.stores, key)
    ensures StoresShow(env, before, a + b, AddSteps(env, s, b).stores, key)
  {
    hide At, ForKey, ForArchive, EdgeOf, AddSteps, Shows;
    var mid, after := s.stores, AddSteps(env, s, b).stores;
    if env.setup.hasL1 {
      StepsFileCache(env, s, b, key);
      ShowsMore(At(before.l1, key), a, At(mid.l1, key), b, At(after.l1, key), ForKey(env, key), EdgeOf(env));
    }
    if env.setup.hasL2 && !env.setup.async {
      StepsFileArchive(env, s, b, key);
      ShowsMore(At(before.l2, key), a, At(mid.l2, key), b, At(after.l2, key), ForArchive(env, key), EdgeOf(env));
    }
  }

  lemma PlannedStores(env: Env, key: Key)
    requires ExecuteTo(env, 0).status == Running
    ensures StoresShow(env, Probed(env).stores, Brought(env, 0), ExecuteTo(env, 0).stores, key)
  {
    hide ProbeTo, AfterPlan, PlanOf, StoresShow;
    PlannedRuns(env);
    StoresShowNothing(env, Probed(env).stores, key);
  }

  lemma {:induction false} StoredLast(env: Env, k: nat, key: Key)
    requires k <= |PlanOf(env).routes| && ExecuteTo(env, k).status == Running
    ensures StoresShow(env, Probed(env).stores, Brought(env, k), ExecuteTo(env, k).stores, key)
  {
    hide *;
    if k == 0 {
      PlannedStores(env, key);
    } else {
      RouteEffect(env, k);
      RunningRoutes(env, k);
      var s := ExecuteTo(env, k - 1);
      RouteBrings(env, s, k - 1);
      StoredLast(env, k - 1, key);
      StoresShowMore(env, Probed(env).stores, Brought(env, k - 1), s, BroughtBy(env, k - 1), key);
    }
  }

  // ---------- Hits while probing ----------

  /** Looking up the pair of cell q, where probing stands before it. */
  ghost function ProbeHit(env: Env, q: nat): Hit {
    Lookup(env.setup, ProbeTo(env, q).stores, PointAt(env, Row(env, q)), PointAt(env, Col(env, q))).hit
  }

  /** Cell q is for this pair and its lookup hits. */
  ghost predicate HitsFor(env: Env, key: PairKey, q: nat) {
    && Row(env, q) != Col(env, q) && ProbeHit(env, q) != Miss
    && PairKeyFor(env.setup, PointAt(env, Row(env, q)), PointAt(env, Col(env, q))) == key
  }

  /** The first such cell below p. */
  ghost predicate FirstHit(env: Env, key: PairKey, p: nat, q: nat) {
    q < p && HitsFor(env, key, q) && forall k: nat :: k < q ==> !HitsFor(env, key, k)
  }

  ghost predicate NoHit(env: Env, key: PairKey, p: nat) {
    forall k: nat :: k < p ==> !HitsFor(env, key, k)
  }

  /** The segment of the pair after probing the cells below p: its first hit, if it had any. */
  ghost predicate ProbedAt(env: Env, key: PairKey, p: nat, segment: Entry<Step>) {
    && (forall q: nat :: FirstHit(env, key, p, q) ==> segment == Present(ProbeHit(env, q).step))
    && (NoHit(env, key, p) ==> segment == Absent)
  }

  lemma ProbeCellSegment(env: Env, p: nat, key: PairKey)
    requires ProbeTo(env, p + 1).status == Running
    ensures ProbeTo(env, p).status == Running
    ensures var before, after := At(ProbeTo(env, p).segments, key), At(ProbeTo(env, p + 1).segments, key);
      after == if before == Absent && HitsFor(env, key, p) then Present(ProbeHit(env, p).step) else before
  {
    hide Lookup, PointAt, PairKeyFor, Row, Col;
    ProbeToNext(env, p);
  }

  lemma ProbedNext(env: Env, key: PairKey, p: nat, before: Entry<Step>)
    requires ProbedAt(env, key, p, before)
    ensures ProbedAt(env, key, p + 1,
                     if before == Absent && HitsFor(env, key, p) then Present(ProbeHit(env, p).step) else before)
  {
    hide ProbeHit, PairKeyFor, PointAt, Row, Col;
    var after := if before == Absent && HitsFor(env, key, p) then Present(ProbeHit(env, p).step) else before;
    forall q: nat | FirstHit(env, key, p + 1, q) ensures after == Present(ProbeHit(env, q).step) {
      if q < p {
        assert FirstHit(env, key, p, q);
      } else {
        assert NoHit(env, key, p);
      }
    }
    if NoHit(env, key, p + 1) {
      assert NoHit(env, key, p);
    }
  }

  lemma {:induction false} HitOrNone(env: Env, key: PairKey, p: nat) returns (q: nat)
    ensures NoHit(env, key, p) || FirstHit(env, key, p, q)
  {
    hide HitsFor;
    q := 0;
    if p > 0 {
      q := HitOrNone(env, key, p - 1);
      if NoHit(env, key, p - 1) && HitsFor(env, key, p - 1) {
        q := p - 1;
      }
    }
  }

  lemma NothingProbed(env: Env, key: PairKey)
    ensures ProbedAt(env, key, 0, At(ProbeTo(env, 0).segments, key))
  {
  }

  lemma {:induction false} ProbedSegment(env: Env, key: PairKey, p: nat)
    requires ProbeTo(env, p).status == Running
    ensures ProbedAt(env, key, p, At(ProbeTo(env, p).segments, key))
  {
    hide *;
    if p == 0 {
      NothingProbed(env, key);
    } else {
      ProbeCellSegment(env, p - 1, key);
      ProbedSegment(env, key, p - 1);
      ProbedNext(env, key, p - 1, At(ProbeTo(env, p - 1).segments, key));
    }
  }

  // ---------- Filling ----------

  /** What the third phase puts into a cell whose pair has no segment: the second lookup, else the single-pair call. */
  ghost predicate FoundOrAsked(env: Env, s: Run, o: Point, d: Point, v: Value) {
    var hit := Lookup(env.setup, s.stores, o, d).hit;
    if hit != Miss then v == Value(hit.step.distance, hit.step.duration)
    else
      var reply := env.pairProvider(s.tick + 1)([o, d]);
      && reply.Answer?
      && v == if reply.steps == [] then Value(reply.distance, reply.duration)
              else Value(reply.steps[0].distance, reply.steps[0].duration)
  }

  /** What filling puts into a cell, from the state before. */
  ghost predicate FilledFrom(env: Env, s: Run, i: nat, j: nat, v: Value) {
    var o, d := PointAt(env, i), PointAt(env, j);
    var segment := At(s.segments, PairKeyFor(env.setup, o, d));
    if segment.Present? then v == Value(segment.value.distance, segment.value.duration)
    else FoundOrAsked(env, s, o, d, v)
  }

  lemma FillCellEffect(env: Env, s: Run, i: nat, j: nat)
    ensures var t := FillCell(env, s, i, j);
      && (t.status == Running ==> s.status == Running && !env.expired(s.tick) && t.tick == s.tick + 1)
      && (i == j || t.status != Running ==> t.matrix == s.matrix)
      && (i != j && t.status == Running ==>
        Cell(i, j) in t.matrix && FilledFrom(env, s, i, j, t.matrix[Cell(i, j)])
        && t.matrix == s.matrix[Cell(i, j) := t.matrix[Cell(i, j)]])
      && t.segments == s.segments
  {
    hide Lookup, PairKeyFor, PointAt, Persist;
  }

  lemma {:induction false} ExecuteIdle(env: Env, k: nat)
    requires k <= |PlanOf(env).routes|
    ensures ExecuteTo(env, k).matrix == map[]
    decreases k
  {
    hide *;
    if k == 0 {
      PlanIdle(env);
    } else {
      ExecuteIdle(env, k - 1);
      ExecuteToNext(env, k - 1);
      RouteIdle(env, ExecuteTo(env, k - 1), k - 1, PlanOf(env).routes[k - 1]);
    }
  }

  lemma PlanIdle(env: Env)
    ensures ExecuteTo(env, 0).matrix == map[]
  {
    ProbeIdle(env, CellCount(env));
    hide ProbeTo, PlanOf;
  }

  lemma RouteIdle(env: Env, s: Run, r: nat, route: Route)
    ensures ExecuteRoute(env, s, r, route).matrix == s.matrix
  {
    hide WaypointsOf, CallsOf, Fetched, AddSteps;
    var wps := WaypointsOf(env, route.legs);
    if Fetched(env, r, wps).Routed? {
      FallbacksAdd(env, AddCalls(CheckContext(env, s), CallsOf(env, r, wps)), Fetched(env, r, wps).steps);
    }
  }

  ghost function CellOf(env: Env, p: nat): Cell { Cell(Row(env, p), Col(env, p)) }

  lemma CellsDiffer(env: Env, p: nat, q: nat)
    requires p < CellCount(env) && q < CellCount(env) && CellOf(env, p) == CellOf(env, q)
    ensures p == q
  {
    var n := |env.points|;
    assert p == (p / n) * n + p % n && q == (q / n) * n + q % n;
  }

  /** Until its turn a cell is empty. */
  lemma {:induction false} NotYetFilled(env: Env, p: nat, q: nat)
    requires q <= p < CellCount(env)
    ensures At(FillTo(env, q).matrix, CellOf(env, p)) == Absent
    decreases q
  {
    hide FillTo, FillCell, Executed, CellOf, FilledFrom, At;
    if q == 0 {
      FillStarts(env);
      NothingFilledYet(env, CellOf(env, p));
    } else {
      NotYetFilled(env, p, q - 1);
      FillToNext(env, q - 1);
      OtherCell(env, FillTo(env, q - 1), p, q - 1);
    }
  }

  lemma NothingFilledYet(env: Env, c: Cell)
    ensures At(Executed(env).matrix, c) == Absent
  {
    ExecuteIdle(env, |PlanOf(env).routes|);
    hide ExecuteTo, PlanOf;
  }

  lemma OtherCell(env: Env, s: Run, p: nat, q: nat)
    requires p < CellCount(env) && q < CellCount(env) && p != q
    ensures At(FillCell(env, s, Row(env, q), Col(env, q)).matrix, CellOf(env, p)) == At(s.matrix, CellOf(env, p))
  {
    FillCellEffect(env, s, Row(env, q), Col(env, q));
    hide FillCell, Row, Col, FilledFrom;
    if CellOf(env, p) == CellOf(env, q) {
      CellsDiffer(env, p, q);
    }
  }

  /** After its turn it stays as it is. */
  lemma {:induction false} FilledStays(env: Env, p: nat, q: nat)
    requires p < q <= CellCount(env)
    ensures At(FillTo(env, q).matrix, CellOf(env, p)) == At(FillTo(env, p + 1).matrix, CellOf(env, p))
    decreases q
  {
    hide FillTo, FillCell, CellOf, At;
    if p + 1 < q {
      FilledStays(env, p, q - 1);
      FillToNext(env, q - 1);
      OtherCell(env, FillTo(env, q - 1), p, q - 1);
    }
  }

  lemma FillSegments(env: Env, p: nat)
    ensures FillTo(env, p).segments == Executed(env).segments
  {
    hide *;
    if p == 0 {
      FillStarts(env);
    } else {
      FillSegments(env, p - 1);
      FillToNext(env, p - 1);
      FillCellEffect(env, FillTo(env, p - 1), Row(env, p - 1), Col(env, p - 1));
    }
  }

  /** A cell off the diagonal is filled exactly if the run went on after it, and from the state before it. */
  lemma FilledExactly(env: Env, p: nat)
    requires p < CellCount(env)
    ensures At(Computed(env).matrix, CellOf(env, p)).Present? <==>
      Row(env, p) != Col(env, p) && FillTo(env, p + 1).status == Running
    ensures At(Computed(env).matrix, CellOf(env, p)).Present? ==>
      && FillTo(env, p).status == Running
      && FilledFrom(env, FillTo(env, p), Row(env, p), Col(env, p), At(Computed(env).matrix, CellOf(env, p)).value)
  {
    NotYetFilled(env, p, p);
    FilledStays(env, p, CellCount(env));
    FillToNext(env, p);
    FillCellEffect(env, FillTo(env, p), Row(env, p), Col(env, p));
    hide FillTo, FillCell, FilledFrom, Row, Col, CellCount;
  }

  lemma {:induction false} FillRunsBefore(env: Env, p: nat)
    requires FillTo(env, p).status == Running
    ensures Executed(env).status == Running
  {
    hide *;
    if p == 0 {
      FillStarts(env);
    } else {
      FillToNext(env, p - 1);
      FillCellEffect(env, FillTo(env, p - 1), Row(env, p - 1), Col(env, p - 1));
      FillRunsBefore(env, p - 1);
    }
  }

  // ---------- The value of a cell ----------

  /** All steps the routes of the plan brought. */
  ghost function AllBrought(env: Env): seq<Step> { Brought(env, |PlanOf(env).routes|) }

  /** The segment of a pair when the routes are done. */
  lemma SegmentIs(env: Env, key: PairKey)
    requires Executed(env).status == Running
    ensures var segment, steps := At(Executed(env).segments, key), AllBrought(env);
      && (forall m: nat :: LastOf(steps, ForPair(env, key), m) ==> segment == Present(steps[m]))
      && (NoneOf(steps, ForPair(env, key)) ==> ProbedAt(env, key, CellCount(env), segment))
  {
    ExecutedFiles(env, |PlanOf(env).routes|, key);
    ProbedSegment(env, key, CellCount(env));
    hide ExecuteTo, PlanOf, ProbeTo, Brought, ProbedAt, ForPair, At, LastOf, NoneOf;
  }

  /** The value is distance and duration of the last step the routes brought for the pair; if they brought none, of the
      pair's first hit while probing; if it had none, of what the third phase looked up or asked for at cell p. */
  ghost predicate ValueExplained(env: Env, o: Point, d: Point, p: nat, v: Value) {
    var key, steps := PairKeyFor(env.setup, o, d), AllBrought(env);
    && (forall m: nat :: LastOf(steps, ForPair(env, key), m) ==> v == Value(steps[m].distance, steps[m].duration))
    && (NoneOf(steps, ForPair(env, key)) ==>
      (forall q: nat :: FirstHit(env, key, CellCount(env), q) ==>
        v == Value(ProbeHit(env, q).step.distance, ProbeHit(env, q).step.duration)))
    && (NoneOf(steps, ForPair(env, key)) && NoHit(env, key, CellCount(env)) ==>
      FoundOrAsked(env, FillTo(env, p), o, d, v))
  }

  lemma FilledIsExplained(env: Env, s: Run, i: nat, j: nat, p: nat, v: Value)
    requires s == FillTo(env, p) && s.segments == Executed(env).segments && Executed(env).status == Running
    requires FilledFrom(env, s, i, j, v)
    ensures ValueExplained(env, PointAt(env, i), PointAt(env, j), p, v)
  {
    SegmentIs(env, PairKeyFor(env.setup, PointAt(env, i), PointAt(env, j)));
    hide PointAt, FillTo, Executed, AllBrought, HitsFor, ProbeHit, ForPair, FoundOrAsked, LastOf, NoneOf, PairKeyFor,
      CellCount;
  }

  /** Every filled cell shows such a value. */
  lemma CellShows(env: Env, i: nat, j: nat, p: nat)
    requires i < |env.points| && j < |env.points| && p == i * |env.points| + j
    requires Cell(i, j) in Computed(env).matrix
    ensures ValueExplained(env, env.points[i], env.points[j], p, Computed(env).matrix[Cell(i, j)])
  {
    CellNumber(env, i, j);
    hide Computed, FillTo, Executed, Row, Col, CellCount, FilledFrom, ValueExplained;
    FilledExactly(env, p);
    FillRunsBefore(env, p);
    FillSegments(env, p);
    FilledIsExplained(env, FillTo(env, p), i, j, p, Computed(env).matrix[Cell(i, j)]);
  }

  /** One of the three it is. */
  lemma OneOfThree(env: Env, key: PairKey) returns (m: nat, q: nat)
    ensures LastOf(AllBrought(env), ForPair(env, key), m)
      || (NoneOf(AllBrought(env), ForPair(env, key)) && FirstHit(env, key, CellCount(env), q))
      || (NoneOf(AllBrought(env), ForPair(env, key)) && NoHit(env, key, CellCount(env)))
  {
    hide *;
    m := LastOrNone(AllBrought(env), ForPair(env, key));
    q := HitOrNone(env, key, CellCount(env));
  }

  lemma {:induction false} RunningUpTo(env: Env, p: nat, q: nat)
    requires p <= q && FillTo(env, q).status == Running
    ensures FillTo(env, p).status == Running
    decreases q
  {
    hide *;
    if p < q {
      FillToNext(env, q - 1);
      FillCellEffect(env, FillTo(env, q - 1), Row(env, q - 1), Col(env, q - 1));
      RunningUpTo(env, p, q - 1);
    }
  }

  lemma FilledInOrder(env: Env, p: nat, q: nat)
    requires p < CellCount(env) && q < CellCount(env)
    ensures var matrix := Computed(env).matrix;
      && (Row(env, p) == Col(env, p) ==> CellOf(env, p) !in matrix)
      && (Computed(env).status == Running && Row(env, p) != Col(env, p) ==> CellOf(env, p) in matrix)
      && (Executed(env).status != Running ==> CellOf(env, p) !in matrix)
      && (CellOf(env, p) in matrix && q <= p && Row(env, q) != Col(env, q) ==> CellOf(env, q) in matrix)
  {
    hide FillTo, Executed, Row, Col, CellCount, FilledFrom, CellOf;
    FilledExactly(env, p);
    FilledExactly(env, q);
    if Computed(env).status == Running {
      RunningUpTo(env, p + 1, CellCount(env));
    }
    if FillTo(env, p + 1).status == Running {
      FillRunsBefore(env, p + 1);
      if q <= p {
        RunningUpTo(env, q + 1, p + 1);
      }
    }
  }

  /** A finished run has filled every cell off the diagonal and none on it; a run that ended before the third phase has
      filled none; one that ended in it has filled the cells before some point, row by row. */
  lemma CellsAreFilledInOrder(env: Env, i: nat, j: nat, k: nat, l: nat, p: nat, q: nat)
    requires i < |env.points| && j < |env.points| && p == i * |env.points| + j
    requires k < |env.points| && l < |env.points| && q == k * |env.points| + l
    ensures var matrix := Computed(env).matrix;
      && (i == j ==> Cell(i, j) !in matrix)
      && (Computed(env).status == Running && i != j ==> Cell(i, j) in matrix)
      && (Executed(env).status != Running ==> Cell(i, j) !in matrix)
      && (Cell(i, j) in matrix && k != l && q <= p ==> Cell(k, l) in matrix)
  {
    CellNumber(env, i, j);
    CellNumber(env, k, l);
    hide Computed, FillTo, Executed, Row, Col, CellCount;
    FilledInOrder(env, p, q);
  }
}
