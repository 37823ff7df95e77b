/**
 * What the stores of the engine keep over any run, wherever the deadline cuts it, and what a retry gains.
 *
 * KeysNeverDisappear: a key stored at any point of a run is stored at its end.  OnlyRealEdgesAreStored: no fallback
 * step enters the cache or the archive.  RetryMissesLess: the same request again, on the stores the first run left,
 * misses only pairs that were missed before.  AnsweredPairsAreNotMissedAgain: and none that a completed route really
 * answered.  The proofs walk through the phases of a run: one cell or one step first, then all of them by induction.
 */
module EngineSafety {
  import opened ArcTypes
  import opened Batching
  import opened EngineRule

  // ---------- No stored key disappears ----------

  ghost predicate KeysGrow(a: Stores, b: Stores) {
    (forall k :: k in a.l1 ==> k in b.l1) && forall k :: k in a.l2 ==> k in b.l2
  }

  lemma LookupGrows(u: Setup, st: Stores, o: Point, d: Point)
    ensures KeysGrow(st, Lookup(u, st, o, d).stores)
  {
  }

  lemma PersistGrows(u: Setup, st: Stores, e: Edge)
    ensures KeysGrow(st, Persist(u, st, e))
  {
  }

  lemma ProbeCellGrows(env: Env, s: Run, i: nat, j: nat)
    ensures KeysGrow(s.stores, ProbeCell(env, s, i, j).stores)
  {
    LookupGrows(env.setup, s.stores, PointAt(env, i), PointAt(env, j));
  }

  lemma {:induction false} ProbeGrows(env: Env, p: nat, q: nat)
    requires p <= q
    ensures KeysGrow(ProbeTo(env, p).stores, ProbeTo(env, q).stores)
    decreases q
  {
    hide ProbeCell, Start;
    if p < q {
      ProbeGrows(env, p, q - 1);
      ProbeCellGrows(env, ProbeTo(env, q - 1), Row(env, q - 1), Col(env, q - 1));
    }
  }

  lemma {:induction false} AddStepsGrows(env: Env, s: Run, steps: seq<Step>)
    ensures KeysGrow(s.stores, AddSteps(env, s, steps).stores)
  {
    if steps != [] {
      var before := AddSteps(env, s, steps[..|steps| - 1]);
      AddStepsGrows(env, s, steps[..|steps| - 1]);
      PersistGrows(env.setup, before.stores, StepToEdge(steps[|steps| - 1], env.setup.slot));
    }
  }

  lemma ExecuteRouteGrows(env: Env, s: Run, r: nat, route: Route)
    ensures KeysGrow(s.stores, ExecuteRoute(env, s, r, route).stores)
  {
    hide CallsOf, Fetched, WaypointsOf, AddSteps;
    var wps := WaypointsOf(env, route.legs);
    if Fetched(env, r, wps).Routed? {
      AddStepsGrows(env, AddCalls(CheckContext(env, s), CallsOf(env, r, wps)), Fetched(env, r, wps).steps);
    }
  }

  lemma {:induction false} ExecuteGrows(env: Env, k: nat, m: nat)
    requires k <= m <= |PlanOf(env).routes|
    ensures KeysGrow(ExecuteTo(env, k).stores, ExecuteTo(env, m).stores)
    decreases m
  {
    hide ExecuteRoute, AfterPlan, PlanOf;
    if k < m {
      ExecuteGrows(env, k, m - 1);
      ExecuteRouteGrows(env, ExecuteTo(env, m - 1), m - 1, PlanOf(env).routes[m - 1]);
    }
  }

  lemma FillCellGrows(env: Env, s: Run, i: nat, j: nat)
    ensures KeysGrow(s.stores, FillCell(env, s, i, j).stores)
  {
    var o, d := PointAt(env, i), PointAt(env, j);
    LookupGrows(env.setup, s.stores, o, d);
    var looked := CheckContext(env, s);
    var reply := env.pairProvider(looked.tick)([o, d]);
    if reply.Answer? {
      PersistGrows(env.setup, s.stores, StepToEdge(PairStep(reply, o, d), env.setup.slot));
    }
  }

  lemma {:induction false} FillGrows(env: Env, p: nat)
    ensures KeysGrow(Executed(env).stores, FillTo(env, p).stores)
  {
    hide FillCell, Executed;
    if p > 0 {
      FillGrows(env, p - 1);
      FillCellGrows(env, FillTo(env, p - 1), Row(env, p - 1), Col(env, p - 1));
    }
  }

  lemma AfterPlanStores(env: Env)
    ensures AfterPlan(env).stores == Probed(env).stores
  {
    hide Probed, PlanOf;
  }

  /** Whatever was stored at any point of the run is stored at its end, wherever the run was cut. */
  lemma KeysNeverDisappear(env: Env, p: nat, k: nat)
    requires p <= CellCount(env) && k <= |PlanOf(env).routes|
    ensures KeysGrow(env.initial, Computed(env).stores)
    ensures KeysGrow(ProbeTo(env, p).stores, Computed(env).stores)
    ensures KeysGrow(ExecuteTo(env, k).stores, Computed(env).stores)
  {
    ProbeGrows(env, 0, p);
    ProbeGrows(env, p, CellCount(env));
    AfterPlanStores(env);
    ExecuteGrows(env, 0, k);
    ExecuteGrows(env, k, |PlanOf(env).routes|);
    FillGrows(env, CellCount(env));
    hide ProbeTo, ExecuteRoute, AfterPlan, PlanOf, FillTo;
    assert ProbeTo(env, 0).stores == env.initial by { StartStores(env); }
    assert ExecuteTo(env, 0) == AfterPlan(env);
  }

  lemma StartStores(env: Env)
    ensures ProbeTo(env, 0).stores == env.initial
  {
  }

  // ---------- What was stored is read back ----------

  /** A step that was stored is what its pair looks up next: from the cache if there is one, else from an archive the
      engine writes itself, unless the step goes nowhere. */
  lemma StoredIsRead(u: Setup, st: Stores, step: Step)
    ensures var o, d := step.origin, step.destination;
      var stored := Persist(u, st, StepToEdge(step, u.slot));
      var hit, read := Lookup(u, stored, o, d).hit, Step(o, d, step.distance, step.duration, FromCache);
      if u.hasL1 then hit == Warm(read)
      else if u.hasL2 && !u.async && step.distance != 0.0 then hit == Cold(read)
      else stored == st
  {
  }

  /** An archive hit whose edge is filed under its own ends is a cache hit with the same step the next time. */
  lemma PromotedIsWarm(u: Setup, st: Stores, o: Point, d: Point)
    requires u.hasL1 && Lookup(u, st, o, d).hit.Cold?
    requires KeyOfEdge(u, st.l2[KeyFor(u, o, d)]) == KeyFor(u, o, d)
    ensures Lookup(u, Lookup(u, st, o, d).stores, o, d).hit == Warm(Lookup(u, st, o, d).hit.step)
    ensures Lookup(u, st, o, d).stores.l2 == st.l2
  {
  }

  // ---------- Only real edges are stored ----------

  ghost predicate AllGood(st: Stores, good: Edge -> bool) {
    (forall k :: k in st.l1 ==> good(st.l1[k])) && forall k :: k in st.l2 ==> good(st.l2[k])
  }

  /** Every step the provider really answered, not a fallback, makes a good edge. */
  ghost predicate RealStepsGood(env: Env, steps: seq<Step>, good: Edge -> bool) {
    forall i :: 0 <= i < |steps| && steps[i].source != FromFallback ==> good(StepToEdge(steps[i], env.setup.slot))
  }

  ghost predicate ProviderGood(env: Env, good: Edge -> bool) {
    && (forall r, i, packet :: RealStepsGood(env, StepsOf(env.provider(r)(i, packet)), good))
    && forall t, o, d :: env.pairProvider(t)([o, d]).Answer? ==>
      RealStepsGood(env, [PairStep(env.pairProvider(t)([o, d]), o, d)], good)
  }

  lemma LookupKeepsGood(u: Setup, st: Stores, o: Point, d: Point, good: Edge -> bool)
    requires AllGood(st, good)
    ensures AllGood(Lookup(u, st, o, d).stores, good)
  {
  }

  lemma PersistKeepsGood(u: Setup, st: Stores, e: Edge, good: Edge -> bool)
    requires AllGood(st, good) && good(e)
    ensures AllGood(Persist(u, st, e), good)
  {
  }

  lemma ProbeCellKeepsGood(env: Env, s: Run, i: nat, j: nat, good: Edge -> bool)
    requires AllGood(s.stores, good)
    ensures AllGood(ProbeCell(env, s, i, j).stores, good)
  {
    hide AllGood, Lookup;
    LookupKeepsGood(env.setup, s.stores, PointAt(env, i), PointAt(env, j), good);
  }

  lemma {:induction false} ProbeKeepsGood(env: Env, p: nat, good: Edge -> bool)
    requires AllGood(env.initial, good)
    ensures AllGood(ProbeTo(env, p).stores, good)
  {
    hide AllGood, ProbeCell;
    if p > 0 {
      ProbeKeepsGood(env, p - 1, good);
      ProbeCellKeepsGood(env, ProbeTo(env, p - 1), Row(env, p - 1), Col(env, p - 1), good);
    }
  }

  lemma {:induction false} AddStepsKeepsGood(env: Env, s: Run, steps: seq<Step>, good: Edge -> bool)
    requires AllGood(s.stores, good) && RealStepsGood(env, steps, good)
    ensures AllGood(AddSteps(env, s, steps).stores, good)
  {
    hide AllGood, Persist;
    if steps != [] {
      var last := steps[|steps| - 1];
      var before := AddSteps(env, s, steps[..|steps| - 1]);
      AddStepsKeepsGood(env, s, steps[..|steps| - 1], good);
      if last.source != FromFallback {
        PersistKeepsGood(env.setup, before.stores, StepToEdge(last, env.setup.slot), good);
      }
    }
  }

  lemma {:induction false} AssembledGood(env: Env, r: nat, packets: seq<seq<Point>>, k: nat, good: Edge -> bool)
    requires ProviderGood(env, good) && k <= |packets|
    ensures RealStepsGood(env, Assembled(packets, env.provider(r), k), good)
  {
    if k > 0 {
      AssembledGood(env, r, packets, k - 1, good);
      assert RealStepsGood(env, StepsOf(env.provider(r)(k - 1, packets[k - 1])), good);
    }
  }

  lemma ExecuteRouteKeepsGood(env: Env, s: Run, r: nat, route: Route, good: Edge -> bool)
    requires AllGood(s.stores, good) && ProviderGood(env, good)
    ensures AllGood(ExecuteRoute(env, s, r, route).stores, good)
  {
    hide AllGood, ProviderGood, CallsOf, WaypointsOf, AddSteps, Packets, RealStepsGood, Assembled;
    var wps := WaypointsOf(env, route.legs);
    var packets := Packets(env.setup.batchSize, wps);
    if Fetched(env, r, wps).Routed? {
      AssembledGood(env, r, packets, |packets|, good);
      AddStepsKeepsGood(env, AddCalls(CheckContext(env, s), CallsOf(env, r, wps)), Fetched(env, r, wps).steps, good);
    }
  }

  lemma {:induction false} ExecuteKeepsGood(env: Env, k: nat, good: Edge -> bool)
    requires AllGood(env.initial, good) && ProviderGood(env, good)
    ensures AllGood(ExecuteTo(env, k).stores, good)
  {
    hide AllGood, ProviderGood, ExecuteRoute, AfterPlan, PlanOf;
    if k == 0 || k > |PlanOf(env).routes| {
      ProbeKeepsGood(env, CellCount(env), good);
      AfterPlanStores(env);
    } else {
      ExecuteKeepsGood(env, k - 1, good);
      ExecuteRouteKeepsGood(env, ExecuteTo(env, k - 1), k - 1, PlanOf(env).routes[k - 1], good);
    }
  }

  lemma FillCellKeepsGood(env: Env, s: Run, i: nat, j: nat, good: Edge -> bool)
    requires AllGood(s.stores, good) && ProviderGood(env, good)
    ensures AllGood(FillCell(env, s, i, j).stores, good)
  {
    var o, d := PointAt(env, i), PointAt(env, j);
    var looked := CheckContext(env, s);
    var reply := env.pairProvider(looked.tick)([o, d]);
    if reply.Answer? && PairStep(reply, o, d).source != FromFallback {
      assert RealStepsGood(env, [PairStep(reply, o, d)], good);
      assert good(StepToEdge([PairStep(reply, o, d)][0], env.setup.slot));
      PersistKeepsGood(env.setup, s.stores, StepToEdge(PairStep(reply, o, d), env.setup.slot), good);
    }
    hide AllGood, ProviderGood, Lookup, Persist, PairStep;
    LookupKeepsGood(env.setup, s.stores, o, d, good);
  }

  lemma {:induction false} FillKeepsGood(env: Env, p: nat, good: Edge -> bool)
    requires AllGood(env.initial, good) && ProviderGood(env, good)
    ensures AllGood(FillTo(env, p).stores, good)
  {
    hide AllGood, ProviderGood, FillCell, ExecuteTo, PlanOf;
    if p == 0 {
      ExecuteKeepsGood(env, |PlanOf(env).routes|, good);
    } else {
      FillKeepsGood(env, p - 1, good);
      FillCellKeepsGood(env, FillTo(env, p - 1), Row(env, p - 1), Col(env, p - 1), good);
    }
  }

  /** Whatever holds of the edges stored before and of every step the provider really answered holds of every
      edge stored after, for any deadline: no fallback step enters either store. */
  lemma OnlyRealEdgesAreStored(env: Env, good: Edge -> bool)
    requires AllGood(env.initial, good) && ProviderGood(env, good)
    ensures AllGood(Computed(env).stores, good)
  {
    FillKeepsGood(env, CellCount(env), good);
  }

  // ---------- What the counters of the probe count ----------

  ghost predicate Counted(env: Env, s: Run) {
    && s.stats.cacheMisses == |s.misses|
    && s.stats.cacheHits + s.stats.coldHits == |s.segments|
    && (!env.setup.hasL1 ==> s.stats.cacheHits == 0)
    && (!env.setup.hasL2 ==> s.stats.coldHits == 0)
  }

  lemma ProbeCellCounts(env: Env, s: Run, i: nat, j: nat)
    requires Counted(env, s)
    ensures Counted(env, ProbeCell(env, s, i, j))
  {
    hide PairKeyFor, PointAt, KeyFor;
  }

  /** Misses are the planned arcs, hits of both stores together the segments; a store that is not there has none. */
  lemma {:induction false} ProbeCounts(env: Env, p: nat)
    ensures Counted(env, ProbeTo(env, p))
  {
    hide ProbeCell, Counted;
    if p == 0 {
      NothingCounted(env);
    } else {
      ProbeCounts(env, p - 1);
      ProbeCellCounts(env, ProbeTo(env, p - 1), Row(env, p - 1), Col(env, p - 1));
    }
  }

  lemma NothingCounted(env: Env)
    ensures Counted(env, ProbeTo(env, 0))
  {
  }

  // ---------- A retry ----------

  lemma {:induction false} RunningBefore(env: Env, p: nat, q: nat)
    requires p <= q && ProbeTo(env, q).status == Running
    ensures ProbeTo(env, p).status == Running
    decreases q
  {
    hide Lookup, PointAt;
    if p < q {
      RunningBefore(env, p, q - 1);
    }
  }

  /** The same request again, on the stores the first run left behind. */
  ghost predicate IsRetry(first: Env, second: Env) {
    && second.setup == first.setup && second.points == first.points
    && second.initial == Computed(first).stores
    && first.setup.hasL1
  }

  ghost predicate Known(env: Env, s: Run, i: nat, j: nat) {
    Lookup(env.setup, s.stores, PointAt(env, i), PointAt(env, j)).hit != Miss
  }

  /** A pair the smaller stores know is known to the larger ones. */
  lemma KnownGrows(first: Env, second: Env, s: Run, t: Run, i: nat, j: nat)
    requires second.setup == first.setup && second.points == first.points
    requires KeysGrow(s.stores, t.stores) && Known(first, s, i, j)
    ensures Known(second, t, i, j)
  {
  }

  /** Everything the retry has missed so far was missed the first time. */
  ghost predicate MissesLess(s: Run, t: Run) { forall a :: a in t.misses ==> a in s.misses }

  ghost predicate SegmentsLess(s: Run, t: Run) { forall k :: k in s.segments ==> k in t.segments }

  /** The cell is looked at: the run is on and the context alive. */
  predicate Looks(env: Env, s: Run, i: nat, j: nat) { s.status == Running && i != j && !env.expired(s.tick) }

  /** What probing a cell does to the segments and the misses. */
  lemma ProbeCellEffect(env: Env, s: Run, i: nat, j: nat)
    ensures var after, key := ProbeCell(env, s, i, j), PairKeyFor(env.setup, PointAt(env, i), PointAt(env, j));
      if !Looks(env, s, i, j) || key in s.segments then after.segments == s.segments && after.misses == s.misses
      else if Known(env, s, i, j) then
        (forall k :: k in after.segments <==> k in s.segments || k == key) && after.misses == s.misses
      else after.segments == s.segments && after.misses == s.misses + [Arc(0, i, j)]
    ensures s.status == Running && i != j && ProbeCell(env, s, i, j).status == Running ==> Looks(env, s, i, j)
    ensures ProbeCell(env, s, i, j).status == Running ==> s.status == Running
  {
    hide PairKeyFor, PointAt, Lookup;
  }

  lemma UnknownIsNotStored(env: Env, s: Run, i: nat, j: nat)
    requires !Known(env, s, i, j)
    ensures env.setup.hasL1 ==> KeyFor(env.setup, PointAt(env, i), PointAt(env, j)) !in s.stores.l1
    ensures env.setup.hasL1 ==> env.setup.cell(PointAt(env, i)) != env.setup.cell(PointAt(env, j))
    ensures env.setup.hasL2 ==> KeyFor(env.setup, PointAt(env, i), PointAt(env, j)) !in s.stores.l2
  {
  }

  /** With a cache, a pair within one cell that is not filed there has distance and duration zero. */
  lemma WithinACellIsZero(u: Setup, st: Stores, o: Point, d: Point)
    requires u.hasL1 && u.cell(o) == u.cell(d) && KeyFor(u, o, d) !in st.l1
    ensures Lookup(u, st, o, d) == Found(Warm(Step(o, d, 0.0, 0.0, FromCache)), st)
  {
  }

  /** One cell in both runs. */
  lemma RetryCell(first: Env, second: Env, s: Run, t: Run, i: nat, j: nat)
    requires IsRetry(first, second) && s.status == Running && ProbeCell(first, s, i, j).status == Running
    requires KeysGrow(second.initial, t.stores) && KeysGrow(s.stores, second.initial)
    requires MissesLess(s, t) && (t.status == Running ==> SegmentsLess(s, t))
    ensures var s2, t2 := ProbeCell(first, s, i, j), ProbeCell(second, t, i, j);
      MissesLess(s2, t2) && (t2.status == Running ==> SegmentsLess(s2, t2))
  {
    hide Computed, ProbeCell, Known, PointAt, KeyFor, PairKeyFor;
    ProbeCellEffect(first, s, i, j);
    ProbeCellEffect(second, t, i, j);
    SamePoints(first, second, i);
    SamePoints(first, second, j);
    if Looks(second, t, i, j) {
      if Known(first, s, i, j) {
        KnownGrows(first, second, s, t, i, j);
      }
    }
  }

  lemma SamePoints(first: Env, second: Env, i: nat)
    requires second.points == first.points
    ensures PointAt(second, i) == PointAt(first, i)
  {
  }

  lemma {:induction false} RetryProbes(first: Env, second: Env, p: nat)
    requires IsRetry(first, second) && p <= CellCount(first) && ProbeTo(first, p).status == Running
    ensures MissesLess(ProbeTo(first, p), ProbeTo(second, p))
    ensures ProbeTo(second, p).status == Running ==> SegmentsLess(ProbeTo(first, p), ProbeTo(second, p))
  {
    hide ProbeCell, Computed, KeysGrow;
    if p > 0 {
      RunningBefore(first, p - 1, p);
      RetryProbes(first, second, p - 1);
      KeysNeverDisappear(first, p - 1, 0);
      ProbeGrows(second, 0, p - 1);
      StartStores(second);
      RetryCell(first, second, ProbeTo(first, p - 1), ProbeTo(second, p - 1), Row(first, p - 1), Col(first, p - 1));
    }
  }

  /** As far as the first run probed before any cut, a retry misses only pairs the first run missed. */
  lemma RetryMissesLess(first: Env, second: Env, p: nat)
    requires IsRetry(first, second) && p <= CellCount(first) && ProbeTo(first, p).status == Running
    ensures forall a :: a in ProbeTo(second, p).misses ==> a in ProbeTo(first, p).misses
  {
    hide Computed, ProbeTo;
    RetryProbes(first, second, p);
  }

  /** The key of a missed pair is in no store when the run begins, and with a cache the pair spans two cells. */
  ghost predicate Unstored(env: Env, a: Arc) {
    var o, d := PointAt(env, a.from), PointAt(env, a.to);
    && (env.setup.hasL1 ==> KeyFor(env.setup, o, d) !in env.initial.l1 && env.setup.cell(o) != env.setup.cell(d))
    && (env.setup.hasL2 ==> KeyFor(env.setup, o, d) !in env.initial.l2)
  }

  lemma {:induction false} MissedIsNotStored(env: Env, p: nat)
    ensures forall a :: a in ProbeTo(env, p).misses ==> Unstored(env, a)
  {
    if p > 0 {
      hide ProbeCell, KeyFor, Known, PointAt, PairKeyFor;
      var s, i, j := ProbeTo(env, p - 1), Row(env, p - 1), Col(env, p - 1);
      MissedIsNotStored(env, p - 1);
      ProbeCellEffect(env, s, i, j);
      ProbeGrows(env, 0, p - 1);
      StartStores(env);
      if !Known(env, s, i, j) {
        UnknownIsNotStored(env, s, i, j);
      }
    }
  }

  lemma {:induction false} AddStepsStores(env: Env, s: Run, steps: seq<Step>, st: Step)
    requires env.setup.hasL1 && st in steps && st.source != FromFallback
    ensures KeyFor(env.setup, st.origin, st.destination) in AddSteps(env, s, steps).stores.l1
  {
    var init, last := steps[..|steps| - 1], steps[|steps| - 1];
    PersistGrows(env.setup, AddSteps(env, s, init).stores, StepToEdge(last, env.setup.slot));
    if last != st {
      assert st in init;
      AddStepsStores(env, s, init, st);
    }
  }

  /** Route q has been executed and brought back these steps. */
  ghost predicate Completed(env: Env, q: nat, steps: seq<Step>) {
    && q < |PlanOf(env).routes| && ExecuteTo(env, q + 1).status == Running
    && var wps := WaypointsOf(env, PlanOf(env).routes[q].legs);
      |wps| >= 2 && Fetched(env, q, wps) == Routed(steps)
  }

  /** The real steps of a completed route are stored at the end of the run. */
  lemma CompletedRoutesAreStored(env: Env, q: nat, steps: seq<Step>, st: Step)
    requires env.setup.hasL1 && Completed(env, q, steps) && st in steps && st.source != FromFallback
    ensures KeyFor(env.setup, st.origin, st.destination) in Computed(env).stores.l1
  {
    hide PlanOf, AfterPlan, Computed, AddSteps, Fetched, CallsOf, WaypointsOf;
    KeysNeverDisappear(env, 0, q + 1);
    var s := ExecuteTo(env, q);
    var wps := WaypointsOf(env, PlanOf(env).routes[q].legs);
    AddStepsStores(env, AddCalls(CheckContext(env, s), CallsOf(env, q, wps)), steps, st);
  }

  /** So a retry does not miss any pair that a completed route really answered. */
  lemma AnsweredPairsAreNotMissedAgain(first: Env, second: Env, q: nat, steps: seq<Step>, st: Step, a: Arc)
    requires IsRetry(first, second)
    requires Completed(first, q, steps) && st in steps && st.source != FromFallback
    requires PointAt(first, a.from) == st.origin && PointAt(first, a.to) == st.destination
    ensures a !in Probed(second).misses
  {
    hide Computed, Completed, ProbeTo;
    CompletedRoutesAreStored(first, q, steps, st);
    MissedIsNotStored(second, CellCount(second));
  }
}
