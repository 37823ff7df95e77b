/**
 * Validation and completion of a plan (internal/arccover/validate.go), on values.
 *
 * Routes that are too long or not one walk are dropped; every required id no scanned leg carried gets a
 * route of its own.  A dropped discontinuous route has already marked the ids before its first gap, so the
 * plan comes out complete exactly when no such id depended on that route alone.
 */
module ValidateRule {
  import opened ArcTypes
  import opened Sums

  // ---------- Ids on legs ----------

  predicate Carries(leg: Leg, id: nat) { leg.kind.LegRequired? && leg.edgeId == id }

  predicate HasId(legs: seq<Leg>, id: nat) {
    exists i :: 0 <= i < |legs| && Carries(legs[i], id)
  }

  lemma HasIdSnoc(legs: seq<Leg>, leg: Leg, id: nat)
    ensures HasId(legs + [leg], id) <==> HasId(legs, id) || Carries(leg, id)
  {
    var all := legs + [leg];
    if HasId(legs, id) {
      var i :| 0 <= i < |legs| && Carries(legs[i], id);
      assert Carries(all[i], id);
    }
    if Carries(leg, id) {
      assert Carries(all[|legs|], id);
    }
  }

  predicate PlanHasId(routes: seq<Route>, id: nat) {
    exists r :: 0 <= r < |routes| && HasId(routes[r].legs, id)
  }

  lemma PlanHasIdConcat(a: seq<Route>, b: seq<Route>, id: nat)
    ensures PlanHasId(a + b, id) <==> PlanHasId(a, id) || PlanHasId(b, id)
  {
    if PlanHasId(a, id) {
      var r :| 0 <= r < |a| && HasId(a[r].legs, id);
      assert (a + b)[r] == a[r];
    }
    if PlanHasId(b, id) {
      var r :| 0 <= r < |b| && HasId(b[r].legs, id);
      assert (a + b)[|a| + r] == b[r];
    }
    if PlanHasId(a + b, id) {
      var r :| 0 <= r < |a + b| && HasId((a + b)[r].legs, id);
      assert r < |a| ==> (a + b)[r] == a[r];
      assert r >= |a| ==> (a + b)[r] == b[r - |a|];
    }
  }

  // ---------- Scanning a route ----------

  /** How many legs the scan looks at before it meets a gap. */
  function Walked(legs: seq<Leg>): (k: nat)
    ensures k <= |legs|
  {
    if legs == [] then 0
    else
      var n := |legs| - 1;
      var k := Walked(legs[..n]);
      if k == n && (n == 0 || legs[n - 1].to == legs[n].from) then |legs| else k
  }

  lemma {:induction false} WalkedAll(legs: seq<Leg>)
    ensures Walked(legs) == |legs| <==> Continuous(legs)
  {
    if legs != [] {
      var n := |legs| - 1;
      WalkedAll(legs[..n]);
      assert Continuous(legs) ==> Continuous(legs[..n]);
    }
  }

  /** The scan stops at the same gap however many legs follow. */
  lemma {:induction false} WalkedStops(legs: seq<Leg>, k: nat)
    requires 0 < k < |legs| && Walked(legs[..k]) == k && legs[k - 1].to != legs[k].from
    ensures Walked(legs) == k
    decreases |legs|
  {
    var n := |legs| - 1;
    if k < n {
      assert legs[..n][..k] == legs[..k];
      WalkedStops(legs[..n], k);
    }
  }

  /** The scan of this route marks id as covered. */
  predicate Marks(r: Route, maxLegs: int, id: nat) {
    |r.legs| <= maxLegs && HasId(r.legs[..Walked(r.legs)], id)
  }

  predicate Marked(routes: seq<Route>, maxLegs: int, id: nat) {
    exists r :: 0 <= r < |routes| && Marks(routes[r], maxLegs, id)
  }

  lemma MarkedSnoc(routes: seq<Route>, route: Route, maxLegs: int, id: nat)
    ensures Marked(routes + [route], maxLegs, id) <==> Marked(routes, maxLegs, id) || Marks(route, maxLegs, id)
  {
    var all := routes + [route];
    if Marked(routes, maxLegs, id) {
      var r :| 0 <= r < |routes| && Marks(routes[r], maxLegs, id);
      assert Marks(all[r], maxLegs, id);
    }
    if Marks(route, maxLegs, id) {
      assert Marks(all[|routes|], maxLegs, id);
    }
  }

  // ---------- What stays and what is added ----------

  predicate Keeps(r: Route, maxLegs: int) { r.legs != [] && |r.legs| <= maxLegs && Continuous(r.legs) }

  function KeptRoutes(routes: seq<Route>, maxLegs: int): seq<Route> {
    if routes == [] then []
    else
      var rest := KeptRoutes(routes[..|routes| - 1], maxLegs);
      if Keeps(routes[|routes| - 1], maxLegs) then rest + [routes[|routes| - 1]] else rest
  }

  function OverlongLegs(routes: seq<Route>, maxLegs: int): int {
    if routes == [] then 0
    else
      var r := routes[|routes| - 1];
      OverlongLegs(routes[..|routes| - 1], maxLegs) + if r.legs != [] && |r.legs| > maxLegs then |r.legs| else 0
  }

  predicate HasArcId(arcs: seq<Arc>, id: nat) {
    exists i :: 0 <= i < |arcs| && arcs[i].id == id
  }

  lemma HasArcIdSnoc(arcs: seq<Arc>, e: Arc, id: nat)
    ensures HasArcId(arcs + [e], id) <==> HasArcId(arcs, id) || e.id == id
  {
    var all := arcs + [e];
    if HasArcId(arcs, id) {
      var i :| 0 <= i < |arcs| && arcs[i].id == id;
      assert all[i].id == id;
    }
    if e.id == id {
      assert all[|arcs|].id == id;
    }
  }

  /** The required arcs that get a route of their own: the first of every unmarked id. */
  function Missing(routes: seq<Route>, maxLegs: int, required: seq<Arc>): seq<Arc> {
    if required == [] then []
    else
      var m := Missing(routes, maxLegs, required[..|required| - 1]);
      var e := required[|required| - 1];
      if Marked(routes, maxLegs, e.id) || HasArcId(m, e.id) then m else m + [e]
  }

  function SingleRoute(e: Arc): Route { Route([Leg(e.from, e.to, LegRequired, e.id)]) }

  function SingleRoutes(arcs: seq<Arc>): seq<Route> {
    seq(|arcs|, i requires 0 <= i < |arcs| => SingleRoute(arcs[i]))
  }

  function Completed(plan: Plan, required: seq<Arc>, maxLegs: int): Plan {
    var missing := Missing(plan.routes, maxLegs, required);
    Plan(KeptRoutes(plan.routes, maxLegs) + SingleRoutes(missing),
         plan.stats.(singlePairFallbacks :=
           plan.stats.singlePairFallbacks + OverlongLegs(plan.routes, maxLegs) + |missing|))
  }

  // ---------- Facts about the parts ----------

  lemma {:induction false} KeptAreKept(routes: seq<Route>, maxLegs: int)
    ensures forall r :: 0 <= r < |KeptRoutes(routes, maxLegs)| ==> Keeps(KeptRoutes(routes, maxLegs)[r], maxLegs)
  {
    if routes != [] {
      KeptAreKept(routes[..|routes| - 1], maxLegs);
    }
  }

  lemma {:induction false} KeepAll(routes: seq<Route>, maxLegs: int)
    requires forall r :: 0 <= r < |routes| ==> Keeps(routes[r], maxLegs)
    ensures KeptRoutes(routes, maxLegs) == routes && OverlongLegs(routes, maxLegs) == 0
  {
    if routes != [] {
      KeepAll(routes[..|routes| - 1], maxLegs);
      assert Keeps(routes[|routes| - 1], maxLegs);
    }
  }

  /** Whatever a kept route carries was marked. */
  lemma {:induction false} KeptIsMarked(routes: seq<Route>, maxLegs: int, id: nat)
    requires PlanHasId(KeptRoutes(routes, maxLegs), id)
    ensures Marked(routes, maxLegs, id)
  {
    if routes != [] {
      var n := |routes| - 1;
      assert routes == routes[..n] + [routes[n]];
      MarkedSnoc(routes[..n], routes[n], maxLegs, id);
      if Keeps(routes[n], maxLegs) {
        PlanHasIdConcat(KeptRoutes(routes[..n], maxLegs), [routes[n]], id);
        WalkedAll(routes[n].legs);
        assert routes[n].legs[..|routes[n].legs|] == routes[n].legs;
      }
      if PlanHasId(KeptRoutes(routes[..n], maxLegs), id) {
        KeptIsMarked(routes[..n], maxLegs, id);
      }
    }
  }

  /** Of continuous routes only kept ones mark anything. */
  lemma {:induction false} ContinuousMarksAreKept(routes: seq<Route>, maxLegs: int, id: nat)
    requires forall r :: 0 <= r < |routes| ==> Continuous(routes[r].legs)
    requires Marked(routes, maxLegs, id)
    ensures PlanHasId(KeptRoutes(routes, maxLegs), id)
  {
    if routes != [] {
      var n := |routes| - 1;
      assert routes == routes[..n] + [routes[n]];
      MarkedSnoc(routes[..n], routes[n], maxLegs, id);
      if Marks(routes[n], maxLegs, id) {
        WalkedAll(routes[n].legs);
        assert routes[n].legs[..|routes[n].legs|] == routes[n].legs;
        assert Keeps(routes[n], maxLegs);
        assert PlanHasId([routes[n]], id) by { assert HasId([routes[n]][0].legs, id); }
        PlanHasIdConcat(KeptRoutes(routes[..n], maxLegs), [routes[n]], id);
      } else {
        ContinuousMarksAreKept(routes[..n], maxLegs, id);
        PlanHasIdConcat(KeptRoutes(routes[..n], maxLegs), [routes[n]], id);
      }
    }
  }

  /** The added arcs: those of unmarked required ids, every id once. */
  lemma {:induction false} MissingIds(routes: seq<Route>, maxLegs: int, required: seq<Arc>)
    ensures var m := Missing(routes, maxLegs, required);
      && (forall id :: HasArcId(m, id) <==> HasArcId(required, id) && !Marked(routes, maxLegs, id))
      && (forall i, j :: 0 <= i < j < |m| ==> m[i].id != m[j].id)
      && forall i :: 0 <= i < |m| ==> m[i] in required
  {
    if required != [] {
      var n := |required| - 1;
      var init, e := required[..n], required[n];
      MissingIds(routes, maxLegs, init);
      assert required == init + [e];
      var m := Missing(routes, maxLegs, init);
      forall id: nat
        ensures HasArcId(required, id) <==> HasArcId(init, id) || e.id == id
        ensures HasArcId(m + [e], id) <==> HasArcId(m, id) || e.id == id
      {
        HasArcIdSnoc(init, e, id);
        HasArcIdSnoc(m, e, id);
      }
    }
  }

  lemma SinglesHaveIds(arcs: seq<Arc>, id: nat)
    ensures PlanHasId(SingleRoutes(arcs), id) <==> HasArcId(arcs, id)
  {
    var rs := SingleRoutes(arcs);
    if HasArcId(arcs, id) {
      var i :| 0 <= i < |arcs| && arcs[i].id == id;
      assert Carries(rs[i].legs[0], id);
      assert HasId(rs[i].legs, id);
    }
    if PlanHasId(rs, id) {
      var r :| 0 <= r < |rs| && HasId(rs[r].legs, id);
      assert arcs[r].id == id;
    }
  }

  // ---------- Completion ----------

  ghost predicate CoversIds(routes: seq<Route>, required: seq<Arc>) {
    forall i :: 0 <= i < |required| ==> PlanHasId(routes, required[i].id)
  }

  ghost predicate AllKept(routes: seq<Route>, maxLegs: int) {
    forall r :: 0 <= r < |routes| ==> Keeps(routes[r], maxLegs)
  }

  /** Whatever comes in, every route that comes out is a non-empty walk within the limit. */
  lemma CompletedAreWalks(plan: Plan, required: seq<Arc>, maxLegs: int)
    requires maxLegs >= 1
    ensures AllKept(Completed(plan, required, maxLegs).routes, maxLegs)
  {
    KeptAreKept(plan.routes, maxLegs);
  }

  /** An id ends up covered if a kept route carries it, or if it is required and was never marked. */
  lemma CompletedHasId(plan: Plan, required: seq<Arc>, maxLegs: int, id: nat)
    ensures PlanHasId(Completed(plan, required, maxLegs).routes, id) <==>
      PlanHasId(KeptRoutes(plan.routes, maxLegs), id)
      || (HasArcId(required, id) && !Marked(plan.routes, maxLegs, id))
  {
    var missing := Missing(plan.routes, maxLegs, required);
    PlanHasIdConcat(KeptRoutes(plan.routes, maxLegs), SingleRoutes(missing), id);
    SinglesHaveIds(missing, id);
    MissingIds(plan.routes, maxLegs, required);
  }

  /** The result covers every required id exactly when every required id some scan marked is carried by a
      route that is kept. */
  lemma CompletesExactlyWhen(plan: Plan, required: seq<Arc>, maxLegs: int)
    ensures CoversIds(Completed(plan, required, maxLegs).routes, required) <==>
      forall i :: 0 <= i < |required| && Marked(plan.routes, maxLegs, required[i].id) ==>
        PlanHasId(KeptRoutes(plan.routes, maxLegs), required[i].id)
  {
    forall i | 0 <= i < |required|
      ensures PlanHasId(Completed(plan, required, maxLegs).routes, required[i].id) <==>
        (Marked(plan.routes, maxLegs, required[i].id) ==>
          PlanHasId(KeptRoutes(plan.routes, maxLegs), required[i].id))
    {
      CompletedHasId(plan, required, maxLegs, required[i].id);
      assert HasArcId(required, required[i].id);
    }
  }

  /** Continuous routes, overlong ones included: the result covers every required id, and adds exactly one
      single-leg route for each required id that no kept route carries. */
  lemma CompletionOfContinuous(plan: Plan, required: seq<Arc>, maxLegs: int)
    requires forall r :: 0 <= r < |plan.routes| ==> Continuous(plan.routes[r].legs)
    ensures CoversIds(Completed(plan, required, maxLegs).routes, required)
    ensures var m := Missing(plan.routes, maxLegs, required);
      && (forall id :: HasArcId(m, id) <==>
            HasArcId(required, id) && !PlanHasId(KeptRoutes(plan.routes, maxLegs), id))
      && forall i, j :: 0 <= i < j < |m| ==> m[i].id != m[j].id
  {
    forall id: nat
      ensures Marked(plan.routes, maxLegs, id) <==> PlanHasId(KeptRoutes(plan.routes, maxLegs), id)
    {
      if Marked(plan.routes, maxLegs, id) {
        ContinuousMarksAreKept(plan.routes, maxLegs, id);
      }
      if PlanHasId(KeptRoutes(plan.routes, maxLegs), id) {
        KeptIsMarked(plan.routes, maxLegs, id);
      }
    }
    CompletesExactlyWhen(plan, required, maxLegs);
    MissingIds(plan.routes, maxLegs, required);
  }

  /** Exactly the routes that are non-empty walks within the limit stay, each as often as it came in. */
  lemma {:induction false} WalksStay(routes: seq<Route>, maxLegs: int, r: Route)
    ensures multiset(KeptRoutes(routes, maxLegs))[r] ==
      if r.legs != [] && |r.legs| <= maxLegs && Continuous(r.legs) then multiset(routes)[r] else 0
  {
    if routes != [] {
      var n := |routes| - 1;
      WalksStay(routes[..n], maxLegs, r);
      assert routes == routes[..n] + [routes[n]];
    }
  }

  lemma {:induction false} OverlongIsSum(routes: seq<Route>, maxLegs: int, parts: seq<int>)
    requires |parts| == |routes| && maxLegs >= 0
    requires forall i :: 0 <= i < |routes| ==> parts[i] == if |routes[i].legs| > maxLegs then |routes[i].legs| else 0
    ensures OverlongLegs(routes, maxLegs) == Sum(parts)
  {
    if routes != [] {
      OverlongIsSum(routes[..|routes| - 1], maxLegs, parts[..|routes| - 1]);
    }
  }

  /** The fallback counter grows by the legs of every overlong route and by one for every added route. */
  lemma FallbacksAreCounted(plan: Plan, required: seq<Arc>, maxLegs: int, parts: seq<int>)
    requires |parts| == |plan.routes| && maxLegs >= 0
    requires forall i :: 0 <= i < |parts| ==>
      parts[i] == if |plan.routes[i].legs| > maxLegs then |plan.routes[i].legs| else 0
    ensures var done := Completed(plan, required, maxLegs);
      && done.stats.singlePairFallbacks == plan.stats.singlePairFallbacks + Sum(parts)
           + |done.routes| - |KeptRoutes(plan.routes, maxLegs)|
      && done.stats == plan.stats.(singlePairFallbacks := done.stats.singlePairFallbacks)
  {
    OverlongIsSum(plan.routes, maxLegs, parts);
  }

  /** Some leg of the plan serves the arc as a required leg under its id and endpoints. */
  ghost predicate Served(routes: seq<Route>, e: Arc) {
    exists r, i :: 0 <= r < |routes| && 0 <= i < |routes[r].legs|
      && routes[r].legs[i] == Leg(e.from, e.to, LegRequired, e.id)
  }

  /** Required legs run along the arc they name. */
  ghost predicate HonestLegs(routes: seq<Route>, required: seq<Arc>) {
    forall r, i, k | 0 <= r < |routes| && 0 <= i < |routes[r].legs| && 0 <= k < |required| ::
      Carries(routes[r].legs[i], required[k].id) ==>
        routes[r].legs[i].from == required[k].from && routes[r].legs[i].to == required[k].to
  }

  ghost predicate DifferentIds(required: seq<Arc>) {
    forall i, j :: 0 <= i < j < |required| ==> required[i].id != required[j].id
  }

  /** An arc whose id no scan marked gets a route of one leg along it. */
  lemma UnmarkedIsServed(plan: Plan, required: seq<Arc>, maxLegs: int, k: nat) returns (r: nat)
    requires k < |required| && DifferentIds(required) && !Marked(plan.routes, maxLegs, required[k].id)
    ensures var e, routes := required[k], Completed(plan, required, maxLegs).routes;
      r < |routes| && routes[r].legs == [Leg(e.from, e.to, LegRequired, e.id)]
  {
    var m := Missing(plan.routes, maxLegs, required);
    MissingIds(plan.routes, maxLegs, required);
    assert HasArcId(required, required[k].id);
    var i :| 0 <= i < |m| && m[i].id == required[k].id;
    var j :| 0 <= j < |required| && required[j] == m[i];
    assert j == k;
    r := |KeptRoutes(plan.routes, maxLegs)| + i;
  }

  lemma KeptStay(plan: Plan, required: seq<Arc>, maxLegs: int, e: Arc)
    requires Served(KeptRoutes(plan.routes, maxLegs), e)
    ensures Served(Completed(plan, required, maxLegs).routes, e)
  {
    var kept, routes := KeptRoutes(plan.routes, maxLegs), Completed(plan, required, maxLegs).routes;
    var r, i :| 0 <= r < |kept| && 0 <= i < |kept[r].legs| && kept[r].legs[i] == Leg(e.from, e.to, LegRequired, e.id);
    assert routes[r] == kept[r];
  }

  /** Completion serves every required arc along its own endpoints: an added route is one leg from the arc's tail to
      its head, and kept legs do if they did before. */
  lemma EveryArcIsServed(plan: Plan, required: seq<Arc>, maxLegs: int, k: nat)
    requires k < |required| && DifferentIds(required)
    requires HonestLegs(KeptRoutes(plan.routes, maxLegs), required)
    requires Marked(plan.routes, maxLegs, required[k].id) ==>
      PlanHasId(KeptRoutes(plan.routes, maxLegs), required[k].id)
    ensures Served(Completed(plan, required, maxLegs).routes, required[k])
  {
    var e, kept := required[k], KeptRoutes(plan.routes, maxLegs);
    if Marked(plan.routes, maxLegs, e.id) {
      var r :| 0 <= r < |kept| && HasId(kept[r].legs, e.id);
      var i :| 0 <= i < |kept[r].legs| && Carries(kept[r].legs[i], e.id);
      assert kept[r].legs[i] == Leg(e.from, e.to, LegRequired, e.id);
      KeptStay(plan, required, maxLegs, e);
    } else {
      var r := UnmarkedIsServed(plan, required, maxLegs, k);
      assert Completed(plan, required, maxLegs).routes[r].legs[0] == Leg(e.from, e.to, LegRequired, e.id);
    }
  }

  /** A valid, complete plan comes out as it went in. */
  lemma CompleteIsUnchanged(plan: Plan, required: seq<Arc>, maxLegs: int)
    requires AllKept(plan.routes, maxLegs) && CoversIds(plan.routes, required)
    ensures Completed(plan, required, maxLegs) == plan
  {
    KeepAll(plan.routes, maxLegs);
    MissingIds(plan.routes, maxLegs, required);
    var m := Missing(plan.routes, maxLegs, required);
    if m != [] {
      assert HasArcId(m, m[0].id);
      var i :| 0 <= i < |required| && required[i].id == m[0].id;
      KeptIsMarked(plan.routes, maxLegs, required[i].id);
      assert false;
    }
  }

  /** Whatever comes in, a second pass leaves nothing uncovered, and a third changes nothing. */
  lemma SecondPassCompletes(plan: Plan, required: seq<Arc>, maxLegs: int)
    requires maxLegs >= 1
    ensures var twice := Completed(Completed(plan, required, maxLegs), required, maxLegs);
      CoversIds(twice.routes, required) && Completed(twice, required, maxLegs) == twice
  {
    var once := Completed(plan, required, maxLegs);
    CompletedAreWalks(plan, required, maxLegs);
    CompletionOfContinuous(once, required, maxLegs);
    CompletedAreWalks(once, required, maxLegs);
    CompleteIsUnchanged(Completed(once, required, maxLegs), required, maxLegs);
  }

  /** A discontinuous route can lose an arc: its first leg marks id 0, the gap drops the route, and nothing
      is added. */
  lemma GapLosesArc()
    ensures var required := [Arc(0, 0, 1)];
      var plan := Plan([Route([Leg(0, 1, LegRequired, 0), Leg(2, 3, LegBridge, 0)])], NO_STATS);
      && Completed(plan, required, 17).routes == []
      && !CoversIds(Completed(plan, required, 17).routes, required)
  {
    var legs := [Leg(0, 1, LegRequired, 0), Leg(2, 3, LegBridge, 0)];
    var required := [Arc(0, 0, 1)];
    var routes := [Route(legs)];
    assert legs[..1] == [legs[0]];
    assert Walked([legs[0]]) == 1 by { assert [legs[0]][..0] == []; }
    WalkedStops(legs, 1);
    assert Marks(routes[0], 17, 0) by { assert Carries(legs[..1][0], 0); }
    assert routes[..0] == [] && required[..0] == [];
    assert !Continuous(legs);
    assert PlanHasId([], required[0].id) ==> false;
  }
}
