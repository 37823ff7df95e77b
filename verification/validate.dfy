/** ValidateAndComplete, FinalizePlan and CountCoverage of internal/arccover/validate.go. */
module Validate {
  import opened ArcTypes
  import opened ValidateRule
  import opened RequiredSets
  import opened PackingRoutes
  import opened LowerBounds

  ghost predicate IdsBelowLength(required: seq<Arc>) {
    forall i :: 0 <= i < |required| ==> required[i].id < |required|
  }

  // ---------- Validation and completion ----------

  /** covered[id] says whether a leg with that id has been seen. */
  ghost predicate Seen(covered: seq<bool>, legs: seq<Leg>) {
    forall id :: 0 <= id < |covered| ==> (covered[id] <==> HasId(legs, id))
  }

  /** Mark the ids of the legs before the first gap. */
  method ScanRoute(legs: seq<Leg>, covered: array<bool>) returns (continuous: bool)
    modifies covered
    ensures continuous <==> Continuous(legs)
    ensures forall id :: 0 <= id < covered.Length ==>
      (covered[id] <==> old(covered[id]) || HasId(legs[..Walked(legs)], id))
  {
    WalkedAll(legs);
    assert legs[..|legs|] == legs;
    for i := 0 to |legs|
      invariant Walked(legs[..i]) == i
      invariant forall id :: 0 <= id < covered.Length ==>
        (covered[id] <==> old(covered[id]) || HasId(legs[..i], id))
    {
      var leg := legs[i];
      assert legs[..i + 1] == legs[..i] + [leg];
      if i > 0 && legs[i - 1].to != leg.from {
        WalkedStops(legs, i);
        return false;
      }
      forall id: nat ensures HasId(legs[..i + 1], id) <==> HasId(legs[..i], id) || Carries(leg, id) {
        HasIdSnoc(legs[..i], leg, id);
      }
      assert legs[..i + 1][..i] == legs[..i];
      if leg.kind.LegRequired? && leg.edgeId < covered.Length {
        covered[leg.edgeId] := true;
      }
    }
    return true;
  }

  /** What the first pass leaves in a route's slot. */
  function Cleared(r: Route, maxLegs: int): Route {
    if |r.legs| > maxLegs || !Continuous(r.legs) then Route([]) else r
  }

  function ClearedAll(routes: seq<Route>, maxLegs: int): seq<Route> {
    seq(|routes|, i requires 0 <= i < |routes| => Cleared(routes[i], maxLegs))
  }

  ghost predicate MarkedSoFar(covered: seq<bool>, routes: seq<Route>, maxLegs: int) {
    forall id :: 0 <= id < |covered| ==> (covered[id] <==> Marked(routes, maxLegs, id))
  }

  /** First pass: mark what the scans see, empty the slots of the routes that must go. */
  method ScanRoutes(routes0: seq<Route>, maxLegs: int, covered: array<bool>) returns (routes: seq<Route>, fallbacks: int)
    requires forall id :: 0 <= id < covered.Length ==> !covered[id]
    modifies covered
    ensures routes == ClearedAll(routes0, maxLegs) && fallbacks == OverlongLegs(routes0, maxLegs)
    ensures MarkedSoFar(covered[..], routes0, maxLegs)
  {
    routes, fallbacks := routes0, 0;
    for k := 0 to |routes|
      invariant |routes| == |routes0|
      invariant routes[..k] == ClearedAll(routes0[..k], maxLegs) && routes[k..] == routes0[k..]
      invariant fallbacks == OverlongLegs(routes0[..k], maxLegs)
      invariant MarkedSoFar(covered[..], routes0[..k], maxLegs)
    {
      assert routes0[..k + 1] == routes0[..k] + [routes0[k]] && routes0[..k + 1][..k] == routes0[..k];
      forall id: nat
        ensures Marked(routes0[..k + 1], maxLegs, id) <==>
          Marked(routes0[..k], maxLegs, id) || Marks(routes0[k], maxLegs, id)
      {
        MarkedSnoc(routes0[..k], routes0[k], maxLegs, id);
      }
      ghost var before := routes;
      assert routes[k] == routes0[k];
      var legs := routes[k].legs;
      if |legs| == 0 {
        NoLegsMarkNothing(routes0[k], maxLegs);
      } else if |legs| > maxLegs {
        fallbacks := fallbacks + |legs|;
        routes := routes[k := Route([])];
      } else {
        var continuous := ScanRoute(legs, covered);
        if !continuous {
          routes := routes[k := Route([])];
        }
      }
      SlotDone(before, routes0, k, maxLegs, routes);
    }
    assert routes0[..|routes0|] == routes0;
  }

  lemma NoLegsMarkNothing(r: Route, maxLegs: int)
    requires r.legs == []
    ensures Cleared(r, maxLegs) == r
    ensures forall id :: !Marks(r, maxLegs, id)
  {
  }

  lemma SlotDone(before: seq<Route>, routes0: seq<Route>, k: nat, maxLegs: int, routes: seq<Route>)
    requires |before| == |routes0| && k < |routes0|
    requires before[..k] == ClearedAll(routes0[..k], maxLegs) && before[k..] == routes0[k..]
    requires routes == before[k := Cleared(routes0[k], maxLegs)]
    ensures routes[..k + 1] == ClearedAll(routes0[..k + 1], maxLegs) && routes[k + 1..] == routes0[k + 1..]
  {
    assert routes0[..k + 1] == routes0[..k] + [routes0[k]];
    assert routes[..k + 1] == before[..k] + [Cleared(routes0[k], maxLegs)];
    assert before[k..][1..] == routes0[k..][1..];
  }

  /** Drop the empty slots. */
  method Compact(routes: seq<Route>, ghost routes0: seq<Route>, ghost maxLegs: int) returns (compact: seq<Route>)
    requires routes == ClearedAll(routes0, maxLegs)
    ensures compact == KeptRoutes(routes0, maxLegs)
  {
    compact := [];
    for k := 0 to |routes|
      invariant compact == KeptRoutes(routes0[..k], maxLegs)
    {
      assert routes0[..k + 1][..k] == routes0[..k];
      if |routes[k].legs| > 0 {
        compact := compact + [routes[k]];
      }
    }
    assert routes0[..|routes0|] == routes0;
  }

  /** Second pass: a route of its own for every required arc whose id is unmarked. */
  method AddMissing(routes: seq<Route>, required: seq<Arc>, covered: array<bool>, ghost routes0: seq<Route>, ghost maxLegs: int)
    returns (all: seq<Route>, added: int)
    requires covered.Length == |required| && IdsBelowLength(required) && MarkedSoFar(covered[..], routes0, maxLegs)
    modifies covered
    ensures all == routes + SingleRoutes(Missing(routes0, maxLegs, required))
    ensures added == |Missing(routes0, maxLegs, required)|
  {
    all, added := routes, 0;
    ghost var missing: seq<Arc> := [];
    for k := 0 to |required|
      invariant missing == Missing(routes0, maxLegs, required[..k])
      invariant all == routes + SingleRoutes(missing) && added == |missing|
      invariant forall id :: 0 <= id < covered.Length ==>
        (covered[id] <==> Marked(routes0, maxLegs, id) || HasArcId(missing, id))
    {
      var edge := required[k];
      assert required[..k + 1][..k] == required[..k];
      if covered[edge.id] {
        continue;
      }
      all := all + [Route([Leg(edge.from, edge.to, LegRequired, edge.id)])];
      added := added + 1;
      covered[edge.id] := true;
      forall id: nat ensures HasArcId(missing + [edge], id) <==> HasArcId(missing, id) || edge.id == id {
        HasArcIdSnoc(missing, edge, id);
      }
      missing := missing + [edge];
    }
    assert required[..|required|] == required;
  }

  method ValidateAndComplete(plan: Plan, required: seq<Arc>, maxLegs: int) returns (result: Plan)
    requires IdsBelowLength(required)
    ensures result == Completed(plan, required, maxLegs)
  {
    var covered := new bool[|required|](_ => false);
    var scanned, overlong := ScanRoutes(plan.routes, maxLegs, covered);
    var compact := Compact(scanned, plan.routes, maxLegs);
    var all, added := AddMissing(compact, required, covered, plan.routes, maxLegs);
    result := Plan(all, plan.stats.(singlePairFallbacks := plan.stats.singlePairFallbacks + overlong + added));
  }

  // ---------- What the statistics count ----------

  function AllLegs(routes: seq<Route>): seq<Leg> {
    if routes == [] then [] else AllLegs(routes[..|routes| - 1]) + routes[|routes| - 1].legs
  }

  /** Bridges that run along a required pair. */
  ghost function DuplicateBridges(legs: seq<Leg>, required: seq<Arc>): nat {
    if legs == [] then 0
    else
      var leg := legs[|legs| - 1];
      DuplicateBridges(legs[..|legs| - 1], required) +
        if leg.kind.LegBridge? && IsRequiredPair(required, leg.from, leg.to) then 1 else 0
  }

  /** Required legs whose id is an index of the required list. */
  function NumberedLegs(legs: seq<Leg>, m: nat): nat {
    if legs == [] then 0
    else
      var leg := legs[|legs| - 1];
      NumberedLegs(legs[..|legs| - 1], m) + if leg.kind.LegRequired? && leg.edgeId < m then 1 else 0
  }

  /** The ids below m some required leg carries. */
  ghost function IdsOn(legs: seq<Leg>, m: nat): set<nat> {
    set id: nat | 0 <= id < m && HasId(legs, id)
  }

  /** Bridges along a required pair, and required legs beyond the first of each id. */
  ghost function Duplicates(legs: seq<Leg>, required: seq<Arc>): int {
    DuplicateBridges(legs, required) + NumberedLegs(legs, |required|) - |IdsOn(legs, |required|)|
  }

  lemma NoLegsNoIds(m: nat)
    ensures IdsOn([], m) == {}
  {
  }

  /** A leg adds the id it carries, and no other. */
  lemma IdsOnSnoc(legs: seq<Leg>, leg: Leg, m: nat)
    ensures IdsOn(legs + [leg], m) ==
      IdsOn(legs, m) + if leg.kind.LegRequired? && leg.edgeId < m then {leg.edgeId} else {}
  {
    forall id: nat ensures HasId(legs + [leg], id) <==> HasId(legs, id) || Carries(leg, id) {
      HasIdSnoc(legs, leg, id);
    }
  }

  lemma DuplicatesSnoc(legs: seq<Leg>, leg: Leg, required: seq<Arc>)
    ensures Duplicates(legs + [leg], required) == Duplicates(legs, required) +
      match leg.kind
      case LegBridge => (if IsRequiredPair(required, leg.from, leg.to) then 1 else 0)
      case LegRequired => if leg.edgeId < |required| && HasId(legs, leg.edgeId) then 1 else 0
  {
    var m := |required|;
    assert (legs + [leg])[..|legs|] == legs;
    IdsOnSnoc(legs, leg, m);
    if leg.kind.LegRequired? && leg.edgeId < m {
      assert HasId(legs, leg.edgeId) <==> leg.edgeId in IdsOn(legs, m);
    }
  }

  /** The vertices a list of arcs mentions lie below this number. */
  function VertexCount(required: seq<Arc>): nat {
    if required == [] then 0
    else
      var n, e := VertexCount(required[..|required| - 1]), required[|required| - 1];
      var afterFrom := if e.from + 1 > n then e.from + 1 else n;
      if e.to + 1 > afterFrom then e.to + 1 else afterFrom
  }

  lemma {:induction false} VertexCountBounds(required: seq<Arc>)
    ensures InRange(VertexCount(required), required)
  {
    if required != [] {
      VertexCountBounds(required[..|required| - 1]);
    }
  }

  ghost predicate BridgesWithin(routes: seq<Route>, n: nat) {
    forall r, i :: 0 <= r < |routes| && 0 <= i < |routes[r].legs| && routes[r].legs[i].kind.LegBridge? ==>
      routes[r].legs[i].from < n && routes[r].legs[i].to < n
  }

  lemma {:induction false} KeptBridgesWithin(routes: seq<Route>, maxLegs: int, n: nat)
    requires BridgesWithin(routes, n)
    ensures BridgesWithin(KeptRoutes(routes, maxLegs), n)
  {
    if routes != [] {
      KeptBridgesWithin(routes[..|routes| - 1], maxLegs, n);
    }
  }

  lemma CompletedBridgesWithin(plan: Plan, required: seq<Arc>, maxLegs: int, n: nat)
    requires BridgesWithin(plan.routes, n)
    ensures BridgesWithin(Completed(plan, required, maxLegs).routes, n)
  {
    KeptBridgesWithin(plan.routes, maxLegs, n);
  }

  ghost function FinalStats(routes: seq<Route>, stats: PlanStats, required: seq<Arc>): PlanStats {
    var counted := stats.(requiredEdges := |required|, providerCalls := |routes|,
                          bridgeEdges := BridgesOf(AllLegs(routes)),
                          duplicateRequiredEdges := Duplicates(AllLegs(routes), required));
    if stats.lowerBound > 0
    then counted.(optimalityGap := (|routes| - stats.lowerBound) as real / stats.lowerBound as real,
                  optimal := |routes| == stats.lowerBound)
    else counted
  }

  ghost function Finalized(plan: Plan, required: seq<Arc>, maxLegs: int): Plan {
    var done := Completed(plan, required, maxLegs);
    Plan(done.routes, FinalStats(done.routes, done.stats, required))
  }

  // ---------- Counting ----------

  method TallyLeg(leg: Leg, reqSet: RequiredSet, seen: array<bool>, ghost before: seq<Leg>, ghost required: seq<Arc>)
    returns (bridges: int, dup: int)
    requires reqSet.Valid() && reqSet.Holds(required) && reqSet.N > 0
    requires leg.kind.LegBridge? ==> leg.from < reqSet.N && leg.to < reqSet.N
    requires seen.Length == |required| && Seen(seen[..], before) && seen != reqSet.Bits as object
    modifies seen
    ensures Seen(seen[..], before + [leg])
    ensures bridges == BridgesOf(before + [leg]) - BridgesOf(before)
    ensures dup == Duplicates(before + [leg], required) - Duplicates(before, required)
  {
    bridges, dup := 0, 0;
    ghost var after := before + [leg];
    assert after[..|before|] == before;
    DuplicatesSnoc(before, leg, required);
    forall id: nat ensures HasId(after, id) <==> HasId(before, id) || Carries(leg, id) {
      HasIdSnoc(before, leg, id);
    }
    match leg.kind {
      case LegBridge =>
        bridges := 1;
        if reqSet.Contains(leg.from, leg.to) {
          dup := 1;
        }
      case LegRequired =>
        var id := leg.edgeId;
        if id < seen.Length {
          if seen[id] {
            dup := 1;
          } else {
            seen[id] := true;
          }
        }
    }
  }

  method TallyRoute(legs: seq<Leg>, reqSet: RequiredSet, seen: array<bool>, ghost before: seq<Leg>, ghost required: seq<Arc>)
    returns (bridges: int, dup: int)
    requires reqSet.Valid() && reqSet.Holds(required) && reqSet.N > 0
    requires forall i :: 0 <= i < |legs| && legs[i].kind.LegBridge? ==> legs[i].from < reqSet.N && legs[i].to < reqSet.N
    requires seen.Length == |required| && Seen(seen[..], before) && seen != reqSet.Bits as object
    modifies seen
    ensures Seen(seen[..], before + legs)
    ensures bridges == BridgesOf(before + legs) - BridgesOf(before)
    ensures dup == Duplicates(before + legs, required) - Duplicates(before, required)
  {
    hide Duplicates, BridgesOf, Seen;
    bridges, dup := 0, 0;
    assert before + legs[..0] == before;
    for i := 0 to |legs|
      invariant Seen(seen[..], before + legs[..i])
      invariant bridges == BridgesOf(before + legs[..i]) - BridgesOf(before)
      invariant dup == Duplicates(before + legs[..i], required) - Duplicates(before, required)
    {
      assert before + legs[..i] + [legs[i]] == before + legs[..i + 1];
      var b, d := TallyLeg(legs[i], reqSet, seen, before + legs[..i], required);
      bridges, dup := bridges + b, dup + d;
    }
    assert legs[..|legs|] == legs;
  }

  method Tally(routes: seq<Route>, reqSet: RequiredSet, required: seq<Arc>) returns (bridges: int, dup: int)
    requires reqSet.Valid() && reqSet.Holds(required) && reqSet.N > 0 && BridgesWithin(routes, reqSet.N)
    ensures bridges == BridgesOf(AllLegs(routes))
    ensures dup == Duplicates(AllLegs(routes), required)
  {
    bridges, dup := 0, 0;
    var seen := new bool[|required|](_ => false);
    NoLegsNoIds(|required|);
    for r := 0 to |routes|
      invariant seen != reqSet.Bits as object
      invariant Seen(seen[..], AllLegs(routes[..r]))
      invariant bridges == BridgesOf(AllLegs(routes[..r]))
      invariant dup == Duplicates(AllLegs(routes[..r]), required)
    {
      hide Duplicates, BridgesOf, Seen;
      assert routes[..r + 1][..r] == routes[..r];
      var b, d := TallyRoute(routes[r].legs, reqSet, seen, AllLegs(routes[..r]), required);
      bridges, dup := bridges + b, dup + d;
    }
    assert routes[..|routes|] == routes;
  }

  method CountVertices(required: seq<Arc>) returns (n: nat)
    ensures n == VertexCount(required)
  {
    n := 0;
    for k := 0 to |required|
      invariant n == VertexCount(required[..k])
    {
      assert required[..k + 1][..k] == required[..k];
      if required[k].from + 1 > n {
        n := required[k].from + 1;
      }
      if required[k].to + 1 > n {
        n := required[k].to + 1;
      }
    }
    assert required[..|required|] == required;
  }

  /** Complete the plan, then recompute its statistics. */
  method FinalizePlan(plan: Plan, required: seq<Arc>, maxLegs: int) returns (result: Plan)
    requires IdsBelowLength(required)
    requires BridgesWithin(plan.routes, Max(VertexCount(required), 1))
    ensures result == Finalized(plan, required, maxLegs)
  {
    hide Completed, Duplicates, BridgesWithin;
    var done := ValidateAndComplete(plan, required, maxLegs);
    var n := CountVertices(required);
    VertexCountBounds(required);
    CompletedBridgesWithin(plan, required, maxLegs, Max(n, 1));
    var reqSet := RequiredSet.New(Max(n, 1), required);
    var bridges, dup := Tally(done.routes, reqSet, required);
    var stats := done.stats.(requiredEdges := |required|, providerCalls := |done.routes|,
                             bridgeEdges := bridges, duplicateRequiredEdges := dup);
    if stats.lowerBound > 0 {
      stats := stats.(
        optimalityGap := (stats.providerCalls - stats.lowerBound) as real / stats.lowerBound as real,
        optimal := stats.providerCalls == stats.lowerBound);
    }
    result := Plan(done.routes, stats);
  }

  // ---------- Coverage ----------

  function CountTrue(bits: seq<bool>): nat {
    if bits == [] then 0 else CountTrue(bits[..|bits| - 1]) + if bits[|bits| - 1] then 1 else 0
  }

  ghost function TrueAt(bits: seq<bool>): set<nat> { set i: nat | 0 <= i < |bits| && bits[i] }

  lemma {:induction false} CountTrueIsSize(bits: seq<bool>)
    ensures CountTrue(bits) == |TrueAt(bits)|
  {
    if bits != [] {
      var n := |bits| - 1;
      CountTrueIsSize(bits[..n]);
      assert TrueAt(bits) == TrueAt(bits[..n]) + if bits[n] then {n} else {};
    }
  }

  /** How many required ids appear on required legs. */
  method CountCoverage(plan: Plan, required: seq<Arc>) returns (n: nat)
    ensures n == |IdsOn(AllLegs(plan.routes), |required|)|
  {
    var covered := new bool[|required|](_ => false);
    for r := 0 to |plan.routes|
      invariant Seen(covered[..], AllLegs(plan.routes[..r]))
    {
      assert plan.routes[..r + 1][..r] == plan.routes[..r];
      CoverRoute(plan.routes[r].legs, covered, AllLegs(plan.routes[..r]));
    }
    assert plan.routes[..|plan.routes|] == plan.routes;
    n := 0;
    for i := 0 to covered.Length
      invariant n == CountTrue(covered[..i])
    {
      assert covered[..i + 1][..i] == covered[..i];
      if covered[i] {
        n := n + 1;
      }
    }
    CountTrueIsSize(covered[..]);
    assert covered[..covered.Length] == covered[..];
    assert TrueAt(covered[..]) == IdsOn(AllLegs(plan.routes), |required|);
  }

  method CoverRoute(legs: seq<Leg>, covered: array<bool>, ghost before: seq<Leg>)
    requires Seen(covered[..], before)
    modifies covered
    ensures Seen(covered[..], before + legs)
  {
    assert before + legs[..0] == before;
    for i := 0 to |legs|
      invariant Seen(covered[..], before + legs[..i])
    {
      assert before + legs[..i + 1] == before + legs[..i] + [legs[i]];
      forall id: nat
        ensures HasId(before + legs[..i + 1], id) <==> HasId(before + legs[..i], id) || Carries(legs[i], id)
      {
        HasIdSnoc(before + legs[..i], legs[i], id);
      }
      if legs[i].kind.LegRequired? && legs[i].edgeId < covered.Length {
        covered[legs[i].edgeId] := true;
      }
    }
    assert legs[..|legs|] == legs;
  }

  lemma {:induction false} PlanIdsAreLegIds(routes: seq<Route>, id: nat)
    ensures HasId(AllLegs(routes), id) <==> PlanHasId(routes, id)
  {
    if routes != [] {
      var n := |routes| - 1;
      PlanIdsAreLegIds(routes[..n], id);
      assert routes == routes[..n] + [routes[n]];
      PlanHasIdConcat(routes[..n], [routes[n]], id);
      HasIdConcat(AllLegs(routes[..n]), routes[n].legs, id);
      assert PlanHasId([routes[n]], id) <==> HasId([routes[n]][0].legs, id);
    }
  }

  lemma {:induction false} HasIdConcat(a: seq<Leg>, b: seq<Leg>, id: nat)
    ensures HasId(a + b, id) <==> HasId(a, id) || HasId(b, id)
  {
    if b == [] {
      assert a + b == a;
    } else {
      var init, leg := b[..|b| - 1], b[|b| - 1];
      HasIdConcat(a, init, id);
      HasIdSnoc(init, leg, id);
      HasIdSnoc(a + init, leg, id);
      assert b == init + [leg] && a + b == a + init + [leg];
    }
  }

  ghost function Below(m: nat): set<nat> { if m == 0 then {} else Below(m - 1) + {m - 1} }

  lemma {:induction false} BelowSize(m: nat)
    ensures |Below(m)| == m
    ensures forall id: nat :: id in Below(m) <==> id < m
  {
    if m > 0 {
      BelowSize(m - 1);
    }
  }

  /** Full coverage is counted exactly when every required id is covered. */
  lemma FullCoverage(routes: seq<Route>, required: seq<Arc>)
    requires forall i :: 0 <= i < |required| ==> required[i].id == i
    ensures |IdsOn(AllLegs(routes), |required|)| == |required| <==> CoversIds(routes, required)
  {
    var m := |required|;
    var ids, all := IdsOn(AllLegs(routes), m), Below(m);
    BelowSize(m);
    forall id: nat ensures HasId(AllLegs(routes), id) <==> PlanHasId(routes, id) {
      PlanIdsAreLegIds(routes, id);
    }
    if |ids| == m {
      assert |all| == |ids| + |all - ids|;
      forall i | 0 <= i < m ensures PlanHasId(routes, required[i].id) {
        assert required[i].id in all;
      }
    }
    if CoversIds(routes, required) {
      forall i | 0 <= i < m ensures i in ids {
        assert PlanHasId(routes, required[i].id);
      }
      assert ids == all;
    }
  }
}
