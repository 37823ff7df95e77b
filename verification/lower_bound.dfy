/**
 * The lower bound on the number of routes (internal/arccover/lower_bound.go), and why no plan beats it.
 *
 * A plan is any list of walks of at most L legs; it covers the required arcs when the arcs can be
 * assigned to pairwise different legs with the same endpoints.  Bridges and repeated legs are free.
 */
module LowerBounds {
  import opened ArcTypes
  import opened Sums
  import opened Trails

  function CeilDiv(a: int, b: int): int {
    if b <= 0 then 0 else if a <= 0 then 0 else (a + b - 1) / b
  }

  function Max(a: int, b: int): int { if a > b then a else b }

  function LowerBound(n: nat, required: seq<Arc>, maxLegs: int): int
    requires InRange(n, required)
  {
    var m := |required|;
    if m == 0 || maxLegs <= 0 then 0
    else
      var tau := Tau(n, required);
      var lb0 := CeilDiv(m, maxLegs);
      var lb1 := CeilDiv(m + tau, maxLegs + 1);
      var half := (maxLegs + 1) / 2;
      var maxFragmentsPerRoute := if half < 1 then 1 else half;
      var lb2 := CeilDiv(tau, maxFragmentsPerRoute);
      Max(lb0, Max(lb1, lb2))
  }

  lemma CeilDivIsLeast(a: int, b: int, k: nat)
    requires b > 0
    ensures CeilDiv(a, b) <= k <==> a <= k * b
  {
    if a > 0 {
      var q := (a + b - 1) / b;
      assert q * b <= a + b - 1 < q * b + b;
      if q <= k {
        MulLe(q, k, b);
      } else {
        MulLe(k + 1, q, b);
        MulSucc(k, b);
      }
    } else {
      MulLe(0, k, b);
    }
  }

  /** The bound is the least number of routes that the three inequalities of any plan allow; without arcs or legs
      there is nothing to bound. */
  lemma LowerBoundIsLeast(n: nat, required: seq<Arc>, maxLegs: int, k: nat)
    requires InRange(n, required)
    ensures required == [] || maxLegs <= 0 ==> LowerBound(n, required, maxLegs) == 0
    ensures required != [] && maxLegs > 0 ==>
      (LowerBound(n, required, maxLegs) <= k <==>
        && |required| <= k * maxLegs
        && |required| + Tau(n, required) <= k * (maxLegs + 1)
        && Tau(n, required) <= k * ((maxLegs + 1) / 2))
  {
    hide CeilDiv, Tau;
    if required != [] && maxLegs > 0 {
      CeilDivIsLeast(|required|, maxLegs, k);
      CeilDivIsLeast(|required| + Tau(n, required), maxLegs + 1, k);
      CeilDivIsLeast(Tau(n, required), (maxLegs + 1) / 2, k);
    }
  }

  method ComputeLowerBound(n: nat, required: seq<Arc>, maxLegs: int) returns (lb: int)
    requires InRange(n, required)
    ensures lb == LowerBound(n, required, maxLegs)
  {
    var m := |required|;
    if m == 0 || maxLegs <= 0 {
      return 0;
    }
    var tau := MinimumTrailCount(n, required);
    var lb0 := CeilDiv(m, maxLegs);
    var lb1 := CeilDiv(m + tau, maxLegs + 1);
    var maxFragmentsPerRoute := (maxLegs + 1) / 2;
    if maxFragmentsPerRoute < 1 {
      maxFragmentsPerRoute := 1;
    }
    var lb2 := CeilDiv(tau, maxFragmentsPerRoute);
    lb := Max(lb0, Max(lb1, lb2));
  }

  // ---------- Plans and covers ----------

  /** Walks a provider accepts: continuous, at most `maxLegs` legs. */
  ghost predicate AreWalks(routes: seq<Route>, maxLegs: int) {
    forall r :: 0 <= r < |routes| ==> Continuous(routes[r].legs) && |routes[r].legs| <= maxLegs
  }

  datatype Place = Place(route: nat, leg: nat)

  ghost predicate LegAt(routes: seq<Route>, p: Place, e: Arc) {
    && p.route < |routes| && p.leg < |routes[p.route].legs|
    && routes[p.route].legs[p.leg].from == e.from
    && routes[p.route].legs[p.leg].to == e.to
  }

  /** `at` assigns the arcs to pairwise different legs with the same endpoints. */
  ghost predicate CoversAt(routes: seq<Route>, arcs: seq<Arc>, at: seq<Place>) {
    && |at| == |arcs|
    && (forall i :: 0 <= i < |arcs| ==> LegAt(routes, at[i], arcs[i]))
    && (forall i, j :: 0 <= i < j < |at| ==> at[i] != at[j])
  }

  ghost predicate Covers(routes: seq<Route>, arcs: seq<Arc>) {
    exists at :: CoversAt(routes, arcs, at)
  }

  // ---------- One route: the required legs form runs ----------

  /** A label per leg: -1, or the index of the arc the leg covers. */
  ghost predicate Labelled(legs: seq<Leg>, arcs: seq<Arc>, lab: seq<int>) {
    && |lab| == |legs|
    && GoodLabels(arcs, lab)
    && forall k :: 0 <= k < |lab| && lab[k] >= 0 ==>
      legs[k].from == arcs[lab[k]].from && legs[k].to == arcs[lab[k]].to
  }

  ghost predicate GoodLabels(arcs: seq<Arc>, lab: seq<int>) {
    forall k :: 0 <= k < |lab| ==> -1 <= lab[k] < |arcs|
  }

  /** The weights of the arcs the labels pick. */
  function Weight(lab: seq<int>, w: seq<int>): int {
    if lab == [] then 0
    else Weight(lab[..|lab| - 1], w) + if 0 <= lab[|lab| - 1] < |w| then w[lab[|lab| - 1]] else 0
  }

  /** Every arc weighs one: the weight is the number of labelled legs. */
  function Ones(arcs: seq<Arc>): seq<int> { seq(|arcs|, _ => 1) }

  /** Only copies of x weigh: the weight is how often x is picked. */
  function CopiesOf(arcs: seq<Arc>, x: Arc): seq<int> {
    seq(|arcs|, i requires 0 <= i < |arcs| => if arcs[i] == x then 1 else 0)
  }

  /** Is the last leg a labelled one? */
  ghost function Open(lab: seq<int>): nat {
    if lab != [] && lab[|lab| - 1] >= 0 then 1 else 0
  }

  /** The maximal runs of consecutive labelled legs, as trails of arcs. */
  ghost function Runs(arcs: seq<Arc>, lab: seq<int>): (ts: seq<seq<Arc>>)
    requires GoodLabels(arcs, lab)
    ensures Open(lab) == 1 ==> ts != []
  {
    if lab == [] then []
    else
      var init := lab[..|lab| - 1];
      var rest := Runs(arcs, init);
      if lab[|lab| - 1] < 0 then rest
      else if Open(init) == 1 then
        rest[..|rest| - 1] + [rest[|rest| - 1] + [arcs[lab[|lab| - 1]]]]
      else rest + [[arcs[lab[|lab| - 1]]]]
  }

  lemma {:induction false} RunsShape(legs: seq<Leg>, arcs: seq<Arc>, lab: seq<int>)
    requires Continuous(legs) && Labelled(legs, arcs, lab)
    ensures AreTrails(Runs(arcs, lab))
    ensures Open(lab) == 1 ==>
      Last(Runs(arcs, lab)[|Runs(arcs, lab)| - 1]) == legs[|legs| - 1].to
  {
    hide AreTrails, Last;
    if lab == [] {
      NoTrails();
    } else {
      var n := |lab| - 1;
      RunsShape(legs[..n], arcs, lab[..n]);
      var rest := Runs(arcs, lab[..n]);
      if lab[n] >= 0 {
        if Open(lab[..n]) == 1 {
          assert legs[n - 1].to == legs[n].from;
          ExtendTrail(rest, arcs[lab[n]]);
        } else {
          OpenTrail(rest, arcs[lab[n]]);
        }
      }
    }
  }

  lemma NoTrails()
    ensures AreTrails([])
  {
  }

  lemma ExtendTrail(ts: seq<seq<Arc>>, e: Arc)
    requires AreTrails(ts) && ts != [] && Last(ts[|ts| - 1]) == e.from
    ensures AreTrails(ts[..|ts| - 1] + [ts[|ts| - 1] + [e]]) && Last(ts[|ts| - 1] + [e]) == e.to
  {
    ChainConcat(ts[|ts| - 1], [e]);
  }

  lemma OpenTrail(ts: seq<seq<Arc>>, e: Arc)
    requires AreTrails(ts)
    ensures AreTrails(ts + [[e]]) && Last([e]) == e.to
  {
  }

  lemma {:induction false} RunsArcs(arcs: seq<Arc>, lab: seq<int>, x: Arc)
    requires GoodLabels(arcs, lab)
    ensures AllArcs(Runs(arcs, lab))[x] == Weight(lab, CopiesOf(arcs, x))
  {
    if lab != [] {
      var n := |lab| - 1;
      RunsArcs(arcs, lab[..n], x);
      var rest := Runs(arcs, lab[..n]);
      if lab[n] >= 0 {
        if Open(lab[..n]) == 1 {
          ExtendLast(rest, arcs[lab[n]], x);
        } else {
          AllArcsSnoc(rest, [arcs[lab[n]]]);
        }
      }
    }
  }

  lemma ExtendLast(ts: seq<seq<Arc>>, e: Arc, x: Arc)
    requires ts != []
    ensures AllArcs(ts[..|ts| - 1] + [ts[|ts| - 1] + [e]])[x] == AllArcs(ts)[x] + if e == x then 1 else 0
  {
    AllArcsSnoc(ts[..|ts| - 1], ts[|ts| - 1] + [e]);
    BagOfConcat(ts[|ts| - 1], [e]);
  }

  /** Between two runs lies at least one unlabelled leg. */
  lemma {:induction false} RunsCount(arcs: seq<Arc>, lab: seq<int>)
    requires GoodLabels(arcs, lab)
    ensures Weight(lab, Ones(arcs)) + |Runs(arcs, lab)| - Open(lab) <= |lab|
    ensures 2 * |Runs(arcs, lab)| - Open(lab) <= |lab|
    ensures Weight(lab, Ones(arcs)) <= |lab|
  {
    if lab != [] {
      RunsCount(arcs, lab[..|lab| - 1]);
    }
  }

  // ---------- All routes ----------

  ghost predicate AllLabelled(routes: seq<Route>, arcs: seq<Arc>, labs: seq<seq<int>>) {
    && |labs| == |routes|
    && forall r :: 0 <= r < |labs| ==> Labelled(routes[r].legs, arcs, labs[r])
  }

  ghost predicate AllGood(arcs: seq<Arc>, labs: seq<seq<int>>) {
    forall r :: 0 <= r < |labs| ==> GoodLabels(arcs, labs[r])
  }

  function WeightAll(labs: seq<seq<int>>, w: seq<int>): int {
    if labs == [] then 0 else WeightAll(labs[..|labs| - 1], w) + Weight(labs[|labs| - 1], w)
  }

  ghost function AllRuns(arcs: seq<Arc>, labs: seq<seq<int>>): seq<seq<Arc>>
    requires AllGood(arcs, labs)
  {
    if labs == [] then []
    else AllRuns(arcs, labs[..|labs| - 1]) + Runs(arcs, labs[|labs| - 1])
  }

  lemma {:induction false} AllRunsShape(routes: seq<Route>, arcs: seq<Arc>, labs: seq<seq<int>>, maxLegs: int)
    requires AreWalks(routes, maxLegs) && AllLabelled(routes, arcs, labs)
    ensures AllGood(arcs, labs) && AreTrails(AllRuns(arcs, labs))
  {
    if labs != [] {
      var n := |labs| - 1;
      AllRunsShape(routes[..n], arcs, labs[..n], maxLegs);
      RunsShape(routes[n].legs, arcs, labs[n]);
    }
  }

  lemma {:induction false} AllRunsArcs(arcs: seq<Arc>, labs: seq<seq<int>>, x: Arc)
    requires AllGood(arcs, labs)
    ensures AllArcs(AllRuns(arcs, labs))[x] == WeightAll(labs, CopiesOf(arcs, x))
  {
    if labs != [] {
      var n := |labs| - 1;
      AllRunsArcs(arcs, labs[..n], x);
      RunsArcs(arcs, labs[n], x);
      AllArcsConcat(AllRuns(arcs, labs[..n]), Runs(arcs, labs[n]));
    }
  }

  lemma {:induction false} AllRunsCount(routes: seq<Route>, arcs: seq<Arc>, labs: seq<seq<int>>, maxLegs: int)
    requires AreWalks(routes, maxLegs) && AllLabelled(routes, arcs, labs) && maxLegs > 0
    ensures AllGood(arcs, labs)
    ensures WeightAll(labs, Ones(arcs)) + |AllRuns(arcs, labs)| <= |routes| * (maxLegs + 1)
    ensures WeightAll(labs, Ones(arcs)) <= |routes| * maxLegs
    ensures |AllRuns(arcs, labs)| <= |routes| * ((maxLegs + 1) / 2)
  {
    if labs != [] {
      var n := |labs| - 1;
      AllRunsCount(routes[..n], arcs, labs[..n], maxLegs);
      RunsCount(arcs, labs[n]);
      assert |labs[n]| <= maxLegs;
      MulSucc(n, maxLegs + 1);
      MulSucc(n, maxLegs);
      MulSucc(n, (maxLegs + 1) / 2);
    }
  }

  // ---------- From a cover to labels ----------

  ghost function NoLabels(routes: seq<Route>): seq<seq<int>> {
    seq(|routes|, r requires 0 <= r < |routes| => seq(|routes[r].legs|, _ => -1))
  }

  ghost function PutLabel(labs: seq<seq<int>>, p: Place, i: nat): seq<seq<int>> {
    if p.route < |labs| && p.leg < |labs[p.route]|
    then labs[p.route := labs[p.route][p.leg := i]]
    else labs
  }

  /** Labels after the first i arcs were put in their places. */
  ghost function PlaceLabels(routes: seq<Route>, at: seq<Place>, i: nat): seq<seq<int>>
    requires i <= |at|
  {
    if i == 0 then NoLabels(routes)
    else PutLabel(PlaceLabels(routes, at, i - 1), at[i - 1], i - 1)
  }

  /** Only the first i places carry labels. */
  ghost predicate LabelsOf(labs: seq<seq<int>>, at: seq<Place>, i: nat)
    requires i <= |at|
  {
    forall r, k :: 0 <= r < |labs| && 0 <= k < |labs[r]| && labs[r][k] >= 0 ==>
      labs[r][k] < i && at[labs[r][k]] == Place(r, k)
  }

  lemma {:induction false} PlacedAreLabels(routes: seq<Route>, arcs: seq<Arc>, at: seq<Place>, i: nat)
    requires CoversAt(routes, arcs, at) && i <= |at|
    ensures AllLabelled(routes, arcs, PlaceLabels(routes, at, i))
  {
    if i > 0 {
      PlacedAreLabels(routes, arcs, at, i - 1);
      assert LegAt(routes, at[i - 1], arcs[i - 1]);
    }
  }

  lemma {:induction false} PlacedOnly(routes: seq<Route>, at: seq<Place>, i: nat)
    requires i <= |at|
    ensures LabelsOf(PlaceLabels(routes, at, i), at, i)
  {
    if i > 0 {
      PlacedOnly(routes, at, i - 1);
    }
  }

  lemma {:induction false} WeightNone(lab: seq<int>, w: seq<int>)
    requires forall k :: 0 <= k < |lab| ==> lab[k] == -1
    ensures Weight(lab, w) == 0
  {
    if lab != [] {
      WeightNone(lab[..|lab| - 1], w);
    }
  }

  lemma {:induction false} WeightAllNone(labs: seq<seq<int>>, w: seq<int>)
    requires forall r, k :: 0 <= r < |labs| && 0 <= k < |labs[r]| ==> labs[r][k] == -1
    ensures WeightAll(labs, w) == 0
  {
    if labs != [] {
      WeightAllNone(labs[..|labs| - 1], w);
      WeightNone(labs[|labs| - 1], w);
    }
  }

  lemma {:induction false} WeightUpdate(lab: seq<int>, w: seq<int>, k: nat, i: nat)
    requires k < |lab| && lab[k] == -1 && i < |w|
    ensures Weight(lab[k := i], w) == Weight(lab, w) + w[i]
  {
    var n := |lab| - 1;
    if k == n {
      assert lab[k := i][..n] == lab[..n];
    } else {
      WeightUpdate(lab[..n], w, k, i);
      assert lab[k := i][..n] == lab[..n][k := i];
    }
  }

  lemma {:induction false} WeightAllUpdate(labs: seq<seq<int>>, w: seq<int>, r: nat, lab: seq<int>)
    requires r < |labs|
    ensures WeightAll(labs[r := lab], w) == WeightAll(labs, w) - Weight(labs[r], w) + Weight(lab, w)
  {
    var n := |labs| - 1;
    if r == n {
      assert labs[r := lab][..n] == labs[..n];
    } else {
      WeightAllUpdate(labs[..n], w, r, lab);
      assert labs[r := lab][..n] == labs[..n][r := lab];
    }
  }

  /** No earlier arc took the place of arc i. */
  lemma PlaceIsFree(routes: seq<Route>, arcs: seq<Arc>, at: seq<Place>, i: nat)
    requires CoversAt(routes, arcs, at) && i < |at|
    ensures var labs := PlaceLabels(routes, at, i);
      && at[i].route < |labs| && at[i].leg < |labs[at[i].route]|
      && labs[at[i].route][at[i].leg] == -1
  {
    PlacedAreLabels(routes, arcs, at, i);
    PlacedOnly(routes, at, i);
    assert LegAt(routes, at[i], arcs[i]);
    if PlaceLabels(routes, at, i)[at[i].route][at[i].leg] >= 0 {
      assert false;
    }
  }

  /** The labels pick every arc exactly once. */
  lemma {:induction false} PlacedWeight(routes: seq<Route>, arcs: seq<Arc>, at: seq<Place>, w: seq<int>, i: nat)
    requires CoversAt(routes, arcs, at) && |w| == |arcs| && i <= |at|
    ensures WeightAll(PlaceLabels(routes, at, i), w) == Sum(w[..i])
  {
    if i == 0 {
      WeightAllNone(NoLabels(routes), w);
    } else {
      PlacedWeight(routes, arcs, at, w, i - 1);
      PlaceIsFree(routes, arcs, at, i - 1);
      var labs, p := PlaceLabels(routes, at, i - 1), at[i - 1];
      WeightUpdate(labs[p.route], w, p.leg, i - 1);
      WeightAllUpdate(labs, w, p.route, labs[p.route][p.leg := i - 1]);
      SumPrefix(w, i - 1);
    }
  }

  lemma {:induction false} CopiesSum(arcs: seq<Arc>, x: Arc)
    ensures Sum(CopiesOf(arcs, x)) == multiset(arcs)[x]
  {
    if arcs != [] {
      var n := |arcs| - 1;
      CopiesSum(arcs[..n], x);
      assert CopiesOf(arcs, x)[..n] == CopiesOf(arcs[..n], x);
      assert arcs == arcs[..n] + [arcs[n]];
    }
  }

  lemma CeilDivLe(a: int, b: int, r: int)
    requires b > 0 && r >= 0 && a <= r * b
    ensures CeilDiv(a, b) <= r
  {
    MulSucc(r, b);
    DivLt(a + b - 1, b, r + 1);
  }

  /** A plan that covers the arcs splits them into trails, few enough for its routes. */
  lemma CoverSplitsIntoTrails(arcs: seq<Arc>, maxLegs: int, routes: seq<Route>) returns (ts: seq<seq<Arc>>)
    requires AreWalks(routes, maxLegs) && Covers(routes, arcs) && maxLegs > 0
    ensures IsTrailPartition(ts, arcs)
    ensures |arcs| + |ts| <= |routes| * (maxLegs + 1)
    ensures |arcs| <= |routes| * maxLegs
    ensures |ts| <= |routes| * ((maxLegs + 1) / 2)
  {
    var at :| CoversAt(routes, arcs, at);
    var labs := PlaceLabels(routes, at, |at|);
    PlacedAreLabels(routes, arcs, at, |at|);
    AllRunsShape(routes, arcs, labs, maxLegs);
    ts := AllRuns(arcs, labs);
    forall x: Arc ensures AllArcs(ts)[x] == multiset(arcs)[x] {
      AllRunsArcs(arcs, labs, x);
      PlacedWeight(routes, arcs, at, CopiesOf(arcs, x), |at|);
      assert CopiesOf(arcs, x)[..|at|] == CopiesOf(arcs, x);
      CopiesSum(arcs, x);
    }
    AllRunsCount(routes, arcs, labs, maxLegs);
    PlacedWeight(routes, arcs, at, Ones(arcs), |at|);
    assert Ones(arcs)[..|at|] == Ones(arcs);
    SumConst(Ones(arcs), 1);
  }

  /** The lower bound is sound: every plan of walks of at most maxLegs legs that covers the arcs has at
      least LowerBound routes. */
  lemma LowerBoundSound(n: nat, arcs: seq<Arc>, maxLegs: int, routes: seq<Route>)
    requires InRange(n, arcs) && AreWalks(routes, maxLegs) && Covers(routes, arcs)
    ensures |routes| >= LowerBound(n, arcs, maxLegs)
  {
    if |arcs| > 0 && maxLegs > 0 {
      var ts := CoverSplitsIntoTrails(arcs, maxLegs, routes);
      TrailBound(n, arcs, ts);
      CeilDivLe(|arcs|, maxLegs, |routes|);
      CeilDivLe(|arcs| + Tau(n, arcs), maxLegs + 1, |routes|);
      CeilDivLe(Tau(n, arcs), (maxLegs + 1) / 2, |routes|);
    }
  }

  // ---------- Two ways a plan can cover ----------

  ghost predicate IdLegAt(routes: seq<Route>, p: Place, e: Arc) {
    && LegAt(routes, p, e)
    && routes[p.route].legs[p.leg].kind.LegRequired? && routes[p.route].legs[p.leg].edgeId == e.id
  }

  ghost predicate HasIdLeg(routes: seq<Route>, e: Arc) { exists p :: IdLegAt(routes, p, e) }

  ghost predicate HasLeg(routes: seq<Route>, e: Arc) { exists p :: LegAt(routes, p, e) }

  /** Every arc shows up as a required leg under its own id and endpoints. */
  ghost predicate CoversById(routes: seq<Route>, arcs: seq<Arc>) {
    forall i :: 0 <= i < |arcs| ==> HasIdLeg(routes, arcs[i])
  }

  /** Every arc's pair of endpoints is travelled by some leg, of either kind. */
  ghost predicate CoversByPair(routes: seq<Route>, arcs: seq<Arc>) {
    forall i :: 0 <= i < |arcs| ==> HasLeg(routes, arcs[i])
  }

  lemma CoverById(routes: seq<Route>, arcs: seq<Arc>)
    requires CoversById(routes, arcs)
    requires forall i, j :: 0 <= i < j < |arcs| ==> arcs[i].id != arcs[j].id
    ensures Covers(routes, arcs)
  {
    var at: seq<Place> := [];
    while |at| < |arcs|
      invariant |at| <= |arcs|
      invariant forall i :: 0 <= i < |at| ==> IdLegAt(routes, at[i], arcs[i])
    {
      var i := |at|;
      assert HasIdLeg(routes, arcs[i]);
      var p :| IdLegAt(routes, p, arcs[i]);
      at := at + [p];
    }
    assert CoversAt(routes, arcs, at);
  }

  lemma CoverByPair(routes: seq<Route>, arcs: seq<Arc>)
    requires CoversByPair(routes, arcs)
    requires forall i, j :: 0 <= i < j < |arcs| ==> arcs[i].from != arcs[j].from || arcs[i].to != arcs[j].to
    ensures Covers(routes, arcs)
  {
    var at: seq<Place> := [];
    while |at| < |arcs|
      invariant |at| <= |arcs|
      invariant forall i :: 0 <= i < |at| ==> LegAt(routes, at[i], arcs[i])
    {
      var i := |at|;
      assert HasLeg(routes, arcs[i]);
      var p :| LegAt(routes, p, arcs[i]);
      at := at + [p];
    }
    assert CoversAt(routes, arcs, at);
  }
}
