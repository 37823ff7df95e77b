/**
 * The minimum number of directed trails (MinimumTrailCount in internal/arccover/trail.go).
 *
 * `Tau` is the value the source computes from degree imbalance.  It is proved to be exactly the
 * minimum: no partition of the arcs into trails is smaller (`TrailBound`), and some partition is that
 * small (`TrailBoundAttained`).
 */
module Trails {
  import opened ArcTypes
  import opened Components
  import opened Sums

  // ---------- Degrees ----------

  function OutDeg(arcs: seq<Arc>, v: nat): nat {
    if arcs == [] then 0
    else OutDeg(arcs[..|arcs| - 1], v) + if arcs[|arcs| - 1].from == v then 1 else 0
  }

  function InDeg(arcs: seq<Arc>, v: nat): nat {
    if arcs == [] then 0
    else InDeg(arcs[..|arcs| - 1], v) + if arcs[|arcs| - 1].to == v then 1 else 0
  }

  function Balance(arcs: seq<Arc>, v: nat): int {
    OutDeg(arcs, v) - InDeg(arcs, v)
  }

  function Positive(x: int): nat { if x > 0 then x else 0 }

  lemma DegSnoc(a: seq<Arc>, x: Arc, v: nat)
    ensures OutDeg(a + [x], v) == OutDeg(a, v) + if x.from == v then 1 else 0
    ensures InDeg(a + [x], v) == InDeg(a, v) + if x.to == v then 1 else 0
  {
    assert (a + [x])[..|a|] == a;
  }

  lemma {:induction false} DegConcat(a: seq<Arc>, b: seq<Arc>, v: nat)
    ensures OutDeg(a + b, v) == OutDeg(a, v) + OutDeg(b, v)
    ensures InDeg(a + b, v) == InDeg(a, v) + InDeg(b, v)
  {
    if b == [] {
      assert a + b == a;
    } else {
      DegConcat(a, b[..|b| - 1], v);
      assert (a + b)[..|a + b| - 1] == a + b[..|b| - 1];
    }
  }

  lemma DegWithout(a: seq<Arc>, j: nat, v: nat)
    requires j < |a|
    ensures OutDeg(a, v) == OutDeg(Without(a, j), v) + if a[j].from == v then 1 else 0
    ensures InDeg(a, v) == InDeg(Without(a, j), v) + if a[j].to == v then 1 else 0
  {
    assert a == (a[..j] + [a[j]]) + a[j + 1..];
    DegConcat(a[..j] + [a[j]], a[j + 1..], v);
    DegConcat(a[..j], a[j + 1..], v);
    assert (a[..j] + [a[j]])[..j] == a[..j];
  }

  /** Degrees see only the bag of arcs. */
  lemma {:induction false} DegPermutation(a: seq<Arc>, b: seq<Arc>, v: nat)
    requires multiset(a) == multiset(b)
    ensures OutDeg(a, v) == OutDeg(b, v) && InDeg(a, v) == InDeg(b, v)
    decreases |a|
  {
    if a == [] {
      assert |multiset(b)| == 0;
    } else {
      var j := MatchFirst(a, b);
      DegPermutation(Without(a, 0), Without(b, j), v);
      DegWithout(a, 0, v);
      DegWithout(b, j, v);
    }
  }

  // ---------- The value the source computes ----------

  function SurplusTerms(n: nat, arcs: seq<Arc>, r: nat): seq<int>
    requires InRange(n, arcs)
  {
    seq(n, v requires 0 <= v < n =>
      if Labels(n, arcs)[v] == r then Positive(Balance(arcs, v)) else 0)
  }

  /** Total positive out-minus-in balance of the component labelled r. */
  function Surplus(n: nat, arcs: seq<Arc>, r: nat): int
    requires InRange(n, arcs)
  {
    Sum(SurplusTerms(n, arcs, r))
  }

  /** r labels a component that holds an arc. */
  predicate IsGroup(n: nat, arcs: seq<Arc>, r: nat)
    requires InRange(n, arcs)
  {
    exists i :: 0 <= i < |arcs| && Labels(n, arcs)[arcs[i].from] == r
  }

  function AtLeastOne(t: int): int { if t < 1 then 1 else t }

  function TauTerms(n: nat, arcs: seq<Arc>): seq<int>
    requires InRange(n, arcs)
  {
    seq(n, r requires 0 <= r < n =>
      if IsGroup(n, arcs, r) then AtLeastOne(Surplus(n, arcs, r)) else 0)
  }

  function Tau(n: nat, arcs: seq<Arc>): int
    requires InRange(n, arcs)
  {
    Sum(TauTerms(n, arcs))
  }

  // ---------- Partitions into trails ----------

  ghost predicate AreTrails(ts: seq<seq<Arc>>) {
    forall i :: 0 <= i < |ts| ==> ts[i] != [] && Chain(ts[i])
  }

  /** `ts` splits the bag of arcs into non-empty directed trails. */
  ghost predicate IsTrailPartition(ts: seq<seq<Arc>>, arcs: seq<Arc>) {
    AreTrails(ts) && AllArcs(ts) == multiset(arcs)
  }

  function First(t: seq<Arc>): nat requires t != [] { t[0].from }
  function Last(t: seq<Arc>): nat requires t != [] { t[|t| - 1].to }

  ghost function Starts(ts: seq<seq<Arc>>, v: nat): nat
    requires AreTrails(ts)
  {
    if ts == [] then 0
    else Starts(ts[..|ts| - 1], v) + if First(ts[|ts| - 1]) == v then 1 else 0
  }

  ghost function Ends(ts: seq<seq<Arc>>, v: nat): nat
    requires AreTrails(ts)
  {
    if ts == [] then 0
    else Ends(ts[..|ts| - 1], v) + if Last(ts[|ts| - 1]) == v then 1 else 0
  }

  lemma {:induction false} ChainBalance(t: seq<Arc>, v: nat)
    requires t != [] && Chain(t)
    ensures Balance(t, v) == (if First(t) == v then 1 else 0) - (if Last(t) == v then 1 else 0)
  {
    var t' := t[..|t| - 1];
    if t' == [] {
      assert OutDeg(t', v) == InDeg(t', v) == 0;
    } else {
      assert Chain(t');
      ChainBalance(t', v);
      assert t[|t| - 2].to == t[|t| - 2 + 1].from;
    }
  }

  lemma {:induction false} FlowBalance(ts: seq<seq<Arc>>, v: nat)
    requires AreTrails(ts)
    ensures Balance(Flatten(ts), v) == Starts(ts, v) - Ends(ts, v)
  {
    if ts != [] {
      var init, t := ts[..|ts| - 1], ts[|ts| - 1];
      FlowBalance(init, v);
      DegConcat(Flatten(init), t, v);
      ChainBalance(t, v);
    }
  }

  lemma {:induction false} StartsWitness(ts: seq<seq<Arc>>, v: nat)
    requires AreTrails(ts)
    ensures Starts(ts, v) > 0 ==> exists i :: 0 <= i < |ts| && First(ts[i]) == v
    ensures Ends(ts, v) > 0 ==> exists i :: 0 <= i < |ts| && Last(ts[i]) == v
  {
    if ts != [] {
      var init := ts[..|ts| - 1];
      StartsWitness(init, v);
      assert forall i :: 0 <= i < |init| ==> init[i] == ts[i];
    }
  }

  // ---------- Trails per component ----------

  ghost function StartTerms(l: seq<nat>, ts: seq<seq<Arc>>, r: nat): seq<int>
    requires AreTrails(ts)
  {
    seq(|l|, v requires 0 <= v < |l| => if l[v] == r then Starts(ts, v) else 0)
  }

  /** How many trails start in the component labelled r. */
  ghost function TrailsIn(l: seq<nat>, ts: seq<seq<Arc>>, r: nat): int
    requires AreTrails(ts)
  {
    Sum(StartTerms(l, ts, r))
  }

  ghost predicate StartsInRange(l: seq<nat>, ts: seq<seq<Arc>>) {
    forall i :: 0 <= i < |ts| ==> ts[i] != [] && First(ts[i]) < |l| && l[First(ts[i])] < |l|
  }

  lemma TrailsInSnoc(l: seq<nat>, ts: seq<seq<Arc>>, t: seq<Arc>, r: nat)
    requires AreTrails(ts + [t]) && First((ts + [t])[|ts|]) < |l|
    ensures AreTrails(ts)
    ensures TrailsIn(l, ts + [t], r) == TrailsIn(l, ts, r) + if l[First(t)] == r then 1 else 0
  {
    assert forall i :: 0 <= i < |ts| ==> ts[i] == (ts + [t])[i];
    assert (ts + [t])[..|ts|] == ts;
    var a, b := StartTerms(l, ts, r), StartTerms(l, ts + [t], r);
    if l[First(t)] == r {
      assert b == a[First(t) := a[First(t)] + 1];
      SumUpdate(a, First(t), a[First(t)] + 1);
    } else {
      assert a == b;
    }
  }

  lemma {:induction false} TrailsInCount(l: seq<nat>, ts: seq<seq<Arc>>, r: nat)
    requires AreTrails(ts) && StartsInRange(l, ts)
    ensures TrailsIn(l, ts, r) >= 0
    ensures (exists i :: 0 <= i < |ts| && l[First(ts[i])] == r) ==> TrailsIn(l, ts, r) >= 1
    ensures TrailsIn(l, ts, r) >= 2 ==>
      exists i, j :: 0 <= i < j < |ts| && l[First(ts[i])] == r && l[First(ts[j])] == r
    ensures TrailsIn(l, ts, r) >= 1 ==> exists i :: 0 <= i < |ts| && l[First(ts[i])] == r
  {
    if ts == [] {
      SumConst(StartTerms(l, ts, r), 0);
    } else {
      var init, t := ts[..|ts| - 1], ts[|ts| - 1];
      assert ts == init + [t];
      TrailsInSnoc(l, init, t, r);
      TrailsInCount(l, init, r);
      assert forall i :: 0 <= i < |init| ==> init[i] == ts[i];
      if l[First(t)] == r && TrailsIn(l, init, r) >= 1 {
        var i :| 0 <= i < |init| && l[First(init[i])] == r;
        assert 0 <= i < |ts| - 1 < |ts| && l[First(ts[i])] == r && l[First(ts[|ts| - 1])] == r;
      }
    }
  }

  ghost function TrailCounts(l: seq<nat>, ts: seq<seq<Arc>>): seq<int>
    requires AreTrails(ts)
  {
    seq(|l|, r requires 0 <= r < |l| => TrailsIn(l, ts, r))
  }

  /** Every trail starts in exactly one component. */
  lemma {:induction false} TrailsInTotal(l: seq<nat>, ts: seq<seq<Arc>>)
    requires AreTrails(ts) && StartsInRange(l, ts)
    ensures Sum(TrailCounts(l, ts)) == |ts|
  {
    var a := TrailCounts(l, ts);
    if ts == [] {
      forall r | 0 <= r < |l| ensures a[r] == 0 {
        SumConst(StartTerms(l, ts, r), 0);
      }
      SumConst(a, 0);
    } else {
      var init, t := ts[..|ts| - 1], ts[|ts| - 1];
      assert ts == init + [t];
      var b := TrailCounts(l, init);
      var c := l[First(t)];
      forall r | 0 <= r < |l| ensures a[r] == b[r] + if c == r then 1 else 0 {
        TrailsInSnoc(l, init, t, r);
      }
      assert a == b[c := b[c] + 1];
      SumUpdate(b, c, b[c] + 1);
      TrailsInTotal(l, init);
    }
  }

  lemma PartitionHasArc(ts: seq<seq<Arc>>, arcs: seq<Arc>, e: Arc) returns (k: nat)
    requires IsTrailPartition(ts, arcs) && e in arcs
    ensures k < |ts| && e in ts[k]
  {
    assert e in multiset(arcs);
    AllArcsFlatten(ts);
    assert e in multiset(Flatten(ts));
    FlattenContains(ts, e);
    k :| 0 <= k < |ts| && e in ts[k];
  }

  lemma PartitionArcBelongs(ts: seq<seq<Arc>>, arcs: seq<Arc>, k: nat, i: nat) returns (a: nat)
    requires IsTrailPartition(ts, arcs) && k < |ts| && i < |ts[k]|
    ensures a < |arcs| && arcs[a] == ts[k][i]
  {
    FlattenContains(ts, ts[k][i]);
    AllArcsFlatten(ts);
    assert ts[k][i] in multiset(Flatten(ts));
    assert ts[k][i] in multiset(arcs);
    a :| 0 <= a < |arcs| && arcs[a] == ts[k][i];
  }

  /** A trail never leaves the component it starts in. */
  lemma {:induction false} TrailStaysInComponent(n: nat, arcs: seq<Arc>, ts: seq<seq<Arc>>, k: nat, i: nat)
    requires InRange(n, arcs) && IsTrailPartition(ts, arcs) && k < |ts| && i < |ts[k]|
    ensures ts[k][i].from < n && ts[k][i].to < n
    ensures First(ts[k]) < n && Last(ts[k]) < n
    ensures Labels(n, arcs)[ts[k][i].from] == Labels(n, arcs)[First(ts[k])]
    ensures Labels(n, arcs)[ts[k][i].to] == Labels(n, arcs)[First(ts[k])]
  {
    var a := PartitionArcBelongs(ts, arcs, k, i);
    var first := PartitionArcBelongs(ts, arcs, k, 0);
    var last := PartitionArcBelongs(ts, arcs, k, |ts[k]| - 1);
    LabelsJoinArcs(n, arcs, a);
    if i > 0 {
      TrailStaysInComponent(n, arcs, ts, k, i - 1);
      assert ts[k][i - 1].to == ts[k][i - 1 + 1].from;
    }
  }

  lemma PartitionStartsInRange(n: nat, arcs: seq<Arc>, ts: seq<seq<Arc>>)
    requires InRange(n, arcs) && IsTrailPartition(ts, arcs)
    ensures StartsInRange(Labels(n, arcs), ts)
  {
    LabelsRoots(n, arcs);
    forall i | 0 <= i < |ts| ensures First(ts[i]) < n && Labels(n, arcs)[First(ts[i])] < n {
      TrailStaysInComponent(n, arcs, ts, i, 0);
      assert Labels(n, arcs)[First(ts[i])] <= First(ts[i]);
    }
  }

  lemma GroupIffTrails(n: nat, arcs: seq<Arc>, ts: seq<seq<Arc>>, r: nat)
    requires InRange(n, arcs) && IsTrailPartition(ts, arcs)
    ensures StartsInRange(Labels(n, arcs), ts)
    ensures IsGroup(n, arcs, r) <==> TrailsIn(Labels(n, arcs), ts, r) >= 1
  {
    var l := Labels(n, arcs);
    PartitionStartsInRange(n, arcs, ts);
    TrailsInCount(l, ts, r);
    if IsGroup(n, arcs, r) {
      var i :| 0 <= i < |arcs| && l[arcs[i].from] == r;
      var k := PartitionHasArc(ts, arcs, arcs[i]);
      var j :| 0 <= j < |ts[k]| && ts[k][j] == arcs[i];
      TrailStaysInComponent(n, arcs, ts, k, j);
    }
    if TrailsIn(l, ts, r) >= 1 {
      var k :| 0 <= k < |ts| && l[First(ts[k])] == r;
      var a := PartitionArcBelongs(ts, arcs, k, 0);
      assert l[arcs[a].from] == r;
    }
  }

  lemma PartitionBalance(ts: seq<seq<Arc>>, arcs: seq<Arc>, v: nat)
    requires IsTrailPartition(ts, arcs)
    ensures Balance(arcs, v) == Starts(ts, v) - Ends(ts, v)
  {
    FlowBalance(ts, v);
    AllArcsFlatten(ts);
    DegPermutation(Flatten(ts), arcs, v);
  }

  /** No partition of the arcs into trails has fewer than Tau trails. */
  lemma TrailBound(n: nat, arcs: seq<Arc>, ts: seq<seq<Arc>>)
    requires InRange(n, arcs) && IsTrailPartition(ts, arcs)
    ensures |ts| >= Tau(n, arcs)
  {
    var l := Labels(n, arcs);
    PartitionStartsInRange(n, arcs, ts);
    var b := TrailCounts(l, ts);
    forall r | 0 <= r < n ensures TauTerms(n, arcs)[r] <= b[r] {
      GroupIffTrails(n, arcs, ts, r);
      TrailsInCount(l, ts, r);
      forall v | 0 <= v < n ensures SurplusTerms(n, arcs, r)[v] <= StartTerms(l, ts, r)[v] {
        PartitionBalance(ts, arcs, v);
      }
      SumLe(SurplusTerms(n, arcs, r), StartTerms(l, ts, r));
    }
    SumLe(TauTerms(n, arcs), b);
    TrailsInTotal(l, ts);
  }

  // ---------- Some partition has exactly Tau trails ----------

  /** The vertex a trail stands on before its arc k, or after its last arc. */
  function VertexAt(t: seq<Arc>, k: nat): nat
    requires t != [] && k <= |t|
  {
    if k < |t| then t[k].from else t[k - 1].to
  }

  ghost predicate Joinable(ts: seq<seq<Arc>>, i: nat, j: nat)
    requires AreTrails(ts)
  {
    i < |ts| && j < |ts| && i != j && Last(ts[i]) == First(ts[j])
  }

  /** Trail i is closed and meets trail j. */
  ghost predicate Spliceable(ts: seq<seq<Arc>>, i: nat, a: nat, j: nat, b: nat)
    requires AreTrails(ts)
  {
    && i < |ts| && j < |ts| && i != j
    && Last(ts[i]) == First(ts[i])
    && a < |ts[i]| && b <= |ts[j]| && VertexAt(ts[i], a) == VertexAt(ts[j], b)
  }

  lemma WithoutKeepsTrails(ts: seq<seq<Arc>>, i: nat)
    requires AreTrails(ts) && i < |ts|
    ensures AreTrails(Without(ts, i))
  {
  }

  lemma CancelBag(r: multiset<Arc>, o: multiset<Arc>, x: multiset<Arc>, y: multiset<Arc>)
    requires r + x == o + (x + y)
    ensures r == o + y
  {
    forall e: Arc ensures r[e] == (o + y)[e] {
      assert (r + x)[e] == (o + (x + y))[e];
    }
  }

  /** Replace trails i and j by one trail with the same arcs. */
  lemma ReplacePair(ts: seq<seq<Arc>>, arcs: seq<Arc>, i: nat, j: nat, t: seq<Arc>) returns (r: seq<seq<Arc>>)
    requires IsTrailPartition(ts, arcs) && i < |ts| && j < |ts| && i != j
    requires t != [] && Chain(t) && multiset(t) == multiset(ts[i]) + multiset(ts[j])
    ensures IsTrailPartition(r, arcs) && |r| == |ts| - 1
  {
    var hi, lo := if i < j then j else i, if i < j then i else j;
    var once := Without(ts, hi);
    assert once[lo] == ts[lo];
    AllArcsWithout(ts, hi);
    WithoutKeepsTrails(ts, hi);
    r := ReplaceOne(once, lo, t);
    CancelBag(AllArcs(r), AllArcs(once), multiset(ts[lo]), multiset(ts[hi]));
  }

  lemma ReplaceOne(ts: seq<seq<Arc>>, i: nat, t: seq<Arc>) returns (r: seq<seq<Arc>>)
    requires AreTrails(ts) && i < |ts| && t != [] && Chain(t)
    ensures AreTrails(r) && |r| == |ts|
    ensures AllArcs(r) + multiset(ts[i]) == AllArcs(ts) + multiset(t)
  {
    var rest := Without(ts, i);
    AllArcsWithout(ts, i);
    WithoutKeepsTrails(ts, i);
    r := rest + [t];
    AllArcsSnoc(rest, t);
  }

  lemma Join(ts: seq<seq<Arc>>, arcs: seq<Arc>, i: nat, j: nat) returns (r: seq<seq<Arc>>)
    requires IsTrailPartition(ts, arcs) && Joinable(ts, i, j)
    ensures IsTrailPartition(r, arcs) && |r| == |ts| - 1
  {
    r := ReplacePair(ts, arcs, i, j, ts[i] + ts[j]);
  }

  lemma ChainConcat(a: seq<Arc>, b: seq<Arc>)
    requires Chain(a) && Chain(b)
    requires a != [] && b != [] ==> Last(a) == First(b)
    ensures Chain(a + b)
  {
  }

  lemma ChainSplit(t: seq<Arc>, k: nat) returns (p: seq<Arc>, q: seq<Arc>)
    requires t != [] && Chain(t) && k <= |t|
    ensures Chain(p) && Chain(q) && t == p + q && |p| == k
    ensures p != [] ==> Last(p) == VertexAt(t, k) && First(p) == First(t)
    ensures q != [] ==> First(q) == VertexAt(t, k) && Last(q) == Last(t)
  {
    p, q := t[..k], t[k..];
    if 0 < k < |t| {
      assert t[k - 1].to == t[k - 1 + 1].from;
    }
  }

  lemma BagOfSplice(x1: seq<Arc>, x2: seq<Arc>, y1: seq<Arc>, y2: seq<Arc>)
    ensures multiset(y1 + (x2 + x1) + y2) == multiset(x1 + x2) + multiset(y1 + y2)
  {
    BagOfConcat(y1 + (x2 + x1), y2);
    BagOfConcat(y1, x2 + x1);
    BagOfConcat(x2, x1);
    BagOfConcat(x1, x2);
    BagOfConcat(y1, y2);
  }

  /** y1 up to the meeting vertex, once around the closed trail x1 + x2, then on along y2. */
  lemma SpliceTrails(x1: seq<Arc>, x2: seq<Arc>, y1: seq<Arc>, y2: seq<Arc>) returns (t: seq<Arc>)
    requires Chain(x1) && Chain(x2) && Chain(y1) && Chain(y2) && x2 != []
    requires if x1 == [] then Last(x2) == First(x2) else Last(x1) == First(x2) && Last(x2) == First(x1)
    requires y1 != [] ==> Last(y1) == First(x2)
    requires y2 != [] ==> First(y2) == First(x2)
    ensures t != [] && Chain(t) && multiset(t) == multiset(x1 + x2) + multiset(y1 + y2)
  {
    var loop := x2 + x1;
    ChainConcat(x2, x1);
    assert First(loop) == First(x2) == Last(loop);
    var head := y1 + loop;
    ChainConcat(y1, loop);
    assert Last(head) == First(x2);
    t := head + y2;
    ChainConcat(head, y2);
    BagOfSplice(x1, x2, y1, y2);
  }

  /** Walk j up to the meeting vertex, once around the closed trail i, then on along j. */
  lemma Splice(ts: seq<seq<Arc>>, arcs: seq<Arc>, i: nat, a: nat, j: nat, b: nat) returns (r: seq<seq<Arc>>)
    requires IsTrailPartition(ts, arcs) && Spliceable(ts, i, a, j, b)
    ensures IsTrailPartition(r, arcs) && |r| == |ts| - 1
  {
    var x, y := ts[i], ts[j];
    var x1, x2 := ChainSplit(x, a);
    var y1, y2 := ChainSplit(y, b);
    var t := SpliceTrails(x1, x2, y1, y2);
    r := ReplacePair(ts, arcs, i, j, t);
  }

  /** No two trails can be merged. */
  ghost predicate Irreducible(ts: seq<seq<Arc>>)
    requires AreTrails(ts)
  {
    && (forall i, j :: !Joinable(ts, i, j))
    && (forall i, a, j, b :: !Spliceable(ts, i, a, j, b))
  }

  ghost predicate OnTrail(t: seq<Arc>, v: nat)
    requires t != []
  {
    exists a :: 0 <= a < |t| && VertexAt(t, a) == v
  }

  /** When nothing can be merged, a closed trail owns every arc at each of its vertices, so no path leaves it. */
  lemma {:induction false} ClosedTrailTraps(arcs: seq<Arc>, ts: seq<seq<Arc>>, i: nat, p: seq<nat>)
    requires IsTrailPartition(ts, arcs) && Irreducible(ts)
    requires i < |ts| && Last(ts[i]) == First(ts[i])
    requires IsPath(arcs, p) && OnTrail(ts[i], p[0])
    ensures OnTrail(ts[i], p[|p| - 1])
  {
    if |p| > 1 {
      var q := p[..|p| - 1];
      ClosedTrailTraps(arcs, ts, i, q);
      var u, w := p[|p| - 2], p[|p| - 1];
      assert Adjacent(arcs, u, p[|p| - 2 + 1]);
      var e :| 0 <= e < |arcs| && Joins(arcs[e], u, w);
      var k := PartitionHasArc(ts, arcs, arcs[e]);
      var j :| 0 <= j < |ts[k]| && ts[k][j] == arcs[e];
      assert j + 1 < |ts[k]| ==> ts[k][j].to == ts[k][j + 1].from;
      assert VertexAt(ts[k], j) == arcs[e].from && VertexAt(ts[k], j + 1) == arcs[e].to;
      var a :| 0 <= a < |ts[i]| && VertexAt(ts[i], a) == u;
      if k != i {
        var b := if arcs[e].from == u then j else j + 1;
        assert Spliceable(ts, i, a, k, b);
        assert false;
      }
      var c := if arcs[e].from == w then j else j + 1;
      assert VertexAt(ts[i], c) == w;
      if c == |ts[i]| {
        assert VertexAt(ts[i], 0) == w;
      }
    }
  }

  /** In an irreducible partition a component with two trails holds no closed one. */
  lemma NoClosedTrail(n: nat, arcs: seq<Arc>, ts: seq<seq<Arc>>, i: nat, j: nat)
    requires InRange(n, arcs) && IsTrailPartition(ts, arcs) && Irreducible(ts)
    requires StartsInRange(Labels(n, arcs), ts)
    requires i < |ts| && j < |ts| && i != j
    requires Labels(n, arcs)[First(ts[i])] == Labels(n, arcs)[First(ts[j])]
    ensures Last(ts[i]) != First(ts[i])
  {
    if Last(ts[i]) == First(ts[i]) {
      LabelsAreConnectivity(n, arcs, First(ts[i]), First(ts[j]));
      var p :| IsPath(arcs, p) && p[0] == First(ts[i]) && p[|p| - 1] == First(ts[j]);
      assert VertexAt(ts[i], 0) == p[0];
      ClosedTrailTraps(arcs, ts, i, p);
      var a :| 0 <= a < |ts[i]| && VertexAt(ts[i], a) == First(ts[j]);
      assert VertexAt(ts[j], 0) == First(ts[j]);
      assert Spliceable(ts, i, a, j, 0);
      assert false;
    }
  }

  /** In an irreducible partition every component has exactly its share of Tau. */
  lemma IrreducibleShare(n: nat, arcs: seq<Arc>, ts: seq<seq<Arc>>, r: nat)
    requires InRange(n, arcs) && IsTrailPartition(ts, arcs) && Irreducible(ts) && r < n
    ensures TrailsIn(Labels(n, arcs), ts, r) <= TauTerms(n, arcs)[r]
  {
    var l := Labels(n, arcs);
    GroupIffTrails(n, arcs, ts, r);
    TrailsInCount(l, ts, r);
    if TrailsIn(l, ts, r) >= 2 {
      var x, y :| 0 <= x < y < |ts| && l[First(ts[x])] == r && l[First(ts[y])] == r;
      forall v | 0 <= v < n ensures StartTerms(l, ts, r)[v] <= SurplusTerms(n, arcs, r)[v] {
        PartitionBalance(ts, arcs, v);
        StartsWitness(ts, v);
        if l[v] == r && Starts(ts, v) > 0 && Ends(ts, v) > 0 {
          var i :| 0 <= i < |ts| && First(ts[i]) == v;
          var j :| 0 <= j < |ts| && Last(ts[j]) == v;
          assert !Joinable(ts, j, i);
          NoClosedTrail(n, arcs, ts, i, if i == x then y else x);
          assert false;
        }
      }
      SumLe(StartTerms(l, ts, r), SurplusTerms(n, arcs, r));
    }
  }

  lemma IrreducibleIsMinimal(n: nat, arcs: seq<Arc>, ts: seq<seq<Arc>>)
    requires InRange(n, arcs) && IsTrailPartition(ts, arcs) && Irreducible(ts)
    ensures |ts| == Tau(n, arcs)
  {
    var l := Labels(n, arcs);
    PartitionStartsInRange(n, arcs, ts);
    TrailBound(n, arcs, ts);
    var b := TrailCounts(l, ts);
    forall r | 0 <= r < n ensures b[r] <= TauTerms(n, arcs)[r] {
      IrreducibleShare(n, arcs, ts, r);
    }
    SumLe(b, TauTerms(n, arcs));
    TrailsInTotal(l, ts);
  }

  lemma {:induction false} ReduceToTau(n: nat, arcs: seq<Arc>, ts: seq<seq<Arc>>) returns (r: seq<seq<Arc>>)
    requires InRange(n, arcs) && IsTrailPartition(ts, arcs)
    ensures IsTrailPartition(r, arcs) && |r| == Tau(n, arcs)
    decreases |ts|
  {
    if i, j :| Joinable(ts, i, j) {
      var fewer := Join(ts, arcs, i, j);
      r := ReduceToTau(n, arcs, fewer);
    } else if i, a, j, b :| Spliceable(ts, i, a, j, b) {
      var fewer := Splice(ts, arcs, i, a, j, b);
      r := ReduceToTau(n, arcs, fewer);
    } else {
      IrreducibleIsMinimal(n, arcs, ts);
      r := ts;
    }
  }

  lemma {:induction false} SingletonPartition(arcs: seq<Arc>)
    ensures IsTrailPartition(seq(|arcs|, i requires 0 <= i < |arcs| => [arcs[i]]), arcs)
  {
    var ts := seq(|arcs|, i requires 0 <= i < |arcs| => [arcs[i]]);
    if arcs != [] {
      var init := arcs[..|arcs| - 1];
      SingletonPartition(init);
      assert ts[..|ts| - 1] == seq(|init|, i requires 0 <= i < |init| => [init[i]]);
      assert arcs == init + [arcs[|arcs| - 1]];
    }
  }

  /** Tau is attained: some partition of the arcs into trails has exactly Tau trails. */
  lemma TrailBoundAttained(n: nat, arcs: seq<Arc>) returns (ts: seq<seq<Arc>>)
    requires InRange(n, arcs)
    ensures IsTrailPartition(ts, arcs) && |ts| == Tau(n, arcs)
  {
    SingletonPartition(arcs);
    ts := ReduceToTau(n, arcs, seq(|arcs|, i requires 0 <= i < |arcs| => [arcs[i]]));
  }

  // ---------- The algorithm ----------

  lemma {:induction false} UntouchedBalance(arcs: seq<Arc>, v: nat)
    requires !Touched(arcs, v)
    ensures OutDeg(arcs, v) == 0 && InDeg(arcs, v) == 0
  {
    if arcs != [] {
      var init := arcs[..|arcs| - 1];
      assert forall i :: 0 <= i < |init| ==> init[i] == arcs[i];
      UntouchedBalance(init, v);
    }
  }

  /** Counts out- and in-degrees by one pass over the arcs. */
  method CountDegrees(n: nat, required: seq<Arc>) returns (outDeg: array<int>, inDeg: array<int>)
    requires InRange(n, required)
    ensures fresh(outDeg) && fresh(inDeg) && outDeg.Length == inDeg.Length == n
    ensures forall v :: 0 <= v < n ==> outDeg[v] == OutDeg(required, v) && inDeg[v] == InDeg(required, v)
  {
    outDeg := new int[n](_ => 0);
    inDeg := new int[n](_ => 0);
    for k := 0 to |required|
      invariant outDeg != inDeg && outDeg.Length == inDeg.Length == n
      invariant fresh(outDeg) && fresh(inDeg)
      invariant forall v :: 0 <= v < n ==> outDeg[v] == OutDeg(required[..k], v)
      invariant forall v :: 0 <= v < n ==> inDeg[v] == InDeg(required[..k], v)
    {
      var e := required[k];
      assert required[..k + 1][..k] == required[..k];
      outDeg[e.from] := outDeg[e.from] + 1;
      inDeg[e.to] := inDeg[e.to] + 1;
    }
    assert required[..|required|] == required;
  }

  /** One zero surplus per component that holds an arc. */
  method InitGroups(n: nat, required: seq<Arc>, comp: seq<int>) returns (groups: map<int, int>)
    requires InRange(n, required) && |comp| == n
    requires forall v :: 0 <= v < n ==>
      comp[v] == if Touched(required, v) then Labels(n, required)[v] else -1
    ensures forall r :: r in groups <==> 0 <= r < n && IsGroup(n, required, r)
    ensures forall r :: r in groups ==> groups[r] == 0
  {
    groups := map[];
    LabelsRoots(n, required);
    ghost var l := Labels(n, required);
    for k := 0 to |required|
      invariant forall r :: r in groups <==> exists i :: 0 <= i < k && l[required[i].from] == r
      invariant forall r :: r in groups ==> groups[r] == 0 && 0 <= r < n
    {
      var c := comp[required[k].from];
      assert Touched(required, required[k].from);
      assert c == l[required[k].from] <= required[k].from;
      if c !in groups {
        groups := groups[c := 0];
      }
    }
  }

  /** The source computes Tau: per component the surplus, at least one, summed over the components. */
  method MinimumTrailCount(n: nat, required: seq<Arc>) returns (tau: int)
    requires InRange(n, required)
    ensures tau == Tau(n, required)
  {
    if |required| == 0 {
      SumConst(TauTerms(n, required), 0);
      return 0;
    }
    var outDeg, inDeg := CountDegrees(n, required);
    var comp := WeakComponents(n, required);
    var groups := InitGroups(n, required, comp);
    groups := AddSurpluses(n, required, comp, outDeg, inDeg, groups);
    tau := SumGroups(n, required, groups);
  }

  /** The surplus of the vertices below v in the component labelled r. */
  function SurplusBelow(n: nat, required: seq<Arc>, r: nat, v: nat): int
    requires InRange(n, required) && v <= n
  {
    Sum(SurplusTerms(n, required, r)[..v])
  }

  lemma SurplusStep(n: nat, required: seq<Arc>, r: nat, v: nat)
    requires InRange(n, required) && v < n
    ensures SurplusBelow(n, required, r, v + 1) ==
      SurplusBelow(n, required, r, v) + if Labels(n, required)[v] == r then Positive(Balance(required, v)) else 0
  {
    SumPrefix(SurplusTerms(n, required, r), v);
  }

  /** Every group holds the surplus of its vertices below v. */
  ghost predicate HoldSurpluses(n: nat, required: seq<Arc>, groups: map<int, int>, v: nat)
    requires InRange(n, required) && v <= n
  {
    forall r :: r in groups ==> r >= 0 && groups[r] == SurplusBelow(n, required, r, v)
  }

  method AddSurplus(n: nat, required: seq<Arc>, c: int, bal: int, groups0: map<int, int>, ghost v: nat)
    returns (groups: map<int, int>)
    requires InRange(n, required) && v < n && HoldSurpluses(n, required, groups0, v)
    requires c == (if Touched(required, v) then Labels(n, required)[v] else -1) && bal == Balance(required, v)
    ensures groups.Keys == groups0.Keys && HoldSurpluses(n, required, groups, v + 1)
  {
    hide SurplusBelow, Labels, Touched, Balance;
    groups := groups0;
    forall r: nat
      ensures SurplusBelow(n, required, r, v + 1) ==
        SurplusBelow(n, required, r, v) + if Labels(n, required)[v] == r then Positive(Balance(required, v)) else 0
    {
      SurplusStep(n, required, r, v);
    }
    if c < 0 {
      UntouchedIsBalanced(required, v);
      return;
    }
    if c !in groups {
      return;
    }
    if bal > 0 {
      groups := groups[c := groups[c] + bal];
    }
  }

  lemma UntouchedIsBalanced(arcs: seq<Arc>, v: nat)
    requires !Touched(arcs, v)
    ensures Balance(arcs, v) == 0
  {
    UntouchedBalance(arcs, v);
  }

  method AddSurpluses(n: nat, required: seq<Arc>, comp: seq<int>, outDeg: array<int>, inDeg: array<int>,
                      groups0: map<int, int>)
    returns (groups: map<int, int>)
    requires InRange(n, required) && |comp| == outDeg.Length == inDeg.Length == n
    requires forall v :: 0 <= v < n ==>
      comp[v] == if Touched(required, v) then Labels(n, required)[v] else -1
    requires forall v :: 0 <= v < n ==> outDeg[v] == OutDeg(required, v) && inDeg[v] == InDeg(required, v)
    requires forall r :: r in groups0 ==> r >= 0 && groups0[r] == 0
    ensures groups.Keys == groups0.Keys
    ensures forall r :: r in groups ==> r >= 0 && groups[r] == Surplus(n, required, r)
  {
    groups := groups0;
    for v := 0 to n
      invariant groups.Keys == groups0.Keys && HoldSurpluses(n, required, groups, v)
    {
      groups := AddSurplus(n, required, comp[v], outDeg[v] - inDeg[v], groups, v);
    }
    forall r | r in groups ensures groups[r] == Surplus(n, required, r) {
      assert SurplusTerms(n, required, r)[..n] == SurplusTerms(n, required, r);
    }
  }

  method SumGroups(n: nat, required: seq<Arc>, groups: map<int, int>) returns (tau: int)
    requires InRange(n, required)
    requires forall r :: r in groups <==> 0 <= r < n && IsGroup(n, required, r)
    requires forall r :: r in groups ==> groups[r] == Surplus(n, required, r)
    ensures tau == Tau(n, required)
  {
    hide IsGroup, Surplus, Sum;
    tau := 0;
    ghost var terms := TauTerms(n, required);
    assert Sum(terms[..0]) == 0 by { SumConst(terms[..0], 0); }
    for r := 0 to n
      invariant tau == Sum(terms[..r])
    {
      SumPrefix(terms, r);
      if r in groups {
        var t := groups[r];
        if t < 1 {
          t := 1;
        }
        tau := tau + t;
      }
    }
    assert terms[..n] == terms;
  }
}
