/** The values the arc-cover planner works on (internal/arccover/types.go). */
module ArcTypes {

  datatype Arc = Arc(id: nat, from: nat, to: nat)

  datatype LegKind = LegRequired | LegBridge

  /** `edgeId` means something only on a LegRequired leg; bridges carry 0. */
  datatype Leg = Leg(from: nat, to: nat, kind: LegKind, edgeId: nat)

  datatype Route = Route(legs: seq<Leg>)

  datatype Fragment = Fragment(edges: seq<Arc>, id: int) {
    function Start(): nat requires edges != [] { edges[0].from }
    function End(): nat requires edges != [] { edges[|edges| - 1].to }
    function Len(): nat { |edges| }
  }

  /** Quality and cost of a plan; the wall-clock fields are left out. */
  datatype PlanStats = PlanStats(requiredEdges: int, providerCalls: int, bridgeEdges: int, duplicateRequiredEdges: int,
                                 singlePairFallbacks: int, lowerBound: int, optimalityGap: real, optimal: bool,
                                 cancelled: bool, branch: string)

  const NO_STATS := PlanStats(0, 0, 0, 0, 0, 0, 0.0, false, false, "")

  datatype Plan = Plan(routes: seq<Route>, stats: PlanStats)

  /** Every endpoint is a vertex of a graph with `n` vertices. */
  predicate InRange(n: nat, arcs: seq<Arc>) {
    forall i :: 0 <= i < |arcs| ==> arcs[i].from < n && arcs[i].to < n
  }

  /** Consecutive arcs meet: the arcs form one directed trail. */
  predicate Chain(arcs: seq<Arc>) {
    forall i :: 0 <= i < |arcs| - 1 ==> arcs[i].to == arcs[i + 1].from
  }

  /** A route is one walk: every leg starts where its predecessor ended. */
  predicate Continuous(legs: seq<Leg>) {
    forall i :: 0 < i < |legs| ==> legs[i - 1].to == legs[i].from
  }

  ghost predicate LegsWithin(legs: seq<Leg>, n: nat) {
    forall i :: 0 <= i < |legs| ==> legs[i].from < n && legs[i].to < n
  }

  /** Every leg runs between vertices of a graph with `n` vertices. */
  ghost predicate AllWithin(routes: seq<Route>, n: nat) {
    forall r :: 0 <= r < |routes| ==> LegsWithin(routes[r].legs, n)
  }

  /** The trails as fragments with ascending ids. */
  function NumberedFrom(trails: seq<seq<Arc>>, id0: int): seq<Fragment> {
    seq(|trails|, i requires 0 <= i < |trails| => Fragment(trails[i], id0 + i))
  }

  function Numbered(trails: seq<seq<Arc>>): seq<Fragment> { NumberedFrom(trails, 0) }

  function Flatten<T>(ss: seq<seq<T>>): seq<T> {
    if ss == [] then [] else Flatten(ss[..|ss| - 1]) + ss[|ss| - 1]
  }

  lemma FlattenSnoc<T>(ss: seq<seq<T>>, s: seq<T>)
    ensures Flatten(ss + [s]) == Flatten(ss) + s
  {
    assert (ss + [s])[..|ss|] == ss;
  }

  lemma {:induction false} FlattenConcat<T>(a: seq<seq<T>>, b: seq<seq<T>>)
    ensures Flatten(a + b) == Flatten(a) + Flatten(b)
  {
    if b == [] {
      assert a + b == a;
    } else {
      FlattenConcat(a, b[..|b| - 1]);
      assert (a + b)[..|a + b| - 1] == a + b[..|b| - 1];
    }
  }

  lemma {:induction false} FlattenContains<T>(ss: seq<seq<T>>, x: T)
    ensures x in Flatten(ss) <==> exists i :: 0 <= i < |ss| && x in ss[i]
  {
    if ss != [] {
      FlattenContains(ss[..|ss| - 1], x);
      assert forall i :: 0 <= i < |ss| - 1 ==> ss[..|ss| - 1][i] == ss[i];
      if x in ss[|ss| - 1] {
        assert exists i :: 0 <= i < |ss| && x in ss[i];
      }
    }
  }

  // ---------- Sequences as bags ----------

  function Without<T>(s: seq<T>, i: nat): seq<T>
    requires i < |s|
  {
    s[..i] + s[i + 1..]
  }

  lemma BagOfConcat<T>(a: seq<T>, b: seq<T>)
    ensures multiset(a + b) == multiset(a) + multiset(b)
  {
  }

  lemma BagWithout<T>(a: seq<T>, j: nat)
    requires j < |a|
    ensures multiset(Without(a, j)) == multiset(a) - multiset{a[j]}
  {
    assert a == a[..j] + [a[j]] + a[j + 1..];
  }

  /** Take the first element of `a` out of an equal bag. */
  lemma MatchFirst<T>(a: seq<T>, b: seq<T>) returns (j: nat)
    requires multiset(a) == multiset(b) && a != []
    ensures j < |b| && b[j] == a[0] && multiset(Without(a, 0)) == multiset(Without(b, j))
  {
    assert a[0] in multiset(b);
    j :| 0 <= j < |b| && b[j] == a[0];
    BagWithout(a, 0);
    BagWithout(b, j);
  }

  /** The arcs of all lists together. */
  ghost function AllArcs(ts: seq<seq<Arc>>): multiset<Arc> {
    if ts == [] then multiset{} else AllArcs(ts[..|ts| - 1]) + multiset(ts[|ts| - 1])
  }

  lemma AllArcsSnoc(ts: seq<seq<Arc>>, t: seq<Arc>)
    ensures AllArcs(ts + [t]) == AllArcs(ts) + multiset(t)
  {
    assert (ts + [t])[..|ts|] == ts;
  }

  lemma {:induction false} AllArcsConcat(a: seq<seq<Arc>>, b: seq<seq<Arc>>)
    ensures AllArcs(a + b) == AllArcs(a) + AllArcs(b)
  {
    if b == [] {
      assert a + b == a;
    } else {
      AllArcsConcat(a, b[..|b| - 1]);
      assert (a + b)[..|a + b| - 1] == a + b[..|b| - 1];
    }
  }

  lemma {:induction false} AllArcsFlatten(ts: seq<seq<Arc>>)
    ensures AllArcs(ts) == multiset(Flatten(ts))
  {
    if ts != [] {
      AllArcsFlatten(ts[..|ts| - 1]);
      BagOfConcat(Flatten(ts[..|ts| - 1]), ts[|ts| - 1]);
    }
  }

  lemma AllArcsWithout(ts: seq<seq<Arc>>, i: nat)
    requires i < |ts|
    ensures AllArcs(ts) == AllArcs(Without(ts, i)) + multiset(ts[i])
  {
    hide AllArcs;
    AllArcsConcat(ts[..i + 1], ts[i + 1..]);
    AllArcsSnoc(ts[..i], ts[i]);
    AllArcsConcat(ts[..i], ts[i + 1..]);
    assert ts[..i + 1] == ts[..i] + [ts[i]] && ts == ts[..i + 1] + ts[i + 1..];
  }
}
