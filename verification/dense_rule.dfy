/**
 * Growing required-only fragments (DenseRouteFirst in internal/arccover/dense.go), on values.
 *
 * `Grow` extends one fragment arc by arc; `GrowAll` pops a start and grows a fragment until no arc is left
 * or the context is cancelled.  Proved here: every arc goes into exactly one fragment whatever the cancellation
 * point, and what each fragment does to the surplus of the remaining graph.
 */
module DenseRule {
  import opened ArcTypes
  import opened GraphRule
  import opened HeapRule
  import opened Sums
  import Trails

  datatype Growth = Growth(g: Graph, edges: seq<Arc>, stop: nat)

  /** Extend a fragment that stands on `current` by at most `budget` arcs. */
  function Grow(g: Graph, current: nat, budget: nat, window: int): Growth
    decreases budget
  {
    var c := SelectNext(g, current, window);
    if budget == 0 || c.NoArc? then Growth(g, [], current)
    else
      var e := ArcAt(g, c.id);
      var rest := Grow(RemoveArc(g, c.id), e.to, budget - 1, window);
      rest.(edges := [e] + rest.edges)
  }

  // ---------- One fragment ----------

  /** The first arc of a fragment, as an abstract step. */
  lemma GrowStep(g: Graph, current: nat, budget: nat, window: int) returns (id: nat, next: Graph)
    requires Consistent(g) && current < g.n && budget > 0 && OutList(g, current) != []
    ensures SelectNext(g, current, window) == Take(id)
    ensures Alive(g, id) && g.edges[id].from == current && g.edges[id].to < g.n
    ensures next == RemoveArc(g, id) && Consistent(next) && next.remaining == g.remaining - 1
    ensures next.n == g.n && next.edges == g.edges && next.alive == g.alive[id := false]
    ensures var rest := Grow(next, g.edges[id].to, budget - 1, window);
      Grow(g, current, budget, window) == rest.(edges := [g.edges[id]] + rest.edges)
  {
    assert OutListOk(g, current);
    id := SelectNext(g, current, window).id;
    RemoveKeepsConsistent(g, id);
    next := RemoveArc(g, id);
  }

  /** A fragment leaves a consistent graph and counts what it took. */
  lemma {:induction false} GrowCounts(g: Graph, current: nat, budget: nat, window: int)
    requires Consistent(g) && current < g.n
    ensures var r := Grow(g, current, budget, window);
      && Consistent(r.g) && r.g.n == g.n && r.g.edges == g.edges && r.stop < g.n
      && |r.edges| <= budget && r.g.remaining + |r.edges| == g.remaining
    decreases budget
  {
    hide SelectNext, RemoveArc;
    if budget > 0 && OutList(g, current) != [] {
      var id, next := GrowStep(g, current, budget, window);
      GrowCounts(next, g.edges[id].to, budget - 1, window);
    }
  }

  /** A fragment is a trail from its start; it stops short only where no arc leaves. */
  lemma {:induction false} GrowTrail(g: Graph, current: nat, budget: nat, window: int)
    requires Consistent(g) && current < g.n
    ensures var r := Grow(g, current, budget, window);
      && Chain(r.edges)
      && (if r.edges == [] then r.stop == current
          else r.edges[0].from == current && r.edges[|r.edges| - 1].to == r.stop)
      && (r.edges == [] <==> budget == 0 || OutList(g, current) == [])
      && (|r.edges| < budget ==> OutList(r.g, r.stop) == [])
    decreases budget
  {
    hide SelectNext, RemoveArc;
    if budget > 0 && OutList(g, current) != [] {
      var id, next := GrowStep(g, current, budget, window);
      GrowTrail(next, g.edges[id].to, budget - 1, window);
      Trails.ChainConcat([g.edges[id]], Grow(next, g.edges[id].to, budget - 1, window).edges);
    }
  }

  /** e is the arc to take from u: at a place below the window, or below 8, its head leading every head listed there. */
  ghost predicate IsNext(g: Graph, u: nat, window: int, e: Arc)
    requires |g.edges| == |g.alive|
  {
    exists p :: 0 <= p < |OutList(g, u)| && (p < if window > 0 then window else 8)
      && ArcAt(g, OutList(g, u)[p]) == e
      && forall j :: 0 <= j < |OutList(g, u)| && (j < if window > 0 then window else 8) ==>
           Leads(Left(g), e.to, ArcAt(g, OutList(g, u)[j]).to)
  }

  /** Each arc is the one to take where the fragment stands, the arcs before it being gone. */
  ghost predicate Greedy(g: Graph, u: nat, window: int, edges: seq<Arc>)
    decreases edges
  {
    edges == [] || (
      && |g.edges| == |g.alive| && IsNext(g, u, window, edges[0])
      && Greedy(RemoveArc(g, edges[0].id), edges[0].to, window, edges[1..]))
  }

  /** A fragment is grown greedily from its start. */
  lemma {:induction false} GrowIsGreedy(g: Graph, current: nat, budget: nat, window: int)
    requires Consistent(g) && current < g.n
    ensures Greedy(g, current, window, Grow(g, current, budget, window).edges)
    decreases budget
  {
    hide SelectNext, RemoveArc, Left, Leads, Grow;
    if budget > 0 && OutList(g, current) != [] {
      var id, next := GrowStep(g, current, budget, window);
      var p := NextIsBest(g, current, window);
      var e := g.edges[id];
      assert ArcAt(g, OutList(g, current)[p]) == e && e.id == id;
      assert IsNext(g, current, window, e);
      hide IsNext, Consistent;
      GrowIsGreedy(next, e.to, budget - 1, window);
      var rest := Grow(next, e.to, budget - 1, window).edges;
      assert ([e] + rest)[1..] == rest;
    } else {
      GrowEnds(g, current, budget, window);
    }
  }

  lemma ConsCount(e: Arc, rest: seq<Arc>, x: Arc)
    ensures multiset([e] + rest)[x] == multiset(rest)[x] + if e == x then 1 else 0
  {
  }

  lemma GrowEnds(g: Graph, current: nat, budget: nat, window: int)
    requires budget == 0 || OutList(g, current) == []
    ensures Grow(g, current, budget, window) == Growth(g, [], current)
  {
  }

  /** Taking one arc takes one copy of it out of the bag. */
  lemma LeftStep(g: Graph, id: nat, x: Arc)
    requires Consistent(g) && Alive(g, id)
    ensures |g.edges| == |g.alive| == |RemoveArc(g, id).edges| == |RemoveArc(g, id).alive|
    ensures multiset(Left(g))[x] == multiset(Left(RemoveArc(g, id)))[x] + if g.edges[id] == x then 1 else 0
  {
    hide AliveArcs;
    LeftBagAfterRemove(g.edges, g.alive, id, x);
  }

  /** The arcs of the fragment are exactly those that left the graph. */
  lemma {:induction false} GrowBag(g: Graph, current: nat, budget: nat, window: int, x: Arc)
    requires Consistent(g) && current < g.n
    ensures var r := Grow(g, current, budget, window);
      && |r.g.edges| == |r.g.alive|
      && multiset(Left(g))[x] == multiset(Left(r.g))[x] + multiset(r.edges)[x]
    decreases budget
  {
    hide SelectNext, RemoveArc, Left, Grow;
    if budget > 0 && OutList(g, current) != [] {
      var id, next := GrowStep(g, current, budget, window);
      hide Consistent;
      GrowBag(next, g.edges[id].to, budget - 1, window, x);
      LeftStep(g, id, x);
      ConsCount(g.edges[id], Grow(next, g.edges[id].to, budget - 1, window).edges, x);
    } else {
      GrowEnds(g, current, budget, window);
    }
  }

  /** Balance moves only at the two ends of the fragment. */
  lemma {:induction false} GrowBalance(g: Graph, current: nat, budget: nat, window: int, v: nat)
    requires Consistent(g) && current < g.n
    ensures var r := Grow(g, current, budget, window);
      && |r.g.edges| == |r.g.alive|
      && Trails.Balance(Left(g), v) ==
        Trails.Balance(Left(r.g), v) + (if v == current then 1 else 0) - (if v == r.stop then 1 else 0)
    decreases budget
  {
    hide SelectNext, RemoveArc;
    if budget > 0 && OutList(g, current) != [] {
      var id, next := GrowStep(g, current, budget, window);
      GrowBalance(next, g.edges[id].to, budget - 1, window, v);
      LeftAfterRemove(g.edges, g.alive, id, v);
    }
  }

  // ---------- What a fragment does to the surplus ----------

  function Surpluses(n: nat, arcs: seq<Arc>): seq<int> {
    seq(n, v requires 0 <= v < n => Trails.Positive(Trails.Balance(arcs, v)))
  }

  /** Total positive out-minus-in balance. */
  function TotalSurplus(n: nat, arcs: seq<Arc>): int { Sum(Surpluses(n, arcs)) }

  lemma StuckMeansNoOut(g: Graph, v: nat)
    requires Consistent(g) && v < g.n && OutList(g, v) == []
    ensures Trails.Balance(Left(g), v) <= 0
  {
    assert DegreesOk(g, v);
  }

  /** From a start with positive balance, a fragment that stops short of the limit ends at another vertex and
      lowers the total surplus by exactly one. */
  lemma ShortFragmentLowersSurplus(g: Graph, start: nat, maxLegs: nat, window: int)
    requires Consistent(g) && start < g.n && Trails.Balance(Left(g), start) > 0
    requires |Grow(g, start, maxLegs, window).edges| < maxLegs
    ensures var r := Grow(g, start, maxLegs, window);
      && |r.g.edges| == |r.g.alive|
      && r.stop != start
      && TotalSurplus(g.n, Left(r.g)) == TotalSurplus(g.n, Left(g)) - 1
  {
    var r := Grow(g, start, maxLegs, window);
    GrowCounts(g, start, maxLegs, window);
    GrowTrail(g, start, maxLegs, window);
    StuckMeansNoOut(r.g, r.stop);
    GrowBalance(g, start, maxLegs, window, start);
    var before, after := Surpluses(g.n, Left(g)), Surpluses(g.n, Left(r.g));
    forall v | 0 <= v < g.n ensures after[v] == if v == start then before[v] - 1 else before[v] {
      GrowBalance(g, start, maxLegs, window, v);
    }
    assert after == before[start := before[start] - 1];
    SumUpdate(before, start, before[start] - 1);
  }

  /** From a start with no surplus, a fragment that stops short raises no surplus. */
  lemma ShortFragmentKeepsSurplus(g: Graph, start: nat, maxLegs: nat, window: int)
    requires Consistent(g) && start < g.n && Trails.Balance(Left(g), start) <= 0
    requires |Grow(g, start, maxLegs, window).edges| < maxLegs
    ensures var r := Grow(g, start, maxLegs, window);
      |r.g.edges| == |r.g.alive| && TotalSurplus(g.n, Left(r.g)) == TotalSurplus(g.n, Left(g))
  {
    var r := Grow(g, start, maxLegs, window);
    GrowCounts(g, start, maxLegs, window);
    GrowTrail(g, start, maxLegs, window);
    StuckMeansNoOut(r.g, r.stop);
    forall v | 0 <= v < g.n ensures Surpluses(g.n, Left(r.g))[v] == Surpluses(g.n, Left(g))[v] {
      GrowBalance(g, start, maxLegs, window, v);
    }
    assert Surpluses(g.n, Left(r.g)) == Surpluses(g.n, Left(g));
  }

  /** From a fully balanced graph, a fragment that stops short is a closed trail. */
  lemma ShortFragmentCloses(g: Graph, start: nat, maxLegs: nat, window: int)
    requires Consistent(g) && start < g.n
    requires forall v :: 0 <= v < g.n ==> Trails.Balance(Left(g), v) == 0
    requires |Grow(g, start, maxLegs, window).edges| < maxLegs
    ensures Grow(g, start, maxLegs, window).stop == start
  {
    var r := Grow(g, start, maxLegs, window);
    GrowCounts(g, start, maxLegs, window);
    GrowTrail(g, start, maxLegs, window);
    StuckMeansNoOut(r.g, r.stop);
    GrowBalance(g, start, maxLegs, window, r.stop);
  }

  // ---------- The heap follows the graph ----------

  /** After an arc was removed, both its ends are updated. */
  function StepHeap(g: Graph, h: Heap, e: Arc): Heap { Update(g, Update(g, h, e.from), e.to) }

  /** The heap after the arcs of a fragment were taken one by one. */
  function HeapAfter(g: Graph, h: Heap, edges: seq<Arc>): Heap
    decreases edges
  {
    if edges == [] then h
    else
      var next := RemoveArc(g, edges[0].id);
      HeapAfter(next, StepHeap(next, h, edges[0]), edges[1..])
  }

  /** Every vertex but perhaps v is active exactly if it has outgoing arcs. */
  ghost predicate TracksBut(g: Graph, h: Heap, v: nat) {
    && Mutual(h) && |h.active| == g.n
    && forall u :: 0 <= u < g.n && u != v ==> (h.active[u] <==> OutAt(g, u) > 0)
  }

  lemma StepTracks(g: Graph, h: Heap, id: nat)
    requires Consistent(g) && Alive(g, id) && TracksBut(g, h, g.edges[id].from)
    ensures Tracks(RemoveArc(g, id), StepHeap(RemoveArc(g, id), h, g.edges[id]))
  {
    var next, e := RemoveArc(g, id), g.edges[id];
    UpdateMutual(next, h, e.from);
    UpdateMutual(next, Update(next, h, e.from), e.to);
  }

  lemma TracksIsTracksBut(g: Graph, h: Heap, v: nat)
    ensures Tracks(g, h) ==> TracksBut(g, h, v)
  {
  }

  lemma HeapAfterStep(g: Graph, h: Heap, current: nat, budget: nat, window: int)
    returns (id: nat, next: Graph, heap: Heap)
    requires Consistent(g) && current < g.n && budget > 0 && OutList(g, current) != []
    requires TracksBut(g, h, current)
    ensures Alive(g, id) && g.edges[id].to < g.n && Consistent(next) && next.n == g.n && Tracks(next, heap)
    ensures Grow(g, current, budget, window).g == Grow(next, g.edges[id].to, budget - 1, window).g
    ensures HeapAfter(g, h, Grow(g, current, budget, window).edges) ==
      HeapAfter(next, heap, Grow(next, g.edges[id].to, budget - 1, window).edges)
  {
    id, next := GrowStep(g, current, budget, window);
    StepTracks(g, h, id);
    heap := StepHeap(next, h, g.edges[id]);
    var rest := Grow(next, g.edges[id].to, budget - 1, window).edges;
    assert ([g.edges[id]] + rest)[1..] == rest;
  }

  /** After a fragment the heap holds exactly the vertices with outgoing arcs. */
  lemma {:induction false} GrowTracks(g: Graph, h: Heap, current: nat, budget: nat, window: int)
    requires Consistent(g) && current < g.n
    requires Tracks(g, h) || (TracksBut(g, h, current) && budget > 0 && OutList(g, current) != [])
    ensures var r := Grow(g, current, budget, window); Tracks(r.g, HeapAfter(g, h, r.edges))
    decreases budget
  {
    hide StepHeap, SelectNext, Grow, Consistent;
    if budget > 0 && OutList(g, current) != [] {
      TracksIsTracksBut(g, h, current);
      hide Tracks, TracksBut;
      var id, next, heap := HeapAfterStep(g, h, current, budget, window);
      GrowTracks(next, heap, g.edges[id].to, budget - 1, window);
    } else {
      GrowEnds(g, current, budget, window);
    }
  }

  // ---------- All fragments ----------

  datatype Grown = Grown(g: Graph, fragments: seq<seq<Arc>>)

  /** The popped start can be grown from. */
  lemma StartGrows(g: Graph, h: Heap, maxLegs: nat, window: int)
    requires Consistent(g) && Tracks(g, h) && maxLegs > 0 && Pop(g, h).best >= 0
    ensures Pop(g, h).best < g.n
    ensures var r := Grow(g, Pop(g, h).best, maxLegs, window);
      && Consistent(r.g) && r.g.n == g.n && r.g.edges == g.edges && r.g.remaining < g.remaining
      && Tracks(r.g, HeapAfter(g, Pop(g, h).heap, r.edges))
      && r.edges != [] && Chain(r.edges) && |r.edges| <= maxLegs
  {
    var p := Pop(g, h);
    PopTracked(g, h);
    assert DegreesOk(g, p.best);
    GrowCounts(g, p.best, maxLegs, window);
    GrowTrail(g, p.best, maxLegs, window);
    GrowTracks(g, p.heap, p.best, maxLegs, window);
  }

  /** Grow fragments until no arc is left or check number k finds the context cancelled. */
  function GrowAll(g: Graph, h: Heap, cancelled: nat -> bool, k: nat, maxLegs: nat, window: int): Grown
    requires Consistent(g) && Tracks(g, h) && maxLegs > 0
    decreases g.remaining
  {
    if g.remaining <= 0 || cancelled(k) then Grown(g, [])
    else
      var p := Pop(g, h);
      if p.best < 0 then Grown(g, [])
      else
        StartGrows(g, h, maxLegs, window);
        var r := Grow(g, p.best, maxLegs, window);
        var rest := GrowAll(r.g, HeapAfter(g, p.heap, r.edges), cancelled, k + 1, maxLegs, window);
        rest.(fragments := [r.edges] + rest.fragments)
  }

  /** One round of GrowAll, as an abstract step. */
  lemma GrowAllStep(g: Graph, h: Heap, cancelled: nat -> bool, k: nat, maxLegs: nat, window: int)
    returns (next: Graph, heap: Heap, edges: seq<Arc>)
    requires Consistent(g) && Tracks(g, h) && maxLegs > 0
    requires g.remaining > 0 && !cancelled(k) && Pop(g, h).best >= 0
    ensures Consistent(next) && next.n == g.n && next.edges == g.edges && Tracks(next, heap)
    ensures next.remaining < g.remaining
    ensures edges != [] && Chain(edges) && |edges| <= maxLegs
    ensures forall x: Arc :: multiset(Left(g))[x] == multiset(Left(next))[x] + multiset(edges)[x]
    ensures var rest := GrowAll(next, heap, cancelled, k + 1, maxLegs, window);
      GrowAll(g, h, cancelled, k, maxLegs, window) == rest.(fragments := [edges] + rest.fragments)
  {
    var p := Pop(g, h);
    StartGrows(g, h, maxLegs, window);
    var r := Grow(g, p.best, maxLegs, window);
    next, heap, edges := r.g, HeapAfter(g, p.heap, r.edges), r.edges;
    forall x: Arc ensures multiset(Left(g))[x] == multiset(Left(next))[x] + multiset(edges)[x] {
      GrowBag(g, p.best, maxLegs, window, x);
    }
  }

  ghost predicate GoodTrails(fragments: seq<seq<Arc>>, maxLegs: nat) {
    forall i :: 0 <= i < |fragments| ==>
      fragments[i] != [] && Chain(fragments[i]) && |fragments[i]| <= maxLegs
  }

  /** Every grown fragment is a trail within the limit. */
  lemma {:induction false} GrowAllGood(g: Graph, h: Heap, cancelled: nat -> bool, k: nat, maxLegs: nat, window: int)
    requires Consistent(g) && Tracks(g, h) && maxLegs > 0
    ensures var r := GrowAll(g, h, cancelled, k, maxLegs, window);
      Consistent(r.g) && r.g.edges == g.edges && GoodTrails(r.fragments, maxLegs)
    decreases g.remaining
  {
    hide Pop, Grow, HeapAfter;
    if g.remaining > 0 && !cancelled(k) && Pop(g, h).best >= 0 {
      var next, heap, edges := GrowAllStep(g, h, cancelled, k, maxLegs, window);
      GrowAllGood(next, heap, cancelled, k + 1, maxLegs, window);
    }
  }

  /** Arcs per fragment plus arcs left are the arcs there were. */
  lemma {:induction false} GrowAllSound(g: Graph, h: Heap, cancelled: nat -> bool, k: nat, maxLegs: nat, window: int, x: Arc)
    requires Consistent(g) && Tracks(g, h) && maxLegs > 0
    ensures var r := GrowAll(g, h, cancelled, k, maxLegs, window);
      && |r.g.edges| == |r.g.alive|
      && multiset(Left(g))[x] == multiset(Left(r.g))[x] + AllArcs(r.fragments)[x]
    decreases g.remaining
  {
    hide Pop, Grow, HeapAfter;
    if g.remaining > 0 && !cancelled(k) && Pop(g, h).best >= 0 {
      var next, heap, edges := GrowAllStep(g, h, cancelled, k, maxLegs, window);
      GrowAllSound(next, heap, cancelled, k + 1, maxLegs, window, x);
      AllArcsCons(edges, GrowAll(next, heap, cancelled, k + 1, maxLegs, window).fragments);
    }
  }

  lemma AllArcsCons(t: seq<Arc>, ts: seq<seq<Arc>>)
    ensures AllArcs([t] + ts) == multiset(t) + AllArcs(ts)
  {
    AllArcsConcat([t], ts);
    assert [t][..0] == [];
  }

  /** Uncancelled, the growth loop alone consumes every arc. */
  lemma {:induction false} GrowAllConsumes(g: Graph, h: Heap, cancelled: nat -> bool, k: nat, maxLegs: nat, window: int)
    requires Consistent(g) && Tracks(g, h) && maxLegs > 0
    requires forall j :: j >= k ==> !cancelled(j)
    ensures var r := GrowAll(g, h, cancelled, k, maxLegs, window).g;
      |r.edges| == |r.alive| && Left(r) == []
    decreases g.remaining
  {
    if g.remaining > 0 {
      PopTracked(g, h);
      if Pop(g, h).best < 0 {
        NoOutNoArcs(g);
        assert false;
      }
      var next, heap, edges := GrowAllStep(g, h, cancelled, k, maxLegs, window);
      GrowAllConsumes(next, heap, cancelled, k + 1, maxLegs, window);
    }
  }

  lemma NoOutNoArcs(g: Graph)
    requires Consistent(g) && forall v :: 0 <= v < g.n ==> OutAt(g, v) <= 0
    ensures g.remaining == 0
  {
    forall i | 0 <= i < |g.alive| ensures !g.alive[i] {
      var u := g.edges[i].from;
      assert OutListOk(g, u) && DegreesOk(g, u);
      assert OutAt(g, u) <= 0;
    }
    LeftNone(g.edges, g.alive);
  }

  // ---------- All trails ----------

  function Singles(arcs: seq<Arc>): seq<seq<Arc>> {
    seq(|arcs|, i requires 0 <= i < |arcs| => [arcs[i]])
  }

  /** The grown fragments, then one fragment per arc a cancellation left over. */
  function DenseTrails(g: Graph, h: Heap, cancelled: nat -> bool, maxLegs: nat, window: int): seq<seq<Arc>>
    requires Consistent(g) && Tracks(g, h) && maxLegs > 0
  {
    var r := GrowAll(g, h, cancelled, 0, maxLegs, window);
    GrowAllGood(g, h, cancelled, 0, maxLegs, window);
    r.fragments + Singles(Left(r.g))
  }

  lemma {:induction false} SinglesBag(arcs: seq<Arc>)
    ensures AllArcs(Singles(arcs)) == multiset(arcs)
  {
    if arcs != [] {
      var n := |arcs| - 1;
      SinglesBag(arcs[..n]);
      assert Singles(arcs)[..n] == Singles(arcs[..n]);
      assert arcs == arcs[..n] + [arcs[n]];
    }
  }

  /** Whatever the cancellation point: trails within the limit, each arc in exactly one of them. */
  lemma DenseTrailsExact(g: Graph, h: Heap, cancelled: nat -> bool, maxLegs: nat, window: int)
    requires Consistent(g) && Tracks(g, h) && maxLegs > 0
    ensures var ts := DenseTrails(g, h, cancelled, maxLegs, window);
      GoodTrails(ts, maxLegs) && AllArcs(ts) == multiset(Left(g))
  {
    hide GrowAll, Left, AllArcs, Singles, Consistent;
    var r := GrowAll(g, h, cancelled, 0, maxLegs, window);
    GrowAllGood(g, h, cancelled, 0, maxLegs, window);
    GrowAllBag(g, h, cancelled, maxLegs, window);
    SinglesAreGood(Left(r.g), maxLegs);
    AllArcsConcat(r.fragments, Singles(Left(r.g)));
    SinglesBag(Left(r.g));
  }

  lemma SinglesAreGood(arcs: seq<Arc>, maxLegs: nat)
    requires maxLegs > 0
    ensures GoodTrails(Singles(arcs), maxLegs)
  {
  }

  lemma GrowAllBag(g: Graph, h: Heap, cancelled: nat -> bool, maxLegs: nat, window: int)
    requires Consistent(g) && Tracks(g, h) && maxLegs > 0
    ensures var r := GrowAll(g, h, cancelled, 0, maxLegs, window);
      |r.g.edges| == |r.g.alive| && multiset(Left(g)) == multiset(Left(r.g)) + AllArcs(r.fragments)
  {
    hide GrowAll, Left, AllArcs;
    GrowAllGood(g, h, cancelled, 0, maxLegs, window);
    forall x: Arc
      ensures var r := GrowAll(g, h, cancelled, 0, maxLegs, window);
        multiset(Left(g))[x] == multiset(Left(r.g))[x] + AllArcs(r.fragments)[x]
    {
      GrowAllSound(g, h, cancelled, 0, maxLegs, window, x);
    }
  }
}
