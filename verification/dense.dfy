/** DenseRouteFirst of internal/arccover/dense.go, proved against dense_rule.dfy. */
module Dense {
  import opened ArcTypes
  import opened GraphRule
  import opened HeapRule
  import opened DenseRule
  import opened Graphs
  import opened Heaps

  /** Take the next arc of a fragment that stands on `current`; both its ends are updated in the heap. */
  method TakeArc(graph: MutableGraph, starts: IndexedVertexHeap, current: nat, ghost budget: nat, window: int)
    returns (edge: Arc, ok: bool)
    requires starts.g == graph && starts.Valid() && current < graph.N && budget > 0
    modifies graph`Remaining, graph.Out, graph.Alive, graph.OutDegree, graph.InDegree
    modifies starts`order, starts.pos, starts.active
    ensures starts.Valid() && edge.to < graph.N
    ensures !ok ==> graph.Model() == old(graph.Model()) && starts.Model() == old(starts.Model())
    ensures !ok ==> Grow(graph.Model(), current, budget, window) == Growth(graph.Model(), [], current)
    ensures ok ==>
      var before, rest := Grow(old(graph.Model()), current, budget, window), Grow(graph.Model(), edge.to, budget - 1, window);
      && before.edges == [edge] + rest.edges && before.g == rest.g
      && HeapAfter(old(graph.Model()), old(starts.Model()), before.edges) ==
        HeapAfter(graph.Model(), starts.Model(), rest.edges)
  {
    var next: nat;
    next, edge, ok := graph.SelectDenseNext(current, window);
    if !ok {
      edge := Arc(0, 0, current);
      return;
    }
    ghost var id, after := GrowStep(graph.Model(), current, budget, window);
    ghost var rest := Grow(after, edge.to, budget - 1, window).edges;
    assert ([edge] + rest)[1..] == rest;
    graph.Remove(edge.id);
    starts.UpdateVertex(edge.from);
    starts.UpdateVertex(edge.to);
  }

  /** Grow one fragment from `start`. */
  method GrowFragment(graph: MutableGraph, starts: IndexedVertexHeap, start: nat, maxLegs: nat, window: int)
    returns (edges: seq<Arc>)
    requires starts.g == graph && starts.Valid() && start < graph.N
    modifies graph`Remaining, graph.Out, graph.Alive, graph.OutDegree, graph.InDegree
    modifies starts`order, starts.pos, starts.active
    ensures starts.Valid()
    ensures edges == Grow(old(graph.Model()), start, maxLegs, window).edges
    ensures graph.Model() == Grow(old(graph.Model()), start, maxLegs, window).g
    ensures starts.Model() == HeapAfter(old(graph.Model()), old(starts.Model()), edges)
  {
    hide Grow, HeapAfter, Mutual, Consistent;
    edges := [];
    var current: nat := start;
    ghost var whole := Grow(graph.Model(), start, maxLegs, window);
    ghost var heapAtEnd := HeapAfter(graph.Model(), starts.Model(), whole.edges);
    while |edges| < maxLegs
      invariant starts.Valid() && current < graph.N && |edges| <= maxLegs
      invariant Ahead(whole, heapAtEnd, edges, graph.Model(), starts.Model(), current, maxLegs - |edges|, window)
    {
      hide Ahead;
      ghost var g0, h0, current0 := graph.Model(), starts.Model(), current;
      var edge, ok := TakeArc(graph, starts, current, maxLegs - |edges|, window);
      if !ok {
        Arrived(whole, heapAtEnd, edges, g0, h0, current, maxLegs - |edges|, window);
        return;
      }
      AheadStep(whole, heapAtEnd, edges, g0, h0, current, maxLegs - |edges|, window, edge, graph.Model(), starts.Model());
      edges := edges + [edge];
      current := edge.to;
    }
    Arrived(whole, heapAtEnd, edges, graph.Model(), starts.Model(), current, 0, window);
  }

  /** A fragment that will end as `whole` has taken `edges` and goes on from `current`. */
  ghost predicate Ahead(whole: Growth, heapAtEnd: Heap, edges: seq<Arc>,
                        g: Graph, h: Heap, current: nat, budget: nat, window: int)
  {
    var rest := Grow(g, current, budget, window);
    && whole.edges == edges + rest.edges
    && whole.g == rest.g
    && heapAtEnd == HeapAfter(g, h, rest.edges)
  }

  lemma AheadStep(whole: Growth, heapAtEnd: Heap, edges: seq<Arc>, g: Graph, h: Heap, current: nat, budget: nat, window: int,
                  edge: Arc, next: Graph, heap: Heap)
    requires budget > 0 && Ahead(whole, heapAtEnd, edges, g, h, current, budget, window)
    requires var before, rest := Grow(g, current, budget, window), Grow(next, edge.to, budget - 1, window);
      && before.edges == [edge] + rest.edges
      && before.g == rest.g
      && HeapAfter(g, h, before.edges) == HeapAfter(next, heap, rest.edges)
    ensures Ahead(whole, heapAtEnd, edges + [edge], next, heap, edge.to, budget - 1, window)
  {
    hide Grow, HeapAfter;
    var rest := Grow(next, edge.to, budget - 1, window).edges;
    assert edges + ([edge] + rest) == edges + [edge] + rest;
  }

  lemma Arrived(whole: Growth, heapAtEnd: Heap, edges: seq<Arc>, g: Graph, h: Heap, current: nat, budget: nat, window: int)
    requires Ahead(whole, heapAtEnd, edges, g, h, current, budget, window)
    requires budget == 0 || Grow(g, current, budget, window) == Growth(g, [], current)
    ensures whole.edges == edges && whole.g == g && heapAtEnd == h
  {
  }

  /** The growth loop: one fragment per round until no arc is left or the context is cancelled. */
  method GrowFragments(cancelled: nat -> bool, graph: MutableGraph, maxLegs: nat, window: int)
    returns (trails: seq<seq<Arc>>)
    requires graph.Valid() && maxLegs > 0
    modifies graph`Remaining, graph.Out, graph.Alive, graph.OutDegree, graph.InDegree
    ensures graph.Valid()
    ensures Tracks(old(graph.Model()), NewHeap(old(graph.Model()), graph.N))
    ensures Grown(graph.Model(), trails) ==
      GrowAll(old(graph.Model()), NewHeap(old(graph.Model()), graph.N), cancelled, 0, maxLegs, window)
  {
    hide Mutual, Consistent, Pop, Grow, HeapAfter;
    trails := [];
    var starts := IndexedVertexHeap.New(graph);
    NewHeapTracks(graph.Model());
    ghost var whole := GrowAll(graph.Model(), starts.Model(), cancelled, 0, maxLegs, window);
    var k := 0;
    while graph.Remaining > 0
      invariant starts.Valid() && starts.g == graph && fresh(starts) && fresh(starts.pos) && fresh(starts.active)
      invariant Tracks(graph.Model(), starts.Model())
      invariant var rest := GrowAll(graph.Model(), starts.Model(), cancelled, k, maxLegs, window);
        whole.g == rest.g && whole.fragments == trails + rest.fragments
      decreases graph.Remaining
    {
      if cancelled(k) {
        break;
      }
      var trail, ok := NextFragment(graph, starts, cancelled, k, maxLegs, window);
      if !ok {
        break;
      }
      if |trail| > 0 {
        trails := trails + [trail];
      }
      k := k + 1;
    }
  }

  /** Pop a start and grow a fragment from it. */
  method NextFragment(graph: MutableGraph, starts: IndexedVertexHeap, ghost cancelled: nat -> bool, ghost k: nat,
                      maxLegs: nat, window: int)
    returns (trail: seq<Arc>, ok: bool)
    requires starts.g == graph && starts.Valid() && Tracks(graph.Model(), starts.Model())
    requires maxLegs > 0 && graph.Remaining > 0 && !cancelled(k)
    modifies graph`Remaining, graph.Out, graph.Alive, graph.OutDegree, graph.InDegree
    modifies starts`order, starts.pos, starts.active
    ensures starts.Valid()
    ensures !ok ==> graph.Model() == old(graph.Model())
    ensures !ok ==> GrowAll(old(graph.Model()), old(starts.Model()), cancelled, k, maxLegs, window) == Grown(graph.Model(), [])
    ensures ok ==> trail != [] && graph.Remaining < old(graph.Remaining) && Tracks(graph.Model(), starts.Model())
    ensures ok ==>
      var rest := GrowAll(graph.Model(), starts.Model(), cancelled, k + 1, maxLegs, window);
      GrowAll(old(graph.Model()), old(starts.Model()), cancelled, k, maxLegs, window) ==
        rest.(fragments := [trail] + rest.fragments)
  {
    ghost var g0, h0 := graph.Model(), starts.Model();
    var start := starts.PopBestWithOutgoing();
    if start < 0 {
      return [], false;
    }
    StartGrows(g0, h0, maxLegs, window);
    trail := GrowFragment(graph, starts, start, maxLegs, window);
    ok := true;
  }

  /** The leftover arcs of a cancelled run, one fragment each. */
  method DrainArcs(graph: MutableGraph) returns (trails: seq<seq<Arc>>)
    requires graph.Valid()
    modifies graph`Remaining, graph.Out, graph.Alive, graph.OutDegree, graph.InDegree
    ensures graph.Valid() && Left(graph.Model()) == []
    ensures trails == Singles(Left(old(graph.Model())))
  {
    var arcs := graph.RemainingArcs();
    trails := [];
    LeftAscends(graph.Model());
    for k := 0 to |arcs|
      invariant graph.Valid() && trails == Singles(arcs[..k])
      invariant graph.Remaining == |arcs| - k
      invariant forall j :: k <= j < |arcs| ==> Alive(graph.Model(), arcs[j].id)
    {
      trails := trails + [[arcs[k]]];
      RemoveKeepsConsistent(graph.Model(), arcs[k].id);
      graph.Remove(arcs[k].id);
    }
    assert arcs[..|arcs|] == arcs;
  }

  /** What is left is listed by ascending id, all alive. */
  lemma LeftAscends(g: Graph)
    requires Consistent(g)
    ensures forall j :: 0 <= j < |Left(g)| ==> Alive(g, Left(g)[j].id)
    ensures forall i, j :: 0 <= i < j < |Left(g)| ==> Left(g)[i].id < Left(g)[j].id
  {
    AliveAscends(g.edges, g.alive);
  }

  lemma {:induction false} AliveAscends(edges: seq<Arc>, alive: seq<bool>)
    requires |edges| == |alive| && forall i :: 0 <= i < |edges| ==> edges[i].id == i
    ensures forall j :: 0 <= j < |AliveArcs(edges, alive)| ==>
      var id := AliveArcs(edges, alive)[j].id; id < |edges| && alive[id]
    ensures forall i, j :: 0 <= i < j < |AliveArcs(edges, alive)| ==>
      AliveArcs(edges, alive)[i].id < AliveArcs(edges, alive)[j].id
  {
    if edges != [] {
      AliveAscends(edges[..|edges| - 1], alive[..|alive| - 1]);
    }
  }

  ghost function DenseFragments(g: Graph, cancelled: nat -> bool, maxLegs: int, window: int): seq<Fragment>
    requires Consistent(g)
  {
    NewHeapTracks(g);
    if maxLegs <= 0 then []
    else Numbered(DenseTrails(g, NewHeap(g, g.n), cancelled, maxLegs, if window <= 0 then 8 else window))
  }

  /** Grow fragments; whatever a cancellation leaves over becomes one fragment per arc. */
  method DenseRouteFirst(cancelled: nat -> bool, graph: MutableGraph, maxLegs: int, candidateWindow: int)
    returns (fragments: seq<Fragment>)
    requires graph.Valid()
    modifies graph`Remaining, graph.Out, graph.Alive, graph.OutDegree, graph.InDegree
    ensures graph.Valid()
    ensures fragments == DenseFragments(old(graph.Model()), cancelled, maxLegs, candidateWindow)
    ensures if maxLegs <= 0 then graph.Model() == old(graph.Model()) else Left(graph.Model()) == []
  {
    if maxLegs <= 0 {
      return [];
    }
    var window := if candidateWindow <= 0 then 8 else candidateWindow;
    var grown := GrowFragments(cancelled, graph, maxLegs, window);
    var rest := DrainArcs(graph);
    fragments := Numbered(grown + rest);
  }
}
