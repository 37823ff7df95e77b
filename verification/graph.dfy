/** MutableGraph of internal/arccover/graph.go: arrays changed in place, proved against graph_rule.dfy. */
module Graphs {
  import opened ArcTypes
  import opened GraphRule
  import Trails

  // ---------- Lists and degrees of the first arcs ----------

  ghost predicate Counted(out: seq<seq<nat>>, outDeg: seq<int>, inDeg: seq<int>, edges: seq<Arc>, k: nat)
    requires k <= |edges|
  {
    && |out| == |outDeg| == |inDeg|
    && forall u :: 0 <= u < |out| ==>
      && out[u] == Leaving(edges, u, k)
      && outDeg[u] == Trails.OutDeg(edges[..k], u) && inDeg[u] == Trails.InDeg(edges[..k], u)
  }

  lemma CountedNone(out: seq<seq<nat>>, outDeg: seq<int>, inDeg: seq<int>, edges: seq<Arc>)
    requires |out| == |outDeg| == |inDeg|
    requires forall u :: 0 <= u < |out| ==> out[u] == [] && outDeg[u] == inDeg[u] == 0
    ensures Counted(out, outDeg, inDeg, edges, 0)
  {
  }

  lemma CountedStep(out: seq<seq<nat>>, outDeg: seq<int>, inDeg: seq<int>, edges: seq<Arc>, k: nat)
    requires k < |edges| && edges[k].id == k && Counted(out, outDeg, inDeg, edges, k)
    requires edges[k].from < |out| && edges[k].to < |out|
    ensures var e := edges[k];
      Counted(out[e.from := out[e.from] + [e.id]], outDeg[e.from := outDeg[e.from] + 1],
              inDeg[e.to := inDeg[e.to] + 1], edges, k + 1)
  {
    assert edges[..k + 1] == edges[..k] + [edges[k]];
    forall u: nat
      ensures Leaving(edges, u, k + 1) == Leaving(edges, u, k) + if edges[k].from == u then [k] else []
      ensures Trails.OutDeg(edges[..k + 1], u) == Trails.OutDeg(edges[..k], u) + if edges[k].from == u then 1 else 0
      ensures Trails.InDeg(edges[..k + 1], u) == Trails.InDeg(edges[..k], u) + if edges[k].to == u then 1 else 0
    {
      Trails.DegSnoc(edges[..k], edges[k], u);
    }
    hide Leaving, Trails.OutDeg, Trails.InDeg;
  }

  lemma CountedAll(out: seq<seq<nat>>, outDeg: seq<int>, inDeg: seq<int>, edges: seq<Arc>)
    requires Counted(out, outDeg, inDeg, edges, |edges|)
    ensures forall u :: 0 <= u < |out| ==> out[u] == Leaving(edges, u, |edges|)
    ensures forall u :: 0 <= u < |outDeg| ==> outDeg[u] == Trails.OutDeg(edges, u)
    ensures forall u :: 0 <= u < |inDeg| ==> inDeg[u] == Trails.InDeg(edges, u)
  {
    assert edges[..|edges|] == edges;
  }

  // ---------- One step of the selection ----------

  lemma ListedArcs(g: Graph, u: nat)
    requires Consistent(g) && u < g.n
    ensures |g.out| == |g.outDeg| == |g.inDeg| == g.n
    ensures forall k :: 0 <= k < |g.out[u]| ==> g.out[u][k] < |g.edges| && g.edges[g.out[u][k]].to < g.n
  {
    assert OutListOk(g, u);
    forall k | 0 <= k < |g.out[u]| ensures g.out[u][k] < |g.edges| && g.edges[g.out[u][k]].to < g.n {
      assert g.out[u][k] in g.out[u];
    }
  }

  lemma BestStep(g: Graph, list: seq<nat>, k: nat)
    requires k < |list|
    ensures BestSuccessor(g, list, k + 1) ==
      if k == 0 || Better(g, ArcAt(g, list[k]).to, ArcAt(g, BestSuccessor(g, list, k)).to) then list[k]
      else BestSuccessor(g, list, k)
  {
  }

  // ---------- One step of the insertion sort ----------

  /** Past an element in order nothing moves; otherwise that element comes last. */
  lemma SinkStep(edges: seq<Arc>, sorted: seq<nat>, x: nat, j: nat)
    requires IdsBelow(sorted, |edges|) && x < |edges| && 0 < j <= |sorted|
    ensures var a, b := edges[sorted[j - 1]], edges[x];
      if a.to < b.to || (a.to == b.to && a.id <= b.id)
      then InsertId(edges, sorted[..j], x) == sorted[..j] + [x]
      else InsertId(edges, sorted[..j], x) == InsertId(edges, sorted[..j - 1], x) + [sorted[j - 1]]
  {
    assert sorted[..j][..j - 1] == sorted[..j - 1];
  }

  lemma InsertFirst(edges: seq<Arc>, x: nat)
    requires x < |edges|
    ensures InsertId(edges, [], x) == [x]
  {
  }

  /** Exchanging x with its left neighbour. */
  lemma ShiftStep(list: seq<nat>, sorted: seq<nat>, x: nat, moved: seq<nat>, rest: seq<nat>, j: nat)
    requires 0 < j <= |sorted| && list == sorted[..j] + [x] + moved + rest
    ensures j < |list| && list[j - 1] == sorted[j - 1] && list[j] == x
    ensures list[j - 1 := list[j]][j := list[j - 1]] == sorted[..j - 1] + [x] + ([sorted[j - 1]] + moved) + rest
  {
    var left, y := sorted[..j - 1], sorted[j - 1];
    assert sorted[..j] == left + [y];
  }

  class MutableGraph {
    const N: nat
    const Edges: seq<Arc>
    const Out: array<seq<nat>>
    const Alive: array<bool>
    const OutDegree: array<int>
    const InDegree: array<int>
    var Remaining: int

    ghost function Model(): Graph
      reads this, Out, Alive, OutDegree, InDegree
    {
      Graph(N, Edges, Out[..], Alive[..], OutDegree[..], InDegree[..], Remaining)
    }

    ghost predicate Valid()
      reads this, Out, Alive, OutDegree, InDegree
    {
      OutDegree != InDegree && Consistent(Model())
    }

    /** The vectors, sized but not filled. */
    constructor Sized(n: nat, required: seq<Arc>)
      ensures fresh(Out) && fresh(Alive) && fresh(OutDegree) && fresh(InDegree) && OutDegree != InDegree
      ensures N == n && Edges == required && Remaining == |required|
      ensures Out.Length == OutDegree.Length == InDegree.Length == n && Alive.Length == |required|
      ensures Out[..] == seq(n, _ => []) && Alive[..] == AllAlive(|required|)
      ensures OutDegree[..] == seq(n, _ => 0) && InDegree[..] == seq(n, _ => 0)
    {
      N, Edges, Remaining := n, required, |required|;
      Out := new seq<nat>[n](_ => []);
      Alive := new bool[|required|](_ => true);
      OutDegree := new int[n](_ => 0);
      InDegree := new int[n](_ => 0);
    }

    /** The graph of all required arcs; ids must be 0..m-1. */
    static method New(n: nat, required: seq<Arc>) returns (g: MutableGraph)
      requires InRange(n, required) && IdsAreIndexes(required)
      ensures fresh(g) && fresh(g.Out) && fresh(g.Alive) && fresh(g.OutDegree) && fresh(g.InDegree)
      ensures g.Valid() && g.Model() == InitialGraph(n, required)
    {
      g := new MutableGraph.Sized(n, required);
      g.CountArcs();
      g.SortAll();
      InitialConsistent(n, required);
      assert g.Out[..] == InitialGraph(n, required).out;
      assert g.OutDegree[..] == InitialGraph(n, required).outDeg;
      assert g.InDegree[..] == InitialGraph(n, required).inDeg;
    }

    method CountArcs()
      requires InRange(N, Edges) && IdsAreIndexes(Edges) && OutDegree != InDegree
      requires Out.Length == OutDegree.Length == InDegree.Length == N
      requires forall u :: 0 <= u < N ==> Out[u] == [] && OutDegree[u] == InDegree[u] == 0
      modifies Out, OutDegree, InDegree
      ensures forall u :: 0 <= u < N ==> Out[u] == Leaving(Edges, u, |Edges|)
      ensures forall u :: 0 <= u < N ==>
        OutDegree[u] == Trails.OutDeg(Edges, u) && InDegree[u] == Trails.InDeg(Edges, u)
    {
      hide Leaving, Counted;
      CountedNone(Out[..], OutDegree[..], InDegree[..], Edges);
      for k := 0 to |Edges|
        invariant Counted(Out[..], OutDegree[..], InDegree[..], Edges, k)
      {
        ghost var out, outDeg, inDeg := Out[..], OutDegree[..], InDegree[..];
        var e := Edges[k];
        Out[e.from] := Out[e.from] + [e.id];
        OutDegree[e.from] := OutDegree[e.from] + 1;
        InDegree[e.to] := InDegree[e.to] + 1;
        assert Out[..] == out[e.from := out[e.from] + [e.id]];
        assert OutDegree[..] == outDeg[e.from := outDeg[e.from] + 1] && InDegree[..] == inDeg[e.to := inDeg[e.to] + 1];
        CountedStep(out, outDeg, inDeg, Edges, k);
      }
      CountedAll(Out[..], OutDegree[..], InDegree[..], Edges);
    }

    method SortAll()
      requires Out.Length == N && forall u :: 0 <= u < N ==> IdsBelow(Out[u], |Edges|)
      modifies Out
      ensures forall u :: 0 <= u < N ==>
        IdsBelow(old(Out[u]), |Edges|) && Out[u] == SortIds(Edges, old(Out[u]))
    {
      for u := 0 to N
        invariant forall v :: 0 <= v < u ==> Out[v] == SortIds(Edges, old(Out[v]))
        invariant forall v :: u <= v < N ==> Out[v] == old(Out[v])
      {
        SortAdjacency(u);
      }
    }

    /** Insertion sort of one adjacency list by head, then id. */
    method SortAdjacency(u: nat)
      requires u < N == Out.Length && IdsBelow(Out[u], |Edges|)
      modifies Out
      ensures forall v :: 0 <= v < N && v != u ==> Out[v] == old(Out[v])
      ensures Out[u] == SortIds(Edges, old(Out[u]))
    {
      var list := SortEdgeIDs(Out[u]);
      Out[u] := list;
    }

    method SortEdgeIDs(ids: seq<nat>) returns (list: seq<nat>)
      requires IdsBelow(ids, |Edges|)
      ensures list == SortIds(Edges, ids)
    {
      list := ids;
      for i := 0 to |ids|
        invariant list == SortIds(Edges, ids[..i]) + ids[i..]
      {
        assert ids[..i + 1][..i] == ids[..i];
        list := Sink(list, i, SortIds(Edges, ids[..i]), ids[i], ids[i + 1..]);
      }
      assert ids[..|ids|] == ids;
    }

    /** Move the element at i left past everything it precedes. */
    method Sink(list0: seq<nat>, i: nat, ghost sorted: seq<nat>, ghost x: nat, ghost rest: seq<nat>)
      returns (list: seq<nat>)
      requires IdsBelow(list0, |Edges|) && |sorted| == i && list0 == sorted + [x] + rest
      ensures IdsBelow(sorted, |Edges|) && x < |Edges| && list == InsertId(Edges, sorted, x) + rest
    {
      assert forall k :: 0 <= k < i ==> sorted[k] == list0[k];
      assert list0[i] == x;
      hide InsertId, InOrder;
      list := list0;
      var j := i;
      ghost var moved: seq<nat> := [];
      assert sorted[..i] == sorted;
      while j > 0
        invariant 0 <= j <= i
        invariant list == sorted[..j] + [x] + moved + rest
        invariant InsertId(Edges, sorted[..j], x) + moved == InsertId(Edges, sorted, x)
      {
        ShiftStep(list, sorted, x, moved, rest, j);
        var a, b := Edges[list[j - 1]], Edges[list[j]];
        SinkStep(Edges, sorted, x, j);
        if a.to < b.to || (a.to == b.to && a.id <= b.id) {
          break;
        }
        list := list[j - 1 := list[j]][j := list[j - 1]];
        moved := [sorted[j - 1]] + moved;
        j := j - 1;
      }
      if j == 0 {
        InsertFirst(Edges, x);
      }
    }

    /** The list without its first occurrence of id, the last element in its place. */
    method Unlist(list: seq<nat>, id: nat) returns (r: seq<nat>)
      ensures r == ListWithout(list, id)
    {
      var i := 0;
      while i < |list| && list[i] != id
        invariant 0 <= i <= |list|
        invariant IndexIn(list, id) == i + IndexIn(list[i..], id)
      {
        assert list[i..][1..] == list[i + 1..];
        i := i + 1;
      }
      if i < |list| {
        var last := |list| - 1;
        return list[i := list[last]][..last];
      }
      r := list;
    }

    method Remove(id: nat)
      requires Valid() && id < |Edges|
      modifies this`Remaining, Out, Alive, OutDegree, InDegree
      ensures Model() == RemoveArc(old(Model()), id)
      ensures Valid()
    {
      if !Alive[id] {
        return;
      }
      RemoveKeepsConsistent(Model(), id);
      ghost var before := Model();
      Alive[id] := false;
      Remaining := Remaining - 1;
      var e := Edges[id];
      OutDegree[e.from] := OutDegree[e.from] - 1;
      InDegree[e.to] := InDegree[e.to] - 1;
      var list := Unlist(Out[e.from], id);
      Out[e.from] := list;
      assert Alive[..] == before.alive[id := false];
      assert OutDegree[..] == RemoveArc(before, id).outDeg;
      assert InDegree[..] == RemoveArc(before, id).inDeg;
      assert Out[..] == RemoveArc(before, id).out;
    }

    /** Arcs alive, in ascending id order. */
    method RemainingArcs() returns (arcs: seq<Arc>)
      requires Valid()
      ensures arcs == Left(Model())
    {
      arcs := [];
      for i := 0 to Alive.Length
        invariant arcs == AliveArcs(Edges[..i], Alive[..i])
      {
        assert Edges[..i + 1][..i] == Edges[..i] && Alive[..i + 1][..i] == Alive[..i];
        if Alive[i] {
          arcs := arcs + [Edges[i]];
        }
      }
      assert Edges[..|Edges|] == Edges && Alive[..Alive.Length] == Alive[..];
    }

    /** The successor a fragment on u takes, among the first `window` arcs listed. */
    method SelectDenseNext(u: nat, window0: int) returns (next: nat, edge: Arc, ok: bool)
      requires Valid() && u < N
      ensures ok <==> SelectNext(Model(), u, window0).Take?
      ensures ok ==> edge == ArcAt(Model(), SelectNext(Model(), u, window0).id) && next == edge.to
    {
      var window := window0;
      if window <= 0 {
        window := 8;
      }
      ok, next, edge := false, 0, Arc(0, 0, 0);
      var bestBal, bestOut := 0, 0;
      var list := Out[u];
      ghost var g := Model();
      ListedArcs(g, u);
      hide Consistent, BestSuccessor;
      var k := 0;
      while k < |list| && k < window
        invariant 0 <= k <= |list| && k <= window
        invariant ok <==> k > 0
        invariant ok ==> edge == ArcAt(g, BestSuccessor(g, list, k)) && next == edge.to && next < N
        invariant ok ==> bestOut == OutDegree[next] && bestBal == OutDegree[next] - InDegree[next]
      {
        BestStep(g, list, k);
        var e := Edges[list[k]];
        var v := e.to;
        var bal, out := OutDegree[v] - InDegree[v], OutDegree[v];
        if !ok || bal > bestBal || (bal == bestBal && out > bestOut) || (bal == bestBal && out == bestOut && v < next) {
          ok, next, edge, bestBal, bestOut := true, v, e, bal, out;
        }
        k := k + 1;
      }
    }
  }
}
