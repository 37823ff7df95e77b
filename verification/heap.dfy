/** IndexedVertexHeap of internal/arccover/graph.go: changed in place, proved against heap_rule.dfy. */
module Heaps {
  import opened GraphRule
  import opened HeapRule
  import opened Graphs

  class IndexedVertexHeap {
    const g: MutableGraph
    var order: seq<nat>
    const pos: array<int>
    const active: array<bool>

    ghost function Model(): Heap
      reads this, pos, active
    {
      Heap(order, pos[..], active[..])
    }

    ghost predicate Apart()
    {
      pos != g.OutDegree && pos != g.InDegree && active != g.Alive
    }

    ghost predicate Valid()
      reads this, pos, active, g, g.Out, g.Alive, g.OutDegree, g.InDegree
    {
      && g.Valid() && Apart()
      && pos.Length == active.Length == g.N && Mutual(Model())
    }

    constructor Empty(g: MutableGraph)
      requires g.Valid()
      ensures Valid() && fresh(pos) && fresh(active) && this.g == g
      ensures Model() == EmptyHeap(g.N)
    {
      this.g := g;
      order := [];
      pos := new int[g.N](_ => -1);
      active := new bool[g.N](_ => false);
    }

    /** The heap of all vertices with outgoing arcs. */
    static method New(g: MutableGraph) returns (h: IndexedVertexHeap)
      requires g.Valid()
      ensures fresh(h) && fresh(h.pos) && fresh(h.active) && h.g == g
      ensures h.Valid() && h.Model() == NewHeap(g.Model(), g.N)
    {
      h := new IndexedVertexHeap.Empty(g);
      var v := 0;
      while v < g.N
        invariant v <= g.N && h.Valid()
        invariant fresh(h) && fresh(h.pos) && fresh(h.active) && h.g == g
        invariant PushFrom(g.Model(), h.Model(), v, g.N) == NewHeap(g.Model(), g.N)
      {
        if g.OutDegree[v] > 0 {
          h.PushVertex(v);
        }
        v := v + 1;
      }
    }

    method IsBetter(a: nat, b: nat) returns (r: bool)
      requires Valid() && a < g.N && b < g.N
      ensures r == Better(g.Model(), a, b)
    {
      var balA := g.OutDegree[a] - g.InDegree[a];
      var balB := g.OutDegree[b] - g.InDegree[b];
      if balA != balB {
        return balA > balB;
      }
      if g.OutDegree[a] != g.OutDegree[b] {
        return g.OutDegree[a] > g.OutDegree[b];
      }
      return a < b;
    }

    method SwapAt(i: nat, j: nat)
      requires Valid() && i < |order| && j < |order|
      modifies this`order, pos
      ensures Valid() && Model() == Swap(old(Model()), i, j) && |order| == old(|order|)
    {
      SwapMutual(Model(), i, j);
      ghost var before := Model();
      order := Exchange(order, i, j);
      pos[order[i]] := i;
      pos[order[j]] := j;
      assert pos[..] == SetAt(SetAt(before.pos, before.order[j], i), before.order[i], j);
    }

    method SiftUpFrom(i0: nat)
      requires Valid() && i0 < |order|
      modifies this`order, pos
      ensures Valid() && Model() == SiftUp(g.Model(), old(Model()), i0)
    {
      hide Mutual, Consistent, Swap;
      var i: nat := i0;
      while i > 0
        invariant i < |order| && Valid()
        invariant SiftUp(g.Model(), Model(), i) == SiftUp(g.Model(), old(Model()), i0)
      {
        var p := (i - 1) / 2;
        OrderBelow(Model(), i);
        OrderBelow(Model(), p);
        var better := IsBetter(order[i], order[p]);
        if !better {
          break;
        }
        SwapAt(i, p);
        i := p;
      }
    }

    lemma OrderBelow(h: Heap, i: nat)
      requires Mutual(h) && i < |h.order|
      ensures h.order[i] < |h.pos| == |h.active|
    {
    }

    method PreferredChild(i: nat) returns (best: nat)
      requires Valid() && 2 * i + 1 < |order|
      ensures best == BestChild(g.Model(), order, i)
    {
      hide Mutual, Consistent;
      var l, r := 2 * i + 1, 2 * i + 2;
      best := l;
      OrderBelow(Model(), l);
      if r < |order| {
        OrderBelow(Model(), r);
        var rightBetter := IsBetter(order[r], order[l]);
        if rightBetter {
          best := r;
        }
      }
    }

    method SiftDownFrom(i0: nat)
      requires Valid() && i0 < |order|
      modifies this`order, pos
      ensures Valid() && Model() == SiftDown(g.Model(), old(Model()), i0)
    {
      hide Mutual, Consistent, Swap;
      var i: nat := i0;
      var n := |order|;
      while true
        invariant i < |order| == n && Valid()
        invariant SiftDown(g.Model(), Model(), i) == SiftDown(g.Model(), old(Model()), i0)
        decreases n - i
      {
        if 2 * i + 1 >= n {
          break;
        }
        var best := PreferredChild(i);
        OrderBelow(Model(), best);
        OrderBelow(Model(), i);
        var better := IsBetter(order[best], order[i]);
        if !better {
          break;
        }
        SwapAt(i, best);
        i := best;
      }
    }

    method PushVertex(v: nat)
      requires Valid() && v < g.N
      modifies this`order, pos, active
      ensures Valid() && Model() == Push(g.Model(), old(Model()), v)
    {
      PushMutual(g.Model(), Model(), v);
      if active[v] {
        return;
      }
      AppendMutual(Model(), v);
      ghost var before := Model();
      active[v] := true;
      pos[v] := |order|;
      order := order + [v];
      assert pos[..] == SetAt(before.pos, v, |before.order|) && active[..] == SetAt(before.active, v, true);
      SiftUpFrom(pos[v]);
    }

    method RemoveVertex(v: nat)
      requires Valid() && v < g.N
      modifies this`order, pos, active
      ensures Valid() && Model() == Delete(g.Model(), old(Model()), v)
    {
      DeleteMutual(g.Model(), Model(), v);
      if !active[v] {
        return;
      }
      DetachMutual(Model(), v);
      ghost var before := Model();
      var i := pos[v];
      var last := |order| - 1;
      SwapAt(i, last);
      order := order[..last];
      active[v] := false;
      pos[v] := -1;
      assert Model() == Detach(before, v);
      SiftBothMutual(g.Model(), Model(), i);
      if i < |order| {
        SiftUpFrom(i);
        SiftUpMutual(g.Model(), Detach(before, v), i);
        SiftDownFrom(i);
      }
    }

    method UpdateVertex(v: nat)
      requires Valid() && v < g.N
      modifies this`order, pos, active
      ensures Valid() && Model() == Update(g.Model(), old(Model()), v)
    {
      if g.OutDegree[v] <= 0 {
        RemoveVertex(v);
        return;
      }
      if !active[v] {
        PushVertex(v);
        return;
      }
      RefreshMutual(g.Model(), Model(), v);
      SiftUpMutual(g.Model(), Model(), pos[v]);
      SiftUpFrom(pos[v]);
      SiftDownFrom(pos[v]);
    }

    /** -1 stands for InvalidVertex. */
    method PopBestWithOutgoing() returns (best: int)
      requires Valid()
      modifies this`order, pos, active
      ensures Valid() && Popped(Model(), best) == Pop(g.Model(), old(Model()))
    {
      ghost var target := Pop(g.Model(), Model());
      while |order| > 0
        invariant Valid() && Pop(g.Model(), Model()) == target
        decreases |order|
      {
        var v := order[0];
        DeleteMutual(g.Model(), Model(), v);
        RemoveVertex(v);
        if g.OutDegree[v] > 0 {
          return v;
        }
      }
      best := -1;
    }
  }
}
