/**
 * The indexed vertex heap of internal/arccover/graph.go on values.
 *
 * `Mutual` (order and pos are inverse, and hold exactly the active vertices) is kept by every operation.
 * `Ordered` (no vertex is preferred to its parent) is restored by Update when one vertex's rank changed,
 * and on an ordered heap the popped vertex is the best one.
 */
module HeapRule {
  import opened GraphRule

  datatype Heap = Heap(order: seq<nat>, pos: seq<int>, active: seq<bool>)

  // ---------- The operations ----------

  function PosOf(h: Heap, v: nat): int { if v < |h.pos| then h.pos[v] else -1 }

  predicate Active(h: Heap, v: nat) { v < |h.active| && h.active[v] }

  function Exchange(order: seq<nat>, i: nat, j: nat): (r: seq<nat>)
    requires i < |order| && j < |order|
    ensures |r| == |order|
  {
    order[i := order[j]][j := order[i]]
  }

  function Swap(h: Heap, i: nat, j: nat): Heap
    requires i < |h.order| && j < |h.order|
  {
    h.(order := Exchange(h.order, i, j), pos := SetAt(SetAt(h.pos, h.order[j], i), h.order[i], j))
  }

  function SiftUp(g: Graph, h: Heap, i: nat): Heap
    requires i < |h.order|
    decreases i
  {
    if i > 0 && Better(g, h.order[i], h.order[(i - 1) / 2])
    then SiftUp(g, Swap(h, i, (i - 1) / 2), (i - 1) / 2)
    else h
  }

  /** The preferred child of i; i must have one. */
  function BestChild(g: Graph, order: seq<nat>, i: nat): (c: nat)
    requires 2 * i + 1 < |order|
    ensures i < c < |order| && (c - 1) / 2 == i
  {
    var l, r := 2 * i + 1, 2 * i + 2;
    if r < |order| && Better(g, order[r], order[l]) then r else l
  }

  function SiftDown(g: Graph, h: Heap, i: nat): Heap
    requires i < |h.order|
    decreases |h.order| - i
  {
    if 2 * i + 1 < |h.order| && Better(g, h.order[BestChild(g, h.order, i)], h.order[i])
    then SiftDown(g, Swap(h, i, BestChild(g, h.order, i)), BestChild(g, h.order, i))
    else h
  }

  function Append(h: Heap, v: nat): Heap {
    Heap(h.order + [v], SetAt(h.pos, v, |h.order|), SetAt(h.active, v, true))
  }

  function Push(g: Graph, h: Heap, v: nat): Heap {
    if Active(h, v) then h else SiftUp(g, Append(h, v), |h.order|)
  }

  /** Swap v to the end and cut it off. */
  function Detach(h: Heap, v: nat): Heap
    requires 0 <= PosOf(h, v) < |h.order|
  {
    var last := |h.order| - 1;
    var s := Swap(h, PosOf(h, v), last);
    Heap(s.order[..last], SetAt(s.pos, v, -1), SetAt(s.active, v, false))
  }

  /** Repair the heap around position i, first towards the top, then towards the bottom. */
  function SiftBoth(g: Graph, h: Heap, i: nat): Heap {
    if i >= |h.order| then h
    else
      var up := SiftUp(g, h, i);
      if i < |up.order| then SiftDown(g, up, i) else up
  }

  function Delete(g: Graph, h: Heap, v: nat): Heap {
    if Active(h, v) && 0 <= PosOf(h, v) < |h.order|
    then SiftBoth(g, Detach(h, v), PosOf(h, v))
    else h
  }

  /** Repair the heap around an active vertex whose rank changed. */
  function Refresh(g: Graph, h: Heap, v: nat): Heap {
    if 0 <= PosOf(h, v) < |h.order| then
      var up := SiftUp(g, h, PosOf(h, v));
      if 0 <= PosOf(up, v) < |up.order| then SiftDown(g, up, PosOf(up, v)) else up
    else h
  }

  function Update(g: Graph, h: Heap, v: nat): Heap {
    if OutAt(g, v) <= 0 then Delete(g, h, v)
    else if !Active(h, v) then Push(g, h, v)
    else Refresh(g, h, v)
  }

  // ---------- order and pos are inverse ----------

  ghost predicate Mutual(h: Heap) {
    && |h.pos| == |h.active|
    && (forall i :: 0 <= i < |h.order| ==>
      h.order[i] < |h.pos| && h.pos[h.order[i]] == i && h.active[h.order[i]])
    && forall v :: 0 <= v < |h.pos| ==>
      if h.active[v] then 0 <= h.pos[v] < |h.order| && h.order[h.pos[v]] == v else h.pos[v] == -1
  }

  lemma SwapMutual(h: Heap, i: nat, j: nat)
    requires Mutual(h) && i < |h.order| && j < |h.order|
    ensures Mutual(Swap(h, i, j))
  {
  }

  lemma {:induction false} SiftUpMutual(g: Graph, h: Heap, i: nat)
    requires Mutual(h) && i < |h.order|
    ensures Mutual(SiftUp(g, h, i)) && SiftUp(g, h, i).active == h.active
    ensures |SiftUp(g, h, i).order| == |h.order|
    decreases i
  {
    if i > 0 && Better(g, h.order[i], h.order[(i - 1) / 2]) {
      SwapMutual(h, i, (i - 1) / 2);
      SiftUpMutual(g, Swap(h, i, (i - 1) / 2), (i - 1) / 2);
    }
  }

  lemma {:induction false} SiftDownMutual(g: Graph, h: Heap, i: nat)
    requires Mutual(h) && i < |h.order|
    ensures Mutual(SiftDown(g, h, i)) && SiftDown(g, h, i).active == h.active
    ensures |SiftDown(g, h, i).order| == |h.order|
    decreases |h.order| - i
  {
    if 2 * i + 1 < |h.order| && Better(g, h.order[BestChild(g, h.order, i)], h.order[i]) {
      SwapMutual(h, i, BestChild(g, h.order, i));
      SiftDownMutual(g, Swap(h, i, BestChild(g, h.order, i)), BestChild(g, h.order, i));
    }
  }

  lemma AppendMutual(h: Heap, v: nat)
    requires Mutual(h) && v < |h.active| && !h.active[v]
    ensures Mutual(Append(h, v)) && Append(h, v).active == h.active[v := true]
  {
  }

  lemma PushMutual(g: Graph, h: Heap, v: nat)
    requires Mutual(h) && v < |h.active|
    ensures Mutual(Push(g, h, v)) && Push(g, h, v).active == h.active[v := true]
  {
    if !h.active[v] {
      AppendMutual(h, v);
      SiftUpMutual(g, Append(h, v), |h.order|);
    }
  }

  lemma DetachMutual(h: Heap, v: nat)
    requires Mutual(h) && Active(h, v)
    ensures Mutual(Detach(h, v)) && Detach(h, v).active == h.active[v := false]
    ensures |Detach(h, v).order| == |h.order| - 1
  {
    SwapMutual(h, PosOf(h, v), |h.order| - 1);
  }

  lemma SiftBothMutual(g: Graph, h: Heap, i: nat)
    requires Mutual(h)
    ensures Mutual(SiftBoth(g, h, i)) && SiftBoth(g, h, i).active == h.active
    ensures |SiftBoth(g, h, i).order| == |h.order|
  {
    if i < |h.order| {
      SiftUpMutual(g, h, i);
      SiftDownMutual(g, SiftUp(g, h, i), i);
    }
  }

  lemma DeleteMutual(g: Graph, h: Heap, v: nat)
    requires Mutual(h) && v < |h.active|
    ensures Mutual(Delete(g, h, v)) && Delete(g, h, v).active == h.active[v := false]
    ensures h.active[v] ==> |Delete(g, h, v).order| == |h.order| - 1
  {
    if h.active[v] {
      DetachMutual(h, v);
      SiftBothMutual(g, Detach(h, v), PosOf(h, v));
    }
  }

  lemma RefreshMutual(g: Graph, h: Heap, v: nat)
    requires Mutual(h) && Active(h, v)
    ensures Mutual(Refresh(g, h, v)) && Refresh(g, h, v).active == h.active
  {
    SiftUpMutual(g, h, PosOf(h, v));
    var up := SiftUp(g, h, PosOf(h, v));
    SiftDownMutual(g, up, PosOf(up, v));
  }

  /** Whatever the order, Update keeps the heap well-formed and holds v exactly if v has outgoing arcs. */
  lemma UpdateMutual(g: Graph, h: Heap, v: nat)
    requires Mutual(h) && v < |h.active|
    ensures Mutual(Update(g, h, v)) && Update(g, h, v).active == h.active[v := OutAt(g, v) > 0]
  {
    if OutAt(g, v) <= 0 {
      DeleteMutual(g, h, v);
    } else if !h.active[v] {
      PushMutual(g, h, v);
    } else {
      RefreshMutual(g, h, v);
    }
  }

  datatype Popped = Popped(heap: Heap, best: int)

  /** Remove vertices from the top until one with outgoing arcs came up; -1 if none did. */
  function Pop(g: Graph, h: Heap): Popped
    requires Mutual(h)
    decreases |h.order|
  {
    if h.order == [] then Popped(h, -1)
    else
      var v := h.order[0];
      DeleteMutual(g, h, v);
      var d := Delete(g, h, v);
      if OutAt(g, v) > 0 then Popped(d, v) else Pop(g, d)
  }

  function EmptyHeap(n: nat): Heap {
    Heap([], seq(n, _ => -1), seq(n, _ => false))
  }

  /** Push the vertices from v on that have outgoing arcs. */
  function PushFrom(g: Graph, h: Heap, v: nat, n: nat): Heap
    requires v <= n
    decreases n - v
  {
    if v == n then h
    else if OutAt(g, v) > 0 then PushFrom(g, Push(g, h, v), v + 1, n)
    else PushFrom(g, h, v + 1, n)
  }

  function NewHeap(g: Graph, n: nat): Heap {
    PushFrom(g, EmptyHeap(n), 0, n)
  }

  // ---------- heap order ----------

  predicate OkAt(g: Graph, order: seq<nat>, j: nat)
    requires j < |order|
  {
    j == 0 || !Better(g, order[j], order[(j - 1) / 2])
  }

  ghost predicate OrderedSeq(g: Graph, order: seq<nat>) {
    forall j :: 0 <= j < |order| ==> OkAt(g, order, j)
  }

  ghost predicate Ordered(g: Graph, h: Heap) { OrderedSeq(g, h.order) }

  /** Ordered, had the vertex at i been left out. */
  ghost predicate OrderedBut(g: Graph, order: seq<nat>, i: nat) {
    && (forall j :: 0 < j < |order| && j != i && (j - 1) / 2 != i ==> OkAt(g, order, j))
    && (0 < i < |order| ==>
      forall c :: 0 < c < |order| && (c - 1) / 2 == i ==> !Better(g, order[c], order[(i - 1) / 2]))
  }

  /** No child of i is preferred to it. */
  ghost predicate ChildrenOk(g: Graph, order: seq<nat>, i: nat) {
    forall c :: 0 < c < |order| && (c - 1) / 2 == i ==> OkAt(g, order, c)
  }

  lemma NotBetterTrans(g: Graph, a: nat, b: nat, c: nat)
    requires !Better(g, a, b) && !Better(g, b, c)
    ensures !Better(g, a, c)
  {
  }

  /** Moving a preferred vertex up one level leaves only its new place in question, towards the top. */
  lemma SwapUp(g: Graph, order: seq<nat>, i: nat)
    requires 0 < i < |order| && OrderedBut(g, order, i) && Better(g, order[i], order[(i - 1) / 2])
    ensures OrderedBut(g, Exchange(order, i, (i - 1) / 2), (i - 1) / 2)
    ensures ChildrenOk(g, Exchange(order, i, (i - 1) / 2), (i - 1) / 2)
  {
    var p := (i - 1) / 2;
    var r := Exchange(order, i, p);
    forall j | 0 < j < |r| && j != p && (j - 1) / 2 != p ensures OkAt(g, r, j) {
      assert j != i;
      if (j - 1) / 2 != i {
        assert OkAt(g, order, j);
      }
    }
    forall c | 0 < c < |r| && (c - 1) / 2 == p
      ensures OkAt(g, r, c)
      ensures p > 0 ==> !Better(g, r[c], r[(p - 1) / 2])
    {
      if p > 0 {
        assert OkAt(g, order, p);
      }
      if c != i {
        assert OkAt(g, order, c);
        NotBetterTrans(g, r[c], order[p], r[p]);
        if p > 0 {
          NotBetterTrans(g, r[c], order[p], r[(p - 1) / 2]);
        }
      }
    }
  }

  lemma {:induction false} SiftUpMoved(g: Graph, h: Heap, i: nat)
    requires i < |h.order| && OrderedBut(g, h.order, i) && ChildrenOk(g, h.order, i)
    ensures Ordered(g, SiftUp(g, h, i))
    decreases i
  {
    if i > 0 && Better(g, h.order[i], h.order[(i - 1) / 2]) {
      SwapUp(g, h.order, i);
      SiftUpMoved(g, Swap(h, i, (i - 1) / 2), (i - 1) / 2);
    }
  }

  /** Sifting up either repairs the whole heap or does nothing, because the way up is fine. */
  lemma SiftUpRepairs(g: Graph, h: Heap, i: nat)
    requires i < |h.order| && OrderedBut(g, h.order, i)
    ensures Ordered(g, SiftUp(g, h, i)) || (SiftUp(g, h, i) == h && OkAt(g, h.order, i))
  {
    if i > 0 && Better(g, h.order[i], h.order[(i - 1) / 2]) {
      SwapUp(g, h.order, i);
      SiftUpMoved(g, Swap(h, i, (i - 1) / 2), (i - 1) / 2);
    }
  }

  lemma SwapDown(g: Graph, order: seq<nat>, i: nat)
    requires 2 * i + 1 < |order| && OrderedBut(g, order, i) && OkAt(g, order, i)
    requires Better(g, order[BestChild(g, order, i)], order[i])
    ensures var c := BestChild(g, order, i);
      OrderedBut(g, Exchange(order, i, c), c) && OkAt(g, Exchange(order, i, c), c)
  {
    var b := BestChild(g, order, i);
    var r := Exchange(order, i, b);
    forall j | 0 < j < |r| && j != b && (j - 1) / 2 != b ensures OkAt(g, r, j) {
      if j != i && (j - 1) / 2 != i {
        assert OkAt(g, order, j);
      }
    }
    forall c | 0 < c < |r| && (c - 1) / 2 == b ensures !Better(g, r[c], r[i]) {
      assert OkAt(g, order, c);
    }
  }

  lemma {:induction false} SiftDownRepairs(g: Graph, h: Heap, i: nat)
    requires i < |h.order| && OrderedBut(g, h.order, i) && OkAt(g, h.order, i)
    ensures Ordered(g, SiftDown(g, h, i))
    decreases |h.order| - i
  {
    if 2 * i + 1 < |h.order| && Better(g, h.order[BestChild(g, h.order, i)], h.order[i]) {
      SwapDown(g, h.order, i);
      SiftDownRepairs(g, Swap(h, i, BestChild(g, h.order, i)), BestChild(g, h.order, i));
    } else {
      Settled(g, h.order, i);
    }
  }

  /** Nothing to move up, nothing to move down. */
  lemma Settled(g: Graph, order: seq<nat>, i: nat)
    requires i < |order| && OrderedBut(g, order, i) && OkAt(g, order, i)
    requires 2 * i + 1 < |order| ==> !Better(g, order[BestChild(g, order, i)], order[i])
    ensures OrderedSeq(g, order)
  {
    forall c | 0 < c < |order| && (c - 1) / 2 == i ensures OkAt(g, order, c) {
      NotBetterTrans(g, order[c], order[BestChild(g, order, i)], order[i]);
    }
  }

  lemma SiftDownIdle(g: Graph, h: Heap, i: nat)
    requires i < |h.order| && Ordered(g, h)
    ensures SiftDown(g, h, i) == h
  {
    if 2 * i + 1 < |h.order| {
      assert OkAt(g, h.order, BestChild(g, h.order, i));
    }
  }

  // ---------- Update ----------

  /** Only the rank of v may differ. */
  ghost predicate RanksAgreeBut(g0: Graph, g1: Graph, v: nat) {
    forall u: nat :: u != v ==> OutAt(g0, u) == OutAt(g1, u) && InAt(g0, u) == InAt(g1, u)
  }

  /** A change of one rank leaves the heap ordered but for that vertex. */
  lemma OneRankChanged(g0: Graph, g1: Graph, h: Heap, v: nat)
    requires Mutual(h) && Ordered(g0, h) && RanksAgreeBut(g0, g1, v) && v < |h.active| && h.active[v]
    ensures OrderedBut(g1, h.order, h.pos[v])
  {
    var o, i := h.order, h.pos[v];
    forall j | 0 < j < |o| && j != i && (j - 1) / 2 != i ensures OkAt(g1, o, j) {
      assert OkAt(g0, o, j);
      assert o[j] != v && o[(j - 1) / 2] != v;
    }
    if i > 0 {
      forall c | 0 < c < |o| && (c - 1) / 2 == i ensures !Better(g1, o[c], o[(i - 1) / 2]) {
        assert OkAt(g0, o, c) && OkAt(g0, o, i);
        NotBetterTrans(g0, o[c], o[i], o[(i - 1) / 2]);
        assert o[c] != v && o[(i - 1) / 2] != v;
      }
    }
  }

  lemma OtherRanksOnly(g0: Graph, g1: Graph, h: Heap, v: nat)
    requires Mutual(h) && Ordered(g0, h) && RanksAgreeBut(g0, g1, v) && v < |h.active| && !h.active[v]
    ensures Ordered(g1, h)
  {
    forall j | 0 <= j < |h.order| ensures OkAt(g1, h.order, j) {
      assert OkAt(g0, h.order, j);
      assert h.order[j] != v && (j > 0 ==> h.order[(j - 1) / 2] != v);
    }
  }

  lemma AppendOrdered(g: Graph, h: Heap, v: nat)
    requires Mutual(h) && v < |h.active| && !h.active[v] && Ordered(g, h)
    ensures Ordered(g, SiftUp(g, Append(h, v), |h.order|))
  {
    var a := Append(h, v);
    forall j | 0 < j < |a.order| && j != |h.order| ensures OkAt(g, a.order, j) {
      assert OkAt(g, h.order, j);
    }
    SiftUpRepairs(g, a, |h.order|);
  }

  lemma DetachOrdered(g: Graph, h: Heap, v: nat)
    requires Mutual(h) && v < |h.active| && h.active[v] && OrderedBut(g, h.order, h.pos[v])
    ensures OrderedBut(g, Detach(h, v).order, h.pos[v])
  {
    var i, d := h.pos[v], Detach(h, v);
    forall j | 0 < j < |d.order| && j != i && (j - 1) / 2 != i ensures OkAt(g, d.order, j) {
      assert OkAt(g, h.order, j);
    }
  }

  lemma SiftBothRepairs(g: Graph, h: Heap, i: nat)
    requires Mutual(h) && OrderedBut(g, h.order, i)
    ensures Ordered(g, SiftBoth(g, h, i))
  {
    if i < |h.order| {
      SiftUpMutual(g, h, i);
      SiftUpRepairs(g, h, i);
      var up := SiftUp(g, h, i);
      if Ordered(g, up) {
        SiftDownIdle(g, up, i);
      } else {
        SiftDownRepairs(g, h, i);
      }
    }
  }

  lemma DeleteRepairs(g: Graph, h: Heap, v: nat)
    requires Mutual(h) && Active(h, v) && OrderedBut(g, h.order, h.pos[v])
    ensures Ordered(g, Delete(g, h, v))
  {
    DetachMutual(h, v);
    DetachOrdered(g, h, v);
    SiftBothRepairs(g, Detach(h, v), h.pos[v]);
  }

  lemma RefreshRepairs(g: Graph, h: Heap, v: nat)
    requires Mutual(h) && Active(h, v) && OrderedBut(g, h.order, h.pos[v])
    ensures Ordered(g, Refresh(g, h, v))
  {
    var i := h.pos[v];
    SiftUpMutual(g, h, i);
    SiftUpRepairs(g, h, i);
    var up := SiftUp(g, h, i);
    if Ordered(g, up) {
      SiftDownIdle(g, up, up.pos[v]);
    } else {
      SiftDownRepairs(g, h, i);
    }
  }

  /** The contract of Update: if the heap was ordered and since then only the rank of v changed, or v became
      or ceased to be eligible, the heap is ordered again and holds v exactly if v has outgoing arcs. */
  lemma UpdateRestoresOrder(g0: Graph, g1: Graph, h: Heap, v: nat)
    requires Mutual(h) && Ordered(g0, h) && RanksAgreeBut(g0, g1, v) && v < |h.active|
    ensures Mutual(Update(g1, h, v)) && Ordered(g1, Update(g1, h, v))
    ensures Update(g1, h, v).active == h.active[v := OutAt(g1, v) > 0]
  {
    UpdateMutual(g1, h, v);
    if !h.active[v] {
      OtherRanksOnly(g0, g1, h, v);
      if OutAt(g1, v) > 0 {
        AppendOrdered(g1, h, v);
      }
    } else {
      OneRankChanged(g0, g1, h, v);
      if OutAt(g1, v) <= 0 {
        DeleteRepairs(g1, h, v);
      } else {
        RefreshRepairs(g1, h, v);
      }
    }
  }

  // ---------- Pop ----------

  lemma {:induction false} TopIsBest(g: Graph, order: seq<nat>, j: nat)
    requires j < |order| && OrderedSeq(g, order)
    ensures !Better(g, order[j], order[0])
  {
    if j > 0 {
      TopIsBest(g, order, (j - 1) / 2);
      assert OkAt(g, order, j);
      NotBetterTrans(g, order[j], order[(j - 1) / 2], order[0]);
    }
  }

  lemma DeleteKeepsOrder(g: Graph, h: Heap, v: nat)
    requires Mutual(h) && v < |h.active| && h.active[v] && Ordered(g, h)
    ensures Ordered(g, Delete(g, h, v))
  {
    OneRankChanged(g, g, h, v);
    DeleteRepairs(g, h, v);
  }

  /** On an ordered heap Pop returns the best active vertex with outgoing arcs, if there is any, and leaves
      an ordered heap that holds every other such vertex. */
  lemma {:induction false} PopIsBest(g: Graph, h: Heap, u: nat)
    requires Mutual(h) && Ordered(g, h) && u < |h.active| && h.active[u] && OutAt(g, u) > 0
    ensures var r := Pop(g, h);
      && Ordered(g, r.heap) && r.best >= 0 && !Better(g, u, r.best)
      && !Active(r.heap, r.best) && (u != r.best ==> Active(r.heap, u))
    decreases |h.order|
  {
    var v := h.order[0];
    DeleteMutual(g, h, v);
    DeleteKeepsOrder(g, h, v);
    TopIsBest(g, h.order, h.pos[u]);
    if OutAt(g, v) <= 0 {
      PopIsBest(g, Delete(g, h, v), u);
    }
  }

  lemma PushOrdered(g: Graph, h: Heap, v: nat)
    requires Mutual(h) && v < |h.active| && Ordered(g, h)
    ensures Ordered(g, Push(g, h, v))
  {
    if !h.active[v] {
      AppendOrdered(g, h, v);
    }
  }

  lemma {:induction false} PushFromSound(g: Graph, h: Heap, v: nat, n: nat)
    requires Mutual(h) && v <= n == |h.active| && Ordered(g, h)
    ensures Mutual(PushFrom(g, h, v, n)) && |PushFrom(g, h, v, n).active| == n
    ensures Ordered(g, PushFrom(g, h, v, n))
    decreases n - v
  {
    if v < n {
      if OutAt(g, v) > 0 {
        PushMutual(g, h, v);
        PushOrdered(g, h, v);
        PushFromSound(g, Push(g, h, v), v + 1, n);
      } else {
        PushFromSound(g, h, v + 1, n);
      }
    }
  }

  lemma {:induction false} PushFromActive(g: Graph, h: Heap, v: nat, n: nat, u: nat)
    requires Mutual(h) && v <= n == |h.active| && u < n
    ensures Active(PushFrom(g, h, v, n), u) <==> h.active[u] || (v <= u && OutAt(g, u) > 0)
    decreases n - v
  {
    if v < n {
      if OutAt(g, v) > 0 {
        PushMutual(g, h, v);
        PushFromActive(g, Push(g, h, v), v + 1, n, u);
      } else {
        PushFromActive(g, h, v + 1, n, u);
      }
    }
  }

  /** A new heap is ordered. */
  lemma NewHeapOrdered(g: Graph, n: nat)
    ensures Mutual(NewHeap(g, n)) && Ordered(g, NewHeap(g, n))
  {
    PushFromSound(g, EmptyHeap(n), 0, n);
  }

  // ---------- Membership without order ----------

  /** The heap holds exactly the vertices with outgoing arcs. */
  ghost predicate Tracks(g: Graph, h: Heap) {
    && Mutual(h) && |h.active| == g.n
    && forall v :: 0 <= v < g.n ==> (h.active[v] <==> OutAt(g, v) > 0)
  }

  /** Whatever the order, Pop on such a heap returns a vertex with outgoing arcs and takes out only it. */
  lemma PopTracked(g: Graph, h: Heap)
    requires Tracks(g, h)
    ensures var r := Pop(g, h);
      && Mutual(r.heap)
      && (r.best < 0 <==> forall v :: 0 <= v < g.n ==> OutAt(g, v) <= 0)
      && (r.best >= 0 ==> r.best < g.n && OutAt(g, r.best) > 0 && r.heap.active == h.active[r.best := false])
  {
    if h.order != [] {
      assert h.active[h.order[0]];
      DeleteMutual(g, h, h.order[0]);
    } else {
      forall v | 0 <= v < g.n ensures OutAt(g, v) <= 0 {
        assert !h.active[v];
      }
    }
  }

  /** A new heap holds exactly the vertices with outgoing arcs. */
  lemma NewHeapTracks(g: Graph)
    ensures Tracks(g, NewHeap(g, g.n))
  {
    PushFromSound(g, EmptyHeap(g.n), 0, g.n);
    forall v | 0 <= v < g.n ensures Active(NewHeap(g, g.n), v) <==> OutAt(g, v) > 0 {
      PushFromActive(g, EmptyHeap(g.n), 0, g.n, v);
    }
  }
}
