/**
 * A run of the growth loop (internal/arccover/dense.go) that loses the heap order.
 *
 * The arcs are ARCS, a route has at most two legs, and the window shows more than one arc.  Vertex 0 is popped from an
 * ordered heap.  Taking 0 -> 3 puts vertex 0 back at the end, under 3, which has become better and rises past 1; so 1
 * comes to stand above 0, which is preferred to it.  Taking 3 -> 4 does not repair this: the second fragment starts
 * from 1, which has no surplus, although 0 has.
 */
module HeapOrder {
  import opened ArcTypes
  import opened GraphRule
  import opened HeapRule
  import opened DenseRule
  import opened DenseRounds
  import HeapStep
  import opened Trails

  // ---------- The arcs and the states of the run ----------

  const ARCS: seq<Arc> := [
    Arc(0, 0, 2), Arc(1, 0, 3), Arc(2, 1, 3), Arc(3, 1, 4), Arc(4, 2, 1), Arc(5, 3, 4), Arc(6, 3, 5), Arc(7, 4, 1)
  ]

  /** The graph at the start, after the arc 0 -> 3, and after the arc 3 -> 4. */
  const START := Graph(6, ARCS, [[0, 1], [2, 3], [4], [5, 6], [7], []],
                       [true, true, true, true, true, true, true, true],
                       [2, 2, 1, 2, 1, 0], [0, 2, 1, 2, 2, 1], 8)
  const MIDDLE := Graph(6, ARCS, [[0], [2, 3], [4], [5, 6], [7], []],
                        [true, false, true, true, true, true, true, true],
                        [1, 2, 1, 2, 1, 0], [0, 2, 1, 1, 2, 1], 7)
  const END := Graph(6, ARCS, [[0], [2, 3], [4], [6], [7], []],
                     [true, false, true, true, true, false, true, true],
                     [1, 2, 1, 1, 1, 0], [0, 2, 1, 1, 1, 1], 6)

  /** The heap when new, after vertex 0 was popped, and after each of the two arcs. */
  const NEW := Heap([0, 1, 2, 3, 4], [0, 1, 2, 3, 4, -1], [true, true, true, true, true, false])
  const POPPED := Heap([1, 3, 2, 4], [-1, 0, 2, 1, 3, -1], [false, true, true, true, true, false])
  const BROKEN := Heap([3, 1, 2, 4, 0], [4, 1, 2, 0, 3, -1], [true, true, true, true, true, false])
  const LAST := Heap([1, 0, 2, 4, 3], [1, 0, 2, 4, 3, -1], [true, true, true, true, true, false])

  // ---------- The graph ----------

  lemma ArcDegrees(u: nat)
    requires u < 6
    ensures OutDeg(ARCS, u) == START.outDeg[u] && InDeg(ARCS, u) == START.inDeg[u]
  {
    var s0: seq<Arc>, a := [], ARCS;
    DegSnoc(s0, a[0], u);
    DegSnoc(s0 + [a[0]], a[1], u);
    var s2 := s0 + [a[0]] + [a[1]];
    DegSnoc(s2, a[2], u);
    DegSnoc(s2 + [a[2]], a[3], u);
    var s4 := s2 + [a[2]] + [a[3]];
    DegSnoc(s4, a[4], u);
    DegSnoc(s4 + [a[4]], a[5], u);
    var s6 := s4 + [a[4]] + [a[5]];
    DegSnoc(s6, a[6], u);
    DegSnoc(s6 + [a[6]], a[7], u);
    assert s6 + [a[6]] + [a[7]] == ARCS;
  }

  /** A list in order is left as it is. */
  lemma {:induction false} SortedStays(edges: seq<Arc>, ids: seq<nat>)
    requires IdsBelow(ids, |edges|) && Sorted(edges, ids)
    ensures SortIds(edges, ids) == ids
  {
    if ids != [] {
      SortedStays(edges, ids[..|ids| - 1]);
      if |ids| > 1 {
        assert InOrder(edges, ids[|ids| - 2], ids[|ids| - 1]);
      }
    }
  }

  lemma LeavingStep(u: nat, k: nat)
    requires k < 8
    ensures Leaving(ARCS, u, k + 1) == Leaving(ARCS, u, k) + if ARCS[k].from == u then [k] else []
  {
  }

  lemma ArcLists(u: nat)
    requires u < 6
    ensures SortIds(ARCS, Leaving(ARCS, u, 8)) == START.out[u]
  {
    assert Leaving(ARCS, u, 0) == [];
    hide Leaving, SortIds, IdsBelow;
    LeavingStep(u, 0);
    LeavingStep(u, 1);
    LeavingStep(u, 2);
    LeavingStep(u, 3);
    LeavingStep(u, 4);
    LeavingStep(u, 5);
    LeavingStep(u, 6);
    LeavingStep(u, 7);
    assert Leaving(ARCS, u, 8) == START.out[u];
    SortedStays(ARCS, START.out[u]);
  }

  lemma StartGraph()
    ensures InitialGraph(6, ARCS) == START
  {
    var g := InitialGraph(6, ARCS);
    forall u: nat | u < 6
      ensures g.out[u] == START.out[u] && g.outDeg[u] == START.outDeg[u] && g.inDeg[u] == START.inDeg[u]
    {
      ArcDegrees(u);
      ArcLists(u);
    }
    assert g.out == START.out && g.outDeg == START.outDeg && g.inDeg == START.inDeg;
    assert g.alive == START.alive;
  }

  lemma Removals()
    ensures RemoveArc(START, 1) == MIDDLE && RemoveArc(MIDDLE, 5) == END
  {
    assert [0, 1][1..] == [1];
    assert ListWithout([0, 1], 1) == [0];
    assert ListWithout([5, 6], 5) == [6];
    assert RemoveArc(START, 1).out == MIDDLE.out;
    assert RemoveArc(MIDDLE, 5).out == END.out;
  }

  /** From 0 the better head is 3, from 3 it is 4, whatever the window, unless it shows one arc only. */
  lemma Choices(window: int)
    requires window != 1
    ensures SelectNext(START, 0, window) == Take(1) && SelectNext(MIDDLE, 3, window) == Take(5)
  {
    assert BestSuccessor(START, [0, 1], 2) == 1;
    assert BestSuccessor(MIDDLE, [5, 6], 2) == 5;
  }

  /** The first fragment. */
  lemma FirstFragment(window: int)
    requires window != 1
    ensures Grow(START, 0, 2, window) == Growth(END, [ARCS[1], ARCS[5]], 4)
  {
    Removals();
    Choices(window);
    hide RemoveArc, SelectNext;
    assert Grow(END, 4, 0, window) == Growth(END, [], 4);
    assert Grow(MIDDLE, 3, 1, window) == Growth(END, [ARCS[5]], 4);
  }

  // ---------- The heap ----------

  lemma PushLast(g: Graph, h: Heap, v: nat)
    requires !Active(h, v) && (|h.order| > 0 ==> !Better(g, v, h.order[(|h.order| - 1) / 2]))
    ensures Push(g, h, v) == Append(h, v)
  {
  }

  lemma NewHeapOfStart()
    ensures NewHeap(START, 6) == NEW
  {
    var e := EmptyHeap(6);
    PushLast(START, e, 0);
    var h0 := Append(e, 0);
    PushLast(START, h0, 1);
    var h1 := Append(h0, 1);
    PushLast(START, h1, 2);
    var h2 := Append(h1, 2);
    PushLast(START, h2, 3);
    var h3 := Append(h2, 3);
    PushLast(START, h3, 4);
    var h4 := Append(h3, 4);
    hide Push, Better;
    assert PushFrom(START, h4, 5, 6) == h4;
    assert PushFrom(START, h2, 3, 6) == h4;
    assert PushFrom(START, h0, 1, 6) == h4;
    assert h4 == NEW;
  }

  /** Vertex 0 comes out; 4 takes its place and sinks below 1 and 3. */
  lemma FirstPop()
    ensures Pop(START, NEW) == Popped(POPPED, 0)
  {
    var d := Detach(NEW, 0);
    assert d.order == [4, 1, 2, 3] && d.pos == [-1, 1, 2, 3, 0, -1];
    assert SiftUp(START, d, 0) == d;
    var s := Swap(d, 0, 1);
    assert s.order == [1, 4, 2, 3] && s.pos == [-1, 0, 2, 3, 1, -1];
    var r := Swap(s, 1, 3);
    assert r == POPPED;
    assert SiftDown(START, r, 3) == r;
    assert SiftDown(START, s, 1) == r by { assert BestChild(START, s.order, 1) == 3; }
    assert SiftDown(START, d, 0) == r by { assert BestChild(START, d.order, 0) == 1; }
  }

  const RETURNED := Heap([1, 3, 2, 4, 0], [4, 0, 2, 1, 3, -1], [true, true, true, true, true, false])

  /** Vertex 0 comes back under 3, whose rank has risen. */
  lemma ZeroReturns()
    ensures Update(MIDDLE, POPPED, 0) == RETURNED
  {
    assert Append(POPPED, 0) == RETURNED;
    assert SiftUp(MIDDLE, RETURNED, 4) == RETURNED;
  }

  /** Then 3 rises past 1. */
  lemma ThreeRises()
    ensures Update(MIDDLE, RETURNED, 3) == BROKEN
  {
    assert Swap(RETURNED, 1, 0) == BROKEN;
    assert SiftUp(MIDDLE, BROKEN, 0) == BROKEN;
    assert SiftUp(MIDDLE, RETURNED, 1) == BROKEN;
    assert SiftDown(MIDDLE, BROKEN, 0) == BROKEN by { assert BestChild(MIDDLE, BROKEN.order, 0) == 1; }
  }

  lemma FirstStep()
    ensures StepHeap(MIDDLE, POPPED, ARCS[1]) == BROKEN
  {
    ZeroReturns();
    ThreeRises();
    hide Update;
  }

  /** Vertex 3 sinks below 1 and 0; 4 stays. */
  lemma SecondStep()
    ensures StepHeap(END, BROKEN, ARCS[5]) == LAST
  {
    assert SiftUp(END, BROKEN, 0) == BROKEN;
    var s := Swap(BROKEN, 0, 1);
    assert s.order == [1, 3, 2, 4, 0] && s.pos == [4, 0, 2, 1, 3, -1];
    var r := Swap(s, 1, 4);
    assert r == LAST;
    assert SiftDown(END, r, 4) == r;
    assert SiftDown(END, s, 1) == r by { assert BestChild(END, s.order, 1) == 4; }
    assert SiftDown(END, BROKEN, 0) == r by { assert BestChild(END, BROKEN.order, 0) == 1; }
    assert Update(END, BROKEN, 3) == LAST;
    assert SiftUp(END, LAST, 3) == LAST && SiftDown(END, LAST, 3) == LAST;
    assert Update(END, LAST, 4) == LAST;
  }

  // ---------- The run ----------

  lemma ArcsAreGood()
    ensures InRange(6, ARCS) && IdsAreIndexes(ARCS)
  {
  }

  lemma StartIsReady()
    ensures Consistent(START) && Tracks(START, NEW)
  {
    StartGraph();
    NewHeapOfStart();
    ArcsAreGood();
    hide InitialGraph, NewHeap, Consistent, Tracks;
    InitialConsistent(6, ARCS);
    NewHeapTracks(START);
  }

  lemma FirstHeap()
    ensures HeapAfter(START, POPPED, [ARCS[1], ARCS[5]]) == LAST
  {
    Removals();
    FirstStep();
    SecondStep();
    hide StepHeap, RemoveArc;
    assert HeapAfter(END, LAST, []) == LAST;
    assert [ARCS[1], ARCS[5]][1..] == [ARCS[5]] && [ARCS[5]][1..] == [];
    assert HeapAfter(MIDDLE, BROKEN, [ARCS[5]]) == LAST;
  }

  lemma EndIsReady()
    ensures Consistent(END) && Tracks(END, LAST)
  {
    StartIsReady();
    FirstPop();
    FirstFragment(0);
    FirstHeap();
    hide Consistent, Tracks, Pop, Grow, HeapAfter;
    StartGrows(START, NEW, 2, 0);
  }

  /** The rounds of the loop on these arcs, with at most two legs to a route. */
  function ExampleRun(cancelled: nat -> bool, window: int): seq<Round> {
    ArcsAreGood();
    Run(6, ARCS, cancelled, 2, window)
  }

  lemma FirstRound(cancelled: nat -> bool, window: int)
    requires window != 1 && !cancelled(0) && Consistent(END) && Tracks(END, LAST)
    ensures ExampleRun(cancelled, window) ==
      [Round(START, POPPED, 0, [ARCS[1], ARCS[5]])] + Rounds(END, LAST, cancelled, 1, 2, window)
  {
    StartGraph();
    NewHeapOfStart();
    FirstPop();
    FirstFragment(window);
    FirstHeap();
    StartIsReady();
    hide InitialGraph, NewHeap, Consistent, Tracks, Pop, Grow, HeapAfter;
  }

  /** The loop starts at 0 with an ordered heap, and already its first arc leaves the heap unordered. */
  lemma RunLosesOrder(cancelled: nat -> bool, window: int)
    requires window != 1 && !cancelled(0)
    ensures var rounds := ExampleRun(cancelled, window);
      && rounds != [] && rounds[0].edges == [ARCS[1], ARCS[5]]
      && Ordered(rounds[0].g, rounds[0].heap)
      && var next := RemoveArc(rounds[0].g, 1);
         && HeapStep.Displaces(next, rounds[0].heap, ARCS[1])
         && !Ordered(next, StepHeap(next, rounds[0].heap, ARCS[1]))
  {
    EndIsReady();
    FirstRound(cancelled, window);
    FirstStepBreaks();
    hide ExampleRun, Ordered, HeapStep.Displaces, StepHeap, RemoveArc, Consistent, Tracks;
  }

  lemma FirstStepBreaks()
    ensures Ordered(START, POPPED) && !Ordered(RemoveArc(START, 1), StepHeap(RemoveArc(START, 1), POPPED, ARCS[1]))
    ensures HeapStep.Displaces(RemoveArc(START, 1), POPPED, ARCS[1])
  {
    Removals();
    FirstStep();
    PoppedIsOrdered();
    BrokenIsNotOrdered();
    hide RemoveArc, StepHeap, Ordered;
    assert HeapStep.Below(4, 1);
  }

  lemma PoppedIsOrdered()
    ensures Ordered(START, POPPED)
  {
    assert OkAt(START, POPPED.order, 1) && OkAt(START, POPPED.order, 2) && OkAt(START, POPPED.order, 3);
  }

  lemma BrokenIsNotOrdered()
    ensures !Ordered(MIDDLE, BROKEN)
  {
    assert !OkAt(MIDDLE, BROKEN.order, 4);
  }

  /** The second fragment starts from 1, which has balance 0, although 0 is in the heap, is preferred to it,
      and has surplus left. */
  lemma RunStartsSecondBest(cancelled: nat -> bool, window: int)
    requires window != 1 && !cancelled(0) && !cancelled(1)
    ensures var rounds := ExampleRun(cancelled, window);
      && |rounds| >= 2 && rounds[1].start == 1
      && var g := rounds[1].g;
         && |g.edges| == |g.alive| && Active(rounds[1].heap, 0)
         && Better(g, 0, rounds[1].start) && !HeapStep.BestStart(g, rounds[1].start)
         && Balance(Left(g), rounds[1].start) == 0 && Balance(Left(g), 0) == 1
  {
    EndIsReady();
    FirstRound(cancelled, window);
    SecondPop();
    EndBalances();
    hide ExampleRun, Consistent, Tracks, Pop, Grow, HeapAfter, Left, Balance, Better;
    assert Rounds(END, LAST, cancelled, 1, 2, window)[0].start == 1;
  }

  lemma EndBalances()
    requires Consistent(END)
    ensures |END.edges| == |END.alive| && Balance(Left(END), 1) == 0 && Balance(Left(END), 0) == 1
    ensures Better(END, 0, 1) && OutAt(END, 0) > 0
  {
    assert DegreesOk(END, 0) && DegreesOk(END, 1);
    hide Left, OutDeg, InDeg;
  }

  lemma SecondPop()
    requires Tracks(END, LAST)
    ensures Pop(END, LAST).best == 1 && Active(Pop(END, LAST).heap, 0)
  {
    PopTracked(END, LAST);
    hide Tracks, Delete;
    assert Pop(END, LAST).best == 1;
  }
}
