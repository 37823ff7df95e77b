/** The rounds of the growth loop (internal/arccover/dense.go), and what a whole run does to the surplus. */
module DenseRounds {
  import opened ArcTypes
  import opened Sums
  import opened Trails
  import opened GraphRule
  import opened HeapRule
  import opened DenseRule

  // ---------- The rounds of the loop ----------

  /** One fragment: the graph before it, the heap after its start was popped, the start, and its arcs. */
  datatype Round = Round(g: Graph, heap: Heap, start: nat, edges: seq<Arc>)

  predicate Continues(g: Graph, h: Heap, cancelled: nat -> bool, k: nat)
    requires Mutual(h)
  {
    g.remaining > 0 && !cancelled(k) && Pop(g, h).best >= 0
  }

  function Rounds(g: Graph, h: Heap, cancelled: nat -> bool, k: nat, maxLegs: nat, window: int): seq<Round>
    requires Consistent(g) && Tracks(g, h) && maxLegs > 0
    decreases g.remaining
  {
    if !Continues(g, h, cancelled, k) then []
    else
      StartGrows(g, h, maxLegs, window);
      var p := Pop(g, h);
      var r := Grow(g, p.best, maxLegs, window);
      [Round(g, p.heap, p.best, r.edges)] +
        Rounds(r.g, HeapAfter(g, p.heap, r.edges), cancelled, k + 1, maxLegs, window)
  }

  /** The rounds of the loop on a graph built from the required arcs. */
  function Run(n: nat, required: seq<Arc>, cancelled: nat -> bool, maxLegs: nat, window: int): seq<Round>
    requires InRange(n, required) && IdsAreIndexes(required) && maxLegs > 0
  {
    var g := InitialGraph(n, required);
    InitialConsistent(n, required);
    NewHeapTracks(g);
    Rounds(g, NewHeap(g, n), cancelled, 0, maxLegs, window)
  }

  /** The fragments of the loop are the arcs of its rounds. */
  lemma {:induction false} RoundsAreFragments(g: Graph, h: Heap, cancelled: nat -> bool, k: nat, maxLegs: nat,
                                              window: int)
    requires Consistent(g) && Tracks(g, h) && maxLegs > 0
    ensures var rounds, fragments :=
        Rounds(g, h, cancelled, k, maxLegs, window), GrowAll(g, h, cancelled, k, maxLegs, window).fragments;
      |fragments| == |rounds| && forall i :: 0 <= i < |rounds| ==> fragments[i] == rounds[i].edges
    decreases g.remaining
  {
    hide Pop, Grow, HeapAfter;
    if Continues(g, h, cancelled, k) {
      StartGrows(g, h, maxLegs, window);
      var p := Pop(g, h);
      var r := Grow(g, p.best, maxLegs, window);
      RoundsAreFragments(r.g, HeapAfter(g, p.heap, r.edges), cancelled, k + 1, maxLegs, window);
    }
  }

  // ---------- What the rounds are ----------

  /** The graph when these arcs have been removed. */
  function Taken(g: Graph, edges: seq<Arc>): Graph
    decreases edges
  {
    if edges == [] then g else Taken(RemoveArc(g, edges[0].id), edges[1..])
  }

  lemma {:induction false} GrowTakes(g: Graph, current: nat, budget: nat, window: int)
    requires Consistent(g) && current < g.n
    ensures var r := Grow(g, current, budget, window); r.g == Taken(g, r.edges)
    decreases budget
  {
    hide SelectNext, RemoveArc, Grow, Consistent;
    if budget > 0 && OutList(g, current) != [] {
      var id, next := GrowStep(g, current, budget, window);
      EdgeIdIs(g, id);
      GrowTakes(next, g.edges[id].to, budget - 1, window);
      var rest := Grow(next, g.edges[id].to, budget - 1, window).edges;
      assert ([g.edges[id]] + rest)[1..] == rest;
    } else {
      GrowEnds(g, current, budget, window);
    }
  }

  lemma EdgeIdIs(g: Graph, id: nat)
    requires Consistent(g) && Alive(g, id)
    ensures g.edges[id].id == id
  {
  }

  /** One round: a greedy trail from its start, of maxLegs arcs unless no arc leaves its end any more. */
  ghost predicate GrownFrom(round: Round, maxLegs: nat, window: int) {
    && Consistent(round.g) && round.start < round.g.n
    && 0 < |round.edges| <= maxLegs && Greedy(round.g, round.start, window, round.edges)
    && (|round.edges| < maxLegs ==>
      OutList(Taken(round.g, round.edges), round.edges[|round.edges| - 1].to) == [])
  }

  /** No look before a round found the context done; looks are counted from k. */
  ghost predicate AllGrown(rounds: seq<Round>, cancelled: nat -> bool, k: nat, maxLegs: nat, window: int) {
    forall i :: 0 <= i < |rounds| ==> GrownFrom(rounds[i], maxLegs, window) && !cancelled(k + i)
  }

  /** Each round works on what the round before left; the first on g. */
  ghost predicate Linked(g: Graph, rounds: seq<Round>) {
    && (rounds != [] ==> rounds[0].g == g)
    && forall i :: 0 <= i < |rounds| - 1 ==> rounds[i + 1].g == Taken(rounds[i].g, rounds[i].edges)
  }

  /** What the last round leaves. */
  function LeftAfter(g: Graph, rounds: seq<Round>): Graph {
    if rounds == [] then g else Taken(rounds[|rounds| - 1].g, rounds[|rounds| - 1].edges)
  }

  lemma LinkedCons(g: Graph, round: Round, rest: seq<Round>)
    requires round.g == g && Linked(Taken(g, round.edges), rest)
    ensures Linked(g, [round] + rest)
    ensures LeftAfter(g, [round] + rest) == LeftAfter(Taken(g, round.edges), rest)
  {
    hide Taken;
    var all := [round] + rest;
    forall i | 0 <= i < |all| - 1 ensures all[i + 1].g == Taken(all[i].g, all[i].edges) {
      assert all[i + 1] == rest[i] && (i > 0 ==> all[i] == rest[i - 1]);
    }
  }

  lemma RoundIsGrown(g: Graph, start: nat, heap: Heap, maxLegs: nat, window: int)
    requires Consistent(g) && start < g.n && maxLegs > 0 && Grow(g, start, maxLegs, window).edges != []
    ensures GrownFrom(Round(g, heap, start, Grow(g, start, maxLegs, window).edges), maxLegs, window)
  {
    GrowCounts(g, start, maxLegs, window);
    GrowTrail(g, start, maxLegs, window);
    GrowIsGreedy(g, start, maxLegs, window);
    GrowTakes(g, start, maxLegs, window);
    hide Grow, Greedy, Taken, Consistent;
  }

  /** Every round is grown as it should be from what is left, no look before a round found the context done, and the
      rounds end only where no arc is left or the next look does. */
  lemma {:induction false} RoundsAreGrown(g: Graph, h: Heap, cancelled: nat -> bool, k: nat, maxLegs: nat, window: int)
    requires Consistent(g) && Tracks(g, h) && maxLegs > 0
    ensures var rounds := Rounds(g, h, cancelled, k, maxLegs, window);
      && Linked(g, rounds)
      && AllGrown(rounds, cancelled, k, maxLegs, window)
      && (cancelled(k + |rounds|) || LeftAfter(g, rounds).remaining == 0)
    decreases g.remaining
  {
    hide Pop, Grow, HeapAfter, GrownFrom, AllGrown, Consistent, Taken, Linked, LeftAfter;
    if Continues(g, h, cancelled, k) {
      var round, next, heap := RoundsStep(g, h, cancelled, k, maxLegs, window);
      GrowTakes(g, round.start, maxLegs, window);
      RoundIsGrown(g, round.start, round.heap, maxLegs, window);
      RoundsAreGrown(next, heap, cancelled, k + 1, maxLegs, window);
      var rest := Rounds(next, heap, cancelled, k + 1, maxLegs, window);
      LinkedCons(g, round, rest);
      GrownCons(round, rest, cancelled, k, maxLegs, window);
    } else {
      NoRoundsLinked(g);
      NoRoundsGrown(cancelled, k, maxLegs, window);
      NothingContinues(g, h, cancelled, k);
    }
  }

  lemma GrownCons(round: Round, rest: seq<Round>, cancelled: nat -> bool, k: nat, maxLegs: nat, window: int)
    requires GrownFrom(round, maxLegs, window) && !cancelled(k)
    requires AllGrown(rest, cancelled, k + 1, maxLegs, window)
    ensures AllGrown([round] + rest, cancelled, k, maxLegs, window)
  {
    hide GrownFrom;
    var all := [round] + rest;
    forall i | 0 <= i < |all| ensures GrownFrom(all[i], maxLegs, window) && !cancelled(k + i) {
      if i > 0 {
        assert all[i] == rest[i - 1] && k + 1 + (i - 1) == k + i;
      }
    }
  }

  lemma NoRoundsLinked(g: Graph)
    ensures Linked(g, []) && LeftAfter(g, []) == g
  {
  }

  lemma NoRoundsGrown(cancelled: nat -> bool, k: nat, maxLegs: nat, window: int)
    ensures AllGrown([], cancelled, k, maxLegs, window)
  {
  }

  lemma NothingContinues(g: Graph, h: Heap, cancelled: nat -> bool, k: nat)
    requires Consistent(g) && Tracks(g, h) && !Continues(g, h, cancelled, k)
    ensures cancelled(k) || g.remaining == 0
  {
    PopTracked(g, h);
    if Pop(g, h).best < 0 {
      NoOutNoArcs(g);
    }
    hide Left;
  }

  /** The same for the loop on a graph built from the required arcs. */
  lemma RunIsGrown(n: nat, required: seq<Arc>, cancelled: nat -> bool, maxLegs: nat, window: int)
    requires InRange(n, required) && IdsAreIndexes(required) && maxLegs > 0
    ensures var g, rounds := InitialGraph(n, required), Run(n, required, cancelled, maxLegs, window);
      && Linked(g, rounds)
      && AllGrown(rounds, cancelled, 0, maxLegs, window)
      && (cancelled(|rounds|) || LeftAfter(g, rounds).remaining == 0)
  {
    hide Rounds, Tracks, AllGrown, Linked, LeftAfter;
    var g := InitialGraph(n, required);
    InitialConsistent(n, required);
    NewHeapTracks(g);
    RoundsAreGrown(g, NewHeap(g, n), cancelled, 0, maxLegs, window);
  }

  // ---------- Counting fragments ----------

  /** The fragments of maxLegs arcs. */
  function FullRounds(rounds: seq<Round>, maxLegs: nat): nat {
    if rounds == [] then 0
    else FullRounds(rounds[1..], maxLegs) + if |rounds[0].edges| >= maxLegs then 1 else 0
  }

  function StartBalance(round: Round): int {
    if |round.g.edges| == |round.g.alive| then Balance(Left(round.g), round.start) else 0
  }

  /** The shorter fragments that started where more arcs left than arrived. */
  function ShortSurplusRounds(rounds: seq<Round>, maxLegs: nat): nat {
    if rounds == [] then 0
    else
      ShortSurplusRounds(rounds[1..], maxLegs) +
        if |rounds[0].edges| < maxLegs && StartBalance(rounds[0]) > 0 then 1 else 0
  }

  lemma CountsCons(round: Round, rest: seq<Round>, maxLegs: nat)
    ensures FullRounds([round] + rest, maxLegs) ==
      FullRounds(rest, maxLegs) + if |round.edges| >= maxLegs then 1 else 0
    ensures ShortSurplusRounds([round] + rest, maxLegs) ==
      ShortSurplusRounds(rest, maxLegs) + if |round.edges| < maxLegs && StartBalance(round) > 0 then 1 else 0
  {
    assert ([round] + rest)[1..] == rest;
  }

  lemma SurplusIsNatural(n: nat, arcs: seq<Arc>)
    ensures TotalSurplus(n, arcs) >= 0
  {
    SumConst(Zeros(n), 0);
    SumLe(Zeros(n), Surpluses(n, arcs));
  }

  /** Any fragment raises the surplus by one at most. */
  lemma FragmentAddsAtMostOne(g: Graph, start: nat, maxLegs: nat, window: int)
    requires Consistent(g) && start < g.n
    ensures var r := Grow(g, start, maxLegs, window);
      |r.g.edges| == |r.g.alive| && TotalSurplus(g.n, Left(r.g)) <= TotalSurplus(g.n, Left(g)) + 1
  {
    var r := Grow(g, start, maxLegs, window);
    GrowCounts(g, start, maxLegs, window);
    var before, after := Surpluses(g.n, Left(g)), Surpluses(g.n, Left(r.g));
    forall v | 0 <= v < g.n ensures after[v] <= before[v] + if v == r.stop then 1 else 0 {
      GrowBalance(g, start, maxLegs, window, v);
    }
    var raised := before[r.stop := before[r.stop] + 1];
    SumUpdate(before, r.stop, before[r.stop] + 1);
    SumLe(after, raised);
  }

  /** What one fragment does to the surplus, by its kind. */
  lemma RoundSurplus(g: Graph, start: nat, maxLegs: nat, window: int)
    requires Consistent(g) && start < g.n
    ensures var r := Grow(g, start, maxLegs, window);
      && |r.g.edges| == |r.g.alive|
      && TotalSurplus(g.n, Left(r.g)) + (if |r.edges| < maxLegs && Balance(Left(g), start) > 0 then 1 else 0)
        <= TotalSurplus(g.n, Left(g)) + (if |r.edges| >= maxLegs then 1 else 0)
  {
    hide Grow, TotalSurplus, Balance;
    var r := Grow(g, start, maxLegs, window);
    if |r.edges| >= maxLegs {
      FragmentAddsAtMostOne(g, start, maxLegs, window);
    } else if Balance(Left(g), start) > 0 {
      ShortFragmentLowersSurplus(g, start, maxLegs, window);
    } else {
      ShortFragmentKeepsSurplus(g, start, maxLegs, window);
    }
  }

  /** One round, as an abstract step. */
  lemma RoundsStep(g: Graph, h: Heap, cancelled: nat -> bool, k: nat, maxLegs: nat, window: int)
    returns (round: Round, next: Graph, heap: Heap)
    requires Consistent(g) && Tracks(g, h) && maxLegs > 0 && Continues(g, h, cancelled, k)
    ensures round.g == g && round.start < g.n
    ensures round.heap == Pop(g, h).heap && round.start == Pop(g, h).best
    ensures round.edges == Grow(g, round.start, maxLegs, window).edges
    ensures next == Grow(g, round.start, maxLegs, window).g
    ensures Consistent(next) && next.n == g.n && Tracks(next, heap) && heap == HeapAfter(g, round.heap, round.edges)
    ensures next.remaining == g.remaining - |round.edges| < g.remaining && |round.edges| <= maxLegs
    ensures Rounds(g, h, cancelled, k, maxLegs, window) ==
      [round] + Rounds(next, heap, cancelled, k + 1, maxLegs, window)
  {
    StartGrows(g, h, maxLegs, window);
    var p := Pop(g, h);
    GrowCounts(g, p.best, maxLegs, window);
    hide Consistent, Tracks, Pop, Grow, HeapAfter;
    var r := Grow(g, p.best, maxLegs, window);
    round, next, heap := Round(g, p.heap, p.best, r.edges), r.g, HeapAfter(g, p.heap, r.edges);
  }

  lemma {:induction false} RoundsCount(g: Graph, h: Heap, cancelled: nat -> bool, k: nat, maxLegs: nat, window: int)
    requires Consistent(g) && Tracks(g, h) && maxLegs > 0
    ensures var rounds := Rounds(g, h, cancelled, k, maxLegs, window);
      && FullRounds(rounds, maxLegs) * maxLegs <= g.remaining
      && ShortSurplusRounds(rounds, maxLegs) <= TotalSurplus(g.n, Left(g)) + FullRounds(rounds, maxLegs)
    decreases g.remaining
  {
    hide Pop, Grow, HeapAfter, TotalSurplus, Left, FullRounds, ShortSurplusRounds;
    if Continues(g, h, cancelled, k) {
      var round, next, heap := RoundsStep(g, h, cancelled, k, maxLegs, window);
      RoundsCount(next, heap, cancelled, k + 1, maxLegs, window);
      RoundSurplus(g, round.start, maxLegs, window);
      var rest := Rounds(next, heap, cancelled, k + 1, maxLegs, window);
      CountsCons(round, rest, maxLegs);
      MulSucc(FullRounds(rest, maxLegs), maxLegs);
    } else {
      assert FullRounds([], maxLegs) == 0 && ShortSurplusRounds([], maxLegs) == 0 by {
        NoRounds(maxLegs);
      }
      SurplusIsNatural(g.n, Left(g));
    }
  }

  lemma NoRounds(maxLegs: nat)
    ensures FullRounds([], maxLegs) == 0 && ShortSurplusRounds([], maxLegs) == 0
  {
  }

  /** A whole run, cancelled or not: the full fragments use up the arcs, and every short fragment from a start with
      surplus is paid for by the surplus of the required arcs or by a full fragment. */
  lemma RunCounts(n: nat, required: seq<Arc>, cancelled: nat -> bool, maxLegs: nat, window: int)
    requires InRange(n, required) && IdsAreIndexes(required) && maxLegs > 0
    ensures var rounds := Run(n, required, cancelled, maxLegs, window);
      && FullRounds(rounds, maxLegs) * maxLegs <= |required|
      && ShortSurplusRounds(rounds, maxLegs) <= TotalSurplus(n, required) + FullRounds(rounds, maxLegs)
  {
    hide Rounds, TotalSurplus, FullRounds, ShortSurplusRounds, Tracks;
    var g := InitialGraph(n, required);
    InitialConsistent(n, required);
    NewHeapTracks(g);
    RoundsCount(g, NewHeap(g, n), cancelled, 0, maxLegs, window);
  }
}
