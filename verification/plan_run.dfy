/** The plan of DensePlanner (internal/arccover/planner.go) is the packed run of the growth loop, with the limit and the
    window the caller and the configuration give. */
module PlanRun {
  import opened ArcTypes
  import opened GraphRule
  import opened HeapRule
  import opened DenseRule
  import opened DenseRounds
  import opened PackingRule
  import D = Dense
  import N = Normalize
  import P = Planner

  /** The trails of the run: its rounds, then one for every arc a cancellation left, by ascending id. */
  ghost predicate TrailsOf(rounds: seq<Round>, ts: seq<seq<Arc>>) {
    && |rounds| <= |ts|
    && (forall i :: 0 <= i < |rounds| ==> ts[i] == rounds[i].edges)
    && (forall i :: |rounds| <= i < |ts| ==> |ts[i]| == 1)
    && forall i, j :: |rounds| <= i < j < |ts| && |ts[i]| == |ts[j]| == 1 ==> ts[i][0].id < ts[j][0].id
  }

  lemma SinglesAscend(arcs: seq<Arc>, rounds: seq<Round>, grown: seq<seq<Arc>>)
    requires |grown| == |rounds| && forall i :: 0 <= i < |rounds| ==> grown[i] == rounds[i].edges
    requires forall i, j :: 0 <= i < j < |arcs| ==> arcs[i].id < arcs[j].id
    ensures TrailsOf(rounds, grown + Singles(arcs))
  {
    var ts: seq<seq<Arc>> := grown + Singles(arcs);
    forall i, j | |rounds| <= i < j < |ts| ensures ts[i][0].id < ts[j][0].id {
      assert ts[i] == [arcs[i - |rounds|]] && ts[j] == [arcs[j - |rounds|]];
    }
  }

  lemma TrailsOfRounds(g: Graph, h: Heap, cancelled: nat -> bool, limit: nat, window: int)
    requires Consistent(g) && Tracks(g, h) && limit > 0
    ensures TrailsOf(Rounds(g, h, cancelled, 0, limit, window), DenseTrails(g, h, cancelled, limit, window))
  {
    RoundsAreFragments(g, h, cancelled, 0, limit, window);
    GrowAllGood(g, h, cancelled, 0, limit, window);
    hide Consistent, Tracks, GrowAll, Rounds, Left, TrailsOf;
    var r := GrowAll(g, h, cancelled, 0, limit, window);
    D.LeftAscends(r.g);
    SinglesAscend(Left(r.g), Rounds(g, h, cancelled, 0, limit, window), r.fragments);
  }

  lemma FragmentsAreTrails(n: nat, arcs: seq<Arc>, cancelled: nat -> bool, limit: nat, window: int)
    requires InRange(n, arcs) && IdsAreIndexes(arcs) && limit > 0 && window > 0
    requires Consistent(InitialGraph(n, arcs)) && Tracks(InitialGraph(n, arcs), NewHeap(InitialGraph(n, arcs), n))
    ensures var g := InitialGraph(n, arcs);
      P.Fragments(n, arcs, cancelled, limit, window) ==
        Numbered(DenseTrails(g, NewHeap(g, n), cancelled, limit, window))
  {
    hide Consistent, Tracks, DenseTrails, NewHeap;
  }

  lemma DenseTrailsOfRun(n: nat, arcs: seq<Arc>, cancelled: nat -> bool, limit: nat, window: int)
    returns (ts: seq<seq<Arc>>)
    requires InRange(n, arcs) && IdsAreIndexes(arcs) && limit > 0 && window > 0
    ensures TrailsOf(Run(n, arcs, cancelled, limit, window), ts) && AllArcs(ts) == multiset(arcs)
    ensures P.Fragments(n, arcs, cancelled, limit, window) == Numbered(ts)
  {
    hide Consistent, Tracks, DenseTrails, Rounds, NewHeap, TrailsOf, AllArcs, P.Fragments, Left;
    var g := InitialGraph(n, arcs);
    InitialConsistent(n, arcs);
    NewHeapTracks(g);
    ts := DenseTrails(g, NewHeap(g, n), cancelled, limit, window);
    DenseTrailsExact(g, NewHeap(g, n), cancelled, limit, window);
    TrailsOfRounds(g, NewHeap(g, n), cancelled, limit, window);
    FragmentsAreTrails(n, arcs, cancelled, limit, window);
  }

  /** Whatever the input and the cancellation: the plan's routes are the packing, within the limit, of the trails of the
      growth loop's run on the normalized arcs with that limit and window. */
  lemma PlanPacksRun(config: P.Config, cancelled: nat -> bool, late: bool, n: nat, required: seq<Arc>, maxLegs: int,
                     limit: int, window: int)
    returns (ts: seq<seq<Arc>>)
    requires InRange(n, required) && required != []
    requires limit == if maxLegs > 0 then maxLegs else if config.maxLegs > 0 then config.maxLegs else 17
    requires window == if config.denseCandidateWindow > 0 then config.denseCandidateWindow else 8
    ensures var arcs := N.Normalized(required);
      && InRange(n, arcs) && IdsAreIndexes(arcs)
      && TrailsOf(Run(n, arcs, cancelled, limit, window), ts) && AllArcs(ts) == multiset(arcs)
      && NonEmptyFragments(Numbered(ts)) && IdsIncrease(Numbered(ts))
      && P.Planned(config, cancelled, late, n, required, maxLegs).routes == PackedRoutes(Numbered(ts), limit, arcs)
  {
    var arcs := N.Normalized(required);
    N.NormalizedInRange(n, required);
    N.NormalForm(required);
    P.PlannedShape(config, cancelled, late, n, required, maxLegs);
    P.FragmentsExact(n, arcs, cancelled, limit, config.denseCandidateWindow);
    P.DefaultWindow(n, arcs, cancelled, limit, config.denseCandidateWindow);
    hide P.Planned, P.Fragments, PackedRoutes, Run, AllArcs, N.Normalized;
    ts := DenseTrailsOfRun(n, arcs, cancelled, limit, window);
    P.FragmentsExact(n, arcs, cancelled, limit, window);
  }
}
