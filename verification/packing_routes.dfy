/**
 * What the packed routes carry: continuous walks within the leg limit, every fragment's arcs once and in
 * order, and unpacking (RoutesToRequiredFragments in internal/arccover/packing.go) gives them back.
 */
module PackingRoutes {
  import opened ArcTypes
  import opened PackingRule
  import opened PackingBound
  import opened Sums

  // ---------- Required legs as arcs ----------

  function LegArc(leg: Leg): Arc { Arc(leg.edgeId, leg.from, leg.to) }

  /** The arcs of the required legs, in order. */
  function RequiredOf(legs: seq<Leg>): seq<Arc> {
    if legs == [] then []
    else
      var rest := RequiredOf(legs[..|legs| - 1]);
      if legs[|legs| - 1].kind.LegBridge? then rest else rest + [LegArc(legs[|legs| - 1])]
  }

  function RequiredOfAll(routes: seq<Route>): seq<Arc> {
    if routes == [] then []
    else RequiredOfAll(routes[..|routes| - 1]) + RequiredOf(routes[|routes| - 1].legs)
  }

  // ---------- Unpacking ----------

  datatype Splitting = Splitting(done: seq<seq<Arc>>, current: seq<Arc>) {
    function Flush(): seq<seq<Arc>> { if current == [] then done else done + [current] }
  }

  /** Cut the legs at every bridge. */
  function Split(legs: seq<Leg>): Splitting {
    if legs == [] then Splitting([], [])
    else
      var s := Split(legs[..|legs| - 1]);
      var leg := legs[|legs| - 1];
      if leg.kind.LegBridge? then Splitting(s.Flush(), [])
      else Splitting(s.done, s.current + [LegArc(leg)])
  }

  function Unpack(legs: seq<Leg>): seq<seq<Arc>> { Split(legs).Flush() }

  function UnpackAll(routes: seq<Route>): seq<seq<Arc>> {
    if routes == [] then []
    else UnpackAll(routes[..|routes| - 1]) + Unpack(routes[|routes| - 1].legs)
  }

  /** The fragments between bridges, numbered from 0 across all routes. */
  method RoutesToRequiredFragments(routes: seq<Route>) returns (frags: seq<Fragment>)
    ensures frags == Numbered(UnpackAll(routes))
  {
    frags := [];
    var id := 0;
    for r := 0 to |routes|
      invariant id == |frags| && frags == Numbered(UnpackAll(routes[..r]))
    {
      var legs := routes[r].legs;
      var cur: seq<Arc> := [];
      ghost var before := UnpackAll(routes[..r]);
      for k := 0 to |legs|
        invariant id == |frags| && frags == Numbered(before + Split(legs[..k]).done)
        invariant cur == Split(legs[..k]).current
      {
        assert legs[..k + 1][..k] == legs[..k];
        if legs[k].kind.LegBridge? {
          if |cur| > 0 {
            frags := frags + [Fragment(cur, id)];
            id := id + 1;
            assert before + Split(legs[..k]).done + [cur] == before + (Split(legs[..k]).done + [cur]);
            cur := [];
          }
        } else {
          cur := cur + [LegArc(legs[k])];
        }
      }
      assert legs[..|legs|] == legs;
      if |cur| > 0 {
        frags := frags + [Fragment(cur, id)];
        id := id + 1;
        assert before + Split(legs).done + [cur] == before + (Split(legs).done + [cur]);
      }
      assert routes[..r + 1][..r] == routes[..r];
    }
    assert routes[..|routes|] == routes;
  }

  // ---------- Packed legs ----------

  lemma {:induction false} RequiredOfConcat(a: seq<Leg>, b: seq<Leg>)
    ensures RequiredOf(a + b) == RequiredOf(a) + RequiredOf(b)
  {
    if b == [] {
      assert a + b == a;
    } else {
      RequiredOfConcat(a, b[..|b| - 1]);
      assert (a + b)[..|a + b| - 1] == a + b[..|b| - 1];
    }
  }

  lemma {:induction false} RequiredOfFragment(f: Fragment)
    ensures RequiredOf(FragmentLegs(f)) == f.edges
    decreases |f.edges|
  {
    if f.edges != [] {
      var g := f.(edges := f.edges[..|f.edges| - 1]);
      RequiredOfFragment(g);
      assert FragmentLegs(f)[..|f.edges| - 1] == FragmentLegs(g);
    }
  }

  lemma SplitRequired(legs: seq<Leg>, leg: Leg)
    requires leg.kind.LegRequired?
    ensures Split(legs + [leg]) == Splitting(Split(legs).done, Split(legs).current + [LegArc(leg)])
  {
    assert (legs + [leg])[..|legs|] == legs;
  }

  lemma FragmentLegsSnoc(f: Fragment) returns (init: Fragment, last: Leg)
    requires f.edges != []
    ensures init.edges == f.edges[..|f.edges| - 1] && f.edges == init.edges + [LegArc(last)]
    ensures FragmentLegs(f) == FragmentLegs(init) + [last] && last.kind.LegRequired?
  {
    init := f.(edges := f.edges[..|f.edges| - 1]);
    last := FragmentLegs(f)[|f.edges| - 1];
  }

  lemma {:induction false} SplitFragment(legs: seq<Leg>, f: Fragment)
    ensures Split(legs + FragmentLegs(f)) == Splitting(Split(legs).done, Split(legs).current + f.edges)
    decreases |f.edges|
  {
    hide Split;
    if f.edges == [] {
      assert legs + FragmentLegs(f) == legs;
    } else {
      hide FragmentLegs, LegArc;
      var init, last := FragmentLegsSnoc(f);
      SplitFragment(legs, init);
      SplitRequired(legs + FragmentLegs(init), last);
      assert legs + FragmentLegs(f) == legs + FragmentLegs(init) + [last];
      assert Split(legs).current + init.edges + [LegArc(last)] == Split(legs).current + f.edges;
    }
  }

  lemma SplitBridge(legs: seq<Leg>, from: nat, to: nat)
    ensures Split(legs + [Bridge(from, to)]) == Splitting(Split(legs).Flush(), [])
  {
    assert (legs + [Bridge(from, to)])[..|legs|] == legs;
  }

  /** The arcs of the fragments named by `group`, one list per fragment. */
  function EdgeLists(fs: seq<Fragment>, group: seq<nat>): seq<seq<Arc>>
    requires forall i :: 0 <= i < |group| ==> group[i] < |fs|
  {
    seq(|group|, i requires 0 <= i < |group| => fs[group[i]].edges)
  }

  lemma {:induction false} SplitTail(fs: seq<Fragment>, legs: seq<Leg>, picks: seq<nat>, end: nat)
    requires NonEmptyFragments(fs) && IndicesOf(fs, picks) && Split(legs).current != []
    ensures Unpack(legs + TailLegs(fs, picks, end)) == Unpack(legs) + EdgeLists(fs, picks)
    decreases |picks|
  {
    hide FragmentLegs;
    var tail := TailLegs(fs, picks, end);
    if picks == [] {
      assert legs + tail == legs;
    } else {
      var f := fs[picks[0]];
      var next := legs + [Bridge(end, f.Start())] + FragmentLegs(f);
      SplitBridge(legs, end, f.Start());
      SplitFragment(legs + [Bridge(end, f.Start())], f);
      SplitTail(fs, next, picks[1..], f.End());
      assert legs + tail == next + TailLegs(fs, picks[1..], f.End());
      assert [] + f.edges == f.edges;
      assert Unpack(next) == Unpack(legs) + [f.edges];
      assert EdgeLists(fs, picks) == [f.edges] + EdgeLists(fs, picks[1..]);
    }
  }

  lemma UnpackRoute(fs: seq<Fragment>, group: seq<nat>)
    requires NonEmptyFragments(fs) && group != [] && IndicesOf(fs, group)
    ensures Unpack(RouteOf(fs, group).legs) == EdgeLists(fs, group)
  {
    var f := fs[group[0]];
    SplitOneFragment(f);
    SplitTail(fs, FragmentLegs(f), group[1..], f.End());
    assert EdgeLists(fs, group) == [f.edges] + EdgeLists(fs, group[1..]);
  }

  lemma SplitOneFragment(f: Fragment)
    ensures Split(FragmentLegs(f)) == Splitting([], f.edges)
    ensures f.edges != [] ==> Unpack(FragmentLegs(f)) == [f.edges]
  {
    hide FragmentLegs;
    SplitFragment([], f);
    assert [] + FragmentLegs(f) == FragmentLegs(f) && [] + f.edges == f.edges;
  }

  ghost predicate GroupsOf(fs: seq<Fragment>, groups: seq<seq<nat>>) {
    forall g :: 0 <= g < |groups| ==> groups[g] != [] && IndicesOf(fs, groups[g])
  }

  lemma EdgeListsConcat(fs: seq<Fragment>, a: seq<nat>, b: seq<nat>)
    requires IndicesOf(fs, a) && IndicesOf(fs, b)
    ensures IndicesOf(fs, a + b) && EdgeLists(fs, a + b) == EdgeLists(fs, a) + EdgeLists(fs, b)
  {
  }

  lemma RoutesOfSnoc(fs: seq<Fragment>, groups: seq<seq<nat>>)
    requires NonEmptyFragments(fs) && GroupsOf(fs, groups) && groups != []
    ensures var n := |groups| - 1;
      && GroupsOf(fs, groups[..n])
      && UnpackAll(RoutesOf(fs, groups)) == UnpackAll(RoutesOf(fs, groups[..n])) + Unpack(RouteOf(fs, groups[n]).legs)
  {
    hide Unpack, RouteOf;
    assert RoutesOf(fs, groups)[..|groups| - 1] == RoutesOf(fs, groups[..|groups| - 1]);
  }

  lemma {:induction false} UnpackRoutes(fs: seq<Fragment>, groups: seq<seq<nat>>)
    requires NonEmptyFragments(fs) && GroupsOf(fs, groups)
    ensures IndicesOf(fs, Flatten(groups))
    ensures UnpackAll(RoutesOf(fs, groups)) == EdgeLists(fs, Flatten(groups))
  {
    if groups != [] {
      var n := |groups| - 1;
      UnpackRoutes(fs, groups[..n]);
      UnpackRoute(fs, groups[n]);
      EdgeListsConcat(fs, Flatten(groups[..n]), groups[n]);
      RoutesOfSnoc(fs, groups);
      hide Unpack, UnpackAll, RouteOf, RoutesOf, EdgeLists, IndicesOf;
    }
  }

  /** Unpacking what was packed gives back the edge list of every fragment, each once, reordered. */
  lemma PackUnpackRoundTrip(fs: seq<Fragment>, maxLegs: int, arcs: seq<Arc>) returns (order: seq<nat>)
    requires NonEmptyFragments(fs) && maxLegs > 0
    ensures multiset(order) == multiset(Range(|fs|)) && IndicesOf(fs, order)
    ensures UnpackAll(PackedRoutes(fs, maxLegs, arcs)) == EdgeLists(fs, order)
  {
    PackedOnce(fs, maxLegs, arcs);
    order := Flatten(PackedGroups(fs, maxLegs, arcs));
    UnpackRoutes(fs, PackedGroups(fs, maxLegs, arcs));
  }

  // ---------- Which arcs the routes carry ----------

  function EdgesOf(fs: seq<Fragment>, group: seq<nat>): seq<Arc>
    requires forall i :: 0 <= i < |group| ==> group[i] < |fs|
  {
    Flatten(EdgeLists(fs, group))
  }

  lemma EdgesOfConcat(fs: seq<Fragment>, a: seq<nat>, b: seq<nat>)
    requires IndicesOf(fs, a) && IndicesOf(fs, b)
    ensures IndicesOf(fs, a + b) && EdgesOf(fs, a + b) == EdgesOf(fs, a) + EdgesOf(fs, b)
  {
    assert EdgeLists(fs, a + b) == EdgeLists(fs, a) + EdgeLists(fs, b);
    FlattenConcat(EdgeLists(fs, a), EdgeLists(fs, b));
  }

  lemma EdgesOfCons(fs: seq<Fragment>, x: nat, rest: seq<nat>)
    requires x < |fs| && IndicesOf(fs, rest)
    ensures IndicesOf(fs, [x] + rest) && EdgesOf(fs, [x] + rest) == fs[x].edges + EdgesOf(fs, rest)
  {
    assert EdgeLists(fs, [x] + rest) == [fs[x].edges] + EdgeLists(fs, rest);
    FlattenCons(fs[x].edges, EdgeLists(fs, rest));
  }

  lemma {:induction false} RequiredOfTail(fs: seq<Fragment>, picks: seq<nat>, end: nat)
    requires NonEmptyFragments(fs) && IndicesOf(fs, picks)
    ensures RequiredOf(TailLegs(fs, picks, end)) == EdgesOf(fs, picks)
    decreases |picks|
  {
    if picks != [] {
      var f := fs[picks[0]];
      var bridge := [Bridge(end, f.Start())];
      RequiredOfTail(fs, picks[1..], f.End());
      RequiredOfConcat(bridge + FragmentLegs(f), TailLegs(fs, picks[1..], f.End()));
      RequiredOfConcat(bridge, FragmentLegs(f));
      RequiredOfFragment(f);
      assert bridge[..0] == [];
      EdgesOfCons(fs, picks[0], picks[1..]);
      assert [picks[0]] + picks[1..] == picks;
    }
  }

  lemma RequiredOfRoute(fs: seq<Fragment>, group: seq<nat>)
    requires NonEmptyFragments(fs) && group != [] && IndicesOf(fs, group)
    ensures RequiredOf(RouteOf(fs, group).legs) == EdgesOf(fs, group)
  {
    var f := fs[group[0]];
    RequiredOfFragment(f);
    RequiredOfTail(fs, group[1..], f.End());
    RequiredOfConcat(FragmentLegs(f), TailLegs(fs, group[1..], f.End()));
    EdgesOfCons(fs, group[0], group[1..]);
    assert [group[0]] + group[1..] == group;
  }

  lemma {:induction false} RequiredOfRoutes(fs: seq<Fragment>, groups: seq<seq<nat>>)
    requires NonEmptyFragments(fs) && GroupsOf(fs, groups)
    ensures IndicesOf(fs, Flatten(groups))
    ensures RequiredOfAll(RoutesOf(fs, groups)) == EdgesOf(fs, Flatten(groups))
  {
    if groups != [] {
      var n := |groups| - 1;
      RequiredOfRoutes(fs, groups[..n]);
      RequiredOfRoute(fs, groups[n]);
      assert RoutesOf(fs, groups)[..n] == RoutesOf(fs, groups[..n]);
      EdgesOfConcat(fs, Flatten(groups[..n]), groups[n]);
    }
  }

  lemma {:induction false} EdgesPermutation(fs: seq<Fragment>, a: seq<nat>, b: seq<nat>)
    requires IndicesOf(fs, a) && IndicesOf(fs, b) && multiset(a) == multiset(b)
    ensures AllArcs(EdgeLists(fs, a)) == AllArcs(EdgeLists(fs, b))
    decreases |a|
  {
    if a == [] {
      assert |multiset(b)| == 0;
    } else {
      var j := MatchFirst(a, b);
      EdgesWithout(fs, a, 0);
      EdgesWithout(fs, b, j);
      EdgesPermutation(fs, Without(a, 0), Without(b, j));
    }
  }

  lemma EdgesWithout(fs: seq<Fragment>, a: seq<nat>, j: nat)
    requires IndicesOf(fs, a) && j < |a|
    ensures IndicesOf(fs, Without(a, j))
    ensures AllArcs(EdgeLists(fs, a)) == AllArcs(EdgeLists(fs, Without(a, j))) + multiset(fs[a[j]].edges)
  {
    hide AllArcs;
    AllArcsWithout(EdgeLists(fs, a), j);
    assert Without(EdgeLists(fs, a), j) == EdgeLists(fs, Without(a, j));
  }

  /** All arcs of all fragments, in order. */
  function FragmentArcs(fs: seq<Fragment>): seq<Arc> {
    if fs == [] then [] else FragmentArcs(fs[..|fs| - 1]) + fs[|fs| - 1].edges
  }

  /** Every fragment takes its arcs and one bridge; there are no more fragments than arcs. */
  lemma {:induction false} BinSizesTotal(fs: seq<Fragment>)
    requires NonEmptyFragments(fs)
    ensures Sum(BinSizes(fs)) == |FragmentArcs(fs)| + |fs| <= 2 * |FragmentArcs(fs)|
  {
    if fs != [] {
      BinSizesTotal(fs[..|fs| - 1]);
      assert BinSizes(fs)[..|fs| - 1] == BinSizes(fs[..|fs| - 1]);
    }
  }

  /** Nearly all routes being half full, their number is bounded by the arcs alone. */
  lemma PackedHalfFull(fs: seq<Fragment>, maxLegs: int, arcs: seq<Arc>)
    requires NonEmptyFragments(fs) && maxLegs > 0
    requires forall i :: 0 <= i < |fs| ==> fs[i].Len() <= maxLegs
    ensures var routes := PackedRoutes(fs, maxLegs, arcs);
      routes != [] ==> (|routes| - 1) * (maxLegs + 2) <= 4 * |FragmentArcs(fs)|
  {
    PackingIsHalfFull(fs, maxLegs, arcs);
    BinSizesTotal(fs);
  }

  lemma {:induction false} FragmentArcsRange(fs: seq<Fragment>, k: nat)
    requires k <= |fs|
    ensures IndicesOf(fs, Range(k)) && EdgesOf(fs, Range(k)) == FragmentArcs(fs[..k])
  {
    RangeAt(k);
    if k > 0 {
      FragmentArcsRange(fs, k - 1);
      FlattenSnoc(EdgeLists(fs, Range(k - 1)), fs[k - 1].edges);
      assert EdgeLists(fs, Range(k)) == EdgeLists(fs, Range(k - 1)) + [fs[k - 1].edges];
      assert fs[..k][..k - 1] == fs[..k - 1];
    }
  }

  /** The required legs of the packed routes are exactly the arcs of the fragments. */
  lemma PackedArcs(fs: seq<Fragment>, maxLegs: int, arcs: seq<Arc>)
    requires NonEmptyFragments(fs) && maxLegs > 0
    ensures multiset(RequiredOfAll(PackedRoutes(fs, maxLegs, arcs))) == multiset(FragmentArcs(fs))
  {
    var groups := PackedGroups(fs, maxLegs, arcs);
    PackedOnce(fs, maxLegs, arcs);
    RequiredOfRoutes(fs, groups);
    FragmentArcsRange(fs, |fs|);
    assert fs[..|fs|] == fs;
    EdgesPermutation(fs, Flatten(groups), Range(|fs|));
    AllArcsFlatten(EdgeLists(fs, Flatten(groups)));
    AllArcsFlatten(EdgeLists(fs, Range(|fs|)));
  }

  // ---------- Walks ----------

  lemma FragmentLegsShape(f: Fragment)
    requires f.edges != [] && Chain(f.edges)
    ensures var legs := FragmentLegs(f);
      legs != [] && Continuous(legs) && legs[0].from == f.Start() && legs[|legs| - 1].to == f.End()
  {
    forall i | 0 < i < |f.edges| ensures FragmentLegs(f)[i - 1].to == FragmentLegs(f)[i].from {
      assert f.edges[i - 1].to == f.edges[i - 1 + 1].from;
    }
  }

  ghost predicate ChainFragments(fs: seq<Fragment>) {
    forall i :: 0 <= i < |fs| ==> fs[i].edges != [] && Chain(fs[i].edges)
  }

  lemma ContinuousConcat(a: seq<Leg>, b: seq<Leg>)
    requires Continuous(a) && Continuous(b)
    requires a != [] && b != [] ==> a[|a| - 1].to == b[0].from
    ensures Continuous(a + b)
  {
  }

  lemma {:induction false} TailShape(fs: seq<Fragment>, picks: seq<nat>, end: nat)
    requires ChainFragments(fs) && IndicesOf(fs, picks)
    ensures var tail := TailLegs(fs, picks, end);
      Continuous(tail) && (tail != [] ==> tail[0].from == end)
    decreases |picks|
  {
    if picks != [] {
      var f := fs[picks[0]];
      var bridge := [Bridge(end, f.Start())];
      FragmentLegsShape(f);
      TailShape(fs, picks[1..], f.End());
      ContinuousConcat(bridge, FragmentLegs(f));
      ContinuousConcat(bridge + FragmentLegs(f), TailLegs(fs, picks[1..], f.End()));
    }
  }

  lemma {:induction false} TailLength(fs: seq<Fragment>, picks: seq<nat>, end: nat)
    requires NonEmptyFragments(fs) && IndicesOf(fs, picks)
    ensures Indices(BinSizes(fs), picks)
    ensures |TailLegs(fs, picks, end)| == Load(BinSizes(fs), picks)
    decreases |picks|
  {
    if picks != [] {
      TailLength(fs, picks[1..], fs[picks[0]].End());
      LoadCons(BinSizes(fs), picks[0], picks[1..]);
      assert [picks[0]] + picks[1..] == picks;
    }
  }

  /** A packed route is a non-empty walk with one leg less than the sizes of its fragments add up to. */
  lemma RouteShape(fs: seq<Fragment>, group: seq<nat>)
    requires ChainFragments(fs) && group != [] && IndicesOf(fs, group)
    ensures var legs := RouteOf(fs, group).legs;
      && legs != [] && Continuous(legs)
      && Indices(BinSizes(fs), group)
      && |legs| == Load(BinSizes(fs), group) - 1
  {
    var f := fs[group[0]];
    FragmentLegsShape(f);
    TailShape(fs, group[1..], f.End());
    ContinuousConcat(FragmentLegs(f), TailLegs(fs, group[1..], f.End()));
    TailLength(fs, group[1..], f.End());
    LoadCons(BinSizes(fs), group[0], group[1..]);
    assert [group[0]] + group[1..] == group;
  }

  /** Every packed route is a non-empty continuous walk of at most maxLegs legs. */
  lemma PackedWalk(fs: seq<Fragment>, maxLegs: int, arcs: seq<Arc>, r: nat)
    requires ChainFragments(fs) && maxLegs > 0
    requires forall i :: 0 <= i < |fs| ==> fs[i].Len() <= maxLegs
    requires r < |PackedRoutes(fs, maxLegs, arcs)|
    ensures var legs := PackedRoutes(fs, maxLegs, arcs)[r].legs;
      legs != [] && Continuous(legs) && |legs| <= maxLegs
  {
    var groups := PackedGroups(fs, maxLegs, arcs);
    PackedOnce(fs, maxLegs, arcs);
    assert Sizes(fs, maxLegs + 1) == BinSizes(fs);
    GoodGroup(BinSizes(fs), maxLegs + 1, groups, r);
    RouteShape(fs, groups[r]);
  }

  // ---------- Bridges ----------

  function BridgesOf(legs: seq<Leg>): nat {
    if legs == [] then 0
    else BridgesOf(legs[..|legs| - 1]) + if legs[|legs| - 1].kind.LegBridge? then 1 else 0
  }

  lemma {:induction false} LegsAreRequiredOrBridge(legs: seq<Leg>)
    ensures |RequiredOf(legs)| + BridgesOf(legs) == |legs|
  {
    if legs != [] {
      LegsAreRequiredOrBridge(legs[..|legs| - 1]);
    }
  }

  // ---------- Chopping long trails ----------

  function Chop(edges: seq<Arc>, maxLegs: nat): seq<seq<Arc>>
    requires maxLegs > 0
    decreases |edges|
  {
    if |edges| <= maxLegs then [edges] else [edges[..maxLegs]] + Chop(edges[maxLegs..], maxLegs)
  }

  /** The pieces are at most maxLegs long and put together again are the trail. */
  lemma {:induction false} ChopIsLossless(edges: seq<Arc>, maxLegs: nat)
    requires maxLegs > 0
    ensures Flatten(Chop(edges, maxLegs)) == edges
    ensures forall i :: 0 <= i < |Chop(edges, maxLegs)| ==> |Chop(edges, maxLegs)[i]| <= maxLegs
    ensures forall i :: 0 <= i < |Chop(edges, maxLegs)| - 1 ==> |Chop(edges, maxLegs)[i]| == maxLegs
    decreases |edges|
  {
    if |edges| <= maxLegs {
      FlattenSnoc([], edges);
      assert [] + [edges] == [edges];
    } else {
      var head, rest := edges[..maxLegs], Chop(edges[maxLegs..], maxLegs);
      ChopIsLossless(edges[maxLegs..], maxLegs);
      FlattenCons(head, rest);
      hide Flatten;
      assert head + edges[maxLegs..] == edges;
      assert Chop(edges, maxLegs) == [head] + rest;
      forall i | 0 <= i < |[head] + rest| ensures ([head] + rest)[i] == if i == 0 then head else rest[i - 1] {
      }
    }
  }

  function ChopAll(fs: seq<Fragment>, maxLegs: nat): seq<seq<Arc>>
    requires maxLegs > 0
  {
    if fs == [] then []
    else ChopAll(fs[..|fs| - 1], maxLegs) + Chop(fs[|fs| - 1].edges, maxLegs)
  }

  /** Piece i is the last of its fragment: up to it the pieces are whole fragments. */
  ghost predicate EndsFragment(fs: seq<Fragment>, pieces: seq<seq<Arc>>, i: nat) {
    i < |pieces| && exists k: nat :: k <= |fs| && Flatten(pieces[..i + 1]) == FragmentArcs(fs[..k])
  }

  /** The pieces are the fragments cut, none longer than maxLegs, and shorter only at the end of a fragment. */
  lemma {:induction false} ChopAllIsLossless(fs: seq<Fragment>, maxLegs: nat)
    requires maxLegs > 0
    ensures var pieces := ChopAll(fs, maxLegs);
      && Flatten(pieces) == FragmentArcs(fs)
      && forall i :: 0 <= i < |pieces| ==>
           |pieces[i]| <= maxLegs && (|pieces[i]| == maxLegs || EndsFragment(fs, pieces, i))
  {
    if fs != [] {
      var n := |fs| - 1;
      var before, last := ChopAll(fs[..n], maxLegs), Chop(fs[n].edges, maxLegs);
      assert FragmentArcs(fs) == FragmentArcs(fs[..n]) + fs[n].edges && ChopAll(fs, maxLegs) == before + last;
      ChopAllIsLossless(fs[..n], maxLegs);
      ChopIsLossless(fs[n].edges, maxLegs);
      FlattenConcat(before, last);
      hide Flatten, FragmentArcs, Chop, ChopAll, EndsFragment;
      forall i | 0 <= i < |before + last| && |(before + last)[i]| != maxLegs
        ensures EndsFragment(fs, before + last, i)
      {
        if i < |before| {
          EndsEarlier(fs, before, last, i);
        } else {
          EndsLast(fs, before + last);
        }
      }
    }
  }

  lemma EndsEarlier(fs: seq<Fragment>, before: seq<seq<Arc>>, last: seq<seq<Arc>>, i: nat)
    requires fs != [] && EndsFragment(fs[..|fs| - 1], before, i)
    ensures EndsFragment(fs, before + last, i)
  {
    var k: nat :| k <= |fs| - 1 && Flatten(before[..i + 1]) == FragmentArcs(fs[..|fs| - 1][..k]);
    assert fs[..|fs| - 1][..k] == fs[..k] && (before + last)[..i + 1] == before[..i + 1];
  }

  lemma EndsLast(fs: seq<Fragment>, pieces: seq<seq<Arc>>)
    requires pieces != [] && Flatten(pieces) == FragmentArcs(fs)
    ensures EndsFragment(fs, pieces, |pieces| - 1)
  {
    assert pieces[..|pieces|] == pieces && fs[..|fs|] == fs;
  }

  lemma {:induction false} ChopStep(edges: seq<Arc>, maxLegs: nat, start: nat)
    requires maxLegs > 0 && start < |edges|
    ensures var end := if start + maxLegs <= |edges| then start + maxLegs else |edges|;
      Chop(edges[start..], maxLegs) ==
        [edges[start..end]] + if end < |edges| then Chop(edges[end..], maxLegs) else []
  {
    var rest := edges[start..];
    if |rest| <= maxLegs {
      assert rest == edges[start..|edges|];
    } else {
      assert rest[..maxLegs] == edges[start..start + maxLegs];
      assert rest[maxLegs..] == edges[start + maxLegs..];
    }
  }

  /** The pieces of one trail longer than maxLegs, numbered from `id0` on. */
  method ChopFragment(edges: seq<Arc>, maxLegs: nat, id0: int) returns (out: seq<Fragment>)
    requires 0 < maxLegs < |edges|
    ensures out == NumberedFrom(Chop(edges, maxLegs), id0)
  {
    out := [];
    var start := 0;
    ghost var pieces: seq<seq<Arc>> := [];
    assert edges[0..] == edges;
    while start < |edges|
      invariant 0 <= start && out == NumberedFrom(pieces, id0)
      invariant start < |edges| ==> pieces + Chop(edges[start..], maxLegs) == Chop(edges, maxLegs)
      invariant start >= |edges| ==> pieces == Chop(edges, maxLegs)
    {
      var end := if start + maxLegs <= |edges| then start + maxLegs else |edges|;
      ChopStep(edges, maxLegs, start);
      NumberedFromSnoc(pieces, edges[start..end], id0);
      out := out + [Fragment(edges[start..end], id0 + |out|)];
      pieces := pieces + [edges[start..end]];
      start := start + maxLegs;
    }
  }

  lemma NumberedFromSnoc(pieces: seq<seq<Arc>>, p: seq<Arc>, id0: int)
    ensures NumberedFrom(pieces + [p], id0) == NumberedFrom(pieces, id0) + [Fragment(p, id0 + |pieces|)]
  {
  }

  method SplitFragmentsByMaxLegs(fragments: seq<Fragment>, maxLegs: int) returns (out: seq<Fragment>)
    ensures out == if maxLegs <= 0 then fragments else Numbered(ChopAll(fragments, maxLegs))
  {
    if maxLegs <= 0 {
      return fragments;
    }
    out := [];
    var id := 0;
    for k := 0 to |fragments|
      invariant id == |out| && out == Numbered(ChopAll(fragments[..k], maxLegs))
    {
      var f := fragments[k];
      ghost var before := ChopAll(fragments[..k], maxLegs);
      assert fragments[..k + 1][..k] == fragments[..k];
      if f.Len() <= maxLegs {
        out := out + [f.(id := id)];
        id := id + 1;
        continue;
      }
      var pieces := ChopFragment(f.edges, maxLegs, id);
      assert out + pieces == Numbered(before + Chop(f.edges, maxLegs));
      out := out + pieces;
      id := |out|;
    }
    assert fragments[..|fragments|] == fragments;
  }
}
