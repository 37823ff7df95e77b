/** What the packing rule (internal/arccover/packing.go) chooses, pick by pick, and that nothing else does. */
module PackingGreedy {
  import opened ArcTypes
  import opened PackingRule
  import opened PackingBound

  /** A fragment takes a leg per arc and one for the bridge, and never more than the capacity. */
  ghost predicate SizesOf(fs: seq<Fragment>, capacity: int, sizes: seq<int>) {
    && |sizes| == |fs|
    && forall i :: 0 <= i < |fs| ==>
         sizes[i] == if |fs[i].edges| + 1 > capacity then capacity else |fs[i].edges| + 1
  }

  /** The bridge from `end` to the start of fragment i runs along a required pair. */
  ghost predicate Wasted(fs: seq<Fragment>, arcs: seq<Arc>, end: Option<nat>, i: nat)
    requires i < |fs| && fs[i].edges != []
  {
    end.Some? && exists k :: 0 <= k < |arcs| && arcs[k].from == end.value && arcs[k].to == fs[i].edges[0].from
  }

  /** x goes before y: larger, or as large and only y's bridge is wasted, or alike in both and of smaller id. */
  ghost predicate Before(fs: seq<Fragment>, sizes: seq<int>, arcs: seq<Arc>, end: Option<nat>, x: nat, y: nat)
    requires x < |fs| && y < |fs| && |sizes| == |fs| && NonEmptyFragments(fs)
  {
    var wx, wy := Wasted(fs, arcs, end, x), Wasted(fs, arcs, end, y);
    sizes[x] > sizes[y] || (sizes[x] == sizes[y] && ((!wx && wy) || (wx == wy && fs[x].id < fs[y].id)))
  }

  /** x is free and fits, and goes before every other fragment that is and does. */
  ghost predicate PickedWell(fs: seq<Fragment>, sizes: seq<int>, arcs: seq<Arc>, taken: seq<nat>, space: int,
                             end: Option<nat>, x: nat)
    requires |sizes| == |fs| && NonEmptyFragments(fs)
  {
    && x < |fs| && x !in taken && sizes[x] <= space
    && forall y: nat :: y < |fs| && y !in taken && y != x && sizes[y] <= space ==> Before(fs, sizes, arcs, end, x, y)
  }

  /** No free fragment fits. */
  ghost predicate NothingFits(sizes: seq<int>, taken: seq<nat>, space: int) {
    forall y: nat :: y < |sizes| && y !in taken ==> sizes[y] > space
  }

  /** The rest of a route that stands at `end` with `space` left: picks one by one until nothing fits. */
  ghost predicate GreedyGroup(fs: seq<Fragment>, sizes: seq<int>, arcs: seq<Arc>, taken: seq<nat>, space: int,
                              end: Option<nat>, group: seq<nat>)
    requires |sizes| == |fs| && NonEmptyFragments(fs)
    decreases group
  {
    if group == [] then NothingFits(sizes, taken, space)
    else
      var x := group[0];
      && PickedWell(fs, sizes, arcs, taken, space, end, x)
      && GreedyGroup(fs, sizes, arcs, taken + [x], space - sizes[x],
                     Some(fs[x].edges[|fs[x].edges| - 1].to), group[1..])
  }

  /** Routes are opened and filled one after the other until every fragment is taken. */
  ghost predicate GreedyGroups(fs: seq<Fragment>, sizes: seq<int>, capacity: int, arcs: seq<Arc>, taken: seq<nat>,
                               groups: seq<seq<nat>>)
    requires |sizes| == |fs| && NonEmptyFragments(fs)
    decreases groups
  {
    if groups == [] then forall y: nat :: y < |fs| ==> y in taken
    else
      && groups[0] != [] && GreedyGroup(fs, sizes, arcs, taken, capacity, None, groups[0])
      && GreedyGroups(fs, sizes, capacity, arcs, taken + groups[0], groups[1..])
  }

  // ---------- The rule packs like this ----------

  ghost predicate Agree(used: seq<bool>, taken: seq<nat>) {
    forall i: nat :: i < |used| ==> (used[i] <==> i in taken)
  }

  lemma SizesAreSizes(fs: seq<Fragment>, capacity: int, sizes: seq<int>)
    requires capacity >= 1 && NonEmptyFragments(fs) && SizesOf(fs, capacity, sizes)
    ensures sizes == Sizes(fs, capacity)
    ensures forall i: nat :: i < |fs| ==> Size(fs[i], capacity) == sizes[i]
  {
  }

  lemma BetterIsBefore(fs: seq<Fragment>, capacity: int, sizes: seq<int>, arcs: seq<Arc>, end: Option<nat>, x: nat, y: nat)
    requires capacity >= 1 && NonEmptyFragments(fs) && SizesOf(fs, capacity, sizes) && x < |fs| && y < |fs|
    ensures Better(fs, capacity, arcs, end, x, y) <==> Before(fs, sizes, arcs, end, x, y)
  {
    SizesAreSizes(fs, capacity, sizes);
    hide Size;
    assert Duplicate(fs, arcs, end, x) <==> Wasted(fs, arcs, end, x);
    assert Duplicate(fs, arcs, end, y) <==> Wasted(fs, arcs, end, y);
  }

  lemma BestIsPicked(fs: seq<Fragment>, capacity: int, sizes: seq<int>, arcs: seq<Arc>, used: seq<bool>, taken: seq<nat>,
                     space: int, end: Option<nat>)
    requires capacity >= 1 && NonEmptyFragments(fs) && IdsIncrease(fs) && SizesOf(fs, capacity, sizes)
    requires |used| == |fs| && Agree(used, taken)
    ensures var b := Best(fs, capacity, arcs, used, space, end);
      if b.Some? then PickedWell(fs, sizes, arcs, taken, space, end, b.value) else NothingFits(sizes, taken, space)
  {
    SizesAreSizes(fs, capacity, sizes);
    var b := Best(fs, capacity, arcs, used, space, end);
    BestOfWins(fs, capacity, arcs, used, space, end, |fs|);
    BestOfNone(fs, capacity, arcs, used, space, end, |fs|);
    hide BestOf, Better, Before, Size, IdsIncrease;
    forall y: nat | y < |fs| && y !in taken && sizes[y] <= space
      ensures b.Some? && (y == b.value || Before(fs, sizes, arcs, end, b.value, y))
    {
      assert Candidate(fs, capacity, used, space, y);
      BetterIsBefore(fs, capacity, sizes, arcs, end, b.value, y);
    }
  }

  lemma AgreeNext(used: seq<bool>, taken: seq<nat>, x: nat)
    requires Agree(used, taken) && x < |used|
    ensures Agree(used[x := true], taken + [x])
  {
  }

  lemma GroupCons(fs: seq<Fragment>, sizes: seq<int>, arcs: seq<Arc>, taken: seq<nat>, space: int, end: Option<nat>,
                  x: nat, rest: seq<nat>)
    requires |sizes| == |fs| && NonEmptyFragments(fs) && PickedWell(fs, sizes, arcs, taken, space, end, x)
    requires GreedyGroup(fs, sizes, arcs, taken + [x], space - sizes[x], Some(fs[x].End()), rest)
    ensures GreedyGroup(fs, sizes, arcs, taken, space, end, [x] + rest)
  {
    hide PickedWell;
    assert ([x] + rest)[1..] == rest;
  }

  lemma FillEnds(fs: seq<Fragment>, capacity: int, sizes: seq<int>, arcs: seq<Arc>, used: seq<bool>, taken: seq<nat>,
                 space: int, end: nat)
    requires NonEmptyFragments(fs) && |sizes| == |fs| && Best(fs, capacity, arcs, used, space, Some(end)).None?
    requires NothingFits(sizes, taken, space) && Agree(used, taken)
    ensures var picks := Fill(fs, capacity, arcs, used, space, end);
      && picks == [] && GreedyGroup(fs, sizes, arcs, taken, space, Some(end), picks)
      && Agree(Mark(used, picks), taken + picks)
  {
    hide Best, NothingFits;
    assert taken + [] == taken;
  }

  lemma {:induction false} FillIsGreedy(fs: seq<Fragment>, capacity: int, sizes: seq<int>, arcs: seq<Arc>, used: seq<bool>,
                                        taken: seq<nat>, space: int, end: nat)
    requires capacity >= 1 && NonEmptyFragments(fs) && IdsIncrease(fs) && SizesOf(fs, capacity, sizes)
    requires |used| == |fs| && Agree(used, taken)
    ensures var picks := Fill(fs, capacity, arcs, used, space, end);
      && GreedyGroup(fs, sizes, arcs, taken, space, Some(end), picks)
      && Agree(Mark(used, picks), taken + picks)
    decreases Unused(used)
  {
    hide Best, PickedWell, NothingFits, GreedyGroup, Agree, Fill, Mark, Unused, Size, Sizes, IdsIncrease;
    BestIsPicked(fs, capacity, sizes, arcs, used, taken, space, Some(end));
    SizesAreSizes(fs, capacity, sizes);
    var b := Best(fs, capacity, arcs, used, space, Some(end));
    if b.Some? {
      var x := b.value;
      FillUnfolds(fs, capacity, arcs, used, space, end, x);
      AgreeNext(used, taken, x);
      FillIsGreedy(fs, capacity, sizes, arcs, used[x := true], taken + [x], space - sizes[x], fs[x].End());
      var rest := Fill(fs, capacity, arcs, used[x := true], space - sizes[x], fs[x].End());
      GroupCons(fs, sizes, arcs, taken, space, Some(end), x, rest);
      assert taken + [x] + rest == taken + ([x] + rest);
    } else {
      FillEnds(fs, capacity, sizes, arcs, used, taken, space, end);
    }
  }

  lemma GroupsUnfold(fs: seq<Fragment>, capacity: int, arcs: seq<Arc>, used: seq<bool>, first: nat)
    requires NonEmptyFragments(fs) && Best(fs, capacity, arcs, used, capacity, None) == Some(first)
    ensures first < |fs| && first < |used|
    ensures var picks :=
        Fill(fs, capacity, arcs, used[first := true], capacity - Size(fs[first], capacity), fs[first].End());
      && Mark(used, [first] + picks) == Mark(used[first := true], picks)
      && Unused(Mark(used, [first] + picks)) < Unused(used)
      && Groups(fs, capacity, arcs, used) == [[first] + picks] + Groups(fs, capacity, arcs, Mark(used, [first] + picks))
  {
    hide Best, Fill, Size;
    UseOne(used, first);
    var picks := Fill(fs, capacity, arcs, used[first := true], capacity - Size(fs[first], capacity), fs[first].End());
    MarkShrinks(used[first := true], picks);
    assert ([first] + picks)[1..] == picks;
  }

  lemma GroupsCons(fs: seq<Fragment>, sizes: seq<int>, capacity: int, arcs: seq<Arc>, taken: seq<nat>, group: seq<nat>,
                   rest: seq<seq<nat>>)
    requires |sizes| == |fs| && NonEmptyFragments(fs) && group != []
    requires GreedyGroup(fs, sizes, arcs, taken, capacity, None, group)
    requires GreedyGroups(fs, sizes, capacity, arcs, taken + group, rest)
    ensures GreedyGroups(fs, sizes, capacity, arcs, taken, [group] + rest)
  {
    hide GreedyGroup;
    assert ([group] + rest)[1..] == rest;
  }

  lemma GroupsEnd(fs: seq<Fragment>, sizes: seq<int>, capacity: int, arcs: seq<Arc>, used: seq<bool>, taken: seq<nat>)
    requires capacity >= 1 && NonEmptyFragments(fs) && SizesOf(fs, capacity, sizes)
    requires NothingFits(sizes, taken, capacity) && Best(fs, capacity, arcs, used, capacity, None).None?
    ensures Groups(fs, capacity, arcs, used) == []
    ensures GreedyGroups(fs, sizes, capacity, arcs, taken, [])
  {
    hide Best;
  }

  lemma {:induction false} GroupsAreGreedy(fs: seq<Fragment>, capacity: int, sizes: seq<int>, arcs: seq<Arc>,
                                           used: seq<bool>, taken: seq<nat>)
    requires capacity >= 1 && NonEmptyFragments(fs) && IdsIncrease(fs) && SizesOf(fs, capacity, sizes)
    requires |used| == |fs| && Agree(used, taken)
    ensures GreedyGroups(fs, sizes, capacity, arcs, taken, Groups(fs, capacity, arcs, used))
    decreases Unused(used)
  {
    hide Best, PickedWell, NothingFits, GreedyGroup, GreedyGroups, Agree, Fill, Mark, Groups, Unused, Size, Sizes,
      IdsIncrease;
    BestIsPicked(fs, capacity, sizes, arcs, used, taken, capacity, None);
    SizesAreSizes(fs, capacity, sizes);
    var b := Best(fs, capacity, arcs, used, capacity, None);
    if b.Some? {
      var x := b.value;
      GroupsUnfold(fs, capacity, arcs, used, x);
      AgreeNext(used, taken, x);
      FillIsGreedy(fs, capacity, sizes, arcs, used[x := true], taken + [x], capacity - sizes[x], fs[x].End());
      var picks := Fill(fs, capacity, arcs, used[x := true], capacity - sizes[x], fs[x].End());
      GroupCons(fs, sizes, arcs, taken, capacity, None, x, picks);
      var group := [x] + picks;
      assert taken + [x] + picks == taken + group;
      GroupsAreGreedy(fs, capacity, sizes, arcs, Mark(used, group), taken + group);
      GroupsCons(fs, sizes, capacity, arcs, taken, group, Groups(fs, capacity, arcs, Mark(used, group)));
    } else {
      GroupsEnd(fs, sizes, capacity, arcs, used, taken);
    }
  }

  /** Whatever the fragments, as long as their ids ascend: every pick of the packer goes before all others that were
      free and fitted, a route is closed only when nothing fits, and routes are opened until nothing is free. */
  lemma PackingIsGreedy(fs: seq<Fragment>, maxLegs: int, sizes: seq<int>, arcs: seq<Arc>)
    requires maxLegs > 0 && NonEmptyFragments(fs) && IdsIncrease(fs) && SizesOf(fs, maxLegs + 1, sizes)
    ensures GreedyGroups(fs, sizes, maxLegs + 1, arcs, [], PackedGroups(fs, maxLegs, arcs))
  {
    hide Groups, GreedyGroups, SizesOf, IdsIncrease;
    GroupsAreGreedy(fs, maxLegs + 1, sizes, arcs, NoneUsed(|fs|), []);
  }

  // ---------- Nothing else is packed like this ----------

  lemma BeforeIsOneWay(fs: seq<Fragment>, sizes: seq<int>, arcs: seq<Arc>, end: Option<nat>, x: nat, y: nat)
    requires x < |fs| && y < |fs| && |sizes| == |fs| && NonEmptyFragments(fs)
    ensures Before(fs, sizes, arcs, end, x, y) ==> !Before(fs, sizes, arcs, end, y, x)
  {
  }

  lemma PickIsUnique(fs: seq<Fragment>, sizes: seq<int>, arcs: seq<Arc>, taken: seq<nat>, space: int, end: Option<nat>,
                     x: nat, y: nat)
    requires |sizes| == |fs| && NonEmptyFragments(fs)
    requires PickedWell(fs, sizes, arcs, taken, space, end, x) && PickedWell(fs, sizes, arcs, taken, space, end, y)
    ensures x == y
  {
    hide Before;
    BeforeIsOneWay(fs, sizes, arcs, end, x, y);
  }

  lemma {:induction false} GroupIsUnique(fs: seq<Fragment>, sizes: seq<int>, arcs: seq<Arc>, taken: seq<nat>, space: int,
                                         end: Option<nat>, a: seq<nat>, b: seq<nat>)
    requires |sizes| == |fs| && NonEmptyFragments(fs)
    requires GreedyGroup(fs, sizes, arcs, taken, space, end, a) && GreedyGroup(fs, sizes, arcs, taken, space, end, b)
    ensures a == b
    decreases a
  {
    if a != [] && b != [] {
      PickIsUnique(fs, sizes, arcs, taken, space, end, a[0], b[0]);
      hide PickedWell;
      var x := a[0];
      GroupIsUnique(fs, sizes, arcs, taken + [x], space - sizes[x], Some(fs[x].End()), a[1..], b[1..]);
      assert a == [x] + a[1..] && b == [x] + b[1..];
    }
  }

  /** The picks determine the packing: there is only one greedy packing. */
  lemma {:induction false} GreedyIsUnique(fs: seq<Fragment>, sizes: seq<int>, capacity: int, arcs: seq<Arc>,
                                          taken: seq<nat>, a: seq<seq<nat>>, b: seq<seq<nat>>)
    requires |sizes| == |fs| && NonEmptyFragments(fs)
    requires GreedyGroups(fs, sizes, capacity, arcs, taken, a) && GreedyGroups(fs, sizes, capacity, arcs, taken, b)
    ensures a == b
    decreases a
  {
    if a == [] {
      NothingLeftToOpen(fs, sizes, capacity, arcs, taken, b);
    } else if b == [] {
      NothingLeftToOpen(fs, sizes, capacity, arcs, taken, a);
    } else {
      GroupIsUnique(fs, sizes, arcs, taken, capacity, None, a[0], b[0]);
      hide GreedyGroup;
      GreedyIsUnique(fs, sizes, capacity, arcs, taken + a[0], a[1..], b[1..]);
      assert a == [a[0]] + a[1..] && b == [b[0]] + b[1..];
    }
  }

  lemma NothingLeftToOpen(fs: seq<Fragment>, sizes: seq<int>, capacity: int, arcs: seq<Arc>, taken: seq<nat>,
                          groups: seq<seq<nat>>)
    requires |sizes| == |fs| && NonEmptyFragments(fs)
    requires GreedyGroups(fs, sizes, capacity, arcs, taken, groups) && forall y: nat :: y < |fs| ==> y in taken
    ensures groups == []
  {
  }
}
