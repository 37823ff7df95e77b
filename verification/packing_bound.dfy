/**
 * What the packing rule guarantees: every fragment is packed once, routes respect the capacity, nothing
 * packed later would still fit earlier, and the number of routes is at most 3/2 of any other packing.
 */
module PackingBound {
  import opened ArcTypes
  import opened PackingRule
  import opened Sums

  // ---------- Loads ----------

  predicate Indices(sizes: seq<int>, group: seq<nat>) {
    forall i :: 0 <= i < |group| ==> group[i] < |sizes|
  }

  function Pick(sizes: seq<int>, group: seq<nat>): seq<int>
    requires Indices(sizes, group)
  {
    seq(|group|, i requires 0 <= i < |group| => sizes[group[i]])
  }

  function Load(sizes: seq<int>, group: seq<nat>): int
    requires Indices(sizes, group)
  {
    Sum(Pick(sizes, group))
  }

  lemma LoadConcat(sizes: seq<int>, a: seq<nat>, b: seq<nat>)
    requires Indices(sizes, a) && Indices(sizes, b)
    ensures Indices(sizes, a + b) && Load(sizes, a + b) == Load(sizes, a) + Load(sizes, b)
  {
    assert Pick(sizes, a + b) == Pick(sizes, a) + Pick(sizes, b);
    SumConcat(Pick(sizes, a), Pick(sizes, b));
  }

  lemma LoadOne(sizes: seq<int>, i: nat)
    requires i < |sizes|
    ensures Indices(sizes, [i]) && Load(sizes, [i]) == sizes[i]
  {
    SumSnoc([], sizes[i]);
    assert Pick(sizes, [i]) == [] + [sizes[i]];
  }

  lemma LoadCons(sizes: seq<int>, i: nat, rest: seq<nat>)
    requires i < |sizes| && Indices(sizes, rest)
    ensures Indices(sizes, [i] + rest) && Load(sizes, [i] + rest) == sizes[i] + Load(sizes, rest)
  {
    LoadOne(sizes, i);
    LoadConcat(sizes, [i], rest);
  }

  // ---------- A first-fit-decreasing packing ----------

  /** x is no larger than the opener of `group`, is not in it, and does not fit into it any more. */
  ghost predicate LeftOver(sizes: seq<int>, capacity: int, group: seq<nat>, x: nat)
    requires group != [] && Indices(sizes, group)
  {
    && x < |sizes| && sizes[x] <= sizes[group[0]]
    && Load(sizes, group) + sizes[x] > capacity && x !in group
  }

  /** `group` could be packed right before `rest`: it is opened by a largest fragment, respects the
      capacity, shares nothing with what follows, and nothing that follows would still fit. */
  ghost predicate FitsInFront(sizes: seq<int>, capacity: int, group: seq<nat>, rest: seq<nat>) {
    && group != [] && Indices(sizes, group)
    && Load(sizes, group) <= capacity
    && (forall x :: x in group ==> sizes[x] <= sizes[group[0]])
    && forall x :: x in rest ==> LeftOver(sizes, capacity, group, x)
  }

  ghost predicate GoodPacking(sizes: seq<int>, capacity: int, groups: seq<seq<nat>>) {
    groups == [] ||
    (FitsInFront(sizes, capacity, groups[0], Flatten(groups[1..])) && GoodPacking(sizes, capacity, groups[1..]))
  }

  /** What a packing says about any of its routes. */
  lemma {:induction false} GoodGroup(sizes: seq<int>, capacity: int, groups: seq<seq<nat>>, g: nat)
    requires GoodPacking(sizes, capacity, groups) && g < |groups|
    ensures groups[g] != [] && Indices(sizes, groups[g]) && Load(sizes, groups[g]) <= capacity
    ensures forall x :: x in groups[g] ==> sizes[x] <= sizes[groups[g][0]]
  {
    if g > 0 {
      GoodGroup(sizes, capacity, groups[1..], g - 1);
    }
  }

  /** What a packing says about a route g and a fragment x packed later. */
  lemma {:induction false} GoodLater(sizes: seq<int>, capacity: int, groups: seq<seq<nat>>, g: nat, h: nat, x: nat)
    requires GoodPacking(sizes, capacity, groups) && g < h < |groups| && x in groups[h]
    ensures x < |sizes| && groups[g] != [] && Indices(sizes, groups[g])
    ensures sizes[x] <= sizes[groups[g][0]] && x !in groups[g]
    ensures Load(sizes, groups[g]) + sizes[x] > capacity
  {
    GoodGroup(sizes, capacity, groups, g);
    if g > 0 {
      GoodLater(sizes, capacity, groups[1..], g - 1, h - 1, x);
    } else {
      assert groups[1..][h - 1] == groups[h];
      FlattenContains(groups[1..], x);
      assert LeftOver(sizes, capacity, groups[0], x);
    }
  }

  ghost predicate AllIndices(sizes: seq<int>, groups: seq<seq<nat>>) {
    forall g :: 0 <= g < |groups| ==> groups[g] != [] && Indices(sizes, groups[g])
  }

  lemma GoodIndices(sizes: seq<int>, capacity: int, groups: seq<seq<nat>>)
    requires GoodPacking(sizes, capacity, groups)
    ensures AllIndices(sizes, groups)
  {
    forall g | 0 <= g < |groups| ensures groups[g] != [] && Indices(sizes, groups[g]) {
      GoodGroup(sizes, capacity, groups, g);
    }
  }

  // ---------- The rule produces one ----------

  ghost function UnusedBag(used: seq<bool>): multiset<nat> {
    if used == [] then multiset{}
    else UnusedBag(used[..|used| - 1]) + if used[|used| - 1] then multiset{} else multiset{|used| - 1}
  }

  lemma {:induction false} UseOneBag(used: seq<bool>, i: nat)
    requires i < |used| && !used[i]
    ensures UnusedBag(used) == UnusedBag(used[i := true]) + multiset{i}
  {
    var n := |used| - 1;
    if i == n {
      assert used[i := true][..n] == used[..n];
    } else {
      UseOneBag(used[..n], i);
      assert used[i := true][..n] == used[..n][i := true];
    }
  }

  lemma {:induction false} AllUsedBag(used: seq<bool>)
    requires forall i :: 0 <= i < |used| ==> used[i]
    ensures UnusedBag(used) == multiset{}
  {
    if used != [] {
      AllUsedBag(used[..|used| - 1]);
    }
  }

  ghost predicate Untouched(used: seq<bool>, x: nat) { x < |used| && !used[x] }

  lemma {:induction false} MarkUses(used: seq<bool>, picks: seq<nat>, x: nat)
    requires forall i :: 0 <= i < |picks| ==> picks[i] < |used|
    ensures Untouched(Mark(used, picks), x) <==> Untouched(used, x) && x !in picks
    decreases picks
  {
    if picks != [] {
      MarkUses(used[picks[0] := true], picks[1..], x);
      assert picks == [picks[0]] + picks[1..];
    }
  }

  lemma {:induction false} FillUntouched(fs: seq<Fragment>, capacity: int, arcs: seq<Arc>, used: seq<bool>, space: int, end: nat, x: nat)
    requires NonEmptyFragments(fs) && x in Fill(fs, capacity, arcs, used, space, end)
    ensures Untouched(used, x)
    decreases Unused(used)
  {
    var b := Best(fs, capacity, arcs, used, space, Some(end));
    var after, left := used[b.value := true], space - Size(fs[b.value], capacity);
    UseOne(used, b.value);
    if x != b.value {
      FillUntouched(fs, capacity, arcs, after, left, fs[b.value].End(), x);
    }
  }

  lemma {:induction false} FillLoad(fs: seq<Fragment>, capacity: int, arcs: seq<Arc>, used: seq<bool>, space: int, end: nat)
    requires NonEmptyFragments(fs) && space >= 0
    ensures var picks := Fill(fs, capacity, arcs, used, space, end);
      && Indices(Sizes(fs, capacity), picks)
      && Load(Sizes(fs, capacity), picks) <= space
    decreases Unused(used)
  {
    var sizes := Sizes(fs, capacity);
    var b := Best(fs, capacity, arcs, used, space, Some(end));
    if b.Some? {
      var after, left := used[b.value := true], space - sizes[b.value];
      UseOne(used, b.value);
      FillLoad(fs, capacity, arcs, after, left, fs[b.value].End());
      LoadCons(sizes, b.value, Fill(fs, capacity, arcs, after, left, fs[b.value].End()));
    }
  }

  lemma BagStep(u: multiset<nat>, v: multiset<nat>, m: multiset<nat>, r: multiset<nat>, b: nat)
    requires u == v + multiset{b} && v == m + r
    ensures u == m + (multiset{b} + r)
  {
  }

  lemma BagOfCons(x: nat, rest: seq<nat>)
    ensures multiset([x] + rest) == multiset{x} + multiset(rest)
  {
  }

  lemma {:induction false} FillBag(fs: seq<Fragment>, capacity: int, arcs: seq<Arc>, used: seq<bool>, space: int, end: nat)
    requires NonEmptyFragments(fs)
    ensures var picks := Fill(fs, capacity, arcs, used, space, end);
      UnusedBag(used) == UnusedBag(Mark(used, picks)) + multiset(picks)
    decreases Unused(used)
  {
    var b := Best(fs, capacity, arcs, used, space, Some(end));
    if b.Some? {
      var after, left := used[b.value := true], space - Size(fs[b.value], capacity);
      UseOne(used, b.value);
      UseOneBag(used, b.value);
      FillBag(fs, capacity, arcs, after, left, fs[b.value].End());
      var rest := Fill(fs, capacity, arcs, after, left, fs[b.value].End());
      BagOfCons(b.value, rest);
      assert ([b.value] + rest)[1..] == rest;
      BagStep(UnusedBag(used), UnusedBag(after), UnusedBag(Mark(after, rest)), multiset(rest), b.value);
    }
  }

  lemma FillUnfolds(fs: seq<Fragment>, capacity: int, arcs: seq<Arc>, used: seq<bool>, space: int, end: nat, b: nat)
    requires NonEmptyFragments(fs) && Best(fs, capacity, arcs, used, space, Some(end)) == Some(b)
    ensures b < |fs| && b < |used| && Unused(used[b := true]) < Unused(used)
    ensures var rest := Fill(fs, capacity, arcs, used[b := true], space - Sizes(fs, capacity)[b], fs[b].End());
      && Fill(fs, capacity, arcs, used, space, end) == [b] + rest
      && Mark(used, [b] + rest) == Mark(used[b := true], rest)
  {
    hide Best;
    UseOne(used, b);
    var rest := Fill(fs, capacity, arcs, used[b := true], space - Sizes(fs, capacity)[b], fs[b].End());
    assert ([b] + rest)[1..] == rest;
  }

  lemma TightEnd(fs: seq<Fragment>, capacity: int, arcs: seq<Arc>, used: seq<bool>, space: int, end: nat, x: nat)
    requires NonEmptyFragments(fs) && x < |fs| && Best(fs, capacity, arcs, used, space, Some(end)).None?
    requires Untouched(Mark(used, Fill(fs, capacity, arcs, used, space, end)), x)
    ensures Fill(fs, capacity, arcs, used, space, end) == []
    ensures Sizes(fs, capacity)[x] + Load(Sizes(fs, capacity), []) > space
  {
    BestOfNone(fs, capacity, arcs, used, space, Some(end), |fs|);
    assert !Candidate(fs, capacity, used, space, x);
  }

  /** A route is closed only when nothing left fits. */
  lemma {:induction false} FillTight(fs: seq<Fragment>, capacity: int, arcs: seq<Arc>, used: seq<bool>, space: int, end: nat, x: nat)
    requires NonEmptyFragments(fs) && x < |fs|
    requires Untouched(Mark(used, Fill(fs, capacity, arcs, used, space, end)), x)
    ensures Indices(Sizes(fs, capacity), Fill(fs, capacity, arcs, used, space, end))
    ensures Sizes(fs, capacity)[x] + Load(Sizes(fs, capacity), Fill(fs, capacity, arcs, used, space, end)) > space
    decreases Unused(used)
  {
    hide Best, BestOf, Load, Fill, Mark, Untouched, Unused, Size;
    var sizes := Sizes(fs, capacity);
    var b := Best(fs, capacity, arcs, used, space, Some(end));
    if b.None? {
      TightEnd(fs, capacity, arcs, used, space, end, x);
    } else {
      FillUnfolds(fs, capacity, arcs, used, space, end, b.value);
      var after, left := used[b.value := true], space - sizes[b.value];
      var rest := Fill(fs, capacity, arcs, after, left, fs[b.value].End());
      FillTight(fs, capacity, arcs, after, left, fs[b.value].End(), x);
      LoadCons(sizes, b.value, rest);
    }
  }

  ghost function FirstGroup(fs: seq<Fragment>, capacity: int, arcs: seq<Arc>, used: seq<bool>, first: nat): (group: seq<nat>)
    requires NonEmptyFragments(fs) && Candidate(fs, capacity, used, capacity, first)
    ensures group != [] && group[0] == first
    ensures forall i :: 0 <= i < |group| ==> group[i] < |fs| && group[i] < |used|
  {
    [first] + Fill(fs, capacity, arcs, used[first := true], capacity - Size(fs[first], capacity), fs[first].End())
  }

  lemma FirstGroupMarks(fs: seq<Fragment>, capacity: int, arcs: seq<Arc>, used: seq<bool>, first: nat)
    requires NonEmptyFragments(fs) && Best(fs, capacity, arcs, used, capacity, None) == Some(first)
    ensures var group := FirstGroup(fs, capacity, arcs, used, first);
      && Mark(used, group) == Mark(used[first := true], group[1..])
      && Unused(Mark(used, group)) < Unused(used)
      && Groups(fs, capacity, arcs, used) == [group] + Groups(fs, capacity, arcs, Mark(used, group))
  {
    var group := FirstGroup(fs, capacity, arcs, used, first);
    var after := used[first := true];
    var picks := Fill(fs, capacity, arcs, after, capacity - Size(fs[first], capacity), fs[first].End());
    assert group[1..] == picks;
    UseOne(used, first);
    MarkShrinks(after, picks);
  }

  lemma FirstGroupBag(fs: seq<Fragment>, capacity: int, arcs: seq<Arc>, used: seq<bool>, first: nat)
    requires NonEmptyFragments(fs) && Best(fs, capacity, arcs, used, capacity, None) == Some(first)
    ensures var group := FirstGroup(fs, capacity, arcs, used, first);
      UnusedBag(used) == UnusedBag(Mark(used, group)) + multiset(group)
  {
    FirstGroupMarks(fs, capacity, arcs, used, first);
    var after, space, end := used[first := true], capacity - Size(fs[first], capacity), fs[first].End();
    UseOneBag(used, first);
    FillBag(fs, capacity, arcs, after, space, end);
    var picks := Fill(fs, capacity, arcs, after, space, end);
    BagOfCons(first, picks);
    BagStep(UnusedBag(used), UnusedBag(after), UnusedBag(Mark(after, picks)), multiset(picks), first);
  }

  lemma FirstGroupLoad(fs: seq<Fragment>, capacity: int, arcs: seq<Arc>, used: seq<bool>, first: nat)
    requires NonEmptyFragments(fs) && Best(fs, capacity, arcs, used, capacity, None) == Some(first)
    ensures var sizes, group := Sizes(fs, capacity), FirstGroup(fs, capacity, arcs, used, first);
      Indices(sizes, group) && Load(sizes, group) <= capacity
  {
    var sizes, after, space, end :=
      Sizes(fs, capacity), used[first := true], capacity - Size(fs[first], capacity), fs[first].End();
    FillLoad(fs, capacity, arcs, after, space, end);
    LoadCons(sizes, first, Fill(fs, capacity, arcs, after, space, end));
  }

  /** The opener is a largest unused fragment. */
  lemma FirstIsLargest(fs: seq<Fragment>, capacity: int, arcs: seq<Arc>, used: seq<bool>, first: nat, x: nat)
    requires NonEmptyFragments(fs) && Best(fs, capacity, arcs, used, capacity, None) == Some(first)
    requires capacity >= 1 && x < |fs| && Untouched(used, x)
    ensures Sizes(fs, capacity)[x] <= Sizes(fs, capacity)[first]
  {
    BestOfLargest(fs, capacity, arcs, used, capacity, None, |fs|);
    assert Candidate(fs, capacity, used, capacity, x);
  }

  lemma FirstGroupUntouched(fs: seq<Fragment>, capacity: int, arcs: seq<Arc>, used: seq<bool>, first: nat, x: nat)
    requires NonEmptyFragments(fs) && Best(fs, capacity, arcs, used, capacity, None) == Some(first)
    requires x in FirstGroup(fs, capacity, arcs, used, first)
    ensures Untouched(used, x)
  {
    if x != first {
      FillUntouched(fs, capacity, arcs, used[first := true], capacity - Size(fs[first], capacity), fs[first].End(), x);
    }
  }

  lemma FirstGroupTight(fs: seq<Fragment>, capacity: int, arcs: seq<Arc>, used: seq<bool>, first: nat, x: nat)
    requires NonEmptyFragments(fs) && Best(fs, capacity, arcs, used, capacity, None) == Some(first)
    requires x < |fs| && Untouched(Mark(used, FirstGroup(fs, capacity, arcs, used, first)), x)
    ensures var sizes, group := Sizes(fs, capacity), FirstGroup(fs, capacity, arcs, used, first);
      && Indices(sizes, group)
      && Load(sizes, group) + sizes[x] > capacity && x !in group && Untouched(used, x)
  {
    FirstGroupMarks(fs, capacity, arcs, used, first);
    var group := FirstGroup(fs, capacity, arcs, used, first);
    MarkUses(used, group, x);
    var sizes, after, space, end :=
      Sizes(fs, capacity), used[first := true], capacity - Size(fs[first], capacity), fs[first].End();
    assert group[1..] == Fill(fs, capacity, arcs, after, space, end);
    FillTight(fs, capacity, arcs, after, space, end, x);
    LoadCons(sizes, first, Fill(fs, capacity, arcs, after, space, end));
  }

  lemma FlattenCons<T>(s: seq<T>, rest: seq<seq<T>>)
    ensures Flatten([s] + rest) == s + Flatten(rest)
  {
    FlattenConcat([s], rest);
    FlattenSnoc([], s);
    assert [] + [s] == [s];
  }

  /** The groups use exactly the unused fragments. */
  lemma {:induction false} GroupsUse(fs: seq<Fragment>, capacity: int, arcs: seq<Arc>, used: seq<bool>, x: nat)
    requires NonEmptyFragments(fs) && |used| == |fs| && capacity >= 1
    ensures x in Flatten(Groups(fs, capacity, arcs, used)) <==> Untouched(used, x)
    decreases Unused(used)
  {
    var b := Best(fs, capacity, arcs, used, capacity, None);
    if b.None? {
      BestOfNone(fs, capacity, arcs, used, capacity, None, |fs|);
      assert !Candidate(fs, capacity, used, capacity, x);
    } else {
      var group := FirstGroup(fs, capacity, arcs, used, b.value);
      FirstGroupMarks(fs, capacity, arcs, used, b.value);
      if x in group {
        FirstGroupUntouched(fs, capacity, arcs, used, b.value, x);
      }
      var later := Mark(used, group);
      GroupsUse(fs, capacity, arcs, later, x);
      FlattenCons(group, Groups(fs, capacity, arcs, later));
      MarkUses(used, group, x);
    }
  }

  /** The groups use every unused fragment once. */
  lemma {:induction false} GroupsBag(fs: seq<Fragment>, capacity: int, arcs: seq<Arc>, used: seq<bool>)
    requires NonEmptyFragments(fs) && |used| == |fs| && capacity >= 1
    ensures UnusedBag(used) == multiset(Flatten(Groups(fs, capacity, arcs, used)))
    decreases Unused(used)
  {
    var b := Best(fs, capacity, arcs, used, capacity, None);
    if b.None? {
      forall x | 0 <= x < |used| ensures used[x] {
        GroupsUse(fs, capacity, arcs, used, x);
      }
      AllUsedBag(used);
    } else {
      var group := FirstGroup(fs, capacity, arcs, used, b.value);
      FirstGroupMarks(fs, capacity, arcs, used, b.value);
      FirstGroupBag(fs, capacity, arcs, used, b.value);
      var rest := Groups(fs, capacity, arcs, Mark(used, group));
      GroupsBag(fs, capacity, arcs, Mark(used, group));
      FlattenCons(group, rest);
      BagOfConcat(group, Flatten(rest));
    }
  }

  /** The groups form a first-fit-decreasing packing. */
  lemma {:induction false} GroupsGood(fs: seq<Fragment>, capacity: int, arcs: seq<Arc>, used: seq<bool>)
    requires NonEmptyFragments(fs) && |used| == |fs| && capacity >= 1
    ensures GoodPacking(Sizes(fs, capacity), capacity, Groups(fs, capacity, arcs, used))
    decreases Unused(used)
  {
    var b := Best(fs, capacity, arcs, used, capacity, None);
    if b.Some? {
      var group := FirstGroup(fs, capacity, arcs, used, b.value);
      FirstGroupMarks(fs, capacity, arcs, used, b.value);
      var later := Mark(used, group);
      GroupsGood(fs, capacity, arcs, later);
      var rest := Groups(fs, capacity, arcs, later);
      FirstGroupFits(fs, capacity, arcs, used, b.value, rest);
      assert ([group] + rest)[1..] == rest;
    }
  }

  lemma FirstGroupFits(fs: seq<Fragment>, capacity: int, arcs: seq<Arc>, used: seq<bool>, first: nat, rest: seq<seq<nat>>)
    requires NonEmptyFragments(fs) && |used| == |fs| && capacity >= 1
    requires Best(fs, capacity, arcs, used, capacity, None) == Some(first)
    requires rest == Groups(fs, capacity, arcs, Mark(used, FirstGroup(fs, capacity, arcs, used, first)))
    ensures FitsInFront(Sizes(fs, capacity), capacity, FirstGroup(fs, capacity, arcs, used, first), Flatten(rest))
  {
    var sizes, group := Sizes(fs, capacity), FirstGroup(fs, capacity, arcs, used, first);
    FirstGroupLoad(fs, capacity, arcs, used, first);
    forall x | x in group ensures sizes[x] <= sizes[first] {
      FirstGroupUntouched(fs, capacity, arcs, used, first, x);
      FirstIsLargest(fs, capacity, arcs, used, first, x);
    }
    forall x | x in Flatten(rest) ensures LeftOver(sizes, capacity, group, x) {
      LaterFragment(fs, capacity, arcs, used, first, x);
    }
  }

  lemma LaterFragment(fs: seq<Fragment>, capacity: int, arcs: seq<Arc>, used: seq<bool>, first: nat, x: nat)
    requires NonEmptyFragments(fs) && |used| == |fs| && capacity >= 1
    requires Best(fs, capacity, arcs, used, capacity, None) == Some(first)
    requires x in Flatten(Groups(fs, capacity, arcs, Mark(used, FirstGroup(fs, capacity, arcs, used, first))))
    ensures Indices(Sizes(fs, capacity), FirstGroup(fs, capacity, arcs, used, first))
    ensures LeftOver(Sizes(fs, capacity), capacity, FirstGroup(fs, capacity, arcs, used, first), x)
  {
    GroupsUse(fs, capacity, arcs, Mark(used, FirstGroup(fs, capacity, arcs, used, first)), x);
    FirstGroupTight(fs, capacity, arcs, used, first, x);
    FirstIsLargest(fs, capacity, arcs, used, first, x);
  }

  // ---------- Any other packing ----------

  /** Total size of the items put in bin k. */
  function BinLoad(sizes: seq<int>, bins: seq<nat>, k: nat): int
    requires |bins| == |sizes|
  {
    if sizes == [] then 0
    else BinLoad(sizes[..|sizes| - 1], bins[..|bins| - 1], k) + if bins[|bins| - 1] == k then sizes[|sizes| - 1] else 0
  }

  function BinLoads(sizes: seq<int>, bins: seq<nat>, count: nat): seq<int>
    requires |bins| == |sizes|
  {
    seq(count, k requires 0 <= k < count => BinLoad(sizes, bins, k))
  }

  /** The items can be put in `count` bins of the capacity. */
  ghost predicate IsPacking(sizes: seq<int>, capacity: int, bins: seq<nat>, count: nat) {
    && |bins| == |sizes|
    && (forall i :: 0 <= i < |bins| ==> bins[i] < count)
    && forall k :: 0 <= k < count ==> BinLoad(sizes, bins, k) <= capacity
  }

  lemma {:induction false} BinLoadsTotal(sizes: seq<int>, bins: seq<nat>, count: nat)
    requires |bins| == |sizes| && forall i :: 0 <= i < |bins| ==> bins[i] < count
    ensures Sum(BinLoads(sizes, bins, count)) == Sum(sizes)
  {
    var all := BinLoads(sizes, bins, count);
    if sizes == [] {
      SumConst(all, 0);
    } else {
      var n := |sizes| - 1;
      var before := BinLoads(sizes[..n], bins[..n], count);
      assert all == before[bins[n] := before[bins[n]] + sizes[n]];
      SumUpdate(before, bins[n], before[bins[n]] + sizes[n]);
      BinLoadsTotal(sizes[..n], bins[..n], count);
    }
  }

  lemma {:induction false} BinLoadHas(sizes: seq<int>, bins: seq<nat>, i: nat)
    requires |bins| == |sizes| && i < |sizes| && forall j :: 0 <= j < |sizes| ==> sizes[j] > 0
    ensures BinLoad(sizes, bins, bins[i]) >= sizes[i]
    ensures forall k :: BinLoad(sizes, bins, k) >= 0
  {
    BinLoadNonNegative(sizes, bins);
    if i < |sizes| - 1 {
      BinLoadHas(sizes[..|sizes| - 1], bins[..|bins| - 1], i);
    } else {
      BinLoadNonNegative(sizes[..|sizes| - 1], bins[..|bins| - 1]);
    }
  }

  lemma {:induction false} BinLoadNonNegative(sizes: seq<int>, bins: seq<nat>)
    requires |bins| == |sizes| && forall j :: 0 <= j < |sizes| ==> sizes[j] > 0
    ensures forall k :: BinLoad(sizes, bins, k) >= 0
  {
    if sizes != [] {
      BinLoadNonNegative(sizes[..|sizes| - 1], bins[..|bins| - 1]);
    }
  }

  lemma {:induction false} BinLoadHasTwo(sizes: seq<int>, bins: seq<nat>, i: nat, j: nat)
    requires |bins| == |sizes| && i < j < |sizes| && bins[i] == bins[j]
    requires forall j :: 0 <= j < |sizes| ==> sizes[j] > 0
    ensures BinLoad(sizes, bins, bins[i]) >= sizes[i] + sizes[j]
  {
    if j < |sizes| - 1 {
      BinLoadHasTwo(sizes[..|sizes| - 1], bins[..|bins| - 1], i, j);
    } else {
      BinLoadHas(sizes[..|sizes| - 1], bins[..|bins| - 1], i);
    }
  }

  lemma {:induction false} Pigeonhole(s: seq<nat>, count: nat)
    requires forall i :: 0 <= i < |s| ==> s[i] < count
    requires forall i, j :: 0 <= i < j < |s| ==> s[i] != s[j]
    ensures |s| <= count
  {
    if s != [] {
      assert s[0] < count;
      if i :| 0 <= i < |s| && s[i] == count - 1 {
        Pigeonhole(Without(s, i), count - 1);
      } else {
        Pigeonhole(s, count - 1);
      }
    }
  }

  // ---------- The 3/2 bound ----------

  /** Items above half the capacity cannot share a bin. */
  lemma BigItemsNeedBins(sizes: seq<int>, capacity: int, bins: seq<nat>, count: nat, big: seq<nat>)
    requires IsPacking(sizes, capacity, bins, count)
    requires forall j :: 0 <= j < |sizes| ==> sizes[j] > 0
    requires Indices(sizes, big) && forall i :: 0 <= i < |big| ==> 2 * sizes[big[i]] > capacity
    requires forall i, j :: 0 <= i < j < |big| ==> big[i] != big[j]
    ensures |big| <= count
  {
    var s := seq(|big|, i requires 0 <= i < |big| => bins[big[i]]);
    forall i, j | 0 <= i < j < |s| ensures s[i] != s[j] {
      if s[i] == s[j] {
        var lo, hi := if big[i] < big[j] then big[i] else big[j], if big[i] < big[j] then big[j] else big[i];
        BinLoadHasTwo(sizes, bins, lo, hi);
        assert false;
      }
    }
    Pigeonhole(s, count);
  }

  function GroupLoads(sizes: seq<int>, groups: seq<seq<nat>>): seq<int>
    requires forall g :: 0 <= g < |groups| ==> Indices(sizes, groups[g])
  {
    seq(|groups|, g requires 0 <= g < |groups| => Load(sizes, groups[g]))
  }

  lemma {:induction false} LoadOfFlatten(sizes: seq<int>, groups: seq<seq<nat>>)
    requires forall g :: 0 <= g < |groups| ==> Indices(sizes, groups[g])
    ensures Indices(sizes, Flatten(groups))
    ensures Load(sizes, Flatten(groups)) == Sum(GroupLoads(sizes, groups))
  {
    if groups != [] {
      var n := |groups| - 1;
      LoadOfFlatten(sizes, groups[..n]);
      LoadConcat(sizes, Flatten(groups[..n]), groups[n]);
      assert GroupLoads(sizes, groups)[..n] == GroupLoads(sizes, groups[..n]);
    }
  }

  /** When all items are at most half the capacity, every route but the last holds two of them. */
  lemma {:induction false} SmallItemsPairUp(sizes: seq<int>, capacity: int, groups: seq<seq<nat>>, from: nat)
    requires GoodPacking(sizes, capacity, groups) && AllIndices(sizes, groups) && from < |groups|
    requires 2 * sizes[groups[from][0]] <= capacity
    ensures |Flatten(groups[from..])| >= 2 * (|groups| - from) - 1
    decreases |groups| - from
  {
    assert groups[from..] == [groups[from]] + groups[from + 1..];
    FlattenCons(groups[from], groups[from + 1..]);
    if from + 1 < |groups| {
      var x, y := groups[from][0], groups[from + 1][0];
      GoodLater(sizes, capacity, groups, from, from + 1, y);
      if |groups[from]| == 1 {
        assert groups[from] == [x];
        LoadOne(sizes, x);
        assert false;
      }
      SmallItemsPairUp(sizes, capacity, groups, from + 1);
    }
  }

  lemma SumZip(a: seq<int>, b: seq<int>, t: nat, c: int)
    requires t <= |a| && t <= |b|
    requires forall i :: 0 <= i < |a| ==> a[i] >= 0
    requires forall i :: 0 <= i < |b| ==> b[i] >= 0
    requires forall i :: 0 <= i < t ==> a[i] + b[i] >= c
    ensures Sum(a) + Sum(b) >= t * c
  {
    SumPrefixLe(a, t);
    SumPrefixLe(b, t);
    SumZipFull(a[..t], b[..t], c);
  }

  lemma SumPrefixLe(a: seq<int>, t: nat)
    requires t <= |a| && forall i :: 0 <= i < |a| ==> a[i] >= 0
    ensures Sum(a[..t]) <= Sum(a)
  {
    assert a == a[..t] + a[t..];
    SumConcat(a[..t], a[t..]);
    SumConst(Zeros(|a| - t), 0);
    SumLe(Zeros(|a| - t), a[t..]);
  }

  lemma {:induction false} SumZipFull(a: seq<int>, b: seq<int>, c: int)
    requires |a| == |b| && forall i :: 0 <= i < |a| ==> a[i] + b[i] >= c
    ensures Sum(a) + Sum(b) >= |a| * c
  {
    if a != [] {
      var n := |a| - 1;
      SumZipFull(a[..n], b[..n], c);
      MulSucc(n, c);
    }
  }

  lemma LoadWithout(sizes: seq<int>, a: seq<nat>, j: nat)
    requires Indices(sizes, a) && j < |a|
    ensures Indices(sizes, Without(a, j)) && Load(sizes, a) == Load(sizes, Without(a, j)) + sizes[a[j]]
  {
    assert a == (a[..j] + [a[j]]) + a[j + 1..];
    LoadConcat(sizes, a[..j] + [a[j]], a[j + 1..]);
    LoadConcat(sizes, a[..j], [a[j]]);
    LoadOne(sizes, a[j]);
    LoadConcat(sizes, a[..j], a[j + 1..]);
  }

  lemma {:induction false} LoadPermutation(sizes: seq<int>, a: seq<nat>, b: seq<nat>)
    requires Indices(sizes, a) && Indices(sizes, b) && multiset(a) == multiset(b)
    ensures Load(sizes, a) == Load(sizes, b)
    decreases |a|
  {
    if a == [] {
      assert |multiset(b)| == 0;
    } else {
      var j := MatchFirst(a, b);
      LoadWithout(sizes, a, 0);
      LoadWithout(sizes, b, j);
      LoadPermutation(sizes, Without(a, 0), Without(b, j));
    }
  }

  function Range(k: nat): seq<nat> {
    if k == 0 then [] else Range(k - 1) + [k - 1]
  }

  lemma {:induction false} RangeAt(k: nat)
    ensures |Range(k)| == k && forall i :: 0 <= i < k ==> Range(k)[i] == i
  {
    if k > 0 {
      RangeAt(k - 1);
    }
  }

  lemma {:induction false} NoneUsedBag(k: nat)
    ensures UnusedBag(NoneUsed(k)) == multiset(Range(k))
  {
    if k > 0 {
      NoneUsedBag(k - 1);
      assert NoneUsed(k)[..k - 1] == NoneUsed(k - 1);
      BagOfConcat(Range(k - 1), [k - 1]);
    }
  }

  /** The first j routes are opened by different fragments. */
  ghost function Openers(groups: seq<seq<nat>>, j: nat): seq<nat>
    requires j <= |groups| && forall g :: 0 <= g < |groups| ==> groups[g] != []
  {
    seq(j, g requires 0 <= g < j => groups[g][0])
  }

  /** Route j is opened by more than half the capacity: so is every route before it. */
  lemma BigCase(sizes: seq<int>, capacity: int, groups: seq<seq<nat>>, bins: seq<nat>, count: nat, j: nat)
    requires GoodPacking(sizes, capacity, groups) && IsPacking(sizes, capacity, bins, count)
    requires forall i :: 0 <= i < |sizes| ==> sizes[i] > 0
    requires 0 < j <= |groups| && AllIndices(sizes, groups) && 2 * sizes[groups[j - 1][0]] > capacity
    ensures j <= count
  {
    var big := Openers(groups, j);
    forall g | 0 <= g < j ensures 2 * sizes[big[g]] > capacity {
      if g < j - 1 {
        GoodLater(sizes, capacity, groups, g, j - 1, groups[j - 1][0]);
      }
    }
    forall g, h | 0 <= g < h < |big| ensures big[g] != big[h] {
      GoodLater(sizes, capacity, groups, g, h, big[h]);
    }
    BigItemsNeedBins(sizes, capacity, bins, count, big);
  }

  /** Otherwise the many small fragments packed from route j on fill up the routes before it. */
  lemma SmallCase(sizes: seq<int>, capacity: int, groups: seq<seq<nat>>, j: nat, t: nat)
    requires GoodPacking(sizes, capacity, groups)
    requires forall i :: 0 <= i < |sizes| ==> sizes[i] > 0
    requires 0 < j <= |groups| && AllIndices(sizes, groups) && 2 * sizes[groups[j - 1][0]] <= capacity
    requires t <= j - 1 && t <= 2 * (|groups| - j) + 1
    ensures Sum(GroupLoads(sizes, groups)) >= t * (capacity + 1)
  {
    hide GoodPacking, Sum, Load, Flatten;
    var late := groups[j - 1..];
    SmallItemsPairUp(sizes, capacity, groups, j - 1);
    LoadOfFlatten(sizes, late);
    SplitLoads(sizes, groups, j - 1);
    EarlyPlusLate(sizes, capacity, groups, j - 1, t);
  }

  lemma EarlyPlusLate(sizes: seq<int>, capacity: int, groups: seq<seq<nat>>, k: nat, t: nat)
    requires GoodPacking(sizes, capacity, groups) && AllIndices(sizes, groups)
    requires forall i :: 0 <= i < |sizes| ==> sizes[i] > 0
    requires t <= k <= |groups| && t <= |Flatten(groups[k..])| && Indices(sizes, Flatten(groups[k..]))
    ensures Sum(GroupLoads(sizes, groups[..k])) + Load(sizes, Flatten(groups[k..])) >= t * (capacity + 1)
  {
    var items := Flatten(groups[k..]);
    var a, b := GroupLoads(sizes, groups[..k]), Pick(sizes, items);
    forall g | 0 <= g < |a| ensures a[g] >= 0 {
      LoadNonNegative(sizes, groups[g]);
    }
    forall i | 0 <= i < t ensures a[i] + b[i] >= capacity + 1 {
      LateItemTooBig(sizes, capacity, groups, k, i, items[i]);
    }
    SumZip(a, b, t, capacity + 1);
  }

  lemma SplitLoads(sizes: seq<int>, groups: seq<seq<nat>>, k: nat)
    requires AllIndices(sizes, groups) && k <= |groups|
    ensures AllIndices(sizes, groups[..k]) && AllIndices(sizes, groups[k..])
    ensures Sum(GroupLoads(sizes, groups)) ==
      Sum(GroupLoads(sizes, groups[..k])) + Sum(GroupLoads(sizes, groups[k..]))
  {
    assert GroupLoads(sizes, groups) == GroupLoads(sizes, groups[..k]) + GroupLoads(sizes, groups[k..]);
    SumConcat(GroupLoads(sizes, groups[..k]), GroupLoads(sizes, groups[k..]));
  }

  lemma LateItemTooBig(sizes: seq<int>, capacity: int, groups: seq<seq<nat>>, k: nat, g: nat, x: nat)
    requires GoodPacking(sizes, capacity, groups) && AllIndices(sizes, groups)
    requires g < k <= |groups| && x in Flatten(groups[k..])
    ensures x < |sizes| && Load(sizes, groups[g]) + sizes[x] > capacity
  {
    FlattenContains(groups[k..], x);
    var h :| 0 <= h < |groups[k..]| && x in groups[k..][h];
    GoodLater(sizes, capacity, groups, g, k + h, x);
  }

  lemma LoadNonNegative(sizes: seq<int>, group: seq<nat>)
    requires Indices(sizes, group) && forall i :: 0 <= i < |sizes| ==> sizes[i] > 0
    ensures Load(sizes, group) >= 0
  {
    SumConst(Zeros(|group|), 0);
    SumLe(Zeros(|group|), Pick(sizes, group));
  }

  lemma {:induction false} SumAtMost(s: seq<int>, c: int)
    requires forall i :: 0 <= i < |s| ==> s[i] <= c
    ensures Sum(s) <= |s| * c
  {
    if s != [] {
      SumAtMost(s[..|s| - 1], c);
      MulSucc(|s| - 1, c);
    }
  }

  /** A first-fit-decreasing packing of everything uses at most 3/2 of the routes of any other packing. */
  lemma ThreeHalves(sizes: seq<int>, capacity: int, groups: seq<seq<nat>>, bins: seq<nat>, count: nat)
    requires GoodPacking(sizes, capacity, groups) && multiset(Flatten(groups)) == multiset(Range(|sizes|))
    requires IsPacking(sizes, capacity, bins, count)
    requires capacity > 0 && forall i :: 0 <= i < |sizes| ==> sizes[i] > 0
    ensures 2 * |groups| <= 3 * count
  {
    if groups != [] {
      GoodIndices(sizes, capacity, groups);
      var r := |groups|;
      var j := (2 * r + 2) / 3;
      if 2 * sizes[groups[j - 1][0]] > capacity {
        BigCase(sizes, capacity, groups, bins, count, j);
      } else {
        var t := if j - 1 <= 2 * (r - j) + 1 then j - 1 else 2 * (r - j) + 1;
        SmallCase(sizes, capacity, groups, j, t);
        TotalLoad(sizes, groups);
        BinLoadsTotal(sizes, bins, count);
        SumAtMost(BinLoads(sizes, bins, count), capacity);
        MoreBins(t, capacity, count);
        assert bins[groups[0][0]] < count;
      }
    }
  }

  lemma MoreBins(t: nat, capacity: int, count: nat)
    requires capacity > 0 && t * (capacity + 1) <= count * capacity
    ensures t > 0 ==> count > t
  {
    if count <= t {
      MulLe(count, t, capacity);
      assert t * (capacity + 1) == t * capacity + t;
    }
  }

  lemma TotalLoad(sizes: seq<int>, groups: seq<seq<nat>>)
    requires AllIndices(sizes, groups) && multiset(Flatten(groups)) == multiset(Range(|sizes|))
    ensures Sum(GroupLoads(sizes, groups)) == Sum(sizes)
  {
    RangeAt(|sizes|);
    LoadOfFlatten(sizes, groups);
    LoadPermutation(sizes, Flatten(groups), Range(|sizes|));
    assert Pick(sizes, Range(|sizes|)) == sizes;
  }

  // ---------- Nearly all routes are more than half full ----------

  /** A route that is not the last is more than half full, because the opener of the last one did not fit. */
  lemma MoreThanHalf(sizes: seq<int>, capacity: int, groups: seq<seq<nat>>, g: nat)
    requires GoodPacking(sizes, capacity, groups) && AllIndices(sizes, groups) && g < |groups| - 1
    requires forall i :: 0 <= i < |sizes| ==> sizes[i] > 0
    ensures 2 * Load(sizes, groups[g]) > capacity
  {
    var last := groups[|groups| - 1];
    GoodLater(sizes, capacity, groups, g, |groups| - 1, last[0]);
    LoadCons(sizes, groups[g][0], groups[g][1..]);
    LoadNonNegative(sizes, groups[g][1..]);
    assert groups[g] == [groups[g][0]] + groups[g][1..];
  }

  lemma {:induction false} SumHalves(s: seq<int>, c: int)
    requires forall i :: 0 <= i < |s| ==> 2 * s[i] >= c
    ensures 2 * Sum(s) >= |s| * c
  {
    if s != [] {
      SumHalves(s[..|s| - 1], c);
      MulSucc(|s| - 1, c);
    }
  }

  lemma SumHalvesButLast(s: seq<int>, c: int)
    requires s != [] && s[|s| - 1] >= 0 && forall i :: 0 <= i < |s| - 1 ==> 2 * s[i] >= c
    ensures (|s| - 1) * c <= 2 * Sum(s)
  {
    SumHalves(s[..|s| - 1], c);
  }

  lemma HalfFull(sizes: seq<int>, capacity: int, groups: seq<seq<nat>>)
    requires GoodPacking(sizes, capacity, groups) && multiset(Flatten(groups)) == multiset(Range(|sizes|))
    requires groups != [] && forall i :: 0 <= i < |sizes| ==> sizes[i] > 0
    ensures (|groups| - 1) * (capacity + 1) <= 2 * Sum(sizes)
  {
    GoodIndices(sizes, capacity, groups);
    TotalLoad(sizes, groups);
    hide GoodPacking, Flatten, Load, Sum, Range;
    forall g | 0 <= g < |groups| - 1 ensures 2 * GroupLoads(sizes, groups)[g] >= capacity + 1 {
      MoreThanHalf(sizes, capacity, groups, g);
    }
    LoadNonNegative(sizes, groups[|groups| - 1]);
    SumHalvesButLast(GroupLoads(sizes, groups), capacity + 1);
  }

  // ---------- The packer's guarantees ----------

  /** Every fragment is packed exactly once, in routes that respect the capacity. */
  lemma PackedOnce(fs: seq<Fragment>, maxLegs: int, arcs: seq<Arc>)
    requires NonEmptyFragments(fs) && maxLegs > 0
    ensures var groups := PackedGroups(fs, maxLegs, arcs);
      && GoodPacking(Sizes(fs, maxLegs + 1), maxLegs + 1, groups)
      && multiset(Flatten(groups)) == multiset(Range(|fs|))
  {
    GroupsGood(fs, maxLegs + 1, arcs, NoneUsed(|fs|));
    GroupsBag(fs, maxLegs + 1, arcs, NoneUsed(|fs|));
    NoneUsedBag(|fs|);
  }

  function BinSizes(fs: seq<Fragment>): seq<int> {
    seq(|fs|, i requires 0 <= i < |fs| => fs[i].Len() + 1)
  }

  /** The same with the sizes written out: no fragment within the limit is clamped. */
  lemma PackedBins(fs: seq<Fragment>, maxLegs: int, arcs: seq<Arc>)
    requires NonEmptyFragments(fs) && maxLegs > 0
    requires forall i :: 0 <= i < |fs| ==> fs[i].Len() <= maxLegs
    ensures var groups := PackedGroups(fs, maxLegs, arcs);
      && |groups| == |PackedRoutes(fs, maxLegs, arcs)|
      && GoodPacking(BinSizes(fs), maxLegs + 1, groups)
      && multiset(Flatten(groups)) == multiset(Range(|BinSizes(fs)|))
  {
    hide GoodPacking, Flatten, Groups, Range, RouteOf;
    PackedOnce(fs, maxLegs, arcs);
    assert Sizes(fs, maxLegs + 1) == BinSizes(fs);
  }

  /** However else the fragments are grouped into `count` routes of at most maxLegs legs, each with a bridge
      between neighbours, the packer needs at most 3/2 as many. */
  lemma PackingIsThreeHalves(fs: seq<Fragment>, maxLegs: int, arcs: seq<Arc>, bins: seq<nat>, count: nat)
    requires NonEmptyFragments(fs) && maxLegs > 0
    requires forall i :: 0 <= i < |fs| ==> fs[i].Len() <= maxLegs
    requires IsPacking(BinSizes(fs), maxLegs + 1, bins, count)
    ensures 2 * |PackedRoutes(fs, maxLegs, arcs)| <= 3 * count
  {
    PackedBins(fs, maxLegs, arcs);
    ThreeHalves(BinSizes(fs), maxLegs + 1, PackedGroups(fs, maxLegs, arcs), bins, count);
  }

  /** The routes but one, half full, hold no more than all the fragments. */
  lemma PackingIsHalfFull(fs: seq<Fragment>, maxLegs: int, arcs: seq<Arc>)
    requires NonEmptyFragments(fs) && maxLegs > 0
    requires forall i :: 0 <= i < |fs| ==> fs[i].Len() <= maxLegs
    ensures |PackedRoutes(fs, maxLegs, arcs)| > 0 ==>
      (|PackedRoutes(fs, maxLegs, arcs)| - 1) * (maxLegs + 2) <= 2 * Sum(BinSizes(fs))
  {
    PackedBins(fs, maxLegs, arcs);
    hide GoodPacking, PackedGroups, PackedRoutes, Flatten, Sum;
    var groups := PackedGroups(fs, maxLegs, arcs);
    if groups != [] {
      HalfFull(BinSizes(fs), maxLegs + 1, groups);
    }
  }
}
