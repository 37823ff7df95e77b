/**
 * The packing rule of internal/arccover/packing.go, stated naively.
 *
 * Open a route with the largest unused fragment; then keep adding the largest unused fragment that
 * fits, preferring among equal sizes one whose bridge is not itself a required pair; ties go to the
 * smaller fragment ID.  Each choice looks at every fragment.  The indexed packer of the source is proved
 * to make the same choices in packer.dfy.
 */
module PackingRule {
  import opened ArcTypes
  import opened RequiredSets

  datatype Option<T> = None | Some(value: T)

  ghost predicate NonEmptyFragments(fs: seq<Fragment>) {
    forall i :: 0 <= i < |fs| ==> fs[i].edges != []
  }

  ghost predicate IdsIncrease(fs: seq<Fragment>) {
    forall i, j :: 0 <= i < j < |fs| ==> fs[i].id < fs[j].id
  }

  /** A fragment takes its legs and one more, for the bridge, clamped to the capacity. */
  function Size(f: Fragment, capacity: int): int {
    var sz := f.Len() + 1;
    var clamped := if sz > capacity then capacity else sz;
    if clamped < 1 then 1 else clamped
  }

  function Sizes(fs: seq<Fragment>, capacity: int): seq<int> {
    seq(|fs|, i requires 0 <= i < |fs| => Size(fs[i], capacity))
  }

  // ---------- One choice ----------

  /** The bridge from `end` to fragment i would itself be a required pair. */
  ghost predicate Duplicate(fs: seq<Fragment>, arcs: seq<Arc>, end: Option<nat>, i: nat)
    requires i < |fs| && NonEmptyFragments(fs)
  {
    end.Some? && IsRequiredPair(arcs, end.value, fs[i].Start())
  }

  /** i is preferred to j: larger, else no duplicate bridge, else smaller ID. */
  ghost predicate Better(fs: seq<Fragment>, capacity: int, arcs: seq<Arc>, end: Option<nat>, i: nat, j: nat)
    requires i < |fs| && j < |fs| && NonEmptyFragments(fs)
  {
    var si, sj := Size(fs[i], capacity), Size(fs[j], capacity);
    var di, dj := Duplicate(fs, arcs, end, i), Duplicate(fs, arcs, end, j);
    si > sj || (si == sj && ((!di && dj) || (di == dj && fs[i].id < fs[j].id)))
  }

  ghost predicate Candidate(fs: seq<Fragment>, capacity: int, used: seq<bool>, space: int, i: nat) {
    i < |fs| && i < |used| && !used[i] && Size(fs[i], capacity) <= space
  }

  /** The preferred candidate among the first k fragments. */
  ghost function BestOf(fs: seq<Fragment>, capacity: int, arcs: seq<Arc>, used: seq<bool>,
                        space: int, end: Option<nat>, k: nat): (r: Option<nat>)
    requires k <= |fs| && NonEmptyFragments(fs)
    ensures r.Some? ==> r.value < k && Candidate(fs, capacity, used, space, r.value)
  {
    if k == 0 then None
    else
      var b := BestOf(fs, capacity, arcs, used, space, end, k - 1);
      if !Candidate(fs, capacity, used, space, k - 1) then b
      else if b.None? || Better(fs, capacity, arcs, end, k - 1, b.value) then Some(k - 1)
      else b
  }

  ghost function Best(fs: seq<Fragment>, capacity: int, arcs: seq<Arc>, used: seq<bool>,
                      space: int, end: Option<nat>): (r: Option<nat>)
    requires NonEmptyFragments(fs)
    ensures r.Some? ==> Candidate(fs, capacity, used, space, r.value)
  {
    BestOf(fs, capacity, arcs, used, space, end, |fs|)
  }

  /** The scan finds a candidate preferred to all others, if there is one at all. */
  lemma {:induction false} BestOfWins(fs: seq<Fragment>, capacity: int, arcs: seq<Arc>, used: seq<bool>,
                                      space: int, end: Option<nat>, k: nat)
    requires k <= |fs| && NonEmptyFragments(fs) && IdsIncrease(fs)
    ensures var b := BestOf(fs, capacity, arcs, used, space, end, k);
      forall j :: 0 <= j < k && Candidate(fs, capacity, used, space, j) ==>
        b.Some? && (j == b.value || Better(fs, capacity, arcs, end, b.value, j))
  {
    if k > 0 {
      BestOfWins(fs, capacity, arcs, used, space, end, k - 1);
    }
  }

  /** Whoever beats every other candidate is the one the scan finds. */
  lemma BestIsUnique(fs: seq<Fragment>, capacity: int, arcs: seq<Arc>, used: seq<bool>,
                     space: int, end: Option<nat>, i: nat)
    requires NonEmptyFragments(fs) && IdsIncrease(fs) && Candidate(fs, capacity, used, space, i)
    requires forall j :: 0 <= j < |fs| && j != i && Candidate(fs, capacity, used, space, j) ==>
      Better(fs, capacity, arcs, end, i, j)
    ensures Best(fs, capacity, arcs, used, space, end) == Some(i)
  {
    BestOfWins(fs, capacity, arcs, used, space, end, |fs|);
    var b := Best(fs, capacity, arcs, used, space, end);
    assert b.Some?;
  }

  lemma {:induction false} BestOfNone(fs: seq<Fragment>, capacity: int, arcs: seq<Arc>, used: seq<bool>,
                                      space: int, end: Option<nat>, k: nat)
    requires k <= |fs| && NonEmptyFragments(fs)
    ensures BestOf(fs, capacity, arcs, used, space, end, k).None? <==>
      forall j :: 0 <= j < k ==> !Candidate(fs, capacity, used, space, j)
  {
    if k > 0 {
      BestOfNone(fs, capacity, arcs, used, space, end, k - 1);
    }
  }

  /** The size of the choice is the largest that fits. */
  lemma {:induction false} BestOfLargest(fs: seq<Fragment>, capacity: int, arcs: seq<Arc>, used: seq<bool>,
                                         space: int, end: Option<nat>, k: nat)
    requires k <= |fs| && NonEmptyFragments(fs)
    ensures var b := BestOf(fs, capacity, arcs, used, space, end, k);
      forall j :: 0 <= j < k && Candidate(fs, capacity, used, space, j) ==>
        b.Some? && Size(fs[j], capacity) <= Size(fs[b.value], capacity)
  {
    if k > 0 {
      BestOfLargest(fs, capacity, arcs, used, space, end, k - 1);
    }
  }

  // ---------- One route, then all routes ----------

  function Unused(used: seq<bool>): nat {
    if used == [] then 0
    else Unused(used[..|used| - 1]) + if used[|used| - 1] then 0 else 1
  }

  lemma {:induction false} UseOne(used: seq<bool>, i: nat)
    requires i < |used| && !used[i]
    ensures Unused(used[i := true]) == Unused(used) - 1
  {
    var n := |used| - 1;
    if i == n {
      assert used[i := true][..n] == used[..n];
    } else {
      UseOne(used[..n], i);
      assert used[i := true][..n] == used[..n][i := true];
    }
  }

  /** The fragments added to a route that ends at `end` with `space` left. */
  ghost function Fill(fs: seq<Fragment>, capacity: int, arcs: seq<Arc>, used: seq<bool>, space: int, end: nat)
    : (picks: seq<nat>)
    requires NonEmptyFragments(fs)
    ensures forall i :: 0 <= i < |picks| ==> picks[i] < |fs| && picks[i] < |used|
    decreases Unused(used)
  {
    var b := Best(fs, capacity, arcs, used, space, Some(end));
    if b.None? then []
    else
      UseOne(used, b.value);
      [b.value] + Fill(fs, capacity, arcs, used[b.value := true],
                       space - Size(fs[b.value], capacity), fs[b.value].End())
  }

  ghost function Mark(used: seq<bool>, picks: seq<nat>): (r: seq<bool>)
    requires forall i :: 0 <= i < |picks| ==> picks[i] < |used|
    ensures |r| == |used|
    decreases picks
  {
    if picks == [] then used else Mark(used[picks[0] := true], picks[1..])
  }

  lemma {:induction false} MarkShrinks(used: seq<bool>, picks: seq<nat>)
    requires forall i :: 0 <= i < |picks| ==> picks[i] < |used|
    ensures Unused(Mark(used, picks)) <= Unused(used)
    decreases picks
  {
    if picks != [] {
      if used[picks[0]] {
        assert used[picks[0] := true] == used;
      } else {
        UseOne(used, picks[0]);
      }
      MarkShrinks(used[picks[0] := true], picks[1..]);
    }
  }

  /** One route per group; a group lists the fragments in the order they are travelled. */
  ghost function Groups(fs: seq<Fragment>, capacity: int, arcs: seq<Arc>, used: seq<bool>)
    : (groups: seq<seq<nat>>)
    requires NonEmptyFragments(fs)
    ensures forall g :: 0 <= g < |groups| ==> groups[g] != [] && IndicesOf(fs, groups[g])
    decreases Unused(used)
  {
    var b := Best(fs, capacity, arcs, used, capacity, None);
    if b.None? then []
    else
      var after := used[b.value := true];
      UseOne(used, b.value);
      var picks := Fill(fs, capacity, arcs, after, capacity - Size(fs[b.value], capacity), fs[b.value].End());
      MarkShrinks(after, picks);
      [[b.value] + picks] + Groups(fs, capacity, arcs, Mark(after, picks))
  }

  ghost predicate IndicesOf(fs: seq<Fragment>, group: seq<nat>) {
    forall i :: 0 <= i < |group| ==> group[i] < |fs|
  }

  // ---------- Legs ----------

  function FragmentLegs(f: Fragment): seq<Leg> {
    seq(|f.edges|, i requires 0 <= i < |f.edges| =>
      Leg(f.edges[i].from, f.edges[i].to, LegRequired, f.edges[i].id))
  }

  function Bridge(from: nat, to: nat): Leg { Leg(from, to, LegBridge, 0) }

  /** The legs that follow a route ending at `end`: a bridge, then the fragment, for every pick. */
  ghost function TailLegs(fs: seq<Fragment>, picks: seq<nat>, end: nat): seq<Leg>
    requires NonEmptyFragments(fs) && IndicesOf(fs, picks)
  {
    if picks == [] then []
    else
      var f := fs[picks[0]];
      [Bridge(end, f.Start())] + FragmentLegs(f) + TailLegs(fs, picks[1..], f.End())
  }

  ghost function RouteOf(fs: seq<Fragment>, group: seq<nat>): Route
    requires NonEmptyFragments(fs) && group != [] && IndicesOf(fs, group)
  {
    Route(FragmentLegs(fs[group[0]]) + TailLegs(fs, group[1..], fs[group[0]].End()))
  }

  ghost function RoutesOf(fs: seq<Fragment>, groups: seq<seq<nat>>): seq<Route>
    requires NonEmptyFragments(fs)
    requires forall g :: 0 <= g < |groups| ==> groups[g] != [] && IndicesOf(fs, groups[g])
  {
    seq(|groups|, g requires 0 <= g < |groups| => RouteOf(fs, groups[g]))
  }

  function NoneUsed(k: nat): seq<bool> { seq(k, _ => false) }

  ghost function PackedGroups(fs: seq<Fragment>, maxLegs: int, arcs: seq<Arc>): (groups: seq<seq<nat>>)
    requires NonEmptyFragments(fs)
    ensures forall g :: 0 <= g < |groups| ==> groups[g] != [] && IndicesOf(fs, groups[g])
  {
    if maxLegs <= 0 then [] else Groups(fs, maxLegs + 1, arcs, NoneUsed(|fs|))
  }

  ghost function PackedRoutes(fs: seq<Fragment>, maxLegs: int, arcs: seq<Arc>): seq<Route>
    requires NonEmptyFragments(fs)
  {
    RoutesOf(fs, PackedGroups(fs, maxLegs, arcs))
  }
}
