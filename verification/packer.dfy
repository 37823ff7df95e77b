/**
 * PackFragments of internal/arccover/packing.go: size buckets with lazy heads, per-start lists with lazy
 * cursors, and start lists that are compacted while they are scanned.
 *
 * The packer keeps only enough of each index to find the next choice; it is proved to return exactly the
 * routes of the naive rule in packing_rule.dfy.
 */
module Packers {
  import opened ArcTypes
  import opened RequiredSets
  import opened PackingRule
  import opened Sums

  // ---------- Index lists ----------

  /** Fragment i has size s and, if asked for, start v. */
  predicate Matches(f: Fragment, capacity: int, s: int, v: Option<nat>)
    requires f.edges != []
  {
    Size(f, capacity) == s && (v.None? || f.Start() == v.value)
  }

  /** The indices below k of the fragments that match, ascending. */
  function Listed(fs: seq<Fragment>, capacity: int, s: int, v: Option<nat>, k: nat): (r: seq<nat>)
    requires k <= |fs| && forall i :: 0 <= i < |fs| ==> fs[i].edges != []
    ensures forall h :: 0 <= h < |r| ==> r[h] < k && Matches(fs[r[h]], capacity, s, v)
  {
    if k == 0 then []
    else Listed(fs, capacity, s, v, k - 1) + if Matches(fs[k - 1], capacity, s, v) then [k - 1] else []
  }

  lemma {:induction false} ListedAscends(fs: seq<Fragment>, capacity: int, s: int, v: Option<nat>, k: nat)
    requires k <= |fs| && NonEmptyFragments(fs)
    ensures forall g, h :: 0 <= g < h < |Listed(fs, capacity, s, v, k)| ==>
      Listed(fs, capacity, s, v, k)[g] < Listed(fs, capacity, s, v, k)[h]
  {
    if k > 0 {
      ListedAscends(fs, capacity, s, v, k - 1);
    }
  }

  lemma {:induction false} ListedHas(fs: seq<Fragment>, capacity: int, s: int, v: Option<nat>, k: nat, i: nat)
    returns (h: nat)
    requires k <= |fs| && NonEmptyFragments(fs) && i < k && Matches(fs[i], capacity, s, v)
    ensures h < |Listed(fs, capacity, s, v, k)| && Listed(fs, capacity, s, v, k)[h] == i
  {
    if i == k - 1 {
      h := |Listed(fs, capacity, s, v, k - 1)|;
    } else {
      h := ListedHas(fs, capacity, s, v, k - 1, i);
    }
  }

  // ---------- What the indexes promise ----------

  /** Everything before the head is used, but possibly for the fragment just taken. */
  ghost predicate HeadOk(used: seq<bool>, list: seq<nat>, head: nat, pending: int) {
    head <= |list| &&
    forall h :: 0 <= h < head ==> list[h] < |used| && (used[list[h]] || list[h] == pending)
  }

  ghost predicate BucketsOk(fs: seq<Fragment>, capacity: int, buckets: seq<seq<nat>>, heads: seq<nat>,
                            used: seq<bool>, pending: int)
    requires NonEmptyFragments(fs)
  {
    && capacity >= 0 && |buckets| == |heads| == capacity + 1
    && forall s :: 1 <= s <= capacity ==>
      buckets[s] == Listed(fs, capacity, s, None, |fs|) && HeadOk(used, buckets[s], heads[s], pending)
  }

  ghost predicate StartsOk(fs: seq<Fragment>, capacity: int, n: nat, byStart: seq<seq<seq<nat>>>,
                           heads: seq<seq<nat>>, used: seq<bool>)
    requires NonEmptyFragments(fs)
  {
    && capacity >= 0 && |byStart| == |heads| == capacity + 1
    && (forall s :: 1 <= s <= capacity ==> |byStart[s]| == |heads[s]| == n)
    && forall s, v :: 1 <= s <= capacity && 0 <= v < n ==>
      byStart[s][v] == Listed(fs, capacity, s, Some(v), |fs|) && HeadOk(used, byStart[s][v], heads[s][v], -1)
  }

  ghost predicate UnusedOfSize(fs: seq<Fragment>, capacity: int, used: seq<bool>, s: int, j: nat) {
    j < |fs| && j < |used| && !used[j] && Size(fs[j], capacity) == s
  }

  /** Every start with an unused fragment of the size is still listed. */
  ghost predicate ActiveOk(fs: seq<Fragment>, capacity: int, n: nat, active: seq<seq<nat>>, used: seq<bool>)
    requires NonEmptyFragments(fs)
  {
    && capacity >= 0 && |active| == capacity + 1
    && forall s :: 1 <= s <= capacity ==> ActiveListOk(fs, capacity, n, active[s], s, used)
  }

  ghost predicate ActiveListOk(fs: seq<Fragment>, capacity: int, n: nat, list: seq<nat>, s: int, used: seq<bool>)
    requires NonEmptyFragments(fs)
  {
    && (forall p :: 0 <= p < |list| ==> list[p] < n)
    && forall j: nat :: UnusedOfSize(fs, capacity, used, s, j) ==> fs[j].Start() in list
  }

  /** idx is the first unused fragment of size s starting at st, -1 if there is none. */
  ghost predicate IsFirst(fs: seq<Fragment>, capacity: int, used: seq<bool>, s: int, st: nat, idx: int)
    requires NonEmptyFragments(fs)
  {
    && (idx >= 0 ==> UnusedOfSize(fs, capacity, used, s, idx) && fs[idx].Start() == st)
    && forall j: nat :: UnusedOfSize(fs, capacity, used, s, j) && fs[j].Start() == st ==> 0 <= idx <= j
  }

  /** idx is preferred to every other unused fragment of size s, -1 if there is none. */
  ghost predicate IsBestOfSize(fs: seq<Fragment>, capacity: int, arcs: seq<Arc>, used: seq<bool>, s: int,
                               end: nat, idx: int)
    requires NonEmptyFragments(fs)
  {
    && (idx >= 0 ==> UnusedOfSize(fs, capacity, used, s, idx))
    && forall j: nat :: UnusedOfSize(fs, capacity, used, s, j) ==>
      idx >= 0 && (j == idx || Better(fs, capacity, arcs, Some(end), idx, j))
  }

  /** j is unused, of size s, and not skipped for its bridge. */
  ghost predicate Eligible(fs: seq<Fragment>, capacity: int, arcs: seq<Arc>, used: seq<bool>, s: int,
                           end: nat, skipDuplicates: bool, j: nat)
    requires NonEmptyFragments(fs)
  {
    UnusedOfSize(fs, capacity, used, s, j) && !(skipDuplicates && Duplicate(fs, arcs, Some(end), j))
  }

  /** idx has the smallest ID of all eligible fragments, -1 if there is none. */
  ghost predicate IsLeast(fs: seq<Fragment>, capacity: int, arcs: seq<Arc>, used: seq<bool>, s: int,
                          end: nat, skipDuplicates: bool, idx: int)
    requires NonEmptyFragments(fs)
  {
    && (idx >= 0 ==> Eligible(fs, capacity, arcs, used, s, end, skipDuplicates, idx))
    && forall j: nat :: Eligible(fs, capacity, arcs, used, s, end, skipDuplicates, j) ==>
      idx >= 0 && fs[idx].id <= fs[j].id
  }

  ghost predicate EndpointsBelow(fs: seq<Fragment>, n: nat)
    requires NonEmptyFragments(fs)
  {
    forall i :: 0 <= i < |fs| ==> fs[i].Start() < n && fs[i].End() < n
  }

  lemma {:induction false} AllUnused(k: nat)
    ensures Unused(NoneUsed(k)) == k
  {
    if k > 0 {
      AllUnused(k - 1);
      assert NoneUsed(k)[..k - 1] == NoneUsed(k - 1);
    }
  }

  function ZeroRows(k: nat, n: nat): seq<seq<nat>> { seq(k, _ => Zeros(n)) }

  function Empties(k: nat): seq<seq<nat>> { seq(k, _ => []) }

  function EmptyRows(k: nat, n: nat): seq<seq<seq<nat>>> { seq(k, _ => Empties(n)) }

  /** One more than the largest endpoint. */
  method VertexBound(fs: seq<Fragment>) returns (n: nat)
    requires NonEmptyFragments(fs)
    ensures EndpointsBelow(fs, n)
  {
    n := 1;
    for i := 0 to |fs|
      invariant forall j :: 0 <= j < i ==> fs[j].Start() < n && fs[j].End() < n
    {
      if fs[i].Start() + 1 > n {
        n := fs[i].Start() + 1;
      }
      if fs[i].End() + 1 > n {
        n := fs[i].End() + 1;
      }
    }
  }

  ghost predicate BucketsListed(fs: seq<Fragment>, capacity: nat, buckets: seq<seq<nat>>, k: nat)
    requires NonEmptyFragments(fs) && k <= |fs|
  {
    |buckets| == capacity + 1 &&
    forall s :: 0 <= s <= capacity ==> buckets[s] == Listed(fs, capacity, s, None, k)
  }

  ghost predicate StartsListed(fs: seq<Fragment>, capacity: nat, n: nat, byStart: seq<seq<seq<nat>>>, k: nat)
    requires NonEmptyFragments(fs) && k <= |fs|
  {
    && |byStart| == capacity + 1 && (forall s :: 0 <= s <= capacity ==> |byStart[s]| == n)
    && forall s, v :: 0 <= s <= capacity && 0 <= v < n ==>
      byStart[s][v] == Listed(fs, capacity, s, Some(v), k)
  }

  ghost predicate ActiveListed(fs: seq<Fragment>, capacity: nat, n: nat, active: seq<seq<nat>>, k: nat)
    requires NonEmptyFragments(fs) && k <= |fs| && capacity >= 1
  {
    && |active| == capacity + 1
    && (forall s, p :: 0 <= s <= capacity && 0 <= p < |active[s]| ==> active[s][p] < n)
    && forall j :: 0 <= j < k ==> fs[j].Start() in active[Size(fs[j], capacity)]
  }

  lemma BucketStep(fs: seq<Fragment>, capacity: nat, buckets: seq<seq<nat>>, i: nat)
    requires NonEmptyFragments(fs) && i < |fs| && capacity >= 1 && BucketsListed(fs, capacity, buckets, i)
    ensures var sz := Size(fs[i], capacity);
      BucketsListed(fs, capacity, buckets[sz := buckets[sz] + [i]], i + 1)
  {
  }

  lemma StartStep(fs: seq<Fragment>, capacity: nat, n: nat, byStart: seq<seq<seq<nat>>>, i: nat)
    requires NonEmptyFragments(fs) && EndpointsBelow(fs, n) && i < |fs| && capacity >= 1
    requires StartsListed(fs, capacity, n, byStart, i)
    ensures var sz, st := Size(fs[i], capacity), fs[i].Start();
      StartsListed(fs, capacity, n, byStart[sz := byStart[sz][st := byStart[sz][st] + [i]]], i + 1)
  {
  }

  lemma ActiveStep(fs: seq<Fragment>, capacity: nat, n: nat, byStart: seq<seq<seq<nat>>>, active: seq<seq<nat>>, i: nat)
    requires NonEmptyFragments(fs) && EndpointsBelow(fs, n) && i < |fs| && capacity >= 1
    requires StartsListed(fs, capacity, n, byStart, i) && ActiveListed(fs, capacity, n, active, i)
    ensures var sz, st := Size(fs[i], capacity), fs[i].Start();
      ActiveListed(fs, capacity, n, if byStart[sz][st] == [] then active[sz := active[sz] + [st]] else active, i + 1)
  {
    var sz, st := Size(fs[i], capacity), fs[i].Start();
    var list := byStart[sz][st];
    if list != [] {
      assert list == Listed(fs, capacity, sz, Some(st), i);
      assert Matches(fs[list[0]], capacity, sz, Some(st));
    }
  }

  /** One pass over the fragments fills the size buckets, the per-start lists and the active starts. */
  method BuildIndexes(fs: seq<Fragment>, capacity: nat, n: nat)
    returns (buckets: seq<seq<nat>>, byStart: seq<seq<seq<nat>>>, active: seq<seq<nat>>)
    requires NonEmptyFragments(fs) && EndpointsBelow(fs, n) && capacity >= 1
    ensures BucketsListed(fs, capacity, buckets, |fs|)
    ensures StartsListed(fs, capacity, n, byStart, |fs|)
    ensures ActiveListed(fs, capacity, n, active, |fs|)
  {
    buckets := Empties(capacity + 1);
    byStart := EmptyRows(capacity + 1, n);
    active := Empties(capacity + 1);
    for i := 0 to |fs|
      invariant BucketsListed(fs, capacity, buckets, i)
      invariant StartsListed(fs, capacity, n, byStart, i)
      invariant ActiveListed(fs, capacity, n, active, i)
    {
      var sz, st := Size(fs[i], capacity), fs[i].Start();
      BucketStep(fs, capacity, buckets, i);
      StartStep(fs, capacity, n, byStart, i);
      ActiveStep(fs, capacity, n, byStart, active, i);
      buckets := buckets[sz := buckets[sz] + [i]];
      if |byStart[sz][st]| == 0 {
        active := active[sz := active[sz] + [st]];
      }
      var row := byStart[sz];
      byStart := byStart[sz := row[st := row[st] + [i]]];
    }
  }

  /** Nothing is used yet, and all heads are at the front. */
  lemma FreshIndexes(fs: seq<Fragment>, capacity: nat, n: nat, buckets: seq<seq<nat>>,
                     byStart: seq<seq<seq<nat>>>, active: seq<seq<nat>>)
    requires NonEmptyFragments(fs) && capacity >= 1
    requires BucketsListed(fs, capacity, buckets, |fs|) && StartsListed(fs, capacity, n, byStart, |fs|)
    requires ActiveListed(fs, capacity, n, active, |fs|)
    ensures BucketsOk(fs, capacity, buckets, Zeros(capacity + 1), NoneUsed(|fs|), -1)
    ensures StartsOk(fs, capacity, n, byStart, ZeroRows(capacity + 1, n), NoneUsed(|fs|))
    ensures ActiveOk(fs, capacity, n, active, NoneUsed(|fs|))
  {
    FreshStarts(fs, capacity, n, byStart);
    hide Listed, Size, StartsListed, StartsOk;
    forall s | 1 <= s <= capacity ensures ActiveListOk(fs, capacity, n, active[s], s, NoneUsed(|fs|)) {
    }
  }

  lemma FrontIsOk(used: seq<bool>, list: seq<nat>)
    ensures HeadOk(used, list, 0, -1)
  {
  }

  lemma FreshStarts(fs: seq<Fragment>, capacity: nat, n: nat, byStart: seq<seq<seq<nat>>>)
    requires NonEmptyFragments(fs) && StartsListed(fs, capacity, n, byStart, |fs|)
    ensures StartsOk(fs, capacity, n, byStart, ZeroRows(capacity + 1, n), NoneUsed(|fs|))
  {
    hide Listed, Size, HeadOk;
    var heads := ZeroRows(capacity + 1, n);
    forall s, v | 1 <= s <= capacity && 0 <= v < n
      ensures HeadOk(NoneUsed(|fs|), byStart[s][v], heads[s][v], -1)
    {
      assert heads[s] == Zeros(n);
      FrontIsOk(NoneUsed(|fs|), byStart[s][v]);
    }
  }

  /** Move a head past used fragments. */
  method Advance(list: seq<nat>, used: seq<bool>, head: nat) returns (h: nat)
    requires HeadOk(used, list, head, -1) && forall g :: 0 <= g < |list| ==> list[g] < |used|
    ensures HeadOk(used, list, h, -1) && (h < |list| ==> !used[list[h]])
  {
    h := head;
    while h < |list| && used[list[h]]
      invariant HeadOk(used, list, h, -1)
    {
      h := h + 1;
    }
  }

  /** Behind a head nothing is unused; what it stands on is the first. */
  lemma AdvancedIsFirst(fs: seq<Fragment>, capacity: int, used: seq<bool>, s: int, v: Option<nat>, h: nat)
    requires NonEmptyFragments(fs) && |used| == |fs|
    requires var list := Listed(fs, capacity, s, v, |fs|);
      HeadOk(used, list, h, -1) && (h < |list| ==> !used[list[h]])
    ensures var list := Listed(fs, capacity, s, v, |fs|);
      forall j: nat :: UnusedOfSize(fs, capacity, used, s, j) && Matches(fs[j], capacity, s, v) ==>
        h < |list| && list[h] <= j
  {
    var list := Listed(fs, capacity, s, v, |fs|);
    ListedAscends(fs, capacity, s, v, |fs|);
    forall j: nat | UnusedOfSize(fs, capacity, used, s, j) && Matches(fs[j], capacity, s, v)
      ensures h < |list| && list[h] <= j
    {
      var g := ListedHas(fs, capacity, s, v, |fs|, j);
    }
  }

  function SetHead(heads: seq<seq<nat>>, s: nat, v: nat, h: nat): seq<seq<nat>>
    requires s < |heads| && v < |heads[s]|
  {
    var row: seq<nat> := heads[s][v := h];
    heads[s := row]
  }

  function SetCursor(heads: seq<nat>, s: nat, h: nat): seq<nat>
    requires s < |heads|
  {
    heads[s := h]
  }

  lemma StartHeadMoved(fs: seq<Fragment>, capacity: int, n: nat, byStart: seq<seq<seq<nat>>>,
                       heads: seq<seq<nat>>, used: seq<bool>, s: nat, st: nat, h: nat)
    requires NonEmptyFragments(fs) && StartsOk(fs, capacity, n, byStart, heads, used)
    requires 1 <= s <= capacity && st < n && HeadOk(used, byStart[s][st], h, -1)
    ensures StartsOk(fs, capacity, n, byStart, SetHead(heads, s, st, h), used)
  {
  }

  /** A head may move to h, or to h + 1 while the fragment at h waits to be marked. */
  lemma BucketHeadMoved(fs: seq<Fragment>, capacity: int, buckets: seq<seq<nat>>, heads: seq<nat>,
                        used: seq<bool>, s: nat, h: nat)
    requires NonEmptyFragments(fs) && |used| == |fs| && BucketsOk(fs, capacity, buckets, heads, used, -1)
    requires 1 <= s <= capacity && HeadOk(used, buckets[s], h, -1)
    ensures BucketsOk(fs, capacity, buckets, SetCursor(heads, s, h), used, -1)
    ensures h < |buckets[s]| ==> BucketsOk(fs, capacity, buckets, SetCursor(heads, s, h + 1), used, buckets[s][h])
  {
    assert buckets[s] == Listed(fs, capacity, s, None, |fs|);
  }

  class Packer {
    const fs: seq<Fragment>
    const capacity: int
    const n: nat
    const requiredSet: RequiredSet
    ghost const arcs: seq<Arc>

    var buckets: seq<seq<nat>>
    var bucketHead: seq<nat>
    var byStart: seq<seq<seq<nat>>>
    var startHead: seq<seq<nat>>
    var activeStarts: seq<seq<nat>>
    var used: seq<bool>
    var remaining: int

    constructor (fs: seq<Fragment>, maxLegs: int, requiredSet: RequiredSet, ghost arcs: seq<Arc>)
      requires maxLegs > 0 && NonEmptyFragments(fs) && IdsIncrease(fs)
      requires requiredSet.Valid() && InRange(requiredSet.N, arcs) && requiredSet.Holds(arcs)
      requires requiredSet.N > 0 ==> EndpointsBelow(fs, requiredSet.N)
      ensures Valid() && used == NoneUsed(|fs|)
      ensures this.fs == fs && capacity == maxLegs + 1 && this.requiredSet == requiredSet && this.arcs == arcs
    {
      var bound := requiredSet.N;
      if bound == 0 {
        bound := VertexBound(fs);
      }
      this.fs := fs;
      this.capacity := maxLegs + 1;
      this.n := bound;
      this.requiredSet := requiredSet;
      this.arcs := arcs;
      this.used := NoneUsed(|fs|);
      this.remaining := |fs|;
      this.bucketHead := Zeros(maxLegs + 2);
      this.startHead := ZeroRows(maxLegs + 2, bound);
      var buckets, byStart, active := BuildIndexes(fs, maxLegs + 1, bound);
      this.buckets, this.byStart, this.activeStarts := buckets, byStart, active;
      new;
      AllUnused(|fs|);
      FreshIndexes(fs, maxLegs + 1, bound, buckets, byStart, active);
    }

    ghost predicate Inputs()
      reads requiredSet, requiredSet.Bits
    {
      && NonEmptyFragments(fs) && IdsIncrease(fs) && capacity >= 2
      && EndpointsBelow(fs, n)
      && requiredSet.Valid() && InRange(requiredSet.N, arcs) && requiredSet.Holds(arcs)
      && (requiredSet.N == 0 || requiredSet.N == n)
    }

    /** All indexes agree with `used`; `pending` is the fragment popped but not yet marked. */
    ghost predicate ValidBut(pending: int)
      reads this, requiredSet, requiredSet.Bits
    {
      && Inputs()
      && |used| == |fs| && remaining == Unused(used)
      && BucketsOk(fs, capacity, buckets, bucketHead, used, pending)
      && StartsOk(fs, capacity, n, byStart, startHead, used)
      && ActiveOk(fs, capacity, n, activeStarts, used)
    }

    ghost predicate Valid()
      reads this, requiredSet, requiredSet.Bits
    {
      ValidBut(-1)
    }

    method PeekStart(s: int, st: nat) returns (idx: int)
      requires Valid() && 1 <= s <= capacity
      modifies this`startHead
      ensures Valid() && IsFirst(fs, capacity, used, s, st, idx)
    {
      if st >= n {
        return -1;
      }
      var list := byStart[s][st];
      assert list == Listed(fs, capacity, s, Some(st), |fs|) && HeadOk(used, list, startHead[s][st], -1);
      var h := Advance(list, used, startHead[s][st]);
      StartHeadMoved(fs, capacity, n, byStart, startHead, used, s, st, h);
      startHead := SetHead(startHead, s, st, h);
      idx := if h < |list| then list[h] else -1;
      AdvancedIsFirst(fs, capacity, used, s, Some(st), h);
    }

    /** The preferred unused fragment of size s, after a route that ends at `end`. */
    method PickFromSize(s: int, end: nat) returns (best: int)
      requires Valid() && 1 <= s <= capacity && end < n
      modifies this`startHead, this`activeStarts
      ensures Valid() && IsBestOfSize(fs, capacity, arcs, used, s, end, best)
    {
      best := ScanStarts(s, end, true);
      if best < 0 {
        best := ScanStarts(s, end, false);
      }
    }

    /** One pass over the starts of size s: drops exhausted starts, and returns the smallest ID among the
        fragments that head a start and, if asked, do not need a duplicate bridge. */
    method ScanStarts(s: int, end: nat, skipDuplicates: bool) returns (best: int)
      requires Valid() && 1 <= s <= capacity && end < n
      modifies this`startHead, this`activeStarts
      ensures Valid() && IsLeast(fs, capacity, arcs, used, s, end, skipDuplicates, best)
    {
      best := -1;
      var starts := activeStarts[s];
      var kept: seq<nat> := [];
      for p := 0 to |starts|
        invariant Valid() && activeStarts == old(activeStarts) && starts == activeStarts[s]
        invariant forall q :: 0 <= q < |kept| ==> kept[q] < n
        invariant forall j: nat :: UnusedOfSize(fs, capacity, used, s, j) && fs[j].Start() in starts[..p] ==>
          fs[j].Start() in kept
        invariant best >= 0 ==> Eligible(fs, capacity, arcs, used, s, end, skipDuplicates, best)
        invariant forall j: nat ::
          Eligible(fs, capacity, arcs, used, s, end, skipDuplicates, j) && fs[j].Start() in starts[..p] ==>
            best >= 0 && fs[best].id <= fs[j].id
      {
        var st := starts[p];
        assert starts[..p + 1] == starts[..p] + [st];
        var idx := PeekStart(s, st);
        if idx < 0 {
          continue;
        }
        kept := kept + [st];
        if skipDuplicates && requiredSet.Contains(end, st) {
          continue;
        }
        if best < 0 || fs[idx].id < fs[best].id {
          best := idx;
        }
      }
      assert starts[..|starts|] == starts;
      activeStarts := activeStarts[s := kept];
    }

    /** The first fragment of the largest size not above maxSize that is still unused; it is handed out
        before it is marked. */
    method PopBestSize(maxSize: int) returns (idx: int)
      requires Valid() && maxSize <= capacity
      modifies this`bucketHead
      ensures ValidBut(idx) && (idx < 0 ==> idx == -1)
      ensures idx >= 0 ==> idx < |fs| && !used[idx]
      ensures forall j: nat, t :: UnusedOfSize(fs, capacity, used, t, j) && t <= maxSize ==>
        idx >= 0 && (j == idx || Better(fs, capacity, arcs, None, idx, j))
    {
      var s := maxSize;
      while s >= 1
        invariant s <= maxSize && Valid()
        invariant forall j: nat, t :: UnusedOfSize(fs, capacity, used, t, j) && t <= maxSize ==> t <= s
      {
        idx := PopFromBucket(s);
        if idx >= 0 {
          return;
        }
        s := s - 1;
      }
      idx := -1;
    }

    method PopFromBucket(s: int) returns (idx: int)
      requires Valid() && 1 <= s <= capacity
      modifies this`bucketHead
      ensures ValidBut(idx) && (idx < 0 ==> idx == -1)
      ensures idx >= 0 ==> UnusedOfSize(fs, capacity, used, s, idx)
      ensures forall j: nat :: UnusedOfSize(fs, capacity, used, s, j) ==> 0 <= idx <= j
    {
      var b := buckets[s];
      var h := Advance(b, used, bucketHead[s]);
      AdvancedIsFirst(fs, capacity, used, s, None, h);
      BucketHeadMoved(fs, capacity, buckets, bucketHead, used, s, h);
      if h < |b| {
        bucketHead := SetCursor(bucketHead, s, h + 1);
        return b[h];
      }
      bucketHead := SetCursor(bucketHead, s, h);
      idx := -1;
    }

    /** The naive rule's choice for a route that ends at `end` with `space` left. */
    method PickFit(space: int, end: nat) returns (idx: int)
      requires Valid() && end < n
      modifies this`startHead, this`activeStarts
      ensures Valid()
      ensures idx >= 0 ==> Best(fs, capacity, arcs, used, space, Some(end)) == Some(idx)
      ensures idx < 0 ==> Best(fs, capacity, arcs, used, space, Some(end)).None?
    {
      if 1 <= space <= capacity {
        idx := PickFromSize(space, end);
        if idx >= 0 {
          PickedIsBest(fs, capacity, arcs, used, space, end, space, idx);
          return;
        }
      }
      var s := if space < capacity then space else capacity;
      while s >= 1
        invariant s <= space && s <= capacity && Valid()
        invariant 1 <= space <= capacity ==>
          forall j: nat :: !UnusedOfSize(fs, capacity, used, space, j)
        invariant forall j: nat, t :: UnusedOfSize(fs, capacity, used, t, j) && t <= space ==> t <= s
      {
        if s != space {
          idx := PickFromSize(s, end);
          if idx >= 0 {
            PickedIsBest(fs, capacity, arcs, used, space, end, s, idx);
            return;
          }
        }
        s := s - 1;
      }
      NothingFits(fs, capacity, arcs, used, space, Some(end));
      idx := -1;
    }

    method MarkUsed(idx: nat)
      requires idx < |used| && ValidBut(idx) && !used[idx]
      modifies this`used, this`remaining
      ensures Valid() && used == old(used)[idx := true]
    {
      UseOne(used, idx);
      used := used[idx := true];
      remaining := remaining - 1;
    }
  }

  /** The best of the largest size that fits is the naive rule's choice. */
  lemma PickedIsBest(fs: seq<Fragment>, capacity: int, arcs: seq<Arc>, used: seq<bool>, space: int, end: nat,
                     s: int, idx: nat)
    requires NonEmptyFragments(fs) && IdsIncrease(fs) && |used| == |fs| && s <= space
    requires IsBestOfSize(fs, capacity, arcs, used, s, end, idx)
    requires forall j: nat, t :: UnusedOfSize(fs, capacity, used, t, j) && t <= space ==> t <= s
    ensures Best(fs, capacity, arcs, used, space, Some(end)) == Some(idx)
  {
    forall j: nat | j < |fs| && j != idx && Candidate(fs, capacity, used, space, j)
      ensures Better(fs, capacity, arcs, Some(end), idx, j)
    {
      assert UnusedOfSize(fs, capacity, used, Size(fs[j], capacity), j);
    }
    BestIsUnique(fs, capacity, arcs, used, space, Some(end), idx);
  }

  lemma NothingFits(fs: seq<Fragment>, capacity: int, arcs: seq<Arc>, used: seq<bool>, space: int, end: Option<nat>)
    requires NonEmptyFragments(fs) && |used| == |fs| && capacity >= 1
    requires forall j: nat, t :: UnusedOfSize(fs, capacity, used, t, j) && t <= space ==> t <= 0
    ensures Best(fs, capacity, arcs, used, space, end).None?
  {
    var b := Best(fs, capacity, arcs, used, space, end);
    if b.Some? {
      assert UnusedOfSize(fs, capacity, used, Size(fs[b.value], capacity), b.value);
      assert false;
    }
  }

  /** The popped fragment is the naive rule's opener. */
  lemma PoppedIsBest(fs: seq<Fragment>, capacity: int, arcs: seq<Arc>, used: seq<bool>, idx: int)
    requires NonEmptyFragments(fs) && IdsIncrease(fs) && |used| == |fs| && capacity >= 1
    requires idx >= 0 ==> idx < |fs| && !used[idx]
    requires forall j: nat, t :: UnusedOfSize(fs, capacity, used, t, j) && t <= capacity ==>
      idx >= 0 && (j == idx || Better(fs, capacity, arcs, None, idx, j))
    ensures Best(fs, capacity, arcs, used, capacity, None) == if idx >= 0 then Some(idx) else None
  {
    if idx >= 0 {
      forall j: nat | j < |fs| && j != idx && Candidate(fs, capacity, used, capacity, j)
        ensures Better(fs, capacity, arcs, None, idx, j)
      {
        assert UnusedOfSize(fs, capacity, used, Size(fs[j], capacity), j);
      }
      BestIsUnique(fs, capacity, arcs, used, capacity, None, idx);
    } else {
      NothingFits(fs, capacity, arcs, used, capacity, None);
    }
  }

  // ---------- Routes ----------

  /** The legs still to come on a route that ends at `end`. */
  ghost function LegsToCome(fs: seq<Fragment>, capacity: int, arcs: seq<Arc>, used: seq<bool>, space: int, end: nat)
    : seq<Leg>
    requires NonEmptyFragments(fs)
  {
    TailLegs(fs, Fill(fs, capacity, arcs, used, space, end), end)
  }

  ghost function UsedAfter(fs: seq<Fragment>, capacity: int, arcs: seq<Arc>, used: seq<bool>, space: int, end: nat)
    : seq<bool>
    requires NonEmptyFragments(fs)
  {
    Mark(used, Fill(fs, capacity, arcs, used, space, end))
  }

  lemma FillNext(fs: seq<Fragment>, capacity: int, arcs: seq<Arc>, used: seq<bool>, space: int, end: nat, b: nat)
    requires NonEmptyFragments(fs) && Best(fs, capacity, arcs, used, space, Some(end)) == Some(b)
    ensures var after, left, stop := used[b := true], space - Size(fs[b], capacity), fs[b].End();
      && LegsToCome(fs, capacity, arcs, used, space, end) ==
        [Bridge(end, fs[b].Start())] + FragmentLegs(fs[b]) + LegsToCome(fs, capacity, arcs, after, left, stop)
      && UsedAfter(fs, capacity, arcs, used, space, end) == UsedAfter(fs, capacity, arcs, after, left, stop)
  {
    UseOne(used, b);
    var picks := Fill(fs, capacity, arcs, used, space, end);
    assert picks[1..] == Fill(fs, capacity, arcs, used[b := true], space - Size(fs[b], capacity), fs[b].End());
  }

  lemma FillDone(fs: seq<Fragment>, capacity: int, arcs: seq<Arc>, used: seq<bool>, space: int, end: nat)
    requires NonEmptyFragments(fs) && |used| == |fs| && capacity >= 1
    requires space <= 0 || Unused(used) == 0 || Best(fs, capacity, arcs, used, space, Some(end)).None?
    ensures LegsToCome(fs, capacity, arcs, used, space, end) == []
    ensures UsedAfter(fs, capacity, arcs, used, space, end) == used
  {
    var b := Best(fs, capacity, arcs, used, space, Some(end));
    if b.Some? {
      UseOne(used, b.value);
      assert false;
    }
  }

  lemma GroupsNext(fs: seq<Fragment>, capacity: int, arcs: seq<Arc>, used: seq<bool>, b: nat)
    requires NonEmptyFragments(fs) && Best(fs, capacity, arcs, used, capacity, None) == Some(b)
    ensures var after, space, end := used[b := true], capacity - Size(fs[b], capacity), fs[b].End();
      RoutesOf(fs, Groups(fs, capacity, arcs, used)) ==
        [Route(FragmentLegs(fs[b]) + LegsToCome(fs, capacity, arcs, after, space, end))] +
        RoutesOf(fs, Groups(fs, capacity, arcs, UsedAfter(fs, capacity, arcs, after, space, end)))
  {
    var after, space, end := used[b := true], capacity - Size(fs[b], capacity), fs[b].End();
    hide Best, FragmentLegs, TailLegs, Mark, Fill, RoutesOf, RouteOf, Unused, Size;
    UseOne(used, b);
    var picks := Fill(fs, capacity, arcs, after, space, end);
    MarkShrinks(after, picks);
    var group := [b] + picks;
    assert group[1..] == picks;
    var rest := Groups(fs, capacity, arcs, Mark(after, picks));
    assert Groups(fs, capacity, arcs, used) == [group] + rest;
    RoutesOfCons(fs, group, rest);
    RouteOfCons(fs, b, picks);
  }

  lemma RouteOfCons(fs: seq<Fragment>, b: nat, picks: seq<nat>)
    requires NonEmptyFragments(fs) && b < |fs| && IndicesOf(fs, picks)
    ensures IndicesOf(fs, [b] + picks)
    ensures RouteOf(fs, [b] + picks) == Route(FragmentLegs(fs[b]) + TailLegs(fs, picks, fs[b].End()))
  {
    assert ([b] + picks)[1..] == picks;
  }

  lemma RoutesOfCons(fs: seq<Fragment>, group: seq<nat>, rest: seq<seq<nat>>)
    requires NonEmptyFragments(fs) && group != [] && IndicesOf(fs, group)
    requires forall g :: 0 <= g < |rest| ==> rest[g] != [] && IndicesOf(fs, rest[g])
    ensures forall g :: 0 <= g < |[group] + rest| ==> ([group] + rest)[g] != [] && IndicesOf(fs, ([group] + rest)[g])
    ensures RoutesOf(fs, [group] + rest) == [RouteOf(fs, group)] + RoutesOf(fs, rest)
  {
  }

  /** One route, opened with fragment `first`. */
  method PackRoute(p: Packer, first: nat) returns (route: Route)
    requires p.Valid() && first < |p.fs| && EndpointsBelow(p.fs, p.n)
    modifies p
    ensures p.Valid() && p.remaining <= old(p.remaining)
    ensures var space, end := p.capacity - Size(p.fs[first], p.capacity), p.fs[first].End();
      && route == Route(FragmentLegs(p.fs[first]) + LegsToCome(p.fs, p.capacity, p.arcs, old(p.used), space, end))
      && p.used == UsedAfter(p.fs, p.capacity, p.arcs, old(p.used), space, end)
  {
    hide LegsToCome, UsedAfter, Best, FragmentLegs, Bridge, IdsIncrease;
    var legs := FragmentLegs(p.fs[first]);
    var space := p.capacity - Size(p.fs[first], p.capacity);
    var end: nat := p.fs[first].End();
    ghost var legs0 := legs + LegsToCome(p.fs, p.capacity, p.arcs, p.used, space, end);
    ghost var used0 := UsedAfter(p.fs, p.capacity, p.arcs, p.used, space, end);
    while space > 0 && p.remaining > 0
      invariant p.Valid() && end < p.n && p.remaining <= old(p.remaining)
      invariant legs0 == legs + LegsToCome(p.fs, p.capacity, p.arcs, p.used, space, end)
      invariant used0 == UsedAfter(p.fs, p.capacity, p.arcs, p.used, space, end)
      decreases p.remaining
    {
      var best := TakeFit(p, space, end);
      if best.None? {
        break;
      }
      var f := p.fs[best.value];
      legs := legs + ([Bridge(end, f.Start())] + FragmentLegs(f));
      space := space - Size(f, p.capacity);
      end := f.End();
    }
    FillDone(p.fs, p.capacity, p.arcs, p.used, space, end);
    route := Route(legs);
  }

  /** Choose the next fragment of a route and mark it. */
  method TakeFit(p: Packer, space: int, end: nat) returns (best: Option<nat>)
    requires p.Valid() && end < p.n
    modifies p
    ensures p.Valid()
    ensures best.None? ==> p.used == old(p.used) && Best(p.fs, p.capacity, p.arcs, p.used, space, Some(end)).None?
    ensures best.Some? ==> best.value < |p.fs| && p.remaining < old(p.remaining)
    ensures best.Some? ==>
      LegsToCome(p.fs, p.capacity, p.arcs, old(p.used), space, end) ==
      [Bridge(end, p.fs[best.value].Start())] + FragmentLegs(p.fs[best.value])
        + LegsToCome(p.fs, p.capacity, p.arcs, p.used, space - Size(p.fs[best.value], p.capacity), p.fs[best.value].End())
    ensures best.Some? ==>
      UsedAfter(p.fs, p.capacity, p.arcs, old(p.used), space, end) ==
      UsedAfter(p.fs, p.capacity, p.arcs, p.used, space - Size(p.fs[best.value], p.capacity), p.fs[best.value].End())
  {
    var idx := p.PickFit(space, end);
    if idx < 0 {
      return None;
    }
    FillNext(p.fs, p.capacity, p.arcs, p.used, space, end, idx);
    UseOne(p.used, idx);
    p.MarkUsed(idx);
    best := Some(idx);
  }

  ghost function RoutesToCome(p: Packer): seq<Route>
    reads p
    requires NonEmptyFragments(p.fs)
  {
    RoutesOf(p.fs, Groups(p.fs, p.capacity, p.arcs, p.used))
  }

  /** Open and fill one more route. */
  method PackNext(p: Packer) returns (route: Option<Route>)
    requires p.Valid()
    modifies p
    ensures p.Valid()
    ensures route.Some? ==> p.remaining < old(p.remaining) && old(RoutesToCome(p)) == [route.value] + RoutesToCome(p)
    ensures route.None? ==> p.used == old(p.used) && Best(p.fs, p.capacity, p.arcs, p.used, p.capacity, None).None?
  {
    hide Groups, LegsToCome, UsedAfter;
    var start := p.PopBestSize(p.capacity);
    PoppedIsBest(p.fs, p.capacity, p.arcs, p.used, start);
    if start < 0 {
      return None;
    }
    GroupsNext(p.fs, p.capacity, p.arcs, p.used, start);
    UseOne(p.used, start);
    p.MarkUsed(start);
    var r := PackRoute(p, start);
    route := Some(r);
  }

  lemma GroupsDone(fs: seq<Fragment>, capacity: int, arcs: seq<Arc>, used: seq<bool>)
    requires NonEmptyFragments(fs) && |used| == |fs|
    requires Unused(used) == 0 || Best(fs, capacity, arcs, used, capacity, None).None?
    ensures Groups(fs, capacity, arcs, used) == []
  {
    var b := Best(fs, capacity, arcs, used, capacity, None);
    if b.Some? {
      UseOne(used, b.value);
      assert false;
    }
  }

  /** Open and fill routes until nothing is left. */
  method PackAll(p: Packer) returns (routes: seq<Route>)
    requires p.Valid()
    modifies p
    ensures routes == old(RoutesToCome(p))
  {
    hide Groups, RoutesOf, Best;
    routes := [];
    ghost var all := RoutesToCome(p);
    while p.remaining > 0
      invariant p.Valid() && all == routes + RoutesToCome(p)
      decreases p.remaining
    {
      var next := PackNext(p);
      if next.None? {
        break;
      }
      routes := routes + [next.value];
    }
    NothingToCome(p);
  }

  lemma NothingToCome(p: Packer)
    requires p.Valid()
    requires p.remaining == 0 || Best(p.fs, p.capacity, p.arcs, p.used, p.capacity, None).None?
    ensures RoutesToCome(p) == []
  {
    GroupsDone(p.fs, p.capacity, p.arcs, p.used);
  }

  lemma PackedUnfolds(fs: seq<Fragment>, maxLegs: int, arcs: seq<Arc>)
    requires NonEmptyFragments(fs)
    ensures PackedRoutes(fs, maxLegs, arcs) ==
      if maxLegs <= 0 || fs == [] then [] else RoutesOf(fs, Groups(fs, maxLegs + 1, arcs, NoneUsed(|fs|)))
  {
    if fs == [] && maxLegs > 0 {
      AllUnused(0);
      GroupsDone(fs, maxLegs + 1, arcs, NoneUsed(0));
    }
  }

  /** The indexed packer returns exactly the routes of the naive rule. */
  method PackFragments(fragments: seq<Fragment>, maxLegs: int, requiredSet: RequiredSet, ghost arcs: seq<Arc>)
    returns (routes: seq<Route>)
    requires NonEmptyFragments(fragments) && IdsIncrease(fragments)
    requires requiredSet.Valid() && InRange(requiredSet.N, arcs) && requiredSet.Holds(arcs)
    requires requiredSet.N > 0 ==> EndpointsBelow(fragments, requiredSet.N)
    ensures routes == PackedRoutes(fragments, maxLegs, arcs)
  {
    hide PackedRoutes, Groups, RoutesOf, IdsIncrease;
    PackedUnfolds(fragments, maxLegs, arcs);
    if maxLegs <= 0 || |fragments| == 0 {
      return [];
    }
    var p := new Packer(fragments, maxLegs, requiredSet, arcs);
    routes := PackAll(p);
  }
}
