/**
 * Normal form of the required arcs (AssignEdgeIDs and NormalizeRequired in internal/arccover/util.go):
 * ascending by (from, to), ids equal to indexes.  The normal form depends only on the bag of pairs.
 */
module Normalize {
  import opened ArcTypes
  import opened GraphRule

  datatype Pair = Pair(from: nat, to: nat)

  function PairOf(a: Arc): Pair { Pair(a.from, a.to) }

  function PairsOf(arcs: seq<Arc>): seq<Pair> {
    seq(|arcs|, i requires 0 <= i < |arcs| => PairOf(arcs[i]))
  }

  /** a may stand before b. */
  predicate NotAfter(a: Pair, b: Pair) { a.from < b.from || (a.from == b.from && a.to <= b.to) }

  predicate Ascending(s: seq<Pair>) {
    forall i, j :: 0 <= i < j < |s| ==> NotAfter(s[i], s[j])
  }

  // ---------- The sorted pairs ----------

  function InsertPair(s: seq<Pair>, x: Pair): seq<Pair> {
    if s == [] || NotAfter(s[|s| - 1], x) then s + [x]
    else InsertPair(s[..|s| - 1], x) + [s[|s| - 1]]
  }

  function SortPairs(s: seq<Pair>): seq<Pair> {
    if s == [] then [] else InsertPair(SortPairs(s[..|s| - 1]), s[|s| - 1])
  }

  lemma {:induction false} InsertPairBag(s: seq<Pair>, x: Pair, y: Pair)
    ensures multiset(InsertPair(s, x))[y] == multiset(s)[y] + if x == y then 1 else 0
  {
    if s != [] && !NotAfter(s[|s| - 1], x) {
      InsertPairBag(s[..|s| - 1], x, y);
      assert s == s[..|s| - 1] + [s[|s| - 1]];
    }
  }

  lemma {:induction false} SortPairsBag(s: seq<Pair>)
    ensures multiset(SortPairs(s)) == multiset(s)
  {
    if s != [] {
      var init, x := s[..|s| - 1], s[|s| - 1];
      SortPairsBag(init);
      assert s == init + [x];
      forall y ensures multiset(SortPairs(s))[y] == multiset(s)[y] {
        InsertPairBag(SortPairs(init), x, y);
      }
    }
  }

  lemma {:induction false} InsertPairAscends(s: seq<Pair>, x: Pair)
    requires Ascending(s)
    ensures Ascending(InsertPair(s, x))
  {
    if s != [] && !NotAfter(s[|s| - 1], x) {
      var init, last := s[..|s| - 1], s[|s| - 1];
      InsertPairAscends(init, x);
      var r := InsertPair(init, x);
      forall i | 0 <= i < |r| ensures NotAfter(r[i], last) {
        InsertPairBag(init, x, r[i]);
        assert r[i] in multiset(r);
      }
    }
  }

  lemma {:induction false} SortPairsAscends(s: seq<Pair>)
    ensures Ascending(SortPairs(s))
  {
    if s != [] {
      SortPairsAscends(s[..|s| - 1]);
      InsertPairAscends(SortPairs(s[..|s| - 1]), s[|s| - 1]);
    }
  }

  lemma FirstIsLeast(a: seq<Pair>, b: seq<Pair>)
    requires Ascending(a) && multiset(a) == multiset(b) && b != []
    ensures a != [] && NotAfter(a[0], b[0])
  {
    assert b[0] in multiset(a);
    var j :| 0 <= j < |a| && a[j] == b[0];
  }

  lemma SameFirst(a: seq<Pair>, b: seq<Pair>)
    requires Ascending(a) && Ascending(b) && multiset(a) == multiset(b) && a != [] && b != []
    ensures a[0] == b[0] && Ascending(Without(a, 0)) && Ascending(Without(b, 0))
  {
    FirstIsLeast(a, b);
    FirstIsLeast(b, a);
  }

  /** A bag has one ascending listing. */
  lemma {:induction false} AscendingIsUnique(a: seq<Pair>, b: seq<Pair>)
    requires Ascending(a) && Ascending(b) && multiset(a) == multiset(b)
    ensures a == b
    decreases |a|
  {
    hide Ascending, Without;
    assert |a| == |multiset(a)| == |multiset(b)| == |b|;
    if a != [] {
      SameFirst(a, b);
      BagWithout(a, 0);
      BagWithout(b, 0);
      ConsWithout(a);
      ConsWithout(b);
      AscendingIsUnique(Without(a, 0), Without(b, 0));
    }
  }

  lemma ConsWithout(a: seq<Pair>)
    requires a != []
    ensures a == [a[0]] + Without(a, 0) && |Without(a, 0)| < |a|
  {
  }

  // ---------- The normal form ----------

  function NumberPairs(s: seq<Pair>): seq<Arc> {
    seq(|s|, i requires 0 <= i < |s| => Arc(i, s[i].from, s[i].to))
  }

  function Normalized(required: seq<Arc>): seq<Arc> { NumberPairs(SortPairs(PairsOf(required))) }

  /** Ids are indexes, pairs ascend, and every pair is there as often as it was. */
  lemma NormalForm(required: seq<Arc>)
    ensures var out := Normalized(required);
      && IdsAreIndexes(out)
      && Ascending(PairsOf(out))
      && multiset(PairsOf(out)) == multiset(PairsOf(required))
  {
    var s := SortPairs(PairsOf(required));
    assert PairsOf(NumberPairs(s)) == s;
    SortPairsAscends(PairsOf(required));
    SortPairsBag(PairsOf(required));
  }

  /** Only one list is in normal form for a given bag of pairs. */
  lemma NormalFormIsUnique(required: seq<Arc>, out: seq<Arc>)
    requires IdsAreIndexes(out) && Ascending(PairsOf(out)) && multiset(PairsOf(out)) == multiset(PairsOf(required))
    ensures out == Normalized(required)
  {
    NormalForm(required);
    var n := Normalized(required);
    AscendingIsUnique(PairsOf(out), PairsOf(n));
    forall i | 0 <= i < |out| ensures |n| == |out| && out[i] == n[i] {
      assert PairsOf(out)[i] == PairsOf(n)[i];
    }
    assert |PairsOf(out)| == |PairsOf(n)|;
  }

  /** The order and the ids the arcs come in do not matter. */
  lemma OrderIndependence(a: seq<Arc>, b: seq<Arc>)
    requires multiset(PairsOf(a)) == multiset(PairsOf(b))
    ensures Normalized(a) == Normalized(b)
  {
    NormalForm(a);
    NormalFormIsUnique(b, Normalized(a));
  }

  lemma NormalizedInRange(n: nat, required: seq<Arc>)
    requires InRange(n, required)
    ensures InRange(n, Normalized(required)) && |Normalized(required)| == |required|
  {
    var out := Normalized(required);
    NormalForm(required);
    assert |multiset(PairsOf(out))| == |multiset(PairsOf(required))|;
    forall i | 0 <= i < |out| ensures out[i].from < n && out[i].to < n {
      assert PairsOf(out)[i] in multiset(PairsOf(required));
      var j :| 0 <= j < |required| && PairsOf(required)[j] == PairsOf(out)[i];
    }
  }

  // ---------- The code ----------

  /** The comparison handed to sort.Slice. */
  predicate Less(a: Arc, b: Arc) {
    if a.from != b.from then a.from < b.from
    else if a.to != b.to then a.to < b.to
    else a.id < b.id
  }

  /** Every ID becomes the index. */
  method AssignEdgeIDs(required: array<Arc>)
    modifies required
    ensures forall i :: 0 <= i < required.Length ==> required[i] == old(required[i]).(id := i)
  {
    for i := 0 to required.Length
      invariant forall j :: 0 <= j < i ==> required[j] == old(required[j]).(id := j)
      invariant forall j :: i <= j < required.Length ==> required[j] == old(required[j])
    {
      required[i] := required[i].(id := i);
    }
  }

  ghost predicate SortedTo(arcs: seq<Arc>, k: nat) {
    forall i, j :: 0 <= i < j < |arcs| && j < k ==> !Less(arcs[j], arcs[i])
  }

  /** Sort by (from, to, id), as any correct sort does. */
  method SortArcs(out: array<Arc>)
    modifies out
    ensures multiset(out[..]) == multiset(old(out[..]))
    ensures SortedTo(out[..], out.Length)
  {
    for i := 0 to out.Length
      invariant multiset(out[..]) == multiset(old(out[..]))
      invariant SortedTo(out[..], i)
    {
      hide SortedTo;
      SinkArc(out, i);
    }
  }

  /** Sorted up to i but for the element at j. */
  ghost predicate SortedBut(arcs: seq<Arc>, i: nat, j: nat) {
    forall k, l :: 0 <= k < l < |arcs| && l <= i && l != j ==> !Less(arcs[l], arcs[k])
  }

  lemma SwapKeepsSorted(arcs: seq<Arc>, i: nat, j: nat)
    requires 0 < j <= i < |arcs| && SortedBut(arcs, i, j) && Less(arcs[j], arcs[j - 1])
    ensures SortedBut(arcs[j - 1 := arcs[j]][j := arcs[j - 1]], i, j - 1)
  {
  }

  lemma SunkIsSorted(arcs: seq<Arc>, i: nat, j: nat)
    requires j <= i < |arcs| && SortedBut(arcs, i, j)
    requires j > 0 ==> !Less(arcs[j], arcs[j - 1])
    ensures SortedTo(arcs, i + 1)
  {
  }

  method SwapWithLeft(out: array<Arc>, j: nat)
    requires 0 < j < out.Length
    modifies out
    ensures out[..] == old(out[..])[j - 1 := old(out[j])][j := old(out[j - 1])]
    ensures multiset(out[..]) == multiset(old(out[..]))
  {
    out[j - 1], out[j] := out[j], out[j - 1];
    assert out[..] == old(out[..])[j - 1 := old(out[j])][j := old(out[j - 1])];
  }

  /** Move the element at i left past everything greater. */
  method SinkArc(out: array<Arc>, i: nat)
    requires i < out.Length && SortedTo(out[..], i)
    modifies out
    ensures multiset(out[..]) == multiset(old(out[..]))
    ensures SortedTo(out[..], i + 1)
  {
    hide Less;
    var j := i;
    while j > 0 && Less(out[j], out[j - 1])
      invariant 0 <= j <= i
      invariant multiset(out[..]) == multiset(old(out[..]))
      invariant SortedBut(out[..], i, j)
    {
      hide SortedBut;
      SwapKeepsSorted(out[..], i, j);
      SwapWithLeft(out, j);
      j := j - 1;
    }
    SunkIsSorted(out[..], i, j);
  }

  /** Mapping arcs to pairs maps equal bags to equal bags. */
  lemma {:induction false} PairsBag(a: seq<Arc>, b: seq<Arc>)
    requires multiset(a) == multiset(b)
    ensures multiset(PairsOf(a)) == multiset(PairsOf(b))
  {
    if a == [] {
      assert |multiset(b)| == 0;
    } else {
      var j := MatchFirst(a, b);
      PairsBag(Without(a, 0), Without(b, j));
      PairsWithout(a, 0);
      PairsWithout(b, j);
    }
  }

  lemma PairsWithout(a: seq<Arc>, j: nat)
    requires j < |a|
    ensures multiset(PairsOf(a)) == multiset(PairsOf(Without(a, j))) + multiset{PairOf(a[j])}
  {
    BagWithout(PairsOf(a), j);
    assert PairsOf(Without(a, j)) == Without(PairsOf(a), j);
    assert PairsOf(a)[j] in multiset(PairsOf(a));
  }

  /** Copy, sort, renumber. */
  method NormalizeRequired(required: seq<Arc>) returns (result: seq<Arc>)
    ensures result == Normalized(required)
  {
    var out := new Arc[|required|](i requires 0 <= i < |required| => required[i]);
    assert out[..] == required;
    SortArcs(out);
    ghost var sorted := out[..];
    AssignEdgeIDs(out);
    result := out[..];
    PairsBag(sorted, required);
    assert PairsOf(result) == PairsOf(sorted);
    NormalFormIsUnique(required, result);
  }
}
