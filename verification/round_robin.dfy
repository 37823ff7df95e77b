/**
 * Smooth weighted round robin (nextSmoothWeighted, Next, Add, Reset and RemoveAll in
 * internal/loadbalance/loadbalance.go).
 *
 * Effective weights come from the scoring of outcomes and are arbitrary integers here.
 */
module RoundRobin {
  import opened Sums

  // ---------- One pick, on values ----------

  /** An item takes part with its weight if that is positive. */
  function Share(w: int): nat { if w > 0 then w else 0 }

  function Shares(w: seq<int>): seq<int> { seq(|w|, i requires 0 <= i < |w| => Share(w[i])) }

  function Raised(cur: seq<int>, w: seq<int>): (r: seq<int>)
    requires |cur| == |w|
  {
    seq(|w|, i requires 0 <= i < |w| => cur[i] + Share(w[i]))
  }

  /** The total weight of the items that take part. */
  function Total(w: seq<int>): int { Sum(Shares(w)) }

  /** The index of the largest counter among the first k items that take part, the first of equals; -1 if none does. */
  function WinnerOf(raised: seq<int>, w: seq<int>, k: nat): (b: int)
    requires |raised| == |w| && k <= |w|
    ensures -1 <= b < k
  {
    if k == 0 then -1
    else
      var b := WinnerOf(raised, w, k - 1);
      if w[k - 1] > 0 && (b < 0 || raised[k - 1] > raised[b]) then k - 1 else b
  }

  function Winner(cur: seq<int>, w: seq<int>): (b: int)
    requires |cur| == |w|
    ensures -1 <= b < |w|
  {
    WinnerOf(Raised(cur, w), w, |w|)
  }

  /** Item i is beaten by b. */
  predicate Beaten(raised: seq<int>, w: seq<int>, b: int, i: nat)
    requires |raised| == |w| && i < |w|
  {
    w[i] <= 0 || (0 <= b < |w| && w[b] > 0 && (raised[i] < raised[b] || (raised[i] == raised[b] && b <= i)))
  }

  /** The winner takes part, no one who takes part is ahead of it, and of equals it comes first. */
  lemma {:induction false} WinnerBeats(raised: seq<int>, w: seq<int>, k: nat, i: nat)
    requires |raised| == |w| && i < k <= |w|
    ensures Beaten(raised, w, WinnerOf(raised, w, k), i)
  {
    var b := WinnerOf(raised, w, k - 1);
    if i < k - 1 {
      WinnerBeats(raised, w, k - 1, i);
    }
    if b >= 0 && i == k - 1 {
      WinnerTakesPart(raised, w, k - 1);
    }
  }

  lemma {:induction false} WinnerTakesPart(raised: seq<int>, w: seq<int>, k: nat)
    requires |raised| == |w| && k <= |w| && WinnerOf(raised, w, k) >= 0
    ensures w[WinnerOf(raised, w, k)] > 0
  {
    if WinnerOf(raised, w, k) != k - 1 {
      WinnerTakesPart(raised, w, k - 1);
    }
  }

  /** The counters after one pick: everybody is raised by its share, the winner pays the total. */
  function AfterPick(cur: seq<int>, w: seq<int>): (r: seq<int>)
    requires |cur| == |w|
    ensures |r| == |w|
  {
    var raised, b := Raised(cur, w), Winner(cur, w);
    if b < 0 then raised else raised[b := raised[b] - Total(w)]
  }

  lemma AfterPickAt(cur: seq<int>, w: seq<int>, i: nat)
    requires |cur| == |w| && i < |w|
    ensures AfterPick(cur, w)[i] == cur[i] + Share(w[i]) - if Winner(cur, w) == i then Total(w) else 0
  {
    hide Winner, Total;
  }

  lemma {:induction false} RaisedSum(cur: seq<int>, w: seq<int>)
    requires |cur| == |w|
    ensures Sum(Raised(cur, w)) == Sum(cur) + Total(w)
  {
    if cur != [] {
      var n := |cur| - 1;
      RaisedSum(cur[..n], w[..n]);
      assert Raised(cur, w)[..n] == Raised(cur[..n], w[..n]) && Shares(w)[..n] == Shares(w[..n]);
    }
  }

  lemma NobodyShares(w: seq<int>)
    requires forall i :: 0 <= i < |w| ==> w[i] <= 0
    ensures Total(w) == 0
  {
    SumConst(Shares(w), 0);
  }

  lemma SomeoneWins(cur: seq<int>, w: seq<int>)
    requires |cur| == |w| && Total(w) > 0
    ensures Winner(cur, w) >= 0
  {
    if Winner(cur, w) < 0 {
      forall i | 0 <= i < |w| ensures w[i] <= 0 {
        WinnerBeats(Raised(cur, w), w, |w|, i);
      }
      NobodyShares(w);
    }
  }

  lemma {:induction false} SharesNonNegative(w: seq<int>)
    ensures Total(w) >= 0
  {
    SumConst(Zeros(|w|), 0);
    SumLe(Zeros(|w|), Shares(w));
  }

  /** A pick keeps the sum of the counters, whatever the weights. */
  lemma PickKeepsSum(cur: seq<int>, w: seq<int>)
    requires |cur| == |w|
    ensures Sum(AfterPick(cur, w)) == Sum(cur)
  {
    hide Sum, Total, Winner;
    RaisedSum(cur, w);
    SharesNonNegative(w);
    var b := Winner(cur, w);
    if b >= 0 {
      SumUpdate(Raised(cur, w), b, Raised(cur, w)[b] - Total(w));
    } else if Total(w) > 0 {
      SomeoneWins(cur, w);
    }
  }

  // ---------- Whole runs of the pool ----------

  datatype Operation = Add | Reset | RemoveAll | Next(weights: seq<int>)

  /** The counters after an operation; Next is given one weight per item. */
  function Apply(cur: seq<int>, op: Operation): seq<int> {
    match op
    case Add => cur + [0]
    case Reset => Zeros(|cur|)
    case RemoveAll => []
    case Next(w) => if |w| == |cur| then AfterPick(cur, w) else cur
  }

  function ApplyAll(ops: seq<Operation>): seq<int> {
    if ops == [] then [] else Apply(ApplyAll(ops[..|ops| - 1]), ops[|ops| - 1])
  }

  lemma ApplyKeepsZeroSum(cur: seq<int>, op: Operation)
    requires Sum(cur) == 0
    ensures Sum(Apply(cur, op)) == 0
  {
    match op
    case Add => SumSnoc(cur, 0);
    case Reset => SumConst(Zeros(|cur|), 0);
    case RemoveAll =>
    case Next(w) => if |w| == |cur| { PickKeepsSum(cur, w); }
  }

  /** Over any run, with weights that change on every call, the counters add up to zero. */
  lemma {:induction false} CountersStayBalanced(ops: seq<Operation>)
    ensures Sum(ApplyAll(ops)) == 0
  {
    if ops != [] {
      CountersStayBalanced(ops[..|ops| - 1]);
      ApplyKeepsZeroSum(ApplyAll(ops[..|ops| - 1]), ops[|ops| - 1]);
    }
  }

  // ---------- Fixed weights ----------

  function Counters(w: seq<int>, k: nat): (r: seq<int>)
    ensures |r| == |w|
  {
    if k == 0 then Zeros(|w|) else AfterPick(Counters(w, k - 1), w)
  }

  /** The item picked by call number k, counted from 0. */
  function PickAt(w: seq<int>, k: nat): (b: int)
    ensures -1 <= b < |w|
  {
    Winner(Counters(w, k), w)
  }

  /** How often item i was picked in the first k calls. */
  function Picks(w: seq<int>, k: nat, i: nat): nat {
    if k == 0 then 0 else Picks(w, k - 1, i) + if PickAt(w, k - 1) == i then 1 else 0
  }

  lemma CountersStep(w: seq<int>, k: nat, i: nat)
    requires k > 0 && i < |w|
    ensures Counters(w, k)[i] ==
      Counters(w, k - 1)[i] + Share(w[i]) - if PickAt(w, k - 1) == i then Total(w) else 0
  {
    AfterPickAt(Counters(w, k - 1), w, i);
  }

  /** A counter is what the item was credited less what its picks cost. */
  lemma {:induction false} Ledger(w: seq<int>, k: nat, i: nat)
    requires i < |w|
    ensures Counters(w, k)[i] == k * Share(w[i]) - Picks(w, k, i) * Total(w)
  {
    hide Total, PickAt, AfterPick, Share;
    if k > 0 {
      Ledger(w, k - 1, i);
      CountersStep(w, k, i);
      MulSucc(k - 1, Share(w[i]));
      MulSucc(Picks(w, k - 1, i), Total(w));
    }
  }

  lemma {:induction false} CountersSumToZero(w: seq<int>, k: nat)
    ensures Sum(Counters(w, k)) == 0
  {
    if k == 0 {
      SumConst(Zeros(|w|), 0);
    } else {
      CountersSumToZero(w, k - 1);
      PickKeepsSum(Counters(w, k - 1), w);
    }
  }

  /** Counters of items that take no part never move. */
  lemma {:induction false} IdleStayZero(w: seq<int>, k: nat, i: nat)
    requires i < |w| && w[i] <= 0
    ensures Counters(w, k)[i] == 0 && Picks(w, k, i) == 0
  {
    if k > 0 {
      IdleStayZero(w, k - 1, i);
      if PickAt(w, k - 1) >= 0 {
        WinnerTakesPart(Raised(Counters(w, k - 1), w), w, |w|);
      }
    }
  }

  ghost predicate IdleAreZero(cur: seq<int>, w: seq<int>) {
    |cur| == |w| && forall i :: 0 <= i < |w| && w[i] <= 0 ==> cur[i] == 0
  }

  /** The winner's raised counter is positive: the raised counters add up to a positive total. */
  lemma WinnerIsPositive(cur: seq<int>, w: seq<int>)
    requires IdleAreZero(cur, w) && Sum(cur) == 0 && Total(w) > 0
    ensures Winner(cur, w) >= 0 && Raised(cur, w)[Winner(cur, w)] > 0
  {
    hide Sum, Total, WinnerOf;
    SomeoneWins(cur, w);
    var raised, b := Raised(cur, w), Winner(cur, w);
    RaisedSum(cur, w);
    if raised[b] <= 0 {
      forall i | 0 <= i < |w| ensures raised[i] <= Zeros(|w|)[i] {
        WinnerBeats(raised, w, |w|, i);
      }
      SumLe(raised, Zeros(|w|));
      SumConst(Zeros(|w|), 0);
    }
  }

  ghost predicate AboveMinus(cur: seq<int>, t: int) {
    forall i :: 0 <= i < |cur| ==> cur[i] > -t
  }

  lemma PickKeepsAbove(cur: seq<int>, w: seq<int>)
    requires IdleAreZero(cur, w) && Sum(cur) == 0 && Total(w) > 0 && AboveMinus(cur, Total(w))
    ensures AboveMinus(AfterPick(cur, w), Total(w))
  {
    hide Sum, Total, Winner, AfterPick;
    WinnerIsPositive(cur, w);
    forall i | 0 <= i < |w| ensures AfterPick(cur, w)[i] > -Total(w) {
      AfterPickAt(cur, w, i);
    }
  }

  /** No counter ever falls to minus the total weight. */
  lemma {:induction false} CountersAreBounded(w: seq<int>, k: nat)
    requires Total(w) > 0
    ensures AboveMinus(Counters(w, k), Total(w))
  {
    hide Sum, Total, AfterPick, AboveMinus;
    if k == 0 {
      ZerosAbove(|w|, Total(w));
    } else {
      CountersAreBounded(w, k - 1);
      CountersSumToZero(w, k - 1);
      forall i | 0 <= i < |w| && w[i] <= 0 ensures Counters(w, k - 1)[i] == 0 {
        IdleStayZero(w, k - 1, i);
      }
      PickKeepsAbove(Counters(w, k - 1), w);
    }
  }

  lemma ZerosAbove(n: nat, t: int)
    requires t > 0
    ensures AboveMinus(Zeros(n), t)
  {
  }

  /** Every prefix is fair from above, in terms of shares. */
  lemma SharesPrefixIsFair(w: seq<int>, k: nat, i: nat)
    requires i < |w| && Total(w) > 0
    ensures Picks(w, k, i) * Total(w) < k * Share(w[i]) + Total(w)
  {
    hide Total, Counters, Picks, Share;
    CountersAreBounded(w, k);
    Ledger(w, k, i);
  }

  lemma SharesPrefixIsFairFromBelow(w: seq<int>, k: nat, i: nat)
    requires i < |w| && Total(w) > 0
    ensures Picks(w, k, i) * Total(w) >= k * Share(w[i]) - (|w| - 1) * Total(w)
  {
    hide Total, Counters, Picks, Share, Sum;
    CountersAreBounded(w, k);
    CountersSumToZero(w, k);
    OneAgainstTheRest(Counters(w, k), Total(w), i);
    Ledger(w, k, i);
  }

  lemma OneAgainstTheRest(cur: seq<int>, t: int, i: nat)
    requires i < |cur| && Sum(cur) == 0 && AboveMinus(cur, t)
    ensures cur[i] <= (|cur| - 1) * t
  {
    hide Sum;
    var floor := seq(|cur|, _ => -t);
    SumConst(floor, -t);
    SumUpdate(floor, i, cur[i]);
    SumLe(floor[i := cur[i]], cur);
    MulSucc(|cur| - 1, -t);
    MulNegate(|cur| - 1, t);
  }

  lemma MulNegate(n: int, t: int)
    ensures n * -t == -(n * t)
  {
  }

  // ---------- One full cycle ----------

  function PickCounts(w: seq<int>, k: nat): seq<int> {
    seq(|w|, i requires 0 <= i < |w| => Picks(w, k, i))
  }

  /** Every call picks somebody: the picks add up to the calls. */
  lemma {:induction false} PicksAddUp(w: seq<int>, k: nat)
    requires Total(w) > 0
    ensures Sum(PickCounts(w, k)) == k
  {
    hide Sum, Total, Winner, Counters;
    if k == 0 {
      SumConst(PickCounts(w, 0), 0);
    } else {
      PicksAddUp(w, k - 1);
      SomeoneWins(Counters(w, k - 1), w);
      var b, before := PickAt(w, k - 1), PickCounts(w, k - 1);
      assert PickCounts(w, k) == before[b := before[b] + 1];
      SumUpdate(before, b, before[b] + 1);
    }
  }

  lemma AtMostItsShare(w: seq<int>, i: nat)
    requires i < |w| && Total(w) > 0
    ensures Picks(w, Total(w), i) <= Share(w[i])
  {
    hide Total, Picks, Share;
    SharesPrefixIsFair(w, Total(w), i);
    LessOnce(Picks(w, Total(w), i), Share(w[i]), Total(w));
  }

  lemma LessOnce(p: int, s: int, t: int)
    requires t > 0 && p * t < t * s + t
    ensures p <= s
  {
    if p > s {
      MulLe(s + 1, p, t);
      MulSucc(s, t);
    }
  }

  lemma SharesFullCycle(w: seq<int>)
    requires Total(w) > 0
    ensures forall i :: 0 <= i < |w| ==> Picks(w, Total(w), i) == Share(w[i])
    ensures Counters(w, Total(w)) == Zeros(|w|)
  {
    var total := Total(w);
    hide Sum, Counters, Picks, Share;
    var picks := PickCounts(w, total);
    forall i | 0 <= i < |w| ensures picks[i] <= Shares(w)[i] {
      AtMostItsShare(w, i);
    }
    PicksAddUp(w, total);
    SumLeEqual(picks, Shares(w));
    forall i | 0 <= i < |w| ensures Picks(w, total, i) == Share(w[i]) && Counters(w, total)[i] == 0 {
      assert picks[i] == Shares(w)[i];
      Ledger(w, total, i);
    }
  }

  lemma {:induction false} SharesPicksRepeat(w: seq<int>, k: nat)
    requires Total(w) > 0
    ensures Counters(w, Total(w) + k) == Counters(w, k)
    ensures PickAt(w, Total(w) + k) == PickAt(w, k)
  {
    hide Total, AfterPick, Winner;
    if k == 0 {
      SharesFullCycle(w);
    } else {
      SharesPicksRepeat(w, k - 1);
    }
  }

  // ---------- The laws, on the weights themselves ----------

  /** `parts` are the weights, with zero for those that are not positive. */
  lemma PartsAreShares(w: seq<int>, parts: seq<int>)
    requires |parts| == |w| && forall i :: 0 <= i < |w| ==> parts[i] == if w[i] > 0 then w[i] else 0
    ensures Shares(w) == parts && Total(w) == Sum(parts)
  {
    assert Shares(w) == parts;
  }

  /** Nobody who takes part is ahead of the winner after the raise, and of equals it comes first. */
  lemma PickIsFirstLargest(cur: seq<int>, w: seq<int>, i: nat)
    requires |cur| == |w| && i < |w| && w[i] > 0
    ensures var b := Winner(cur, w);
      && 0 <= b < |w| && w[b] > 0
      && (cur[i] + w[i] < cur[b] + w[b] || (cur[i] + w[i] == cur[b] + w[b] && b <= i))
  {
    WinnerBeats(Raised(cur, w), w, |w|, i);
  }

  /** A pick raises everybody with a positive weight by that weight; the winner, if anybody takes part, has one and
      pays all positive weights together. */
  lemma PickMoves(cur: seq<int>, w: seq<int>, parts: seq<int>, i: nat)
    requires |parts| == |w| && forall i :: 0 <= i < |w| ==> parts[i] == if w[i] > 0 then w[i] else 0
    requires |cur| == |w| && i < |w|
    ensures AfterPick(cur, w)[i] == cur[i] + parts[i] - if Winner(cur, w) == i then Sum(parts) else 0
    ensures Winner(cur, w) >= 0 ==> w[Winner(cur, w)] > 0
  {
    PartsAreShares(w, parts);
    AfterPickAt(cur, w, i);
    if Winner(cur, w) >= 0 {
      WinnerTakesPart(Raised(cur, w), w, |w|);
    }
  }

  /** With W the sum of the positive weights, W picks choose each item exactly its weight times, those without a
      positive weight never, and bring every counter back to zero. */
  lemma FullCycle(w: seq<int>, parts: seq<int>)
    requires |parts| == |w| && forall i :: 0 <= i < |w| ==> parts[i] == if w[i] > 0 then w[i] else 0
    requires Sum(parts) > 0
    ensures forall i :: 0 <= i < |w| ==> Picks(w, Sum(parts), i) == parts[i]
    ensures forall i :: 0 <= i < |w| ==> Counters(w, Sum(parts))[i] == 0
  {
    PartsAreShares(w, parts);
    hide Sum, Counters, Picks, Total;
    SharesFullCycle(w);
  }

  /** Every prefix is fair from above: W * picks < k * weight + W. */
  lemma PrefixIsFair(w: seq<int>, parts: seq<int>, k: nat, i: nat)
    requires |parts| == |w| && forall i :: 0 <= i < |w| ==> parts[i] == if w[i] > 0 then w[i] else 0
    requires Sum(parts) > 0 && i < |w|
    ensures Picks(w, k, i) * Sum(parts) < k * parts[i] + Sum(parts)
  {
    PartsAreShares(w, parts);
    hide Sum, Counters, Picks, Total;
    SharesPrefixIsFair(w, k, i);
  }

  /** And from below: nobody lags by more than the total weight for every other item. */
  lemma PrefixIsFairFromBelow(w: seq<int>, parts: seq<int>, k: nat, i: nat)
    requires |parts| == |w| && forall i :: 0 <= i < |w| ==> parts[i] == if w[i] > 0 then w[i] else 0
    requires Sum(parts) > 0 && i < |w|
    ensures Picks(w, k, i) * Sum(parts) >= k * parts[i] - (|w| - 1) * Sum(parts)
  {
    PartsAreShares(w, parts);
    hide Sum, Counters, Picks, Total;
    SharesPrefixIsFairFromBelow(w, k, i);
  }

  /** The picks repeat with period W. */
  lemma PicksRepeat(w: seq<int>, parts: seq<int>, period: nat, k: nat)
    requires |parts| == |w| && forall i :: 0 <= i < |w| ==> parts[i] == if w[i] > 0 then w[i] else 0
    requires period == Sum(parts) && period > 0
    ensures PickAt(w, period + k) == PickAt(w, k)
  {
    PartsAreShares(w, parts);
    hide *;
    SharesPicksRepeat(w, k);
  }

  // ---------- The code ----------

  class PoolItem {
    const item: int
    const baseWeight: int
    var currentWeight: int
    var effectiveWeight: int

    constructor (item: int, baseWeight: int)
      ensures this.item == item && this.baseWeight == baseWeight
      ensures currentWeight == 0 && effectiveWeight == 0
    {
      this.item, this.baseWeight := item, baseWeight;
      currentWeight, effectiveWeight := 0, 0;
    }
  }

  /** The counters and effective weights the items hold. */
  ghost predicate Hold(items: seq<PoolItem>, cur: seq<int>, w: seq<int>)
    reads items
  {
    && |cur| == |w| == |items|
    && (forall i :: 0 <= i < |items| ==> items[i].currentWeight == cur[i])
    && forall i :: 0 <= i < |items| ==> items[i].effectiveWeight == w[i]
  }

  ghost predicate AllDifferent(items: seq<PoolItem>) {
    forall i, j :: 0 <= i < j < |items| ==> items[i] != items[j]
  }

  lemma SharesPrefix(w: seq<int>, i: nat)
    requires i < |w|
    ensures Total(w[..i + 1]) == Total(w[..i]) + Share(w[i])
  {
    assert Shares(w[..i + 1])[..i] == Shares(w[..i]);
  }

  lemma WinnerStep(raised: seq<int>, w: seq<int>, k: nat)
    requires |raised| == |w| && k < |w|
    ensures var b := WinnerOf(raised, w, k);
      WinnerOf(raised, w, k + 1) == if w[k] > 0 && (b < 0 || raised[k] > raised[b]) then k else b
  {
  }

  method SetCounter(items: seq<PoolItem>, s: PoolItem, x: int, ghost i: nat, ghost cur: seq<int>, ghost w: seq<int>)
    requires i < |items| && items[i] == s && AllDifferent(items) && Hold(items, cur, w)
    modifies s`currentWeight
    ensures Hold(items, cur[i := x], w)
  {
    s.currentWeight := x;
  }

  method SetScore(items: seq<PoolItem>, i: nat, x: int, ghost cur: seq<int>, ghost w: seq<int>)
    requires i < |items| && AllDifferent(items) && Hold(items, cur, w)
    modifies items`effectiveWeight
    ensures Hold(items, cur, w[i := x])
  {
    items[i].effectiveWeight := x;
  }

  /** The counters when the first k items have been raised. */
  ghost function Partly(cur: seq<int>, w: seq<int>, k: nat): seq<int>
    requires |cur| == |w| && k <= |w|
  {
    Raised(cur, w)[..k] + cur[k..]
  }

  lemma PartlyStep(cur: seq<int>, w: seq<int>, k: nat)
    requires |cur| == |w| && k < |w|
    ensures |Partly(cur, w, k)| == |w| && Partly(cur, w, k)[k] == cur[k]
    ensures Partly(cur, w, k + 1) == Partly(cur, w, k)[k := cur[k] + Share(w[k])]
  {
  }

  lemma PartlyEnds(cur: seq<int>, w: seq<int>)
    requires |cur| == |w|
    ensures Partly(cur, w, 0) == cur && Partly(cur, w, |w|) == Raised(cur, w)
  {
  }

  lemma HoldsAt(items: seq<PoolItem>, cur: seq<int>, w: seq<int>, i: nat)
    requires i < |items| && Hold(items, cur, w)
    ensures |cur| == |w| == |items|
    ensures items[i].currentWeight == cur[i] && items[i].effectiveWeight == w[i]
  {
  }

  /** `best` is the item of that index, or nobody. */
  ghost predicate IsItem(items: seq<PoolItem>, best: PoolItem?, index: int) {
    -1 <= index < |items| && best == if index < 0 then null else items[index]
  }

  /** Raise one item if it takes part, and compare it with the best so far. */
  method Consider(items: seq<PoolItem>, i: nat, best0: PoolItem?, ghost index0: int, ghost cur: seq<int>, ghost w: seq<int>)
    returns (best: PoolItem?, ghost index: int, share: int)
    requires |cur| == |w| == |items| && i < |items|
    requires AllDifferent(items) && Hold(items, Partly(cur, w, i), w)
    requires index0 == WinnerOf(Raised(cur, w), w, i) && IsItem(items, best0, index0)
    modifies items`currentWeight
    ensures Hold(items, Partly(cur, w, i + 1), w)
    ensures index == WinnerOf(Raised(cur, w), w, i + 1) && IsItem(items, best, index)
    ensures share == Share(w[i])
  {
    hide AllDifferent, Partly, WinnerOf, Hold;
    WinnerStep(Raised(cur, w), w, i);
    PartlyStep(cur, w, i);
    HoldsAt(items, Partly(cur, w, i), w, i);
    best, index, share := best0, index0, 0;
    var s := items[i];
    if s.effectiveWeight <= 0 {
      assert Partly(cur, w, i)[i := cur[i]] == Partly(cur, w, i);
      return;
    }
    share := s.effectiveWeight;
    SetCounter(items, s, s.currentWeight + s.effectiveWeight, i, Partly(cur, w, i), w);
    HoldsAt(items, Partly(cur, w, i + 1), w, i);
    if best != null {
      HoldsAt(items, Partly(cur, w, i + 1), w, index);
      PartlyAt(cur, w, i + 1, index);
    }
    if best == null || s.currentWeight > best.currentWeight {
      best, index := s, i;
    }
  }

  /** Raise every item that takes part and find the largest counter. */
  method RaiseAll(items: seq<PoolItem>, ghost cur: seq<int>, ghost w: seq<int>)
    returns (best: PoolItem?, ghost index: int, total: int)
    requires AllDifferent(items) && Hold(items, cur, w)
    modifies items`currentWeight
    ensures |cur| == |w| && Hold(items, Raised(cur, w), w)
    ensures index == Winner(cur, w) && IsItem(items, best, index)
    ensures total == Total(w)
  {
    best, index, total := null, -1, 0;
    assert |cur| == |w| == |items| == |Raised(cur, w)|;
    assert Total(w[..0]) == 0;
    PartlyEnds(cur, w);
    WinnerOfNone(Raised(cur, w), w);
    hide Total, AllDifferent, Partly, WinnerOf, Raised, Hold;
    for i := 0 to |items|
      invariant Hold(items, Partly(cur, w, i), w)
      invariant total == Total(w[..i])
      invariant index == WinnerOf(Raised(cur, w), w, i) && IsItem(items, best, index)
    {
      SharesPrefix(w, i);
      var share: int;
      best, index, share := Consider(items, i, best, index, cur, w);
      total := total + share;
    }
    assert w[..|w|] == w;
  }

  /** Raise everybody who takes part, pick the largest, let it pay the total. */
  method NextSmoothWeighted(items: seq<PoolItem>, ghost cur: seq<int>, ghost w: seq<int>)
    returns (best: PoolItem?, ghost index: int)
    requires AllDifferent(items) && Hold(items, cur, w)
    modifies items`currentWeight
    ensures Hold(items, AfterPick(cur, w), w)
    ensures index == Winner(cur, w) && IsItem(items, best, index)
  {
    hide Total, AllDifferent, Winner, Hold;
    var total: int;
    best, index, total := RaiseAll(items, cur, w);
    if best == null {
      return;
    }
    HoldsAt(items, Raised(cur, w), w, index);
    SetCounter(items, best, best.currentWeight - total, index, Raised(cur, w), w);
  }

  lemma WinnerOfNone(raised: seq<int>, w: seq<int>)
    requires |raised| == |w|
    ensures WinnerOf(raised, w, 0) == -1
  {
  }

  lemma PartlyAt(cur: seq<int>, w: seq<int>, k: nat, i: nat)
    requires |cur| == |w| && i < k <= |w|
    ensures |Partly(cur, w, k)| == |w| && Partly(cur, w, k)[i] == Raised(cur, w)[i]
  {
  }

  /** Give every item the weight its score stands for. */
  method SetScores(items: seq<PoolItem>, scores: seq<int>, ghost cur: seq<int>, ghost w: seq<int>)
    requires AllDifferent(items) && Hold(items, cur, w) && |scores| == |items|
    modifies items`effectiveWeight
    ensures Hold(items, cur, scores)
  {
    hide AllDifferent;
    assert scores[..0] + w[0..] == w;
    for i := 0 to |items|
      invariant Hold(items, cur, scores[..i] + w[i..])
    {
      hide Hold;
      assert (scores[..i] + w[i..])[i := scores[i]] == scores[..i + 1] + w[i + 1..];
      SetScore(items, i, scores[i], cur, scores[..i] + w[i..]);
    }
    assert scores[..|items|] + w[|items|..] == scores;
  }

  class Pool {
    var items: seq<PoolItem>
    ghost var counters: seq<int>
    ghost var weights: seq<int>

    ghost predicate Valid()
      reads this, items
    {
      AllDifferent(items) && Hold(items, counters, weights) && Sum(counters) == 0
    }

    constructor ()
      ensures Valid() && items == [] && counters == []
    {
      items, counters, weights := [], [], [];
    }

    /** A new item joins with a counter of zero. */
    method Add(item: int, weight: int)
      requires Valid()
      modifies this
      ensures Valid() && counters == Apply(old(counters), Operation.Add)
      ensures |items| == old(|items|) + 1 && items[..old(|items|)] == old(items) && fresh(items[old(|items|)])
      ensures items[old(|items|)].item == item && items[old(|items|)].baseWeight == if weight <= 0 then 1 else weight
    {
      hide Sum;
      ApplyKeepsZeroSum(counters, Operation.Add);
      var s := new PoolItem(item, if weight <= 0 then 1 else weight);
      items := items + [s];
      counters, weights := counters + [0], weights + [0];
    }

    method RemoveAll()
      modifies this
      ensures Valid() && items == [] && counters == Apply(old(counters), Operation.RemoveAll)
    {
      items, counters, weights := [], [], [];
    }

    /** Every counter goes back to zero. */
    method Reset()
      requires Valid()
      modifies this`counters, items`currentWeight
      ensures Valid() && counters == Apply(old(counters), Operation.Reset)
    {
      hide Sum;
      ApplyKeepsZeroSum(counters, Operation.Reset);
      counters := Zeros(|items|);
      for i := 0 to |items|
        modifies items`currentWeight
        invariant forall j :: 0 <= j < i ==> items[j].currentWeight == 0
      {
        items[i].currentWeight := 0;
      }
    }

    /** One selection; `scores` are the weights the scoring makes of the outcomes recorded so far. */
    method Next(scores: seq<int>) returns (best: PoolItem?, ghost index: int)
      requires Valid() && |scores| == |items|
      modifies this`counters, this`weights, items`effectiveWeight, items`currentWeight
      ensures Valid() && counters == Apply(old(counters), Operation.Next(scores))
      ensures index == Winner(old(counters), scores) && IsItem(items, best, index)
    {
      hide Sum, AllDifferent, Winner, AfterPick;
      assert |counters| == |items|;
      ApplyKeepsZeroSum(counters, Operation.Next(scores));
      if |items| == 0 {
        best, index := null, -1;
        NothingToPick();
        assert counters == [] && scores == [];
        weights := [];
        return;
      }
      SetScores(items, scores, counters, weights);
      hide Hold;
      best, index := NextSmoothWeighted(items, counters, scores);
      counters, weights := AfterPick(counters, scores), scores;
    }
  }

  lemma NothingToPick()
    ensures AfterPick([], []) == [] && Winner([], []) == -1
  {
  }
}
