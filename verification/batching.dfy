/**
 * Waypoint batching: WaypointsPacket (internal/geo/route.go), RouteWaypoints and RoutePair
 * (internal/planner/planner.go).
 *
 * Coordinates, distances and durations are reals; the provider is a function from a packet to a reply.
 */
module Batching {
  import opened Sums
  import ArcTypes

  datatype Point = Point(lon: real, lat: real)

  datatype Source = FromProvider | FromCache | FromFallback

  datatype Step = Step(origin: Point, destination: Point, distance: real, duration: real, source: Source)

  datatype Reply = Answer(steps: seq<Step>, distance: real, duration: real, source: Source) | Failure

  /** One leg of a walk over waypoints. */
  datatype Hop = Hop(from: Point, to: Point)

  function Hops(waypoints: seq<Point>): seq<Hop> {
    if waypoints == [] then []
    else seq(|waypoints| - 1, i requires 0 <= i < |waypoints| - 1 => Hop(waypoints[i], waypoints[i + 1]))
  }

  function HopsOfAll(packets: seq<seq<Point>>): seq<Hop> {
    if packets == [] then [] else Hops(packets[0]) + HopsOfAll(packets[1..])
  }

  // ---------- Packets ----------

  function PacketAt(batch: int, waypoints: seq<Point>, i: nat): seq<Point>
    requires batch > 0 && i < |waypoints|
  {
    waypoints[if i > 0 then i - 1 else 0..if i + batch > |waypoints| then |waypoints| else i + batch]
  }

  function PacketsFrom(batch: int, waypoints: seq<Point>, i: nat): seq<seq<Point>>
    requires batch > 0
    decreases |waypoints| - i
  {
    if i >= |waypoints| then [] else [PacketAt(batch, waypoints, i)] + PacketsFrom(batch, waypoints, i + batch)
  }

  /** Packets of `batch` new waypoints each; every packet but the first also repeats the waypoint before. */
  function Packets(batch: int, waypoints: seq<Point>): seq<seq<Point>> {
    if batch <= 0 then [] else PacketsFrom(batch, waypoints, 0)
  }

  lemma PacketsUnfold(batch: int, waypoints: seq<Point>, i: nat)
    requires batch > 0
    ensures PacketsFrom(batch, waypoints, i) ==
      if i >= |waypoints| then [] else [PacketAt(batch, waypoints, i)] + PacketsFrom(batch, waypoints, i + batch)
  {
  }

  method WaypointsPacket(batch: int, waypoints: seq<Point>) returns (groups: seq<seq<Point>>)
    ensures groups == Packets(batch, waypoints)
  {
    groups := [];
    if batch <= 0 {
      return;
    }
    hide PacketsFrom;
    var i := 0;
    while i < |waypoints|
      invariant 0 <= i
      invariant groups + PacketsFrom(batch, waypoints, i) == PacketsFrom(batch, waypoints, 0)
      decreases |waypoints| - i
    {
      PacketsUnfold(batch, waypoints, i);
      var start, end := i, i + batch;
      if start > 0 {
        start := start - 1;
      }
      if end > |waypoints| {
        end := |waypoints|;
      }
      groups := groups + [waypoints[start..end]];
      i := i + batch;
    }
    PacketsUnfold(batch, waypoints, i);
  }

  lemma HopsSplit(waypoints: seq<Point>, lo: nat, mid: nat)
    requires lo < mid < |waypoints|
    ensures Hops(waypoints[lo..]) == Hops(waypoints[lo..mid]) + Hops(waypoints[mid - 1..])
  {
    var whole, a, b := waypoints[lo..], waypoints[lo..mid], waypoints[mid - 1..];
    assert |Hops(whole)| == |Hops(a)| + |Hops(b)|;
    forall i | 0 <= i < |Hops(whole)| ensures Hops(whole)[i] == (Hops(a) + Hops(b))[i] {
      var h := Hop(waypoints[lo + i], waypoints[lo + i + 1]);
      assert Hops(whole)[i] == h;
      if i < |Hops(a)| {
        assert Hops(a)[i] == h;
      } else {
        assert Hops(b)[i - |Hops(a)|] == h;
      }
    }
  }

  lemma HopsOfCons(p: seq<Point>, rest: seq<seq<Point>>)
    ensures HopsOfAll([p] + rest) == Hops(p) + HopsOfAll(rest)
  {
    hide Hops;
    assert ([p] + rest)[1..] == rest;
  }

  lemma NoPacketsNoHops()
    ensures HopsOfAll([]) == []
  {
  }

  lemma {:induction false} PacketsKeepHopsFrom(batch: int, waypoints: seq<Point>, i: nat)
    requires batch > 0 && i < |waypoints|
    ensures HopsOfAll(PacketsFrom(batch, waypoints, i)) == Hops(waypoints[if i > 0 then i - 1 else 0..])
    decreases |waypoints| - i
  {
    hide Hops, HopsOfAll;
    var rest := PacketsFrom(batch, waypoints, i + batch);
    HopsOfCons(PacketAt(batch, waypoints, i), rest);
    if i + batch < |waypoints| {
      PacketsKeepHopsFrom(batch, waypoints, i + batch);
      HopsSplit(waypoints, if i > 0 then i - 1 else 0, i + batch);
    } else {
      assert rest == [];
      NoPacketsNoHops();
      assert waypoints[if i > 0 then i - 1 else 0..] == PacketAt(batch, waypoints, i);
    }
  }

  /** The legs of the packets in order are the legs of the whole list. */
  lemma PacketsKeepHops(batch: int, waypoints: seq<Point>)
    requires batch > 0
    ensures HopsOfAll(Packets(batch, waypoints)) == Hops(waypoints)
  {
    if waypoints != [] {
      PacketsKeepHopsFrom(batch, waypoints, 0);
      assert waypoints[0..] == waypoints;
    }
  }

  /** Where packet k starts and ends. */
  function Lo(batch: int, k: nat): int { if k == 0 then 0 else k * batch - 1 }
  function Hi(batch: int, n: nat, k: nat): int { if (k + 1) * batch > n then n else (k + 1) * batch }

  lemma {:induction false} PacketSpanFrom(batch: int, waypoints: seq<Point>, i: nat, j: nat, k: nat)
    requires batch > 0 && i == j * batch && k < |PacketsFrom(batch, waypoints, i)|
    ensures 0 <= Lo(batch, j + k) <= Hi(batch, |waypoints|, j + k) <= |waypoints|
    ensures (j + k) * batch < |waypoints|
    ensures PacketsFrom(batch, waypoints, i)[k] == waypoints[Lo(batch, j + k)..Hi(batch, |waypoints|, j + k)]
    decreases k
  {
    MulSucc(j, batch);
    if k == 0 {
      MulLe(0, j, batch);
      if j > 0 {
        MulLe(1, j, batch);
      }
    } else {
      PacketSpanFrom(batch, waypoints, i + batch, j + 1, k - 1);
    }
  }

  /** Packet k is the stretch from Lo to Hi; it holds at most batch + 1 waypoints, the first at most batch. */
  lemma PacketSpan(batch: int, waypoints: seq<Point>, k: nat)
    requires k < |Packets(batch, waypoints)|
    ensures 0 <= Lo(batch, k) <= Hi(batch, |waypoints|, k) <= |waypoints|
    ensures Packets(batch, waypoints)[k] == waypoints[Lo(batch, k)..Hi(batch, |waypoints|, k)]
    ensures 0 < |Packets(batch, waypoints)[k]| <= if k == 0 then batch else batch + 1
  {
    PacketSpanFrom(batch, waypoints, 0, 0, k);
    MulSucc(k, batch);
  }

  lemma NextStarts(batch: int, waypoints: seq<Point>, k: nat)
    requires k + 1 < |Packets(batch, waypoints)|
    ensures Lo(batch, k + 1) == Hi(batch, |waypoints|, k) - 1
  {
    PacketSpanFrom(batch, waypoints, 0, 0, k + 1);
    MulSucc(k, batch);
  }

  /** Neighbouring packets share exactly one waypoint: the next starts at the last position of the one before. */
  lemma PacketsShareOne(batch: int, waypoints: seq<Point>, k: nat)
    requires k + 1 < |Packets(batch, waypoints)|
    ensures Lo(batch, k + 1) == Hi(batch, |waypoints|, k) - 1
    ensures var p, q := Packets(batch, waypoints)[k], Packets(batch, waypoints)[k + 1];
      p != [] && q != [] && q[0] == p[|p| - 1]
  {
    hide *;
    PacketSpan(batch, waypoints, k);
    PacketSpan(batch, waypoints, k + 1);
    NextStarts(batch, waypoints, k);
    var n := |waypoints|;
    StretchEnds(waypoints, Lo(batch, k), Hi(batch, n, k));
    StretchEnds(waypoints, Lo(batch, k + 1), Hi(batch, n, k + 1));
  }

  lemma StretchEnds(waypoints: seq<Point>, lo: nat, hi: nat)
    requires lo < hi <= |waypoints|
    ensures waypoints[lo..hi] != []
    ensures waypoints[lo..hi][0] == waypoints[lo] && waypoints[lo..hi][hi - lo - 1] == waypoints[hi - 1]
  {
  }

  /** A list of at most `batch` waypoints is one packet. */
  lemma ShortListIsOnePacket(batch: int, waypoints: seq<Point>)
    requires waypoints != [] && |waypoints| <= batch
    ensures Packets(batch, waypoints) == [waypoints]
  {
    assert PacketsFrom(batch, waypoints, batch) == [];
    assert PacketAt(batch, waypoints, 0) == waypoints;
  }

  // ---------- Calls ----------

  datatype Routed = Routed(steps: seq<Step>) | Failed

  /** Each packet completes once. */
  ghost predicate IsOrder(order: seq<nat>, n: nat) {
    && |order| == n
    && (forall j :: 0 <= j < |order| ==> order[j] < n)
    && (forall i, j :: 0 <= i < j < |order| ==> order[i] != order[j])
    && forall k :: 0 <= k < n ==> k in order
  }

  function StepsOf(r: Reply): seq<Step> { if r.Answer? then r.steps else [] }

  /** The steps of the first k packets, in packet order. */
  function Assembled(packets: seq<seq<Point>>, answer: (nat, seq<Point>) -> Reply, k: nat): seq<Step>
    requires k <= |packets|
  {
    if k == 0 then [] else Assembled(packets, answer, k - 1) + StepsOf(answer(k - 1, packets[k - 1]))
  }

  /** Call i found the context alive and the provider answered it. */
  predicate Answered(packets: seq<seq<Point>>, answer: (nat, seq<Point>) -> Reply, cancelled: nat -> bool, i: nat)
    requires i < |packets|
  {
    !cancelled(i) && answer(i, packets[i]).Answer?
  }

  ghost predicate AllAnswer(packets: seq<seq<Point>>, answer: (nat, seq<Point>) -> Reply, cancelled: nat -> bool) {
    forall i :: 0 <= i < |packets| ==> Answered(packets, answer, cancelled, i)
  }

  /** All steps in packet order, or nothing if any call fails. */
  ghost function Collected(packets: seq<seq<Point>>, answer: (nat, seq<Point>) -> Reply, cancelled: nat -> bool): Routed {
    if AllAnswer(packets, answer, cancelled) then Routed(Assembled(packets, answer, |packets|)) else Failed
  }

  lemma {:induction false} AssembledIsFlat(packets: seq<seq<Point>>, answer: (nat, seq<Point>) -> Reply, k: nat,
                                           parts: seq<seq<Step>>)
    requires k <= |packets| && |parts| == k
    requires forall i :: 0 <= i < k ==> answer(i, packets[i]).Answer? && parts[i] == answer(i, packets[i]).steps
    ensures Assembled(packets, answer, k) == ArcTypes.Flatten(parts)
  {
    if k > 0 {
      AssembledIsFlat(packets, answer, k - 1, parts[..k - 1]);
    }
  }

  /** If every call found the context alive and was answered, the result is the replies' steps, one reply after the
      other in packet order; if any did not or was not, there is no result. */
  lemma CollectedIsReplies(packets: seq<seq<Point>>, answer: (nat, seq<Point>) -> Reply, cancelled: nat -> bool,
                           parts: seq<seq<Step>>)
    requires |parts| == |packets|
    requires forall i :: 0 <= i < |packets| ==>
      parts[i] == if answer(i, packets[i]).Answer? then answer(i, packets[i]).steps else []
    ensures Collected(packets, answer, cancelled) ==
      if exists i :: 0 <= i < |packets| && (cancelled(i) || answer(i, packets[i]).Failure?) then Failed
      else Routed(ArcTypes.Flatten(parts))
  {
    if AllAnswer(packets, answer, cancelled) {
      forall i | 0 <= i < |packets| ensures !cancelled(i) && answer(i, packets[i]).Answer? {
        assert Answered(packets, answer, cancelled, i);
      }
      AssembledIsFlat(packets, answer, |packets|, parts);
    } else {
      var i :| 0 <= i < |packets| && !Answered(packets, answer, cancelled, i);
      assert cancelled(i) || answer(i, packets[i]).Failure?;
    }
  }

  /** The calls that reach the provider. */
  ghost function Started(cancelled: nat -> bool, n: nat): set<nat> {
    set i: nat | i < n && !cancelled(i)
  }

  ghost function StartedOf(cancelled: nat -> bool, order: seq<nat>): set<nat> {
    set i: nat | i in order && !cancelled(i)
  }

  lemma StartedSnoc(cancelled: nat -> bool, order: seq<nat>, j: nat)
    requires j < |order| && forall i :: 0 <= i < j ==> order[i] != order[j]
    ensures |StartedOf(cancelled, order[..j + 1])| ==
      |StartedOf(cancelled, order[..j])| + if cancelled(order[j]) then 0 else 1
  {
    assert order[..j + 1] == order[..j] + [order[j]];
    assert StartedOf(cancelled, order[..j + 1]) ==
      StartedOf(cancelled, order[..j]) + if cancelled(order[j]) then {} else {order[j]};
  }

  lemma StartedAll(cancelled: nat -> bool, order: seq<nat>, n: nat)
    requires IsOrder(order, n)
    ensures StartedOf(cancelled, order[..|order|]) == Started(cancelled, n)
  {
    assert order[..|order|] == order;
  }

  /** If no call finds the context done, all are made. */
  lemma {:induction false} AllStarted(cancelled: nat -> bool, n: nat)
    requires forall i :: 0 <= i < n ==> !cancelled(i)
    ensures |Started(cancelled, n)| == n
  {
    if n > 0 {
      AllStarted(cancelled, n - 1);
      assert Started(cancelled, n) == Started(cancelled, n - 1) + {n - 1};
    } else {
      assert Started(cancelled, 0) == {};
    }
  }

  /** One call per packet; each writes its own slot of the results. */
  method CallAll(packets: seq<seq<Point>>, answer: (nat, seq<Point>) -> Reply, cancelled: nat -> bool, order: seq<nat>,
                 results: array<seq<Step>>)
    returns (failed: bool, calls: nat)
    requires IsOrder(order, |packets|) && results.Length == |packets|
    modifies results
    ensures failed <==> exists i :: 0 <= i < |order| && !Answered(packets, answer, cancelled, order[i])
    ensures calls == |StartedOf(cancelled, order[..|order|])|
    ensures forall i :: 0 <= i < |order| && Answered(packets, answer, cancelled, order[i]) ==>
      results[order[i]] == StepsOf(answer(order[i], packets[order[i]]))
  {
    hide StartedOf;
    NoneStarted(cancelled, order);
    failed, calls := false, 0;
    for j := 0 to |order|
      invariant calls == |StartedOf(cancelled, order[..j])|
      invariant failed <==> exists i :: 0 <= i < j && !Answered(packets, answer, cancelled, order[i])
      invariant forall i :: 0 <= i < j && Answered(packets, answer, cancelled, order[i]) ==>
        results[order[i]] == StepsOf(answer(order[i], packets[order[i]]))
    {
      var i := order[j];
      StartedSnoc(cancelled, order, j);
      if cancelled(i) {
        failed := true;
        continue;
      }
      var res := answer(i, packets[i]);
      calls := calls + 1;
      if res.Failure? {
        failed := true;
        continue;
      }
      results[i] := res.steps;
    }
  }

  lemma NoneStarted(cancelled: nat -> bool, order: seq<nat>)
    ensures |StartedOf(cancelled, order[..0])| == 0
  {
    assert StartedOf(cancelled, order[..0]) == {};
  }

  /** The calls run concurrently and complete in any `order`; `cancelled(i)` says that call i found the context
      done.  The result is the same for every order. */
  method RouteWaypoints(batchSize: int, waypoints: seq<Point>, answer: (nat, seq<Point>) -> Reply,
                        cancelled: nat -> bool, order: seq<nat>)
    returns (r: Routed, calls: nat)
    requires IsOrder(order, |Packets(batchSize, waypoints)|)
    ensures var packets := Packets(batchSize, waypoints);
      && (|waypoints| < 2 ==> r == Routed([]) && calls == 0)
      && (|waypoints| >= 2 ==> calls == |Started(cancelled, |packets|)|)
      && (|waypoints| >= 2 ==> r == Collected(packets, answer, cancelled))
  {
    calls := 0;
    if |waypoints| < 2 {
      return Routed([]), 0;
    }
    var packets := WaypointsPacket(batchSize, waypoints);
    if |packets| == 0 {
      return Routed([]), 0;
    }
    var results := new seq<Step>[|packets|](_ => []);
    var failed: bool;
    failed, calls := CallAll(packets, answer, cancelled, order, results);
    AllOrNot(packets, answer, cancelled, order);
    StartedAll(cancelled, order, |packets|);
    if failed {
      return Failed, calls;
    }
    var steps: seq<Step> := [];
    for i := 0 to |packets|
      invariant steps == Assembled(packets, answer, i)
    {
      assert i in order;
      steps := steps + results[i];
    }
    r := Routed(steps);
  }

  lemma AllOrNot(packets: seq<seq<Point>>, answer: (nat, seq<Point>) -> Reply, cancelled: nat -> bool, order: seq<nat>)
    requires IsOrder(order, |packets|)
    ensures AllAnswer(packets, answer, cancelled) <==>
      forall i :: 0 <= i < |order| ==> Answered(packets, answer, cancelled, order[i])
  {
    hide Answered;
    if forall i :: 0 <= i < |order| ==> Answered(packets, answer, cancelled, order[i]) {
      forall k | 0 <= k < |packets| ensures Answered(packets, answer, cancelled, k) {
        assert k in order;
      }
    }
  }

  // ---------- What the assembled steps travel ----------

  function HopsOfSteps(steps: seq<Step>): seq<Hop> {
    seq(|steps|, i requires 0 <= i < |steps| => Hop(steps[i].origin, steps[i].destination))
  }

  /** The provider answers every leg of a packet, in order. */
  ghost predicate AnswersLegs(packet: seq<Point>, r: Reply) {
    r.Answer? && HopsOfSteps(r.steps) == Hops(packet)
  }

  lemma {:induction false} HopsOfAllSnoc(packets: seq<seq<Point>>, p: seq<Point>)
    ensures HopsOfAll(packets + [p]) == HopsOfAll(packets) + Hops(p)
  {
    hide Hops;
    if packets == [] {
      assert [] + [p] == [p] && [p][1..] == [];
    } else {
      HopsOfAllSnoc(packets[1..], p);
      assert (packets + [p])[1..] == packets[1..] + [p];
    }
  }

  lemma {:induction false} AssembledHops(packets: seq<seq<Point>>, answer: (nat, seq<Point>) -> Reply, k: nat)
    requires k <= |packets| && forall i :: 0 <= i < k ==> AnswersLegs(packets[i], answer(i, packets[i]))
    ensures HopsOfSteps(Assembled(packets, answer, k)) == HopsOfAll(packets[..k])
  {
    hide Hops, HopsOfAll, HopsOfSteps;
    if k == 0 {
      NoPacketsNoHops();
      HopsOfNoSteps();
    } else {
      AssembledHops(packets, answer, k - 1);
      assert packets[..k] == packets[..k - 1] + [packets[k - 1]];
      HopsOfAllSnoc(packets[..k - 1], packets[k - 1]);
      HopsOfMoreSteps(Assembled(packets, answer, k - 1), StepsOf(answer(k - 1, packets[k - 1])));
    }
  }

  lemma HopsOfNoSteps()
    ensures HopsOfSteps([]) == []
  {
  }

  lemma HopsOfMoreSteps(a: seq<Step>, b: seq<Step>)
    ensures HopsOfSteps(a + b) == HopsOfSteps(a) + HopsOfSteps(b)
  {
  }

  /** Reassembled, the steps travel exactly the legs of the waypoint list. */
  lemma StepsFollowTheWaypoints(batch: int, waypoints: seq<Point>, answer: (nat, seq<Point>) -> Reply)
    requires batch > 0
    requires forall i :: 0 <= i < |Packets(batch, waypoints)| ==>
      AnswersLegs(Packets(batch, waypoints)[i], answer(i, Packets(batch, waypoints)[i]))
    ensures HopsOfSteps(Assembled(Packets(batch, waypoints), answer, |Packets(batch, waypoints)|)) == Hops(waypoints)
  {
    var packets := Packets(batch, waypoints);
    AssembledHops(packets, answer, |packets|);
    assert packets[..|packets|] == packets;
    PacketsKeepHops(batch, waypoints);
  }

  /** One origin and one destination: the first step of the reply, or its totals if it has none. */
  method RoutePair(answer: seq<Point> -> Reply, origin: Point, destination: Point)
    returns (step: Step, calls: nat, ok: bool)
    ensures calls == 1 && (ok <==> answer([origin, destination]).Answer?)
    ensures ok ==> var r := answer([origin, destination]);
      step == if r.steps == [] then Step(origin, destination, r.distance, r.duration, r.source) else r.steps[0]
  {
    var res := answer([origin, destination]);
    calls, ok := 1, res.Answer?;
    if res.Failure? {
      step := Step(origin, destination, 0.0, 0.0, FromFallback);
    } else if |res.steps| == 0 {
      step := Step(origin, destination, res.distance, res.duration, res.source);
    } else {
      step := res.steps[0];
    }
  }
}
