/**
 * The per-tenant fixed-window limiter (internal/middleware/limit.go).
 *
 * Times are integers; `limit` is positive and `window` the length of a window.
 */
module RateLimit {

  datatype WindowCount = WindowCount(start: int, count: int)

  datatype Slot = Unseen | Open(window: WindowCount)

  // ---------- One tenant ----------

  /** The request opens a new window. */
  predicate Opens(s: Slot, window: int, now: int) { s.Unseen? || now - s.window.start >= window }

  predicate Accepts(s: Slot, limit: int, window: int, now: int) { Opens(s, window, now) || s.window.count < limit }

  function After(s: Slot, limit: int, window: int, now: int): Slot {
    if Opens(s, window, now) then Open(WindowCount(now, 1))
    else if s.window.count >= limit then s
    else Open(WindowCount(s.window.start, s.window.count + 1))
  }

  function SlotAfter(times: seq<int>, limit: int, window: int): Slot {
    if times == [] then Unseen
    else After(SlotAfter(times[..|times| - 1], limit, window), limit, window, times[|times| - 1])
  }

  /** The answers to the requests of one tenant. */
  function Decisions(times: seq<int>, limit: int, window: int): (d: seq<bool>)
    ensures |d| == |times|
  {
    if times == [] then []
    else
      var init := times[..|times| - 1];
      Decisions(init, limit, window) + [Accepts(SlotAfter(init, limit, window), limit, window, times[|times| - 1])]
  }

  /** How many requests at times from `from` to `to`, both included, were accepted. */
  function AcceptedIn(times: seq<int>, decisions: seq<bool>, from: int, to: int): nat
    requires |times| == |decisions|
  {
    if times == [] then 0
    else
      var k := |times| - 1;
      AcceptedIn(times[..k], decisions[..k], from, to) + if decisions[k] && from <= times[k] <= to then 1 else 0
  }

  predicate Ascending(times: seq<int>) {
    forall i, j :: 0 <= i < j < |times| ==> times[i] <= times[j]
  }

  lemma {:induction false} NothingAcceptedYet(times: seq<int>, decisions: seq<bool>, from: int, to: int)
    requires |times| == |decisions| && forall i :: 0 <= i < |times| ==> times[i] < from
    ensures AcceptedIn(times, decisions, from, to) == 0
  {
    if times != [] {
      NothingAcceptedYet(times[..|times| - 1], decisions[..|times| - 1], from, to);
    }
  }

  /** What the current window says about the requests accepted from `from` on. */
  predicate Explains(s: Slot, accepted: nat, limit: int, window: int, from: int) {
    match s
    case Unseen => accepted == 0
    case Open(w) =>
      && 1 <= w.count <= limit
      && (w.start + window <= from ==> accepted == 0)
      && (w.start <= from ==> accepted <= w.count)
      && (w.start > from ==> accepted <= limit + w.count)
  }

  lemma ExplainsStep(s: Slot, accepted: nat, limit: int, window: int, from: int, now: int)
    requires limit > 0 && window > 0 && Explains(s, accepted, limit, window, from)
    requires s.Open? ==> s.window.start <= now
    requires now <= from + window && (now < from ==> accepted == 0)
    ensures var more := if Accepts(s, limit, window, now) && from <= now then 1 else 0;
      Explains(After(s, limit, window, now), accepted + more, limit, window, from)
  {
  }

  lemma {:induction false} StartIsPast(times: seq<int>, limit: int, window: int)
    requires Ascending(times) && times != []
    ensures var s := SlotAfter(times, limit, window); s.Open? && s.window.start <= times[|times| - 1]
  {
    var k := |times| - 1;
    if k > 0 {
      StartIsPast(times[..k], limit, window);
      assert times[..k][k - 1] <= times[k];
    }
  }

  /** While the clock is within the interval, the current window explains what was accepted in it. */
  lemma {:induction false} IntervalExplained(times: seq<int>, limit: int, window: int, from: int)
    requires limit > 0 && window > 0 && Ascending(times)
    requires times != [] ==> times[|times| - 1] <= from + window
    ensures Explains(SlotAfter(times, limit, window),
                     AcceptedIn(times, Decisions(times, limit, window), from, from + window), limit, window, from)
  {
    if times != [] {
      var k := |times| - 1;
      var init, now := times[..k], times[k];
      if k > 0 {
        assert init[k - 1] <= now;
        StartIsPast(init, limit, window);
      }
      IntervalExplained(init, limit, window, from);
      if now < from {
        NothingAcceptedYet(init, Decisions(init, limit, window), from, from + window);
      }
      ExplainsStep(SlotAfter(init, limit, window),
                   AcceptedIn(init, Decisions(init, limit, window), from, from + window), limit, window, from, now);
    }
  }

  /** With a clock that never goes back, an interval of one window length sees at most 2 * limit accepted requests. */
  lemma {:induction false} TwiceTheLimit(times: seq<int>, limit: int, window: int, from: int)
    requires limit > 0 && window > 0 && Ascending(times)
    ensures AcceptedIn(times, Decisions(times, limit, window), from, from + window) <= 2 * limit
  {
    if times != [] {
      var k := |times| - 1;
      if times[k] > from + window {
        TwiceTheLimit(times[..k], limit, window, from);
      } else {
        IntervalExplained(times, limit, window, from);
      }
    }
  }

  // ---------- Half-open intervals ----------

  /** While the clock is less than a window past `from`: the opener of a window begun before `from` does not count,
      and at most one window began since. */
  predicate ExplainsSharply(s: Slot, accepted: nat, limit: int, window: int, from: int) {
    match s
    case Unseen => accepted == 0
    case Open(w) =>
      && 1 <= w.count <= limit
      && (w.start + window <= from ==> accepted == 0)
      && (w.start < from ==> accepted < w.count)
      && (w.start >= from ==> accepted < limit + w.count)
  }

  lemma ExplainsSharplyStep(s: Slot, accepted: nat, limit: int, window: int, from: int, now: int)
    requires limit > 0 && window > 0 && ExplainsSharply(s, accepted, limit, window, from)
    requires s.Open? ==> s.window.start <= now
    requires now < from + window && (now < from ==> accepted == 0)
    ensures var more := if Accepts(s, limit, window, now) && from <= now then 1 else 0;
      ExplainsSharply(After(s, limit, window, now), accepted + more, limit, window, from)
  {
  }

  lemma {:induction false} HalfOpenExplained(times: seq<int>, limit: int, window: int, from: int)
    requires limit > 0 && window > 0 && Ascending(times)
    requires times != [] ==> times[|times| - 1] < from + window
    ensures ExplainsSharply(SlotAfter(times, limit, window),
                            AcceptedIn(times, Decisions(times, limit, window), from, from + window - 1),
                            limit, window, from)
  {
    if times != [] {
      var k := |times| - 1;
      var init, now := times[..k], times[k];
      if k > 0 {
        assert init[k - 1] <= now;
        StartIsPast(init, limit, window);
      }
      HalfOpenExplained(init, limit, window, from);
      if now < from {
        NothingAcceptedYet(init, Decisions(init, limit, window), from, from + window - 1);
      }
      ExplainsSharplyStep(SlotAfter(init, limit, window),
                          AcceptedIn(init, Decisions(init, limit, window), from, from + window - 1),
                          limit, window, from, now);
    }
  }

  /** With a clock that never goes back, fewer than 2 * limit requests are accepted from `from` until before
      `from + window`. */
  lemma {:induction false} LessThanTwiceTheLimit(times: seq<int>, limit: int, window: int, from: int)
    requires limit > 0 && window > 0 && Ascending(times)
    ensures AcceptedIn(times, Decisions(times, limit, window), from, from + window - 1) < 2 * limit
  {
    if times != [] {
      var k := |times| - 1;
      if times[k] >= from + window {
        LessThanTwiceTheLimit(times[..k], limit, window, from);
      } else {
        HalfOpenExplained(times, limit, window, from);
      }
    }
  }

  // ---------- The bounds are tight ----------

  /** When request j of the burst comes. */
  function BurstTime(limit: int, window: int, j: nat): int {
    if j == 1 then 0 else if j <= limit then window - 1 else window
  }

  /** The first j of: one request at 0, limit - 1 right before its window ends, and limit right after. */
  function Burst(limit: int, window: int, j: nat): (r: seq<int>)
    ensures |r| == j
  {
    if j == 0 then []
    else Burst(limit, window, j - 1) + [BurstTime(limit, window, j)]
  }

  lemma AcceptOne(times: seq<int>, limit: int, window: int, now: int, from: int, to: int)
    requires Accepts(SlotAfter(times, limit, window), limit, window, now)
    ensures SlotAfter(times + [now], limit, window) == After(SlotAfter(times, limit, window), limit, window, now)
    ensures Decisions(times + [now], limit, window) == Decisions(times, limit, window) + [true]
    ensures AcceptedIn(times + [now], Decisions(times + [now], limit, window), from, to) ==
      AcceptedIn(times, Decisions(times, limit, window), from, to) + if from <= now <= to then 1 else 0
  {
    assert (times + [now])[..|times|] == times;
  }

  lemma {:induction false} BurstAscends(limit: int, window: int, j: nat)
    requires window > 0
    ensures Ascending(Burst(limit, window, j))
    ensures forall i :: 0 <= i < j ==>
      Burst(limit, window, j)[i] <= BurstTime(limit, window, j)
  {
    if j > 0 {
      BurstAscends(limit, window, j - 1);
    }
  }

  /** The slot after j requests of the burst. */
  function BurstSlot(limit: int, window: int, j: nat): Slot {
    if j == 0 then Unseen
    else if j <= limit then Open(WindowCount(0, j)) else Open(WindowCount(window, j - limit))
  }

  lemma BurstStep(limit: int, window: int, j: nat)
    requires limit > 0 && window > 0 && 0 < j <= 2 * limit
    ensures var s, now := BurstSlot(limit, window, j - 1), BurstTime(limit, window, j);
      && Accepts(s, limit, window, now) && After(s, limit, window, now) == BurstSlot(limit, window, j)
      && 0 <= now <= window && (window > 1 ==> (now > 0 <==> j > 1))
  {
  }

  lemma {:induction false} BurstPasses(limit: int, window: int, j: nat, from: int)
    requires limit > 0 && window > 0 && j <= 2 * limit && 0 <= from <= 1 && (from == 0 || window > 1)
    ensures SlotAfter(Burst(limit, window, j), limit, window) == BurstSlot(limit, window, j)
    ensures var b := Burst(limit, window, j);
      AcceptedIn(b, Decisions(b, limit, window), from, window) == if j == 0 then 0 else j - from
  {
    if j > 0 {
      BurstPasses(limit, window, j - 1, from);
      BurstStep(limit, window, j);
      assert Burst(limit, window, j) == Burst(limit, window, j - 1) + [BurstTime(limit, window, j)];
      hide *;
      AcceptOne(Burst(limit, window, j - 1), limit, window, BurstTime(limit, window, j), from, window);
    }
  }

  /** For every limit and window some run gets 2 * limit requests through from 0 to window, both included, and,
      unless the window is a single instant, 2 * limit - 1 of them from 1 until before window + 1. */
  lemma BoundsAreReached(limit: int, window: int)
    requires limit > 0 && window > 0
    ensures var times := Burst(limit, window, 2 * limit);
      && Ascending(times)
      && AcceptedIn(times, Decisions(times, limit, window), 0, 0 + window) == 2 * limit
      && (window > 1 ==> AcceptedIn(times, Decisions(times, limit, window), 1, 1 + window - 1) == 2 * limit - 1)
  {
    BurstAscends(limit, window, 2 * limit);
    BurstPasses(limit, window, 2 * limit, 0);
    if window > 1 {
      BurstPasses(limit, window, 2 * limit, 1);
    }
  }

  // ---------- Rejections ----------

  /** The window's count is matched by requests accepted since it began. */
  lemma {:induction false} CountIsEarned(times: seq<int>, limit: int, window: int, to: int)
    requires Ascending(times) && times != [] && times[|times| - 1] <= to
    ensures var s := SlotAfter(times, limit, window);
      s.Open? && s.window.count <= AcceptedIn(times, Decisions(times, limit, window), s.window.start, to)
  {
    var k := |times| - 1;
    var init := times[..k];
    if k > 0 {
      assert init[k - 1] <= times[k];
      CountIsEarned(init, limit, window, to);
      StartIsPast(init, limit, window);
    }
  }

  /** A request is turned away only after `limit` accepted ones less than a window ago. */
  lemma RejectedOnlyWhenFull(times: seq<int>, limit: int, window: int, now: int)
    requires Ascending(times + [now]) && !Accepts(SlotAfter(times, limit, window), limit, window, now)
    ensures AcceptedIn(times, Decisions(times, limit, window), now - window + 1, now) >= limit
  {
    var s := SlotAfter(times, limit, window);
    assert (times + [now])[..|times|] == times;
    assert (times + [now])[|times| - 1] <= (times + [now])[|times|];
    CountIsEarned(times, limit, window, now);
    WiderInterval(times, Decisions(times, limit, window), s.window.start, now - window + 1, now);
  }

  lemma {:induction false} WiderInterval(times: seq<int>, decisions: seq<bool>, from: int, from0: int, to: int)
    requires |times| == |decisions| && from0 <= from
    ensures AcceptedIn(times, decisions, from, to) <= AcceptedIn(times, decisions, from0, to)
  {
    if times != [] {
      WiderInterval(times[..|times| - 1], decisions[..|times| - 1], from, from0, to);
    }
  }

  // ---------- All tenants ----------

  datatype Request = Request(tenant: string, at: int)

  function SlotOf(counters: map<string, WindowCount>, tenant: string): Slot {
    if tenant in counters then Open(counters[tenant]) else Unseen
  }

  function CountersAfter(requests: seq<Request>, limit: int, window: int): map<string, WindowCount> {
    if requests == [] then map[]
    else
      var r := requests[|requests| - 1];
      var before := CountersAfter(requests[..|requests| - 1], limit, window);
      before[r.tenant := After(SlotOf(before, r.tenant), limit, window, r.at).window]
  }

  function Allowed(requests: seq<Request>, limit: int, window: int): (d: seq<bool>)
    ensures |d| == |requests|
  {
    if requests == [] then []
    else
      var init, r := requests[..|requests| - 1], requests[|requests| - 1];
      Allowed(init, limit, window) +
        [Accepts(SlotOf(CountersAfter(init, limit, window), r.tenant), limit, window, r.at)]
  }

  /** When a tenant's requests came. */
  function TimesOf(requests: seq<Request>, tenant: string): seq<int> {
    if requests == [] then []
    else
      var r := requests[|requests| - 1];
      TimesOf(requests[..|requests| - 1], tenant) + if r.tenant == tenant then [r.at] else []
  }

  /** What a tenant's requests were answered. */
  function AnswersOf(requests: seq<Request>, decisions: seq<bool>, tenant: string): seq<bool>
    requires |requests| == |decisions|
  {
    if requests == [] then []
    else
      var k := |requests| - 1;
      AnswersOf(requests[..k], decisions[..k], tenant) + if requests[k].tenant == tenant then [decisions[k]] else []
  }

  lemma {:induction false} OwnSlot(requests: seq<Request>, limit: int, window: int, tenant: string)
    ensures SlotOf(CountersAfter(requests, limit, window), tenant) == SlotAfter(TimesOf(requests, tenant), limit, window)
  {
    if requests != [] {
      var k := |requests| - 1;
      var init, r := requests[..k], requests[k];
      OwnSlot(init, limit, window, tenant);
      if r.tenant == tenant {
        assert TimesOf(requests, tenant)[..|TimesOf(init, tenant)|] == TimesOf(init, tenant);
      } else {
        assert TimesOf(requests, tenant) == TimesOf(init, tenant);
      }
    }
  }

  /** A tenant is answered as if it were alone: other tenants' requests change nothing. */
  lemma {:induction false} TenantsAreIndependent(requests: seq<Request>, limit: int, window: int, tenant: string)
    ensures AnswersOf(requests, Allowed(requests, limit, window), tenant) ==
      Decisions(TimesOf(requests, tenant), limit, window)
  {
    if requests != [] {
      var k := |requests| - 1;
      var init, r := requests[..k], requests[k];
      TenantsAreIndependent(init, limit, window, tenant);
      assert Allowed(requests, limit, window)[..k] == Allowed(init, limit, window);
      if r.tenant == tenant {
        OwnSlot(init, limit, window, tenant);
        assert TimesOf(requests, tenant)[..|TimesOf(init, tenant)|] == TimesOf(init, tenant);
      } else {
        assert TimesOf(requests, tenant) == TimesOf(init, tenant);
      }
    }
  }

  predicate ClockAscends(requests: seq<Request>) {
    forall i, j :: 0 <= i < j < |requests| ==> requests[i].at <= requests[j].at
  }

  lemma {:induction false} TimesAscend(requests: seq<Request>, tenant: string)
    requires ClockAscends(requests)
    ensures Ascending(TimesOf(requests, tenant))
    ensures forall i :: 0 <= i < |TimesOf(requests, tenant)| ==>
      requests != [] && TimesOf(requests, tenant)[i] <= requests[|requests| - 1].at
  {
    if requests != [] {
      var k := |requests| - 1;
      TimesAscend(requests[..k], tenant);
      assert k > 0 ==> requests[..k][k - 1].at <= requests[k].at;
    }
  }

  /** Over any run of all tenants' requests, no tenant gets more than 2 * limit through in one window length,
      nor more than 2 * limit - 1 if the end is not counted. */
  lemma RunIsLimited(requests: seq<Request>, limit: int, window: int, tenant: string, from: int)
    requires limit > 0 && window > 0 && ClockAscends(requests)
    ensures |AnswersOf(requests, Allowed(requests, limit, window), tenant)| == |TimesOf(requests, tenant)|
    ensures AcceptedIn(TimesOf(requests, tenant), AnswersOf(requests, Allowed(requests, limit, window), tenant),
                       from, from + window) <= 2 * limit
    ensures AcceptedIn(TimesOf(requests, tenant), AnswersOf(requests, Allowed(requests, limit, window), tenant),
                       from, from + window - 1) < 2 * limit
  {
    TenantsAreIndependent(requests, limit, window, tenant);
    TimesAscend(requests, tenant);
    TwiceTheLimit(TimesOf(requests, tenant), limit, window, from);
    LessThanTwiceTheLimit(TimesOf(requests, tenant), limit, window, from);
  }

  // ---------- The code ----------

  class TenantLimiter {
    const limit: int
    const window: int
    var counters: map<string, WindowCount>

    /** A limit of zero or less means 50. */
    constructor (limit: int, window: int)
      ensures this.limit == (if limit <= 0 then 50 else limit) && this.limit > 0
      ensures this.window == window && counters == map[]
    {
      this.limit := if limit <= 0 then 50 else limit;
      this.window := window;
      counters := map[];
    }

    method Allow(tenant: string, now: int) returns (ok: bool)
      modifies this
      ensures ok <==> Accepts(SlotOf(old(counters), tenant), limit, window, now)
      ensures counters == old(counters)[tenant := After(SlotOf(old(counters), tenant), limit, window, now).window]
    {
      if tenant !in counters || now - counters[tenant].start >= window {
        counters := counters[tenant := WindowCount(now, 1)];
        return true;
      }
      var wc := counters[tenant];
      if wc.count >= limit {
        assert counters == counters[tenant := wc];
        return false;
      }
      counters := counters[tenant := wc.(count := wc.count + 1)];
      return true;
    }

    /** A run of requests, each at its own time. */
    method Serve(requests: seq<Request>) returns (decisions: seq<bool>)
      requires counters == map[]
      modifies this
      ensures decisions == Allowed(requests, limit, window)
      ensures counters == CountersAfter(requests, limit, window)
    {
      decisions := [];
      for i := 0 to |requests|
        invariant decisions == Allowed(requests[..i], limit, window)
        invariant counters == CountersAfter(requests[..i], limit, window)
      {
        assert requests[..i + 1][..i] == requests[..i];
        var ok := Allow(requests[i].tenant, requests[i].at);
        decisions := decisions + [ok];
      }
      assert requests[..|requests|] == requests;
    }
  }
}
