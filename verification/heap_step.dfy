/** Exactly when the two updates after a removed arc (internal/arccover/dense.go) leave the heap ordered. */
module HeapStep {
  import opened ArcTypes
  import opened GraphRule
  import opened HeapRule
  import opened DenseRule
  import opened DenseRounds
  import Trails

  // ---------- The condition ----------

  /** The slot above c, -1 above the top. */
  function Parent(c: nat): int { if c == 0 then -1 else (c - 1) / 2 }

  /** Slot i lies strictly below slot t. */
  predicate Below(i: nat, t: int)
    decreases i
  {
    i > 0 && (Parent(i) == t || Below(Parent(i), t))
  }

  /** A vertex x put at slot i beats what stands above slot t, but not what stands at t on its way there. */
  predicate StopsUnder(g: Graph, h: Heap, x: nat, i: nat, t: nat) {
    && Below(i, t) && 0 < t < |h.order|
    && Better(g, x, h.order[Parent(t)]) && !Better(g, x, h.order[t])
  }

  /** The vertex that the first update puts into a new place, if there is one, stops under the head of the arc,
      and beats the vertex that the head is going to rise past. */
  predicate Displaces(next: Graph, h: Heap, e: Arc) {
    var last, t := |h.order| - 1, PosOf(h, e.to);
    && Active(h, e.to) && 0 < t
    && if Active(h, e.from)
       then OutAt(next, e.from) <= 0 && 0 <= PosOf(h, e.from) < last
            && StopsUnder(next, h, h.order[last], PosOf(h, e.from), t)
       else OutAt(next, e.from) > 0 && StopsUnder(next, h, e.from, |h.order|, t)
  }

  // ---------- Order around two slots ----------

  /** The vertex at c is not preferred to the one at q, if there is such a slot. */
  predicate Fits(g: Graph, o: seq<nat>, c: nat, q: int) {
    c < |o| && 0 <= q < |o| ==> !Better(g, o[c], o[q])
  }

  lemma FitsTrans(g: Graph, o: seq<nat>, a: nat, b: nat, c: int)
    requires b < |o| && Fits(g, o, a, b) && Fits(g, o, b, c)
    ensures Fits(g, o, a, c)
  {
  }

  /** The next slot above c other than s. */
  function Above(c: nat, s: nat): int { if Parent(c) == s then Parent(s) else Parent(c) }

  /** With s left out: c fits under what is above it, and if that is t, also under what is above t. */
  predicate FitsAround(g: Graph, o: seq<nat>, c: nat, s: nat, t: nat) {
    && Fits(g, o, c, Above(c, s))
    && (Above(c, s) == t ==> Fits(g, o, c, Above(t, s)))
  }

  /** Ordered with slot s left out, both with and without slot t; a slot out of range leaves out nothing. */
  ghost predicate Around(g: Graph, o: seq<nat>, s: nat, t: nat) {
    forall c: nat :: c < |o| && c != s && c != t ==> FitsAround(g, o, c, s, t)
  }

  /** Whatever is below s, but for t, fits under s. */
  ghost predicate KidsFit(g: Graph, o: seq<nat>, s: nat, t: nat) {
    forall c: nat :: c < |o| && c != s && c != t && (Parent(c) == s || (Parent(c) == t && Parent(t) == s)) ==>
      Fits(g, o, c, s)
  }

  /** The vertex at k stands under t and beats the one above t. */
  predicate Stuck(g: Graph, o: seq<nat>, k: nat, t: nat) {
    k < |o| && Parent(k) == t && !Fits(g, o, k, Parent(t))
  }

  /** Past an ordinary vertex. */
  lemma UpStepAt(g: Graph, o: seq<nat>, s: nat, t: nat, c: nat)
    requires 0 < s < |o| && s != t && Parent(s) != t && Around(g, o, s, t)
    requires c < |o| && c != Parent(s) && c != t
    ensures FitsAround(g, Exchange(o, s, Parent(s)), c, Parent(s), t)
  {
    hide Better;
    var p := Parent(s);
    assert FitsAround(g, o, p, s, t);
    if c != s {
      assert FitsAround(g, o, c, s, t);
      if Parent(c) == p || (Parent(c) == t && Parent(t) == p) {
        FitsMiddle(g, o, c, s, t);
      }
    }
  }

  /** Past the vertex at t. */
  lemma UpStepPast(g: Graph, o: seq<nat>, s: nat, c: nat)
    requires 0 < s < |o| && Around(g, o, s, Parent(s))
    requires c < |o| && c != Parent(s) && c != s
    ensures FitsAround(g, Exchange(o, s, Parent(s)), c, Parent(s), s)
  {
    hide Better;
    assert FitsAround(g, o, c, s, Parent(s));
  }

  lemma FitsMiddle(g: Graph, o: seq<nat>, c: nat, s: nat, t: nat)
    requires 0 < s < |o| && c < |o| && Fits(g, o, c, Parent(s))
    ensures Fits(g, o, Parent(s), Parent(Parent(s))) ==> Fits(g, o, c, Parent(Parent(s)))
    ensures t < |o| && Fits(g, o, Parent(s), Parent(t)) ==> Fits(g, o, c, Parent(t))
  {
  }

  /** Moving s one level up, past a vertex or past the one at t, keeps the rest as it was. */
  lemma UpStep(g: Graph, o: seq<nat>, s: nat, t: nat)
    requires 0 < s < |o| && s != t && Around(g, o, s, t)
    ensures Around(g, Exchange(o, s, Parent(s)), Parent(s), if Parent(s) == t then s else t)
  {
    hide FitsAround;
    var r, p, u := Exchange(o, s, Parent(s)), Parent(s), if Parent(s) == t then s else t;
    forall c: nat | c < |r| && c != p && c != u ensures FitsAround(g, r, c, p, u) {
      if p == t {
        UpStepPast(g, o, s, c);
      } else {
        UpStepAt(g, o, s, t, c);
      }
    }
  }

  /** Having moved up past a vertex it beats, s beats what is below it now. */
  lemma UpStepKids(g: Graph, o: seq<nat>, s: nat, t: nat)
    requires 0 < s < |o| && s != t && Around(g, o, s, t) && !Fits(g, o, s, Parent(s))
    ensures KidsFit(g, Exchange(o, s, Parent(s)), Parent(s), if Parent(s) == t then s else t)
  {
    var r, p, u := Exchange(o, s, Parent(s)), Parent(s), if Parent(s) == t then s else t;
    forall c: nat | c < |r| && c != p && c != u && (Parent(c) == p || (Parent(c) == u && Parent(u) == p))
      ensures Fits(g, r, c, p)
    {
      if c != s {
        assert FitsAround(g, o, c, s, t);
        assert Fits(g, o, c, p);
      }
    }
  }

  lemma DownStepAt(g: Graph, o: seq<nat>, s: nat, t: nat, b: nat, c: nat)
    requires s < b < |o| && Parent(b) == s && s != t && Around(g, o, s, t)
    requires c < |o| && c != b && (c != if b == t then s else t)
    requires Parent(c) == s ==> Fits(g, o, c, b)
    requires Parent(t) == s ==> Fits(g, o, t, b)
    ensures FitsAround(g, Exchange(o, s, b), c, b, if b == t then s else t)
  {
    hide Better;
    if c != s {
      assert FitsAround(g, o, c, s, t);
    } else {
      assert FitsAround(g, o, b, s, t);
    }
    if t < |o| && Parent(c) == t && Parent(t) == s {
      FitsTrans(g, o, c, t, b);
    }
  }

  /** Moving s down to its best child keeps the rest as it was. */
  lemma DownStep(g: Graph, o: seq<nat>, s: nat, t: nat, b: nat)
    requires s < b < |o| && Parent(b) == s && s != t && Around(g, o, s, t)
    requires forall c: nat :: c < |o| && Parent(c) == s ==> Fits(g, o, c, b)
    ensures Around(g, Exchange(o, s, b), b, if b == t then s else t)
  {
    hide FitsAround;
    var r, u := Exchange(o, s, b), if b == t then s else t;
    forall c: nat | c < |r| && c != b && c != u ensures FitsAround(g, r, c, b, u) {
      DownStepAt(g, o, s, t, b, c);
    }
  }

  /** When s fits between what is above and below it, everything but t fits under its parent. */
  lemma SettledAround(g: Graph, o: seq<nat>, s: nat, t: nat)
    requires s < |o| && s != t && Around(g, o, s, t) && Fits(g, o, s, Parent(s)) && KidsFit(g, o, s, t)
    ensures forall c: nat :: c < |o| && c != t ==> Fits(g, o, c, Parent(c))
    ensures !Stuck(g, o, s, t) ==> Around(g, o, |o|, t)
  {
    forall c: nat | c < |o| && c != t ensures Fits(g, o, c, Parent(c)) {
      if c != s {
        assert FitsAround(g, o, c, s, t);
      }
    }
    if !Stuck(g, o, s, t) {
      forall c: nat | c < |o| && c != t ensures FitsAround(g, o, c, |o|, t) {
        if c != s {
          assert FitsAround(g, o, c, s, t);
        }
      }
    }
  }

  /** The same, read backwards: any slot may be left out. */
  lemma LeaveOut(g: Graph, o: seq<nat>, s: nat, t: nat)
    requires s < |o| && s != t && Around(g, o, |o|, t)
    ensures Around(g, o, s, t)
  {
    forall c: nat | c < |o| && c != s && c != t ensures FitsAround(g, o, c, s, t) {
      assert FitsAround(g, o, c, |o|, t) && FitsAround(g, o, s, |o|, t);
      if Parent(c) == s || (Parent(c) == t && Parent(t) == s) {
        FitsTrans(g, o, c, s, Parent(s));
        if Parent(s) == t {
          FitsTrans(g, o, c, s, Parent(t));
        }
      }
    }
  }

  // ---------- Sifting around t ----------

  /** Slot s lies below slot t, fits under t, and beats what is above t. */
  predicate Blocked(g: Graph, o: seq<nat>, s: nat, t: nat) {
    Below(s, t) && Fits(g, o, s, t) && !Fits(g, o, s, Parent(t))
  }

  lemma {:induction false} BelowIsLater(c: nat, t: int)
    requires Below(c, t)
    ensures t < c
  {
    if Parent(c) != t {
      BelowIsLater(Parent(c), t);
    }
  }

  /** Between s and t everything fits under what is above t. */
  lemma {:induction false} BetweenFits(g: Graph, o: seq<nat>, s: nat, t: nat, c: nat)
    requires c < s && s < |o| && Around(g, o, s, t) && Below(c, t)
    ensures Fits(g, o, c, Parent(t))
  {
    BelowIsLater(c, t);
    assert FitsAround(g, o, c, s, t);
    if Parent(c) != t {
      BetweenFits(g, o, s, t, Parent(c));
      FitsTrans(g, o, c, Parent(c), Parent(t));
    }
  }

  /** One level up, the vertex is blocked exactly if it was before. */
  lemma BlockedStep(g: Graph, o: seq<nat>, s: nat, t: nat)
    requires 0 < s < |o| && s != t && !Fits(g, o, s, Parent(s))
    ensures Blocked(g, o, s, t) <==>
      Blocked(g, Exchange(o, s, Parent(s)), Parent(s), if Parent(s) == t then s else t)
  {
    var p := Parent(s);
    if p == t {
      if Below(p, s) {
        BelowIsLater(p, s);
      }
    } else if Below(p, t) {
      BelowIsLater(p, t);
    }
  }

  /** Where the vertex stops, it was blocked exactly if it is stuck under t. */
  lemma BlockedStop(g: Graph, o: seq<nat>, s: nat, t: nat)
    requires s < |o| && s != t && Around(g, o, s, t) && Fits(g, o, s, Parent(s))
    ensures Blocked(g, o, s, t) <==> Stuck(g, o, s, t)
  {
    if Below(s, t) && Parent(s) != t {
      BetweenFits(g, o, s, t, Parent(s));
      FitsTrans(g, o, s, Parent(s), Parent(t));
    }
  }

  /** The vertex at s rises until it fits: to k, with the one from t now at u. */
  lemma {:induction false} Rise(g: Graph, h: Heap, s: nat, t: nat) returns (k: nat, u: nat)
    requires s < |h.order| && s != t && Around(g, h.order, s, t)
    ensures var up := SiftUp(g, h, s);
      && |up.order| == |h.order| && k <= s && k != u
      && (if t < |h.order| then u < |h.order| && up.order[u] == h.order[t] else u == t)
      && Around(g, up.order, k, u) && Fits(g, up.order, k, Parent(k))
      && (k < s ==> KidsFit(g, up.order, k, u))
      && (k == s ==> up == h && u == t)
      && (Blocked(g, h.order, s, t) <==> Stuck(g, up.order, k, u))
    decreases s
  {
    hide Around, FitsAround, KidsFit, Better;
    if s > 0 && Better(g, h.order[s], h.order[Parent(s)]) {
      var p := Parent(s);
      var t1 := if p == t then s else t;
      UpStep(g, h.order, s, t);
      UpStepKids(g, h.order, s, t);
      BlockedStep(g, h.order, s, t);
      k, u := Rise(g, Swap(h, s, p), p, t1);
    } else {
      BlockedStop(g, h.order, s, t);
      k, u := s, t;
    }
  }

  /** A vertex that fits upwards and is not stuck sinks until everything but t fits. */
  lemma {:induction false} Sink(g: Graph, h: Heap, s: nat, t: nat) returns (u: nat)
    requires s < |h.order| && s != t && Around(g, h.order, s, t)
    requires Fits(g, h.order, s, Parent(s)) && !Stuck(g, h.order, s, t)
    ensures var down := SiftDown(g, h, s);
      && |down.order| == |h.order| && Around(g, down.order, |h.order|, u)
      && if t < |h.order| then u < |h.order| && down.order[u] == h.order[t] else u == t
    decreases |h.order| - s
  {
    hide Around, FitsAround, KidsFit, Better;
    if 2 * s + 1 < |h.order| && Better(g, h.order[BestChild(g, h.order, s)], h.order[s]) {
      var b := BestChild(g, h.order, s);
      BestChildFits(g, h.order, s);
      DownStep(g, h.order, s, t, b);
      SinkStep(g, h.order, s, t, b);
      u := Sink(g, Swap(h, s, b), b, if b == t then s else t);
    } else {
      SinkStop(g, h.order, s, t);
      SettledAround(g, h.order, s, t);
      u := t;
    }
  }

  lemma BestChildFits(g: Graph, o: seq<nat>, s: nat)
    requires 2 * s + 1 < |o|
    ensures forall c: nat :: c < |o| && Parent(c) == s ==> Fits(g, o, c, BestChild(g, o, s))
  {
  }

  lemma SinkStep(g: Graph, o: seq<nat>, s: nat, t: nat, b: nat)
    requires s < b < |o| && Parent(b) == s && Better(g, o[b], o[s]) && Fits(g, o, s, Parent(s))
    ensures var r, u := Exchange(o, s, b), if b == t then s else t;
      Fits(g, r, b, Parent(b)) && (s != t ==> !Stuck(g, r, b, u))
  {
  }

  lemma SinkStop(g: Graph, o: seq<nat>, s: nat, t: nat)
    requires s < |o| && s != t && Around(g, o, s, t)
    requires 2 * s + 1 < |o| ==> !Better(g, o[BestChild(g, o, s)], o[s])
    ensures KidsFit(g, o, s, t)
  {
    forall c: nat | c < |o| && Parent(c) == s ensures Fits(g, o, c, s) {
      BestChildFits(g, o, s);
      FitsTrans(g, o, c, BestChild(g, o, s), s);
    }
    forall c: nat | c < |o| && c != s && c != t && Parent(c) == t && Parent(t) == s ensures Fits(g, o, c, s) {
      assert FitsAround(g, o, c, s, t);
      FitsTrans(g, o, c, t, s);
    }
  }

  // ---------- The first update ----------

  /** Only t may be out of place: without it the order holds, and the vertex there is w. */
  ghost predicate Repairable(g: Graph, o: seq<nat>, w: nat, t: nat) {
    Around(g, o, |o|, t) && (t < |o| ==> o[t] == w)
  }

  /** w stands at t, everything else fits, and a vertex right under w beats the one right above. */
  ghost predicate Tangled(g: Graph, o: seq<nat>, w: nat, t: nat) {
    && t < |o| && o[t] == w && (forall c: nat :: c < |o| && c != t ==> Fits(g, o, c, Parent(c)))
    && exists k: nat :: Stuck(g, o, k, t)
  }

  lemma SiftDownStays(g: Graph, h: Heap, s: nat)
    requires s < |h.order| && forall c: nat :: c < |h.order| && Parent(c) == s ==> Fits(g, h.order, c, s)
    ensures SiftDown(g, h, s) == h
  {
    if 2 * s + 1 < |h.order| {
      assert Parent(BestChild(g, h.order, s)) == s;
    }
  }

  /** A vertex that stays where it was put, blocked there, stays for good. */
  lemma BlockedStays(g: Graph, h: Heap, s: nat, t: nat)
    requires s < |h.order| && t < |h.order| && s != t && Around(g, h.order, s, t)
    requires Fits(g, h.order, s, Parent(s)) && Stuck(g, h.order, s, t)
    ensures SiftDown(g, h, s) == h && Tangled(g, h.order, h.order[t], t)
  {
    var o := h.order;
    forall c: nat | c < |o| && Parent(c) == s ensures Fits(g, o, c, s) {
      assert FitsAround(g, o, c, s, t);
    }
    SiftDownStays(g, h, s);
    SettledAround(g, o, s, t);
  }

  /** After the vertex at s rose, what replaced it at s sinks if it must. */
  lemma RisenThenSink(g: Graph, h: Heap, k: nat, s: nat, t: nat) returns (u: nat)
    requires k < s < |h.order| && k != t && Around(g, h.order, k, t)
    requires Fits(g, h.order, k, Parent(k)) && KidsFit(g, h.order, k, t)
    ensures var o, down := h.order, SiftDown(g, h, s).order;
      && (Stuck(g, o, k, t) ==> down == o && u == t)
      && (!Stuck(g, o, k, t) ==> |down| == |o| && Around(g, down, |o|, u))
      && if t < |o| then u < |o| && down[u] == o[t] else u == t
  {
    var o := h.order;
    SettledAround(g, o, k, t);
    hide Around, KidsFit;
    if Stuck(g, o, k, t) || s == t {
      SiftDownStays(g, h, s);
      u := t;
    } else {
      LeaveOut(g, o, s, t);
      assert !Stuck(g, o, s, t) by { NotStuckAround(g, o, s, t); }
      u := Sink(g, h, s, t);
    }
  }

  lemma NotStuckAround(g: Graph, o: seq<nat>, s: nat, t: nat)
    requires s < |o| && s != t && Around(g, o, |o|, t)
    ensures !Stuck(g, o, s, t)
  {
    assert FitsAround(g, o, s, |o|, t);
  }

  /** Repairing around a slot where a vertex was put leaves at most t out of place, unless it is blocked. */
  lemma SiftBothAround(g: Graph, h: Heap, s: nat, t: nat, w: nat) returns (u: nat)
    requires s < |h.order| && s != t && Around(g, h.order, s, t) && (t < |h.order| ==> h.order[t] == w)
    ensures var o := SiftBoth(g, h, s).order;
      if Blocked(g, h.order, s, t) then Tangled(g, o, w, u) else Repairable(g, o, w, u)
  {
    hide Around, FitsAround, KidsFit, Better;
    var k;
    k, u := Rise(g, h, s, t);
    var up := SiftUp(g, h, s);
    if k == s {
      if Blocked(g, h.order, s, t) {
        StuckUnder(g, h.order, s, t);
        BlockedStays(g, h, s, t);
      } else {
        u := Sink(g, h, s, t);
      }
    } else {
      var u0 := u;
      u := RisenThenSink(g, up, k, s, u0);
      if Stuck(g, up.order, k, u0) {
        StuckUnder(g, up.order, k, u0);
        SettledAround(g, up.order, k, u0);
      }
    }
  }

  lemma StuckUnder(g: Graph, o: seq<nat>, k: nat, t: nat)
    requires Stuck(g, o, k, t)
    ensures t < k < |o|
  {
  }

  /** The same where a vertex was put at the end: it can only rise. */
  lemma SiftUpAround(g: Graph, h: Heap, t: nat, w: nat) returns (u: nat)
    requires h.order != [] && |h.order| - 1 != t
    requires Around(g, h.order, |h.order| - 1, t) && (t < |h.order| ==> h.order[t] == w)
    ensures var o := SiftUp(g, h, |h.order| - 1).order;
      if Blocked(g, h.order, |h.order| - 1, t) then Tangled(g, o, w, u) else Repairable(g, o, w, u)
  {
    hide Around, FitsAround, Better;
    var k;
    k, u := Rise(g, h, |h.order| - 1, t);
    var o := SiftUp(g, h, |h.order| - 1).order;
    if Stuck(g, o, k, u) {
      StuckUnder(g, o, k, u);
    }
    SettledAround(g, o, k, u);
  }

  // ---------- The second update ----------

  /** A misplaced vertex alone is repaired. */
  lemma RepairableIsRepaired(g: Graph, h: Heap, w: nat, t: nat)
    requires Mutual(h) && w < |h.active| && Repairable(g, h.order, w, t) && OutAt(g, w) > 0
    ensures Ordered(g, Update(g, h, w))
  {
    var o := h.order;
    if t < |o| {
      forall j | 0 < j < |o| && j != t && (j - 1) / 2 != t ensures OkAt(g, o, j) {
        assert FitsAround(g, o, j, |o|, t);
      }
      forall c | 0 < c < |o| && (c - 1) / 2 == t ensures t > 0 ==> !Better(g, o[c], o[(t - 1) / 2]) {
        assert FitsAround(g, o, c, |o|, t);
      }
      RefreshRepairs(g, h, w);
    } else {
      RepairableIsOrdered(g, h, w, t);
      UpdateRestoresOrder(g, g, h, w);
    }
  }

  lemma RepairableIsOrdered(g: Graph, h: Heap, w: nat, t: nat)
    requires |h.order| <= t && Repairable(g, h.order, w, t)
    ensures Ordered(g, h)
  {
    forall j | 0 <= j < |h.order| ensures OkAt(g, h.order, j) {
      assert FitsAround(g, h.order, j, |h.order|, t);
    }
  }

  /** A vertex that rises from t leaves everything below t alone and need not sink afterwards. */
  lemma {:induction false} RisePast(g: Graph, h: Heap, t: nat)
    requires Mutual(h) && t < |h.order|
    requires forall c: nat :: c < |h.order| && c != t && Parent(c) <= t ==> Fits(g, h.order, c, Parent(c))
    ensures var up := SiftUp(g, h, t);
      && Mutual(up) && |up.order| == |h.order|
      && (forall j :: t < j < |h.order| ==> up.order[j] == h.order[j])
      && 0 <= PosOf(up, h.order[t]) < |up.order| && SiftDown(g, up, PosOf(up, h.order[t])) == up
      && (!Fits(g, h.order, t, Parent(t)) ==> up.order[t] == h.order[Parent(t)])
    decreases t
  {
    SiftUpMutual(g, h, t);
    if Fits(g, h.order, t, Parent(t)) {
      SiftDownStays(g, h, t);
    } else {
      SwapMutual(h, t, Parent(t));
      RisePastStep(g, h.order, t);
      RisePast(g, Swap(h, t, Parent(t)), Parent(t));
    }
  }

  lemma RisePastStep(g: Graph, o: seq<nat>, t: nat)
    requires 0 < t < |o| && !Fits(g, o, t, Parent(t))
    requires forall c: nat :: c < |o| && c != t && Parent(c) <= t ==> Fits(g, o, c, Parent(c))
    ensures var r := Exchange(o, t, Parent(t));
      forall c: nat :: c < |r| && c != Parent(t) && Parent(c) <= Parent(t) ==> Fits(g, r, c, Parent(c))
  {
  }

  lemma StuckBeats(g: Graph, o: seq<nat>, k: nat, t: nat)
    requires Stuck(g, o, k, t) && t < |o| && Fits(g, o, k, t)
    ensures t < k && 0 <= Parent(t) < t && Better(g, o[k], o[Parent(t)]) && !Fits(g, o, t, Parent(t))
  {
  }

  /** A tangled vertex rises past its parent, which comes to stand above one that beats it. */
  lemma TangledBreaks(g: Graph, h: Heap, w: nat, t: nat)
    requires Mutual(h) && w < |h.active| && Tangled(g, h.order, w, t) && OutAt(g, w) > 0
    ensures !Ordered(g, Update(g, h, w))
  {
    var k: nat :| Stuck(g, h.order, k, t);
    assert Fits(g, h.order, k, Parent(k)) && h.pos[w] == t;
    StuckBeats(g, h.order, k, t);
    RisePast(g, h, t);
    hide SiftUp, SiftDown, Mutual, Better;
    assert !OkAt(g, SiftUp(g, h, t).order, k);
  }

  lemma SecondUpdate(g: Graph, h: Heap, w: nat, t: nat, tangled: bool)
    requires Mutual(h) && w < |h.active| && (h.active[w] <==> OutAt(g, w) > 0)
    requires if tangled then Tangled(g, h.order, w, t) else Repairable(g, h.order, w, t)
    ensures Ordered(g, Update(g, h, w)) <==> !tangled
  {
    if tangled {
      TangledBreaks(g, h, w, t);
    } else if h.active[w] {
      RepairableIsRepaired(g, h, w, t);
    } else {
      RepairableIsOrdered(g, h, w, t);
    }
  }

  // ---------- From the ordered heap to the first update ----------

  /** Between g0 and g1 only u may have become worse and only w better. */
  ghost predicate Shifted(g0: Graph, g1: Graph, u: nat, w: nat) {
    forall a: nat, b: nat :: Better(g1, a, b) && a != w && b != u ==> Better(g0, a, b)
  }

  lemma RemovalShifts(g: Graph, id: nat)
    requires Shaped(g) && Alive(g, id)
    ensures Shifted(g, RemoveArc(g, id), g.edges[id].from, g.edges[id].to)
  {
  }

  /** Ordered before, the heap is ordered around the only slots that u and w can have. */
  lemma OrderedAround(g0: Graph, g1: Graph, o: seq<nat>, s: nat, t: nat, u: nat, w: nat)
    requires OrderedSeq(g0, o) && Shifted(g0, g1, u, w) && s != t
    requires forall c: nat :: c < |o| ==> (o[c] == u ==> c == s) && (o[c] == w ==> c == t)
    ensures Around(g1, o, s, t)
  {
    hide Better;
    forall c: nat | c < |o| && c != s && c != t ensures FitsAround(g1, o, c, s, t) {
      OrderedAbove(g0, o, c, s);
      if Above(c, s) == t {
        OrderedAbove(g0, o, t, s);
        FitsTrans(g0, o, c, t, Above(t, s));
      }
    }
  }

  lemma OrderedAbove(g: Graph, o: seq<nat>, c: nat, s: nat)
    requires OrderedSeq(g, o) && c < |o|
    ensures Fits(g, o, c, Above(c, s))
  {
    assert OkAt(g, o, c);
    if Parent(c) == s {
      assert OkAt(g, o, s);
      FitsTrans(g, o, c, s, Parent(s));
    }
  }

  /** What stands at the slot left out does not matter. */
  lemma AroundOther(g: Graph, o: seq<nat>, r: seq<nat>, s: nat, t: nat)
    requires Around(g, o, s, t) && s != t
    requires forall j: nat :: j < |r| && j != s ==> j < |o| && r[j] == o[j]
    ensures Around(g, r, s, t)
  {
    forall c: nat | c < |r| && c != s && c != t ensures FitsAround(g, r, c, s, t) {
      assert FitsAround(g, o, c, s, t);
    }
  }

  /** The slot of an active vertex; a slot that no heap operation reaches for another. */
  function SlotOf(h: Heap, v: nat): (t: nat) {
    if Active(h, v) && PosOf(h, v) >= 0 then PosOf(h, v) else |h.order| + 1
  }

  /** A heap that was ordered before u became worse and w better. */
  ghost predicate OrderedBefore(g0: Graph, g1: Graph, h: Heap, u: nat, w: nat) {
    && Mutual(h) && Ordered(g0, h) && Shifted(g0, g1, u, w)
    && u < |h.active| && w < |h.active| && u != w
  }

  lemma BeforeAround(g0: Graph, g1: Graph, h: Heap, u: nat, w: nat, s: nat)
    requires OrderedBefore(g0, g1, h, u, w) && s == if Active(h, u) then SlotOf(h, u) else |h.order|
    ensures s != SlotOf(h, w) && Around(g1, h.order, s, SlotOf(h, w))
  {
    OrderedAround(g0, g1, h.order, s, SlotOf(h, w), u, w);
  }

  /** u leaves, and unless it was the last, the last vertex takes its place. */
  lemma FirstLeaves(g0: Graph, g1: Graph, h: Heap, e: Arc) returns (t: nat)
    requires OrderedBefore(g0, g1, h, e.from, e.to) && Active(h, e.from) && OutAt(g1, e.from) <= 0
    ensures var o := Update(g1, h, e.from).order;
      if Displaces(g1, h, e) then Tangled(g1, o, e.to, t) else Repairable(g1, o, e.to, t)
  {
    var u, w := e.from, e.to;
    var i, t0, d := PosOf(h, u), SlotOf(h, w), Detach(h, u);
    BeforeAround(g0, g1, h, u, w, i);
    AroundOther(g1, h.order, d.order, i, t0);
    if i < |h.order| - 1 {
      LeavesBlocked(g1, h, e);
      hide Around, Blocked, Displaces, Tangled, Repairable;
      t := SiftBothAround(g1, d, i, t0, w);
    } else {
      t := t0;
    }
  }

  lemma LeavesBlocked(g: Graph, h: Heap, e: Arc)
    requires Mutual(h) && Active(h, e.from) && OutAt(g, e.from) <= 0 && PosOf(h, e.from) < |h.order| - 1
    ensures Displaces(g, h, e) <==> Blocked(g, Detach(h, e.from).order, PosOf(h, e.from), SlotOf(h, e.to))
  {
    var i, t, o, d := PosOf(h, e.from), SlotOf(h, e.to), h.order, Detach(h, e.from).order;
    assert d[i] == o[|o| - 1];
    if Below(i, t) {
      BelowIsLater(i, t);
      assert d[t] == o[t];
    }
  }

  /** u enters at the end. */
  lemma FirstEnters(g0: Graph, g1: Graph, h: Heap, e: Arc) returns (t: nat)
    requires OrderedBefore(g0, g1, h, e.from, e.to) && !Active(h, e.from) && OutAt(g1, e.from) > 0
    ensures var o := Update(g1, h, e.from).order;
      if Displaces(g1, h, e) then Tangled(g1, o, e.to, t) else Repairable(g1, o, e.to, t)
  {
    var u, w := e.from, e.to;
    var t0, a := SlotOf(h, w), Append(h, u);
    BeforeAround(g0, g1, h, u, w, |h.order|);
    AroundOther(g1, h.order, a.order, |h.order|, t0);
    EntersBlocked(g1, h, e);
    hide Around, Blocked, Displaces, Tangled, Repairable;
    t := SiftUpAround(g1, a, t0, w);
  }

  lemma EntersBlocked(g: Graph, h: Heap, e: Arc)
    requires Mutual(h) && !Active(h, e.from) && OutAt(g, e.from) > 0
    ensures Displaces(g, h, e) <==> Blocked(g, Append(h, e.from).order, |h.order|, SlotOf(h, e.to))
  {
    if Below(|h.order|, SlotOf(h, e.to)) {
      BelowIsLater(|h.order|, SlotOf(h, e.to));
    }
  }

  /** u stays and can only sink. */
  lemma FirstStays(g0: Graph, g1: Graph, h: Heap, u: nat, w: nat) returns (t: nat)
    requires OrderedBefore(g0, g1, h, u, w) && Active(h, u) && OutAt(g1, u) > 0
    ensures Repairable(g1, Update(g1, h, u).order, w, t)
  {
    var s, t0, o := PosOf(h, u), SlotOf(h, w), h.order;
    BeforeAround(g0, g1, h, u, w, s);
    OrderedAbove(g0, o, s, t0);
    OrderedAbove(g0, o, s, |o| + 2);
    assert SiftUp(g1, h, s) == h;
    t := Sink(g1, h, s, t0);
  }

  /** u was not in the heap and stays out. */
  lemma FirstAbsent(g0: Graph, g1: Graph, h: Heap, u: nat, w: nat) returns (t: nat)
    requires OrderedBefore(g0, g1, h, u, w) && !Active(h, u) && OutAt(g1, u) <= 0
    ensures Repairable(g1, Update(g1, h, u).order, w, t)
  {
    t := SlotOf(h, w);
    BeforeAround(g0, g1, h, u, w, |h.order|);
  }

  lemma FirstUpdate(g0: Graph, g1: Graph, h: Heap, e: Arc) returns (t: nat)
    requires OrderedBefore(g0, g1, h, e.from, e.to)
    ensures var o := Update(g1, h, e.from).order;
      if Displaces(g1, h, e) then Tangled(g1, o, e.to, t) else Repairable(g1, o, e.to, t)
  {
    hide OrderedBefore, Tangled, Repairable, Update;
    if Active(h, e.from) {
      if OutAt(g1, e.from) <= 0 {
        t := FirstLeaves(g0, g1, h, e);
      } else {
        t := FirstStays(g0, g1, h, e.from, e.to);
      }
    } else if OutAt(g1, e.from) > 0 {
      t := FirstEnters(g0, g1, h, e);
    } else {
      t := FirstAbsent(g0, g1, h, e.from, e.to);
    }
  }

  // ---------- The theorem ----------

  lemma OutAfterRemove(g: Graph, id: nat)
    requires Shaped(g) && Alive(g, id)
    ensures forall v: nat :: v != g.edges[id].from ==> OutAt(RemoveArc(g, id), v) == OutAt(g, v)
    ensures g.edges[id].from < g.n && g.edges[id].to < g.n
  {
  }

  /** An arc from a vertex to itself changes one rank: the order is kept. */
  lemma LoopKeepsOrder(g: Graph, h: Heap, id: nat)
    requires Shaped(g) && Alive(g, id) && g.edges[id].from == g.edges[id].to
    requires Ordered(g, h) && TracksBut(g, h, g.edges[id].from)
    ensures var next, e := RemoveArc(g, id), g.edges[id];
      Ordered(next, StepHeap(next, h, e)) && !Displaces(next, h, e)
  {
    var next, u := RemoveArc(g, id), g.edges[id].from;
    UpdateRestoresOrder(g, next, h, u);
    UpdateRestoresOrder(next, next, Update(next, h, u), u);
    var t := PosOf(h, u);
    if t >= 0 && Below(t, t) {
      BelowIsLater(t, t);
    }
  }

  /** One arc taken from an ordered heap that holds every vertex with outgoing arcs but perhaps the one the arc
      leaves: after both updates the heap is ordered unless a vertex is displaced. */
  lemma StepKeepsOrderExactlyWhen(g: Graph, h: Heap, id: nat)
    requires Shaped(g) && Alive(g, id) && Ordered(g, h) && TracksBut(g, h, g.edges[id].from)
    ensures var next, e := RemoveArc(g, id), g.edges[id];
      Ordered(next, StepHeap(next, h, e)) <==> !Displaces(next, h, e)
  {
    var next, e := RemoveArc(g, id), g.edges[id];
    if e.from == e.to {
      LoopKeepsOrder(g, h, id);
    } else {
      OutAfterRemove(g, id);
      RemovalShifts(g, id);
      var t := FirstUpdate(g, next, h, e);
      UpdateMutual(next, h, e.from);
      hide Displaces, Around, Tangled, Repairable;
      SecondUpdate(next, Update(next, h, e.from), e.to, t, Displaces(next, h, e));
    }
  }

  // ---------- A fragment, a run ----------

  /** The heap is ordered before the first and after each of the arcs. */
  ghost predicate OrderedThroughout(g: Graph, h: Heap, edges: seq<Arc>)
    decreases edges
  {
    Ordered(g, h) &&
    (edges != [] ==>
      var next := RemoveArc(g, edges[0].id);
      OrderedThroughout(next, StepHeap(next, h, edges[0]), edges[1..]))
  }

  /** None of the arcs displaces a vertex. */
  predicate Undisturbed(g: Graph, h: Heap, edges: seq<Arc>)
    decreases edges
  {
    edges == [] ||
      var next := RemoveArc(g, edges[0].id);
      !Displaces(next, h, edges[0]) && Undisturbed(next, StepHeap(next, h, edges[0]), edges[1..])
  }

  /** While a fragment grows on an ordered heap, the order holds throughout exactly if no arc displaces a vertex. */
  lemma {:induction false} GrowKeepsOrderExactlyWhen(g: Graph, h: Heap, current: nat, budget: nat, window: int)
    requires Consistent(g) && current < g.n && Ordered(g, h) && TracksBut(g, h, current)
    ensures var edges := Grow(g, current, budget, window).edges;
      && (OrderedThroughout(g, h, edges) <==> Undisturbed(g, h, edges))
      && (OrderedThroughout(g, h, edges) ==>
        Ordered(Grow(g, current, budget, window).g, HeapAfter(g, h, edges)))
    decreases budget
  {
    hide SelectNext, RemoveArc, StepHeap, Displaces, Ordered, TracksBut, Tracks;
    if budget > 0 && OutList(g, current) != [] {
      var id, next := GrowStep(g, current, budget, window);
      StepKeepsOrderExactlyWhen(g, h, id);
      StepTracks(g, h, id);
      var heap, to := StepHeap(next, h, g.edges[id]), g.edges[id].to;
      var rest := Grow(next, to, budget - 1, window).edges;
      assert g.edges[id].id == id && ([g.edges[id]] + rest)[1..] == rest;
      if Ordered(next, heap) {
        TracksIsTracksBut(next, heap, to);
        GrowKeepsOrderExactlyWhen(next, heap, to, budget - 1, window);
      }
    }
  }

  /** No vertex with outgoing arcs is preferred to v. */
  ghost predicate BestStart(g: Graph, v: nat) {
    forall u :: 0 <= u < g.n && OutAt(g, u) > 0 ==> !Better(g, u, v)
  }

  lemma PopOrdered(g: Graph, h: Heap)
    requires Tracks(g, h) && Ordered(g, h) && Pop(g, h).best >= 0
    ensures var p := Pop(g, h);
      Ordered(g, p.heap) && p.best < g.n && TracksBut(g, p.heap, p.best) && BestStart(g, p.best)
  {
    PopTracked(g, h);
    forall u | 0 <= u < g.n && OutAt(g, u) > 0
      ensures !Better(g, u, Pop(g, h).best) && Ordered(g, Pop(g, h).heap)
    {
      PopIsBest(g, h, u);
    }
  }

  /** v leads every vertex that arcs still leave. */
  ghost predicate LeadsAll(g: Graph, v: nat) {
    && |g.edges| == |g.alive|
    && forall u: nat :: u < g.n && Trails.OutDeg(Left(g), u) > 0 ==> Leads(Left(g), v, u)
  }

  lemma BestStartLeads(g: Graph, v: nat)
    requires Consistent(g) && BestStart(g, v) && v < g.n
    ensures LeadsAll(g, v)
  {
    forall u: nat | u < g.n && Trails.OutDeg(Left(g), u) > 0 ensures Leads(Left(g), v, u) {
      assert DegreesOk(g, u);
      BetterMeansLeads(g, u, v);
    }
  }

  /** While surplus is left, a best vertex has some. */
  lemma BestStartHasSurplus(g: Graph, v: nat, u: nat)
    requires Consistent(g) && BestStart(g, v) && v < g.n && u < g.n && Trails.Balance(Left(g), u) > 0
    ensures Trails.Balance(Left(g), v) > 0
  {
    assert DegreesOk(g, u) && DegreesOk(g, v);
    assert OutAt(g, u) > 0 && !Better(g, u, v);
  }

  predicate QuietRound(round: Round) { Undisturbed(round.g, round.heap, round.edges) }

  ghost predicate AllQuiet(rounds: seq<Round>) {
    forall j :: 0 <= j < |rounds| ==> QuietRound(rounds[j])
  }

  lemma QuietCons(round: Round, rest: seq<Round>, i: nat)
    requires 0 < i <= |rest| + 1 && AllQuiet(([round] + rest)[..i])
    ensures QuietRound(round) && AllQuiet(rest[..i - 1])
  {
    hide QuietRound;
    var all, tail := ([round] + rest)[..i], rest[..i - 1];
    assert all[0] == round;
    forall j | 0 <= j < |tail| ensures QuietRound(tail[j]) {
      assert tail[j] == all[j + 1];
    }
  }

  /** One round from an ordered heap: it starts from a best vertex, and keeps the order if it is undisturbed. */
  lemma OrderedRound(g: Graph, h: Heap, cancelled: nat -> bool, k: nat, maxLegs: nat, window: int)
    returns (round: Round, next: Graph, heap: Heap)
    requires Consistent(g) && Tracks(g, h) && maxLegs > 0 && Ordered(g, h)
    requires Rounds(g, h, cancelled, k, maxLegs, window) != []
    ensures Consistent(next) && Tracks(next, heap)
    ensures BestStart(g, round.start) && round.g == g && round.start < g.n
    ensures Rounds(g, h, cancelled, k, maxLegs, window) ==
      [round] + Rounds(next, heap, cancelled, k + 1, maxLegs, window)
    ensures QuietRound(round) ==> Ordered(next, heap)
  {
    hide Consistent, TracksBut, Ordered, Pop, Grow, HeapAfter, Undisturbed, BestStart;
    round, next, heap := RoundsStep(g, h, cancelled, k, maxLegs, window);
    PopOrdered(g, h);
    GrowKeepsOrderExactlyWhen(g, round.heap, round.start, maxLegs, window);
  }

  /** Until the first arc that displaces a vertex, every fragment starts from a best vertex. */
  lemma {:induction false} RoundsStartBest(g: Graph, h: Heap, cancelled: nat -> bool, k: nat, maxLegs: nat, window: int,
                                           i: nat)
    requires Consistent(g) && Tracks(g, h) && maxLegs > 0 && Ordered(g, h)
    requires var rounds := Rounds(g, h, cancelled, k, maxLegs, window);
      i < |rounds| && AllQuiet(rounds[..i])
    ensures var round := Rounds(g, h, cancelled, k, maxLegs, window)[i];
      Consistent(round.g) && round.start < round.g.n && BestStart(round.g, round.start)
    decreases i
  {
    hide *;
    var round, next, heap := OrderedRound(g, h, cancelled, k, maxLegs, window);
    if i > 0 {
      var rest := Rounds(next, heap, cancelled, k + 1, maxLegs, window);
      QuietCons(round, rest, i);
      RoundsStartBest(next, heap, cancelled, k + 1, maxLegs, window, i - 1);
    }
  }

  /** In any run, a fragment starts from a best vertex if no arc before it displaced one. */
  lemma UndisturbedRunStartsBest(n: nat, required: seq<Arc>, cancelled: nat -> bool, maxLegs: nat, window: int, i: nat)
    requires InRange(n, required) && IdsAreIndexes(required) && maxLegs > 0
    requires var rounds := Run(n, required, cancelled, maxLegs, window);
      i < |rounds| && AllQuiet(rounds[..i])
    ensures var round := Run(n, required, cancelled, maxLegs, window)[i];
      Consistent(round.g) && round.start < round.g.n && LeadsAll(round.g, round.start)
  {
    hide Rounds, AllQuiet, BestStart, LeadsAll, Consistent, Tracks;
    var g := InitialGraph(n, required);
    InitialConsistent(n, required);
    NewHeapTracks(g);
    NewHeapOrdered(g, n);
    RoundsStartBest(g, NewHeap(g, n), cancelled, 0, maxLegs, window, i);
    var round := Run(n, required, cancelled, maxLegs, window)[i];
    BestStartLeads(round.g, round.start);
  }
}
