/**
 * Weakly connected components (WeakComponents in internal/arccover/trail.go).
 *
 * `Labels` is the reference: start with every vertex alone and, arc by arc, rename the larger of the
 * two labels to the smaller one.  The union-find with path halving of the source is proved to compute
 * the same labels, and the labels are proved to be exactly undirected connectivity.
 */
module Components {
  import opened ArcTypes

  // ---------- Undirected paths ----------

  ghost predicate Joins(e: Arc, u: nat, v: nat) {
    (e.from == u && e.to == v) || (e.from == v && e.to == u)
  }

  ghost predicate Adjacent(arcs: seq<Arc>, u: nat, v: nat) {
    exists i :: 0 <= i < |arcs| && Joins(arcs[i], u, v)
  }

  ghost predicate IsPath(arcs: seq<Arc>, p: seq<nat>) {
    p != [] && forall i :: 0 <= i < |p| - 1 ==> Adjacent(arcs, p[i], p[i + 1])
  }

  /** Some undirected path of arcs leads from u to v. */
  ghost predicate Connected(arcs: seq<Arc>, u: nat, v: nat) {
    exists p :: IsPath(arcs, p) && p[0] == u && p[|p| - 1] == v
  }

  lemma ConnectedRefl(arcs: seq<Arc>, u: nat)
    ensures Connected(arcs, u, u)
  {
    assert IsPath(arcs, [u]);
  }

  lemma ConnectedByArc(arcs: seq<Arc>, i: nat)
    requires i < |arcs|
    ensures Connected(arcs, arcs[i].from, arcs[i].to)
    ensures Connected(arcs, arcs[i].to, arcs[i].from)
  {
    assert Joins(arcs[i], arcs[i].from, arcs[i].to);
    assert Joins(arcs[i], arcs[i].to, arcs[i].from);
    assert IsPath(arcs, [arcs[i].from, arcs[i].to]);
    assert IsPath(arcs, [arcs[i].to, arcs[i].from]);
  }

  lemma ConnectedTrans(arcs: seq<Arc>, u: nat, v: nat, w: nat)
    requires Connected(arcs, u, v) && Connected(arcs, v, w)
    ensures Connected(arcs, u, w)
  {
    var p :| IsPath(arcs, p) && p[0] == u && p[|p| - 1] == v;
    var q :| IsPath(arcs, q) && q[0] == v && q[|q| - 1] == w;
    var r := p + q[1..];
    forall i | 0 <= i < |r| - 1 ensures Adjacent(arcs, r[i], r[i + 1]) {
      if i >= |p| - 1 {
        assert r[i] == q[i - (|p| - 1)] && r[i + 1] == q[i + 1 - (|p| - 1)];
      }
    }
    assert IsPath(arcs, r) && r[0] == u && r[|r| - 1] == w;
  }

  lemma ConnectedSym(arcs: seq<Arc>, u: nat, v: nat)
    requires Connected(arcs, u, v)
    ensures Connected(arcs, v, u)
  {
    var p :| IsPath(arcs, p) && p[0] == u && p[|p| - 1] == v;
    var r := seq(|p|, i requires 0 <= i < |p| => p[|p| - 1 - i]);
    forall i | 0 <= i < |r| - 1 ensures Adjacent(arcs, r[i], r[i + 1]) {
      var j := |p| - 2 - i;
      assert Adjacent(arcs, p[j], p[j + 1]);
      var k :| 0 <= k < |arcs| && Joins(arcs[k], p[j], p[j + 1]);
      assert Joins(arcs[k], r[i], r[i + 1]);
    }
    assert IsPath(arcs, r) && r[0] == v && r[|r| - 1] == u;
  }

  lemma ConnectedMonotone(arcs: seq<Arc>, e: Arc, u: nat, v: nat)
    requires Connected(arcs, u, v)
    ensures Connected(arcs + [e], u, v)
  {
    var p :| IsPath(arcs, p) && p[0] == u && p[|p| - 1] == v;
    forall i | 0 <= i < |p| - 1 ensures Adjacent(arcs + [e], p[i], p[i + 1]) {
      var k :| 0 <= k < |arcs| && Joins(arcs[k], p[i], p[i + 1]);
      assert Joins((arcs + [e])[k], p[i], p[i + 1]);
    }
    assert IsPath(arcs + [e], p);
  }

  // ---------- Reference labels ----------

  function Merge(labels: seq<nat>, a: nat, b: nat): (r: seq<nat>) {
    seq(|labels|, v requires 0 <= v < |labels| =>
      if labels[v] == a || labels[v] == b then (if a < b then a else b) else labels[v])
  }

  /** The component label of every vertex after all `arcs` were taken in. */
  function Labels(n: nat, arcs: seq<Arc>): (r: seq<nat>)
    requires InRange(n, arcs)
    ensures |r| == n
  {
    if arcs == [] then seq(n, v => v)
    else
      var init := arcs[..|arcs| - 1];
      var e := arcs[|arcs| - 1];
      var l := Labels(n, init);
      Merge(l, l[e.from], l[e.to])
  }

  /** A label is a vertex not above its own, and it labels itself. */
  lemma {:induction false} LabelsRoots(n: nat, arcs: seq<Arc>)
    requires InRange(n, arcs)
    ensures forall v :: 0 <= v < n ==>
      Labels(n, arcs)[v] <= v && Labels(n, arcs)[Labels(n, arcs)[v]] == Labels(n, arcs)[v]
  {
    if arcs != [] {
      var init, e := arcs[..|arcs| - 1], arcs[|arcs| - 1];
      LabelsRoots(n, init);
      var l, r := Labels(n, init), Labels(n, arcs);
      assert l[l[e.from]] == l[e.from] && l[l[e.to]] == l[e.to];
      forall v | 0 <= v < n ensures r[v] <= v && r[r[v]] == r[v] {
        assert l[l[v]] == l[v];
      }
    }
  }

  lemma {:induction false} LabelsJoinArcs(n: nat, arcs: seq<Arc>, i: nat)
    requires InRange(n, arcs) && i < |arcs|
    ensures Labels(n, arcs)[arcs[i].from] == Labels(n, arcs)[arcs[i].to]
  {
    if i < |arcs| - 1 {
      LabelsJoinArcs(n, arcs[..|arcs| - 1], i);
    }
  }

  lemma {:induction false} LabelConnects(n: nat, arcs: seq<Arc>, v: nat)
    requires InRange(n, arcs) && v < n
    ensures Labels(n, arcs)[v] < n && Connected(arcs, v, Labels(n, arcs)[v])
  {
    LabelsRoots(n, arcs);
    if arcs == [] {
      ConnectedRefl(arcs, v);
    } else {
      var init, e := arcs[..|arcs| - 1], arcs[|arcs| - 1];
      assert arcs == init + [e];
      var l := Labels(n, init);
      LabelConnects(n, init, v);
      ConnectedMonotone(init, e, v, l[v]);
      var m := Labels(n, arcs)[v];
      if m != l[v] {
        LabelConnects(n, init, e.from);
        LabelConnects(n, init, e.to);
        ConnectedMonotone(init, e, e.from, l[e.from]);
        ConnectedMonotone(init, e, e.to, l[e.to]);
        ConnectedByArc(arcs, |arcs| - 1);
        var near, far := if m == l[e.to] then e.from else e.to, if m == l[e.to] then e.to else e.from;
        assert l[v] == l[near] && m == l[far];
        ConnectedSym(arcs, near, l[near]);
        ConnectedTrans(arcs, v, l[v], near);
        ConnectedTrans(arcs, v, near, far);
        ConnectedTrans(arcs, v, far, m);
      }
    }
  }

  lemma {:induction false} PathKeepsLabel(n: nat, arcs: seq<Arc>, p: seq<nat>)
    requires InRange(n, arcs) && IsPath(arcs, p) && p[0] < n
    ensures p[|p| - 1] < n && Labels(n, arcs)[p[|p| - 1]] == Labels(n, arcs)[p[0]]
  {
    if |p| > 1 {
      var q := p[..|p| - 1];
      PathKeepsLabel(n, arcs, q);
      assert Adjacent(arcs, p[|p| - 2], p[|p| - 2 + 1]);
      var k :| 0 <= k < |arcs| && Joins(arcs[k], p[|p| - 2], p[|p| - 1]);
      LabelsJoinArcs(n, arcs, k);
    }
  }

  /** Equal labels mean exactly: some undirected path of arcs joins the two vertices. */
  lemma LabelsAreConnectivity(n: nat, arcs: seq<Arc>, u: nat, v: nat)
    requires InRange(n, arcs) && u < n && v < n
    ensures Labels(n, arcs)[u] == Labels(n, arcs)[v] <==> Connected(arcs, u, v)
  {
    var l := Labels(n, arcs);
    if l[u] == l[v] {
      LabelConnects(n, arcs, u);
      LabelConnects(n, arcs, v);
      ConnectedSym(arcs, v, l[v]);
      ConnectedTrans(arcs, u, l[u], v);
    }
    if Connected(arcs, u, v) {
      var p :| IsPath(arcs, p) && p[0] == u && p[|p| - 1] == v;
      PathKeepsLabel(n, arcs, p);
    }
  }

  /** The label is the least vertex of the component. */
  lemma LabelIsLeast(n: nat, arcs: seq<Arc>, u: nat, v: nat)
    requires InRange(n, arcs) && u < n && v < n && Connected(arcs, u, v)
    ensures Labels(n, arcs)[u] <= v
    ensures Connected(arcs, u, Labels(n, arcs)[u])
  {
    LabelsAreConnectivity(n, arcs, u, v);
    LabelsRoots(n, arcs);
    assert Labels(n, arcs)[v] <= v;
    LabelConnects(n, arcs, u);
  }

  // ---------- Union-find ----------

  /** Parents never exceed their child, so following them ends. */
  predicate Forest(parent: seq<nat>) {
    forall x :: 0 <= x < |parent| ==> parent[x] <= x
  }

  function Root(parent: seq<nat>, x: nat): (r: nat)
    requires Forest(parent) && x < |parent|
    ensures r <= x && parent[r] == r
    decreases x
  {
    if parent[x] == x then x else Root(parent, parent[x])
  }

  /** Path halving moves one parent link to the grandparent and changes no root. */
  lemma {:induction false} HalvingKeepsRoots(parent: seq<nat>, x: nat, y: nat)
    requires Forest(parent) && x < |parent| && y < |parent|
    ensures var p' := parent[x := parent[parent[x]]];
      Forest(p') && Root(p', y) == Root(parent, y)
    decreases y
  {
    var p' := parent[x := parent[parent[x]]];
    assert Forest(p');
    if parent[y] != y {
      HalvingKeepsRoots(parent, x, parent[y]);
      if y == x && parent[parent[y]] != parent[y] {
        HalvingKeepsRoots(parent, x, parent[parent[y]]);
      }
    }
  }

  /** Hanging root b under the smaller root a renames exactly the class of b. */
  lemma {:induction false} LinkRenames(parent: seq<nat>, a: nat, b: nat, y: nat)
    requires Forest(parent) && a < b < |parent| && parent[a] == a && parent[b] == b && y < |parent|
    ensures var p' := parent[b := a];
      Forest(p') && Root(p', y) == if Root(parent, y) == b then a else Root(parent, y)
    decreases y
  {
    var p' := parent[b := a];
    assert Forest(p');
    if parent[y] != y {
      LinkRenames(parent, a, b, parent[y]);
    }
  }

  ghost predicate SameRoots(p: seq<nat>, q: seq<nat>) {
    && |p| == |q| && Forest(p) && Forest(q)
    && forall y :: 0 <= y < |p| ==> Root(p, y) == Root(q, y)
  }

  method Find(parent: array<nat>, x0: nat) returns (x: nat)
    requires Forest(parent[..]) && x0 < parent.Length
    modifies parent
    ensures SameRoots(parent[..], old(parent[..]))
    ensures x == Root(old(parent[..]), x0)
  {
    x := x0;
    while parent[x] != x
      invariant x < parent.Length
      invariant SameRoots(parent[..], old(parent[..]))
      invariant Root(parent[..], x) == Root(old(parent[..]), x0)
      decreases x
    {
      ghost var before := parent[..];
      assert before[x] == parent[x];
      parent[x] := parent[parent[x]];
      assert parent[..] == before[x := before[before[x]]];
      forall y | 0 <= y < |before| ensures Forest(parent[..]) && Root(parent[..], y) == Root(before, y) {
        HalvingKeepsRoots(before, x, y);
      }
      assert Forest(parent[..]) by { HalvingKeepsRoots(before, x, x); }
      x := parent[x];
    }
  }

  method Union(parent: array<nat>, a: nat, b: nat)
    requires Forest(parent[..]) && a < parent.Length && b < parent.Length
    modifies parent
    ensures Forest(parent[..])
    ensures forall y :: 0 <= y < parent.Length ==>
      var o := old(parent[..]);
      Root(parent[..], y) ==
        if Root(o, y) == Root(o, a) || Root(o, y) == Root(o, b)
        then (if Root(o, a) < Root(o, b) then Root(o, a) else Root(o, b))
        else Root(o, y)
  {
    var ra := Find(parent, a);
    var rb := Find(parent, b);
    ghost var before := parent[..];
    assert Root(before, a) == ra && Root(before, b) == rb;
    if ra == rb { return; }
    var lo, hi := if ra < rb then ra else rb, if ra < rb then rb else ra;
    if ra < rb {
      parent[rb] := ra;
    } else {
      parent[ra] := rb;
    }
    assert parent[..] == before[hi := lo];
    assert before[lo] == lo && before[hi] == hi;
    forall y | 0 <= y < parent.Length
      ensures Forest(parent[..])
      ensures Root(parent[..], y) == if Root(before, y) == hi then lo else Root(before, y)
    {
      LinkRenames(before, lo, hi, y);
    }
    assert Forest(parent[..]) by { LinkRenames(before, lo, hi, lo); }
  }

  /** v is an endpoint of some arc. */
  ghost predicate Touched(arcs: seq<Arc>, v: nat) {
    exists i :: 0 <= i < |arcs| && (arcs[i].from == v || arcs[i].to == v)
  }

  lemma TouchedSnoc(arcs: seq<Arc>, e: Arc, v: nat)
    ensures Touched(arcs + [e], v) <==> Touched(arcs, v) || e.from == v || e.to == v
  {
    var all := arcs + [e];
    assert forall i :: 0 <= i < |arcs| ==> all[i] == arcs[i];
    if e.from == v || e.to == v {
      assert all[|arcs|].from == v || all[|arcs|].to == v;
    } else if Touched(arcs, v) {
      var i :| 0 <= i < |arcs| && (arcs[i].from == v || arcs[i].to == v);
      assert all[i].from == v || all[i].to == v;
    }
  }

  lemma LabelsSnoc(n: nat, arcs: seq<Arc>, e: Arc)
    requires InRange(n, arcs + [e])
    ensures InRange(n, arcs) && e.from < n && e.to < n
    ensures Labels(n, arcs + [e]) ==
      Merge(Labels(n, arcs), Labels(n, arcs)[e.from], Labels(n, arcs)[e.to])
  {
    assert forall i :: 0 <= i < |arcs| ==> (arcs + [e])[i] == arcs[i];
    assert (arcs + [e])[|arcs|] == e;
    assert (arcs + [e])[..|arcs|] == arcs;
  }

  /** The parents stand for the labels after the arcs, the marks for the vertices they touch. */
  ghost predicate Stands(parent: seq<nat>, touched: seq<bool>, n: nat, arcs: seq<Arc>)
    requires InRange(n, arcs)
  {
    && |parent| == |touched| == n && Forest(parent)
    && (forall v :: 0 <= v < n ==> Root(parent, v) == Labels(n, arcs)[v])
    && forall v :: 0 <= v < n ==> (touched[v] <==> Touched(arcs, v))
  }

  lemma StandsAtFirst(parent: seq<nat>, touched: seq<bool>, n: nat)
    requires |parent| == |touched| == n && forall v :: 0 <= v < n ==> parent[v] == v && !touched[v]
    ensures Stands(parent, touched, n, [])
  {
  }

  /** Take in one arc. */
  method JoinArc(parent: array<nat>, touched: array<bool>, n: nat, e: Arc, ghost arcs: seq<Arc>)
    requires parent != touched as object && InRange(n, arcs + [e]) && InRange(n, arcs)
    requires Stands(parent[..], touched[..], n, arcs)
    modifies parent, touched
    ensures Stands(parent[..], touched[..], n, arcs + [e])
  {
    hide Stands, Root;
    ghost var parent0, touched0 := parent[..], touched[..];
    assert e == (arcs + [e])[|arcs|];
    StandsFor(parent0, touched0, n, arcs);
    touched[e.from] := true;
    touched[e.to] := true;
    Union(parent, e.from, e.to);
    assert touched[..] == touched0[e.from := true][e.to := true];
    StandsNext(parent0, parent[..], touched0, n, arcs, e);
  }

  lemma StandsFor(parent: seq<nat>, touched: seq<bool>, n: nat, arcs: seq<Arc>)
    requires InRange(n, arcs) && Stands(parent, touched, n, arcs)
    ensures |parent| == |touched| == n && Forest(parent)
  {
  }

  lemma StandsNext(parent0: seq<nat>, parent: seq<nat>, touched: seq<bool>, n: nat, arcs: seq<Arc>, e: Arc)
    requires InRange(n, arcs + [e]) && InRange(n, arcs) && e.from < n && e.to < n
    requires Stands(parent0, touched, n, arcs) && |parent| == n && Forest(parent)
    requires forall y :: 0 <= y < n ==>
      Root(parent, y) ==
        if Root(parent0, y) == Root(parent0, e.from) || Root(parent0, y) == Root(parent0, e.to)
        then (if Root(parent0, e.from) < Root(parent0, e.to) then Root(parent0, e.from) else Root(parent0, e.to))
        else Root(parent0, y)
    ensures Stands(parent, touched[e.from := true][e.to := true], n, arcs + [e])
  {
    LabelsSnoc(n, arcs, e);
    hide Labels, Root, Touched;
    forall v | 0 <= v < n ensures Touched(arcs + [e], v) <==> Touched(arcs, v) || v == e.from || v == e.to {
      TouchedSnoc(arcs, e, v);
    }
  }

  /** Two touched vertices get the same label iff a path of required arcs joins them; the label is the
      least vertex of its component; untouched vertices get -1. */
  method WeakComponents(n: nat, required: seq<Arc>) returns (comp: seq<int>)
    requires InRange(n, required)
    ensures |comp| == n
    ensures forall v :: 0 <= v < n ==>
      comp[v] == if Touched(required, v) then Labels(n, required)[v] else -1
  {
    var parent := new nat[n](i => i);
    var touched := new bool[n](_ => false);
    StandsAtFirst(parent[..], touched[..], n);
    hide Stands;
    for k := 0 to |required|
      invariant InRange(n, required[..k]) && Stands(parent[..], touched[..], n, required[..k])
    {
      assert required[..k + 1] == required[..k] + [required[k]];
      JoinArc(parent, touched, n, required[k], required[..k]);
    }
    assert required[..|required|] == required;
    comp := ReadLabels(parent, touched, n, required);
  }

  /** The root of every touched vertex. */
  method ReadLabels(parent: array<nat>, touched: array<bool>, n: nat, ghost required: seq<Arc>) returns (comp: seq<int>)
    requires parent != touched as object && InRange(n, required) && Stands(parent[..], touched[..], n, required)
    modifies parent
    ensures |comp| == n
    ensures forall v :: 0 <= v < n ==>
      comp[v] == if Touched(required, v) then Labels(n, required)[v] else -1
  {
    hide Labels, Root, Touched;
    comp := [];
    for i := 0 to n
      invariant |comp| == i && Stands(parent[..], touched[..], n, required)
      invariant forall v :: 0 <= v < i ==> comp[v] == if Touched(required, v) then Labels(n, required)[v] else -1
    {
      if !touched[i] {
        comp := comp + [-1];
        continue;
      }
      var r := Find(parent, i);
      comp := comp + [r];
    }
  }
}
