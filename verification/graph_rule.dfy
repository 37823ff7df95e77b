/**
 * The mutable graph of internal/arccover/graph.go on values: which arcs are left, how an arc is removed,
 * and which successor a fragment takes.
 */
module GraphRule {
  import opened ArcTypes
  import opened Trails

  /** `out[u]` lists the ids of the arcs still leaving u. */
  datatype Graph = Graph(n: nat, edges: seq<Arc>, out: seq<seq<nat>>, alive: seq<bool>,
                         outDeg: seq<int>, inDeg: seq<int>, remaining: int)

  // ---------- What is left ----------

  /** The arcs still alive, in ascending id order. */
  function AliveArcs(edges: seq<Arc>, alive: seq<bool>): seq<Arc>
    requires |edges| == |alive|
  {
    if edges == [] then []
    else
      var rest := AliveArcs(edges[..|edges| - 1], alive[..|alive| - 1]);
      if alive[|alive| - 1] then rest + [edges[|edges| - 1]] else rest
  }

  function Left(g: Graph): seq<Arc>
    requires |g.edges| == |g.alive|
  {
    AliveArcs(g.edges, g.alive)
  }

  ghost predicate Distinct(s: seq<nat>) {
    forall i, j :: 0 <= i < j < |s| ==> s[i] != s[j]
  }

  ghost predicate Shaped(g: Graph) {
    && |g.out| == |g.outDeg| == |g.inDeg| == g.n && |g.alive| == |g.edges|
    && InRange(g.n, g.edges)
    && forall i :: 0 <= i < |g.edges| ==> g.edges[i].id == i
  }

  /** out[u] lists exactly the living arcs that leave u, each once. */
  ghost predicate OutListOk(g: Graph, u: nat)
    requires Shaped(g) && u < g.n
  {
    && Distinct(g.out[u])
    && (forall id :: id in g.out[u] ==> id < |g.edges| && g.alive[id] && g.edges[id].from == u)
    && forall id :: 0 <= id < |g.edges| && g.alive[id] && g.edges[id].from == u ==> id in g.out[u]
  }

  ghost predicate DegreesOk(g: Graph, v: nat)
    requires Shaped(g) && v < g.n
  {
    && g.outDeg[v] == |g.out[v]| == OutDeg(Left(g), v)
    && g.inDeg[v] == InDeg(Left(g), v)
  }

  /** Lists, degrees and counters all describe the arcs that are left. */
  ghost predicate Consistent(g: Graph) {
    && Shaped(g)
    && g.remaining == |Left(g)|
    && (forall u :: 0 <= u < g.n ==> OutListOk(g, u))
    && forall v :: 0 <= v < g.n ==> DegreesOk(g, v)
  }

  lemma {:induction false} LeftNone(edges: seq<Arc>, alive: seq<bool>)
    requires |edges| == |alive|
    ensures AliveArcs(edges, alive) == [] <==> forall i :: 0 <= i < |alive| ==> !alive[i]
  {
    if edges != [] {
      LeftNone(edges[..|edges| - 1], alive[..|alive| - 1]);
    }
  }

  // ---------- Removing an arc ----------

  function IndexIn(s: seq<nat>, x: nat): (i: nat)
    ensures i <= |s|
    ensures i < |s| ==> s[i] == x
    ensures x in s ==> i < |s|
  {
    if s == [] then 0 else if s[0] == x then 0 else 1 + IndexIn(s[1..], x)
  }

  function SwapRemove(s: seq<nat>, i: nat): seq<nat>
    requires i < |s|
  {
    s[i := s[|s| - 1]][..|s| - 1]
  }

  function SetAt<T>(s: seq<T>, i: int, x: T): (r: seq<T>)
    ensures |r| == |s|
  {
    if 0 <= i < |s| then s[i := x] else s
  }

  function ArcAt(g: Graph, id: nat): Arc { if id < |g.edges| then g.edges[id] else Arc(0, 0, 0) }

  function OutList(g: Graph, u: nat): seq<nat> { if u < |g.out| then g.out[u] else [] }

  function OutAt(g: Graph, v: nat): int { if v < |g.outDeg| then g.outDeg[v] else 0 }

  function InAt(g: Graph, v: nat): int { if v < |g.inDeg| then g.inDeg[v] else 0 }

  predicate Alive(g: Graph, id: nat) { id < |g.edges| && id < |g.alive| && g.alive[id] }

  function ListWithout(list: seq<nat>, id: nat): seq<nat> {
    var i := IndexIn(list, id);
    if i < |list| then SwapRemove(list, i) else list
  }

  /** Mark the arc dead, lower its degrees, and swap-remove it from its list. */
  function RemoveArc(g: Graph, id: nat): Graph {
    if !Alive(g, id) then g
    else
      var e := g.edges[id];
      g.(alive := g.alive[id := false],
         remaining := g.remaining - 1,
         outDeg := SetAt(g.outDeg, e.from, OutAt(g, e.from) - 1),
         inDeg := SetAt(g.inDeg, e.to, InAt(g, e.to) - 1),
         out := SetAt(g.out, e.from, ListWithout(OutList(g, e.from), id)))
  }

  lemma SwapRemoveKeeps(s: seq<nat>, i: nat, x: nat)
    requires i < |s| && Distinct(s)
    ensures Distinct(SwapRemove(s, i))
    ensures x in SwapRemove(s, i) <==> x in s && x != s[i]
  {
    var r := SwapRemove(s, i);
    if x in s && x != s[i] {
      var k :| 0 <= k < |s| && s[k] == x;
      assert r[if k == |s| - 1 then i else k] == x;
    }
  }

  lemma {:induction false} LeftAfterRemove(edges: seq<Arc>, alive: seq<bool>, id: nat, v: nat)
    requires |edges| == |alive| && id < |edges| && alive[id]
    ensures var before, after := AliveArcs(edges, alive), AliveArcs(edges, alive[id := false]);
      && |after| == |before| - 1
      && OutDeg(after, v) == OutDeg(before, v) - (if edges[id].from == v then 1 else 0)
      && InDeg(after, v) == InDeg(before, v) - (if edges[id].to == v then 1 else 0)
  {
    var n := |edges| - 1;
    if id == n {
      assert alive[id := false][..n] == alive[..n];
      DegSnoc(AliveArcs(edges[..n], alive[..n]), edges[n], v);
    } else {
      LeftAfterRemove(edges[..n], alive[..n], id, v);
      assert alive[id := false][..n] == alive[..n][id := false];
      DegSnoc(AliveArcs(edges[..n], alive[..n]), edges[n], v);
      DegSnoc(AliveArcs(edges[..n], alive[..n][id := false]), edges[n], v);
    }
  }

  /** Removing arc id takes one copy of it out of the bag of arcs left. */
  lemma {:induction false} LeftBagAfterRemove(edges: seq<Arc>, alive: seq<bool>, id: nat, x: Arc)
    requires |edges| == |alive| && id < |edges| && alive[id]
    ensures multiset(AliveArcs(edges, alive))[x] ==
      multiset(AliveArcs(edges, alive[id := false]))[x] + if edges[id] == x then 1 else 0
  {
    var n := |edges| - 1;
    if id == n {
      assert alive[id := false][..n] == alive[..n];
    } else {
      LeftBagAfterRemove(edges[..n], alive[..n], id, x);
      assert alive[id := false][..n] == alive[..n][id := false];
    }
  }

  lemma RemoveKeepsLists(g: Graph, id: nat, u: nat)
    requires Consistent(g) && id < |g.edges| && g.alive[id] && u < g.n
    ensures OutListOk(RemoveArc(g, id), u)
    ensures |RemoveArc(g, id).out[u]| == |g.out[u]| - if g.edges[id].from == u then 1 else 0
  {
    assert OutListOk(g, u);
    if g.edges[id].from == u {
      var list := g.out[u];
      var i := IndexIn(list, id);
      assert id in list;
      forall x ensures x in SwapRemove(list, i) <==> x in list && x != id {
        SwapRemoveKeeps(list, i, x);
      }
      SwapRemoveKeeps(list, i, 0);
    }
  }

  /** Removal keeps the whole graph consistent. */
  lemma RemoveKeepsConsistent(g: Graph, id: nat)
    requires Consistent(g) && id < |g.edges| && g.alive[id]
    ensures Consistent(RemoveArc(g, id))
    ensures RemoveArc(g, id).remaining == g.remaining - 1
  {
    var h := RemoveArc(g, id);
    forall u | 0 <= u < g.n ensures OutListOk(h, u) && DegreesOk(h, u) {
      RemoveKeepsLists(g, id, u);
      LeftAfterRemove(g.edges, g.alive, id, u);
      assert DegreesOk(g, u);
    }
    LeftAfterRemove(g.edges, g.alive, id, 0);
  }

  /** Removing the arc at place i of its list puts the last arc of the list there; no other list changes. */
  lemma RemovalSwaps(g: Graph, id: nat, i: nat)
    requires Consistent(g) && Alive(g, id) && i < |OutList(g, g.edges[id].from)|
    requires OutList(g, g.edges[id].from)[i] == id
    ensures var u := g.edges[id].from;
      var list, rest := OutList(g, u), OutList(RemoveArc(g, id), u);
      && |rest| == |list| - 1
      && forall j :: 0 <= j < |rest| ==> rest[j] == if j == i then list[|list| - 1] else list[j]
    ensures forall v: nat :: v != g.edges[id].from ==> OutList(RemoveArc(g, id), v) == OutList(g, v)
  {
    assert OutListOk(g, g.edges[id].from);
    assert id in OutList(g, g.edges[id].from);
  }

  // ---------- Choosing a successor ----------

  /** Vertex a is preferred to b: larger out minus in, then larger out, then smaller number. */
  predicate Better(g: Graph, a: nat, b: nat) {
    var balA, balB := OutAt(g, a) - InAt(g, a), OutAt(g, b) - InAt(g, b);
    if balA != balB then balA > balB
    else if OutAt(g, a) != OutAt(g, b) then OutAt(g, a) > OutAt(g, b)
    else a < b
  }

  /** The best of the first k successors of u; among equal ones the first listed. */
  function BestSuccessor(g: Graph, list: seq<nat>, k: nat): (id: nat)
    requires 0 < k <= |list|
    ensures id in list
  {
    if k == 1 then list[0]
    else
      var best := BestSuccessor(g, list, k - 1);
      if Better(g, ArcAt(g, list[k - 1]).to, ArcAt(g, best).to) then list[k - 1] else best
  }

  /** No successor in the window is preferred to the one chosen. */
  lemma {:induction false} BestSuccessorWins(g: Graph, list: seq<nat>, k: nat)
    requires 0 < k <= |list|
    ensures forall j :: 0 <= j < k ==>
      !Better(g, ArcAt(g, list[j]).to, ArcAt(g, BestSuccessor(g, list, k)).to)
  {
    if k > 1 {
      BestSuccessorWins(g, list, k - 1);
    }
  }

  function Window(w: int): (r: nat)
    ensures r > 0
  {
    if w <= 0 then 8 else w
  }

  datatype Choice = NoArc | Take(id: nat)

  function SelectNext(g: Graph, u: nat, window: int): (c: Choice)
    ensures c.Take? ==> c.id in OutList(g, u)
    ensures c.NoArc? <==> OutList(g, u) == []
  {
    var list := OutList(g, u);
    if list == [] then NoArc
    else Take(BestSuccessor(g, list, if Window(window) < |list| then Window(window) else |list|))
  }

  // ---------- What is chosen, in terms of the arcs left ----------

  /** b leaves more than it gets compared with a, or as much and has more arcs out, or that too and is not the larger
      number. */
  ghost predicate Leads(arcs: seq<Arc>, b: nat, a: nat) {
    var balB, balA := OutDeg(arcs, b) - InDeg(arcs, b), OutDeg(arcs, a) - InDeg(arcs, a);
    balB > balA || (balB == balA && (OutDeg(arcs, b) > OutDeg(arcs, a) || (OutDeg(arcs, b) == OutDeg(arcs, a) && b <= a)))
  }

  lemma BetterMeansLeads(g: Graph, a: nat, b: nat)
    requires Consistent(g) && a < g.n && b < g.n
    ensures !Better(g, a, b) <==> Leads(Left(g), b, a)
  {
    assert DegreesOk(g, a) && DegreesOk(g, b);
    hide Left, OutDeg, InDeg;
  }

  /** The choice stands at some place among the first k, and nothing before it leads to the same head. */
  lemma {:induction false} BestSuccessorPlace(g: Graph, list: seq<nat>, k: nat) returns (p: nat)
    requires 0 < k <= |list|
    ensures p < k && list[p] == BestSuccessor(g, list, k)
    ensures forall j :: 0 <= j < p ==> ArcAt(g, list[j]).to != ArcAt(g, list[p]).to
  {
    if k == 1 {
      p := 0;
    } else {
      p := BestSuccessorPlace(g, list, k - 1);
      BestSuccessorWins(g, list, k - 1);
      if Better(g, ArcAt(g, list[k - 1]).to, ArcAt(g, list[p]).to) {
        p := k - 1;
      }
    }
  }

  /** With W the window, or 8 if it is not positive: the arc taken is at a place p < W of the list, its head leads every
      head among the first W arcs listed, and no arc before it has the same head. */
  lemma NextIsBest(g: Graph, u: nat, window: int) returns (p: nat)
    requires Consistent(g) && u < g.n && OutList(g, u) != []
    ensures p < |OutList(g, u)| && p < if window > 0 then window else 8
    ensures SelectNext(g, u, window) == Take(OutList(g, u)[p])
    ensures forall j :: 0 <= j < |OutList(g, u)| && (j < if window > 0 then window else 8) ==>
      Leads(Left(g), ArcAt(g, OutList(g, u)[p]).to, ArcAt(g, OutList(g, u)[j]).to)
    ensures forall j :: 0 <= j < p ==> ArcAt(g, OutList(g, u)[j]).to != ArcAt(g, OutList(g, u)[p]).to
  {
    var list := OutList(g, u);
    var k := if Window(window) < |list| then Window(window) else |list|;
    p := BestSuccessorPlace(g, list, k);
    BestSuccessorWins(g, list, k);
    assert OutListOk(g, u);
    hide Better, Left, Leads, BestSuccessor;
    forall j | 0 <= j < k ensures Leads(Left(g), ArcAt(g, list[p]).to, ArcAt(g, list[j]).to) {
      HeadsInRange(g, u, j);
      HeadsInRange(g, u, p);
      BetterMeansLeads(g, ArcAt(g, list[j]).to, ArcAt(g, list[p]).to);
    }
  }

  lemma HeadsInRange(g: Graph, u: nat, j: nat)
    requires Consistent(g) && u < g.n && j < |OutList(g, u)|
    ensures ArcAt(g, OutList(g, u)[j]).to < g.n
  {
    assert OutListOk(g, u);
    assert OutList(g, u)[j] in g.out[u];
  }

  // ---------- Building the graph ----------

  /** Ids in adjacency order: by head, then by id. */
  predicate InOrder(edges: seq<Arc>, a: nat, b: nat)
    requires a < |edges| && b < |edges|
  {
    edges[a].to < edges[b].to || (edges[a].to == edges[b].to && edges[a].id <= edges[b].id)
  }

  predicate IdsBelow(ids: seq<nat>, k: nat) {
    forall i :: 0 <= i < |ids| ==> ids[i] < k
  }

  /** Insert x behind the last element it does not precede. */
  function InsertId(edges: seq<Arc>, ids: seq<nat>, x: nat): (r: seq<nat>)
    requires IdsBelow(ids, |edges|) && x < |edges|
    ensures IdsBelow(r, |edges|) && |r| == |ids| + 1
  {
    if ids == [] || InOrder(edges, ids[|ids| - 1], x) then ids + [x]
    else InsertId(edges, ids[..|ids| - 1], x) + [ids[|ids| - 1]]
  }

  function SortIds(edges: seq<Arc>, ids: seq<nat>): (r: seq<nat>)
    requires IdsBelow(ids, |edges|)
    ensures IdsBelow(r, |edges|) && |r| == |ids|
  {
    if ids == [] then [] else InsertId(edges, SortIds(edges, ids[..|ids| - 1]), ids[|ids| - 1])
  }

  lemma {:induction false} InsertContains(edges: seq<Arc>, ids: seq<nat>, x: nat, y: nat)
    requires IdsBelow(ids, |edges|) && x < |edges|
    ensures y in InsertId(edges, ids, x) <==> y == x || y in ids
  {
    if ids != [] && !InOrder(edges, ids[|ids| - 1], x) {
      InsertContains(edges, ids[..|ids| - 1], x, y);
    }
  }

  lemma {:induction false} InsertDistinct(edges: seq<Arc>, ids: seq<nat>, x: nat)
    requires IdsBelow(ids, |edges|) && x < |edges| && Distinct(ids) && x !in ids
    ensures Distinct(InsertId(edges, ids, x))
  {
    if ids != [] && !InOrder(edges, ids[|ids| - 1], x) {
      InsertDistinct(edges, ids[..|ids| - 1], x);
      InsertContains(edges, ids[..|ids| - 1], x, ids[|ids| - 1]);
    }
  }

  lemma {:induction false} SortContains(edges: seq<Arc>, ids: seq<nat>, y: nat)
    requires IdsBelow(ids, |edges|)
    ensures y in SortIds(edges, ids) <==> y in ids
  {
    if ids != [] {
      SortContains(edges, ids[..|ids| - 1], y);
      InsertContains(edges, SortIds(edges, ids[..|ids| - 1]), ids[|ids| - 1], y);
    }
  }

  lemma {:induction false} SortDistinct(edges: seq<Arc>, ids: seq<nat>)
    requires IdsBelow(ids, |edges|) && Distinct(ids)
    ensures Distinct(SortIds(edges, ids))
  {
    if ids != [] {
      SortDistinct(edges, ids[..|ids| - 1]);
      SortContains(edges, ids[..|ids| - 1], ids[|ids| - 1]);
      InsertDistinct(edges, SortIds(edges, ids[..|ids| - 1]), ids[|ids| - 1]);
    }
  }

  ghost predicate Sorted(edges: seq<Arc>, ids: seq<nat>)
    requires IdsBelow(ids, |edges|)
  {
    forall i, j :: 0 <= i < j < |ids| ==> InOrder(edges, ids[i], ids[j])
  }

  lemma SortedSnoc(edges: seq<Arc>, ids: seq<nat>, last: nat)
    requires IdsBelow(ids, |edges|) && last < |edges| && Sorted(edges, ids)
    requires forall i :: 0 <= i < |ids| ==> InOrder(edges, ids[i], last)
    ensures Sorted(edges, ids + [last])
  {
    hide InOrder;
  }

  /** Whatever is inserted before the last element stays in order with it. */
  lemma InsertedBefore(edges: seq<Arc>, ids: seq<nat>, x: nat, y: nat)
    requires IdsBelow(ids, |edges|) && x < |edges| && Sorted(edges, ids) && ids != []
    requires !InOrder(edges, ids[|ids| - 1], x) && y in InsertId(edges, ids[..|ids| - 1], x)
    ensures y < |edges| && InOrder(edges, y, ids[|ids| - 1])
  {
    var init := ids[..|ids| - 1];
    InsertContains(edges, init, x, y);
    if y != x {
      var k :| 0 <= k < |init| && init[k] == y;
      assert InOrder(edges, ids[k], ids[|ids| - 1]);
    }
  }

  lemma {:induction false} InsertSorts(edges: seq<Arc>, ids: seq<nat>, x: nat)
    requires IdsBelow(ids, |edges|) && x < |edges| && Sorted(edges, ids)
    ensures Sorted(edges, InsertId(edges, ids, x))
  {
    if ids == [] || InOrder(edges, ids[|ids| - 1], x) {
      forall i | 0 <= i < |ids| ensures InOrder(edges, ids[i], x) {
        assert i < |ids| - 1 ==> InOrder(edges, ids[i], ids[|ids| - 1]);
      }
      SortedSnoc(edges, ids, x);
    } else {
      var init, last := ids[..|ids| - 1], ids[|ids| - 1];
      InsertSorts(edges, init, x);
      var r := InsertId(edges, init, x);
      forall i | 0 <= i < |r| ensures InOrder(edges, r[i], last) {
        InsertedBefore(edges, ids, x, r[i]);
      }
      SortedSnoc(edges, r, last);
    }
  }

  /** Every adjacency list comes out in ascending order of head, then id. */
  lemma {:induction false} SortSorts(edges: seq<Arc>, ids: seq<nat>)
    requires IdsBelow(ids, |edges|)
    ensures Sorted(edges, SortIds(edges, ids))
  {
    if ids != [] {
      SortSorts(edges, ids[..|ids| - 1]);
      InsertSorts(edges, SortIds(edges, ids[..|ids| - 1]), ids[|ids| - 1]);
    }
  }

  /** The ids of the first k arcs that leave u, in the order they came. */
  function Leaving(edges: seq<Arc>, u: nat, k: nat): (r: seq<nat>)
    requires k <= |edges|
    ensures IdsBelow(r, k)
  {
    if k == 0 then []
    else Leaving(edges, u, k - 1) + if edges[k - 1].from == u then [k - 1] else []
  }

  lemma {:induction false} LeavingAll(edges: seq<Arc>, u: nat, k: nat)
    requires k <= |edges|
    ensures Distinct(Leaving(edges, u, k))
    ensures forall id :: id in Leaving(edges, u, k) <==> 0 <= id < k && edges[id].from == u
  {
    if k > 0 {
      LeavingAll(edges, u, k - 1);
    }
  }

  lemma {:induction false} LeavingCount(edges: seq<Arc>, u: nat, k: nat)
    requires k <= |edges|
    ensures |Leaving(edges, u, k)| == OutDeg(edges[..k], u)
  {
    if k > 0 {
      LeavingCount(edges, u, k - 1);
      assert edges[..k][..k - 1] == edges[..k - 1];
    }
  }

  function AllAlive(k: nat): seq<bool> { seq(k, _ => true) }

  lemma {:induction false} AllAliveLeft(edges: seq<Arc>)
    ensures AliveArcs(edges, AllAlive(|edges|)) == edges
  {
    if edges != [] {
      AllAliveLeft(edges[..|edges| - 1]);
      assert AllAlive(|edges|)[..|edges| - 1] == AllAlive(|edges| - 1);
    }
  }

  function InitialGraph(n: nat, required: seq<Arc>): Graph {
    Graph(n, required,
          seq(n, u requires 0 <= u < n => SortIds(required, Leaving(required, u, |required|))),
          AllAlive(|required|),
          seq(n, u requires 0 <= u < n => OutDeg(required, u)),
          seq(n, u requires 0 <= u < n => InDeg(required, u)),
          |required|)
  }

  ghost predicate IdsAreIndexes(required: seq<Arc>) {
    forall i :: 0 <= i < |required| ==> required[i].id == i
  }

  lemma InitialVertex(n: nat, required: seq<Arc>, u: nat)
    requires InRange(n, required) && IdsAreIndexes(required) && u < n
    ensures Left(InitialGraph(n, required)) == required
    ensures OutListOk(InitialGraph(n, required), u) && DegreesOk(InitialGraph(n, required), u)
  {
    var ids := Leaving(required, u, |required|);
    AllAliveLeft(required);
    LeavingAll(required, u, |required|);
    LeavingCount(required, u, |required|);
    SortDistinct(required, ids);
    forall id ensures id in SortIds(required, ids) <==> id in ids {
      SortContains(required, ids, id);
    }
    assert required[..|required|] == required;
  }

  lemma InitialConsistent(n: nat, required: seq<Arc>)
    requires InRange(n, required) && IdsAreIndexes(required)
    ensures Consistent(InitialGraph(n, required)) && Left(InitialGraph(n, required)) == required
  {
    AllAliveLeft(required);
    forall u | 0 <= u < n
      ensures OutListOk(InitialGraph(n, required), u) && DegreesOk(InitialGraph(n, required), u)
    {
      InitialVertex(n, required, u);
    }
  }
}
