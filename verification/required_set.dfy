/** The bitset over directed vertex pairs (internal/arccover/required_set.go). */
module RequiredSets {
  import opened ArcTypes
  import opened Sums

  /** Some required arc runs from u to v. */
  predicate IsRequiredPair(arcs: seq<Arc>, u: nat, v: nat) {
    exists i :: 0 <= i < |arcs| && arcs[i].from == u && arcs[i].to == v
  }

  // ---------- One 64-bit word, as its number ----------

  function Pow2(k: nat): (r: nat)
    ensures r > 0
  {
    if k == 0 then 1 else 2 * Pow2(k - 1)
  }

  /** word & (1 << b) != 0 */
  function TestBit(word: nat, b: nat): bool {
    if b == 0 then word % 2 == 1 else TestBit(word / 2, b - 1)
  }

  /** word | (1 << b) */
  function OrBit(word: nat, b: nat): nat {
    if b == 0 then (if word % 2 == 0 then word + 1 else word)
    else 2 * OrBit(word / 2, b - 1) + word % 2
  }

  /** Setting bit b of a word sets that bit and no other. */
  lemma {:induction false} OrBitSetsOne(word: nat, b: nat, c: nat)
    ensures TestBit(OrBit(word, b), c) <==> b == c || TestBit(word, c)
  {
    if b > 0 && c > 0 {
      OrBitSetsOne(word / 2, b - 1, c - 1);
      assert OrBit(word, b) / 2 == OrBit(word / 2, b - 1);
    }
  }

  /** A word stays within its k bits. */
  lemma {:induction false} OrBitFits(word: nat, b: nat, k: nat)
    requires b < k && word < Pow2(k)
    ensures OrBit(word, b) < Pow2(k)
  {
    if b > 0 {
      OrBitFits(word / 2, b - 1, k - 1);
    }
  }

  lemma {:induction false} ZeroHasNoBits(b: nat)
    ensures !TestBit(0, b)
  {
    if b > 0 {
      ZeroHasNoBits(b - 1);
    }
  }

  // ---------- Bit numbers ----------

  /** Different pairs get different bit numbers. */
  lemma IndexInjective(n: nat, u: nat, v: nat, x: nat, y: nat)
    requires v < n && y < n && u * n + v == x * n + y
    ensures u == x && v == y
  {
    if u < x {
      MulLe(u + 1, x, n);
    } else if x < u {
      MulLe(x + 1, u, n);
    }
  }

  lemma IndexInBounds(n: nat, u: nat, v: nat)
    requires u < n && v < n
    ensures u * n + v < n * n
  {
    MulLe(u + 1, n, n);
  }

  function WordCount(n: nat): nat { (n * n + 63) / 64 }

  // ---------- The set ----------

  class RequiredSet {
    var Bits: array<nat>
    const N: nat

    ghost predicate Valid()
      reads this, Bits
    {
      && Bits.Length == WordCount(N)
      && forall i :: 0 <= i < Bits.Length ==> Bits[i] < Pow2(64)
    }

    function Index(from: nat, to: nat): nat { from * N + to }

    /** Vertices of the set; a set without vertices contains nothing and may be asked anything. */
    predicate InBounds(from: nat, to: nat) { N == 0 || (from < N && to < N) }

    function Contains(from: nat, to: nat): bool
      requires Valid() && InBounds(from, to)
      reads this, Bits
    {
      if N == 0 then false
      else
        IndexInBounds(N, from, to);
        var i := Index(from, to);
        TestBit(Bits[i / 64], i % 64)
    }

    /** Contains answers as the plain set of required pairs would. */
    ghost predicate Holds(arcs: seq<Arc>)
      requires Valid()
      reads this, Bits
    {
      forall u, v :: 0 <= u < N && 0 <= v < N ==> (Contains(u, v) <==> IsRequiredPair(arcs, u, v))
    }

    constructor Empty(n: nat)
      ensures Valid() && N == n && fresh(Bits)
      ensures Holds([])
    {
      Bits := new nat[WordCount(n)](_ => 0);
      N := n;
      new;
      forall u, v | 0 <= u < N && 0 <= v < N ensures !Contains(u, v) {
        IndexInBounds(N, u, v);
        ZeroHasNoBits(Index(u, v) % 64);
      }
    }

    /** The set of the pairs of all required arcs. */
    static method New(n: nat, required: seq<Arc>) returns (s: RequiredSet)
      requires InRange(n, required)
      ensures fresh(s) && fresh(s.Bits) && s.Valid() && s.N == n
      ensures s.Holds(required)
    {
      s := new RequiredSet.Empty(n);
      for k := 0 to |required|
        invariant s.Valid() && s.N == n && fresh(s.Bits)
        invariant s.Holds(required[..k])
      {
        s.AddArc(required[k], required[..k]);
        assert required[..k + 1] == required[..k] + [required[k]];
      }
      assert required[..|required|] == required;
    }

    method AddArc(e: Arc, ghost before: seq<Arc>)
      requires Valid() && e.from < N && e.to < N && Holds(before)
      modifies Bits
      ensures Valid() && Holds(before + [e])
    {
      Add(e.from, e.to);
      forall u, v | 0 <= u < N && 0 <= v < N
        ensures Contains(u, v) <==> IsRequiredPair(before + [e], u, v)
      {
        PairSnoc(before, e, u, v);
      }
    }

    method Add(from: nat, to: nat)
      requires Valid() && from < N && to < N
      modifies Bits
      ensures Valid()
      ensures forall u, v :: 0 <= u < N && 0 <= v < N ==>
        (Contains(u, v) <==> (u == from && v == to) || old(Contains(u, v)))
    {
      IndexInBounds(N, from, to);
      var i := Index(from, to);
      OrBitFits(Bits[i / 64], i % 64, 64);
      Bits[i / 64] := OrBit(Bits[i / 64], i % 64);
      forall u, v | 0 <= u < N && 0 <= v < N
        ensures Contains(u, v) <==> (u == from && v == to) || old(Contains(u, v))
      {
        var j := Index(u, v);
        IndexInBounds(N, u, v);
        if i / 64 == j / 64 {
          OrBitSetsOne(old(Bits[i / 64]), i % 64, j % 64);
        }
        if i == j {
          IndexInjective(N, u, v, from, to);
        }
      }
    }
  }

  lemma PairSnoc(arcs: seq<Arc>, e: Arc, u: nat, v: nat)
    ensures IsRequiredPair(arcs + [e], u, v) <==> IsRequiredPair(arcs, u, v) || (e.from == u && e.to == v)
  {
    var all := arcs + [e];
    assert forall i :: 0 <= i < |arcs| ==> all[i] == arcs[i];
    if e.from == u && e.to == v {
      assert all[|arcs|].from == u && all[|arcs|].to == v;
    } else if IsRequiredPair(arcs, u, v) {
      var i :| 0 <= i < |arcs| && arcs[i].from == u && arcs[i].to == v;
      assert all[i].from == u && all[i].to == v;
    }
  }
}
