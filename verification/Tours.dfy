/** Tours, roulette selection and pheromone deposits of aco.c, on values. */
module Tours {
  import Sets

  ghost predicate Below(s: seq<nat>, n: nat) {
    forall k :: 0 <= k < |s| ==> s[k] < n
  }

  /** s visits distinct points below n, st first. */
  ghost predicate IsTour(s: seq<nat>, n: nat, st: nat) {
    && 0 < |s| && s[0] == st
    && Below(s, n)
    && (forall j, k :: 0 <= j < k < |s| ==> s[j] != s[k])
  }

  lemma TourExtends(s: seq<nat>, next: nat, n: nat, st: nat)
    requires IsTour(s, n, st) && next < n && next !in s
    ensures IsTour(s + [next], n, st)
  {
  }

  lemma TourBelow(s: seq<nat>, n: nat, st: nat)
    requires IsTour(s, n, st)
    ensures Below(s, n) && s != []
  {
  }

  ghost function Points(n: nat): (s: set<nat>)
    ensures forall p: nat :: p in s <==> p < n
  {
    if n == 0 then {} else Points(n - 1) + {n - 1}
  }

  lemma {:induction false} PointsSize(n: nat)
    ensures |Points(n)| == n
  {
    if n > 0 {
      PointsSize(n - 1);
    }
  }

  ghost function Visited(s: seq<nat>): set<nat> {
    set p | p in s
  }

  lemma {:induction false} VisitedSize(s: seq<nat>)
    requires forall j, k :: 0 <= j < k < |s| ==> s[j] != s[k]
    ensures |Visited(s)| == |s|
  {
    if s != [] {
      var init, p := s[..|s| - 1], s[|s| - 1];
      VisitedSize(init);
      assert s == init + [p];
      assert Visited(s) == Visited(init) + {p};
      assert p !in Visited(init);
    }
  }

  /** A tour of full length visits every point. */
  lemma FullTourVisitsAll(s: seq<nat>, n: nat, st: nat)
    requires IsTour(s, n, st) && |s| == n
    ensures forall p :: 0 <= p < n ==> p in s
  {
    VisitedSize(s);
    PointsSize(n);
    assert Visited(s) <= Points(n);
    Sets.SubsetSize(Visited(s), Points(n));
    forall p: nat | p < n
      ensures p in s
    {
      assert p in Points(n);
    }
  }

  /** A shorter tour leaves some point. */
  lemma ShortTourLeavesOne(s: seq<nat>, n: nat, st: nat) returns (p: nat)
    requires IsTour(s, n, st) && |s| < n
    ensures p < n && p !in s
  {
    VisitedSize(s);
    PointsSize(n);
    Sets.SubsetSize(Points(n), Visited(s));
    p :| p in Points(n) && p !in Visited(s);
  }

  // ---------- Candidates ----------

  /** The unvisited points below k, in order. */
  function Unvisited(s: seq<nat>, k: nat): (c: seq<nat>)
    ensures forall p :: p in c <==> 0 <= p < k && p !in s
    ensures Below(c, k)
  {
    if k == 0 then [] else Unvisited(s, k - 1) + if k - 1 in s then [] else [k - 1]
  }

  lemma UnvisitedStep(s: seq<nat>, k: nat)
    ensures Unvisited(s, 0) == []
    ensures Unvisited(s, k + 1) == if k in s then Unvisited(s, k) else Unvisited(s, k) + [k]
  {
  }

  /** The candidates are in ascending order. */
  lemma {:induction false} UnvisitedAscends(s: seq<nat>, k: nat)
    ensures forall i, j :: 0 <= i < j < |Unvisited(s, k)| ==> Unvisited(s, k)[i] < Unvisited(s, k)[j]
  {
    if k > 0 {
      UnvisitedAscends(s, k - 1);
      UnvisitedStep(s, k - 1);
    }
  }

  // ---------- Roulette ----------

  function Sum(w: seq<real>): real {
    if w == [] then 0.0 else Sum(w[..|w| - 1]) + w[|w| - 1]
  }

  ghost predicate Positive(w: seq<real>) {
    forall k :: 0 <= k < |w| ==> w[k] > 0.0
  }

  lemma {:induction false} SumIsPositive(w: seq<real>)
    requires Positive(w) && w != []
    ensures Sum(w) > 0.0
  {
    if |w| > 1 {
      SumIsPositive(w[..|w| - 1]);
    }
  }

  /** par of randn: a multiple of 1/1000 below one. */
  function Par(draw: nat): (r: real)
    ensures 0.0 <= r < 1.0
  {
    (draw % 1000) as real / 1000.0
  }

  /** randn(x, y) */
  function RandN(draw: nat, x: real, y: real): (r: real)
    ensures x < y ==> x <= r < y
  {
    var scaled := Par(draw) * (y - x);
    ScaledIsBelow(Par(draw), y - x, scaled);
    scaled + x
  }

  lemma ScaledIsBelow(par: real, d: real, m: real)
    requires 0.0 <= par < 1.0 && m == par * d
    ensures d > 0.0 ==> 0.0 <= m < d
  {
    var rest := (1.0 - par) * d;
    assert d > 0.0 ==> rest > 0.0;
    assert rest == d - m;
  }

  /** ... in thousandths of the way from x to y. */
  lemma RandNIs(draw: nat, x: real, y: real)
    ensures 1000.0 * (RandN(draw, x, y) - x) == (draw % 1000) as real * (y - x)
  {
    assert 1000.0 * Par(draw) == (draw % 1000) as real;
    assert 1000.0 * (Par(draw) * (y - x)) == (1000.0 * Par(draw)) * (y - x);
  }

  /** Slot k of the wheel w is the one that rate falls into. */
  ghost predicate InSlot(w: seq<real>, rate: real, k: nat) {
    k < |w| && Sum(w[..k]) <= rate < Sum(w[..k + 1])
  }

  lemma {:induction false} SumGrows(w: seq<real>, j: nat, k: nat)
    requires Positive(w) && j <= k <= |w|
    ensures Sum(w[..j]) <= Sum(w[..k])
    decreases k - j
  {
    if j < k {
      SumGrows(w, j, k - 1);
      assert w[..k][..k - 1] == w[..k - 1];
    }
  }

  /** The wheel stops in exactly one slot. */
  lemma SlotIsUnique(w: seq<real>, rate: real, j: nat, k: nat)
    requires Positive(w) && InSlot(w, rate, j) && InSlot(w, rate, k)
    ensures j == k
  {
    if j < k {
      SumGrows(w, j + 1, k);
    } else if k < j {
      SumGrows(w, k + 1, j);
    }
  }

  // ---------- Lengths and deposits ----------

  /** The length of the first k legs of the tour s. */
  function TourLen(dis: array2<nat>, s: seq<nat>, k: nat): nat
    requires k < |s| && dis.Length0 == dis.Length1
    requires Below(s, dis.Length0)
    reads dis
  {
    if k == 0 then 0 else TourLen(dis, s, k - 1) + dis[s[k - 1], s[k]]
  }

  /** Leg j of s joins a and b. */
  ghost predicate Leg(s: seq<nat>, a: nat, b: nat, j: nat) {
    j + 1 < |s| && ((s[j] == a && s[j + 1] == b) || (s[j] == b && s[j + 1] == a))
  }

  /** One of the first k legs of s joins a and b. */
  ghost predicate Adjacent(s: seq<nat>, a: nat, b: nat, k: nat) {
    exists j :: 0 <= j < k && Leg(s, a, b, j)
  }

  /** A tour joins two points at most once. */
  lemma LegIsUnique(s: seq<nat>, n: nat, st: nat, a: nat, b: nat, i: nat, j: nat)
    requires IsTour(s, n, st) && Leg(s, a, b, i) && Leg(s, a, b, j)
    ensures i == j
  {
  }

  lemma AdjacentGrows(s: seq<nat>, n: nat, st: nat, a: nat, b: nat, j: nat)
    requires IsTour(s, n, st)
    ensures Adjacent(s, a, b, j + 1) <==> Adjacent(s, a, b, j) || Leg(s, a, b, j)
    ensures Leg(s, a, b, j) ==> !Adjacent(s, a, b, j)
  {
    forall i | 0 <= i < j && Leg(s, a, b, i) && Leg(s, a, b, j)
      ensures false
    {
      LegIsUnique(s, n, st, a, b, i, j);
    }
    if Adjacent(s, a, b, j + 1) && !Leg(s, a, b, j) {
      var i :| 0 <= i < j + 1 && Leg(s, a, b, i);
      assert i < j;
    }
    if Adjacent(s, a, b, j) {
      var i :| 0 <= i < j && Leg(s, a, b, i);
      assert i < j + 1;
    }
  }

  lemma AdjacentIsSymmetric(s: seq<nat>, a: nat, b: nat, k: nat)
    ensures Adjacent(s, a, b, k) <==> Adjacent(s, b, a, k)
  {
    if Adjacent(s, a, b, k) {
      var j :| 0 <= j < k && Leg(s, a, b, j);
      assert Leg(s, b, a, j);
    }
    if Adjacent(s, b, a, k) {
      var j :| 0 <= j < k && Leg(s, b, a, j);
      assert Leg(s, a, b, j);
    }
  }
}
