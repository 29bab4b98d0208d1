/** A run of ant in aco.c whose one-way scan, which starts at the second iteration, misses the
    best tour: three points on a line, fifty ants, any number of iterations from two on. */
module LateScan {
  import opened Distance
  import opened Tours
  import opened AntColony

  const POINTS: seq<(int, int)> := [(10, 0), (20, 0), (0, 0)]
  const START: nat := 2
  const ANTS: nat := 50

  /** The short way round, and the long one. */
  const SHORT: seq<nat> := [2, 0, 1]
  const LONG: seq<nat> := [2, 1, 0]

  /** In the first iteration every random number is 0, later every one is 999. */
  function LateDraws(): Draws {
    (it: nat, j: nat, i: nat) => if it == 0 then 0 else 999
  }

  function NoLeg(): nat -> nat {
    (p: nat) => 0
  }

  /** The tables that init_tag makes of the points. */
  ghost predicate Laid(c: Colony)
    reads c, c.dis, c.idis
  {
    && c.Sized() && c.n == 3 && c.m == ANTS && c.Surveyed()
    && c.dis[2, 0] == 10 && c.dis[0, 1] == 10 && c.dis[2, 1] == 20 && c.dis[1, 0] == 10
    && c.idis[2, 0] == 100000.0 && c.idis[2, 1] == 3125.0
  }

  lemma RootOfSquare(r: nat)
    ensures FloorSqrt(r * r) == r
  {
    hide FloorSqrt;
    SquareOrder(FloorSqrt(r * r), r);
    SquareOrder(r + 1, FloorSqrt(r * r) + 1);
    SquareOrder(FloorSqrt(r * r) + 1, r);
  }

  lemma PointDistances()
    ensures Dist(POINTS[2], POINTS[0]) == 10 && Dist(POINTS[0], POINTS[1]) == 10
    ensures Dist(POINTS[1], POINTS[0]) == 10 && Dist(POINTS[2], POINTS[1]) == 20
  {
    hide FloorSqrt;
    RootOfSquare(10);
    RootOfSquare(20);
  }

  lemma PointInverses()
    ensures Pow5(Inverse(false, 10)) == 100000.0 && Pow5(Inverse(false, 20)) == 3125.0
  {
  }

  // ---------- One choice ----------

  lemma TwoSlots(w: seq<real>, rate: real, k: nat)
    requires |w| == 2 && InSlot(w, rate, k)
    ensures k == 0 <==> rate < w[0]
    ensures k < 2
  {
    assert w[..1][..0] == [] && w[..1][0] == w[0];
    assert Sum(w[..1]) == w[0];
    assert w[..0] == [];
  }

  lemma TwoLeft()
    ensures Unvisited([2], 3) == [0, 1]
  {
    UnvisitedStep([2], 0);
    UnvisitedStep([2], 1);
    UnvisitedStep([2], 2);
  }

  lemma TwoWeights(w: seq<real>)
    requires |w| == 2
    ensures Sum(w) == w[0] + w[1]
  {
    assert w[..1][..0] == [];
    assert Sum(w[..1]) == w[0];
  }

  /** A long tour starts if the near point is at most 999 times as attractive as the far one. */
  ghost predicate Balanced(v: Levels)
    requires |v| == 3 && |v[2]| == 3
  {
    v[2][0] * 100000.0 <= 999.0 * v[2][1] * 3125.0
  }

  lemma FirstSlot(c: Colony, v: Levels, draw: nat, next: nat) returns (w: seq<real>, rate: real)
    requires Laid(c) && c.AllPositive(v) && c.Rolled(v, [2], draw, next)
    ensures |w| == 2 && w[0] == v[2][0] * 100000.0 && w[1] == v[2][1] * 3125.0
    ensures rate == RandN(draw, 0.0, w[0] + w[1])
    ensures next == if rate < w[0] then 0 else 1
  {
    hide RandN;
    TwoLeft();
    w := c.Wheel(v, 2, [0, 1]);
    TwoWeights(w);
    rate := RandN(draw, 0.0, Sum(w));
    var k: nat :| InSlot(w, rate, k) && [0, 1][k] == next;
    TwoSlots(w, rate, k);
  }

  /** The exact threshold of the random number, in pheromone times inverse distance. */
  lemma FirstMove(c: Colony, v: Levels, draw: nat, next: nat)
    requires Laid(c) && c.AllPositive(v) && c.Rolled(v, [2], draw, next)
    ensures next == 0 || next == 1
    ensures next == 0 <==>
      (draw % 1000) as real * (v[2][0] * 100000.0 + v[2][1] * 3125.0) < 1000.0 * (v[2][0] * 100000.0)
  {
    hide RandN, Colony.Rolled, Laid;
    var w, rate := FirstSlot(c, v, draw, next);
    LaidIs(c);
    var a, b := w[0], w[1];
    RandNIs(draw, 0.0, a + b);
    assert a + b - 0.0 == a + b && rate - 0.0 == rate;
    Threshold(draw % 1000, a, b, rate);
  }

  lemma ExtremeDraws(c: Colony, v: Levels, draw: nat, next: nat)
    requires Laid(c) && c.AllPositive(v) && c.Rolled(v, [2], draw, next)
    ensures draw == 0 ==> next == 0
    ensures draw == 999 && Balanced(v) ==> next == 1
  {
    hide Colony.Rolled, Laid;
    FirstMove(c, v, draw, next);
    LaidIs(c);
  }

  lemma Threshold(par: nat, a: real, b: real, rate: real)
    requires 1000.0 * rate == par as real * (a + b)
    ensures rate < a <==> par as real * (a + b) < 1000.0 * a
  {
  }

  lemma WholeTour(c: Colony, v: Levels, s: seq<nat>, it: nat, i: nat)
    requires Laid(c) && c.AllPositive(v) && |s| == 3 && c.RolledTour(v, s, it, i, START, LateDraws())
    requires it > 0 ==> Balanced(v)
    ensures s == if it == 0 then SHORT else LONG
  {
    hide Colony.Rolled;
    assert s[..1] == [2];
    ExtremeDraws(c, v, LateDraws()(it, 1, i), s[1]);
  }

  // ---------- What such tours leave ----------

  lemma TwoLegs(dis: array2<nat>, s: seq<nat>)
    requires |s| == 3 && dis.Length0 == dis.Length1 == 3 && Below(s, 3)
    ensures TourLen(dis, s, 2) == dis[s[0], s[1]] + dis[s[1], s[2]]
  {
    assert TourLen(dis, s, 0) == 0;
    assert TourLen(dis, s, 1) == TourLen(dis, s, 0) + dis[s[0], s[1]];
  }

  lemma TourLengths(c: Colony)
    requires Laid(c)
    ensures Below(SHORT, 3) && Below(LONG, 3)
    ensures c.LengthOf(SHORT) == 20 && c.LengthOf(LONG) == 30
  {
    hide Colony.Surveyed;
    TwoLegs(c.dis, SHORT);
    TwoLegs(c.dis, LONG);
  }

  lemma TourLegs()
    ensures Adjacent(SHORT, 2, 0, 3) && !Adjacent(SHORT, 2, 1, 3)
    ensures Adjacent(LONG, 2, 1, 3) && !Adjacent(LONG, 2, 0, 3)
  {
    assert Leg(SHORT, 2, 0, 0) && Leg(LONG, 2, 1, 0);
  }

  /** When all ants walk the same tour. */
  lemma {:induction false} SameTraces(c: Colony, rows: seq<seq<nat>>, s: seq<nat>, p: nat, q: nat, k: nat)
    requires c.Sized() && |s| == c.n && Below(s, c.n) && |rows| == c.m && k <= c.m
    requires forall i: nat :: i < c.m ==> rows[i] == s
    ensures c.Traces(rows, p, q, k) == k as real * c.Trace(s, p, q, c.Amount(s))
  {
    if k > 0 {
      SameTraces(c, rows, s, p, q, k - 1);
    }
  }

  lemma SameTours(c: Colony, t: Trails, rows: seq<seq<nat>>, best: seq<nat>, it: nat, t': Trails)
    requires Laid(c) && c.Healthy(t) && (it > 0 ==> Balanced(t.pher))
    requires c.Iterated(it, START, LateDraws(), t, rows, best, t')
    ensures |rows| == c.m && best == (if it == 0 then SHORT else LONG) && forall i: nat :: i < c.m ==> rows[i] == best
  {
    hide Laid, Colony.RolledTour, Colony.LengthOf, Balanced, Colony.Updated;
    LaidIs(c);
    forall i: nat | i < c.m
      ensures rows[i] == if it == 0 then SHORT else LONG
    {
      WholeTour(c, t.pher, rows[i], it, i);
    }
  }

  lemma LaidIs(c: Colony)
    requires Laid(c)
    ensures c.Sized() && c.n == 3 && c.m == ANTS
  {
  }

  /** The pheromones from the start point stay balanced enough for another long tour. */
  ghost predicate Within(t: Trails)
    requires |t.pher| == |t.delta| == 3 && |t.pher[2]| == |t.delta[2]| == 3
  {
    t.pher[2][0] <= 25.0 && t.pher[2][1] >= 0.9 && t.delta[2][0] <= 2.5 && t.delta[2][1] >= 0.0
  }

  lemma WithinIsBalanced(t: Trails)
    requires |t.pher| == |t.delta| == 3 && |t.pher[2]| == |t.delta[2]| == 3 && Within(t)
    ensures Balanced(t.pher)
  {
  }

  lemma StaysWithin(c: Colony, t: Trails, rows: seq<seq<nat>>, best: seq<nat>, it: nat, t': Trails)
    requires Laid(c) && c.Healthy(t) && c.Iterated(it, START, LateDraws(), t, rows, best, t')
    requires if it == 0 then c.StartsFrom(t, c.Ones()) else Within(t)
    ensures c.Healthy(t') && Within(t')
    ensures best == if it == 0 then SHORT else LONG
  {
    hide Colony.RolledTours, Colony.BestOf, Colony.Traces, Colony.LengthOf, Adjacent;
    if it > 0 {
      WithinIsBalanced(t);
    }
    SameTours(c, t, rows, best, it, t');
    c.IteratedKeepsHealthy(it, START, LateDraws(), t, rows, best, t');
    TourLengths(c);
    TourLegs();
    SameTraces(c, rows, best, 2, 0, c.m);
    SameTraces(c, rows, best, 2, 1, c.m);
    assert t'.delta[2][0] == t.delta[2][0] + c.Traces(rows, 2, 0, c.m);
    assert t'.delta[2][1] == t.delta[2][1] + c.Traces(rows, 2, 1, c.m);
  }

  /** After the first iteration the way to the near point has its pheromone raised: exactly
      these levels. */
  lemma FirstLevels(c: Colony, t: Trails, rows: seq<seq<nat>>, best: seq<nat>, t': Trails)
    requires Laid(c) && c.Healthy(t) && c.StartsFrom(t, c.Ones())
    requires c.Iterated(0, START, LateDraws(), t, rows, best, t')
    ensures c.Healthy(t')
    ensures t'.delta[2][0] == 2.5 && t'.delta[2][1] == 0.0
    ensures t'.pher[2][0] == 3.4 && t'.pher[2][1] == 0.9
  {
    hide Colony.RolledTours, Colony.BestOf, Colony.Traces, Colony.LengthOf, Adjacent;
    SameTours(c, t, rows, best, 0, t');
    c.IteratedKeepsHealthy(0, START, LateDraws(), t, rows, best, t');
    TourLengths(c);
    TourLegs();
    SameTraces(c, rows, best, 2, 0, c.m);
    SameTraces(c, rows, best, 2, 1, c.m);
    assert t'.delta[2][0] == t.delta[2][0] + c.Traces(rows, 2, 0, c.m);
    assert t'.delta[2][1] == t.delta[2][1] + c.Traces(rows, 2, 1, c.m);
  }

  /** So the random number 980, which leads to the far point before, leads to the near one
      after. */
  lemma PheromonesDecide(c: Colony, t: Trails, rows: seq<seq<nat>>, best: seq<nat>, t': Trails, before: nat, after: nat)
    requires Laid(c) && c.Healthy(t) && c.StartsFrom(t, c.Ones())
    requires c.Iterated(0, START, LateDraws(), t, rows, best, t')
    requires c.Rolled(t.pher, [2], 980, before) && c.AllPositive(t'.pher) && c.Rolled(t'.pher, [2], 980, after)
    ensures before == 1 && after == 0
  {
    hide Colony.Rolled, Colony.Iterated, Laid;
    LaidIs(c);
    FirstLevels(c, t, rows, best, t');
    FirstMove(c, t.pher, 980, before);
    FirstMove(c, t'.pher, 980, after);
  }

  /** The leg home is the one from the last point. */
  lemma HomeFromLast(c: Colony)
    requires Laid(c)
    ensures Below(SHORT, 3) && Below(LONG, 3)
    ensures c.HomeLength(SHORT, p => p) == 20 + 1 && c.HomeLength(LONG, p => p) == 30 + 0
  {
    hide Colony.LengthOf;
    TourLengths(c);
  }

  // ---------- The run ----------

  lemma {:induction false} LateRun(c: Colony, trails: seq<Trails>, history: seq<seq<seq<nat>>>,
                                  bests: seq<seq<nat>>, it: nat)
    requires Laid(c) && c.Ran(START, LateDraws(), trails, history, bests) && it < |bests|
    requires c.Healthy(trails[0]) && c.StartsFrom(trails[0], c.Ones())
    ensures bests[it] == if it == 0 then SHORT else LONG
    ensures c.Healthy(trails[it + 1]) && Within(trails[it + 1])
  {
    hide Laid, Colony.Iterated, Within, Colony.Healthy, Colony.StartsFrom;
    if it > 0 {
      LateRun(c, trails, history, bests, it - 1);
    }
    StaysWithin(c, trails[it], history[it], bests[it], it, trails[it + 1]);
  }

  /** On these points with these random numbers the first iteration finds the tour of length
      20, every later one a tour of length 30, and the late scan reports 30. */
  lemma LateScanMisses(c: Colony, trails: seq<Trails>, history: seq<seq<seq<nat>>>, bests: seq<seq<nat>>,
                       ansLen: nat, picked: nat)
    requires Laid(c) && c.Ran(START, LateDraws(), trails, history, bests) && |bests| >= 2
    requires c.Healthy(trails[0]) && c.StartsFrom(trails[0], c.Ones())
    requires forall it: nat :: it < |bests| ==> |bests[it]| == c.n && Below(bests[it], c.n)
    requires Picked(c.HomeLengths(bests, NoLeg()), 1, ansLen, picked)
    ensures ansLen == 30 && c.LengthOf(bests[0]) == 20
  {
    hide Colony.Ran, Colony.LengthOf, Colony.Healthy, Colony.StartsFrom;
    TourLengths(c);
    forall it: nat | it < |bests|
      ensures bests[it] == if it == 0 then SHORT else LONG
    {
      LateRun(c, trails, history, bests, it);
    }
    var t := c.HomeLengths(bests, NoLeg());
    assert forall k: nat :: 0 < k < |t| ==> t[k] == 30;
    assert t[1] == 30;
  }

  /** The same by running ant. */
  method RunLateScan(iterations: nat) returns (c: Colony, ansLen: nat, ghost bests: seq<seq<nat>>)
    requires iterations >= 2
    ensures Laid(c) && |bests| == iterations
    ensures forall it: nat :: it < iterations ==> |bests[it]| == c.n && Below(bests[it], c.n)
    ensures c.LengthOf(bests[0]) == 20 && ansLen == 30
  {
    hide Dist, Pow5, Inverse, Colony.Symmetric, Colony.PherPositive, Colony.Surveyed, Colony.LengthOf, Colony.Ran,
         Picked, Colony.Healthy, Colony.HomeLengths;
    c := new Colony(|POINTS|, ANTS, iterations);
    c.InitTag(POINTS);
    PointDistances();
    PointInverses();
    c.OnesHeld();
    var path := new nat[1, |POINTS|];
    ghost var trails, history, picked;
    ansLen, trails, history, bests, picked := c.Ant(iterations, START, 1, NoLeg(), LateDraws(), path, 0);
    LateScanMisses(c, trails, history, bests, ansLen, picked);
  }
}
