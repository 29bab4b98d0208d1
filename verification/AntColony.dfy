/** ant of aco.c: tours built by roulette selection, the best of each iteration kept, and a
    pheromone matrix updated from the tours; over the reals. */
module AntColony {
  import opened Distance
  import opened Tours

  const Q := 1.0
  const RHO := 0.1

  /** A random number for each iteration, move and ant. */
  type Draws = (nat, nat, nat) -> nat

  /** What a matrix held at some time. */
  type Levels = seq<seq<real>>

  /** pher and delta at some time. */
  datatype Trails = Trails(pher: Levels, delta: Levels)

  class Colony {
    const n: nat
    const m: nat
    const dis: array2<nat>
    const idis: array2<real>
    const pher: array2<real>
    const delta: array2<real>
    const routes: array2<nat>
    const len: array<nat>
    const lenBest: array<nat>
    const pathBest: array2<nat>

    ghost predicate Sized()
      reads this
    {
      && n >= 2 && m >= 1
      && dis.Length0 == dis.Length1 == n && idis.Length0 == idis.Length1 == n
      && pher.Length0 == pher.Length1 == n && delta.Length0 == delta.Length1 == n
      && routes.Length0 == m && routes.Length1 == n && len.Length == m
      && pathBest.Length0 == lenBest.Length && pathBest.Length1 == n
      && idis != pher && idis != delta && pher != delta
      && dis != routes && dis != pathBest && routes != pathBest && len != lenBest
    }

    constructor (n: nat, m: nat, iterations: nat)
      requires n >= 2 && m >= 1
      ensures Sized() && this.n == n && this.m == m && lenBest.Length == iterations
      ensures fresh(dis) && fresh(idis) && fresh(pher) && fresh(delta) && fresh(routes) && fresh(len)
      ensures fresh(lenBest) && fresh(pathBest)
    {
      this.n := n;
      this.m := m;
      dis := new nat[n, n];
      idis := new real[n, n];
      pher := new real[n, n];
      delta := new real[n, n];
      routes := new nat[m, n];
      len := new nat[m];
      lenBest := new nat[iterations];
      pathBest := new nat[iterations, n];
    }

    /** Distances are positive and symmetric; their inverses are positive. */
    ghost predicate Surveyed()
      requires Sized()
      reads this, dis, idis
    {
      forall a, b :: 0 <= a < n && 0 <= b < n ==>
        idis[a, b] > 0.0 && dis[a, b] == dis[b, a] && (a != b ==> dis[a, b] > 0)
    }

    /** Ant i's route so far is s. */
    ghost predicate RowIs(i: nat, s: seq<nat>)
      requires Sized() && i < m
      reads this, routes
    {
      |s| <= n && forall k :: 0 <= k < |s| ==> routes[i, k] == s[k]
    }

    // ---------- Snapshots ----------

    /** One level for each pair of points. */
    ghost predicate Fits(v: Levels) {
      |v| == n && forall a :: 0 <= a < n ==> |v[a]| == n
    }

    /** v is what the matrix holds. */
    ghost predicate Holds(a: array2<real>, v: Levels)
      requires a.Length0 == a.Length1 == n
      reads a
    {
      Fits(v) && forall p, q :: 0 <= p < n && 0 <= q < n ==> a[p, q] == v[p][q]
    }

    ghost function Snapshot(a: array2<real>): (v: Levels)
      requires a.Length0 == a.Length1 == n
      reads a
      ensures Holds(a, v)
    {
      seq(n, p requires 0 <= p < n reads a => seq(n, q requires 0 <= q < n reads a => a[p, q]))
    }

    ghost predicate Mirrored(v: Levels) {
      Fits(v) && forall p, q :: 0 <= p < n && 0 <= q < n ==> v[p][q] == v[q][p]
    }

    ghost predicate AllPositive(v: Levels) {
      Fits(v) && forall p, q :: 0 <= p < n && 0 <= q < n ==> v[p][q] > 0.0
    }

    ghost predicate NoneNegative(v: Levels) {
      Fits(v) && forall p, q :: 0 <= p < n && 0 <= q < n ==> v[p][q] >= 0.0
    }

    /** Both matrices are symmetric, pher is positive and delta is not negative. */
    ghost predicate Healthy(t: Trails) {
      Mirrored(t.pher) && Mirrored(t.delta) && AllPositive(t.pher) && NoneNegative(t.delta)
    }

    // ---------- The wheel ----------

    /** The attraction of point q from point p under the pheromone levels v. */
    ghost function Weight(v: Levels, p: nat, q: nat): real
      requires Sized() && Fits(v) && p < n && q < n
      reads this, idis
    {
      v[p][q] * idis[p, q]
    }

    /** The wheel over the candidates c. */
    ghost function Wheel(v: Levels, p: nat, c: seq<nat>): (w: seq<real>)
      requires Sized() && Fits(v) && p < n && Below(c, n)
      reads this, idis
      ensures |w| == |c| && forall k :: 0 <= k < |c| ==> w[k] == Weight(v, p, c[k])
    {
      if c == [] then [] else Wheel(v, p, c[..|c| - 1]) + [Weight(v, p, c[|c| - 1])]
    }

    /** A candidate's slot grows in proportion to the pheromone on the way to it. */
    lemma SlotFollowsPheromone(v: Levels, w: Levels, p: nat, c: seq<nat>, k: nat, factor: real)
      requires Sized() && Fits(v) && Fits(w) && p < n && Below(c, n) && k < |c|
      requires w[p][c[k]] == factor * v[p][c[k]]
      ensures Wheel(w, p, c)[k] == factor * Wheel(v, p, c)[k]
    {
      hide Colony.Wheel;
      var q := c[k];
      Scaled(factor, v[p][q], idis[p, q], w[p][q], Weight(v, p, q), Weight(w, p, q));
    }

    /** Candidates equally near get slots in the ratio of their pheromones, and candidates with
        equal pheromones get slots in the ratio of their inverse distances. */
    lemma SlotRatio(v: Levels, p: nat, c: seq<nat>, j: nat, k: nat)
      requires Sized() && Fits(v) && p < n && Below(c, n) && j < |c| && k < |c|
      ensures idis[p, c[j]] == idis[p, c[k]] ==>
        Wheel(v, p, c)[j] * v[p][c[k]] == Wheel(v, p, c)[k] * v[p][c[j]]
      ensures v[p][c[j]] == v[p][c[k]] ==>
        Wheel(v, p, c)[j] * idis[p, c[k]] == Wheel(v, p, c)[k] * idis[p, c[j]]
    {
      hide Colony.Wheel;
      var q, r := c[j], c[k];
      Crosswise(v[p][q], idis[p, q], v[p][r], idis[p, r], Weight(v, p, q), Weight(v, p, r));
    }

    /** next is the candidate on which the wheel stops for this draw. */
    ghost predicate Rolled(v: Levels, s: seq<nat>, draw: nat, next: nat)
      requires Sized() && Fits(v)
      reads this, idis
    {
      s != [] && Below(s, n) &&
      var c := Unvisited(s, n);
      var w := Wheel(v, s[|s| - 1], c);
      exists k: nat :: InSlot(w, RandN(draw, 0.0, Sum(w)), k) && c[k] == next
    }

    lemma StoppedAt(v: Levels, s: seq<nat>, draw: nat, c: seq<nat>, w: seq<real>, k: nat)
      requires Sized() && Fits(v) && s != [] && Below(s, n) && c == Unvisited(s, n) && w == Wheel(v, s[|s| - 1], c)
      requires InSlot(w, RandN(draw, 0.0, Sum(w)), k)
      ensures k < |c| && c[k] < n && c[k] !in s && Rolled(v, s, draw, c[k])
    {
      assert c[k] in c;
    }

    /** With positive levels the draw decides. */
    lemma RolledIsUnique(v: Levels, s: seq<nat>, draw: nat, a: nat, b: nat)
      requires Sized() && Surveyed() && AllPositive(v) && Rolled(v, s, draw, a) && Rolled(v, s, draw, b)
      ensures a == b
    {
      var c := Unvisited(s, n);
      var w := Wheel(v, s[|s| - 1], c);
      var rate := RandN(draw, 0.0, Sum(w));
      var j: nat :| InSlot(w, rate, j) && c[j] == a;
      var k: nat :| InSlot(w, rate, k) && c[k] == b;
      WheelIsPositive(v, s[|s| - 1], c);
      SlotIsUnique(w, rate, j, k);
    }

    ghost predicate PherPositive()
      requires Sized()
      reads this, pher
    {
      forall a, b :: 0 <= a < n && 0 <= b < n ==> pher[a, b] > 0.0
    }

    method MarkBeen(i: nat, j: nat, ghost s: seq<nat>) returns (been: array<bool>)
      requires Sized() && i < m && RowIs(i, s) && |s| == j && Below(s, n)
      ensures fresh(been) && been.Length == n
      ensures forall p :: 0 <= p < n ==> (been[p] <==> p in s)
    {
      been := new bool[n](_ => false);
      for k := 0 to j
        invariant forall p :: 0 <= p < n ==> (been[p] <==> p in s[..k])
      {
        assert s[..k + 1] == s[..k] + [s[k]];
        been[routes[i, k]] := true;
      }
      assert s[..j] == s;
    }

    method ListUnvisited(been: array<bool>, ghost s: seq<nat>) returns (unvis: array<nat>, cnt: nat)
      requires Sized() && been.Length == n && forall p :: 0 <= p < n ==> (been[p] <==> p in s)
      ensures fresh(unvis) && cnt <= unvis.Length && unvis[..cnt] == Unvisited(s, n)
    {
      hide Unvisited, Colony.Sized;
      unvis := new nat[n](_ => 0);
      cnt := 0;
      UnvisitedStep(s, 0);
      for k := 0 to n
        invariant cnt <= k && unvis[..cnt] == Unvisited(s, k)
      {
        UnvisitedStep(s, k);
        if !been[k] {
          unvis[cnt] := k;
          assert unvis[..cnt + 1] == unvis[..cnt] + [k];
          cnt := cnt + 1;
        }
      }
    }

    /** P and Psum. */
    method FillWheel(prev: nat, unvis: array<nat>, cnt: nat, ghost v: Levels, ghost c: seq<nat>)
      returns (p: array<real>, psum: real)
      requires Sized() && Holds(pher, v) && prev < n && cnt <= unvis.Length && unvis[..cnt] == c && Below(c, n)
      ensures fresh(p) && p.Length == cnt && p[..] == Wheel(v, prev, c) && psum == Sum(p[..])
    {
      ghost var w := Wheel(v, prev, c);
      p := new real[cnt](_ => 0.0);
      psum := 0.0;
      for k := 0 to cnt
        invariant p[..k] == w[..k] && psum == Sum(w[..k])
      {
        assert unvis[k] == c[k] < n && w[k] == Weight(v, prev, c[k]);
        var weight := pher[prev, unvis[k]] * idis[prev, unvis[k]];
        assert weight == w[k];
        p[k] := weight;
        assert w[..k + 1] == w[..k] + [w[k]] && w[..k + 1][..k] == w[..k];
        assert p[..k + 1] == p[..k] + [weight];
        psum := psum + p[k];
      }
      assert w[..cnt] == w && p[..cnt] == p[..];
    }

    lemma WheelIsPositive(v: Levels, p: nat, c: seq<nat>)
      requires Sized() && Surveyed() && AllPositive(v) && p < n && Below(c, n)
      ensures Positive(Wheel(v, p, c))
    {
      forall k | 0 <= k < |c|
        ensures Weight(v, p, c[k]) > 0.0
      {
        ProductPositive(v[p][c[k]], idis[p, c[k]]);
      }
    }

    lemma WheelHasSlots(s: seq<nat>, st: nat, c: seq<nat>)
      requires IsTour(s, n, st) && |s| < n && c == Unvisited(s, n)
      ensures c != []
    {
      var p := ShortTourLeavesOne(s, n, st);
      assert p in c;
    }

    /** The choice of the i-th ant's j-th point: the wheel always stops, on a point not
        visited yet. */
    method Choose(i: nat, j: nat, draw: nat, ghost v: Levels, ghost s: seq<nat>, ghost st: nat) returns (next: nat)
      requires Sized() && Surveyed() && Holds(pher, v) && AllPositive(v) && i < m && 0 < j < n
      requires RowIs(i, s) && |s| == j && IsTour(s, n, st)
      ensures IsTour(s + [next], n, st) && Rolled(v, s, draw, next)
    {
      hide IsTour, Unvisited, Sum, RandN, InSlot, Colony.Wheel, Colony.Rolled, Colony.Surveyed,
           Colony.AllPositive, Positive;
      TourBelow(s, n, st);
      var prev := routes[i, j - 1];
      var been := MarkBeen(i, j, s);
      var unvis, cnt := ListUnvisited(been, s);
      ghost var c := Unvisited(s, n);
      var p, psum := FillWheel(prev, unvis, cnt, v, c);
      WheelIsPositive(v, prev, c);
      WheelHasSlots(s, st, c);
      SumIsPositive(p[..]);
      var rate := RandN(draw, 0.0, psum);
      var k := Spin(p, rate);
      StoppedAt(v, s, draw, c, p[..], k);
      next := unvis[k];
      assert next == unvis[..cnt][k];
      TourExtends(s, next, n, st);
    }

    /** s is a tour from st on which every move of ant i in iteration it is the one its wheel
        stopped on. */
    ghost predicate RolledTour(v: Levels, s: seq<nat>, it: nat, i: nat, st: nat, draws: Draws)
      requires Sized() && Fits(v)
      reads this, idis
    {
      IsTour(s, n, st) && forall j: nat :: 0 < j < |s| ==> Rolled(v, s[..j], draws(it, j, i), s[j])
    }

    lemma RolledTourGrows(v: Levels, s: seq<nat>, next: nat, it: nat, i: nat, st: nat, draws: Draws)
      requires Sized() && Fits(v) && RolledTour(v, s, it, i, st, draws)
      requires IsTour(s + [next], n, st) && Rolled(v, s, draws(it, |s|, i), next)
      ensures RolledTour(v, s + [next], it, i, st, draws)
    {
      hide IsTour, Colony.Rolled, Colony.Fits;
      var t := s + [next];
      forall j: nat | 0 < j < |t|
        ensures Rolled(v, t[..j], draws(it, j, i), t[j])
      {
        if j < |s| {
          assert t[..j] == s[..j];
        } else {
          assert t[..j] == s;
        }
      }
    }

    /** The pheromones and the random numbers decide a tour. */
    lemma {:induction false} RolledTourIsUnique(v: Levels, s: seq<nat>, t: seq<nat>, it: nat, i: nat, st: nat,
                                                draws: Draws, k: nat)
      requires Sized() && Surveyed() && AllPositive(v)
      requires RolledTour(v, s, it, i, st, draws) && RolledTour(v, t, it, i, st, draws) && |s| == |t| >= k
      ensures s[..k] == t[..k]
    {
      hide Colony.Rolled, Colony.Surveyed;
      if k > 0 {
        RolledTourIsUnique(v, s, t, it, i, st, draws, k - 1);
        if k > 1 {
          RolledIsUnique(v, s[..k - 1], draws(it, k - 1, i), s[k - 1], t[k - 1]);
        }
        assert s[..k] == s[..k - 1] + [s[k - 1]] && t[..k] == t[..k - 1] + [t[k - 1]];
      }
    }

    /** The first k ants have made j moves, the others j - 1. */
    ghost predicate Under(v: Levels, rows: seq<seq<nat>>, k: nat, j: nat, it: nat, st: nat, draws: Draws)
      requires Sized() && Fits(v)
      reads this, routes, idis
    {
      |rows| == m && forall i: nat :: i < m ==>
        RowIs(i, rows[i]) && RolledTour(v, rows[i], it, i, st, draws) && |rows[i]| == if i < k then j + 1 else j
    }

    method Begin(it: nat, st: nat, draws: Draws, ghost v: Levels) returns (ghost rows: seq<seq<nat>>)
      requires Sized() && Fits(v) && st < n
      modifies routes
      ensures Under(v, rows, 0, 1, it, st, draws)
    {
      for i := 0 to m
        invariant forall a: nat :: a < i ==> routes[a, 0] == st
      {
        routes[i, 0] := st;
      }
      rows := seq(m, _ => [st]);
    }

    method Move(i: nat, j: nat, it: nat, st: nat, draws: Draws, ghost v: Levels, ghost rows: seq<seq<nat>>)
      returns (ghost rows': seq<seq<nat>>)
      requires Sized() && Surveyed() && Holds(pher, v) && AllPositive(v) && i < m && 0 < j < n
      requires Under(v, rows, i, j, it, st, draws)
      modifies routes
      ensures Under(v, rows', i + 1, j, it, st, draws)
    {
      hide IsTour, Colony.Rolled, Colony.Surveyed, Colony.AllPositive, Colony.Fits;
      ghost var s := rows[i];
      assert RolledTour(v, s, it, i, st, draws);
      var next := Choose(i, j, draws(it, j, i), v, s, st);
      RolledTourGrows(v, s, next, it, i, st, draws);
      ghost var t := s + [next];
      routes[i, j] := next;
      rows' := rows[i := t];
      forall a: nat | a < m
        ensures RowIs(a, rows'[a]) && RolledTour(v, rows'[a], it, a, st, draws)
      {
        assert a != i ==> RolledTour(v, rows[a], it, a, st, draws);
      }
    }

    /** Every ant's route is a tour of all points from st, each move the one its wheel stopped
        on under the pheromones v. */
    ghost predicate RolledTours(v: Levels, rows: seq<seq<nat>>, it: nat, st: nat, draws: Draws)
      requires Sized() && Fits(v)
      reads this, idis
    {
      |rows| == m && forall i: nat :: i < m ==> |rows[i]| == n && RolledTour(v, rows[i], it, i, st, draws)
    }

    lemma RolledToursAreUnique(v: Levels, rows: seq<seq<nat>>, rows': seq<seq<nat>>, it: nat, st: nat, draws: Draws)
      requires Sized() && Surveyed() && AllPositive(v)
      requires RolledTours(v, rows, it, st, draws) && RolledTours(v, rows', it, st, draws)
      ensures rows == rows'
    {
      hide Colony.RolledTour, Colony.Surveyed, Colony.AllPositive;
      forall i: nat | i < m
        ensures rows[i] == rows'[i]
      {
        RolledTourIsUnique(v, rows[i], rows'[i], it, i, st, draws, n);
        assert rows[i][..n] == rows[i] && rows'[i][..n] == rows'[i];
      }
    }

    /** The routing loops. The routes are also returned for the specification. */
    method BuildRoutes(it: nat, st: nat, draws: Draws, ghost v: Levels) returns (ghost rows: seq<seq<nat>>)
      requires Sized() && Surveyed() && Holds(pher, v) && AllPositive(v) && st < n
      modifies routes
      ensures RolledTours(v, rows, it, st, draws) && RoutesAre(rows)
    {
      rows := Begin(it, st, draws, v);
      for j := 1 to n
        invariant Under(v, rows, 0, j, it, st, draws)
      {
        for i := 0 to m
          invariant Under(v, rows, i, j, it, st, draws)
        {
          rows := Move(i, j, it, st, draws, v, rows);
        }
      }
    }

    // ---------- Lengths ----------

    /** rows are full tours from st, one an ant. */
    ghost predicate FullTours(rows: seq<seq<nat>>, st: nat)
      requires Sized()
      reads this
    {
      |rows| == m && forall i: nat :: i < m ==> |rows[i]| == n && Below(rows[i], n) && IsTour(rows[i], n, st)
    }

    ghost predicate RoutesAre(rows: seq<seq<nat>>)
      requires Sized()
      reads this, routes
    {
      |rows| == m && forall i: nat :: i < m ==> RowIs(i, rows[i])
    }

    ghost function LengthOf(s: seq<nat>): nat
      requires Sized() && |s| == n && Below(s, n)
      reads this, dis
    {
      TourLen(dis, s, n - 1)
    }

    method MeasureAnt(i: nat, ghost s: seq<nat>) returns (total: nat)
      requires Sized() && i < m && RowIs(i, s) && |s| == n && Below(s, n)
      ensures total == LengthOf(s)
    {
      total := 0;
      for j := 0 to n - 1
        invariant total == TourLen(dis, s, j)
      {
        assert s[j] < n && s[j + 1] < n;
        total := total + dis[routes[i, j], routes[i, j + 1]];
      }
    }

    method Measure(ghost rows: seq<seq<nat>>, ghost st: nat)
      requires Sized() && RoutesAre(rows) && FullTours(rows, st)
      modifies len
      ensures forall i: nat :: i < m ==> len[i] == LengthOf(rows[i])
    {
      for i := 0 to m
        invariant forall a: nat :: a < i ==> len[a] == LengthOf(rows[a])
      {
        len[i] := MeasureAnt(i, rows[i]);
      }
    }

    lemma {:induction false} LengthIsPositive(s: seq<nat>, st: nat, k: nat)
      requires Sized() && Surveyed() && |s| == n && IsTour(s, n, st) && 0 < k < n
      ensures TourLen(dis, s, k) > 0
    {
      assert s[k - 1] != s[k];
      if k > 1 {
        LengthIsPositive(s, st, k - 1);
      }
    }

    // ---------- The best tour of an iteration ----------

    /** best is the first of the tours rows that has the least length. */
    ghost predicate BestOf(rows: seq<seq<nat>>, st: nat, best: seq<nat>)
      requires Sized()
      reads this, dis
    {
      FullTours(rows, st) && exists k: nat :: BestIs(rows, k) && rows[k] == best
    }

    ghost predicate BestIs(rows: seq<seq<nat>>, k: nat)
      requires Sized() && |rows| == m && forall i: nat :: i < m ==> |rows[i]| == n && Below(rows[i], n)
      reads this, dis
    {
      && k < m
      && (forall i: nat :: i < m ==> LengthOf(rows[k]) <= LengthOf(rows[i]))
      && (forall i: nat :: i < k ==> LengthOf(rows[k]) < LengthOf(rows[i]))
    }

    /** Record it holds the tour best and its length. */
    ghost predicate Recorded(it: nat, best: seq<nat>)
      requires Sized() && it < lenBest.Length
      reads this, dis, lenBest, pathBest
    {
      && |best| == n && Below(best, n)
      && lenBest[it] == LengthOf(best)
      && forall j: nat :: j < n ==> pathBest[it, j] == best[j]
    }

    /** The record is a permutation of the points that begins at st, and as short as any tour
        of its iteration. */
    lemma BestIsPermutation(rows: seq<seq<nat>>, st: nat, best: seq<nat>)
      requires Sized() && BestOf(rows, st, best)
      ensures |best| == n && IsTour(best, n, st) && forall p :: 0 <= p < n ==> p in best
      ensures best in rows && forall i: nat :: i < m ==> LengthOf(best) <= LengthOf(rows[i])
      ensures exists k: nat :: k < m && rows[k] == best && forall i: nat :: i < k ==> LengthOf(rows[i]) > LengthOf(best)
    {
      var k: nat :| BestIs(rows, k) && rows[k] == best;
      FullTourVisitsAll(best, n, st);
    }

    method KeepBest(it: nat, ghost rows: seq<seq<nat>>, ghost st: nat) returns (ghost best: seq<nat>)
      requires Sized() && it < lenBest.Length && RoutesAre(rows) && FullTours(rows, st)
      requires forall i: nat :: i < m ==> len[i] == LengthOf(rows[i])
      modifies lenBest, pathBest
      ensures BestOf(rows, st, best) && Recorded(it, best)
      ensures forall k: nat :: k < lenBest.Length && k != it ==> lenBest[k] == old(lenBest[k])
      ensures forall k: nat, j: nat :: k < lenBest.Length && k != it && j < n ==> pathBest[k, j] == old(pathBest[k, j])
    {
      var minLen, minIndex := len[0], 0;
      for i := 1 to m
        invariant minIndex < i && minLen == len[minIndex]
        invariant forall a: nat :: a < i ==> minLen <= len[a]
        invariant forall a: nat :: a < minIndex ==> minLen < len[a]
      {
        if minLen > len[i] {
          minLen, minIndex := len[i], i;
        }
      }
      lenBest[it] := minLen;
      for i := 0 to n
        modifies pathBest
        invariant forall j: nat :: j < i ==> pathBest[it, j] == rows[minIndex][j]
        invariant forall k: nat, j: nat :: k < lenBest.Length && k != it && j < n ==>
          pathBest[k, j] == old(pathBest[k, j])
      {
        assert RowIs(minIndex, rows[minIndex]);
        pathBest[it, i] := routes[minIndex, i];
      }
      best := rows[minIndex];
      assert BestIs(rows, minIndex);
    }

    // ---------- Pheromones ----------

    ghost predicate Symmetric(a: array2<real>)
      requires Sized() && a.Length0 == a.Length1 == n
      reads this, a
    {
      forall p, q :: 0 <= p < n && 0 <= q < n ==> a[p, q] == a[q, p]
    }

    /** What one ant leaves between p and q. */
    ghost function Trace(s: seq<nat>, p: nat, q: nat, amount: real): real {
      if Adjacent(s, p, q, |s|) then amount else 0.0
    }

    /** What the first k ants leave. */
    ghost function Traces(rows: seq<seq<nat>>, p: nat, q: nat, k: nat): real
      requires Sized() && k <= |rows| == m && forall i: nat :: i < m ==> |rows[i]| == n && Below(rows[i], n)
      reads this, dis
    {
      if k == 0 then 0.0
      else Traces(rows, p, q, k - 1) + Trace(rows[k - 1], p, q, Amount(rows[k - 1]))
    }

    ghost function Amount(s: seq<nat>): real
      requires Sized() && |s| == n && Below(s, n)
      reads this, dis
    {
      if LengthOf(s) == 0 then 0.0 else Q / LengthOf(s) as real
    }

    /** The deposit loop of one ant. */
    method DepositAnt(i: nat, amount: real, ghost s: seq<nat>, ghost st: nat)
      requires Sized() && i < m && RowIs(i, s) && |s| == n && IsTour(s, n, st) && Symmetric(delta)
      modifies delta
      ensures forall p: nat, q: nat :: p < n && q < n ==> delta[p, q] == old(delta[p, q]) + Trace(s, p, q, amount)
    {
      for j := 0 to n - 1
        invariant forall p: nat, q: nat :: p < n && q < n ==>
          delta[p, q] == old(delta[p, q]) + if Adjacent(s, p, q, j) then amount else 0.0
      {
        var a, b := routes[i, j], routes[i, j + 1];
        assert a == s[j] < n && b == s[j + 1] < n;
        AdjacentIsSymmetric(s, a, b, j);
        delta[a, b] := delta[a, b] + amount;
        delta[b, a] := delta[a, b];
        forall p, q {
          AdjacentGrows(s, n, st, p, q, j);
        }
      }
      forall p, q {
        AdjacentGrows(s, n, st, p, q, n - 1);
      }
    }

    lemma TracesSymmetric(rows: seq<seq<nat>>, st: nat, p: nat, q: nat, k: nat)
      requires Sized() && FullTours(rows, st) && k <= m
      ensures Traces(rows, p, q, k) == Traces(rows, q, p, k) >= 0.0
    {
      if k > 0 {
        TracesSymmetric(rows, st, p, q, k - 1);
        AdjacentIsSymmetric(rows[k - 1], p, q, n);
        QuotientIsPositive(LengthOf(rows[k - 1]));
      }
    }

    lemma NoTraces(rows: seq<seq<nat>>, p: nat, q: nat)
      requires Sized() && |rows| == m && forall i: nat :: i < m ==> |rows[i]| == n && Below(rows[i], n)
      ensures Traces(rows, p, q, 0) == 0.0
    {
    }

    lemma TracesGrow(rows: seq<seq<nat>>, st: nat, p: nat, q: nat, i: nat)
      requires Sized() && FullTours(rows, st) && i < m
      ensures Traces(rows, p, q, i + 1) == Traces(rows, p, q, i) + Trace(rows[i], p, q, Amount(rows[i]))
    {
    }

    lemma AmountIs(s: seq<nat>, st: nat)
      requires Sized() && Surveyed() && |s| == n && IsTour(s, n, st)
      ensures LengthOf(s) > 0 && Amount(s) == Q / LengthOf(s) as real
    {
      LengthIsPositive(s, st, n - 1);
    }

    /** All deposits: each ant adds Q over its tour length between points its tour joins. */
    method Deposit(ghost rows: seq<seq<nat>>, ghost st: nat)
      requires Sized() && Surveyed() && RoutesAre(rows) && FullTours(rows, st) && Symmetric(delta)
      requires forall i: nat :: i < m ==> len[i] == LengthOf(rows[i])
      modifies delta
      ensures forall p: nat, q: nat :: p < n && q < n ==> delta[p, q] == old(delta[p, q]) + Traces(rows, p, q, m)
      ensures Symmetric(delta)
    {
      hide Colony.Surveyed, Colony.Trace, Colony.Traces, IsTour, Below, Colony.LengthOf;
      forall p: nat, q: nat | p < n && q < n {
        NoTraces(rows, p, q);
      }
      for i := 0 to m
        invariant Symmetric(delta)
        invariant forall p: nat, q: nat :: p < n && q < n ==> delta[p, q] == old(delta[p, q]) + Traces(rows, p, q, i)
      {
        AmountIs(rows[i], st);
        assert RowIs(i, rows[i]) && IsTour(rows[i], n, st);
        ghost var s, amount := rows[i], Amount(rows[i]);
        label Before:
        DepositAnt(i, Q / len[i] as real, s, st);
        forall p: nat, q: nat | p < n && q < n
          ensures delta[p, q] == old(delta[p, q]) + Traces(rows, p, q, i + 1)
        {
          TracesGrow(rows, st, p, q, i);
          assert delta[p, q] == old@Before(delta[p, q]) + Trace(s, p, q, amount);
          assert old@Before(delta[p, q]) == old(delta[p, q]) + Traces(rows, p, q, i);
        }
        forall p: nat, q: nat | p < n && q < n
          ensures delta[p, q] == delta[q, p]
        {
          TracesSymmetric(rows, st, p, q, i + 1);
        }
      }
    }

    method Evaporate()
      requires Sized()
      modifies pher
      ensures forall p: nat, q: nat :: p < n && q < n ==> pher[p, q] == Decay(old(pher[p, q]), delta[p, q])
    {
      for i := 0 to n
        invariant forall p: nat, q: nat :: p < n && q < n ==>
          pher[p, q] == if p < i then Decay(old(pher[p, q]), delta[p, q]) else old(pher[p, q])
      {
        for j := 0 to n
          invariant forall p: nat, q: nat :: p < n && q < n ==>
            pher[p, q] == if p < i || (p == i && q < j) then Decay(old(pher[p, q]), delta[p, q]) else old(pher[p, q])
        {
          pher[i, j] := Decay(pher[i, j], delta[i, j]);
        }
      }
    }

    // ---------- Iterations ----------

    /** Both matrices are symmetric, pher is positive and delta is not negative. */
    ghost predicate GoodTrails()
      requires Sized()
      reads this, pher, delta
    {
      Symmetric(pher) && Symmetric(delta) && PherPositive() && DeltaNotNegative()
    }

    ghost predicate DeltaNotNegative()
      requires Sized()
      reads this, delta
    {
      forall p, q :: 0 <= p < n && 0 <= q < n ==> delta[p, q] >= 0.0
    }

    /** Evaporation keeps symmetry and positivity. */
    method EvaporateTrails()
      requires Sized() && Symmetric(pher) && Symmetric(delta) && PherPositive() && DeltaNotNegative()
      modifies pher
      ensures forall p: nat, q: nat :: p < n && q < n ==> pher[p, q] == Decay(old(pher[p, q]), delta[p, q])
      ensures Symmetric(pher) && PherPositive()
    {
      Evaporate();
      forall p, q | 0 <= p < n && 0 <= q < n
        ensures pher[p, q] == pher[q, p] > 0.0
      {
        assert old(pher[p, q]) == old(pher[q, p]) > 0.0;
        assert delta[p, q] == delta[q, p] >= 0.0;
      }
    }

    /** Deposits never lower an entry. */
    method DepositTrails(ghost rows: seq<seq<nat>>, ghost st: nat)
      requires Sized() && Surveyed() && RoutesAre(rows) && FullTours(rows, st) && Symmetric(delta) && DeltaNotNegative()
      requires forall i: nat :: i < m ==> len[i] == LengthOf(rows[i])
      modifies delta
      ensures forall p: nat, q: nat :: p < n && q < n ==>
        delta[p, q] == old(delta[p, q]) + Traces(rows, p, q, m) && delta[p, q] >= old(delta[p, q])
      ensures Symmetric(delta) && DeltaNotNegative()
    {
      hide Colony.Traces, IsTour, Colony.Surveyed, Below, Symmetric;
      Deposit(rows, st);
      forall p: nat, q: nat | p < n && q < n
        ensures Traces(rows, p, q, m) >= 0.0
      {
        TracesSymmetric(rows, st, p, q, m);
      }
    }

    ghost predicate TrailsAre(t: Trails)
      requires Sized()
      reads this, pher, delta
    {
      Holds(pher, t.pher) && Holds(delta, t.delta)
    }

    lemma HealthyIff(t: Trails)
      requires Sized() && TrailsAre(t)
      ensures Healthy(t) <==> GoodTrails()
      ensures Healthy(t) ==> AllPositive(t.pher)
    {
      assert Mirrored(t.pher) <==> Symmetric(pher);
      assert Mirrored(t.delta) <==> Symmetric(delta);
    }

    /** t' is t after the deposits of the tours rows and evaporation. */
    ghost predicate Updated(rows: seq<seq<nat>>, st: nat, t: Trails, t': Trails)
      requires Sized() && FullTours(rows, st)
      reads this, dis
    {
      && Fits(t.pher) && Fits(t.delta) && Fits(t'.pher) && Fits(t'.delta)
      && forall p: nat, q: nat :: p < n && q < n ==>
        && t'.delta[p][q] == t.delta[p][q] + Traces(rows, p, q, m)
        && t'.pher[p][q] == Decay(t.pher[p][q], t'.delta[p][q])
    }

    /** Iteration it, from the pheromones t to t': the ants walk rows, best is the best of them. */
    ghost predicate Iterated(it: nat, st: nat, draws: Draws, t: Trails, rows: seq<seq<nat>>, best: seq<nat>, t': Trails)
      requires Sized()
      reads this, dis, idis
    {
      && Fits(t.pher) && RolledTours(t.pher, rows, it, st, draws)
      && BestOf(rows, st, best)
      && Updated(rows, st, t, t')
    }

    /** Deposits and evaporation. */
    method UpdateTrails(ghost rows: seq<seq<nat>>, ghost st: nat, ghost t: Trails) returns (ghost t': Trails)
      requires Sized() && Surveyed() && TrailsAre(t) && GoodTrails() && RoutesAre(rows) && FullTours(rows, st)
      requires forall i: nat :: i < m ==> len[i] == LengthOf(rows[i])
      modifies pher, delta
      ensures TrailsAre(t') && GoodTrails() && Updated(rows, st, t, t')
      ensures forall p: nat, q: nat :: p < n && q < n ==> t'.delta[p][q] >= t.delta[p][q]
    {
      hide Decay, Colony.Traces, IsTour, Colony.Surveyed, Below, Symmetric, Colony.PherPositive,
           Colony.DeltaNotNegative;
      DepositTrails(rows, st);
      EvaporateTrails();
      t' := Trails(Snapshot(pher), Snapshot(delta));
    }

    lemma UpdatedAt(rows: seq<seq<nat>>, st: nat, t: Trails, t': Trails, p: nat, q: nat)
      requires Sized() && FullTours(rows, st) && Healthy(t) && Updated(rows, st, t, t') && p < n && q < n
      ensures t'.delta[p][q] == t'.delta[q][p] >= t.delta[p][q] >= 0.0
      ensures t'.pher[p][q] == t'.pher[q][p] > 0.0
    {
      hide IsTour, Colony.Traces, Colony.LengthOf, Below;
      TracesSymmetric(rows, st, p, q, m);
      assert t'.delta[p][q] == t.delta[p][q] + Traces(rows, p, q, m);
      assert t'.delta[q][p] == t.delta[q][p] + Traces(rows, q, p, m);
      assert t.delta[p][q] == t.delta[q][p] >= 0.0;
      assert t.pher[p][q] == t.pher[q][p] > 0.0;
    }

    lemma IteratedKeepsHealthy(it: nat, st: nat, draws: Draws, t: Trails, rows: seq<seq<nat>>, best: seq<nat>,
                               t': Trails)
      requires Sized() && Healthy(t) && Iterated(it, st, draws, t, rows, best, t')
      ensures Healthy(t')
      ensures forall p: nat, q: nat :: p < n && q < n ==> t'.delta[p][q] >= t.delta[p][q]
    {
      hide IsTour, Colony.Traces, Colony.RolledTours, Colony.BestIs;
      forall p: nat, q: nat | p < n && q < n
        ensures t'.delta[p][q] >= t.delta[p][q] >= 0.0
      {
        UpdatedAt(rows, st, t, t', p, q);
      }
      forall p: nat, q: nat | p < n && q < n
        ensures t'.pher[p][q] > 0.0
      {
        UpdatedAt(rows, st, t, t', p, q);
      }
      forall p: nat, q: nat | p < n && q < n
        ensures t'.pher[p][q] == t'.pher[q][p]
      {
        UpdatedAt(rows, st, t, t', p, q);
      }
      forall p: nat, q: nat | p < n && q < n
        ensures t'.delta[p][q] == t'.delta[q][p]
      {
        UpdatedAt(rows, st, t, t', p, q);
      }
    }

    /** An iteration is decided by its random numbers and the pheromones it starts from. */
    lemma IteratedIsUnique(it: nat, st: nat, draws: Draws, t: Trails, rows: seq<seq<nat>>, best: seq<nat>, t': Trails,
                           rows2: seq<seq<nat>>, best2: seq<nat>, t2: Trails)
      requires Sized() && Surveyed() && Healthy(t)
      requires Iterated(it, st, draws, t, rows, best, t') && Iterated(it, st, draws, t, rows2, best2, t2)
      ensures rows == rows2 && best == best2 && t' == t2
    {
      hide IsTour, Colony.Traces, Colony.RolledTours, Colony.Surveyed, Colony.LengthOf, Decay;
      RolledToursAreUnique(t.pher, rows, rows2, it, st, draws);
      var j: nat :| BestIs(rows, j) && rows[j] == best;
      var k: nat :| BestIs(rows, k) && rows[k] == best2;
      assert j == k;
      forall p: nat | p < n
        ensures t'.delta[p] == t2.delta[p] && t'.pher[p] == t2.pher[p]
      {
        forall q: nat | q < n
          ensures t'.delta[p][q] == t2.delta[p][q] && t'.pher[p][q] == t2.pher[p][q]
        {
        }
      }
    }

    /** One iteration: tours are built with the pheromones found, the best is kept, and the
        pheromones follow. */
    method Iterate(it: nat, st: nat, draws: Draws, ghost t: Trails)
      returns (ghost rows: seq<seq<nat>>, ghost best: seq<nat>, ghost t': Trails)
      requires Sized() && Surveyed() && TrailsAre(t) && Healthy(t) && st < n && it < lenBest.Length
      modifies pher, delta, routes, len, lenBest, pathBest
      ensures Iterated(it, st, draws, t, rows, best, t') && Recorded(it, best)
      ensures TrailsAre(t') && Healthy(t')
      ensures forall k: nat :: k < lenBest.Length && k != it ==> lenBest[k] == old(lenBest[k])
      ensures forall k: nat, j: nat :: k < lenBest.Length && k != it && j < n ==> pathBest[k, j] == old(pathBest[k, j])
    {
      hide Colony.Traces, IsTour, Colony.Rolled, Colony.Surveyed, Decay, Colony.BestOf, Symmetric,
           Colony.DeltaNotNegative, Colony.Healthy, Colony.AllPositive, Colony.RolledTours,
           Colony.Updated, Colony.GoodTrails;
      HealthyIff(t);
      rows := BuildRoutes(it, st, draws, t.pher);
      RolledToursAreFull(t.pher, rows, it, st, draws);
      Measure(rows, st);
      best := KeepBest(it, rows, st);
      t' := UpdateTrails(rows, st, t);
      HealthyIff(t');
      ClearRoutes();
    }

    lemma RolledToursAreFull(v: Levels, rows: seq<seq<nat>>, it: nat, st: nat, draws: Draws)
      requires Sized() && Fits(v) && RolledTours(v, rows, it, st, draws)
      ensures FullTours(rows, st)
    {
    }

    /** memset(routes, 0, ...) */
    method ClearRoutes()
      requires Sized()
      modifies routes
      ensures forall i, j :: 0 <= i < m && 0 <= j < n ==> routes[i, j] == 0
    {
      forall i, j | 0 <= i < m && 0 <= j < n {
        routes[i, j] := 0;
      }
    }

    // ---------- Setting up ----------

    /** init_tag(0): distances between the points, their inverses raised to the fifth power,
        and a pheromone level of one everywhere. */
    method InitTag(points: seq<(int, int)>)
      requires Sized() && |points| == n
      requires forall a, b :: 0 <= a < b < n ==> points[a] != points[b]
      modifies dis, idis, pher
      ensures forall a, b :: 0 <= a < n && 0 <= b < n ==>
        && dis[a, b] == Dist(points[a], points[b])
        && idis[a, b] == Pow5(Inverse(a == b, dis[a, b]))
        && pher[a, b] == 1.0
      ensures Surveyed() && Symmetric(pher) && PherPositive()
    {
      hide Dist, Inverse, Pow5;
      SetTables(points);
      RaiseInverses();
      forall a, b | 0 <= a < n && 0 <= b < n
        ensures idis[a, b] > 0.0 && dis[a, b] == dis[b, a] && (a != b ==> dis[a, b] > 0)
      {
        DistIsMetric(points[a], points[b]);
        PowerIsPositive(a == b, dis[a, b]);
      }
    }

    /** Its first loop. */
    method SetTables(points: seq<(int, int)>)
      requires Sized() && |points| == n
      requires forall a, b :: 0 <= a < b < n ==> points[a] != points[b]
      modifies dis, idis, pher
      ensures forall a, b :: 0 <= a < n && 0 <= b < n ==>
            dis[a, b] == Dist(points[a], points[b]) && idis[a, b] == Inverse(a == b, dis[a, b]) && pher[a, b] == 1.0
    {
      hide Dist, Inverse;
      for i := 0 to n
        invariant forall a, b :: 0 <= a < i && 0 <= b < n ==>
            dis[a, b] == Dist(points[a], points[b]) && idis[a, b] == Inverse(a == b, dis[a, b]) && pher[a, b] == 1.0
      {
        for j := 0 to n
          invariant forall a, b :: (0 <= a < i && 0 <= b < n) || (a == i && 0 <= b < j) ==>
            dis[a, b] == Dist(points[a], points[b]) && idis[a, b] == Inverse(a == b, dis[a, b]) && pher[a, b] == 1.0
        {
          DistIsMetric(points[i], points[j]);
          InverseIs(i == j, Dist(points[i], points[j]));
          if i == j {
            dis[i, j], idis[i, j] := 0, INF as real;
          } else {
            dis[i, j] := Dist(points[i], points[j]);
            idis[i, j] := 100.0 / dis[i, j] as real;
          }
          pher[i, j] := 1.0;
        }
      }
    }

    /** The loop that raises idis to the power beta. */
    method RaiseInverses()
      requires Sized()
      modifies idis
      ensures forall a, b :: 0 <= a < n && 0 <= b < n ==> idis[a, b] == Pow5(old(idis[a, b]))
    {
      for i := 0 to n
        invariant forall a, b :: 0 <= a < n && 0 <= b < n ==>
          idis[a, b] == if a < i then Pow5(old(idis[a, b])) else old(idis[a, b])
      {
        for j := 0 to n
          invariant forall a, b :: 0 <= a < n && 0 <= b < n ==>
            idis[a, b] == if a < i || (a == i && b < j) then Pow5(old(idis[a, b])) else old(idis[a, b])
        {
          idis[i, j] := Pow5(idis[i, j]);
        }
      }
    }

    // ---------- The whole run ----------

    /** The length of a tour with the leg home from its last point. */
    ghost function HomeLength(s: seq<nat>, leg: nat -> nat): nat
      requires Sized() && |s| == n && Below(s, n)
      reads this, dis
    {
      LengthOf(s) + leg(s[n - 1])
    }

    /** ... of every tour in bests. */
    ghost function HomeLengths(bests: seq<seq<nat>>, leg: nat -> nat): (t: seq<nat>)
      requires Sized() && forall it :: 0 <= it < |bests| ==> |bests[it]| == n && Below(bests[it], n)
      reads this, dis
      ensures |t| == |bests| && forall it :: 0 <= it < |t| ==> t[it] == HomeLength(bests[it], leg)
    {
      if bests == [] then []
      else HomeLengths(bests[..|bests| - 1], leg) + [HomeLength(bests[|bests| - 1], leg)]
    }

    /** A whole run: from one snapshot of the pheromones to the next, each iteration's ants walk
        the tours that the random numbers give under the snapshot it starts from, bests holds
        the best of them, and the next snapshot follows from the tours. */
    ghost predicate Ran(st: nat, draws: Draws, trails: seq<Trails>, history: seq<seq<seq<nat>>>, bests: seq<seq<nat>>)
      requires Sized()
      reads this, dis, idis
    {
      && |trails| == |history| + 1 == |bests| + 1
      && forall it: nat :: it < |bests| ==> Iterated(it, st, draws, trails[it], history[it], bests[it], trails[it + 1])
    }

    /** Through a run the pheromones stay symmetric and positive, and delta never falls. */
    lemma {:induction false} RunKeepsHealthy(st: nat, draws: Draws, trails: seq<Trails>, history: seq<seq<seq<nat>>>,
                                             bests: seq<seq<nat>>, a: nat, b: nat)
      requires Sized() && Ran(st, draws, trails, history, bests) && Healthy(trails[0]) && a <= b <= |bests|
      ensures Healthy(trails[a]) && Healthy(trails[b])
      ensures forall p: nat, q: nat :: p < n && q < n ==> trails[a].delta[p][q] <= trails[b].delta[p][q]
      decreases b
    {
      hide Colony.Iterated;
      if a < b {
        RunKeepsHealthy(st, draws, trails, history, bests, a, b - 1);
        IteratedKeepsHealthy(b - 1, st, draws, trails[b - 1], history[b - 1], bests[b - 1], trails[b]);
      } else if b > 0 {
        RunKeepsHealthy(st, draws, trails, history, bests, b - 1, b - 1);
        IteratedKeepsHealthy(b - 1, st, draws, trails[b - 1], history[b - 1], bests[b - 1], trails[b]);
      }
    }

    /** Two runs with the same random numbers from the same pheromones are the same run. */
    lemma {:induction false} RunIsUnique(st: nat, draws: Draws, trails: seq<Trails>, history: seq<seq<seq<nat>>>,
                                         bests: seq<seq<nat>>, trails2: seq<Trails>, history2: seq<seq<seq<nat>>>,
                                         bests2: seq<seq<nat>>, k: nat)
      requires Sized() && Surveyed()
      requires Ran(st, draws, trails, history, bests) && Ran(st, draws, trails2, history2, bests2)
      requires trails[0] == trails2[0] && Healthy(trails[0]) && k <= |bests| && k <= |bests2|
      ensures trails[..k + 1] == trails2[..k + 1] && history[..k] == history2[..k] && bests[..k] == bests2[..k]
    {
      hide Colony.Iterated, Colony.Healthy, Colony.Surveyed;
      if k > 0 {
        var i := k - 1;
        RunIsUnique(st, draws, trails, history, bests, trails2, history2, bests2, i);
        assert trails[i] == trails[..k][i] == trails2[..k][i] == trails2[i];
        RunKeepsHealthy(st, draws, trails, history, bests, i, i);
        IteratedIsUnique(i, st, draws, trails[i], history[i], bests[i], trails[k], history2[i], bests2[i], trails2[k]);
        assert trails[..k + 1] == trails[..k] + [trails[k]] && trails2[..k + 1] == trails2[..k] + [trails2[k]];
        assert history[..k] == history[..i] + [history[i]] && history2[..k] == history2[..i] + [history2[i]];
        assert bests[..k] == bests[..i] + [bests[i]] && bests2[..k] == bests2[..i] + [bests2[i]];
      }
    }

    lemma RanExtends(st: nat, draws: Draws, trails: seq<Trails>, history: seq<seq<seq<nat>>>, bests: seq<seq<nat>>,
                     rows: seq<seq<nat>>, best: seq<nat>, t: Trails)
      requires Sized() && Ran(st, draws, trails, history, bests)
      requires Iterated(|bests|, st, draws, trails[|bests|], rows, best, t)
      ensures Ran(st, draws, trails + [t], history + [rows], bests + [best])
    {
      hide Colony.Iterated;
    }

    /** The trails a run starts from: the levels found in pher, and no deposits. */
    ghost predicate StartsFrom(t: Trails, pher0: Levels) {
      t.pher == pher0 && Fits(t.delta) && forall p, q :: 0 <= p < n && 0 <= q < n ==> t.delta[p][q] == 0.0
    }

    /** The iterations. */
    method RunIterations(iterations: nat, st: nat, draws: Draws)
      returns (ghost trails: seq<Trails>, ghost history: seq<seq<seq<nat>>>, ghost bests: seq<seq<nat>>)
      requires Sized() && Surveyed() && Symmetric(pher) && PherPositive() && st < n && iterations <= lenBest.Length
      modifies pher, delta, routes, len, lenBest, pathBest
      ensures Ran(st, draws, trails, history, bests) && |bests| == iterations
      ensures StartsFrom(trails[0], old(Snapshot(pher))) && Healthy(trails[0]) && TrailsAre(trails[iterations])
      ensures forall it: nat :: it < iterations ==> Recorded(it, bests[it])
    {
      hide IsTour, Symmetric, Colony.PherPositive, Colony.Surveyed, Colony.LengthOf, Colony.Healthy, Colony.Iterated,
           Colony.Ran;
      ghost var t := ClearTrails();
      trails, history, bests := [t], [], [];
      EmptyRun(st, draws, t);
      for it := 0 to iterations
        invariant Ran(st, draws, trails, history, bests) && |trails| == it + 1 && |history| == |bests| == it
        invariant trails[0] == t && TrailsAre(trails[it]) && Healthy(trails[it])
        invariant forall k: nat :: k < it ==> Recorded(k, bests[k])
      {
        ghost var rows, best, t' := Iterate(it, st, draws, trails[it]);
        RanExtends(st, draws, trails, history, bests, rows, best, t');
        trails, history, bests := trails + [t'], history + [rows], bests + [best];
      }
    }

    lemma EmptyRun(st: nat, draws: Draws, t: Trails)
      requires Sized()
      ensures Ran(st, draws, [t], [], [])
    {
    }

    method ClearTrails() returns (ghost t: Trails)
      requires Sized() && Symmetric(pher) && PherPositive()
      modifies delta, lenBest
      ensures TrailsAre(t) && Healthy(t) && StartsFrom(t, old(Snapshot(pher)))
    {
      forall i, j | 0 <= i < n && 0 <= j < n { delta[i, j] := 0.0; }
      forall i | 0 <= i < lenBest.Length { lenBest[i] := 0; }
      t := Trails(Snapshot(pher), Snapshot(delta));
      HealthyIff(t);
    }

    /** The scan over the recorded iterations. */
    method PickBest(iterations: nat, first: nat, leg: nat -> nat, ghost bests: seq<seq<nat>>)
      returns (ansLen: nat, ansIter: nat)
      requires Sized() && |bests| == iterations <= lenBest.Length
      requires forall it: nat :: it < iterations ==> Recorded(it, bests[it]) && |bests[it]| == n && Below(bests[it], n)
      ensures Picked(HomeLengths(bests, leg), first, ansLen, ansIter)
    {
      ansLen, ansIter := INF, 0;
      ghost var t := HomeLengths(bests, leg);
      var i := first;
      while i < iterations
        invariant first <= i && (i <= iterations || i == first)
        invariant PickedUpTo(t, first, i, ansLen, ansIter)
      {
        assert Recorded(i, bests[i]);
        var tmp := lenBest[i] + leg(pathBest[i, n - 1]);
        if ansLen > tmp {
          ansLen, ansIter := tmp, i;
        }
        i := i + 1;
      }
    }

    /** ant, from a given starting point: a run, its records, and the route picked. */
    method Ant(iterations: nat, st: nat, first: nat, leg: nat -> nat, draws: Draws, path: array2<nat>, tim: nat)
      returns (ansLen: nat, ghost trails: seq<Trails>, ghost history: seq<seq<seq<nat>>>, ghost bests: seq<seq<nat>>,
               ghost picked: nat)
      requires Sized() && Surveyed() && Symmetric(pher) && PherPositive() && st < n
      requires 0 < iterations <= lenBest.Length
      requires tim < path.Length0 && n <= path.Length1 && path != dis && path != routes && path != pathBest
      modifies pher, delta, routes, len, lenBest, pathBest, path
      ensures Ran(st, draws, trails, history, bests) && |bests| == iterations
      ensures StartsFrom(trails[0], old(Snapshot(pher))) && Healthy(trails[0]) && TrailsAre(trails[iterations])
      ensures forall it: nat :: it < iterations ==> Recorded(it, bests[it])
      ensures forall it: nat :: it < iterations ==> |bests[it]| == n && Below(bests[it], n)
      ensures Picked(HomeLengths(bests, leg), first, ansLen, picked)
      ensures picked < iterations && forall j: nat :: j < n ==> path[tim, j] == bests[picked][j]
    {
      hide IsTour, Symmetric, Colony.PherPositive, Colony.Surveyed, Colony.LengthOf, Colony.Healthy, Colony.Ran;
      trails, history, bests := RunIterations(iterations, st, draws);
      var ansIter;
      ansLen, ansIter := PickBest(iterations, first, leg, bests);
      picked := ansIter;
      assert picked < iterations && Recorded(picked, bests[picked]);
      for i := 0 to n
        modifies path
        invariant forall j: nat :: j < i ==> path[tim, j] == bests[picked][j]
      {
        path[tim, i] := pathBest[ansIter, i];
      }
    }

    /** The planning of no_trans_task, init_tag(0) and then ant(20, ..., n - 1, 1, 0, 0): the
        route stored is a permutation of the points that begins at the last one; and the
        number returned is its length with the leg home, the least of all iterations, exactly
        if some iteration's is below INF or the first one's equals it; always, if the points
        are within reach. */
    method PlanRoute(points: seq<(int, int)>, draws: Draws, path: array2<nat>)
      returns (ansLen: nat, ghost trails: seq<Trails>, ghost history: seq<seq<seq<nat>>>, ghost bests: seq<seq<nat>>,
               ghost route: seq<nat>)
      requires Sized() && |points| == n && forall a, b :: 0 <= a < b < n ==> points[a] != points[b]
      requires TASK_ITERATIONS <= lenBest.Length
      requires 0 < path.Length0 && n <= path.Length1 && path != dis && path != routes && path != pathBest
      modifies dis, idis, pher, delta, routes, len, lenBest, pathBest, path
      ensures forall a, b :: 0 <= a < n && 0 <= b < n ==> dis[a, b] == Dist(points[a], points[b])
      ensures Ran(n - 1, draws, trails, history, bests) && |bests| == TASK_ITERATIONS == 20
      ensures StartsFrom(trails[0], Ones()) && TrailsAre(trails[TASK_ITERATIONS])
      ensures |route| == n && IsTour(route, n, n - 1) && forall p :: 0 <= p < n ==> p in route
      ensures forall j: nat :: j < n ==> path[0, j] == route[j]
      ensures forall it: nat :: it < TASK_ITERATIONS ==> |bests[it]| == n && Below(bests[it], n)
      ensures
        var totals := HomeLengths(bests, LegsHome(points));
        (ansLen == HomeLength(route, LegsHome(points)) && forall it :: 0 <= it < |totals| ==> ansLen <= totals[it])
          <==> (exists it :: 0 <= it < |totals| && totals[it] < INF) || totals[0] == INF
      ensures WithinReach(points) ==>
        && ansLen == HomeLength(route, LegsHome(points))
        && forall it: nat :: it < TASK_ITERATIONS ==> ansLen <= HomeLength(bests[it], LegsHome(points))
    {
      hide Colony.Surveyed, Symmetric, Colony.PherPositive, Colony.LengthOf, Colony.Healthy, Dist, Picked,
           Colony.Iterated, IsTour, Colony.Recorded, Colony.HomeLength, Colony.TrailsAre;
      InitTag(points);
      OnesHeld();
      var leg := LegsHome(points);
      ghost var picked;
      ansLen, trails, history, bests, picked := Ant(TASK_ITERATIONS, n - 1, 0, leg, draws, path, 0);
      route := bests[picked];
      IteratedIsBest(picked, n - 1, draws, trails[picked], history[picked], route, trails[picked + 1]);
      BestIsPermutation(history[picked], n - 1, route);
      ghost var totals := HomeLengths(bests, leg);
      FullScanIsBest(totals, ansLen, picked);
      if WithinReach(points) {
        HomeIsNear(points, bests[0]);
        assert totals[0] < INF;
      }
    }

    /** n times each distance is at most half of INF. */
    ghost predicate ShortLegs()
      requires Sized()
      reads this, dis
    {
      forall a, b :: 0 <= a < n && 0 <= b < n ==> n * dis[a, b] <= HALF_INF
    }

    lemma LegsWithinReach(points: seq<(int, int)>)
      requires Sized() && |points| == n && WithinReach(points)
      requires forall a, b :: 0 <= a < n && 0 <= b < n ==> dis[a, b] == Dist(points[a], points[b])
      ensures ShortLegs()
    {
      hide Dist;
      forall a, b | 0 <= a < n && 0 <= b < n
        ensures n * dis[a, b] <= HALF_INF
      {
        assert n * Dist(points[a], points[b]) <= HALF_INF;
      }
    }

    /** k of them are short. */
    lemma {:induction false} LegsAreShort(s: seq<nat>, k: nat)
      requires Sized() && ShortLegs() && k < |s| && Below(s, n)
      ensures n * TourLen(dis, s, k) <= k * HALF_INF
    {
      if k > 0 {
        LegsAreShort(s, k - 1);
        AddLeg(n, TourLen(dis, s, k - 1), dis[s[k - 1], s[k]], k - 1);
      }
    }

    lemma LastLeg(points: seq<(int, int)>, a: nat)
      requires WithinReach(points) && a < |points|
      ensures LegsHome(points)(a) <= HALF_INF
    {
      hide Dist;
    }

    lemma HomeIsNear(points: seq<(int, int)>, s: seq<nat>)
      requires Sized() && |points| == n && WithinReach(points) && |s| == n && Below(s, n)
      requires forall a, b :: 0 <= a < n && 0 <= b < n ==> dis[a, b] == Dist(points[a], points[b])
      ensures HomeLength(s, LegsHome(points)) < INF
    {
      hide Dist, TourLen, FloorSqrt;
      LegsWithinReach(points);
      LegsAreShort(s, n - 1);
      FewLegs(n, LengthOf(s));
      LastLeg(points, s[n - 1]);
    }

    ghost function Ones(): Levels {
      seq(n, _ => seq(n, _ => 1.0))
    }

    lemma OnesHeld()
      requires Sized() && forall a, b :: 0 <= a < n && 0 <= b < n ==> pher[a, b] == 1.0
      ensures Snapshot(pher) == Ones()
    {
      var v, w := Snapshot(pher), Ones();
      forall p | 0 <= p < n
        ensures v[p] == w[p]
      {
        assert forall q :: 0 <= q < n ==> pher[p, q] == v[p][q];
      }
    }

    lemma IteratedIsBest(it: nat, st: nat, draws: Draws, t: Trails, rows: seq<seq<nat>>, best: seq<nat>, t': Trails)
      requires Sized() && Iterated(it, st, draws, t, rows, best, t')
      ensures BestOf(rows, st, best)
    {
    }
  }

  const INF := 0x3f3f3f3f

  function Dist(a: (int, int), b: (int, int)): nat {
    CalcDis(a.0, a.1, b.0, b.1)
  }

  lemma DistIsMetric(a: (int, int), b: (int, int))
    ensures Dist(a, b) == Dist(b, a) && (Dist(a, b) == 0 <==> a == b)
  {
    var dx, dy := a.0 - b.0, a.1 - b.1;
    assert (0 - dx) * (0 - dx) == dx * dx && (0 - dy) * (0 - dy) == dy * dy;
    assert dx != 0 ==> dx * dx >= 1;
    assert dy != 0 ==> dy * dy >= 1;
  }

  function Inverse(same: bool, d: nat): real {
    if same || d == 0 then INF as real else 100.0 / d as real
  }

  lemma InverseIs(same: bool, d: nat)
    ensures Inverse(same, d) == if same || d == 0 then INF as real else 100.0 / d as real
  {
  }

  function Pow5(x: real): real {
    x * x * x * x * x
  }

  lemma PowerIsPositive(same: bool, d: nat)
    ensures Pow5(Inverse(same, d)) > 0.0
  {
    var x := Inverse(same, d);
    assert x > 0.0;
    ProductPositive(x, x);
    ProductPositive(x * x, x);
    ProductPositive(x * x * x, x);
    ProductPositive(x * x * x * x, x);
  }

  /** ans is the least of t[first..i] if that is below INF, and at its first place; else INF
      and 0. */
  ghost predicate PickedUpTo(t: seq<nat>, first: nat, i: nat, ans: nat, at: nat) {
    && ans <= INF
    && (forall k :: first <= k < i && k < |t| ==> ans <= t[k])
    && (ans == INF ==> at == 0)
    && (ans < INF ==> first <= at < i && at < |t| && t[at] == ans && forall k :: first <= k < at ==> t[k] > ans)
  }

  ghost predicate Picked(t: seq<nat>, first: nat, ans: nat, at: nat) {
    PickedUpTo(t, first, |t|, ans, at)
  }

  /** The scan over all iterations reports the least total exactly if some total is below INF,
      or the first one equals it. */
  lemma FullScanIsBest(t: seq<nat>, ans: nat, at: nat)
    requires Picked(t, 0, ans, at) && t != []
    ensures (ans == t[at] && forall k :: 0 <= k < |t| ==> ans <= t[k])
       <==> (exists k :: 0 <= k < |t| && t[k] < 0x3f3f3f3f) || t[0] == 0x3f3f3f3f
  {
    if k :| 0 <= k < |t| && t[k] < INF {
      assert ans <= t[k];
    }
  }

  /** The scan that starts at the second iteration reports the least total of all exactly if
      some later iteration is no worse than the first. */
  lemma LateScanIsBest(t: seq<nat>, ans: nat, at: nat)
    requires Picked(t, 1, ans, at) && t != [] && forall k :: 0 <= k < |t| ==> t[k] < INF
    ensures (exists k :: 0 <= k < |t| && t[k] == ans && forall j :: 0 <= j < |t| ==> ans <= t[j])
       <==> exists k :: 1 <= k < |t| && t[k] <= t[0]
  {
  }

  /** The corner of the field the returning mode measures its last leg to. */
  const HOME := (715, 480)

  /** The leg home from each point. */
  function LegsHome(points: seq<(int, int)>): nat -> nat {
    (p: nat) => if p < |points| then Dist(points[p], HOME) else 0
  }

  /** Home is the one point with no leg, and the leg from any other is its distance. */
  lemma LegsHomeIs(points: seq<(int, int)>, p: nat)
    requires p < |points|
    ensures LegsHome(points)(p) == 0 <==> points[p] == (715, 480)
    ensures LegsHome(points)(p) == Dist((715, 480), points[p])
  {
    DistIsMetric(points[p], HOME);
  }

  const TASK_ITERATIONS := 20

  const HALF_INF := INF / 2

  /** No distance is large: |points| times the one between two points, and every leg home, is
      at most half of INF. */
  ghost predicate WithinReach(points: seq<(int, int)>) {
    && (forall a, b :: 0 <= a < |points| && 0 <= b < |points| ==> |points| * Dist(points[a], points[b]) <= HALF_INF)
    && forall a :: 0 <= a < |points| ==> Dist(points[a], HOME) <= HALF_INF
  }

  lemma AddLeg(n: nat, len: nat, leg: nat, k: nat)
    requires n * len <= k * HALF_INF && n * leg <= HALF_INF
    ensures n * (len + leg) <= (k + 1) * HALF_INF
  {
    assert n * (len + leg) == n * len + n * leg;
    assert (k + 1) * HALF_INF == k * HALF_INF + HALF_INF;
  }

  lemma FewLegs(n: nat, len: nat)
    requires n > 0 && n * len <= (n - 1) * HALF_INF
    ensures len < HALF_INF
  {
    var d := len - HALF_INF;
    assert n * len == n * d + n * HALF_INF;
    assert (n - 1) * HALF_INF == n * HALF_INF - HALF_INF;
    assert n * d < 0;
    assert d >= 0 ==> n * d >= 0;
  }

  /** What is left of a pheromone level, and what is added. */
  function Decay(level: real, added: real): real {
    (1.0 - RHO) * level + added
  }

  lemma QuotientIsPositive(len: nat)
    ensures len > 0 ==> Q / len as real > 0.0
  {
  }

  lemma Crosswise(a: real, x: real, b: real, y: real, m: real, n: real)
    requires m == a * x && n == b * y
    ensures x == y ==> m * b == n * a
    ensures a == b ==> m * y == n * x
  {
  }

  lemma Scaled(f: real, a: real, x: real, b: real, m: real, n: real)
    requires b == f * a && m == a * x && n == b * x
    ensures n == f * m
  {
  }

  lemma ProductPositive(a: real, b: real)
    requires a > 0.0 && b > 0.0
    ensures a * b > 0.0
  {
  }

  /** The selection loop: with positive weights it always stops in a slot. */
  method Spin(p: array<real>, rate: real) returns (k: nat)
    requires Positive(p[..]) && 0.0 <= rate < Sum(p[..])
    ensures InSlot(p[..], rate, k)
  {
    ghost var w := p[..];
    var curRate := 0.0;
    k := 0;
    assert w[..0] == [];
    while true
      invariant k < p.Length && curRate == Sum(w[..k]) && curRate <= rate
      decreases p.Length - k
    {
      assert w[..k + 1][..k] == w[..k] && w[..|w|] == w;
      curRate := curRate + p[k];
      if curRate > rate {
        return;
      }
      k := k + 1;
    }
  }
}
