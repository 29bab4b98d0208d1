/** Sampling a polyline at steps shorter than a given length (make_path of aco.c), over the
    reals. */
module PathSampler {
  import opened Distance

  type Point = (int, int)

  function SquaredLength(a: Point, b: Point): nat {
    SquaredNorm(b.0 - a.0, b.1 - a.1)
  }

  function Squared(r: real): real {
    r * r
  }

  lemma ProductIsPositive(m: real, r: real, s: real)
    requires r > 0.0 && s > 0.0 && m == r * s
    ensures m > 0.0
  {
  }

  lemma SquaredIsPositive(r: real)
    requires r > 0.0
    ensures Squared(r) > 0.0
  {
    ProductIsPositive(Squared(r), r, r);
  }

  function Ratio(d2: nat, s2: real): (q: real)
    requires s2 > 0.0
    ensures q >= 0.0 && q * s2 == d2 as real
  {
    var q := d2 as real / s2;
    ScaleKeepsOrder(0.0, q, s2);
    q
  }

  lemma ScaleKeepsOrder(a: real, b: real, c: real)
    requires c > 0.0
    ensures a * c <= b * c <==> a <= b
  {
    assert b * c - a * c == (b - a) * c;
    assert b - a < 0.0 ==> (b - a) * c < 0.0;
    assert b - a >= 0.0 ==> (b - a) * c >= 0.0;
  }

  /** (int)(ds / dis_step + 1), where ds is the length of the segment. */
  function Pieces(a: Point, b: Point, step: real): (n: nat)
    requires step > 0.0
    ensures n > 0
  {
    SquaredIsPositive(step);
    FloorSqrt(Ratio(SquaredLength(a, b), Squared(step)).Floor) + 1
  }

  /** Pieces is the least positive number of pieces that are all shorter than the step. */
  lemma PiecesIsLeast(a: Point, b: Point, step: real, k: nat)
    requires step > 0.0 && k > 0
    ensures k >= Pieces(a, b, step) <==> (k * k) as real * Squared(step) > SquaredLength(a, b) as real
  {
    hide FloorSqrt, SquaredLength, Ratio, Squared;
    SquaredIsPositive(step);
    var q := Ratio(SquaredLength(a, b), Squared(step));
    var r := FloorSqrt(q.Floor);
    ScaleKeepsOrder((k * k) as real, q, Squared(step));
    SquareOrder(k, r);
    SquareOrder(r + 1, k);
  }

  /** Conversion of a real to int truncates towards zero. */
  function Trunc(r: real): int {
    if r >= 0.0 then r.Floor else -((-r).Floor)
  }

  /** The coordinate step of a segment cut into n pieces. */
  function Step(d: int, n: nat): real
    requires n > 0
  {
    d as real / n as real
  }

  /** How far k such steps lead. */
  function Along(d: int, n: nat, k: nat): real
    requires n > 0
  {
    k as real * Step(d, n)
  }

  lemma AlongGrows(d: int, n: nat, k: nat)
    requires n > 0
    ensures Along(d, n, 0) == 0.0
    ensures Along(d, n, k + 1) == Along(d, n, k) + Step(d, n)
    ensures Along(d, n, n) == d as real
  {
  }

  /** The travel estimate added per sample. */
  function StepEstimate(a: Point, b: Point, n: nat): nat
    requires n > 0
  {
    CalcDis(0, 0, Trunc(Step(b.0 - a.0, n)), Trunc(Step(b.1 - a.1, n)))
  }

  lemma TruncIsClose(r: real)
    ensures
      var t := Trunc(r) as real;
      if r >= 0.0 then 0.0 <= t <= r < t + 1.0 else t - 1.0 < r <= t <= 0.0
  {
  }

  /** The square of r against that of its truncation. */
  lemma TruncSquared(r: real, t: int)
    requires t == Trunc(r)
    ensures (t * t) as real <= Squared(r) <= (t * t + 2 * Abs(t) + 1) as real
  {
    TruncIsClose(r);
    var a, b := (if r >= 0.0 then r else -r), Abs(t) as real;
    assert b <= a < b + 1.0;
    assert Squared(r) == a * a;
    ProductOrder(b, a);
    ProductOrder(a, b + 1.0);
    assert (b + 1.0) * (b + 1.0) == b * b + 2.0 * b + 1.0;
    assert b * b == (Abs(t) * Abs(t)) as real;
    assert Abs(t) * Abs(t) == t * t;
  }

  lemma ProductOrder(a: real, b: real)
    requires 0.0 <= a <= b
    ensures a * a <= b * b
  {
    assert b * b - a * a == (b - a) * (b + a);
    assert (b - a) * (b + a) >= 0.0;
  }

  lemma RootBounds(tx: int, ty: int, e: nat)
    requires e * e <= tx * tx + ty * ty < (e + 1) * (e + 1)
    ensures tx * tx + 2 * Abs(tx) + 1 + ty * ty + 2 * Abs(ty) + 1 < (e + 3) * (e + 3)
  {
    var x, y := Abs(tx), Abs(ty);
    assert x * x == tx * tx && y * y == ty * ty;
    SquareOrder(e + 1, x);
    SquareOrder(e + 1, y);
    assert x <= e && y <= e;
    assert (e + 3) * (e + 3) == (e + 1) * (e + 1) + 4 * (e + 1) + 4;
  }

  /** The estimate of a step against the step. */
  lemma EstimateOfStep(sx: real, sy: real, e: nat)
    requires e == CalcDis(0, 0, Trunc(sx), Trunc(sy))
    ensures (e * e) as real <= Squared(sx) + Squared(sy) < ((e + 3) * (e + 3)) as real
  {
    hide FloorSqrt, Squared, Trunc, CalcDis;
    var tx, ty := Trunc(sx), Trunc(sy);
    CalcDisIs(0, 0, tx, ty);
    Opposite(tx);
    Opposite(ty);
    TruncSquared(sx, tx);
    TruncSquared(sy, ty);
    RootBounds(tx, ty, e);
  }

  lemma Opposite(t: int)
    ensures (0 - t) * (0 - t) == t * t
  {
  }

  /** The estimates of a segment add up to no more than its length, and fall short of it by less
      than three a piece. */
  lemma EstimateIsClose(a: Point, b: Point, n: nat)
    requires n > 0
    ensures
      var e := StepEstimate(a, b, n);
      (n * e) * (n * e) <= SquaredLength(a, b) < (n * (e + 3)) * (n * (e + 3))
  {
    hide FloorSqrt, Squared, Step, Trunc, SquaredLength, CalcDis;
    var dx, dy := b.0 - a.0, b.1 - a.1;
    var sx, sy := Step(dx, n), Step(dy, n);
    var e := StepEstimate(a, b, n);
    EstimateOfStep(sx, sy, e);
    SquaredStep(dx, n);
    SquaredStep(dy, n);
    LengthIs(a, b);
    Distribute((n * n) as real, Squared(sx), Squared(sy));
    ScaledBounds(n, e, Squared(sx) + Squared(sy), SquaredLength(a, b));
  }

  lemma Distribute(f: real, a: real, b: real)
    ensures f * (a + b) == f * a + f * b
  {
  }

  lemma LengthIs(a: Point, b: Point)
    ensures SquaredLength(a, b) == (b.0 - a.0) * (b.0 - a.0) + (b.1 - a.1) * (b.1 - a.1)
  {
  }

  lemma ScaledBounds(n: nat, e: nat, s: real, d2: nat)
    requires n > 0 && (n * n) as real * s == d2 as real
    requires (e * e) as real <= s < ((e + 3) * (e + 3)) as real
    ensures (n * e) * (n * e) <= d2 < (n * (e + 3)) * (n * (e + 3))
  {
    var n2 := (n * n) as real;
    ScaleKeepsOrder((e * e) as real, s, n2);
    ScaleKeepsOrder(((e + 3) * (e + 3)) as real, s, n2);
    var f := e + 3;
    assert ((n * n) * (e * e)) as real == n2 * (e * e) as real;
    assert ((n * n) * (f * f)) as real == n2 * (f * f) as real;
    assert (n * e) * (n * e) == (n * n) * (e * e) && (n * f) * (n * f) == (n * n) * (f * f);
  }

  // ---------- Polylines ----------

  /** The index of the sample at corner k of the polyline w. */
  function Stop(w: seq<Point>, k: nat, step: real): nat
    requires k < |w| && step > 0.0
  {
    if k == 0 then 0 else Stop(w, k - 1, step) + Pieces(w[k - 1], w[k], step)
  }

  lemma {:induction false} StopExtends(w: seq<Point>, q: Point, k: nat, step: real)
    requires k < |w| && step > 0.0
    ensures Stop(w + [q], k, step) == Stop(w, k, step)
  {
    if k > 0 {
      StopExtends(w, q, k - 1, step);
    }
  }

  /** Two samples closer than the step. */
  ghost predicate Gap(ux: real, uy: real, vx: real, vy: real, step: real) {
    Squared(vx - ux) + Squared(vy - uy) < Squared(step)
  }

  /** A segment cut into Pieces pieces has pieces shorter than the step. */
  lemma PieceIsShort(a: Point, b: Point, step: real, ax: real, ay: real)
    requires step > 0.0
    ensures
      var n := Pieces(a, b, step);
      Gap(ax, ay, ax + Step(b.0 - a.0, n), ay + Step(b.1 - a.1, n), step)
  {
    hide Pieces, Step, Squared;
    var n := Pieces(a, b, step);
    var sx, sy := Step(b.0 - a.0, n), Step(b.1 - a.1, n);
    PiecesIsLeast(a, b, step, n);
    SquaredStep(b.0 - a.0, n);
    SquaredStep(b.1 - a.1, n);
    var n2 := (n * n) as real;
    assert n2 * (Squared(sx) + Squared(sy)) == n2 * Squared(sx) + n2 * Squared(sy);
    assert SquaredLength(a, b) as real == n2 * (Squared(sx) + Squared(sy));
    assert n2 > 0.0;
    ScaleKeepsOrder(Squared(step), Squared(sx) + Squared(sy), n2);
  }

  lemma SquaredStep(d: int, n: nat)
    requires n > 0
    ensures (n * n) as real * Squared(Step(d, n)) == (d * d) as real
  {
    var s := Step(d, n);
    assert n as real * s == d as real;
    assert (n * n) as real == n as real * n as real;
    assert (n as real * n as real) * (s * s) == (n as real * s) * (n as real * s);
  }

  ghost predicate CornerAt(xs: seq<real>, ys: seq<real>, i: nat, p: Point)
    requires |xs| == |ys|
  {
    i < |xs| && xs[i] == p.0 as real && ys[i] == p.1 as real
  }

  ghost predicate Corners(xs: seq<real>, ys: seq<real>, w: seq<Point>, step: real)
    requires |xs| == |ys| && step > 0.0
  {
    forall k :: 0 <= k < |w| ==> CornerAt(xs, ys, Stop(w, k, step), w[k])
  }

  ghost predicate NoGaps(xs: seq<real>, ys: seq<real>, step: real)
    requires |xs| == |ys|
  {
    forall i, j :: 0 <= i && j == i + 1 < |xs| ==> Gap(xs[i], ys[i], xs[j], ys[j], step)
  }

  /** Coordinates c grew to c' by n steps towards d further on. */
  ghost predicate Grown(c: seq<real>, c': seq<real>, d: int, n: nat)
    requires n > 0
  {
    && c != [] && |c'| == |c| + n
    && (forall i :: 0 <= i < |c| ==> c'[i] == c[i])
    && forall i :: |c| - 1 <= i < |c'| ==> c'[i] == c[|c| - 1] + Along(d, n, i - (|c| - 1))
  }

  lemma GrownStep(c: seq<real>, c': seq<real>, d: int, n: nat, i: nat)
    requires n > 0 && Grown(c, c', d, n) && |c| - 1 <= i < |c'| - 1
    ensures c'[i + 1] == c'[i] + Step(d, n)
  {
    AlongGrows(d, n, i - (|c| - 1));
  }

  lemma GrownHasNoGaps(xs: seq<real>, ys: seq<real>, xs': seq<real>, ys': seq<real>, a: Point, b: Point, step: real)
    requires step > 0.0 && |xs| == |ys| && NoGaps(xs, ys, step)
    requires Grown(xs, xs', b.0 - a.0, Pieces(a, b, step)) && Grown(ys, ys', b.1 - a.1, Pieces(a, b, step))
    ensures NoGaps(xs', ys', step)
  {
    hide Pieces, Along, Step, Gap;
    var n := Pieces(a, b, step);
    forall i, j | 0 <= i && j == i + 1 < |xs'|
      ensures Gap(xs'[i], ys'[i], xs'[j], ys'[j], step)
    {
      if j >= |xs| {
        GrownStep(xs, xs', b.0 - a.0, n, i);
        GrownStep(ys, ys', b.1 - a.1, n, i);
        PieceIsShort(a, b, step, xs'[i], ys'[i]);
      }
    }
  }

  lemma SinglePoint(a: Point, step: real)
    requires step > 0.0
    ensures Corners([a.0 as real], [a.1 as real], [a], step) && NoGaps([a.0 as real], [a.1 as real], step)
  {
  }

  lemma OnlyFirstStopIsZero(w: seq<Point>, k: nat, step: real)
    requires k < |w| && step > 0.0
    ensures k > 0 <==> Stop(w, k, step) > 0
  {
  }

  lemma StopUnfolds(w: seq<Point>, step: real)
    requires |w| > 1 && step > 0.0
    ensures Stop(w, |w| - 1, step) == Stop(w, |w| - 2, step) + Pieces(w[|w| - 2], w[|w| - 1], step)
  {
  }

  lemma GrownKeepsCorner(xs: seq<real>, ys: seq<real>, xs': seq<real>, ys': seq<real>, a: Point, b: Point, n: nat,
                         i: nat, p: Point)
    requires n > 0 && |xs| == |ys| && Grown(xs, xs', b.0 - a.0, n) && Grown(ys, ys', b.1 - a.1, n)
    requires CornerAt(xs, ys, i, p)
    ensures CornerAt(xs', ys', i, p)
  {
  }

  lemma GrownEnd(c: seq<real>, c': seq<real>, a: int, b: int, n: nat)
    requires n > 0 && Grown(c, c', b - a, n) && c[|c| - 1] == a as real
    ensures c'[|c'| - 1] == b as real
  {
    AlongGrows(b - a, n, 0);
  }

  lemma GrownReachesEnd(xs: seq<real>, ys: seq<real>, xs': seq<real>, ys': seq<real>, a: Point, b: Point, n: nat)
    requires n > 0 && |xs| == |ys| && Grown(xs, xs', b.0 - a.0, n) && Grown(ys, ys', b.1 - a.1, n)
    requires CornerAt(xs, ys, |xs| - 1, a)
    ensures |xs'| == |ys'| == |xs| + n && CornerAt(xs', ys', |xs'| - 1, b)
  {
    GrownEnd(xs, xs', a.0, b.0, n);
    GrownEnd(ys, ys', a.1, b.1, n);
  }

  lemma GrownReachesCorner(xs: seq<real>, ys: seq<real>, xs': seq<real>, ys': seq<real>,
                           w: seq<Point>, b: Point, step: real)
    requires step > 0.0 && |xs| == |ys| && w != [] && Corners(xs, ys, w, step)
    requires |xs| == Stop(w, |w| - 1, step) + 1
    requires
      var a := w[|w| - 1];
      Grown(xs, xs', b.0 - a.0, Pieces(a, b, step)) && Grown(ys, ys', b.1 - a.1, Pieces(a, b, step))
    ensures |xs'| == |ys'| && Corners(xs', ys', w + [b], step)
  {
    hide Pieces, Stop, Grown, CornerAt;
    var a, v := w[|w| - 1], w + [b];
    var n := Pieces(a, b, step);
    assert CornerAt(xs, ys, Stop(w, |w| - 1, step), a);
    GrownReachesEnd(xs, ys, xs', ys', a, b, n);
    StopUnfolds(v, step);
    StopExtends(w, b, |w| - 1, step);
    forall k | 0 <= k < |v|
      ensures CornerAt(xs', ys', Stop(v, k, step), v[k])
    {
      if k < |w| {
        StopExtends(w, b, k, step);
        GrownKeepsCorner(xs, ys, xs', ys', a, b, n, Stop(w, k, step), w[k]);
      }
    }
  }

  // ---------- A row of samples ----------

  class Row {
    const x: array<real>
    const y: array<real>
    const predis: array<int>
    var tot: nat

    ghost predicate Valid()
      reads this
    {
      x != y && x.Length == y.Length == predis.Length && tot < x.Length
    }

    constructor (capacity: nat)
      requires capacity > 0
      ensures Valid() && tot == 0 && x.Length == capacity && fresh(x) && fresh(y) && fresh(predis)
    {
      x := new real[capacity];
      y := new real[capacity];
      predis := new int[capacity];
      tot := 0;
    }

    /** The samples of the polyline w: from its first corner through every corner to the last,
        with no gap as long as step. */
    ghost predicate Sampled(w: seq<Point>, step: real)
      requires Valid() && step > 0.0
      reads this, x, y
    {
      && w != [] && tot == Stop(w, |w| - 1, step)
      && (|w| > 1 ==> Corners(x[..tot + 1], y[..tot + 1], w, step))
      && NoGaps(x[..tot + 1], y[..tot + 1], step)
    }

    /** Appends the segment from a to b, cut into equal pieces. The samples start from the
        last one there is, and from a only if there is none. */
    method MakePath(a: Point, b: Point, step: real)
      requires Valid() && step > 0.0 && tot + Pieces(a, b, step) < x.Length
      modifies `tot, x, y, predis
      ensures Valid() && tot == old(tot) + Pieces(a, b, step)
      ensures
        var xs := if old(tot) == 0 then [a.0 as real] else old(x[..tot + 1]);
        var ys := if old(tot) == 0 then [a.1 as real] else old(y[..tot + 1]);
        && Grown(xs, x[..tot + 1], b.0 - a.0, Pieces(a, b, step))
        && Grown(ys, y[..tot + 1], b.1 - a.1, Pieces(a, b, step))
      ensures forall i :: 0 <= i <= old(tot) ==> predis[i] == if old(tot) == 0 then 0 else old(predis[i])
      ensures forall i :: old(tot) <= i <= tot ==>
        predis[i] == predis[old(tot)] + (i - old(tot)) * StepEstimate(a, b, Pieces(a, b, step))
    {
      hide Pieces, StepEstimate, Along, Grown;
      var n := Pieces(a, b, step);
      if tot == 0 {
        x[0], y[0], predis[0] := a.0 as real, a.1 as real, 0;
      }
      ghost var xs, ys := x[..tot + 1], y[..tot + 1];
      assert xs == if tot == 0 then [a.0 as real] else old(x[..tot + 1]);
      assert ys == if tot == 0 then [a.1 as real] else old(y[..tot + 1]);
      Stride(x, tot, b.0 - a.0, n);
      Stride(y, tot, b.1 - a.1, n);
      Accumulate(predis, tot, StepEstimate(a, b, n), n);
      tot := tot + n;
    }
  }

  /** A call that starts where the polyline ends extends it. */
  method ExtendPolyline(row: Row, ghost w: seq<Point>, a: Point, b: Point, step: real)
    requires row.Valid() && step > 0.0 && row.Sampled(w, step) && w[|w| - 1] == a
    requires row.tot + Pieces(a, b, step) < row.x.Length
    modifies row`tot, row.x, row.y, row.predis
    ensures row.Valid() && row.tot == old(row.tot) + Pieces(a, b, step)
    ensures row.Sampled(w + [b], step)
  {
    hide Pieces, Grown, Stop, Corners, NoGaps;
    OnlyFirstStopIsZero(w, |w| - 1, step);
    SinglePoint(a, step);
    assert row.tot == 0 ==> w == [a];
    ghost var xs := if row.tot == 0 then [a.0 as real] else row.x[..row.tot + 1];
    ghost var ys := if row.tot == 0 then [a.1 as real] else row.y[..row.tot + 1];
    row.MakePath(a, b, step);
    GrownHasNoGaps(xs, ys, row.x[..row.tot + 1], row.y[..row.tot + 1], a, b, step);
    GrownReachesCorner(xs, ys, row.x[..row.tot + 1], row.y[..row.tot + 1], w, b, step);
    StopExtends(w, b, |w| - 1, step);
    StopUnfolds(w + [b], step);
  }

  /** The travel estimates of the sampling loop. */
  method Accumulate(c: array<int>, base: nat, e: int, n: nat)
    requires base + n < c.Length
    modifies c
    ensures forall i :: 0 <= i <= base ==> c[i] == old(c[i])
    ensures forall i :: base <= i <= base + n ==> c[i] == c[base] + (i - base) * e
  {
    for i := base + 1 to base + n + 1
      invariant forall j :: 0 <= j <= base ==> c[j] == old(c[j])
      invariant forall j :: base <= j < i ==> c[j] == c[base] + (j - base) * e
    {
      c[i] := c[i - 1] + e;
      assert (i - base) * e == (i - 1 - base) * e + e;
    }
  }

  /** One coordinate of the sampling loop: n equal steps after sample base. */
  method Stride(c: array<real>, base: nat, d: int, n: nat)
    requires n > 0 && base + n < c.Length
    modifies c
    ensures Grown(old(c[..base + 1]), c[..base + n + 1], d, n)
  {
    hide Step, Along;
    AlongGrows(d, n, 0);
    for i := base + 1 to base + n + 1
      invariant forall j :: 0 <= j <= base ==> c[j] == old(c[j])
      invariant forall j :: base <= j < i ==> c[j] == c[base] + Along(d, n, j - base)
    {
      c[i] := c[i - 1] + Step(d, n);
      AlongGrows(d, n, i - 1 - base);
    }
  }
}
