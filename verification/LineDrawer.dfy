/** The integer line drawer of coor_pick.c (line_) against a closed form of the line. */
module LineDrawer {

  import opened Distance

  /** The direction in which the drawer moves along a coordinate. */
  function Sign(from: int, to: int): int {
    if from < to then 1 else -1
  }

  /** b / a rounded to the nearest integer, halves up. */
  function Nearest(b: nat, a: nat): nat
    requires a > 0
  {
    (2 * b + a) / (2 * a)
  }

  /** The number of steps: the longer extent. */
  function Steps(dx: nat, dy: nat): nat {
    if dx >= dy then dx else dy
  }

  /** The offset of pixel k of the line over the extents dx, dy: k steps along the longer
      extent and the nearest whole number of steps along the other. */
  function Offset(dx: nat, dy: nat, k: nat): (nat, nat)
  {
    if dx == dy then (k, k)
    else if dx > dy then (k, Nearest(k * dy, dx))
    else (Nearest(k * dx, dy), k)
  }

  function LinePixel(i0: int, j0: int, i1: int, j1: int, k: nat): (int, int) {
    var o := Offset(Abs(i1 - i0), Abs(j1 - j0), k);
    (i0 + Sign(i0, i1) * o.0, j0 + Sign(j0, j1) * o.1)
  }

  /** The line as a whole. */
  function Line(i0: int, j0: int, i1: int, j1: int): (s: seq<(int, int)>)
    ensures |s| == Steps(Abs(i1 - i0), Abs(j1 - j0)) + 1
    ensures forall k :: 0 <= k < |s| ==> s[k] == LinePixel(i0, j0, i1, j1, k)
  {
    seq(Steps(Abs(i1 - i0), Abs(j1 - j0)) + 1, k requires k >= 0 => LinePixel(i0, j0, i1, j1, k))
  }

  /** n is the nearest integer to b / a exactly if |2 * (n * a - b)| <= a, halves up. */
  lemma NearestIs(b: nat, a: nat, n: nat)
    requires a > 0
    ensures n == Nearest(b, a) <==> 0 - a < 2 * (n * a - b) <= a
  {
    var q := Nearest(b, a);
    var r := (2 * b + a) % (2 * a);
    assert 2 * b + a == 2 * a * q + r;
    assert 2 * a * q == 2 * (q * a);
    if n < q {
      assert n * a <= (q - 1) * a == q * a - a;
    } else if n > q {
      assert n * a >= (q + 1) * a == q * a + a;
    }
  }

  /** The step along the shorter extent is taken exactly when the error says so. */
  lemma NearestStep(k: nat, d: nat, a: nat)
    requires a > 0 && d <= a
    ensures
      var b := Nearest(k * d, a);
      Nearest((k + 1) * d, a) == if 2 * (b * a - k * d) <= 2 * d - a then b + 1 else b
  {
    var b := Nearest(k * d, a);
    NearestIs(k * d, a, b);
    assert (k + 1) * d == k * d + d && (b + 1) * a == b * a + a;
    NearestIs((k + 1) * d, a, b);
    NearestIs((k + 1) * d, a, b + 1);
  }

  lemma NearestEnds(d: nat, a: nat)
    requires a > 0
    ensures Nearest(0 * d, a) == 0 && Nearest(a * d, a) == d
  {
    NearestIs(0, a, 0);
    NearestIs(a * d, a, d);
  }

  /** The drawer's error term at offset (a, b). */
  function Err(dx: nat, dy: nat, o: (nat, nat)): int {
    (o.1 + 1) * dx - (o.0 + 1) * dy
  }

  lemma WideStep(dx: nat, dy: nat, k: nat)
    requires dx > dy
    ensures
      var o := Offset(dx, dy, k);
      var e2 := 2 * Err(dx, dy, o);
      e2 >= 0 - dy && Offset(dx, dy, k + 1).1 == if e2 <= dx then o.1 + 1 else o.1
  {
    hide Nearest;
    var n := Nearest(k * dy, dx);
    NearestIs(k * dy, dx, n);
    NearestStep(k, dy, dx);
    var p, q := n * dx, k * dy;
    assert Err(dx, dy, (k, n)) == p + dx - (q + dy);
  }

  lemma TallStep(dx: nat, dy: nat, k: nat)
    requires dx < dy
    ensures
      var o := Offset(dx, dy, k);
      var e2 := 2 * Err(dx, dy, o);
      e2 <= dx && Offset(dx, dy, k + 1).0 == if e2 >= 0 - dy then o.0 + 1 else o.0
  {
    hide Nearest;
    var n := Nearest(k * dx, dy);
    NearestIs(k * dx, dy, n);
    NearestStep(k, dx, dy);
    var p, q := n * dy, k * dx;
    assert Err(dx, dy, (n, k)) == q + dx - (p + dy);
  }

  /** One turn of the loop takes pixel k to pixel k + 1: it steps along x when 2 * err >= -dy
      and along y when 2 * err <= dx, and keeps err up to date. */
  lemma OffsetStep(dx: nat, dy: nat, k: nat)
    requires k < Steps(dx, dy)
    ensures
      var o := Offset(dx, dy, k);
      var e2 := 2 * Err(dx, dy, o);
      var o' := Offset(dx, dy, k + 1);
      && o' == (if e2 >= 0 - dy then o.0 + 1 else o.0, if e2 <= dx then o.1 + 1 else o.1)
      && Err(dx, dy, o') == Err(dx, dy, o) - (if e2 >= 0 - dy then dy else 0) + if e2 <= dx then dx else 0
  {
    hide Nearest;
    var o := Offset(dx, dy, k);
    assert (o.1 + 2) * dx == (o.1 + 1) * dx + dx && (o.0 + 2) * dy == (o.0 + 1) * dy + dy;
    if dx > dy {
      WideStep(dx, dy, k);
    } else if dx < dy {
      TallStep(dx, dy, k);
    }
  }

  /** The last offset, and no earlier one, is the far end. */
  lemma OffsetEnds(dx: nat, dy: nat, k: nat)
    requires k <= Steps(dx, dy)
    ensures Offset(dx, dy, 0) == (0, 0)
    ensures Offset(dx, dy, k) == (dx, dy) <==> k == Steps(dx, dy)
    ensures Offset(dx, dy, k).0 <= dx && Offset(dx, dy, k).1 <= dy
  {
    if dx > dy {
      NearestEnds(dy, dx);
      NearestBounded(k, dy, dx);
    } else if dx < dy {
      NearestEnds(dx, dy);
      NearestBounded(k, dx, dy);
    }
  }

  lemma ProductGap(d: nat, n: nat, a: nat)
    ensures n > d ==> n * a >= d * a + a
  {
    if n > d {
      assert n * a >= (d + 1) * a == d * a + a;
    }
  }

  lemma NearestBounded(k: nat, d: nat, a: nat)
    requires a > 0 && k <= a
    ensures Nearest(k * d, a) <= d
  {
    var n := Nearest(k * d, a);
    NearestIs(k * d, a, n);
    assert k * d <= a * d;
    ProductGap(d, n, a);
  }

  /** The drawer's error term at pixel k. */
  function ErrAt(i0: int, j0: int, i1: int, j1: int, k: nat): int {
    var dx, dy := Abs(i1 - i0), Abs(j1 - j0);
    Err(dx, dy, Offset(dx, dy, k))
  }

  lemma LineTurn(i0: int, j0: int, i1: int, j1: int, k: nat)
    requires k < Steps(Abs(i1 - i0), Abs(j1 - j0))
    ensures
      var dx, dy := Abs(i1 - i0), Abs(j1 - j0);
      var p, e := LinePixel(i0, j0, i1, j1, k), ErrAt(i0, j0, i1, j1, k);
      && LinePixel(i0, j0, i1, j1, k + 1)
        == (if 2 * e >= 0 - dy then p.0 + Sign(i0, i1) else p.0, if 2 * e <= dx then p.1 + Sign(j0, j1) else p.1)
      && ErrAt(i0, j0, i1, j1, k + 1)
        == e - (if 2 * e >= 0 - dy then dy else 0) + if 2 * e <= dx then dx else 0
  {
    hide Offset, Err;
    OffsetStep(Abs(i1 - i0), Abs(j1 - j0), k);
  }

  lemma LineBox(i0: int, j0: int, i1: int, j1: int, k: nat)
    requires k <= Steps(Abs(i1 - i0), Abs(j1 - j0))
    ensures LinePixel(i0, j0, i1, j1, 0) == (i0, j0)
    ensures ErrAt(i0, j0, i1, j1, 0) == Abs(i1 - i0) - Abs(j1 - j0)
    ensures
      var p := LinePixel(i0, j0, i1, j1, k);
      && (p == (i1, j1) <==> k == Steps(Abs(i1 - i0), Abs(j1 - j0)))
      && (i0 <= p.0 <= i1 || i1 <= p.0 <= i0) && (j0 <= p.1 <= j1 || j1 <= p.1 <= j0)
  {
    hide Offset;
    OffsetEnds(Abs(i1 - i0), Abs(j1 - j0), k);
  }

  /** Consecutive pixels are different and adjacent, and the line never turns back. */
  lemma LineIsConnected(i0: int, j0: int, i1: int, j1: int, k: nat)
    requires k < Steps(Abs(i1 - i0), Abs(j1 - j0))
    ensures
      var p, q := LinePixel(i0, j0, i1, j1, k), LinePixel(i0, j0, i1, j1, k + 1);
      p != q && (q.0 == p.0 || q.0 == p.0 + Sign(i0, i1)) && (q.1 == p.1 || q.1 == p.1 + Sign(j0, j1))
  {
    LineTurn(i0, j0, i1, j1, k);
  }

  /** Every pixel lies within half a pixel of the ideal line. */
  lemma LineIsClose(dx: nat, dy: nat, k: nat)
    ensures
      var o := Offset(dx, dy, k);
      2 * Abs(o.1 * dx - o.0 * dy) <= Steps(dx, dy)
  {
    hide Nearest;
    if dx > dy {
      NearestIs(k * dy, dx, Nearest(k * dy, dx));
    } else if dx < dy {
      NearestIs(k * dx, dy, Nearest(k * dx, dy));
    }
  }

  /** Draws the line from (i0, j0) to (i1, j1). */
  method DrawLine(origin: array2<int>, i0: int, j0: int, i1: int, j1: int)
    requires 0 <= i0 < origin.Length0 && 0 <= j0 < origin.Length1
    requires 0 <= i1 < origin.Length0 && 0 <= j1 < origin.Length1
    modifies origin
    ensures forall i, j :: 0 <= i < origin.Length0 && 0 <= j < origin.Length1 ==>
      origin[i, j] == if (i, j) in Line(i0, j0, i1, j1) then 1 else old(origin[i, j])
  {
    hide ErrAt, LinePixel, Sign;
    var dx, sx := Abs(i1 - i0), Sign(i0, i1);
    var dy, sy := 0 - Abs(j1 - j0), Sign(j0, j1);
    var err := dx + dy;
    var i, j := i0, j0;
    ghost var line, k := Line(i0, j0, i1, j1), 0;
    hide Line, Abs;
    LineBox(i0, j0, i1, j1, 0);
    while true
      invariant 0 <= k < |line| && (i, j) == line[k] && err == ErrAt(i0, j0, i1, j1, k)
      invariant forall a, b :: 0 <= a < origin.Length0 && 0 <= b < origin.Length1 ==>
        origin[a, b] == if (a, b) in line[..k] then 1 else old(origin[a, b])
      decreases |line| - k
    {
      LineBox(i0, j0, i1, j1, k);
      assert line[..k + 1] == line[..k] + [(i, j)];
      origin[i, j] := 1;
      if i == i1 && j == j1 {
        break;
      }
      LineTurn(i0, j0, i1, j1, k);
      var e2 := 2 * err;
      if e2 >= dy {
        err := err + dy;
        i := i + sx;
      }
      if e2 <= dx {
        err := err + dx;
        j := j + sy;
      }
      k := k + 1;
    }
    assert line[..k + 1] == line;
  }
}
