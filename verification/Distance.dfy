/** Truncated Euclidean distance, as aco.c computes it: the square root of a sum of
    squares converted to int. */
module Distance {

  function Abs(a: int): nat {
    if a < 0 then -a else a
  }

  /** The floor of the square root of n. */
  function FloorSqrt(n: nat): (r: nat)
    ensures r * r <= n < (r + 1) * (r + 1)
  {
    if n == 0 then 0 else
    var r := FloorSqrt(n - 1);
    if (r + 1) * (r + 1) <= n then r + 1 else r
  }

  function SquaredNorm(dx: int, dy: int): (s: nat)
  {
    Square(dx) + Square(dy)
  }

  function Square(a: int): (s: nat)
    ensures s == a * a
  {
    if a >= 0 then a * a else (-a) * (-a)
  }

  function CalcDis(x1: int, y1: int, x2: int, y2: int): nat {
    FloorSqrt(SquaredNorm(x1 - x2, y1 - y2))
  }

  /** The distance between two points, truncated. */
  lemma CalcDisIs(x1: int, y1: int, x2: int, y2: int)
    ensures
      var r := CalcDis(x1, y1, x2, y2);
      r * r <= (x1 - x2) * (x1 - x2) + (y1 - y2) * (y1 - y2) < (r + 1) * (r + 1)
  {
  }

  lemma SquareOrder(a: nat, b: nat)
    ensures a <= b <==> a * a <= b * b
  {
    var d := a - b;
    assert a * a - b * b == d * (a + b);
    assert d <= 0 ==> d * (a + b) <= 0;
    assert d > 0 ==> d * (a + b) > 0;
  }

  /** (a*c + b*d)^2 <= (a^2 + b^2) * (c^2 + d^2). */
  lemma CauchySchwarz(a: int, b: int, c: int, d: int)
    ensures (a * c + b * d) * (a * c + b * d) <= (a * a + b * b) * (c * c + d * d)
  {
    var e := a * d - b * c;
    assert e * e >= 0;
    assert (a * c + b * d) * (a * c + b * d) + e * e == (a * a + b * b) * (c * c + d * d) by {
      assert e * e == a * d * (a * d) - 2 * (a * d * (b * c)) + b * c * (b * c);
      assert (a * c + b * d) * (a * c + b * d) == a * c * (a * c) + 2 * (a * c * (b * d)) + b * d * (b * d);
      assert a * c * (b * d) == a * d * (b * c);
      assert (a * a + b * b) * (c * c + d * d)
          == a * c * (a * c) + a * d * (a * d) + b * c * (b * c) + b * d * (b * d);
    }
  }

  /** If p^2 <= b * s2 with b < k^2 and s2 <= s^2, then p <= k * s. */
  lemma DotBound(p: int, b: nat, s2: nat, k: nat, s: nat)
    requires p * p <= b * s2
    requires b < k * k && s2 <= s * s
    ensures p <= k * s
  {
    assert b * s2 <= (k * k) * (s * s) by {
      assert b * s2 <= (k * k) * s2;
      assert (k * k) * s2 <= (k * k) * (s * s);
    }
    assert (k * k) * (s * s) == (k * s) * (k * s);
    if p > 0 {
      SquareOrder(p, k * s);
    }
  }

  lemma SquareOfDifference(a: int, d: int)
    ensures (a - d) * (a - d) == a * a - 2 * (a * d) + d * d
  {
  }

  /** Moving a point (a, b), at distance less than k from the origin, by (-dx, -dy) of
      length at most s leaves it at distance less than k + s. */
  lemma ShiftedNorm(a: int, b: int, dx: int, dy: int, k: nat, s: nat)
    requires a * a + b * b < k * k && dx * dx + dy * dy <= s * s
    ensures (a - dx) * (a - dx) + (b - dy) * (b - dy) < (k + s) * (k + s)
  {
    var p := -(a * dx + b * dy);
    CauchySchwarz(a, b, dx, dy);
    assert p * p == (a * dx + b * dy) * (a * dx + b * dy);
    DotBound(p, a * a + b * b, dx * dx + dy * dy, k, s);
    SquareOfDifference(a, dx);
    SquareOfDifference(b, dy);
    SquareOfDifference(k, 0 - s);
  }

  /** The truncated distance obeys a triangle inequality: a step of length at most s
      shortens it by at most s. */
  lemma DistanceChangesSlowly(x: int, y: int, dx: int, dy: int, gx: int, gy: int, s: nat)
    requires dx * dx + dy * dy <= s * s
    ensures CalcDis(x, y, gx, gy) <= CalcDis(x + dx, y + dy, gx, gy) + s
  {
    var a, b := x + dx - gx, y + dy - gy;
    var k := CalcDis(x + dx, y + dy, gx, gy) + 1;
    var far := CalcDis(x, y, gx, gy);
    ShiftedNorm(a, b, dx, dy, k, s);
    assert a - dx == x - gx && b - dy == y - gy;
    SquareOrder(k + s, far);
  }
}
