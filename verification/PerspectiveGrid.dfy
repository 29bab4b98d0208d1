/** The perspective grid of coor_pick.c, over the reals. */
module PerspectiveGrid {

  datatype Node = Node(x: real, y: real)

  datatype Line = Line(a: real, b: real, c: real)

  function Mix(lambda: real, a: real, b: real): real {
    (1.0 - lambda) * a + lambda * b
  }

  function GetProx(lambda: real, p1: Node, p2: Node): Node {
    Node(Mix(lambda, p1.x, p2.x), Mix(lambda, p1.y, p2.y))
  }

  function GetLine(p1: Node, p2: Node): Line {
    Line(p2.y - p1.y, p1.x - p2.x, -(p1.x * p2.y - p2.x * p1.y))
  }

  function Deno(p1: Node, p2: Node, p3: Node, p4: Node): real {
    var l1, l2 := GetLine(p1, p2), GetLine(p3, p4);
    l1.a * l2.b - l2.a * l1.b
  }

  const NEARLY_PARALLEL := 0.001

  function GetCross(p1: Node, p2: Node, p3: Node, p4: Node): Node {
    var l1, l2 := GetLine(p1, p2), GetLine(p3, p4);
    var c1, c2 := -l1.c, -l2.c;
    var deno := Deno(p1, p2, p3, p4);
    if -NEARLY_PARALLEL < deno < NEARLY_PARALLEL then Node(-1.0, -1.0)
    else Node((c1 * l2.b - c2 * l1.b) / deno, (l1.a * c2 - l2.a * c1) / deno)
  }

  predicate OnLine(l: Line, p: Node) {
    l.a * p.x + l.b * p.y + l.c == 0.0
  }

  lemma ProxIsOnLine(t: real, p1: Node, p2: Node)
    ensures OnLine(GetLine(p1, p2), GetProx(t, p1, p2))
  {
    var dx, dy := p2.x - p1.x, p2.y - p1.y;
    var p := GetProx(t, p1, p2);
    assert p.x == p1.x + t * dx && p.y == p1.y + t * dy;
    assert dy * (t * dx) == dx * (t * dy);
    assert dy * p.x == dy * p1.x + dy * (t * dx) && dx * p.y == dx * p1.y + dx * (t * dy);
  }

  /** Cramer's rule: a solution of both equations is determined by deno. */
  lemma Solve(a1: real, b1: real, c1: real, a2: real, b2: real, c2: real, x: real, y: real)
    requires a1 * x + b1 * y == c1 && a2 * x + b2 * y == c2
    ensures (a1 * b2 - a2 * b1) * x == c1 * b2 - c2 * b1
    ensures (a1 * b2 - a2 * b1) * y == a1 * c2 - a2 * c1
  {
    assert c1 * b2 == a1 * x * b2 + b1 * y * b2 && c2 * b1 == a2 * x * b1 + b2 * y * b1;
    assert a1 * c2 == a1 * (a2 * x) + a1 * (b2 * y) && a2 * c1 == a2 * (a1 * x) + a2 * (b1 * y);
  }

  lemma SolveQuotient(a1: real, b1: real, c1: real, a2: real, b2: real, c2: real, x: real, y: real)
    requires a1 * b2 - a2 * b1 != 0.0
    requires a1 * x + b1 * y == c1 && a2 * x + b2 * y == c2
    ensures x == (c1 * b2 - c2 * b1) / (a1 * b2 - a2 * b1)
    ensures y == (a1 * c2 - a2 * c1) / (a1 * b2 - a2 * b1)
  {
    Solve(a1, b1, c1, a2, b2, c2, x, y);
    Quotient(a1 * b2 - a2 * b1, x, c1 * b2 - c2 * b1);
    Quotient(a1 * b2 - a2 * b1, y, a1 * c2 - a2 * c1);
  }

  lemma Quotient(d: real, x: real, n: real)
    requires d != 0.0 && d * x == n
    ensures x == n / d
  {
  }

  predicate NearlyParallel(p1: Node, p2: Node, p3: Node, p4: Node) {
    -NEARLY_PARALLEL < Deno(p1, p2, p3, p4) < NEARLY_PARALLEL
  }

  lemma NoCross(p1: Node, p2: Node, p3: Node, p4: Node)
    requires NearlyParallel(p1, p2, p3, p4)
    ensures GetCross(p1, p2, p3, p4) == Node(-1.0, -1.0)
  {
  }

  /** Off the guard, the point returned is the only one on both lines. */
  lemma CrossIsUnique(p1: Node, p2: Node, p3: Node, p4: Node, p: Node)
    requires !NearlyParallel(p1, p2, p3, p4)
    requires OnLine(GetLine(p1, p2), p) && OnLine(GetLine(p3, p4), p)
    ensures p == GetCross(p1, p2, p3, p4)
  {
    hide GetLine;
    var l1, l2 := GetLine(p1, p2), GetLine(p3, p4);
    SolveQuotient(l1.a, l1.b, -l1.c, l2.a, l2.b, -l2.c, p.x, p.y);
  }

  /** ... and it is on both lines. */
  lemma CrossIsOnLines(p1: Node, p2: Node, p3: Node, p4: Node)
    requires !NearlyParallel(p1, p2, p3, p4)
    ensures OnLine(GetLine(p1, p2), GetCross(p1, p2, p3, p4))
    ensures OnLine(GetLine(p3, p4), GetCross(p1, p2, p3, p4))
  {
    var l1, l2 := GetLine(p1, p2), GetLine(p3, p4);
    var c1, c2 := -l1.c, -l2.c;
    var p := GetCross(p1, p2, p3, p4);
    Substitute(l1.a, l1.b, c1, l2.a, l2.b, c2, p.x, p.y);
  }

  lemma Substitute(a1: real, b1: real, c1: real, a2: real, b2: real, c2: real, x: real, y: real)
    requires a1 * b2 - a2 * b1 != 0.0
    requires x == (c1 * b2 - c2 * b1) / (a1 * b2 - a2 * b1)
    requires y == (a1 * c2 - a2 * c1) / (a1 * b2 - a2 * b1)
    ensures a1 * x + b1 * y == c1 && a2 * x + b2 * y == c2
  {
    var d := a1 * b2 - a2 * b1;
    assert d * x == c1 * b2 - c2 * b1 && d * y == a1 * c2 - a2 * c1;
    Combine(d, a1, b1, x, y, c1 * b2 - c2 * b1, a1 * c2 - a2 * c1);
    Combine(d, a2, b2, x, y, c1 * b2 - c2 * b1, a1 * c2 - a2 * c1);
    assert a1 * (c1 * b2 - c2 * b1) + b1 * (a1 * c2 - a2 * c1) == d * c1 by {
      assert a1 * (c1 * b2) - b1 * (a2 * c1) == d * c1;
      assert a1 * (c2 * b1) == b1 * (a1 * c2);
    }
    assert a2 * (c1 * b2 - c2 * b1) + b2 * (a1 * c2 - a2 * c1) == d * c2 by {
      assert b2 * (a1 * c2) - a2 * (c2 * b1) == d * c2;
      assert a2 * (c1 * b2) == b2 * (a2 * c1);
    }
    Cancel(d, a1 * x + b1 * y, c1);
    Cancel(d, a2 * x + b2 * y, c2);
  }

  lemma Combine(d: real, a: real, b: real, x: real, y: real, m: real, n: real)
    requires d * x == m && d * y == n
    ensures d * (a * x + b * y) == a * m + b * n
  {
    assert d * (a * x) == a * (d * x) && d * (b * y) == b * (d * y);
  }

  lemma Cancel(d: real, u: real, v: real)
    requires d != 0.0 && d * u == d * v
    ensures u == v
  {
    assert d * (u - v) == 0.0;
  }

  // ---------- The grid ----------

  /** The four corners of the map in the picture. */
  datatype Corners = Corners(lx: Node, rx: Node, ls: Node, rs: Node)

  /** Bilinear interpolation between the corners. */
  function Bilinear(c: Corners, u: real, v: real): Node {
    Node(Weighted(u, v, c.lx.x, c.rx.x, c.ls.x, c.rs.x), Weighted(u, v, c.lx.y, c.rx.y, c.ls.y, c.rs.y))
  }

  function Weighted(u: real, v: real, a: real, b: real, c: real, d: real): real {
    (1.0 - u) * (1.0 - v) * a + u * (1.0 - v) * b + (1.0 - u) * v * c + u * v * d
  }

  function Across(c: Corners, u: real): (Node, Node) {
    (GetProx(u, c.lx, c.rx), GetProx(u, c.ls, c.rs))
  }

  function Along(c: Corners, v: real): (Node, Node) {
    (GetProx(v, c.lx, c.ls), GetProx(v, c.rx, c.rs))
  }

  lemma MixedWeights(u: real, v: real, a: real, b: real, c: real, d: real)
    ensures Mix(v, Mix(u, a, b), Mix(u, c, d)) == Weighted(u, v, a, b, c, d)
    ensures Mix(u, Mix(v, a, c), Mix(v, b, d)) == Weighted(u, v, a, b, c, d)
  {
  }

  /** The bilinear point lies on both ruling lines through (u, v). */
  lemma RulingsMeet(c: Corners, u: real, v: real)
    ensures GetProx(v, Across(c, u).0, Across(c, u).1) == Bilinear(c, u, v)
    ensures GetProx(u, Along(c, v).0, Along(c, v).1) == Bilinear(c, u, v)
  {
    hide Mix, Weighted;
    MixedWeights(u, v, c.lx.x, c.rx.x, c.ls.x, c.rs.x);
    MixedWeights(u, v, c.lx.y, c.rx.y, c.ls.y, c.rs.y);
  }

  /** Where the two ruling lines at (u, v) cross is the bilinear point, unless the guard takes
      them for parallel. */
  lemma GridPointIsBilinear(c: Corners, u: real, v: real)
    ensures
      var (p1, p2) := Across(c, u);
      var (p3, p4) := Along(c, v);
      GetCross(p1, p2, p3, p4) ==
        if NearlyParallel(p1, p2, p3, p4) then Node(-1.0, -1.0) else Bilinear(c, u, v)
  {
    hide GetCross, GetLine, NearlyParallel, OnLine, GetProx, Bilinear;
    var (p1, p2) := Across(c, u);
    var (p3, p4) := Along(c, v);
    RulingsMeet(c, u, v);
    ProxIsOnLine(v, p1, p2);
    ProxIsOnLine(u, p3, p4);
    if NearlyParallel(p1, p2, p3, p4) {
      NoCross(p1, p2, p3, p4);
    } else {
      CrossIsUnique(p1, p2, p3, p4, Bilinear(c, u, v));
    }
  }

  // ---------- Filling rec ----------

  const X_NUM := 35
  const Y_NUM := 25

  /** The point that grid line i across and j along meet in. */
  function GridPoint(c: Corners, i: nat, j: nat): Node {
    var u, v := i as real / X_NUM as real, j as real / Y_NUM as real;
    var (p1, p2) := Across(c, u);
    var (p3, p4) := Along(c, v);
    if NearlyParallel(p1, p2, p3, p4) then Node(-1.0, -1.0) else Bilinear(c, u, v)
  }

  /** The guard at grid point (i, j): the cross product of the ruling lines' directions, the one
      across at i / 35 and the one along at j / 25. */
  predicate Guarded(c: Corners, i: nat, j: nat) {
    var p1, p2 := GetProx(i as real / 35.0, c.lx, c.rx), GetProx(i as real / 35.0, c.ls, c.rs);
    var p3, p4 := GetProx(j as real / 25.0, c.lx, c.ls), GetProx(j as real / 25.0, c.rx, c.rs);
    -0.001 < (p2.x - p1.x) * (p4.y - p3.y) - (p2.y - p1.y) * (p4.x - p3.x) < 0.001
  }

  lemma DenoIs(p1: Node, p2: Node, p3: Node, p4: Node)
    ensures Deno(p1, p2, p3, p4) == (p2.x - p1.x) * (p4.y - p3.y) - (p2.y - p1.y) * (p4.x - p3.x)
  {
  }

  lemma GuardedPoint(c: Corners, i: nat, j: nat)
    ensures GridPoint(c, i, j) ==
      if Guarded(c, i, j) then Node(-1.0, -1.0) else Bilinear(c, i as real / 35.0, j as real / 25.0)
  {
    hide GetProx, Bilinear, Deno;
    var (p1, p2) := Across(c, i as real / 35.0);
    var (p3, p4) := Along(c, j as real / 25.0);
    DenoIs(p1, p2, p3, p4);
    assert X_NUM as real == 35.0 && Y_NUM as real == 25.0;
    assert NearlyParallel(p1, p2, p3, p4) <==> Guarded(c, i, j);
  }

  /** On its sides the bilinear map divides the sides of the picture. */
  lemma BilinearOnSides(c: Corners, t: real)
    ensures Bilinear(c, t, 0.0) == GetProx(t, c.lx, c.rx) && Bilinear(c, t, 1.0) == GetProx(t, c.ls, c.rs)
    ensures Bilinear(c, 0.0, t) == GetProx(t, c.lx, c.ls) && Bilinear(c, 1.0, t) == GetProx(t, c.rx, c.rs)
  {
  }

  lemma ProxEnds(p: Node, q: Node)
    ensures GetProx(0.0, p, q) == p && GetProx(1.0, p, q) == q
  {
  }

  /** Where index (i, j) lies in the picture: i counts 35ths of the way from the left to the right
      corners, j counts 25ths of the way from the lx, rx side to the ls, rs side. */
  lemma GridSides(c: Corners, i: nat, j: nat)
    ensures !Guarded(c, i, 0) ==> GridPoint(c, i, 0) == GetProx(i as real / 35.0, c.lx, c.rx)
    ensures !Guarded(c, i, 25) ==> GridPoint(c, i, 25) == GetProx(i as real / 35.0, c.ls, c.rs)
    ensures !Guarded(c, 0, j) ==> GridPoint(c, 0, j) == GetProx(j as real / 25.0, c.lx, c.ls)
    ensures !Guarded(c, 35, j) ==> GridPoint(c, 35, j) == GetProx(j as real / 25.0, c.rx, c.rs)
  {
    hide Guarded, GetProx, Bilinear, GridPoint;
    GuardedPoint(c, i, 0);
    GuardedPoint(c, i, 25);
    GuardedPoint(c, 0, j);
    GuardedPoint(c, 35, j);
    BilinearOnSides(c, i as real / 35.0);
    BilinearOnSides(c, j as real / 25.0);
  }

  lemma GridCorners(c: Corners)
    ensures !Guarded(c, 0, 0) ==> GridPoint(c, 0, 0) == c.lx
    ensures !Guarded(c, 35, 0) ==> GridPoint(c, 35, 0) == c.rx
    ensures !Guarded(c, 0, 25) ==> GridPoint(c, 0, 25) == c.ls
    ensures !Guarded(c, 35, 25) ==> GridPoint(c, 35, 25) == c.rs
  {
    hide Guarded, GetProx, GridPoint;
    GridSides(c, 0, 0);
    GridSides(c, 35, 25);
    ProxEnds(c.lx, c.rx);
    ProxEnds(c.ls, c.rs);
  }

  /** Seen straight from above, a field of width w and depth d, the grid is the even one. */
  lemma EvenGrid(w: real, d: real, i: nat, j: nat)
    requires w * d >= 0.001
    ensures
      var c := Corners(Node(0.0, 0.0), Node(w, 0.0), Node(0.0, d), Node(w, d));
      GridPoint(c, i, j) == Node(i as real / 35.0 * w, j as real / 25.0 * d)
  {
    var c := Corners(Node(0.0, 0.0), Node(w, 0.0), Node(0.0, d), Node(w, d));
    GuardedPoint(c, i, j);
    var u, v := i as real / 35.0, j as real / 25.0;
    EvenWeights(u, v, w);
    EvenWeights(v, u, d);
    EvenGuard(c, i, j, w, d);
  }

  lemma EvenWeights(u: real, v: real, w: real)
    ensures Weighted(u, v, 0.0, w, 0.0, w) == u * w && Weighted(v, u, 0.0, 0.0, w, w) == u * w
    ensures Mix(u, w, w) == w && Mix(u, 0.0, 0.0) == 0.0 && Mix(u, 0.0, w) == u * w
  {
  }

  lemma EvenGuard(c: Corners, i: nat, j: nat, w: real, d: real)
    requires c == Corners(Node(0.0, 0.0), Node(w, 0.0), Node(0.0, d), Node(w, d)) && w * d >= 0.001
    ensures !Guarded(c, i, j)
  {
    hide Mix;
    var u, v := i as real / 35.0, j as real / 25.0;
    EvenWeights(u, v, w);
    EvenWeights(v, u, d);
    EvenWeights(u, v, d);
    EvenWeights(v, u, w);
    var p1, p2 := GetProx(u, c.lx, c.rx), GetProx(u, c.ls, c.rs);
    var p3, p4 := GetProx(v, c.lx, c.ls), GetProx(v, c.rx, c.rs);
    assert p2.x - p1.x == 0.0 && p2.y - p1.y == d && p4.x - p3.x == w && p4.y - p3.y == 0.0;
  }

  /** The grid loops of init. */
  method FillGrid(rec: array2<Node>, c: Corners)
    requires rec.Length0 > X_NUM && rec.Length1 > Y_NUM
    modifies rec
    ensures forall i: nat, j: nat :: i <= 35 && j <= 25 ==> rec[i, j] == GridPoint(c, i, j)
    ensures !Guarded(c, 0, 0) ==> rec[0, 0] == c.lx
    ensures !Guarded(c, 35, 0) ==> rec[35, 0] == c.rx
    ensures !Guarded(c, 0, 25) ==> rec[0, 25] == c.ls
    ensures !Guarded(c, 35, 25) ==> rec[35, 25] == c.rs
    ensures forall i: nat :: i <= 35 && !Guarded(c, i, 0) ==> rec[i, 0] == GetProx(i as real / 35.0, c.lx, c.rx)
    ensures forall j: nat :: j <= 25 && !Guarded(c, 0, j) ==> rec[0, j] == GetProx(j as real / 25.0, c.lx, c.ls)
  {
    hide GridPoint, Guarded, GetProx;
    FillPoints(rec, c);
    GridCorners(c);
    forall i: nat | i <= 35
      ensures !Guarded(c, i, 0) ==> rec[i, 0] == GetProx(i as real / 35.0, c.lx, c.rx)
    {
      GridSides(c, i, 0);
    }
    forall j: nat | j <= 25
      ensures !Guarded(c, 0, j) ==> rec[0, j] == GetProx(j as real / 25.0, c.lx, c.ls)
    {
      GridSides(c, 0, j);
    }
  }

  /** The loops themselves. */
  method FillPoints(rec: array2<Node>, c: Corners)
    requires rec.Length0 > X_NUM && rec.Length1 > Y_NUM
    modifies rec
    ensures forall i: nat, j: nat :: i <= X_NUM && j <= Y_NUM ==> rec[i, j] == GridPoint(c, i, j)
  {
    hide GetCross, GetProx, Bilinear, NearlyParallel;
    for i := 0 to X_NUM + 1
      invariant forall a: nat, b: nat :: a < i && b <= Y_NUM ==> rec[a, b] == GridPoint(c, a, b)
    {
      var lamX := i as real / X_NUM as real;
      var p1, p2 := GetProx(lamX, c.lx, c.rx), GetProx(lamX, c.ls, c.rs);
      for j := 0 to Y_NUM + 1
        invariant forall a: nat, b: nat :: (a < i && b <= Y_NUM) || (a == i && b < j) ==>
          rec[a, b] == GridPoint(c, a, b)
      {
        var lamY := j as real / Y_NUM as real;
        var p3, p4 := GetProx(lamY, c.lx, c.ls), GetProx(lamY, c.rx, c.rs);
        rec[i, j] := GetCross(p1, p2, p3, p4);
        GridPointIsBilinear(c, lamX, lamY);
      }
    }
  }
}
