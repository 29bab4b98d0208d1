/** astar of aco.c as a whole: search, read-back and sampling. */
module Route {
  import opened Grid
  import opened AStarTheory
  import SearchRuns
  import opened AStar
  import opened PathSampler

  const PIECE_STEP := 15.0

  /** The centre of a grid cell in field coordinates. */
  function Centre(c: Cell): Point {
    (c.x * 10 - 45, c.y * 10 - 45)
  }

  /** The centres of the cells that a walk visits. */
  ghost function Centres(c: Cell, moves: seq<Move>): (w: seq<Point>)
    ensures |w| == |moves| + 1
  {
    seq(|moves| + 1, k requires 0 <= k <= |moves| => Centre(End(c, moves[..k])))
  }

  /** A move takes at most three samples. */
  lemma MovePieces(c: Cell, m: Move)
    ensures Pieces(Centre(c), Centre(Target(c, m)), PIECE_STEP) <= 3
  {
    var d := Delta(m / 8, m % 8);
    var a, b := Centre(c), Centre(Target(c, m));
    assert SquaredLength(a, b) == 100 * (d.0 * d.0 + d.1 * d.1) by {
      assert b.0 - a.0 == 10 * d.0 && b.1 - a.1 == 10 * d.1;
      assert (10 * d.0) * (10 * d.0) == 100 * (d.0 * d.0);
      assert (10 * d.1) * (10 * d.1) == 100 * (d.1 * d.1);
    }
    PiecesIsLeast(a, b, PIECE_STEP, 3);
  }

  /** Samples are at most 15 apart: a straight segment of k times 15 takes k + 1 pieces. */
  lemma StepIs(k: nat)
    ensures Pieces((0, 0), (15 * k, 0), PIECE_STEP) == k + 1
  {
    hide *;
    var a, b := (0, 0), (15 * k, 0);
    LengthIs(a, b);
    FifteenTimes(k);
    SquaredStepIs();
    PiecesIsLeast(a, b, PIECE_STEP, k + 1);
    if k > 0 {
      PiecesIsLeast(a, b, PIECE_STEP, k);
    }
  }

  lemma SquaredStepIs()
    ensures PIECE_STEP > 0.0 && Squared(PIECE_STEP) == 225.0
  {
  }

  lemma FifteenTimes(k: nat)
    ensures (15 * k - 0) * (15 * k - 0) + (0 - 0) * (0 - 0) == 225 * (k * k)
    ensures (k + 1) * (k + 1) > k * k
  {
  }

  lemma CentresStep(c: Cell, moves: seq<Move>, k: nat)
    requires k < |moves|
    ensures
      var w := Centres(c, moves);
      Pieces(w[k], w[k + 1], PIECE_STEP) <= 3
  {
    assert moves[..k + 1][..k] == moves[..k];
    MovePieces(End(c, moves[..k]), moves[k]);
  }

  lemma RouteCentre(planner: Planner, c: Cell, moves: seq<Move>, i: nat)
    requires planner.Sized() && planner.RouteIs(c, moves) && i <= |moves|
    ensures
      var k := |moves| - i;
      Centres(c, moves)[k] == Centre(Cell(planner.roux[i], planner.rouy[i]))
  {
    var k := |moves| - i;
    assert planner.num - 1 - k == i;
  }

  /** The polyline the robot is to follow: the cells of the walk found, then the destination;
      with no walk, the straight line from the point that an empty route buffer denotes. */
  ghost function Polyline(found: bool, start: Cell, moves: seq<Move>, dest: Point): seq<Point> {
    (if found then Centres(start, moves) else [Centre(Cell(0, 0))]) + [dest]
  }

  /** The read-back route, sampled. */
  method SampleRoute(planner: Planner, row: Row, start: Cell, ghost moves: seq<Move>)
    requires planner.Sized() && planner.RouteIs(start, moves)
    requires row.Valid() && row.tot == 0 && row.x.Length > 3 * |moves|
    requires row.predis != planner.roux && row.predis != planner.rouy
    modifies row`tot, row.x, row.y, row.predis
    ensures row.Valid() && row.tot <= 3 * |moves|
    ensures row.Sampled(Centres(start, moves), PIECE_STEP)
  {
    hide Centres, Row.Sampled, Planner.RouteIs, End, Pieces;
    ghost var w := Centres(start, moves);
    RouteLength(planner, start, moves);
    StartPolyline(row, w[0], PIECE_STEP);
    assert w[..1] == [w[0]];
    var n := planner.num;
    var i := n - 1;
    while i > 0
      invariant 0 <= i < n == |w| && planner.num == n && planner.RouteIs(start, moves)
      invariant row.Valid() && row.tot <= 3 * (n - 1 - i)
      invariant row.Sampled(w[..n - i], PIECE_STEP)
    {
      ghost var k := n - 1 - i;
      var a := (planner.roux[i] * 10 - 45, planner.rouy[i] * 10 - 45);
      var b := (planner.roux[i - 1] * 10 - 45, planner.rouy[i - 1] * 10 - 45);
      RouteCentre(planner, start, moves, i);
      RouteCentre(planner, start, moves, i - 1);
      CentresStep(start, moves, k);
      ExtendPolyline(row, w[..k + 1], a, b, PIECE_STEP);
      assert w[..k + 1] + [b] == w[..k + 2];
      i := i - 1;
    }
    assert w[..n] == w;
  }

  lemma RouteLength(planner: Planner, c: Cell, moves: seq<Move>)
    requires planner.Sized() && planner.RouteIs(c, moves)
    ensures planner.num == |moves| + 1
  {
  }

  /** An empty row is the polyline of one point. */
  lemma StartPolyline(row: Row, p: Point, step: real)
    requires row.Valid() && row.tot == 0 && step > 0.0
    ensures row.Sampled([p], step)
  {
  }

  /** The search and its read-back. */
  method FindRoute(planner: Planner, p: Problem) returns (found: bool, ghost moves: seq<Move>)
    requires planner.Valid() && p == GridProblem(planner.obs, p.start, p.goal) && Unwrapped(p.start)
    modifies planner`view, planner`num, planner.heap`sz, planner.heap.heap
    modifies planner.cst, planner.fax, planner.fay, planner.roux, planner.rouy
    ensures planner.Valid()
    ensures found ==> Optimal(p, moves) && planner.RouteIs(p.start, moves) && |moves| < PLACES
    ensures !found ==> Unreachable(p) && planner.num == 0 && planner.roux[0] == planner.rouy[0] == 0
  {
    hide Optimal, Unreachable, Stopped, Initial, Planner.RouteIs, Planner.Linked;
    planner.Reset(p);
    ghost var popped, g := [], 0;
    found, g, popped := planner.Search(p);
    moves := [];
    if found {
      moves := planner.ReadBack(p, SearchRuns.Cells(popped), g);
      CheapestWalk(p, planner.view, SearchRuns.Cells(popped), g, moves);
    }
  }

  /** astar: the row it samples runs along a cheapest walk to the goal and on to the
      destination; if the goal is out of reach, it runs straight from (-45, -45), the point
      that the zeroed route buffer denotes, to the destination. */
  method Astar(planner: Planner, row: Row, start: Cell, goal: Cell, dest: Point)
    returns (found: bool, ghost moves: seq<Move>)
    requires planner.Valid() && Unwrapped(start)
    requires row.Valid() && row.tot == 0
    requires row.predis != planner.roux && row.predis != planner.rouy
    requires row.x.Length > 3 * PLACES + Pieces(Centre(goal), dest, PIECE_STEP)
    requires row.x.Length > Pieces(Centre(Cell(0, 0)), dest, PIECE_STEP)
    modifies planner`view, planner`num, planner.heap`sz, planner.heap.heap
    modifies planner.cst, planner.fax, planner.fay, planner.roux, planner.rouy
    modifies row`tot, row.x, row.y, row.predis
    ensures
      var p := GridProblem(planner.obs, start, goal);
      if found then Optimal(p, moves) else Unreachable(p)
    ensures row.Valid() && row.Sampled(Polyline(found, start, moves, dest), PIECE_STEP)
  {
    hide Optimal, Unreachable, Walk, End, WalkCost, Pieces, Row.Sampled, Planner.RouteIs;
    var p := GridProblem(planner.obs, start, goal);
    found, moves := FindRoute(planner, p);
    ghost var w := [Centre(Cell(0, 0))];
    if found {
      SampleRoute(planner, row, start, moves);
      w := Centres(start, moves);
      LastCentre(p, moves);
      RouteCentre(planner, start, moves, 0);
    } else {
      StartPolyline(row, w[0], PIECE_STEP);
    }
    var from := (planner.roux[0] * 10 - 45, planner.rouy[0] * 10 - 45);
    ExtendPolyline(row, w, from, dest, PIECE_STEP);
  }

  lemma LastCentre(p: Problem, moves: seq<Move>)
    requires Optimal(p, moves)
    ensures Centres(p.start, moves)[|moves|] == Centre(p.goal)
  {
    assert moves[..|moves|] == moves;
  }
}
