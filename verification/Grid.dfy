/** The search grid of aco.c: 76 x 56 cells, an obstacle map and four move tables. */
module Grid {
  import opened Distance
  import Sets

  const WW := 76
  const HH := 56

  /** An upper bound on every count of cells. */
  const CELLS := WW * HH

  /** Moves per cell: four tables of eight. */
  const MOVES := 32

  datatype Cell = Cell(x: int, y: int)

  predicate InGrid(c: Cell) {
    1 <= c.x <= WW && 1 <= c.y <= HH
  }

  /** The obstacle map as reads of it behave. The search probes up to three cells outside
      the grid, where the program reads whatever memory lies there, so the map is an
      arbitrary total function. */
  type Obstacles = (int, int) -> int

  /** A search problem: the map, the start, the goal and the heuristic. */
  datatype Problem = Problem(obs: Obstacles, start: Cell, goal: Cell, h: Cell -> nat)

  /** A cell the search deals with. The start may lie outside the grid; no move leads to it
      then. */
  predicate Place(p: Problem, c: Cell) {
    c == p.start || InGrid(c)
  }

  /** A cell from which no move, computed in uint8_t, wraps around into the grid. */
  predicate Unwrapped(c: Cell) {
    0 <= c.x <= 253 && 0 <= c.y <= 253
  }

  const DIR0: seq<(int, int)> := [(-1, -1), (1, 1), (1, -1), (-1, 1), (1, 0), (0, 1), (-1, 0), (0, -1)]
  const DIR1: seq<(int, int)> := [(1, 2), (-1, 2), (1, -2), (-1, -2), (2, 1), (2, -1), (-2, 1), (-2, -1)]
  const DIR2: seq<(int, int)> := [(3, 2), (-3, 2), (3, -2), (-3, -2), (2, 3), (2, -3), (-2, 3), (-2, -3)]
  const DIR3: seq<(int, int)> := [(1, 3), (-1, 3), (1, -3), (-1, -3), (3, 1), (3, -1), (-3, 1), (-3, -1)]

  /** Entry i of move table t. */
  function Delta(t: nat, i: nat): (d: (int, int))
    requires t < 4 && i < 8
    ensures d.0 * d.0 + d.1 * d.1 <= 16
    ensures -3 <= d.0 <= 3 && -3 <= d.1 <= 3
  {
    if t == 0 then DIR0[i] else if t == 1 then DIR1[i] else if t == 2 then DIR2[i] else DIR3[i]
  }

  /** What a move costs: ten per cell side, rounded. */
  function MoveCost(t: nat, d: (int, int)): (w: nat)
    ensures w >= 10
  {
    if t == 0 then (if Abs(d.0) + Abs(d.1) == 1 then 10 else 14)
    else if t == 1 then 22
    else if t == 2 then 36
    else 32
  }

  /** Moves are numbered table by table: move m is entry m % 8 of table m / 8. */
  type Move = m: nat | m < MOVES

  function Cost(m: Move): nat
  {
    MoveCost(m / 8, Delta(m / 8, m % 8))
  }

  function Target(c: Cell, m: Move): Cell
  {
    var d := Delta(m / 8, m % 8);
    Cell(c.x + d.0, c.y + d.1)
  }

  /** Table 0 is always usable; a longer table only if none of its eight targets is an
      obstacle. */
  predicate Gate(obs: Obstacles, c: Cell, t: nat)
    requires t < 4
  {
    t == 0 || forall i :: 0 <= i < 8 ==> obs(c.x + Delta(t, i).0, c.y + Delta(t, i).1) != 1
  }

  predicate Legal(p: Problem, c: Cell, m: Move) {
    InGrid(Target(c, m)) && p.obs(Target(c, m).x, Target(c, m).y) != 1 && Gate(p.obs, c, m / 8)
  }

  function H(p: Problem, c: Cell): nat {
    p.h(c)
  }

  /** Along every move F = G + H rises. */
  ghost predicate Consistent(p: Problem) {
    forall c, m: Move :: H(p, c) < Cost(m) + H(p, Target(c, m))
  }

  lemma FRises(p: Problem, c: Cell, m: Move)
    requires Consistent(p)
    ensures H(p, c) < Cost(m) + H(p, Target(c, m))
  {
  }

  /** The heuristic of the program: the truncated distance in cells. */
  function CellDistance(goal: Cell): Cell -> nat {
    (c: Cell) => CalcDis(c.x, c.y, goal.x, goal.y)
  }

  function GridProblem(obs: Obstacles, start: Cell, goal: Cell): Problem {
    Problem(obs, start, goal, CellDistance(goal))
  }

  /** The program's heuristic is strictly consistent, whatever the map. */
  lemma HeuristicIsConsistent(obs: Obstacles, start: Cell, goal: Cell)
    ensures Consistent(GridProblem(obs, start, goal))
  {
    hide MoveCost, Delta, Square, FloorSqrt;
    var p := GridProblem(obs, start, goal);
    forall c, m: Move
      ensures H(p, c) < Cost(m) + H(p, Target(c, m))
    {
      var d := Delta(m / 8, m % 8);
      DistanceChangesSlowly(c.x, c.y, d.0, d.1, goal.x, goal.y, 4);
    }
  }

  // ---------- What the moves are, without the tables ----------

  /** The square of a move's length. */
  function Reach(m: Move): nat {
    var d := Delta(m / 8, m % 8);
    (d.0 * d.0 + d.1 * d.1) as nat
  }

  /** Each table holds the eight displacements of its kind. */
  lemma TableIs(t: nat, dx: int, dy: int)
    requires t < 4
    ensures (exists i: nat :: i < 8 && Delta(t, i) == (dx, dy)) <==>
      var near, far := if Abs(dx) <= Abs(dy) then Abs(dx) else Abs(dy), if Abs(dx) <= Abs(dy) then Abs(dy) else Abs(dx);
      if t == 0 then near <= 1 && far == 1
      else if t == 1 then near == 1 && far == 2
      else if t == 2 then near == 2 && far == 3
      else near == 1 && far == 3
  {
    var s := [Delta(t, 0), Delta(t, 1), Delta(t, 2), Delta(t, 3), Delta(t, 4), Delta(t, 5), Delta(t, 6), Delta(t, 7)];
    assert forall i: nat :: i < 8 ==> s[i] == Delta(t, i);
  }

  /** ... once each. */
  lemma TableIsDistinct(t: nat, i: nat, j: nat)
    requires t < 4 && i < j < 8
    ensures Delta(t, i) != Delta(t, j)
  {
  }

  /** A move costs ten times its length, rounded. */
  lemma CostIsRounded(m: Move)
    ensures
      var w := Cost(m);
      (2 * w - 1) * (2 * w - 1) <= 400 * Reach(m) < (2 * w + 1) * (2 * w + 1)
  {
  }

  /** All moves of a longer table are equally long. */
  lemma ReachOfTable(t: nat, i: nat)
    requires t < 4 && i < 8
    ensures
      var d := Delta(t, i);
      var s := d.0 * d.0 + d.1 * d.1;
      if t == 0 then 1 <= s <= 2 else s == if t == 1 then 5 else if t == 2 then 13 else 10
  {
  }

  lemma SmallRoot(a: int, s: nat)
    requires a * a <= s < 16
    ensures -3 <= a <= 3
  {
    assert a >= 4 ==> a * a >= 16;
    assert a <= -4 ==> a * a >= 16;
  }

  /** A table longer than a diagonal step holds all displacements of its length. */
  lemma TableHolds(t: nat, dx: int, dy: int)
    requires 0 < t < 4 && dx * dx + dy * dy == if t == 1 then 5 else if t == 2 then 13 else 10
    ensures exists i: nat :: i < 8 && Delta(t, i) == (dx, dy)
  {
    hide Delta;
    SmallRoot(dx, dx * dx + dy * dy);
    SmallRoot(dy, dx * dx + dy * dy);
    assert dx * dx == Abs(dx) * Abs(dx) && dy * dy == Abs(dy) * Abs(dy);
    TableIs(t, dx, dy);
  }

  /** The gate without the table. */
  lemma GateIs(obs: Obstacles, c: Cell, t: nat, s: nat)
    requires 0 < t < 4 && s == if t == 1 then 5 else if t == 2 then 13 else 10
    ensures Gate(obs, c, t) <==> forall dx, dy :: dx * dx + dy * dy == s ==> obs(c.x + dx, c.y + dy) != 1
  {
    hide Delta;
    if Gate(obs, c, t) {
      forall dx, dy | dx * dx + dy * dy == s
        ensures obs(c.x + dx, c.y + dy) != 1
      {
        TableHolds(t, dx, dy);
        var i: nat :| i < 8 && Delta(t, i) == (dx, dy);
      }
    }
    forall i: nat | i < 8
      ensures var d := Delta(t, i); d.0 * d.0 + d.1 * d.1 == s
    {
      ReachOfTable(t, i);
    }
  }

  /** The move from c to v is legal if and only if v is a free cell of the grid and, for a move
      longer than a diagonal step, no cell as far from c is an obstacle. */
  lemma LegalIs(p: Problem, c: Cell, m: Move)
    ensures
      var v := Target(c, m);
      && Reach(m) == (v.x - c.x) * (v.x - c.x) + (v.y - c.y) * (v.y - c.y)
      && (Legal(p, c, m) <==>
        && 1 <= v.x <= 76 && 1 <= v.y <= 56 && p.obs(v.x, v.y) != 1
        && (Reach(m) > 2 ==> forall dx, dy :: dx * dx + dy * dy == Reach(m) ==> p.obs(c.x + dx, c.y + dy) != 1))
  {
    hide Delta, Gate;
    ReachOfTable(m / 8, m % 8);
    if m >= 8 {
      GateIs(p.obs, c, m / 8, Reach(m));
    } else {
      NearGate(p.obs, c);
    }
  }

  lemma NearGate(obs: Obstacles, c: Cell)
    ensures Gate(obs, c, 0)
  {
  }

  // Walks: sequences of moves taken from a cell.

  function End(c: Cell, moves: seq<Move>): Cell
  {
    if moves == [] then c else Target(End(c, moves[..|moves| - 1]), moves[|moves| - 1])
  }

  ghost predicate Walk(p: Problem, c: Cell, moves: seq<Move>)
  {
    moves == [] || (
      var init := moves[..|moves| - 1];
      && Walk(p, c, init)
      && Legal(p, End(c, init), moves[|moves| - 1]))
  }

  function WalkCost(moves: seq<Move>): nat
  {
    if moves == [] then 0 else WalkCost(moves[..|moves| - 1]) + Cost(moves[|moves| - 1])
  }

  /** A legal move followed by a walk is a walk. */
  lemma {:induction false} WalkCons(p: Problem, c: Cell, m: Move, moves: seq<Move>)
    requires Legal(p, c, m) && Walk(p, Target(c, m), moves)
    ensures Walk(p, c, [m] + moves)
    ensures End(c, [m] + moves) == End(Target(c, m), moves)
    ensures WalkCost([m] + moves) == Cost(m) + WalkCost(moves)
  {
    var all := [m] + moves;
    if moves == [] {
      assert all[..|all| - 1] == [];
    } else {
      var init := moves[..|moves| - 1];
      WalkCons(p, c, m, init);
      assert all[..|all| - 1] == [m] + init;
    }
  }

  ghost function Column(x: int, h: nat): set<Cell> {
    set y | 1 <= y <= h :: Cell(x, y)
  }

  lemma {:induction false} ColumnSize(x: int, h: nat)
    ensures |Column(x, h)| == h
  {
    if h > 0 {
      ColumnSize(x, h - 1);
      assert Column(x, h) == Column(x, h - 1) + {Cell(x, h)};
    }
  }

  ghost function Columns(w: nat): set<Cell> {
    set x, y | 1 <= x <= w && 1 <= y <= HH :: Cell(x, y)
  }

  lemma {:induction false} ColumnsSize(w: nat)
    ensures |Columns(w)| == w * HH
  {
    if w > 0 {
      ColumnsSize(w - 1);
      ColumnSize(w, HH);
      assert Columns(w) == Columns(w - 1) + Column(w, HH);
      assert Columns(w - 1) !! Column(w, HH);
    }
  }

  /** An upper bound on every count of the cells a search deals with. */
  const PLACES := CELLS + 1

  /** No set of grid cells has more than CELLS members. */
  lemma GridSize(s: set<Cell>)
    requires forall c :: c in s ==> InGrid(c)
    ensures |s| <= CELLS
  {
    ColumnsSize(WW);
    Sets.SubsetSize(s, Columns(WW));
  }

  lemma PlacesSize(p: Problem, s: set<Cell>)
    requires forall c :: c in s ==> Place(p, c)
    ensures |s| <= PLACES
  {
    GridSize(s - {p.start});
    assert s <= (s - {p.start}) + {p.start};
    Sets.SubsetSize(s, (s - {p.start}) + {p.start});
  }
}
