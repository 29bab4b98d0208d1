/** astar_init of aco.c, which marks the pictures on the obstacle map, and what it means for the
    cells that no_trans_task plans to. */
module PictureMap {
  import opened Grid
  import AStarTheory
  import opened AStar
  import Route

  /** A picture's spot on the field, counted in squares from (1, 1). */
  type Spot = (int, int)

  /** A picture blocks sixteen cells. */
  predicate Blocks(pic: Spot, x: int, y: int) {
    2 * pic.0 + 1 <= x <= 2 * pic.0 + 4 && 2 * pic.1 + 1 <= y <= 2 * pic.1 + 4
  }

  /** The cells of the base are cleared again. */
  predicate InBase(x: int, y: int) {
    4 <= x <= 5 && 4 <= y <= 5
  }

  ghost predicate Blocked(pics: seq<Spot>, x: int, y: int) {
    exists i :: 0 <= i < |pics| && Blocks(pics[i], x, y)
  }

  ghost predicate InTable(pics: seq<Spot>) {
    forall i :: 0 <= i < |pics| ==> 0 <= pics[i].0 && 2 * pics[i].0 + 4 < NN && 0 <= pics[i].1 && 2 * pics[i].1 + 4 < MM
  }

  /** The map holds the pictures. */
  ghost predicate Maps(obs: Obstacles, pics: seq<Spot>) {
    forall x, y :: 0 <= x < NN && 0 <= y < MM ==> obs(x, y) == if !InBase(x, y) && Blocked(pics, x, y) then 1 else 0
  }

  /** The loops over one picture's cells. */
  method MarkPicture(obs: array2<int>, pics: seq<Spot>, i: nat)
    requires obs.Length0 == NN && obs.Length1 == MM && InTable(pics) && i < |pics|
    requires forall x, y :: 0 <= x < NN && 0 <= y < MM ==> obs[x, y] == if Blocked(pics[..i], x, y) then 1 else 0
    modifies obs
    ensures forall x, y :: 0 <= x < NN && 0 <= y < MM ==> obs[x, y] == if Blocked(pics[..i + 1], x, y) then 1 else 0
  {
    var cx, cy := pics[i].0 * 2 - 1 + 3, pics[i].1 * 2 - 1 + 3;
    for xx := cx - 1 to cx + 3
      invariant forall x, y :: 0 <= x < NN && 0 <= y < MM ==>
        obs[x, y] == if Blocked(pics[..i], x, y) || (Blocks(pics[i], x, y) && x < xx) then 1 else 0
    {
      for yy := cy - 1 to cy + 3
        invariant forall x, y :: 0 <= x < NN && 0 <= y < MM ==>
          obs[x, y] ==
            if Blocked(pics[..i], x, y) || (Blocks(pics[i], x, y) && (x < xx || (x == xx && y < yy))) then 1 else 0
      {
        obs[xx, yy] := 1;
      }
    }
    forall x, y | 0 <= x < NN && 0 <= y < MM
      ensures Blocked(pics[..i + 1], x, y) <==> Blocked(pics[..i], x, y) || Blocks(pics[i], x, y)
    {
      BlockedGrows(pics, i, x, y);
    }
  }

  lemma BlockedGrows(pics: seq<Spot>, i: nat, x: int, y: int)
    requires i < |pics|
    ensures Blocked(pics[..i + 1], x, y) <==> Blocked(pics[..i], x, y) || Blocks(pics[i], x, y)
  {
    hide Blocks;
    var more := pics[..i + 1];
    if k :| 0 <= k < |more| && Blocks(more[k], x, y) {
      assert k < i ==> Blocks(pics[..i][k], x, y);
    }
    if k :| 0 <= k < i && Blocks(pics[..i][k], x, y) {
      assert Blocks(more[k], x, y);
    }
    assert Blocks(pics[i], x, y) ==> Blocks(more[i], x, y);
  }

  /** astar_init */
  method AstarInit(obs: array2<int>, pics: seq<Spot>)
    requires obs.Length0 == NN && obs.Length1 == MM && InTable(pics)
    modifies obs
    ensures forall x, y :: 0 <= x < NN && 0 <= y < MM ==>
      obs[x, y] == if !InBase(x, y) && Blocked(pics, x, y) then 1 else 0
  {
    hide Blocks, Blocked;
    forall x, y | 0 <= x < NN && 0 <= y < MM { obs[x, y] := 0; }
    NothingBlocked(pics);
    for i := 0 to |pics|
      invariant forall x, y :: 0 <= x < NN && 0 <= y < MM ==> obs[x, y] == if Blocked(pics[..i], x, y) then 1 else 0
    {
      MarkPicture(obs, pics, i);
    }
    assert pics[..|pics|] == pics;
    obs[4, 4] := 0;
    obs[4, 5] := 0;
    obs[5, 5] := 0;
    obs[5, 4] := 0;
  }

  lemma NothingBlocked(pics: seq<Spot>)
    ensures forall x, y :: !Blocked(pics[..0], x, y)
  {
  }

  /** A cell is blocked by a picture exactly if its centre, at (10x - 45, 10y - 45), lies within 15
      of the corner (20(pic.0 - 1), 20(pic.1 - 1)) of the picture's square, in both coordinates. */
  lemma BlocksIs(pic: Spot, x: int, y: int)
    ensures Blocks(pic, x, y) <==>
      && -15 <= (10 * x - 45) - 20 * (pic.0 - 1) <= 15
      && -15 <= (10 * y - 45) - 20 * (pic.1 - 1) <= 15
  {
  }

  ghost function BlockedCells(pic: Spot): (s: set<Cell>)
    ensures forall x, y :: Blocks(pic, x, y) <==> Cell(x, y) in s
  {
    set x, y | 2 * pic.0 + 1 <= x <= 2 * pic.0 + 4 && 2 * pic.1 + 1 <= y <= 2 * pic.1 + 4 :: Cell(x, y)
  }

  ghost function Strip(x: int, lo: int, hi: int): set<Cell> {
    set y | lo <= y < hi :: Cell(x, y)
  }

  lemma {:induction false} StripSize(x: int, lo: int, hi: int)
    requires lo <= hi
    ensures |Strip(x, lo, hi)| == hi - lo
    decreases hi - lo
  {
    if lo < hi {
      StripSize(x, lo, hi - 1);
      assert Strip(x, lo, hi) == Strip(x, lo, hi - 1) + {Cell(x, hi - 1)};
    } else {
      assert Strip(x, lo, hi) == {};
    }
  }

  ghost function Strips(lo: int, hi: int, y: int): set<Cell> {
    set a, b | lo <= a < hi && y <= b < y + 4 :: Cell(a, b)
  }

  lemma {:induction false} StripsSize(lo: int, hi: int, y: int)
    requires lo <= hi
    ensures |Strips(lo, hi, y)| == 4 * (hi - lo)
    decreases hi - lo
  {
    if lo < hi {
      StripsSize(lo, hi - 1, y);
      StripSize(hi - 1, y, y + 4);
      assert Strips(lo, hi, y) == Strips(lo, hi - 1, y) + Strip(hi - 1, y, y + 4);
      assert Strips(lo, hi - 1, y) !! Strip(hi - 1, y, y + 4);
    } else {
      assert Strips(lo, hi, y) == {};
    }
  }

  /** A picture blocks exactly sixteen cells. */
  lemma BlocksSixteen(pic: Spot)
    ensures |BlockedCells(pic)| == 16
  {
    var x, y := 2 * pic.0 + 1, 2 * pic.1 + 1;
    StripsSize(x, x + 4, y);
    assert BlockedCells(pic) == Strips(x, x + 4, y);
  }

  /** The base is the four cells whose centres are within 5 of the origin in both coordinates. */
  lemma BaseIs(x: int, y: int)
    ensures InBase(x, y) <==> -5 <= 10 * x - 45 <= 5 && -5 <= 10 * y - 45 <= 5
  {
  }

  // ---------- The cells to plan to ----------

  const ERX := 10
  const ERY := 45

  /** Where the robot is to stand for a picture. */
  function Stand(pic: Spot): (int, int) {
    ((pic.0 - 1) * 20 + 10 - ERX, (pic.1 - 1) * 20 + 10 - ERY)
  }

  /** Division truncates. */
  function Tenth(a: int): int {
    if a >= 0 then a / 10 else -(-a / 10)
  }

  /** The cell of a point, as no_trans_task computes it. */
  function CellAt(p: (int, int)): Cell {
    Cell(Tenth(p.0 + 39) + 1, Tenth(p.1 + 39) + 1)
  }

  /** The cell of a point is the one whose centre is nearest: within 5 of it. */
  lemma CellIsNear(p: (int, int))
    requires p.0 >= -39 && p.1 >= -39
    ensures
      var c := CellAt(p);
      -5 <= Route.Centre(c).0 - p.0 < 5 && -5 <= Route.Centre(c).1 - p.1 < 5
  {
  }

  /** Planning to the centre of a cell leads back to that cell. */
  lemma CentreOfCell(c: Cell)
    requires InGrid(c)
    ensures CellAt(Route.Centre(c)) == c
  {
  }

  /** Cells are ten apart, and the base's four cells lie around the origin. */
  lemma CentresAre(c: Cell, m: Move)
    ensures
      var d := Delta(m / 8, m % 8);
      Route.Centre(Target(c, m)) == (Route.Centre(c).0 + 10 * d.0, Route.Centre(c).1 + 10 * d.1)
    ensures Route.Centre(Cell(4, 4)) == (-5, -5) && Route.Centre(Cell(5, 5)) == (5, 5)
  {
    hide Delta;
  }

  /** The robot stands at the corner of the picture's square along x, and 35 short of it along
      y. */
  lemma StandIs(pic: Spot)
    ensures Stand(pic) == (20 * (pic.0 - 1), 20 * (pic.1 - 1) - 35)
  {
  }

  /** p is one or two squares lower than q, in its column or the one before. */
  predicate Below(p: Spot, q: Spot) {
    q.0 - 1 <= p.0 <= q.0 && q.1 - 2 <= p.1 <= q.1 - 1
  }

  /** The cell to plan to is an obstacle exactly if another picture stands in its column or the
      one before, one or two squares lower, and it is not a cell of the base. */
  lemma StandIsBlocked(obs: Obstacles, pics: seq<Spot>, k: nat)
    requires Maps(obs, pics) && k < |pics| && 1 <= pics[k].0 <= 35 && 1 <= pics[k].1 <= 25
    ensures
      var c := CellAt(Stand(pics[k]));
      && InGrid(c)
      && (obs(c.x, c.y) == 1 <==>
          pics[k] != (1, 3) && exists i :: 0 <= i < |pics| && Below(pics[i], pics[k]))
  {
  }

  /** An obstacle on the goal keeps every walk from it. */
  lemma BlockedGoal(p: Problem)
    requires p.start != p.goal && p.obs(p.goal.x, p.goal.y) == 1
    ensures AStarTheory.Unreachable(p)
  {
    forall w | Walk(p, p.start, w)
      ensures End(p.start, w) != p.goal
    {
    }
  }

  /** ... and so does a goal off the grid. */
  lemma GoalOffGrid(p: Problem)
    requires p.start != p.goal && !InGrid(p.goal)
    ensures AStarTheory.Unreachable(p)
  {
    forall w | Walk(p, p.start, w)
      ensures End(p.start, w) != p.goal
    {
    }
  }

  /** Two pictures, one square apart in their column: the upper one cannot be planned to, from
      anywhere else. */
  lemma CrowdedPicture(obs: Obstacles, start: Cell)
    requires Maps(obs, [(5, 5), (5, 6)]) && start != Cell(12, 11)
    ensures CellAt(Stand((5, 6))) == Cell(12, 11)
    ensures AStarTheory.Unreachable(GridProblem(obs, start, Cell(12, 11)))
  {
    var pics: seq<Spot> := [(5, 5), (5, 6)];
    assert Blocks(pics[0], 12, 11);
    BlockedGoal(GridProblem(obs, start, Cell(12, 11)));
  }
}
