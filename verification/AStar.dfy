/** The grid search of aco.c on its arrays. */
module AStar {
  import opened Distance
  import opened Grid
  import opened OpenHeap
  import opened AStarTheory
  import opened SearchRuns

  /** Table sizes. */
  const NN := 80
  const MM := 60

  /** Enough heap for any search. */
  const HEAP_CAPACITY := 1 + MOVES * (PLACES + 1)

  /** A table closed by its gate offers no legal move. */
  lemma {:induction false} ClosedTableIsIdle(p: Problem, st: State, e: Entry, t: nat, i: nat)
    requires Shaped(st) && t < 4 && i <= 8 && !Gate(p.obs, CellOf(e), t)
    ensures Expand(p, st, e, 8 * t + i) == Expand(p, st, e, 8 * t)
  {
    if i > 0 {
      ClosedTableIsIdle(p, st, e, t, i - 1);
      assert (8 * t + i - 1) / 8 == t;
    }
  }

  /** Coordinates kept in a uint8_t wrap to beyond the grid when a move leaves it downwards,
      so the bounds test rejects exactly the moves that leave the grid. */
  lemma WrappedTarget(p: Problem, c: Cell, t: nat, i: nat, nx: int, ny: int)
    requires Unwrapped(c) && t < 4 && i < 8 && Gate(p.obs, c, t)
    requires nx == (c.x + Delta(t, i).0) % 256 && ny == (c.y + Delta(t, i).1) % 256
    ensures Legal(p, c, 8 * t + i) <==> InGrid(Cell(nx, ny)) && p.obs(nx, ny) != 1
    ensures InGrid(Cell(nx, ny)) ==> Cell(nx, ny) == Target(c, 8 * t + i)
    ensures Cost(8 * t + i) == MoveCost(t, Delta(t, i))
  {
    hide MoveCost, Delta, Gate;
    assert (8 * t + i) / 8 == t && (8 * t + i) % 8 == i;
  }

  /** Prefixes of a walk with a move put in front. */
  lemma {:induction false} EndCons(c: Cell, m: Move, moves: seq<Move>)
    ensures End(c, [m] + moves) == End(Target(c, m), moves)
  {
    var all := [m] + moves;
    if moves == [] {
      assert all[..|all| - 1] == [];
    } else {
      EndCons(c, m, moves[..|moves| - 1]);
      assert all[..|all| - 1] == [m] + moves[..|moves| - 1];
    }
  }

  lemma NextTable(t: nat, sz0: nat, sz: nat, sz': nat)
    requires sz <= sz0 + 8 * t && sz' <= sz + 8
    ensures sz' <= sz0 + 8 * (t + 1) && 8 * t + 8 == 8 * (t + 1)
  {
  }

  lemma EmptyWalk(p: Problem, c: Cell)
    ensures Walk(p, c, []) && End(c, []) == c && WalkCost([]) == 0
  {
  }

  lemma StoppedIsTraceable(p: Problem, st: State, closed: set<Cell>, g: int)
    requires Stopped(p, st, closed, g)
    ensures Traceable(p, st, closed) && Shaped(st) && Place(p, p.goal) && Found(p, st, p.goal)
    ensures 0 <= g == G(p, st, p.goal) && G(p, st, p.start) == 0
  {
  }

  class Planner {
    const obs: Obstacles
    const heap: Heap
    const cst: array2<int>
    const fax: array2<int>
    const fay: array2<int>
    const roux: array<int>
    const rouy: array<int>
    var num: nat

    /** The state the lemmas speak of; Linked ties it to the arrays. */
    ghost var view: State

    ghost predicate Sized()
      reads this
    {
      && cst.Length0 == fax.Length0 == fay.Length0 == NN
      && cst.Length1 == fax.Length1 == fay.Length1 == MM
      && cst != fax && cst != fay && fax != fay
      && roux != rouy && roux.Length == rouy.Length >= PLACES
      && heap.heap.Length >= HEAP_CAPACITY
      && num <= roux.Length
    }

    ghost predicate Linked()
      requires Sized() && Shaped(view)
      reads this, cst, fax, fay
    {
      forall c :: InGrid(c) ==> view.cst[c] == cst[c.x, c.y] && view.par[c] == Cell(fax[c.x, c.y], fay[c.x, c.y])
    }

    ghost predicate Valid()
      reads this, heap, heap.heap, cst, fax, fay
    {
      Sized() && heap.Valid() && Shaped(view) && Linked() && view.open == heap.Entries()
    }

    constructor (obstacles: Obstacles)
      ensures Valid() && obs == obstacles
      ensures fresh(heap) && fresh(heap.heap) && fresh(cst) && fresh(fax) && fresh(fay) && fresh(roux) && fresh(rouy)
    {
      obs := obstacles;
      heap := new Heap(HEAP_CAPACITY);
      cst := new int[NN, MM];
      fax := new int[NN, MM];
      fay := new int[NN, MM];
      roux := new int[PLACES];
      rouy := new int[PLACES];
      num := 0;
      new;
      view := State(map x, y | 1 <= x <= WW && 1 <= y <= HH :: Cell(x, y) := cst[x, y],
                    map x, y | 1 <= x <= WW && 1 <= y <= HH :: Cell(x, y) := Cell(fax[x, y], fay[x, y]), multiset{});
    }

    /** Records nxt as reached from cur. */
    method Record(cur: Entry, nxt: Entry)
      requires Valid() && heap.sz < heap.heap.Length && InGrid(CellOf(nxt))
      modifies `view, heap`sz, heap.heap, cst, fax, fay
      ensures Valid() && heap.sz == old(heap.sz) + 1
      ensures view == State(old(view).cst[CellOf(nxt) := nxt.f], old(view).par[CellOf(nxt) := CellOf(cur)],
                            old(view).open + multiset{nxt})
    {
      hide Ordered, Pushed;
      cst[nxt.x, nxt.y] := nxt.f;
      heap.Push(nxt);
      fax[nxt.x, nxt.y] := cur.x;
      fay[nxt.x, nxt.y] := cur.y;
      view := State(view.cst[CellOf(nxt) := nxt.f], view.par[CellOf(nxt) := CellOf(cur)], view.open + multiset{nxt});
    }

    lemma RelaxIs(p: Problem, cur: Entry, m: Move, n: Entry)
      requires Sized() && Shaped(view) && Linked()
      ensures !Legal(p, CellOf(cur), m) ==> Relax(p, view, cur, m) == view
      ensures
        var v := Target(CellOf(cur), m);
        Legal(p, CellOf(cur), m) && n == NodeFor(p, v, cur.g + Cost(m)) ==>
          Relax(p, view, cur, m) ==
            if cst[v.x, v.y] == 0 || cst[v.x, v.y] > n.f
            then State(view.cst[v := n.f], view.par[v := CellOf(cur)], view.open + multiset{n})
            else view
    {
    }

    /** One iteration of a move loop: entry i of table t, from cur. */
    method RelaxMove(p: Problem, cur: Entry, t: nat, i: nat)
      requires Valid() && heap.sz < heap.heap.Length && p == GridProblem(obs, p.start, p.goal)
      requires Unwrapped(CellOf(cur)) && t < 4 && i < 8 && Gate(obs, CellOf(cur), t)
      modifies `view, heap`sz, heap.heap, cst, fax, fay
      ensures Valid() && heap.sz <= old(heap.sz) + 1
      ensures view == Relax(p, old(view), cur, 8 * t + i)
    {
      hide CalcDis, Legal, Target, Gate, Cost, MoveCost, Delta, Ordered, Relax, Planner.Linked;
      var d := Delta(t, i);
      // coordinates are uint8_t
      var nx, ny := (cur.x + d.0) % 256, (cur.y + d.1) % 256;
      WrappedTarget(p, CellOf(cur), t, i, nx, ny);
      RelaxIs(p, cur, 8 * t + i, cur);
      if obs(nx, ny) == 1 { return; }
      if nx < 1 || nx > WW || ny < 1 || ny > HH { return; }
      var g := cur.g + MoveCost(t, d);
      var h := CalcDis(nx, ny, p.goal.x, p.goal.y);
      var nxt := Entry(nx, ny, g + h, g, h);
      RelaxIs(p, cur, 8 * t + i, nxt);
      assert CellOf(nxt) == Target(CellOf(cur), 8 * t + i);
      if cst[nx, ny] == 0 || cst[nx, ny] > nxt.f {
        Record(cur, nxt);
      }
    }

    /** The flag loops: a product that is nonzero when no target of the table is an
        obstacle. Table 0 does not look at it. */
    method TableFlag(cur: Entry, t: nat) returns (flag: int)
      requires t < 4
      ensures Gate(obs, CellOf(cur), t) <==> t == 0 || flag != 0
    {
      flag := 1;
      for i := 0 to 8
        invariant flag != 0 <==> forall j :: 0 <= j < i ==> obs(cur.x + Delta(t, j).0, cur.y + Delta(t, j).1) != 1
      {
        var factor := 1 - obs(cur.x + Delta(t, i).0, cur.y + Delta(t, i).1);
        assert flag * factor != 0 <==> flag != 0 && factor != 0;
        flag := flag * factor;
      }
    }

    /** The move loop of table t. */
    method ExpandTable(p: Problem, cur: Entry, t: nat, ghost st: State)
      requires Valid() && heap.sz + 8 <= heap.heap.Length && p == GridProblem(obs, p.start, p.goal)
      requires Unwrapped(CellOf(cur)) && t < 4 && Gate(obs, CellOf(cur), t)
      requires Shaped(st) && view == Expand(p, st, cur, 8 * t)
      modifies `view, heap`sz, heap.heap, cst, fax, fay
      ensures Valid() && heap.sz <= old(heap.sz) + 8
      ensures view == Expand(p, st, cur, 8 * t + 8)
    {
      hide Relax, Expand, Legal, Gate, Ordered, Planner.Linked;
      for i := 0 to 8
        invariant Valid() && heap.sz <= old(heap.sz) + i
        invariant view == Expand(p, st, cur, 8 * t + i)
      {
        RelaxMove(p, cur, t, i);
        ExpandUnfolds(p, st, cur, 8 * t + i + 1);
      }
    }

    /** Table t with its gate. */
    method ExpandGated(p: Problem, cur: Entry, t: nat, ghost st: State)
      requires Valid() && heap.sz + 8 <= heap.heap.Length && p == GridProblem(obs, p.start, p.goal)
      requires Unwrapped(CellOf(cur)) && t < 4
      requires Shaped(st) && view == Expand(p, st, cur, 8 * t)
      modifies `view, heap`sz, heap.heap, cst, fax, fay
      ensures Valid() && heap.sz <= old(heap.sz) + 8
      ensures view == Expand(p, st, cur, 8 * t + 8)
    {
      hide Relax, Expand, Legal, Gate, Ordered, Planner.Linked;
      var flag := TableFlag(cur, t);
      if t == 0 || flag != 0 {
        ExpandTable(p, cur, t, st);
      } else {
        ClosedTableIsIdle(p, st, cur, t, 8);
      }
    }

    lemma ViewIsShaped()
      requires Valid()
      ensures Shaped(view)
    {
    }

    /** The four move loops and their gates. */
    method ExpandNode(p: Problem, cur: Entry)
      requires Valid() && heap.sz + MOVES <= heap.heap.Length && p == GridProblem(obs, p.start, p.goal)
      requires Unwrapped(CellOf(cur))
      modifies `view, heap`sz, heap.heap, cst, fax, fay
      ensures Valid()
      ensures view == Expand(p, old(view), cur, MOVES)
    {
      hide Relax, Expand, Legal, Gate, Ordered, Planner.Valid, GridProblem, Unwrapped;
      ghost var st := view;
      ViewIsShaped();
      ExpandUnfolds(p, st, cur, 0);
      for t := 0 to 4
        invariant Valid() && heap.sz <= old(heap.sz) + 8 * t
        invariant view == Expand(p, st, cur, 8 * t)
      {
        ghost var sz := heap.sz;
        ExpandGated(p, cur, t, st);
        NextTable(t, old(heap.sz), sz, heap.sz);
      }
    }

    /** The memsets. */
    method ClearTables()
      requires Sized()
      modifies this`view, this`num, heap`sz, cst, fax, fay, roux, rouy
      ensures Valid() && num == 0 && heap.sz == 0
      ensures forall c :: InGrid(c) ==> view.cst[c] == 0
      ensures forall k :: 0 <= k < roux.Length ==> roux[k] == rouy[k] == 0
    {
      hide Ordered;
      heap.Clear();
      num := 0;
      forall k | 0 <= k < roux.Length { roux[k] := 0; }
      forall k | 0 <= k < rouy.Length { rouy[k] := 0; }
      forall x, y | 0 <= x < NN && 0 <= y < MM { cst[x, y] := 0; }
      forall x, y | 0 <= x < NN && 0 <= y < MM { fax[x, y] := 0; }
      forall x, y | 0 <= x < NN && 0 <= y < MM { fay[x, y] := 0; }
      view := State(map x, y | 1 <= x <= WW && 1 <= y <= HH :: Cell(x, y) := 0,
                    map x, y | 1 <= x <= WW && 1 <= y <= HH :: Cell(x, y) := Cell(0, 0), multiset{});
    }

    /** The memsets and the first push. */
    method Reset(p: Problem)
      requires Valid() && p == GridProblem(obs, p.start, p.goal) && Unwrapped(p.start)
      modifies this`view, this`num, heap`sz, heap.heap, cst, fax, fay, roux, rouy
      ensures Valid() && num == 0 && Initial(p, view)
      ensures forall k :: 0 <= k < roux.Length ==> roux[k] == rouy[k] == 0
    {
      HeuristicIsConsistent(obs, p.start, p.goal);
      ClearTables();
      var g, h := 0, CalcDis(p.start.x, p.start.y, p.goal.x, p.goal.y);
      var st := Entry(p.start.x, p.start.y, g + h, g, h);
      heap.Push(st);
      assert p.h(p.start) == h;
      view := view.(open := multiset{st});
    }

    /** pop, with the view kept in step. */
    method Take() returns (cur: Entry)
      requires Valid() && heap.sz > 0
      modifies `view, heap`sz, heap.heap
      ensures Valid() && heap.sz == old(heap.sz) - 1
      ensures LeastF(old(view), cur) && view == Taken(old(view), cur)
    {
      cur := heap.Pop();
      view := Taken(view, cur);
    }

    /** The main loop. Its pops make up a run, so there are boundedly many. */
    method Search(p: Problem) returns (found: bool, g: int, ghost popped: seq<Entry>)
      requires Valid() && p == GridProblem(obs, p.start, p.goal) && Unwrapped(p.start) && Initial(p, view)
      modifies `view, heap`sz, heap.heap, cst, fax, fay
      ensures Valid() && Run(p, old(view), popped) && |popped| <= 1 + MOVES * PLACES
      ensures found ==> Stopped(p, view, Cells(popped), g)
      ensures !found ==> Unreachable(p)
    {
      hide Initial, Stopped, Expand, Walk, End, LeastF, Run, After, Cells, Ordered, Taken, GridProblem, Planner.Linked;
      found, g, popped := false, 0, [];
      ghost var init := view;
      EmptyRun(p, init);
      while heap.sz > 0
        invariant Valid() && Shaped(init) && Run(p, init, popped) && view == After(p, init, popped)
        decreases 1 + MOVES * PLACES - |popped|
      {
        RunIsBounded(p, init, popped);
        var cur := Take();
        if cur.x == p.goal.x && cur.y == p.goal.y {
          RunStops(p, init, popped, cur);
          found, g := true, cur.g;
          return;
        }
        RunPops(p, init, popped, cur);
        ExpandNode(p, cur);
        popped := popped + [cur];
      }
      RunIsBounded(p, init, popped);
      forall w | Walk(p, p.start, w)
        ensures End(p.start, w) != p.goal
      {
        FinishedRunPopsAll(p, init, popped, w);
      }
    }

    /** The route buffer holds, back to front, the cells that a walk from c visits after c. */
    ghost predicate Trail(c: Cell, moves: seq<Move>)
      requires Sized()
      reads this, roux, rouy
    {
      && num == |moves|
      && forall k :: 1 <= k <= |moves| ==> Cell(roux[num - k], rouy[num - k]) == End(c, moves[..k])
    }

    /** ... and c itself. */
    ghost predicate RouteIs(c: Cell, moves: seq<Move>)
      requires Sized()
      reads this, roux, rouy
    {
      && num == |moves| + 1
      && forall k :: 0 <= k <= |moves| ==> Cell(roux[num - 1 - k], rouy[num - 1 - k]) == End(c, moves[..k])
    }

    /** A move m from u to c in front of the walk. */
    lemma TrailCons(u: Cell, m: Move, c: Cell, moves: seq<Move>)
      requires Sized() && RouteIs(c, moves) && Target(u, m) == c
      ensures Trail(u, [m] + moves)
    {
      var all := [m] + moves;
      forall k | 1 <= k <= |all|
        ensures Cell(roux[num - k], rouy[num - k]) == End(u, all[..k])
      {
        assert all[..k] == [m] + moves[..k - 1];
        EndCons(u, m, moves[..k - 1]);
      }
    }

    lemma ParentAt(c: Cell)
      requires Sized() && Shaped(view) && Linked() && InGrid(c)
      ensures view.par[c] == Cell(fax[c.x, c.y], fay[c.x, c.y])
    {
    }

    method Append(x: int, y: int, ghost moves: seq<Move>)
      requires Valid() && num < roux.Length && Trail(Cell(x, y), moves)
      modifies `num, roux, rouy
      ensures Valid() && RouteIs(Cell(x, y), moves)
    {
      roux[num], rouy[num] := x, y;
      num := num + 1;
      assert moves[..0] == [];
    }

    /** The read-back loop: it reaches the start, and what it wrote down is a walk from the
        start to the goal of exactly the cost found. */
    method ReadBack(p: Problem, ghost closed: set<Cell>, ghost g: int) returns (ghost moves: seq<Move>)
      requires Valid() && num == 0 && Stopped(p, view, closed, g)
      modifies `num, roux, rouy
      ensures Valid()
      ensures Walk(p, p.start, moves) && End(p.start, moves) == p.goal && WalkCost(moves) == g
      ensures RouteIs(p.start, moves) && |moves| < PLACES
    {
      hide End, Walk, WalkCost, Stopped, Traceable, G, Found, Ordered, Planner.RouteIs, Planner.Linked;
      var x, y := p.goal.x, p.goal.y;
      moves := [];
      EmptyWalk(p, p.goal);
      StoppedIsTraceable(p, view, closed, g);
      ghost var visited: set<Cell> := {};
      while true
        invariant Valid() && Traceable(p, view, closed)
        invariant Place(p, Cell(x, y)) && Found(p, view, Cell(x, y)) && 0 <= G(p, view, Cell(x, y))
        invariant Walk(p, Cell(x, y), moves) && End(Cell(x, y), moves) == p.goal
        invariant WalkCost(moves) == g - G(p, view, Cell(x, y))
        invariant Trail(Cell(x, y), moves) && num == |visited|
        invariant forall c :: c in visited ==> Place(p, c) && G(p, view, c) > G(p, view, Cell(x, y))
        decreases G(p, view, Cell(x, y))
      {
        ghost var c := Cell(x, y);
        PlacesSize(p, visited + {c});
        Append(x, y, moves);
        if x == p.start.x && y == p.start.y { break; }
        ParentAt(c);
        var tmpx, tmpy := fax[x, y], fay[x, y];
        ghost var m := ParentIsCheaper(p, view, closed, c);
        WalkCons(p, Cell(tmpx, tmpy), m, moves);
        TrailCons(Cell(tmpx, tmpy), m, c, moves);
        moves, visited := [m] + moves, visited + {c};
        x, y := tmpx, tmpy;
      }
    }
  }
}
