/** Whole runs of the grid search of aco.c. A run is told by the entries it pops; which of
    several entries of least F a pop returns is left open. */
module SearchRuns {
  import opened Grid
  import opened OpenHeap
  import opened AStarTheory

  /** The state after popping and expanding these entries in order. */
  ghost function After(p: Problem, init: State, popped: seq<Entry>): (r: State)
    requires Shaped(init)
    ensures Shaped(r)
  {
    if popped == [] then init
    else
      var e := popped[|popped| - 1];
      Expand(p, Taken(After(p, init, popped[..|popped| - 1]), e), e, MOVES)
  }

  /** Every entry popped had the least F of its moment and was not the goal's. */
  ghost predicate Run(p: Problem, init: State, popped: seq<Entry>) {
    && Initial(p, init)
    && (popped == [] || (
        var before, e := popped[..|popped| - 1], popped[|popped| - 1];
        && Run(p, init, before)
        && LeastF(After(p, init, before), e)
        && CellOf(e) != p.goal))
  }

  function Cells(popped: seq<Entry>): set<Cell> {
    set e | e in popped :: CellOf(e)
  }

  /** The F of the last entry popped. */
  ghost function LastF(p: Problem, popped: seq<Entry>): int {
    if popped == [] then H(p, p.start) else popped[|popped| - 1].f
  }

  lemma EmptyRun(p: Problem, init: State)
    requires Initial(p, init)
    ensures Shaped(init) && Run(p, init, []) && After(p, init, []) == init
  {
  }

  lemma RunGrows(p: Problem, init: State, popped: seq<Entry>, e: Entry)
    requires Run(p, init, popped) && LeastF(After(p, init, popped), e) && CellOf(e) != p.goal
    ensures Run(p, init, popped + [e])
    ensures After(p, init, popped + [e]) == Expand(p, Taken(After(p, init, popped), e), e, MOVES)
  {
    hide Initial, LeastF, Expand;
    assert (popped + [e])[..|popped|] == popped;
  }

  lemma RunUnfolds(p: Problem, init: State, popped: seq<Entry>)
    requires Run(p, init, popped)
    ensures Initial(p, init) && Shaped(init)
    ensures popped == [] ==> After(p, init, popped) == init
    ensures popped != [] ==>
      var before, e := popped[..|popped| - 1], popped[|popped| - 1];
      && Run(p, init, before) && LeastF(After(p, init, before), e) && CellOf(e) != p.goal
      && After(p, init, popped) == Expand(p, Taken(After(p, init, before), e), e, MOVES)
      && Cells(popped) == Cells(before) + {CellOf(e)}
  {
    hide LeastF, Expand, H, Consistent, NodeFor, Cells;
    if popped != [] {
      CellsGrow(popped);
    }
  }

  lemma CellsGrow(popped: seq<Entry>)
    requires popped != []
    ensures Cells(popped) == Cells(popped[..|popped| - 1]) + {CellOf(popped[|popped| - 1])}
  {
    assert popped == popped[..|popped| - 1] + [popped[|popped| - 1]];
  }

  lemma {:induction false} ExpandSize(p: Problem, st: State, e: Entry, k: nat)
    requires Shaped(st) && k <= MOVES
    ensures |Expand(p, st, e, k).open| <= |st.open| + k
  {
    if k > 0 {
      ExpandSize(p, st, e, k - 1);
    }
  }

  /** A turn adds at most a heap entry a move, and only if it closes a cell. */
  lemma TurnSize(p: Problem, st: State, closed: set<Cell>, e: Entry, st': State)
    requires Shaped(st) && LeastF(st, e) && st' == Expand(p, Taken(st, e), e, MOVES)
    requires CellOf(e) in closed ==> st' == Taken(st, e)
    ensures 1 + |st'.open| - |st.open| <= MOVES * (|closed + {CellOf(e)}| - |closed|)
  {
    hide Expand;
    assert |Taken(st, e).open| == |st.open| - 1;
    if CellOf(e) in closed {
      assert closed + {CellOf(e)} == closed;
    } else {
      ExpandSize(p, Taken(st, e), e, MOVES);
    }
  }

  /** The invariant holds after every run, the closed cells being those popped; and every pop
      is paid for by the start or by a move out of a closed cell. */
  lemma {:induction false} RunKeepsInv(p: Problem, init: State, popped: seq<Entry>)
    requires Run(p, init, popped)
    ensures Inv(p, After(p, init, popped), Cells(popped), LastF(p, popped), p.start, MOVES)
    ensures |popped| + |After(p, init, popped).open| <= 1 + MOVES * |Cells(popped)|
  {
    hide Inv, Expand, LeastF, Run, After, Cells, Taken, Shaped;
    RunUnfolds(p, init, popped);
    if popped == [] {
      InitialInv(p, init, p.start);
      NothingPopped();
    } else {
      var before, e := popped[..|popped| - 1], popped[|popped| - 1];
      var st, st' := After(p, init, before), After(p, init, popped);
      RunKeepsInv(p, init, before);
      ghost var closed, cur := Turn(p, st, Cells(before), LastF(p, before), p.start, e, st');
      AnyLastCell(p, st', closed, e.f, cur, p.start);
      TurnSize(p, st, Cells(before), e, st');
    }
  }

  /** Between turns it does not matter which cell was expanded last. */
  lemma AnyLastCell(p: Problem, st: State, closed: set<Cell>, last: int, cur: Cell, cur': Cell)
    requires Inv(p, st, closed, last, cur, MOVES)
    ensures Inv(p, st, closed, last, cur', MOVES)
  {
    hide H, Consistent, EntriesOk, OpenListed, ParentsOk, CostsOk, ClosedOk, Settled;
  }

  lemma NothingPopped()
    ensures Cells([]) == {}
  {
  }

  // ---------- What holds of every run ----------

  /** No run pops more entries than there are moves out of grid cells, and the start. */
  lemma RunIsBounded(p: Problem, init: State, popped: seq<Entry>)
    requires Run(p, init, popped)
    ensures |popped| + |After(p, init, popped).open| <= 1 + MOVES * |Cells(popped)|
    ensures |Cells(popped)| <= PLACES
  {
    hide Inv, Expand, LeastF, Run, After, Cells, LastF;
    RunUnfolds(p, init, popped);
    RunKeepsInv(p, init, popped);
    HeapStaysSmall(p, After(p, init, popped), Cells(popped), LastF(p, popped), p.start);
  }

  lemma LastFRises(p: Problem, init: State, popped: seq<Entry>)
    requires Run(p, init, popped) && popped != []
    ensures LastF(p, popped[..|popped| - 1]) <= popped[|popped| - 1].f
  {
    hide Inv, Expand, LeastF, Run, After, Cells, LastF;
    RunUnfolds(p, init, popped);
    var before, e := popped[..|popped| - 1], popped[|popped| - 1];
    RunKeepsInv(p, init, before);
    PoppedIsBest(p, After(p, init, before), Cells(before), LastF(p, before), p.start, e);
  }

  /** Entries are popped in order of F, although the heap is refilled in between. */
  lemma {:induction false} PopsInOrder(p: Problem, init: State, popped: seq<Entry>, i: nat, j: nat)
    requires Run(p, init, popped) && i <= j < |popped|
    ensures popped[i].f <= popped[j].f
  {
    hide Initial, LeastF, After;
    var before := popped[..|popped| - 1];
    if j < |before| {
      PopsInOrder(p, init, before, i, j);
    } else if i < j {
      PopsInOrder(p, init, before, i, j - 1);
      LastFRises(p, init, popped);
    }
  }

  /** The parent chain of a discovered cell is a walk from the start of exactly its cost. */
  lemma {:induction false} TracedWalk(p: Problem, st: State, closed: set<Cell>, c: Cell) returns (moves: seq<Move>)
    requires Traceable(p, st, closed) && Place(p, c) && Found(p, st, c) && G(p, st, c) >= 0
    ensures Walk(p, p.start, moves) && End(p.start, moves) == c && WalkCost(moves) == G(p, st, c)
    decreases G(p, st, c)
  {
    hide CostsOk, ParentsOk, Legal, H, Found, MoveCost, Delta;
    if c == p.start {
      moves := [];
    } else {
      var m := ParentIsCheaper(p, st, closed, c);
      var init := TracedWalk(p, st, closed, st.par[c]);
      moves := init + [m];
      assert moves[..|moves| - 1] == init;
    }
  }

  /** A cell popped for the first time, the goal or any other, comes with the least cost of
      all walks to it. */
  lemma FirstPopIsCheapest(p: Problem, init: State, popped: seq<Entry>, e: Entry) returns (moves: seq<Move>)
    requires Run(p, init, popped) && LeastF(After(p, init, popped), e) && CellOf(e) !in Cells(popped)
    ensures Walk(p, p.start, moves) && End(p.start, moves) == CellOf(e) && WalkCost(moves) == e.g
    ensures forall w :: Walk(p, p.start, w) && End(p.start, w) == CellOf(e) ==> e.g <= WalkCost(w)
  {
    hide Inv, LeastF, Run, Expand, After, Cells, LastF, Walk, End, WalkCost, Traceable;
    RunUnfolds(p, init, popped);
    var st := After(p, init, popped);
    RunKeepsInv(p, init, popped);
    FreshIsTraceable(p, st, Cells(popped), LastF(p, popped), p.start, e);
    moves := TracedWalk(p, st, Cells(popped), CellOf(e));
    forall w | Walk(p, p.start, w) && End(p.start, w) == CellOf(e)
      ensures e.g <= WalkCost(w)
    {
      FirstPopIsOptimal(p, st, Cells(popped), LastF(p, popped), p.start, e, w);
    }
  }

  lemma FreshIsTraceable(p: Problem, st: State, closed: set<Cell>, last: int, cur: Cell, e: Entry)
    requires Inv(p, st, closed, last, cur, MOVES) && LeastF(st, e) && CellOf(e) !in closed
    ensures Traceable(p, st, closed) && Place(p, CellOf(e)) && Found(p, st, CellOf(e))
    ensures 0 <= G(p, st, CellOf(e)) == e.g
  {
    hide H, EntriesOk, OpenListed, Expanded, ParentsOk;
    PoppedIsBest(p, st, closed, last, cur, e);
  }

  /** Popping a cell again, from a stale entry or because the start is rediscovered, changes
      no cost and no parent. */
  lemma LaterPopIsIdle(p: Problem, init: State, popped: seq<Entry>, e: Entry)
    requires Run(p, init, popped) && LeastF(After(p, init, popped), e) && CellOf(e) in Cells(popped)
    ensures After(p, init, popped + [e]) == Taken(After(p, init, popped), e)
  {
    hide Inv, Expand, LeastF, Cells, LastF;
    var st := After(p, init, popped);
    RunKeepsInv(p, init, popped);
    assert CellOf(e) != p.goal by { GoalNotClosed(p, st, Cells(popped), LastF(p, popped), p.start); }
    RunGrows(p, init, popped, e);
    ghost var closed', cur' := Turn(p, st, Cells(popped), LastF(p, popped), p.start, e, After(p, init, popped + [e]));
  }

  lemma GoalNotClosed(p: Problem, st: State, closed: set<Cell>, last: int, cur: Cell)
    requires Inv(p, st, closed, last, cur, MOVES)
    ensures p.goal !in closed
  {
  }

  /** A run that empties the heap has popped every cell that a walk leads to; the goal is
      none of them. */
  lemma FinishedRunPopsAll(p: Problem, init: State, popped: seq<Entry>, moves: seq<Move>)
    requires Run(p, init, popped) && After(p, init, popped).open == multiset{}
    requires Walk(p, p.start, moves)
    ensures End(p.start, moves) in Cells(popped) && End(p.start, moves) != p.goal
  {
    hide Inv, Expand, LeastF, Run, After, Cells, LastF, Walk, End;
    RunUnfolds(p, init, popped);
    RunKeepsInv(p, init, popped);
    EmptyMeansExplored(p, After(p, init, popped), Cells(popped), LastF(p, popped), p.start, moves);
  }

  // ---------- What the main loop uses ----------

  /** A pop of a cell other than the goal's extends the run; the cell is in the grid. */
  lemma RunPops(p: Problem, init: State, popped: seq<Entry>, e: Entry)
    requires Run(p, init, popped) && LeastF(After(p, init, popped), e) && CellOf(e) != p.goal
    ensures Run(p, init, popped + [e]) && Place(p, CellOf(e))
    ensures After(p, init, popped + [e]) == Expand(p, Taken(After(p, init, popped), e), e, MOVES)
  {
    hide Inv, Expand, LeastF, Run, After, Cells, LastF;
    RunGrows(p, init, popped, e);
    RunUnfolds(p, init, popped);
    RunKeepsInv(p, init, popped);
    PoppedIsBest(p, After(p, init, popped), Cells(popped), LastF(p, popped), p.start, e);
  }

  /** A pop of the goal's cell ends the run. */
  lemma RunStops(p: Problem, init: State, popped: seq<Entry>, e: Entry)
    requires Run(p, init, popped) && LeastF(After(p, init, popped), e) && CellOf(e) == p.goal
    ensures Stopped(p, Taken(After(p, init, popped), e), Cells(popped), e.g)
  {
    hide Inv, Expand, LeastF, Run, After, Cells, LastF, Stopped;
    RunUnfolds(p, init, popped);
    RunKeepsInv(p, init, popped);
    GoalStops(p, After(p, init, popped), Cells(popped), LastF(p, popped), p.start, e);
  }
}
