/** What the grid search of aco.c keeps, on values: its state is the cost table, the parent
    tables and the multiset of heap entries; `closed` records the cells popped so far. The heuristic is
    any that is strictly consistent. */
module AStarTheory {
  import opened Distance
  import opened Grid
  import opened OpenHeap

  datatype State = State(cst: map<Cell, int>, par: map<Cell, Cell>, open: multiset<Entry>)

  function CellOf(e: Entry): Cell {
    Cell(e.x, e.y)
  }

  /** The heap entry for reaching c at cost g. */
  function NodeFor(p: Problem, c: Cell, g: int): Entry {
    Entry(c.x, c.y, g + H(p, c), g, H(p, c))
  }

  /** The tables have an entry for every grid cell. */
  ghost predicate Shaped(st: State) {
    forall c :: InGrid(c) ==> c in st.cst && c in st.par
  }

  // ---------- One relaxation, one expansion ----------

  /** The cost table would take F for v: v is undiscovered or was reached with a larger F. */
  predicate Improves(st: State, v: Cell, f: int)
    requires v in st.cst
  {
    st.cst[v] == 0 || st.cst[v] > f
  }

  ghost function Relax(p: Problem, st: State, e: Entry, m: Move): (r: State)
    requires Shaped(st)
    ensures Shaped(r)
  {
    var v := Target(CellOf(e), m);
    if !Legal(p, CellOf(e), m) then st
    else
      var n := NodeFor(p, v, e.g + Cost(m));
      if !Improves(st, v, n.f) then st
      else State(st.cst[v := n.f], st.par[v := CellOf(e)], st.open + multiset{n})
  }

  /** The first k moves from e relaxed in order. */
  ghost function Expand(p: Problem, st: State, e: Entry, k: nat): (r: State)
    requires Shaped(st) && k <= MOVES
    ensures Shaped(r)
  {
    if k == 0 then st else Relax(p, Expand(p, st, e, k - 1), e, k - 1)
  }

  // ---------- The invariant ----------

  /** The best known G of a cell. The program keeps F in cst, and never a cost for the first
      visit of the start: that one is 0 whatever cst says. */
  ghost function G(p: Problem, st: State, c: Cell): int
    requires Shaped(st) && Place(p, c)
  {
    if c == p.start then 0 else st.cst[c] - H(p, c)
  }

  ghost predicate Found(p: Problem, st: State, c: Cell)
    requires Shaped(st) && Place(p, c)
  {
    c == p.start || st.cst[c] != 0
  }

  ghost predicate CostsOk(p: Problem, st: State)
    requires Shaped(st)
  {
    forall c :: InGrid(c) ==> st.cst[c] == 0 || (st.cst[c] > 0 && st.cst[c] >= H(p, c))
  }

  ghost predicate EntryOk(p: Problem, st: State, e: Entry, last: int)
    requires Shaped(st)
  {
    var c := CellOf(e);
    Place(p, c) && Found(p, st, c) && e == NodeFor(p, c, e.g) && e.g >= G(p, st, c) && e.f >= last
  }

  /** Every heap entry is a sound way of reaching a discovered cell. */
  ghost predicate EntriesOk(p: Problem, st: State, last: int)
    requires Shaped(st)
  {
    forall e :: e in st.open ==> EntryOk(p, st, e, last)
  }

  /** Every discovered cell that is not closed waits in the heap with its best G. */
  ghost predicate OpenListed(p: Problem, st: State, closed: set<Cell>)
    requires Shaped(st)
  {
    forall c :: Place(p, c) && Found(p, st, c) && c !in closed ==> NodeFor(p, c, G(p, st, c)) in st.open
  }

  ghost predicate ClosedOk(p: Problem, st: State, closed: set<Cell>, last: int)
    requires Shaped(st)
  {
    forall c :: c in closed ==> Place(p, c) && Found(p, st, c) && G(p, st, c) + H(p, c) <= last
  }

  ghost predicate Settled(p: Problem, st: State, c: Cell, m: Move)
    requires Shaped(st) && Place(p, c)
  {
    Legal(p, c, m) ==>
      var v := Target(c, m);
      0 < st.cst[v] <= G(p, st, c) + Cost(m) + H(p, v)
  }

  /** Every legal move from a closed cell has been relaxed (from cur: the first k moves). */
  ghost predicate Expanded(p: Problem, st: State, closed: set<Cell>, cur: Cell, k: nat)
    requires Shaped(st)
  {
    forall c, m: Move :: c in closed && Place(p, c) && (c != cur || m < k) ==> Settled(p, st, c, m)
  }

  ghost predicate ParentStep(p: Problem, st: State, c: Cell, m: Move)
    requires Shaped(st) && InGrid(c)
  {
    var u := st.par[c];
    Place(p, u) && Legal(p, u, m) && Target(u, m) == c && st.cst[c] == G(p, st, u) + Cost(m) + H(p, c)
  }

  ghost predicate ParentOk(p: Problem, st: State, closed: set<Cell>, c: Cell)
    requires Shaped(st)
  {
    InGrid(c) && st.cst[c] != 0 ==> st.par[c] in closed && exists m :: ParentStep(p, st, c, m)
  }

  /** Every parent is a closed cell one legal move away, and the costs add up. */
  ghost predicate ParentsOk(p: Problem, st: State, closed: set<Cell>)
    requires Shaped(st)
  {
    forall c :: ParentOk(p, st, closed, c)
  }

  lemma ParentMove(p: Problem, st: State, closed: set<Cell>, c: Cell) returns (m: Move)
    requires Shaped(st) && ParentsOk(p, st, closed) && InGrid(c) && st.cst[c] != 0
    ensures st.par[c] in closed && ParentStep(p, st, c, m)
  {
    assert ParentOk(p, st, closed, c);
    m :| ParentStep(p, st, c, m);
  }

  /** The invariant, when the first k moves of cur, the last closed cell, are relaxed. */
  ghost predicate Inv(p: Problem, st: State, closed: set<Cell>, last: int, cur: Cell, k: nat) {
    && Consistent(p)
    && Shaped(st)
    && CostsOk(p, st)
    && EntriesOk(p, st, last)
    && OpenListed(p, st, closed)
    && ClosedOk(p, st, closed, last)
    && Expanded(p, st, closed, cur, k)
    && ParentsOk(p, st, closed)
    && p.goal !in closed
    && |st.open| + MOVES <= 1 + MOVES * |closed| + k
  }

  ghost predicate Initial(p: Problem, st: State) {
    && Consistent(p)
    && Shaped(st)
    && (forall c :: InGrid(c) ==> st.cst[c] == 0)
    && st.open == multiset{NodeFor(p, p.start, 0)}
  }

  lemma InitialInv(p: Problem, st: State, cur: Cell)
    requires Initial(p, st)
    ensures Inv(p, st, {}, H(p, p.start), cur, MOVES)
  {
  }

  // ---------- Relaxing keeps the invariant ----------

  /** cur has just been closed by popping e. */
  ghost predicate Expanding(p: Problem, st: State, closed: set<Cell>, e: Entry, k: nat) {
    && Inv(p, st, closed, e.f, CellOf(e), k)
    && CellOf(e) in closed
    && e == NodeFor(p, CellOf(e), G(p, st, CellOf(e)))
  }

  /** F rises along moves, so a relaxation never touches a closed cell, save the start. */
  lemma NeverReopens(p: Problem, st: State, closed: set<Cell>, e: Entry, k: nat, m: Move)
    requires Expanding(p, st, closed, e, k) && Legal(p, CellOf(e), m)
    ensures
      var v := Target(CellOf(e), m);
      Improves(st, v, e.g + Cost(m) + H(p, v)) && v in closed ==> v == p.start
  {
    FRises(p, CellOf(e), m);
  }

  /** Costs only fall, and those of closed cells stay. */
  ghost predicate Better(p: Problem, st: State, st': State, closed: set<Cell>)
    requires Shaped(st) && Shaped(st')
  {
    forall c :: Place(p, c) && Found(p, st, c) ==>
      && Found(p, st', c)
      && G(p, st', c) <= G(p, st, c)
      && (c in closed ==> G(p, st', c) == G(p, st, c))
  }

  lemma RelaxBetters(p: Problem, st: State, closed: set<Cell>, e: Entry, k: nat, m: Move)
    requires Expanding(p, st, closed, e, k)
    ensures Better(p, st, Relax(p, st, e, m), closed)
  {
    hide H, Consistent, OpenListed, Expanded, ParentsOk;
    if Legal(p, CellOf(e), m) {
      NeverReopens(p, st, closed, e, k, m);
    }
  }

  lemma RelaxKeepsEntries(p: Problem, st: State, closed: set<Cell>, e: Entry, k: nat, m: Move)
    requires Expanding(p, st, closed, e, k)
    ensures EntriesOk(p, Relax(p, st, e, m), e.f)
  {
    hide H, Consistent, OpenListed, Expanded, ParentsOk;
    var st' := Relax(p, st, e, m);
    RelaxBetters(p, st, closed, e, k, m);
    if st' != st {
      FRises(p, CellOf(e), m);
      var n := NodeFor(p, Target(CellOf(e), m), e.g + Cost(m));
      forall x | x in st'.open
        ensures EntryOk(p, st', x, e.f)
      {
        if x != n {
          assert EntryOk(p, st, x, e.f);
        }
      }
    }
  }

  lemma RelaxKeepsOpen(p: Problem, st: State, closed: set<Cell>, e: Entry, k: nat, m: Move)
    requires Expanding(p, st, closed, e, k)
    ensures OpenListed(p, Relax(p, st, e, m), closed)
  {
    hide H, Consistent, EntriesOk, ClosedOk, Expanded, ParentsOk, CostsOk;
    var st' := Relax(p, st, e, m);
    if st' != st {
      var v := Target(CellOf(e), m);
      var n := NodeFor(p, v, e.g + Cost(m));
      forall c | Place(p, c) && Found(p, st', c) && c !in closed
        ensures NodeFor(p, c, G(p, st', c)) in st'.open
      {
        if c == v && c != p.start {
          assert G(p, st', c) == n.g;
        } else {
          assert Found(p, st, c) && G(p, st', c) == G(p, st, c);
          assert NodeFor(p, c, G(p, st, c)) in st.open;
        }
      }
    }
  }

  ghost predicate Lower(st: State, st': State)
    requires Shaped(st) && Shaped(st')
  {
    forall v :: InGrid(v) && st.cst[v] > 0 ==> 0 < st'.cst[v] <= st.cst[v]
  }

  lemma RelaxLowers(p: Problem, st: State, closed: set<Cell>, e: Entry, k: nat, m: Move)
    requires Expanding(p, st, closed, e, k)
    ensures Lower(st, Relax(p, st, e, m))
  {
    hide H, Consistent, OpenListed, EntriesOk, ParentsOk, Expanded;
    FRises(p, CellOf(e), m);
  }

  /** The move just relaxed is settled. */
  lemma RelaxSettlesMove(p: Problem, st: State, closed: set<Cell>, e: Entry, m: Move)
    requires Expanding(p, st, closed, e, m)
    ensures Settled(p, Relax(p, st, e, m), CellOf(e), m)
  {
    hide H, Consistent, OpenListed, EntriesOk, ParentsOk, Expanded;
    RelaxBetters(p, st, closed, e, m, m);
    if Legal(p, CellOf(e), m) {
      FRises(p, CellOf(e), m);
    }
  }

  /** A settled move stays settled. */
  lemma SettledStays(p: Problem, st: State, st': State, closed: set<Cell>, c: Cell, m: Move)
    requires Shaped(st) && Shaped(st') && Better(p, st, st', closed) && Lower(st, st')
    requires c in closed && Place(p, c) && Found(p, st, c) && Settled(p, st, c, m)
    ensures Settled(p, st', c, m)
  {
    hide H;
  }

  lemma RelaxSettles(p: Problem, st: State, closed: set<Cell>, e: Entry, k: nat)
    requires k < MOVES && Expanding(p, st, closed, e, k)
    ensures Expanded(p, Relax(p, st, e, k), closed, CellOf(e), k + 1)
  {
    hide Relax, Settled, H, Consistent, CostsOk, OpenListed, EntriesOk, ParentsOk, G, Better;
    var st' := Relax(p, st, e, k);
    RelaxBetters(p, st, closed, e, k, k);
    RelaxLowers(p, st, closed, e, k, k);
    forall c, m: Move | c in closed && Place(p, c) && (c != CellOf(e) || m < k + 1)
      ensures Settled(p, st', c, m)
    {
      if c == CellOf(e) && m == k {
        RelaxSettlesMove(p, st, closed, e, k);
      } else {
        assert Settled(p, st, c, m);
        SettledStays(p, st, st', closed, c, m);
      }
    }
  }

  lemma RelaxKeepsParents(p: Problem, st: State, closed: set<Cell>, e: Entry, k: nat, m: Move)
    requires Expanding(p, st, closed, e, k)
    ensures ParentsOk(p, Relax(p, st, e, m), closed)
  {
    hide H, Consistent, OpenListed, EntriesOk, Expanded;
    var st' := Relax(p, st, e, m);
    RelaxBetters(p, st, closed, e, k, m);
    if st' != st {
      forall c
        ensures ParentOk(p, st', closed, c)
      {
        if c == Target(CellOf(e), m) {
          assert ParentStep(p, st', c, m);
        } else if InGrid(c) && st'.cst[c] != 0 {
          var m' := ParentMove(p, st, closed, c);
          assert ParentStep(p, st', c, m');
        }
      }
    }
  }

  lemma RelaxKeepsCosts(p: Problem, st: State, closed: set<Cell>, e: Entry, k: nat, m: Move)
    requires Expanding(p, st, closed, e, k)
    ensures CostsOk(p, Relax(p, st, e, m)) && ClosedOk(p, Relax(p, st, e, m), closed, e.f)
    ensures |Relax(p, st, e, m).open| <= |st.open| + 1
  {
    hide H, Consistent, EntriesOk, OpenListed, Expanded, ParentsOk;
    RelaxBetters(p, st, closed, e, k, m);
    FRises(p, CellOf(e), m);
  }

  /** One relaxation keeps the invariant and advances it by a move. */
  lemma RelaxKeepsInv(p: Problem, st: State, closed: set<Cell>, e: Entry, k: nat)
    requires k < MOVES && Expanding(p, st, closed, e, k)
    ensures Expanding(p, Relax(p, st, e, k), closed, e, k + 1)
  {
    var st' := Relax(p, st, e, k);
    RelaxBetters(p, st, closed, e, k, k);
    RelaxKeepsCosts(p, st, closed, e, k, k);
    hide H, Consistent, EntriesOk, OpenListed, Expanded, ParentsOk, CostsOk, ClosedOk, Better;
    RelaxKeepsEntries(p, st, closed, e, k, k);
    RelaxKeepsOpen(p, st, closed, e, k, k);
    RelaxSettles(p, st, closed, e, k);
    RelaxKeepsParents(p, st, closed, e, k, k);
  }

  lemma ExpandUnfolds(p: Problem, st: State, e: Entry, k: nat)
    requires Shaped(st) && k <= MOVES
    ensures k == 0 ==> Expand(p, st, e, k) == st
    ensures k > 0 ==> Expand(p, st, e, k) == Relax(p, Expand(p, st, e, k - 1), e, k - 1)
  {
  }

  /** A whole expansion keeps the invariant. */
  lemma {:induction false} ExpandKeepsInv(p: Problem, st: State, closed: set<Cell>, e: Entry, k: nat, r: State)
    requires Shaped(st) && k <= MOVES && Expanding(p, st, closed, e, 0) && r == Expand(p, st, e, k)
    ensures Expanding(p, r, closed, e, k)
  {
    hide *;
    ExpandUnfolds(p, st, e, k);
    if k > 0 {
      var before := Expand(p, st, e, k - 1);
      ExpandKeepsInv(p, st, closed, e, k - 1, before);
      RelaxKeepsInv(p, before, closed, e, k - 1);
    }
  }

  // ---------- Popping ----------

  function Taken(st: State, e: Entry): State {
    st.(open := st.open - multiset{e})
  }

  ghost predicate LeastF(st: State, e: Entry) {
    e in st.open && forall x :: x in st.open ==> e.f <= x.f
  }

  /** A popped cell that is not closed yet comes with its best G: the entry holding that G
      is in the heap too, and pop returns the least F. */
  lemma PoppedIsBest(p: Problem, st: State, closed: set<Cell>, last: int, cur: Cell, e: Entry)
    requires Inv(p, st, closed, last, cur, MOVES) && LeastF(st, e)
    ensures EntryOk(p, st, e, last)
    ensures CellOf(e) !in closed ==> e.g == G(p, st, CellOf(e))
  {
    if CellOf(e) !in closed {
      assert EntryOk(p, st, e, last);
      assert NodeFor(p, CellOf(e), G(p, st, CellOf(e))) in st.open;
    }
  }

  lemma TakenKeepsEntries(p: Problem, st: State, last: int, e: Entry)
    requires Shaped(st) && EntriesOk(p, st, last) && LeastF(st, e)
    ensures EntriesOk(p, Taken(st, e), e.f)
  {
    forall x | x in Taken(st, e).open
      ensures EntryOk(p, Taken(st, e), x, e.f)
    {
      assert x in st.open && EntryOk(p, st, x, last);
    }
  }

  lemma TakenKeepsOpen(p: Problem, st: State, closed: set<Cell>, e: Entry)
    requires Shaped(st) && OpenListed(p, st, closed)
    ensures OpenListed(p, Taken(st, e), closed + {CellOf(e)})
  {
    var st' := Taken(st, e);
    forall c | Place(p, c) && Found(p, st', c) && c !in closed + {CellOf(e)}
      ensures NodeFor(p, c, G(p, st', c)) in st'.open
    {
      assert Found(p, st, c) && NodeFor(p, c, G(p, st, c)) in st.open;
    }
  }

  /** Closing a cell before any of its moves is relaxed. */
  lemma TakenKeepsExpanded(p: Problem, st: State, closed: set<Cell>, cur: Cell, e: Entry)
    requires Shaped(st) && Expanded(p, st, closed, cur, MOVES)
    ensures Expanded(p, Taken(st, e), closed + {CellOf(e)}, CellOf(e), 0)
    ensures Expanded(p, Taken(st, e), closed, cur, MOVES)
  {
    forall c, m: Move | c in closed && Place(p, c)
      ensures Settled(p, Taken(st, e), c, m)
    {
      assert Settled(p, st, c, m);
    }
  }

  lemma TakenKeepsCosts(p: Problem, st: State, closed: set<Cell>, last: int, e: Entry)
    requires Shaped(st) && EntryOk(p, st, e, last) && CostsOk(p, st) && ClosedOk(p, st, closed, last)
    ensures CostsOk(p, Taken(st, e)) && ClosedOk(p, Taken(st, e), closed, e.f)
    ensures e.g == G(p, st, CellOf(e)) ==> ClosedOk(p, Taken(st, e), closed + {CellOf(e)}, e.f)
  {
  }

  lemma TakenKeepsParents(p: Problem, st: State, closed: set<Cell>, e: Entry)
    requires Shaped(st) && ParentsOk(p, st, closed)
    ensures ParentsOk(p, Taken(st, e), closed) && ParentsOk(p, Taken(st, e), closed + {CellOf(e)})
  {
    var st' := Taken(st, e);
    forall c
      ensures ParentOk(p, st', closed, c) && ParentOk(p, st', closed + {CellOf(e)}, c)
    {
      if InGrid(c) && st.cst[c] != 0 {
        var m := ParentMove(p, st, closed, c);
        assert ParentStep(p, st', c, m);
      }
    }
  }

  /** Popping a cell for the first time closes it. */
  lemma PopFresh(p: Problem, st: State, closed: set<Cell>, last: int, cur: Cell, e: Entry)
    requires Inv(p, st, closed, last, cur, MOVES) && LeastF(st, e)
    requires CellOf(e) !in closed && CellOf(e) != p.goal
    ensures Expanding(p, Taken(st, e), closed + {CellOf(e)}, e, 0)
  {
    hide H, Consistent, EntriesOk, OpenListed, Expanded, ParentsOk, CostsOk, ClosedOk;
    PoppedIsBest(p, st, closed, last, cur, e);
    TakenKeepsCosts(p, st, closed, last, e);
    TakenKeepsEntries(p, st, last, e);
    TakenKeepsOpen(p, st, closed, e);
    TakenKeepsExpanded(p, st, closed, cur, e);
    TakenKeepsParents(p, st, closed, e);
    assert |Taken(st, e).open| == |st.open| - 1;
  }

  /** Popping a closed cell again, a stale entry or the rediscovered start, keeps the
      invariant. */
  lemma PopStale(p: Problem, st: State, closed: set<Cell>, last: int, cur: Cell, e: Entry)
    requires Inv(p, st, closed, last, cur, MOVES) && LeastF(st, e)
    requires CellOf(e) in closed
    ensures Inv(p, Taken(st, e), closed, e.f, cur, MOVES)
    ensures Place(p, CellOf(e)) && G(p, Taken(st, e), CellOf(e)) <= e.g
  {
    hide H, Consistent, EntriesOk, OpenListed, Expanded, ParentsOk, CostsOk, ClosedOk;
    PoppedIsBest(p, st, closed, last, cur, e);
    assert closed + {CellOf(e)} == closed;
    TakenKeepsCosts(p, st, closed, last, e);
    TakenKeepsEntries(p, st, last, e);
    TakenKeepsOpen(p, st, closed, e);
    TakenKeepsExpanded(p, st, closed, cur, e);
    TakenKeepsParents(p, st, closed, e);
  }

  lemma SettledMoveIsIdle(p: Problem, st: State, closed: set<Cell>, last: int, cur: Cell, e: Entry, m: Move)
    requires Inv(p, st, closed, last, cur, MOVES)
    requires CellOf(e) in closed && Place(p, CellOf(e)) && G(p, st, CellOf(e)) <= e.g
    ensures Relax(p, st, e, m) == st
  {
    hide EntriesOk, OpenListed, ParentsOk, CostsOk, ClosedOk, Consistent;
    assert Settled(p, st, CellOf(e), m);
  }

  /** ... and expanding it again changes nothing. */
  lemma {:induction false} StaleExpansionIsIdle(p: Problem, st: State, closed: set<Cell>, last: int, cur: Cell,
                                               e: Entry, k: nat)
    requires Shaped(st) && Inv(p, st, closed, last, cur, MOVES) && k <= MOVES
    requires CellOf(e) in closed && Place(p, CellOf(e)) && G(p, st, CellOf(e)) <= e.g
    ensures Expand(p, st, e, k) == st
  {
    hide Inv, Expand, Relax, G;
    ExpandUnfolds(p, st, e, k);
    if k > 0 {
      StaleExpansionIsIdle(p, st, closed, last, cur, e, k - 1);
      SettledMoveIsIdle(p, st, closed, last, cur, e, k - 1);
    }
  }

  // ---------- Optimality and completeness ----------

  /** Any walk from the start is accounted for: its end is closed at no greater cost, or some
      heap entry promises F no larger than the walk's. */
  lemma {:induction false} WalkIsCovered(p: Problem, st: State, closed: set<Cell>, last: int, cur: Cell,
                                        moves: seq<Move>)
    requires Inv(p, st, closed, last, cur, MOVES) && Walk(p, p.start, moves)
    ensures
      var v := End(p.start, moves);
      || (v in closed && G(p, st, v) <= WalkCost(moves))
      || (exists e :: e in st.open && e.f <= WalkCost(moves) + H(p, v))
  {
    if moves == [] {
      if p.start !in closed {
        assert NodeFor(p, p.start, G(p, st, p.start)) in st.open;
      }
    } else {
      var init, m := moves[..|moves| - 1], moves[|moves| - 1];
      var u := End(p.start, init);
      var v := Target(u, m);
      WalkIsCovered(p, st, closed, last, cur, init);
      FRises(p, u, m);
      if u in closed && G(p, st, u) <= WalkCost(init) {
        assert Settled(p, st, u, m);
        if v !in closed {
          assert NodeFor(p, v, G(p, st, v)) in st.open;
        }
      }
    }
  }

  /** When a cell, such as the goal, is popped for the first time, its G is at most the cost
      of every walk to it. */
  lemma FirstPopIsOptimal(p: Problem, st: State, closed: set<Cell>, last: int, cur: Cell, e: Entry, moves: seq<Move>)
    requires Inv(p, st, closed, last, cur, MOVES) && LeastF(st, e) && CellOf(e) !in closed
    requires Walk(p, p.start, moves) && End(p.start, moves) == CellOf(e)
    ensures e.g <= WalkCost(moves)
  {
    PoppedIsBest(p, st, closed, last, cur, e);
    WalkIsCovered(p, st, closed, last, cur, moves);
  }

  /** When the heap is empty, every walk ends in a closed cell, and none leads to the goal. */
  lemma EmptyMeansExplored(p: Problem, st: State, closed: set<Cell>, last: int, cur: Cell, moves: seq<Move>)
    requires Inv(p, st, closed, last, cur, MOVES) && st.open == multiset{}
    requires Walk(p, p.start, moves)
    ensures End(p.start, moves) in closed && End(p.start, moves) != p.goal
  {
    WalkIsCovered(p, st, closed, last, cur, moves);
  }

  // ---------- Reading the route back ----------

  /** What the read-back loop needs of the parent tables. */
  ghost predicate Traceable(p: Problem, st: State, closed: set<Cell>) {
    && Shaped(st)
    && CostsOk(p, st)
    && ParentsOk(p, st, closed)
    && (forall c :: c in closed ==> Place(p, c) && Found(p, st, c))
  }

  lemma InvIsTraceable(p: Problem, st: State, closed: set<Cell>, last: int, cur: Cell, e: Entry)
    requires Inv(p, st, closed, last, cur, MOVES)
    ensures Traceable(p, Taken(st, e), closed)
  {
    TakenKeepsParents(p, st, closed, e);
  }

  /** The result of a search that stopped at the goal with cost g: the tables are traceable
      and no walk to the goal is cheaper. */
  ghost predicate Stopped(p: Problem, st: State, closed: set<Cell>, g: int) {
    && Traceable(p, st, closed)
    && Place(p, p.goal) && Found(p, st, p.goal)
    && 0 <= g == G(p, st, p.goal)
    && forall w :: Walk(p, p.start, w) && End(p.start, w) == p.goal ==> g <= WalkCost(w)
  }

  /** An optimal walk to the goal. */
  ghost predicate Optimal(p: Problem, moves: seq<Move>) {
    && Walk(p, p.start, moves) && End(p.start, moves) == p.goal
    && forall w :: Walk(p, p.start, w) && End(p.start, w) == p.goal ==> WalkCost(moves) <= WalkCost(w)
  }

  ghost predicate Unreachable(p: Problem) {
    forall w :: Walk(p, p.start, w) ==> End(p.start, w) != p.goal
  }

  /** A walk of n moves costs at least ten a move; two moves of ten lead two cells away. */
  lemma {:induction false} WalkIsDear(c: Cell, moves: seq<Move>)
    ensures WalkCost(moves) >= 10 * |moves|
    ensures WalkCost(moves) < 24 ==>
      |moves| == 0 || |moves| == 1 ||
      (|moves| == 2 && WalkCost(moves) == 20 && Abs(End(c, moves).x - c.x) + Abs(End(c, moves).y - c.y) <= 2)
  {
    if moves != [] {
      var m := moves[|moves| - 1];
      WalkIsDear(c, moves[..|moves| - 1]);
      ShortStep(m);
      if |moves| == 2 {
        var first := moves[..1];
        assert first[..0] == [] && first[0] == moves[0];
        assert WalkCost(first) == Cost(moves[0]) && End(c, first) == Target(c, moves[0]);
        ShortStep(moves[0]);
      }
    }
  }

  lemma ShortStep(m: Move)
    ensures
      var d := Delta(m / 8, m % 8);
      Cost(m) == 10 || Cost(m) >= 14
    ensures
      var d := Delta(m / 8, m % 8);
      Cost(m) == 10 ==> Abs(d.0) + Abs(d.1) == 1
  {
  }

  lemma OneMove(p: Problem, m: Move)
    requires Legal(p, p.start, m)
    ensures Walk(p, p.start, [m]) && End(p.start, [m]) == Target(p.start, m) && WalkCost([m]) == Cost(m)
  {
    assert [m][..0] == [];
  }

  lemma KnightCost(m: Move)
    requires Reach(m) == 5
    ensures Cost(m) == 22
  {
    hide *;
    CostIsRounded(m);
    var w := Cost(m);
    SquareOrder(45, 2 * w - 1);
    SquareOrder(2 * w + 1, 44);
  }

  lemma KnightMove(p: Problem) returns (m: Move)
    requires (forall x, y :: p.obs(x, y) != 1) && p.start == Cell(10, 10)
    ensures Legal(p, p.start, m) && Target(p.start, m) == Cell(12, 11) && Cost(m) == 22
  {
    hide Delta, Legal, Cost;
    TableIs(1, 2, 1);
    var i: nat :| i < 8 && Delta(1, i) == (2, 1);
    m := 8 + i;
    LegalIs(p, p.start, m);
    KnightCost(m);
  }

  /** On open ground the cheapest way to a cell two to the side and one up is a single move, at
      a cost of 22. */
  lemma KnightMoveIsCheapest(p: Problem, moves: seq<Move>)
    requires forall x, y :: p.obs(x, y) != 1
    requires p.start == Cell(10, 10) && p.goal == Cell(12, 11) && Optimal(p, moves)
    ensures |moves| == 1 && WalkCost(moves) == 22
  {
    hide Delta, Legal, Cost, Target, Reach;
    var m := KnightMove(p);
    OneMove(p, m);
    WalkIsDear(p.start, moves);
    if |moves| == 1 {
      assert moves[..0] == [];
      LegalIs(p, p.start, moves[0]);
      KnightCost(moves[0]);
    }
  }

  lemma CheapestWalk(p: Problem, st: State, closed: set<Cell>, g: int, moves: seq<Move>)
    requires Stopped(p, st, closed, g)
    requires Walk(p, p.start, moves) && End(p.start, moves) == p.goal && WalkCost(moves) == g
    ensures Optimal(p, moves)
  {
  }

  lemma GoalStops(p: Problem, st: State, closed: set<Cell>, last: int, cur: Cell, e: Entry)
    requires Inv(p, st, closed, last, cur, MOVES) && LeastF(st, e) && CellOf(e) == p.goal
    ensures Stopped(p, Taken(st, e), closed, e.g)
  {
    hide H, Consistent, EntriesOk, OpenListed, Expanded, ParentsOk;
    PoppedIsBest(p, st, closed, last, cur, e);
    InvIsTraceable(p, st, closed, last, cur, e);
    forall w | Walk(p, p.start, w) && End(p.start, w) == p.goal
      ensures e.g <= WalkCost(w)
    {
      FirstPopIsOptimal(p, st, closed, last, cur, e, w);
    }
  }

  /** The heap never holds more than one entry per move out of a closed cell, and the start. */
  lemma HeapStaysSmall(p: Problem, st: State, closed: set<Cell>, last: int, cur: Cell)
    requires Inv(p, st, closed, last, cur, MOVES)
    ensures |closed| <= PLACES && |st.open| <= 1 + MOVES * PLACES
  {
    PlacesSize(p, closed);
  }

  /** One turn of the main loop keeps the invariant and closes the cell popped; if that was
      closed already, the turn only shrinks the heap. */
  lemma Turn(p: Problem, st: State, closed: set<Cell>, last: int, cur: Cell, e: Entry, st': State)
    returns (closed': set<Cell>, cur': Cell)
    requires Inv(p, st, closed, last, cur, MOVES) && LeastF(st, e) && CellOf(e) != p.goal
    requires Shaped(st) && st' == Expand(p, Taken(st, e), e, MOVES)
    ensures Inv(p, st', closed', e.f, cur', MOVES)
    ensures closed' == closed + {CellOf(e)}
    ensures CellOf(e) in closed ==> st' == Taken(st, e)
  {
    hide H, Consistent, Expand, EntriesOk, OpenListed, Expanded, ParentsOk, CostsOk, ClosedOk;
    var popped := Taken(st, e);
    closed', cur' := closed, cur;
    if CellOf(e) in closed {
      PopStale(p, st, closed, last, cur, e);
      StaleExpansionIsIdle(p, popped, closed, e.f, cur, e, MOVES);
    } else {
      PopFresh(p, st, closed, last, cur, e);
      closed', cur' := closed + {CellOf(e)}, CellOf(e);
      ExpandKeepsInv(p, popped, closed', e, MOVES, st');
    }
  }

  /** The parent of a discovered cell other than the start is a discovered cell one legal
      move away and cheaper by that move. This makes the parent chain acyclic, although the
      start, too, gets a parent once it is rediscovered. */
  lemma ParentIsCheaper(p: Problem, st: State, closed: set<Cell>, c: Cell) returns (m: Move)
    requires Traceable(p, st, closed)
    requires Place(p, c) && Found(p, st, c) && c != p.start
    ensures Place(p, st.par[c]) && Found(p, st, st.par[c])
    ensures Legal(p, st.par[c], m) && Target(st.par[c], m) == c
    ensures 0 <= G(p, st, st.par[c]) == G(p, st, c) - Cost(m)
  {
    m := ParentMove(p, st, closed, c);
  }
}
