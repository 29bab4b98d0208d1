/** The open list of aco.c: a binary heap in an array, ordered on F. */
module OpenHeap {

  /** A node record (x, y, F, G, H). */
  datatype Entry = Entry(x: int, y: int, f: int, g: int, h: int)

  function Parent(i: nat): nat
    requires 0 < i
  {
    (i - 1) / 2
  }

  /** Every entry's F is at least its parent's. */
  ghost predicate Ordered(s: seq<Entry>) {
    forall i :: 0 < i < |s| ==> s[Parent(i)].f <= s[i].f
  }

  // ---------- Sifting up, as a function on sequences ----------

  predicate Above(fa: Entry, ps: Entry) {
    fa.f < ps.f || (fa.f == ps.f && fa.h < ps.h)
  }

  /** s after the hole at now has risen to where ps belongs. */
  function Rise(s: seq<Entry>, now: nat, ps: Entry): (r: seq<Entry>)
    requires now < |s|
    ensures |r| == |s|
    decreases now
  {
    if now == 0 || Above(s[Parent(now)], ps) then s[now := ps]
    else Rise(s[now := s[Parent(now)]], Parent(now), ps)
  }

  function Pushed(s: seq<Entry>, ps: Entry): seq<Entry> {
    Rise(s + [ps], |s|, ps)
  }

  /** Filling hole b with entry a and moving the hole to a exchanges the two. */
  lemma MoveHole(s: seq<Entry>, a: nat, b: nat, x: Entry)
    requires a < |s| && b < |s| && a != b
    ensures multiset(s[b := s[a]][a := x]) == multiset(s[b := x])
  {
    var u, v := s[b := s[a]][a := x], s[b := x];
    assert multiset(u) == multiset(s[b := s[a]]) - multiset{s[a]} + multiset{x};
    assert multiset(v) == multiset(s) - multiset{s[b]} + multiset{x};
    assert multiset(s[b := s[a]]) == multiset(s) - multiset{s[b]} + multiset{s[a]};
  }

  lemma {:induction false} RiseConserves(s: seq<Entry>, now: nat, ps: Entry)
    requires now < |s|
    ensures multiset(Rise(s, now, ps)) == multiset(s[now := ps])
    decreases now
  {
    if now == 0 || Above(s[Parent(now)], ps) {
    } else {
      RiseConserves(s[now := s[Parent(now)]], Parent(now), ps);
      MoveHole(s, Parent(now), now, ps);
    }
  }

  /** Ordered apart from the hole, across which the order still holds. */
  ghost predicate OrderedAround(s: seq<Entry>, hole: nat) {
    && (forall i :: 0 < i < |s| && i != hole && Parent(i) != hole ==> s[Parent(i)].f <= s[i].f)
    && (forall i :: 0 < i < |s| && Parent(i) == hole && 0 < hole ==> s[Parent(hole)].f <= s[i].f)
  }

  lemma {:induction false} RiseOrders(s: seq<Entry>, now: nat, ps: Entry)
    requires now < |s| && OrderedAround(s, now)
    requires forall i :: 0 < i < |s| && Parent(i) == now ==> ps.f <= s[i].f
    ensures Ordered(Rise(s, now, ps))
    decreases now
  {
    if now == 0 || Above(s[Parent(now)], ps) {
    } else {
      var f := Parent(now);
      var s' := s[now := s[f]];
      forall i | 0 < i < |s'| && i != f && Parent(i) != f
        ensures s'[Parent(i)].f <= s'[i].f
      {
        assert i != now;
      }
      RiseOrders(s', f, ps);
    }
  }

  /** push keeps the order and adds exactly its argument. */
  lemma PushedIsHeap(s: seq<Entry>, ps: Entry)
    requires Ordered(s)
    ensures Ordered(Pushed(s, ps))
    ensures multiset(Pushed(s, ps)) == multiset(s) + multiset{ps}
  {
    var t := s + [ps];
    assert t[|s| := ps] == t;
    RiseConserves(t, |s|, ps);
    RiseOrders(t, |s|, ps);
  }

  // ---------- Sifting down ----------

  /** The child of rt the sift-down compares with: least by (F, H). */
  function BestChild(s: seq<Entry>, rt: nat): (c: nat)
    requires 2 * rt + 1 < |s|
    ensures c < |s| && 0 < c && Parent(c) == rt && rt < c
    ensures forall i :: 0 < i < |s| && Parent(i) == rt ==> s[c].f <= s[i].f
    ensures forall i :: 0 < i < |s| && Parent(i) == rt ==> KeyLe(s[c], s[i])
  {
    var l, r := 2 * rt + 1, 2 * rt + 2;
    if r < |s| && (s[r].f < s[l].f || (s[r].f == s[l].f && s[r].h < s[l].h)) then r else l
  }

  /** s after the hole at rt has sunk to where x stops. */
  function Sink(s: seq<Entry>, rt: nat, x: Entry): (r: seq<Entry>)
    requires rt < |s|
    ensures |r| == |s|
    decreases |s| - rt
  {
    if 2 * rt + 1 >= |s| then s[rt := x]
    else
      var c := BestChild(s, rt);
      if s[c].f >= x.f then s[rt := x] else Sink(s[rt := s[c]], c, x)
  }

  /** What is left after the root is taken: the last entry sinks from the root. */
  function Popped(s: seq<Entry>): seq<Entry>
    requires s != []
  {
    var init := s[..|s| - 1];
    if init == [] then [] else Sink(init, 0, s[|s| - 1])
  }

  lemma {:induction false} SinkConserves(s: seq<Entry>, rt: nat, x: Entry)
    requires rt < |s|
    ensures multiset(Sink(s, rt, x)) == multiset(s[rt := x])
    decreases |s| - rt
  {
    if 2 * rt + 1 < |s| {
      var c := BestChild(s, rt);
      if s[c].f < x.f {
        SinkConserves(s[rt := s[c]], c, x);
        MoveHole(s, c, rt, x);
      }
    }
  }

  lemma {:induction false} SinkOrders(s: seq<Entry>, rt: nat, x: Entry)
    requires rt < |s| && OrderedAround(s, rt)
    requires 0 < rt ==> s[Parent(rt)].f <= x.f
    ensures Ordered(Sink(s, rt, x))
    decreases |s| - rt
  {
    if 2 * rt + 1 < |s| {
      var c := BestChild(s, rt);
      if s[c].f < x.f {
        SinkOrders(s[rt := s[c]], c, x);
      }
    }
  }

  lemma {:induction false} RootIsLeast(s: seq<Entry>, i: nat)
    requires Ordered(s) && i < |s|
    ensures s[0].f <= s[i].f
    decreases i
  {
    if i > 0 {
      RootIsLeast(s, Parent(i));
    }
  }

  /** pop removes exactly the root, keeps the order on F, and the root has the least F. */
  lemma PoppedIsHeap(s: seq<Entry>)
    requires Ordered(s) && s != []
    ensures Ordered(Popped(s))
    ensures multiset(s) == multiset(Popped(s)) + multiset{s[0]}
    ensures forall e :: e in multiset(s) ==> s[0].f <= e.f
  {
    forall e | e in multiset(s)
      ensures s[0].f <= e.f
    {
      var i :| 0 <= i < |s| && s[i] == e;
      RootIsLeast(s, i);
    }
    var init, x := s[..|s| - 1], s[|s| - 1];
    assert s == init + [x];
    if init == [] {
      assert s == [s[0]];
    } else {
      SinkConserves(init, 0, x);
      SinkOrders(init, 0, x);
      assert multiset(init[0 := x]) == multiset(init) - multiset{init[0]} + multiset{x};
    }
  }

  // ---------- The second key ----------

  /** The order the comments ask for: F first, then H. */
  predicate KeyLe(a: Entry, b: Entry) {
    a.f < b.f || (a.f == b.f && a.h <= b.h)
  }

  ghost predicate KeyOrdered(s: seq<Entry>) {
    forall i :: 0 < i < |s| ==> KeyLe(s[Parent(i)], s[i])
  }

  /** The sift-down of x from rt halts above a child of the same F but a smaller H: the
      case the tie-break was written for and that the test before it swallows. */
  predicate TieIgnored(s: seq<Entry>, rt: nat, x: Entry)
    requires rt < |s|
    decreases |s| - rt
  {
    2 * rt + 1 < |s| &&
    var c := BestChild(s, rt);
    if s[c].f >= x.f then s[c].f == x.f && s[c].h < x.h else TieIgnored(s, c, x)
  }

  /** Only what lies below rt matters. */
  lemma {:induction false} TieIgnoredLocal(s: seq<Entry>, t: seq<Entry>, rt: nat, x: Entry)
    requires rt < |s| == |t|
    requires forall i :: rt < i < |s| ==> s[i] == t[i]
    ensures TieIgnored(s, rt, x) == TieIgnored(t, rt, x)
    decreases |s| - rt
  {
    if 2 * rt + 1 < |s| && s[BestChild(s, rt)].f < x.f {
      TieIgnoredLocal(s, t, BestChild(s, rt), x);
    }
  }

  ghost predicate KeyOrderedAround(s: seq<Entry>, hole: nat) {
    && (forall i :: 0 < i < |s| && i != hole && Parent(i) != hole ==> KeyLe(s[Parent(i)], s[i]))
    && (forall i :: 0 < i < |s| && Parent(i) == hole && 0 < hole ==> KeyLe(s[Parent(hole)], s[i]))
  }

  lemma {:induction false} SinkKeyOrders(s: seq<Entry>, rt: nat, x: Entry)
    requires rt < |s| && KeyOrderedAround(s, rt)
    requires 0 < rt ==> KeyLe(s[Parent(rt)], x)
    ensures KeyOrdered(Sink(s, rt, x)) <==> !TieIgnored(s, rt, x)
    decreases |s| - rt
  {
    if 2 * rt + 1 < |s| {
      var c := BestChild(s, rt);
      var s' := s[rt := s[c]];
      if s[c].f < x.f {
        TieIgnoredLocal(s', s, c, x);
        assert KeyOrderedAround(s', c);
        SinkKeyOrders(s', c, x);
      } else {
        var r := s[rt := x];
        assert r[Parent(c)] == x && r[c] == s[c];
      }
    }
  }

  lemma {:induction false} RiseKeyOrders(s: seq<Entry>, now: nat, ps: Entry)
    requires now < |s| && KeyOrderedAround(s, now)
    requires forall i :: 0 < i < |s| && Parent(i) == now ==> KeyLe(ps, s[i])
    ensures KeyOrdered(Rise(s, now, ps))
    decreases now
  {
    if now == 0 || Above(s[Parent(now)], ps) {
    } else {
      var f := Parent(now);
      var s' := s[now := s[f]];
      forall i | 0 < i < |s'| && i != f && Parent(i) != f
        ensures KeyLe(s'[Parent(i)], s'[i])
      {
        assert i != now;
      }
      RiseKeyOrders(s', f, ps);
    }
  }

  /** A pushed entry comes to rest at the root or below an entry with a strictly smaller key: it
      passes entries with an equal key. */
  lemma {:induction false} RiseRests(s: seq<Entry>, now: nat, ps: Entry) returns (q: nat)
    requires now < |s|
    ensures q <= now && Rise(s, now, ps)[q] == ps
    ensures q > 0 ==>
      var fa := Rise(s, now, ps)[Parent(q)];
      fa.f < ps.f || (fa.f == ps.f && fa.h < ps.h)
    decreases now
  {
    if now == 0 || Above(s[Parent(now)], ps) {
      q := now;
    } else {
      q := RiseRests(s[now := s[Parent(now)]], Parent(now), ps);
    }
  }

  lemma PushedRests(s: seq<Entry>, ps: Entry) returns (q: nat)
    ensures q <= |s| && Pushed(s, ps)[q] == ps
    ensures q > 0 ==>
      var fa := Pushed(s, ps)[Parent(q)];
      fa.f < ps.f || (fa.f == ps.f && fa.h < ps.h)
  {
    q := RiseRests(s + [ps], |s|, ps);
  }

  /** push always keeps the two-key order. */
  lemma PushKeepsKeyOrder(s: seq<Entry>, ps: Entry)
    requires KeyOrdered(s)
    ensures KeyOrdered(Pushed(s, ps))
  {
    RiseKeyOrders(s + [ps], |s|, ps);
  }

  /** pop keeps the two-key order exactly when its sift-down does not halt at a tie in F
      that H should have decided. */
  lemma PopKeepsKeyOrder(s: seq<Entry>)
    requires KeyOrdered(s) && |s| > 1
    ensures KeyOrdered(Popped(s)) <==> !TieIgnored(s[..|s| - 1], 0, s[|s| - 1])
  {
    SinkKeyOrders(s[..|s| - 1], 0, s[|s| - 1]);
  }

  /** A heap of three on which pop loses the two-key order. */
  lemma PopCanLoseKeyOrder()
    ensures
      var s := [Entry(1, 1, 1, 1, 0), Entry(2, 2, 5, 5, 0), Entry(3, 3, 5, 1, 4)];
      KeyOrdered(s) && !KeyOrdered(Popped(s))
  {
    var s := [Entry(1, 1, 1, 1, 0), Entry(2, 2, 5, 5, 0), Entry(3, 3, 5, 1, 4)];
    assert forall i :: 0 < i < |s| ==> Parent(i) == 0;
    var init := s[..2];
    assert init == [s[0], s[1]] && BestChild(init, 0) == 1;
    assert Popped(s) == [s[2], s[1]];
    assert !KeyLe(Popped(s)[Parent(1)], Popped(s)[1]);
  }

  // ---------- The heap in its array ----------

  class Heap {
    const heap: array<Entry>
    var sz: nat

    ghost predicate Valid()
      reads this, heap
    {
      sz <= heap.Length && Ordered(heap[..sz])
    }

    ghost function Entries(): multiset<Entry>
      reads this, heap
      requires sz <= heap.Length
    {
      multiset(heap[..sz])
    }

    constructor (capacity: nat)
      ensures Valid() && sz == 0 && heap.Length == capacity && fresh(heap)
    {
      heap := new Entry[capacity](_ => Entry(0, 0, 0, 0, 0));
      sz := 0;
    }

    method Clear()
      modifies this`sz
      ensures Valid() && sz == 0
    {
      sz := 0;
    }

    method Push(ps: Entry)
      requires Valid() && sz < heap.Length
      modifies this`sz, heap
      ensures Valid() && sz == old(sz) + 1
      ensures heap[..sz] == Pushed(old(heap[..sz]), ps)
      ensures Entries() == old(Entries()) + multiset{ps}
    {
      ghost var s0 := heap[..sz];
      ghost var goal := Pushed(s0, ps);
      var now := sz;
      sz := sz + 1;
      assert heap[..sz][now := ps] == s0 + [ps];
      RiseIgnoresHole(heap[..sz], s0 + [ps], now, ps);
      while now > 0
        invariant now < sz == |s0| + 1 <= heap.Length
        invariant Rise(heap[..sz], now, ps) == goal
      {
        var f := (now - 1) / 2;
        var fa := heap[f];
        if fa.f < ps.f { break; }
        if fa.f == ps.f && fa.h < ps.h { break; }
        ghost var before := heap[..sz];
        heap[now] := heap[f];
        assert heap[..sz] == before[now := before[f]];
        now := f;
      }
      ghost var before := heap[..sz];
      heap[now] := ps;
      assert heap[..sz] == before[now := ps];
      PushedIsHeap(s0, ps);
    }

    method Pop() returns (res: Entry)
      requires Valid() && sz > 0
      modifies this`sz, heap
      ensures Valid() && sz == old(sz) - 1
      ensures res == old(heap[0]) && heap[..sz] == Popped(old(heap[..sz]))
      ensures old(Entries()) == Entries() + multiset{res}
      ensures forall e :: e in old(Entries()) ==> res.f <= e.f
    {
      ghost var s0 := heap[..sz];
      res := heap[0];
      sz := sz - 1;
      assert heap[..sz] == s0[..|s0| - 1];
      var x := heap[sz];
      assert x == s0[|s0| - 1] && res == s0[0];
      SiftDown(x);
      assert heap[..sz] == Popped(s0);
      PoppedIsHeap(s0);
    }

    /** The loop of pop: sinks a hole from the root and drops x into it. */
    method SiftDown(x: Entry)
      requires sz < heap.Length
      modifies heap
      ensures heap[..sz] == if sz == 0 then [] else Sink(old(heap[..sz]), 0, x)
    {
      ghost var s0 := heap[..sz];
      var rt := 0;
      while rt * 2 + 1 < sz
        invariant if sz == 0 then rt == 0 else rt < sz && Sink(heap[..sz], rt, x) == Sink(s0, 0, x)
        decreases sz - rt
      {
        var lchild, rchild := 2 * rt + 1, 2 * rt + 2;
        if rchild < sz && heap[rchild].f < heap[lchild].f { lchild := rchild; }
        if rchild < sz && heap[rchild].f == heap[lchild].f && heap[rchild].h < heap[lchild].h { lchild := rchild; }
        ghost var before := heap[..sz];
        assert lchild == BestChild(before, rt);
        var child := heap[lchild];
        if child.f >= x.f { break; }
        if child.f == x.f && child.h > x.h { break; }  // never true here
        heap[rt] := child;
        assert heap[..sz] == before[rt := before[lchild]];
        rt := lchild;
      }
      ghost var before := heap[..sz];
      heap[rt] := x;
      assert heap[..sz] == if sz == 0 then [] else before[rt := x];
    }
  }

  /** What the hole holds does not matter. */
  lemma RiseIgnoresHole(s: seq<Entry>, t: seq<Entry>, now: nat, ps: Entry)
    requires now < |s| == |t| && s[now := ps] == t[now := ps]
    ensures Rise(s, now, ps) == Rise(t, now, ps)
  {
    if now > 0 && !Above(s[Parent(now)], ps) {
      assert s[Parent(now)] == s[now := ps][Parent(now)] == t[now := ps][Parent(now)];
      var y := s[Parent(now)];
      assert s[now := y] == s[now := ps][now := y] == t[now := ps][now := y] == t[now := y];
    } else if now > 0 {
      assert s[Parent(now)] == s[now := ps][Parent(now)] == t[now := ps][Parent(now)];
    }
  }
}
