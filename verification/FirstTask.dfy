/** ACO_to_first and ACO_to_next of aco.c, as far as they choose the pictures: a tour of 13
    pictures and the base, of which the first 13 entries are shuffled and entries 1 to 13 are
    then visited. */
module FirstTask {
  import opened Tours
  import opened Shuffle

  /** The number of the base, the last point. */
  const BASE := 13

  lemma FirstDraw(slots: seq<nat>, draw: nat)
    requires |slots| > 0 && Drawn(slots, 0, MAX, draw)
    ensures slots[0] == draw % MAX
  {
    assert Distance(draw % MAX, draw % MAX, MAX) == 0;
    assert draw % MAX !in slots[..0];
    assert Mod(draw, MAX) == draw % MAX && Mod(0 + Mod(draw, MAX), MAX) == draw % MAX;
  }

  lemma EntryIs(route: seq<nat>, r: seq<nat>, slots: seq<nat>, draws: nat -> nat, k: nat)
    requires |route| == |r| == MAX + 1 && k < MAX && Reordered(route[..MAX], r[..MAX], slots, draws)
    ensures |slots| == MAX && slots[k] < MAX && r[k] == route[slots[k]]
    ensures forall j :: 0 <= j < k ==> slots[j] != slots[k]
  {
    hide Distance, Mod;
    assert r[k] == r[..MAX][k] && Drawn(slots, k, MAX, draws(k));
    forall j | 0 <= j < k
      ensures slots[j] != slots[k]
    {
      assert slots[..k][j] == slots[j];
    }
  }

  lemma EntriesDiffer(route: seq<nat>, r: seq<nat>, slots: seq<nat>, draws: nat -> nat, j: nat, k: nat)
    requires |route| == |r| == MAX + 1 && IsTour(route, MAX + 1, BASE) && j < k < |r|
    requires Reordered(route[..MAX], r[..MAX], slots, draws) && r[MAX] == route[MAX]
    ensures r[j] != r[k]
  {
    hide Reordered, Below;
    EntryIs(route, r, slots, draws, j);
    if k < MAX {
      EntryIs(route, r, slots, draws, k);
      assert slots[j] < slots[k] || slots[k] < slots[j];
    }
  }

  /** The entries of the shuffled tour are distinct, and its first is the base exactly if the
      first number drawn is a multiple of 13. */
  lemma ShuffledIsTour(route: seq<nat>, r: seq<nat>, slots: seq<nat>, draws: nat -> nat)
    requires |route| == |r| == MAX + 1 && IsTour(route, MAX + 1, BASE)
    requires Reordered(route[..MAX], r[..MAX], slots, draws) && r[MAX] == route[MAX]
    ensures IsTour(r, MAX + 1, r[0])
    ensures r[0] == BASE <==> draws(0) % 13 == 0
  {
    hide Drawn;
    FirstDraw(slots, draws(0));
    hide Reordered;
    EntryIs(route, r, slots, draws, 0);
    assert slots[0] > 0 ==> route[0] != route[slots[0]];
    forall j: nat, k: nat | j < k < |r|
      ensures r[j] != r[k]
    {
      EntriesDiffer(route, r, slots, draws, j, k);
    }
    forall k: nat | k < |r|
      ensures r[k] < MAX + 1
    {
      if k < MAX {
        EntryIs(route, r, slots, draws, k);
      }
    }
  }

  /** The shuffle moves the base away from the front unless the first number drawn is a
      multiple of 13. So every picture is visited if and only if it is; otherwise exactly one
      picture, the one at the front, is left out. */
  lemma PictureLeftOut(route: seq<nat>, r: seq<nat>, slots: seq<nat>, draws: nat -> nat)
    requires |route| == |r| == MAX + 1 && IsTour(route, MAX + 1, BASE)
    requires Reordered(route[..MAX], r[..MAX], slots, draws) && r[MAX] == route[MAX]
    ensures forall p: nat :: p < BASE ==> (p in r[1..] <==> p != r[0])
    ensures r[0] < BASE <==> draws(0) % 13 != 0
    ensures (forall p: nat :: p < BASE ==> p in r[1..]) <==> draws(0) % 13 == 0
  {
    hide Reordered;
    ShuffledIsTour(route, r, slots, draws);
    FullTourVisitsAll(r, MAX + 1, r[0]);
    assert r[0] < MAX + 1;
    forall p: nat | p < BASE
      ensures p in r[1..] <==> p != r[0]
    {
      FrontAppearsOnce(r, p);
      assert p in r;
    }
    if r[0] < BASE {
      assert r[0] !in r[1..];
    }
  }

  lemma FrontAppearsOnce(r: seq<nat>, p: nat)
    requires r != [] && forall j, k :: 0 <= j < k < |r| ==> r[j] != r[k]
    ensures p in r ==> (p in r[1..] <==> p != r[0])
  {
    assert r == [r[0]] + r[1..];
    if p in r[1..] {
      var k: nat :| k < |r[1..]| && r[1..][k] == p;
      assert r[k + 1] == p;
    }
  }
}
