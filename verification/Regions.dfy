/** Pixels, colour classes and connected regions of the camera image. */
module Regions {
  import Distance

  const W := 188
  const H := 120

  /** The label of a pixel that belongs to no block yet. */
  const UNLABELLED := -1

  datatype Pixel = Pixel(x: int, y: int)

  predicate InImage(p: Pixel) {
    0 <= p.x < W && 0 <= p.y < H
  }

  const DIR: seq<(int, int)> := [(-1, 0), (0, -1), (1, 0), (0, 1), (-1, 1), (1, -1), (-1, -1), (1, 1)]

  function Nbr(p: Pixel, i: nat): Pixel
    requires i < 8
  {
    Pixel(p.x + DIR[i].0, p.y + DIR[i].1)
  }

  /** How far apart two pixels are, along the sides and with diagonal steps. */
  function SideSteps(u: Pixel, v: Pixel): nat {
    Distance.Abs(v.x - u.x) + Distance.Abs(v.y - u.y)
  }

  function KingSteps(u: Pixel, v: Pixel): nat {
    if Distance.Abs(v.x - u.x) >= Distance.Abs(v.y - u.y) then Distance.Abs(v.x - u.x) else Distance.Abs(v.y - u.y)
  }

  /** The first four directions lead to the pixels that share a side, all eight to those that
      share a side or a corner. */
  lemma NeighboursAre(u: Pixel, v: Pixel)
    ensures (exists i: nat :: i < 4 && Nbr(u, i) == v) <==> SideSteps(u, v) == 1
    ensures (exists i: nat :: i < 8 && Nbr(u, i) == v) <==> KingSteps(u, v) == 1
  {
    var s := [Nbr(u, 0), Nbr(u, 1), Nbr(u, 2), Nbr(u, 3), Nbr(u, 4), Nbr(u, 5), Nbr(u, 6), Nbr(u, 7)];
    assert forall i: nat :: i < 8 ==> s[i] == Nbr(u, i);
  }

  /** ... each once. */
  lemma NeighboursDiffer(u: Pixel, i: nat, j: nat)
    requires i < j < 8
    ensures Nbr(u, i) != Nbr(u, j)
  {
  }

  /** What a flood fill starts from: the labels, the white pixels (value 255) and the number
      of directions, 4 or 8. */
  datatype Picture = Picture(mark: map<Pixel, int>, white: set<Pixel>, dirs: nat) {
    ghost predicate Valid() {
      dirs <= 8 && forall p :: InImage(p) ==> p in mark
    }
  }

  predicate SameClass(pic: Picture, u: Pixel, v: Pixel) {
    (u in pic.white) == (v in pic.white)
  }

  /** v can be entered from u: an unlabelled pixel of the image, of u's class. */
  predicate Joins(pic: Picture, u: Pixel, v: Pixel)
    requires pic.Valid()
  {
    InImage(v) && pic.mark[v] == UNLABELLED && SameClass(pic, u, v)
  }

  /** v lies across the edge of u's class: an unlabelled pixel of the other class. */
  predicate Borders(pic: Picture, u: Pixel, v: Pixel)
    requires pic.Valid()
  {
    InImage(v) && pic.mark[v] == UNLABELLED && !SameClass(pic, u, v)
  }

  /** A path from seed, each step in one of the directions and into a pixel that joins. */
  ghost predicate Path(pic: Picture, seed: Pixel, path: seq<Pixel>)
    requires pic.Valid()
  {
    path != [] &&
    if |path| == 1 then path[0] == seed
    else
      var init, u, v := path[..|path| - 1], path[|path| - 2], path[|path| - 1];
      Path(pic, seed, init) && Joins(pic, u, v) && exists i :: 0 <= i < pic.dirs && v == Nbr(u, i)
  }

  /** The region of seed: the pixels that paths from it lead to. */
  ghost predicate InRegion(pic: Picture, seed: Pixel, p: Pixel)
    requires pic.Valid()
  {
    exists path :: Path(pic, seed, path) && path[|path| - 1] == p
  }

  lemma RegionStep(pic: Picture, seed: Pixel, u: Pixel, i: nat)
    requires pic.Valid() && InRegion(pic, seed, u) && i < pic.dirs && Joins(pic, u, Nbr(u, i))
    ensures InRegion(pic, seed, Nbr(u, i))
  {
    var path :| Path(pic, seed, path) && path[|path| - 1] == u;
    var longer := path + [Nbr(u, i)];
    assert longer[..|longer| - 1] == path;
    assert Path(pic, seed, longer);
  }

  lemma RegionSeed(pic: Picture, seed: Pixel)
    requires pic.Valid()
    ensures InRegion(pic, seed, seed)
  {
    assert Path(pic, seed, [seed]);
  }

  // ---------- Breadth-first order ----------

  ghost predicate Distinct(s: seq<Pixel>) {
    forall i, j :: 0 <= i < j < |s| ==> s[i] != s[j]
  }

  /** order lists distinct pixels of the region, the seed first. */
  ghost predicate Explored(pic: Picture, seed: Pixel, order: seq<Pixel>)
    requires pic.Valid()
  {
    && order != [] && order[0] == seed && InImage(seed)
    && Distinct(order)
    && forall p :: p in order ==> InImage(p) && InRegion(pic, seed, p) && SameClass(pic, seed, p)
  }

  /** The first i neighbours of u that join are in order. */
  ghost predicate Scanned(pic: Picture, order: seq<Pixel>, u: Pixel, i: nat)
    requires pic.Valid() && i <= 8
  {
    forall j :: 0 <= j < i && Joins(pic, u, Nbr(u, j)) ==> Nbr(u, j) in order
  }

  /** The first h pixels of order are scanned in all directions. */
  ghost predicate AllScanned(pic: Picture, order: seq<Pixel>, h: nat)
    requires pic.Valid()
  {
    h <= |order| && forall k :: 0 <= k < h ==> Scanned(pic, order, order[k], pic.dirs)
  }

  /** Looking at neighbour i of u. */
  ghost function Visit(pic: Picture, order: seq<Pixel>, u: Pixel, i: nat): seq<Pixel>
    requires pic.Valid() && i < 8
  {
    var v := Nbr(u, i);
    if Joins(pic, u, v) && v !in order then order + [v] else order
  }

  lemma VisitKeeps(pic: Picture, seed: Pixel, order: seq<Pixel>, h: nat, i: nat)
    requires pic.Valid() && i < pic.dirs && Explored(pic, seed, order) && h < |order|
    requires AllScanned(pic, order, h) && Scanned(pic, order, order[h], i)
    ensures
      var order' := Visit(pic, order, order[h], i);
      && Explored(pic, seed, order')
      && h < |order'| && order'[h] == order[h]
      && AllScanned(pic, order', h) && Scanned(pic, order', order[h], i + 1)
  {
    var u := order[h];
    var v := Nbr(u, i);
    var order' := Visit(pic, order, u, i);
    assert u in order;
    assert forall p :: p in order ==> p in order';
    if Joins(pic, u, v) && v !in order {
      RegionStep(pic, seed, u, i);
      assert v in order';
    }
    forall k | 0 <= k < h
      ensures Scanned(pic, order', order'[k], pic.dirs)
    {
      assert Scanned(pic, order, order[k], pic.dirs);
    }
  }

  /** When every listed pixel is scanned, order lists the whole region. */
  lemma {:induction false} ScannedIsRegion(pic: Picture, seed: Pixel, order: seq<Pixel>, path: seq<Pixel>)
    requires pic.Valid() && Explored(pic, seed, order) && AllScanned(pic, order, |order|)
    requires Path(pic, seed, path)
    ensures path[|path| - 1] in order
  {
    if |path| > 1 {
      var u, v := path[|path| - 2], path[|path| - 1];
      ScannedIsRegion(pic, seed, order, path[..|path| - 1]);
      var k :| 0 <= k < |order| && order[k] == u;
      var i :| 0 <= i < pic.dirs && v == Nbr(u, i);
      assert Scanned(pic, order, order[k], pic.dirs);
    }
  }

  lemma OrderIsRegion(pic: Picture, seed: Pixel, order: seq<Pixel>)
    requires pic.Valid() && Explored(pic, seed, order) && AllScanned(pic, order, |order|)
    ensures forall p :: p in order <==> InRegion(pic, seed, p)
  {
    forall p | InRegion(pic, seed, p)
      ensures p in order
    {
      var path :| Path(pic, seed, path) && path[|path| - 1] == p;
      ScannedIsRegion(pic, seed, order, path);
    }
  }

  // ---------- The edge list ----------

  /** Neighbours 0..i-1 of u across the edge, in order. */
  ghost function BorderOf(pic: Picture, u: Pixel, i: nat): seq<Pixel>
    requires pic.Valid() && i <= 8
  {
    if i == 0 then []
    else BorderOf(pic, u, i - 1) + if Borders(pic, u, Nbr(u, i - 1)) then [Nbr(u, i - 1)] else []
  }

  /** ... of every pixel listed. */
  ghost function Border(pic: Picture, order: seq<Pixel>): seq<Pixel>
    requires pic.Valid()
  {
    if order == [] then []
    else Border(pic, order[..|order| - 1]) + BorderOf(pic, order[|order| - 1], pic.dirs)
  }

  /** The adjacencies across the edge that lead to d. */
  ghost function Adjacencies(pic: Picture, pixels: set<Pixel>, d: Pixel): set<(Pixel, nat)>
    requires pic.Valid()
  {
    set u, i: nat | u in pixels && i < pic.dirs && Nbr(u, i) == d && Borders(pic, u, d) :: (u, i)
  }

  ghost function AdjacenciesOf(pic: Picture, u: Pixel, n: nat, d: Pixel): set<(Pixel, nat)>
    requires pic.Valid() && n <= 8
  {
    set i: nat | i < n && Nbr(u, i) == d && Borders(pic, u, d) :: (u, i)
  }

  lemma AdjacenciesOfGrow(pic: Picture, u: Pixel, n: nat, d: Pixel)
    requires pic.Valid() && 0 < n <= 8
    ensures
      var hit := Nbr(u, n - 1) == d && Borders(pic, u, d);
      |AdjacenciesOf(pic, u, n, d)| == |AdjacenciesOf(pic, u, n - 1, d)| + if hit then 1 else 0
  {
    hide Borders, Nbr;
    var fewer := AdjacenciesOf(pic, u, n - 1, d);
    if Nbr(u, n - 1) == d && Borders(pic, u, d) {
      assert (u, n - 1) !in fewer;
      assert AdjacenciesOf(pic, u, n, d) == fewer + {(u, n - 1)};
    } else {
      assert AdjacenciesOf(pic, u, n, d) == fewer;
    }
  }

  lemma {:induction false} BorderOfCounts(pic: Picture, u: Pixel, n: nat, d: Pixel)
    requires pic.Valid() && n <= 8
    ensures multiset(BorderOf(pic, u, n))[d] == |AdjacenciesOf(pic, u, n, d)|
  {
    hide Borders, Nbr, AdjacenciesOf;
    if n > 0 {
      BorderOfCounts(pic, u, n - 1, d);
      AdjacenciesOfGrow(pic, u, n, d);
    } else {
      NoAdjacencies(pic, u, d);
    }
  }

  lemma NoAdjacencies(pic: Picture, u: Pixel, d: Pixel)
    requires pic.Valid()
    ensures AdjacenciesOf(pic, u, 0, d) == {} && Adjacencies(pic, {}, d) == {}
  {
  }

  ghost function Members(s: seq<Pixel>): set<Pixel> {
    set p | p in s
  }

  lemma AdjacenciesGrow(pic: Picture, pixels: set<Pixel>, u: Pixel, d: Pixel)
    requires pic.Valid() && u !in pixels
    ensures |Adjacencies(pic, pixels + {u}, d)|
         == |Adjacencies(pic, pixels, d)| + |AdjacenciesOf(pic, u, pic.dirs, d)|
  {
    hide Borders, Nbr;
    var a, b := Adjacencies(pic, pixels, d), AdjacenciesOf(pic, u, pic.dirs, d);
    assert Adjacencies(pic, pixels + {u}, d) == a + b;
    assert a !! b;
  }

  lemma MembersGrow(order: seq<Pixel>)
    requires Distinct(order)
    ensures order == [] ==> Members(order) == {}
    ensures order != [] ==>
      var init, u := order[..|order| - 1], order[|order| - 1];
      Members(order) == Members(init) + {u} && u !in Members(init)
  {
    if order != [] {
      assert order == order[..|order| - 1] + [order[|order| - 1]];
    }
  }

  /** Each pixel is listed once per adjacency across the edge of the region. */
  lemma {:induction false} BorderCounts(pic: Picture, order: seq<Pixel>, d: Pixel)
    requires pic.Valid() && Distinct(order)
    ensures multiset(Border(pic, order))[d] == |Adjacencies(pic, Members(order), d)|
  {
    hide Adjacencies, AdjacenciesOf, BorderOf, Members;
    MembersGrow(order);
    if order == [] {
      NoAdjacencies(pic, Pixel(0, 0), d);
    } else {
      var init, u := order[..|order| - 1], order[|order| - 1];
      BorderCounts(pic, init, d);
      BorderOfCounts(pic, u, pic.dirs, d);
      AdjacenciesGrow(pic, Members(init), u, d);
    }
  }

  lemma {:induction false} BorderOfMembers(pic: Picture, u: Pixel, n: nat, d: Pixel)
    requires pic.Valid() && n <= 8
    ensures d in BorderOf(pic, u, n) <==> exists i :: 0 <= i < n && Nbr(u, i) == d && Borders(pic, u, d)
  {
    if n > 0 {
      BorderOfMembers(pic, u, n - 1, d);
    }
  }

  ghost predicate Touches(pic: Picture, u: Pixel, d: Pixel)
    requires pic.Valid()
  {
    Borders(pic, u, d) && exists i :: 0 <= i < pic.dirs && Nbr(u, i) == d
  }

  /** d touches u exactly if it is an unlabelled pixel of the image, next to u and of the other
      class. */
  lemma TouchesIs(pic: Picture, u: Pixel, d: Pixel)
    requires pic.Valid() && (pic.dirs == 4 || pic.dirs == 8)
    ensures Touches(pic, u, d) <==>
      && 0 <= d.x < 188 && 0 <= d.y < 120 && pic.mark[d] == -1 && (u in pic.white) != (d in pic.white)
      && (if pic.dirs == 4 then SideSteps(u, d) else KingSteps(u, d)) == 1
  {
    NeighboursAre(u, d);
    hide Nbr, SideSteps, KingSteps;
    if Touches(pic, u, d) {
      var i :| 0 <= i < pic.dirs && Nbr(u, i) == d;
    }
  }

  /** The edge list names exactly the pixels that touch the region from the other class. */
  lemma {:induction false} BorderMembers(pic: Picture, order: seq<Pixel>, d: Pixel)
    requires pic.Valid()
    ensures d in Border(pic, order) <==> exists u :: u in order && Touches(pic, u, d)
  {
    if order != [] {
      var init, u := order[..|order| - 1], order[|order| - 1];
      BorderMembers(pic, init, d);
      BorderOfMembers(pic, u, pic.dirs, d);
      assert order == init + [u];
      assert d in BorderOf(pic, u, pic.dirs) <==> Touches(pic, u, d);
      assert u in order;
    }
  }
}
