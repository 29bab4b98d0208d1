/** BFS of coor_pick.c on its arrays and queues. */
module FloodFill {
  import opened LinkedQueue
  import opened Regions

  /** A block entry: pixel count and coordinate sums. */
  datatype Blob = Blob(num: int, sumX: int, sumY: int)

  function Plus(a: Blob, b: Blob): Blob {
    Blob(a.num + b.num, a.sumX + b.sumX, a.sumY + b.sumY)
  }

  /** Count and coordinate sums of a set of pixels. */
  ghost function TallySet(s: set<Pixel>): Blob {
    if s == {} then Blob(0, 0, 0)
    else
      var p :| p in s;
      Plus(TallySet(s - {p}), Blob(1, p.x, p.y))
  }

  lemma {:induction false} TallyAdd(s: set<Pixel>, p: Pixel)
    requires p !in s
    ensures TallySet(s + {p}) == Plus(TallySet(s), Blob(1, p.x, p.y))
    decreases |s|
  {
    var t := s + {p};
    var q := TallyPick(t);
    if q == p {
      assert t - {q} == s;
    } else {
      TallyAdd(s - {q}, p);
      TallyAdd(s - {q}, q);
      assert t - {q} == (s - {q}) + {p};
      assert (s - {q}) + {q} == s;
    }
  }

  lemma NoTally()
    ensures TallySet(Members([])) == Blob(0, 0, 0)
  {
    assert Members([]) == {};
  }

  lemma TallyPick(s: set<Pixel>) returns (p: Pixel)
    requires s != {}
    ensures p in s && TallySet(s) == Plus(TallySet(s - {p}), Blob(1, p.x, p.y))
  {
    p :| p in s && TallySet(s) == Plus(TallySet(s - {p}), Blob(1, p.x, p.y));
  }

  lemma {:induction false} TallyNum(s: set<Pixel>)
    ensures TallySet(s).num == |s|
    decreases |s|
  {
    if s != {} {
      var p := TallyPick(s);
      TallyNum(s - {p});
    }
  }

  // ---------- The two coordinate queues ----------

  ghost function Xs(s: seq<Pixel>): (r: seq<int>)
    ensures |r| == |s|
  {
    seq(|s|, i requires 0 <= i < |s| => s[i].x)
  }

  ghost function Ys(s: seq<Pixel>): (r: seq<int>)
    ensures |r| == |s|
  {
    seq(|s|, i requires 0 <= i < |s| => s[i].y)
  }

  lemma CoordinatesAppend(s: seq<Pixel>, p: Pixel)
    ensures Xs(s + [p]) == Xs(s) + [p.x] && Ys(s + [p]) == Ys(s) + [p.y]
  {
  }

  lemma CoordinatesSplit(s: seq<Pixel>)
    requires s != []
    ensures Xs(s) == [s[0].x] + Xs(s[1..]) && Ys(s) == [s[0].y] + Ys(s[1..])
  {
  }

  /** The queues hold the coordinates of s, in step. */
  ghost predicate Holds(qx: Queue, qy: Queue, s: seq<Pixel>)
    reads qx, qx.spine, qy, qy.spine
  {
    && qx != qy && qx.Valid() && qy.Valid() && qx.Nodes() !! qy.Nodes()
    && qx.Contents() == Xs(s) && qy.Contents() == Ys(s)
  }

  method CreateQueues() returns (qx: Queue, qy: Queue)
    ensures fresh(qx) && fresh(qy) && qx.Nodes() == qy.Nodes() == {}
    ensures Holds(qx, qy, [])
  {
    qx := new Queue();
    qy := new Queue();
  }

  method EnqueuePixel(qx: Queue, qy: Queue, x: Byte, y: Byte, ghost s: seq<Pixel>)
    requires Holds(qx, qy, s)
    modifies qx, qx.Nodes(), qy, qy.Nodes()
    ensures Holds(qx, qy, s + [Pixel(x, y)])
    ensures fresh(qx.Nodes() - old(qx.Nodes())) && fresh(qy.Nodes() - old(qy.Nodes()))
  {
    hide Queue.Valid, Data, Xs, Ys;
    CoordinatesAppend(s, Pixel(x, y));
    qx.Enqueue(x);
    qy.Enqueue(y);
  }

  method DequeuePixel(qx: Queue, qy: Queue, ghost s: seq<Pixel>) returns (x: Byte, y: Byte)
    requires Holds(qx, qy, s) && s != []
    modifies qx, qy
    ensures Pixel(x, y) == s[0] && Holds(qx, qy, s[1..])
    ensures qx.Nodes() <= old(qx.Nodes()) && qy.Nodes() <= old(qy.Nodes())
  {
    hide Queue.Valid, Data, Xs, Ys;
    CoordinatesSplit(s);
    ghost var cx, cy := qx.Contents(), qy.Contents();
    x := qx.Dequeue();
    y := qy.Dequeue();
    assert x == cx[0] && qx.Contents() == cx[1..];
    assert y == cy[0] && qy.Contents() == cy[1..];
  }

  method QueuesEmpty(qx: Queue, qy: Queue, ghost s: seq<Pixel>) returns (empty: bool)
    requires Holds(qx, qy, s)
    ensures empty <==> s == []
  {
    empty := qx.IsEmpty();
  }

  // ---------- The fill ----------

  class Image {
    const img: array2<int>
    const origin: array2<Byte>
    const block: array<Blob>
    var edge: seq<Pixel>

    /** The labels, tied to img by Valid. */
    ghost var mark: map<Pixel, int>

    /** A black image, nothing labelled and the blocks cleared. */
    constructor ()
      ensures Valid() && fresh(img) && fresh(origin) && fresh(block)
      ensures block.Length == W * H && forall k :: 0 <= k < block.Length ==> block[k] == Blob(0, 0, 0)
      ensures forall x, y :: 0 <= x < W && 0 <= y < H ==> origin[x, y] == 0
    {
      img := new int[W, H]((x, y) => UNLABELLED);
      origin := new Byte[W, H]((x, y) => 0);
      block := new Blob[W * H](k => Blob(0, 0, 0));
      edge := [];
      mark := map p | p in AllPixels() :: UNLABELLED;
    }

    ghost predicate Valid()
      reads this, img
    {
      && img.Length0 == origin.Length0 == W && img.Length1 == origin.Length1 == H
      && forall p :: InImage(p) ==> p in mark && mark[p] == img[p.x, p.y]
    }

    ghost function White(): set<Pixel>
      requires origin.Length0 == W && origin.Length1 == H
      reads origin
    {
      set x, y | 0 <= x < W && 0 <= y < H && origin[x, y] == 255 :: Pixel(x, y)
    }

    /** pic shows this image's colours. */
    ghost predicate Shows(pic: Picture)
      requires origin.Length0 == W && origin.Length1 == H
      reads origin
    {
      pic.Valid() && forall p :: InImage(p) ==> (p in pic.white <==> origin[p.x, p.y] == 255)
    }

    /** The labels of pic, with the pixels listed in order painted cnt. */
    ghost predicate Painted(pic: Picture, order: seq<Pixel>, cnt: nat)
      requires pic.Valid() && forall p :: InImage(p) ==> p in mark
      reads this
    {
      forall p :: InImage(p) ==> mark[p] == if p in order then cnt else pic.mark[p]
    }

    /** Labels a pixel and counts it. */
    method Paint(x: int, y: int, cnt: nat, ghost pic: Picture, ghost order: seq<Pixel>, ghost b0: Blob)
      requires Valid() && pic.Valid() && InImage(Pixel(x, y)) && cnt < block.Length
      requires Painted(pic, order, cnt) && Pixel(x, y) !in order
      requires block[cnt] == Plus(b0, TallySet(Members(order)))
      modifies `mark, img, block
      ensures Valid() && Painted(pic, order + [Pixel(x, y)], cnt)
      ensures block[cnt] == Plus(b0, TallySet(Members(order + [Pixel(x, y)])))
      ensures forall k :: 0 <= k < block.Length && k != cnt ==> block[k] == old(block[k])
    {
      ghost var p := Pixel(x, y);
      img[x, y] := cnt;
      mark := mark[p := cnt];
      block[cnt] := Plus(block[cnt], Blob(1, x, y));
      assert Members(order + [p]) == Members(order) + {p};
      TallyAdd(Members(order), p);
    }

    /** One iteration of the inner loop: neighbour i of (nx, ny). */
    method Probe(nx: int, ny: int, i: nat, cnt: nat, tag: bool, qx: Queue, qy: Queue,
                 ghost pic: Picture, ghost order: seq<Pixel>, ghost h: nat, ghost b0: Blob)
      returns (ghost order': seq<Pixel>)
      requires Valid() && Shows(pic) && i < pic.dirs && cnt < block.Length
      requires InImage(Pixel(nx, ny)) && (forall p :: p in order ==> SameClass(pic, Pixel(nx, ny), p))
      requires Painted(pic, order, cnt) && block[cnt] == Plus(b0, TallySet(Members(order)))
      requires h <= |order| && Holds(qx, qy, order[h..])
      modifies this`mark, this`edge, img, block, qx, qx.Nodes(), qy, qy.Nodes()
      ensures Valid() && order' == Visit(pic, order, Pixel(nx, ny), i)
      ensures Painted(pic, order', cnt) && block[cnt] == Plus(b0, TallySet(Members(order')))
      ensures forall k :: 0 <= k < block.Length && k != cnt ==> block[k] == old(block[k])
      ensures h <= |order'| && Holds(qx, qy, order'[h..])
      ensures
        var u, v := Pixel(nx, ny), Nbr(Pixel(nx, ny), i);
        edge == old(edge) + if tag && Borders(pic, u, v) then [v] else []
      ensures fresh(qx.Nodes() - old(qx.Nodes())) && fresh(qy.Nodes() - old(qy.Nodes()))
    {
      hide Holds, TallySet;
      order' := order;
      var dx, dy := nx + DIR[i].0, ny + DIR[i].1;
      if dx < 0 || dx >= W || dy < 0 || dy >= H || img[dx, dy] != UNLABELLED { return; }
      if (origin[nx, ny] == 255) != (origin[dx, dy] == 255) {
        if tag {
          edge := edge + [Pixel(dx, dy)];
        }
        return;
      }
      order' := order + [Pixel(dx, dy)];
      Paint(dx, dy, cnt, pic, order, b0);
      EnqueuePixel(qx, qy, dx, dy, order[h..]);
      assert order[h..] + [Pixel(dx, dy)] == order'[h..];
    }

    /** The first i neighbours of order[h] have been looked at. */
    ghost predicate Scanning(pic: Picture, seed: Pixel, order: seq<Pixel>, h: nat, i: nat, cnt: nat, b0: Blob)
      reads this, img, origin, block
    {
      && Valid() && Shows(pic) && cnt < block.Length
      && Explored(pic, seed, order) && h < |order| && AllScanned(pic, order, h)
      && i <= 8 && Scanned(pic, order, order[h], i)
      && Painted(pic, order, cnt) && block[cnt] == Plus(b0, TallySet(Members(order)))
    }

    /** One more neighbour. */
    method ProbeNext(nx: int, ny: int, i: nat, cnt: nat, tag: bool, qx: Queue, qy: Queue,
                     ghost pic: Picture, ghost seed: Pixel, ghost order: seq<Pixel>, ghost h: nat, ghost b0: Blob)
      returns (ghost order': seq<Pixel>)
      requires Scanning(pic, seed, order, h, i, cnt, b0) && pic.Valid() && i < pic.dirs && cnt < block.Length
      requires h < |order| && Pixel(nx, ny) == order[h] && Holds(qx, qy, order[h + 1..])
      modifies this`mark, this`edge, img, block, qx, qx.Nodes(), qy, qy.Nodes()
      ensures Scanning(pic, seed, order', h, i + 1, cnt, b0)
      ensures h < |order'| && order'[..h + 1] == order[..h + 1]
      ensures forall k :: 0 <= k < block.Length && k != cnt ==> block[k] == old(block[k])
      ensures Holds(qx, qy, order'[h + 1..])
      ensures edge == old(edge) + if tag && Borders(pic, order[h], Nbr(order[h], i)) then [Nbr(order[h], i)] else []
      ensures fresh(qx.Nodes() - old(qx.Nodes())) && fresh(qy.Nodes() - old(qy.Nodes()))
    {
      hide Holds, TallySet, Image.Painted, Explored, AllScanned, Scanned, Borders, Joins, Path, InRegion;
      VisitKeeps(pic, seed, order, h, i);
      SeedClass(pic, seed, order, order[h]);
      order' := Probe(nx, ny, i, cnt, tag, qx, qy, pic, order, h + 1, b0);
    }

    /** The inner loop: scans all neighbours of order[h]. */
    method ScanNeighbours(nx: int, ny: int, cnt: nat, dirs: nat, tag: bool, qx: Queue, qy: Queue,
                          ghost pic: Picture, ghost seed: Pixel, ghost order: seq<Pixel>, ghost h: nat, ghost b0: Blob)
      returns (ghost order': seq<Pixel>)
      requires Scanning(pic, seed, order, h, 0, cnt, b0) && pic.Valid() && pic.dirs == dirs && cnt < block.Length
      requires h < |order| && Pixel(nx, ny) == order[h] && Holds(qx, qy, order[h + 1..])
      modifies this`mark, this`edge, img, block, qx, qx.Nodes(), qy, qy.Nodes()
      ensures Scanning(pic, seed, order', h, dirs, cnt, b0)
      ensures h < |order'| && order'[..h + 1] == order[..h + 1]
      ensures forall k :: 0 <= k < block.Length && k != cnt ==> block[k] == old(block[k])
      ensures Holds(qx, qy, order'[h + 1..])
      ensures edge == old(edge) + if tag then BorderOf(pic, order[h], pic.dirs) else []
      ensures fresh(qx.Nodes() - old(qx.Nodes())) && fresh(qy.Nodes() - old(qy.Nodes()))
    {
      hide Holds, Image.Scanning, Borders;
      ghost var u := order[h];
      order' := order;
      for i := 0 to dirs
        invariant Scanning(pic, seed, order', h, i, cnt, b0)
        invariant h < |order'| && order'[h] == u && order'[..h + 1] == order[..h + 1]
        invariant forall k :: 0 <= k < block.Length && k != cnt ==> block[k] == old(block[k])
        invariant Holds(qx, qy, order'[h + 1..])
        invariant edge == old(edge) + if tag then BorderOf(pic, u, i) else []
        invariant fresh(qx.Nodes() - old(qx.Nodes())) && fresh(qy.Nodes() - old(qy.Nodes()))
      {
        order' := ProbeNext(nx, ny, i, cnt, tag, qx, qy, pic, seed, order', h, b0);
      }
    }

    /** The fill is under way: order is labelled and tallied, its first h pixels are scanned. */
    ghost predicate Filling(pic: Picture, seed: Pixel, order: seq<Pixel>, h: nat, cnt: nat, b0: Blob)
      reads this, img, origin, block
    {
      && Valid() && Shows(pic) && cnt < block.Length
      && Explored(pic, seed, order) && h <= |order| && AllScanned(pic, order, h)
      && Painted(pic, order, cnt) && block[cnt] == Plus(b0, TallySet(Members(order)))
    }

    /** One turn of the outer loop. */
    method PopAndScan(cnt: nat, dirs: nat, tag: bool, qx: Queue, qy: Queue,
                      ghost pic: Picture, ghost seed: Pixel, ghost order: seq<Pixel>, ghost h: nat, ghost b0: Blob)
      returns (ghost order': seq<Pixel>)
      requires Filling(pic, seed, order, h, cnt, b0) && h < |order| && pic.dirs == dirs && cnt < block.Length
      requires Holds(qx, qy, order[h..])
      modifies this`mark, this`edge, img, block, qx, qx.Nodes(), qy, qy.Nodes()
      ensures Filling(pic, seed, order', h + 1, cnt, b0)
      ensures h < |order'| && order'[..h + 1] == order[..h + 1]
      ensures forall k :: 0 <= k < block.Length && k != cnt ==> block[k] == old(block[k])
      ensures Holds(qx, qy, order'[h + 1..])
      ensures edge == old(edge) + if tag then BorderOf(pic, order[h], pic.dirs) else []
      ensures fresh(qx.Nodes() - old(qx.Nodes())) && fresh(qy.Nodes() - old(qy.Nodes()))
    {
      hide Holds, TallySet, Explored, AllScanned, BorderOf, Image.Painted;
      var nx, ny := DequeuePixel(qx, qy, order[h..]);
      assert order[h..][1..] == order[h + 1..];
      StartScan(pic, order, order[h]);
      order' := ScanNeighbours(nx, ny, cnt, dirs, tag, qx, qy, pic, seed, order, h, b0);
      EndScan(pic, order', h);
    }

    /** What BFS does before its loop. */
    method PlantSeed(x: int, y: int, cnt: nat, ghost pic: Picture) returns (qx: Queue, qy: Queue)
      requires Valid() && InImage(Pixel(x, y)) && cnt < block.Length && pic.Valid() && pic.mark == mark
      modifies `mark, img, block
      ensures Valid() && Painted(pic, [Pixel(x, y)], cnt)
      ensures block[cnt] == Plus(old(block[cnt]), TallySet(Members([Pixel(x, y)])))
      ensures forall k :: 0 <= k < block.Length && k != cnt ==> block[k] == old(block[k])
      ensures fresh(qx) && fresh(qy) && fresh(qx.Nodes()) && fresh(qy.Nodes())
      ensures Holds(qx, qy, [Pixel(x, y)])
    {
      hide Holds, TallySet;
      qx, qy := CreateQueues();
      EnqueuePixel(qx, qy, x, y, []);
      NoTally();
      Paint(x, y, cnt, pic, [], block[cnt]);
      assert [] + [Pixel(x, y)] == [Pixel(x, y)];
    }

    /** The loop of BFS. */
    method Drain(cnt: nat, dirs: nat, tag: bool, qx: Queue, qy: Queue,
                 ghost pic: Picture, ghost seed: Pixel, ghost b0: Blob)
      returns (ghost order: seq<Pixel>)
      requires Filling(pic, seed, [seed], 0, cnt, b0) && pic.Valid() && pic.dirs == dirs && cnt < block.Length
      requires Holds(qx, qy, [seed])
      modifies this`mark, this`edge, img, block, qx, qx.Nodes(), qy, qy.Nodes()
      ensures Filling(pic, seed, order, |order|, cnt, b0)
      ensures edge == old(edge) + if tag then Border(pic, order) else []
      ensures forall k :: 0 <= k < block.Length && k != cnt ==> block[k] == old(block[k])
    {
      hide Holds, TallySet, Explored, AllScanned, Border, BorderOf, Image.Painted, Image.Filling, Members;
      order := [seed];
      ghost var h := 0;
      NoBorder(pic);
      assert order[h..] == order && order[..h] == [] && edge == old(edge) + [];
      while true
        invariant h <= |order| && Filling(pic, seed, order, h, cnt, b0)
        invariant forall k :: 0 <= k < block.Length && k != cnt ==> block[k] == old(block[k])
        invariant Holds(qx, qy, order[h..])
        invariant edge == old(edge) + if tag then Border(pic, order[..h]) else []
        invariant fresh(qx.Nodes() - old(qx.Nodes())) && fresh(qy.Nodes() - old(qy.Nodes()))
        decreases AllPixels() - Members(order[..h])
      {
        var empty := QueuesEmpty(qx, qy, order[h..]);
        if empty { break; }
        FillStep(this, pic, seed, order, h, cnt, b0);
        order := PopAndScan(cnt, dirs, tag, qx, qy, pic, seed, order, h, b0);
        h := h + 1;
      }
      assert order[..h] == order;
    }

    /** The body of BFS, in terms of the order in which it labels. */
    method Fill(x: int, y: int, cnt: nat, dirs: nat, tag: bool, ghost pic: Picture) returns (ghost order: seq<Pixel>)
      requires Valid() && InImage(Pixel(x, y)) && cnt < block.Length
      requires Shows(pic) && pic.dirs == dirs && pic.mark == mark
      modifies this`mark, this`edge, img, block
      ensures Filling(pic, Pixel(x, y), order, |order|, cnt, old(block[cnt]))
      ensures edge == old(edge) + if tag then Border(pic, order) else []
      ensures forall k :: 0 <= k < block.Length && k != cnt ==> block[k] == old(block[k])
    {
      hide Holds, TallySet, Explored, AllScanned, Border, BorderOf, Image.Painted;
      ghost var b0 := block[cnt];
      var qx, qy := PlantSeed(x, y, cnt, pic);
      StartFill(pic, Pixel(x, y));
      order := Drain(cnt, dirs, tag, qx, qy, pic, Pixel(x, y), b0);
    }

    /** Flood fill from (x, y): exactly the region of the seed gets the label cnt and is
        tallied in block cnt; with tag set, the pixels across its edge are appended to edge.
        The order in which the region was labelled is returned for the specification. */
    method BFS(x: int, y: int, cnt: nat, dirs: nat, tag: bool) returns (ghost order: seq<Pixel>)
      requires Valid() && InImage(Pixel(x, y)) && cnt < block.Length && dirs <= 8
      modifies this`mark, this`edge, img, block
      ensures Valid()
      ensures
        var pic, seed := Picture(old(mark), White(), dirs), Pixel(x, y);
        && pic.Valid() && Distinct(order)
        && (forall p :: p in order <==> InRegion(pic, seed, p))
        && (forall p :: InImage(p) ==> img[p.x, p.y] == if p in order then cnt else old(img[p.x, p.y]))
        && edge == old(edge) + if tag then Border(pic, order) else []
      ensures block[cnt] == Plus(old(block[cnt]), TallySet(Members(order)))
      ensures forall k :: 0 <= k < block.Length && k != cnt ==> block[k] == old(block[k])
    {
      hide TallySet, Border, InRegion;
      ghost var pic := Picture(mark, White(), dirs);
      order := Fill(x, y, cnt, dirs, tag, pic);
      FillIsRegion(pic, Pixel(x, y), order);
    }
  }

  ghost function AllPixels(): (s: set<Pixel>)
    ensures forall p :: p in s <==> InImage(p)
  {
    set x, y | 0 <= x < W && 0 <= y < H :: Pixel(x, y)
  }

  ghost function PixelColumn(x: int, h: nat): set<Pixel> {
    set y | 0 <= y < h :: Pixel(x, y)
  }

  lemma {:induction false} ColumnSize(x: int, h: nat)
    ensures |PixelColumn(x, h)| == h
  {
    if h > 0 {
      ColumnSize(x, h - 1);
      assert PixelColumn(x, h) == PixelColumn(x, h - 1) + {Pixel(x, h - 1)};
    }
  }

  ghost function PixelColumns(w: nat): set<Pixel> {
    set x, y | 0 <= x < w && 0 <= y < H :: Pixel(x, y)
  }

  lemma {:induction false} PixelColumnsSize(w: nat)
    ensures |PixelColumns(w)| == w * H
  {
    if w > 0 {
      PixelColumnsSize(w - 1);
      ColumnSize(w - 1, H);
      assert PixelColumns(w) == PixelColumns(w - 1) + PixelColumn(w - 1, H);
      assert PixelColumns(w - 1) !! PixelColumn(w - 1, H);
    }
  }

  lemma AllPixelsSize()
    ensures |AllPixels()| == W * H
  {
    PixelColumnsSize(W);
    assert AllPixels() == PixelColumns(W);
  }

  lemma StartFill(pic: Picture, seed: Pixel)
    requires pic.Valid() && InImage(seed)
    ensures Explored(pic, seed, [seed]) && AllScanned(pic, [seed], 0)
  {
    RegionSeed(pic, seed);
  }

  lemma NoBorder(pic: Picture)
    requires pic.Valid()
    ensures Border(pic, []) == []
  {
  }

  /** Popping order[h]: a pixel not popped before, whose border comes next. */
  lemma FillStep(image: Image, pic: Picture, seed: Pixel, order: seq<Pixel>, h: nat, cnt: nat, b0: Blob)
    requires pic.Valid() && image.Filling(pic, seed, order, h, cnt, b0) && h < |order|
    ensures order[h] in AllPixels() - Members(order[..h])
    ensures Members(order[..h + 1]) == Members(order[..h]) + {order[h]}
    ensures Border(pic, order[..h + 1]) == Border(pic, order[..h]) + BorderOf(pic, order[h], pic.dirs)
  {
    var done := order[..h + 1];
    assert done[..|done| - 1] == order[..h];
    assert order[h] in order;
    assert done == order[..h] + [order[h]];
  }

  lemma FillIsRegion(pic: Picture, seed: Pixel, order: seq<Pixel>)
    requires pic.Valid() && Explored(pic, seed, order) && AllScanned(pic, order, |order|)
    ensures Distinct(order) && forall p :: p in order <==> InRegion(pic, seed, p)
  {
    OrderIsRegion(pic, seed, order);
  }

  lemma StartScan(pic: Picture, order: seq<Pixel>, u: Pixel)
    requires pic.Valid()
    ensures Scanned(pic, order, u, 0) && BorderOf(pic, u, 0) == []
  {
  }

  lemma EndScan(pic: Picture, order: seq<Pixel>, h: nat)
    requires pic.Valid() && h < |order| && AllScanned(pic, order, h) && Scanned(pic, order, order[h], pic.dirs)
    ensures AllScanned(pic, order, h + 1)
  {
  }

  lemma SeedClass(pic: Picture, seed: Pixel, order: seq<Pixel>, u: Pixel)
    requires pic.Valid() && Explored(pic, seed, order) && u in order
    ensures InImage(u) && forall p :: p in order ==> SameClass(pic, u, p)
  {
  }
}
