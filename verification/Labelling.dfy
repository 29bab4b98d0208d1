/** The seed loops of init in coor_pick.c: labelling the background and the pictures on it. */
module Labelling {
  import opened Regions
  import opened FloodFill
  import opened LinkedQueue
  import Sets

  /** Non-white regions are filled in 4 directions, white ones in 8. */
  function Dirs(white: set<Pixel>, p: Pixel): nat {
    if p in white then 8 else 4
  }

  /** An image without labels. */
  ghost function Blank(white: set<Pixel>, dirs: nat): Picture {
    Picture(map p | p in AllPixels() :: UNLABELLED, white, dirs)
  }

  /** p lies in the connected component of s in its colour class. */
  ghost predicate Component(white: set<Pixel>, s: Pixel, p: Pixel) {
    InRegion(Blank(white, Dirs(white, s)), s, p)
  }

  /** Label k marks exactly the component of s. */
  ghost predicate MarksComponent(mark: map<Pixel, int>, white: set<Pixel>, k: int, s: Pixel)
    requires forall p :: InImage(p) ==> p in mark
  {
    InImage(s) && forall p :: InImage(p) ==> (mark[p] == k <==> Component(white, s, p))
  }

  ghost predicate IsComponent(mark: map<Pixel, int>, white: set<Pixel>, k: int)
    requires forall p :: InImage(p) ==> p in mark
  {
    exists s :: MarksComponent(mark, white, k, s)
  }

  /** Every label in use marks exactly one connected component. */
  ghost predicate LabelsOk(mark: map<Pixel, int>, white: set<Pixel>, cnt: nat) {
    && (forall p :: InImage(p) ==> p in mark && UNLABELLED <= mark[p] < cnt)
    && forall k :: 0 <= k < cnt ==> IsComponent(mark, white, k)
  }

  // ---------- A fill from an unlabelled pixel covers its whole component ----------

  lemma {:induction false} PathClass(pic: Picture, s: Pixel, path: seq<Pixel>)
    requires pic.Valid() && InImage(s) && Path(pic, s, path)
    ensures InImage(path[|path| - 1]) && SameClass(pic, s, path[|path| - 1])
  {
    if |path| > 1 {
      PathClass(pic, s, path[..|path| - 1]);
    }
  }

  lemma ComponentClass(white: set<Pixel>, s: Pixel, p: Pixel)
    requires InImage(s) && Component(white, s, p)
    ensures InImage(p) && (p in white <==> s in white)
  {
    var pic := Blank(white, Dirs(white, s));
    var path :| Path(pic, s, path) && path[|path| - 1] == p;
    PathClass(pic, s, path);
  }

  lemma StepBack(u: Pixel, i: nat, dirs: nat) returns (j: nat)
    requires i < dirs && (dirs == 4 || dirs == 8)
    ensures j < dirs && Nbr(Nbr(u, i), j) == u
  {
    j := if i == 0 then 2 else if i == 1 then 3 else if i == 2 then 0 else if i == 3 then 1
         else if i == 4 then 5 else if i == 5 then 4 else if i == 6 then 7 else 6;
  }

  /** Neighbours in the same class share a component. */
  lemma ComponentSpreads(white: set<Pixel>, s: Pixel, u: Pixel, i: nat)
    requires InImage(s) && Component(white, s, u) && i < Dirs(white, s)
    requires InImage(Nbr(u, i)) && (u in white <==> Nbr(u, i) in white)
    ensures Component(white, s, Nbr(u, i))
  {
    RegionStep(Blank(white, Dirs(white, s)), s, u, i);
  }

  /** A labelled pixel passes its label to its neighbours of the same class. */
  lemma LabelSpreads(mark: map<Pixel, int>, white: set<Pixel>, cnt: nat, u: Pixel, i: nat)
    requires LabelsOk(mark, white, cnt) && InImage(u) && mark[u] != UNLABELLED && i < Dirs(white, u)
    requires InImage(Nbr(u, i)) && (u in white <==> Nbr(u, i) in white)
    ensures mark[Nbr(u, i)] == mark[u]
  {
    assert IsComponent(mark, white, mark[u]);
    var s :| MarksComponent(mark, white, mark[u], s);
    ComponentClass(white, s, u);
    ComponentSpreads(white, s, u, i);
  }

  lemma {:induction false} FillPathIsComponent(pic: Picture, s: Pixel, path: seq<Pixel>)
    requires pic.Valid() && InImage(s) && pic.dirs == Dirs(pic.white, s) && Path(pic, s, path)
    ensures Component(pic.white, s, path[|path| - 1])
  {
    if |path| == 1 {
      RegionSeed(Blank(pic.white, pic.dirs), s);
    } else {
      var u, v := path[|path| - 2], path[|path| - 1];
      FillPathIsComponent(pic, s, path[..|path| - 1]);
      var i :| 0 <= i < pic.dirs && v == Nbr(u, i);
      ComponentSpreads(pic.white, s, u, i);
    }
  }

  lemma {:induction false} ComponentPathIsFilled(pic: Picture, cnt: nat, s: Pixel, path: seq<Pixel>)
    requires pic.Valid() && InImage(s) && pic.dirs == Dirs(pic.white, s)
    requires LabelsOk(pic.mark, pic.white, cnt) && pic.mark[s] == UNLABELLED
    requires Path(Blank(pic.white, pic.dirs), s, path)
    ensures
      var p := path[|path| - 1];
      InImage(p) && pic.mark[p] == UNLABELLED && InRegion(pic, s, p)
  {
    if |path| == 1 {
      RegionSeed(pic, s);
    } else {
      var init, u, v := path[..|path| - 1], path[|path| - 2], path[|path| - 1];
      ComponentPathIsFilled(pic, cnt, s, init);
      PathClass(Blank(pic.white, pic.dirs), s, init);
      var i :| 0 <= i < pic.dirs && v == Nbr(u, i);
      if pic.mark[v] != UNLABELLED {
        var j := StepBack(u, i, pic.dirs);
        LabelSpreads(pic.mark, pic.white, cnt, v, j);
      }
      RegionStep(pic, s, u, i);
    }
  }

  /** From an unlabelled pixel the fill reaches exactly its component, none of it labelled. */
  lemma FillIsComponent(pic: Picture, cnt: nat, s: Pixel, p: Pixel)
    requires pic.Valid() && InImage(s) && pic.dirs == Dirs(pic.white, s)
    requires LabelsOk(pic.mark, pic.white, cnt) && pic.mark[s] == UNLABELLED
    ensures InRegion(pic, s, p) <==> Component(pic.white, s, p)
    ensures InRegion(pic, s, p) ==> InImage(p) && pic.mark[p] == UNLABELLED
  {
    if InRegion(pic, s, p) {
      var path :| Path(pic, s, path) && path[|path| - 1] == p;
      FillPathIsComponent(pic, s, path);
    }
    if Component(pic.white, s, p) {
      var path :| Path(Blank(pic.white, pic.dirs), s, path) && path[|path| - 1] == p;
      ComponentPathIsFilled(pic, cnt, s, path);
    }
  }

  // ---------- Adding a label ----------

  /** mark' is mark with the component of s labelled cnt. */
  ghost predicate Labels(mark: map<Pixel, int>, mark': map<Pixel, int>, white: set<Pixel>, cnt: nat, s: Pixel) {
    && (forall p :: InImage(p) ==> p in mark && p in mark')
    && (forall p :: InImage(p) ==> mark'[p] == if Component(white, s, p) then cnt else mark[p])
    && (forall p :: InImage(p) && Component(white, s, p) ==> mark[p] == UNLABELLED)
  }

  lemma NewLabelOk(mark: map<Pixel, int>, mark': map<Pixel, int>, white: set<Pixel>, cnt: nat, s: Pixel)
    requires LabelsOk(mark, white, cnt) && InImage(s) && Labels(mark, mark', white, cnt, s)
    ensures LabelsOk(mark', white, cnt + 1) && MarksComponent(mark', white, cnt, s)
    ensures forall k, t :: 0 <= k < cnt && MarksComponent(mark, white, k, t) ==> MarksComponent(mark', white, k, t)
  {
    hide Component;
    assert MarksComponent(mark', white, cnt, s);
    forall k | 0 <= k < cnt + 1
      ensures IsComponent(mark', white, k)
    {
      if k < cnt {
        assert IsComponent(mark, white, k);
        var t :| MarksComponent(mark, white, k, t);
        assert MarksComponent(mark', white, k, t);
      }
    }
  }

  ghost function Marked(mark: map<Pixel, int>, k: int): set<Pixel>
    requires forall p :: InImage(p) ==> p in mark
  {
    set p | p in AllPixels() && mark[p] == k
  }

  /** The block entries count and sum the pixels of each label, on top of what they held. */
  ghost predicate Tallied(mark: map<Pixel, int>, block: seq<Blob>, b0: seq<Blob>, cnt: nat)
    requires forall p :: InImage(p) ==> p in mark
  {
    && |block| == |b0| >= cnt
    && (forall k :: 0 <= k < cnt ==> block[k] == Plus(b0[k], TallySet(Marked(mark, k))))
    && (forall k :: cnt <= k < |b0| ==> block[k] == b0[k])
  }

  lemma NewLabelTallied(mark: map<Pixel, int>, mark': map<Pixel, int>, white: set<Pixel>, cnt: nat, s: Pixel,
                        block: seq<Blob>, block': seq<Blob>, b0: seq<Blob>, order: seq<Pixel>)
    requires LabelsOk(mark, white, cnt) && Labels(mark, mark', white, cnt, s) && Tallied(mark, block, b0, cnt)
    requires cnt < |block| == |block'|
    requires forall p :: p in order <==> InImage(p) && Component(white, s, p)
    requires block'[cnt] == Plus(block[cnt], TallySet(Members(order)))
    requires forall k :: 0 <= k < |block| && k != cnt ==> block'[k] == block[k]
    ensures Tallied(mark', block', b0, cnt + 1)
  {
    hide Component, TallySet;
    assert Marked(mark', cnt) == Members(order);
    forall k | 0 <= k < cnt
      ensures block'[k] == Plus(b0[k], TallySet(Marked(mark', k)))
    {
      assert Marked(mark', k) == Marked(mark, k);
    }
  }

  // ---------- Which pixels get a label ----------

  /** p is in the component of one of the starting pixels. */
  ghost predicate Covered(white: set<Pixel>, starts: set<Pixel>, p: Pixel) {
    exists s :: s in starts && Component(white, s, p)
  }

  /** The labelled pixels are those of the components of the starting pixels. */
  ghost predicate Covers(mark: map<Pixel, int>, white: set<Pixel>, starts: set<Pixel>)
    requires forall p :: InImage(p) ==> p in mark
  {
    && (forall s :: s in starts ==> InImage(s) && mark[s] != UNLABELLED)
    && forall p :: InImage(p) && mark[p] != UNLABELLED ==> Covered(white, starts, p)
  }

  lemma {:induction false} LabelFollowsPath(mark: map<Pixel, int>, white: set<Pixel>, cnt: nat, s: Pixel,
                                           path: seq<Pixel>)
    requires LabelsOk(mark, white, cnt) && InImage(s) && mark[s] != UNLABELLED
    requires Path(Blank(white, Dirs(white, s)), s, path)
    ensures InImage(path[|path| - 1]) && mark[path[|path| - 1]] == mark[s]
  {
    PathClass(Blank(white, Dirs(white, s)), s, path);
    if |path| > 1 {
      var init, u, v := path[..|path| - 1], path[|path| - 2], path[|path| - 1];
      LabelFollowsPath(mark, white, cnt, s, init);
      PathClass(Blank(white, Dirs(white, s)), s, init);
      var i :| 0 <= i < Dirs(white, s) && v == Nbr(u, i);
      LabelSpreads(mark, white, cnt, u, i);
    }
  }

  lemma {:induction false} PathReversed(white: set<Pixel>, s: Pixel, p: Pixel, path: seq<Pixel>)
    requires InImage(s) && Path(Blank(white, Dirs(white, s)), s, path) && path[|path| - 1] == p
    ensures Component(white, p, s)
    decreases |path|
  {
    var pic := Blank(white, Dirs(white, s));
    PathClass(pic, s, path);
    if |path| == 1 {
      RegionSeed(pic, s);
    } else {
      var init, u := path[..|path| - 1], path[|path| - 2];
      PathClass(pic, s, init);
      PathReversed(white, s, u, init);
      var back :| Path(pic, u, back) && back[|back| - 1] == s;
      var i :| 0 <= i < pic.dirs && p == Nbr(u, i);
      var j := StepBack(u, i, pic.dirs);
      RegionSeed(pic, p);
      RegionStep(pic, p, p, j);
      PathsJoin(pic, p, u, back);
    }
  }

  /** A path from u continues any path to u. */
  lemma {:induction false} PathsJoin(pic: Picture, p: Pixel, u: Pixel, path: seq<Pixel>)
    requires pic.Valid() && InRegion(pic, p, u) && Path(pic, u, path)
    ensures InRegion(pic, p, path[|path| - 1])
  {
    if |path| > 1 {
      var init, w := path[..|path| - 1], path[|path| - 2];
      PathsJoin(pic, p, u, init);
      var i :| 0 <= i < pic.dirs && path[|path| - 1] == Nbr(w, i);
      RegionStep(pic, p, w, i);
    }
  }

  lemma ComponentIsLabelled(mark: map<Pixel, int>, white: set<Pixel>, cnt: nat, s: Pixel, p: Pixel)
    requires LabelsOk(mark, white, cnt) && InImage(s) && mark[s] != UNLABELLED && Component(white, s, p)
    ensures InImage(p) && mark[p] == mark[s]
  {
    var path :| Path(Blank(white, Dirs(white, s)), s, path) && path[|path| - 1] == p;
    LabelFollowsPath(mark, white, cnt, s, path);
  }

  lemma SameLabelSameComponent(mark: map<Pixel, int>, white: set<Pixel>, cnt: nat, p: Pixel, q: Pixel)
    requires LabelsOk(mark, white, cnt) && InImage(p) && InImage(q) && mark[p] != UNLABELLED
    ensures mark[q] == mark[p] <==> Component(white, p, q)
  {
    if Component(white, p, q) {
      ComponentIsLabelled(mark, white, cnt, p, q);
    }
    if mark[q] == mark[p] {
      assert IsComponent(mark, white, mark[p]);
      var t :| MarksComponent(mark, white, mark[p], t);
      ComponentClass(white, t, p);
      var pic := Blank(white, Dirs(white, t));
      var there :| Path(pic, t, there) && there[|there| - 1] == p;
      var onward :| Path(pic, t, onward) && onward[|onward| - 1] == q;
      PathReversed(white, t, p, there);
      PathsJoin(pic, p, t, onward);
    }
  }

  /** So a pixel is labelled exactly if it lies in the component of a starting pixel, and two
      pixels have the same label exactly if they lie in the same component. */
  lemma CoveredIff(mark: map<Pixel, int>, white: set<Pixel>, cnt: nat, starts: set<Pixel>, p: Pixel)
    requires LabelsOk(mark, white, cnt) && Covers(mark, white, starts) && InImage(p)
    ensures mark[p] != UNLABELLED <==> exists s :: s in starts && Component(white, s, p)
    ensures mark[p] != UNLABELLED ==> forall q :: InImage(q) ==> (mark[q] == mark[p] <==> Component(white, p, q))
  {
    hide Component, IsComponent;
    if s :| s in starts && Component(white, s, p) {
      ComponentIsLabelled(mark, white, cnt, s, p);
    }
    if mark[p] != UNLABELLED {
      forall q | InImage(q)
        ensures mark[q] == mark[p] <==> Component(white, p, q)
      {
        SameLabelSameComponent(mark, white, cnt, p, q);
      }
    }
  }

  lemma CoveredStays(white: set<Pixel>, starts: set<Pixel>, s: Pixel, p: Pixel)
    requires Covered(white, starts, p) || Component(white, s, p)
    ensures Covered(white, starts + {s}, p)
  {
    hide Component;
    if Component(white, s, p) {
      assert s in starts + {s};
    } else {
      var t :| t in starts && Component(white, t, p);
      assert t in starts + {s};
    }
  }

  lemma NewLabelCovers(mark: map<Pixel, int>, mark': map<Pixel, int>, white: set<Pixel>, cnt: nat, s: Pixel,
                       starts: set<Pixel>)
    requires InImage(s) && Labels(mark, mark', white, cnt, s) && Covers(mark, white, starts)
    ensures Covers(mark', white, starts + {s})
  {
    hide Component, Covered;
    ComponentSeed(white, s);
    forall p | InImage(p) && mark'[p] != UNLABELLED
      ensures Covered(white, starts + {s}, p)
    {
      CoveredStays(white, starts, s, p);
    }
  }

  // ---------- There are no more labels than pixels ----------

  ghost function MarkedBelow(mark: map<Pixel, int>, k: int): set<Pixel>
    requires forall p :: InImage(p) ==> p in mark
  {
    set p | p in AllPixels() && 0 <= mark[p] < k
  }

  lemma ComponentSeed(white: set<Pixel>, s: Pixel)
    requires InImage(s)
    ensures Component(white, s, s)
  {
    RegionSeed(Blank(white, Dirs(white, s)), s);
  }

  lemma OnePixelMore(mark: map<Pixel, int>, white: set<Pixel>, k: nat, s: Pixel)
    requires (forall p :: InImage(p) ==> p in mark) && k > 0 && InImage(s) && mark[s] == k - 1
    ensures |MarkedBelow(mark, k)| >= |MarkedBelow(mark, k - 1)| + 1
  {
    Sets.SubsetSize(MarkedBelow(mark, k - 1) + {s}, MarkedBelow(mark, k));
  }

  lemma {:induction false} EveryLabelHasAPixel(mark: map<Pixel, int>, white: set<Pixel>, cnt: nat, k: nat)
    requires LabelsOk(mark, white, cnt) && k <= cnt
    ensures |MarkedBelow(mark, k)| >= k
  {
    hide MarkedBelow, Component;
    if k > 0 {
      EveryLabelHasAPixel(mark, white, cnt, k - 1);
      assert IsComponent(mark, white, k - 1);
      var s :| MarksComponent(mark, white, k - 1, s);
      ComponentSeed(white, s);
      OnePixelMore(mark, white, k, s);
    }
  }

  lemma RoomForLabel(mark: map<Pixel, int>, white: set<Pixel>, cnt: nat, s: Pixel)
    requires LabelsOk(mark, white, cnt) && InImage(s) && mark[s] == UNLABELLED
    ensures cnt < |AllPixels()|
  {
    EveryLabelHasAPixel(mark, white, cnt, cnt);
    Sets.SubsetSize(MarkedBelow(mark, cnt) + {s}, AllPixels());
  }

  // ---------- Components without the table of directions ----------

  /** u and v are next to each other for pixels of u's class: black pixels across a side, white
      ones across a side or a corner. */
  predicate Close(white: set<Pixel>, u: Pixel, v: Pixel) {
    (if u in white then KingSteps(u, v) else SideSteps(u, v)) == 1
  }

  lemma CloseIs(white: set<Pixel>, u: Pixel, v: Pixel)
    ensures Close(white, u, v) <==> exists i: nat :: i < Dirs(white, u) && Nbr(u, i) == v
  {
    hide Nbr, SideSteps, KingSteps;
    NeighboursAre(u, v);
  }

  /** Pixels of a class that are next to each other share their component. */
  lemma CloseShare(white: set<Pixel>, s: Pixel, u: Pixel, v: Pixel)
    requires InImage(s) && Component(white, s, u) && Close(white, u, v) && InImage(v) && (u in white <==> v in white)
    ensures Component(white, s, v)
  {
    hide Nbr, Component, Close;
    CloseIs(white, u, v);
    ComponentClass(white, s, u);
    var i: nat :| i < Dirs(white, u) && Nbr(u, i) == v;
    ComponentSpreads(white, s, u, i);
  }

  /** A pixel with none of its class next to it is a component by itself. */
  lemma {:induction false} LonelyPath(white: set<Pixel>, s: Pixel, path: seq<Pixel>)
    requires InImage(s) && Path(Blank(white, Dirs(white, s)), s, path)
    requires forall v :: InImage(v) && Close(white, s, v) ==> (v in white <==> s !in white)
    ensures path[|path| - 1] == s
  {
    hide Close, Nbr;
    if |path| > 1 {
      var v := path[|path| - 1];
      LonelyPath(white, s, path[..|path| - 1]);
      var i :| 0 <= i < Dirs(white, s) && v == Nbr(s, i);
      CloseIs(white, s, v);
    }
  }

  lemma LonelyPixel(white: set<Pixel>, s: Pixel, p: Pixel)
    requires InImage(s) && Component(white, s, p)
    requires forall v :: InImage(v) && Close(white, s, v) ==> (v in white <==> s !in white)
    ensures p == s
  {
    hide Close;
    var path :| Path(Blank(white, Dirs(white, s)), s, path) && path[|path| - 1] == p;
    LonelyPath(white, s, path);
  }

  /** A black image is one component. */
  lemma {:induction false} BlackIsConnected(s: Pixel, p: Pixel)
    requires InImage(s) && InImage(p)
    ensures Component({}, s, p)
    decreases SideSteps(s, p)
  {
    hide Component;
    if s == p {
      ComponentSeed({}, s);
    } else {
      var q :=
        if p.x > s.x then Pixel(p.x - 1, p.y) else if p.x < s.x then Pixel(p.x + 1, p.y)
        else if p.y > s.y then Pixel(p.x, p.y - 1) else Pixel(p.x, p.y + 1);
      BlackIsConnected(s, q);
      CloseShare({}, s, q, p);
    }
  }

  /** So a labelling of a black image that labels anything gives every pixel the label 0. */
  lemma BlackHasOneLabel(mark: map<Pixel, int>, cnt: nat)
    requires LabelsOk(mark, {}, cnt) && cnt > 0
    ensures cnt == 1 && forall p :: InImage(p) ==> mark[p] == 0
  {
    hide Component;
    assert IsComponent(mark, {}, 0) && IsComponent(mark, {}, cnt - 1);
    var s :| MarksComponent(mark, {}, 0, s);
    var t :| MarksComponent(mark, {}, cnt - 1, t);
    forall p | InImage(p)
      ensures mark[p] == 0 == cnt - 1
    {
      BlackIsConnected(s, p);
      BlackIsConnected(t, p);
    }
    assert mark[s] == 0;
  }

  // ---------- The fringe ----------

  /** d is a white pixel with a labelled background pixel next to it. */
  ghost predicate Fringe(mark: map<Pixel, int>, white: set<Pixel>, d: Pixel)
    requires forall p :: InImage(p) ==> p in mark
  {
    InImage(d) && d in white && exists u, i :: Beside(mark, white, u, i, d)
  }

  ghost predicate Beside(mark: map<Pixel, int>, white: set<Pixel>, u: Pixel, i: int, d: Pixel)
    requires forall p :: InImage(p) ==> p in mark
  {
    InImage(u) && u !in white && mark[u] != UNLABELLED && 0 <= i < 4 && Nbr(u, i) == d
  }

  /** The fringe without the table of directions. */
  lemma FringeIs(mark: map<Pixel, int>, white: set<Pixel>, d: Pixel)
    requires forall p :: InImage(p) ==> p in mark
    ensures Fringe(mark, white, d) <==>
      && InImage(d) && d in white
      && exists u :: InImage(u) && u !in white && mark[u] != UNLABELLED && SideSteps(u, d) == 1
  {
    hide Nbr, SideSteps, KingSteps;
    if Fringe(mark, white, d) {
      var u, i :| Beside(mark, white, u, i, d);
      NeighboursAre(u, d);
    }
    if u :| InImage(u) && u !in white && mark[u] != UNLABELLED && SideSteps(u, d) == 1 {
      NeighboursAre(u, d);
      var i: nat :| i < 4 && Nbr(u, i) == d;
      assert InImage(d) && d in white ==> Beside(mark, white, u, i, d);
    }
  }

  /** edge names exactly the fringe. */
  ghost predicate EdgeOk(mark: map<Pixel, int>, white: set<Pixel>, edge: seq<Pixel>)
    requires forall p :: InImage(p) ==> p in mark
  {
    forall d :: d in edge <==> Fringe(mark, white, d)
  }

  /** Only background is labelled. */
  ghost predicate Dark(mark: map<Pixel, int>, white: set<Pixel>)
    requires forall p :: InImage(p) ==> p in mark
  {
    forall p :: InImage(p) && p in white ==> mark[p] == UNLABELLED
  }

  lemma NewFringe(mark: map<Pixel, int>, mark': map<Pixel, int>, white: set<Pixel>, cnt: nat, s: Pixel, d: Pixel)
    requires InImage(s) && s !in white && Labels(mark, mark', white, cnt, s) && Dark(mark, white)
    ensures
      var pic := Picture(mark, white, 4);
      Fringe(mark', white, d) <==> Fringe(mark, white, d) || exists u :: Component(white, s, u) && Touches(pic, u, d)
  {
    var pic := Picture(mark, white, 4);
    forall u | Component(white, s, u) {
      ComponentClass(white, s, u);
    }
    hide Component;
    if Fringe(mark', white, d) {
      var u, i :| Beside(mark', white, u, i, d);
      if Component(white, s, u) {
        assert Touches(pic, u, d);
      } else {
        assert Beside(mark, white, u, i, d);
      }
    }
    if Fringe(mark, white, d) {
      var u, i :| Beside(mark, white, u, i, d);
      assert Beside(mark', white, u, i, d);
    }
    if u :| Component(white, s, u) && Touches(pic, u, d) {
      var i :| 0 <= i < 4 && Nbr(u, i) == d;
      assert Beside(mark', white, u, i, d);
    }
  }

  // ---------- The loops ----------

  ghost predicate LabellingOk(image: Image, b0: seq<Blob>, cnt: nat)
    reads image, image.img, image.origin, image.block
  {
    image.Valid() && LabelsOk(image.mark, image.White(), cnt) && Tallied(image.mark, image.block[..], b0, cnt)
  }

  /** BFS(x, y, cnt, ...), ++cnt from an unlabelled pixel. */
  method LabelComponent(image: Image, x: int, y: int, cnt: nat, dirs: nat, tag: bool, ghost b0: seq<Blob>)
    requires LabellingOk(image, b0, cnt) && image.block.Length >= |AllPixels()|
    requires InImage(Pixel(x, y)) && image.mark[Pixel(x, y)] == UNLABELLED
    requires dirs == Dirs(image.White(), Pixel(x, y))
    modifies image`mark, image`edge, image.img, image.block
    ensures LabellingOk(image, b0, cnt + 1)
    ensures Labels(old(image.mark), image.mark, image.White(), cnt, Pixel(x, y))
    ensures !tag ==> image.edge == old(image.edge)
    ensures
      var pic, s := Picture(old(image.mark), image.White(), dirs), Pixel(x, y);
      tag ==> forall d :: d in image.edge <==>
        d in old(image.edge) || exists u :: Component(pic.white, s, u) && Touches(pic, u, d)
  {
    hide TallySet, InRegion, Component, Border, Touches;
    ghost var s, mark := Pixel(x, y), image.mark;
    ghost var white, block := image.White(), image.block[..];
    ghost var pic := Picture(mark, white, dirs);
    RoomForLabel(mark, white, cnt, s);
    ghost var order := image.BFS(x, y, cnt, dirs, tag);
    forall p {
      FillIsComponent(pic, cnt, s, p);
    }
    forall d {
      BorderMembers(pic, order, d);
    }
    NewLabelOk(mark, image.mark, white, cnt, s);
    NewLabelTallied(mark, image.mark, white, cnt, s, block, image.block[..], b0, order);
  }

  const MID_X := W / 2
  const MID_Y := H / 2

  /** A starting pixel: near the centre, black, with no white pixel around it. */
  ghost predicate IsStart(origin: array2<Byte>, p: Pixel)
    requires origin.Length0 == W && origin.Length1 == H
    reads origin
  {
    && MID_X - 10 <= p.x < MID_X + 10 && MID_Y - 10 <= p.y < MID_Y + 10
    && origin[p.x, p.y] == 0
    && forall ii, jj :: p.x - 1 <= ii <= p.x + 1 && p.y - 1 <= jj <= p.y + 1 ==> origin[ii, jj] != 255
  }

  /** The starting pixels that the two loops pass before (i, j). */
  ghost function StartsBefore(origin: array2<Byte>, i: int, j: int): set<Pixel>
    requires origin.Length0 == W && origin.Length1 == H
    reads origin
  {
    set p | p in AllPixels() && IsStart(origin, p) && (p.x < i || (p.x == i && p.y < j))
  }

  lemma StartsLayout(origin: array2<Byte>, i: int)
    requires origin.Length0 == W && origin.Length1 == H
    ensures StartsBefore(origin, MID_X - 10, 0) == {}
    ensures StartsBefore(origin, i, MID_Y - 10) == StartsBefore(origin, i, 0)
    ensures StartsBefore(origin, i, MID_Y + 10) == StartsBefore(origin, i + 1, 0)
    ensures StartsBefore(origin, MID_X + 10, 0) == StartsBefore(origin, W, 0)
  {
  }

  lemma NextStart(origin: array2<Byte>, i: int, j: int)
    requires origin.Length0 == W && origin.Length1 == H && InImage(Pixel(i, j))
    ensures StartsBefore(origin, i, j + 1)
         == StartsBefore(origin, i, j) + if IsStart(origin, Pixel(i, j)) then {Pixel(i, j)} else {}
  {
  }

  lemma StartIsBlack(image: Image, p: Pixel)
    requires image.Valid() && InImage(p)
    ensures p in image.White() <==> image.origin[p.x, p.y] == 255
    ensures IsStart(image.origin, p) ==> image.origin[p.x, p.y] == 0
  {
  }

  lemma StartIsClear(image: Image, i: int, j: int, flag: bool)
    requires image.Valid() && MID_X - 10 <= i < MID_X + 10 && MID_Y - 10 <= j < MID_Y + 10
    requires image.origin[i, j] == 0
    requires flag <==> forall ii, jj :: i - 1 <= ii <= i + 1 && j - 1 <= jj <= j + 1 ==> image.origin[ii, jj] != 255
    ensures flag <==> IsStart(image.origin, Pixel(i, j))
  {
  }

  method ClearAround(image: Image, i: int, j: int) returns (flag: bool)
    requires image.Valid() && 0 < i < W - 1 && 0 < j < H - 1
    ensures flag <==> forall ii, jj :: i - 1 <= ii <= i + 1 && j - 1 <= jj <= j + 1 ==> image.origin[ii, jj] != 255
  {
    flag := true;
    for ii := i - 1 to i + 2
      invariant flag <==> forall a, b :: i - 1 <= a < ii && j - 1 <= b <= j + 1 ==> image.origin[a, b] != 255
    {
      for jj := j - 1 to j + 2
        invariant flag <==>
          && (forall a, b :: i - 1 <= a < ii && j - 1 <= b <= j + 1 ==> image.origin[a, b] != 255)
          && (forall b :: j - 1 <= b < jj ==> image.origin[ii, b] != 255)
      {
        if image.origin[ii, jj] == 255 {
          flag := false;
        }
      }
    }
  }

  /** What both searches keep. */
  ghost predicate SearchOk(image: Image, b0: seq<Blob>, cnt: nat, starts: set<Pixel>)
    reads image, image.img, image.origin, image.block
  {
    && LabellingOk(image, b0, cnt)
    && Covers(image.mark, image.White(), starts)
    && EdgeOk(image.mark, image.White(), image.edge)
  }

  lemma NewEdge(mark: map<Pixel, int>, mark': map<Pixel, int>, white: set<Pixel>, cnt: nat, s: Pixel,
                edge: seq<Pixel>, edge': seq<Pixel>)
    requires InImage(s) && s !in white && Labels(mark, mark', white, cnt, s)
    requires Dark(mark, white) && EdgeOk(mark, white, edge)
    requires
      var pic := Picture(mark, white, 4);
      forall d :: d in edge' <==> d in edge || exists u :: Component(white, s, u) && Touches(pic, u, d)
    ensures EdgeOk(mark', white, edge') && Dark(mark', white)
  {
    hide Component, Touches, Fringe;
    forall d {
      NewFringe(mark, mark', white, cnt, s, d);
    }
    forall p | Component(white, s, p) {
      ComponentClass(white, s, p);
    }
  }

  /** One starting pixel. */
  method StartComponent(image: Image, x: int, y: int, cnt: nat, ghost b0: seq<Blob>, ghost starts: set<Pixel>)
    requires SearchOk(image, b0, cnt, starts) && image.block.Length >= |AllPixels()|
    requires Dark(image.mark, image.White())
    requires InImage(Pixel(x, y)) && image.mark[Pixel(x, y)] == UNLABELLED && Pixel(x, y) !in image.White()
    modifies image`mark, image`edge, image.img, image.block
    ensures image.Valid() && SearchOk(image, b0, cnt + 1, starts + {Pixel(x, y)}) && Dark(image.mark, image.White())
  {
    hide Component, Touches, Fringe, TallySet, Tallied, LabelsOk, Labels, EdgeOk, Covers, Dark;
    ghost var s, mark, white := Pixel(x, y), image.mark, image.White();
    ghost var edge := image.edge;
    LabelComponent(image, x, y, cnt, 4, true, b0);
    NewLabelCovers(mark, image.mark, white, cnt, s, starts);
    NewEdge(mark, image.mark, white, cnt, s, edge, image.edge);
  }

  lemma AlreadyCovered(image: Image, b0: seq<Blob>, cnt: nat, starts: set<Pixel>, p: Pixel)
    requires SearchOk(image, b0, cnt, starts) && InImage(p) && image.mark[p] != UNLABELLED
    ensures SearchOk(image, b0, cnt, starts + {p})
  {
    hide Component, Covered, LabelsOk, Tallied, EdgeOk;
    var mark, white := image.mark, image.White();
    forall q | InImage(q) && mark[q] != UNLABELLED
      ensures Covered(white, starts + {p}, q)
    {
      CoveredStays(white, starts, p, q);
    }
  }

  /** The inner body of the search from the centre. */
  method TryStart(image: Image, i: int, j: int, cnt: nat, ghost b0: seq<Blob>, ghost starts: set<Pixel>)
    returns (cnt': nat)
    requires image.Valid() && SearchOk(image, b0, cnt, starts) && image.block.Length >= |AllPixels()|
    requires Dark(image.mark, image.White())
    requires MID_X - 10 <= i < MID_X + 10 && MID_Y - 10 <= j < MID_Y + 10
    modifies image`mark, image`edge, image.img, image.block
    ensures image.Valid() && Dark(image.mark, image.White())
    ensures SearchOk(image, b0, cnt', starts + if IsStart(image.origin, Pixel(i, j)) then {Pixel(i, j)} else {})
  {
    hide SearchOk, Dark, IsStart, Image.White;
    cnt' := cnt;
    StartIsBlack(image, Pixel(i, j));
    assert starts + {} == starts;
    if image.img[i, j] == UNLABELLED && image.origin[i, j] == 0 {
      var flag := ClearAround(image, i, j);
      StartIsClear(image, i, j, flag);
      if flag {
        StartComponent(image, i, j, cnt, b0, starts);
        cnt' := cnt + 1;
      }
    } else if image.img[i, j] != UNLABELLED {
      AlreadyCovered(image, b0, cnt, starts, Pixel(i, j));
    }
  }

  method SearchRow(image: Image, i: int, cnt: nat, ghost b0: seq<Blob>) returns (cnt': nat)
    requires image.Valid() && Dark(image.mark, image.White()) && image.block.Length >= |AllPixels()|
    requires SearchOk(image, b0, cnt, StartsBefore(image.origin, i, MID_Y - 10))
    requires MID_X - 10 <= i < MID_X + 10
    modifies image`mark, image`edge, image.img, image.block
    ensures image.Valid() && Dark(image.mark, image.White())
    ensures SearchOk(image, b0, cnt', StartsBefore(image.origin, i, MID_Y + 10))
  {
    hide SearchOk, Dark, IsStart, StartsBefore;
    cnt' := cnt;
    for j := MID_Y - 10 to MID_Y + 10
      invariant image.Valid() && Dark(image.mark, image.White())
      invariant SearchOk(image, b0, cnt', StartsBefore(image.origin, i, j))
    {
      NextStart(image.origin, i, j);
      cnt' := TryStart(image, i, j, cnt', b0, StartsBefore(image.origin, i, j));
    }
  }

  /** The search from the centre. */
  method SearchBackground(image: Image, ghost b0: seq<Blob>) returns (cnt: nat)
    requires image.Valid() && Dark(image.mark, image.White()) && image.block.Length >= |AllPixels()|
    requires SearchOk(image, b0, 0, {})
    modifies image`mark, image`edge, image.img, image.block
    ensures image.Valid() && Dark(image.mark, image.White())
    ensures SearchOk(image, b0, cnt, StartsBefore(image.origin, W, 0))
  {
    hide SearchOk, Dark, IsStart, StartsBefore, Image.White, AllPixels;
    cnt := 0;
    StartsLayout(image.origin, 0);
    for i := MID_X - 10 to MID_X + 10
      invariant image.Valid() && Dark(image.mark, image.White())
      invariant SearchOk(image, b0, cnt, StartsBefore(image.origin, i, 0))
    {
      StartsLayout(image.origin, i);
      cnt := SearchRow(image, i, cnt, b0);
    }
  }

  /** Labelling white pixels leaves the fringe of the background alone. */
  lemma WhiteLabelKeepsEdge(mark: map<Pixel, int>, mark': map<Pixel, int>, white: set<Pixel>, cnt: nat, s: Pixel,
                            edge: seq<Pixel>)
    requires InImage(s) && s in white && Labels(mark, mark', white, cnt, s) && EdgeOk(mark, white, edge)
    ensures EdgeOk(mark', white, edge)
  {
    forall u | Component(white, s, u) {
      ComponentClass(white, s, u);
    }
    hide Component;
    forall d, u, i
      ensures Beside(mark', white, u, i, d) <==> Beside(mark, white, u, i, d)
    {
    }
    forall d
      ensures Fringe(mark', white, d) <==> Fringe(mark, white, d)
    {
      if Fringe(mark', white, d) {
        var u, i :| Beside(mark', white, u, i, d);
        assert Beside(mark, white, u, i, d);
      }
      if Fringe(mark, white, d) {
        var u, i :| Beside(mark, white, u, i, d);
        assert Beside(mark', white, u, i, d);
      }
    }
  }

  /** One fringe pixel. */
  method StartPicture(image: Image, x: int, y: int, cnt: nat, ghost b0: seq<Blob>, ghost starts: set<Pixel>)
    requires SearchOk(image, b0, cnt, starts) && image.block.Length >= |AllPixels()|
    requires InImage(Pixel(x, y)) && image.mark[Pixel(x, y)] == UNLABELLED && Pixel(x, y) in image.White()
    modifies image`mark, image`edge, image.img, image.block
    ensures SearchOk(image, b0, cnt + 1, starts + {Pixel(x, y)}) && image.edge == old(image.edge)
  {
    hide Component, Touches, Fringe, EdgeOk, TallySet;
    ghost var s, mark, white := Pixel(x, y), image.mark, image.White();
    LabelComponent(image, x, y, cnt, 8, false, b0);
    NewLabelCovers(mark, image.mark, white, cnt, s, starts);
    WhiteLabelKeepsEdge(mark, image.mark, white, cnt, s, image.edge);
  }

  lemma EdgeIsWhite(image: Image, b0: seq<Blob>, cnt: nat, starts: set<Pixel>, k: nat)
    requires SearchOk(image, b0, cnt, starts) && k < |image.edge|
    ensures InImage(image.edge[k]) && image.edge[k] in image.White()
  {
    assert image.edge[k] in image.edge;
  }

  /** The search along the fringe. */
  method SearchPictures(image: Image, cnt0: nat, ghost b0: seq<Blob>, ghost starts: set<Pixel>) returns (cnt: nat)
    requires SearchOk(image, b0, cnt0, starts) && image.block.Length >= |AllPixels()|
    modifies image`mark, image`edge, image.img, image.block
    ensures SearchOk(image, b0, cnt, starts + Members(image.edge)) && image.edge == old(image.edge)
  {
    hide Covers, EdgeOk, LabelsOk, Tallied;
    cnt := cnt0;
    assert starts + Members(image.edge[..0]) == starts;
    for i := 0 to |image.edge|
      invariant image.edge == old(image.edge)
      invariant SearchOk(image, b0, cnt, starts + Members(image.edge[..i]))
    {
      var st := image.edge[i];
      ghost var before := starts + Members(image.edge[..i]);
      EdgeIsWhite(image, b0, cnt, before, i);
      StartIsBlack(image, st);
      assert starts + Members(image.edge[..i + 1]) == before + {st};
      if image.img[st.x, st.y] == UNLABELLED && image.origin[st.x, st.y] == 255 {
        StartPicture(image, st.x, st.y, cnt, b0, before);
        cnt := cnt + 1;
      } else {
        AlreadyCovered(image, b0, cnt, before, st);
      }
    }
    assert image.edge[..|image.edge|] == image.edge;
  }

  method ClearLabels(image: Image)
    requires image.Valid()
    modifies image`mark, image`edge, image.img
    ensures image.Valid() && image.edge == [] && forall p :: InImage(p) ==> image.mark[p] == UNLABELLED
  {
    image.edge := [];
    forall x, y | 0 <= x < W && 0 <= y < H { image.img[x, y] := UNLABELLED; }
    image.mark := map p | p in AllPixels() :: UNLABELLED;
  }

  lemma NothingLabelled(image: Image, b0: seq<Blob>)
    requires image.Valid() && image.edge == [] && image.block[..] == b0
    requires forall p :: InImage(p) ==> image.mark[p] == UNLABELLED
    ensures SearchOk(image, b0, 0, {}) && Dark(image.mark, image.White())
  {
  }

  /** The labelling part of init. Afterwards:
      the labels 0..cnt-1 mark exactly one connected component each; the labelled pixels are
      those of the components of the starting pixels and of the fringe, the white pixels next
      to labelled background; and the block entries have grown by the count and the coordinate
      sums of their label's pixels. They are not cleared first. */
  method LabelImage(image: Image) returns (cnt: nat)
    requires image.Valid() && image.block.Length >= |AllPixels()|
    modifies image`mark, image`edge, image.img, image.block
    ensures image.Valid() && LabelsOk(image.mark, image.White(), cnt)
    ensures Tallied(image.mark, image.block[..], old(image.block[..]), cnt)
    ensures EdgeOk(image.mark, image.White(), image.edge)
    ensures Covers(image.mark, image.White(), StartsBefore(image.origin, W, 0) + Members(image.edge))
  {
    ghost var b0 := image.block[..];
    ClearLabels(image);
    NothingLabelled(image, b0);
    hide Covers, EdgeOk, LabelsOk, Tallied, Dark, StartsBefore;
    cnt := SearchBackground(image, b0);
    cnt := SearchPictures(image, cnt, b0, StartsBefore(image.origin, W, 0));
  }

  /** A block entry is the tally of its label exactly if it was zero before. */
  lemma TallyNeedsClearedBlock(mark: map<Pixel, int>, block: seq<Blob>, b0: seq<Blob>, cnt: nat, k: nat)
    requires (forall p :: InImage(p) ==> p in mark) && Tallied(mark, block, b0, cnt) && k < cnt
    ensures block[k] == TallySet(Marked(mark, k)) <==> b0[k] == Blob(0, 0, 0)
    ensures block[k].num == b0[k].num + |Marked(mark, k)|
  {
    hide TallySet, Marked;
    TallyNum(Marked(mark, k));
    assert block[k] == Plus(b0[k], TallySet(Marked(mark, k)));
  }

  lemma LabelHasPixels(mark: map<Pixel, int>, white: set<Pixel>, cnt: nat, k: nat)
    requires LabelsOk(mark, white, cnt) && k < cnt
    ensures |Marked(mark, k)| > 0
  {
    assert IsComponent(mark, white, k);
    var s :| MarksComponent(mark, white, k, s);
    RegionSeed(Blank(white, Dirs(white, s)), s);
    hide Component;
    assert s in Marked(mark, k);
  }

  lemma StartGetsLabel(mark: map<Pixel, int>, white: set<Pixel>, cnt: nat, starts: set<Pixel>, s: Pixel)
    requires LabelsOk(mark, white, cnt) && Covers(mark, white, starts) && s in starts
    ensures cnt > 0
  {
    assert mark[s] != UNLABELLED;
  }

  /** Which entries a first labelling leaves at zero. */
  lemma UsedEntries(mark: map<Pixel, int>, white: set<Pixel>, block: seq<Blob>, b0: seq<Blob>, cnt: nat)
    requires LabelsOk(mark, white, cnt) && Tallied(mark, block, b0, cnt)
    requires forall k :: 0 <= k < |b0| ==> b0[k] == Blob(0, 0, 0)
    ensures forall k :: 0 <= k < |block| ==> (block[k] == Blob(0, 0, 0) <==> k >= cnt)
  {
    hide TallySet, Marked, IsComponent;
    forall k: nat | k < cnt
      ensures block[k].num > 0
    {
      LabelHasPixels(mark, white, cnt, k);
      TallyNeedsClearedBlock(mark, block, b0, cnt, k);
    }
  }

  method CopyImage(image: Image, next: array2<Byte>)
    requires image.Valid() && next.Length0 == W && next.Length1 == H
    modifies image.origin
    ensures forall x, y :: 0 <= x < W && 0 <= y < H ==> image.origin[x, y] == old(next[x, y])
  {
    forall x, y | 0 <= x < W && 0 <= y < H { image.origin[x, y] := next[x, y]; }
  }

  /** The starting pixels, in numbers: the black ones of the 20 x 20 pixels at the centre with no
      white pixel among them and their eight neighbours. */
  lemma StartsAre(origin: array2<Byte>, x: int, y: int)
    requires origin.Length0 == W && origin.Length1 == H
    ensures Pixel(x, y) in StartsBefore(origin, W, 0) <==>
      && 84 <= x < 104 && 50 <= y < 70 && origin[x, y] == 0
      && forall ii, jj :: x - 1 <= ii <= x + 1 && y - 1 <= jj <= y + 1 ==> origin[ii, jj] != 255
  {
    assert 84 == MID_X - 10 && 104 == MID_X + 10 && 50 == MID_Y - 10 && 70 == MID_Y + 10;
  }

  /** On a labelled image: pixels of a colour class that are next to each other have the same
      label. */
  lemma LabelledTogether(image: Image, cnt: nat, u: Pixel, v: Pixel)
    requires image.Valid() && LabelsOk(image.mark, image.White(), cnt) && InImage(u) && InImage(v)
    requires (image.origin[u.x, u.y] == 255) == (image.origin[v.x, v.y] == 255)
    requires (if image.origin[u.x, u.y] == 255 then KingSteps(u, v) else SideSteps(u, v)) == 1
    ensures image.img[u.x, u.y] != -1 ==> image.img[v.x, v.y] == image.img[u.x, u.y]
  {
    hide LabelsOk, Nbr, SideSteps, KingSteps;
    if image.mark[u] != UNLABELLED {
      CloseIs(image.White(), u, v);
      var i: nat :| i < Dirs(image.White(), u) && Nbr(u, i) == v;
      LabelSpreads(image.mark, image.White(), cnt, u, i);
    }
  }

  /** ... and the edge list names the white pixels that share a side with a labelled pixel that
      is not white. */
  lemma EdgeIs(image: Image, d: Pixel)
    requires image.Valid() && EdgeOk(image.mark, image.White(), image.edge)
    ensures d in image.edge <==>
      && InImage(d) && image.origin[d.x, d.y] == 255
      && exists u :: InImage(u) && image.origin[u.x, u.y] != 255 && image.img[u.x, u.y] != -1 && SideSteps(u, d) == 1
  {
    hide Fringe, SideSteps;
    FringeIs(image.mark, image.White(), d);
  }

  /** A black image has a starting pixel. */
  lemma BlackImageStarts(origin: array2<Byte>)
    requires origin.Length0 == W && origin.Length1 == H
    requires forall x, y :: 0 <= x < W && 0 <= y < H ==> origin[x, y] == 0
    ensures StartsBefore(origin, W, 0) != {}
  {
    var p := Pixel(MID_X, MID_Y);
    assert IsStart(origin, p);
    assert p in StartsBefore(origin, W, 0);
  }

  /** Two calls on two camera images, from cleared blocks: after the second exactly the entries
      that the first did not use hold their label's tally. */
  method LabelTwice(image: Image, next: array2<Byte>) returns (first: nat, second: nat)
    requires image.Valid() && image.block.Length >= |AllPixels()|
    requires forall k :: 0 <= k < image.block.Length ==> image.block[k] == Blob(0, 0, 0)
    requires next.Length0 == W && next.Length1 == H
    modifies image`mark, image`edge, image.img, image.block, image.origin
    ensures image.Valid() && LabelsOk(image.mark, image.White(), second)
    ensures second <= image.block.Length
    ensures forall k: nat :: k < second ==> (image.block[k] == TallySet(Marked(image.mark, k)) <==> k >= first)
    ensures forall x, y :: 0 <= x < W && 0 <= y < H ==> image.origin[x, y] == old(next[x, y])
    ensures old(StartsBefore(image.origin, W, 0)) != {} ==> first > 0
    ensures StartsBefore(image.origin, W, 0) != {} ==> second > 0
  {
    hide LabelsOk, Covers, EdgeOk, StartsBefore, TallySet;
    ghost var b0 := image.block[..];
    first := LabelImage(image);
    assert old(StartsBefore(image.origin, W, 0)) == StartsBefore(image.origin, W, 0);
    UsedEntries(image.mark, image.White(), image.block[..], b0, first);
    if s :| s in StartsBefore(image.origin, W, 0) {
      StartGetsLabel(image.mark, image.White(), first, StartsBefore(image.origin, W, 0) + Members(image.edge), s);
    }
    CopyImage(image, next);
    ghost var b1 := image.block[..];
    second := LabelImage(image);
    if s :| s in StartsBefore(image.origin, W, 0) {
      StartGetsLabel(image.mark, image.White(), second, StartsBefore(image.origin, W, 0) + Members(image.edge), s);
    }
    forall k: nat | k < second
      ensures image.block[k] == TallySet(Marked(image.mark, k)) <==> k >= first
    {
      TallyNeedsClearedBlock(image.mark, image.block[..], b1, second, k);
    }
  }

  /** Two black images in a row: each time every pixel gets the one label 0, and after the second
      call its entry counts every pixel twice. */
  method UnclearedBlock() returns (image: Image, used: nat)
    ensures image.Valid() && used == 1 && image.block.Length > 0
    ensures forall x, y :: 0 <= x < 188 && 0 <= y < 120 ==> image.img[x, y] == 0
    ensures image.block[0].num == 2 * 22560
    ensures image.block[0] != TallySet(Marked(image.mark, 0))
  {
    hide LabelsOk, TallySet, StartsBefore, Marked, EdgeOk, Covers, Tallied;
    image := new Image();
    AllPixelsSize();
    ghost var b0 := image.block[..];
    var first := LabelBlack(image);
    ghost var b1 := image.block[..];
    used := LabelBlack(image);
  }

  /** The labelling of a black image: one label on every pixel, counted once more. */
  method LabelBlack(image: Image) returns (cnt: nat)
    requires image.Valid() && image.block.Length >= |AllPixels()| > 0
    requires forall x, y :: 0 <= x < W && 0 <= y < H ==> image.origin[x, y] == 0
    modifies image`mark, image`edge, image.img, image.block
    ensures image.Valid() && cnt == 1
    ensures forall x, y :: 0 <= x < 188 && 0 <= y < 120 ==> image.img[x, y] == 0
    ensures image.block[0].num == old(image.block[0].num) + 22560
    ensures TallySet(Marked(image.mark, 0)).num == 22560
  {
    hide LabelsOk, TallySet, StartsBefore, Marked, EdgeOk, Covers, Tallied;
    BlackImageStarts(image.origin);
    ghost var b0 := image.block[..];
    cnt := LabelImage(image);
    BlackHasNoWhite(image);
    ghost var s :| s in StartsBefore(image.origin, W, 0);
    StartGetsLabel(image.mark, {}, cnt, StartsBefore(image.origin, W, 0) + Members(image.edge), s);
    BlackHasOneLabel(image.mark, cnt);
    AllMarked(image.mark, image.block[..], b0);
    forall x, y | 0 <= x < W && 0 <= y < H
      ensures image.img[x, y] == 0
    {
      assert image.mark[Pixel(x, y)] == 0;
    }
  }

  lemma BlackHasNoWhite(image: Image)
    requires image.Valid() && forall x, y :: 0 <= x < W && 0 <= y < H ==> image.origin[x, y] == 0
    ensures image.White() == {}
  {
  }

  lemma AllMarked(mark: map<Pixel, int>, block: seq<Blob>, b0: seq<Blob>)
    requires forall p :: InImage(p) ==> p in mark && mark[p] == 0
    requires Tallied(mark, block, b0, 1)
    ensures block[0].num == b0[0].num + 22560
    ensures TallySet(Marked(mark, 0)).num == 22560
  {
    hide TallySet, AllPixels;
    assert Marked(mark, 0) == AllPixels();
    AllPixelsSize();
    TallyNum(AllPixels());
  }
}
