/** What findPixels (OpenImageActivity.java) does to the output raster and
    to the region list, stated on values: the admission test against the
    fixed seed colour, the visited marks, and the closure property that
    makes a grown region a whole 4-connected component of admissible,
    previously unvisited pixels. */
module Region {
  import opened Color
  import opened Bitmaps

  /** The int[]{pixel, x, y} triple collected by findPixels. */
  datatype Sample = Sample(pixel: Argb, x: int, y: int)
  {
    function Pos(): (int, int) { (x, y) }
  }

  type Cell = (int, int)

  /** A pixel joins a region when its channel distance to the seed is below this. */
  const Threshold := 100

  /** Color.rgb(255, 0, 0): the "claimed" mark findPixels writes. */
  const Mark: Argb := 0xFFFF_0000

  /** Mark is the opaque pure red Color.rgb(255, 0, 0) yields. */
  lemma MarkIsRed()
    ensures Mark == Rgb(255, 0, 0)
  {
  }

  function Abs(v: int): int
  {
    if v < 0 then -v else v
  }

  /** |sRed - red| + |sBlue - blue| + |sGreen - green|. */
  function Distance(seed: Argb, p: Argb): int
  {
    Abs(Red(seed) - Red(p)) + Abs(Blue(seed) - Blue(p)) + Abs(Green(seed) - Green(p))
  }

  /** The admission test: the negation of the early return at the distance check. */
  predicate Admits(seed: Argb, p: Argb)
  {
    Distance(seed, p) < Threshold
  }

  /** The distance is never negative, and it is zero exactly on equal colour channels. */
  lemma DistanceZero(seed: Argb, p: Argb)
    ensures 0 <= Distance(seed, p)
    ensures Distance(seed, p) == 0 <==> Red(seed) == Red(p) && Green(seed) == Green(p) && Blue(seed) == Blue(p)
  {
  }

  /** Equal channels are admitted; an admitted pixel is within the threshold on each channel. */
  lemma AdmitsChannels(seed: Argb, p: Argb)
    ensures Red(seed) == Red(p) && Green(seed) == Green(p) && Blue(seed) == Blue(p) ==> Admits(seed, p)
    ensures Admits(seed, p) ==> Abs(Red(seed) - Red(p)) < Threshold && Abs(Green(seed) - Green(p)) < Threshold
                                && Abs(Blue(seed) - Blue(p)) < Threshold
  {
  }

  /** The seed colour always admits itself. */
  lemma SeedAdmitsItself(seed: Argb)
    ensures Admits(seed, seed)
  {
  }

  /** The coordinates a list of samples covers. */
  function Coords(s: seq<Sample>): set<Cell>
  {
    set e | e in s :: e.Pos()
  }

  /** No coordinate occurs twice. */
  ghost predicate DistinctCoords(s: seq<Sample>)
  {
    forall i, j :: 0 <= i < j < |s| ==> s[i].Pos() != s[j].Pos()
  }

  /** The neighbours findPixels recurses into, in its order: +x, -x, +y, -y. */
  function Neighbour(c: Cell, k: int): Cell
  {
    if k == 0 then (c.0 + 1, c.1)
    else if k == 1 then (c.0 - 1, c.1)
    else if k == 2 then (c.0, c.1 + 1)
    else (c.0, c.1 - 1)
  }

  predicate Adjacent(a: Cell, b: Cell)
  {
    b == Neighbour(a, 0) || b == Neighbour(a, 1) || b == Neighbour(a, 2) || b == Neighbour(a, 3)
  }

  /** Unvisited (still 0) cells of the output raster. */
  ghost function Unvisited(g: Grid, w: nat, h: nat): set<Cell>
    requires IsGrid(g, w, h)
  {
    set i, j | 0 <= i < w && 0 <= j < h && g[i][j] == 0 :: (i, j)
  }

  /** c was unvisited in g0 and is visited in g. */
  ghost predicate NewlyMarked(g0: Grid, g: Grid, w: nat, h: nat, c: Cell)
    requires IsGrid(g0, w, h) && IsGrid(g, w, h)
  {
    InBounds(w, h, c.0, c.1) && g0[c.0][c.1] == 0 && g[c.0][c.1] != 0
  }

  /** From g0 to g, the only change is that unvisited cells receive the mark. */
  ghost predicate MarksGrow(g0: Grid, g: Grid, w: nat, h: nat)
  {
    && IsGrid(g0, w, h) && IsGrid(g, w, h)
    && forall i, j :: 0 <= i < w && 0 <= j < h ==> g[i][j] == g0[i][j] || (g0[i][j] == 0 && g[i][j] == Mark)
  }

  /** The call findPixels(.., c) would return at once: c is outside the
      raster, already visited, or too far from the seed. */
  ghost predicate Settled(img: Grid, g: Grid, w: nat, h: nat, seed: Argb, c: Cell)
    requires IsGrid(img, w, h) && IsGrid(g, w, h)
  {
    !InBounds(w, h, c.0, c.1) || g[c.0][c.1] != 0 || !Admits(seed, img[c.0][c.1])
  }

  /** The first n neighbours of c (in recursion order) are settled. */
  ghost predicate NeighboursSettled(img: Grid, g: Grid, w: nat, h: nat, seed: Argb, c: Cell, n: int)
    requires IsGrid(img, w, h) && IsGrid(g, w, h)
  {
    forall k :: 0 <= k < n ==> Settled(img, g, w, h, seed, Neighbour(c, k))
  }

  /** Every neighbour of every cell marked between g0 and g is settled in g. */
  ghost predicate Closed(img: Grid, g0: Grid, g: Grid, w: nat, h: nat, seed: Argb)
    requires IsGrid(img, w, h) && IsGrid(g0, w, h) && IsGrid(g, w, h)
  {
    forall c :: NewlyMarked(g0, g, w, h, c) ==> NeighboursSettled(img, g, w, h, seed, c, 4)
  }

  /** A sample findPixels may append when the raster is g0: in bounds, the
      input pixel at its coordinate, admitted by the seed, then unvisited. */
  ghost predicate Admitted(img: Grid, g0: Grid, w: nat, h: nat, seed: Argb, s: Sample)
    requires IsGrid(img, w, h) && IsGrid(g0, w, h)
  {
    InBounds(w, h, s.x, s.y) && s.pixel == img[s.x][s.y] && Admits(seed, s.pixel) && g0[s.x][s.y] == 0
  }

  /** The list grew from L0 to L and the raster from g0 to g by marking
      exactly the coordinates appended, each once, each admitted. */
  ghost predicate Extends(img: Grid, w: nat, h: nat, seed: Argb, g0: Grid, L0: seq<Sample>, g: Grid, L: seq<Sample>)
  {
    && IsGrid(img, w, h)
    && MarksGrow(g0, g, w, h)
    && |L0| <= |L| && L[..|L0|] == L0
    && (forall k :: |L0| <= k < |L| ==> Admitted(img, g0, w, h, seed, L[k]))
    && DistinctCoords(L[|L0|..])
    && forall c :: c in Coords(L[|L0|..]) <==> NewlyMarked(g0, g, w, h, c)
  }

  /** Extends, and the newly marked cells are closed: no admissible
      unvisited cell next to them was left out. */
  ghost predicate Grown(img: Grid, w: nat, h: nat, seed: Argb, g0: Grid, L0: seq<Sample>, g: Grid, L: seq<Sample>)
  {
    && Extends(img, w, h, seed, g0, L0, g, L)
    && Closed(img, g0, g, w, h, seed)
  }

  /** Connected append order: each sample appended from index from on lies
      at c or is 4-adjacent to a sample appended before it.  A fill started
      at c appends in such an order (depth-first and breadth-first orders
      both qualify). */
  ghost predicate GrowsFrom(L: seq<Sample>, from: nat, c: Cell)
  {
    forall k :: from <= k < |L| ==> L[k].Pos() == c || JoinsEarlier(L, from, k)
  }

  /** Sample k is 4-adjacent to a sample appended at an index from from to k - 1. */
  ghost predicate JoinsEarlier(L: seq<Sample>, from: nat, k: nat)
    requires k < |L|
  {
    exists j :: from <= j < k && Adjacent(L[j].Pos(), L[k].Pos())
  }

  // ---------------------------------------------------------------------
  // Lemmas about samples and coordinates

  lemma CoordsConcat(a: seq<Sample>, b: seq<Sample>)
    ensures Coords(a + b) == Coords(a) + Coords(b)
  {
    forall c | c in Coords(a + b) ensures c in Coords(a) + Coords(b) {
      var e :| e in a + b && e.Pos() == c;
    }
    forall c | c in Coords(a) + Coords(b) ensures c in Coords(a + b) {
      if c in Coords(a) {
        var e :| e in a && e.Pos() == c;
        assert e in a + b;
      } else {
        var e :| e in b && e.Pos() == c;
        assert e in a + b;
      }
    }
  }

  lemma DistinctConcat(a: seq<Sample>, b: seq<Sample>)
    requires DistinctCoords(a) && DistinctCoords(b) && Coords(a) !! Coords(b)
    ensures DistinctCoords(a + b)
  {
    forall i, j | 0 <= i < j < |a + b| ensures (a + b)[i].Pos() != (a + b)[j].Pos() {
      if j < |a| {
        assert (a + b)[i] == a[i] && (a + b)[j] == a[j];
      } else if i >= |a| {
        assert (a + b)[i] == b[i - |a|] && (a + b)[j] == b[j - |a|];
      } else {
        assert (a + b)[i] == a[i] && a[i] in a && a[i].Pos() in Coords(a);
        assert (a + b)[j] == b[j - |a|] && b[j - |a|] in b && b[j - |a|].Pos() in Coords(b);
      }
    }
  }

  // ---------------------------------------------------------------------
  // Lemmas about marking

  /** Put changes one cell and keeps the shape. */
  lemma PutAt(g: Grid, w: nat, h: nat, x: int, y: int, c: Argb)
    requires IsGrid(g, w, h) && InBounds(w, h, x, y)
    ensures IsGrid(Put(g, x, y, c), w, h)
    ensures forall i, j :: InBounds(w, h, i, j) ==>
      Put(g, x, y, c)[i][j] == if i == x && j == y then c else g[i][j]
  {
  }

  lemma MarksGrowTrans(g0: Grid, g1: Grid, g2: Grid, w: nat, h: nat)
    requires MarksGrow(g0, g1, w, h) && MarksGrow(g1, g2, w, h)
    ensures MarksGrow(g0, g2, w, h)
    ensures forall c :: NewlyMarked(g0, g2, w, h, c) <==> NewlyMarked(g0, g1, w, h, c) || NewlyMarked(g1, g2, w, h, c)
    ensures forall c :: NewlyMarked(g0, g1, w, h, c) ==> !NewlyMarked(g1, g2, w, h, c)
  {
    assert Mark != 0;
    forall c ensures NewlyMarked(g0, g2, w, h, c) <==> NewlyMarked(g0, g1, w, h, c) || NewlyMarked(g1, g2, w, h, c) {
      if InBounds(w, h, c.0, c.1) {
        var i, j := c.0, c.1;
        assert g1[i][j] == g0[i][j] || (g0[i][j] == 0 && g1[i][j] == Mark);
        assert g2[i][j] == g1[i][j] || (g1[i][j] == 0 && g2[i][j] == Mark);
      }
    }
  }

  /** Marking leaves settled cells settled: a visited cell stays visited. */
  lemma SettledGrow(img: Grid, g1: Grid, g2: Grid, w: nat, h: nat, seed: Argb, c: Cell)
    requires IsGrid(img, w, h) && MarksGrow(g1, g2, w, h)
    requires Settled(img, g1, w, h, seed, c)
    ensures Settled(img, g2, w, h, seed, c)
  {
    if InBounds(w, h, c.0, c.1) {
      assert g2[c.0][c.1] == g1[c.0][c.1] || (g1[c.0][c.1] == 0 && g2[c.0][c.1] == Mark);
      assert Mark != 0;
    }
  }

  lemma NeighboursSettledGrow(img: Grid, g1: Grid, g2: Grid, w: nat, h: nat, seed: Argb, c: Cell, n: int)
    requires IsGrid(img, w, h) && MarksGrow(g1, g2, w, h)
    requires NeighboursSettled(img, g1, w, h, seed, c, n)
    ensures NeighboursSettled(img, g2, w, h, seed, c, n)
  {
    forall k | 0 <= k < n ensures Settled(img, g2, w, h, seed, Neighbour(c, k)) {
      SettledGrow(img, g1, g2, w, h, seed, Neighbour(c, k));
    }
  }

  /** A subset of b that misses one of b's elements is strictly smaller. */
  lemma CardStrictSubset(a: set<Cell>, b: set<Cell>, c: Cell)
    requires a <= b - {c} && c in b
    ensures |a| < |b|
  {
    var rest := b - {c};
    assert b == rest + {c};
    assert rest == a + (rest - a);
    assert a * (rest - a) == {};
  }

  /** The measure of findPixels: after claiming an unvisited (x, y) and
      any further marking, fewer cells are unvisited than at entry. */
  lemma FewerUnvisited(g0: Grid, g: Grid, w: nat, h: nat, x: int, y: int)
    requires IsGrid(g0, w, h) && InBounds(w, h, x, y) && g0[x][y] == 0
    requires MarksGrow(Put(g0, x, y, Mark), g, w, h)
    ensures |Unvisited(g, w, h)| < |Unvisited(g0, w, h)|
  {
    var g1 := Put(g0, x, y, Mark);
    PutAt(g0, w, h, x, y, Mark);
    assert Mark != 0;
    var U, U0 := Unvisited(g, w, h), Unvisited(g0, w, h);
    forall c | c in U ensures c in U0 - {(x, y)} {
      var i, j :| 0 <= i < w && 0 <= j < h && g[i][j] == 0 && c == (i, j);
    }
    assert (x, y) in U0;
    CardStrictSubset(U, U0, (x, y));
  }

  // ---------------------------------------------------------------------
  // Composing the steps of findPixels

  /** Nothing happened: the early returns of findPixels. */
  lemma GrownRefl(img: Grid, w: nat, h: nat, seed: Argb, g: Grid, L: seq<Sample>)
    requires IsGrid(img, w, h) && IsGrid(g, w, h)
    ensures Grown(img, w, h, seed, g, L, g, L)
  {
    assert L[|L|..] == [];
  }

  lemma ExtendsTrans(img: Grid, w: nat, h: nat, seed: Argb,
                     g0: Grid, L0: seq<Sample>, g1: Grid, L1: seq<Sample>, g2: Grid, L2: seq<Sample>)
    requires Extends(img, w, h, seed, g0, L0, g1, L1) && Extends(img, w, h, seed, g1, L1, g2, L2)
    ensures Extends(img, w, h, seed, g0, L0, g2, L2)
    ensures forall c :: NewlyMarked(g0, g2, w, h, c) <==> NewlyMarked(g0, g1, w, h, c) || NewlyMarked(g1, g2, w, h, c)
  {
    MarksGrowTrans(g0, g1, g2, w, h);
    assert Mark != 0;
    var a, b := L1[|L0|..], L2[|L1|..];
    assert L2[|L0|..] == a + b by {
      assert L2 == L1 + b;
    }
    assert L2[..|L0|] == L0 by {
      assert L2[..|L0|] == L2[..|L1|][..|L0|];
    }
    forall k | |L0| <= k < |L2| ensures Admitted(img, g0, w, h, seed, L2[k]) {
      if k < |L1| {
        assert L2[k] == L1[k];
      } else {
        var s := L2[k];
        assert Admitted(img, g1, w, h, seed, s);
      }
    }
    assert Coords(a) !! Coords(b) by {
      forall e | e in b ensures e.Pos() !in Coords(a) {
        var k :| 0 <= k < |b| && b[k] == e;
        assert L2[|L1| + k] == e;
        assert Admitted(img, g1, w, h, seed, e);
      }
    }
    DistinctConcat(a, b);
    CoordsConcat(a, b);
  }

  lemma GrownTrans(img: Grid, w: nat, h: nat, seed: Argb,
                   g0: Grid, L0: seq<Sample>, g1: Grid, L1: seq<Sample>, g2: Grid, L2: seq<Sample>)
    requires Grown(img, w, h, seed, g0, L0, g1, L1) && Grown(img, w, h, seed, g1, L1, g2, L2)
    ensures Grown(img, w, h, seed, g0, L0, g2, L2)
  {
    ExtendsTrans(img, w, h, seed, g0, L0, g1, L1, g2, L2);
    forall c | NewlyMarked(g0, g2, w, h, c) ensures NeighboursSettled(img, g2, w, h, seed, c, 4) {
      if NewlyMarked(g0, g1, w, h, c) {
        NeighboursSettledGrow(img, g1, g2, w, h, seed, c, 4);
      }
    }
  }

  /** Claiming (x, y): the mark written and the sample appended. */
  lemma MarkStep(img: Grid, w: nat, h: nat, seed: Argb, g0: Grid, L0: seq<Sample>, x: int, y: int)
    requires IsGrid(img, w, h) && IsGrid(g0, w, h) && InBounds(w, h, x, y)
    requires g0[x][y] == 0 && Admits(seed, img[x][y])
    ensures Extends(img, w, h, seed, g0, L0, Put(g0, x, y, Mark), L0 + [Sample(img[x][y], x, y)])
    ensures forall c :: NewlyMarked(g0, Put(g0, x, y, Mark), w, h, c) <==> c == (x, y)
  {
    var g1, L1 := Put(g0, x, y, Mark), L0 + [Sample(img[x][y], x, y)];
    PutAt(g0, w, h, x, y, Mark);
    assert L1[|L0|..] == [Sample(img[x][y], x, y)];
    assert L1[..|L0|] == L0;
    var e := Sample(img[x][y], x, y);
    assert e in [e] && e.Pos() == (x, y);
    assert Coords([e]) == {(x, y)};
    assert Mark != 0;
  }

  /** After findPixels handled neighbour n of (x, y), the region grown so far
      is still Grown and the first n + 1 neighbours are settled. */
  lemma AfterNeighbour(img: Grid, w: nat, h: nat, seed: Argb, c: Cell, n: int,
                       g1: Grid, L1: seq<Sample>, ga: Grid, La: seq<Sample>, gb: Grid, Lb: seq<Sample>)
    requires 0 <= n < 4
    requires Grown(img, w, h, seed, g1, L1, ga, La) && NeighboursSettled(img, ga, w, h, seed, c, n)
    requires Grown(img, w, h, seed, ga, La, gb, Lb) && Settled(img, gb, w, h, seed, Neighbour(c, n))
    ensures Grown(img, w, h, seed, g1, L1, gb, Lb) && NeighboursSettled(img, gb, w, h, seed, c, n + 1)
  {
    GrownTrans(img, w, h, seed, g1, L1, ga, La, gb, Lb);
    NeighboursSettledGrow(img, ga, gb, w, h, seed, c, n);
  }

  /** The whole of one findPixels call that claims (x, y). */
  lemma GrownAfterMark(img: Grid, w: nat, h: nat, seed: Argb, g0: Grid, L0: seq<Sample>, x: int, y: int,
                       g: Grid, L: seq<Sample>)
    requires IsGrid(img, w, h) && IsGrid(g0, w, h) && InBounds(w, h, x, y)
    requires g0[x][y] == 0 && Admits(seed, img[x][y])
    requires Grown(img, w, h, seed, Put(g0, x, y, Mark), L0 + [Sample(img[x][y], x, y)], g, L)
    requires NeighboursSettled(img, g, w, h, seed, (x, y), 4)
    ensures Grown(img, w, h, seed, g0, L0, g, L)
    ensures |L| > |L0| && L[|L0|] == Sample(img[x][y], x, y)
  {
    var g1, L1 := Put(g0, x, y, Mark), L0 + [Sample(img[x][y], x, y)];
    MarkStep(img, w, h, seed, g0, L0, x, y);
    ExtendsTrans(img, w, h, seed, g0, L0, g1, L1, g, L);
    assert L[|L0|] == L[..|L1|][|L0|];
  }

  /** A grown list keeps the list it grew from as its prefix. */
  lemma GrownPrefix(img: Grid, w: nat, h: nat, seed: Argb, g0: Grid, L0: seq<Sample>, g: Grid, L: seq<Sample>)
    requires Grown(img, w, h, seed, g0, L0, g, L)
    ensures |L0| <= |L| && L[..|L0|] == L0
  {
  }

  /** A recursive call at the neighbour d of c, made after the sample at
      c was appended at index from, keeps the fill growing from c. */
  lemma GrowsFromJoin(La: seq<Sample>, Lb: seq<Sample>, from: nat, c: Cell, d: Cell)
    requires from < |La| <= |Lb| && Lb[..|La|] == La
    requires La[from].Pos() == c && Adjacent(c, d)
    requires GrowsFrom(La, from, c) && GrowsFrom(Lb, |La|, d)
    ensures GrowsFrom(Lb, from, c) && Lb[from] == La[from]
  {
    assert forall k :: 0 <= k < |La| ==> Lb[k] == La[k] by {
      forall k | 0 <= k < |La| ensures Lb[k] == La[k] {
        assert Lb[k] == Lb[..|La|][k];
      }
    }
    forall k | from <= k < |Lb| ensures Lb[k].Pos() == c || JoinsEarlier(Lb, from, k) {
      if k < |La| {
        if La[k].Pos() != c {
          assert JoinsEarlier(La, from, k);
          var j :| from <= j < k && Adjacent(La[j].Pos(), La[k].Pos());
          assert Adjacent(Lb[j].Pos(), Lb[k].Pos());
        }
      } else if Lb[k].Pos() == d {
        assert Adjacent(Lb[from].Pos(), Lb[k].Pos());
      } else {
        assert JoinsEarlier(Lb, |La|, k);
        var j :| |La| <= j < k && Adjacent(Lb[j].Pos(), Lb[k].Pos());
      }
    }
  }

  /** After claiming c and recursing into its four neighbours in turn,
      the samples appended since the claim grow from c. */
  lemma GrowsFromNeighbours(img: Grid, w: nat, h: nat, seed: Argb, c: Cell, L0: seq<Sample>,
                            g1: Grid, L1: seq<Sample>, g2: Grid, L2: seq<Sample>, g3: Grid, L3: seq<Sample>,
                            g4: Grid, L4: seq<Sample>, g5: Grid, L5: seq<Sample>)
    requires |L1| == |L0| + 1 && L1[|L0|].Pos() == c
    requires Grown(img, w, h, seed, g1, L1, g2, L2) && GrowsFrom(L2, |L1|, Neighbour(c, 0))
    requires Grown(img, w, h, seed, g2, L2, g3, L3) && GrowsFrom(L3, |L2|, Neighbour(c, 1))
    requires Grown(img, w, h, seed, g3, L3, g4, L4) && GrowsFrom(L4, |L3|, Neighbour(c, 2))
    requires Grown(img, w, h, seed, g4, L4, g5, L5) && GrowsFrom(L5, |L4|, Neighbour(c, 3))
    ensures GrowsFrom(L5, |L0|, c)
  {
    assert GrowsFrom(L1, |L0|, c);
    GrownPrefix(img, w, h, seed, g1, L1, g2, L2);
    GrowsFromJoin(L1, L2, |L0|, c, Neighbour(c, 0));
    GrownPrefix(img, w, h, seed, g2, L2, g3, L3);
    GrowsFromJoin(L2, L3, |L0|, c, Neighbour(c, 1));
    GrownPrefix(img, w, h, seed, g3, L3, g4, L4);
    GrowsFromJoin(L3, L4, |L0|, c, Neighbour(c, 2));
    GrownPrefix(img, w, h, seed, g4, L4, g5, L5);
    GrowsFromJoin(L4, L5, |L0|, c, Neighbour(c, 3));
  }

  // ---------------------------------------------------------------------
  // Completeness of region growing

  /** A 4-connected path. */
  predicate IsPath(p: seq<Cell>)
  {
    forall k :: 0 <= k < |p| - 1 ==> Adjacent(p[k], p[k + 1])
  }

  /** Every cell of p is in the raster, unvisited in g0 and admitted by the seed. */
  ghost predicate Admissible(img: Grid, g0: Grid, w: nat, h: nat, seed: Argb, p: seq<Cell>)
    requires IsGrid(img, w, h) && IsGrid(g0, w, h)
  {
    forall k :: 0 <= k < |p| ==>
      InBounds(w, h, p[k].0, p[k].1) && g0[p[k].0][p[k].1] == 0 && Admits(seed, img[p[k].0][p[k].1])
  }

  lemma {:induction false} PathPrefixCollected(img: Grid, w: nat, h: nat, seed: Argb,
                                               g0: Grid, L0: seq<Sample>, g: Grid, L: seq<Sample>,
                                               p: seq<Cell>, k: nat)
    requires Grown(img, w, h, seed, g0, L0, g, L)
    requires IsPath(p) && Admissible(img, g0, w, h, seed, p)
    requires |p| > 0 && p[0] in Coords(L[|L0|..])
    requires k < |p|
    ensures p[k] in Coords(L[|L0|..])
  {
    if k > 0 {
      PathPrefixCollected(img, w, h, seed, g0, L0, g, L, p, k - 1);
      var a, b := p[k - 1], p[k];
      assert Adjacent(a, b);
      assert NeighboursSettled(img, g, w, h, seed, a, 4);
      assert Settled(img, g, w, h, seed, b) by {
        assert Settled(img, g, w, h, seed, Neighbour(a, 0));
        assert Settled(img, g, w, h, seed, Neighbour(a, 1));
        assert Settled(img, g, w, h, seed, Neighbour(a, 2));
        assert Settled(img, g, w, h, seed, Neighbour(a, 3));
      }
      assert g[b.0][b.1] != 0;
    }
  }

  /** Region growing is complete: a cell joined to a collected cell by a
      4-connected path of in-bounds, unvisited, admitted cells is
      collected too. */
  lemma ReachableCollected(img: Grid, w: nat, h: nat, seed: Argb,
                           g0: Grid, L0: seq<Sample>, g: Grid, L: seq<Sample>, p: seq<Cell>)
    requires Grown(img, w, h, seed, g0, L0, g, L)
    requires IsPath(p) && Admissible(img, g0, w, h, seed, p)
    requires |p| > 0 && p[0] in Coords(L[|L0|..])
    ensures forall k :: 0 <= k < |p| ==> p[k] in Coords(L[|L0|..])
  {
    forall k | 0 <= k < |p| ensures p[k] in Coords(L[|L0|..]) {
      PathPrefixCollected(img, w, h, seed, g0, L0, g, L, p, k);
    }
  }

  /** Region growing is sound: every collected sample is an in-bounds input
      pixel that the seed admits and that was unvisited before. */
  lemma CollectedAdmitted(img: Grid, w: nat, h: nat, seed: Argb,
                          g0: Grid, L0: seq<Sample>, g: Grid, L: seq<Sample>, s: Sample)
    requires Grown(img, w, h, seed, g0, L0, g, L)
    requires s in L[|L0|..]
    ensures InBounds(w, h, s.x, s.y) && s.pixel == img[s.x][s.y] && g0[s.x][s.y] == 0
    ensures Distance(seed, s.pixel) < Threshold
  {
    var k :| 0 <= k < |L[|L0|..]| && L[|L0|..][k] == s;
    assert L[|L0| + k] == s;
  }

  /** A 4-connected path from a to b all of whose cells lie in S. */
  ghost predicate PathWithin(p: seq<Cell>, a: Cell, b: Cell, S: set<Cell>)
  {
    && |p| > 0 && p[0] == a && p[|p| - 1] == b && IsPath(p)
    && forall i :: 0 <= i < |p| ==> p[i] in S
  }

  /** In a list grown from its sample at index from, every later sample is
      joined to that first one by a 4-connected path through the list. */
  lemma {:induction false} GrowsFromConnected(L: seq<Sample>, from: nat, k: nat)
    requires from <= k < |L| && GrowsFrom(L, from, L[from].Pos())
    ensures exists p :: PathWithin(p, L[from].Pos(), L[k].Pos(), Coords(L[from..]))
    decreases k
  {
    var c, S := L[from].Pos(), Coords(L[from..]);
    assert L[k] == L[from..][k - from];
    if L[k].Pos() == c {
      assert PathWithin([c], c, L[k].Pos(), S);
    } else {
      assert JoinsEarlier(L, from, k);
      var j :| from <= j < k && Adjacent(L[j].Pos(), L[k].Pos());
      GrowsFromConnected(L, from, j);
      var p: seq<Cell> :| PathWithin(p, c, L[j].Pos(), S);
      var q := p + [L[k].Pos()];
      assert forall i :: 0 <= i < |p| ==> q[i] == p[i];
      assert PathWithin(q, c, L[k].Pos(), S);
    }
  }

  /** Every collected cell is reached from the first collected one by a
      path of in-bounds, unvisited, admitted cells. */
  lemma CollectedReachable(img: Grid, w: nat, h: nat, seed: Argb,
                           g0: Grid, L0: seq<Sample>, g: Grid, L: seq<Sample>, c: Cell)
    requires Grown(img, w, h, seed, g0, L0, g, L)
    requires |L0| < |L| && GrowsFrom(L, |L0|, L[|L0|].Pos())
    requires c in Coords(L[|L0|..])
    ensures exists p :: IsPath(p) && |p| > 0 && p[0] == L[|L0|].Pos() && p[|p| - 1] == c && Admissible(img, g0, w, h, seed, p)
  {
    CollectedConnected(L, |L0|, c);
    var p: seq<Cell> :| PathWithin(p, L[|L0|].Pos(), c, Coords(L[|L0|..]));
    CollectedPathAdmissible(img, w, h, seed, g0, L0, g, L, p);
  }

  /** Every cell collected from index from on is joined to the first of them
      by a path through collected cells. */
  lemma CollectedConnected(L: seq<Sample>, from: nat, c: Cell)
    requires from < |L| && GrowsFrom(L, from, L[from].Pos())
    requires c in Coords(L[from..])
    ensures exists p :: PathWithin(p, L[from].Pos(), c, Coords(L[from..]))
  {
    var N := L[from..];
    var s :| s in N && s.Pos() == c;
    var i :| 0 <= i < |N| && N[i] == s;
    assert L[from + i] == s;
    GrowsFromConnected(L, from, from + i);
  }

  /** A path through collected cells is admissible from the start state. */
  lemma CollectedPathAdmissible(img: Grid, w: nat, h: nat, seed: Argb,
                                g0: Grid, L0: seq<Sample>, g: Grid, L: seq<Sample>, p: seq<Cell>)
    requires Grown(img, w, h, seed, g0, L0, g, L) && |L0| <= |L|
    requires forall m :: 0 <= m < |p| ==> p[m] in Coords(L[|L0|..])
    ensures Admissible(img, g0, w, h, seed, p)
  {
    forall m | 0 <= m < |p|
      ensures InBounds(w, h, p[m].0, p[m].1) && g0[p[m].0][p[m].1] == 0 && Admits(seed, img[p[m].0][p[m].1])
    {
      assert p[m] in Coords(L[|L0|..]);
      var t :| t in L[|L0|..] && t.Pos() == p[m];
      CollectedAdmitted(img, w, h, seed, g0, L0, g, L, t);
    }
  }

  /** Region growing collects exactly the 4-connected component of its
      start: a cell is collected if and only if a path of in-bounds,
      unvisited, admitted cells joins it to the first collected cell. */
  lemma CollectedIffReachable(img: Grid, w: nat, h: nat, seed: Argb,
                              g0: Grid, L0: seq<Sample>, g: Grid, L: seq<Sample>, c: Cell)
    requires Grown(img, w, h, seed, g0, L0, g, L)
    requires |L0| < |L| && GrowsFrom(L, |L0|, L[|L0|].Pos())
    ensures c in Coords(L[|L0|..]) <==>
      exists p :: IsPath(p) && |p| > 0 && p[0] == L[|L0|].Pos() && p[|p| - 1] == c && Admissible(img, g0, w, h, seed, p)
  {
    if c in Coords(L[|L0|..]) {
      CollectedReachable(img, w, h, seed, g0, L0, g, L, c);
    }
    assert L[|L0|] == L[|L0|..][0];
    forall p | IsPath(p) && |p| > 0 && p[0] == L[|L0|].Pos() && p[|p| - 1] == c && Admissible(img, g0, w, h, seed, p)
      ensures c in Coords(L[|L0|..])
    {
      ReachableCollected(img, w, h, seed, g0, L0, g, L, p);
    }
  }
}
