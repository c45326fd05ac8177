/** The two pixel transforms of OpenImageActivity.java: the colour negative
    (imageNegative) and region-growing abstraction (abstractImage with its
    helpers findPixels, averageColor and paintBitmap). */
module OpenImage {
  import opened Color
  import opened Bitmaps
  import opened Region
  import opened Sums

  /** The ArrayList<int[]> that findPixels appends to and paintBitmap drains. */
  class SampleList {
    var items: seq<Sample>

    /** new ArrayList<int[]>(): an empty list. */
    constructor ()
      ensures items == []
    {
      items := [];
    }

    /** size(): the number of triples held. */
    function Size(): (n: nat)
      reads this
      ensures n == |items| && (n == 0 <==> items == [])
    {
      |items|
    }

    /** get(i): the triple at index i, which is one of the list's. */
    function Get(i: nat): (s: Sample)
      reads this
      requires i < |items|
      ensures s == items[i] && s in items
    {
      items[i]
    }

    /** add(s): appends at the end. */
    method Add(s: Sample)
      modifies this
      ensures items == old(items) + [s]
    {
      items := items + [s];
    }

    /** remove(0): takes the first element out and returns it. */
    method RemoveFirst() returns (s: Sample)
      requires items != []
      modifies this
      ensures s == old(items)[0] && items == old(items)[1..]
    {
      s := items[0];
      items := items[1..];
    }
  }

  // -----------------------------------------------------------------------
  // imageNegative

  /** The negative of one pixel: each channel c becomes 255 - c, and
      Color.rgb makes the result opaque. */
  function Negative(p: Argb): (n: Argb)
    ensures Red(n) == 255 - Red(p) && Green(n) == 255 - Green(p) && Blue(n) == 255 - Blue(p)
    ensures Alpha(n) == 0xFF
  {
    Rgb(255 - Red(p), 255 - Green(p), 255 - Blue(p))
  }

  /** Negating twice restores every colour channel; an opaque pixel comes
      back exactly. */
  lemma NegativeTwice(p: Argb)
    ensures Red(Negative(Negative(p))) == Red(p)
    ensures Green(Negative(Negative(p))) == Green(p)
    ensures Blue(Negative(Negative(p))) == Blue(p)
    ensures Alpha(p) == 0xFF ==> Negative(Negative(p)) == p
  {
    if Alpha(p) == 0xFF {
      OpaqueIsRgb(p);
    }
  }

  /** imageNegative: a fresh bitmap of the same size whose every pixel is
      the negative of the input pixel at the same coordinate. */
  method ImageNegative(bitmap: Bitmap) returns (negativeBitmap: Bitmap)
    requires bitmap.Valid()
    ensures fresh(negativeBitmap) && negativeBitmap.Valid()
    ensures negativeBitmap.width == bitmap.width && negativeBitmap.height == bitmap.height
    ensures forall x, y :: InBounds(bitmap.width, bitmap.height, x, y) ==>
      negativeBitmap.cells[x][y] == Negative(bitmap.cells[x][y])
  {
    negativeBitmap := new Bitmap.Create(bitmap.width, bitmap.height);
    for x := 0 to bitmap.width
      invariant negativeBitmap.Valid()
      invariant forall i, j :: InBounds(bitmap.width, bitmap.height, i, j) && i < x ==>
        negativeBitmap.cells[i][j] == Negative(bitmap.cells[i][j])
    {
      for y := 0 to bitmap.height
        invariant negativeBitmap.Valid()
        invariant forall i, j :: InBounds(bitmap.width, bitmap.height, i, j) && (i < x || (i == x && j < y)) ==>
          negativeBitmap.cells[i][j] == Negative(bitmap.cells[i][j])
      {
        var pixel := bitmap.GetPixel(x, y);
        var red := 255 - Red(pixel);
        var green := 255 - Green(pixel);
        var blue := 255 - Blue(pixel);
        negativeBitmap.SetPixel(x, y, Rgb(red, green, blue));
      }
    }
  }

  // -----------------------------------------------------------------------
  // findPixels

  /** findPixels(pixels, iBitmap, oBitmap, seedPixel, x, y): the recursive
      4-connected flood fill.  It returns at once when (x, y) is outside the
      raster, already visited in oBitmap, or too far from the seed;
      otherwise it marks (x, y), appends its sample and recurses into the
      four neighbours.  The result is Grown: the appended samples are
      exactly the cells it marked, each once, each admitted by the seed,
      and no admissible unvisited cell next to them was missed. */
  method FindPixels(pixels: SampleList, iBitmap: Bitmap, oBitmap: Bitmap, seedPixel: Argb, x: int, y: int)
    requires iBitmap.Valid() && oBitmap.Valid() && iBitmap != oBitmap
    requires oBitmap.width == iBitmap.width && oBitmap.height == iBitmap.height
    modifies pixels, oBitmap
    ensures oBitmap.Valid() && iBitmap.cells == old(iBitmap.cells)
    ensures Grown(iBitmap.cells, iBitmap.width, iBitmap.height, seedPixel,
                  old(oBitmap.cells), old(pixels.items), oBitmap.cells, pixels.items)
    ensures Settled(iBitmap.cells, oBitmap.cells, iBitmap.width, iBitmap.height, seedPixel, (x, y))
    ensures Settled(iBitmap.cells, old(oBitmap.cells), iBitmap.width, iBitmap.height, seedPixel, (x, y)) ==>
      oBitmap.cells == old(oBitmap.cells) && pixels.items == old(pixels.items)
    ensures !Settled(iBitmap.cells, old(oBitmap.cells), iBitmap.width, iBitmap.height, seedPixel, (x, y)) ==>
      |pixels.items| > |old(pixels.items)| &&
      pixels.items[|old(pixels.items)|] == Sample(iBitmap.cells[x][y], x, y)
    ensures GrowsFrom(pixels.items, |old(pixels.items)|, (x, y))
    decreases |Unvisited(oBitmap.cells, oBitmap.width, oBitmap.height)|
  {
    ghost var img, w, h := iBitmap.cells, iBitmap.width, iBitmap.height;
    if x < 0 || x >= iBitmap.width || y < 0 || y >= iBitmap.height {
      GrownRefl(img, w, h, seedPixel, oBitmap.cells, pixels.items);
      return;
    }

    var curIPixel := iBitmap.GetPixel(x, y);
    var curOPixel := oBitmap.GetPixel(x, y);

    if curOPixel != 0 {
      GrownRefl(img, w, h, seedPixel, oBitmap.cells, pixels.items);
      return;
    }

    var sRed := Red(seedPixel);
    var sBlue := Blue(seedPixel);
    var sGreen := Green(seedPixel);

    var red := Red(curIPixel);
    var blue := Blue(curIPixel);
    var green := Green(curIPixel);

    if Abs(sRed - red) + Abs(sBlue - blue) + Abs(sGreen - green) >= Threshold {
      GrownRefl(img, w, h, seedPixel, oBitmap.cells, pixels.items);
      return;
    }

    ghost var g0, L0 := oBitmap.cells, pixels.items;
    MarkIsRed();
    oBitmap.SetPixel(x, y, Rgb(255, 0, 0));
    var pixel := Sample(curIPixel, x, y);
    pixels.Add(pixel);
    ghost var g1, L1 := oBitmap.cells, pixels.items;
    PutAt(g0, w, h, x, y, Mark);
    GrownRefl(img, w, h, seedPixel, g1, L1);

    FewerUnvisited(g0, g1, w, h, x, y);
    FindPixels(pixels, iBitmap, oBitmap, seedPixel, x + 1, y);
    ghost var g2, L2 := oBitmap.cells, pixels.items;
    AfterNeighbour(img, w, h, seedPixel, (x, y), 0, g1, L1, g1, L1, g2, L2);

    FewerUnvisited(g0, g2, w, h, x, y);
    FindPixels(pixels, iBitmap, oBitmap, seedPixel, x - 1, y);
    ghost var g3, L3 := oBitmap.cells, pixels.items;
    AfterNeighbour(img, w, h, seedPixel, (x, y), 1, g1, L1, g2, L2, g3, L3);

    FewerUnvisited(g0, g3, w, h, x, y);
    FindPixels(pixels, iBitmap, oBitmap, seedPixel, x, y + 1);
    ghost var g4, L4 := oBitmap.cells, pixels.items;
    AfterNeighbour(img, w, h, seedPixel, (x, y), 2, g1, L1, g3, L3, g4, L4);

    FewerUnvisited(g0, g4, w, h, x, y);
    FindPixels(pixels, iBitmap, oBitmap, seedPixel, x, y - 1);
    ghost var g5, L5 := oBitmap.cells, pixels.items;
    AfterNeighbour(img, w, h, seedPixel, (x, y), 3, g1, L1, g4, L4, g5, L5);

    GrownAfterMark(img, w, h, seedPixel, g0, L0, x, y, g5, L5);
    GrowsFromNeighbours(img, w, h, seedPixel, (x, y), L0, g1, L1, g2, L2, g3, L3, g4, L4, g5, L5);
  }

  // -----------------------------------------------------------------------
  // averageColor

  function Reds(r: seq<Sample>): seq<int>
  {
    seq(|r|, k requires 0 <= k < |r| => Red(r[k].pixel))
  }

  function Greens(r: seq<Sample>): seq<int>
  {
    seq(|r|, k requires 0 <= k < |r| => Green(r[k].pixel))
  }

  function Blues(r: seq<Sample>): seq<int>
  {
    seq(|r|, k requires 0 <= k < |r| => Blue(r[k].pixel))
  }

  /** Channel values lie in 0..255, so their mean does too. */
  lemma LevelsAreChannels(r: seq<Sample>)
    requires |r| > 0
    ensures IsChannel(Mean(Reds(r))) && IsChannel(Mean(Greens(r))) && IsChannel(Mean(Blues(r)))
  {
    MeanBetween(Reds(r), 0, 255);
    MeanBetween(Greens(r), 0, 255);
    MeanBetween(Blues(r), 0, 255);
  }

  /** The colour a region is painted with: the opaque colour whose channels
      are the truncated channel means of the region's input pixels. */
  function MeanColor(r: seq<Sample>): (c: Argb)
    requires |r| > 0
    ensures Red(c) == Mean(Reds(r)) && Green(c) == Mean(Greens(r)) && Blue(c) == Mean(Blues(r))
    ensures c != 0
  {
    LevelsAreChannels(r);
    Rgb(Mean(Reds(r)), Mean(Greens(r)), Mean(Blues(r)))
  }

  /** Each channel of the average lies between the smallest and the largest
      value of that channel in the region. */
  lemma MeanColorWithinRegion(r: seq<Sample>)
    requires |r| > 0
    ensures Min(Reds(r)) <= Red(MeanColor(r)) <= Max(Reds(r))
    ensures Min(Greens(r)) <= Green(MeanColor(r)) <= Max(Greens(r))
    ensures Min(Blues(r)) <= Blue(MeanColor(r)) <= Max(Blues(r))
  {
    MeanWithinRange(Reds(r));
    MeanWithinRange(Greens(r));
    MeanWithinRange(Blues(r));
  }

  /** A region of one colour keeps that colour exactly. */
  lemma UniformRegionKeepsColor(r: seq<Sample>, c: Argb)
    requires |r| > 0 && Alpha(c) == 0xFF
    requires forall k :: 0 <= k < |r| ==> r[k].pixel == c
    ensures MeanColor(r) == c
  {
    MeanBetween(Reds(r), Red(c), Red(c));
    MeanBetween(Greens(r), Green(c), Green(c));
    MeanBetween(Blues(r), Blue(c), Blue(c));
    OpaqueIsRgb(c);
  }

  lemma SumPrefixStep(s: seq<int>, i: nat)
    requires i < |s|
    ensures Sum(s[..i + 1]) == Sum(s[..i]) + s[i]
  {
    assert s[..i + 1] == s[..i] + [s[i]];
    SumAppend(s[..i], [s[i]]);
    assert Sum([s[i]]) == s[i] + Sum([]);
  }

  /** averageColor(pixels): sums the three channels over the list and packs
      the truncated means.  Java divides by pixels.size(), so the list must
      not be empty. */
  method AverageColor(pixels: SampleList) returns (color: Argb)
    requires |pixels.items| > 0
    ensures color == MeanColor(pixels.items)
  {
    ghost var r := pixels.items;
    var totalRed := 0;
    var totalBlue := 0;
    var totalGreen := 0;
    for i := 0 to pixels.Size()
      invariant totalRed == Sum(Reds(r)[..i])
      invariant totalBlue == Sum(Blues(r)[..i])
      invariant totalGreen == Sum(Greens(r)[..i])
    {
      SumPrefixStep(Reds(r), i);
      SumPrefixStep(Blues(r), i);
      SumPrefixStep(Greens(r), i);
      totalRed := totalRed + Red(pixels.Get(i).pixel);
      totalBlue := totalBlue + Blue(pixels.Get(i).pixel);
      totalGreen := totalGreen + Green(pixels.Get(i).pixel);
    }
    assert Reds(r)[..|r|] == Reds(r) && Greens(r)[..|r|] == Greens(r) && Blues(r)[..|r|] == Blues(r);
    LevelsAreChannels(r);
    color := Rgb(totalRed / pixels.Size(), totalGreen / pixels.Size(), totalBlue / pixels.Size());
  }

  // -----------------------------------------------------------------------
  // paintBitmap

  /** g is g0 with every cell of cells set to c and every other cell kept. */
  ghost predicate Painted(g0: Grid, g: Grid, w: nat, h: nat, cells: set<Cell>, c: Argb)
  {
    && IsGrid(g0, w, h) && IsGrid(g, w, h)
    && forall i, j :: InBounds(w, h, i, j) ==> g[i][j] == if (i, j) in cells then c else g0[i][j]
  }

  /** paintBitmap(pixels, oBitmap, averageColor): drains the list from the
      front, writing the colour at each listed coordinate. */
  method PaintBitmap(pixels: SampleList, oBitmap: Bitmap, averageColor: Argb)
    requires oBitmap.Valid()
    requires forall s :: s in pixels.items ==> InBounds(oBitmap.width, oBitmap.height, s.x, s.y)
    modifies pixels, oBitmap
    ensures oBitmap.Valid() && pixels.items == []
    ensures Painted(old(oBitmap.cells), oBitmap.cells, oBitmap.width, oBitmap.height,
                    Coords(old(pixels.items)), averageColor)
  {
    ghost var items0, g0 := pixels.items, oBitmap.cells;
    ghost var w, h := oBitmap.width, oBitmap.height;
    ghost var done := 0;
    while pixels.Size() > 0
      invariant oBitmap.Valid() && 0 <= done <= |items0| && pixels.items == items0[done..]
      invariant Painted(g0, oBitmap.cells, w, h, Coords(items0[..done]), averageColor)
      decreases |pixels.items|
    {
      ghost var g := oBitmap.cells;
      var tempPixel := pixels.RemoveFirst();
      assert tempPixel == items0[done] && tempPixel in items0;
      oBitmap.SetPixel(tempPixel.x, tempPixel.y, averageColor);
      PutAt(g, w, h, tempPixel.x, tempPixel.y, averageColor);
      assert items0[..done + 1] == items0[..done] + [tempPixel];
      CoordsConcat(items0[..done], [tempPixel]);
      assert Coords([tempPixel]) == {(tempPixel.x, tempPixel.y)} by {
        assert tempPixel in [tempPixel];
      }
      done := done + 1;
    }
    assert items0[..done] == items0;
  }

  // -----------------------------------------------------------------------
  // abstractImage

  /** Every cell some region of R holds. */
  ghost function Claimed(R: seq<seq<Sample>>): set<Cell>
    decreases |R|
  {
    if R == [] then {} else Claimed(R[..|R| - 1]) + Coords(R[|R| - 1])
  }

  lemma ClaimedAppend(R: seq<seq<Sample>>, L: seq<Sample>)
    ensures Claimed(R + [L]) == Claimed(R) + Coords(L)
  {
    assert (R + [L])[..|R|] == R;
  }

  /** A cell is claimed exactly when one of the regions holds it. */
  lemma {:induction false} ClaimedMembers(R: seq<seq<Sample>>, c: Cell)
    ensures c in Claimed(R) <==> exists k :: 0 <= k < |R| && c in Coords(R[k])
    decreases |R|
  {
    if R != [] {
      var P := R[..|R| - 1];
      ClaimedMembers(P, c);
      if c in Claimed(R) {
        if c in Claimed(P) {
          var k :| 0 <= k < |P| && c in Coords(P[k]);
          assert R[k] == P[k];
        } else {
          assert c in Coords(R[|R| - 1]);
        }
      }
      if exists k :: 0 <= k < |R| && c in Coords(R[k]) {
        var k :| 0 <= k < |R| && c in Coords(R[k]);
        if k < |P| {
          assert P[k] == R[k];
        }
      }
    }
  }

  /** One region as abstractImage builds it: a non-empty list of distinct
      in-bounds input pixels, each admitted by the first one, the seed,
      in the order a 4-connected fill from the seed appends them. */
  ghost predicate RegionOf(img: Grid, w: nat, h: nat, r: seq<Sample>)
    requires IsGrid(img, w, h)
  {
    && |r| > 0 && DistinctCoords(r) && GrowsFrom(r, 0, r[0].Pos())
    && forall s :: s in r ==>
         InBounds(w, h, s.x, s.y) && s.pixel == img[s.x][s.y] && Admits(r[0].pixel, s.pixel)
  }

  /** Region k is maximal when it was grown: each in-bounds neighbour of
      its cells is either claimed by it or an earlier region, or too far
      from its seed. */
  ghost predicate Bordered(img: Grid, w: nat, h: nat, R: seq<seq<Sample>>, k: nat)
    requires IsGrid(img, w, h) && k < |R| && RegionOf(img, w, h, R[k])
  {
    forall s, n :: s in R[k] && 0 <= n < 4 && InBounds(w, h, Neighbour(s.Pos(), n).0, Neighbour(s.Pos(), n).1) ==>
      Neighbour(s.Pos(), n) in Claimed(R[..k + 1]) ||
      !Admits(R[k][0].pixel, img[Neighbour(s.Pos(), n).0][Neighbour(s.Pos(), n).1])
  }

  /** (i, j) comes before c in abstractImage's scan: x outer, y inner. */
  predicate ScanBefore(i: int, j: int, c: Cell)
  {
    i < c.0 || (i == c.0 && j < c.1)
  }

  /** Region k was seeded at the first cell, in scan order, that no
      earlier region had claimed. */
  ghost predicate SeededFirst(w: nat, h: nat, R: seq<seq<Sample>>, k: nat)
    requires k < |R|
  {
    && |R[k]| > 0
    && forall i, j :: InBounds(w, h, i, j) && ScanBefore(i, j, R[k][0].Pos()) ==> (i, j) in Claimed(R[..k])
  }

  /** The state abstractImage keeps between regions: g is the output
      raster after painting the regions R, which are well formed, pairwise
      disjoint, seeded in scan order and maximal; a cell is non-zero
      exactly when claimed, and each region's cells hold that region's
      average colour. */
  ghost predicate Abstracted(img: Grid, g: Grid, w: nat, h: nat, R: seq<seq<Sample>>)
  {
    && IsGrid(img, w, h) && IsGrid(g, w, h)
    && (forall k :: 0 <= k < |R| ==> RegionOf(img, w, h, R[k]))
    && (forall k, l :: 0 <= k < l < |R| ==> Coords(R[k]) !! Coords(R[l]))
    && (forall i, j :: InBounds(w, h, i, j) ==> (g[i][j] != 0 <==> (i, j) in Claimed(R)))
    && (forall k, s :: 0 <= k < |R| && s in R[k] ==> g[s.x][s.y] == MeanColor(R[k]))
    && (forall k :: 0 <= k < |R| ==> Bordered(img, w, h, R, k))
    && (forall k :: 0 <= k < |R| ==> SeededFirst(w, h, R, k))
  }

  /** Seeding the next region at a cell before which the scan left no
      cell unclaimed keeps every region seeded in scan order. */
  lemma SeedStep(w: nat, h: nat, g: Grid, R: seq<seq<Sample>>, L: seq<Sample>)
    requires IsGrid(g, w, h) && |L| > 0 && ScannedTo(g, w, h, L[0].x, L[0].y)
    requires forall i, j :: InBounds(w, h, i, j) ==> (g[i][j] != 0 <==> (i, j) in Claimed(R))
    requires forall k :: 0 <= k < |R| ==> SeededFirst(w, h, R, k)
    ensures forall k :: 0 <= k < |R + [L]| ==> SeededFirst(w, h, R + [L], k)
  {
    var R' := R + [L];
    forall k | 0 <= k < |R'| ensures SeededFirst(w, h, R', k) {
      if k < |R| {
        assert R'[k] == R[k] && R'[..k] == R[..k];
        assert SeededFirst(w, h, R, k);
      } else {
        assert R'[k] == L && R'[..k] == R;
      }
    }
  }

  /** How one findPixels / paintBitmap round changes the cells: the new
      region's cells were free and now hold its average; the rest keep
      their value. */
  lemma StepCells(img: Grid, w: nat, h: nat, seed: Argb, g: Grid, g1: Grid, L: seq<Sample>, g2: Grid)
    requires Grown(img, w, h, seed, g, [], g1, L)
    requires |L| > 0
    requires Painted(g1, g2, w, h, Coords(L), MeanColor(L))
    ensures forall i, j :: InBounds(w, h, i, j) && (i, j) in Coords(L) ==> g[i][j] == 0 && g2[i][j] == MeanColor(L)
    ensures forall i, j :: InBounds(w, h, i, j) && (i, j) !in Coords(L) ==> g2[i][j] == g[i][j]
    ensures forall s :: s in L ==> Admitted(img, g, w, h, seed, s)
  {
    assert L[0..] == L;
    forall i, j | InBounds(w, h, i, j) && (i, j) !in Coords(L) ensures g2[i][j] == g[i][j] {
      assert !NewlyMarked(g, g1, w, h, (i, j));
    }
    forall s | s in L ensures Admitted(img, g, w, h, seed, s) {
      var k :| 0 <= k < |L| && L[k] == s;
    }
  }

  /** A region grown over unclaimed cells is disjoint from the regions before it. */
  lemma StepDisjoint(img: Grid, w: nat, h: nat, g: Grid, R: seq<seq<Sample>>, L: seq<Sample>)
    requires IsGrid(img, w, h) && IsGrid(g, w, h)
    requires forall k :: 0 <= k < |R| ==> RegionOf(img, w, h, R[k])
    requires forall k, l :: 0 <= k < l < |R| ==> Coords(R[k]) !! Coords(R[l])
    requires forall i, j :: InBounds(w, h, i, j) ==> (g[i][j] != 0 <==> (i, j) in Claimed(R))
    requires forall i, j :: InBounds(w, h, i, j) && (i, j) in Coords(L) ==> g[i][j] == 0
    ensures forall k, l :: 0 <= k < l < |R + [L]| ==> Coords((R + [L])[k]) !! Coords((R + [L])[l])
  {
    var R' := R + [L];
    forall k, l | 0 <= k < l < |R'| ensures Coords(R'[k]) !! Coords(R'[l]) {
      if l == |R| {
        assert R'[k] == R[k] && R'[l] == L;
        forall c | c in Coords(R[k]) ensures c !in Coords(L) {
          ClaimedMembers(R, c);
          var s :| s in R[k] && s.Pos() == c;
        }
      } else {
        assert R'[k] == R[k] && R'[l] == R[l];
      }
    }
  }

  /** Painting the new region's cells in its mean colour leaves earlier regions' colours alone. */
  lemma StepColours(w: nat, h: nat, g: Grid, R: seq<seq<Sample>>, L: seq<Sample>, g2: Grid)
    requires IsGrid(g, w, h) && IsGrid(g2, w, h) && |L| > 0
    requires forall k, s :: 0 <= k < |R| && s in R[k] ==> 0 <= s.x < w && 0 <= s.y < h
    requires forall s :: s in L ==> 0 <= s.x < w && 0 <= s.y < h
    requires forall k, s :: 0 <= k < |R| && s in R[k] ==> g[s.x][s.y] == MeanColor(R[k])
    requires forall i, j :: InBounds(w, h, i, j) && (i, j) in Coords(L) ==> g[i][j] == 0 && g2[i][j] == MeanColor(L)
    requires forall i, j :: InBounds(w, h, i, j) && (i, j) !in Coords(L) ==> g2[i][j] == g[i][j]
    ensures forall k, s :: 0 <= k < |R| && s in R[k] ==> g2[s.x][s.y] == MeanColor(R[k])
    ensures forall s :: s in L ==> g2[s.x][s.y] == MeanColor(L)
  {
    forall k: int, s: Sample | 0 <= k < |R| && s in R[k] ensures g2[s.x][s.y] == MeanColor(R[k]) {
      assert g[s.x][s.y] != 0;
    }
    forall s | s in L ensures g2[s.x][s.y] == MeanColor(L) {
      assert s.Pos() in Coords(L);
    }
  }

  /** The grown region is maximal, and earlier regions stay maximal. */
  lemma StepBordered(img: Grid, w: nat, h: nat, seed: Argb, g: Grid, R: seq<seq<Sample>>, g1: Grid, L: seq<Sample>)
    requires IsGrid(img, w, h) && IsGrid(g, w, h)
    requires forall k :: 0 <= k < |R| ==> RegionOf(img, w, h, R[k])
    requires RegionOf(img, w, h, L)
    requires forall k :: 0 <= k < |R| ==> Bordered(img, w, h, R, k)
    requires forall i, j :: InBounds(w, h, i, j) ==> (g[i][j] != 0 <==> (i, j) in Claimed(R))
    requires Grown(img, w, h, seed, g, [], g1, L)
    requires |L| > 0 && L[0].pixel == seed
    ensures forall k :: 0 <= k < |R + [L]| ==> RegionOf(img, w, h, (R + [L])[k]) && Bordered(img, w, h, R + [L], k)
  {
    var R' := R + [L];
    forall k | 0 <= k < |R'| ensures RegionOf(img, w, h, R'[k]) {
      if k < |R| { assert R'[k] == R[k]; }
    }
    ClaimedAppend(R, L);
    assert L[0..] == L;
    forall k | 0 <= k < |R'| ensures Bordered(img, w, h, R', k) {
      if k < |R| {
        assert R'[k] == R[k];
        assert R'[..k + 1] == R[..k + 1];
        assert Bordered(img, w, h, R, k);
      } else {
        assert R'[k] == L && R'[..k + 1] == R';
        forall s, n | s in L && 0 <= n < 4 && InBounds(w, h, Neighbour(s.Pos(), n).0, Neighbour(s.Pos(), n).1)
          ensures Neighbour(s.Pos(), n) in Claimed(R') || !Admits(seed, img[Neighbour(s.Pos(), n).0][Neighbour(s.Pos(), n).1])
        {
          assert s.Pos() in Coords(L);
          assert NewlyMarked(g, g1, w, h, s.Pos());
          assert Settled(img, g1, w, h, seed, Neighbour(s.Pos(), n));
        }
      }
    }
  }

  /** The region just grown and painted keeps Abstracted. */
  lemma AbstractStep(img: Grid, w: nat, h: nat, seed: Argb, g: Grid, R: seq<seq<Sample>>,
                     g1: Grid, L: seq<Sample>, g2: Grid)
    requires Abstracted(img, g, w, h, R)
    requires Grown(img, w, h, seed, g, [], g1, L)
    requires |L| > 0 && L[0].pixel == seed && GrowsFrom(L, 0, L[0].Pos())
    requires ScannedTo(g, w, h, L[0].x, L[0].y)
    requires Painted(g1, g2, w, h, Coords(L), MeanColor(L))
    ensures Abstracted(img, g2, w, h, R + [L])
    ensures forall i, j :: InBounds(w, h, i, j) && g[i][j] != 0 ==> g2[i][j] != 0
    ensures forall s :: s in L ==> g2[s.x][s.y] != 0
  {
    var R' := R + [L];
    StepCells(img, w, h, seed, g, g1, L, g2);
    ClaimedAppend(R, L);
    assert L[0..] == L;
    assert RegionOf(img, w, h, L);
    forall k | 0 <= k < |R'| ensures RegionOf(img, w, h, R'[k]) {
      if k < |R| { assert R'[k] == R[k]; }
    }
    StepDisjoint(img, w, h, g, R, L);
    StepColours(w, h, g, R, L, g2);
    forall k: int, s: Sample | 0 <= k < |R'| && s in R'[k] ensures g2[s.x][s.y] == MeanColor(R'[k]) {
      if k < |R| { assert R'[k] == R[k]; } else { assert R'[k] == L; }
    }
    StepBordered(img, w, h, seed, g, R, g1, L);
    forall s | s in L ensures g2[s.x][s.y] != 0 {
      assert s.Pos() in Coords(L);
    }
    SeedStep(w, h, g, R, L);
  }

  /** Every cell of p is in bounds, unclaimed by the regions before k, and
      admitted by region k's seed. */
  ghost predicate FreeFor(img: Grid, w: nat, h: nat, R: seq<seq<Sample>>, k: nat, p: seq<Cell>)
    requires IsGrid(img, w, h) && k < |R| && |R[k]| > 0
  {
    forall i :: 0 <= i < |p| ==>
      InBounds(w, h, p[i].0, p[i].1) && p[i] !in Claimed(R[..k]) && Admits(R[k][0].pixel, img[p[i].0][p[i].1])
  }

  /** A cell of region k is claimed by no region before it. */
  lemma NotClaimedEarlier(R: seq<seq<Sample>>, k: nat, c: Cell)
    requires k < |R| && c in Coords(R[k])
    requires forall l :: 0 <= l < k ==> Coords(R[l]) !! Coords(R[k])
    ensures c !in Claimed(R[..k])
  {
    forall l | 0 <= l < k
      ensures c !in Coords(R[..k][l])
    {
      assert R[..k][l] == R[l];
    }
    ClaimedMembers(R[..k], c);
  }

  /** The cells of region k are reached from its seed through free cells. */
  lemma RegionReached(img: Grid, w: nat, h: nat, R: seq<seq<Sample>>, k: nat, c: Cell)
    requires IsGrid(img, w, h) && k < |R| && RegionOf(img, w, h, R[k]) && c in Coords(R[k])
    requires forall l :: 0 <= l < k ==> Coords(R[l]) !! Coords(R[k])
    ensures exists p :: IsPath(p) && |p| > 0 && p[0] == R[k][0].Pos() && p[|p| - 1] == c && FreeFor(img, w, h, R, k, p)
  {
    var r := R[k];
    assert r[0..] == r;
    var s :| s in r && s.Pos() == c;
    var i :| 0 <= i < |r| && r[i] == s;
    GrowsFromConnected(r, 0, i);
    var p: seq<Cell> :| PathWithin(p, r[0].Pos(), c, Coords(r));
    forall m | 0 <= m < |p|
      ensures InBounds(w, h, p[m].0, p[m].1) && p[m] !in Claimed(R[..k]) && Admits(r[0].pixel, img[p[m].0][p[m].1])
    {
      var t :| t in r && t.Pos() == p[m];
      NotClaimedEarlier(R, k, p[m]);
    }
  }

  /** A path of free cells from region k's seed stays inside region k. */
  lemma {:induction false} ReachedInRegion(img: Grid, w: nat, h: nat, R: seq<seq<Sample>>, k: nat,
                                           p: seq<Cell>, m: nat)
    requires IsGrid(img, w, h) && k < |R| && RegionOf(img, w, h, R[k]) && Bordered(img, w, h, R, k)
    requires IsPath(p) && m < |p| && p[0] == R[k][0].Pos() && FreeFor(img, w, h, R, k, p)
    ensures p[m] in Coords(R[k])
  {
    var r := R[k];
    if m == 0 {
      assert r[0] in r;
    } else {
      ReachedInRegion(img, w, h, R, k, p, m - 1);
      assert Adjacent(p[m - 1], p[m]);
      assert InBounds(w, h, p[m].0, p[m].1) && p[m] !in Claimed(R[..k]) && Admits(r[0].pixel, img[p[m].0][p[m].1]);
      BorderStep(img, w, h, R, k, p[m - 1], p[m]);
    }
  }

  /** A free in-bounds neighbour of a cell of region k, admitted by its seed,
      belongs to region k. */
  lemma BorderStep(img: Grid, w: nat, h: nat, R: seq<seq<Sample>>, k: nat, a: Cell, b: Cell)
    requires IsGrid(img, w, h) && k < |R| && RegionOf(img, w, h, R[k]) && Bordered(img, w, h, R, k)
    requires a in Coords(R[k]) && Adjacent(a, b) && InBounds(w, h, b.0, b.1)
    requires b !in Claimed(R[..k]) && Admits(R[k][0].pixel, img[b.0][b.1])
    ensures b in Coords(R[k])
  {
    var r := R[k];
    var s :| s in r && s.Pos() == a;
    var n :| 0 <= n < 4 && b == Neighbour(a, n) by {
      assert b == Neighbour(a, 0) || b == Neighbour(a, 1) || b == Neighbour(a, 2) || b == Neighbour(a, 3);
    }
    assert Neighbour(s.Pos(), n) in Claimed(R[..k + 1]);
    assert R[..k + 1] == R[..k] + [r];
    ClaimedAppend(R[..k], r);
  }

  /** Each region is exactly the 4-connected component of its seed among
      the in-bounds cells no earlier region claimed that the seed admits.
      With SeededFirst this fixes every region, in order, from the input. */
  lemma RegionIsComponent(img: Grid, g: Grid, w: nat, h: nat, R: seq<seq<Sample>>, k: nat, c: Cell)
    requires Abstracted(img, g, w, h, R) && k < |R|
    ensures c in Coords(R[k]) <==>
      exists p :: IsPath(p) && |p| > 0 && p[0] == R[k][0].Pos() && p[|p| - 1] == c && FreeFor(img, w, h, R, k, p)
  {
    assert RegionOf(img, w, h, R[k]) && Bordered(img, w, h, R, k);
    if c in Coords(R[k]) {
      RegionReached(img, w, h, R, k, c);
    }
    forall p | IsPath(p) && |p| > 0 && p[0] == R[k][0].Pos() && p[|p| - 1] == c && FreeFor(img, w, h, R, k, p)
      ensures c in Coords(R[k])
    {
      ReachedInRegion(img, w, h, R, k, p, |p| - 1);
    }
  }

  /** Every in-bounds cell before (x, y) in column-major scan order is non-zero. */
  ghost predicate ScannedTo(g: Grid, w: nat, h: nat, x: int, y: int)
    requires IsGrid(g, w, h)
  {
    forall i, j :: InBounds(w, h, i, j) && ScanBefore(i, j, (x, y)) ==> g[i][j] != 0
  }

  /** A scan step: cells that were non-zero stay so and (x, y) became non-zero. */
  lemma ScanStep(g: Grid, g2: Grid, w: nat, h: nat, x: int, y: int)
    requires IsGrid(g, w, h) && IsGrid(g2, w, h) && ScannedTo(g, w, h, x, y)
    requires forall i, j :: InBounds(w, h, i, j) && g[i][j] != 0 ==> g2[i][j] != 0
    requires InBounds(w, h, x, y) && g2[x][y] != 0
    ensures ScannedTo(g2, w, h, x, y + 1)
  {
  }

  /** A finished column moves the scan to the top of the next one. */
  lemma ScanColumn(g: Grid, w: nat, h: nat, x: int)
    requires IsGrid(g, w, h) && ScannedTo(g, w, h, x, h)
    ensures ScannedTo(g, w, h, x + 1, 0)
  {
  }

  /** Every cell of an abstracted raster that is non-zero lies in a region
      and holds that region's average colour. */
  lemma AbstractedPixel(img: Grid, g: Grid, w: nat, h: nat, R: seq<seq<Sample>>, i: int, j: int)
    requires Abstracted(img, g, w, h, R)
    requires InBounds(w, h, i, j) && g[i][j] != 0
    ensures exists k :: 0 <= k < |R| && (i, j) in Coords(R[k]) && g[i][j] == MeanColor(R[k])
  {
    ClaimedMembers(R, (i, j));
    var k :| 0 <= k < |R| && (i, j) in Coords(R[k]);
    var s :| s in R[k] && s.Pos() == (i, j);
  }

  /** abstractImage: scans the raster column by column; each cell still 0
      in the output seeds a region grown by findPixels from the input
      pixel there, which paintBitmap fills with its averageColor.  The
      output covers every cell; the ghost result lists the regions in the
      order they were grown. */
  method AbstractImage(bitmap: Bitmap) returns (abstractBitmap: Bitmap, ghost regions: seq<seq<Sample>>)
    requires bitmap.Valid()
    ensures fresh(abstractBitmap) && abstractBitmap.Valid()
    ensures abstractBitmap.width == bitmap.width && abstractBitmap.height == bitmap.height
    ensures Abstracted(bitmap.cells, abstractBitmap.cells, bitmap.width, bitmap.height, regions)
    ensures forall i, j :: InBounds(bitmap.width, bitmap.height, i, j) ==>
      (exists k :: 0 <= k < |regions| && (i, j) in Coords(regions[k]) &&
                   abstractBitmap.cells[i][j] == MeanColor(regions[k]))
  {
    ghost var img, w, h := bitmap.cells, bitmap.width, bitmap.height;
    abstractBitmap := new Bitmap.Create(bitmap.width, bitmap.height);
    regions := [];
    for x := 0 to bitmap.width
      invariant abstractBitmap.Valid() && abstractBitmap.width == w && abstractBitmap.height == h
      invariant Abstracted(img, abstractBitmap.cells, w, h, regions)
      invariant ScannedTo(abstractBitmap.cells, w, h, x, 0)
    {
      for y := 0 to bitmap.height
        invariant abstractBitmap.Valid() && abstractBitmap.width == w && abstractBitmap.height == h
        invariant Abstracted(img, abstractBitmap.cells, w, h, regions)
        invariant ScannedTo(abstractBitmap.cells, w, h, x, y)
      {
        ghost var g := abstractBitmap.cells;
        var curPixel := abstractBitmap.GetPixel(x, y);
        if curPixel == 0 {
          var pixels := new SampleList();
          SeedAdmitsItself(bitmap.GetPixel(x, y));
          assert !Settled(img, g, w, h, img[x][y], (x, y));
          FindPixels(pixels, bitmap, abstractBitmap, bitmap.GetPixel(x, y), x, y);
          ghost var g1, L := abstractBitmap.cells, pixels.items;
          assert |L| > 0 && L[0] == Sample(img[x][y], x, y);
          if pixels.Size() > 0 {
            var averageColor := AverageColor(pixels);
            PaintBitmap(pixels, abstractBitmap, averageColor);
            AbstractStep(img, w, h, img[x][y], g, regions, g1, L, abstractBitmap.cells);
            assert L[0] in L;
            regions := regions + [L];
          }
        }
        ScanStep(g, abstractBitmap.cells, w, h, x, y);
      }
      ScanColumn(abstractBitmap.cells, w, h, x);
    }
    forall i, j | InBounds(w, h, i, j)
      ensures (exists k :: 0 <= k < |regions| && (i, j) in Coords(regions[k]) &&
                           abstractBitmap.cells[i][j] == MeanColor(regions[k]))
    {
      AbstractedPixel(img, abstractBitmap.cells, w, h, regions, i, j);
    }
  }
}
