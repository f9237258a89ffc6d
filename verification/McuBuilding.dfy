/** Putting an MCU together block by block (jccoefct.c, jctrans.c): how far the loops have come, and which blocks are real. */
module McuBuilding {
  import opened FrameGeometry
  import opened McuLayout

  /** The places of the blocks before component i, row yi, block xi of the MCU. */
  function Part(g: Grid, r: nat, y: nat, col: nat, i: nat, yi: nat, xi: nat): seq<Place>
    requires i <= |g.comps|
  {
    if i == |g.comps| then McuPlaces(g, r, y, col, i)
    else McuPlaces(g, r, y, col, i) + ComponentPlaces(g, r, y, col, i, yi) + RowPlaces(g, r, y, col, i, yi, xi)
  }

  lemma PartStarts(g: Grid, r: nat, y: nat, col: nat)
    ensures Part(g, r, y, col, 0, 0, 0) == []
  {
  }

  lemma PartBlock(g: Grid, r: nat, y: nat, col: nat, i: nat, yi: nat, xi: nat)
    requires i < |g.comps|
    ensures Part(g, r, y, col, i, yi, xi + 1) == Part(g, r, y, col, i, yi, xi) + [PlaceOf(g, r, y, col, i, yi, xi)]
  {
  }

  lemma PartRow(g: Grid, r: nat, y: nat, col: nat, i: nat, yi: nat)
    requires i < |g.comps|
    ensures Part(g, r, y, col, i, yi, McuWidth(g, i)) == Part(g, r, y, col, i, yi + 1, 0)
  {
    var a, b, c := McuPlaces(g, r, y, col, i), ComponentPlaces(g, r, y, col, i, yi), RowPlaces(g, r, y, col, i, yi, McuWidth(g, i));
    assert a + b + c == a + (b + c) + [];
  }

  lemma PartComponent(g: Grid, r: nat, y: nat, col: nat, i: nat)
    requires i < |g.comps|
    ensures Part(g, r, y, col, i, McuHeight(g, i), 0) == Part(g, r, y, col, i + 1, 0, 0)
  {
  }

  /** C_MAX_BLOCKS_IN_MCU. */
  const MAX_BLOCKS: nat := 10

  /** per_scan_setup refuses scans with larger MCUs. */
  ghost predicate SmallMcu(g: Grid) {
    |McuPlaces(g, 0, 0, 0, |g.comps|)| <= MAX_BLOCKS
  }

  lemma {:induction false} ComponentSize(g: Grid, r: nat, y: nat, col: nat, i: nat, n: nat)
    requires i < |g.comps|
    ensures |ComponentPlaces(g, r, y, col, i, n)| == n * McuWidth(g, i)
  {
    if n > 0 {
      ComponentSize(g, r, y, col, i, n - 1);
    }
  }

  lemma {:induction false} McuSize(g: Grid, r: nat, y: nat, col: nat, n: nat)
    requires n <= |g.comps|
    ensures |McuPlaces(g, r, y, col, n)| == |McuPlaces(g, 0, 0, 0, n)|
  {
    if n > 0 {
      McuSize(g, r, y, col, n - 1);
      ComponentSize(g, r, y, col, n - 1, McuHeight(g, n - 1));
      ComponentSize(g, 0, 0, 0, n - 1, McuHeight(g, n - 1));
    }
  }

  lemma {:induction false} McuGrows(g: Grid, m: nat, n: nat)
    requires m <= n <= |g.comps|
    ensures |McuPlaces(g, 0, 0, 0, m)| <= |McuPlaces(g, 0, 0, 0, n)|
    decreases n
  {
    if m < n {
      McuGrows(g, m, n - 1);
    }
  }

  /** A block that is still to come fits the buffer; there is one before it unless it is the first. */
  lemma PartFits(g: Grid, r: nat, y: nat, col: nat, i: nat, yi: nat, xi: nat)
    requires SmallMcu(g) && i < |g.comps| && yi < McuHeight(g, i) && xi <= McuWidth(g, i)
    ensures |Part(g, r, y, col, i, yi, xi)| + McuWidth(g, i) - xi <= MAX_BLOCKS
    ensures |Part(g, r, y, col, i, yi, xi)| >= yi * McuWidth(g, i) + xi
  {
    ComponentSize(g, r, y, col, i, yi);
    ComponentSize(g, 0, 0, 0, i, McuHeight(g, i));
    McuSize(g, r, y, col, i);
    McuGrows(g, i + 1, |g.comps|);
    Distribute(McuHeight(g, i) - yi - 1, yi + 1, McuWidth(g, i));
    Distribute(yi, 1, McuWidth(g, i));
    assert (McuHeight(g, i) - yi - 1) * McuWidth(g, i) >= 0;
  }

  lemma WholePart(g: Grid, r: nat, y: nat, col: nat)
    requires SmallMcu(g)
    ensures |McuPlaces(g, r, y, col, |g.comps|)| <= MAX_BLOCKS
    ensures Part(g, r, y, col, |g.comps|, 0, 0) == McuPlaces(g, r, y, col, |g.comps|)
  {
    McuSize(g, r, y, col, |g.comps|);
  }

  // ----- which blocks are real -----

  /** A position at which an MCU is built. */
  ghost predicate Building(g: Grid, r: nat, y: nat, col: nat)
    requires ValidGrid(g)
  {
    r < g.total && y < RowsIn(g, r) && col < PerRow(g)
  }

  /** The test of the source for rows of real blocks. */
  predicate RealRow(g: Grid, r: nat, y: nat, i: nat, yi: nat)
    requires i < |g.comps| && g.comps[i].v > 0
  {
    r + 1 < g.total || y + yi < Rest(g.comps[i].height, g.comps[i].v)
  }

  /** How many blocks of a row are real. */
  function BlockCount(g: Grid, col: nat, i: nat): (n: nat)
    requires i < |g.comps| && g.comps[i].h > 0
  {
    if Single(g) then 1 else if col + 1 < g.across then g.comps[i].h else Rest(g.comps[i].width, g.comps[i].h)
  }

  lemma RowIsReal(g: Grid, r: nat, y: nat, col: nat, i: nat, yi: nat)
    requires ValidGrid(g) && i < |g.comps| && Building(g, r, y, col) && yi < McuHeight(g, i)
    ensures g.comps[i].v > 0 && y + yi < g.comps[i].v && (Single(g) || y == 0)
    ensures RealRow(g, r, y, i, yi) <==> r * g.comps[i].v + y + yi < g.comps[i].height
    ensures !RealRow(g, r, y, i, yi) ==> !Single(g) && yi > 0
  {
    hide Rest;
    var c := g.comps[i];
    assert ValidComponent(g, c);
    RestBounds(c.height, c.v);
    if r + 1 < g.total {
      Distribute(g.total - 1 - r - 1, r + 1, c.v);
      Distribute(r, 1, c.v);
      assert (g.total - 1 - r - 1) * c.v >= 0;
    }
  }

  lemma RestBounds(n: nat, unit: nat)
    requires unit > 0
    ensures 1 <= Rest(n, unit) <= unit
  {
  }

  lemma ColumnIsReal(g: Grid, r: nat, y: nat, col: nat, i: nat, xi: nat)
    requires ValidGrid(g) && i < |g.comps| && Building(g, r, y, col) && xi < McuWidth(g, i)
    ensures g.comps[i].h > 0 && 1 <= BlockCount(g, col, i) <= McuWidth(g, i)
    ensures xi < BlockCount(g, col, i) <==> col * McuWidth(g, i) + xi < g.comps[i].width
    ensures Single(g) ==> BlockCount(g, col, i) == 1
  {
    hide Rest;
    var c := g.comps[i];
    assert ValidComponent(g, c);
    RestBounds(c.width, c.h);
    if !Single(g) && col + 1 < g.across {
      Distribute(g.across - 1 - col - 1, col + 1, c.h);
      Distribute(col, 1, c.h);
      assert (g.across - 1 - col - 1) * c.h >= 0;
    }
  }

  /** A real block. */
  lemma RealBlock(g: Grid, img: seq<Plane>, r: nat, y: nat, col: nat, i: nat, yi: nat, xi: nat)
    requires ValidGrid(g) && Planes(g, img) && i < |g.comps| && Building(g, r, y, col) && yi < McuHeight(g, i) && xi < McuWidth(g, i)
    requires g.comps[i].v > 0 && g.comps[i].h > 0 && RealRow(g, r, y, i, yi) && xi < BlockCount(g, col, i)
    ensures var p := PlaceOf(g, r, y, col, i, yi, xi);
      p.row < |img[i]| && p.col < |img[i][p.row]| && BlockAt(g, img, p) == img[i][p.row][p.col]
  {
    hide Rest;
    RowIsReal(g, r, y, col, i, yi);
    ColumnIsReal(g, r, y, col, i, xi);
    assert Covers(g.comps[i], img[i]);
  }

  /** A dummy block has the DC of the block before it in the MCU. */
  lemma DummyBlock(g: Grid, img: seq<Plane>, r: nat, y: nat, col: nat, i: nat, yi: nat, xi: nat)
    requires ValidGrid(g) && Planes(g, img) && i < |g.comps| && Building(g, r, y, col) && yi < McuHeight(g, i) && xi < McuWidth(g, i)
    requires g.comps[i].v > 0 && g.comps[i].h > 0 && !(RealRow(g, r, y, i, yi) && xi < BlockCount(g, col, i))
    ensures var before := Part(g, r, y, col, i, yi, xi);
      |before| > 0 && BlockAt(g, img, PlaceOf(g, r, y, col, i, yi, xi)) == Dummy(BlockAt(g, img, before[|before| - 1])[0])
  {
    hide *;
    ComponentIs(g, img, i);
    if xi > 0 {
      DummyBehind(g, img, r, y, col, i, yi, xi);
    } else {
      DummyBelow(g, img, r, y, col, i, yi);
    }
  }

  lemma ComponentIs(g: Grid, img: seq<Plane>, i: nat)
    requires ValidGrid(g) && Planes(g, img) && i < |g.comps|
    ensures |img| == |g.comps| && Covers(g.comps[i], img[i]) && ValidComponent(g, g.comps[i])
    ensures g.comps[i].v > 0 && g.comps[i].h > 0 && g.comps[i].width > 0 && g.comps[i].height > 0
  {
    hide Rest, Covers;
    assert ValidComponent(g, g.comps[i]);
  }

  lemma DummyBehind(g: Grid, img: seq<Plane>, r: nat, y: nat, col: nat, i: nat, yi: nat, xi: nat)
    requires ValidGrid(g) && Planes(g, img) && i < |g.comps| && Building(g, r, y, col) && yi < McuHeight(g, i) && 0 < xi < McuWidth(g, i)
    requires g.comps[i].v > 0 && g.comps[i].h > 0 && !(RealRow(g, r, y, i, yi) && xi < BlockCount(g, col, i))
    ensures var before := Part(g, r, y, col, i, yi, xi);
      |before| > 0 && BlockAt(g, img, PlaceOf(g, r, y, col, i, yi, xi)) == Dummy(BlockAt(g, img, before[|before| - 1])[0])
  {
    hide Rest, Padded, Part, Covers, ValidComponent, Planes, ValidGrid, Building, BlockCount, RealRow;
    ComponentIs(g, img, i);
    RowIsReal(g, r, y, col, i, yi);
    ColumnIsReal(g, r, y, col, i, xi);
    PartBlock(g, r, y, col, i, yi, xi - 1);
    DummyInRow(g.comps[i], img[i], r * g.comps[i].v + y + yi, col, xi);
  }

  lemma DummyBelow(g: Grid, img: seq<Plane>, r: nat, y: nat, col: nat, i: nat, yi: nat)
    requires ValidGrid(g) && Planes(g, img) && i < |g.comps| && Building(g, r, y, col) && yi < McuHeight(g, i) && 0 < McuWidth(g, i)
    requires g.comps[i].v > 0 && g.comps[i].h > 0 && !(RealRow(g, r, y, i, yi) && 0 < BlockCount(g, col, i))
    ensures var before := Part(g, r, y, col, i, yi, 0);
      |before| > 0 && BlockAt(g, img, PlaceOf(g, r, y, col, i, yi, 0)) == Dummy(BlockAt(g, img, before[|before| - 1])[0])
  {
    hide Rest, Padded, Part, Covers, ValidComponent, Planes, ValidGrid, Building, BlockCount, RealRow;
    ComponentIs(g, img, i);
    RowIsReal(g, r, y, col, i, yi);
    ColumnIsReal(g, r, y, col, i, 0);
    PartRow(g, r, y, col, i, yi - 1);
    PartBlock(g, r, y, col, i, yi - 1, McuWidth(g, i) - 1);
    DummyFirst(g.comps[i], img[i], r * g.comps[i].v + y + yi, col);
  }

  // ----- the buffer -----

  /** The buffer holds the MCU up to a block. */
  ghost predicate Built(g: Grid, img: seq<Plane>, buf: seq<Block>, n: nat, places: seq<Place>)
    requires ValidGrid(g) && Planes(g, img)
  {
    |buf| == MAX_BLOCKS && n == |places| <= MAX_BLOCKS && buf[..n] == BlocksAt(g, img, places)
  }

  lemma BuiltNext(g: Grid, img: seq<Plane>, buf: seq<Block>, n: nat, r: nat, y: nat, col: nat, i: nat, yi: nat, xi: nat, b: Block)
    requires ValidGrid(g) && Planes(g, img) && i < |g.comps| && n < MAX_BLOCKS
    requires Built(g, img, buf, n, Part(g, r, y, col, i, yi, xi)) && b == BlockAt(g, img, PlaceOf(g, r, y, col, i, yi, xi))
    ensures Built(g, img, buf[n := b], n + 1, Part(g, r, y, col, i, yi, xi + 1))
  {
    hide Part, BlockAt;
    PartBlock(g, r, y, col, i, yi, xi);
    var places, p := Part(g, r, y, col, i, yi, xi), PlaceOf(g, r, y, col, i, yi, xi);
    assert buf[n := b][..n + 1] == buf[..n] + [b];
    assert BlocksAt(g, img, places + [p]) == BlocksAt(g, img, places) + [b];
  }

  lemma BuiltBefore(g: Grid, img: seq<Plane>, buf: seq<Block>, n: nat, places: seq<Place>)
    requires ValidGrid(g) && Planes(g, img) && Built(g, img, buf, n, places) && n > 0
    ensures buf[n - 1] == BlockAt(g, img, places[n - 1])
  {
    assert buf[..n][n - 1] == buf[n - 1];
  }

  lemma BuiltNothing(g: Grid, img: seq<Plane>, buf: seq<Block>, r: nat, y: nat, col: nat)
    requires ValidGrid(g) && Planes(g, img) && |buf| == MAX_BLOCKS
    ensures Built(g, img, buf, 0, Part(g, r, y, col, 0, 0, 0))
  {
    PartStarts(g, r, y, col);
  }
}
