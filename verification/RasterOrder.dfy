/** In which order a scan sends its blocks (section A.2 of ITU-T T.81): MCUs from left to right and top to bottom; within an MCU
    component after component, each row by row; a scan of one component has its real blocks only. */
module RasterOrder {
  import opened FrameGeometry
  import opened McuLayout
  import opened McuBuilding

  /** The blocks of an MCU before those of component i. */
  function Offset(g: Grid, i: nat): nat
    requires i <= |g.comps|
  {
    if i == 0 then 0 else Offset(g, i - 1) + McuHeight(g, i - 1) * McuWidth(g, i - 1)
  }

  lemma {:induction false} RowAt(g: Grid, r: nat, y: nat, col: nat, i: nat, yi: nat, n: nat, xi: nat)
    requires i < |g.comps| && xi < n
    ensures RowPlaces(g, r, y, col, i, yi, n)[xi] == PlaceOf(g, r, y, col, i, yi, xi)
    decreases n
  {
    if xi < n - 1 {
      RowAt(g, r, y, col, i, yi, n - 1, xi);
    }
  }

  lemma {:induction false} ComponentAt(g: Grid, r: nat, y: nat, col: nat, i: nat, n: nat, yi: nat, xi: nat)
    requires i < |g.comps| && yi < n && xi < McuWidth(g, i)
    ensures yi * McuWidth(g, i) + xi < |ComponentPlaces(g, r, y, col, i, n)|
    ensures ComponentPlaces(g, r, y, col, i, n)[yi * McuWidth(g, i) + xi] == PlaceOf(g, r, y, col, i, yi, xi)
    decreases n
  {
    hide McuWidth, PlaceOf, RowPlaces;
    ComponentSize(g, r, y, col, i, n - 1);
    if yi < n - 1 {
      ComponentAt(g, r, y, col, i, n - 1, yi, xi);
    } else {
      RowAt(g, r, y, col, i, yi, McuWidth(g, i), xi);
    }
  }

  lemma {:induction false} McuLength(g: Grid, r: nat, y: nat, col: nat, n: nat)
    requires n <= |g.comps|
    ensures |McuPlaces(g, r, y, col, n)| == Offset(g, n)
  {
    if n > 0 {
      McuLength(g, r, y, col, n - 1);
      ComponentSize(g, r, y, col, n - 1, McuHeight(g, n - 1));
    }
  }

  /** Block (yi, xi) of component i within an MCU. */
  lemma {:induction false} BlockInMcu(g: Grid, r: nat, y: nat, col: nat, n: nat, i: nat, yi: nat, xi: nat)
    requires i < n <= |g.comps| && yi < McuHeight(g, i) && xi < McuWidth(g, i)
    ensures Offset(g, i) + yi * McuWidth(g, i) + xi < |McuPlaces(g, r, y, col, n)|
    ensures McuPlaces(g, r, y, col, n)[Offset(g, i) + yi * McuWidth(g, i) + xi] == PlaceOf(g, r, y, col, i, yi, xi)
    decreases n
  {
    hide McuWidth, McuHeight, PlaceOf, ComponentPlaces;
    McuLength(g, r, y, col, n - 1);
    if i < n - 1 {
      BlockInMcu(g, r, y, col, n - 1, i, yi, xi);
    } else {
      ComponentAt(g, r, y, col, i, McuHeight(g, i), yi, xi);
    }
  }

  /** The MCU in a row and column of MCUs, counted over the whole scan. */
  function McuOf(g: Grid, row: nat, col: nat): seq<Place> {
    if Single(g) then [Place(0, row, col)] else McuPlaces(g, row, 0, col, |g.comps|)
  }

  /** The rows of MCUs before iMCU row r. */
  function RowsBefore(g: Grid, r: nat): nat
    requires |g.comps| > 0
  {
    if !Single(g) then r
    else if r == g.total then g.comps[0].height
    else r * g.comps[0].v
  }

  lemma RowsNext(g: Grid, r: nat)
    requires ValidGrid(g) && r < g.total
    ensures RowsBefore(g, 0) == 0 && RowsBefore(g, r + 1) == RowsBefore(g, r) + RowsIn(g, r)
  {
    hide Rest;
    assert ValidComponent(g, g.comps[0]);
    Distribute(r, 1, g.comps[0].v);
  }

  lemma OneBlock(g: Grid, r: nat, y: nat, col: nat)
    requires Single(g)
    ensures McuPlaces(g, r, y, col, 1) == [Place(0, r * g.comps[0].v + y, col)]
  {
    assert McuPlaces(g, r, y, col, 0) == [] && ComponentPlaces(g, r, y, col, 0, 0) == [] && RowPlaces(g, r, y, col, 0, 0, 0) == [];
    assert RowPlaces(g, r, y, col, 0, 0, 1) == [PlaceOf(g, r, y, col, 0, 0, 0)];
    assert ComponentPlaces(g, r, y, col, 0, 1) == RowPlaces(g, r, y, col, 0, 0, 1);
    assert McuPlaces(g, r, y, col, 1) == ComponentPlaces(g, r, y, col, 0, 1);
  }

  lemma IsMcu(g: Grid, r: nat, y: nat, col: nat)
    requires ValidGrid(g) && r < g.total && y < RowsIn(g, r)
    ensures McuPlaces(g, r, y, col, |g.comps|) == McuOf(g, RowsBefore(g, r) + y, col)
  {
    if Single(g) {
      OneBlock(g, r, y, col);
    }
  }

  /** The MCUs before a position, counted and each in its place. */
  lemma {:induction false} BeforeAt(g: Grid, r: nat, y: nat, col: nat, k: nat)
    requires ValidGrid(g) && Position(g, r, y, col)
    ensures PerRow(g) > 0 && |Before(g, r, y, col)| == (RowsBefore(g, r) + y) * PerRow(g) + col
    ensures k < |Before(g, r, y, col)| ==> Before(g, r, y, col)[k] == McuOf(g, k / PerRow(g), k % PerRow(g))
    decreases r, y, col
  {
    hide McuPlaces, McuOf, RowsBefore, RowsIn, PerRow;
    PositiveRow(g);
    if col > 0 {
      BeforeAt(g, r, y, col - 1, k);
      IsMcu(g, r, y, col - 1);
      Quotient((RowsBefore(g, r) + y) * PerRow(g) + col - 1, RowsBefore(g, r) + y, PerRow(g), col - 1);
    } else if y > 0 {
      BeforeAt(g, r, y - 1, PerRow(g), k);
      Distribute(RowsBefore(g, r) + y - 1, 1, PerRow(g));
    } else if r > 0 {
      BeforeAt(g, r - 1, RowsIn(g, r - 1), 0, k);
      RowsNext(g, r - 1);
    } else {
      RowsNext(g, 0);
    }
  }

  lemma PositiveRow(g: Grid)
    requires ValidGrid(g)
    ensures PerRow(g) > 0 && g.total > 0
  {
    hide Rest;
    assert ValidComponent(g, g.comps[0]);
  }

  /** A scan of one component sends its real blocks, row by row from left to right. */
  lemma OneComponent(g: Grid, k: nat)
    requires ValidGrid(g) && |g.comps| == 1
    ensures |Whole(g)| == g.comps[0].height * g.comps[0].width && (|Whole(g)| > 0 ==> g.comps[0].width > 0)
    ensures k < |Whole(g)| ==> Whole(g)[k] == [Place(0, k / g.comps[0].width, k % g.comps[0].width)]
  {
    hide Before;
    PositiveRow(g);
    BeforeAt(g, g.total, 0, 0, k);
  }

  lemma WholeAt(g: Grid, k: nat)
    requires ValidGrid(g) && |g.comps| > 1
    ensures g.across > 0 && |Whole(g)| == g.total * g.across
    ensures k < |Whole(g)| ==> Whole(g)[k] == McuPlaces(g, k / g.across, 0, k % g.across, |g.comps|)
  {
    hide Before, McuPlaces;
    PositiveRow(g);
    BeforeAt(g, g.total, 0, 0, k);
  }

  /** In an interleaved scan the MCU in row `row` and column `col` of the MCUs is number k = row * across + col; it has h x v
      blocks of each component, in the order of the components, and each component's row by row from left to right. */
  lemma Interleaved(g: Grid, row: nat, col: nat, k: nat, i: nat, yi: nat, xi: nat, j: nat)
    requires ValidGrid(g) && |g.comps| > 1 && col < g.across && k == row * g.across + col && k < |Whole(g)|
    requires i < |g.comps| && yi < g.comps[i].v && xi < g.comps[i].h && j == Offset(g, i) + yi * g.comps[i].h + xi
    ensures |Whole(g)| == g.total * g.across && |Whole(g)[k]| == Offset(g, |g.comps|)
    ensures j < |Whole(g)[k]| && Whole(g)[k][j] == Place(i, row * g.comps[i].v + yi, col * g.comps[i].h + xi)
  {
    hide *;
    WholeAt(g, k);
    Quotient(k, row, g.across, col);
    InterleavedSizes(g, row, col, i, yi, xi);
    BlockInMcu(g, row, 0, col, |g.comps|, i, yi, xi);
    McuLength(g, row, 0, col, |g.comps|);
  }

  lemma InterleavedSizes(g: Grid, row: nat, col: nat, i: nat, yi: nat, xi: nat)
    requires |g.comps| > 1 && i < |g.comps|
    ensures McuWidth(g, i) == g.comps[i].h && McuHeight(g, i) == g.comps[i].v
    ensures PlaceOf(g, row, 0, col, i, yi, xi) == Place(i, row * g.comps[i].v + yi, col * g.comps[i].h + xi)
  {
  }
}
