/** Which block of which component stands where in the MCUs of a scan, the blocks beyond the image, and the order of the MCUs
    (jccoefct.c, jctrans.c, jdcoefct.c; per_scan_setup of jcmaster.c and jdinput.c). */
module McuLayout {
  import opened FrameGeometry

  type Block = seq<int>

  const BLOCK_SIZE: nat := 64

  /** The components of a scan, the number of iMCU rows, and the MCUs across an interleaved scan. */
  datatype Grid = Grid(comps: seq<Component>, total: nat, across: nat)

  ghost predicate ValidComponent(g: Grid, c: Component) {
    && c.h > 0 && c.v > 0 && c.width > 0 && c.height > 0 && g.total > 0 && g.across > 0
    && (g.total - 1) * c.v + Rest(c.height, c.v) == c.height && (g.across - 1) * c.h + Rest(c.width, c.h) == c.width
  }

  ghost predicate ValidGrid(g: Grid) {
    |g.comps| > 0 && forall i :: 0 <= i < |g.comps| ==> ValidComponent(g, g.comps[i])
  }

  /** Every choice of components of a frame gives a valid grid. */
  lemma FrameGrid(f: Frame, factors: seq<(nat, nat)>, g: Grid)
    requires ValidFrame(f) && |factors| > 0 && forall i :: 0 <= i < |factors| ==> factors[i].0 > 0 && factors[i].1 > 0
    requires |g.comps| == |factors| && g.total == TotalRows(f) && g.across == McusAcross(f)
    requires forall i :: 0 <= i < |factors| ==> g.comps[i] == Sized(f, factors[i].0, factors[i].1)
    ensures ValidGrid(g)
  {
    hide CeilDiv, Rest;
    forall i | 0 <= i < |g.comps|
      ensures ValidComponent(g, g.comps[i])
    {
      BlocksCovered(f, factors[i].0, factors[i].1);
    }
  }

  // ----- the shape of an MCU -----

  predicate Single(g: Grid) {
    |g.comps| == 1
  }

  function McuWidth(g: Grid, i: nat): nat
    requires i < |g.comps|
  {
    if Single(g) then 1 else g.comps[i].h
  }

  function McuHeight(g: Grid, i: nat): nat
    requires i < |g.comps|
  {
    if Single(g) then 1 else g.comps[i].v
  }

  /** MCUs_per_row, and MCU_rows_per_iMCU_row as start_iMCU_row sets it. */
  function PerRow(g: Grid): nat
    requires |g.comps| > 0
  {
    if Single(g) then g.comps[0].width else g.across
  }

  function RowsIn(g: Grid, r: nat): nat
    requires ValidGrid(g)
  {
    if !Single(g) then 1
    else
      assert ValidComponent(g, g.comps[0]);
      if r + 1 < g.total then g.comps[0].v else Rest(g.comps[0].height, g.comps[0].v)
  }

  /** A block of component i of the scan. */
  datatype Place = Place(i: nat, row: nat, col: nat)

  /** The MCU in column col of MCU row y of iMCU row r: its block at (yi, xi) of component i. */
  function PlaceOf(g: Grid, r: nat, y: nat, col: nat, i: nat, yi: nat, xi: nat): Place
    requires i < |g.comps|
  {
    Place(i, r * g.comps[i].v + y + yi, col * McuWidth(g, i) + xi)
  }

  /** The first n blocks of a row of blocks, the first n rows of a component, the first n components of an MCU. */
  function RowPlaces(g: Grid, r: nat, y: nat, col: nat, i: nat, yi: nat, n: nat): (s: seq<Place>)
    requires i < |g.comps|
    ensures |s| == n
  {
    if n == 0 then [] else RowPlaces(g, r, y, col, i, yi, n - 1) + [PlaceOf(g, r, y, col, i, yi, n - 1)]
  }

  function ComponentPlaces(g: Grid, r: nat, y: nat, col: nat, i: nat, n: nat): seq<Place>
    requires i < |g.comps|
  {
    if n == 0 then [] else ComponentPlaces(g, r, y, col, i, n - 1) + RowPlaces(g, r, y, col, i, n - 1, McuWidth(g, i))
  }

  function McuPlaces(g: Grid, r: nat, y: nat, col: nat, n: nat): seq<Place>
    requires n <= |g.comps|
  {
    if n == 0 then [] else McuPlaces(g, r, y, col, n - 1) + ComponentPlaces(g, r, y, col, n - 1, McuHeight(g, n - 1))
  }

  /** A position of the loops over the MCUs of a scan. */
  ghost predicate Position(g: Grid, r: nat, y: nat, col: nat)
    requires ValidGrid(g)
  {
    && r <= g.total && (r < g.total ==> y <= RowsIn(g, r)) && (r == g.total ==> y == 0)
    && col <= PerRow(g) && (col > 0 ==> r < g.total && y < RowsIn(g, r))
  }

  /** The MCUs before a position, in order. */
  function Before(g: Grid, r: nat, y: nat, col: nat): seq<seq<Place>>
    requires ValidGrid(g)
    decreases r, y, col
  {
    if col > 0 then Before(g, r, y, col - 1) + [McuPlaces(g, r, y, col - 1, |g.comps|)]
    else if y > 0 then Before(g, r, y - 1, PerRow(g))
    else if r > 0 then Before(g, r - 1, RowsIn(g, r - 1), 0)
    else []
  }

  /** All MCUs of the scan. */
  function Whole(g: Grid): seq<seq<Place>>
    requires ValidGrid(g)
  {
    Before(g, g.total, 0, 0)
  }

  // ----- the blocks -----

  /** A component's real blocks. */
  type Plane = seq<seq<Block>>

  ghost predicate Covers(c: Component, blocks: Plane) {
    && |blocks| == c.height
    && forall row :: 0 <= row < |blocks| ==> |blocks[row]| == c.width && forall col :: 0 <= col < |blocks[row]| ==> |blocks[row][col]| == BLOCK_SIZE
  }

  /** A block of zeros apart from its DC coefficient. */
  function Dummy(dc: int): (b: Block)
    ensures |b| == BLOCK_SIZE
  {
    [dc] + seq(BLOCK_SIZE - 1, _ => 0)
  }

  /** The component's block at (row, col); beyond the image a dummy with the DC of the last block before it in its MCU. */
  function Padded(c: Component, blocks: Plane, row: nat, col: nat): (b: Block)
    requires Covers(c, blocks) && c.h > 0 && c.width > 0 && c.height > 0
    ensures |b| == BLOCK_SIZE
    decreases row
  {
    if row < c.height then
      if col < c.width then blocks[row][col] else Dummy(blocks[row][c.width - 1][0])
    else Dummy(Padded(c, blocks, row - 1, col / c.h * c.h + c.h - 1)[0])
  }

  ghost predicate Planes(g: Grid, img: seq<Plane>) {
    |img| == |g.comps| && forall i :: 0 <= i < |img| ==> Covers(g.comps[i], img[i])
  }

  function BlockAt(g: Grid, img: seq<Plane>, p: Place): (b: Block)
    requires ValidGrid(g) && Planes(g, img)
    ensures |b| == BLOCK_SIZE
  {
    if p.i < |g.comps| then
      assert ValidComponent(g, g.comps[p.i]);
      Padded(g.comps[p.i], img[p.i], p.row, p.col)
    else Dummy(0)
  }

  function BlocksAt(g: Grid, img: seq<Plane>, places: seq<Place>): (s: seq<Block>)
    requires ValidGrid(g) && Planes(g, img)
    ensures |s| == |places| && forall k :: 0 <= k < |s| ==> s[k] == BlockAt(g, img, places[k])
  {
    seq(|places|, k requires 0 <= k < |places| => BlockAt(g, img, places[k]))
  }

  /** The MCUs that an encoder hands to the entropy coder up to a position. */
  function Sent(g: Grid, img: seq<Plane>, mcus: seq<seq<Place>>): (s: seq<seq<Block>>)
    requires ValidGrid(g) && Planes(g, img)
    ensures |s| == |mcus| && forall k :: 0 <= k < |s| ==> s[k] == BlocksAt(g, img, mcus[k])
  {
    seq(|mcus|, k requires 0 <= k < |mcus| => BlocksAt(g, img, mcus[k]))
  }

  /** A place beyond the image. */
  predicate Beyond(c: Component, row: nat, col: nat) {
    row >= c.height || col >= c.width
  }

  lemma SameMcu(h: nat, col: nat, k: nat)
    requires h > 0 && k < h
    ensures (col * h + k) / h == col && (col * h + k) / h * h + h - 1 == col * h + h - 1
  {
    Quotient(col * h + k, col, h, k);
  }

  /** Within a row of blocks of an MCU, a dummy has the DC of the block before it. */
  lemma DummyInRow(c: Component, blocks: Plane, row: nat, col: nat, k: nat)
    requires Covers(c, blocks) && c.h > 0 && c.width > 0 && c.height > 0 && 0 < k < c.h && Beyond(c, row, col * c.h + k)
    ensures Padded(c, blocks, row, col * c.h + k) == Dummy(Padded(c, blocks, row, col * c.h + k - 1)[0])
  {
    SameMcu(c.h, col, k);
    SameMcu(c.h, col, k - 1);
    assert c.h * col == col * c.h;
  }

  /** The first dummy of a row of dummies has the DC of the last block of the row above. */
  lemma DummyFirst(c: Component, blocks: Plane, row: nat, col: nat)
    requires Covers(c, blocks) && c.h > 0 && c.width > 0 && c.height > 0 && row >= c.height
    ensures Padded(c, blocks, row, col * c.h) == Dummy(Padded(c, blocks, row - 1, col * c.h + c.h - 1)[0])
  {
    SameMcu(c.h, col, 0);
  }

  /** What is sent at a place: the block there; to the right of the image the DC of the last block of the row and nothing else; below
      the image the DC of the last row's block in the last column of the MCU, or in the last column of the image. */
  lemma {:induction false} PaddedIs(c: Component, blocks: Plane, row: nat, col: nat, k: nat)
    requires Covers(c, blocks) && c.h > 0 && c.width > 0 && c.height > 0 && 0 < k < 64
    ensures row < c.height && col < c.width ==> Padded(c, blocks, row, col) == blocks[row][col]
    ensures Beyond(c, row, col) ==> |Padded(c, blocks, row, col)| == 64 && Padded(c, blocks, row, col)[k] == 0
    ensures row < c.height && col >= c.width ==> Padded(c, blocks, row, col)[0] == blocks[row][c.width - 1][0]
    ensures row >= c.height ==>
      var last := col / c.h * c.h + c.h - 1;
      Padded(c, blocks, row, col)[0] == blocks[c.height - 1][if last < c.width then last else c.width - 1][0]
    decreases row
  {
    if row >= c.height {
      var last := col / c.h * c.h + c.h - 1;
      SameMcu(c.h, col / c.h, c.h - 1);
      PaddedIs(c, blocks, row - 1, last, k);
    }
  }
}
