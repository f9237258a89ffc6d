/** The first pass of the multi-pass encoder (compress_first_pass of jccoefct.c): real blocks and dummy blocks are stored in
    virtual arrays padded to whole MCUs. */
module CoefStore {
  import opened FrameGeometry
  import opened McuLayout

  /** A virtual array, padded to whole MCUs, holds the padded plane in the block rows of iMCU rows 0..r - 1. */
  ghost predicate StoredPlane(g: Grid, c: Component, blocks: Plane, whole: array2<Block>, r: nat)
    requires Covers(c, blocks) && c.h > 0 && c.width > 0 && c.height > 0
    reads whole
  {
    && whole.Length0 == g.total * c.v && whole.Length1 == g.across * c.h
    && forall row, col :: 0 <= row < r * c.v && row < whole.Length0 && 0 <= col < whole.Length1 ==> whole[row, col] == Padded(c, blocks, row, col)
  }

  /** Block rows 0..n - 1, and of the next one the blocks before col. */
  ghost predicate StoredTo(c: Component, blocks: Plane, whole: array2<Block>, n: nat, col: nat)
    requires Covers(c, blocks) && c.h > 0 && c.width > 0 && c.height > 0
    reads whole
  {
    && (forall i, j :: 0 <= i < n && i < whole.Length0 && 0 <= j < whole.Length1 ==> whole[i, j] == Padded(c, blocks, i, j))
    && forall j :: 0 <= j < col && j < whole.Length1 && n < whole.Length0 ==> whole[n, j] == Padded(c, blocks, n, j)
  }

  /** The sizes that the routine computes. */
  lemma Sizes(g: Grid, c: Component, r: nat)
    requires ValidComponent(g, c) && r < g.total
    ensures 1 <= Rest(c.height, c.v) <= c.v && 1 <= Rest(c.width, c.h) <= c.h
    ensures (r + 1) * c.v == r * c.v + c.v <= g.total * c.v
    ensures r + 1 < g.total ==> r * c.v + c.v <= c.height
    ensures r + 1 == g.total ==> r * c.v + Rest(c.height, c.v) == c.height
    ensures g.across * c.h == c.width + c.h - Rest(c.width, c.h)
    ensures c.width % c.h == 0 ==> Rest(c.width, c.h) == c.h
    ensures c.width % c.h > 0 ==> Rest(c.width, c.h) == c.width % c.h
  {
    Distribute(r, 1, c.v);
    Distribute(g.across - 1, 1, c.h);
    if r + 1 < g.total {
      Distribute(g.total - 1 - r - 1, r + 1, c.v);
      assert (g.total - 1 - r - 1) * c.v >= 0;
      Distribute(g.total - r - 1, r + 1, c.v);
      assert (g.total - r - 1) * c.v >= 0;
    }
  }

  /** A row of real blocks, with dummy blocks at its right end. */
  method StoreRealRow(g: Grid, c: Component, blocks: Plane, whole: array2<Block>, row: nat)
    requires ValidComponent(g, c) && Covers(c, blocks) && row < c.height && row < whole.Length0 && whole.Length1 == g.across * c.h
    requires StoredTo(c, blocks, whole, row, 0)
    modifies whole
    ensures StoredTo(c, blocks, whole, row + 1, 0)
  {
    Sizes(g, c, 0);
    hide Rest, ValidComponent;
    var ndummy := c.width % c.h;
    if ndummy > 0 {
      ndummy := c.h - ndummy;
    }
    for k := 0 to c.width
      invariant StoredTo(c, blocks, whole, row, k)
    {
      whole[row, k] := blocks[row][k];
    }
    if ndummy > 0 {
      StoreRightEnd(c, blocks, whole, row, ndummy);
    }
  }

  /** The dummy blocks at the right end of a row of real blocks. */
  method StoreRightEnd(c: Component, blocks: Plane, whole: array2<Block>, row: nat, ndummy: nat)
    requires Covers(c, blocks) && c.h > 0 && c.width > 0 && row < c.height && row < whole.Length0 && whole.Length1 == c.width + ndummy
    requires StoredTo(c, blocks, whole, row, c.width)
    modifies whole
    ensures StoredTo(c, blocks, whole, row + 1, 0)
  {
    for k := c.width to c.width + ndummy
      invariant StoredTo(c, blocks, whole, row, c.width)
      invariant forall j :: c.width <= j < k ==> whole[row, j] == Dummy(0)
    {
      whole[row, k] := Dummy(0);
    }
    var lastDc := whole[row, c.width - 1][0];
    for k := c.width to c.width + ndummy
      invariant StoredTo(c, blocks, whole, row, k)
      invariant forall j :: k <= j < c.width + ndummy ==> whole[row, j] == Dummy(0)
    {
      whole[row, k] := whole[row, k][0 := lastDc];
      assert whole[row, k] == Dummy(lastDc);
    }
  }

  /** A row of dummy blocks: each MCU continues the DC of the last block of the row above. */
  method StoreDummyRow(g: Grid, c: Component, blocks: Plane, whole: array2<Block>, row: nat)
    requires ValidComponent(g, c) && Covers(c, blocks) && c.height <= row < whole.Length0 && whole.Length1 == g.across * c.h
    requires StoredTo(c, blocks, whole, row, 0)
    modifies whole
    ensures StoredTo(c, blocks, whole, row + 1, 0)
  {
    Sizes(g, c, 0);
    hide Rest, ValidComponent;
    for k := 0 to whole.Length1
      invariant StoredTo(c, blocks, whole, row, 0)
      invariant forall j :: 0 <= j < k ==> whole[row, j] == Dummy(0)
    {
      whole[row, k] := Dummy(0);
    }
    var mcus := whole.Length1 / c.h;
    Quotient(whole.Length1, g.across, c.h, 0);
    for m := 0 to mcus
      invariant StoredTo(c, blocks, whole, row, m * c.h)
      invariant forall j :: m * c.h <= j < whole.Length1 ==> whole[row, j] == Dummy(0)
    {
      Distribute(m, 1, c.h);
      Distribute(mcus - m - 1, m + 1, c.h);
      assert (mcus - m - 1) * c.h >= 0;
      StoreDummyMcu(c, blocks, whole, row, m);
    }
  }

  /** The dummy blocks of one MCU. */
  method StoreDummyMcu(c: Component, blocks: Plane, whole: array2<Block>, row: nat, m: nat)
    requires Covers(c, blocks) && c.h > 0 && c.width > 0 && 0 < c.height <= row < whole.Length0 && m * c.h + c.h <= whole.Length1
    requires StoredTo(c, blocks, whole, row, m * c.h) && forall j :: m * c.h <= j < whole.Length1 ==> whole[row, j] == Dummy(0)
    modifies whole
    ensures StoredTo(c, blocks, whole, row, m * c.h + c.h) && forall j :: m * c.h + c.h <= j < whole.Length1 ==> whole[row, j] == Dummy(0)
  {
    var start := m * c.h;
    var lastDc := whole[row - 1, start + c.h - 1][0];
    for bi := 0 to c.h
      invariant StoredTo(c, blocks, whole, row, start + bi)
      invariant forall j :: start + bi <= j < whole.Length1 ==> whole[row, j] == Dummy(0)
      invariant whole[row - 1, start + c.h - 1][0] == lastDc
    {
      SameMcu(c.h, m, bi);
      whole[row, start + bi] := whole[row, start + bi][0 := lastDc];
      assert whole[row, start + bi] == Dummy(lastDc);
    }
  }

  /** The block rows of one iMCU row of one component. */
  method StoreComponent(g: Grid, c: Component, blocks: Plane, whole: array2<Block>, r: nat)
    requires ValidComponent(g, c) && Covers(c, blocks) && r < g.total && StoredPlane(g, c, blocks, whole, r)
    modifies whole
    ensures StoredPlane(g, c, blocks, whole, r + 1)
  {
    Sizes(g, c, r);
    hide Padded;
    var blockRows := if r < g.total - 1 then c.v else Rest(c.height, c.v);
    hide Rest, ValidComponent;
    for i := 0 to blockRows
      invariant StoredTo(c, blocks, whole, r * c.v + i, 0)
    {
      StoreRealRow(g, c, blocks, whole, r * c.v + i);
    }
    if r == g.total - 1 {
      for i := blockRows to c.v
        invariant StoredTo(c, blocks, whole, r * c.v + i, 0)
      {
        StoreDummyRow(g, c, blocks, whole, r * c.v + i);
      }
    }
  }
}
