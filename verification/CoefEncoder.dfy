/** The compressor's coefficient controllers (jccoefct.c, jctrans.c): the single-pass encoder, the multi-pass encoder and the
    transcoder hand the same MCUs to the entropy coder, in the same order, however often it suspends. */
module CoefEncoder {
  import opened FrameGeometry
  import opened McuLayout
  import opened McuBuilding
  import opened CoefStore

  /** compress_data, the compress_output of jccoefct.c, and that of jctrans.c. */
  datatype Source = SinglePass | SavedBlocks | Transcoded

  /** The position behind MCU (r, y, col - 1) once a row or an iMCU row is complete. */
  lemma RowDone(g: Grid, r: nat, y: nat)
    requires ValidGrid(g)
    ensures Before(g, r, y + 1, 0) == Before(g, r, y, PerRow(g))
  {
    hide McuPlaces;
    assert PerRow(g) > 0 by { AcrossPositive(g); }
  }

  lemma AcrossPositive(g: Grid)
    requires ValidGrid(g)
    ensures PerRow(g) > 0 && g.total > 0 && forall r :: RowsIn(g, r) > 0
  {
    assert ValidComponent(g, g.comps[0]);
    RestBounds(g.comps[0].height, g.comps[0].v);
  }

  lemma ImcuRowDone(g: Grid, r: nat)
    requires ValidGrid(g)
    ensures Before(g, r + 1, 0, 0) == Before(g, r, RowsIn(g, r), 0)
  {
    hide McuPlaces, RowsIn;
  }

  lemma OneMcu(g: Grid, planes: seq<Plane>, r: nat, y: nat, col: nat, log: seq<seq<Block>>, mcu: seq<Block>)
    requires ValidGrid(g) && Planes(g, planes) && log == Sent(g, planes, Before(g, r, y, col))
    requires mcu == BlocksAt(g, planes, McuPlaces(g, r, y, col, |g.comps|))
    ensures log + [mcu] == Sent(g, planes, Before(g, r, y, col + 1))
  {
    hide McuPlaces, BlockAt;
  }

  ghost predicate ZeroAc(buf: seq<Block>) {
    forall k :: 0 <= k < |buf| ==> IsDummy(buf[k])
  }

  ghost predicate IsDummy(b: Block) {
    |b| == BLOCK_SIZE && forall j :: 1 <= j < BLOCK_SIZE ==> b[j] == 0
  }

  lemma DummyMade(b: Block, dc: int)
    requires IsDummy(b)
    ensures b[0 := dc] == Dummy(dc) && IsDummy(b[0 := dc])
  {
  }

  /** The components of a scan among those of the image, with their blocks and their virtual arrays. */
  ghost predicate Selection(g: Grid, planes: seq<Plane>, whole: seq<array2<Block>>, frame: seq<Component>, framePlanes: seq<Plane>,
                            frameWhole: seq<array2<Block>>, chosen: seq<nat>) {
    && |framePlanes| == |frameWhole| == |frame| && |chosen| == |g.comps| == |planes| == |whole|
    && (forall c :: 0 <= c < |frame| ==> ValidComponent(g, frame[c]) && Covers(frame[c], framePlanes[c]))
    && (forall c, d :: 0 <= c < d < |frame| ==> frameWhole[c] != frameWhole[d])
    && forall i :: 0 <= i < |chosen| ==>
         chosen[i] < |frame| && g.comps[i] == frame[chosen[i]] && planes[i] == framePlanes[chosen[i]] && whole[i] == frameWhole[chosen[i]]
  }

  class CoefController {
    const g: Grid
    // all components of the image, their real blocks and their virtual arrays, and which of them the scan has
    const frame: seq<Component>
    const framePlanes: seq<Plane>
    const frameWhole: seq<array2<Block>>
    const chosen: seq<nat>
    // the real blocks of the components of the scan
    const planes: seq<Plane>
    const mcuBuffer: array<Block>
    const dummyBuffer: array<Block>
    // the virtual arrays of the components of the scan
    const whole: seq<array2<Block>>
    var iMCURow: nat
    var mcuCtr: nat
    var vertOffset: nat
    var rowsPer: nat
    // what the entropy coder has accepted
    var log: seq<seq<Block>>

    ghost predicate Shape() {
      && ValidGrid(g) && Planes(g, planes) && SmallMcu(g)
      && mcuBuffer.Length == dummyBuffer.Length == MAX_BLOCKS && mcuBuffer != dummyBuffer
      && |whole| == |g.comps| && (forall i, j :: 0 <= i < j < |whole| ==> whole[i] != whole[j])
      && Selection(g, planes, whole, frame, framePlanes, frameWhole, chosen)
    }

    ghost predicate Valid()
      reads this, dummyBuffer
    {
      && Shape() && ZeroAc(dummyBuffer[..])
      && Position(g, iMCURow, vertOffset, mcuCtr)
      && (iMCURow < g.total ==> rowsPer == RowsIn(g, iMCURow) && vertOffset < rowsPer && mcuCtr < PerRow(g))
      && log == Sent(g, planes, Before(g, iMCURow, vertOffset, mcuCtr))
    }

    /** The virtual arrays hold the padded planes down to and including iMCU row r. */
    ghost predicate Stored(r: nat)
      requires Shape()
      reads whole
    {
      forall i :: 0 <= i < |whole| ==> StoredPlane(g, g.comps[i], planes[i], whole[i], r)
    }

    /** The same for all components of the image. */
    ghost predicate AllStored(r: nat)
      requires Shape()
      reads frameWhole
    {
      forall c :: 0 <= c < |frame| ==> StoredPlane(g, frame[c], framePlanes[c], frameWhole[c], r)
    }

    /** jinit_c_coef_controller and transencode_coef_controller: the buffers, with all-zero dummy blocks. */
    constructor (g: Grid, planes: seq<Plane>, whole: seq<array2<Block>>, frame: seq<Component>, framePlanes: seq<Plane>,
                 frameWhole: seq<array2<Block>>, chosen: seq<nat>)
      requires ValidGrid(g) && Planes(g, planes) && SmallMcu(g)
      requires |whole| == |g.comps| && forall i, j :: 0 <= i < j < |whole| ==> whole[i] != whole[j]
      requires Selection(g, planes, whole, frame, framePlanes, frameWhole, chosen)
      ensures Valid() && this.g == g && this.planes == planes && this.whole == whole && iMCURow == 0 && log == []
      ensures this.frame == frame && this.framePlanes == framePlanes && this.frameWhole == frameWhole && this.chosen == chosen
      ensures fresh(mcuBuffer) && fresh(dummyBuffer)
    {
      hide ValidGrid, Planes, SmallMcu, Selection;
      this.g, this.planes, this.whole := g, planes, whole;
      this.frame, this.framePlanes, this.frameWhole, this.chosen := frame, framePlanes, frameWhole, chosen;
      mcuBuffer := new Block[MAX_BLOCKS](_ => Dummy(0));
      dummyBuffer := new Block[MAX_BLOCKS](_ => Dummy(0));
      new;
      StartPass();
    }

    /** start_iMCU_row. */
    method StartImcuRow()
      requires Shape() && iMCURow <= g.total
      modifies this`rowsPer, this`mcuCtr, this`vertOffset
      ensures mcuCtr == 0 && vertOffset == 0 && (iMCURow < g.total ==> rowsPer == RowsIn(g, iMCURow))
    {
      assert ValidComponent(g, g.comps[0]);
      if |g.comps| > 1 {
        rowsPer := 1;
      } else if iMCURow < g.total - 1 {
        rowsPer := g.comps[0].v;
      } else {
        rowsPer := Rest(g.comps[0].height, g.comps[0].v);
      }
      mcuCtr, vertOffset := 0, 0;
    }

    /** start_pass_coef. */
    method StartPass()
      requires Shape() && ZeroAc(dummyBuffer[..])
      modifies this
      ensures Valid() && iMCURow == 0 && log == []
    {
      hide ValidGrid, SmallMcu, Planes;
      AcrossPositive(g);
      iMCURow, log := 0, [];
      StartImcuRow();
      Nothing(g);
    }

    lemma Parts()
      requires Shape()
      ensures ValidGrid(g) && Planes(g, planes) && SmallMcu(g) && |g.comps| > 0 && |planes| == |g.comps| == |whole|
      ensures mcuBuffer.Length == dummyBuffer.Length == MAX_BLOCKS && mcuBuffer != dummyBuffer
    {
    }

    /** forward_DCT of the real blocks of a row. */
    method DctBlocks(y: nat, col: nat, i: nat, yi: nat, blkn: nat, blockcnt: nat)
      requires Shape() && Building(g, iMCURow, y, col) && i < |g.comps| && yi < McuHeight(g, i) && g.comps[i].v > 0 && g.comps[i].h > 0
      requires RealRow(g, iMCURow, y, i, yi) && blockcnt == BlockCount(g, col, i)
      requires Built(g, planes, mcuBuffer[..], blkn, Part(g, iMCURow, y, col, i, yi, 0))
      modifies mcuBuffer
      ensures Built(g, planes, mcuBuffer[..], blkn + blockcnt, Part(g, iMCURow, y, col, i, yi, blockcnt))
    {
      hide *;
      Parts();
      ComponentSizes(g, i);
      ColumnIsReal(g, iMCURow, y, col, i, 0);
      PartFits(g, iMCURow, y, col, i, yi, 0);
      BuiltSize(g, planes, mcuBuffer[..], blkn, Part(g, iMCURow, y, col, i, yi, 0));
      for bi := 0 to blockcnt
        invariant Built(g, planes, mcuBuffer[..], blkn + bi, Part(g, iMCURow, y, col, i, yi, bi))
      {
        RealBlock(g, planes, iMCURow, y, col, i, yi, bi);
        PlaceIs(g, iMCURow, y, col, i, yi, bi);
        var block := planes[i][iMCURow * g.comps[i].v + y + yi][col * McuWidth(g, i) + bi];
        BuiltNext(g, planes, mcuBuffer[..], blkn + bi, iMCURow, y, col, i, yi, bi, block);
        mcuBuffer[blkn + bi] := block;
      }
    }

    /** Room for dummy blocks is zeroed. */
    method ZeroBlocks(from: nat, to: nat, ghost n: nat, ghost places: seq<Place>)
      requires Shape() && n <= from <= to <= MAX_BLOCKS && Built(g, planes, mcuBuffer[..], n, places)
      modifies mcuBuffer
      ensures Built(g, planes, mcuBuffer[..], n, places) && forall k :: from <= k < to ==> mcuBuffer[k] == Dummy(0)
    {
      hide *;
      Parts();
      for k := from to to
        invariant Built(g, planes, mcuBuffer[..], n, places) && forall j :: from <= j < k ==> mcuBuffer[j] == Dummy(0)
      {
        BuiltAside(g, planes, mcuBuffer[..], n, places, k, Dummy(0));
        mcuBuffer[k] := Dummy(0);
      }
    }

    /** The dummy blocks of a row, from block number from: zeroed, then given the DC of the block before. */
    method MakeDummies(y: nat, col: nat, i: nat, yi: nat, blkn: nat, from: nat)
      requires Shape() && Building(g, iMCURow, y, col) && i < |g.comps| && yi < McuHeight(g, i) && g.comps[i].v > 0 && g.comps[i].h > 0
      requires from <= McuWidth(g, i) && (RealRow(g, iMCURow, y, i, yi) ==> from >= BlockCount(g, col, i))
      requires Built(g, planes, mcuBuffer[..], blkn + from, Part(g, iMCURow, y, col, i, yi, from))
      modifies mcuBuffer
      ensures Built(g, planes, mcuBuffer[..], blkn + McuWidth(g, i), Part(g, iMCURow, y, col, i, yi, McuWidth(g, i)))
    {
      hide *;
      Parts();
      PartFits(g, iMCURow, y, col, i, yi, from);
      BuiltSize(g, planes, mcuBuffer[..], blkn + from, Part(g, iMCURow, y, col, i, yi, from));
      ZeroBlocks(blkn + from, blkn + McuWidth(g, i), blkn + from, Part(g, iMCURow, y, col, i, yi, from));
      for bi := from to McuWidth(g, i)
        invariant Built(g, planes, mcuBuffer[..], blkn + bi, Part(g, iMCURow, y, col, i, yi, bi))
        invariant forall k :: blkn + bi <= k < blkn + McuWidth(g, i) ==> mcuBuffer[k] == Dummy(0)
      {
        var dc := DummyDc(y, col, i, yi, blkn + bi, bi);
        ZeroGiven(dc);
        BuiltNext(g, planes, mcuBuffer[..], blkn + bi, iMCURow, y, col, i, yi, bi, Dummy(dc));
        mcuBuffer[blkn + bi] := mcuBuffer[blkn + bi][0 := dc];
      }
    }

    /** The DC of the block before a dummy block is the one it needs. */
    method DummyDc(y: nat, col: nat, i: nat, yi: nat, blkn: nat, bi: nat) returns (dc: int)
      requires Shape() && Building(g, iMCURow, y, col) && i < |g.comps| && yi < McuHeight(g, i) && g.comps[i].v > 0 && g.comps[i].h > 0
      requires bi < McuWidth(g, i) && !(RealRow(g, iMCURow, y, i, yi) && bi < BlockCount(g, col, i))
      requires Built(g, planes, mcuBuffer[..], blkn, Part(g, iMCURow, y, col, i, yi, bi))
      ensures Dummy(dc) == BlockAt(g, planes, PlaceOf(g, iMCURow, y, col, i, yi, bi)) && blkn < MAX_BLOCKS
    {
      hide *;
      Parts();
      PartFits(g, iMCURow, y, col, i, yi, bi);
      DummyBlock(g, planes, iMCURow, y, col, i, yi, bi);
      BuiltSize(g, planes, mcuBuffer[..], blkn, Part(g, iMCURow, y, col, i, yi, bi));
      BuiltBefore(g, planes, mcuBuffer[..], blkn, Part(g, iMCURow, y, col, i, yi, bi));
      dc := mcuBuffer[blkn - 1][0];
    }

    /** The MCU of compress_data: forward DCT of the real blocks, and dummy blocks made in the buffer. */
    method BuildSinglePass(y: nat, col: nat) returns (blkn: nat)
      requires Shape() && Building(g, iMCURow, y, col)
      modifies mcuBuffer
      ensures Built(g, planes, mcuBuffer[..], blkn, McuPlaces(g, iMCURow, y, col, |g.comps|))
    {
      hide *;
      Parts();
      blkn := 0;
      BuiltNothing(g, planes, mcuBuffer[..], iMCURow, y, col);
      for i := 0 to |g.comps|
        invariant Built(g, planes, mcuBuffer[..], blkn, Part(g, iMCURow, y, col, i, 0, 0))
      {
        ComponentSizes(g, i);
        for yi := 0 to McuHeight(g, i)
          invariant Built(g, planes, mcuBuffer[..], blkn, Part(g, iMCURow, y, col, i, yi, 0))
        {
          var blockcnt := BlockCount(g, col, i);
          ColumnIsReal(g, iMCURow, y, col, i, 0);
          if RealRow(g, iMCURow, y, i, yi) {
            DctBlocks(y, col, i, yi, blkn, blockcnt);
            if blockcnt < McuWidth(g, i) {
              MakeDummies(y, col, i, yi, blkn, blockcnt);
            }
          } else {
            MakeDummies(y, col, i, yi, blkn, 0);
          }
          blkn := blkn + McuWidth(g, i);
          PartRow(g, iMCURow, y, col, i, yi);
        }
        PartComponent(g, iMCURow, y, col, i);
      }
      WholePart(g, iMCURow, y, col);
    }

    /** The MCU of compress_output: all blocks, dummies included, are in the virtual arrays. */
    method BuildSaved(y: nat, col: nat) returns (blkn: nat)
      requires Shape() && Building(g, iMCURow, y, col) && Stored(iMCURow + 1)
      modifies mcuBuffer
      ensures Built(g, planes, mcuBuffer[..], blkn, McuPlaces(g, iMCURow, y, col, |g.comps|))
    {
      hide *;
      Parts();
      blkn := 0;
      BuiltNothing(g, planes, mcuBuffer[..], iMCURow, y, col);
      for i := 0 to |g.comps|
        invariant Built(g, planes, mcuBuffer[..], blkn, Part(g, iMCURow, y, col, i, 0, 0))
      {
        ComponentSizes(g, i);
        for yi := 0 to McuHeight(g, i)
          invariant Built(g, planes, mcuBuffer[..], blkn, Part(g, iMCURow, y, col, i, yi, 0))
        {
          PartFits(g, iMCURow, y, col, i, yi, 0);
          BuiltSize(g, planes, mcuBuffer[..], blkn, Part(g, iMCURow, y, col, i, yi, 0));
          ghost var start := blkn;
          for xi := 0 to McuWidth(g, i)
            invariant blkn == start + xi && Built(g, planes, mcuBuffer[..], blkn, Part(g, iMCURow, y, col, i, yi, xi))
          {
            PlaceIs(g, iMCURow, y, col, i, yi, xi);
            SavedBlock(y, col, i, yi, xi);
            var block := whole[i][iMCURow * g.comps[i].v + (yi + y), col * McuWidth(g, i) + xi];
            BuiltNext(g, planes, mcuBuffer[..], blkn, iMCURow, y, col, i, yi, xi, block);
            mcuBuffer[blkn] := block;
            blkn := blkn + 1;
          }
          PartRow(g, iMCURow, y, col, i, yi);
        }
        PartComponent(g, iMCURow, y, col, i);
      }
      WholePart(g, iMCURow, y, col);
    }

    lemma SavedBlock(y: nat, col: nat, i: nat, yi: nat, xi: nat)
      requires Shape() && Building(g, iMCURow, y, col) && Stored(iMCURow + 1)
      requires i < |g.comps| && yi < McuHeight(g, i) && xi < McuWidth(g, i)
      ensures var p := PlaceOf(g, iMCURow, y, col, i, yi, xi);
        p.row < whole[i].Length0 && p.col < whole[i].Length1 && whole[i][p.row, p.col] == BlockAt(g, planes, p)
    {
      hide Rest, Padded;
      RowIsReal(g, iMCURow, y, col, i, yi);
      ColumnIsReal(g, iMCURow, y, col, i, xi);
      InsideArray(g, iMCURow, y, col, i, yi, xi);
      assert StoredPlane(g, g.comps[i], planes[i], whole[i], iMCURow + 1);
    }

    /** A row of the transcoder's MCU: real blocks are those of the given arrays, and dummy blocks are its own. */
    method TranscodedRow(y: nat, col: nat, i: nat, yi: nat, start: nat) returns (blkn: nat)
      requires Shape() && Building(g, iMCURow, y, col) && i < |g.comps| && yi < McuHeight(g, i) && g.comps[i].v > 0 && g.comps[i].h > 0
      requires Built(g, planes, mcuBuffer[..], start, Part(g, iMCURow, y, col, i, yi, 0)) && ZeroAc(dummyBuffer[..])
      modifies mcuBuffer, dummyBuffer
      ensures Built(g, planes, mcuBuffer[..], blkn, Part(g, iMCURow, y, col, i, yi, McuWidth(g, i))) && ZeroAc(dummyBuffer[..])
    {
      hide *;
      Parts();
      ComponentSizes(g, i);
      ColumnIsReal(g, iMCURow, y, col, i, 0);
      var blockcnt := BlockCount(g, col, i);
      var first := 0;
      blkn := start;
      if RealRow(g, iMCURow, y, i, yi) {
        DctBlocks(y, col, i, yi, blkn, blockcnt);
        first := blockcnt;
        blkn := blkn + blockcnt;
      }
      for xi := first to McuWidth(g, i)
        invariant blkn == start + xi && Built(g, planes, mcuBuffer[..], blkn, Part(g, iMCURow, y, col, i, yi, xi))
        invariant ZeroAc(dummyBuffer[..])
      {
        var dc := DummyDc(y, col, i, yi, blkn, xi);
        DummyStays(dummyBuffer[..], blkn, dc);
        BuiltNext(g, planes, mcuBuffer[..], blkn, iMCURow, y, col, i, yi, xi, Dummy(dc));
        dummyBuffer[blkn] := dummyBuffer[blkn][0 := dc];
        mcuBuffer[blkn] := dummyBuffer[blkn];
        blkn := blkn + 1;
      }
    }

    /** The MCU of the transcoder. */
    method BuildTranscoded(y: nat, col: nat) returns (blkn: nat)
      requires Shape() && Building(g, iMCURow, y, col) && ZeroAc(dummyBuffer[..])
      modifies mcuBuffer, dummyBuffer
      ensures Built(g, planes, mcuBuffer[..], blkn, McuPlaces(g, iMCURow, y, col, |g.comps|)) && ZeroAc(dummyBuffer[..])
    {
      hide *;
      Parts();
      blkn := 0;
      BuiltNothing(g, planes, mcuBuffer[..], iMCURow, y, col);
      for i := 0 to |g.comps|
        invariant Built(g, planes, mcuBuffer[..], blkn, Part(g, iMCURow, y, col, i, 0, 0)) && ZeroAc(dummyBuffer[..])
      {
        ComponentSizes(g, i);
        for yi := 0 to McuHeight(g, i)
          invariant Built(g, planes, mcuBuffer[..], blkn, Part(g, iMCURow, y, col, i, yi, 0)) && ZeroAc(dummyBuffer[..])
        {
          blkn := TranscodedRow(y, col, i, yi, blkn);
          PartRow(g, iMCURow, y, col, i, yi);
        }
        PartComponent(g, iMCURow, y, col, i);
      }
      WholePart(g, iMCURow, y, col);
    }

    /** The MCU at a position, by one of the three ways. */
    method BuildMcu(source: Source, y: nat, col: nat) returns (mcu: seq<Block>)
      requires Shape() && Building(g, iMCURow, y, col) && ZeroAc(dummyBuffer[..]) && (source == SavedBlocks ==> Stored(iMCURow + 1))
      modifies mcuBuffer, dummyBuffer
      ensures mcu == BlocksAt(g, planes, McuPlaces(g, iMCURow, y, col, |g.comps|)) && ZeroAc(dummyBuffer[..])
    {
      hide *;
      Parts();
      var blkn: nat;
      match source {
        case SinglePass => blkn := BuildSinglePass(y, col);
        case SavedBlocks => blkn := BuildSaved(y, col);
        case Transcoded => blkn := BuildTranscoded(y, col);
      }
      BuiltAll(g, planes, mcuBuffer[..], blkn, McuPlaces(g, iMCURow, y, col, |g.comps|));
      mcu := mcuBuffer[..blkn];
    }

    /** Under way within an iMCU row. */
    ghost predicate Working(y: nat, col: nat)
      reads this, dummyBuffer
    {
      && Shape() && ZeroAc(dummyBuffer[..]) && iMCURow < g.total && rowsPer == RowsIn(g, iMCURow)
      && y <= rowsPer && col <= PerRow(g) && (y == rowsPer ==> col == 0)
      && log == Sent(g, planes, Before(g, iMCURow, y, col))
    }

    /** One call for an iMCU row, all variants: MCUs are built and handed over until the row is complete or the entropy coder,
        which takes at most budget of them, suspends. */
    method ProcessRow(source: Source, budget: nat) returns (done: bool)
      requires Valid() && iMCURow < g.total && (source == SavedBlocks ==> Stored(iMCURow + 1))
      modifies this, mcuBuffer, dummyBuffer
      ensures Valid() && old(log) <= log
      ensures iMCURow == old(iMCURow) + if done then 1 else 0
      ensures !done ==> |log| == |old(log)| + budget
    {
      hide ValidGrid, Planes, SmallMcu, ZeroAc, Before, Sent, McuPlaces, RowsIn, PerRow, BlocksAt, StoredPlane, Selection;
      AcrossPositive(g);
      Parts();
      var accepted: nat, yoffset: nat, col: nat := 0, vertOffset, mcuCtr;
      while yoffset < rowsPer
        invariant Working(yoffset, col) && iMCURow == old(iMCURow) && accepted <= budget
        invariant col < PerRow(g)
        invariant old(log) <= log && |log| == |old(log)| + accepted
        invariant source == SavedBlocks ==> Stored(iMCURow + 1)
        decreases rowsPer - yoffset
      {
        while col < PerRow(g)
          invariant Working(yoffset, col) && iMCURow == old(iMCURow) && accepted <= budget && yoffset < rowsPer
          invariant rowsPer == old(rowsPer)
          invariant old(log) <= log && |log| == |old(log)| + accepted
          invariant source == SavedBlocks ==> Stored(iMCURow + 1)
          decreases PerRow(g) - col
        {
          var mcu := BuildMcu(source, yoffset, col);
          if accepted == budget {
            vertOffset, mcuCtr := yoffset, col;
            return false;
          }
          OneMcu(g, planes, iMCURow, yoffset, col, log, mcu);
          log := log + [mcu];
          accepted := accepted + 1;
          col := col + 1;
        }
        RowDone(g, iMCURow, yoffset);
        mcuCtr := 0;
        yoffset, col := yoffset + 1, 0;
      }
      ImcuRowDone(g, iMCURow);
      iMCURow := iMCURow + 1;
      StartImcuRow();
      done := true;
    }

    /** The scan's components are among those stored. */
    lemma ChosenStored(r: nat)
      requires Shape() && AllStored(r)
      ensures Stored(r)
    {
      hide StoredPlane, Padded;
    }

    /** compress_first_pass: the blocks of an iMCU row of all components of the image are stored, then those of the scan are
        handed over; after a suspension both are repeated. */
    method CompressFirstPass(budget: nat) returns (done: bool)
      requires Valid() && iMCURow < g.total && AllStored(iMCURow)
      modifies this, mcuBuffer, dummyBuffer, frameWhole
      ensures Valid() && old(log) <= log && AllStored(old(iMCURow) + 1)
      ensures iMCURow == old(iMCURow) + if done then 1 else 0
      ensures !done ==> |log| == |old(log)| + budget
    {
      hide Before, Sent, McuPlaces, RowsIn, PerRow, StoredPlane, ZeroAc, Rest, Padded, SmallMcu;
      for c := 0 to |frame|
        invariant Valid() && iMCURow == old(iMCURow) && log == old(log)
        invariant forall k :: 0 <= k < c ==> StoredPlane(g, frame[k], framePlanes[k], frameWhole[k], iMCURow + 1)
        invariant forall k :: c <= k < |frame| ==> StoredPlane(g, frame[k], framePlanes[k], frameWhole[k], iMCURow)
      {
        StoreComponent(g, frame[c], framePlanes[c], frameWhole[c], iMCURow);
      }
      ChosenStored(iMCURow + 1);
      done := ProcessRow(SavedBlocks, budget);
    }

  }

  lemma BuiltAll(g: Grid, img: seq<Plane>, buf: seq<Block>, n: nat, places: seq<Place>)
    requires ValidGrid(g) && Planes(g, img) && Built(g, img, buf, n, places)
    ensures n <= |buf| && buf[..n] == BlocksAt(g, img, places)
  {
  }

  lemma BuiltSize(g: Grid, img: seq<Plane>, buf: seq<Block>, n: nat, places: seq<Place>)
    requires ValidGrid(g) && Planes(g, img) && Built(g, img, buf, n, places)
    ensures |buf| == MAX_BLOCKS == 10 && n == |places| <= MAX_BLOCKS
    ensures n > 0 ==> |buf[n - 1]| == BLOCK_SIZE == 64
  {
    if n > 0 {
      BuiltBefore(g, img, buf, n, places);
    }
  }

  lemma BuiltAside(g: Grid, img: seq<Plane>, buf: seq<Block>, n: nat, places: seq<Place>, k: nat, b: Block)
    requires ValidGrid(g) && Planes(g, img) && Built(g, img, buf, n, places) && n <= k < MAX_BLOCKS
    ensures k < |buf| && Built(g, img, buf[k := b], n, places)
  {
    assert buf[k := b][..n] == buf[..n];
  }

  lemma PlaceIs(g: Grid, r: nat, y: nat, col: nat, i: nat, yi: nat, xi: nat)
    requires i < |g.comps|
    ensures PlaceOf(g, r, y, col, i, yi, xi) == Place(i, r * g.comps[i].v + y + yi, col * McuWidth(g, i) + xi)
  {
  }

  lemma ComponentSizes(g: Grid, i: nat)
    requires ValidGrid(g) && i < |g.comps|
    ensures g.comps[i].v > 0 && g.comps[i].h > 0 && McuWidth(g, i) > 0 && McuHeight(g, i) > 0
  {
    assert ValidComponent(g, g.comps[i]);
  }

  lemma ZeroGiven(dc: int)
    ensures |Dummy(0)| == 64 && Dummy(0)[0 := dc] == Dummy(dc)
  {
  }

  lemma DummyStays(buf: seq<Block>, k: nat, dc: int)
    requires ZeroAc(buf) && k < |buf|
    ensures |buf[k]| == 64 && buf[k][0 := dc] == Dummy(dc) && ZeroAc(buf[k := buf[k][0 := dc]])
  {
    hide IsDummy;
    assert IsDummy(buf[k]);
    assert |buf[k]| == 64 by { DummySize(buf[k]); }
    DummyMade(buf[k], dc);
  }

  lemma DummySize(b: Block)
    requires IsDummy(b)
    ensures |b| == 64
  {
  }

  /** A place in an MCU is inside the padded array, in the block rows of its iMCU row. */
  lemma InsideArray(g: Grid, r: nat, y: nat, col: nat, i: nat, yi: nat, xi: nat)
    requires ValidGrid(g) && i < |g.comps| && Building(g, r, y, col) && yi < McuHeight(g, i) && xi < McuWidth(g, i)
    ensures var p := PlaceOf(g, r, y, col, i, yi, xi); var c := g.comps[i];
      p.row < (r + 1) * c.v <= g.total * c.v && p.col < g.across * c.h
  {
    hide Rest;
    var c := g.comps[i];
    assert ValidComponent(g, c);
    RowIsReal(g, r, y, col, i, yi);
    RestBounds(c.width, c.h);
    Distribute(r, 1, c.v);
    Distribute(g.total - r - 1, r + 1, c.v);
    assert (g.total - r - 1) * c.v >= 0;
    Distribute(g.across - 1, 1, c.h);
    if !Single(g) {
      Distribute(col, 1, c.h);
      Distribute(g.across - col - 1, col + 1, c.h);
      assert (g.across - col - 1) * c.h >= 0;
    }
  }

  lemma Nothing(g: Grid)
    requires ValidGrid(g)
    ensures Before(g, 0, 0, 0) == []
  {
  }

  // ----- the order of the MCUs -----

  lemma {:induction false} BeforeStep(g: Grid, r: nat, y: nat, col: nat, n: nat)
    requires ValidGrid(g) && col <= n
    ensures Before(g, r, y, col) <= Before(g, r, y, n)
    decreases n
  {
    hide McuPlaces, PerRow, RowsIn;
    if col < n {
      BeforeStep(g, r, y, col, n - 1);
    }
  }

  lemma {:induction false} BeforeRow(g: Grid, r: nat, y: nat, n: nat)
    requires ValidGrid(g) && y <= n
    ensures Before(g, r, y, 0) <= Before(g, r, n, 0)
    decreases n
  {
    hide McuPlaces, PerRow, RowsIn;
    if y < n {
      BeforeRow(g, r, y, n - 1);
      BeforeStep(g, r, n - 1, 0, PerRow(g));
      RowDone(g, r, n - 1);
    }
  }

  lemma {:induction false} BeforeImcuRow(g: Grid, r: nat, n: nat)
    requires ValidGrid(g) && r <= n
    ensures Before(g, r, 0, 0) <= Before(g, n, 0, 0)
    decreases n
  {
    hide McuPlaces, PerRow, RowsIn;
    if r < n {
      BeforeImcuRow(g, r, n - 1);
      BeforeRow(g, n - 1, 0, RowsIn(g, n - 1));
      ImcuRowDone(g, n - 1);
    }
  }

  /** The MCUs before any position are the first ones of the scan. */
  lemma BeforeIsPrefix(g: Grid, r: nat, y: nat, col: nat)
    requires ValidGrid(g) && Position(g, r, y, col)
    ensures Before(g, r, y, col) <= Whole(g)
  {
    hide McuPlaces, PerRow, RowsIn;
    if r < g.total {
      if col > 0 {
        BeforeStep(g, r, y, col, PerRow(g));
        RowDone(g, r, y);
        BeforeRow(g, r, y + 1, RowsIn(g, r));
      } else {
        BeforeRow(g, r, y, RowsIn(g, r));
      }
      ImcuRowDone(g, r);
      BeforeImcuRow(g, r + 1, g.total);
    }
  }

  /** Whatever the ways the MCUs are built and however the entropy coder suspends, two controllers for the same blocks hand
      over the same stream: one has got as far as the other or further, and at the end of the scan it is the whole one. */
  lemma OneStream(a: CoefController, b: CoefController)
    requires a.Valid() && b.Valid() && a.g == b.g && a.planes == b.planes
    ensures a.log <= b.log || b.log <= a.log
    ensures a.log <= Sent(a.g, a.planes, Whole(a.g))
    ensures a.iMCURow == a.g.total ==> a.log == Sent(a.g, a.planes, Whole(a.g))
  {
    hide McuPlaces, PerRow, RowsIn, ValidGrid, Planes, SmallMcu, Before, BlocksAt, ZeroAc;
    BeforeIsPrefix(a.g, a.iMCURow, a.vertOffset, a.mcuCtr);
    BeforeIsPrefix(b.g, b.iMCURow, b.vertOffset, b.mcuCtr);
    SentPrefix(a.g, a.planes, Before(a.g, a.iMCURow, a.vertOffset, a.mcuCtr), Whole(a.g));
    SentPrefix(b.g, b.planes, Before(b.g, b.iMCURow, b.vertOffset, b.mcuCtr), Whole(b.g));
  }

  lemma SentPrefix(g: Grid, img: seq<Plane>, some: seq<seq<Place>>, all: seq<seq<Place>>)
    requires ValidGrid(g) && Planes(g, img) && some <= all
    ensures Sent(g, img, some) <= Sent(g, img, all)
  {
    hide BlocksAt;
  }

  /** What the first pass has stored serves the passes for all scans of the image, whichever components they have. */
  lemma LaterScans(a: CoefController, b: CoefController, r: nat)
    requires a.Shape() && b.Shape() && a.frame == b.frame && a.framePlanes == b.framePlanes && a.frameWhole == b.frameWhole
    requires a.g.total == b.g.total && a.g.across == b.g.across && a.AllStored(a.g.total) && r <= b.g.total
    ensures b.Stored(r)
  {
    hide Padded, Rest, Planes, SmallMcu;
    forall i | 0 <= i < |b.whole|
      ensures StoredPlane(b.g, b.g.comps[i], b.planes[i], b.whole[i], r)
    {
      var c := b.chosen[i];
      assert StoredPlane(a.g, a.frame[c], a.framePlanes[c], a.frameWhole[c], a.g.total);
      Distribute(a.g.total - r, r, a.frame[c].v);
      assert (a.g.total - r) * a.frame[c].v >= 0;
    }
  }
}
