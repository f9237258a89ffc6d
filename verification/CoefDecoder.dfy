/** The decompressor's coefficient controller in multi-scan mode (start_iMCU_row and consume_data of jdcoefct.c): every block
    of the scan's grid is handed to the entropy decoder once, and comes back to the same place. */
module CoefDecoder {
  import opened FrameGeometry
  import opened McuLayout
  import opened McuBuilding
  import opened ScanCoverage
  import CoefEncoder

  /** The virtual arrays. */
  type Store = map<Place, Block>

  function Fetch(image: Store, places: seq<Place>): (s: seq<Block>)
    ensures |s| == |places| && forall j :: 0 <= j < |s| && places[j] in image ==> s[j] == image[places[j]]
  {
    seq(|places|, j requires 0 <= j < |places| => if places[j] in image then image[places[j]] else [])
  }

  /** The blocks of one MCU written back to its places. */
  function Put(image: Store, places: seq<Place>, blocks: seq<Block>): (r: Store)
    requires |places| == |blocks|
    ensures image.Keys <= r.Keys
  {
    if |places| == 0 then image
    else
      var n := |places| - 1;
      Put(image, places[..n], blocks[..n])[places[n] := blocks[n]]
  }

  /** What the entropy decoder makes of each MCU fits the MCU. */
  ghost predicate Fits(mcus: seq<seq<Place>>, outs: seq<seq<Block>>) {
    |mcus| <= |outs| && forall k :: 0 <= k < |mcus| ==> |mcus[k]| == |outs[k]|
  }

  function PutAll(image: Store, mcus: seq<seq<Place>>, outs: seq<seq<Block>>): (r: Store)
    requires Fits(mcus, outs)
    ensures image.Keys <= r.Keys
  {
    if |mcus| == 0 then image
    else
      var n := |mcus| - 1;
      Put(PutAll(image, mcus[..n], outs), mcus[n], outs[n])
  }

  /** What the entropy decoder finds in each MCU. */
  function GivenAll(image: Store, mcus: seq<seq<Place>>, outs: seq<seq<Block>>): (r: seq<seq<Block>>)
    requires Fits(mcus, outs)
    ensures |r| == |mcus| && forall k :: 0 <= k < |mcus| ==> |r[k]| == |mcus[k]|
  {
    if |mcus| == 0 then []
    else
      var n := |mcus| - 1;
      GivenAll(image, mcus[..n], outs) + [Fetch(PutAll(image, mcus[..n], outs), mcus[n])]
  }

  lemma {:induction false} PutAside(image: Store, places: seq<Place>, blocks: seq<Block>, p: Place)
    requires |places| == |blocks| && Count(places, p) == 0
    ensures p in Put(image, places, blocks) <==> p in image
    ensures p in image ==> Put(image, places, blocks)[p] == image[p]
    decreases |places|
  {
    if |places| > 0 {
      PutAside(image, places[..|places| - 1], blocks[..|places| - 1], p);
    }
  }

  lemma {:induction false} Occurs(places: seq<Place>, j: nat)
    requires j < |places|
    ensures Count(places, places[j]) >= 1
    decreases |places|
  {
    if j < |places| - 1 {
      Occurs(places[..|places| - 1], j);
    }
  }

  lemma {:induction false} PutAt(image: Store, places: seq<Place>, blocks: seq<Block>, j: nat)
    requires |places| == |blocks| && j < |places| && Count(places, places[j]) <= 1
    ensures places[j] in Put(image, places, blocks) && Put(image, places, blocks)[places[j]] == blocks[j]
    decreases |places|
  {
    var n := |places| - 1;
    if j < n {
      Occurs(places[..n], j);
      PutAt(image, places[..n], blocks[..n], j);
    }
  }

  lemma {:induction false} PutAllAside(image: Store, mcus: seq<seq<Place>>, outs: seq<seq<Block>>, p: Place)
    requires Fits(mcus, outs) && CountMcus(mcus, p) == 0
    ensures p in PutAll(image, mcus, outs) <==> p in image
    ensures p in image ==> PutAll(image, mcus, outs)[p] == image[p]
    decreases |mcus|
  {
    hide Put, Count;
    if |mcus| > 0 {
      var n := |mcus| - 1;
      PutAllAside(image, mcus[..n], outs, p);
      PutAside(PutAll(image, mcus[..n], outs), mcus[n], outs[n], p);
    }
  }

  /** If place number j of MCU k occurs nowhere else, the MCU finds there what was there before the scan, and what it leaves
      there stays. */
  lemma {:induction false} StoredOnce(image: Store, mcus: seq<seq<Place>>, outs: seq<seq<Block>>, k: nat, j: nat)
    requires Fits(mcus, outs) && k < |mcus| && j < |mcus[k]| && mcus[k][j] in image && CountMcus(mcus, mcus[k][j]) <= 1
    ensures GivenAll(image, mcus, outs)[k][j] == image[mcus[k][j]]
    ensures mcus[k][j] in PutAll(image, mcus, outs) && PutAll(image, mcus, outs)[mcus[k][j]] == outs[k][j]
    decreases |mcus|
  {
    hide Put, Count, PutAll, CountMcus;
    var n, p := |mcus| - 1, mcus[k][j];
    LastMcu(image, mcus, outs, p);
    if k < n {
      assert mcus[..n][k] == mcus[k];
      OccursInMcus(mcus[..n], k, j);
      StoredOnce(image, mcus[..n], outs, k, j);
      PutAside(PutAll(image, mcus[..n], outs), mcus[n], outs[n], p);
    } else {
      Occurs(mcus[n], j);
      PutAllAside(image, mcus[..n], outs, p);
      PutAt(PutAll(image, mcus[..n], outs), mcus[n], outs[n], j);
    }
  }

  lemma LastMcu(image: Store, mcus: seq<seq<Place>>, outs: seq<seq<Block>>, p: Place)
    requires Fits(mcus, outs) && |mcus| > 0
    ensures CountMcus(mcus, p) == CountMcus(mcus[..|mcus| - 1], p) + Count(mcus[|mcus| - 1], p)
    ensures PutAll(image, mcus, outs) == Put(PutAll(image, mcus[..|mcus| - 1], outs), mcus[|mcus| - 1], outs[|mcus| - 1])
  {
  }

  lemma {:induction false} OccursInMcus(mcus: seq<seq<Place>>, k: nat, j: nat)
    requires k < |mcus| && j < |mcus[k]|
    ensures CountMcus(mcus, mcus[k][j]) >= 1
    decreases |mcus|
  {
    if k < |mcus| - 1 {
      OccursInMcus(mcus[..|mcus| - 1], k, j);
    } else {
      Occurs(mcus[k], j);
    }
  }

  /** Place number j of MCU k: its block was given as it was before, and holds what was made of it. */
  ghost predicate ComesBack(image: Store, mcus: seq<seq<Place>>, outs: seq<seq<Block>>, k: nat, j: nat)
    requires Fits(mcus, outs) && k < |mcus| && j < |mcus[k]|
  {
    var p := mcus[k][j];
    && p in image && GivenAll(image, mcus, outs)[k][j] == image[p]
    && p in PutAll(image, mcus, outs) && PutAll(image, mcus, outs)[p] == outs[k][j]
  }

  /** After a whole scan every block of the grid holds what the entropy decoder made of it from what was there before the
      scan, and every other block is as before. */
  lemma ScanStores(g: Grid, image: Store, outs: seq<seq<Block>>)
    requires ValidGrid(g) && Fits(Whole(g), outs) && forall p :: InGrid(g, p) ==> p in image
    ensures forall k, j :: 0 <= k < |Whole(g)| && 0 <= j < |Whole(g)[k]| ==> ComesBack(image, Whole(g), outs, k, j)
    ensures forall p :: p in image && !InGrid(g, p) ==> p in PutAll(image, Whole(g), outs) && PutAll(image, Whole(g), outs)[p] == image[p]
  {
    hide Before, Put, PutAll, GivenAll, Count, CountMcus, InGrid;
    forall k, j | 0 <= k < |Whole(g)| && 0 <= j < |Whole(g)[k]|
      ensures ComesBack(image, Whole(g), outs, k, j)
    {
      EachOnce(g, Whole(g)[k][j]);
      OccursInMcus(Whole(g), k, j);
      StoredOnce(image, Whole(g), outs, k, j);
    }
    forall p | p in image && !InGrid(g, p)
      ensures p in PutAll(image, Whole(g), outs) && PutAll(image, Whole(g), outs)[p] == image[p]
    {
      EachOnce(g, p);
      PutAllAside(image, Whole(g), outs, p);
    }
  }

  /** What the encoder takes from its places comes back to the same places of the decoder: if the entropy decoder returns the
      MCUs that the encoder sent, every block of the grid holds the padded image's. */
  lemma ImageReturns(g: Grid, planes: seq<Plane>, image: Store, p: Place)
    requires ValidGrid(g) && Planes(g, planes) && (forall p :: InGrid(g, p) ==> p in image) && InGrid(g, p)
    ensures Fits(Whole(g), Sent(g, planes, Whole(g)))
    ensures p in PutAll(image, Whole(g), Sent(g, planes, Whole(g)))
    ensures PutAll(image, Whole(g), Sent(g, planes, Whole(g)))[p] == BlockAt(g, planes, p)
  {
    hide Before, Put, PutAll, GivenAll, InGrid, BlockAt;
    var outs := Sent(g, planes, Whole(g));
    ScanStores(g, image, outs);
    EachOnce(g, p);
    var k, j := FindPlace(Whole(g), p);
    assert ComesBack(image, Whole(g), outs, k, j);
  }

  lemma {:induction false} FindPlace(mcus: seq<seq<Place>>, p: Place) returns (k: nat, j: nat)
    requires CountMcus(mcus, p) > 0
    ensures k < |mcus| && j < |mcus[k]| && mcus[k][j] == p
    decreases |mcus|
  {
    if Count(mcus[|mcus| - 1], p) > 0 {
      k := |mcus| - 1;
      j := FindIn(mcus[k], p);
    } else {
      k, j := FindPlace(mcus[..|mcus| - 1], p);
    }
  }

  lemma {:induction false} FindIn(s: seq<Place>, p: Place) returns (j: nat)
    requires Count(s, p) > 0
    ensures j < |s| && s[j] == p
    decreases |s|
  {
    if s[|s| - 1] == p {
      j := |s| - 1;
    } else {
      j := FindIn(s[..|s| - 1], p);
    }
  }

  // ----- the controller -----

  datatype Status = Suspended | RowCompleted | ScanCompleted

  class CoefReader {
    const g: Grid
    var image: Store
    var inputRow: nat
    var mcuCtr: nat
    var vertOffset: nat
    var rowsPer: nat
    // what the entropy decoder was given, MCU by MCU
    var given: seq<seq<Block>>
    ghost const initial: Store

    ghost predicate Valid(outs: seq<seq<Block>>)
      reads this
    {
      && ValidGrid(g) && Fits(Whole(g), outs) && Position(g, inputRow, vertOffset, mcuCtr)
      && (inputRow < g.total ==> rowsPer == RowsIn(g, inputRow) && vertOffset < rowsPer && mcuCtr < PerRow(g))
      && Done(outs, vertOffset, mcuCtr)
    }

    /** The MCUs before a position of the current iMCU row have been decoded. */
    ghost predicate Done(outs: seq<seq<Block>>, y: nat, col: nat)
      requires ValidGrid(g)
      reads this
    {
      var mcus := Before(g, inputRow, y, col);
      && Fits(mcus, outs) && image == PutAll(initial, mcus, outs) && given == GivenAll(initial, mcus, outs)
    }

    /** start_input_pass, with what earlier scans left in the arrays. */
    constructor (g: Grid, image: Store, ghost outs: seq<seq<Block>>)
      requires ValidGrid(g) && Fits(Whole(g), outs)
      ensures Valid(outs) && this.g == g && this.image == image == initial && inputRow == 0 && given == []
    {
      hide ValidGrid, Fits;
      this.g, this.image, this.initial := g, image, image;
      inputRow, given := 0, [];
      mcuCtr, vertOffset, rowsPer := 0, 0, 0;
      new;
      CoefEncoder.AcrossPositive(g);
      StartImcuRow();
      CoefEncoder.Nothing(g);
      NoneFit(outs);
    }

    method StartImcuRow()
      requires ValidGrid(g) && inputRow < g.total
      modifies this`rowsPer, this`mcuCtr, this`vertOffset
      ensures mcuCtr == 0 && vertOffset == 0 && rowsPer == RowsIn(g, inputRow)
    {
      assert ValidComponent(g, g.comps[0]);
      if |g.comps| > 1 {
        rowsPer := 1;
      } else if inputRow < g.total - 1 {
        rowsPer := g.comps[0].v;
      } else {
        rowsPer := Rest(g.comps[0].height, g.comps[0].v);
      }
      mcuCtr, vertOffset := 0, 0;
    }

    /** Where the blocks of an MCU are. */
    method PlacesOf(y: nat, col: nat) returns (places: seq<Place>)
      requires ValidGrid(g) && Building(g, inputRow, y, col)
      ensures places == McuPlaces(g, inputRow, y, col, |g.comps|)
    {
      hide *;
      places := [];
      PartStarts(g, inputRow, y, col);
      for i := 0 to |g.comps|
        invariant places == Part(g, inputRow, y, col, i, 0, 0)
      {
        for yi := 0 to McuHeight(g, i)
          invariant places == Part(g, inputRow, y, col, i, yi, 0)
        {
          for xi := 0 to McuWidth(g, i)
            invariant places == Part(g, inputRow, y, col, i, yi, xi)
          {
            CoefEncoder.PlaceIs(g, inputRow, y, col, i, yi, xi);
            PartBlock(g, inputRow, y, col, i, yi, xi);
            places := places + [Place(i, inputRow * g.comps[i].v + y + yi, col * McuWidth(g, i) + xi)];
          }
          PartRow(g, inputRow, y, col, i, yi);
        }
        PartComponent(g, inputRow, y, col, i);
      }
      AllParts(g, inputRow, y, col);
    }

    /** consume_data: at most budget MCUs can be decoded before the source suspends; outs is what the entropy decoder makes
        of the MCUs of the scan. */
    method ConsumeData(outs: seq<seq<Block>>, budget: nat) returns (status: Status)
      requires Valid(outs) && inputRow < g.total
      modifies this
      ensures Valid(outs) && old(given) <= given
      ensures status.Suspended? ==> inputRow == old(inputRow) && |given| == |old(given)| + budget
      ensures !status.Suspended? ==> inputRow == old(inputRow) + 1 && (status.ScanCompleted? <==> inputRow == g.total)
      ensures status.ScanCompleted? ==> image == PutAll(initial, Whole(g), outs) && given == GivenAll(initial, Whole(g), outs)
    {
      hide ValidGrid, Before, McuPlaces, RowsIn, PerRow, Fits, PutAll, GivenAll, Put;
      CoefEncoder.AcrossPositive(g);
      assert |g.comps| > 0 by { SomeComponent(g); }
      var decoded: nat, yoffset: nat, col: nat := 0, vertOffset, mcuCtr;
      while yoffset < rowsPer
        invariant inputRow == old(inputRow) < g.total && rowsPer == RowsIn(g, inputRow) && yoffset <= rowsPer
        invariant col < PerRow(g) && (yoffset == rowsPer ==> col == 0)
        invariant Done(outs, yoffset, col) && decoded <= budget
        invariant old(given) <= given && |given| == |old(given)| + decoded
        decreases rowsPer - yoffset
      {
        while col < PerRow(g)
          invariant inputRow == old(inputRow) && rowsPer == RowsIn(g, inputRow) && yoffset < rowsPer && col <= PerRow(g)
          invariant rowsPer == old(rowsPer)
          invariant Done(outs, yoffset, col) && decoded <= budget
          invariant old(given) <= given && |given| == |old(given)| + decoded
          decreases PerRow(g) - col
        {
          var places := PlacesOf(yoffset, col);
          if decoded == budget {
            vertOffset, mcuCtr := yoffset, col;
            return Suspended;
          }
          NextFits(g, inputRow, yoffset, col, outs);
          OneDecoded(g, initial, inputRow, yoffset, col, outs, places, image, given);
          given := given + [Fetch(image, places)];
          image := Put(image, places, outs[|given| - 1]);
          decoded := decoded + 1;
          col := col + 1;
        }
        CoefEncoder.RowDone(g, inputRow, yoffset);
        mcuCtr := 0;
        yoffset, col := yoffset + 1, 0;
      }
      CoefEncoder.ImcuRowDone(g, inputRow);
      inputRow := inputRow + 1;
      if inputRow < g.total {
        StartImcuRow();
        return RowCompleted;
      }
      vertOffset, mcuCtr := 0, 0;
      status := ScanCompleted;
    }
  }

  lemma NoneFit(outs: seq<seq<Block>>)
    ensures Fits([], outs)
  {
  }

  lemma SomeComponent(g: Grid)
    requires ValidGrid(g)
    ensures |g.comps| > 0
  {
  }

  lemma AllParts(g: Grid, r: nat, y: nat, col: nat)
    ensures Part(g, r, y, col, |g.comps|, 0, 0) == McuPlaces(g, r, y, col, |g.comps|)
  {
  }

  /** The next MCU is one of the scan's, so the entropy decoder's result for it fits. */
  lemma NextFits(g: Grid, r: nat, y: nat, col: nat, outs: seq<seq<Block>>)
    requires ValidGrid(g) && Building(g, r, y, col) && Fits(Whole(g), outs)
    ensures Fits(Before(g, r, y, col + 1), outs)
  {
    hide Before, RowsIn, PerRow;
    CoefEncoder.BeforeIsPrefix(g, r, y, col + 1);
  }

  lemma OneDecoded(g: Grid, initial: Store, r: nat, y: nat, col: nat, outs: seq<seq<Block>>, places: seq<Place>, image: Store,
                   given: seq<seq<Block>>)
    requires ValidGrid(g) && Fits(Before(g, r, y, col), outs) && Fits(Before(g, r, y, col + 1), outs)
    requires places == McuPlaces(g, r, y, col, |g.comps|)
    requires image == PutAll(initial, Before(g, r, y, col), outs) && given == GivenAll(initial, Before(g, r, y, col), outs)
    ensures |given| < |outs| && |places| == |outs[|given|]|
    ensures Put(image, places, outs[|given|]) == PutAll(initial, Before(g, r, y, col + 1), outs)
    ensures given + [Fetch(image, places)] == GivenAll(initial, Before(g, r, y, col + 1), outs)
  {
    hide McuPlaces, Put;
    var mcus, next := Before(g, r, y, col), Before(g, r, y, col + 1);
    assert next == mcus + [places];
    assert next[..|mcus|] == mcus && next[|mcus|] == places;
  }
}
