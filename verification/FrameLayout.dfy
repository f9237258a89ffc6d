/** The layouts of scans come from the frame: the order in which per_scan_setup and the loops over MCUs visit blocks
    (jcmaster.c, jdinput.c, jdcoefct.c) meets what the round trip of progressive images asks of a layout. */
module FrameLayout {
  import ByteStream
  import opened FrameGeometry
  import opened McuLayout
  import opened McuBuilding
  import ScanCoverage
  import CoefDecoder
  import DcCoding
  import ScanCoding
  import ScanScript
  import PI = ProgressiveImage

  /** The components of the frame, and the numbers of iMCU rows and of MCUs across it. */
  datatype Canvas = Canvas(comps: seq<Component>, total: nat, across: nat)

  ghost predicate ValidCanvas(f: Canvas) {
    forall c :: 0 <= c < |f.comps| ==> ValidComponent(Grid(f.comps, f.total, f.across), f.comps[c])
  }

  /** Every frame gives a valid canvas. */
  lemma FrameCanvas(fr: Frame, factors: seq<(nat, nat)>, f: Canvas)
    requires ValidFrame(fr) && |factors| > 0 && forall i :: 0 <= i < |factors| ==> factors[i].0 > 0 && factors[i].1 > 0
    requires f.comps == seq(|factors|, i requires 0 <= i < |factors| => Sized(fr, factors[i].0, factors[i].1))
    requires f.total == TotalRows(fr) && f.across == McusAcross(fr)
    ensures ValidCanvas(f)
  {
    hide CeilDiv, Rest, Sized;
    FrameGrid(fr, factors, Grid(f.comps, f.total, f.across));
  }

  /** Blocks in a row of the padded array of a component. */
  function Stride(f: Canvas, c: nat): nat
    requires c < |f.comps|
  {
    f.across * f.comps[c].h
  }

  /** The real blocks of the frame, and all blocks that are stored. */
  predicate IsReal(f: Canvas, r: PI.Ref) {
    && r.comp < |f.comps| && Stride(f, r.comp) > 0
    && r.block / Stride(f, r.comp) < f.comps[r.comp].height && r.block % Stride(f, r.comp) < f.comps[r.comp].width
  }

  predicate IsStored(f: Canvas, r: PI.Ref) {
    r.comp < |f.comps| && Stride(f, r.comp) > 0 && r.block / Stride(f, r.comp) < f.total * f.comps[r.comp].v
  }

  /** The scan's components belong to the frame. */
  ghost predicate Chosen(f: Canvas, components: seq<int>) {
    && |components| > 0 && (forall i :: 0 <= i < |components| ==> 0 <= components[i] < |f.comps|)
    && forall i, j :: 0 <= i < j < |components| ==> components[i] != components[j]
  }

  function GridOf(f: Canvas, components: seq<int>): (g: Grid)
    requires Chosen(f, components)
  {
    Grid(seq(|components|, i requires 0 <= i < |components| => f.comps[components[i]]), f.total, f.across)
  }

  lemma GridValid(f: Canvas, components: seq<int>)
    requires ValidCanvas(f) && Chosen(f, components)
    ensures ValidGrid(GridOf(f, components))
  {
    hide Rest;
    var g := GridOf(f, components);
    forall i | 0 <= i < |g.comps|
      ensures ValidComponent(g, g.comps[i])
    {
      assert ValidComponent(Grid(f.comps, f.total, f.across), f.comps[components[i]]);
    }
  }

  /** Where a block of the scan is stored. */
  function RefOf(f: Canvas, components: seq<int>, p: Place): PI.Ref
    requires Chosen(f, components)
  {
    if p.i < |components| then PI.Ref(components[p.i], p.row * Stride(f, components[p.i]) + p.col) else PI.Ref(0, 0)
  }

  function RefsOf(f: Canvas, components: seq<int>, places: seq<Place>): (r: seq<PI.Ref>)
    requires Chosen(f, components)
    ensures |r| == |places| && forall j :: 0 <= j < |r| ==> r[j] == RefOf(f, components, places[j])
  {
    seq(|places|, j requires 0 <= j < |places| => RefOf(f, components, places[j]))
  }

  function Refs(f: Canvas, components: seq<int>, mcus: seq<seq<Place>>): (r: PI.Layout)
    requires Chosen(f, components)
    ensures |r| == |mcus| && forall k :: 0 <= k < |r| ==> r[k] == RefsOf(f, components, mcus[k])
  {
    seq(|mcus|, k requires 0 <= k < |mcus| => RefsOf(f, components, mcus[k]))
  }

  /** The layout of a scan. */
  function LayoutOf(f: Canvas, components: seq<int>): PI.Layout
    requires ValidCanvas(f) && Chosen(f, components)
  {
    GridValid(f, components);
    Refs(f, components, Whole(GridOf(f, components)))
  }

  // ----- each block once -----

  /** The places of the grid are stored at different addresses, within the arrays; in a scan of one component all are real. */
  lemma InsideRow(f: Canvas, components: seq<int>, p: Place)
    requires ValidCanvas(f) && Chosen(f, components) && ScanCoverage.InGrid(GridOf(f, components), p)
    ensures p.i < |components| && p.col < Stride(f, components[p.i]) && p.row < f.total * f.comps[components[p.i]].v
    ensures RefOf(f, components, p).block / Stride(f, components[p.i]) == p.row
    ensures RefOf(f, components, p).block % Stride(f, components[p.i]) == p.col
    ensures |components| == 1 ==> p.row < f.comps[components[p.i]].height && p.col < f.comps[components[p.i]].width
  {
    hide Rest;
    var c := f.comps[components[p.i]];
    assert ValidComponent(Grid(f.comps, f.total, f.across), c);
    RestBounds(c.width, c.h);
    RestBounds(c.height, c.v);
    Distribute(f.across - 1, 1, c.h);
    Distribute(f.total - 1, 1, c.v);
    Quotient(p.row * Stride(f, components[p.i]) + p.col, p.row, Stride(f, components[p.i]), p.col);
  }

  lemma SameRef(f: Canvas, components: seq<int>, p: Place, q: Place)
    requires ValidCanvas(f) && Chosen(f, components)
    requires ScanCoverage.InGrid(GridOf(f, components), p) && ScanCoverage.InGrid(GridOf(f, components), q)
    requires RefOf(f, components, p) == RefOf(f, components, q)
    ensures p == q
  {
    hide Stride, ScanCoverage.InGrid, GridOf, ValidCanvas;
    InsideRow(f, components, p);
    InsideRow(f, components, q);
  }

  /** A place that occurs once has one position in its MCU, and only one MCU. */
  lemma {:induction false} OnePosition(places: seq<Place>, i: nat, j: nat)
    requires i < j < |places| && places[i] == places[j]
    ensures ScanCoverage.Count(places, places[i]) >= 2
    decreases |places|
  {
    var n := |places| - 1;
    if j < n {
      OnePosition(places[..n], i, j);
    } else {
      CoefDecoder.Occurs(places[..n], i);
    }
  }

  lemma {:induction false} OneMcu(mcus: seq<seq<Place>>, k: nat, i: nat, l: nat, j: nat)
    requires k < l < |mcus| && i < |mcus[k]| && j < |mcus[l]| && mcus[k][i] == mcus[l][j]
    ensures ScanCoverage.CountMcus(mcus, mcus[k][i]) >= 2
    decreases |mcus|
  {
    hide ScanCoverage.Count;
    var n := |mcus| - 1;
    if l < n {
      OneMcu(mcus[..n], k, i, l, j);
    } else {
      CoefDecoder.OccursInMcus(mcus[..n], k, i);
      CoefDecoder.Occurs(mcus[n], j);
    }
  }

  lemma {:induction false} CountOfOne(mcus: seq<seq<Place>>, k: nat, p: Place)
    requires k < |mcus|
    ensures ScanCoverage.Count(mcus[k], p) <= ScanCoverage.CountMcus(mcus, p)
    decreases |mcus|
  {
    hide ScanCoverage.Count;
    if k < |mcus| - 1 {
      CountOfOne(mcus[..|mcus| - 1], k, p);
    }
  }

  /** Every place of the scan is in its grid, and nowhere else in the scan. */
  lemma WholeOnce(g: Grid, k: nat, i: nat, l: nat, j: nat)
    requires ValidGrid(g) && k < |Whole(g)| && i < |Whole(g)[k]| && l < |Whole(g)| && j < |Whole(g)[l]|
    requires Whole(g)[k][i] == Whole(g)[l][j]
    ensures ScanCoverage.InGrid(g, Whole(g)[k][i]) && k == l && i == j
  {
    hide Before, ScanCoverage.InGrid, ScanCoverage.Count, ScanCoverage.CountMcus;
    var mcus, p := Whole(g), Whole(g)[k][i];
    ScanCoverage.EachOnce(g, p);
    CoefDecoder.OccursInMcus(mcus, k, i);
    if k < l {
      OneMcu(mcus, k, i, l, j);
    } else if l < k {
      OneMcu(mcus, l, j, k, i);
    } else {
      CountOfOne(mcus, k, p);
      if i < j {
        OnePosition(mcus[k], i, j);
      } else if j < i {
        OnePosition(mcus[k], j, i);
      }
    }
  }

  lemma {:induction false} OnceFrom(f: Canvas, components: seq<int>, n: nat)
    requires ValidCanvas(f) && Chosen(f, components) && n <= |LayoutOf(f, components)|
    ensures PI.Once(LayoutOf(f, components)[n..])
    decreases |LayoutOf(f, components)| - n
  {
    hide Whole, Before, RefOf, PI.Cells, ValidCanvas, Chosen, GridOf;
    var layout := LayoutOf(f, components);
    if n < |layout| {
      OnceFrom(f, components, n + 1);
      assert layout[n..][0] == layout[n] && layout[n..][1..] == layout[n + 1..];
      forall i, j | 0 <= i < j < |layout[n]|
        ensures layout[n][i] != layout[n][j]
      {
        if layout[n][i] == layout[n][j] {
          OneRef(f, components, n, i, n, j);
        }
      }
      forall r | r in layout[n]
        ensures r !in PI.Cells(layout[n + 1..])
      {
        var i :| 0 <= i < |layout[n]| && layout[n][i] == r;
        if r in PI.Cells(layout[n + 1..]) {
          var l, j := PI.CellOf(layout[n + 1..], r);
          OneRef(f, components, n, i, n + 1 + l, j);
        }
      }
    }
  }

  /** A stored block has one position in the layout. */
  lemma OneRef(f: Canvas, components: seq<int>, k: nat, i: nat, l: nat, j: nat)
    requires ValidCanvas(f) && Chosen(f, components)
    requires k < |LayoutOf(f, components)| && i < |LayoutOf(f, components)[k]|
    requires l < |LayoutOf(f, components)| && j < |LayoutOf(f, components)[l]|
    requires LayoutOf(f, components)[k][i] == LayoutOf(f, components)[l][j]
    ensures k == l && i == j
  {
    hide Before, ScanCoverage.InGrid, RefOf, ValidCanvas, Chosen, GridOf;
    GridValid(f, components);
    var g := GridOf(f, components);
    WholeOnce(g, k, i, k, i);
    WholeOnce(g, l, j, l, j);
    SameRef(f, components, Whole(g)[k][i], Whole(g)[l][j]);
    WholeOnce(g, k, i, l, j);
  }

  // ----- the cells of a layout -----

  /** The layout has exactly the stored blocks of the scan's components; with one component, exactly the real ones. */
  lemma CellsAre(f: Canvas, components: seq<int>, r: PI.Ref)
    requires ValidCanvas(f) && Chosen(f, components)
    ensures r in PI.Cells(LayoutOf(f, components)) <==>
      r.comp in components && if |components| == 1 then IsReal(f, r) else IsStored(f, r)
  {
    hide Before, PI.Cells, Stride, Rest;
    GridValid(f, components);
    var g, layout := GridOf(f, components), LayoutOf(f, components);
    if r in PI.Cells(layout) {
      var k, j := PI.CellOf(layout, r);
      WholeOnce(g, k, j, k, j);
      InsideRow(f, components, Whole(g)[k][j]);
    }
    if r.comp in components && if |components| == 1 then IsReal(f, r) else IsStored(f, r) {
      var i :| 0 <= i < |components| && components[i] == r.comp;
      PlaceFor(f, components, r, i);
    }
  }

  lemma PlaceFor(f: Canvas, components: seq<int>, r: PI.Ref, i: nat)
    requires ValidCanvas(f) && Chosen(f, components) && i < |components| && components[i] == r.comp
    requires if |components| == 1 then IsReal(f, r) else IsStored(f, r)
    ensures r in PI.Cells(LayoutOf(f, components))
  {
    hide Before, PI.Cells, Rest;
    GridValid(f, components);
    var g, layout, s := GridOf(f, components), LayoutOf(f, components), Stride(f, r.comp);
    var p := Place(i, r.block / s, r.block % s);
    assert r.block == p.row * s + p.col;
    assert ScanCoverage.InGrid(g, p);
    ScanCoverage.EachOnce(g, p);
    var k, j := CoefDecoder.FindPlace(Whole(g), p);
    assert layout[k][j] == RefOf(f, components, p) == r;
    PI.CellsAre(layout, k, j);
  }

  // ----- scans of a frame -----

  /** MCU_membership: for each block of an MCU the component that it belongs to. */
  function Membership(g: Grid): (m: seq<nat>)
    ensures |m| == |McuPlaces(g, 0, 0, 0, |g.comps|)|
  {
    seq(|McuPlaces(g, 0, 0, 0, |g.comps|)|, j requires 0 <= j < |McuPlaces(g, 0, 0, 0, |g.comps|)| => McuPlaces(g, 0, 0, 0, |g.comps|)[j].i)
  }

  lemma OneBlockMcu(g: Grid)
    requires Single(g)
    ensures Membership(g) == [0]
  {
    var row := RowPlaces(g, 0, 0, 0, 0, 0, 1);
    assert RowPlaces(g, 0, 0, 0, 0, 0, 0) == [];
    assert row == [] + [PlaceOf(g, 0, 0, 0, 0, 0, 0)];
    assert ComponentPlaces(g, 0, 0, 0, 0, 0) == [];
    assert ComponentPlaces(g, 0, 0, 0, 0, 1) == [] + row;
    assert McuPlaces(g, 0, 0, 0, 0) == [];
    assert McuPlaces(g, 0, 0, 0, 1) == [] + ComponentPlaces(g, 0, 0, 0, 0, 1);
  }

  lemma {:induction false} McuSizes(g: Grid, r: nat, y: nat, col: nat, k: nat)
    requires ValidGrid(g) && k < |Before(g, r, y, col)|
    ensures |Before(g, r, y, col)[k]| == |Membership(g)|
    decreases r, y, col
  {
    hide McuPlaces, PerRow, RowsIn;
    if col > 0 {
      McuSize(g, r, y, col - 1, |g.comps|);
      if k < |Before(g, r, y, col - 1)| {
        McuSizes(g, r, y, col - 1, k);
      }
    } else if y > 0 {
      McuSizes(g, r, y - 1, PerRow(g), k);
    } else if r > 0 {
      McuSizes(g, r - 1, RowsIn(g, r - 1), 0, k);
    }
  }

  lemma RealIsStored(f: Canvas, r: PI.Ref)
    requires ValidCanvas(f) && IsReal(f, r)
    ensures IsStored(f, r)
  {
    hide Rest;
    var c := f.comps[r.comp];
    assert ValidComponent(Grid(f.comps, f.total, f.across), c);
    RestBounds(c.height, c.v);
    Distribute(f.total - 1, 1, c.v);
  }

  /** The arrays have a place for every stored block, and visible are the real ones. */
  ghost predicate OnCanvas(f: Canvas, orig: PI.Image, visible: set<PI.Ref>) {
    && ValidCanvas(f) && PI.WholeBlocks(orig)
    && (forall r :: IsStored(f, r) ==> r in orig)
    && forall r :: r in visible <==> IsReal(f, r)
  }

  /** The scan is one of the frame: its layout and MCU structure are those that per_scan_setup and the loops make. */
  ghost predicate ScanOfFrame(f: Canvas, s: PI.Step) {
    && ValidCanvas(f) && PI.ScanParameters(s.info) && Chosen(f, s.info.components)
    && s.layout == LayoutOf(f, s.info.components) && s.mcu.membership == Membership(GridOf(f, s.info.components))
    && DcCoding.ValidMcu(s.mcu, |s.ts|) && |s.mcu.dcTbl| == |s.info.components|
  }

  /** A scan of the frame covers the real blocks of its components, each block once, and finds a place for each. */
  lemma FrameCovers(f: Canvas, s: PI.Step, orig: PI.Image, visible: set<PI.Ref>)
    requires ScanOfFrame(f, s) && OnCanvas(f, orig, visible)
    ensures PI.Structured(s) && PI.Covers(s, orig, visible)
  {
    hide Before, PI.Cells, IsReal, IsStored, Whole, ValidCanvas, Chosen, RefOf, GridOf, PI.Once, Membership;
    var cs := s.info.components;
    GridValid(f, cs);
    assert s.layout[0..] == s.layout;
    OnceFrom(f, cs, 0);
    GridSize(f, cs);
    if |cs| == 1 {
      OneBlockMcu(GridOf(f, cs));
    }
    forall i | 0 <= i < |s.layout|
      ensures |s.layout[i]| == |s.mcu.membership| && forall j :: 0 <= j < |s.layout[i]| ==> s.layout[i][j] in orig
    {
      LayoutSizes(f, cs, i);
      forall j | 0 <= j < |s.layout[i]|
        ensures s.layout[i][j] in orig
      {
        PI.CellsAre(s.layout, i, j);
        CellStored(f, cs, s.layout[i][j]);
      }
    }
    forall c: PI.Ref
      ensures c in PI.Cells(s.layout) ==> c.comp in cs && (|cs| == 1 ==> c in visible)
      ensures c in visible && c.comp in cs ==> c in PI.Cells(s.layout)
    {
      CellsAre(f, cs, c);
      if IsReal(f, c) {
        RealIsStored(f, c);
      }
    }
  }

  lemma GridSize(f: Canvas, components: seq<int>)
    requires Chosen(f, components)
    ensures |GridOf(f, components).comps| == |components|
  {
  }

  lemma LayoutSizes(f: Canvas, components: seq<int>, i: nat)
    requires ValidCanvas(f) && Chosen(f, components) && i < |LayoutOf(f, components)|
    ensures |LayoutOf(f, components)[i]| == |Membership(GridOf(f, components))|
  {
    hide Before, Membership, RefOf, GridOf, ValidCanvas;
    GridValid(f, components);
    var g := GridOf(f, components);
    McuSizes(g, g.total, 0, 0, i);
  }

  lemma CellStored(f: Canvas, components: seq<int>, r: PI.Ref)
    requires ValidCanvas(f) && Chosen(f, components) && r in PI.Cells(LayoutOf(f, components))
    ensures IsStored(f, r)
  {
    hide PI.Cells, IsReal, IsStored, ValidCanvas;
    CellsAre(f, components, r);
    if IsReal(f, r) {
      RealIsStored(f, r);
    }
  }

  /** The bytes of a scan of the frame stand in the file. */
  ghost predicate StepOfFrame(data: seq<ByteStream.Byte>, f: Canvas, s: PI.Step, orig: PI.Image, visible: set<PI.Ref>) {
    && OnCanvas(f, orig, visible) && ScanOfFrame(f, s) && ScanCoding.ValidScan(PI.ScanOf(s), |s.ts|)
    && (FrameCovers(f, s, orig, visible); PI.Written(data, s, orig))
  }

  lemma StepsOfFrame(data: seq<ByteStream.Byte>, f: Canvas, steps: seq<PI.Step>, orig: PI.Image, visible: set<PI.Ref>)
    requires forall i :: 0 <= i < |steps| ==> StepOfFrame(data, f, steps[i], orig, visible)
    ensures PI.StepsOk(data, steps, orig, visible)
  {
    hide PI.Written, PI.Covers, OnCanvas, ScanCoding.ValidScan;
    forall i | 0 <= i < |steps|
      ensures PI.StepOk(data, steps[i], orig, visible)
    {
      assert StepOfFrame(data, f, steps[i], orig, visible);
      FrameCovers(f, steps[i], orig, visible);
    }
  }

  /** Progressive round trip for frames: after the first m scans of any legal progressive script every coefficient of every
      real block equals the original truncated at the bit position it was last sent at, for any image size and sampling. */
  lemma FrameRoundTrip(data: seq<ByteStream.Byte>, f: Canvas, steps: seq<PI.Step>, orig: PI.Image, visible: set<PI.Ref>, m: nat)
    requires ScanScript.Progressive(PI.Script(steps), |f.comps|) && m <= |steps|
    requires OnCanvas(f, orig, visible) && PI.Storable(orig, visible)
    requires forall i :: 0 <= i < m ==> StepOfFrame(data, f, steps[i], orig, visible)
    ensures PI.AllReadable(data, steps[..m], orig.Keys)
    ensures var img := PI.DecodeScans(data, steps[..m], PI.Blank(orig));
      var pos := ScanScript.FinalPos(PI.Script(steps)[..m], ScanScript.Unsent(|f.comps|));
      forall r :: r in visible ==> PI.KnownBlock(orig[r], img[r], pos[r.comp])
  {
    hide PI.Written, PI.Covers, StepOfFrame, PI.StepOk, ScanScript.Progressive, PI.KnownBlock, PI.DecodeScans, PI.Storable, PI.StepsOk, PI.AllReadable;
    StepsOfFrame(data, f, steps[..m], orig, visible);
    forall r | r in visible
      ensures r.comp < |f.comps|
    {
      assert IsReal(f, r);
    }
    PI.ProgressiveRoundTrip(data, steps, |f.comps|, orig, visible, m);
  }

  /** Sequential round trip for frames: after the first m scans of any legal sequential script the real blocks of the components
      sent equal the original, and those of the other components are zero. */
  lemma FrameSequential(data: seq<ByteStream.Byte>, f: Canvas, steps: seq<PI.Step>, orig: PI.Image, visible: set<PI.Ref>, m: nat)
    requires ScanScript.Sequential(PI.Script(steps), |f.comps|) && m <= |steps|
    requires OnCanvas(f, orig, visible) && PI.Storable(orig, orig.Keys) && visible <= orig.Keys
    requires forall i :: 0 <= i < m ==> StepOfFrame(data, f, steps[i], orig, visible)
    ensures PI.AllReadable(data, steps[..m], orig.Keys)
    ensures var img := PI.DecodeScans(data, steps[..m], PI.Blank(orig));
      forall r :: r in visible ==> img[r] == if ScanScript.SentBy(PI.Script(steps), m, r.comp) then orig[r] else PI.ZeroBlock()
  {
    hide PI.Written, PI.Covers, StepOfFrame, PI.StepOk, ScanScript.Sequential, PI.KnownBlock, PI.DecodeScans, PI.Storable, PI.StepsOk,
         PI.AllReadable, ScanScript.SentBy;
    StepsOfFrame(data, f, steps[..m], orig, visible);
    forall r | r in visible
      ensures r.comp < |f.comps|
    {
      assert IsReal(f, r);
    }
    PI.SequentialRoundTrip(data, steps, |f.comps|, orig, visible, m);
  }
}
