/** initial_setup and per_scan_setup (jcmaster.c, and the same in jdinput.c): checks and sizes of a frame, and the MCUs of a scan. */
module FrameSetup {
  import opened FrameGeometry
  import opened McuLayout
  import opened McuBuilding
  import opened FrameLayout

  const JPEG_MAX_DIMENSION: int := 65500
  const MAX_COMPONENTS: nat := 10
  const MAX_SAMP_FACTOR: int := 4

  /** Sampling factors, as they come from a file or an application. */
  datatype Factors = Factors(h: int, v: int)

  /** The checks of initial_setup. */
  ghost predicate Acceptable(width: int, height: int, factors: seq<Factors>) {
    && 1 <= width <= 65500 && 1 <= height <= 65500 && 1 <= |factors| <= 10
    && forall i :: 0 <= i < |factors| ==> 1 <= factors[i].h <= 4 && 1 <= factors[i].v <= 4
  }

  /** max is the largest of the numbers, and at least 1. */
  ghost predicate Largest(max: nat, s: seq<int>) {
    max >= 1 && (forall i :: 0 <= i < |s| ==> s[i] <= max) && (max in s || max == 1)
  }

  function Across(factors: seq<Factors>): (s: seq<int>)
    ensures |s| == |factors| && forall i :: 0 <= i < |s| ==> s[i] == factors[i].h
  {
    seq(|factors|, i requires 0 <= i < |factors| => factors[i].h)
  }

  function Down(factors: seq<Factors>): (s: seq<int>)
    ensures |s| == |factors| && forall i :: 0 <= i < |s| ==> s[i] == factors[i].v
  {
    seq(|factors|, i requires 0 <= i < |factors| => factors[i].v)
  }

  /** Component c has the fewest blocks that hold its share of the image. */
  ghost predicate Fewest(f: Frame, c: Component) {
    && c.width > 0 && (c.width - 1) * (8 * f.maxH) < f.width * c.h <= c.width * (8 * f.maxH)
    && c.height > 0 && (c.height - 1) * (8 * f.maxV) < f.height * c.v <= c.height * (8 * f.maxV)
  }

  /** The largest sampling factors; fails if one is out of range. */
  method MaxFactors(factors: seq<Factors>) returns (ok: bool, maxH: nat, maxV: nat)
    ensures ok <==> forall i :: 0 <= i < |factors| ==> 1 <= factors[i].h <= 4 && 1 <= factors[i].v <= 4
    ensures ok ==> Largest(maxH, Across(factors)) && Largest(maxV, Down(factors))
  {
    ok, maxH, maxV := true, 1, 1;
    for ci := 0 to |factors|
      invariant ok && forall i :: 0 <= i < ci ==> 1 <= factors[i].h <= 4 && 1 <= factors[i].v <= 4
      invariant Largest(maxH, Across(factors[..ci])) && Largest(maxV, Down(factors[..ci]))
    {
      var h, v := factors[ci].h, factors[ci].v;
      if h <= 0 || h > MAX_SAMP_FACTOR || v <= 0 || v > MAX_SAMP_FACTOR {
        return false, maxH, maxV;
      }
      assert Across(factors[..ci + 1]) == Across(factors[..ci]) + [h] && Down(factors[..ci + 1]) == Down(factors[..ci]) + [v];
      maxH := if h > maxH then h else maxH;
      maxV := if v > maxV then v else maxV;
    }
    assert factors[..|factors|] == factors;
  }

  /** initial_setup. */
  method InitialSetup(width: int, height: int, factors: seq<Factors>) returns (ok: bool, frame: Frame, canvas: Canvas)
    ensures ok <==> Acceptable(width, height, factors)
    ensures ok ==> ValidFrame(frame) && frame.width == width && frame.height == height
    ensures ok ==> Largest(frame.maxH, Across(factors)) && Largest(frame.maxV, Down(factors))
    ensures ok ==> ValidCanvas(canvas) && |canvas.comps| == |factors|
    ensures ok ==> forall i :: 0 <= i < |factors| ==>
      canvas.comps[i].h == factors[i].h && canvas.comps[i].v == factors[i].v && Fewest(frame, canvas.comps[i])
    ensures ok ==> canvas.total > 0 && (canvas.total - 1) * (8 * frame.maxV) < height <= canvas.total * (8 * frame.maxV)
    ensures ok ==> canvas.across > 0 && (canvas.across - 1) * (8 * frame.maxH) < width <= canvas.across * (8 * frame.maxH)
  {
    ok, frame, canvas := false, Frame(0, 0, 0, 0), Canvas([], 0, 0);
    if height <= 0 || width <= 0 || |factors| <= 0 {
      return;
    }
    if height > JPEG_MAX_DIMENSION || width > JPEG_MAX_DIMENSION || |factors| > MAX_COMPONENTS {
      return;
    }
    var maxH, maxV;
    ok, maxH, maxV := MaxFactors(factors);
    if !ok {
      return;
    }
    hide CeilDiv, ValidCanvas, Fewest, Largest;
    frame := Frame(width, height, maxH, maxV);
    assert ValidFrame(frame) by { LargestIs(maxH, Across(factors)); LargestIs(maxV, Down(factors)); }
    var comps: seq<Component> := [];
    for ci := 0 to |factors|
      invariant |comps| == ci
      invariant forall i :: 0 <= i < ci ==>
        comps[i].h == factors[i].h && comps[i].v == factors[i].v && Fewest(frame, comps[i])
        && comps[i] == Sized(frame, factors[i].h, factors[i].v)
    {
      var h, v := factors[ci].h, factors[ci].v;
      SizedFewest(frame, h, v);
      comps := comps + [Component(h, v, CeilDiv(width * h, maxH * DCTSIZE), CeilDiv(height * v, maxV * DCTSIZE))];
    }
    canvas := Canvas(comps, CeilDiv(height, maxV * DCTSIZE), CeilDiv(width, maxH * DCTSIZE));
    FewestMcus(frame);
    PositiveMcus(frame);
    ghost var pairs := seq(|factors|, i requires 0 <= i < |factors| => (factors[i].h as nat, factors[i].v as nat));
    FrameCanvas(frame, pairs, canvas);
  }

  lemma LargestIs(max: nat, s: seq<int>)
    requires Largest(max, s)
    ensures max >= 1
  {
  }

  lemma SizedFewest(f: Frame, h: nat, v: nat)
    requires ValidFrame(f) && h > 0 && v > 0
    ensures Fewest(f, Sized(f, h, v))
  {
    hide CeilDiv;
    FewestBlocks(f, h, v);
    BlocksCovered(f, h, v);
  }

  lemma PositiveMcus(f: Frame)
    requires ValidFrame(f)
    ensures TotalRows(f) > 0 && McusAcross(f) > 0
  {
    hide CeilDiv;
    CeilBounds(f.height, f.maxV * DCTSIZE);
    CeilBounds(f.width, f.maxH * DCTSIZE);
  }

  // ----- the MCUs of a scan -----

  /** What per_scan_setup computes: MCUs per row and rows of MCUs, the component of each block of an MCU, and what is left in the
      last column and row. */
  datatype ScanSetup = ScanSetup(perRow: nat, rows: nat, membership: seq<nat>, lastCols: seq<nat>, lastRows: seq<nat>)

  /** From block m on the places are those of component i. */
  ghost predicate AllOf(places: seq<Place>, m: nat, i: nat) {
    forall j :: m <= j < |places| ==> places[j].i == i
  }

  lemma MembershipGrows(g: Grid, i: nat)
    requires i < |g.comps|
    ensures |McuPlaces(g, 0, 0, 0, i + 1)| == |McuPlaces(g, 0, 0, 0, i)| + McuHeight(g, i) * McuWidth(g, i)
    ensures AllOf(McuPlaces(g, 0, 0, 0, i + 1), |McuPlaces(g, 0, 0, 0, i)|, i)
    ensures McuPlaces(g, 0, 0, 0, i) <= McuPlaces(g, 0, 0, 0, i + 1)
  {
    hide McuPlaces, McuHeight, McuWidth;
    ComponentSize(g, 0, 0, 0, i, McuHeight(g, i));
    OwnPlaces(g, i, McuHeight(g, i));
    McuUnfold(g, i);
  }

  lemma McuUnfold(g: Grid, i: nat)
    requires i < |g.comps|
    ensures McuPlaces(g, 0, 0, 0, i + 1) == McuPlaces(g, 0, 0, 0, i) + ComponentPlaces(g, 0, 0, 0, i, McuHeight(g, i))
  {
  }

  lemma {:induction false} OwnPlaces(g: Grid, i: nat, n: nat)
    requires i < |g.comps|
    ensures forall j :: 0 <= j < |ComponentPlaces(g, 0, 0, 0, i, n)| ==> ComponentPlaces(g, 0, 0, 0, i, n)[j].i == i
    decreases n
  {
    if n > 0 {
      OwnPlaces(g, i, n - 1);
      OwnRow(g, i, n - 1, McuWidth(g, i));
    }
  }

  lemma {:induction false} OwnRow(g: Grid, i: nat, yi: nat, n: nat)
    requires i < |g.comps|
    ensures forall j :: 0 <= j < n ==> RowPlaces(g, 0, 0, 0, i, yi, n)[j].i == i
    decreases n
  {
    if n > 0 {
      OwnRow(g, i, yi, n - 1);
    }
  }

  /** The first n components' blocks. */
  ghost predicate MembershipOf(g: Grid, membership: seq<nat>, n: nat)
    requires n <= |g.comps|
  {
    && |membership| == |McuPlaces(g, 0, 0, 0, n)|
    && forall j :: 0 <= j < |membership| ==> membership[j] == McuPlaces(g, 0, 0, 0, n)[j].i
  }

  lemma MembershipNext(g: Grid, membership: seq<nat>, i: nat)
    requires i < |g.comps| && MembershipOf(g, membership, i)
    ensures MembershipOf(g, membership + seq(McuHeight(g, i) * McuWidth(g, i), _ => i), i + 1)
    ensures McuHeight(g, i) * McuWidth(g, i) >= 0
  {
    hide McuPlaces, McuHeight, McuWidth;
    MembershipGrows(g, i);
  }

  lemma MembershipDone(g: Grid, membership: seq<nat>)
    requires MembershipOf(g, membership, |g.comps|)
    ensures membership == Membership(g)
  {
    hide McuPlaces;
  }

  lemma NoMembership(g: Grid)
    ensures MembershipOf(g, [], 0)
  {
  }

  lemma OneMembership(g: Grid)
    requires Single(g)
    ensures Membership(g) == [0] && SmallMcu(g)
  {
    OneBlockMcu(g);
  }

  /** Too many blocks already. */
  lemma TooLarge(g: Grid, i: nat)
    requires i < |g.comps| && |McuPlaces(g, 0, 0, 0, i)| + McuHeight(g, i) * McuWidth(g, i) > 10
    ensures !SmallMcu(g)
  {
    hide McuPlaces, McuHeight, McuWidth;
    MembershipGrows(g, i);
    McuGrows(g, i + 1, |g.comps|);
  }

  /** n units in parts of at most `unit`: all but the last of `parts` parts are full. */
  ghost predicate LastPart(n: nat, parts: nat, unit: nat, last: nat) {
    1 <= last <= unit && (parts - 1) * unit + last == n
  }

  lemma LastParts(f: Canvas, c: nat)
    requires ValidCanvas(f) && c < |f.comps|
    ensures f.comps[c].h > 0 && f.comps[c].v > 0
    ensures LastPart(f.comps[c].height, f.total, f.comps[c].v, Rest(f.comps[c].height, f.comps[c].v))
    ensures LastPart(f.comps[c].width, f.across, f.comps[c].h, Rest(f.comps[c].width, f.comps[c].h))
  {
    var k := f.comps[c];
    assert ValidComponent(Grid(f.comps, f.total, f.across), k);
    RestBounds(k.width, k.h);
    RestBounds(k.height, k.v);
  }

  lemma RestIsLeft(n: nat, unit: nat)
    requires unit > 0
    ensures Rest(n, unit) == if n % unit == 0 then unit else n % unit
  {
  }

  /** per_scan_setup: the MCU structure is that of the scan's grid; MCUs of more than ten blocks are refused. */
  method PerScanSetup(f: Canvas, components: seq<int>) returns (ok: bool, s: ScanSetup)
    requires ValidCanvas(f) && Chosen(f, components)
    ensures ok <==> |components| <= 4 && (|components| == 1 || SmallMcu(GridOf(f, components)))
    ensures ok ==> ValidGrid(GridOf(f, components)) && SmallMcu(GridOf(f, components)) && |s.membership| <= 10
    ensures ok ==> s.membership == Membership(GridOf(f, components)) && s.perRow == PerRow(GridOf(f, components))
    ensures ok ==> s.rows == if |components| == 1 then f.comps[components[0]].height else f.total
    ensures ok ==> |s.lastRows| == |components| && forall i :: 0 <= i < |components| ==>
      LastPart(f.comps[components[i]].height, f.total, f.comps[components[i]].v, s.lastRows[i])
    ensures ok && |components| > 1 ==> |s.lastCols| == |components| && forall i :: 0 <= i < |components| ==>
      LastPart(f.comps[components[i]].width, f.across, f.comps[components[i]].h, s.lastCols[i])
  {
    hide Rest, McuPlaces, ValidCanvas, MembershipOf, Membership, Before, LastPart;
    ghost var g := GridOf(f, components);
    GridValid(f, components);
    ok, s := true, ScanSetup(0, 0, [], [], []);
    if |components| == 1 {
      var c := f.comps[components[0]];
      LastParts(f, components[0]);
      RestIsLeft(c.height, c.v);
      OneMembership(g);
      var left := c.height % c.v;
      s := ScanSetup(c.width, c.height, [0], [1], [if left == 0 then c.v else left]);
      return;
    }
    if |components| > 4 {
      return false, s;
    }
    var membership: seq<nat>, cols: seq<nat>, rows: seq<nat> := [], [], [];
    NoMembership(g);
    for ci := 0 to |components|
      invariant MembershipOf(g, membership, ci) && |membership| <= 10 && |rows| == |cols| == ci
      invariant forall i :: 0 <= i < ci ==> LastPart(f.comps[components[i]].height, f.total, f.comps[components[i]].v, rows[i])
      invariant forall i :: 0 <= i < ci ==> LastPart(f.comps[components[i]].width, f.across, f.comps[components[i]].h, cols[i])
    {
      var c := f.comps[components[ci]];
      LastParts(f, components[ci]);
      RestIsLeft(c.width, c.h);
      RestIsLeft(c.height, c.v);
      assert McuHeight(g, ci) == c.v && McuWidth(g, ci) == c.h;
      var left := c.width % c.h;
      cols := cols + [if left == 0 then c.h else left];
      left := c.height % c.v;
      rows := rows + [if left == 0 then c.v else left];
      var mcublks := c.v * c.h;
      assert |membership| == |McuPlaces(g, 0, 0, 0, ci)| by { MembershipSize(g, membership, ci); }
      if |membership| + mcublks > MAX_BLOCKS {
        TooLarge(g, ci);
        return false, s;
      }
      MembershipNext(g, membership, ci);
      membership := Extended(membership, ci, mcublks);
    }
    MembershipSize(g, membership, |components|);
    MembershipDone(g, membership);
    s := ScanSetup(f.across, f.total, membership, cols, rows);
  }

  lemma MembershipSize(g: Grid, membership: seq<nat>, n: nat)
    requires n <= |g.comps| && MembershipOf(g, membership, n)
    ensures |membership| == |McuPlaces(g, 0, 0, 0, n)|
  {
  }

  /** The loop that enters a component's blocks. */
  method Extended(membership: seq<nat>, ci: nat, mcublks: nat) returns (r: seq<nat>)
    ensures r == membership + seq(mcublks, _ => ci)
  {
    r := membership;
    var left := mcublks;
    while left > 0
      invariant 0 <= left <= mcublks && r == membership + seq(mcublks - left, _ => ci)
    {
      left := left - 1;
      r := r + [ci];
    }
  }
}
