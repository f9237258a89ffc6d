/** A scan visits every block of its grid exactly once (jdcoefct.c, jccoefct.c, jctrans.c). */
module ScanCoverage {
  import opened FrameGeometry
  import opened McuLayout
  import opened McuBuilding

  /** The blocks that a scan codes: all real ones of a single component, or whole MCUs of several. */
  predicate InGrid(g: Grid, p: Place) {
    p.i < |g.comps| && p.row < GridRows(g, p.i) && p.col < PerRow(g) * McuWidth(g, p.i)
  }

  function GridRows(g: Grid, i: nat): nat
    requires i < |g.comps|
  {
    if Single(g) then g.comps[i].height else g.total * g.comps[i].v
  }

  function Count(s: seq<Place>, p: Place): nat {
    if |s| == 0 then 0 else Count(s[..|s| - 1], p) + if s[|s| - 1] == p then 1 else 0
  }

  function CountMcus(mcus: seq<seq<Place>>, p: Place): nat {
    if |mcus| == 0 then 0 else CountMcus(mcus[..|mcus| - 1], p) + Count(mcus[|mcus| - 1], p)
  }

  lemma {:induction false} CountConcat(a: seq<Place>, b: seq<Place>, p: Place)
    ensures Count(a + b, p) == Count(a, p) + Count(b, p)
    decreases |b|
  {
    if |b| == 0 {
      assert a + b == a;
    } else {
      CountConcat(a, b[..|b| - 1], p);
      assert (a + b)[..|a + b| - 1] == a + b[..|b| - 1];
    }
  }

  lemma CountMcusMore(mcus: seq<seq<Place>>, mcu: seq<Place>, p: Place)
    ensures CountMcus(mcus + [mcu], p) == CountMcus(mcus, p) + Count(mcu, p)
  {
    assert (mcus + [mcu])[..|mcus|] == mcus;
  }

  /** n consecutive numbers from a. */
  predicate Within(x: int, a: int, n: int) {
    a <= x < a + n
  }

  lemma {:induction false} RowCount(g: Grid, r: nat, y: nat, col: nat, i: nat, yi: nat, n: nat, p: Place)
    requires i < |g.comps|
    ensures Count(RowPlaces(g, r, y, col, i, yi, n), p)
         == if p.i == i && p.row == r * g.comps[i].v + y + yi && Within(p.col, col * McuWidth(g, i), n) then 1 else 0
  {
    if n > 0 {
      RowCount(g, r, y, col, i, yi, n - 1, p);
    }
  }

  lemma {:induction false} ComponentCount(g: Grid, r: nat, y: nat, col: nat, i: nat, n: nat, p: Place)
    requires i < |g.comps|
    ensures Count(ComponentPlaces(g, r, y, col, i, n), p)
         == if p.i == i && Within(p.row, r * g.comps[i].v + y, n) && Within(p.col, col * McuWidth(g, i), McuWidth(g, i)) then 1 else 0
  {
    hide RowPlaces;
    if n > 0 {
      ComponentCount(g, r, y, col, i, n - 1, p);
      RowCount(g, r, y, col, i, n - 1, McuWidth(g, i), p);
      CountConcat(ComponentPlaces(g, r, y, col, i, n - 1), RowPlaces(g, r, y, col, i, n - 1, McuWidth(g, i)), p);
    }
  }

  /** Which places the MCU at a position has. */
  predicate InMcu(g: Grid, r: nat, y: nat, col: nat, p: Place) {
    && p.i < |g.comps| && Within(p.row, r * g.comps[p.i].v + y, McuHeight(g, p.i))
    && Within(p.col, col * McuWidth(g, p.i), McuWidth(g, p.i))
  }

  lemma {:induction false} McuCount(g: Grid, r: nat, y: nat, col: nat, n: nat, p: Place)
    requires n <= |g.comps|
    ensures Count(McuPlaces(g, r, y, col, n), p) == if p.i < n && InMcu(g, r, y, col, p) then 1 else 0
  {
    hide ComponentPlaces;
    if n > 0 {
      McuCount(g, r, y, col, n - 1, p);
      ComponentCount(g, r, y, col, n - 1, McuHeight(g, n - 1), p);
      CountConcat(McuPlaces(g, r, y, col, n - 1), ComponentPlaces(g, r, y, col, n - 1, McuHeight(g, n - 1)), p);
    }
  }

  // ----- the loops over a scan -----

  /** How many block rows of component i are complete before MCU row y of iMCU row r. */
  function DoneRows(g: Grid, i: nat, r: nat, y: nat): nat
    requires i < |g.comps|
  {
    if r == g.total then GridRows(g, i) else r * g.comps[i].v + y * McuHeight(g, i)
  }

  /** The places that come before a position. */
  predicate Visited(g: Grid, r: nat, y: nat, col: nat, p: Place) {
    && p.i < |g.comps| && p.col < PerRow(g) * McuWidth(g, p.i)
    && (p.row < DoneRows(g, p.i, r, y)
        || (Within(p.row, DoneRows(g, p.i, r, y), McuHeight(g, p.i)) && p.col < col * McuWidth(g, p.i)))
  }

  lemma VisitedNext(g: Grid, r: nat, y: nat, col: nat, p: Place)
    requires ValidGrid(g) && Building(g, r, y, col)
    ensures Visited(g, r, y, col + 1, p) <==> Visited(g, r, y, col, p) || InMcu(g, r, y, col, p)
    ensures !(Visited(g, r, y, col, p) && InMcu(g, r, y, col, p))
  {
    hide Rest;
    if p.i < |g.comps| {
      var w := McuWidth(g, p.i);
      Distribute(col, 1, w);
      Distribute(PerRow(g) - col - 1, col + 1, w);
      assert (PerRow(g) - col - 1) * w >= 0;
      if !Single(g) {
        assert y == 0;
      }
    }
  }

  lemma VisitedRow(g: Grid, r: nat, y: nat, p: Place)
    requires ValidGrid(g) && r < g.total
    ensures Visited(g, r, y + 1, 0, p) <==> Visited(g, r, y, PerRow(g), p)
  {
    if p.i < |g.comps| {
      Distribute(y, 1, McuHeight(g, p.i));
    }
  }

  lemma VisitedImcuRow(g: Grid, r: nat, p: Place)
    requires ValidGrid(g) && r < g.total
    ensures Visited(g, r + 1, 0, 0, p) <==> Visited(g, r, RowsIn(g, r), 0, p)
  {
    hide Rest;
    if p.i < |g.comps| {
      var c := g.comps[p.i];
      assert ValidComponent(g, c);
      Distribute(r, 1, c.v);
      if r + 1 == g.total && Single(g) {
        assert c == g.comps[0];
        assert RowsIn(g, r) == Rest(c.height, c.v);
      }
    }
  }

  /** Before any position of the loops, the visited places have occurred once, and no others. */
  lemma {:induction false} BeforeCount(g: Grid, r: nat, y: nat, col: nat, p: Place)
    requires ValidGrid(g) && Position(g, r, y, col)
    ensures CountMcus(Before(g, r, y, col), p) == if Visited(g, r, y, col, p) then 1 else 0
    decreases r, y, col
  {
    hide McuPlaces, PerRow, RowsIn, Visited, InMcu, Count, CountMcus;
    if col > 0 {
      BeforeCount(g, r, y, col - 1, p);
      McuCount(g, r, y, col - 1, |g.comps|, p);
      CountMcusMore(Before(g, r, y, col - 1), McuPlaces(g, r, y, col - 1, |g.comps|), p);
      VisitedNext(g, r, y, col - 1, p);
      OnlyComponents(g, r, y, col - 1, p);
    } else if y > 0 {
      BeforeCount(g, r, y - 1, PerRow(g), p);
      VisitedRow(g, r, y - 1, p);
    } else if r > 0 {
      BeforeCount(g, r - 1, RowsIn(g, r - 1), 0, p);
      VisitedImcuRow(g, r - 1, p);
    } else {
      NothingVisited(g, p);
    }
  }

  lemma OnlyComponents(g: Grid, r: nat, y: nat, col: nat, p: Place)
    ensures InMcu(g, r, y, col, p) ==> p.i < |g.comps|
  {
  }

  lemma NothingVisited(g: Grid, p: Place)
    requires ValidGrid(g)
    ensures !Visited(g, 0, 0, 0, p) && CountMcus([], p) == 0
  {
    assert ValidComponent(g, g.comps[0]);
  }

  /** A scan visits each place of its grid exactly once, and no other place. */
  lemma EachOnce(g: Grid, p: Place)
    requires ValidGrid(g)
    ensures CountMcus(Whole(g), p) == if InGrid(g, p) then 1 else 0
  {
    hide Before, PerRow, Rest;
    assert ValidComponent(g, g.comps[0]);
    BeforeCount(g, g.total, 0, 0, p);
  }
}
