/** The row groups of an image, and what the postprocessor is promised to see around each of them (jdmainct.c). */
module RowGroups {
  import opened ContextPointers
  import opened FrameGeometry

  // ----- row groups of the image -----

  /** Row group q of iMCU row r, counted over the whole image. */
  function Group(g: Geometry, r: nat, q: nat): nat
    requires r >= 1
  {
    (r - 1) * g.m + q
  }

  lemma GroupRow(g: Geometry, r: nat, q: nat)
    requires ValidGeometry(g) && r >= 1
    ensures Group(g, r, q) * g.rg == First(g, r) + q * g.rg
  {
    assert ((r - 1) * g.m + q) * g.rg == (r - 1) * g.m * g.rg + q * g.rg by { Distribute((r - 1) * g.m, q, g.rg); }
    assert (r - 1) * g.m * g.rg == (r - 1) * (g.rg * g.m) by { Reorder(r - 1, g.m, g.rg); }
  }

  lemma GroupNext(g: Geometry, r: nat)
    requires ValidGeometry(g) && r >= 1
    ensures Group(g, r + 1, 0) == Group(g, r, g.m) && Group(g, 1, 0) == 0
  {
    Distribute(r - 1, 1, g.m);
  }

  /** The row groups of the last iMCU row that hold real rows, and of the whole image. */
  function LastGroups(g: Geometry): nat
    requires ValidGeometry(g)
  {
    LastRows(g);
    (Left(g) - 1) / g.rg + 1
  }

  function Groups(g: Geometry): nat
    requires ValidGeometry(g)
  {
    (g.h - 1) / g.rg + 1
  }

  lemma LastGroupsFit(g: Geometry)
    requires ValidGeometry(g)
    ensures 1 <= LastGroups(g) <= g.m && (LastGroups(g) - 1) * g.rg < Left(g) <= LastGroups(g) * g.rg
    ensures Group(g, Total(g), LastGroups(g)) == Groups(g)
  {
    hide Left, First, Total;
    LastRows(g);
    var q := (Left(g) - 1) / g.rg;
    assert Left(g) - 1 == q * g.rg + (Left(g) - 1) % g.rg;
    Distribute(q, 1, g.rg);
    if q >= g.m {
      More(q, g.m, g.rg);
      assert false;
    }
    GroupRow(g, Total(g), q);
    Quotient(g.h - 1, Group(g, Total(g), q), g.rg, (Left(g) - 1) % g.rg);
  }

  lemma More(a: nat, b: nat, d: nat)
    requires a >= b
    ensures a * d >= d * b
  {
    assert a * d == d * b + (a - b) * d;
    assert (a - b) * d >= 0;
  }

  // ----- what the postprocessor is promised -----

  /** The last iMCU row has fewer real rows than a row group. */
  predicate ShortEnd(g: Geometry)
    requires ValidGeometry(g)
  {
    Left(g) < g.rg
  }

  /** The row group before a short last iMCU row. */
  predicate BeforeShortEnd(g: Geometry, n: nat)
    requires ValidGeometry(g)
  {
    ShortEnd(g) && n + 1 == (Total(g) - 1) * g.m
  }

  /** What row group n sees: exactly the rows around it, the first and last real row being repeated; the row group before
      a short last iMCU row sees below it the rows that were decoded, padding included. */
  ghost predicate Seen(g: Geometry, v: Rows, n: nat, padded: nat)
    requires ValidGeometry(g)
  {
    if BeforeShortEnd(g, n) then |v| == 3 * g.rg && Shows(v, n * g.rg - g.rg, 2 * g.rg + padded) else v == Want(g, n * g.rg)
  }

  ghost predicate AllSeen(g: Geometry, log: seq<Rows>, padded: nat)
    requires ValidGeometry(g)
  {
    forall n :: 0 <= n < |log| ==> Seen(g, log[n], n, padded)
  }

  /** In every case the real rows around the row group are seen. */
  lemma RealRowsSeen(g: Geometry, v: Rows, n: nat, padded: nat, i: nat)
    requires ValidGeometry(g) && Seen(g, v, n, padded) && padded >= Left(g) && i < 3 * g.rg && 0 <= n * g.rg - g.rg + i < g.h
    ensures |v| == 3 * g.rg && v[i] == n * g.rg - g.rg + i
  {
    LastRows(g);
    if BeforeShortEnd(g, n) {
      BeforeLast(g, n);
    }
  }

  lemma BeforeLast(g: Geometry, n: nat)
    requires ValidGeometry(g) && BeforeShortEnd(g, n)
    ensures n * g.rg + g.rg + Left(g) == g.h
  {
    hide Left;
    LastRows(g);
    GroupRow(g, Total(g), 0);
    Distribute(n, 1, g.rg);
  }

  /** If padding was decoded, the documented repetition of the last row is seen by all row groups but that one. */
  lemma RepeatedUnlessShort(g: Geometry, v: Rows, n: nat, padded: nat)
    requires ValidGeometry(g) && Seen(g, v, n, padded) && padded > Left(g)
    ensures v == Want(g, n * g.rg) <==> !BeforeShortEnd(g, n)
  {
    LastRows(g);
    if BeforeShortEnd(g, n) {
      BeforeLast(g, n);
      assert v[2 * g.rg + Left(g)] == g.h;
      assert Want(g, n * g.rg)[2 * g.rg + Left(g)] == g.h - 1;
    }
  }

  /** An image of 17 rows in row groups of two, eight of them per iMCU row: row group 7 sees a decoded padding row at the
      place of the repeated last row. */
  lemma SeventeenRows(v: Rows, padded: nat)
    requires ValidGeometry(Geometry(2, 8, 16, 17)) && padded > 1 && Seen(Geometry(2, 8, 16, 17), v, 7, padded)
    ensures v != Want(Geometry(2, 8, 16, 17), 14)
  {
    var g := Geometry(2, 8, 16, 17);
    assert Total(g) == 2 && Left(g) == 1;
    RepeatedUnlessShort(g, v, 7, padded);
  }

  // ----- what a list shows -----

  /** Row groups from..to of the list x are seen as they should be, base + q being the number of row group q. */
  ghost predicate Shown(g: Geometry, content: Rows, x: List, from: nat, to: nat, base: int, padded: nat)
    requires ValidGeometry(g)
  {
    forall q :: from <= q < to ==> GroupSeen(g, content, x, q, base, padded)
  }

  ghost predicate GroupSeen(g: Geometry, content: Rows, x: List, q: nat, base: int, padded: nat)
    requires ValidGeometry(g)
  {
    base + q >= 0 && Seen(g, View(g, content, x, q * g.rg), base + q, padded)
  }

  lemma InsideShown(g: Geometry, content: Rows, x: List, r: nat, c: nat, padded: nat)
    requires ValidGeometry(g) && 1 <= r < Total(g) && InUse(g, x, r, c) && Holds(g, content, r, c, g.rows)
    ensures Shown(g, content, x, 0, g.m - 1, Group(g, r, 0), padded)
  {
    hide InUse, Holds, First, Total, Left, View, Want;
    forall q | 0 <= q < g.m - 1
      ensures GroupSeen(g, content, x, q, Group(g, r, 0), padded)
    {
      More(g.m, q + 2, g.rg);
      Distribute(q, 2, g.rg);
      SeesInside(g, content, x, r, c, q * g.rg);
      GroupRow(g, r, q);
      NotBefore(g, r, q);
      assert Group(g, r, 0) + q == Group(g, r, q);
    }
  }

  lemma NotBefore(g: Geometry, r: nat, q: nat)
    requires ValidGeometry(g) && 1 <= r && q < g.m && (r < Total(g) ==> q < g.m - 1)
    ensures r <= Total(g) ==> !BeforeShortEnd(g, Group(g, r, q))
  {
    hide Total, Left;
    if r < Total(g) {
      More(Total(g) - 1, r, g.m);
      Distribute(r - 1, 1, g.m);
    }
  }

  lemma PostponedShown(g: Geometry, content: Rows, x: List, r: nat, c: nat, n: nat, padded: nat)
    requires ValidGeometry(g) && 1 <= r < Total(g) && Normal(g, x, c) && Holds(g, content, r + 1, c, n)
    requires n == (if r + 1 < Total(g) then g.rows else padded) && padded >= Left(g)
    ensures Shown(g, content, x, g.m + 1, g.m + 2, Group(g, r, g.m - 1) - (g.m + 1), padded)
  {
    hide Normal, Holds, First, Total, Left, View, Want, Group, BeforeShortEnd, Shows;
    SeesPostponed(g, content, x, r, c, n);
    LastRows(g);
    PostponedAt(g, r);
    PostponedSeen(g, View(g, content, x, g.rows + g.rg), r, n, padded);
    assert GroupSeen(g, content, x, g.m + 1, Group(g, r, g.m - 1) - (g.m + 1), padded);
  }

  lemma PostponedAt(g: Geometry, r: nat)
    requires ValidGeometry(g) && r >= 1
    ensures (g.m + 1) * g.rg == g.rows + g.rg && Group(g, r, g.m - 1) * g.rg == First(g, r) + g.rows - g.rg
  {
    hide First;
    Products(g);
    GroupRow(g, r, g.m - 1);
    Reorder(1, g.m + 1, g.rg);
    Reorder(1, g.m - 1, g.rg);
  }

  lemma PostponedSeen(g: Geometry, v: Rows, r: nat, n: nat, padded: nat)
    requires ValidGeometry(g) && 1 <= r < Total(g) && |v| == 3 * g.rg && n == if r + 1 < Total(g) then g.rows else padded
    requires Left(g) >= g.rg || r + 1 < Total(g) ==> v == Want(g, Group(g, r, g.m - 1) * g.rg)
    requires Shows(v, Group(g, r, g.m - 1) * g.rg - g.rg, 2 * g.rg + n)
    ensures Seen(g, v, Group(g, r, g.m - 1), padded)
  {
    hide First, Total, Left, Want, Shows;
    if r + 1 < Total(g) {
      More(Total(g) - 1, r + 1, g.m);
      Distribute(r, 1, g.m);
      Distribute(r - 1, 1, g.m);
    }
  }

  lemma BottomShown(g: Geometry, content: Rows, x: List, c: nat, padded: nat)
    requires ValidGeometry(g) && Total(g) >= 1 && InUse(g, x, Total(g), c) && Holds(g, content, Total(g), c, padded)
    requires padded >= Left(g) && |x| == g.rows + 4 * g.rg
    ensures Shown(g, content, Repeated(g, x), 0, LastGroups(g), Group(g, Total(g), 0), padded)
  {
    hide InUse, Holds, First, Total, Left, View, Want, Repeated;
    LastGroupsFit(g);
    forall q | 0 <= q < LastGroups(g)
      ensures GroupSeen(g, content, Repeated(g, x), q, Group(g, Total(g), 0), padded)
    {
      More(LastGroups(g) - 1, q, g.rg);
      SeesBottom(g, content, x, c, padded, q * g.rg);
      GroupRow(g, Total(g), q);
      NotBefore(g, Total(g), q);
      assert Group(g, Total(g), 0) + q == Group(g, Total(g), q);
    }
  }

  // ----- all components -----

  lemma CeilAgain(n: nat, d: nat)
    requires n > 0 && d > 0
    ensures (n - 1) / d + 1 == CeilDiv(n, d)
  {
    var q := (n - 1) / d;
    assert n - 1 == q * d + (n - 1) % d;
    Distribute(q, 1, d);
    CeilUnique(n, d, q + 1);
  }

  /** A component of the frame, with v * size rows per iMCU row. */
  ghost predicate ComponentOf(g: Geometry, f: Frame, v: nat, size: nat) {
    && ValidGeometry(g) && ValidFrame(f) && v > 0 && size > 0
    && v * size == g.rows && g.h == SampleRows(f, v, size)
  }

  /** The number of row groups in the last iMCU row, which is counted for the first component only, is the same for every
      component; so is the number of iMCU rows. */
  lemma SameForAll(g1: Geometry, g2: Geometry, f: Frame, v1: nat, size1: nat, v2: nat, size2: nat)
    requires ComponentOf(g1, f, v1, size1) && ComponentOf(g2, f, v2, size2) && g1.m == g2.m
    ensures Total(g1) == Total(g2) == TotalRows(f) && LastGroups(g1) == LastGroups(g2)
  {
    hide LastGroups, SampleRows;
    CountOf(g1, f, v1, size1);
    CountOf(g2, f, v2, size2);
  }

  lemma CountOf(g: Geometry, f: Frame, v: nat, size: nat)
    requires ComponentOf(g, f, v, size)
    ensures Total(g) == TotalRows(f)
    ensures LastGroups(g) == CeilDiv(f.height * g.m, f.maxV * DCTSIZE) - (TotalRows(f) - 1) * g.m
  {
    hide LastGroups, SampleRows, CeilDiv;
    Products(g);
    RowGroupsAgree(f, v, size, g.rg, g.m);
    CeilAgain(g.h, g.rows);
    CeilAgain(g.h, g.rg);
    LastRows(g);
    LastGroupsFit(g);
  }

  /** Above the first row group the first row is seen, and below the image the last one. */
  lemma EdgesRepeated(g: Geometry, v: Rows, n: nat, padded: nat, i: nat)
    requires ValidGeometry(g) && Seen(g, v, n, padded) && !BeforeShortEnd(g, n) && i < 3 * g.rg
    ensures |v| == 3 * g.rg
    ensures n * g.rg + i < g.rg ==> v[i] == 0
    ensures n * g.rg + i >= g.h + g.rg ==> v[i] == g.h - 1
  {
  }
}
