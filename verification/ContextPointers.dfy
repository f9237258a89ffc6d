/** The row lists of the decompressor's main controller (jdmainct.c), for one component: which rows of the
    workspace stand where in them, and what a row group sees through them. */
module ContextPointers {
  import opened FrameGeometry

  /** rg rows per row group, m row groups (rows rows) per iMCU row, h real rows in the image. */
  datatype Geometry = Geometry(rg: nat, m: nat, rows: nat, h: nat)

  ghost predicate ValidGeometry(g: Geometry) {
    g.rg >= 1 && g.m >= 2 && g.rows == g.rg * g.m && g.h >= 1
  }

  lemma Products(g: Geometry)
    requires ValidGeometry(g)
    ensures g.rg * (g.m + 2) == g.rows + 2 * g.rg && g.rg * (g.m + 1) == g.rows + g.rg && g.rg * (g.m - 1) == g.rows - g.rg
    ensures g.rg * (g.m - 2) == g.rows - 2 * g.rg >= 0 && g.rg * (g.m + 4) == g.rows + 4 * g.rg
    ensures g.rg * g.m == g.rows && g.rg >= 1 && g.m >= 2
  {
    assert g.rg * (g.m - 2) >= 0;
  }

  /** The number of iMCU rows, and of real rows in the last one. */
  function Total(g: Geometry): (t: nat)
    requires ValidGeometry(g)
  {
    Products(g);
    (g.h - 1) / g.rows + 1
  }

  function Left(g: Geometry): (l: nat)
    requires ValidGeometry(g)
  {
    Products(g);
    if g.h % g.rows == 0 then g.rows else g.h % g.rows
  }

  /** The first image row of iMCU row r, counted from 1. */
  function First(g: Geometry, r: nat): nat
    requires r >= 1
  {
    (r - 1) * g.rows
  }

  lemma FirstStep(g: Geometry, r: nat)
    requires r >= 1
    ensures First(g, r + 1) == First(g, r) + g.rows
  {
  }

  lemma LastRows(g: Geometry)
    requires ValidGeometry(g)
    ensures Total(g) >= 1 && 1 <= Left(g) <= g.rows && First(g, Total(g)) + Left(g) == g.h
  {
    Products(g);
    var q, x := g.h / g.rows, g.h % g.rows;
    assert g.h == q * g.rows + x;
    if x == 0 {
      Quotient(g.h - 1, q - 1, g.rows, g.rows - 1);
    } else {
      Quotient(g.h - 1, q, g.rows, x - 1);
    }
  }

  /** All rows of an iMCU row before the last one are real. */
  lemma {:induction false} Full(g: Geometry, r: nat)
    requires ValidGeometry(g) && 1 <= r < Total(g)
    ensures First(g, r) + g.rows < g.h
    decreases Total(g) - r
  {
    hide Total, First, Left;
    LastRows(g);
    FirstStep(g, r);
    if r + 1 < Total(g) {
      Full(g, r + 1);
    }
  }

  // ----- the lists -----

  /** Position k of list c: the second list has the last four row groups in swapped order. */
  function Base(g: Geometry, c: nat, k: int): int {
    if c == 0 || k < g.rows - 2 * g.rg then k
    else if k < g.rows then k + 2 * g.rg
    else k - 2 * g.rg
  }

  /** In its normal state a list is cyclic. */
  function Cyclic(g: Geometry, c: nat, k: int): int {
    if k < 0 then Base(g, c, k + g.rows + 2 * g.rg)
    else if k < g.rows + 2 * g.rg then Base(g, c, k)
    else Base(g, c, k - g.rows - 2 * g.rg)
  }

  type List = seq<int>

  /** The list as it is made, without its ends. */
  ghost predicate Body(g: Geometry, x: List, c: nat) {
    && |x| == g.rows + 4 * g.rg
    && forall j :: g.rg <= j < g.rows + 3 * g.rg ==> x[j] == Base(g, c, j - g.rg)
  }

  ghost predicate Normal(g: Geometry, x: List, c: nat) {
    && |x| == g.rows + 4 * g.rg
    && forall j :: 0 <= j < |x| ==> x[j] == Cyclic(g, c, j - g.rg)
  }

  /** At the top of the image the first row is repeated above. */
  ghost predicate Top(g: Geometry, x: List) {
    Body(g, x, 0) && forall j :: 0 <= j < g.rg ==> x[j] == 0
  }

  /** The list that iMCU row r is in while its row groups are processed. */
  ghost predicate InUse(g: Geometry, x: List, r: nat, c: nat)
    requires ValidGeometry(g)
  {
    if r == 1 then c == 0 && Top(g, x) else Normal(g, x, c)
  }

  /** At the bottom the last real row is repeated for two row groups. */
  function Repeated(g: Geometry, x: List): (y: List)
    requires ValidGeometry(g) && |x| == g.rows + 4 * g.rg
    ensures |y| == |x|
  {
    LastRows(g);
    seq(|x|, j requires 0 <= j < |x| => if g.rg + Left(g) <= j < Left(g) + 3 * g.rg then x[g.rg + Left(g) - 1] else x[j])
  }

  /** Distinct positions hold distinct rows of the workspace. */
  lemma BaseDistinct(g: Geometry, c: nat, j: int, k: int)
    requires ValidGeometry(g) && 0 <= j < g.rows + 2 * g.rg && 0 <= k < g.rows + 2 * g.rg && j != k
    ensures 0 <= Base(g, c, j) < g.rows + 2 * g.rg && Base(g, c, j) != Base(g, c, k)
  {
    Products(g);
  }

  lemma BaseInside(g: Geometry, c: nat, k: int)
    requires ValidGeometry(g) && 0 <= k < g.rows + 2 * g.rg
    ensures 0 <= Base(g, c, k) < g.rows + 2 * g.rg
  {
    Products(g);
  }

  /** The last two row groups of one list stand right above the other list. */
  lemma Above(g: Geometry, c: nat, k: int)
    requires ValidGeometry(g) && c < 2 && -2 * g.rg <= k < 0
    ensures Cyclic(g, 1 - c, k) == Base(g, c, k + g.rows)
  {
    Products(g);
  }

  // ----- the workspace -----

  type Rows = seq<int>

  /** iMCU row r is in list c, with the last two row groups of the row before above it. */
  ghost predicate Holds(g: Geometry, content: Rows, r: nat, c: nat, written: nat)
    requires ValidGeometry(g) && r >= 1
  {
    && |content| == g.rows + 2 * g.rg && written <= g.rows
    && (forall k :: 0 <= k < written ==> RowAt(g, content, c, k) == First(g, r) + k)
    && (r > 1 ==> forall k :: -2 * g.rg <= k < 0 ==> RowAt(g, content, c, k) == First(g, r) + k)
  }

  function RowAt(g: Geometry, content: Rows, c: nat, k: int): int {
    if 0 <= Cyclic(g, c, k) < |content| then content[Cyclic(g, c, k)] else -1
  }

  /** The workspace after the first n rows of an iMCU row have been stored through list c. */
  ghost predicate Stored(g: Geometry, before: Rows, after: Rows, r: nat, c: nat, n: nat)
    requires ValidGeometry(g) && r >= 1
  {
    && |before| == |after| == g.rows + 2 * g.rg && n <= g.rows
    && (forall k :: 0 <= k < n ==> RowAt(g, after, c, k) == First(g, r) + k)
    && forall k :: n <= k < g.rows + 2 * g.rg ==> RowAt(g, after, c, k) == RowAt(g, before, c, k)
  }

  lemma StoredNext(g: Geometry, before: Rows, after: Rows, r: nat, c: nat, n: nat)
    requires ValidGeometry(g) && r >= 1 && Stored(g, before, after, r, c, n) && n < g.rows
    ensures 0 <= Base(g, c, n) < |after|
    ensures Stored(g, before, after[Base(g, c, n) := First(g, r) + n], r, c, n + 1)
  {
    hide First;
    Products(g);
    BaseInside(g, c, n);
    var next := after[Base(g, c, n) := First(g, r) + n];
    forall k | 0 <= k < g.rows + 2 * g.rg && k != n
      ensures RowAt(g, next, c, k) == RowAt(g, after, c, k)
    {
      BaseDistinct(g, c, n, k);
    }
  }

  lemma FirstStored(g: Geometry, before: Rows, after: Rows, n: nat)
    requires ValidGeometry(g) && Stored(g, before, after, 1, 0, n)
    ensures Holds(g, after, 1, 0, n)
  {
  }

  /** The next iMCU row goes into the other list; the last two row groups of this one stay. */
  lemma NextStored(g: Geometry, before: Rows, after: Rows, r: nat, c: nat, n: nat)
    requires ValidGeometry(g) && r >= 1 && c < 2 && Holds(g, before, r, c, g.rows) && Stored(g, before, after, r + 1, 1 - c, n)
    ensures Holds(g, after, r + 1, 1 - c, n)
  {
    Products(g);
    FirstStep(g, r);
    hide First;
    var d := 1 - c;
    forall k | -2 * g.rg <= k < 0
      ensures RowAt(g, after, d, k) == First(g, r + 1) + k
    {
      Above(g, c, k);
      var j := k + g.rows + 2 * g.rg;
      assert RowAt(g, after, d, j) == RowAt(g, before, d, j);
      assert RowAt(g, before, c, k + g.rows) == First(g, r) + (k + g.rows);
    }
  }

  // ----- what a row group sees -----

  /** The rows around the row group that begins at image row t: a row group above, itself, and a row group below; beyond
      the image the first or last row. */
  function Want(g: Geometry, t: nat): (v: Rows)
    ensures |v| == 3 * g.rg && forall i :: 0 <= i < 3 * g.rg ==> v[i] == Clamp(t - g.rg + i, g.h)
  {
    seq(3 * g.rg, i requires 0 <= i < 3 * g.rg => Clamp(t - g.rg + i, g.h))
  }

  /** What position s of list x sees. */
  function View(g: Geometry, content: Rows, x: List, s: nat): (v: Rows)
    ensures |v| == 3 * g.rg && forall i :: 0 <= i < 3 * g.rg ==> v[i] == Look(content, x, s + i)
  {
    seq(3 * g.rg, i requires 0 <= i < 3 * g.rg => Look(content, x, s + i))
  }

  function Look(content: Rows, x: List, j: int): int {
    if 0 <= j < |x| && 0 <= x[j] < |content| then content[x[j]] else -1
  }

  lemma LookNormal(g: Geometry, content: Rows, x: List, c: nat, j: nat)
    requires Normal(g, x, c) && j < |x|
    ensures Look(content, x, j) == RowAt(g, content, c, j - g.rg)
  {
  }

  lemma LookBody(g: Geometry, content: Rows, x: List, c: nat, j: nat)
    requires Body(g, x, c) && g.rg <= j < g.rows + 3 * g.rg
    ensures Look(content, x, j) == RowAt(g, content, c, j - g.rg)
  {
  }

  /** A position of iMCU row r, above its first row or at its first n rows. */
  lemma LookInUse(g: Geometry, content: Rows, x: List, r: nat, c: nat, n: nat, j: nat)
    requires ValidGeometry(g) && r >= 1 && InUse(g, x, r, c) && Holds(g, content, r, c, n) && n >= 1 && j < g.rg + n
    ensures Look(content, x, j) == if First(g, r) + j < g.rg then 0 else First(g, r) + j - g.rg
  {
    if r == 1 {
      if j < g.rg {
        assert RowAt(g, content, 0, 0) == First(g, 1) + 0;
        Products(g);
        BaseInside(g, 0, 0);
        assert content[0] == 0;
      } else {
        LookBody(g, content, x, 0, j);
      }
    } else {
      LookNormal(g, content, x, c, j);
      assert First(g, r) >= g.rg by { FarDown(g, r); }
    }
  }

  lemma FarDown(g: Geometry, r: nat)
    requires ValidGeometry(g) && r >= 2
    ensures First(g, r) >= g.rows >= 2 * g.rg
  {
    Products(g);
    Times(r - 1, g.rows);
  }

  /** A row group before the last of an iMCU row that is not the last one. */
  lemma SeesInside(g: Geometry, content: Rows, x: List, r: nat, c: nat, s: nat)
    requires ValidGeometry(g) && 1 <= r < Total(g) && InUse(g, x, r, c) && Holds(g, content, r, c, g.rows)
    requires s + 2 * g.rg <= g.rows
    ensures View(g, content, x, s) == Want(g, First(g, r) + s)
  {
    hide First, Total, InUse, Holds;
    Products(g);
    Full(g, r);
    forall i | 0 <= i < 3 * g.rg
      ensures View(g, content, x, s)[i] == Want(g, First(g, r) + s)[i]
    {
      LookInUse(g, content, x, r, c, g.rows, s + i);
    }
  }

  /** The first n rows of the view v are those from image row t on. */
  ghost predicate Shows(v: Rows, t: int, n: nat) {
    forall i :: 0 <= i < |v| && i < n ==> v[i] == t + i
  }

  /** The postponed row group: the last one of iMCU row r, seen when the next iMCU row is in the other list. If the
      last iMCU row has fewer real rows than a row group, the rows below those are not repeated yet. */
  lemma SeesPostponed(g: Geometry, content: Rows, x: List, r: nat, c: nat, n: nat)
    requires ValidGeometry(g) && 1 <= r < Total(g) && Normal(g, x, c) && Holds(g, content, r + 1, c, n)
    requires n >= if r + 1 < Total(g) then g.rows else Left(g)
    ensures Left(g) >= g.rg || r + 1 < Total(g) ==> View(g, content, x, g.rows + g.rg) == Want(g, First(g, r) + g.rows - g.rg)
    ensures Shows(View(g, content, x, g.rows + g.rg), First(g, r) + g.rows - 2 * g.rg, 2 * g.rg + n)
  {
    hide First, Total, Left;
    Products(g);
    FirstStep(g, r);
    LastRows(g);
    Full(g, r);
    if r + 1 < Total(g) {
      Full(g, r + 1);
    } else {
      assert r + 1 == Total(g);
    }
    var v, w := View(g, content, x, g.rows + g.rg), Want(g, First(g, r) + g.rows - g.rg);
    assert First(g, r) >= 0;
    forall i | 0 <= i < |v| && i < 2 * g.rg + n
      ensures v[i] == First(g, r) + g.rows - 2 * g.rg + i
    {
      LookNormal(g, content, x, c, g.rows + g.rg + i);
      WrapAround(g, c, g.rows + i);
      assert RowAt(g, content, c, g.rows + i) == RowAt(g, content, c, i - 2 * g.rg);
    }
  }

  lemma WrapAround(g: Geometry, c: nat, k: int)
    requires ValidGeometry(g) && g.rows <= k < 2 * g.rows + 4 * g.rg
    ensures Cyclic(g, c, k) == Cyclic(g, c, k - g.rows - 2 * g.rg)
  {
    Products(g);
  }

  /** A row group of the last iMCU row. */
  lemma SeesBottom(g: Geometry, content: Rows, x: List, c: nat, n: nat, s: nat)
    requires ValidGeometry(g) && InUse(g, x, Total(g), c) && Total(g) >= 1 && Holds(g, content, Total(g), c, n) && n >= Left(g)
    requires s < Left(g) && |x| == g.rows + 4 * g.rg
    ensures View(g, content, Repeated(g, x), s) == Want(g, First(g, Total(g)) + s)
  {
    hide First, Total, Left, InUse, Holds;
    LastRows(g);
    Products(g);
    var y := Repeated(g, x);
    forall i | 0 <= i < 3 * g.rg
      ensures View(g, content, y, s)[i] == Want(g, First(g, Total(g)) + s)[i]
    {
      LookInUse(g, content, x, Total(g), c, n, g.rg + Left(g) - 1);
      if s + i < g.rg + Left(g) {
        LookInUse(g, content, x, Total(g), c, n, s + i);
      }
    }
  }
}
