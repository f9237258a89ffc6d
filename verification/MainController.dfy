/** The decompressor's main controller with context rows (jdmainct.c): every row group reaches the postprocessor once and
    in order, with its neighbours above and below, however the output is drained. */
module MainController {
  import opened ContextPointers
  import opened RowGroups

  datatype ContextState = PrepareForImcu | ProcessImcu | PostponedRow

  // ----- the states between calls -----

  /** The lists and the workspace, as values. */
  datatype Lists = Lists(x0: List, x1: List, content: Rows)

  function ListOf(s: Lists, c: nat): List {
    if c == 0 then s.x0 else s.x1
  }

  ghost predicate Sized(g: Geometry, s: Lists) {
    |s.x0| == |s.x1| == g.rows + 4 * g.rg && |s.content| == g.rows + 2 * g.rg
  }

  ghost predicate BothNormal(g: Geometry, s: Lists) {
    Normal(g, s.x0, 0) && Normal(g, s.x1, 1)
  }

  /** The lists as they are while iMCU row r is prepared. */
  ghost predicate Fresh(g: Geometry, s: Lists, r: nat) {
    if r == 1 then Top(g, s.x0) && Body(g, s.x1, 1) else BothNormal(g, s)
  }

  /** How many rows of iMCU row r are stored: all of them, or as many as are decoded of the last one. */
  function StoredRows(g: Geometry, r: nat, padded: nat): nat
    requires ValidGeometry(g)
  {
    if r < Total(g) then g.rows else padded
  }

  /** r iMCU rows have been received and all but the last row group of them processed; n row groups are out. */
  ghost predicate Hungry(g: Geometry, s: Lists, r: nat, padded: nat, n: nat)
    requires ValidGeometry(g) && r <= Total(g)
  {
    && Sized(g, s)
    && (r == 0 ==> Fresh(g, s, 1) && n == 0)
    && (0 < r < Total(g) ==> BothNormal(g, s) && Holds(g, s.content, r, (r - 1) % 2, g.rows) && n == Group(g, r, g.m - 1))
    && (r == Total(g) ==> n == Groups(g))
  }

  /** iMCU row r is in the workspace. */
  ghost predicate Fed(g: Geometry, s: Lists, r: nat, padded: nat)
    requires ValidGeometry(g)
  {
    Sized(g, s) && 1 <= r <= Total(g) && Fresh(g, s, r) && Holds(g, s.content, r, (r - 1) % 2, StoredRows(g, r, padded))
  }

  /** The row groups of iMCU row r are being processed; the last one has its bottom rows repeated. */
  ghost predicate Processing(g: Geometry, s: Lists, r: nat, padded: nat)
    requires ValidGeometry(g)
  {
    && Sized(g, s) && 1 <= r <= Total(g)
    && (r < Total(g) ==> Fed(g, s, r, padded))
    && (r == Total(g) ==> exists s0 :: Fed(g, s0, r, padded) && s == Bottomed(g, s0, r))
  }

  /** set_bottom_pointers, on the list of iMCU row r. */
  function Bottomed(g: Geometry, s: Lists, r: nat): Lists
    requires ValidGeometry(g)
  {
    if |s.x0| != g.rows + 4 * g.rg || |s.x1| != g.rows + 4 * g.rg then s
    else if r % 2 == 1 then s.(x0 := Repeated(g, s.x0)) else s.(x1 := Repeated(g, s.x1))
  }

  /** The row groups that are processed before the last one of iMCU row r is postponed. */
  function Avail(g: Geometry, r: nat): nat
    requires ValidGeometry(g)
  {
    if r == Total(g) then LastGroups(g) else g.m - 1
  }

  lemma ProcessingShown(g: Geometry, s: Lists, r: nat, padded: nat)
    requires ValidGeometry(g) && Processing(g, s, r, padded) && padded >= Left(g)
    ensures Shown(g, s.content, ListOf(s, (r - 1) % 2), 0, Avail(g, r), Group(g, r, 0), padded)
  {
    hide Total, Left, Holds, Shown, First, Group, Repeated, Normal, LastGroups;
    if r < Total(g) {
      InsideShown(g, s.content, ListOf(s, (r - 1) % 2), r, (r - 1) % 2, padded);
    } else {
      var s0 :| Fed(g, s0, r, padded) && s == Bottomed(g, s0, r);
      BottomShown(g, s.content, ListOf(s0, (r - 1) % 2), (r - 1) % 2, padded);
    }
  }

  lemma PostponedIsShown(g: Geometry, s: Lists, r: nat, padded: nat)
    requires ValidGeometry(g) && r >= 1 && Fed(g, s, r + 1, padded) && padded >= Left(g)
    ensures Shown(g, s.content, ListOf(s, r % 2), g.m + 1, g.m + 2, Group(g, r, g.m - 1) - (g.m + 1), padded)
  {
    hide Total, Left, Holds, Shown, First, Group, Normal;
    PostponedShown(g, s.content, ListOf(s, r % 2), r, r % 2, StoredRows(g, r + 1, padded), padded);
  }

  /** The workspace once another iMCU row has been stored through list r % 2. */
  lemma FeedsNext(g: Geometry, s: Lists, s1: Lists, r: nat, padded: nat, n: nat)
    requires ValidGeometry(g) && r < Total(g) && Hungry(g, s, r, padded, n) && s1 == s.(content := s1.content) && padded <= g.rows
    requires Stored(g, s.content, s1.content, r + 1, r % 2, StoredRows(g, r + 1, padded))
    ensures Fed(g, s1, r + 1, padded)
  {
    hide Total, First, Group, Normal, Body, Top, Stored, Groups;
    StoredSize(g, s.content, s1.content, r + 1, r % 2, StoredRows(g, r + 1, padded));
    if r == 0 {
      FirstStored(g, s.content, s1.content, StoredRows(g, 1, padded));
    } else {
      NextStored(g, s.content, s1.content, r, (r - 1) % 2, StoredRows(g, r + 1, padded));
      Parity(r);
    }
  }

  lemma StoredSize(g: Geometry, before: Rows, after: Rows, r: nat, c: nat, n: nat)
    requires ValidGeometry(g) && r >= 1 && Stored(g, before, after, r, c, n)
    ensures |before| == |after|
  {
  }

  lemma Parity(r: nat)
    requires r >= 1
    ensures 1 - (r - 1) % 2 == r % 2
  {
  }

  /** set_wraparound_pointers, on the positions above and below a list. */
  lemma WrapsTop(g: Geometry, x: List, y: List, c: nat)
    requires ValidGeometry(g) && Body(g, x, c) && |y| == |x| && c < 2
    requires forall j :: g.rg <= j < g.rows + 3 * g.rg ==> y[j] == x[j]
    requires forall j :: 0 <= j < g.rg ==> y[j] == x[j + g.rows + 2 * g.rg]
    requires forall j :: g.rows + 3 * g.rg <= j < |y| ==> y[j] == x[j - g.rows - 2 * g.rg]
    ensures Normal(g, y, c)
  {
    Products(g);
  }

  // ----- the controller -----

  class MainBuffer {
    const g: Geometry
    // how many rows the coefficient controller stores of the last iMCU row
    const padded: nat
    const content: array<int>
    const xbuf0: array<int>
    const xbuf1: array<int>
    var bufferFull: bool
    var rowgroupCtr: nat
    var whichptr: nat
    var contextState: ContextState
    var rowgroupsAvail: nat
    var iMCURowCtr: nat
    // what the postprocessor has seen, row group by row group
    var log: seq<Rows>

    ghost function State(): Lists
      reads xbuf0, xbuf1, content
    {
      Lists(xbuf0[..], xbuf1[..], content[..])
    }

    ghost predicate Shape() {
      && ValidGeometry(g) && Left(g) <= padded <= g.rows
      && xbuf0.Length == xbuf1.Length == g.rows + 4 * g.rg && content.Length == g.rows + 2 * g.rg
      && xbuf0 != xbuf1 && xbuf0 != content && xbuf1 != content
    }

    /** All row groups of the image have reached the postprocessor. */
    predicate Done()
      reads this`iMCURowCtr, this`bufferFull
      requires ValidGeometry(g)
    {
      iMCURowCtr == Total(g) && !bufferFull
    }

    /** Between calls. */
    ghost predicate Valid()
      reads this, xbuf0, xbuf1, content
    {
      if bufferFull
      then Active() && (contextState.PostponedRow? ==> rowgroupCtr == g.m + 1) && (contextState.ProcessImcu? ==> rowgroupCtr < rowgroupsAvail)
      else Waiting()
    }

    /** The next iMCU row is awaited. */
    ghost predicate Waiting()
      reads this, xbuf0, xbuf1, content
    {
      && Shape() && iMCURowCtr <= Total(g) && AllSeen(g, log, padded) && !bufferFull
      && Hungry(g, State(), iMCURowCtr, padded, |log|) && whichptr == iMCURowCtr % 2
      && (if iMCURowCtr == 0 then contextState.PrepareForImcu?
          else contextState.PostponedRow? && rowgroupCtr == g.m + 1 && rowgroupsAvail == g.m + 2)
    }

    /** iMCU row number iMCURowCtr is in the workspace. */
    ghost predicate Active()
      reads this, xbuf0, xbuf1, content
    {
      && Shape() && 1 <= iMCURowCtr <= Total(g) && AllSeen(g, log, padded) && bufferFull && whichptr == (iMCURowCtr - 1) % 2
      && match contextState
         case PostponedRow =>
           && iMCURowCtr >= 2 && Fed(g, State(), iMCURowCtr, padded) && g.m + 1 <= rowgroupCtr <= rowgroupsAvail == g.m + 2
           && |log| == Group(g, iMCURowCtr - 1, g.m - 1) + (rowgroupCtr - (g.m + 1))
         case PrepareForImcu => Fed(g, State(), iMCURowCtr, padded) && |log| == Group(g, iMCURowCtr, 0)
         case ProcessImcu =>
           && Processing(g, State(), iMCURowCtr, padded) && rowgroupsAvail == Avail(g, iMCURowCtr)
           && rowgroupCtr <= rowgroupsAvail && |log| == Group(g, iMCURowCtr, 0) + rowgroupCtr
    }

    /** jinit_d_main_controller: a workspace of m + 2 row groups, and two row lists of m + 4. */
    constructor (g: Geometry, padded: nat)
      requires ValidGeometry(g) && Left(g) <= padded <= g.rows
      ensures Valid() && this.g == g && this.padded == padded && iMCURowCtr == 0 && !bufferFull && log == []
      ensures fresh(content) && fresh(xbuf0) && fresh(xbuf1)
    {
      hide Total, Left;
      Products(g);
      this.g, this.padded := g, padded;
      content := new int[g.rg * (g.m + 2)](_ => -1);
      xbuf0 := new int[g.rg * (g.m + 4)](_ => -1);
      xbuf1 := new int[g.rg * (g.m + 4)](_ => -1);
      new;
      StartPass();
    }

    /** make_funny_pointers. */
    method MakeFunnyPointers()
      requires Shape()
      modifies xbuf0, xbuf1
      ensures Top(g, xbuf0[..]) && Body(g, xbuf1[..], 1)
    {
      hide Total, Left, ValidGeometry, Straight, Swapped, TopTo, Body, Top;
      Products(g);
      var rg, m := g.rg, g.m;
      StraightStarts(g, xbuf0[..], xbuf1[..]);
      for i := 0 to rg * (m + 2)
        invariant Straight(g, xbuf0[..], i) && Straight(g, xbuf1[..], i)
      {
        StraightNext(g, xbuf0[..], i);
        StraightNext(g, xbuf1[..], i);
        xbuf0[rg + i], xbuf1[rg + i] := i, i;
      }
      SwappedStarts(g, xbuf0[..], xbuf1[..]);
      var low, high := rg * (m - 2), rg * m;
      for i := 0 to rg * 2
        invariant Swapped(g, xbuf1[..], i) && TopTo(g, xbuf0[..], 0)
      {
        SwappedNext(g, xbuf1[..], i);
        xbuf1[rg + (low + i)] := high + i;
        xbuf1[rg + (high + i)] := low + i;
      }
      for i := 0 to rg
        invariant Swapped(g, xbuf1[..], 2 * rg) && TopTo(g, xbuf0[..], i)
      {
        TopNext(g, xbuf0[..], i);
        xbuf0[i] := xbuf0[rg];
      }
      Made(g, xbuf0[..], xbuf1[..]);
    }

    /** set_wraparound_pointers: both lists take their normal state. */
    method SetWraparoundPointers()
      requires Shape()
      modifies xbuf0, xbuf1
      ensures old(Body(g, xbuf0[..], 0) && Body(g, xbuf1[..], 1)) ==> BothNormal(g, State())
    {
      hide Total, Left, Body, Normal;
      ghost var x0, x1 := xbuf0[..], xbuf1[..];
      Wrap(xbuf0);
      Wrap(xbuf1);
      if Body(g, x0, 0) && Body(g, x1, 1) {
        WrapsTop(g, x0, xbuf0[..], 0);
        WrapsTop(g, x1, xbuf1[..], 1);
      }
    }

    /** One list gets its own ends as its neighbours. */
    method Wrap(xbuf: array<int>)
      requires ValidGeometry(g) && xbuf.Length == g.rows + 4 * g.rg
      modifies xbuf
      ensures forall j :: g.rg <= j < g.rows + 3 * g.rg ==> xbuf[..][j] == old(xbuf[..])[j]
      ensures forall j :: 0 <= j < g.rg ==> xbuf[..][j] == old(xbuf[..])[j + g.rows + 2 * g.rg]
      ensures forall j :: g.rows + 3 * g.rg <= j < xbuf.Length ==> xbuf[..][j] == old(xbuf[..])[j - g.rows - 2 * g.rg]
    {
      hide Wrapped, ValidGeometry;
      Products(g);
      var rg, m := g.rg, g.m;
      ghost var x := xbuf[..];
      var bottom, top := rg * (m + 1), rg * (m + 2);
      WrappedStarts(g, x);
      for i := 0 to rg
        invariant Wrapped(g, x, xbuf[..], i)
      {
        WrappedNext(g, x, xbuf[..], i);
        xbuf[i] := xbuf[rg + (bottom + i)];
        xbuf[rg + (top + i)] := xbuf[rg + i];
      }
      WrappedAll(g, x, xbuf[..]);
    }

    /** set_bottom_pointers: repeats the last real row, and counts the real row groups. */
    method SetBottomPointers()
      requires Shape() && whichptr < 2
      modifies xbuf0, xbuf1, this`rowgroupsAvail
      ensures rowgroupsAvail == LastGroups(g)
      ensures State() == if whichptr == 0 then old(State()).(x0 := Repeated(g, old(xbuf0[..]))) else old(State()).(x1 := Repeated(g, old(xbuf1[..])))
    {
      hide Total, Repeated, RepeatedTo, Left, LastGroups, ValidGeometry;
      LastRows(g);
      Products(g);
      LeftIs(g);
      var rg := g.rg;
      var rowsLeft := g.h % g.rows;
      if rowsLeft == 0 {
        rowsLeft := g.rows;
      }
      assert rowsLeft == Left(g);
      rowgroupsAvail := (rowsLeft - 1) / rg + 1;
      var xbuf := if whichptr == 0 then xbuf0 else xbuf1;
      ghost var x := xbuf[..];
      RepeatedStarts(g, x);
      for i := 0 to rg * 2
        invariant RepeatedTo(g, x, xbuf[..], i) && rowgroupsAvail == LastGroups(g)
        invariant if whichptr == 0 then xbuf1[..] == old(xbuf1[..]) else xbuf0[..] == old(xbuf0[..])
      {
        RepeatedNext(g, x, xbuf[..], i);
        xbuf[rg + (rowsLeft + i)] := xbuf[rg + (rowsLeft - 1)];
      }
      RepeatedAll(g, x, xbuf[..]);
    }

    /** decompress_data: the coefficient controller stores iMCU row r through the list in use. */
    method DecompressData(r: nat)
      requires Shape() && whichptr < 2 && 1 <= r <= Total(g) && Body(g, ListOf(State(), whichptr), whichptr)
      modifies content
      ensures Stored(g, old(content[..]), content[..], r, whichptr, StoredRows(g, r, padded))
    {
      hide Total, Left, Body, Stored, First;
      var n := if r < Total(g) then g.rows else padded;
      var xbuf := if whichptr == 0 then xbuf0 else xbuf1;
      ghost var before := content[..];
      StoredNothing(g, before, r, whichptr);
      for k := 0 to n
        invariant Stored(g, before, content[..], r, whichptr, k)
      {
        StoredNext(g, before, content[..], r, whichptr, k);
        BodyAt(g, xbuf[..], whichptr, k);
        content[xbuf[g.rg + k]] := First(g, r) + k;
      }
    }

    /** post_process_data: some more row groups are consumed, at most take of them. */
    method PostProcess(take: nat, ghost base: int)
      requires Shape() && whichptr < 2 && AllSeen(g, log, padded) && rowgroupCtr <= rowgroupsAvail && base + rowgroupCtr == |log|
      requires Shown(g, content[..], ListOf(State(), whichptr), rowgroupCtr, rowgroupsAvail, base, padded)
      modifies this`log, this`rowgroupCtr
      ensures AllSeen(g, log, padded) && base + rowgroupCtr == |log| && old(log) <= log
      ensures rowgroupCtr == if old(rowgroupCtr) + take < rowgroupsAvail then old(rowgroupCtr) + take else rowgroupsAvail
    {
      hide Total, Left, AllSeen, Shown, View;
      var taken := 0;
      while taken < take && rowgroupCtr < rowgroupsAvail
        invariant rowgroupCtr == old(rowgroupCtr) + taken <= rowgroupsAvail && taken <= take && base + rowgroupCtr == |log|
        invariant AllSeen(g, log, padded) && old(log) <= log
      {
        var v := Neighbourhood(rowgroupCtr);
        OneMoreSeen(g, content[..], ListOf(State(), whichptr), old(rowgroupCtr), rowgroupsAvail, base, padded, log, rowgroupCtr, v);
        log := log + [v];
        rowgroupCtr := rowgroupCtr + 1;
        taken := taken + 1;
      }
    }

    /** The row group q of the list in use, with the row groups above and below. */
    method Neighbourhood(q: nat) returns (v: Rows)
      requires Shape() && whichptr < 2
      ensures v == View(g, content[..], ListOf(State(), whichptr), q * g.rg)
    {
      hide Total, Left;
      var xbuf := if whichptr == 0 then xbuf0 else xbuf1;
      v := [];
      for i := 0 to 3 * g.rg
        invariant v == View(g, content[..], ListOf(State(), whichptr), q * g.rg)[..i]
      {
        var j := q * g.rg + i;
        v := v + [if 0 <= j < xbuf.Length && 0 <= xbuf[j] < content.Length then content[xbuf[j]] else -1];
      }
    }

    /** start_pass_main: the lists are made anew. */
    method StartPass()
      requires Shape()
      modifies this, xbuf0, xbuf1
      ensures Valid() && iMCURowCtr == 0 && !bufferFull && log == []
    {
      hide Total, Left, Body, Top, Normal, Groups;
      LastRows(g);
      MakeFunnyPointers();
      whichptr, contextState, iMCURowCtr, bufferFull, rowgroupCtr, log := 0, PrepareForImcu, 0, false, 0, [];
    }

    /** An iMCU row is read. */
    method Feed()
      requires Waiting() && !Done()
      modifies this`bufferFull, this`iMCURowCtr, content
      ensures Active() && iMCURowCtr == old(iMCURowCtr) + 1
    {
      hide Total, Left, Fed, Holds, Stored, AllSeen, Hungry;
      ghost var s := State();
      HungryList(g, s, iMCURowCtr, padded, |log|);
      HungryCount(g, s, iMCURowCtr, padded, |log|);
      DecompressData(iMCURowCtr + 1);
      bufferFull := true;
      iMCURowCtr := iMCURowCtr + 1;
      FeedsNext(g, s, State(), iMCURowCtr - 1, padded, |log|);
    }

    /** The postponed row group is offered. */
    method TakePostponed(take: nat)
      requires Active() && contextState.PostponedRow?
      modifies this`log, this`rowgroupCtr
      ensures Active() && old(log) <= log && (rowgroupCtr == rowgroupsAvail ==> |log| == Group(g, iMCURowCtr, 0))
      ensures take > 0 ==> rowgroupCtr == rowgroupsAvail
    {
      hide Total, Left, Fed, Shown, AllSeen, Group;
      ghost var base := Group(g, iMCURowCtr - 1, g.m - 1) - (g.m + 1);
      PostponedIsShown(g, State(), iMCURowCtr - 1, padded);
      ShownFrom(g, content[..], ListOf(State(), whichptr), g.m + 1, rowgroupCtr, rowgroupsAvail, base, padded);
      PostProcess(take, base);
      LastOfRow(g, iMCURowCtr - 1);
    }

    /** The row groups of the iMCU row become available, but for the last one, which has no row group below it yet. */
    method Prepare()
      requires Active() && contextState.PrepareForImcu?
      modifies this`rowgroupCtr, this`rowgroupsAvail, this`contextState, xbuf0, xbuf1
      ensures Active() && contextState.ProcessImcu? && rowgroupCtr == 0 < rowgroupsAvail
    {
      hide Total, Left, Fed, Shown, AllSeen, Group, LastGroups, Groups, Repeated;
      ghost var s := State();
      Products(g);
      LastGroupsFit(g);
      rowgroupCtr := 0;
      rowgroupsAvail := g.m - 1;
      if iMCURowCtr == Total(g) {
        SetBottomPointers();
      }
      contextState := ProcessImcu;
      PreparedLists(g, s, State(), iMCURowCtr, padded);
    }

    /** The row groups of the iMCU row are offered. */
    method TakeRest(take: nat)
      requires Active() && contextState.ProcessImcu?
      modifies this`log, this`rowgroupCtr
      ensures Active() && old(log) <= log
      ensures take > 0 && old(rowgroupCtr) < rowgroupsAvail ==> |old(log)| < |log|
    {
      hide Total, Left, Processing, Shown, AllSeen, Group, Avail;
      ProcessingShown(g, State(), iMCURowCtr, padded);
      ShownFrom(g, content[..], ListOf(State(), whichptr), 0, rowgroupCtr, rowgroupsAvail, Group(g, iMCURowCtr, 0), padded);
      PostProcess(take, Group(g, iMCURowCtr, 0));
    }

    /** The last row group is postponed until the next iMCU row is in the other list. */
    method Postpone()
      requires Active() && contextState.ProcessImcu? && rowgroupCtr == rowgroupsAvail
      modifies this`rowgroupCtr, this`rowgroupsAvail, this`contextState, this`bufferFull, this`whichptr, xbuf0, xbuf1
      ensures Waiting() && (Done() ==> |log| == Groups(g))
    {
      hide Total, Left, AllSeen, Holds, Body, Normal, LastGroups, Groups, Group, Fed;
      ghost var s := State();
      if iMCURowCtr == 1 {
        SetWraparoundPointers();
      }
      whichptr := 1 - whichptr;
      bufferFull := false;
      rowgroupCtr := g.m + 1;
      rowgroupsAvail := g.m + 2;
      contextState := PostponedRow;
      PostponedLists(g, s, State(), iMCURowCtr, padded, |log|);
    }

    /** One call of process_data_context_main. The environment chooses whether the source supplies the next iMCU row, how
        many row groups the postprocessor takes each time it is called, and whether it fills the output buffer exactly. */
    method ProcessData(supplied: bool, take1: nat, filled: bool, take2: nat)
      requires Valid() && !Done()
      modifies this, xbuf0, xbuf1, content
      ensures Valid() && old(log) <= log
      ensures !supplied && !old(bufferFull) ==> log == old(log) && iMCURowCtr == old(iMCURowCtr) && !bufferFull
      ensures Done() ==> |log| == Groups(g)
      ensures (supplied || old(bufferFull)) && !filled && take1 > 0 && take2 > 0 ==> |old(log)| < |log|
    {
      hide Total, Left, Fed, Processing, Shown, AllSeen, Hungry, Group, Groups, Avail, Sized;
      if !bufferFull {
        if !supplied {
          return;
        }
        Feed();
      }
      if contextState == PostponedRow {
        TakePostponed(take1);
        if rowgroupCtr < rowgroupsAvail {
          return;
        }
        contextState := PrepareForImcu;
        if filled {
          return;
        }
      }
      if contextState == PrepareForImcu {
        Prepare();
      }
      TakeRest(take2);
      if rowgroupCtr < rowgroupsAvail {
        return;
      }
      Postpone();
    }
  }

  /** The first n rows above and below have been set. */
  ghost predicate Wrapped(g: Geometry, x: List, y: List, n: nat) {
    && |x| == |y| == g.rows + 4 * g.rg
    && (forall j :: g.rg <= j < g.rows + 3 * g.rg ==> y[j] == x[j])
    && (forall j :: 0 <= j < n && j < g.rg ==> y[j] == x[j + g.rows + 2 * g.rg])
    && forall j :: g.rows + 3 * g.rg <= j < g.rows + 3 * g.rg + n && j < |y| ==> y[j] == x[j - g.rows - 2 * g.rg]
  }

  lemma LeftIs(g: Geometry)
    requires ValidGeometry(g)
    ensures g.rows > 0 && Left(g) == (if g.h % g.rows == 0 then g.rows else g.h % g.rows)
    ensures LastGroups(g) == (Left(g) - 1) / g.rg + 1
  {
    Products(g);
  }

  lemma HungryList(g: Geometry, s: Lists, r: nat, padded: nat, n: nat)
    requires ValidGeometry(g) && r < Total(g) && Hungry(g, s, r, padded, n)
    ensures Body(g, ListOf(s, r % 2), r % 2)
  {
    hide Total, Holds;
    if r > 0 {
      NormalBody(g, s.x0, 0);
      NormalBody(g, s.x1, 1);
    }
  }

  lemma HungryCount(g: Geometry, s: Lists, r: nat, padded: nat, n: nat)
    requires ValidGeometry(g) && r < Total(g) && Hungry(g, s, r, padded, n)
    ensures if r == 0 then n == Group(g, 1, 0) else n == Group(g, r, g.m - 1)
  {
    hide Total, Holds, Normal, Top, Body;
    GroupNext(g, 1);
  }

  lemma NormalBody(g: Geometry, x: List, c: nat)
    requires Normal(g, x, c)
    ensures Body(g, x, c)
  {
  }

  lemma ShownFrom(g: Geometry, content: Rows, x: List, from: nat, q: nat, to: nat, base: int, padded: nat)
    requires ValidGeometry(g) && Shown(g, content, x, from, to, base, padded) && from <= q
    ensures Shown(g, content, x, q, to, base, padded)
  {
    hide GroupSeen;
  }

  lemma LastOfRow(g: Geometry, r: nat)
    requires ValidGeometry(g) && r >= 1
    ensures Group(g, r, g.m - 1) + 1 == Group(g, r + 1, 0)
  {
    GroupNext(g, r);
  }

  lemma PreparedLists(g: Geometry, s: Lists, s1: Lists, r: nat, padded: nat)
    requires ValidGeometry(g) && Fed(g, s, r, padded) && s1 == if r == Total(g) then Bottomed(g, s, r) else s
    ensures Processing(g, s1, r, padded)
  {
    hide Total, Left, Holds, Fresh;
    if r == Total(g) {
      assert Fed(g, s, r, padded) && s1 == Bottomed(g, s, r);
    }
  }

  lemma PostponedLists(g: Geometry, s: Lists, s1: Lists, r: nat, padded: nat, n: nat)
    requires ValidGeometry(g) && Processing(g, s, r, padded) && n == Group(g, r, 0) + Avail(g, r)
    requires Sized(g, s1) && s1.content == s.content && (r > 1 ==> s1 == s)
    requires r == 1 && Body(g, s.x0, 0) && Body(g, s.x1, 1) ==> BothNormal(g, s1)
    ensures Hungry(g, s1, r, padded, n)
  {
    hide Total, Left, Holds, Body, Normal;
    LastGroupsFit(g);
  }

  lemma WrappedStarts(g: Geometry, x: List)
    requires |x| == g.rows + 4 * g.rg
    ensures Wrapped(g, x, x, 0)
  {
  }

  lemma WrappedNext(g: Geometry, x: List, y: List, i: nat)
    requires ValidGeometry(g) && Wrapped(g, x, y, i) && i < g.rg
    ensures |y| == g.rows + 4 * g.rg
    ensures Wrapped(g, x, y[i := y[g.rg + (g.rows + g.rg + i)]][g.rg + (g.rows + 2 * g.rg + i) := y[g.rg + i]], i + 1)
  {
  }

  lemma WrappedAll(g: Geometry, x: List, y: List)
    requires Wrapped(g, x, y, g.rg)
    ensures |y| == |x|
    ensures forall j :: g.rg <= j < g.rows + 3 * g.rg ==> y[j] == x[j]
    ensures forall j :: 0 <= j < g.rg ==> y[j] == x[j + g.rows + 2 * g.rg]
    ensures forall j :: g.rows + 3 * g.rg <= j < |y| ==> y[j] == x[j - g.rows - 2 * g.rg]
  {
  }

  /** The first n rows have been entered in order. */
  ghost predicate Straight(g: Geometry, x: List, n: nat) {
    |x| == g.rows + 4 * g.rg && forall j :: g.rg <= j < g.rg + n && j < |x| ==> x[j] == j - g.rg
  }

  lemma StraightStarts(g: Geometry, x0: List, x1: List)
    requires |x0| == |x1| == g.rows + 4 * g.rg
    ensures Straight(g, x0, 0) && Straight(g, x1, 0)
  {
  }

  lemma StraightNext(g: Geometry, x: List, i: nat)
    requires Straight(g, x, i) && i < g.rows + 2 * g.rg
    ensures |x| == g.rows + 4 * g.rg && Straight(g, x[g.rg + i := i], i + 1)
  {
  }

  /** The first n of the last rows have been swapped. */
  ghost predicate Swapped(g: Geometry, x: List, n: nat) {
    |x| == g.rows + 4 * g.rg && forall j :: g.rg <= j < g.rows + 3 * g.rg ==> x[j] == SwappedAt(g, n, j - g.rg)
  }

  function SwappedAt(g: Geometry, n: nat, k: int): int {
    if g.rows - 2 * g.rg <= k < g.rows - 2 * g.rg + n || g.rows <= k < g.rows + n then Base(g, 1, k) else k
  }

  /** The first n rows above the top have been set. */
  ghost predicate TopTo(g: Geometry, x: List, n: nat) {
    && |x| == g.rows + 4 * g.rg
    && (forall j :: g.rg <= j < g.rows + 3 * g.rg ==> x[j] == j - g.rg)
    && forall j :: 0 <= j < n && j < g.rg ==> x[j] == 0
  }

  lemma SwappedStarts(g: Geometry, x0: List, x1: List)
    requires Straight(g, x0, g.rows + 2 * g.rg) && Straight(g, x1, g.rows + 2 * g.rg)
    ensures TopTo(g, x0, 0) && Swapped(g, x1, 0)
  {
  }

  lemma SwappedNext(g: Geometry, x: List, i: nat)
    requires ValidGeometry(g) && Swapped(g, x, i) && i < 2 * g.rg
    ensures |x| == g.rows + 4 * g.rg && g.rows >= 2 * g.rg
    ensures Swapped(g, x[g.rg + (g.rows - 2 * g.rg + i) := g.rows + i][g.rg + (g.rows + i) := g.rows - 2 * g.rg + i], i + 1)
  {
    Products(g);
  }

  lemma TopNext(g: Geometry, x: List, i: nat)
    requires ValidGeometry(g) && TopTo(g, x, i) && i < g.rg
    ensures |x| == g.rows + 4 * g.rg && TopTo(g, x[i := x[g.rg]], i + 1)
  {
  }

  lemma Made(g: Geometry, x0: List, x1: List)
    requires ValidGeometry(g) && TopTo(g, x0, g.rg) && Swapped(g, x1, 2 * g.rg)
    ensures Top(g, x0) && Body(g, x1, 1)
  {
    Products(g);
  }

  /** The last real row has been repeated n times. */
  ghost predicate RepeatedTo(g: Geometry, x: List, y: List, n: nat)
    requires ValidGeometry(g)
  {
    && |x| == |y| == g.rows + 4 * g.rg && 1 <= Left(g) <= g.rows
    && forall j :: 0 <= j < |x| ==> y[j] == if g.rg + Left(g) <= j < g.rg + Left(g) + n then x[g.rg + Left(g) - 1] else x[j]
  }

  lemma RepeatedStarts(g: Geometry, x: List)
    requires ValidGeometry(g) && |x| == g.rows + 4 * g.rg
    ensures RepeatedTo(g, x, x, 0)
  {
    LastRows(g);
  }

  lemma RepeatedNext(g: Geometry, x: List, y: List, i: nat)
    requires ValidGeometry(g) && RepeatedTo(g, x, y, i) && i < 2 * g.rg
    ensures |y| == g.rows + 4 * g.rg && 1 <= Left(g) <= g.rows
    ensures RepeatedTo(g, x, y[g.rg + (Left(g) + i) := y[g.rg + (Left(g) - 1)]], i + 1)
  {
    hide Left;
  }

  lemma RepeatedAll(g: Geometry, x: List, y: List)
    requires ValidGeometry(g) && RepeatedTo(g, x, y, 2 * g.rg)
    ensures |x| == g.rows + 4 * g.rg && y == Repeated(g, x)
  {
    hide Left;
  }

  lemma StoredNothing(g: Geometry, content: Rows, r: nat, c: nat)
    requires ValidGeometry(g) && r >= 1 && |content| == g.rows + 2 * g.rg
    ensures Stored(g, content, content, r, c, 0)
  {
  }

  lemma BodyAt(g: Geometry, x: List, c: nat, k: nat)
    requires Body(g, x, c) && k < g.rows
    ensures g.rg + k < |x| && x[g.rg + k] == Base(g, c, k)
  {
  }

  lemma OneMoreSeen(g: Geometry, content: Rows, x: List, from: nat, to: nat, base: int, padded: nat, log: seq<Rows>, q: nat, v: Rows)
    requires ValidGeometry(g) && AllSeen(g, log, padded) && Shown(g, content, x, from, to, base, padded) && from <= q < to
    requires base + q == |log| && v == View(g, content, x, q * g.rg)
    ensures AllSeen(g, log + [v], padded)
  {
    hide Seen, View;
    assert GroupSeen(g, content, x, q, base, padded);
  }
}
