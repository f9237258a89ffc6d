/** The compressor's preprocessing controller with context rows (jcprepct.c): a ring of three row groups gives the
    downsampler every row group with its neighbours, for any image height and any split of the input. */
module PrepController {
  import opened FrameGeometry

  type Rows = seq<int>

  /** The row group that begins at image row t, with a row group above and below; beyond the image the first or last row. */
  function Want(v: nat, h: nat, t: int): (r: Rows)
    ensures |r| == 3 * v && forall i :: 0 <= i < 3 * v ==> r[i] == Clamp(t - v + i, h)
  {
    seq(3 * v, i requires 0 <= i < 3 * v => Clamp(t - v + i, h))
  }

  /** Row group n of an image of h rows, in row groups of v rows; n may be below the image. */
  function GroupAt(v: nat, h: nat, n: nat): Rows {
    Want(v, h, n * v)
  }

  // ----- the ring -----

  /** A row list has five row groups, the first and last of which wrap around. */
  function Ring(v: nat, j: int): int {
    if j < 0 then j + 3 * v else if j < 3 * v then j else j - 3 * v
  }

  /** A row list starts one row group before index 0. */
  ghost predicate WrappedRows(v: nat, fake: seq<int>) {
    v > 0 && |fake| == 5 * v && forall k :: 0 <= k < 5 * v ==> fake[k] == Ring(v, k - v)
  }

  /** Image row lap is, or will be, at index 0; the rows before it are still at the indices from next on. */
  ghost predicate Filled(v: nat, h: nat, buf: Rows, lap: int, next: nat) {
    && |buf| == 3 * v && next <= 3 * v
    && (forall k :: 0 <= k < next ==> buf[k] == Clamp(lap + k, h))
    && (lap + next > 0 ==> forall k :: next <= k < 3 * v && lap + k >= 2 * v ==> buf[k] == Clamp(lap + k - 3 * v, h))
  }

  /** The indices fit row group n, with the buffer filled up to index next. */
  ghost predicate Placed(v: nat, lap: int, next: nat, stop: nat, this_: nat, n: nat) {
    && (stop == v || stop == 2 * v || stop == 3 * v) && next <= stop
    && this_ == (if stop >= 2 * v then stop - 2 * v else 2 * v)
    && lap + stop == (n + 2) * v && lap >= 0 && lap + next >= n * v && (n > 0 ==> next + v >= stop) && (n == 0 ==> lap == 0)
  }

  function Look(v: nat, buf: Rows, j: int): int {
    if 0 <= Ring(v, j) < |buf| then buf[Ring(v, j)] else -1
  }

  function View(v: nat, buf: Rows, s: int): (r: Rows)
    ensures |r| == 3 * v && forall i :: 0 <= i < 3 * v ==> r[i] == Look(v, buf, s - v + i)
  {
    seq(3 * v, i requires 0 <= i < 3 * v => Look(v, buf, s - v + i))
  }

  /** With two row groups read behind its beginning, row group n is seen as it should be. */
  lemma Sees(v: nat, h: nat, buf: Rows, lap: int, stop: nat, this_: nat, n: nat)
    requires v > 0 && Filled(v, h, buf, lap, stop) && Placed(v, lap, stop, stop, this_, n)
    ensures View(v, buf, this_) == GroupAt(v, h, n)
  {
    Twice(v, n);
    forall i | 0 <= i < 3 * v
      ensures View(v, buf, this_)[i] == GroupAt(v, h, n)[i]
    {
    }
  }

  lemma Twice(v: nat, n: nat)
    ensures (n + 2) * v == n * v + 2 * v && (n + 3) * v == n * v + 3 * v && n * v >= 0 && (n + 1) * v == n * v + v
  {
  }

  /** One more row stored. */
  lemma FilledNext(v: nat, h: nat, buf: Rows, lap: int, next: nat)
    requires v > 0 && Filled(v, h, buf, lap, next) && next < 3 * v && lap >= 0 && lap + next > 0
    ensures Filled(v, h, buf[next := Clamp(lap + next, h)], lap, next + 1)
  {
  }

  /** The first rows, and the first row again in the row group above them. */
  lemma FilledStart(v: nat, h: nat, buf: Rows, n: nat)
    requires v > 0 && |buf| == 3 * v && 0 < n <= h && n <= 2 * v
    requires (forall k :: 0 <= k < n ==> buf[k] == k) && forall k :: 2 * v <= k < 3 * v ==> buf[k] == 0
    ensures Filled(v, h, buf, 0, n)
  {
  }

  lemma RowListAt(v: nat, fake: seq<int>, j: int)
    requires WrappedRows(v, fake) && v + j >= 0 && j < 4 * v
    ensures 0 <= v + j < |fake| && fake[v + j] == Ring(v, j) && 0 <= Ring(v, j) < 3 * v
  {
  }

  /** The last row before index next is the last row of the image. */
  lemma LastStored(v: nat, h: nat, buf: Rows, lap: int, row: nat, next: nat)
    requires v > 0 && h > 0 && Filled(v, h, buf, lap, row) && next <= row < 3 * v
    requires lap + next >= h && lap >= 0 && (next == 0 ==> lap >= v)
    ensures Look(v, buf, next - 1) == h - 1 && 0 <= Ring(v, next - 1) < |buf| && Clamp(lap + row, h) == h - 1
  {
  }

  /** Starting the next lap. */
  lemma FilledWraps(v: nat, h: nat, buf: Rows, lap: int)
    requires v > 0 && Filled(v, h, buf, lap, 3 * v) && lap >= 0
    ensures Filled(v, h, buf, lap + 3 * v, 0)
  {
  }

  /** On to the next row group. */
  lemma PlacedNext(v: nat, lap: int, stop: nat, this_: nat, n: nat)
    requires v > 0 && Placed(v, lap, stop, stop, this_, n)
    ensures var this1 := if this_ + v >= 3 * v then 0 else this_ + v;
      if stop >= 3 * v then Placed(v, lap + 3 * v, 0, v, this1, n + 1) else Placed(v, lap, stop, stop + v, this1, n + 1)
  {
    Twice(v, n);
    Twice(v, n + 1);
  }

  // ----- the controller -----

  class PrepBuffer {
    const v: nat
    const h: nat
    const buf: array<int>
    const fake: array<int>
    var rowsToGo: nat
    var nextBufRow: nat
    var thisRowGroup: nat
    var nextBufStop: nat
    ghost var lap: int
    // what the downsampler has been given
    var log: seq<Rows>

    ghost predicate Shape()
      reads fake
    {
      v > 0 && h > 0 && buf.Length == 3 * v && WrappedRows(v, fake[..]) && buf != fake
    }

    ghost predicate Valid()
      reads this, buf, fake
    {
      && Shape() && rowsToGo <= h && nextBufRow < nextBufStop
      && Placed(v, lap, nextBufRow, nextBufStop, thisRowGroup, |log|)
      && (if rowsToGo > 0 then lap + nextBufRow == h - rowsToGo else lap + nextBufRow >= h)
      && (rowsToGo < h ==> Filled(v, h, buf[..], lap, nextBufRow))
      && (rowsToGo == h ==> |log| == 0 && lap == 0 && nextBufRow == 0)
      && AllSeen()
    }

    ghost predicate AllSeen()
      reads this`log
    {
      forall n :: 0 <= n < |log| ==> log[n] == GroupAt(v, h, n)
    }

    /** create_context_buffer and start_pass_prep. */
    constructor (v: nat, h: nat)
      requires v > 0 && h > 0
      ensures Valid() && this.v == v && this.h == h && rowsToGo == h && log == [] && fresh(buf) && fresh(fake)
    {
      var f := new int[5 * v];
      for i := 0 to 3 * v
        invariant forall k :: v <= k < v + i ==> f[k] == k - v
      {
        f[v + i] := i;
      }
      for i := 0 to v
        invariant forall k :: v <= k < 4 * v ==> f[k] == k - v
        invariant forall k :: 0 <= k < i ==> f[k] == 2 * v + k
        invariant forall k :: 4 * v <= k < 4 * v + i ==> f[k] == k - 4 * v
      {
        f[i] := 2 * v + i;
        f[4 * v + i] := i;
      }
      this.v, this.h, fake := v, h, f;
      buf := new int[3 * v](_ => -1);
      rowsToGo, nextBufRow, thisRowGroup, nextBufStop, lap, log := h, 0, 0, 2 * v, 0, [];
    }

    /** Colour conversion of the next rows of the image, the first of them also into the row group above the image. */
    method ReadRows(numrows: nat)
      requires Valid() && 0 < numrows <= rowsToGo && nextBufRow + numrows <= nextBufStop
      modifies this`rowsToGo, this`nextBufRow, buf
      ensures Holding() && rowsToGo == old(rowsToGo) - numrows && nextBufRow == old(nextBufRow) + numrows
    {
      hide WrappedRows, Placed, Filled, Ring;
      ghost var next := nextBufRow;
      PlacedBounds(v, lap, nextBufRow, nextBufStop, thisRowGroup, |log|);
      for i := 0 to numrows
        invariant nextBufRow == next && rowsToGo == old(rowsToGo)
        invariant rowsToGo < h ==> Filled(v, h, buf[..], lap, next + i)
        invariant rowsToGo == h ==> forall k :: 0 <= k < i ==> buf[k] == k
      {
        RowListAt(v, fake[..], nextBufRow + i);
        RingInside(v, nextBufRow + i);
        if rowsToGo < h {
          FilledNext(v, h, buf[..], lap, next + i);
        }
        buf[fake[v + nextBufRow + i]] := h - rowsToGo + i;
      }
      if rowsToGo == h {
        PadTop(numrows);
        FilledStart(v, h, buf[..], numrows);
      }
      nextBufRow := nextBufRow + numrows;
      rowsToGo := rowsToGo - numrows;
      PlacedFurther(v, lap, next, nextBufRow, nextBufStop, thisRowGroup, |log|);
    }

    /** The first row is copied to the row group above. */
    method PadTop(numrows: nat)
      requires Shape() && 0 < numrows <= 2 * v && buf[0] == 0 && forall k :: 0 <= k < numrows ==> buf[k] == k
      modifies buf
      ensures (forall k :: 0 <= k < numrows ==> buf[k] == k) && forall k :: 2 * v <= k < 3 * v ==> buf[k] == 0
    {
      hide WrappedRows;
      for row := 1 to v + 1
        invariant forall k :: 0 <= k < numrows ==> buf[k] == k
        invariant forall k :: 3 * v - row < k < 3 * v ==> buf[k] == 0
      {
        RowListAt(v, fake[..], 0);
        RowListAt(v, fake[..], -row);
        buf[fake[v - row]] := buf[fake[v]];
      }
    }

    /** Valid, except that the buffer may be filled up to where it is emptied. */
    ghost predicate Holding()
      reads this, buf, fake
    {
      && Shape() && rowsToGo < h && nextBufRow <= nextBufStop
      && Placed(v, lap, nextBufRow, nextBufStop, thisRowGroup, |log|)
      && (if rowsToGo > 0 then lap + nextBufRow == h - rowsToGo else lap + nextBufRow >= h)
      && Filled(v, h, buf[..], lap, nextBufRow) && AllSeen()
    }

    /** expand_bottom_edge: the last row is repeated until the row group below is full. */
    method ExpandBottomEdge()
      requires Holding() && rowsToGo == 0
      modifies this`nextBufRow, buf
      ensures Holding() && nextBufRow == nextBufStop
    {
      hide WrappedRows, Placed, Filled, Ring;
      ghost var next := nextBufRow;
      PlacedBounds(v, lap, next, nextBufStop, thisRowGroup, |log|);
      if nextBufRow < nextBufStop {
        for row := nextBufRow to nextBufStop
          invariant nextBufRow == next && Filled(v, h, buf[..], lap, row)
        {
          LastStored(v, h, buf[..], lap, row, next);
          RowListAt(v, fake[..], row);
          RowListAt(v, fake[..], nextBufRow - 1);
          RingInside(v, row);
          FilledNext(v, h, buf[..], lap, row);
          buf[fake[v + row]] := buf[fake[v + nextBufRow - 1]];
        }
        nextBufRow := nextBufStop;
        PlacedFurther(v, lap, next, nextBufRow, nextBufStop, thisRowGroup, |log|);
      }
    }

    /** The downsampler is given the row group, and the indices advance, wrapping around as necessary. */
    method Downsample()
      requires Holding() && nextBufRow == nextBufStop
      modifies this`log, this`thisRowGroup, this`nextBufRow, this`nextBufStop, this`lap
      ensures Valid() && rowsToGo == old(rowsToGo) && rowsToGo < h && |log| == |old(log)| + 1 && old(log) <= log
    {
      hide WrappedRows, Placed, Filled, Look, View, GroupAt;
      PlacedBounds(v, lap, nextBufRow, nextBufStop, thisRowGroup, |log|);
      ThisBounds(v, lap, nextBufRow, nextBufStop, thisRowGroup, |log|);
      Sees(v, h, buf[..], lap, nextBufStop, thisRowGroup, |log|);
      PlacedNext(v, lap, nextBufStop, thisRowGroup, |log|);
      var view := Context();
      log := log + [view];
      thisRowGroup := thisRowGroup + v;
      if thisRowGroup >= 3 * v {
        thisRowGroup := 0;
      }
      if nextBufRow >= 3 * v {
        FilledWraps(v, h, buf[..], lap);
        nextBufRow := 0;
        lap := lap + 3 * v;
      }
      nextBufStop := nextBufRow + v;
    }

    /** The row group in use and its neighbours, through the row list. */
    method Context() returns (view: Rows)
      requires Shape() && thisRowGroup <= 2 * v
      ensures view == View(v, buf[..], thisRowGroup)
    {
      hide WrappedRows, Ring;
      view := [];
      for i := 0 to 3 * v
        invariant view == View(v, buf[..], thisRowGroup)[..i]
      {
        RowListAt(v, fake[..], thisRowGroup - v + i);
        view := view + [buf[fake[v + (thisRowGroup - v + i)]]];
      }
    }

    /** pre_process_context: takes rows and gives out row groups until one of them runs out. */
    method PreProcess(inRows: nat, outGroups: nat) returns (inCtr: nat, outCtr: nat)
      requires Valid() && inRows <= rowsToGo
      modifies this, buf
      ensures Valid() && old(log) <= log && |log| == |old(log)| + outCtr
      ensures inCtr <= inRows && outCtr <= outGroups && rowsToGo == old(rowsToGo) - inCtr
      ensures outCtr == outGroups || (inCtr == inRows && rowsToGo > 0)
      ensures forall n :: 0 <= n < |log| ==> log[n] == GroupAt(v, h, n)
    {
      hide WrappedRows, Placed, Filled, GroupAt;
      inCtr, outCtr := 0, 0;
      while outCtr < outGroups
        invariant Valid() && inCtr <= inRows && outCtr <= outGroups && rowsToGo == old(rowsToGo) - inCtr
        invariant old(log) <= log && |log| == |old(log)| + outCtr
        decreases outGroups - outCtr, inRows - inCtr
      {
        if inCtr < inRows {
          var numrows := nextBufStop - nextBufRow;
          if inRows - inCtr < numrows {
            numrows := inRows - inCtr;
          }
          ReadRows(numrows);
          inCtr := inCtr + numrows;
        } else {
          if rowsToGo != 0 {
            break;
          }
          if nextBufRow < nextBufStop {
            ExpandBottomEdge();
          }
        }
        if nextBufRow == nextBufStop {
          Downsample();
          outCtr := outCtr + 1;
        }
      }
    }
  }

  lemma ThisBounds(v: nat, lap: int, next: nat, stop: nat, this_: nat, n: nat)
    requires v > 0 && Placed(v, lap, next, stop, this_, n)
    ensures this_ <= 2 * v
  {
  }

  lemma PlacedBounds(v: nat, lap: int, next: nat, stop: nat, this_: nat, n: nat)
    requires v > 0 && Placed(v, lap, next, stop, this_, n)
    ensures lap >= 0 && next <= stop <= 3 * v && (lap == 0 ==> n < 2) && (n == 0 ==> lap == 0 && stop == 2 * v) && (next == 0 && n > 0 ==> lap >= v)
  {
    Twice(v, n);
    if n >= 2 {
      Twice(v, n - 2);
    }
  }

  lemma PlacedFurther(v: nat, lap: int, next: nat, next1: nat, stop: nat, this_: nat, n: nat)
    requires Placed(v, lap, next, stop, this_, n) && next <= next1 <= stop
    ensures Placed(v, lap, next1, stop, this_, n)
  {
  }

  lemma RingInside(v: nat, j: int)
    requires 0 <= j < 3 * v
    ensures Ring(v, j) == j
  {
  }

  /** What a row group shows: the rows of the image, above it the first one and below it the last one. */
  lemma GroupShows(v: nat, h: nat, n: nat, i: nat)
    requires v > 0 && h > 0 && i < 3 * v
    ensures |GroupAt(v, h, n)| == 3 * v
    ensures n * v + i < v ==> GroupAt(v, h, n)[i] == 0
    ensures v <= n * v + i < h + v ==> GroupAt(v, h, n)[i] == n * v + i - v
    ensures n * v + i >= h + v ==> GroupAt(v, h, n)[i] == h - 1
  {
  }
}
