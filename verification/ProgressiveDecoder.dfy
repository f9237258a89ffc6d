/** The progressive entropy decoder (jdphuff.c): four decode_mcu routines that work on the coefficient arrays in place,
    from a source that may suspend them at any byte; AC refinement undoes what it must when that happens. */
module ProgressiveDecoder {
  import opened BitSeq
  import opened ByteStream
  import opened BitStream
  import BitReader
  import opened HuffTable
  import opened DerivedTables
  import opened Symbols
  import opened Coefficients
  import opened BlockCoding
  import opened AcFirstCoding
  import opened AcRefineCoding
  import opened DcCoding
  import opened ScanCoding
  import opened NaturalOrder
  import MarkerReader
  import opened DecoderLoops
  import opened DecoderSteps
  import opened RefineAgain

  // ----- AC refinement -----

  /** One correction bit for coefficient k. */
  method ReadCorrection(data: seq<Byte>, limit: nat, r: BitReader.ReadState, ghost p: BandSpec, al: nat, block: array<int>, k: nat,
                        ghost a: BitReader.ReadState)
    returns (r': BitReader.ReadState, ok: bool)
    requires BitReader.Valid(data, a) && a.pos <= limit <= |data| && Attempt(data, limit, a, r, true) && BitReader.Valid(data, r)
    requires r.pos <= |data| && block.Length == DCTSIZE2 && k < DCTSIZE2 && p.al == al
    modifies block
    ensures Attempt(data, limit, a, r', ok)
    ensures ok ==> BitReader.Valid(data, r') && r'.pos <= |data|
    ensures ok ==> (Contents(block), BitReader.View(data, r')) == CorrectAt(p, BitReader.View(data, r), old(Contents(block)), k)
    ensures !ok ==> Contents(block) == old(Contents(block))
  {
    hide *;
    BlockLength();
    ghost var c := Contents(block);
    ContentsIs(block);
    var bit;
    bit, r', ok := ReadBits(data, limit, r, 1, a);
    if !ok {
      return;
    }
    AttemptValid(data, limit, a, r');
    var n := Natural(k);
    NaturalIs(block[..], k);
    CorrectIs(p, BitReader.View(data, r), c, k, bit, BitReader.View(data, r'));
    if bit != 0 {
      if Asr(block[n], al) % 2 == 0 {  // do nothing if already set
        ghost var before := block[..];
        if block[n] >= 0 {
          block[n] := ToShort(block[n] + Pow2(al));
        } else {
          block[n] := ToShort(block[n] - Pow2(al));
        }
        assert block[..] == before[n := block[n]];
        ZigzagStore(before, k, block[n]);
        ContentsIs(block);
      }
    }
  }

  lemma NaturalIs(block: seq<int>, k: nat)
    requires |block| == DCTSIZE2 && k < DCTSIZE2
    ensures Zigzag(block)[k] == block[Natural(k)]
  {
  }

  lemma CorrectIs(p: BandSpec, st: Stream, c: Block, k: nat, bit: nat, st1: Stream)
    requires k < |c| == DCTSIZE2 && (bit, st1) == Take(st, 1)
    ensures bit <= 1
    ensures CorrectAt(p, st, c, k) == (c[k := if bit == 1 && Asr(c[k], p.al) % 2 == 0
                                              then ToShort(if c[k] >= 0 then c[k] + Pow2(p.al) else c[k] - Pow2(p.al)) else c[k]], st1)
    ensures c[k := c[k]] == c
  {
    hide Asr, ToShort;
    assert Pow2(1) == 2;
  }

  /** Between a and its result f every coefficient is as in one of them. */
  ghost predicate Midway(a: Block, f: Block, c: Block) {
    && |a| == |f| == |c| == DCTSIZE2
    && forall j :: 0 <= j < DCTSIZE2 ==> c[j] == a[j] || c[j] == f[j]
  }

  /** The skipping loop before position k, against the whole of it. */
  ghost predicate Skipping(p: BandSpec, st0: Stream, c0: Block, k0: nat, r0: nat, st: Stream, c: Block, k: nat, r: nat) {
    && |c0| == |c| == DCTSIZE2 && k0 <= k <= p.se < DCTSIZE2 && ShortBlock(c)
    && SkipZeros(p, st, c, k, r) == SkipZeros(p, st0, c0, k0, r0)
    && Midway(c0, SkipZeros(p, st0, c0, k0, r0).0, c)
    && forall j :: k <= j < DCTSIZE2 ==> c[j] == c0[j]
  }

  lemma SkipStarts(p: BandSpec, st: Stream, c: Block, k: nat, r: nat)
    requires ShortBlock(c) && k <= p.se < DCTSIZE2 == 64
    ensures Skipping(p, st, c, k, r, st, c, k, r) && Midway(c, SkipZeros(p, st, c, k, r).0, c) && |c| == 64
  {
    hide SkipZeros;
  }

  /** Passing a nonzero coefficient. */
  lemma SkipNonzero(p: BandSpec, st0: Stream, c0: Block, k0: nat, r0: nat, st: Stream, c: Block, k: nat, r: nat, c1: Block, st1: Stream)
    requires Skipping(p, st0, c0, k0, r0, st, c, k, r) && p.al <= 13 && c[k] != 0 && (c1, st1) == CorrectAt(p, st, c, k)
    ensures |c1| == DCTSIZE2
    ensures k + 1 > p.se ==> SkipZeros(p, st0, c0, k0, r0) == (c1, st1, k + 1)
    ensures k + 1 <= p.se ==> Skipping(p, st0, c0, k0, r0, st1, c1, k + 1, r)
  {
    hide Correct, Take;
    CorrectShort(p, st, c, k);
    if k + 1 <= p.se {
      SkipUnfold(p, st, c, k, r, c1, st1);
      hide SkipZeros;
      SkipKeeps(p, st1, c1, k + 1, r);
    }
  }

  lemma SkipUnfold(p: BandSpec, st: Stream, c: Block, k: nat, r: nat, c1: Block, st1: Stream)
    requires |c| == DCTSIZE2 && k + 1 <= p.se < DCTSIZE2 && c[k] != 0 && (c1, st1) == CorrectAt(p, st, c, k)
    ensures SkipZeros(p, st, c, k, r) == SkipZeros(p, st1, c1, k + 1, r)
  {
    hide CorrectAt;
  }

  /** Passing a zero coefficient, or stopping at it. */
  lemma SkipZero(p: BandSpec, st0: Stream, c0: Block, k0: nat, r0: nat, st: Stream, c: Block, k: nat, r: nat)
    requires Skipping(p, st0, c0, k0, r0, st, c, k, r) && c[k] == 0
    ensures r == 0 ==> SkipZeros(p, st0, c0, k0, r0) == (c, st, k)
    ensures r > 0 && k + 1 > p.se ==> SkipZeros(p, st0, c0, k0, r0) == (c, st, k + 1)
    ensures r > 0 && k + 1 <= p.se ==> Skipping(p, st0, c0, k0, r0, st, c, k + 1, r - 1)
  {
    hide CorrectAt;
  }

  lemma SkipMidway(p: BandSpec, st0: Stream, c0: Block, k0: nat, r0: nat, st: Stream, c: Block, k: nat, r: nat)
    requires Skipping(p, st0, c0, k0, r0, st, c, k, r)
    ensures Midway(c0, SkipZeros(p, st0, c0, k0, r0).0, c) && |c| == DCTSIZE2 && k <= p.se
  {
  }

  /** Advance over already nonzero coefficients and zeros still-zero ones, correcting the former. */
  method SkipOver(data: seq<Byte>, limit: nat, r: BitReader.ReadState, ghost p: BandSpec, se: nat, al: nat, block: array<int>, k0: nat,
                  zeros: nat, ghost a: BitReader.ReadState)
    returns (r': BitReader.ReadState, k: nat, ok: bool)
    requires BitReader.Valid(data, a) && a.pos <= limit <= |data| && Attempt(data, limit, a, r, true) && BitReader.Valid(data, r)
    requires r.pos <= |data| && block.Length == DCTSIZE2 && k0 <= se < DCTSIZE2 && p.se == se && p.al == al <= 13
    requires ShortBlock(Contents(block))
    modifies block
    ensures Attempt(data, limit, a, r', ok)
    ensures ok ==> BitReader.Valid(data, r') && r'.pos <= |data|
    ensures ok ==> (Contents(block), BitReader.View(data, r'), k)
                   == SkipZeros(p, BitReader.View(data, r), old(Contents(block)), k0, zeros)
    ensures !ok ==>
      Midway(old(Contents(block)), SkipZeros(p, BitReader.View(data, r), old(Contents(block)), k0, zeros).0, Contents(block))
  {
    hide *;
    BlockLength();
    ghost var c0, st0 := Contents(block), BitReader.View(data, r);
    r', k, ok := r, k0, true;
    var left: int := zeros;
    SkipStarts(p, st0, c0, k0, zeros);
    while true
      invariant k0 <= k <= se && left >= 0 && block.Length == 64
      invariant Attempt(data, limit, a, r', true) && BitReader.Valid(data, r') && r'.pos <= |data|
      invariant Skipping(p, st0, c0, k0, zeros, BitReader.View(data, r'), Contents(block), k, left)
      decreases se - k
    {
      ghost var c, st := Contents(block), BitReader.View(data, r');
      ContentsIs(block);
      NaturalIs(block[..], k);
      SkipMidway(p, st0, c0, k0, zeros, st, c, k, left);
      if block[Natural(k)] != 0 {
        r', ok := ReadCorrection(data, limit, r', p, al, block, k, a);
        if !ok {
          return;
        }
        SkipNonzero(p, st0, c0, k0, zeros, st, c, k, left, Contents(block), BitReader.View(data, r'));
      } else {
        SkipZero(p, st0, c0, k0, zeros, st, c, k, left);
        left := left - 1;
        if left < 0 {
          return;
        }
      }
      k := k + 1;
      if k > se {
        return;
      }
    }
  }

  /** The loop behind an end-of-band before position k, against the whole of it. */
  ghost predicate Correcting(p: BandSpec, st0: Stream, c0: Block, k0: nat, st: Stream, c: Block, k: nat) {
    && |c0| == |c| == DCTSIZE2 && k0 <= k && p.se < DCTSIZE2 && ShortBlock(c)
    && CorrectTail(p, st, c, k) == CorrectTail(p, st0, c0, k0)
    && Midway(c0, CorrectTail(p, st0, c0, k0).0, c)
    && forall j :: k <= j < DCTSIZE2 ==> c[j] == c0[j]
  }

  lemma TailStarts(p: BandSpec, st: Stream, c: Block, k: nat)
    requires ShortBlock(c) && p.se < DCTSIZE2
    ensures Correcting(p, st, c, k, st, c, k)
  {
    hide CorrectTail;
  }

  lemma TailNext(p: BandSpec, st0: Stream, c0: Block, k0: nat, st: Stream, c: Block, k: nat, c1: Block, st1: Stream)
    requires Correcting(p, st0, c0, k0, st, c, k) && p.al <= 13 && k <= p.se
    requires (c1, st1) == if c[k] != 0 then CorrectAt(p, st, c, k) else (c, st)
    ensures Correcting(p, st0, c0, k0, st1, c1, k + 1)
  {
    hide Correct, Take;
    if c[k] != 0 {
      CorrectShort(p, st, c, k);
    }
    assert CorrectTail(p, st, c, k) == CorrectTail(p, st1, c1, k + 1);
    hide CorrectTail;
    TailKeeps(p, st1, c1, k + 1);
  }

  lemma TailEnds(p: BandSpec, st0: Stream, c0: Block, k0: nat, st: Stream, c: Block, k: nat)
    requires Correcting(p, st0, c0, k0, st, c, k)
    ensures Midway(c0, CorrectTail(p, st0, c0, k0).0, c) && |c| == DCTSIZE2 == 64
    ensures k > p.se ==> CorrectTail(p, st0, c0, k0) == (c, st)
  {
  }

  /** Correct all already nonzero coefficients from k0 on. */
  method CorrectRest(data: seq<Byte>, limit: nat, r: BitReader.ReadState, ghost p: BandSpec, se: nat, al: nat, block: array<int>,
                     k0: nat, ghost a: BitReader.ReadState)
    returns (r': BitReader.ReadState, ok: bool)
    requires BitReader.Valid(data, a) && a.pos <= limit <= |data| && Attempt(data, limit, a, r, true) && BitReader.Valid(data, r)
    requires r.pos <= |data| && block.Length == DCTSIZE2 && se < DCTSIZE2 && p.se == se && p.al == al <= 13
    requires ShortBlock(Contents(block))
    modifies block
    ensures Attempt(data, limit, a, r', ok)
    ensures ok ==> BitReader.Valid(data, r') && r'.pos <= |data|
    ensures ok ==> (Contents(block), BitReader.View(data, r')) == CorrectTail(p, BitReader.View(data, r), old(Contents(block)), k0)
    ensures !ok ==> Midway(old(Contents(block)), CorrectTail(p, BitReader.View(data, r), old(Contents(block)), k0).0, Contents(block))
  {
    hide *;
    BlockLength();
    ghost var c0, st0 := Contents(block), BitReader.View(data, r);
    r', ok := r, true;
    var k := k0;
    TailStarts(p, st0, c0, k0);
    while k <= se
      invariant k0 <= k && ok && block.Length == 64
      invariant Attempt(data, limit, a, r', true) && BitReader.Valid(data, r') && r'.pos <= |data|
      invariant Correcting(p, st0, c0, k0, BitReader.View(data, r'), Contents(block), k)
    {
      ghost var c, st := Contents(block), BitReader.View(data, r');
      ContentsIs(block);
      NaturalIs(block[..], k);
      TailEnds(p, st0, c0, k0, st, c, k);
      if block[Natural(k)] != 0 {
        r', ok := ReadCorrection(data, limit, r', p, al, block, k, a);
        if !ok {
          return;
        }
      }
      TailNext(p, st0, c0, k0, st, c, k, Contents(block), BitReader.View(data, r'));
      k := k + 1;
    }
    TailEnds(p, st0, c0, k0, BitReader.View(data, r'), Contents(block), k);
  }

  /** The symbol loop of decode_mcu_AC_refine before position k, against the whole of it; newk lists the newly nonzero
      coefficients. Only in the band there is something left to read, and what has been done may have to be undone. */
  ghost predicate Refining(t: Table, p: BandSpec, st0: Stream, c0: Block, k0: nat, st: Stream, c: Block, k: nat, newk: seq<nat>) {
    && |c0| == |c| == DCTSIZE2 && k0 <= k && p.se < DCTSIZE2 && p.al <= 13 && ShortBlock(c)
    && DecodeBand(t, p, st, c, k) == DecodeBand(t, p, st0, c0, k0)
    && |newk| <= k - k0
    && (k <= p.se ==>
      && Overrun(t, p, st, c, k) == Overrun(t, p, st0, c0, k0)
      && (forall j :: k <= j < DCTSIZE2 ==> c[j] == c0[j])
      && (forall i :: 0 <= i < |newk| ==> newk[i] < k && newk[i] < DCTSIZE2 && c0[newk[i]] == 0)
      && forall j :: 0 <= j < k && j < DCTSIZE2 && c0[j] == 0 && c[j] != 0 ==> j in newk)
  }

  lemma RefineStarts(t: Table, p: BandSpec, st: Stream, c: Block, k: nat)
    requires ShortBlock(c) && p.se < DCTSIZE2 && p.al <= 13
    ensures Refining(t, p, st, c, k, st, c, k, [])
  {
    hide DecodeBand, Overrun;
  }

  lemma RefiningIs(t: Table, p: BandSpec, st0: Stream, c0: Block, k0: nat, st: Stream, c: Block, k: nat, newk: seq<nat>)
    requires Refining(t, p, st0, c0, k0, st, c, k, newk)
    ensures |c0| == |c| == DCTSIZE2 == 64 && k0 <= k && p.se < DCTSIZE2 && ShortBlock(c) && |newk| <= k - k0
    ensures DecodeBand(t, p, st, c, k) == DecodeBand(t, p, st0, c0, k0)
  {
  }

  /** Where the loop stands can be undone. */
  lemma RefiningUndoable(t: Table, p: BandSpec, st0: Stream, c0: Block, k0: nat, st: Stream, c: Block, k: nat, newk: seq<nat>)
    requires Refining(t, p, st0, c0, k0, st, c, k, newk) && k <= p.se
    ensures Undoable(c0, DecodeBand(t, p, st0, c0, k0).0, c, newk, Overrun(t, p, st0, c0, k0))
  {
    hide DecodeBand, Overrun;
    BandKeeps(t, p, st, c, k);
  }

  /** So can any point on the way to g, where g is final before k1 and untouched from k1 on. */
  lemma MidwayUndoable(c0: Block, f: Block, c: Block, newk: seq<nat>, q: nat, g: Block, k1: nat, c': Block)
    requires Undoable(c0, f, c, newk, q) && Midway(c, g, c') && ShortBlock(g)
    requires forall j :: 0 <= j < DCTSIZE2 ==> (g[j] == 0 <==> c[j] == 0)
    requires forall j :: 0 <= j < DCTSIZE2 && j != q ==> if j < k1 then g[j] == f[j] else g[j] == c[j]
    ensures Undoable(c0, f, c', newk, q)
  {
  }

  /** A newly nonzero coefficient. */
  lemma RefineNew(t: Table, p: BandSpec, st0: Stream, c0: Block, k0: nat, st: Stream, c: Block, k: nat, newk: seq<nat>, rs: nat,
                  st1: Stream, bit: nat, st2: Stream, c1: Block, st3: Stream, k1: nat, c2: Block)
    requires Refining(t, p, st0, c0, k0, st, c, k, newk) && k <= p.se && |c1| == DCTSIZE2
    requires Decode(t, st) == (rs, st1) && rs % 16 != 0 && Take(st1, 1) == (bit, st2)
    requires SkipZeros(p, st2, c, k, rs / 16) == (c1, st3, k1) && c2 == Put(c1, k1, NewValue(p.al, bit))
    ensures k <= k1 <= p.se + 1 && Refining(t, p, st0, c0, k0, st3, c2, k1 + 1, newk + [Place(k1)])
    ensures forall c' :: Midway(c, c1, c') ==> Undoable(c0, DecodeBand(t, p, st0, c0, k0).0, c', newk, Overrun(t, p, st0, c0, k0))
  {
    hide Decode, Take, SkipZeros, DecodeBand, Overrun, NewValue, Put;
    UnfoldNew(t, p, st, c, k, rs, st1, bit, st2, c1, st3, k1, c2);
    SkipKeeps(p, st2, c, k, rs / 16);
    PutKeeps(c1, k1, NewValue(p.al, bit));
    BandKeeps(t, p, st3, c2, k1 + 1);
    RefiningUndoable(t, p, st0, c0, k0, st, c, k, newk);
    if k1 <= p.se {
      ListNext(c0, c, c1, c2, k, k1, newk);
    } else {
      PastBand(t, p, st3, c2, k1 + 1);
    }
    var f, q := DecodeBand(t, p, st0, c0, k0).0, Overrun(t, p, st0, c0, k0);
    forall c' | Midway(c, c1, c')
      ensures Undoable(c0, f, c', newk, q)
    {
      MidwayUndoable(c0, f, c, newk, q, c1, k1, c');
    }
  }

  lemma ListNext(c0: Block, c: Block, c1: Block, c2: Block, k: nat, k1: nat, newk: seq<nat>)
    requires |c0| == |c| == |c1| == |c2| == DCTSIZE2 && k <= k1 < DCTSIZE2
    requires forall j :: k <= j < DCTSIZE2 ==> c[j] == c0[j]
    requires forall j :: 0 <= j < DCTSIZE2 ==> (c1[j] == 0 <==> c[j] == 0)
    requires forall j :: 0 <= j < DCTSIZE2 && (j < k || j >= k1) ==> c1[j] == c[j]
    requires c[k1] == 0 && forall j :: 0 <= j < DCTSIZE2 && j != k1 ==> c2[j] == c1[j]
    requires forall j :: 0 <= j < k && j < DCTSIZE2 && c0[j] == 0 && c[j] != 0 ==> j in newk
    ensures forall j :: 0 <= j < k1 + 1 && j < DCTSIZE2 && c0[j] == 0 && c2[j] != 0 ==> j in newk + [k1]
    ensures forall j :: k1 + 1 <= j < DCTSIZE2 ==> c2[j] == c0[j]
  {
  }

  /** A run of sixteen zeros. */
  lemma RefineZrl(t: Table, p: BandSpec, st0: Stream, c0: Block, k0: nat, st: Stream, c: Block, k: nat, newk: seq<nat>, rs: nat,
                  st1: Stream, c1: Block, st3: Stream, k1: nat)
    requires Refining(t, p, st0, c0, k0, st, c, k, newk) && k <= p.se && |c1| == DCTSIZE2
    requires Decode(t, st) == (rs, st1) && rs % 16 == 0 && rs / 16 == 15 && SkipZeros(p, st1, c, k, 15) == (c1, st3, k1)
    ensures k <= k1 <= p.se + 1 && Refining(t, p, st0, c0, k0, st3, c1, k1 + 1, newk)
    ensures forall c' :: Midway(c, c1, c') ==> Undoable(c0, DecodeBand(t, p, st0, c0, k0).0, c', newk, Overrun(t, p, st0, c0, k0))
  {
    hide Decode, Take, SkipZeros, DecodeBand, Overrun;
    UnfoldZrl(t, p, st, c, k, rs, st1, c1, st3, k1);
    SkipKeeps(p, st1, c, k, 15);
    BandKeeps(t, p, st3, c1, k1 + 1);
    RefiningUndoable(t, p, st0, c0, k0, st, c, k, newk);
    var f, q := DecodeBand(t, p, st0, c0, k0).0, Overrun(t, p, st0, c0, k0);
    forall c' | Midway(c, c1, c')
      ensures Undoable(c0, f, c', newk, q)
    {
      MidwayUndoable(c0, f, c, newk, q, c1, k1, c');
    }
  }

  /** The end of the band: the tail is corrected, and the run counted down. */
  lemma RefineEob(t: Table, p: BandSpec, st0: Stream, c0: Block, k0: nat, st: Stream, c: Block, k: nat, newk: seq<nat>, rs: nat,
                  st1: Stream, st2: Stream, run: nat)
    requires Refining(t, p, st0, c0, k0, st, c, k, newk) && k <= p.se
    requires Decode(t, st) == (rs, st1) && rs % 16 == 0 && rs / 16 != 15 && RunLength(st1, rs / 16) == (st2, run)
    ensures DecodeBand(t, p, st0, c0, k0) == (CorrectTail(p, st2, c, k).0, CorrectTail(p, st2, c, k).1, run)
    ensures forall c' :: Midway(c, CorrectTail(p, st2, c, k).0, c') ==>
      Undoable(c0, DecodeBand(t, p, st0, c0, k0).0, c', newk, Overrun(t, p, st0, c0, k0))
  {
    hide Decode, Take, DecodeBand, Overrun, CorrectTail, RunLength;
    UnfoldEob(t, p, st, c, k, rs, st1, st2, run);
    TailKeeps(p, st2, c, k);
    RefiningUndoable(t, p, st0, c0, k0, st, c, k, newk);
    var f, q := DecodeBand(t, p, st0, c0, k0).0, Overrun(t, p, st0, c0, k0);
    forall c' | Midway(c, CorrectTail(p, st2, c, k).0, c')
      ensures Undoable(c0, f, c', newk, q)
    {
      MidwayUndoable(c0, f, c, newk, q, CorrectTail(p, st2, c, k).0, DCTSIZE2, c');
    }
  }

  lemma RefineEnds(t: Table, p: BandSpec, st0: Stream, c0: Block, k0: nat, st: Stream, c: Block, k: nat, newk: seq<nat>)
    requires Refining(t, p, st0, c0, k0, st, c, k, newk) && k > p.se
    ensures DecodeBand(t, p, st0, c0, k0) == (c, st, 0)
  {
  }

  /** newnz_pos holds the places, in natural order, of the coefficients that newk lists. */
  ghost predicate Listed(newnz: array<nat>, newk: seq<nat>)
    reads newnz
  {
    && |newk| <= newnz.Length
    && (forall i :: 0 <= i < |newk| ==> newk[i] < DCTSIZE2)
    && forall i :: 0 <= i < |newk| ==> newnz[i] == Natural(newk[i])
  }

  lemma ListedStarts(newnz: array<nat>)
    ensures Listed(newnz, [])
  {
  }

  /** Put coefficient k, and remember its place. */
  method PutNew(block: array<int>, newnz: array<nat>, count: nat, k: nat, v: int, ghost newk: seq<nat>)
    requires block.Length == DCTSIZE2 && k <= DCTSIZE2 && Listed(newnz, newk) && count == |newk| < newnz.Length
    modifies block, newnz
    ensures Contents(block) == Put(old(Contents(block)), k, v)
    ensures Listed(newnz, newk + [Place(k)])
  {
    hide Zigzag, ToShort;
    var pos := Natural(k);
    ghost var before := block[..];
    ZigzagStore(before, k, ToShort(v));
    block[pos] := ToShort(v);
    assert block[..] == before[pos := ToShort(v)];
    newnz[count] := pos;
  }

  /** undoit: re-zero any output coefficients that were made newly nonzero. */
  method Undo(block: array<int>, newnz: array<nat>, count: nat, ghost newk: seq<nat>)
    requires block.Length == DCTSIZE2 && Listed(newnz, newk) && count == |newk|
    modifies block
    ensures Contents(block) == Zeroed(old(Contents(block)), newk)
  {
    hide Zigzag;
    ghost var c := Contents(block);
    var num := count;
    assert Zeroed(c, newk[num..]) == c;
    while num > 0
      invariant 0 <= num <= count && Listed(newnz, newk)
      invariant Contents(block) == Zeroed(c, newk[num..])
    {
      num := num - 1;
      ghost var before := block[..];
      ZeroedNext(c, newk, num);
      ZigzagStore(before, newk[num], 0);
      block[newnz[num]] := 0;
      assert block[..] == before[newnz[num] := 0];
    }
    assert newk[0..] == newk;
  }

  lemma NewValueIs(al: nat, bit: nat)
    ensures NewValue(al, bit) == if bit == 1 then Pow2(al) else 0 - Pow2(al)
  {
  }

  lemma RunIs(st: Stream, r: nat)
    ensures r == 0 ==> RunLength(st, r) == (st, 0)
    ensures r > 0 ==> RunLength(st, r) == (Take(st, r).1, Pow2(r) + Take(st, r).0 - 1) && Pow2(r) >= 1
    ensures Pow2(0) == 1
  {
    hide Take;
  }

  /** The symbol loop of decode_mcu_AC_refine. It stops behind the band, or at an end-of-band symbol with the rest of the
      band and a run of bands to go. */
  method RefineSymbols(data: seq<Byte>, limit: nat, r: BitReader.ReadState, ghost t: Table, huffval: seq<Byte>, d: DDerived,
                       ghost p: BandSpec, ss: nat, se: nat, al: nat, block: array<int>, newnz: array<nat>, ghost a: BitReader.ReadState)
    returns (r': BitReader.ReadState, k: nat, run: nat, count: nat, ghost newk: seq<nat>, ok: bool)
    requires BitReader.Valid(data, a) && a.pos <= limit <= |data| && Attempt(data, limit, a, r, true) && BitReader.Valid(data, r)
    requires r.pos <= |data| && block.Length == DCTSIZE2 && newnz.Length == DCTSIZE2 && ss <= se < DCTSIZE2
    requires p.se == se && p.al == al <= 13 && huffval == t.huffval && Decodes(d, t)
    requires ShortBlock(Contents(block))
    modifies block, newnz
    ensures Attempt(data, limit, a, r', ok) && Listed(newnz, newk) && count == |newk|
    ensures ok ==> BitReader.Valid(data, r') && r'.pos <= |data| && ShortBlock(Contents(block))
    ensures !ok ==>
      Undoable(old(Contents(block)), DecodeBand(t, p, BitReader.View(data, r), old(Contents(block)), ss).0, Contents(block), newk,
               Overrun(t, p, BitReader.View(data, r), old(Contents(block)), ss))
    ensures ok && run == 0 ==> DecodeBand(t, p, BitReader.View(data, r), old(Contents(block)), ss)
                               == (Contents(block), BitReader.View(data, r'), 0)
    ensures ok && run > 0 ==>
      DecodeBand(t, p, BitReader.View(data, r), old(Contents(block)), ss)
      == (CorrectTail(p, BitReader.View(data, r'), Contents(block), k).0, CorrectTail(p, BitReader.View(data, r'), Contents(block), k).1,
          run - 1)
    ensures ok && run > 0 ==>
      forall c' :: Midway(Contents(block), CorrectTail(p, BitReader.View(data, r'), Contents(block), k).0, c') ==>
        Undoable(old(Contents(block)), DecodeBand(t, p, BitReader.View(data, r), old(Contents(block)), ss).0, c', newk,
                 Overrun(t, p, BitReader.View(data, r), old(Contents(block)), ss))
  {
    hide *;
    BlockLength();
    ghost var c0, st0 := Contents(block), BitReader.View(data, r);
    r', k, run, count, newk, ok := r, ss, 0, 0, [], true;
    ListedStarts(newnz);
    RefineStarts(t, p, st0, c0, ss);
    while k <= se
      invariant ss <= k && ok && run == 0 && block.Length == 64 && newnz.Length == 64
      invariant Attempt(data, limit, a, r', true) && BitReader.Valid(data, r') && r'.pos <= |data|
      invariant Refining(t, p, st0, c0, ss, BitReader.View(data, r'), Contents(block), k, newk)
      invariant Listed(newnz, newk) && count == |newk|
      decreases se + 1 - k
    {
      ghost var c, st := Contents(block), BitReader.View(data, r');
      RefiningIs(t, p, st0, c0, ss, st, c, k, newk);
      RefiningUndoable(t, p, st0, c0, ss, st, c, k, newk);
      var rs: nat, bit: nat, v: nat, k1: nat;
      rs, r', ok := ReadSymbol(data, limit, r', t, huffval, d, a);
      if !ok {
        return;
      }
      AttemptValid(data, limit, a, r');
      ghost var st1 := BitReader.View(data, r');
      var zeros, s := rs / 16, rs % 16;
      if s != 0 {
        bit, r', ok := ReadBits(data, limit, r', 1, a);
        if !ok {
          return;
        }
        AttemptValid(data, limit, a, r');
        ghost var st2 := BitReader.View(data, r');
        ghost var x := SkipZeros(p, st2, c, k, zeros);
        ghost var c2 := Put(x.0, x.2, NewValue(p.al, bit));
        RefineNew(t, p, st0, c0, ss, st, c, k, newk, rs, st1, bit, st2, x.0, x.1, x.2, c2);
        r', k1, ok := SkipOver(data, limit, r', p, se, al, block, k, zeros, a);
        if !ok {
          return;
        }
        NewValueIs(al, bit);
        PutNew(block, newnz, count, k1, if bit == 1 then Pow2(al) else 0 - Pow2(al), newk);
        newk := newk + [Place(k1)];
        count := count + 1;
        k := k1 + 1;
      } else if zeros == 15 {
        ghost var x := SkipZeros(p, st1, c, k, 15);
        RefineZrl(t, p, st0, c0, ss, st, c, k, newk, rs, st1, x.0, x.1, x.2);
        r', k1, ok := SkipOver(data, limit, r', p, se, al, block, k, zeros, a);
        if !ok {
          return;
        }
        k := k1 + 1;
      } else {
        run := Pow2(zeros);
        RunIs(st1, zeros);
        if zeros > 0 {
          v, r', ok := ReadBits(data, limit, r', zeros, a);
          if !ok {
            return;
          }
          AttemptValid(data, limit, a, r');
          run := run + v;
        }
        RefineEob(t, p, st0, c0, ss, st, c, k, newk, rs, st1, BitReader.View(data, r'), run - 1);
        return;
      }
    }
    RefiningIs(t, p, st0, c0, ss, BitReader.View(data, r'), Contents(block), k, newk);
    RefineEnds(t, p, st0, c0, ss, BitReader.View(data, r'), Contents(block), k, newk);
  }

  /** decode_mcu_AC_refine behind the restart, with data left: block and run of the specification, or everything undone. */
  method ReadRefine(data: seq<Byte>, limit: nat, r: BitReader.ReadState, eobrun: nat, ghost t: Table, huffval: seq<Byte>, d: DDerived,
                    ghost p: BandSpec, ss: nat, se: nat, al: nat, block: array<int>)
    returns (br: BitReader.ReadState, run: nat, ok: bool)
    requires BitReader.Valid(data, r) && r.pos <= limit <= |data| && r.pos <= |data| && block.Length == DCTSIZE2
    requires ValidBand(p) && p.ss == ss && p.se == se && p.al == al && huffval == t.huffval && Decodes(d, t) && !r.insufficient
    requires ShortBlock(Contents(block))
    modifies block
    ensures Attempt(data, limit, r, br, ok) && se < DCTSIZE2
    ensures ok ==> BitReader.Valid(data, br) && br.pos <= |data|
    ensures ok ==> (Contents(block), BitReader.View(data, br), run)
                   == DecodeRefine(t, p, BitReader.View(data, r), eobrun, old(Contents(block)))
    ensures !ok ==>
      DecodeRefine(t, p, BitReader.View(data, r), eobrun, Contents(block))
      == DecodeRefine(t, p, BitReader.View(data, r), eobrun, old(Contents(block)))
    ensures !ok ==> ShortBlock(Contents(block))
  {
    hide *;
    BandIs(p);
    AttemptStarts(data, limit, r);
    ghost var c0, st0 := Contents(block), BitReader.View(data, r);
    RefineIs(data, t, p, r, eobrun, c0);
    var newnz := new nat[DCTSIZE2];
    ghost var newk: seq<nat> := [];
    ListedStarts(newnz);
    var k, count: nat := ss, 0;
    br, run, ok := r, eobrun, true;
    if run == 0 {
      br, k, run, count, newk, ok := RefineSymbols(data, limit, br, t, huffval, d, p, ss, se, al, block, newnz, r);
    } else {
      TailKeeps(p, st0, c0, ss);
      NothingNew(c0, DecodeRefine(t, p, st0, eobrun, c0).0);
    }
    if ok && run > 0 {
      ghost var c, st := Contents(block), BitReader.View(data, br);
      br, ok := CorrectRest(data, limit, br, p, se, al, block, k, r);
      if ok {
        run := run - 1;
      }
    }
    if !ok {
      ghost var c := Contents(block);
      UndoneRedo(c0, DecodeRefine(t, p, st0, eobrun, c0).0, c, newk, RefineOverrun(t, p, st0, eobrun, c0));
      Undo(block, newnz, count, newk);
      RefineRetry(t, p, st0, eobrun, c0, Contents(block));
    }
  }

  lemma BandIs(p: BandSpec)
    requires ValidBand(p)
    ensures 1 <= p.ss <= p.se < DCTSIZE2 == 64 && p.al <= 13
  {
  }

  /** Before the run of bands and the band itself are told apart. */
  lemma RefineIs(data: seq<Byte>, t: Table, p: BandSpec, r: BitReader.ReadState, run: nat, c: Block)
    requires BitReader.Valid(data, r) && r.pos <= |data| && !r.insufficient && |c| == DCTSIZE2 && p.se < DCTSIZE2
    ensures RefineOverrun(t, p, BitReader.View(data, r), run, c)
         == if run == 0 then Overrun(t, p, BitReader.View(data, r), c, p.ss) else DCTSIZE2
    ensures run == 0 ==> DecodeRefine(t, p, BitReader.View(data, r), run, c) == DecodeBand(t, p, BitReader.View(data, r), c, p.ss)
    ensures run > 0 ==> DecodeRefine(t, p, BitReader.View(data, r), run, c)
                        == (CorrectTail(p, BitReader.View(data, r), c, p.ss).0, CorrectTail(p, BitReader.View(data, r), c, p.ss).1, run - 1)
  {
    hide StreamAt, DecodeBand, CorrectTail, Overrun;
    MarkerReader.NotStarved(data, r.pos);
  }

  /** Correcting a band without new coefficients needs no undoing. */
  lemma NothingNew(c0: Block, f: Block)
    requires ShortBlock(c0) && ShortBlock(f) && forall j :: 0 <= j < DCTSIZE2 && c0[j] == 0 ==> f[j] == 0
    ensures forall c' :: Midway(c0, f, c') ==> Undoable(c0, f, c', [], DCTSIZE2)
  {
  }

  // ----- first AC scans -----

  /** The parts of decode_mcu_AC_first with data left. */
  lemma FirstIs(data: seq<Byte>, t: Table, p: BandSpec, r: BitReader.ReadState, run: nat, c: Block)
    requires BitReader.Valid(data, r) && r.pos <= |data| && !r.insufficient && |c| == DCTSIZE2 && p.se < DCTSIZE2
    ensures run > 0 ==> DecodeFirst(t, p, BitReader.View(data, r), run, c) == (c, BitReader.View(data, r), run - 1)
    ensures run == 0 ==> var d := DecodeAc(t, BitReader.View(data, r), p.ss, p.se); var x := RunLength(d.st, d.eob);
      DecodeFirst(t, p, BitReader.View(data, r), run, c) == (Store(c, d.writes, p.al), x.0, x.1) && -1 <= d.eob < 15
  {
    hide StreamAt, DecodeAc, Store, RunLength;
    MarkerReader.NotStarved(data, r.pos);
  }

  lemma FirstRunIs(st: Stream, eob: int)
    requires eob >= -1
    ensures eob < 0 ==> RunLength(st, eob) == (st, 0)
    ensures eob == 0 ==> RunLength(st, eob) == (st, 0)
    ensures eob > 0 ==> RunLength(st, eob) == (Take(st, eob).1, Pow2(eob) + Take(st, eob).0 - 1) && Pow2(eob) >= 1
  {
    hide Take;
  }

  /** A block that holds some of the band's coefficients already decodes to the same. */
  lemma FirstAgain(b: Block, ws: seq<Write>, n: nat, c: Block, al: nat)
    requires |b| == DCTSIZE2 && n <= |ws| && c == Store(b, ws[..n], al)
    ensures Store(c, ws, al) == Store(b, ws, al)
  {
    hide Store;
    assert ws[..n] + ws[n..] == ws;
    StoreAgain(b, ws[..n], ws[n..], al);
  }

  /** decode_mcu_AC_first behind the restart, with data left. */
  method ReadFirst(data: seq<Byte>, limit: nat, r: BitReader.ReadState, eobrun: nat, ghost t: Table, huffval: seq<Byte>, d: DDerived,
                   ghost p: BandSpec, ss: nat, se: nat, al: nat, block: array<int>)
    returns (br: BitReader.ReadState, run: nat, ok: bool)
    requires BitReader.Valid(data, r) && r.pos <= limit <= |data| && r.pos <= |data| && block.Length == DCTSIZE2
    requires ValidBand(p) && p.ss == ss && p.se == se && p.al == al && huffval == t.huffval && Decodes(d, t) && !r.insufficient
    modifies block
    ensures Attempt(data, limit, r, br, ok) && se < DCTSIZE2
    ensures ok ==> BitReader.Valid(data, br) && br.pos <= |data|
    ensures ok ==> (Contents(block), BitReader.View(data, br), run)
                   == DecodeFirst(t, p, BitReader.View(data, r), eobrun, old(Contents(block)))
    ensures !ok ==>
      DecodeFirst(t, p, BitReader.View(data, r), eobrun, Contents(block))
      == DecodeFirst(t, p, BitReader.View(data, r), eobrun, old(Contents(block)))
  {
    hide *;
    BandIs(p);
    AttemptStarts(data, limit, r);
    ghost var c0, st0 := Contents(block), BitReader.View(data, r);
    FirstIs(data, t, p, r, eobrun, c0);
    br, run, ok := r, eobrun, true;
    if run > 0 {
      run := run - 1;
    } else {
      ghost var ws := DecodeAc(t, st0, ss, se).writes;
      var eob: int;
      var v: nat;
      ghost var done;
      br, eob, ok, done := ReadBand(data, limit, br, t, huffval, d, block, ss, se, al, r);
      if !ok {
        FirstIs(data, t, p, r, eobrun, Contents(block));
        FirstAgain(c0, ws, |done|, Contents(block), al);
        return;
      }
      AttemptValid(data, limit, r, br);
      FirstRunIs(BitReader.View(data, br), eob);
      if eob >= 0 {
        run := if eob == 0 then 1 else Pow2(eob);
        if eob > 0 {
          v, br, ok := ReadBits(data, limit, br, eob, r);
          if !ok {
            FirstIs(data, t, p, r, eobrun, Contents(block));
            WholeList(ws);
            FirstAgain(c0, ws, |ws|, Contents(block), al);
            return;
          }
          AttemptValid(data, limit, r, br);
          run := run + v;
        }
        run := run - 1;
      }
    }
  }

  lemma WholeList(ws: seq<Write>)
    ensures ws[..|ws|] == ws
  {
  }

  // ----- DC scans, block by block -----

  /** The stream and the DC predictions before block i of a first DC scan's MCU. */
  function DcAt(ts: seq<Table>, m: McuSpec, st: Stream, lastDc: seq<int>, i: nat): (r: (Stream, seq<int>))
    requires ValidMcu(m, |ts|) && |lastDc| == |m.dcTbl| && i <= |m.membership|
    ensures |r.1| == |lastDc|
    decreases i
  {
    if i == 0 then (st, lastDc) else
      var (s, l) := DcAt(ts, m, st, lastDc, i - 1);
      var ci := m.membership[i - 1];
      var (diff, s1) := DecodeDc(ts[m.dcTbl[ci]], s);
      (s1, l[ci := diff + l[ci]])
  }

  /** The DC coefficient that block i gets. */
  function DcValue(ts: seq<Table>, m: McuSpec, al: nat, st: Stream, lastDc: seq<int>, i: nat): int
    requires ValidMcu(m, |ts|) && |lastDc| == |m.dcTbl| && i < |m.membership|
  {
    var (s, l) := DcAt(ts, m, st, lastDc, i);
    var ci := m.membership[i];
    ToShort((DecodeDc(ts[m.dcTbl[ci]], s).0 + l[ci]) * Pow2(al))
  }

  /** The blocks from i on have got their DC coefficients. */
  function DcResults(ts: seq<Table>, m: McuSpec, al: nat, st: Stream, lastDc: seq<int>, mcu: Mcu, i: nat): (r: Mcu)
    requires ValidMcu(m, |ts|) && FitsMcu(m, mcu, lastDc)
    ensures |r| == |mcu|
    ensures forall j :: 0 <= j < |mcu| ==> r[j] == if j < i then mcu[j] else mcu[j][0 := DcValue(ts, m, al, st, lastDc, j)]
  {
    seq(|mcu|, j requires 0 <= j < |mcu| => if j < i then mcu[j] else mcu[j][0 := DcValue(ts, m, al, st, lastDc, j)])
  }

  lemma DcNext(ts: seq<Table>, m: McuSpec, al: nat, st: Stream, lastDc: seq<int>, i: nat, s: Stream, l: seq<int>, ci: nat,
               diff: int, s1: Stream)
    requires ValidMcu(m, |ts|) && |lastDc| == |m.dcTbl| && i < |m.membership| && (s, l) == DcAt(ts, m, st, lastDc, i)
    requires ci == m.membership[i] && (diff, s1) == DecodeDc(ts[m.dcTbl[ci]], s)
    ensures (s1, l[ci := diff + l[ci]]) == DcAt(ts, m, st, lastDc, i + 1)
    ensures DcValue(ts, m, al, st, lastDc, i) == ToShort((diff + l[ci]) * Pow2(al))
  {
    hide DecodeDc, ToShort, Pow2;
  }

  lemma {:induction false} DcByBlocks(ts: seq<Table>, m: McuSpec, al: nat, st: Stream, lastDc: seq<int>, mcu: Mcu, i: nat, s: Stream,
                                      l: seq<int>)
    requires ValidMcu(m, |ts|) && FitsMcu(m, mcu, lastDc) && i <= |mcu| && (s, l) == DcAt(ts, m, st, lastDc, i)
    ensures FitsMcu(m, mcu, l)
    ensures DecodeDcFirst(ts, m, al, s, mcu, l, i)
         == (DcResults(ts, m, al, st, lastDc, mcu, i), DcAt(ts, m, st, lastDc, |mcu|).0, DcAt(ts, m, st, lastDc, |mcu|).1)
    decreases |mcu| - i
  {
    hide DecodeDc, DcAt, DcValue, ToShort, Pow2;
    if i == |mcu| {
      assert DcResults(ts, m, al, st, lastDc, mcu, i) == mcu;
    } else {
      var ci := m.membership[i];
      var (diff, s1) := DecodeDc(ts[m.dcTbl[ci]], s);
      DcNext(ts, m, al, st, lastDc, i, s, l, ci, diff, s1);
      var mcu1 := mcu[i := mcu[i][0 := ToShort((diff + l[ci]) * Pow2(al))]];
      DcByBlocks(ts, m, al, st, lastDc, mcu1, i + 1, s1, l[ci := diff + l[ci]]);
      assert DcResults(ts, m, al, st, lastDc, mcu1, i + 1) == DcResults(ts, m, al, st, lastDc, mcu, i);
    }
  }

  /** The stream before block i of a DC refinement scan's MCU. */
  function BitAt(st: Stream, i: nat): Stream {
    if i == 0 then st else Take(BitAt(st, i - 1), 1).1
  }

  /** What becomes of block i. */
  function BitResult(al: nat, st: Stream, i: nat, b: Block): (r: Block)
    requires |b| == DCTSIZE2
    ensures |r| == DCTSIZE2
  {
    if Take(BitAt(st, i), 1).0 != 0 then b[0 := ToShort(OrBit(b[0], al))] else b
  }

  function BitResults(al: nat, st: Stream, mcu: Mcu, i: nat): (r: Mcu)
    requires Blocks(mcu)
    ensures |r| == |mcu| && Blocks(r)
    ensures forall j :: 0 <= j < |mcu| ==> r[j] == if j < i then mcu[j] else BitResult(al, st, j, mcu[j])
  {
    seq(|mcu|, j requires 0 <= j < |mcu| => if j < i then mcu[j] else BitResult(al, st, j, mcu[j]))
  }

  lemma {:induction false} BitByBlocks(al: nat, st: Stream, mcu: Mcu, i: nat)
    requires Blocks(mcu) && i <= |mcu|
    ensures DecodeDcRefine(al, BitAt(st, i), mcu, i) == (BitResults(al, st, mcu, i), BitAt(st, |mcu|))
    decreases |mcu| - i
  {
    hide Take, ToShort, OrBit;
    if i == |mcu| {
      assert BitResults(al, st, mcu, i) == mcu;
    } else {
      var b := BitResult(al, st, i, mcu[i]);
      assert mcu[i := mcu[i]] == mcu;
      BitByBlocks(al, st, mcu[i := b], i + 1);
      assert BitResults(al, st, mcu[i := b], i + 1) == BitResults(al, st, mcu, i);
    }
  }

  /** A bit that is there already is not added again. */
  lemma BitAgain(al: nat, st: Stream, i: nat, b: Block)
    requires |b| == DCTSIZE2 && al <= 13
    ensures BitResult(al, st, i, BitResult(al, st, i, b)) == BitResult(al, st, i, b)
  {
    hide Take, ToShort, OrBit, BitAt;
    OrAgain(b[0], al);
  }

  /** The blocks before i are final, those from i on are as they were. */
  ghost predicate Halfway(zz0: Mcu, f: Mcu, i: nat, zz: Mcu) {
    && |zz0| == |f| == |zz| && i <= |zz|
    && forall j :: 0 <= j < |zz| ==> zz[j] == if j < i then f[j] else zz0[j]
  }

  lemma HalfwayNext(zz0: Mcu, f: Mcu, i: nat, zz: Mcu, next: Mcu)
    requires Halfway(zz0, f, i, zz) && i < |zz| == |next| && next[i] == f[i] && forall j :: 0 <= j < |zz| && j != i ==> next[j] == zz[j]
    ensures Halfway(zz0, f, i + 1, next)
  {
  }

  lemma HalfwayIs(zz0: Mcu, f: Mcu, i: nat, zz: Mcu)
    requires Halfway(zz0, f, i, zz)
    ensures |zz| == |zz0| == |f| && (i < |zz| ==> zz[i] == zz0[i]) && (i == |zz| ==> zz == f)
  {
  }

  lemma DcStarts(ts: seq<Table>, m: McuSpec, al: nat, st: Stream, lastDc: seq<int>, zz: Mcu)
    requires ValidMcu(m, |ts|) && FitsMcu(m, zz, lastDc)
    ensures (st, lastDc) == DcAt(ts, m, st, lastDc, 0) && Halfway(zz, DcResults(ts, m, al, st, lastDc, zz, 0), 0, zz)
    ensures |zz| == |m.membership| && |lastDc| == |m.dcTbl| && forall j :: 0 <= j < |zz| ==> m.membership[j] < |m.dcTbl| && |zz[j]| == DCTSIZE2
    ensures forall j :: 0 <= j < |m.dcTbl| ==> m.dcTbl[j] < |ts|
    ensures forall j :: 0 <= j < |zz| ==> DcResults(ts, m, al, st, lastDc, zz, 0)[j] == zz[j][0 := DcValue(ts, m, al, st, lastDc, j)]
  {
    hide DcValue;
  }

  lemma DcAgain(ts: seq<Table>, m: McuSpec, al: nat, st: Stream, lastDc: seq<int>, zz0: Mcu, i: nat, zz: Mcu)
    requires ValidMcu(m, |ts|) && FitsMcu(m, zz0, lastDc) && FitsMcu(m, zz, lastDc)
    requires Halfway(zz0, DcResults(ts, m, al, st, lastDc, zz0, 0), i, zz)
    ensures DecodeDcFirst(ts, m, al, st, zz, lastDc, 0) == DecodeDcFirst(ts, m, al, st, zz0, lastDc, 0)
    ensures i == |zz| ==>
      DecodeDcFirst(ts, m, al, st, zz0, lastDc, 0) == (zz, DcAt(ts, m, st, lastDc, |zz|).0, DcAt(ts, m, st, lastDc, |zz|).1)
  {
    hide *;
    DcStarts(ts, m, al, st, lastDc, zz0);
    DcStarts(ts, m, al, st, lastDc, zz);
    HalfwayIs(zz0, DcResults(ts, m, al, st, lastDc, zz0, 0), i, zz);
    DcByBlocks(ts, m, al, st, lastDc, zz0, 0, st, lastDc);
    DcByBlocks(ts, m, al, st, lastDc, zz, 0, st, lastDc);
    var f := DcResults(ts, m, al, st, lastDc, zz0, 0);
    forall j | 0 <= j < |zz|
      ensures DcResults(ts, m, al, st, lastDc, zz, 0)[j] == f[j]
    {
      HalfwayAt(zz0, f, i, zz, j);
      StoreTwice(zz0[j], DcValue(ts, m, al, st, lastDc, j));
    }
    assert DcResults(ts, m, al, st, lastDc, zz, 0) == f;
  }

  lemma HalfwayAt(zz0: Mcu, f: Mcu, i: nat, zz: Mcu, j: nat)
    requires Halfway(zz0, f, i, zz) && j < |zz|
    ensures zz[j] == f[j] || zz[j] == zz0[j]
  {
  }

  lemma StoreTwice(b: Block, v: int)
    requires |b| == DCTSIZE2
    ensures |b| > 0 && b[0 := v][0 := v] == b[0 := v]
  {
  }

  lemma BitStarts(al: nat, st: Stream, zz: Mcu)
    requires Blocks(zz)
    ensures Halfway(zz, BitResults(al, st, zz, 0), 0, zz) && BitAt(st, 0) == st
    ensures forall j :: 0 <= j < |zz| ==> |zz[j]| == DCTSIZE2 && BitResults(al, st, zz, 0)[j] == BitResult(al, st, j, zz[j])
  {
    hide BitResult;
  }

  lemma BitNext(al: nat, st: Stream, i: nat, b: Block, bit: nat, st1: Stream)
    requires |b| == DCTSIZE2 && Take(BitAt(st, i), 1) == (bit, st1)
    ensures BitAt(st, i + 1) == st1 && BitResult(al, st, i, b) == if bit != 0 then b[0 := ToShort(OrBit(b[0], al))] else b
  {
    hide Take, OrBit, ToShort;
  }

  lemma BitsAgain(al: nat, st: Stream, zz0: Mcu, i: nat, zz: Mcu)
    requires Blocks(zz0) && Blocks(zz) && Halfway(zz0, BitResults(al, st, zz0, 0), i, zz) && al <= 13
    ensures DecodeDcRefine(al, st, zz, 0) == DecodeDcRefine(al, st, zz0, 0)
    ensures i == |zz| ==> DecodeDcRefine(al, st, zz0, 0) == (zz, BitAt(st, |zz|))
  {
    BitStarts(al, st, zz0);
    hide BitResult, DecodeDcRefine, BitAt;
    BitByBlocks(al, st, zz0, 0);
    BitByBlocks(al, st, zz, 0);
    forall j | 0 <= j < |zz|
      ensures BitResults(al, st, zz, 0)[j] == BitResults(al, st, zz0, 0)[j]
    {
      BitAgain(al, st, j, zz0[j]);
    }
    assert BitResults(al, st, zz, 0) == BitResults(al, st, zz0, 0);
    if i == |zz| {
      assert zz == BitResults(al, st, zz0, 0);
    }
  }

  // ----- the decoder -----

  class PhuffDecoder {
    const sc: Scan
    const data: seq<Byte>
    ghost const ts: seq<Table>
    const huffvals: seq<seq<Byte>>
    const derived: seq<Option<DDerived>>

    /** bitstate, unread_marker, insufficient_data and the source position. */
    var r: BitReader.ReadState
    var lastDc: seq<int>
    var eobrun: nat
    var togo: nat
    var num: nat

    ghost predicate Setup() {
      && sc.kind != Sequential && ValidScan(sc, |ts|) && |derived| == |huffvals| == |ts|
      && (sc.kind == DcFirst ==> forall i :: 0 <= i < |sc.mcu.dcTbl| ==> Ready(sc.mcu.dcTbl[i]) && DCSymbols(ts[sc.mcu.dcTbl[i]]))
      && (sc.kind in {AcFirst, AcRefine} ==> Ready(sc.mcu.acTbl[0]))
    }

    /** The derived table number t belongs to ts[t]. */
    ghost predicate Ready(t: nat) {
      && t < |ts| && t < |derived| && t < |huffvals|
      && derived[t].Some? && Decodes(derived[t].value, ts[t]) && huffvals[t] == ts[t].huffval
    }

    ghost predicate Valid()
      reads this
    {
      Setup() && BitReader.Valid(data, r) && r.pos <= |data| && |lastDc| == |sc.mcu.dcTbl| && num < 8
    }

    ghost function State(): ScanState
      requires r.pos <= |data|
      reads this
    {
      ScanState(DecState(BitReader.View(data, r), lastDc, eobrun), togo, num)
    }

    /** start_pass_phuff_decoder; derived holds what jpeg_make_d_derived_tbl made of the scan's tables. */
    constructor (sc: Scan, data: seq<Byte>, pos: nat, ghost ts: seq<Table>, huffvals: seq<seq<Byte>>, derived: seq<Option<DDerived>>)
      requires sc.kind != Sequential && ValidScan(sc, |ts|) && |derived| == |huffvals| == |ts| && pos <= |data|
      requires sc.kind == DcFirst ==> forall i :: 0 <= i < |sc.mcu.dcTbl| ==>
        var t := sc.mcu.dcTbl[i]; derived[t].Some? && Decodes(derived[t].value, ts[t]) && huffvals[t] == ts[t].huffval && DCSymbols(ts[t])
      requires sc.kind in {AcFirst, AcRefine} ==>
        var t := sc.mcu.acTbl[0]; derived[t].Some? && Decodes(derived[t].value, ts[t]) && huffvals[t] == ts[t].huffval
      ensures this.sc == sc && this.data == data && this.ts == ts
      ensures Valid() && r.pos == pos
      ensures State() == ScanState(DecState(StreamAt(data, pos), NoDc(sc), 0), sc.interval, 0)
    {
      hide Decodes, DCSymbols, StreamAt;
      this.sc, this.data, this.ts, this.huffvals, this.derived := sc, data, ts, huffvals, derived;
      r := BitReader.ReadState(pos, 0, 0, 0, false);
      lastDc := seq(|sc.mcu.dcTbl|, _ => 0);
      eobrun, togo, num := 0, sc.interval, 0;
      new;
      PrependConcat([], [], StreamAt(data, pos));
      assert BitReader.Buffered(r) == [];
      assert lastDc == NoDc(sc);
    }

    lemma Parts()
      requires Valid()
      ensures Setup() && BitReader.Valid(data, r) && r.pos <= |data| && ValidScan(sc, |ts|) && ValidMcu(sc.mcu, |ts|)
      ensures sc.kind in {DcFirst, DcRefine, AcFirst, AcRefine} && sc.al <= 13 && |lastDc| == |sc.mcu.dcTbl| && num < 8
    {
    }

    lemma DcTable(ci: nat)
      requires Valid() && sc.kind == DcFirst && ci < |sc.mcu.dcTbl|
      ensures var t := sc.mcu.dcTbl[ci];
        && t < |ts| && t < |derived| && t < |huffvals| && derived[t].Some? && DCSymbols(ts[t])
        && Decodes(derived[t].value, ts[t]) && huffvals[t] == ts[t].huffval
    {
    }

    lemma AcTable()
      requires Valid() && sc.kind in {AcFirst, AcRefine}
      ensures |sc.mcu.acTbl| > 0
      ensures var t := sc.mcu.acTbl[0];
        && t < |ts| && t < |derived| && t < |huffvals| && derived[t].Some?
        && Decodes(derived[t].value, ts[t]) && huffvals[t] == ts[t].huffval
      ensures BandOf(sc) == BandSpec(sc.mcu.acTbl[0], sc.ss, sc.se, sc.al) && ValidBand(BandOf(sc)) && |sc.mcu.membership| == 1
    {
    }

    lemma StateIs()
      requires r.pos <= |data|
      ensures State() == ScanState(DecState(BitReader.View(data, r), lastDc, eobrun), togo, num)
    {
    }

    lemma ValidIs()
      requires Setup() && BitReader.Valid(data, r) && r.pos <= |data| && |lastDc| == |sc.mcu.dcTbl| && num < 8
      ensures Valid()
    {
    }

    /** process_restart: a fresh state behind the marker; a suspension only drops buffered bits. */
    method ProcessRestart(limit: nat) returns (ok: bool)
      requires Valid() && r.pos <= limit <= |data| && sc.interval > 0 && togo == 0
      modifies this
      ensures Valid() && r.pos <= limit && old(State()).d.st.next <= |data|
      ensures ok ==> State() == Begun(data, sc, old(State()))
      ensures !ok ==> State() == old(State()).(d := old(State()).d.(st := State().d.st)) && State().d.st.next <= |data|
      ensures !ok ==> Restart(data, State().d.st, old(State()).num) == Restart(data, old(State()).d.st, old(State()).num)
      ensures limit == |data| && MarkerReader.Recovers(data, old(State()).d.st, old(State()).num) ==> ok
    {
      hide *;
      Parts();
      StateIs();
      ViewNext(data, r);
      BegunIs(data, sc, State());
      r, num, ok := MarkerReader.ProcessRestart(data, limit, r, num);
      if ok {
        lastDc := seq(|lastDc|, _ => 0);
        NoDcIs(sc, lastDc);
        eobrun := 0;
        togo := sc.interval;
      }
      ViewNext(data, r);
      StateIs();
      ValidIs();
    }

    /** The block loop of decode_mcu_DC_first on a working state. */
    method ReadDcFirst(limit: nat, blocks: seq<array<int>>) returns (br: BitReader.ReadState, last: seq<int>, ok: bool)
      requires Valid() && sc.kind == DcFirst && r.pos <= limit <= |data| && BlocksOk(blocks)
      requires FitsMcu(sc.mcu, McuContents(blocks), lastDc)
      modifies blocks
      ensures Attempt(data, limit, r, br, ok) && FitsMcu(sc.mcu, McuContents(blocks), lastDc) && ValidMcu(sc.mcu, |ts|)
      ensures ok ==> BitReader.Valid(data, br) && br.pos <= |data|
      ensures ok ==> (McuContents(blocks), BitReader.View(data, br), last)
                     == DecodeDcFirst(ts, sc.mcu, sc.al, BitReader.View(data, r), old(McuContents(blocks)), lastDc, 0)
      ensures !ok ==>
        DecodeDcFirst(ts, sc.mcu, sc.al, BitReader.View(data, r), McuContents(blocks), lastDc, 0)
        == DecodeDcFirst(ts, sc.mcu, sc.al, BitReader.View(data, r), old(McuContents(blocks)), lastDc, 0)
    {
      hide *;
      Parts();
      BlockSizes(blocks);
      ghost var m, st, zz0 := sc.mcu, BitReader.View(data, r), McuContents(blocks);
      br, last, ok := r, lastDc, true;
      var blkn := 0;
      DcStarts(ts, m, sc.al, st, lastDc, zz0);
      ghost var f := DcResults(ts, m, sc.al, st, lastDc, zz0, 0);
      AttemptStarts(data, limit, r);
      while blkn < |blocks|
        invariant 0 <= blkn <= |blocks| && ok && |last| == |lastDc|
        invariant Attempt(data, limit, r, br, true) && BitReader.Valid(data, br) && br.pos <= |data|
        invariant (BitReader.View(data, br), last) == DcAt(ts, m, st, lastDc, blkn)
        invariant Halfway(zz0, f, blkn, McuContents(blocks))
      {
        var ci := sc.mcu.membership[blkn];
        DcTable(ci);
        var t := sc.mcu.dcTbl[ci];
        ghost var zz, s, l := McuContents(blocks), BitReader.View(data, br), last;
        var diff;
        diff, br, ok := ReadDiff(data, limit, br, ts[t], huffvals[t], derived[t].value, r);
        if !ok {
          FitsAlways(m, zz0, zz, lastDc, lastDc);
          DcAgain(ts, m, sc.al, st, lastDc, zz0, blkn, zz);
          return;
        }
        AttemptValid(data, limit, r, br);
        DcNext(ts, m, sc.al, st, lastDc, blkn, s, l, ci, diff, BitReader.View(data, br));
        var v := diff + last[ci];
        last := last[ci := v];
        HalfwayIs(zz0, f, blkn, zz);
        PutFirst(blocks[blkn], ToShort(v * Pow2(sc.al)));
        ghost var next := McuContents(blocks);
        forall j | 0 <= j < |blocks| && j != blkn
          ensures next[j] == zz[j]
        {
          assert blocks[j] != blocks[blkn];
        }
        HalfwayNext(zz0, f, blkn, zz, next);
        blkn := blkn + 1;
      }
      FitsAlways(m, zz0, McuContents(blocks), lastDc, lastDc);
      DcAgain(ts, m, sc.al, st, lastDc, zz0, blkn, McuContents(blocks));
    }

    /** The block loop of decode_mcu_DC_refine on a working state. */
    method ReadDcRefine(limit: nat, blocks: seq<array<int>>) returns (br: BitReader.ReadState, ok: bool)
      requires Valid() && r.pos <= limit <= |data| && BlocksOk(blocks)
      modifies blocks
      ensures Attempt(data, limit, r, br, ok)
      ensures ok ==> BitReader.Valid(data, br) && br.pos <= |data|
      ensures ok ==> (McuContents(blocks), BitReader.View(data, br))
                     == DecodeDcRefine(sc.al, BitReader.View(data, r), old(McuContents(blocks)), 0)
      ensures !ok ==>
        DecodeDcRefine(sc.al, BitReader.View(data, r), McuContents(blocks), 0)
        == DecodeDcRefine(sc.al, BitReader.View(data, r), old(McuContents(blocks)), 0)
    {
      hide *;
      Parts();
      BlockSizes(blocks);
      ghost var st, zz0 := BitReader.View(data, r), McuContents(blocks);
      br, ok := r, true;
      var blkn := 0;
      BitStarts(sc.al, st, zz0);
      ghost var f := BitResults(sc.al, st, zz0, 0);
      AttemptStarts(data, limit, r);
      while blkn < |blocks|
        invariant 0 <= blkn <= |blocks| && ok
        invariant Attempt(data, limit, r, br, true) && BitReader.Valid(data, br) && br.pos <= |data|
        invariant BitReader.View(data, br) == BitAt(st, blkn)
        invariant Halfway(zz0, f, blkn, McuContents(blocks))
      {
        ghost var zz := McuContents(blocks);
        var bit;
        bit, br, ok := ReadBits(data, limit, br, 1, r);
        if !ok {
          BitsAgain(sc.al, st, zz0, blkn, zz);
          return;
        }
        AttemptValid(data, limit, r, br);
        BitNext(sc.al, st, blkn, zz0[blkn], bit, BitReader.View(data, br));
        HalfwayIs(zz0, f, blkn, zz);
        if bit != 0 {
          var c := blocks[blkn];
          FirstOf(c);
          PutFirst(c, ToShort(OrBit(c[0], sc.al)));
        }
        ghost var next := McuContents(blocks);
        forall j | 0 <= j < |blocks| && j != blkn
          ensures next[j] == zz[j]
        {
          assert blocks[j] != blocks[blkn];
        }
        HalfwayNext(zz0, f, blkn, zz, next);
        blkn := blkn + 1;
      }
      BitsAgain(sc.al, st, zz0, blkn, McuContents(blocks));
    }

    /** The only block of an MCU of an AC scan. */
    method DecodeAcBlock(limit: nat, blocks: seq<array<int>>) returns (br: BitReader.ReadState, run: nat, ok: bool)
      requires Valid() && r.pos <= limit <= |data| && BlocksOk(blocks) && FitsMcu(sc.mcu, McuContents(blocks), lastDc)
      requires sc.kind in {AcFirst, AcRefine} && !r.insufficient && r.pos <= |data|
      requires McuShort(sc, McuContents(blocks))
      modifies blocks
      ensures Attempt(data, limit, r, br, ok) && FitsMcu(sc.mcu, McuContents(blocks), lastDc) && ValidScan(sc, |ts|)
      ensures ok ==> BitReader.Valid(data, br) && br.pos <= |data|
      ensures ok ==>
        (McuContents(blocks), DecState(BitReader.View(data, br), lastDc, run)) == DecodeOne(sc, ts, State().d, old(McuContents(blocks)))
      ensures !ok ==> DecodeOne(sc, ts, State().d, McuContents(blocks)) == DecodeOne(sc, ts, State().d, old(McuContents(blocks)))
      ensures !ok ==> McuShort(sc, McuContents(blocks))
    {
      hide *;
      Parts();
      StateIs();
      BlockSizes(blocks);
      ghost var d, zz := State().d, McuContents(blocks);
      AcTable();
      OneAc(sc, ts, d, zz);
      BandIs(BandOf(sc));
      var t := sc.mcu.acTbl[0];
      if sc.kind == AcFirst {
        br, run, ok := ReadFirst(data, limit, r, eobrun, ts[t], huffvals[t], derived[t].value, BandOf(sc), sc.ss, sc.se, sc.al,
                                 blocks[0]);
      } else {
        br, run, ok := ReadRefine(data, limit, r, eobrun, ts[t], huffvals[t], derived[t].value, BandOf(sc), sc.ss, sc.se, sc.al,
                                  blocks[0]);
      }
      FitsAlways(sc.mcu, zz, McuContents(blocks), lastDc, lastDc);
      OneAc(sc, ts, d, McuContents(blocks));
      assert McuContents(blocks) == [Contents(blocks[0])];
      McuShortIs(sc, McuContents(blocks));
    }

    /** The routine that start_pass_phuff_decoder selected, behind a restart that was due. */
    method DecodeBlocks(limit: nat, blocks: seq<array<int>>) returns (ok: bool)
      requires Valid() && r.pos <= limit <= |data| && BlocksOk(blocks) && FitsMcu(sc.mcu, McuContents(blocks), lastDc)
      requires McuShort(sc, McuContents(blocks))
      modifies this`r, this`lastDc, this`eobrun, blocks
      ensures Valid() && r.pos <= limit
      ensures Decoded(sc, ts, old(State()).d, old(McuContents(blocks)), State().d, McuContents(blocks), ok)
      ensures !ok ==> State() == old(State()) && McuShort(sc, McuContents(blocks))
      ensures limit == |data| && old(State()).d.st.marker != 0 ==> ok
    {
      hide *;
      Parts();
      StateIs();
      ViewNext(data, r);
      BlockSizes(blocks);
      ghost var d, zz := State().d, McuContents(blocks);
      FitsLengths(sc.mcu, zz, lastDc);
      ok := true;
      var br, last, run := r, lastDc, eobrun;
      if sc.kind == DcFirst {
        OneDcFirst(sc, ts, d, zz);
        if !r.insufficient {
          br, last, ok := ReadDcFirst(limit, blocks);
          OneDcFirst(sc, ts, d, McuContents(blocks));
          DcFits(ts, sc.mcu, sc.al, d.st, zz, lastDc);
        }
      } else if sc.kind == DcRefine {
        OneDcRefine(sc, ts, d, zz);
        br, ok := ReadDcRefine(limit, blocks);
        FitsAlways(sc.mcu, zz, McuContents(blocks), lastDc, lastDc);
        OneDcRefine(sc, ts, d, McuContents(blocks));
      } else if !r.insufficient {
        br, run, ok := DecodeAcBlock(limit, blocks);
        FitsAlways(sc.mcu, zz, McuContents(blocks), lastDc, lastDc);
      } else {
        OneStarved(sc, ts, d, zz);
      }
      if ok {
        if br != r {
          AttemptValid(data, limit, r, br);
        }
        r, lastDc, eobrun := br, last, run;
      } else {
        SuspendedReader(data, limit, r, br);
        r := r.(unreadMarker := br.unreadMarker, insufficient := br.insufficient);
      }
      FitsLengths(sc.mcu, McuContents(blocks), lastDc);
      StateIs();
      ValidIs();
      McuShortIs(sc, McuContents(blocks));
      DecodedIs(sc, ts, d, zz, State().d, McuContents(blocks), ok);
    }

    /** decode_mcu. When the source suspends, decoding again later gives what decoding without suspension would have given;
        a source that delivers everything up to the marker that ends the segment does not suspend. */
    method DecodeMcuInPlace(limit: nat, blocks: seq<array<int>>) returns (ok: bool)
      requires Valid() && r.pos <= limit <= |data| && BlocksOk(blocks) && FitsMcu(sc.mcu, McuContents(blocks), lastDc)
      requires McuShort(sc, McuContents(blocks))
      modifies this, blocks
      ensures Valid() && r.pos <= limit && old(State()).d.st.next <= |data|
      ensures Stepped(data, sc, ts, old(State()), old(McuContents(blocks)), State(), McuContents(blocks), ok)
      ensures !ok ==> State().d.st.next <= |data| && McuShort(sc, McuContents(blocks))
      ensures limit == |data| && StepDelivered(data, sc, old(State())) ==> ok
    {
      hide *;
      Parts();
      StateIs();
      ViewNext(data, r);
      BlockSizes(blocks);
      ghost var s0, zz := State(), McuContents(blocks);
      BegunIs(data, sc, s0);
      if sc.interval > 0 {
        if togo == 0 {
          ok := ProcessRestart(limit);
          if !ok {
            SteppedRestart(data, sc, ts, s0, State(), zz);
            BegunAgain(data, sc, s0, State());
            return;
          }
        }
      }
      Parts();
      StateIs();
      FitsAlways(sc.mcu, zz, zz, s0.d.lastDc, lastDc);
      ghost var s1 := State();
      BegunOnce(data, sc, s0);
      ok := DecodeBlocks(limit, blocks);
      Parts();
      StateIs();
      ghost var d := State().d;
      ViewNext(data, r);
      if ok {
        togo := if togo == 0 then 0xFFFF_FFFF else togo - 1;
        DecrementIs(s1.togo);
      }
      ValidIs();
      StateIs();
      SteppedBlocks(data, sc, ts, s0, zz, s1, d, McuContents(blocks), ok, State());
    }

    /** decode_mcu called again and again, whenever the source has delivered more: however often and wherever it suspends, the
        blocks and the state that result are those of decoding with all bytes present. */
    method DecodeRetrying(limits: seq<nat>, blocks: seq<array<int>>) returns (ok: bool)
      requires Valid() && BlocksOk(blocks) && FitsMcu(sc.mcu, McuContents(blocks), lastDc)
      requires McuShort(sc, McuContents(blocks))
      requires forall i :: 0 <= i < |limits| ==> r.pos <= limits[i] <= |data|
      requires forall i, j :: 0 <= i < j < |limits| ==> limits[i] <= limits[j]
      modifies this, blocks
      ensures Valid() && ValidScan(sc, |ts|) && old(State()).d.st.next <= |data|
      ensures ok ==> (McuContents(blocks), State()) == DecodeStep(data, sc, ts, old(State()), old(McuContents(blocks)))
      ensures FitsMcu(sc.mcu, McuContents(blocks), lastDc) && State().d.st.next <= |data|
      ensures !ok ==>
        DecodeStep(data, sc, ts, State(), McuContents(blocks)) == DecodeStep(data, sc, ts, old(State()), old(McuContents(blocks)))
    {
      hide *;
      Parts();
      StateIs();
      ViewNext(data, r);
      BlockSizes(blocks);
      ok := false;
      var i := 0;
      while i < |limits| && !ok
        invariant 0 <= i <= |limits| && Valid() && ValidScan(sc, |ts|) && r.pos <= |data| && State().d.st.next <= |data|
        invariant forall j :: i <= j < |limits| ==> r.pos <= limits[j]
        invariant FitsMcu(sc.mcu, McuContents(blocks), State().d.lastDc)
        invariant !ok ==> McuShort(sc, McuContents(blocks))
        invariant !ok ==>
          DecodeStep(data, sc, ts, State(), McuContents(blocks)) == DecodeStep(data, sc, ts, old(State()), old(McuContents(blocks)))
        invariant ok ==> (McuContents(blocks), State()) == DecodeStep(data, sc, ts, old(State()), old(McuContents(blocks)))
        decreases |limits| - i
      {
        ghost var s, zz := State(), McuContents(blocks);
        Parts();
        StateIs();
        ok := DecodeMcuInPlace(limits[i], blocks);
        Parts();
        StateIs();
        SteppedIs(data, sc, ts, s, zz, State(), McuContents(blocks), ok);
        i := i + 1;
      }
      Parts();
      StateIs();
    }
  }

  /** The block that a refinement scan corrects holds JCOEFs. */
  ghost predicate McuShort(sc: Scan, zz: Mcu) {
    sc.kind == AcRefine ==> forall i :: 0 <= i < |zz| ==> ShortBlock(zz[i])
  }

  lemma OneDcFirst(sc: Scan, ts: seq<Table>, d: DecState, mcu: Mcu)
    requires ValidScan(sc, |ts|) && FitsMcu(sc.mcu, mcu, d.lastDc) && sc.kind == DcFirst
    ensures ValidMcu(sc.mcu, |ts|)
    ensures d.st.starved ==> DecodeOne(sc, ts, d, mcu) == (mcu, d)
    ensures !d.st.starved ==> var x := DecodeDcFirst(ts, sc.mcu, sc.al, d.st, mcu, d.lastDc, 0);
      DecodeOne(sc, ts, d, mcu) == (x.0, d.(st := x.1, lastDc := x.2))
  {
    hide DecodeDcFirst;
  }

  lemma DcFits(ts: seq<Table>, m: McuSpec, al: nat, st: Stream, zz: Mcu, lastDc: seq<int>)
    requires ValidMcu(m, |ts|) && FitsMcu(m, zz, lastDc)
    ensures FitsMcu(m, DecodeDcFirst(ts, m, al, st, zz, lastDc, 0).0, DecodeDcFirst(ts, m, al, st, zz, lastDc, 0).2)
  {
    hide DecodeDcFirst, FitsMcu;
  }

  lemma OneDcRefine(sc: Scan, ts: seq<Table>, d: DecState, mcu: Mcu)
    requires ValidScan(sc, |ts|) && FitsMcu(sc.mcu, mcu, d.lastDc) && sc.kind == DcRefine
    ensures var x := DecodeDcRefine(sc.al, d.st, mcu, 0); DecodeOne(sc, ts, d, mcu) == (x.0, d.(st := x.1))
  {
    hide DecodeDcRefine;
  }

  lemma OneAc(sc: Scan, ts: seq<Table>, d: DecState, mcu: Mcu)
    requires ValidScan(sc, |ts|) && FitsMcu(sc.mcu, mcu, d.lastDc) && sc.kind in {AcFirst, AcRefine}
    ensures |mcu| == 1 && |mcu[0]| == DCTSIZE2 && sc.se < DCTSIZE2 && BandOf(sc).tbl < |ts| && BandOf(sc).se == sc.se
    ensures sc.kind == AcFirst ==> var x := DecodeFirst(ts[BandOf(sc).tbl], BandOf(sc), d.st, d.run, mcu[0]);
      DecodeOne(sc, ts, d, mcu) == ([x.0], d.(st := x.1, run := x.2))
    ensures sc.kind == AcRefine ==> var x := DecodeRefine(ts[BandOf(sc).tbl], BandOf(sc), d.st, d.run, mcu[0]);
      DecodeOne(sc, ts, d, mcu) == ([x.0], d.(st := x.1, run := x.2))
    ensures sc.kind == AcRefine && McuShort(sc, mcu) ==> ShortBlock(mcu[0])
  {
    hide DecodeFirst, DecodeRefine, ShortBlock;
  }

  lemma McuShortIs(sc: Scan, zz: Mcu)
    ensures sc.kind != AcRefine ==> McuShort(sc, zz)
    ensures |zz| == 1 && ShortBlock(zz[0]) ==> McuShort(sc, zz)
  {
  }

  /** When the data has run out, an AC scan leaves its block as it is. */
  lemma OneStarved(sc: Scan, ts: seq<Table>, d: DecState, mcu: Mcu)
    requires ValidScan(sc, |ts|) && FitsMcu(sc.mcu, mcu, d.lastDc) && sc.kind in {AcFirst, AcRefine} && d.st.starved
    ensures DecodeOne(sc, ts, d, mcu) == (mcu, d)
  {
    hide DecodeBand, DecodeAc;
    assert mcu == [mcu[0]];
  }

  /** Store a DC coefficient. */
  method PutFirst(block: array<int>, v: int)
    requires block.Length == DCTSIZE2
    modifies block
    ensures Contents(block) == old(Contents(block))[0 := v]
  {
    hide Zigzag;
    ghost var before := block[..];
    OrderPermutes();
    ZigzagStore(before, 0, v);
    block[0] := v;
    assert block[..] == before[0 := v];
  }

  lemma FirstOf(block: array<int>)
    requires block.Length == DCTSIZE2
    ensures Contents(block)[0] == block[0] && block.Length > 0
  {
  }
}
