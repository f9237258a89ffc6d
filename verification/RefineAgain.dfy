/** Why an AC refinement MCU that the source suspended can be decoded again: newly nonzero coefficients have been set to
    zero again, and a correction bit that is already there is not added a second time. */
module RefineAgain {
  import opened BitSeq
  import opened BitStream
  import opened HuffTable
  import opened Symbols
  import opened Coefficients
  import opened BlockCoding
  import opened AcFirstCoding
  import opened AcRefineCoding
  import opened DcCoding

  // ----- bits of a JCOEF -----

  lemma {:induction false} AsrAdd(x: int, q: int, n: nat)
    ensures Asr(x + q * Pow2(n), n) == Asr(x, n) + q
    decreases n
  {
    if n > 0 {
      MulDouble(q, Pow2(n - 1));
      assert (x + q * Pow2(n)) / 2 == x / 2 + q * Pow2(n - 1);
      AsrAdd(x / 2, q, n - 1);
    } else {
      assert Pow2(0) == 1;
    }
  }

  /** Storing in a 16-bit coefficient keeps the bits below bit 16. */
  lemma ShortBit(x: int, al: nat)
    requires al <= 15
    ensures Asr(ToShort(x), al) % 2 == Asr(x, al) % 2
  {
    hide Asr, Pow2, ToShort;
    var q := ShortIs(x);
    var h := HalfMask(al);
    TimesMask(q, h * 2, Pow2(al), 65536);
    AsrAdd(x, q * (h * 2), al);
    EvenProduct(q, h);
    SameParity(Asr(x, al), q * (h * 2));
  }

  lemma ShortIs(x: int) returns (q: int)
    ensures ToShort(x) == x + q * 65536
  {
    q := 0 - (x + 32768) / 65536;
  }

  lemma HalfMask(al: nat) returns (h: int)
    requires al <= 15
    ensures h * 2 * Pow2(al) == 65536
  {
    h := Pow2(15 - al);
    Pow2Add(15 - al, al);
    Pow2Small();
    assert Pow2(15) == 32768;
    MulAssoc(2, h, Pow2(al));
  }

  lemma SameParity(a: int, b: int)
    requires b % 2 == 0
    ensures (a + b) % 2 == a % 2
  {
  }

  lemma TimesMask(q: int, a: int, p: int, m: int)
    requires a * p == m
    ensures q * a * p == q * m
  {
    MulAssoc(q, a, p);
  }

  lemma EvenProduct(q: int, h: int)
    ensures q * (h * 2) % 2 == 0
  {
    MulAssoc(q, h, 2);
  }

  lemma Pow2Below(al: nat)
    requires al <= 13
    ensures 1 <= Pow2(al) <= 8192
  {
    Pow2Small();
    Pow2Mono(al, 13);
    assert Pow2(13) == 8192;
  }

  /** Correcting twice is correcting once, and does not make a coefficient zero. */
  lemma CorrectAgain(c: int, bit: bool, al: nat)
    requires al <= 13 && -32768 <= c < 32768
    ensures Correct(Correct(c, bit, al), bit, al) == Correct(c, bit, al)
    ensures c != 0 ==> Correct(c, bit, al) != 0
    ensures -32768 <= Correct(c, bit, al) < 32768
  {
    hide Asr, Pow2;
    var d: int := if c >= 0 then 1 else -1;
    Pow2Below(al);
    AsrAdd(c, d, al);
    ShortBit(c + d * Pow2(al), al);
  }

  /** Or-ing a bit in twice is doing it once. */
  lemma OrAgain(v: int, al: nat)
    requires al <= 13
    ensures ToShort(OrBit(ToShort(OrBit(v, al)), al)) == ToShort(OrBit(v, al))
  {
    hide Asr, Pow2;
    AsrAdd(v, 1, al);
    ShortBit(OrBit(v, al), al);
  }

  // ----- what the loops leave alone -----

  lemma {:induction false} SkipKeeps(p: BandSpec, st: Stream, c: Block, k: nat, r: nat)
    requires |c| == DCTSIZE2 && k <= p.se < DCTSIZE2 && ShortBlock(c) && p.al <= 13
    ensures var x := SkipZeros(p, st, c, k, r);
      && ShortBlock(x.0)
      && (forall j :: 0 <= j < DCTSIZE2 && (j < k || j >= x.2) ==> x.0[j] == c[j])
      && (forall j :: 0 <= j < DCTSIZE2 ==> (x.0[j] == 0 <==> c[j] == 0))
      && (x.2 <= p.se ==> c[x.2] == 0)
    decreases p.se - k
  {
    hide Take, Correct;
    if c[k] != 0 {
      var (v, st1) := Take(st, 1);
      CorrectAgain(c[k], v == 1, p.al);
      var (c1, _) := CorrectAt(p, st, c, k);
      if k + 1 <= p.se {
        SkipKeeps(p, st1, c1, k + 1, r);
      }
    } else if r > 0 && k + 1 <= p.se {
      SkipKeeps(p, st, c, k + 1, r - 1);
    }
  }

  lemma {:induction false} TailKeeps(p: BandSpec, st: Stream, c: Block, k: nat)
    requires p.se < DCTSIZE2 && ShortBlock(c) && p.al <= 13
    ensures var x := CorrectTail(p, st, c, k);
      && ShortBlock(x.0)
      && (forall j :: 0 <= j < DCTSIZE2 && j < k ==> x.0[j] == c[j])
      && (forall j :: 0 <= j < DCTSIZE2 ==> (x.0[j] == 0 <==> c[j] == 0))
    decreases p.se + 1 - k
  {
    hide Take, Correct;
    if k <= p.se {
      if c[k] != 0 {
        var (v, st1) := Take(st, 1);
        CorrectAgain(c[k], v == 1, p.al);
        TailKeeps(p, st1, CorrectAt(p, st, c, k).0, k + 1);
      } else {
        TailKeeps(p, st, c, k + 1);
      }
    }
  }

  /** The place of a new coefficient at zigzag position k. */
  function Place(k: nat): (n: nat)
    ensures n < DCTSIZE2
  {
    if k < DCTSIZE2 then k else DCTSIZE2 - 1
  }

  /** Where a new coefficient is put for which the band has no zero left, as only corrupt streams have it; DCTSIZE2 if
      there is none. Whatever stood there is overwritten, and nothing is read after that. */
  function Overrun(t: Table, p: BandSpec, st: Stream, c: Block, k: nat): (q: nat)
    requires |c| == DCTSIZE2 && p.se < DCTSIZE2
    ensures q <= DCTSIZE2 && (k <= p.se ==> q >= k)
    decreases p.se + 1 - k
  {
    if k > p.se then DCTSIZE2 else
      var (rs, st1) := Decode(t, st);
      if rs % 16 != 0 then
        var (bit, st2) := Take(st1, 1);
        var (c1, st3, k1) := SkipZeros(p, st2, c, k, rs / 16);
        if k1 > p.se then Place(k1) else Overrun(t, p, st3, Put(c1, k1, NewValue(p.al, bit)), k1 + 1)
      else if rs / 16 == 15 then
        var (c1, st3, k1) := SkipZeros(p, st1, c, k, 15);
        Overrun(t, p, st3, c1, k1 + 1)
      else DCTSIZE2
  }

  /** The same for decode_mcu_AC_refine, with run bands without new coefficients still to come. */
  function RefineOverrun(t: Table, p: BandSpec, st: Stream, run: nat, c: Block): (q: nat)
    requires |c| == DCTSIZE2 && p.se < DCTSIZE2
    ensures q <= DCTSIZE2
  {
    if st.starved || run > 0 then DCTSIZE2 else Overrun(t, p, st, c, p.ss)
  }

  lemma {:induction false} BandKeeps(t: Table, p: BandSpec, st: Stream, c: Block, k: nat)
    requires p.se < DCTSIZE2 && ShortBlock(c) && p.al <= 13
    ensures forall j :: 0 <= j < DCTSIZE2 && j < k ==> DecodeBand(t, p, st, c, k).0[j] == c[j]
    ensures ShortBlock(DecodeBand(t, p, st, c, k).0)
    decreases p.se + 1 - k
  {
    hide Take, Decode, SkipZeros, CorrectTail, RunLength, NewValue;
    if k <= p.se {
      var (rs, st1) := Decode(t, st);
      if rs % 16 != 0 {
        var (bit, st2) := Take(st1, 1);
        var (c1, st3, k1) := SkipZeros(p, st2, c, k, rs / 16);
        SkipKeeps(p, st2, c, k, rs / 16);
        var c2 := Put(c1, k1, NewValue(p.al, bit));
        BandKeeps(t, p, st3, c2, k1 + 1);
      } else if rs / 16 == 15 {
        var (c1, st3, k1) := SkipZeros(p, st1, c, k, 15);
        SkipKeeps(p, st1, c, k, 15);
        BandKeeps(t, p, st3, c1, k1 + 1);
      } else {
        var (st2, run) := RunLength(st1, rs / 16);
        TailKeeps(p, st2, c, k);
      }
    }
  }

  // ----- decoding again -----

  /** b is what a repeated attempt has at position k where the first one had a: the same before k; behind it, zeros are
      zeros, and nonzero coefficients are as in a or as in the final block f already. At q, which is going to be
      overwritten, it only matters whether there is a zero. */
  ghost predicate Redo(f: Block, a: Block, b: Block, k: nat, q: nat) {
    && |f| == |a| == |b| == DCTSIZE2
    && forall j :: 0 <= j < DCTSIZE2 ==>
         if j == q then Alike(a[j], b[j])
         else if j < k then b[j] == a[j] else if a[j] == 0 then b[j] == 0 else b[j] == a[j] || b[j] == f[j]
  }

  predicate Alike(a: int, b: int) {
    (a == 0 <==> b == 0) && -32768 <= b < 32768
  }

  lemma RedoOne(p: BandSpec, st: Stream, f: Block, a: Block, b: Block, k: nat, q: nat)
    requires Redo(f, a, b, k, q) && k < DCTSIZE2 && ShortBlock(a) && p.al <= 13 && a[k] != 0
    requires k != q ==> f[k] == CorrectAt(p, st, a, k).0[k]
    ensures b[k] != 0 && CorrectAt(p, st, b, k).1 == CorrectAt(p, st, a, k).1
    ensures Redo(f, CorrectAt(p, st, a, k).0, CorrectAt(p, st, b, k).0, k + 1, q) && ShortBlock(CorrectAt(p, st, a, k).0)
  {
    hide Take, Correct;
    CorrectAgain(a[k], Take(st, 1).0 == 1, p.al);
    if k == q {
      CorrectAgain(b[k], Take(st, 1).0 == 1, p.al);
    }
  }

  lemma {:induction false} SkipRedo(p: BandSpec, st: Stream, f: Block, a: Block, b: Block, k: nat, r: nat, q: nat)
    requires Redo(f, a, b, k, q) && k <= p.se < DCTSIZE2 && ShortBlock(a) && p.al <= 13
    requires var x := SkipZeros(p, st, a, k, r); forall j :: k <= j < x.2 && j < DCTSIZE2 && j != q ==> f[j] == x.0[j]
    ensures var x, y := SkipZeros(p, st, a, k, r), SkipZeros(p, st, b, k, r);
      y.1 == x.1 && y.2 == x.2 && Redo(f, x.0, y.0, x.2, q)
    decreases p.se - k
  {
    hide CorrectAt, Correct, Redo;
    SkipKeeps(p, st, a, k, r);
    RedoSize(f, a, b, k, q);
    if a[k] != 0 {
      var (c1, st1) := CorrectAt(p, st, a, k);
      CorrectShort(p, st, a, k);
      if k + 1 <= p.se {
        SkipKeeps(p, st1, c1, k + 1, r);
        RedoOne(p, st, f, a, b, k, q);
        SkipRedo(p, st1, f, c1, CorrectAt(p, st, b, k).0, k + 1, r, q);
      } else {
        RedoOne(p, st, f, a, b, k, q);
      }
    } else {
      RedoZero(f, a, b, k, q);
      if r > 0 && k + 1 <= p.se {
        SkipRedo(p, st, f, a, b, k + 1, r - 1, q);
      }
    }
  }

  lemma CorrectShort(p: BandSpec, st: Stream, a: Block, k: nat)
    requires ShortBlock(a) && k < DCTSIZE2 && p.al <= 13
    ensures ShortBlock(CorrectAt(p, st, a, k).0)
  {
    hide Take, Correct;
    CorrectAgain(a[k], Take(st, 1).0 == 1, p.al);
  }

  lemma RedoZero(f: Block, a: Block, b: Block, k: nat, q: nat)
    requires Redo(f, a, b, k, q) && k < DCTSIZE2 && a[k] == 0
    ensures b[k] == 0 && Redo(f, a, b, k + 1, q)
  {
  }

  lemma {:induction false} TailRedo(p: BandSpec, st: Stream, f: Block, a: Block, b: Block, k: nat)
    requires Redo(f, a, b, k, DCTSIZE2) && p.se < DCTSIZE2 && ShortBlock(a) && p.al <= 13 && f == CorrectTail(p, st, a, k).0
    ensures CorrectTail(p, st, b, k) == CorrectTail(p, st, a, k)
    decreases p.se + 1 - k
  {
    if k > p.se {
      assert a == b;
    } else {
      hide CorrectAt, Correct, Redo;
      RedoSize(f, a, b, k, DCTSIZE2);
      if a[k] != 0 {
        var (c1, st1) := CorrectAt(p, st, a, k);
        CorrectShort(p, st, a, k);
        TailKeeps(p, st1, c1, k + 1);
        RedoOne(p, st, f, a, b, k, DCTSIZE2);
        TailRedo(p, st1, f, c1, CorrectAt(p, st, b, k).0, k + 1);
      } else {
        RedoZero(f, a, b, k, DCTSIZE2);
        TailRedo(p, st, f, a, b, k + 1);
      }
    }
  }

  lemma RedoPut(f: Block, a: Block, b: Block, k: nat, v: int, q: nat)
    requires Redo(f, a, b, k, q) && k < DCTSIZE2
    ensures Redo(f, Put(a, k, v), Put(b, k, v), k + 1, q)
    ensures ShortBlock(a) ==> ShortBlock(Put(a, k, v))
  {
    var s := ShortIs(v);
    assert -32768 <= ToShort(v) < 32768;
    hide ToShort;
  }

  /** Behind the band nothing is left but to overwrite the place at q. */
  lemma RedoLast(f: Block, a: Block, b: Block, k: nat, v: int)
    requires Redo(f, a, b, k, Place(k)) && f == Put(a, k, v)
    ensures Put(b, k, v) == f
  {
    hide ToShort;
  }

  lemma PastBand(t: Table, p: BandSpec, st: Stream, c: Block, k: nat)
    requires |c| == DCTSIZE2 && p.se < DCTSIZE2 && k > p.se
    ensures DecodeBand(t, p, st, c, k) == (c, st, 0) && Overrun(t, p, st, c, k) == DCTSIZE2
  {
  }

  lemma UnfoldNew(t: Table, p: BandSpec, st: Stream, c: Block, k: nat, rs: nat, st1: Stream, bit: nat, st2: Stream, c1: Block,
                  st3: Stream, k1: nat, c2: Block)
    requires |c| == |c1| == DCTSIZE2 && k <= p.se < DCTSIZE2 && Decode(t, st) == (rs, st1) && rs % 16 != 0
    requires Take(st1, 1) == (bit, st2) && SkipZeros(p, st2, c, k, rs / 16) == (c1, st3, k1)
    requires c2 == Put(c1, k1, NewValue(p.al, bit))
    ensures DecodeBand(t, p, st, c, k) == DecodeBand(t, p, st3, c2, k1 + 1)
    ensures Overrun(t, p, st, c, k) == if k1 > p.se then Place(k1) else Overrun(t, p, st3, c2, k1 + 1)
  {
    hide Take, Decode, SkipZeros, CorrectTail, RunLength, NewValue, Put;
  }

  lemma UnfoldZrl(t: Table, p: BandSpec, st: Stream, c: Block, k: nat, rs: nat, st1: Stream, c1: Block, st3: Stream, k1: nat)
    requires |c| == |c1| == DCTSIZE2 && k <= p.se < DCTSIZE2 && Decode(t, st) == (rs, st1) && rs % 16 == 0 && rs / 16 == 15
    requires SkipZeros(p, st1, c, k, 15) == (c1, st3, k1)
    ensures DecodeBand(t, p, st, c, k) == DecodeBand(t, p, st3, c1, k1 + 1)
    ensures Overrun(t, p, st, c, k) == Overrun(t, p, st3, c1, k1 + 1)
    ensures k1 > p.se ==> DecodeBand(t, p, st, c, k).0 == c1
  {
    hide Take, Decode, SkipZeros, CorrectTail, RunLength, NewValue, Put;
  }

  lemma UnfoldEob(t: Table, p: BandSpec, st: Stream, c: Block, k: nat, rs: nat, st1: Stream, st2: Stream, run: nat)
    requires |c| == DCTSIZE2 && k <= p.se < DCTSIZE2 && Decode(t, st) == (rs, st1) && rs % 16 == 0 && rs / 16 != 15
    requires RunLength(st1, rs / 16) == (st2, run)
    ensures DecodeBand(t, p, st, c, k) == (CorrectTail(p, st2, c, k).0, CorrectTail(p, st2, c, k).1, run)
    ensures Overrun(t, p, st, c, k) == DCTSIZE2
  {
    hide Take, Decode, SkipZeros, CorrectTail, RunLength, NewValue, Put;
  }

  lemma {:induction false} BandRedo(t: Table, p: BandSpec, st: Stream, f: Block, a: Block, b: Block, k: nat, q: nat)
    requires p.se < DCTSIZE2 && ShortBlock(a) && p.al <= 13 && q == Overrun(t, p, st, a, k) && Redo(f, a, b, k, q)
    requires f == DecodeBand(t, p, st, a, k).0
    ensures DecodeBand(t, p, st, b, k) == DecodeBand(t, p, st, a, k)
    decreases p.se + 1 - k, 1
  {
    if k > p.se {
      assert a == b;
    } else {
      hide Take, Decode, SkipZeros, CorrectTail, RunLength, NewValue, Redo, Put, DecodeBand, Overrun;
      RedoSize(f, a, b, k, q);
      var (rs, st1) := Decode(t, st);
      if rs % 16 != 0 {
        BandRedoNew(t, p, st, f, a, b, k, q, rs, st1);
      } else if rs / 16 == 15 {
        BandRedoZrl(t, p, st, f, a, b, k, q, rs, st1);
      } else {
        var (st2, run) := RunLength(st1, rs / 16);
        UnfoldEob(t, p, st, a, k, rs, st1, st2, run);
        UnfoldEob(t, p, st, b, k, rs, st1, st2, run);
        TailRedo(p, st2, f, a, b, k);
      }
    }
  }

  lemma BandRedoNew(t: Table, p: BandSpec, st: Stream, f: Block, a: Block, b: Block, k: nat, q: nat, rs: nat, st1: Stream)
    requires k <= p.se < DCTSIZE2 && ShortBlock(a) && p.al <= 13 && q == Overrun(t, p, st, a, k) && Redo(f, a, b, k, q)
    requires f == DecodeBand(t, p, st, a, k).0 && (rs, st1) == Decode(t, st) && rs % 16 != 0 && |b| == DCTSIZE2
    ensures DecodeBand(t, p, st, b, k) == DecodeBand(t, p, st, a, k)
    decreases p.se + 1 - k, 0
  {
    hide *;
    BlockSize(a);
    var (bit, st2) := Take(st1, 1);
    var (a1, st3, k1) := SkipZeros(p, st2, a, k, rs / 16);
    var v := NewValue(p.al, bit);
    UnfoldNew(t, p, st, a, k, rs, st1, bit, st2, a1, st3, k1, Put(a1, k1, v));
    SkipKeeps(p, st2, a, k, rs / 16);
    PutKeeps(a1, k1, v);
    BandKeeps(t, p, st3, Put(a1, k1, v), k1 + 1);
    if k1 > p.se {
      PastBand(t, p, st3, Put(a1, k1, v), k1 + 1);
    }
    SkipRedo(p, st2, f, a, b, k, rs / 16, q);
    var b1 := SkipZeros(p, st2, b, k, rs / 16).0;
    UnfoldNew(t, p, st, b, k, rs, st1, bit, st2, b1, st3, k1, Put(b1, k1, v));
    if k1 > p.se {
      RedoLast(f, a1, b1, k1, v);
    } else {
      RedoPut(f, a1, b1, k1, v, q);
      BandRedo(t, p, st3, f, Put(a1, k1, v), Put(b1, k1, v), k1 + 1, q);
    }
  }

  lemma BandRedoZrl(t: Table, p: BandSpec, st: Stream, f: Block, a: Block, b: Block, k: nat, q: nat, rs: nat, st1: Stream)
    requires k <= p.se < DCTSIZE2 && ShortBlock(a) && p.al <= 13 && q == Overrun(t, p, st, a, k) && Redo(f, a, b, k, q)
    requires f == DecodeBand(t, p, st, a, k).0 && (rs, st1) == Decode(t, st) && rs % 16 == 0 && rs / 16 == 15 && |b| == DCTSIZE2
    ensures DecodeBand(t, p, st, b, k) == DecodeBand(t, p, st, a, k)
    decreases p.se + 1 - k, 0
  {
    hide *;
    BlockSize(a);
    var (a1, st3, k1) := SkipZeros(p, st1, a, k, 15);
    UnfoldZrl(t, p, st, a, k, rs, st1, a1, st3, k1);
    SkipKeeps(p, st1, a, k, 15);
    BandKeeps(t, p, st3, a1, k1 + 1);
    SkipRedo(p, st1, f, a, b, k, 15, q);
    var b1 := SkipZeros(p, st1, b, k, 15).0;
    UnfoldZrl(t, p, st, b, k, rs, st1, b1, st3, k1);
    if k1 > p.se {
      PastBand(t, p, st3, a1, k1 + 1);
    }
    RedoNext(f, a1, b1, k1, q);
    BandRedo(t, p, st3, f, a1, b1, k1 + 1, q);
  }

  lemma BlockSize(a: Block)
    requires ShortBlock(a)
    ensures |a| == DCTSIZE2 == 64
  {
  }

  lemma RedoSize(f: Block, a: Block, b: Block, k: nat, q: nat)
    requires Redo(f, a, b, k, q)
    ensures |f| == |a| == |b| == DCTSIZE2
  {
  }

  lemma PutKeeps(a: Block, k: nat, v: int)
    requires |a| == DCTSIZE2
    ensures forall j :: 0 <= j < DCTSIZE2 && j != Place(k) ==> Put(a, k, v)[j] == a[j]
    ensures k < DCTSIZE2 ==> Place(k) == k
    ensures ShortBlock(a) ==> ShortBlock(Put(a, k, v))
  {
    hide ToShort;
  }

  /** Going on behind a position whose coefficient is zero, or behind the band. */
  lemma RedoNext(f: Block, a: Block, b: Block, k: nat, q: nat)
    requires Redo(f, a, b, k, q) && ((k < DCTSIZE2 && a[k] == 0) || f == a)
    ensures Redo(f, a, b, k + 1, q)
  {
  }

  /** After an attempt in which zeros are zeros again, and nonzero coefficients are corrected or not, the MCU decodes to
      the same block, and leaves the same bits and the same run behind, for any bits whatever. */
  lemma RefineRetry(t: Table, p: BandSpec, st: Stream, run: nat, c0: Block, c: Block)
    requires ValidBand(p) && ShortBlock(c0)
    requires Redo(DecodeRefine(t, p, st, run, c0).0, c0, c, 0, RefineOverrun(t, p, st, run, c0))
    ensures DecodeRefine(t, p, st, run, c) == DecodeRefine(t, p, st, run, c0)
  {
    hide DecodeBand, CorrectTail, Overrun;
    var f := DecodeRefine(t, p, st, run, c0).0;
    if st.starved {
      assert c == c0;
    } else if run == 0 {
      BandKeeps(t, p, st, c0, p.ss);
      assert Redo(f, c0, c, p.ss, Overrun(t, p, st, c0, p.ss));
      BandRedo(t, p, st, f, c0, c, p.ss, Overrun(t, p, st, c0, p.ss));
    } else {
      TailKeeps(p, st, c0, p.ss);
      assert Redo(f, c0, c, p.ss, DCTSIZE2);
      TailRedo(p, st, f, c0, c, p.ss);
    }
  }

  // ----- what an attempt has done when it suspends -----

  /** While c0 is being decoded to f: nonzero coefficients are as before or final, except at q, where they are not zero;
      zeros are zero or listed. */
  ghost predicate Undoable(c0: Block, f: Block, c: Block, newk: seq<nat>, q: nat) {
    && |c0| == |f| == DCTSIZE2 && ShortBlock(c)
    && (forall i :: 0 <= i < |newk| ==> newk[i] < DCTSIZE2)
    && (forall j :: 0 <= j < DCTSIZE2 && c0[j] != 0 ==> j !in newk && if j == q then c[j] != 0 else c[j] == c0[j] || c[j] == f[j])
    && forall j :: 0 <= j < DCTSIZE2 && c0[j] == 0 ==> c[j] == 0 || j in newk
  }

  /** c with the positions of newk set to zero. */
  function Zeroed(c: Block, newk: seq<nat>): (r: Block)
    requires |c| == DCTSIZE2
    ensures |r| == DCTSIZE2
  {
    seq(DCTSIZE2, j requires 0 <= j < DCTSIZE2 => if j in newk then 0 else c[j])
  }

  lemma UndoneRedo(c0: Block, f: Block, c: Block, newk: seq<nat>, q: nat)
    requires Undoable(c0, f, c, newk, q)
    ensures Redo(f, c0, Zeroed(c, newk), 0, q) && ShortBlock(Zeroed(c, newk))
  {
  }

  lemma ZeroedNext(c: Block, newk: seq<nat>, n: nat)
    requires |c| == DCTSIZE2 && n < |newk| && newk[n] < DCTSIZE2
    ensures Zeroed(c, newk[n..]) == Zeroed(c, newk[n + 1..])[newk[n] := 0]
  {
    assert newk[n..] == [newk[n]] + newk[n + 1..];
  }
}
