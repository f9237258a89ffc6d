/** Refinement scans of AC bands in progressive mode: newly nonzero coefficients,
    correction bits, and runs of bands without new coefficients
    (encode_mcu_AC_refine and decode_mcu_AC_refine; section G.1.2.3 of ITU-T T.81). */
module AcRefineCoding {
  import opened BitSeq
  import opened BitStream
  import opened HuffTable
  import opened Symbols
  import opened Coefficients
  import opened BlockCoding
  import opened AcFirstCoding

  const MAX_CORR_BITS: nat := 1000

  /** EOBRUN and the correction bits that belong to the pending run. */
  datatype Pending = Pending(run: nat, be: Bits)

  const NOTHING := Pending(0, [])

  function BitItems(b: Bits): (s: seq<Item>)
    ensures |s| == |b|
  {
    seq(|b|, i requires 0 <= i < |b| => Raw([b[i]]))
  }

  /** emit_eobrun with the correction bits of the run. */
  function Flush(tbl: nat, pd: Pending): seq<Item> {
    if pd.run > 0 then EobItems(tbl, pd.run) + BitItems(pd.be) else []
  }

  /** The magnitude of coefficient k down to bit al. */
  function Mag(p: BandSpec, zz: Block, k: nat): nat
    requires k < |zz|
  {
    Shr(Abs(zz[k]), p.al)
  }

  /** The last position up to k whose coefficient becomes nonzero in this scan, or 0. */
  function LastNew(p: BandSpec, zz: Block, k: nat): (e: nat)
    requires k < |zz|
    ensures e <= k
    ensures e > 0 ==> p.ss <= e && Mag(p, zz, e) == 1
    ensures forall j :: e < j <= k && p.ss <= j ==> Mag(p, zz, j) != 1
    ensures e == 0 ==> forall j :: p.ss <= j <= k && 0 < j ==> Mag(p, zz, j) != 1
  {
    if k < p.ss || k == 0 then 0
    else if Mag(p, zz, k) == 1 then k
    else LastNew(p, zz, k - 1)
  }

  /** The state of the encoding loop: zero run, own correction bits, pending run, and what was emitted. */
  datatype Loop = Loop(items: seq<Item>, r: nat, br: Bits, pd: Pending)

  /** The main loop of encode_mcu_AC_refine from position k on. */
  function RefineLoop(p: BandSpec, zz: Block, eob: nat, k: nat, r: nat, br: Bits, pd: Pending): (l: Loop)
    requires |zz| == DCTSIZE2 && p.se < DCTSIZE2
    decreases p.se + 1 - k, r
  {
    if k > p.se then Loop([], r, br, pd)
    else if Mag(p, zz, k) == 0 then RefineLoop(p, zz, eob, k + 1, r + 1, br, pd)
    else if r > 15 && k <= eob then
      var l := RefineLoop(p, zz, eob, k, r - 16, [], NOTHING);
      l.(items := Flush(p.tbl, pd) + [Sym(p.tbl, ZRL)] + BitItems(br) + l.items)
    else if Mag(p, zz, k) > 1 then
      RefineLoop(p, zz, eob, k + 1, r, br + [Mag(p, zz, k) % 2 == 1], pd)
    else
      var l := RefineLoop(p, zz, eob, k + 1, 0, [], NOTHING);
      l.(items := Flush(p.tbl, pd) + NewItems(p, r, zz[k]) + BitItems(br) + l.items)
  }

  /** A newly nonzero coefficient behind r zeros: its symbol and its sign. */
  function NewItems(p: BandSpec, r: nat, v: int): seq<Item> {
    [Sym(p.tbl, r * 16 + 1), Raw([v >= 0])]
  }

  /** encode_mcu_AC_refine: the items of a block and what is pending behind it. */
  function EncodeRefine(p: BandSpec, zz: Block, pd: Pending): (r: (seq<Item>, Pending))
    requires |zz| == DCTSIZE2 && p.se < DCTSIZE2
  {
    var l := RefineLoop(p, zz, LastNew(p, zz, p.se), p.ss, 0, [], pd);
    if l.r == 0 && l.br == [] then (l.items, l.pd)
    else
      var pd1 := Pending(l.pd.run + 1, l.pd.be + l.br);
      if pd1.run == MAX_EOBRUN || |pd1.be| > MAX_CORR_BITS - DCTSIZE2 + 1
      then (l.items + Flush(p.tbl, pd1), NOTHING)
      else (l.items, pd1)
  }

  function SegmentRefine(p: BandSpec, bs: seq<Block>, pd: Pending): seq<Item>
    requires Blocks(bs) && p.se < DCTSIZE2
  {
    if |bs| == 0 then Flush(p.tbl, pd)
    else
      var (items, pd1) := EncodeRefine(p, bs[0], pd);
      items + SegmentRefine(p, bs[1..], pd1)
  }

  /** A correction bit applied to an already nonzero coefficient; nothing happens if the bit is there already. */
  function Correct(c: int, bit: bool, al: nat): int {
    if bit && Asr(c, al) % 2 == 0 then ToShort(if c >= 0 then c + Pow2(al) else c - Pow2(al)) else c
  }

  /** Read one correction bit for coefficient k. */
  function CorrectAt(p: BandSpec, st: Stream, c: Block, k: nat): (r: (Block, Stream))
    requires k < |c| == DCTSIZE2
    ensures |r.0| == DCTSIZE2
    ensures r.1.marker == st.marker && r.1.next == st.next
  {
    var (v, st1) := Take(st, 1);
    (c[k := Correct(c[k], v == 1, p.al)], st1)
  }

  /** Advance over already nonzero coefficients and r zero ones, correcting the former. */
  function SkipZeros(p: BandSpec, st: Stream, c: Block, k: nat, r: nat): (x: (Block, Stream, nat))
    requires |c| == DCTSIZE2 && k <= p.se < DCTSIZE2
    ensures |x.0| == DCTSIZE2 && k <= x.2 <= p.se + 1
    ensures x.1.marker == st.marker && x.1.next == st.next
    decreases p.se - k
  {
    if c[k] != 0 then
      var (c1, st1) := CorrectAt(p, st, c, k);
      if k + 1 > p.se then (c1, st1, k + 1) else SkipZeros(p, st1, c1, k + 1, r)
    else if r == 0 then (c, st, k)
    else if k + 1 > p.se then (c, st, k + 1)
    else SkipZeros(p, st, c, k + 1, r - 1)
  }

  /** Correct all already nonzero coefficients from k on: the rest of a band behind its end-of-band. */
  function CorrectTail(p: BandSpec, st: Stream, c: Block, k: nat): (x: (Block, Stream))
    requires |c| == DCTSIZE2 && p.se < DCTSIZE2
    ensures |x.0| == DCTSIZE2
    ensures x.1.marker == st.marker && x.1.next == st.next
    decreases p.se + 1 - k
  {
    if k > p.se then (c, st)
    else if c[k] != 0 then
      var (c1, st1) := CorrectAt(p, st, c, k);
      CorrectTail(p, st1, c1, k + 1)
    else CorrectTail(p, st, c, k + 1)
  }

  /** The value of a newly nonzero coefficient. */
  function NewValue(al: nat, bit: nat): int {
    if bit == 1 then Pow2(al) else 0 - Pow2(al)
  }

  /** Storing at zigzag position k; positions past the block go to its last coefficient. */
  function Put(c: Block, k: nat, v: int): (r: Block)
    requires |c| == DCTSIZE2
    ensures |r| == DCTSIZE2
  {
    c[(if k < DCTSIZE2 then k else DCTSIZE2 - 1) := ToShort(v)]
  }

  /** The symbol loop of decode_mcu_AC_refine from position k on, and the tail behind an EOBn. */
  function DecodeBand(t: Table, p: BandSpec, st: Stream, c: Block, k: nat): (x: (Block, Stream, nat))
    requires |c| == DCTSIZE2 && p.se < DCTSIZE2
    ensures |x.0| == DCTSIZE2
    ensures x.1.marker == st.marker && x.1.next == st.next
    decreases p.se + 1 - k
  {
    if k > p.se then (c, st, 0) else
      var (rs, st1) := Decode(t, st);
      var (r, s) := (rs / 16, rs % 16);
      if s != 0 then
        var (bit, st2) := Take(st1, 1);
        var (c1, st3, k1) := SkipZeros(p, st2, c, k, r);
        DecodeBand(t, p, st3, Put(c1, k1, NewValue(p.al, bit)), k1 + 1)
      else if r == 15 then
        var (c1, st3, k1) := SkipZeros(p, st1, c, k, r);
        DecodeBand(t, p, st3, c1, k1 + 1)
      else
        var (st2, run) := RunLength(st1, r);
        var (c1, st3) := CorrectTail(p, st2, c, k);
        (c1, st3, run)
  }

  /** decode_mcu_AC_refine on the stream st with run bands without new coefficients still to come. */
  function DecodeRefine(t: Table, p: BandSpec, st: Stream, run: nat, c: Block): (x: (Block, Stream, nat))
    requires |c| == DCTSIZE2 && p.se < DCTSIZE2
    ensures |x.0| == DCTSIZE2
    ensures x.1.marker == st.marker && x.1.next == st.next
  {
    if st.starved then (c, st, run)
    else if run == 0 then DecodeBand(t, p, st, c, p.ss)
    else
      var (c1, st1) := CorrectTail(p, st, c, p.ss);
      (c1, st1, run - 1)
  }

  function DecodeRefineAll(t: Table, p: BandSpec, st: Stream, run: nat, cs: seq<Block>): (r: (seq<Block>, Stream, nat))
    requires Blocks(cs) && p.se < DCTSIZE2
    ensures |r.0| == |cs| && Blocks(r.0)
    decreases |cs|
  {
    if |cs| == 0 then ([], st, run)
    else
      var (c, st1, run1) := DecodeRefine(t, p, st, run, cs[0]);
      var (rest, st2, run2) := DecodeRefineAll(t, p, st1, run1, cs[1..]);
      ([c] + rest, st2, run2)
  }

  // ----- one coefficient -----

  lemma {:induction false} ShrNext(v: nat, n: nat)
    ensures Shr(v, n + 1) == Shr(v, n) / 2
  {
    if n > 0 {
      ShrNext(v / 2, n - 1);
    } else {
      assert Shr(v, 1) == Shr(v / 2, 0);
    }
  }

  lemma {:induction false} AsrScaled(q: int, n: nat)
    ensures Asr(q * Pow2(n), n) == q
    decreases n
  {
    if n > 0 {
      MulDouble(q, Pow2(n - 1));
      assert q * Pow2(n) / 2 == q * Pow2(n - 1);
      AsrScaled(q, n - 1);
    } else {
      assert Pow2(0) == 1;
    }
  }

  /** A coefficient sent down to bit al + 1, as a multiple of 2^al. */
  lemma SentEven(v: int, al: nat)
    ensures Abs(AcSent(v, al + 1)) == Shr(Abs(v), al) / 2 * 2 * Pow2(al)
    ensures Asr(AcSent(v, al + 1), al) % 2 == 0
  {
    hide Shr, Asr;
    ShrNext(Abs(v), al);
    AcSentInRange(v, al + 1);
    var h := Shr(Abs(v), al) / 2;
    assert h * Pow2(al + 1) == h * 2 * Pow2(al) by {
      assert Pow2(al + 1) == 2 * Pow2(al);
      MulAssoc(h, 2, Pow2(al));
    }
    var s: int := if v < 0 then -1 else 1;
    assert AcSent(v, al + 1) == s * h * 2 * Pow2(al) by {
      if v < 0 {
        NegProduct(h * 2, Pow2(al));
        assert s * h * 2 == -(h * 2);
      }
    }
    AsrScaled(s * h * 2, al);
  }

  /** A correction bit takes a coefficient from bit al + 1 down to bit al. */
  lemma CorrectSent(v: int, al: nat)
    requires -32768 <= v < 32768
    ensures var m := Shr(Abs(v), al);
      && (m > 1 ==> AcSent(v, al + 1) != 0 && Correct(AcSent(v, al + 1), m % 2 == 1, al) == AcSent(v, al))
      && (m <= 1 ==> AcSent(v, al + 1) == 0)
      && (m == 1 ==> AcSent(v, al) == ToShort(NewValue(al, if v >= 0 then 1 else 0)))
      && (m == 0 ==> AcSent(v, al) == 0)
  {
    hide Shr, Asr;
    SentEven(v, al);
    AcSentInRange(v, al);
    AcSentInRange(v, al + 1);
    var m := Shr(Abs(v), al);
    MulDistrib(m / 2 * 2, m % 2, Pow2(al));
    assert m == m / 2 * 2 + m % 2;
    if m > 1 {
      MulMono(1, m / 2 * 2, Pow2(al));
    }
  }

  // ----- regions without newly nonzero coefficients -----

  /** The block while position q of the band is reached: down to bit al before q, to bit al + 1 from q on. */
  function Mixed(p: BandSpec, zz: Block, b: Block, q: nat): (r: Block)
    requires |zz| == |b| == DCTSIZE2
    ensures |r| == DCTSIZE2
  {
    seq(DCTSIZE2, k requires 0 <= k < DCTSIZE2 =>
      if k < p.ss || k > p.se then b[k]
      else if k < q then AcSent(zz[k], p.al)
      else AcSent(zz[k], p.al + 1))
  }

  /** No coefficient in q..k-1 becomes nonzero. */
  ghost predicate NoNew(p: BandSpec, zz: Block, q: nat, k: nat)
    requires |zz| == DCTSIZE2 && k <= DCTSIZE2
  {
    forall j :: q <= j < k ==> Mag(p, zz, j) != 1
  }

  /** The correction bits of q..k-1. */
  function Corrections(p: BandSpec, zz: Block, q: nat, k: nat): Bits
    requires |zz| == DCTSIZE2 && q <= k <= DCTSIZE2
  {
    if q == k then []
    else Corrections(p, zz, q, k - 1) + if Mag(p, zz, k - 1) > 1 then [Mag(p, zz, k - 1) % 2 == 1] else []
  }

  /** The number of zero coefficients in q..k-1. */
  function Zeros(p: BandSpec, zz: Block, q: nat, k: nat): (n: nat)
    requires |zz| == DCTSIZE2 && q <= k <= DCTSIZE2
    ensures n <= k - q
  {
    if q == k then 0 else Zeros(p, zz, q, k - 1) + if Mag(p, zz, k - 1) == 0 then 1 else 0
  }

  lemma {:induction false} CorrectionsFront(p: BandSpec, zz: Block, q: nat, k: nat)
    requires |zz| == DCTSIZE2 && q < k <= DCTSIZE2
    ensures Corrections(p, zz, q, k)
         == (if Mag(p, zz, q) > 1 then [Mag(p, zz, q) % 2 == 1] else []) + Corrections(p, zz, q + 1, k)
    ensures Zeros(p, zz, q, k) == (if Mag(p, zz, q) == 0 then 1 else 0) + Zeros(p, zz, q + 1, k)
    decreases k
  {
    hide Mag;
    if q + 1 < k {
      CorrectionsFront(p, zz, q, k - 1);
      var a := if Mag(p, zz, q) > 1 then [Mag(p, zz, q) % 2 == 1] else [];
      var z := if Mag(p, zz, k - 1) > 1 then [Mag(p, zz, k - 1) % 2 == 1] else [];
      ConcatAssoc(a, Corrections(p, zz, q + 1, k - 1), z);
    }
  }

  ghost predicate ShortBlock(zz: Block) {
    |zz| == DCTSIZE2 && forall k :: 0 <= k < DCTSIZE2 ==> -32768 <= zz[k] < 32768
  }

  /** Passing coefficient k, which is not newly nonzero: either a correction bit is read or it stays zero. */
  lemma PassOne(p: BandSpec, zz: Block, b: Block, k: nat, st: Stream)
    requires ValidBand(p) && ShortBlock(zz) && |b| == DCTSIZE2 && p.ss <= k <= p.se
    requires Mag(p, zz, k) != 1
    ensures var c := Mixed(p, zz, b, k);
      if Mag(p, zz, k) > 1 then
        c[k] != 0 && CorrectAt(p, Prepend([Mag(p, zz, k) % 2 == 1], st), c, k) == (Mixed(p, zz, b, k + 1), st)
      else c[k] == 0 && c == Mixed(p, zz, b, k + 1)
  {
    hide AcSent, Correct;
    CorrectSent(zz[k], p.al);
    if Mag(p, zz, k) > 1 {
      var bit := Mag(p, zz, k) % 2 == 1;
      TakeBit(bit, st);
      var c := Mixed(p, zz, b, k);
      assert c[k := AcSent(zz[k], p.al)] == Mixed(p, zz, b, k + 1);
    }
  }

  lemma TakeBit(bit: bool, st: Stream)
    ensures Take(Prepend([bit], st), 1) == (BitVal(bit), st)
  {
    assert ([bit] + st.bits)[..1] == [bit] && ([bit] + st.bits)[1..] == st.bits;
    assert [bit][..0] == [];
    assert Val([bit]) == BitVal(bit);
  }

  /** Skipping stops at the zero coefficient that follows the zeros to be skipped. */
  lemma {:induction false} SkipRegion(p: BandSpec, zz: Block, b: Block, k: nat, q: nat, st: Stream)
    requires ValidBand(p) && ShortBlock(zz) && |b| == DCTSIZE2 && p.ss <= k <= q <= p.se
    requires NoNew(p, zz, k, q) && Mixed(p, zz, b, q)[q] == 0
    ensures SkipZeros(p, Prepend(Corrections(p, zz, k, q), st), Mixed(p, zz, b, k), k, Zeros(p, zz, k, q))
         == (Mixed(p, zz, b, q), st, q)
    decreases q - k
  {
    hide Mag, Mixed, CorrectAt, Prepend;
    if k == q {
      PrependConcat([], [], st);
    } else {
      CorrectionsFront(p, zz, k, q);
      var bits, more := if Mag(p, zz, k) > 1 then [Mag(p, zz, k) % 2 == 1] else [], Corrections(p, zz, k + 1, q);
      PrependConcat(bits, more, st);
      PrependConcat([], more, Prepend(more, st));
      PassOne(p, zz, b, k, Prepend(more, st));
      SkipRegion(p, zz, b, k + 1, q, st);
    }
  }

  /** The rest of a band without new coefficients. */
  lemma {:induction false} TailRegion(p: BandSpec, zz: Block, b: Block, k: nat, st: Stream)
    requires ValidBand(p) && ShortBlock(zz) && |b| == DCTSIZE2 && p.ss <= k <= p.se + 1
    requires NoNew(p, zz, k, p.se + 1)
    ensures CorrectTail(p, Prepend(Corrections(p, zz, k, p.se + 1), st), Mixed(p, zz, b, k), k)
         == (Mixed(p, zz, b, p.se + 1), st)
    decreases p.se + 1 - k
  {
    hide Mag, Mixed, CorrectAt, Prepend;
    if k > p.se {
      PrependConcat([], [], st);
    } else {
      CorrectionsFront(p, zz, k, p.se + 1);
      var bits, more := if Mag(p, zz, k) > 1 then [Mag(p, zz, k) % 2 == 1] else [], Corrections(p, zz, k + 1, p.se + 1);
      PrependConcat(bits, more, st);
      PrependConcat([], more, Prepend(more, st));
      PassOne(p, zz, b, k, Prepend(more, st));
      TailRegion(p, zz, b, k + 1, st);
    }
  }

  // ----- the encoding loop -----

  /** Behind the last new coefficient nothing is emitted: zeros and correction bits only accumulate. */
  lemma {:induction false} NoEmission(p: BandSpec, zz: Block, eob: nat, k: nat, r: nat, br: Bits, pd: Pending)
    requires ValidBand(p) && |zz| == DCTSIZE2 && p.ss <= k <= p.se + 1 && eob < k
    requires NoNew(p, zz, k, p.se + 1)
    ensures RefineLoop(p, zz, eob, k, r, br, pd)
         == Loop([], r + Zeros(p, zz, k, p.se + 1), br + Corrections(p, zz, k, p.se + 1), pd)
    decreases p.se + 1 - k
  {
    hide Mag;
    if k > p.se {
      assert br + [] == br;
    } else {
      CorrectionsFront(p, zz, k, p.se + 1);
      var more := Corrections(p, zz, k + 1, p.se + 1);
      if Mag(p, zz, k) == 0 {
        NoEmission(p, zz, eob, k + 1, r + 1, br, pd);
        assert [] + more == more;
      } else {
        var bit := [Mag(p, zz, k) % 2 == 1];
        NoEmission(p, zz, eob, k + 1, r, br + bit, pd);
        ConcatAssoc(br, bit, more);
      }
    }
  }

  /** A pending run is flushed before the first symbol of a block with new coefficients. */
  lemma {:induction false} FlushFirst(p: BandSpec, zz: Block, eob: nat, k: nat, r: nat, br: Bits, pd: Pending)
    requires ValidBand(p) && |zz| == DCTSIZE2 && p.ss <= k <= eob <= p.se && Mag(p, zz, eob) == 1
    ensures var l := RefineLoop(p, zz, eob, k, r, br, NOTHING);
      RefineLoop(p, zz, eob, k, r, br, pd) == l.(items := Flush(p.tbl, pd) + l.items)
    decreases p.se + 1 - k, r
  {
    hide Mag, NewItems, BitItems;
    assert Flush(p.tbl, NOTHING) == [];
    var f := Flush(p.tbl, pd);
    if Mag(p, zz, k) == 0 {
      FlushFirst(p, zz, eob, k + 1, r + 1, br, pd);
    } else if r > 15 {
      var l := RefineLoop(p, zz, eob, k, r - 16, [], NOTHING);
      AssocItems(f, [Sym(p.tbl, ZRL)], BitItems(br), l.items);
    } else if Mag(p, zz, k) > 1 {
      FlushFirst(p, zz, eob, k + 1, r, br + [Mag(p, zz, k) % 2 == 1], pd);
    } else {
      var l := RefineLoop(p, zz, eob, k + 1, 0, [], NOTHING);
      AssocItems(f, NewItems(p, r, zz[k]), BitItems(br), l.items);
    }
  }

  lemma AssocItems(a: seq<Item>, b: seq<Item>, c: seq<Item>, d: seq<Item>)
    ensures a + b + c + d == a + ([] + b + c + d)
    ensures a + b + c + d == a + (b + (c + d))
  {
  }

  // ----- a band with newly nonzero coefficients -----

  /** Between q and k the loops of encoder and decoder stand: what the encoder has counted and buffered there. */
  ghost predicate InStep(p: BandSpec, zz: Block, q: nat, k: nat, r: nat, br: Bits)
    requires |zz| == DCTSIZE2
  {
    && p.ss <= q <= k <= p.se + 1 <= DCTSIZE2
    && NoNew(p, zz, q, k)
    && r == Zeros(p, zz, q, k)
    && br == Corrections(p, zz, q, k)
    // correction bits lie before the 16th zero, so that a ZRL takes all of them
    && forall j {:trigger Mag(p, zz, j)} :: q <= j < k && Mag(p, zz, j) > 1 ==> Zeros(p, zz, q, j) <= 15
  }

  /** The position of the 16th zero; no correction bits follow it. */
  lemma {:induction false} SixteenthZero(p: BandSpec, zz: Block, q: nat, k: nat, k0: nat) returns (j: nat)
    requires |zz| == DCTSIZE2 && q <= k <= k0 <= DCTSIZE2 && Zeros(p, zz, q, k) > 15
    requires NoNew(p, zz, q, k0)
    requires forall i {:trigger Mag(p, zz, i)} :: q <= i < k0 && Mag(p, zz, i) > 1 ==> Zeros(p, zz, q, i) <= 15
    ensures q <= j < k && Mag(p, zz, j) == 0 && Zeros(p, zz, q, j) == 15
    ensures Corrections(p, zz, q, k) == Corrections(p, zz, q, j)
    ensures Zeros(p, zz, j + 1, k) == Zeros(p, zz, q, k) - 16 && Corrections(p, zz, j + 1, k) == []
    ensures forall i :: j < i < k ==> Mag(p, zz, i) == 0
    decreases k
  {
    hide Mag;
    if Zeros(p, zz, q, k - 1) > 15 {
      j := SixteenthZero(p, zz, q, k - 1, k0);
      assert Mag(p, zz, k - 1) == 0;
      assert Corrections(p, zz, q, k - 1) + [] == Corrections(p, zz, q, k - 1);
    } else {
      j := k - 1;
      assert Mag(p, zz, j) == 0;
      assert Corrections(p, zz, q, j) + [] == Corrections(p, zz, q, j);
    }
  }

  /** Going on to the next coefficient without emitting. */
  lemma StepOn(p: BandSpec, zz: Block, q: nat, k: nat, r: nat, br: Bits)
    requires |zz| == DCTSIZE2 && InStep(p, zz, q, k, r, br) && k <= p.se && Mag(p, zz, k) != 1
    requires Mag(p, zz, k) > 1 ==> r <= 15
    ensures InStep(p, zz, q, k + 1, r + (if Mag(p, zz, k) == 0 then 1 else 0),
                   br + (if Mag(p, zz, k) > 1 then [Mag(p, zz, k) % 2 == 1] else []))
  {
    hide Mag;
  }

  lemma BitItemsBits(ts: seq<Table>, b: Bits, st: Stream)
    ensures Ahead(ts, BitItems(b), st) == Prepend(b, st) && Coded(ts, BitItems(b))
  {
    BitItemsAre(ts, b);
  }

  lemma {:induction false} BitItemsAre(ts: seq<Table>, b: Bits)
    ensures ItemsBits(ts, BitItems(b)) == b
  {
    if |b| > 0 {
      var s := BitItems(b);
      assert s[1..] == BitItems(b[1..]);
      BitItemsAre(ts, b[1..]);
      assert ItemBits(ts, s[0]) == [b[0]];
    }
  }

  /** The decoder reads a ZRL: it passes sixteen zeros and the correction bits between them. */
  lemma ZrlStep(ts: seq<Table>, p: BandSpec, zz: Block, b: Block, q: nat, k: nat, r: nat, br: Bits, st: Stream) returns (q1: nat)
    requires ValidBand(p) && p.tbl < |ts| && ShortBlock(zz) && |b| == DCTSIZE2
    requires InStep(p, zz, q, k, r, br) && r > 15 && k <= p.se && ItemCoded(ts, Sym(p.tbl, ZRL))
    ensures InStep(p, zz, q1, k, r - 16, [])
    ensures DecodeBand(ts[p.tbl], p, Ahead(ts, [Sym(p.tbl, ZRL)] + BitItems(br), st), Mixed(p, zz, b, q), q)
         == DecodeBand(ts[p.tbl], p, st, Mixed(p, zz, b, q1), q1)
  {
    hide Mag, Mixed, Decode, Ahead, Prepend, SkipZeros, CorrectTail, RunLength, Take, Put;
    var j := SixteenthZero(p, zz, q, k, k);
    q1 := j + 1;
    AheadConcat(ts, [Sym(p.tbl, ZRL)], BitItems(br), st);
    BitItemsBits(ts, br, st);
    DecodeSym(ts, p.tbl, ZRL, Prepend(br, st));
    ZeroStays(p, zz, b, j);
    SkipRegion(p, zz, b, q, j, st);
  }

  lemma ZeroStays(p: BandSpec, zz: Block, b: Block, j: nat)
    requires ValidBand(p) && ShortBlock(zz) && |b| == DCTSIZE2 && p.ss <= j <= p.se && Mag(p, zz, j) <= 1
    ensures Mixed(p, zz, b, j)[j] == 0
    ensures Mag(p, zz, j) == 0 ==> Mixed(p, zz, b, j) == Mixed(p, zz, b, j + 1)
  {
    hide AcSent;
    CorrectSent(zz[j], p.al);
  }

  /** The decoder reads a new coefficient: it passes r zeros, corrects the others, and stores it. */
  lemma NewStep(ts: seq<Table>, p: BandSpec, zz: Block, b: Block, q: nat, k: nat, r: nat, br: Bits, st: Stream)
    requires ValidBand(p) && p.tbl < |ts| && ShortBlock(zz) && |b| == DCTSIZE2
    requires InStep(p, zz, q, k, r, br) && r <= 15 && k <= p.se && Mag(p, zz, k) == 1
    requires ItemCoded(ts, Sym(p.tbl, r * 16 + 1))
    ensures DecodeBand(ts[p.tbl], p, Ahead(ts, NewItems(p, r, zz[k]) + BitItems(br), st), Mixed(p, zz, b, q), q)
         == DecodeBand(ts[p.tbl], p, st, Mixed(p, zz, b, k + 1), k + 1)
  {
    hide *;
    InStepBounds(p, zz, q, k, r, br);
    var sym, raw := [Sym(p.tbl, r * 16 + 1)], [Raw([zz[k] >= 0])];
    NewParts(p, r, zz[k]);
    var st2 := Prepend(br, st);
    BitItemsBits(ts, br, st);
    AheadConcat(ts, sym + raw, BitItems(br), st);
    AheadConcat(ts, sym, raw, st2);
    DecodeSym(ts, p.tbl, r * 16 + 1, Ahead(ts, raw, st2));
    TakeSign(ts, zz[k] >= 0, st2);
    ZeroStays(p, zz, b, k);
    SkipInStep(p, zz, b, q, k, r, br, st);
    StoreNew(p, zz, b, k);
    DecodeNew(ts[p.tbl], p, Ahead(ts, sym + raw, st2), Ahead(ts, raw, st2), st2, st, Mixed(p, zz, b, q), q, k, r,
              BitVal(zz[k] >= 0), Mixed(p, zz, b, k));
  }

  lemma InStepBounds(p: BandSpec, zz: Block, q: nat, k: nat, r: nat, br: Bits)
    requires ValidBand(p) && ShortBlock(zz) && InStep(p, zz, q, k, r, br)
    ensures p.ss <= q <= k <= p.se + 1 <= DCTSIZE2 == 64 && |zz| == DCTSIZE2 && p.se < DCTSIZE2
  {
    hide Mag;
  }

  lemma NewParts(p: BandSpec, r: nat, v: int)
    ensures NewItems(p, r, v) == [Sym(p.tbl, r * 16 + 1)] + [Raw([v >= 0])]
  {
  }

  lemma SkipInStep(p: BandSpec, zz: Block, b: Block, q: nat, k: nat, r: nat, br: Bits, st: Stream)
    requires ValidBand(p) && ShortBlock(zz) && |b| == DCTSIZE2
    requires InStep(p, zz, q, k, r, br) && k <= p.se && Mixed(p, zz, b, k)[k] == 0
    ensures SkipZeros(p, Prepend(br, st), Mixed(p, zz, b, q), q, r) == (Mixed(p, zz, b, k), st, k)
  {
    hide Mag, Mixed, Prepend, SkipZeros;
    SkipRegion(p, zz, b, q, k, st);
  }

  lemma TakeSign(ts: seq<Table>, bit: bool, st: Stream)
    ensures Take(Ahead(ts, [Raw([bit])], st), 1) == (BitVal(bit), st)
  {
    AheadOne(ts, Raw([bit]), st);
    TakeBit(bit, st);
  }

  lemma StoreNew(p: BandSpec, zz: Block, b: Block, k: nat)
    requires ValidBand(p) && ShortBlock(zz) && |b| == DCTSIZE2 && p.ss <= k <= p.se && Mag(p, zz, k) == 1
    ensures Put(Mixed(p, zz, b, k), k, NewValue(p.al, BitVal(zz[k] >= 0))) == Mixed(p, zz, b, k + 1)
  {
    hide AcSent, NewValue;
    CorrectSent(zz[k], p.al);
    assert Mixed(p, zz, b, k)[k := AcSent(zz[k], p.al)] == Mixed(p, zz, b, k + 1);
  }

  lemma DecodeNew(t: Table, p: BandSpec, st0: Stream, st1: Stream, st2: Stream, st3: Stream, c: Block, q: nat, k: nat,
                  r: nat, bit: nat, c1: Block)
    requires |c| == |c1| == DCTSIZE2 && q <= k <= p.se < DCTSIZE2 && r <= 15
    requires Decode(t, st0) == (r * 16 + 1, st1) && Take(st1, 1) == (bit, st2)
    requires SkipZeros(p, st2, c, q, r) == (c1, st3, k)
    ensures DecodeBand(t, p, st0, c, q) == DecodeBand(t, p, st3, Put(c1, k, NewValue(p.al, bit)), k + 1)
  {
    hide Decode, Take, SkipZeros, Put, NewValue;
  }

  /** Up to the last new coefficient the decoder follows the encoding loop. */
  lemma {:induction false} BandInStep(ts: seq<Table>, p: BandSpec, zz: Block, b: Block, q: nat, eob: nat, k: nat, r: nat,
                                      br: Bits, st: Stream)
    requires ValidBand(p) && p.tbl < |ts| && ShortBlock(zz) && |b| == DCTSIZE2
    requires InStep(p, zz, q, k, r, br) && k <= eob == LastNew(p, zz, p.se)
    requires Coded(ts, RefineLoop(p, zz, eob, k, r, br, NOTHING).items)
    ensures DecodeBand(ts[p.tbl], p, Ahead(ts, RefineLoop(p, zz, eob, k, r, br, NOTHING).items, st), Mixed(p, zz, b, q), q)
         == DecodeBand(ts[p.tbl], p, st, Mixed(p, zz, b, eob + 1), eob + 1)
    decreases p.se + 1 - k, r, 1
  {
    hide *;
    InStepBounds(p, zz, q, k, r, br);
    EobIsNew(p, zz, eob, k);
    LoopQuiet(p, zz, eob, k, r, br);
    StepOnIfQuiet(p, zz, q, k, r, br);
    if Mag(p, zz, k) == 0 {
      BandInStep(ts, p, zz, b, q, eob, k + 1, r + 1, br, st);
    } else if r > 15 {
      ZrlInStep(ts, p, zz, b, q, eob, k, r, br, st);
    } else if Mag(p, zz, k) > 1 {
      BandInStep(ts, p, zz, b, q, eob, k + 1, r, br + [Mag(p, zz, k) % 2 == 1], st);
    } else {
      NewInStep(ts, p, zz, b, q, eob, k, r, br, st);
    }
  }

  lemma EobIsNew(p: BandSpec, zz: Block, eob: nat, k: nat)
    requires ValidBand(p) && |zz| == DCTSIZE2 && p.ss <= k <= eob == LastNew(p, zz, p.se)
    ensures eob <= p.se && Mag(p, zz, eob) == 1
  {
    hide Mag;
  }

  /** The steps of the encoding loop that emit nothing. */
  lemma LoopQuiet(p: BandSpec, zz: Block, eob: nat, k: nat, r: nat, br: Bits)
    requires |zz| == DCTSIZE2 && k <= eob <= p.se < DCTSIZE2
    ensures Mag(p, zz, k) == 0 ==> RefineLoop(p, zz, eob, k, r, br, NOTHING) == RefineLoop(p, zz, eob, k + 1, r + 1, br, NOTHING)
    ensures r <= 15 && Mag(p, zz, k) > 1 ==>
      RefineLoop(p, zz, eob, k, r, br, NOTHING) == RefineLoop(p, zz, eob, k + 1, r, br + [Mag(p, zz, k) % 2 == 1], NOTHING)
  {
    hide Mag, Flush, NewItems, BitItems;
  }

  lemma StepOnIfQuiet(p: BandSpec, zz: Block, q: nat, k: nat, r: nat, br: Bits)
    requires |zz| == DCTSIZE2 && InStep(p, zz, q, k, r, br) && k <= p.se
    ensures Mag(p, zz, k) == 0 ==> InStep(p, zz, q, k + 1, r + 1, br)
    ensures Mag(p, zz, k) > 1 && r <= 15 ==> InStep(p, zz, q, k + 1, r, br + [Mag(p, zz, k) % 2 == 1])
  {
    hide Mag, Corrections, Zeros, NoNew;
    if Mag(p, zz, k) == 0 || (Mag(p, zz, k) > 1 && r <= 15) {
      StepOn(p, zz, q, k, r, br);
      assert br + [] == br;
    }
  }

  lemma ZrlInStep(ts: seq<Table>, p: BandSpec, zz: Block, b: Block, q: nat, eob: nat, k: nat, r: nat, br: Bits, st: Stream)
    requires ValidBand(p) && p.tbl < |ts| && ShortBlock(zz) && |b| == DCTSIZE2
    requires InStep(p, zz, q, k, r, br) && k <= eob == LastNew(p, zz, p.se)
    requires Coded(ts, RefineLoop(p, zz, eob, k, r, br, NOTHING).items)
    requires Mag(p, zz, k) != 0 && r > 15
    ensures DecodeBand(ts[p.tbl], p, Ahead(ts, RefineLoop(p, zz, eob, k, r, br, NOTHING).items, st), Mixed(p, zz, b, q), q)
         == DecodeBand(ts[p.tbl], p, st, Mixed(p, zz, b, eob + 1), eob + 1)
    decreases p.se + 1 - k, r, 0
  {
    hide Mag, Mixed, Ahead, DecodeBand, InStep, Coded, BitItems, LastNew;
    var zrl, more := [Sym(p.tbl, ZRL)], RefineLoop(p, zz, eob, k, r - 16, [], NOTHING).items;
    NoFlush(p.tbl, zrl);
    CodedConcat(ts, zrl + BitItems(br), more);
    CodedConcat(ts, zrl, BitItems(br));
    CodedHead(ts, zrl);
    AheadConcat(ts, zrl + BitItems(br), more, st);
    var q1 := ZrlStep(ts, p, zz, b, q, k, r, br, Ahead(ts, more, st));
    BandInStep(ts, p, zz, b, q1, eob, k, r - 16, [], st);
  }

  lemma NoFlush(tbl: nat, s: seq<Item>)
    ensures Flush(tbl, NOTHING) + s == s
  {
  }

  lemma CodedHead(ts: seq<Table>, s: seq<Item>)
    requires Coded(ts, s) && |s| > 0
    ensures ItemCoded(ts, s[0])
  {
  }

  lemma NewInStep(ts: seq<Table>, p: BandSpec, zz: Block, b: Block, q: nat, eob: nat, k: nat, r: nat, br: Bits, st: Stream)
    requires ValidBand(p) && p.tbl < |ts| && ShortBlock(zz) && |b| == DCTSIZE2
    requires InStep(p, zz, q, k, r, br) && k <= eob == LastNew(p, zz, p.se)
    requires Coded(ts, RefineLoop(p, zz, eob, k, r, br, NOTHING).items)
    requires Mag(p, zz, k) == 1 && r <= 15
    ensures DecodeBand(ts[p.tbl], p, Ahead(ts, RefineLoop(p, zz, eob, k, r, br, NOTHING).items, st), Mixed(p, zz, b, q), q)
         == DecodeBand(ts[p.tbl], p, st, Mixed(p, zz, b, eob + 1), eob + 1)
    decreases p.se + 1 - k, r, 0
  {
    assert p.ss <= k && p.se < DCTSIZE2;
    NewHead(p, r, zz[k]);
    LoopNew(p, zz, eob, k, r, br);
    hide Mag, Mixed, Ahead, DecodeBand, InStep, Coded, BitItems, NewItems, RefineLoop, LastNew;
    var head, more := NewItems(p, r, zz[k]), RefineLoop(p, zz, eob, k + 1, 0, [], NOTHING).items;
    CodedConcat(ts, head + BitItems(br), more);
    CodedConcat(ts, head, BitItems(br));
    CodedHead(ts, head);
    AheadConcat(ts, head + BitItems(br), more, st);
    NewStep(ts, p, zz, b, q, k, r, br, Ahead(ts, more, st));
    BehindNew(ts, p, zz, b, eob, k, st);
  }

  lemma LoopNew(p: BandSpec, zz: Block, eob: nat, k: nat, r: nat, br: Bits)
    requires |zz| == DCTSIZE2 && k <= p.se < DCTSIZE2 && Mag(p, zz, k) == 1 && r <= 15
    ensures RefineLoop(p, zz, eob, k, r, br, NOTHING).items
         == NewItems(p, r, zz[k]) + BitItems(br) + RefineLoop(p, zz, eob, k + 1, 0, [], NOTHING).items
  {
    hide NewItems, BitItems, Mag;
    NoFlush(p.tbl, NewItems(p, r, zz[k]));
  }

  lemma BehindNew(ts: seq<Table>, p: BandSpec, zz: Block, b: Block, eob: nat, k: nat, st: Stream)
    requires ValidBand(p) && p.tbl < |ts| && ShortBlock(zz) && |b| == DCTSIZE2
    requires p.ss <= k <= eob == LastNew(p, zz, p.se)
    requires Coded(ts, RefineLoop(p, zz, eob, k + 1, 0, [], NOTHING).items)
    ensures DecodeBand(ts[p.tbl], p, Ahead(ts, RefineLoop(p, zz, eob, k + 1, 0, [], NOTHING).items, st),
                       Mixed(p, zz, b, k + 1), k + 1)
         == DecodeBand(ts[p.tbl], p, st, Mixed(p, zz, b, eob + 1), eob + 1)
    decreases p.se - k, 0, 2
  {
    hide Mag, Mixed, Ahead, DecodeBand, InStep, Coded, RefineLoop;
    if k == eob {
      QuietBehind(p, zz, eob);
      NoEmission(p, zz, eob, k + 1, 0, [], NOTHING);
      AheadConcat(ts, [], [], st);
    } else {
      FreshStep(p, zz, k + 1);
      BandInStep(ts, p, zz, b, k + 1, eob, k + 1, 0, [], st);
    }
  }

  lemma NewHead(p: BandSpec, r: nat, v: int)
    ensures NewItems(p, r, v)[0] == Sym(p.tbl, r * 16 + 1) && |NewItems(p, r, v)| == 2
  {
  }

  lemma FreshStep(p: BandSpec, zz: Block, k: nat)
    requires |zz| == DCTSIZE2 && p.ss <= k <= p.se + 1 <= DCTSIZE2
    ensures InStep(p, zz, k, k, 0, [])
  {
  }

  lemma QuietBehind(p: BandSpec, zz: Block, eob: nat)
    requires ValidBand(p) && |zz| == DCTSIZE2 && eob == LastNew(p, zz, p.se)
    ensures NoNew(p, zz, if eob == 0 then p.ss else eob + 1, p.se + 1)
  {
    hide Mag;
  }

  // ----- whole blocks and segments -----

  ghost predicate RefineReady(ts: seq<Table>, p: BandSpec, bs: seq<Block>, cs: seq<Block>, outs: seq<Block>) {
    && ValidBand(p) && p.tbl < |ts| && Blocks(bs) && Blocks(cs) && Blocks(outs) && |bs| == |cs| == |outs|
    && forall i :: 0 <= i < |bs| ==> ShortBlock(bs[i]) && cs[i] == Mixed(p, bs[i], outs[i], p.ss)
  }

  /** The items of a block when nothing is pending: the symbols of its new coefficients, and then maybe a run of one. */
  function Heading(p: BandSpec, zz: Block): seq<Item>
    requires |zz| == DCTSIZE2 && p.se < DCTSIZE2
  {
    RefineLoop(p, zz, LastNew(p, zz, p.se), p.ss, 0, [], NOTHING).items
  }

  /** The position behind the last new coefficient. */
  function Behind(p: BandSpec, zz: Block): nat
    requires |zz| == DCTSIZE2 && p.se < DCTSIZE2
  {
    var eob := LastNew(p, zz, p.se);
    if eob == 0 then p.ss else eob + 1
  }

  /** The decoder gets behind the last new coefficient. */
  lemma HeadingDecodes(ts: seq<Table>, p: BandSpec, zz: Block, b: Block, st: Stream)
    requires ValidBand(p) && p.tbl < |ts| && ShortBlock(zz) && |b| == DCTSIZE2
    requires Coded(ts, Heading(p, zz))
    ensures DecodeBand(ts[p.tbl], p, Ahead(ts, Heading(p, zz), st), Mixed(p, zz, b, p.ss), p.ss)
         == DecodeBand(ts[p.tbl], p, st, Mixed(p, zz, b, Behind(p, zz)), Behind(p, zz))
  {
    hide Mag, Mixed, Ahead, DecodeBand, RefineLoop, Coded, InStep;
    var eob := LastNew(p, zz, p.se);
    if eob == 0 {
      QuietBehind(p, zz, eob);
      NoEmission(p, zz, eob, p.ss, 0, [], NOTHING);
      AheadConcat(ts, [], [], st);
    } else {
      FreshStep(p, zz, p.ss);
      BandInStep(ts, p, zz, b, p.ss, eob, p.ss, 0, [], st);
    }
  }

  /** What the encoding loop leaves pending. */
  lemma {:induction false} LoopLeaves(p: BandSpec, zz: Block, eob: nat, k: nat, r: nat, br: Bits)
    requires ValidBand(p) && |zz| == DCTSIZE2 && p.ss <= k && k <= eob + 1
    requires eob == LastNew(p, zz, p.se) && eob > 0
    requires k == eob + 1 ==> r == 0 && br == []
    ensures var l := RefineLoop(p, zz, eob, k, r, br, NOTHING);
      && l.r == Zeros(p, zz, eob + 1, p.se + 1) && l.br == Corrections(p, zz, eob + 1, p.se + 1) && l.pd == NOTHING
    decreases p.se + 1 - k, r
  {
    hide Mag, NewItems, BitItems, Flush;
    if k == eob + 1 {
      QuietBehind(p, zz, eob);
      NoEmission(p, zz, eob, k, 0, [], NOTHING);
      assert [] + Corrections(p, zz, k, p.se + 1) == Corrections(p, zz, k, p.se + 1);
    } else if Mag(p, zz, k) == 0 {
      LoopLeaves(p, zz, eob, k + 1, r + 1, br);
    } else if r > 15 {
      LoopLeaves(p, zz, eob, k, r - 16, []);
    } else if Mag(p, zz, k) > 1 {
      LoopLeaves(p, zz, eob, k + 1, r, br + [Mag(p, zz, k) % 2 == 1]);
    } else {
      LoopLeaves(p, zz, eob, k + 1, 0, []);
    }
  }

  /** Every position behind the last new coefficient adds a zero or a correction bit. */
  lemma {:induction false} TailCounts(p: BandSpec, zz: Block, q: nat, k: nat)
    requires |zz| == DCTSIZE2 && q <= k <= DCTSIZE2 && NoNew(p, zz, q, k)
    ensures Zeros(p, zz, q, k) + |Corrections(p, zz, q, k)| == k - q
    decreases k
  {
    hide Mag;
    if q < k {
      TailCounts(p, zz, q, k - 1);
    }
  }

  /** encode_mcu_AC_refine when nothing is pending. */
  lemma EncodeFresh(p: BandSpec, zz: Block)
    requires ValidBand(p) && |zz| == DCTSIZE2
    ensures var (items, pd) := EncodeRefine(p, zz, NOTHING);
      && items == Heading(p, zz)
      && pd == if Behind(p, zz) > p.se then NOTHING else Pending(1, Corrections(p, zz, Behind(p, zz), p.se + 1))
  {
    hide Mag, RefineLoop, Flush, Corrections, Zeros;
    var eob, q := LastNew(p, zz, p.se), Behind(p, zz);
    QuietBehind(p, zz, eob);
    var br := Corrections(p, zz, q, p.se + 1);
    if eob == 0 {
      NoEmission(p, zz, eob, p.ss, 0, [], NOTHING);
      assert [] + br == br;
    } else {
      LoopLeaves(p, zz, eob, p.ss, 0, []);
    }
    TailCounts(p, zz, q, p.se + 1);
    assert [] + br == br;
  }

  /** The correction bits of bands without new coefficients. */
  function AllCorrections(p: BandSpec, bs: seq<Block>): Bits
    requires Blocks(bs) && p.ss <= p.se < DCTSIZE2
  {
    if |bs| == 0 then [] else Corrections(p, bs[0], p.ss, p.se + 1) + AllCorrections(p, bs[1..])
  }

  /** A block without new coefficients only adds to what is pending. */
  lemma EncodeQuiet(p: BandSpec, zz: Block, pd: Pending)
    requires ValidBand(p) && |zz| == DCTSIZE2 && LastNew(p, zz, p.se) == 0
    ensures var pd1 := Pending(pd.run + 1, pd.be + Corrections(p, zz, p.ss, p.se + 1));
      EncodeRefine(p, zz, pd) ==
        if pd1.run == MAX_EOBRUN || |pd1.be| > MAX_CORR_BITS - DCTSIZE2 + 1 then (Flush(p.tbl, pd1), NOTHING)
        else ([], pd1)
  {
    hide Mag, RefineLoop, Flush, Corrections, Zeros, LastNew;
    QuietBehind(p, zz, 0);
    NoEmission(p, zz, 0, p.ss, 0, [], pd);
    TailCounts(p, zz, p.ss, p.se + 1);
    var br := Corrections(p, zz, p.ss, p.se + 1);
    assert [] + br == br;
    var f := Flush(p.tbl, Pending(pd.run + 1, pd.be + br));
    assert [] + f == f;
  }

  /** A block with new coefficients first emits what is pending. */
  lemma EncodeBusy(p: BandSpec, zz: Block, pd: Pending)
    requires ValidBand(p) && |zz| == DCTSIZE2 && LastNew(p, zz, p.se) > 0
    ensures var r := EncodeRefine(p, zz, NOTHING);
      EncodeRefine(p, zz, pd) == (Flush(p.tbl, pd) + r.0, r.1)
  {
    hide Mag, RefineLoop, Flush;
    var eob := LastNew(p, zz, p.se);
    LoopLeaves(p, zz, eob, p.ss, 0, []);
    FlushFirst(p, zz, eob, p.ss, 0, [], pd);
    var l := RefineLoop(p, zz, eob, p.ss, 0, [], NOTHING);
    var pd1 := Pending(l.pd.run + 1, l.pd.be + l.br);
    assert Flush(p.tbl, pd) + l.items + Flush(p.tbl, pd1) == Flush(p.tbl, pd) + (l.items + Flush(p.tbl, pd1));
  }

  lemma FlushIs(tbl: nat, pd: Pending)
    requires pd.run > 0
    ensures Flush(tbl, pd) == EobItems(tbl, pd.run) + BitItems(pd.be)
  {
    hide EobItems, BitItems;
  }

  /** A pending run is emitted once it ends, with the correction bits of all its blocks behind it. */
  lemma {:induction false} PendingRefine(p: BandSpec, bs: seq<Block>, pd: Pending) returns (m: nat)
    requires ValidBand(p) && Blocks(bs) && 0 < pd.run < MAX_EOBRUN
    ensures m <= |bs| && pd.run + m <= MAX_EOBRUN
    ensures forall i :: 0 <= i < m ==> LastNew(p, bs[i], p.se) == 0
    ensures SegmentRefine(p, bs, pd) == EobItems(p.tbl, pd.run + m) + BitItems(pd.be + AllCorrections(p, bs[..m]))
                                        + SegmentRefine(p, bs[m..], NOTHING)
    decreases |bs|
  {
    hide EobItems, BitItems, Corrections, LastNew, EncodeRefine;
    FlushIs(p.tbl, pd);
    if |bs| == 0 || LastNew(p, bs[0], p.se) > 0 {
      m := 0;
      RunEnds(p, bs, pd);
    } else {
      EncodeQuiet(p, bs[0], pd);
      var br := Corrections(p, bs[0], p.ss, p.se + 1);
      var pd1 := Pending(pd.run + 1, pd.be + br);
      FlushIs(p.tbl, pd1);
      if EncodeRefine(p, bs[0], pd).1 == NOTHING {
        m := 1;
        assert bs[..1][1..] == [] && bs[..1][0] == bs[0];
        assert br + [] == br;
      } else {
        m := PendingRefine(p, bs[1..], pd1);
        SegmentGoesOn(p, bs, pd, pd1);
        MoreCorrections(p, bs, pd.be, m);
        QuietFrom(p, bs, m);
        m := m + 1;
      }
    }
  }

  lemma RunEnds(p: BandSpec, bs: seq<Block>, pd: Pending)
    requires ValidBand(p) && Blocks(bs) && 0 < pd.run
    requires |bs| == 0 || LastNew(p, bs[0], p.se) > 0
    ensures bs[..0] == [] && bs[0..] == bs && pd.be + AllCorrections(p, []) == pd.be
    ensures SegmentRefine(p, bs, pd) == Flush(p.tbl, pd) + SegmentRefine(p, bs, NOTHING)
  {
    hide EncodeRefine, LastNew, Flush, Corrections;
    if |bs| == 0 {
      NoFlush(p.tbl, []);
    } else {
      EncodeBusy(p, bs[0], pd);
      var r := EncodeRefine(p, bs[0], NOTHING);
      AssocThree(Flush(p.tbl, pd), r.0, SegmentRefine(p, bs[1..], r.1));
    }
  }

  lemma AssocThree(a: seq<Item>, b: seq<Item>, c: seq<Item>)
    ensures a + b + c == a + (b + c)
  {
  }

  lemma QuietFrom(p: BandSpec, bs: seq<Block>, m: nat)
    requires Blocks(bs) && p.se < DCTSIZE2 && |bs| > 0 && m < |bs|
    requires LastNew(p, bs[0], p.se) == 0 && forall i :: 0 <= i < m ==> LastNew(p, bs[1..][i], p.se) == 0
    ensures forall i :: 0 <= i < m + 1 ==> LastNew(p, bs[i], p.se) == 0
    ensures bs[1..][m..] == bs[m + 1..]
  {
    hide LastNew;
    forall i | 0 <= i < m + 1
      ensures LastNew(p, bs[i], p.se) == 0
    {
      if i > 0 {
        assert bs[1..][i - 1] == bs[i];
      }
    }
  }

  lemma SegmentGoesOn(p: BandSpec, bs: seq<Block>, pd: Pending, pd1: Pending)
    requires ValidBand(p) && Blocks(bs) && |bs| > 0 && EncodeRefine(p, bs[0], pd) == ([], pd1)
    ensures SegmentRefine(p, bs, pd) == SegmentRefine(p, bs[1..], pd1)
  {
    hide EncodeRefine, Flush;
    NothingBefore(SegmentRefine(p, bs[1..], pd1));
  }

  lemma NothingBefore(s: seq<Item>)
    ensures [] + s == s
  {
  }

  lemma MoreCorrections(p: BandSpec, bs: seq<Block>, be: Bits, m: nat)
    requires ValidBand(p) && Blocks(bs) && m < |bs|
    ensures be + Corrections(p, bs[0], p.ss, p.se + 1) + AllCorrections(p, bs[1..][..m])
         == be + AllCorrections(p, bs[..m + 1])
  {
    hide Corrections;
    var t := bs[..m + 1];
    assert t[0] == bs[0] && t[1..] == bs[1..][..m];
    ConcatAssoc(be, Corrections(p, bs[0], p.ss, p.se + 1), AllCorrections(p, t[1..]));
  }

  /** While a run lasts, blocks only get their correction bits. */
  lemma {:induction false} CorrectRun(ts: seq<Table>, p: BandSpec, bs: seq<Block>, cs: seq<Block>, outs: seq<Block>,
                                      m: nat, st: Stream)
    requires RefineReady(ts, p, bs, cs, outs) && m <= |bs| && !st.starved
    requires forall i :: 0 <= i < m ==> LastNew(p, bs[i], p.se) == 0
    ensures var r := DecodeRefineAll(ts[p.tbl], p, st, 0, cs[m..]);
      DecodeRefineAll(ts[p.tbl], p, Prepend(AllCorrections(p, bs[..m]), st), m, cs)
      == (BandsSent(p, bs[..m], outs[..m]) + r.0, r.1, r.2)
    decreases m
  {
    hide DecodeBand, Mixed, BandSent, LastNew, Corrections, CorrectTail, Prepend, ShortBlock, DecodeRefineAll, DecodeRefine,
         AllCorrections, BandsSent, RefineReady;
    ReadySizes(ts, p, bs, cs, outs);
    if m == 0 {
      assert cs[0..] == cs && bs[..0] == [] && outs[..0] == [];
      NoBands(p, st);
      PrependConcat([], [], st);
      var r := DecodeRefineAll(ts[p.tbl], p, st, 0, cs);
      assert [] + r.0 == r.0;
    } else {
      var bs1, cs1, outs1 := bs[1..], cs[1..], outs[1..];
      ReadyTail(ts, p, bs, cs, outs);
      forall i | 0 <= i < m - 1
        ensures LastNew(p, bs1[i], p.se) == 0
      {
        assert bs1[i] == bs[i + 1];
      }
      CorrectRun(ts, p, bs1, cs1, outs1, m - 1, st);
      assert bs[..m][0] == bs[0] && bs[..m][1..] == bs1[..m - 1] && outs[..m][0] == outs[0] && outs[..m][1..] == outs1[..m - 1];
      assert cs1[m - 1..] == cs[m..];
      var more := AllCorrections(p, bs1[..m - 1]);
      SomeBlocks(bs, m);
      SomeBlocks(outs, m);
      ReadyFirst(ts, p, bs, cs, outs);
      PrependStarved(more, st);
      RunStep(ts[p.tbl], p, bs[0], cs, outs[0], m, Prepend(more, st));
      MoreOfRun(p, bs[..m]);
      PrependConcat(Corrections(p, bs[0], p.ss, p.se + 1), more, st);
      BandsSentStep(p, bs[..m], outs[..m]);
      var r := DecodeRefineAll(ts[p.tbl], p, st, 0, cs[m..]);
      assert [BandSent(p, bs[0], outs[0])] + (BandsSent(p, bs1[..m - 1], outs1[..m - 1]) + r.0)
          == BandsSent(p, bs[..m], outs[..m]) + r.0;
    }
  }

  lemma ReadySizes(ts: seq<Table>, p: BandSpec, bs: seq<Block>, cs: seq<Block>, outs: seq<Block>)
    requires RefineReady(ts, p, bs, cs, outs)
    ensures Blocks(bs) && Blocks(cs) && Blocks(outs) && |bs| == |cs| == |outs| && p.tbl < |ts|
    ensures ValidBand(p) && p.ss <= p.se < DCTSIZE2
  {
    hide ShortBlock, Mixed;
  }

  lemma ReadyFirst(ts: seq<Table>, p: BandSpec, bs: seq<Block>, cs: seq<Block>, outs: seq<Block>)
    requires RefineReady(ts, p, bs, cs, outs) && |bs| > 0
    ensures ShortBlock(bs[0]) && |bs[0]| == |outs[0]| == DCTSIZE2 && cs[0] == Mixed(p, bs[0], outs[0], p.ss)
  {
    hide ShortBlock, Mixed;
  }

  lemma SomeBlocks(bs: seq<Block>, m: nat)
    requires Blocks(bs) && m <= |bs|
    ensures Blocks(bs[..m]) && Blocks(bs[m..]) && (|bs| > 0 ==> Blocks(bs[1..]))
  {
  }

  lemma NoBands(p: BandSpec, st: Stream)
    requires p.ss <= p.se < DCTSIZE2
    ensures Blocks([]) && BandsSent(p, [], []) == [] && AllCorrections(p, []) == []
  {
  }

  lemma MoreOfRun(p: BandSpec, bs: seq<Block>)
    requires Blocks(bs) && |bs| > 0 && p.ss <= p.se < DCTSIZE2
    ensures Blocks(bs[1..]) && |bs[0]| == DCTSIZE2
    ensures AllCorrections(p, bs) == Corrections(p, bs[0], p.ss, p.se + 1) + AllCorrections(p, bs[1..])
  {
    hide Corrections;
  }

  /** The first block of a run that is under way. */
  lemma RunStep(t: Table, p: BandSpec, zz: Block, cs: seq<Block>, out: Block, m: nat, st: Stream)
    requires ValidBand(p) && ShortBlock(zz) && |out| == DCTSIZE2 && Blocks(cs) && |cs| > 0 && cs[0] == Mixed(p, zz, out, p.ss)
    requires LastNew(p, zz, p.se) == 0 && m > 0 && !st.starved
    ensures Blocks(cs[1..])
    ensures var st0, r := Prepend(Corrections(p, zz, p.ss, p.se + 1), st), DecodeRefineAll(t, p, st, m - 1, cs[1..]);
      DecodeRefineAll(t, p, st0, m, cs) == ([BandSent(p, zz, out)] + r.0, r.1, r.2)
  {
    assert |zz| == DCTSIZE2;
    hide DecodeBand, Mixed, BandSent, LastNew, Corrections, CorrectTail, Prepend, ShortBlock;
    QuietBand(p, zz, out, st);
    PrependStarved(Corrections(p, zz, p.ss, p.se + 1), st);
  }

  lemma PrependStarved(b: Bits, st: Stream)
    ensures Prepend(b, st).starved == st.starved
  {
  }

  lemma ReadyTail(ts: seq<Table>, p: BandSpec, bs: seq<Block>, cs: seq<Block>, outs: seq<Block>)
    requires RefineReady(ts, p, bs, cs, outs) && |bs| > 0
    ensures RefineReady(ts, p, bs[1..], cs[1..], outs[1..])
  {
    hide ShortBlock, Mixed;
  }

  /** A whole band without new coefficients. */
  lemma QuietBand(p: BandSpec, zz: Block, b: Block, st: Stream)
    requires ValidBand(p) && ShortBlock(zz) && |b| == DCTSIZE2 && LastNew(p, zz, p.se) == 0
    ensures CorrectTail(p, Prepend(Corrections(p, zz, p.ss, p.se + 1), st), Mixed(p, zz, b, p.ss), p.ss)
         == (BandSent(p, zz, b), st)
  {
    hide Mag, Corrections, CorrectTail, Prepend;
    QuietBehind(p, zz, 0);
    TailRegion(p, zz, b, p.ss, st);
    MixedDone(p, zz, b);
  }

  lemma MixedDone(p: BandSpec, zz: Block, b: Block)
    requires |zz| == |b| == DCTSIZE2
    ensures Mixed(p, zz, b, p.se + 1) == BandSent(p, zz, b)
  {
    hide AcSent;
  }

  /** Behind its last new coefficient the first block ends with a run symbol that covers m more blocks. */
  lemma RunBlockRefine(ts: seq<Table>, p: BandSpec, zz: Block, b: Block, m: nat, be: Bits, st: Stream)
    requires ValidBand(p) && p.tbl < |ts| && ShortBlock(zz) && |b| == DCTSIZE2
    requires Behind(p, zz) <= p.se && 1 + m <= MAX_EOBRUN && be == Corrections(p, zz, Behind(p, zz), p.se + 1)
    requires Coded(ts, Heading(p, zz)) && Coded(ts, EobItems(p.tbl, 1 + m))
    ensures DecodeBand(ts[p.tbl], p, Ahead(ts, Heading(p, zz), Ahead(ts, EobItems(p.tbl, 1 + m), Prepend(be, st))),
                       Mixed(p, zz, b, p.ss), p.ss)
         == (BandSent(p, zz, b), st, m)
  {
    hide Mag, Corrections, Mixed, Ahead, Prepend, DecodeBand, Heading, Coded, EobItems, BandSent;
    var q, st1 := Behind(p, zz), Prepend(be, st);
    HeadingDecodes(ts, p, zz, b, Ahead(ts, EobItems(p.tbl, 1 + m), st1));
    EobRefine(ts, p, 1 + m, st1, Mixed(p, zz, b, q), q);
    QuietBehind(p, zz, LastNew(p, zz, p.se));
    TailRegion(p, zz, b, q, st);
    MixedDone(p, zz, b);
  }

  /** An EOBn symbol: the rest of the band is corrected and the run continues. */
  lemma EobRefine(ts: seq<Table>, p: BandSpec, run: nat, st: Stream, c: Block, k: nat)
    requires ValidBand(p) && p.tbl < |ts| && 0 < run <= MAX_EOBRUN && Coded(ts, EobItems(p.tbl, run)) && |c| == DCTSIZE2
    requires k <= p.se
    ensures var (c1, st1) := CorrectTail(p, st, c, k);
      DecodeBand(ts[p.tbl], p, Ahead(ts, EobItems(p.tbl, run), st), c, k) == (c1, st1, run - 1)
  {
    hide Decode, Ahead, Coded, EobItems, CorrectTail, DecodeAc;
    EobRoundTrip(ts, p.tbl, run, st, k, p.se);
    EobSymbol(ts, p.tbl, run, st, k, p.se);
  }

  /** The symbol behind an EOBn item. */
  lemma EobSymbol(ts: seq<Table>, tbl: nat, run: nat, st: Stream, k: nat, se: nat)
    requires tbl < |ts| && 0 < run <= MAX_EOBRUN && Coded(ts, EobItems(tbl, run)) && k <= se < DCTSIZE2
    ensures var (rs, st1) := Decode(ts[tbl], Ahead(ts, EobItems(tbl, run), st));
      var d := DecodeAc(ts[tbl], Ahead(ts, EobItems(tbl, run), st), k, se);
      rs % 16 == 0 && rs / 16 < 15 && d.eob == rs / 16 && d.st == st1
  {
    hide Decode, Codeword, ToBits, Ahead;
    var n := NBits(run) - 1;
    CodedHead(ts, EobItems(tbl, run));
    EobCategory(run);
    if n == 0 {
      DecodeSym(ts, tbl, 0, st);
    } else {
      var sym, raw := [Sym(tbl, n * 16)], [Raw(ToBits(run, n))];
      assert EobItems(tbl, run) == sym + raw;
      AheadConcat(ts, sym, raw, st);
      DecodeSym(ts, tbl, n * 16, Ahead(ts, raw, st));
    }
  }

  /** Decoding what encode_mcu_AC_refine and emit_eobrun wrote for a segment takes its bands from bit al + 1 to bit al. */
  lemma {:induction false} RefineRoundTrip(ts: seq<Table>, p: BandSpec, bs: seq<Block>, cs: seq<Block>, outs: seq<Block>,
                                           st: Stream)
    requires RefineReady(ts, p, bs, cs, outs) && !st.starved
    requires Coded(ts, SegmentRefine(p, bs, NOTHING))
    ensures DecodeRefineAll(ts[p.tbl], p, Ahead(ts, SegmentRefine(p, bs, NOTHING), st), 0, cs)
         == (BandsSent(p, bs, outs), st, 0)
    decreases |bs|, 1
  {
    hide Ahead, Coded, Mixed, BandSent, ShortBlock, EncodeRefine, DecodeRefine, Behind;
    if |bs| == 0 {
      NoFlush(p.tbl, []);
      AheadConcat(ts, [], [], st);
    } else if Behind(p, bs[0]) > p.se {
      FullRefine(ts, p, bs, cs, outs, st);
    } else {
      RunRefine(ts, p, bs, cs, outs, st);
    }
  }

  /** The band of the first block ends with a new coefficient. */
  lemma FullRefine(ts: seq<Table>, p: BandSpec, bs: seq<Block>, cs: seq<Block>, outs: seq<Block>, st: Stream)
    requires RefineReady(ts, p, bs, cs, outs) && !st.starved && |bs| > 0
    requires Coded(ts, SegmentRefine(p, bs, NOTHING)) && Behind(p, bs[0]) > p.se
    ensures DecodeRefineAll(ts[p.tbl], p, Ahead(ts, SegmentRefine(p, bs, NOTHING), st), 0, cs)
         == (BandsSent(p, bs, outs), st, 0)
    decreases |bs|, 0
  {
    hide Ahead, Coded, Mixed, BandSent, ShortBlock, EncodeRefine, Behind, Heading, Decode, BandsSent, SkipZeros, LastNew;
    EncodeFresh(p, bs[0]);
    ReadyTail(ts, p, bs, cs, outs);
    var head, more := Heading(p, bs[0]), SegmentRefine(p, bs[1..], NOTHING);
    CodedConcat(ts, head, more);
    AheadConcat(ts, head, more, st);
    var st1 := Ahead(ts, more, st);
    assert !st1.starved && !Ahead(ts, head, st1).starved;
    HeadingDecodes(ts, p, bs[0], outs[0], st1);
    BehindEnd(p, bs[0]);
    MixedDone(p, bs[0], outs[0]);
    RefineRoundTrip(ts, p, bs[1..], cs[1..], outs[1..], st);
    BandsSentStep(p, bs, outs);
  }

  lemma BehindEnd(p: BandSpec, zz: Block)
    requires ValidBand(p) && |zz| == DCTSIZE2
    ensures p.ss <= Behind(p, zz) <= p.se + 1
  {
    hide Mag;
  }

  /** Behind the last new coefficient of the first block a run starts. */
  lemma RunRefine(ts: seq<Table>, p: BandSpec, bs: seq<Block>, cs: seq<Block>, outs: seq<Block>, st: Stream)
    requires RefineReady(ts, p, bs, cs, outs) && !st.starved && |bs| > 0
    requires Coded(ts, SegmentRefine(p, bs, NOTHING)) && Behind(p, bs[0]) <= p.se
    ensures DecodeRefineAll(ts[p.tbl], p, Ahead(ts, SegmentRefine(p, bs, NOTHING), st), 0, cs)
         == (BandsSent(p, bs, outs), st, 0)
    decreases |bs|, 0
  {
    hide Ahead, Coded, Mixed, BandSent, ShortBlock, EncodeRefine, Behind, Heading, DecodeBand, BandsSent, LastNew,
         Corrections, EobItems, BitItems, AllCorrections, SegmentRefine, CorrectTail;
    var bs1, cs1, outs1 := bs[1..], cs[1..], outs[1..];
    ReadyTail(ts, p, bs, cs, outs);
    var head, be := Heading(p, bs[0]), Corrections(p, bs[0], Behind(p, bs[0]), p.se + 1);
    var m := SegmentRunRefine(p, bs);
    var eob, bits, more := EobItems(p.tbl, 1 + m), be + AllCorrections(p, bs1[..m]), SegmentRefine(p, bs1[m..], NOTHING);
    ReadyDrop(ts, p, bs1, cs1, outs1, m);
    var st1 := Ahead(ts, more, st);
    RunStream(ts, head, eob, bits, more, st);
    PrependConcat(be, AllCorrections(p, bs1[..m]), st1);
    var st2 := Prepend(AllCorrections(p, bs1[..m]), st1);
    RunBlockRefine(ts, p, bs[0], outs[0], m, be, st2);
    CorrectRun(ts, p, bs1, cs1, outs1, m, st1);
    RefineRoundTrip(ts, p, bs1[m..], cs1[m..], outs1[m..], st);
    BandsSentSplit(p, bs, outs, m);
  }

  /** A segment whose first block starts a run. */
  lemma SegmentRunRefine(p: BandSpec, bs: seq<Block>) returns (m: nat)
    requires ValidBand(p) && Blocks(bs) && |bs| > 0 && Behind(p, bs[0]) <= p.se
    ensures m <= |bs| - 1 && 1 + m <= MAX_EOBRUN
    ensures forall i :: 0 <= i < m ==> LastNew(p, bs[1..][i], p.se) == 0
    ensures SegmentRefine(p, bs, NOTHING) == Heading(p, bs[0]) + (EobItems(p.tbl, 1 + m)
        + BitItems(Corrections(p, bs[0], Behind(p, bs[0]), p.se + 1) + AllCorrections(p, bs[1..][..m]))
        + SegmentRefine(p, bs[1..][m..], NOTHING))
  {
    hide EncodeRefine, Heading, Behind, LastNew, EobItems, BitItems, Corrections, AllCorrections;
    EncodeFresh(p, bs[0]);
    m := PendingRefine(p, bs[1..], Pending(1, Corrections(p, bs[0], Behind(p, bs[0]), p.se + 1)));
  }

  lemma ReadyDrop(ts: seq<Table>, p: BandSpec, bs: seq<Block>, cs: seq<Block>, outs: seq<Block>, m: nat)
    requires RefineReady(ts, p, bs, cs, outs) && m <= |bs|
    ensures RefineReady(ts, p, bs[m..], cs[m..], outs[m..])
  {
    hide ShortBlock, Mixed;
  }

  /** The stream at the start of such a segment. */
  lemma RunStream(ts: seq<Table>, head: seq<Item>, eob: seq<Item>, bits: Bits, more: seq<Item>, st: Stream)
    requires Coded(ts, head + (eob + BitItems(bits) + more))
    ensures Coded(ts, head) && Coded(ts, eob) && Coded(ts, more)
    ensures Ahead(ts, head + (eob + BitItems(bits) + more), st)
         == Ahead(ts, head, Ahead(ts, eob, Prepend(bits, Ahead(ts, more, st))))
  {
    hide Ahead, Coded, BitItems;
    CodedConcat(ts, head, eob + BitItems(bits) + more);
    CodedConcat(ts, eob + BitItems(bits), more);
    CodedConcat(ts, eob, BitItems(bits));
    AheadConcat(ts, head, eob + BitItems(bits) + more, st);
    AheadConcat(ts, eob + BitItems(bits), more, st);
    AheadConcat(ts, eob, BitItems(bits), Ahead(ts, more, st));
    BitItemsBits(ts, bits, Ahead(ts, more, st));
  }

  lemma BandsSentSplit(p: BandSpec, bs: seq<Block>, outs: seq<Block>, m: nat)
    requires Blocks(bs) && Blocks(outs) && |bs| == |outs| && m < |bs|
    ensures [BandSent(p, bs[0], outs[0])]
          + (BandsSent(p, bs[1..][..m], outs[1..][..m]) + BandsSent(p, bs[1..][m..], outs[1..][m..]))
         == BandsSent(p, bs, outs)
  {
    hide BandSent;
  }
}
