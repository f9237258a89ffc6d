/** First scans of AC bands in progressive mode: end-of-band runs that span blocks
    (encode_mcu_AC_first and decode_mcu_AC_first; section G.1.2.2 of ITU-T T.81). */
module AcFirstCoding {
  import opened BitSeq
  import opened BitStream
  import opened HuffTable
  import opened Symbols
  import opened Coefficients
  import opened BlockCoding

  const MAX_EOBRUN: nat := 0x7FFF

  type Block = seq<int>

  /** The scan parameters of an AC band. */
  datatype BandSpec = BandSpec(tbl: nat, ss: nat, se: nat, al: nat)

  ghost predicate ValidBand(p: BandSpec) {
    1 <= p.ss <= p.se < DCTSIZE2 && p.al <= 13
  }

  ghost predicate Blocks(bs: seq<Block>) {
    forall i :: 0 <= i < |bs| ==> |bs[i]| == DCTSIZE2
  }

  /** emit_eobrun: the EOBn symbol and the low bits of the run length. */
  function EobItems(tbl: nat, run: nat): seq<Item> {
    if run == 0 then [] else
      var n := NBits(run) - 1;
      if n == 0 then [Sym(tbl, 0)] else [Sym(tbl, n * 16), Raw(ToBits(run, n))]
  }

  /** The point transform of a whole block. */
  function Shifted(zz: Block, al: nat): (r: Block)
    ensures |r| == |zz| && forall k :: 0 <= k < |zz| ==> r[k] == TowardZero(zz[k], al)
  {
    seq(|zz|, k requires 0 <= k < |zz| => TowardZero(zz[k], al))
  }

  /** encode_mcu_AC_first: the items emitted for a block and the pending run behind it. */
  function EncodeFirst(p: BandSpec, zz: Block, run: nat): (r: (seq<Item>, nat))
    requires |zz| == DCTSIZE2 && p.se < DCTSIZE2
    ensures run < MAX_EOBRUN ==> r.1 < MAX_EOBRUN
  {
    var band := Shifted(zz, p.al);
    var coefs := AcItems(p.tbl, band, p.ss, p.se, 0);
    var (before, run1) := if coefs == [] then ([], run) else (EobItems(p.tbl, run), 0);
    if TrailingZeros(band, p.ss, p.se, 0) == 0 then (before + coefs, run1)
    else if run1 + 1 == MAX_EOBRUN then (before + coefs + EobItems(p.tbl, MAX_EOBRUN), 0)
    else (before + coefs, run1 + 1)
  }

  /** All items of a segment from here to its end, run blocks being pending. */
  function SegmentFirst(p: BandSpec, bs: seq<Block>, run: nat): seq<Item>
    requires Blocks(bs) && p.se < DCTSIZE2
  {
    if |bs| == 0 then EobItems(p.tbl, run)
    else
      var (items, run1) := EncodeFirst(p, bs[0], run);
      items + SegmentFirst(p, bs[1..], run1)
  }

  /** Storing decoded values, scaled; positions past the block go to its last coefficient. */
  function Store(b: Block, ws: seq<Write>, al: nat): (r: Block)
    requires |b| == DCTSIZE2
    ensures |r| == DCTSIZE2
    decreases |ws|
  {
    if |ws| == 0 then b
    else
      var k := if ws[0].pos < DCTSIZE2 then ws[0].pos else DCTSIZE2 - 1;
      Store(b[k := ToShort(ws[0].value * Pow2(al))], ws[1..], al)
  }

  /** decode_mcu_AC_first on the stream st with run blocks of zeros still to come. */
  function DecodeFirst(t: Table, p: BandSpec, st: Stream, run: nat, b: Block): (r: (Block, Stream, nat))
    requires |b| == DCTSIZE2 && p.se < DCTSIZE2
    ensures |r.0| == DCTSIZE2
    ensures r.1.marker == st.marker && r.1.next == st.next
  {
    if st.starved then (b, st, run)
    else if run > 0 then (b, st, run - 1)
    else
      var d := DecodeAc(t, st, p.ss, p.se);
      var (st1, run1) := RunLength(d.st, d.eob);
      (Store(b, d.writes, p.al), st1, run1)
  }

  /** The run that an EOBn symbol leaves behind the current block. */
  function RunLength(st: Stream, eob: int): (r: (Stream, nat))
    requires -1 <= eob
    ensures r.0.marker == st.marker && r.0.next == st.next
  {
    if eob < 0 then (st, 0)
    else if eob == 0 then (st, 0)
    else
      var (v, st1) := Take(st, eob);
      (st1, Pow2(eob) + v - 1)
  }

  /** Decoding one block after the other. */
  function DecodeFirstAll(t: Table, p: BandSpec, st: Stream, run: nat, bs: seq<Block>): (r: (seq<Block>, Stream, nat))
    requires Blocks(bs) && p.se < DCTSIZE2
    ensures |r.0| == |bs| && Blocks(r.0)
    decreases |bs|
  {
    if |bs| == 0 then ([], st, run)
    else
      var (b, st1, run1) := DecodeFirst(t, p, st, run, bs[0]);
      var (rest, st2, run2) := DecodeFirstAll(t, p, st1, run1, bs[1..]);
      ([b] + rest, st2, run2)
  }

  /** What a block holds after the scan: the band of zz down to bit al, the rest of b. */
  function BandSent(p: BandSpec, zz: Block, b: Block): (r: Block)
    requires |zz| == |b| == DCTSIZE2
    ensures |r| == DCTSIZE2
  {
    seq(DCTSIZE2, k requires 0 <= k < DCTSIZE2 => if p.ss <= k <= p.se then AcSent(zz[k], p.al) else b[k])
  }

  ghost predicate BandZero(p: BandSpec, b: Block)
    requires |b| == DCTSIZE2 && p.se < DCTSIZE2
  {
    forall k :: p.ss <= k <= p.se ==> b[k] == 0
  }

  /** The band codes to nothing exactly if it is zero. */
  lemma {:induction false} NoItems(tbl: nat, band: Block, k: nat, se: nat, r: nat)
    requires se < |band|
    ensures AcItems(tbl, band, k, se, r) == [] <==> forall i :: k <= i <= se ==> band[i] == 0
    ensures AcItems(tbl, band, k, se, r) == [] ==> TrailingZeros(band, k, se, r) == r + if k > se then 0 else se + 1 - k
    ensures AcItems(tbl, band, k, se, r) == [] ==> NonzeroWrites(band, k, se) == []
    decreases se + 1 - k
  {
    hide CoefItems;
    if k <= se {
      NoItems(tbl, band, k + 1, se, if band[k] == 0 then r + 1 else 0);
      assert |CoefItems(tbl, r, band[k])| > 0 by { CoefItemsNonempty(tbl, r, band[k]); }
    }
  }

  lemma CoefItemsNonempty(tbl: nat, r: nat, v: int)
    ensures |CoefItems(tbl, r, v)| > 0
  {
  }

  lemma DecodeAcEob(t: Table, st0: Stream, st1: Stream, k: nat, se: nat, n: nat)
    requires k <= se < DCTSIZE2 && n < 15 && Decode(t, st0) == (n * 16, st1)
    ensures DecodeAc(t, st0, k, se) == Band([], st1, n)
  {
    hide Decode, Take;
  }

  /** An EOBn symbol and its bits give back the run length. */
  lemma EobRoundTrip(ts: seq<Table>, tbl: nat, run: nat, st: Stream, k: nat, se: nat)
    requires 0 < run <= MAX_EOBRUN && Coded(ts, EobItems(tbl, run)) && k <= se < DCTSIZE2
    ensures tbl < |ts|
    ensures var d := DecodeAc(ts[tbl], Ahead(ts, EobItems(tbl, run), st), k, se);
      d.writes == [] && d.eob >= 0 && RunLength(d.st, d.eob) == (st, run - 1)
  {
    hide Decode, Take, Codeword, ToBits, Val, Ahead, DecodeAc;
    var n := NBits(run) - 1;
    assert ItemCoded(ts, EobItems(tbl, run)[0]);
    assert n < 15 by { EobCategory(run); }
    if n == 0 {
      DecodeSym(ts, tbl, 0, st);
      DecodeAcEob(ts[tbl], Ahead(ts, [Sym(tbl, 0)], st), st, k, se, 0);
      assert run == 1 by { assert Pow2(1) == 2; }
    } else {
      var sym, raw := Sym(tbl, n * 16), Raw(ToBits(run, n));
      assert EobItems(tbl, run) == [sym] + [raw];
      AheadConcat(ts, [sym], [raw], st);
      var st1 := Ahead(ts, [raw], st);
      DecodeSym(ts, tbl, n * 16, st1);
      DecodeAcEob(ts[tbl], Ahead(ts, [sym], st1), st1, k, se, n);
      TakeRaw(ts, ToBits(run, n), st);
      LowBits(run, n);
    }
  }

  /** Runs up to 0x7FFF have at most 14 appended bits, so that no EOBn symbol is a ZRL. */
  lemma EobCategory(run: nat)
    requires 0 < run <= MAX_EOBRUN
    ensures 1 <= NBits(run) <= 15
  {
    if NBits(run) > 15 {
      Pow2Mono(15, NBits(run) - 1);
      Pow2Small();
      assert false;
    }
  }

  lemma LowBits(run: nat, n: nat)
    requires Pow2(n) <= run < Pow2(n + 1)
    ensures Pow2(n) + Val(ToBits(run, n)) == run
  {
    ValToBits(run, n);
    DivModUnique(run, 1, Pow2(n), run - Pow2(n));
  }

  /** A pending run is emitted once the run ends: the m next blocks still belong to it. */
  lemma {:induction false} PendingRun(p: BandSpec, bs: seq<Block>, run: nat) returns (m: nat)
    requires ValidBand(p) && Blocks(bs) && 0 < run < MAX_EOBRUN
    ensures m <= |bs| && run + m <= MAX_EOBRUN
    ensures forall i :: 0 <= i < m ==> BandZero(p, Shifted(bs[i], p.al))
    ensures SegmentFirst(p, bs, run) == EobItems(p.tbl, run + m) + SegmentFirst(p, bs[m..], 0)
    decreases |bs|
  {
    hide EobItems, AcItems, TrailingZeros, BandZero;
    if |bs| == 0 {
      m := 0;
      assert EobItems(p.tbl, 0) == [] by { NoEob(p.tbl); }
    } else {
      var band := Shifted(bs[0], p.al);
      NoItems(p.tbl, band, p.ss, p.se, 0);
      if AcItems(p.tbl, band, p.ss, p.se, 0) != [] {
        m := 0;
        assert bs[0..] == bs;
        RunBeforeCoefs(p, bs, run);
      } else if run + 1 == MAX_EOBRUN {
        m := 1;
        ZeroBand(p, band);
      } else {
        m := PendingRun(p, bs[1..], run + 1);
        assert bs[1..][m..] == bs[m + 1..];
        ZeroBand(p, band);
        assert SegmentFirst(p, bs, run) == [] + [] + SegmentFirst(p, bs[1..], run + 1);
        assert forall i :: 1 <= i < m + 1 ==> bs[i] == bs[1..][i - 1];
        m := m + 1;
      }
    }
  }

  lemma NoEob(tbl: nat)
    ensures EobItems(tbl, 0) == []
  {
  }

  lemma ZeroBand(p: BandSpec, band: Block)
    requires ValidBand(p) && |band| == DCTSIZE2 && forall i :: p.ss <= i <= p.se ==> band[i] == 0
    ensures BandZero(p, band)
  {
  }

  lemma RunBeforeBlock(p: BandSpec, zz: Block, run: nat)
    requires ValidBand(p) && |zz| == DCTSIZE2
    requires AcItems(p.tbl, Shifted(zz, p.al), p.ss, p.se, 0) != []
    ensures var r := EncodeFirst(p, zz, 0);
      EncodeFirst(p, zz, run) == (EobItems(p.tbl, run) + r.0, r.1)
  {
    hide EobItems, AcItems, TrailingZeros;
    NoEob(p.tbl);
    var coefs, eob := AcItems(p.tbl, Shifted(zz, p.al), p.ss, p.se, 0), EobItems(p.tbl, run);
    assert [] + coefs == coefs;
    assert eob + (coefs + EobItems(p.tbl, MAX_EOBRUN)) == eob + coefs + EobItems(p.tbl, MAX_EOBRUN);
  }

  /** A run pending before a block with coefficients is emitted in front of them. */
  lemma RunBeforeCoefs(p: BandSpec, bs: seq<Block>, run: nat)
    requires ValidBand(p) && Blocks(bs) && |bs| > 0
    requires AcItems(p.tbl, Shifted(bs[0], p.al), p.ss, p.se, 0) != []
    ensures SegmentFirst(p, bs, run) == EobItems(p.tbl, run) + SegmentFirst(p, bs, 0)
  {
    hide EncodeFirst, AcItems, Shifted, EobItems;
    RunBeforeBlock(p, bs[0], run);
    var (items, run1) := EncodeFirst(p, bs[0], 0);
    var eob, more := EobItems(p.tbl, run), SegmentFirst(p, bs[1..], run1);
    assert eob + items + more == eob + (items + more);
  }

  /** Every coefficient is a JCOEF, and the transformed band passes the encoder's range check. */
  ghost predicate Encodable(p: BandSpec, zz: Block)
    requires |zz| == DCTSIZE2 && p.se < DCTSIZE2
  {
    && (forall k :: 0 <= k < DCTSIZE2 ==> -32768 <= zz[k] < 32768)
    && BandInRange(Shifted(zz, p.al), p.ss, p.se)
  }

  /** Storing the nonzero coefficients of a band into a block whose band is zero. */
  lemma {:induction false} StoreNonzero(p: BandSpec, zz: Block, b: Block, k: nat)
    requires ValidBand(p) && |zz| == |b| == DCTSIZE2 && p.ss <= k <= p.se + 1
    requires forall i :: 0 <= i < DCTSIZE2 ==> -32768 <= zz[i] < 32768
    requires forall i :: k <= i <= p.se ==> b[i] == 0
    ensures var r := Store(b, NonzeroWrites(Shifted(zz, p.al), k, p.se), p.al);
      forall i :: 0 <= i < DCTSIZE2 ==> r[i] == if k <= i <= p.se then AcSent(zz[i], p.al) else b[i]
    decreases p.se + 1 - k
  {
    hide TowardZero, AcSent;
    if k <= p.se {
      var band := Shifted(zz, p.al);
      SentScaled(zz[k], p.al);
      if band[k] == 0 {
        StoreNonzero(p, zz, b, k + 1);
      } else {
        var b1 := b[k := ToShort(band[k] * Pow2(p.al))];
        var ws := NonzeroWrites(band, k, p.se);
        assert ws[0] == Write(k, band[k]) && ws[1..] == NonzeroWrites(band, k + 1, p.se);
        StoreNonzero(p, zz, b1, k + 1);
      }
    }
  }

  lemma SentScaled(v: int, al: nat)
    requires -32768 <= v < 32768
    ensures ToShort(TowardZero(v, al) * Pow2(al)) == AcSent(v, al)
    ensures TowardZero(v, al) == 0 <==> AcSent(v, al) == 0
  {
    AcSentInRange(v, al);
  }

  /** While a run lasts, blocks are left as they are. */
  lemma {:induction false} SkipRun(t: Table, p: BandSpec, st: Stream, m: nat, bs: seq<Block>)
    requires ValidBand(p) && Blocks(bs) && m <= |bs| && !st.starved
    ensures var r := DecodeFirstAll(t, p, st, 0, bs[m..]);
      DecodeFirstAll(t, p, st, m, bs) == (bs[..m] + r.0, r.1, r.2)
    decreases m
  {
    hide DecodeAc, RunLength, Store;
    if m == 0 {
      assert bs[0..] == bs && bs[..0] == [];
      var r := DecodeFirstAll(t, p, st, 0, bs);
      assert [] + r.0 == r.0;
    } else {
      SkipRun(t, p, st, m - 1, bs[1..]);
      assert bs[1..][m - 1..] == bs[m..];
      var r := DecodeFirstAll(t, p, st, 0, bs[m..]);
      assert [bs[0]] + (bs[1..][..m - 1] + r.0) == bs[..m] + r.0;
    }
  }

  /** The blocks after the scan. */
  function BandsSent(p: BandSpec, bs: seq<Block>, outs: seq<Block>): (r: seq<Block>)
    requires Blocks(bs) && Blocks(outs) && |bs| == |outs|
    ensures |r| == |bs| && Blocks(r)
  {
    seq(|bs|, i requires 0 <= i < |bs| => BandSent(p, bs[i], outs[i]))
  }

  ghost predicate SegmentReady(ts: seq<Table>, p: BandSpec, bs: seq<Block>, outs: seq<Block>) {
    && ValidBand(p) && p.tbl < |ts| && Blocks(bs) && Blocks(outs) && |bs| == |outs|
    && forall i :: 0 <= i < |bs| ==> Encodable(p, bs[i]) && BandZero(p, outs[i])
  }

  /** A block whose transformed band is zero is already what the scan makes of it. */
  lemma ZeroBandSent(p: BandSpec, zz: Block, b: Block)
    requires ValidBand(p) && |zz| == |b| == DCTSIZE2
    requires BandZero(p, Shifted(zz, p.al)) && BandZero(p, b)
    ensures BandSent(p, zz, b) == b
  {
    forall k | p.ss <= k <= p.se
      ensures AcSent(zz[k], p.al) == 0
    {
      assert Shifted(zz, p.al)[k] == 0;
      AcSentInRange(zz[k], p.al);
    }
  }

  /** The first block of a segment: its coefficients, and then whatever its end-of-band symbol says. */
  lemma FirstBlock(ts: seq<Table>, p: BandSpec, zz: Block, b: Block, st: Stream)
    requires ValidBand(p) && p.tbl < |ts| && |zz| == |b| == DCTSIZE2 && Encodable(p, zz) && BandZero(p, b)
    requires !st.starved
    requires Coded(ts, AcItems(p.tbl, Shifted(zz, p.al), p.ss, p.se, 0))
    ensures var band := Shifted(zz, p.al);
      var d := DecodeAc(ts[p.tbl], st, p.se + 1 - TrailingZeros(band, p.ss, p.se, 0), p.se);
      d.writes == [] ==>
        DecodeFirst(ts[p.tbl], p, Ahead(ts, AcItems(p.tbl, band, p.ss, p.se, 0), st), 0, b)
        == (BandSent(p, zz, b), RunLength(d.st, d.eob).0, RunLength(d.st, d.eob).1)
  {
    hide AcItems, DecodeAc, RunLength, Ahead, Coded, NonzeroWrites, AcSent;
    var band := Shifted(zz, p.al);
    AcRoundTrip(ts, p.tbl, band, p.ss, p.se, 0, st);
    StoreNonzero(p, zz, b, p.ss);
    var ws := NonzeroWrites(band, p.ss, p.se);
    assert ws + [] == ws;
    assert Store(b, ws, p.al) == BandSent(p, zz, b);
  }

  /** Decoding what encode_mcu_AC_first and emit_eobrun wrote for a segment returns its bands down to bit al. */
  lemma {:induction false} FirstRoundTrip(ts: seq<Table>, p: BandSpec, bs: seq<Block>, outs: seq<Block>, st: Stream)
    requires SegmentReady(ts, p, bs, outs) && !st.starved
    requires Coded(ts, SegmentFirst(p, bs, 0))
    ensures DecodeFirstAll(ts[p.tbl], p, Ahead(ts, SegmentFirst(p, bs, 0), st), 0, outs) == (BandsSent(p, bs, outs), st, 0)
    decreases |bs|
  {
    hide AcItems, DecodeAc, RunLength, Ahead, Coded, NonzeroWrites, EobItems, BandZero, Encodable, BandSent, TrailingZeros,
         DecodeFirst;
    if |bs| == 0 {
      NoEob(p.tbl);
      AheadConcat(ts, [], [], st);
    } else if TrailingZeros(Shifted(bs[0], p.al), p.ss, p.se, 0) == 0 {
      FullBlockFirst(ts, p, bs, outs, st);
    } else {
      RunBlockFirst(ts, p, bs, outs, st);
    }
  }

  /** A segment starts with the coefficients of its first block; zeros at its end leave a run of one. */
  lemma SegmentStep(p: BandSpec, bs: seq<Block>)
    requires ValidBand(p) && Blocks(bs) && |bs| > 0
    ensures var band := Shifted(bs[0], p.al);
      SegmentFirst(p, bs, 0) == AcItems(p.tbl, band, p.ss, p.se, 0)
        + SegmentFirst(p, bs[1..], if TrailingZeros(band, p.ss, p.se, 0) == 0 then 0 else 1)
  {
    hide AcItems, EobItems, TrailingZeros, Shifted;
    NoEob(p.tbl);
    var coefs := AcItems(p.tbl, Shifted(bs[0], p.al), p.ss, p.se, 0);
    assert [] + coefs == coefs;
  }

  /** The last coefficient of the first block is nonzero: no end-of-band symbol follows. */
  lemma FullBlockFirst(ts: seq<Table>, p: BandSpec, bs: seq<Block>, outs: seq<Block>, st: Stream)
    requires SegmentReady(ts, p, bs, outs) && !st.starved && |bs| > 0
    requires Coded(ts, SegmentFirst(p, bs, 0))
    requires TrailingZeros(Shifted(bs[0], p.al), p.ss, p.se, 0) == 0
    ensures DecodeFirstAll(ts[p.tbl], p, Ahead(ts, SegmentFirst(p, bs, 0), st), 0, outs) == (BandsSent(p, bs, outs), st, 0)
    decreases |bs|, 0
  {
    hide AcItems, RunLength, Ahead, Coded, NonzeroWrites, EobItems, BandZero, Encodable, BandSent, TrailingZeros, Decode,
         DecodeFirst, EncodeFirst, Shifted, SegmentFirst, BandsSent;
    var coefs, more := AcItems(p.tbl, Shifted(bs[0], p.al), p.ss, p.se, 0), SegmentFirst(p, bs[1..], 0);
    SegmentStep(p, bs);
    CodedConcat(ts, coefs, more);
    AheadConcat(ts, coefs, more, st);
    var st1 := Ahead(ts, more, st);
    assert !st1.starved;
    FirstBlock(ts, p, bs[0], outs[0], st1);
    NoRun(st1);
    FirstRoundTrip(ts, p, bs[1..], outs[1..], st);
    BandsSentStep(p, bs, outs);
  }

  lemma BandsSentStep(p: BandSpec, bs: seq<Block>, outs: seq<Block>)
    requires Blocks(bs) && Blocks(outs) && |bs| == |outs| > 0
    ensures [BandSent(p, bs[0], outs[0])] + BandsSent(p, bs[1..], outs[1..]) == BandsSent(p, bs, outs)
  {
    hide BandSent;
  }

  lemma NoRun(st: Stream)
    ensures RunLength(st, NO_EOB) == (st, 0)
  {
  }

  /** The first block ends with zeros: its end-of-band symbol covers m more blocks. */
  lemma RunBlockFirst(ts: seq<Table>, p: BandSpec, bs: seq<Block>, outs: seq<Block>, st: Stream)
    requires SegmentReady(ts, p, bs, outs) && !st.starved && |bs| > 0
    requires Coded(ts, SegmentFirst(p, bs, 0))
    requires TrailingZeros(Shifted(bs[0], p.al), p.ss, p.se, 0) > 0
    ensures DecodeFirstAll(ts[p.tbl], p, Ahead(ts, SegmentFirst(p, bs, 0), st), 0, outs) == (BandsSent(p, bs, outs), st, 0)
    decreases |bs|, 0
  {
    hide AcItems, RunLength, Ahead, Coded, NonzeroWrites, EobItems, BandZero, Encodable, BandSent, TrailingZeros,
         DecodeFirst, DecodeAc, BandsSent, EncodeFirst, Shifted, SegmentFirst;
    var bs1, outs1 := bs[1..], outs[1..];
    var coefs := AcItems(p.tbl, Shifted(bs[0], p.al), p.ss, p.se, 0);
    var m := PendingRun(p, bs1, 1);
    var eob, more := EobItems(p.tbl, 1 + m), SegmentFirst(p, bs1[m..], 0);
    SegmentStep(p, bs);
    CodedConcat(ts, coefs, eob + more);
    CodedConcat(ts, eob, more);
    AheadConcat(ts, coefs, eob + more, st);
    AheadConcat(ts, eob, more, st);
    var st1 := Ahead(ts, more, st);
    var z := TrailingZeros(Shifted(bs[0], p.al), p.ss, p.se, 0);
    EobRoundTrip(ts, p.tbl, 1 + m, st1, p.se + 1 - z, p.se);
    FirstBlock(ts, p, bs[0], outs[0], Ahead(ts, eob, st1));
    SkipRun(ts[p.tbl], p, st1, m, outs1);
    FirstRoundTrip(ts, p, bs1[m..], outs1[m..], st);
    RunSent(p, bs, outs, m);
  }

  lemma RunSent(p: BandSpec, bs: seq<Block>, outs: seq<Block>, m: nat)
    requires ValidBand(p) && Blocks(bs) && Blocks(outs) && |bs| == |outs| && m < |bs|
    requires forall i :: 0 <= i < m ==> BandZero(p, Shifted(bs[1..][i], p.al)) && BandZero(p, outs[1..][i])
    ensures [BandSent(p, bs[0], outs[0])] + (outs[1..][..m] + BandsSent(p, bs[1..][m..], outs[1..][m..]))
         == BandsSent(p, bs, outs)
  {
    hide BandSent, BandZero;
    forall j | 1 <= j <= m
      ensures BandSent(p, bs[j], outs[j]) == outs[j]
    {
      assert bs[1..][j - 1] == bs[j] && outs[1..][j - 1] == outs[j];
      ZeroBandSent(p, bs[j], outs[j]);
    }
    var l := [BandSent(p, bs[0], outs[0])] + (outs[1..][..m] + BandsSent(p, bs[1..][m..], outs[1..][m..]));
    assert |l| == |bs|;
    forall j | 0 <= j < |bs|
      ensures l[j] == BandsSent(p, bs, outs)[j]
    {
      if j > m {
        assert bs[1..][m..][j - m - 1] == bs[j] && outs[1..][m..][j - m - 1] == outs[j];
      }
    }
  }
}
