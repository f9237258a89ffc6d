/** Sequential (baseline) coding of whole blocks: encode_one_block and decode_mcu
    (jchuff.c, jdhuff.c; sections F.1.2 and F.2.2 of ITU-T T.81). */
module SequentialCoding {
  import opened BitStream
  import opened HuffTable
  import opened Symbols
  import opened Coefficients
  import opened BlockCoding
  import opened AcFirstCoding
  import opened AcRefineCoding
  import opened DcCoding

  /** encode_one_block. */
  function BlockItems(dcTbl: nat, acTbl: nat, zz: Block, lastDc: int): seq<Item>
    requires |zz| == DCTSIZE2
  {
    DcItems(dcTbl, zz[0] - lastDc) + AcItems(acTbl, zz, 1, 63, 0)
    + if TrailingZeros(zz, 1, 63, 0) > 0 then [Sym(acTbl, 0)] else []
  }

  /** One block of decode_mcu: the block, the rest of the stream, and the DC value. */
  function DecodeBlock(dcT: Table, acT: Table, st: Stream, b: Block, lastDc: int): (r: (Block, Stream, int))
    requires |b| == DCTSIZE2
    ensures |r.0| == DCTSIZE2
    ensures r.1.marker == st.marker && r.1.next == st.next
  {
    var (diff, st1) := DecodeDc(dcT, st);
    var s := diff + lastDc;
    var d := DecodeAc(acT, st1, 1, 63);
    (Store(b[0 := ToShort(s)], d.writes, 0), d.st, s)
  }

  /** encode_mcu_huff from block i on (restarts aside). */
  function EncodeMcu(m: McuSpec, mcu: seq<Block>, lastDc: seq<int>, i: nat, n: nat): (r: (seq<Item>, seq<int>))
    requires ValidMcu(m, n) && FitsMcu(m, mcu, lastDc) && i <= |mcu|
    ensures |r.1| == |lastDc|
    decreases |mcu| - i
  {
    if i == |mcu| then ([], lastDc) else
      var ci := m.membership[i];
      var rest := EncodeMcu(m, mcu, lastDc[ci := mcu[i][0]], i + 1, n);
      (BlockItems(m.dcTbl[ci], m.acTbl[ci], mcu[i], lastDc[ci]) + rest.0, rest.1)
  }

  /** decode_mcu from block i on (restarts aside). */
  function DecodeMcu(ts: seq<Table>, m: McuSpec, st: Stream, mcu: seq<Block>, lastDc: seq<int>, i: nat)
    : (r: (seq<Block>, Stream, seq<int>))
    requires ValidMcu(m, |ts|) && FitsMcu(m, mcu, lastDc) && i <= |mcu|
    ensures FitsMcu(m, r.0, r.2)
    ensures r.1.marker == st.marker && r.1.next == st.next
    decreases |mcu| - i
  {
    if i == |mcu| then (mcu, st, lastDc) else
      var ci := m.membership[i];
      var (b, st1, s) := DecodeBlock(ts[m.dcTbl[ci]], ts[m.acTbl[ci]], st, mcu[i], lastDc[ci]);
      DecodeMcu(ts, m, st1, mcu[i := b], lastDc[ci := s], i + 1)
  }

  /** The AC coefficients of a block that awaits sequential decoding are zero. */
  ghost predicate AcZero(b: Block) {
    |b| == DCTSIZE2 && forall k :: 1 <= k < DCTSIZE2 ==> b[k] == 0
  }

  /** The coefficients pass the range checks of the encoder. */
  ghost predicate InRange(zz: Block) {
    ShortBlock(zz) && BandInRange(zz, 1, 63)
  }

  const WHOLE := BandSpec(0, 1, 63, 0)

  /** What encode_one_block wrote decodes to the same block. */
  lemma BlockRoundTrip(ts: seq<Table>, dcTbl: nat, acTbl: nat, zz: Block, b: Block, lastDc: int, st: Stream)
    requires InRange(zz) && AcZero(b) && dcTbl < |ts| && acTbl < |ts|
    requires Coded(ts, BlockItems(dcTbl, acTbl, zz, lastDc))
    ensures DecodeBlock(ts[dcTbl], ts[acTbl], Ahead(ts, BlockItems(dcTbl, acTbl, zz, lastDc), st), b, lastDc)
         == (zz, st, zz[0])
  {
    hide DcItems, AcItems, TrailingZeros, DecodeDc, DecodeAc, Ahead, Coded, Store, NonzeroWrites;
    var dc, ac := DcItems(dcTbl, zz[0] - lastDc), AcItems(acTbl, zz, 1, 63, 0);
    var z := TrailingZeros(zz, 1, 63, 0);
    var eob := if z > 0 then [Sym(acTbl, 0)] else [];
    CodedConcat(ts, dc + ac, eob);
    CodedConcat(ts, dc, ac);
    AheadConcat(ts, dc + ac, eob, st);
    var st1 := Ahead(ts, eob, st);
    AheadConcat(ts, dc, ac, st1);
    DcRoundTrip(ts, dcTbl, zz[0] - lastDc, Ahead(ts, ac, st1));
    AcRoundTrip(ts, acTbl, zz, 1, 63, 0, st1);
    BlockEnd(ts, acTbl, z, st);
    var ws := NonzeroWrites(zz, 1, 63);
    assert ws + [] == ws;
    StoreAll(zz, b[0 := zz[0]]);
  }

  /** Decoding stops at the EOB symbol, or without one at the end of the block. */
  lemma BlockEnd(ts: seq<Table>, acTbl: nat, z: nat, st: Stream)
    requires acTbl < |ts| && z <= 63
    requires z > 0 ==> Coded(ts, [Sym(acTbl, 0)])
    ensures var d := DecodeAc(ts[acTbl], Ahead(ts, if z > 0 then [Sym(acTbl, 0)] else [], st), 64 - z, 63);
      d.writes == [] && d.st == st
  {
    hide Decode, Ahead;
    if z > 0 {
      CodedHead(ts, [Sym(acTbl, 0)]);
      DecodeSym(ts, acTbl, 0, st);
    } else {
      AheadConcat(ts, [], [], st);
    }
  }

  lemma StoreAll(zz: Block, b: Block)
    requires ShortBlock(zz) && AcZero(b) && b[0] == zz[0]
    ensures Store(b, NonzeroWrites(zz, 1, 63), 0) == zz
  {
    hide Store, NonzeroWrites, TowardZero, AcSent;
    var band := Shifted(zz, 0);
    forall k | 0 <= k < DCTSIZE2
      ensures band[k] == zz[k] && AcSent(zz[k], 0) == zz[k]
    {
      Unshifted(zz[k]);
    }
    assert band == zz;
    StoreNonzero(WHOLE, zz, b, 1);
  }

  lemma Unshifted(v: int)
    ensures TowardZero(v, 0) == v && AcSent(v, 0) == v
  {
    SentAtZero(v);
  }

  ghost predicate AllInRange(mcu: seq<Block>) {
    forall i :: 0 <= i < |mcu| ==> InRange(mcu[i])
  }

  ghost predicate AcZeroFrom(mcu: seq<Block>, i: nat) {
    forall j :: i <= j < |mcu| ==> AcZero(mcu[j])
  }

  /** What encode_mcu_huff wrote decodes to the same MCU, with the same DC predictions behind it. */
  lemma {:induction false} McuRoundTrip(ts: seq<Table>, m: McuSpec, mcu: seq<Block>, outs: seq<Block>, lastDc: seq<int>,
                                        i: nat, st: Stream)
    requires ValidMcu(m, |ts|) && FitsMcu(m, mcu, lastDc) && FitsMcu(m, outs, lastDc) && i <= |mcu|
    requires AllInRange(mcu) && AcZeroFrom(outs, i)
    requires Coded(ts, EncodeMcu(m, mcu, lastDc, i, |ts|).0)
    ensures var e := EncodeMcu(m, mcu, lastDc, i, |ts|);
      DecodeMcu(ts, m, Ahead(ts, e.0, st), outs, lastDc, i) == (outs[..i] + mcu[i..], st, e.1)
    decreases |mcu| - i
  {
    hide BlockItems, DecodeBlock, Ahead, Coded, InRange, AcZero;
    if i == |mcu| {
      AheadConcat(ts, [], [], st);
      assert outs[..i] + mcu[i..] == outs;
    } else {
      var ci := m.membership[i];
      var items := BlockItems(m.dcTbl[ci], m.acTbl[ci], mcu[i], lastDc[ci]);
      var rest := EncodeMcu(m, mcu, lastDc[ci := mcu[i][0]], i + 1, |ts|);
      CodedConcat(ts, items, rest.0);
      AheadConcat(ts, items, rest.0, st);
      BlockRoundTrip(ts, m.dcTbl[ci], m.acTbl[ci], mcu[i], outs[i], lastDc[ci], Ahead(ts, rest.0, st));
      var outs1 := outs[i := mcu[i]];
      McuRoundTrip(ts, m, mcu, outs1, lastDc[ci := mcu[i][0]], i + 1, st);
      assert outs1[..i + 1] + mcu[i + 1..] == outs[..i] + mcu[i..];
    }
  }
}
