/** DC scans in progressive mode (encode/decode_mcu_DC_first, encode/decode_mcu_DC_refine;
    section G.1.2.1 of ITU-T T.81). An MCU is a list of blocks; membership says which
    component of the scan each block belongs to. */
module DcCoding {
  import opened BitSeq
  import opened BitStream
  import opened Symbols
  import opened Coefficients
  import opened BlockCoding
  import opened AcFirstCoding
  import opened AcRefineCoding

  /** MCU_membership, and the table numbers of the components of the scan. */
  datatype McuSpec = McuSpec(membership: seq<nat>, dcTbl: seq<nat>, acTbl: seq<nat>)

  ghost predicate ValidMcu(m: McuSpec, n: nat) {
    && |m.dcTbl| == |m.acTbl|
    && (forall i :: 0 <= i < |m.membership| ==> m.membership[i] < |m.dcTbl|)
    && forall i :: 0 <= i < |m.dcTbl| ==> m.dcTbl[i] < n && m.acTbl[i] < n
  }

  /** One MCU that fits the scan, with one DC prediction per component. */
  ghost predicate FitsMcu(m: McuSpec, mcu: seq<Block>, lastDc: seq<int>) {
    |mcu| == |m.membership| && Blocks(mcu) && |lastDc| == |m.dcTbl|
  }

  // ----- first scans -----

  /** encode_mcu_DC_first from block i on: the items and the DC predictions behind them. */
  function EncodeDcFirst(m: McuSpec, al: nat, mcu: seq<Block>, lastDc: seq<int>, i: nat, n: nat): (r: (seq<Item>, seq<int>))
    requires ValidMcu(m, n) && FitsMcu(m, mcu, lastDc) && i <= |mcu|
    ensures |r.1| == |lastDc|
    decreases |mcu| - i
  {
    if i == |mcu| then ([], lastDc) else
      var ci := m.membership[i];
      var dc := Asr(mcu[i][0], al);
      var rest := EncodeDcFirst(m, al, mcu, lastDc[ci := dc], i + 1, n);
      (DcItems(m.dcTbl[ci], dc - lastDc[ci]) + rest.0, rest.1)
  }

  /** decode_mcu_DC_first from block i on. */
  function DecodeDcFirst(ts: seq<Table>, m: McuSpec, al: nat, st: Stream, mcu: seq<Block>, lastDc: seq<int>, i: nat)
    : (r: (seq<Block>, Stream, seq<int>))
    requires ValidMcu(m, |ts|) && FitsMcu(m, mcu, lastDc) && i <= |mcu|
    ensures FitsMcu(m, r.0, r.2)
    ensures r.1.marker == st.marker && r.1.next == st.next
    decreases |mcu| - i
  {
    if i == |mcu| then (mcu, st, lastDc) else
      var ci := m.membership[i];
      var (diff, st1) := DecodeDc(ts[m.dcTbl[ci]], st);
      var s := diff + lastDc[ci];
      var mcu1 := mcu[i := mcu[i][0 := ToShort(s * Pow2(al))]];
      DecodeDcFirst(ts, m, al, st1, mcu1, lastDc[ci := s], i + 1)
  }

  /** The blocks from i on hold the DC coefficients of mcu down to bit al. */
  function DcsSent(mcu: seq<Block>, outs: seq<Block>, al: nat, i: nat): (r: seq<Block>)
    requires Blocks(mcu) && Blocks(outs) && |mcu| == |outs|
    ensures |r| == |outs| && Blocks(r)
  {
    seq(|outs|, j requires 0 <= j < |outs| => if j < i then outs[j] else outs[j][0 := DcSent(mcu[j][0], al)])
  }

  ghost predicate ShortBlocks(bs: seq<Block>) {
    forall i :: 0 <= i < |bs| ==> ShortBlock(bs[i])
  }

  /** Decoding a first DC scan's MCU returns its DC coefficients shifted down to bit al. */
  lemma {:induction false} DcFirstRoundTrip(ts: seq<Table>, m: McuSpec, al: nat, mcu: seq<Block>, outs: seq<Block>,
                                            lastDc: seq<int>, i: nat, st: Stream)
    requires ValidMcu(m, |ts|) && FitsMcu(m, mcu, lastDc) && FitsMcu(m, outs, lastDc) && i <= |mcu|
    requires al <= 13 && ShortBlocks(mcu)
    requires Coded(ts, EncodeDcFirst(m, al, mcu, lastDc, i, |ts|).0)
    ensures var e := EncodeDcFirst(m, al, mcu, lastDc, i, |ts|);
      DecodeDcFirst(ts, m, al, Ahead(ts, e.0, st), outs, lastDc, i) == (DcsSent(mcu, outs, al, i), st, e.1)
    decreases |mcu| - i
  {
    hide Asr, DecodeDc, DcItems, Ahead, Coded, ToShort, DcSent;
    if i == |mcu| {
      AheadConcat(ts, [], [], st);
      assert DcsSent(mcu, outs, al, i) == outs;
    } else {
      var ci := m.membership[i];
      var dc := Asr(mcu[i][0], al);
      var items, rest := DcItems(m.dcTbl[ci], dc - lastDc[ci]), EncodeDcFirst(m, al, mcu, lastDc[ci := dc], i + 1, |ts|);
      CodedConcat(ts, items, rest.0);
      AheadConcat(ts, items, rest.0, st);
      DcRoundTrip(ts, m.dcTbl[ci], dc - lastDc[ci], Ahead(ts, rest.0, st));
      DcStored(mcu[i][0], al);
      var outs1 := outs[i := outs[i][0 := DcSent(mcu[i][0], al)]];
      DcFirstRoundTrip(ts, m, al, mcu, outs1, lastDc[ci := dc], i + 1, st);
      DcsSentStep(mcu, outs, al, i);
    }
  }

  lemma DcStored(v: int, al: nat)
    requires -32768 <= v < 32768 && al <= 13
    ensures ToShort(Asr(v, al) * Pow2(al)) == DcSent(v, al)
  {
    DcSentInRange(v, al);
  }

  lemma DcsSentStep(mcu: seq<Block>, outs: seq<Block>, al: nat, i: nat)
    requires Blocks(mcu) && Blocks(outs) && |mcu| == |outs| && i < |mcu|
    ensures DcsSent(mcu, outs[i := outs[i][0 := DcSent(mcu[i][0], al)]], al, i + 1) == DcsSent(mcu, outs, al, i)
  {
    hide DcSent;
  }

  // ----- refinement scans -----

  /** Bit al of a DC coefficient in two's complement. */
  function DcBit(v: int, al: nat): bool {
    Asr(v, al) % 2 == 1
  }

  function EncodeDcRefine(al: nat, mcu: seq<Block>, i: nat): seq<Item>
    requires Blocks(mcu) && i <= |mcu|
    decreases |mcu| - i
  {
    if i == |mcu| then [] else [Raw([DcBit(mcu[i][0], al)])] + EncodeDcRefine(al, mcu, i + 1)
  }

  /** v |= 1 << al. */
  function OrBit(v: int, al: nat): int {
    if Asr(v, al) % 2 == 0 then v + Pow2(al) else v
  }

  function DecodeDcRefine(al: nat, st: Stream, mcu: seq<Block>, i: nat): (r: (seq<Block>, Stream))
    requires Blocks(mcu) && i <= |mcu|
    ensures |r.0| == |mcu| && Blocks(r.0)
    ensures r.1.marker == st.marker && r.1.next == st.next
    decreases |mcu| - i
  {
    if i == |mcu| then (mcu, st) else
      var (bit, st1) := Take(st, 1);
      var mcu1 := if bit != 0 then mcu[i := mcu[i][0 := ToShort(OrBit(mcu[i][0], al))]] else mcu;
      DecodeDcRefine(al, st1, mcu1, i + 1)
  }

  lemma {:induction false} AsrNext(v: int, n: nat)
    ensures Asr(v, n + 1) == Asr(v, n) / 2
    decreases n
  {
    if n > 0 {
      AsrNext(v / 2, n - 1);
    } else {
      assert Asr(v, 1) == Asr(v / 2, 0);
    }
  }

  /** The parts of a DC coefficient: what is known at bit al + 1, and bit al. */
  lemma DcParts(v: int, al: nat)
    ensures Asr(DcSent(v, al + 1), al) % 2 == 0
    ensures DcSent(v, al) == DcSent(v, al + 1) + if DcBit(v, al) then Pow2(al) else 0
  {
    hide Asr;
    AsrNext(v, al);
    var q, b := Asr(v, al + 1), Asr(v, al) % 2;
    assert Pow2(al + 1) == 2 * Pow2(al);
    MulAssoc(q, 2, Pow2(al));
    MulDouble(q, Pow2(al));
    assert DcSent(v, al + 1) == q * 2 * Pow2(al);
    AsrScaled(q * 2, al);
    MulDistrib(q * 2, b, Pow2(al));
    assert Asr(v, al) == q * 2 + b;
  }

  /** The next bit takes a DC coefficient from bit al + 1 down to bit al. */
  lemma OrSent(v: int, al: nat)
    requires -32768 <= v < 32768 && al <= 13
    ensures RefinedDc(v, DcSent(v, al + 1), al) == DcSent(v, al)
  {
    hide Asr, DcSent, Pow2, DcBit;
    DcParts(v, al);
    DcSentInRange(v, al);
  }

  /** The blocks from i on have got bit al of the DC coefficients of mcu. */
  function DcsRefined(mcu: seq<Block>, outs: seq<Block>, al: nat, i: nat): (r: seq<Block>)
    requires Blocks(mcu) && Blocks(outs) && |mcu| == |outs|
    ensures |r| == |outs| && Blocks(r)
  {
    seq(|outs|, j requires 0 <= j < |outs| => if j < i then outs[j] else outs[j][0 := RefinedDc(mcu[j][0], outs[j][0], al)])
  }

  function RefinedDc(v: int, have: int, al: nat): int {
    if DcBit(v, al) then ToShort(OrBit(have, al)) else have
  }

  lemma DcsRefinedStep(mcu: seq<Block>, outs: seq<Block>, al: nat, i: nat)
    requires Blocks(mcu) && Blocks(outs) && |mcu| == |outs| && i < |mcu|
    ensures DcsRefined(mcu, outs[i := outs[i][0 := RefinedDc(mcu[i][0], outs[i][0], al)]], al, i + 1)
         == DcsRefined(mcu, outs, al, i)
  {
    hide RefinedDc;
  }

  /** Decoding a DC refinement scan's MCU adds bit al to its DC coefficients. */
  lemma {:induction false} DcRefineRoundTrip(ts: seq<Table>, al: nat, mcu: seq<Block>, outs: seq<Block>, i: nat, st: Stream)
    requires Blocks(mcu) && Blocks(outs) && |mcu| == |outs| && i <= |mcu|
    ensures DecodeDcRefine(al, Ahead(ts, EncodeDcRefine(al, mcu, i), st), outs, i) == (DcsRefined(mcu, outs, al, i), st)
    decreases |mcu| - i
  {
    hide Asr, Ahead, ToShort, DcBit, OrBit, Take;
    if i == |mcu| {
      AheadConcat(ts, [], [], st);
      assert DcsRefined(mcu, outs, al, i) == outs;
    } else {
      var bit, rest := DcBit(mcu[i][0], al), EncodeDcRefine(al, mcu, i + 1);
      AheadConcat(ts, [Raw([bit])], rest, st);
      TakeSign(ts, bit, Ahead(ts, rest, st));
      var outs1 := outs[i := outs[i][0 := RefinedDc(mcu[i][0], outs[i][0], al)]];
      assert !bit ==> outs1 == outs by {
        assert outs[i][0 := outs[i][0]] == outs[i];
      }
      DcRefineRoundTrip(ts, al, mcu, outs1, i + 1, st);
      DcsRefinedStep(mcu, outs, al, i);
    }
  }
}
