/** A scan as the entropy encoders produce it, MCU by MCU: what one encode_mcu call and the end of the pass
    add, and that together they write the bytes of the scan and count its symbols. */
module ScanEncoding {
  import opened BitSeq
  import ByteStream
  import opened Symbols
  import opened Coefficients
  import opened BlockCoding
  import opened AcFirstCoding
  import opened AcRefineCoding
  import opened DcCoding
  import opened ScanCoding

  type Bytes = seq<ByteStream.Byte>

  /** Encoder state within a segment: what was emitted, the DC predictions, and the pending end-of-band run. */
  datatype EncState = EncState(items: seq<Item>, lastDc: seq<int>, pd: Pending)

  function Fresh(sc: Scan): EncState {
    EncState([], NoDc(sc), NOTHING)
  }

  /** DC scans have nothing pending; a pending run of a first AC scan has no correction bits. */
  ghost predicate PendingFits(sc: Scan, pd: Pending) {
    && (sc.kind !in {AcFirst, AcRefine} ==> pd == NOTHING)
    && (sc.kind == AcFirst ==> pd.be == [])
    && RunSafe(pd)
  }

  /** Between MCUs: the run is below its maximum, no correction bits wait without a run, and
      another block's bits still fit into the buffer. */
  ghost predicate RunSafe(pd: Pending) {
    && pd.run < MAX_EOBRUN
    && (pd.run == 0 ==> pd.be == [])
    && |pd.be| <= MAX_CORR_BITS - DCTSIZE2 + 1
  }

  /** One MCU, restarts aside: what is emitted, and the DC predictions and pending run behind it. */
  function OneMcu(sc: Scan, lastDc: seq<int>, pd: Pending, mcu: Mcu, n: nat): (r: (seq<Item>, seq<int>, Pending))
    requires ValidScan(sc, n) && FitsMcu(sc.mcu, mcu, lastDc)
    ensures |r.1| == |lastDc|
  {
    match sc.kind
    case AcFirst =>
      var (items, run) := EncodeFirst(BandOf(sc), mcu[0], pd.run);
      (items, lastDc, Pending(run, []))
    case AcRefine =>
      var (items, pd1) := EncodeRefine(BandOf(sc), mcu[0], pd);
      (items, lastDc, pd1)
    case _ =>
      var (items, lastDc1) := EncodeDc(sc, mcu, lastDc, n);
      (items, lastDc1, pd)
  }

  function EncodeOne(sc: Scan, e: EncState, mcu: Mcu, n: nat): (r: EncState)
    requires ValidScan(sc, n) && FitsMcu(sc.mcu, mcu, e.lastDc)
    ensures |r.lastDc| == |e.lastDc|
  {
    var (items, lastDc, pd) := OneMcu(sc, e.lastDc, e.pd, mcu, n);
    EncState(e.items + items, lastDc, pd)
  }

  /** All items of the segment, the pending run included. */
  function Closed(sc: Scan, e: EncState): seq<Item> {
    e.items + Flush(BandOf(sc).tbl, e.pd)
  }

  /** Encoder state within a scan: what earlier segments wrote and emitted, and the restart counters. */
  datatype ScanEnc = ScanEnc(out: Bytes, done: seq<Item>, e: EncState, togo: nat, num: nat)

  function Begin(sc: Scan): ScanEnc {
    ScanEnc([], [], Fresh(sc), sc.interval, 0)
  }

  /** emit_restart: the segment ends with a marker. */
  function EmitRestart(sc: Scan, ts: seq<Table>, s: ScanEnc): (r: ScanEnc)
    requires s.num < 8
  {
    ScanEnc(s.out + ByteStream.SegmentBytes(ItemsBits(ts, Closed(sc, s.e))) + [0xFF, RST0 + s.num], s.done + Closed(sc, s.e),
            Fresh(sc), sc.interval, (s.num + 1) % 8)
  }

  /** One encode_mcu call. */
  function EncodeStep(sc: Scan, ts: seq<Table>, s: ScanEnc, mcu: Mcu): (r: ScanEnc)
    requires ValidScan(sc, |ts|) && FitsMcu(sc.mcu, mcu, s.e.lastDc) && s.num < 8
    ensures |r.e.lastDc| == |s.e.lastDc| && r.num < 8
  {
    var s1 := if sc.interval > 0 && s.togo == 0 then EmitRestart(sc, ts, s) else s;
    s1.(e := EncodeOne(sc, s1.e, mcu, |ts|), togo := if sc.interval > 0 then s1.togo - 1 else s1.togo)
  }

  function EncodeScan(sc: Scan, ts: seq<Table>, s: ScanEnc, mcus: seq<Mcu>): (r: ScanEnc)
    requires ValidScan(sc, |ts|) && FitsScan(sc, mcus) && |s.e.lastDc| == |sc.mcu.dcTbl| && s.num < 8
    ensures |r.e.lastDc| == |s.e.lastDc| && r.num < 8
    decreases |mcus|
  {
    if |mcus| == 0 then s else EncodeScan(sc, ts, EncodeStep(sc, ts, s, mcus[0]), mcus[1..])
  }

  /** The DC differences from block i on pass the encoder's range check. */
  ghost predicate DcInRange(m: McuSpec, al: nat, mcu: Mcu, lastDc: seq<int>, i: nat)
    requires FitsMcu(m, mcu, lastDc) && i <= |mcu| && forall i :: 0 <= i < |m.membership| ==> m.membership[i] < |m.dcTbl|
    decreases |mcu| - i
  {
    i == |mcu| ||
      var ci, dc := m.membership[i], Asr(mcu[i][0], al);
      NBits(Abs(dc - lastDc[ci])) <= MAX_COEF_BITS + 1 && DcInRange(m, al, mcu, lastDc[ci := dc], i + 1)
  }

  /** The DC value of the block before block j in the MCU that belongs to the same component, or the last one of that component
      before the MCU. */
  function Prediction(m: McuSpec, al: nat, mcu: Mcu, lastDc: seq<int>, i: nat, j: nat): int
    requires FitsMcu(m, mcu, lastDc) && i <= j < |mcu| && forall i :: 0 <= i < |m.membership| ==> m.membership[i] < |m.dcTbl|
    decreases |mcu| - i
  {
    if i == j then lastDc[m.membership[j]]
    else Prediction(m, al, mcu, lastDc[m.membership[i] := Asr(mcu[i][0], al)], i + 1, j)
  }

  lemma {:induction false} PredictionIs(m: McuSpec, al: nat, mcu: Mcu, lastDc: seq<int>, i: nat, j: nat, p: nat)
    requires FitsMcu(m, mcu, lastDc) && i <= j < |mcu| && forall i :: 0 <= i < |m.membership| ==> m.membership[i] < |m.dcTbl|
    ensures (forall q :: i <= q < j ==> m.membership[q] != m.membership[j]) ==>
      Prediction(m, al, mcu, lastDc, i, j) == lastDc[m.membership[j]]
    ensures i <= p < j && m.membership[p] == m.membership[j] && (forall q :: p < q < j ==> m.membership[q] != m.membership[j]) ==>
      Prediction(m, al, mcu, lastDc, i, j) == Asr(mcu[p][0], al)
    decreases j - i
  {
    hide Asr;
    if i < j {
      PredictionIs(m, al, mcu, lastDc[m.membership[i] := Asr(mcu[i][0], al)], i + 1, j, p);
    }
  }

  /** The encoder takes DC differences from -2047 to 2047. */
  lemma {:induction false} DcInRangeIs(m: McuSpec, al: nat, mcu: Mcu, lastDc: seq<int>, i: nat)
    requires FitsMcu(m, mcu, lastDc) && i <= |mcu| && forall i :: 0 <= i < |m.membership| ==> m.membership[i] < |m.dcTbl|
    ensures DcInRange(m, al, mcu, lastDc, i) <==>
      forall j :: i <= j < |mcu| ==> -2047 <= Asr(mcu[j][0], al) - Prediction(m, al, mcu, lastDc, i, j) <= 2047
    decreases |mcu| - i
  {
    hide NBits, Asr;
    if i < |mcu| {
      Pow2Small();
      var next := lastDc[m.membership[i] := Asr(mcu[i][0], al)];
      NBitsBelow(Abs(Asr(mcu[i][0], al) - lastDc[m.membership[i]]), MAX_COEF_BITS + 1);
      DcInRangeIs(m, al, mcu, next, i + 1);
      assert forall j :: i < j < |mcu| ==> Prediction(m, al, mcu, lastDc, i, j) == Prediction(m, al, mcu, next, i + 1, j);
    }
  }

  /** The coefficients of an MCU pass the encoder's range checks. */
  ghost predicate McuInRange(sc: Scan, lastDc: seq<int>, mcu: Mcu)
    requires FitsMcu(sc.mcu, mcu, lastDc) && forall i :: 0 <= i < |sc.mcu.membership| ==> sc.mcu.membership[i] < |sc.mcu.dcTbl|
  {
    match sc.kind
    case Sequential => DcInRange(sc.mcu, 0, mcu, lastDc, 0) && forall i :: 0 <= i < |mcu| ==> BandInRange(mcu[i], 1, DCTSIZE2 - 1)
    case DcFirst => DcInRange(sc.mcu, sc.al, mcu, lastDc, 0)
    case DcRefine => true
    case AcFirst => sc.se < DCTSIZE2 && forall i :: 0 <= i < |mcu| ==> BandInRange(Shifted(mcu[i], sc.al), sc.ss, sc.se)
    case AcRefine => true
  }

  /** The range checks in values: AC coefficients, after the point transform, from -1023 to 1023, and DC differences from -2047
      to 2047; refinement scans have none. */
  lemma McuInRangeIs(sc: Scan, lastDc: seq<int>, mcu: Mcu)
    requires FitsMcu(sc.mcu, mcu, lastDc) && (forall i :: 0 <= i < |sc.mcu.membership| ==> sc.mcu.membership[i] < |sc.mcu.dcTbl|)
    requires sc.se < DCTSIZE2
    ensures McuInRange(sc, lastDc, mcu) <==>
      && (sc.kind in {Sequential, DcFirst} ==> forall j :: 0 <= j < |mcu| ==>
            var al := if sc.kind == Sequential then 0 else sc.al;
            -2047 <= Asr(mcu[j][0], al) - Prediction(sc.mcu, al, mcu, lastDc, 0, j) <= 2047)
      && (sc.kind == Sequential ==> forall j, k :: 0 <= j < |mcu| && 1 <= k <= 63 ==> -1023 <= mcu[j][k] <= 1023)
      && (sc.kind == AcFirst ==> forall j, k :: 0 <= j < |mcu| && sc.ss <= k <= sc.se ==> -1023 <= TowardZero(mcu[j][k], sc.al) <= 1023)
  {
    hide NBits, Asr, DcInRange, BandInRange, TowardZero, Prediction;
    DcInRangeIs(sc.mcu, if sc.kind == Sequential then 0 else sc.al, mcu, lastDc, 0);
    forall j | 0 <= j < |mcu|
      ensures BandInRange(mcu[j], 1, 63) <==> forall k :: 1 <= k <= 63 ==> -1023 <= mcu[j][k] <= 1023
      ensures BandInRange(Shifted(mcu[j], sc.al), sc.ss, sc.se) <==>
        forall k :: sc.ss <= k <= sc.se ==> -1023 <= TowardZero(mcu[j][k], sc.al) <= 1023
    {
      BandInRangeIs(mcu[j], 1, 63);
      BandInRangeIs(Shifted(mcu[j], sc.al), sc.ss, sc.se);
    }
  }

  /** An encode_mcu call takes no error exit: the MCU is in range, and when the pass writes, all symbols have codes. */
  ghost predicate StepEncodable(sc: Scan, ts: seq<Table>, gather: bool, s: ScanEnc, mcu: Mcu)
    requires ValidScan(sc, |ts|) && FitsMcu(sc.mcu, mcu, s.e.lastDc) && s.num < 8
  {
    var restart := sc.interval > 0 && s.togo == 0;
    var e := if restart then Fresh(sc) else s.e;
    && McuInRange(sc, e.lastDc, mcu)
    && (!gather ==>
         && (restart ==> Coded(ts, Flush(BandOf(sc).tbl, s.e.pd)))
         && Coded(ts, OneMcu(sc, e.lastDc, e.pd, mcu, |ts|).0))
  }

  /** The file after finish_pass. */
  function Finish(sc: Scan, ts: seq<Table>, s: ScanEnc): Bytes {
    s.out + ByteStream.SegmentBytes(ItemsBits(ts, Closed(sc, s.e)))
  }

  /** Everything that was emitted, after finish_pass. */
  function AllItems(sc: Scan, s: ScanEnc): seq<Item> {
    s.done + Closed(sc, s.e)
  }

  // ----- within a segment -----

  /** What a segment will have emitted if mcus are still to come. */
  function RestItems(sc: Scan, e: EncState, mcus: seq<Mcu>, n: nat): seq<Item>
    requires ValidScan(sc, n) && FitsScan(sc, mcus) && |e.lastDc| == |sc.mcu.dcTbl|
  {
    match sc.kind
    case AcFirst => e.items + SegmentFirst(BandOf(sc), FirstBlocks(mcus), e.pd.run)
    case AcRefine => e.items + SegmentRefine(BandOf(sc), FirstBlocks(mcus), e.pd)
    case _ => e.items + DcSegment(sc, mcus, e.lastDc, n)
  }

  lemma RestFresh(sc: Scan, mcus: seq<Mcu>, n: nat)
    requires ValidScan(sc, n) && FitsScan(sc, mcus)
    ensures RestItems(sc, Fresh(sc), mcus, n) == SegmentItems(sc, mcus, n)
  {
    var s := SegmentItems(sc, mcus, n);
    assert [] + s == s;
  }

  lemma RestDone(sc: Scan, e: EncState, n: nat)
    requires ValidScan(sc, n) && |e.lastDc| == |sc.mcu.dcTbl| && PendingFits(sc, e.pd)
    ensures RestItems(sc, e, [], n) == Closed(sc, e)
  {
    hide EobItems;
    assert BitItems([]) == [];
    if sc.kind == AcFirst {
      assert EobItems(BandOf(sc).tbl, 0) == [] by { NoEob(BandOf(sc).tbl); }
      assert EobItems(BandOf(sc).tbl, e.pd.run) + [] == EobItems(BandOf(sc).tbl, e.pd.run);
    }
  }

  lemma RestStep(sc: Scan, e: EncState, mcus: seq<Mcu>, n: nat)
    requires ValidScan(sc, n) && FitsScan(sc, mcus) && |e.lastDc| == |sc.mcu.dcTbl| && |mcus| > 0
    ensures RestItems(sc, e, mcus, n) == RestItems(sc, EncodeOne(sc, e, mcus[0], n), mcus[1..], n)
  {
    hide EncodeFirst, EncodeRefine, EncodeDc;
    assert FitsOne(sc, mcus[0]);
    var e1 := EncodeOne(sc, e, mcus[0], n);
    if sc.kind == AcFirst {
      var more := SegmentFirst(BandOf(sc), FirstBlocks(mcus[1..]), e1.pd.run);
      assert FirstBlocks(mcus)[1..] == FirstBlocks(mcus[1..]);
      var items := EncodeFirst(BandOf(sc), mcus[0][0], e.pd.run).0;
      assert e.items + (items + more) == e.items + items + more;
    } else if sc.kind == AcRefine {
      var more := SegmentRefine(BandOf(sc), FirstBlocks(mcus[1..]), e1.pd);
      assert FirstBlocks(mcus)[1..] == FirstBlocks(mcus[1..]);
      var items := EncodeRefine(BandOf(sc), mcus[0][0], e.pd).0;
      assert e.items + (items + more) == e.items + items + more;
    } else {
      var more := DcSegment(sc, mcus[1..], e1.lastDc, n);
      var items := EncodeDc(sc, mcus[0], e.lastDc, n).0;
      assert e.items + (items + more) == e.items + items + more;
    }
  }

  // ----- the run counters -----

  /** Correction bits of a block: at most one per coefficient of the band. */
  lemma {:induction false} LoopBits(p: BandSpec, zz: Block, eob: nat, k: nat, r: nat, br: Bits, pd: Pending)
    requires |zz| == DCTSIZE2 && p.se < DCTSIZE2 && k <= p.se + 1
    ensures var l := RefineLoop(p, zz, eob, k, r, br, pd);
      && |l.br| <= |br| + (p.se + 1 - k)
      && (l.pd == pd || l.pd == NOTHING)
    decreases p.se + 1 - k, r
  {
    hide Mag, Flush, NewItems, BitItems;
    if k <= p.se {
      if Mag(p, zz, k) == 0 {
        LoopBits(p, zz, eob, k + 1, r + 1, br, pd);
      } else if r > 15 && k <= eob {
        LoopBits(p, zz, eob, k, r - 16, [], NOTHING);
      } else if Mag(p, zz, k) > 1 {
        LoopBits(p, zz, eob, k + 1, r, br + [Mag(p, zz, k) % 2 == 1], pd);
      } else {
        LoopBits(p, zz, eob, k + 1, 0, [], NOTHING);
      }
    }
  }

  /** Every MCU leaves the run counter and the correction buffer safe. */
  lemma RunStaysSafe(sc: Scan, e: EncState, mcu: Mcu, n: nat)
    requires ValidScan(sc, n) && FitsMcu(sc.mcu, mcu, e.lastDc) && PendingFits(sc, e.pd)
    ensures PendingFits(sc, EncodeOne(sc, e, mcu, n).pd)
  {
    hide RefineLoop, LastNew, Flush, EncodeDc, AcItems, TrailingZeros, EobItems;
    if sc.kind == AcRefine {
      var p := BandOf(sc);
      LoopBits(p, mcu[0], LastNew(p, mcu[0], p.se), p.ss, 0, [], e.pd);
    }
  }

  // ----- the whole scan -----

  /** What the file will be if mcus are still to come. */
  function RestBytes(sc: Scan, ts: seq<Table>, s: ScanEnc, mcus: seq<Mcu>): Bytes
    requires ValidScan(sc, |ts|) && FitsScan(sc, mcus) && |s.e.lastDc| == |sc.mcu.dcTbl| && s.num < 8
  {
    if sc.interval == 0 || |mcus| <= s.togo
    then s.out + RestSegment(sc, ts, s.e, mcus)
    else
      FitsSplit(sc, mcus, s.togo);
      var marker: Bytes := [0xFF, RST0 + s.num];
      s.out + RestSegment(sc, ts, s.e, mcus[..s.togo]) + marker + ScanBytes(sc, ts, mcus[s.togo..], (s.num + 1) % 8)
  }

  function RestSegment(sc: Scan, ts: seq<Table>, e: EncState, mcus: seq<Mcu>): Bytes
    requires ValidScan(sc, |ts|) && FitsScan(sc, mcus) && |e.lastDc| == |sc.mcu.dcTbl|
  {
    ByteStream.SegmentBytes(ItemsBits(ts, RestItems(sc, e, mcus, |ts|)))
  }

  /** The items of a scan, segment after segment. */
  function ScanItems(sc: Scan, mcus: seq<Mcu>, n: nat): seq<Item>
    requires ValidScan(sc, n) && FitsScan(sc, mcus)
    decreases |mcus|
  {
    if sc.interval == 0 || |mcus| <= sc.interval then SegmentItems(sc, mcus, n)
    else
      FitsSplit(sc, mcus, sc.interval);
      SegmentItems(sc, mcus[..sc.interval], n) + ScanItems(sc, mcus[sc.interval..], n)
  }

  function RestAll(sc: Scan, s: ScanEnc, mcus: seq<Mcu>, n: nat): seq<Item>
    requires ValidScan(sc, n) && FitsScan(sc, mcus) && |s.e.lastDc| == |sc.mcu.dcTbl|
  {
    if sc.interval == 0 || |mcus| <= s.togo then s.done + RestItems(sc, s.e, mcus, n)
    else
      FitsSplit(sc, mcus, s.togo);
      s.done + RestItems(sc, s.e, mcus[..s.togo], n) + ScanItems(sc, mcus[s.togo..], n)
  }

  /** A restart changes nothing in what the file will be. */
  lemma RestRestart(sc: Scan, ts: seq<Table>, s: ScanEnc, mcus: seq<Mcu>)
    requires ValidScan(sc, |ts|) && FitsScan(sc, mcus) && |s.e.lastDc| == |sc.mcu.dcTbl| && s.num < 8
    requires sc.interval > 0 && s.togo == 0 && |mcus| > 0 && PendingFits(sc, s.e.pd)
    ensures RestBytes(sc, ts, EmitRestart(sc, ts, s), mcus) == RestBytes(sc, ts, s, mcus)
    ensures RestAll(sc, EmitRestart(sc, ts, s), mcus, |ts|) == RestAll(sc, s, mcus, |ts|)
  {
    hide RestItems, Closed, SegmentItems, ItemsBits, ByteStream.SegmentBytes, ValidScan, FitsScan, Fresh;
    assert mcus[..0] == [] && mcus[0..] == mcus;
    RestDone(sc, s.e, |ts|);
    assert |Fresh(sc).lastDc| == |sc.mcu.dcTbl| by { FreshFits(sc); }
    if |mcus| <= sc.interval {
      RestFresh(sc, mcus, |ts|);
    } else {
      FitsSplit(sc, mcus, sc.interval);
      RestFresh(sc, mcus[..sc.interval], |ts|);
      var head := s.out + ByteStream.SegmentBytes(ItemsBits(ts, Closed(sc, s.e))) + [0xFF, RST0 + s.num];
      var a := ByteStream.SegmentBytes(ItemsBits(ts, SegmentItems(sc, mcus[..sc.interval], |ts|)));
      AssocBytes(head, a, [0xFF, RST0 + (s.num + 1) % 8], ScanBytes(sc, ts, mcus[sc.interval..], ((s.num + 1) % 8 + 1) % 8));
      AssocAll(s.done + Closed(sc, s.e), SegmentItems(sc, mcus[..sc.interval], |ts|), ScanItems(sc, mcus[sc.interval..], |ts|));
    }
  }

  lemma FreshFits(sc: Scan)
    ensures |Fresh(sc).lastDc| == |sc.mcu.dcTbl|
  {
  }

  lemma AssocBytes(a: Bytes, b: Bytes, c: Bytes, d: Bytes)
    ensures a + b + c + d == a + (b + c + d)
  {
  }

  lemma AssocAll(a: seq<Item>, b: seq<Item>, c: seq<Item>)
    ensures a + b + c == a + (b + c)
  {
  }

  /** An MCU without restart changes nothing either. */
  lemma RestOne(sc: Scan, ts: seq<Table>, s: ScanEnc, mcus: seq<Mcu>)
    requires ValidScan(sc, |ts|) && FitsScan(sc, mcus) && |s.e.lastDc| == |sc.mcu.dcTbl| && s.num < 8
    requires (sc.interval > 0 ==> s.togo > 0) && |mcus| > 0
    ensures RestBytes(sc, ts, EncodeStep(sc, ts, s, mcus[0]), mcus[1..]) == RestBytes(sc, ts, s, mcus)
    ensures RestAll(sc, EncodeStep(sc, ts, s, mcus[0]), mcus[1..], |ts|) == RestAll(sc, s, mcus, |ts|)
  {
    hide RestItems, EncodeOne, ItemsBits, ByteStream.SegmentBytes, ValidScan, ScanBytes, ScanItems;
    if sc.interval == 0 || |mcus| <= s.togo {
      RestStep(sc, s.e, mcus, |ts|);
    } else {
      FitsSplit(sc, mcus, s.togo);
      var head := mcus[..s.togo];
      RestStep(sc, s.e, head, |ts|);
      assert head[0] == mcus[0] && head[1..] == mcus[1..][..s.togo - 1] && mcus[1..][s.togo - 1..] == mcus[s.togo..];
    }
  }

  lemma {:induction false} EncodesRest(sc: Scan, ts: seq<Table>, s: ScanEnc, mcus: seq<Mcu>)
    requires ValidScan(sc, |ts|) && FitsScan(sc, mcus) && |s.e.lastDc| == |sc.mcu.dcTbl| && s.num < 8
    requires PendingFits(sc, s.e.pd)
    ensures var r := EncodeScan(sc, ts, s, mcus);
      && Finish(sc, ts, r) == RestBytes(sc, ts, s, mcus) && AllItems(sc, r) == RestAll(sc, s, mcus, |ts|)
      && PendingFits(sc, r.e.pd)
    decreases |mcus|
  {
    hide RestItems, EncodeOne, ItemsBits, ByteStream.SegmentBytes, ValidScan, ScanBytes, ScanItems, RestBytes, RestAll,
         PendingFits, Closed, FitsMcu;
    if |mcus| == 0 {
      EncodesNothing(sc, ts, s);
    } else {
      var s1 := if sc.interval > 0 && s.togo == 0 then EmitRestart(sc, ts, s) else s;
      assert PendingFits(sc, s1.e.pd) by { FreshSafe(sc); }
      if sc.interval > 0 && s.togo == 0 {
        RestRestart(sc, ts, s, mcus);
      }
      RestOne(sc, ts, s1, mcus);
      assert FitsMcu(sc.mcu, mcus[0], s1.e.lastDc) by { FreshFits(sc); FitsFirst(sc, mcus, s1.e.lastDc); }
      FitsFirst(sc, mcus, s.e.lastDc);
      RunStaysSafe(sc, s1.e, mcus[0], |ts|);
      EncodesRest(sc, ts, EncodeStep(sc, ts, s, mcus[0]), mcus[1..]);
    }
  }

  lemma FitsFirst(sc: Scan, mcus: seq<Mcu>, lastDc: seq<int>)
    requires FitsScan(sc, mcus) && |mcus| > 0 && |lastDc| == |sc.mcu.dcTbl|
    ensures FitsMcu(sc.mcu, mcus[0], lastDc)
  {
    assert FitsOne(sc, mcus[0]);
  }

  lemma EncodesNothing(sc: Scan, ts: seq<Table>, s: ScanEnc)
    requires ValidScan(sc, |ts|) && |s.e.lastDc| == |sc.mcu.dcTbl| && s.num < 8 && PendingFits(sc, s.e.pd)
    ensures Finish(sc, ts, s) == RestBytes(sc, ts, s, []) && AllItems(sc, s) == RestAll(sc, s, [], |ts|)
  {
    RestDone(sc, s.e, |ts|);
  }

  lemma FreshSafe(sc: Scan)
    ensures PendingFits(sc, Fresh(sc).pd)
  {
  }

  /** A pass over the MCUs of a scan writes its bytes and emits its items, for any restart interval; the run counters
      are safe behind every MCU. */
  lemma PassWritesScan(sc: Scan, ts: seq<Table>, mcus: seq<Mcu>)
    requires ValidScan(sc, |ts|) && FitsScan(sc, mcus)
    ensures Finish(sc, ts, EncodeScan(sc, ts, Begin(sc), mcus)) == ScanBytes(sc, ts, mcus, 0)
    ensures AllItems(sc, EncodeScan(sc, ts, Begin(sc), mcus)) == ScanItems(sc, mcus, |ts|)
  {
    hide RestItems, EncodeOne, ItemsBits, ByteStream.SegmentBytes, ValidScan, SegmentItems, Closed, FitsScan, Fresh;
    FreshFits(sc);
    FreshSafe(sc);
    EncodesRest(sc, ts, Begin(sc), mcus);
    if sc.interval == 0 || |mcus| <= sc.interval {
      RestFresh(sc, mcus, |ts|);
    } else {
      FitsSplit(sc, mcus, sc.interval);
      RestFresh(sc, mcus[..sc.interval], |ts|);
      AssocBytes([], ByteStream.SegmentBytes(ItemsBits(ts, SegmentItems(sc, mcus[..sc.interval], |ts|))), [0xFF, RST0],
                 ScanBytes(sc, ts, mcus[sc.interval..], 1));
    }
  }

  /** Every segment's symbols have codes exactly if all symbols of the scan have. */
  lemma {:induction false} ScanCodedIs(sc: Scan, ts: seq<Table>, mcus: seq<Mcu>)
    requires ValidScan(sc, |ts|) && FitsScan(sc, mcus)
    ensures ScanCoded(sc, ts, mcus) <==> Coded(ts, ScanItems(sc, mcus, |ts|))
    decreases |mcus|
  {
    hide Coded, SegmentItems, ValidScan, FitsScan;
    if sc.interval > 0 && |mcus| > sc.interval {
      FitsSplit(sc, mcus, sc.interval);
      ScanCodedIs(sc, ts, mcus[sc.interval..]);
      CodedConcat(ts, SegmentItems(sc, mcus[..sc.interval], |ts|), ScanItems(sc, mcus[sc.interval..], |ts|));
    }
  }

  /** Gathering agrees with emitting: if the tables have a code for every symbol that a statistics pass over the
      same MCUs counts, then no symbol of the output pass lacks one. */
  lemma GatherAgrees(sc: Scan, ts: seq<Table>, mcus: seq<Mcu>)
    requires ValidScan(sc, |ts|) && FitsScan(sc, mcus)
    requires forall tbl: nat, sym: nat :: Occurrences(AllItems(sc, EncodeScan(sc, ts, Begin(sc), mcus)), tbl, sym) > 0
                                          ==> ItemCoded(ts, Sym(tbl, sym))
    ensures ScanCoded(sc, ts, mcus)
  {
    hide ValidScan, FitsScan, EncodeScan, ScanItems, AllItems;
    PassWritesScan(sc, ts, mcus);
    ScanCodedIs(sc, ts, mcus);
    var items := ScanItems(sc, mcus, |ts|);
    forall i | 0 <= i < |items|
      ensures ItemCoded(ts, items[i])
    {
      if items[i].Sym? {
        OccursCounted(items, i);
      }
    }
  }

  // ----- error exits of a pass -----

  /** All MCUs of a pass are in range. */
  ghost predicate PassInRange(sc: Scan, ts: seq<Table>, s: ScanEnc, mcus: seq<Mcu>)
    requires ValidScan(sc, |ts|) && FitsScan(sc, mcus) && |s.e.lastDc| == |sc.mcu.dcTbl| && s.num < 8
    decreases |mcus|
  {
    |mcus| == 0 ||
      (FitsFirst(sc, mcus, if sc.interval > 0 && s.togo == 0 then Fresh(sc).lastDc else s.e.lastDc);
       && McuInRange(sc, if sc.interval > 0 && s.togo == 0 then Fresh(sc).lastDc else s.e.lastDc, mcus[0])
       && PassInRange(sc, ts, EncodeStep(sc, ts, s, mcus[0]), mcus[1..]))
  }

  /** Everything emitted so far, what is pending not included. */
  function Emitted(s: ScanEnc): seq<Item> {
    s.done + s.e.items
  }

  /** A step that is in range takes no error exit exactly if what it emits has codes. */
  lemma StepEmits(sc: Scan, ts: seq<Table>, gather: bool, s: ScanEnc, mcu: Mcu)
    requires ValidScan(sc, |ts|) && FitsMcu(sc.mcu, mcu, s.e.lastDc) && s.num < 8
    requires Coded(ts, Emitted(s)) || gather
    ensures !gather && StepEncodable(sc, ts, gather, s, mcu) ==> Coded(ts, Emitted(EncodeStep(sc, ts, s, mcu)))
    ensures FitsMcu(sc.mcu, mcu, if sc.interval > 0 && s.togo == 0 then Fresh(sc).lastDc else s.e.lastDc)
    ensures StepEncodable(sc, ts, gather, s, mcu) <==>
      && McuInRange(sc, if sc.interval > 0 && s.togo == 0 then Fresh(sc).lastDc else s.e.lastDc, mcu)
      && (gather || Coded(ts, Emitted(EncodeStep(sc, ts, s, mcu))))
  {
    hide Coded, Flush, OneMcu, McuInRange, ItemsBits, ByteStream.SegmentBytes;
    var restart := sc.interval > 0 && s.togo == 0;
    var e := if restart then Fresh(sc) else s.e;
    var f, one := Flush(BandOf(sc).tbl, s.e.pd), OneMcu(sc, e.lastDc, e.pd, mcu, |ts|).0;
    if restart {
      CodedConcat(ts, Emitted(s), f);
      CodedConcat(ts, Emitted(s) + f, one);
      assert s.done + (s.e.items + f) == Emitted(s) + f;
      assert s.done + (s.e.items + f) + ([] + one) == Emitted(s) + f + one;
    } else {
      CodedConcat(ts, Emitted(s), one);
      AssocAll(s.done, s.e.items, one);
    }
  }

  /** What has been emitted stays. */
  lemma {:induction false} EmittedStays(sc: Scan, ts: seq<Table>, s: ScanEnc, mcus: seq<Mcu>)
    requires ValidScan(sc, |ts|) && FitsScan(sc, mcus) && |s.e.lastDc| == |sc.mcu.dcTbl| && s.num < 8
    ensures Coded(ts, AllItems(sc, EncodeScan(sc, ts, s, mcus))) ==> Coded(ts, Emitted(s))
    decreases |mcus|
  {
    hide Coded, Flush, OneMcu, ItemsBits, ByteStream.SegmentBytes, ValidScan;
    if |mcus| == 0 {
      AssocAll(s.done, s.e.items, Flush(BandOf(sc).tbl, s.e.pd));
      CodedConcat(ts, Emitted(s), Flush(BandOf(sc).tbl, s.e.pd));
    } else {
      FitsFirst(sc, mcus, s.e.lastDc);
      EmittedStays(sc, ts, EncodeStep(sc, ts, s, mcus[0]), mcus[1..]);
      StepExtends(sc, ts, s, mcus[0]);
    }
  }

  lemma StepExtends(sc: Scan, ts: seq<Table>, s: ScanEnc, mcu: Mcu)
    requires ValidScan(sc, |ts|) && FitsMcu(sc.mcu, mcu, s.e.lastDc) && s.num < 8
    ensures Coded(ts, Emitted(EncodeStep(sc, ts, s, mcu))) ==> Coded(ts, Emitted(s))
  {
    hide Coded, Flush, OneMcu, ItemsBits, ByteStream.SegmentBytes;
    var restart := sc.interval > 0 && s.togo == 0;
    var e := if restart then Fresh(sc) else s.e;
    assert FitsMcu(sc.mcu, mcu, e.lastDc);
    var f, one := Flush(BandOf(sc).tbl, s.e.pd), OneMcu(sc, e.lastDc, e.pd, mcu, |ts|).0;
    if restart {
      CodedConcat(ts, Emitted(s), f);
      CodedConcat(ts, Emitted(s) + f, one);
      assert s.done + (s.e.items + f) + ([] + one) == Emitted(s) + f + one;
    } else {
      CodedConcat(ts, Emitted(s), one);
      AssocAll(s.done, s.e.items, one);
    }
  }

  /** The pass goes on with the next MCU, or an error exit shows that it cannot succeed. */
  lemma PassStep(sc: Scan, ts: seq<Table>, gather: bool, s: ScanEnc, mcus: seq<Mcu>)
    requires ValidScan(sc, |ts|) && FitsScan(sc, mcus) && |s.e.lastDc| == |sc.mcu.dcTbl| && s.num < 8 && |mcus| > 0
    requires gather || Coded(ts, Emitted(s))
    ensures FitsMcu(sc.mcu, mcus[0], s.e.lastDc)
    ensures !StepEncodable(sc, ts, gather, s, mcus[0]) ==>
      !PassInRange(sc, ts, s, mcus) || (!gather && !Coded(ts, AllItems(sc, EncodeScan(sc, ts, s, mcus))))
    ensures StepEncodable(sc, ts, gather, s, mcus[0]) ==>
      && (gather || Coded(ts, Emitted(EncodeStep(sc, ts, s, mcus[0]))))
      && (PassInRange(sc, ts, s, mcus) <==> PassInRange(sc, ts, EncodeStep(sc, ts, s, mcus[0]), mcus[1..]))
    ensures EncodeScan(sc, ts, s, mcus) == EncodeScan(sc, ts, EncodeStep(sc, ts, s, mcus[0]), mcus[1..])
  {
    hide Coded, Flush, OneMcu, ItemsBits, ByteStream.SegmentBytes, ValidScan, McuInRange, StepEncodable, EncodeStep, Emitted,
         AllItems;
    FitsFirst(sc, mcus, s.e.lastDc);
    StepEmits(sc, ts, gather, s, mcus[0]);
    EmittedStays(sc, ts, EncodeStep(sc, ts, s, mcus[0]), mcus[1..]);
  }

  lemma PassEnds(sc: Scan, ts: seq<Table>, s: ScanEnc)
    requires ValidScan(sc, |ts|) && |s.e.lastDc| == |sc.mcu.dcTbl| && s.num < 8
    ensures Coded(ts, AllItems(sc, s)) <==> Coded(ts, Emitted(s)) && Coded(ts, Flush(BandOf(sc).tbl, s.e.pd))
    ensures PassInRange(sc, ts, s, []) && EncodeScan(sc, ts, s, []) == s
  {
    hide Coded, Flush;
    CodedConcat(ts, Emitted(s), Flush(BandOf(sc).tbl, s.e.pd));
    AssocAll(s.done, s.e.items, Flush(BandOf(sc).tbl, s.e.pd));
  }

  lemma PassStarts(sc: Scan, ts: seq<Table>)
    ensures Coded(ts, Emitted(Begin(sc))) && |Begin(sc).e.lastDc| == |sc.mcu.dcTbl| && Begin(sc).num < 8
  {
    assert Emitted(Begin(sc)) == [];
  }
}
