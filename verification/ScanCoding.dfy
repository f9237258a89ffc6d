/** Whole scans: restart intervals, the bytes of a scan, and decoding MCU by MCU. */
module ScanCoding {
  import opened BitSeq
  import opened ByteStream
  import opened BitStream
  import opened Symbols
  import opened BlockCoding
  import opened AcFirstCoding
  import opened AcRefineCoding
  import opened DcCoding
  import SequentialCoding

  const RST0: nat := 0xD0

  /** The coding routine that start_pass selects. */
  datatype Kind = Sequential | DcFirst | DcRefine | AcFirst | AcRefine

  type Mcu = seq<Block>

  /** A scan: its coding routine, MCU structure, spectral band, bit position and restart interval (0: none). */
  datatype Scan = Scan(kind: Kind, mcu: McuSpec, ss: nat, se: nat, al: nat, interval: nat)

  function BandOf(sc: Scan): BandSpec {
    BandSpec(if |sc.mcu.acTbl| > 0 then sc.mcu.acTbl[0] else 0, sc.ss, sc.se, sc.al)
  }

  /** The scan parameters are those that the start_pass routines accept; AC scans have one block per MCU. */
  ghost predicate ValidScan(sc: Scan, n: nat) {
    && ValidMcu(sc.mcu, n)
    && sc.al <= 13
    && (sc.kind in {AcFirst, AcRefine} ==> ValidBand(BandOf(sc)) && sc.mcu.membership == [0] && |sc.mcu.dcTbl| == 1)
  }

  ghost predicate FitsOne(sc: Scan, mcu: Mcu) {
    |mcu| == |sc.mcu.membership| && Blocks(mcu)
  }

  ghost predicate FitsScan(sc: Scan, mcus: seq<Mcu>) {
    forall i :: 0 <= i < |mcus| ==> FitsOne(sc, mcus[i])
  }

  lemma FitsSplit(sc: Scan, mcus: seq<Mcu>, r: nat)
    requires FitsScan(sc, mcus) && r <= |mcus|
    ensures FitsScan(sc, mcus[..r]) && FitsScan(sc, mcus[r..])
  {
    hide FitsOne;
  }

  /** Decoder state that changes within a segment. */
  datatype DecState = DecState(st: Stream, lastDc: seq<int>, run: nat)

  function NoDc(sc: Scan): (r: seq<int>)
    ensures |r| == |sc.mcu.dcTbl|
  {
    seq(|sc.mcu.dcTbl|, _ => 0)
  }

  // ----- one restart segment -----

  /** One MCU of a sequential or DC scan: its items and the DC predictions behind it. */
  function EncodeDc(sc: Scan, mcu: Mcu, lastDc: seq<int>, n: nat): (r: (seq<Item>, seq<int>))
    requires ValidScan(sc, n) && FitsMcu(sc.mcu, mcu, lastDc)
    ensures |r.1| == |lastDc|
  {
    if sc.kind == Sequential then SequentialCoding.EncodeMcu(sc.mcu, mcu, lastDc, 0, n)
    else if sc.kind == DcFirst then EncodeDcFirst(sc.mcu, sc.al, mcu, lastDc, 0, n)
    else (EncodeDcRefine(sc.al, mcu, 0), lastDc)
  }

  /** The items of consecutive MCUs whose DC predictions start with lastDc. */
  function DcSegment(sc: Scan, mcus: seq<Mcu>, lastDc: seq<int>, n: nat): seq<Item>
    requires ValidScan(sc, n) && FitsScan(sc, mcus) && |lastDc| == |sc.mcu.dcTbl|
    decreases |mcus|
  {
    if |mcus| == 0 then [] else
      var e := EncodeDc(sc, mcus[0], lastDc, n);
      e.0 + DcSegment(sc, mcus[1..], e.1, n)
  }

  function FirstBlocks(mcus: seq<Mcu>): (r: seq<Block>)
    requires forall i :: 0 <= i < |mcus| ==> |mcus[i]| == 1 && Blocks(mcus[i])
    ensures |r| == |mcus| && forall i :: 0 <= i < |mcus| ==> r[i] == mcus[i][0] && |r[i]| == DCTSIZE2
  {
    var r := seq(|mcus|, i requires 0 <= i < |mcus| => mcus[i][0]);
    assert forall i :: 0 <= i < |mcus| ==> |r[i]| == DCTSIZE2 by {
      forall i | 0 <= i < |mcus|
        ensures |r[i]| == DCTSIZE2
      {
        assert Blocks(mcus[i]);
      }
    }
    r
  }

  /** All items of a segment, what is pending at its end included. */
  function SegmentItems(sc: Scan, mcus: seq<Mcu>, n: nat): seq<Item>
    requires ValidScan(sc, n) && FitsScan(sc, mcus)
  {
    match sc.kind
    case AcFirst => SegmentFirst(BandOf(sc), FirstBlocks(mcus), 0)
    case AcRefine => SegmentRefine(BandOf(sc), FirstBlocks(mcus), NOTHING)
    case _ => DcSegment(sc, mcus, NoDc(sc), n)
  }

  /** Decoding one MCU: the decode_mcu routines, restarts aside. */
  function DecodeOne(sc: Scan, ts: seq<Table>, d: DecState, mcu: Mcu): (r: (Mcu, DecState))
    requires ValidScan(sc, |ts|) && FitsMcu(sc.mcu, mcu, d.lastDc)
    ensures FitsMcu(sc.mcu, r.0, r.1.lastDc)
    ensures r.1.st.marker == d.st.marker && r.1.st.next == d.st.next
  {
    match sc.kind
    case Sequential =>
      if d.st.starved then (mcu, d) else
        var x := SequentialCoding.DecodeMcu(ts, sc.mcu, d.st, mcu, d.lastDc, 0);
        (x.0, d.(st := x.1, lastDc := x.2))
    case DcFirst =>
      if d.st.starved then (mcu, d) else
        var x := DecodeDcFirst(ts, sc.mcu, sc.al, d.st, mcu, d.lastDc, 0);
        (x.0, d.(st := x.1, lastDc := x.2))
    case DcRefine =>
      var x := DecodeDcRefine(sc.al, d.st, mcu, 0);
      (x.0, d.(st := x.1))
    case AcFirst =>
      var x := DecodeFirst(ts[BandOf(sc).tbl], BandOf(sc), d.st, d.run, mcu[0]);
      ([x.0], d.(st := x.1, run := x.2))
    case AcRefine =>
      var x := DecodeRefine(ts[BandOf(sc).tbl], BandOf(sc), d.st, d.run, mcu[0]);
      ([x.0], d.(st := x.1, run := x.2))
  }

  function DecodeAll(sc: Scan, ts: seq<Table>, d: DecState, mcus: seq<Mcu>): (r: (seq<Mcu>, DecState))
    requires ValidScan(sc, |ts|) && FitsScan(sc, mcus) && |d.lastDc| == |sc.mcu.dcTbl|
    ensures |r.0| == |mcus| && FitsScan(sc, r.0) && |r.1.lastDc| == |d.lastDc|
    decreases |mcus|
  {
    if |mcus| == 0 then ([], d) else
      var (m, d1) := DecodeOne(sc, ts, d, mcus[0]);
      var (rest, d2) := DecodeAll(sc, ts, d1, mcus[1..]);
      ([m] + rest, d2)
  }

  /** What an MCU holds after the scan, given what it held before. */
  function Sent(sc: Scan, mcu: Mcu, before: Mcu): (r: Mcu)
    requires |mcu| == |before| == |sc.mcu.membership| && Blocks(mcu) && Blocks(before)
    ensures |r| == |mcu| && Blocks(r)
  {
    match sc.kind
    case Sequential => mcu
    case DcFirst => DcsSent(mcu, before, sc.al, 0)
    case DcRefine => DcsRefined(mcu, before, sc.al, 0)
    case _ => seq(|mcu|, i requires 0 <= i < |mcu| => BandSent(BandOf(sc), mcu[i], before[i]))
  }

  function AllSent(sc: Scan, mcus: seq<Mcu>, before: seq<Mcu>): (r: seq<Mcu>)
    requires FitsScan(sc, mcus) && FitsScan(sc, before) && |mcus| == |before|
    ensures |r| == |mcus| && FitsScan(sc, r)
  {
    seq(|mcus|, i requires 0 <= i < |mcus| => Sent(sc, mcus[i], before[i]))
  }

  /** An MCU passes the encoder's range checks, and the decoder's MCU holds what the earlier scans left. */
  ghost predicate Ready(sc: Scan, mcu: Mcu, before: Mcu)
    requires |mcu| == |before| == |sc.mcu.membership| && Blocks(mcu) && Blocks(before)
  {
    && ShortBlocks(mcu)
    && match sc.kind
       case Sequential => SequentialCoding.AllInRange(mcu) && SequentialCoding.AcZeroFrom(before, 0)
       case DcFirst => true
       case DcRefine => true
       case AcFirst => ValidBand(BandOf(sc)) && forall i :: 0 <= i < |mcu| ==>
           BandInRange(Shifted(mcu[i], sc.al), sc.ss, sc.se) && BandZero(BandOf(sc), before[i])
       case AcRefine => forall i :: 0 <= i < |mcu| ==> before[i] == Mixed(BandOf(sc), mcu[i], before[i], sc.ss)
  }

  ghost predicate AllReady(sc: Scan, mcus: seq<Mcu>, before: seq<Mcu>) {
    && FitsScan(sc, mcus) && FitsScan(sc, before) && |mcus| == |before|
    && forall i :: 0 <= i < |mcus| ==> Ready(sc, mcus[i], before[i])
  }

  /** Decoding a segment of a DC or sequential scan. */
  lemma {:induction false} DcSegmentRoundTrip(sc: Scan, ts: seq<Table>, mcus: seq<Mcu>, before: seq<Mcu>, d: DecState, st: Stream)
    requires ValidScan(sc, |ts|) && sc.kind !in {AcFirst, AcRefine} && AllReady(sc, mcus, before)
    requires |d.lastDc| == |sc.mcu.dcTbl| && !st.starved
    requires Coded(ts, DcSegment(sc, mcus, d.lastDc, |ts|))
    requires d.st == Ahead(ts, DcSegment(sc, mcus, d.lastDc, |ts|), st)
    ensures var r := DecodeAll(sc, ts, d, before);
      r.0 == AllSent(sc, mcus, before) && r.1.st == st && r.1.run == d.run
    decreases |mcus|
  {
    hide Coded, Ahead, SequentialCoding.EncodeMcu, EncodeDcFirst, EncodeDcRefine, SequentialCoding.DecodeMcu,
         DecodeDcFirst, DecodeDcRefine, DcsSent, DcsRefined, ShortBlocks, SequentialCoding.AllInRange,
         SequentialCoding.AcZeroFrom;
    if |mcus| == 0 {
      AheadConcat(ts, [], [], st);
    } else {
      var e := EncodeDc(sc, mcus[0], d.lastDc, |ts|);
      var more := DcSegment(sc, mcus[1..], e.1, |ts|);
      CodedConcat(ts, e.0, more);
      AheadConcat(ts, e.0, more, st);
      var st1 := Ahead(ts, more, st);
      assert Ready(sc, mcus[0], before[0]);
      OneRoundTrip(sc, ts, mcus[0], before[0], d, st1);
      DcSegmentRoundTrip(sc, ts, mcus[1..], before[1..], d.(st := st1, lastDc := e.1), st);
      AllSentStep(sc, mcus, before);
    }
  }

  lemma AllSentStep(sc: Scan, mcus: seq<Mcu>, before: seq<Mcu>)
    requires FitsScan(sc, mcus) && FitsScan(sc, before) && |mcus| == |before| > 0
    ensures [Sent(sc, mcus[0], before[0])] + AllSent(sc, mcus[1..], before[1..]) == AllSent(sc, mcus, before)
  {
    hide Sent;
  }

  /** Decoding one MCU of a DC or sequential scan. */
  lemma OneRoundTrip(sc: Scan, ts: seq<Table>, mcu: Mcu, before: Mcu, d: DecState, st: Stream)
    requires ValidScan(sc, |ts|) && sc.kind !in {AcFirst, AcRefine}
    requires FitsMcu(sc.mcu, mcu, d.lastDc) && FitsMcu(sc.mcu, before, d.lastDc) && Ready(sc, mcu, before)
    requires !st.starved
    ensures var e := EncodeDc(sc, mcu, d.lastDc, |ts|);
      Coded(ts, e.0) && d.st == Ahead(ts, e.0, st) ==>
        DecodeOne(sc, ts, d, before) == (Sent(sc, mcu, before), d.(st := st, lastDc := e.1))
  {
    hide Coded, Ahead, SequentialCoding.EncodeMcu, EncodeDcFirst, EncodeDcRefine, SequentialCoding.DecodeMcu,
         DecodeDcFirst, DecodeDcRefine, DcsSent, DcsRefined, ShortBlocks, SequentialCoding.AllInRange,
         SequentialCoding.AcZeroFrom;
    if sc.kind == Sequential {
      var e := SequentialCoding.EncodeMcu(sc.mcu, mcu, d.lastDc, 0, |ts|);
      if Coded(ts, e.0) {
        SequentialCoding.McuRoundTrip(ts, sc.mcu, mcu, before, d.lastDc, 0, st);
        assert before[..0] + mcu[0..] == mcu;
      }
    } else if sc.kind == DcFirst {
      var e := EncodeDcFirst(sc.mcu, sc.al, mcu, d.lastDc, 0, |ts|);
      if Coded(ts, e.0) {
        DcFirstRoundTrip(ts, sc.mcu, sc.al, mcu, before, d.lastDc, 0, st);
      }
    } else {
      DcRefineRoundTrip(ts, sc.al, mcu, before, 0, st);
    }
  }

  // ----- AC scans: MCUs of one block -----

  ghost predicate SingleBlocks(sc: Scan, mcus: seq<Mcu>) {
    FitsScan(sc, mcus) && sc.mcu.membership == [0]
  }

  /** Decoding the MCUs of a first AC scan is decoding their blocks. */
  lemma {:induction false} AllFirst(sc: Scan, ts: seq<Table>, d: DecState, mcus: seq<Mcu>)
    requires ValidScan(sc, |ts|) && sc.kind == AcFirst && FitsScan(sc, mcus) && |d.lastDc| == |sc.mcu.dcTbl|
    ensures var r := DecodeAll(sc, ts, d, mcus);
      var x := DecodeFirstAll(ts[BandOf(sc).tbl], BandOf(sc), d.st, d.run, FirstBlocks(mcus));
      FirstBlocks(r.0) == x.0 && r.1 == d.(st := x.1, run := x.2)
    decreases |mcus|
  {
    hide DecodeFirst;
    if |mcus| > 0 {
      var (m, d1) := DecodeOne(sc, ts, d, mcus[0]);
      AllFirst(sc, ts, d1, mcus[1..]);
      assert FirstBlocks(mcus)[1..] == FirstBlocks(mcus[1..]);
      var rest := DecodeAll(sc, ts, d1, mcus[1..]).0;
      assert FirstBlocks([m] + rest) == [m[0]] + FirstBlocks(rest);
    }
  }

  lemma {:induction false} AllRefine(sc: Scan, ts: seq<Table>, d: DecState, mcus: seq<Mcu>)
    requires ValidScan(sc, |ts|) && sc.kind == AcRefine && FitsScan(sc, mcus) && |d.lastDc| == |sc.mcu.dcTbl|
    ensures var r := DecodeAll(sc, ts, d, mcus);
      var x := DecodeRefineAll(ts[BandOf(sc).tbl], BandOf(sc), d.st, d.run, FirstBlocks(mcus));
      FirstBlocks(r.0) == x.0 && r.1 == d.(st := x.1, run := x.2)
    decreases |mcus|
  {
    hide DecodeRefine;
    if |mcus| > 0 {
      var (m, d1) := DecodeOne(sc, ts, d, mcus[0]);
      AllRefine(sc, ts, d1, mcus[1..]);
      assert FirstBlocks(mcus)[1..] == FirstBlocks(mcus[1..]);
      var rest := DecodeAll(sc, ts, d1, mcus[1..]).0;
      assert FirstBlocks([m] + rest) == [m[0]] + FirstBlocks(rest);
    }
  }

  lemma SameFirstBlocks(sc: Scan, a: seq<Mcu>, b: seq<Mcu>)
    requires SingleBlocks(sc, a) && SingleBlocks(sc, b) && FirstBlocks(a) == FirstBlocks(b)
    ensures a == b
  {
    forall i | 0 <= i < |a|
      ensures a[i] == b[i]
    {
      assert FirstBlocks(a)[i] == FirstBlocks(b)[i];
      assert a[i] == [a[i][0]] && b[i] == [b[i][0]];
    }
  }

  lemma SentBlocks(sc: Scan, mcus: seq<Mcu>, before: seq<Mcu>)
    requires SingleBlocks(sc, mcus) && SingleBlocks(sc, before) && |mcus| == |before| && sc.kind in {AcFirst, AcRefine}
    ensures FirstBlocks(AllSent(sc, mcus, before)) == BandsSent(BandOf(sc), FirstBlocks(mcus), FirstBlocks(before))
  {
    hide BandSent;
  }

  /** Every segment decodes to what the scan sends, and leaves exactly the bits behind it. */
  lemma SegmentRoundTrip(sc: Scan, ts: seq<Table>, mcus: seq<Mcu>, before: seq<Mcu>, st: Stream)
    requires ValidScan(sc, |ts|) && AllReady(sc, mcus, before) && !st.starved
    requires Coded(ts, SegmentItems(sc, mcus, |ts|))
    ensures var r := DecodeAll(sc, ts, DecState(Ahead(ts, SegmentItems(sc, mcus, |ts|), st), NoDc(sc), 0), before);
      r.0 == AllSent(sc, mcus, before) && r.1.st == st && r.1.run == 0
  {
    hide Coded, Ahead, DecodeAll, DcSegment, SegmentFirst, SegmentRefine, DecodeFirstAll, DecodeRefineAll, AllSent,
         BandsSent, Ready;
    var items := SegmentItems(sc, mcus, |ts|);
    var d := DecState(Ahead(ts, items, st), NoDc(sc), 0);
    if sc.kind == AcFirst {
      AllFirst(sc, ts, d, before);
      ReadyForFirst(sc, ts, mcus, before);
      FirstRoundTrip(ts, BandOf(sc), FirstBlocks(mcus), FirstBlocks(before), st);
      SentBlocks(sc, mcus, before);
      SameFirstBlocks(sc, DecodeAll(sc, ts, d, before).0, AllSent(sc, mcus, before));
    } else if sc.kind == AcRefine {
      AllRefine(sc, ts, d, before);
      ReadyForRefine(sc, ts, mcus, before);
      RefineRoundTrip(ts, BandOf(sc), FirstBlocks(mcus), FirstBlocks(before), FirstBlocks(before), st);
      SentBlocks(sc, mcus, before);
      SameFirstBlocks(sc, DecodeAll(sc, ts, d, before).0, AllSent(sc, mcus, before));
    } else {
      DcSegmentRoundTrip(sc, ts, mcus, before, d, st);
    }
  }

  lemma ReadyForFirst(sc: Scan, ts: seq<Table>, mcus: seq<Mcu>, before: seq<Mcu>)
    requires ValidScan(sc, |ts|) && sc.kind == AcFirst && AllReady(sc, mcus, before)
    ensures SegmentReady(ts, BandOf(sc), FirstBlocks(mcus), FirstBlocks(before))
  {
    hide BandZero, BandInRange, Shifted;
    forall i | 0 <= i < |mcus|
      ensures Encodable(BandOf(sc), mcus[i][0]) && BandZero(BandOf(sc), before[i][0])
    {
      assert Ready(sc, mcus[i], before[i]);
      assert ShortBlock(mcus[i][0]);
    }
  }

  lemma ReadyForRefine(sc: Scan, ts: seq<Table>, mcus: seq<Mcu>, before: seq<Mcu>)
    requires ValidScan(sc, |ts|) && sc.kind == AcRefine && AllReady(sc, mcus, before)
    ensures RefineReady(ts, BandOf(sc), FirstBlocks(mcus), FirstBlocks(before), FirstBlocks(before))
  {
    hide Mixed, ShortBlock;
    forall i | 0 <= i < |mcus|
      ensures ShortBlock(mcus[i][0]) && before[i][0] == Mixed(BandOf(sc), mcus[i][0], before[i][0], sc.ss)
    {
      assert Ready(sc, mcus[i], before[i]);
    }
  }

  // ----- restarts -----

  /** Decoder state of a scan: restarts_to_go and the marker reader's next_restart_num besides the segment state. */
  datatype ScanState = ScanState(d: DecState, togo: nat, num: nat)

  /** jpeg_resync_to_restart: the action for a marker that is not the expected RST. */
  datatype Action = Discard | SkipOn | Leave

  function ResyncAction(marker: nat, desired: nat): Action {
    if marker < 0xC0 then SkipOn
    else if marker < RST0 || marker > RST0 + 7 then Leave
    else if marker == RST0 + (desired + 1) % 8 || marker == RST0 + (desired + 2) % 8 then Leave
    else if marker == RST0 + (desired + 7) % 8 || marker == RST0 + (desired + 6) % 8 then SkipOn
    else Discard
  }

  /** Where reading goes on after a wrong marker; a data stream that ends meanwhile has an empty rest. */
  function Resync(data: seq<Byte>, st: Stream, desired: nat): (r: Stream)
    requires st.next <= |data|
    ensures r.next <= |data|
    decreases |data| - st.next
  {
    if st.marker == 0 then st.(bits := [])
    else match ResyncAction(st.marker, desired)
      case Discard => StreamAt(data, st.next)
      case Leave => st.(bits := [])
      case SkipOn =>
        var s := StreamAt(data, st.next);
        if s.marker == 0 then Stream([], st.starved, 0, s.next)
        else Resync(data, Stream([], st.starved, s.marker, s.next), desired)
  }

  /** process_restart on the stream: drop the rest of the segment and go behind its marker. */
  function Restart(data: seq<Byte>, st: Stream, num: nat): (r: Stream)
    requires st.next <= |data|
    ensures r.next <= |data|
  {
    if st.marker == RST0 + num then StreamAt(data, st.next) else Resync(data, st, num)
  }

  /** restarts_to_go is an unsigned int. */
  function Decrement(togo: nat): nat {
    if togo == 0 then 0xFFFF_FFFF else togo - 1
  }

  /** One decode_mcu call, its restart processing included. */
  function DecodeStep(data: seq<Byte>, sc: Scan, ts: seq<Table>, s: ScanState, mcu: Mcu): (r: (Mcu, ScanState))
    requires ValidScan(sc, |ts|) && FitsMcu(sc.mcu, mcu, s.d.lastDc) && s.d.st.next <= |data|
    ensures FitsMcu(sc.mcu, r.0, r.1.d.lastDc) && r.1.d.st.next <= |data|
  {
    var s1 := if sc.interval > 0 && s.togo == 0
      then ScanState(DecState(Restart(data, s.d.st, s.num), NoDc(sc), 0), sc.interval, (s.num + 1) % 8) else s;
    var (m, d) := DecodeOne(sc, ts, s1.d, mcu);
    (m, ScanState(d, Decrement(s1.togo), s1.num))
  }

  function DecodeScan(data: seq<Byte>, sc: Scan, ts: seq<Table>, s: ScanState, mcus: seq<Mcu>): (r: (seq<Mcu>, ScanState))
    requires ValidScan(sc, |ts|) && FitsScan(sc, mcus) && |s.d.lastDc| == |sc.mcu.dcTbl| && s.d.st.next <= |data|
    ensures |r.0| == |mcus| && FitsScan(sc, r.0) && |r.1.d.lastDc| == |s.d.lastDc| && r.1.d.st.next <= |data|
    decreases |mcus|
  {
    if |mcus| == 0 then ([], s) else
      var (m, s1) := DecodeStep(data, sc, ts, s, mcus[0]);
      var (rest, s2) := DecodeScan(data, sc, ts, s1, mcus[1..]);
      ([m] + rest, s2)
  }

  /** The bytes of a scan: its segments, separated by the markers RST0..RST7 in turn. */
  function ScanBytes(sc: Scan, ts: seq<Table>, mcus: seq<Mcu>, num: nat): seq<Byte>
    requires ValidScan(sc, |ts|) && FitsScan(sc, mcus) && num < 8
    decreases |mcus|
  {
    if sc.interval == 0 || |mcus| <= sc.interval then SegmentBytes(ItemsBits(ts, SegmentItems(sc, mcus, |ts|)))
    else
      FitsSplit(sc, mcus, sc.interval);
      var marker: seq<Byte> := [0xFF, RST0 + num];
      SegmentBytes(ItemsBits(ts, SegmentItems(sc, mcus[..sc.interval], |ts|))) + marker
         + ScanBytes(sc, ts, mcus[sc.interval..], (num + 1) % 8)
  }

  /** Every symbol of the scan has a code. */
  ghost predicate ScanCoded(sc: Scan, ts: seq<Table>, mcus: seq<Mcu>)
    requires ValidScan(sc, |ts|) && FitsScan(sc, mcus)
    decreases |mcus|
  {
    if sc.interval == 0 || |mcus| <= sc.interval then Coded(ts, SegmentItems(sc, mcus, |ts|))
    else
      FitsSplit(sc, mcus, sc.interval);
      Coded(ts, SegmentItems(sc, mcus[..sc.interval], |ts|)) && ScanCoded(sc, ts, mcus[sc.interval..])
  }

  /** Within a segment no restart happens. */
  lemma {:induction false} NoRestart(data: seq<Byte>, sc: Scan, ts: seq<Table>, s: ScanState, mcus: seq<Mcu>)
    requires ValidScan(sc, |ts|) && FitsScan(sc, mcus) && |s.d.lastDc| == |sc.mcu.dcTbl| && s.d.st.next <= |data|
    requires sc.interval == 0 || |mcus| <= s.togo
    ensures var r, x := DecodeScan(data, sc, ts, s, mcus), DecodeAll(sc, ts, s.d, mcus);
      && r.0 == x.0 && r.1.d == x.1 && r.1.num == s.num
      && (sc.interval > 0 ==> r.1.togo == s.togo - |mcus|)
    decreases |mcus|
  {
    hide DecodeOne;
    if |mcus| > 0 {
      var (m, s1) := DecodeStep(data, sc, ts, s, mcus[0]);
      NoRestart(data, sc, ts, s1, mcus[1..]);
    }
  }

  lemma {:induction false} DecodeScanSplit(data: seq<Byte>, sc: Scan, ts: seq<Table>, s: ScanState, mcus: seq<Mcu>, n: nat)
    requires ValidScan(sc, |ts|) && FitsScan(sc, mcus) && |s.d.lastDc| == |sc.mcu.dcTbl| && s.d.st.next <= |data|
    requires n <= |mcus|
    ensures var a := DecodeScan(data, sc, ts, s, mcus[..n]);
      var b := DecodeScan(data, sc, ts, a.1, mcus[n..]);
      DecodeScan(data, sc, ts, s, mcus) == (a.0 + b.0, b.1)
    decreases n
  {
    hide DecodeStep;
    if n == 0 {
      assert mcus[..0] == [] && mcus[0..] == mcus;
      var r := DecodeScan(data, sc, ts, s, mcus);
      assert [] + r.0 == r.0;
    } else {
      var (m, s1) := DecodeStep(data, sc, ts, s, mcus[0]);
      DecodeScanSplit(data, sc, ts, s1, mcus[1..], n - 1);
      assert mcus[..n][1..] == mcus[1..][..n - 1] && mcus[1..][n - 1..] == mcus[n..];
      var a := DecodeScan(data, sc, ts, s1, mcus[1..][..n - 1]);
      var b := DecodeScan(data, sc, ts, a.1, mcus[n..]);
      assert [m] + (a.0 + b.0) == [m] + a.0 + b.0;
    }
  }

  // ----- the round trip of a scan -----

  /** At position pos of data the bytes of the scan begin, and marker m stands behind them. */
  ghost predicate ScanAt(data: seq<Byte>, pos: nat, bytes: seq<Byte>, m: nat) {
    && pos + |bytes| + 2 <= |data|
    && data[pos..pos + |bytes|] == bytes
    && data[pos + |bytes|] == 0xFF && data[pos + |bytes| + 1] == m
    && m != 0 && m != 0xFF
  }

  /** The stream of a segment: its items, fewer than eight padding bits of one, and the marker behind it. */
  lemma SegmentStream(data: seq<Byte>, pos: nat, ts: seq<Table>, items: seq<Item>, m: nat) returns (pad: Stream)
    requires ScanAt(data, pos, SegmentBytes(ItemsBits(ts, items)), m)
    ensures StreamAt(data, pos) == Ahead(ts, items, pad)
    ensures |pad.bits| < 8 && pad == Stream(Repeat(true, |pad.bits|), false, m,
                                            pos + |SegmentBytes(ItemsBits(ts, items))| + 2)
  {
    var b := ItemsBits(ts, items);
    var n := ScanSegmentBytes(data, pos, b, m);
    pad := Stream(Repeat(true, n), false, m, pos + |SegmentBytes(b)| + 2);
  }

  /** A scan that ends in another segment: the first one, its RST marker, and the rest. */
  lemma ScanAtSplit(data: seq<Byte>, pos: nat, a: seq<Byte>, rst: Byte, c: seq<Byte>, m: nat)
    requires ScanAt(data, pos, a + [0xFF, rst] + c, m) && rst != 0 && rst != 0xFF
    ensures ScanAt(data, pos, a, rst) && ScanAt(data, pos + |a| + 2, c, m)
  {
    var w := a + [0xFF, rst] + c;
    var d := data[pos..pos + |w|];
    assert d == w;
    assert data[pos..pos + |a|] == d[..|a|] == a;
    assert data[pos + |a|] == d[|a|] && data[pos + |a| + 1] == d[|a| + 1];
    assert data[pos + |a| + 2..pos + |a| + 2 + |c|] == d[|a| + 2..] == c;
  }

  /** The first segment of a scan, decoded from its start. */
  lemma DecodeSegment(data: seq<Byte>, pos: nat, sc: Scan, ts: seq<Table>, mcus: seq<Mcu>, before: seq<Mcu>, num: nat, m: nat)
    returns (s: ScanState)
    requires pos <= |data| && ValidScan(sc, |ts|) && AllReady(sc, mcus, before)
    requires sc.interval == 0 || |mcus| <= sc.interval
    requires Coded(ts, SegmentItems(sc, mcus, |ts|))
    requires ScanAt(data, pos, SegmentBytes(ItemsBits(ts, SegmentItems(sc, mcus, |ts|))), m)
    ensures s.d.st.next <= |data|
    ensures DecodeScan(data, sc, ts, ScanState(DecState(StreamAt(data, pos), NoDc(sc), 0), sc.interval, num), before)
         == (AllSent(sc, mcus, before), s)
    ensures Finished(s.d, m, pos + |SegmentBytes(ItemsBits(ts, SegmentItems(sc, mcus, |ts|)))| + 2)
    ensures s.num == num && (sc.interval > 0 ==> s.togo == sc.interval - |mcus|)
  {
    hide Coded, Ahead, AllSent, DecodeAll, DecodeScan, SegmentItems, StreamAt, Ready;
    var items := SegmentItems(sc, mcus, |ts|);
    var pad := SegmentStream(data, pos, ts, items, m);
    SegmentRoundTrip(sc, ts, mcus, before, pad);
    var s0 := ScanState(DecState(StreamAt(data, pos), NoDc(sc), 0), sc.interval, num);
    NoRestart(data, sc, ts, s0, before);
    s := DecodeScan(data, sc, ts, s0, before).1;
  }

  /** Nothing but padding is left of the segment, no run is pending, nothing was made up. */
  ghost predicate Finished(d: DecState, m: nat, next: nat) {
    && !d.st.starved && |d.st.bits| < 8 && d.st.bits == Repeat(true, |d.st.bits|)
    && d.st.marker == m && d.st.next == next && d.run == 0
  }

  /** Decoding the bytes of a scan returns what the scan sends, for any restart interval; markers and counters
      stay in step, only padding is dropped and no zero bits are made up. */
  lemma {:induction false} ScanRoundTrip(data: seq<Byte>, pos: nat, sc: Scan, ts: seq<Table>, mcus: seq<Mcu>,
                                         before: seq<Mcu>, num: nat, m: nat) returns (s: ScanState)
    requires pos <= |data| && ValidScan(sc, |ts|) && AllReady(sc, mcus, before) && num < 8
    requires ScanCoded(sc, ts, mcus) && ScanAt(data, pos, ScanBytes(sc, ts, mcus, num), m)
    ensures s.d.st.next <= |data|
    ensures DecodeScan(data, sc, ts, ScanState(DecState(StreamAt(data, pos), NoDc(sc), 0), sc.interval, num), before)
         == (AllSent(sc, mcus, before), s)
    ensures Finished(s.d, m, pos + |ScanBytes(sc, ts, mcus, num)| + 2)
    decreases |mcus|
  {
    hide Coded, DecodeAll, AllSent, SegmentItems, StreamAt, Ready, DecodeScan, SegmentBytes, ItemsBits, ValidScan, FitsScan;
    if sc.interval == 0 || |mcus| <= sc.interval {
      s := DecodeSegment(data, pos, sc, ts, mcus, before, num, m);
    } else {
      var r := sc.interval;
      ReadySplit(sc, mcus, before, r);
      var s1 := FirstSegment(data, pos, sc, ts, mcus, before, num, m);
      s := ScanRoundTrip(data, s1.d.st.next, sc, ts, mcus[r..], before[r..], (num + 1) % 8, m);
      RestartHere(data, sc, ts, s1, before[r..], num);
      DecodeScanSplit(data, sc, ts, ScanState(DecState(StreamAt(data, pos), NoDc(sc), 0), r, num), before, r);
      AllSentSplit(sc, mcus, before, r);
    }
  }

  lemma FirstSegment(data: seq<Byte>, pos: nat, sc: Scan, ts: seq<Table>, mcus: seq<Mcu>, before: seq<Mcu>, num: nat, m: nat)
    returns (s: ScanState)
    requires pos <= |data| && ValidScan(sc, |ts|) && AllReady(sc, mcus, before) && num < 8
    requires 0 < sc.interval < |mcus|
    requires ScanCoded(sc, ts, mcus) && ScanAt(data, pos, ScanBytes(sc, ts, mcus, num), m)
    ensures var r := sc.interval;
      && AllReady(sc, mcus[..r], before[..r]) && AllReady(sc, mcus[r..], before[r..]) && s.d.st.next <= |data|
      && DecodeScan(data, sc, ts, ScanState(DecState(StreamAt(data, pos), NoDc(sc), 0), r, num), before[..r])
         == (AllSent(sc, mcus[..r], before[..r]), s)
      && s.togo == 0 && s.num == num && s.d.st.marker == RST0 + num
      && ScanAt(data, s.d.st.next, ScanBytes(sc, ts, mcus[r..], (num + 1) % 8), m)
      && s.d.st.next + |ScanBytes(sc, ts, mcus[r..], (num + 1) % 8)| == pos + |ScanBytes(sc, ts, mcus, num)|
  {
    hide Coded, DecodeAll, AllSent, SegmentItems, StreamAt, Ready, DecodeScan, SegmentBytes, ItemsBits, ValidScan, FitsScan;
    var r := sc.interval;
    ReadySplit(sc, mcus, before, r);
    var a, c := SegmentBytes(ItemsBits(ts, SegmentItems(sc, mcus[..r], |ts|))), ScanBytes(sc, ts, mcus[r..], (num + 1) % 8);
    ScanAtSplit(data, pos, a, RST0 + num, c, m);
    s := DecodeSegment(data, pos, sc, ts, mcus[..r], before[..r], num, RST0 + num);
  }

  lemma ReadySplit(sc: Scan, mcus: seq<Mcu>, before: seq<Mcu>, r: nat)
    requires AllReady(sc, mcus, before) && r <= |mcus|
    ensures AllReady(sc, mcus[..r], before[..r]) && AllReady(sc, mcus[r..], before[r..])
  {
    hide Ready;
  }

  lemma AllSentSplit(sc: Scan, mcus: seq<Mcu>, before: seq<Mcu>, r: nat)
    requires AllReady(sc, mcus, before) && r <= |mcus|
    ensures AllReady(sc, mcus[..r], before[..r]) && AllReady(sc, mcus[r..], before[r..])
    ensures AllSent(sc, mcus[..r], before[..r]) + AllSent(sc, mcus[r..], before[r..]) == AllSent(sc, mcus, before)
  {
    ReadySplit(sc, mcus, before, r);
    hide Ready, Sent;
  }

  /** At the end of a restart interval decoding goes on behind the expected marker, from a fresh state. */
  lemma RestartHere(data: seq<Byte>, sc: Scan, ts: seq<Table>, s: ScanState, mcus: seq<Mcu>, num: nat)
    requires ValidScan(sc, |ts|) && FitsScan(sc, mcus) && |s.d.lastDc| == |sc.mcu.dcTbl| && s.d.st.next <= |data|
    requires sc.interval > 0 && s.togo == 0 && s.num == num && s.d.st.marker == RST0 + num && |mcus| > 0
    ensures DecodeScan(data, sc, ts, s, mcus)
         == DecodeScan(data, sc, ts, ScanState(DecState(StreamAt(data, s.d.st.next), NoDc(sc), 0), sc.interval, (num + 1) % 8),
                       mcus)
  {
    hide DecodeOne, StreamAt;
    var s1 := ScanState(DecState(StreamAt(data, s.d.st.next), NoDc(sc), 0), sc.interval, (num + 1) % 8);
    assert DecodeStep(data, sc, ts, s, mcus[0]) == DecodeStep(data, sc, ts, s1, mcus[0]);
  }
}
