/** One decode_mcu call of the specification in its parts: the restart that may be due, and the MCU; shared by the
    sequential and the progressive decoder. */
module DecoderSteps {
  import opened ByteStream
  import opened BitStream
  import BitReader
  import opened Symbols
  import opened BlockCoding
  import opened AcFirstCoding
  import opened DcCoding
  import opened ScanCoding
  import MarkerReader
  import opened DecoderLoops

  /** The state behind a restart that is due. */
  function Begun(data: seq<Byte>, sc: Scan, s: ScanState): (r: ScanState)
    requires s.d.st.next <= |data|
    ensures r.d.st.next <= |data|
  {
    if sc.interval > 0 && s.togo == 0 then ScanState(DecState(Restart(data, s.d.st, s.num), NoDc(sc), 0), sc.interval, (s.num + 1) % 8)
    else s
  }

  /** A restart that is due recovers, and a marker ends the segment. */
  ghost predicate StepDelivered(data: seq<Byte>, sc: Scan, s: ScanState)
    requires s.d.st.next <= |data|
  {
    && (sc.interval > 0 && s.togo == 0 ==> MarkerReader.Recovers(data, s.d.st, s.num))
    && Begun(data, sc, s).d.st.marker != 0
  }

  /** The outcome of a decode_mcu call from state s0 and blocks zz0: either it made the step of the specification; or the
      source suspended it, and from what it left the step of the specification gives the same as from s0 and zz0. */
  ghost predicate Stepped(data: seq<Byte>, sc: Scan, ts: seq<Table>, s0: ScanState, zz0: Mcu, s: ScanState, zz: Mcu, ok: bool) {
    && ValidScan(sc, |ts|) && s0.d.st.next <= |data| && s.d.st.next <= |data|
    && FitsMcu(sc.mcu, zz0, s0.d.lastDc) && FitsMcu(sc.mcu, zz, s.d.lastDc)
    && if ok then (zz, s) == DecodeStep(data, sc, ts, s0, zz0)
       else DecodeStep(data, sc, ts, s, zz) == DecodeStep(data, sc, ts, s0, zz0)
  }

  lemma SteppedIs(data: seq<Byte>, sc: Scan, ts: seq<Table>, s0: ScanState, zz0: Mcu, s: ScanState, zz: Mcu, ok: bool)
    requires Stepped(data, sc, ts, s0, zz0, s, zz, ok)
    ensures ValidScan(sc, |ts|) && s0.d.st.next <= |data| && s.d.st.next <= |data|
    ensures FitsMcu(sc.mcu, zz0, s0.d.lastDc) && FitsMcu(sc.mcu, zz, s.d.lastDc)
    ensures ok ==> (zz, s) == DecodeStep(data, sc, ts, s0, zz0)
    ensures !ok ==> DecodeStep(data, sc, ts, s, zz) == DecodeStep(data, sc, ts, s0, zz0)
  {
    hide DecodeStep, ValidScan, FitsMcu;
  }

  /** Suspension is invisible: after any number of attempts that the source suspended, wherever it did, the attempt that
      succeeds leaves the blocks and the state that decoding with all bytes present from the beginning would have left. */
  lemma {:induction false} SuspensionInvisible(data: seq<Byte>, sc: Scan, ts: seq<Table>, states: seq<ScanState>, mcus: seq<Mcu>)
    requires |states| == |mcus| >= 2
    requires forall i :: 0 <= i < |states| - 1 ==>
      Stepped(data, sc, ts, states[i], mcus[i], states[i + 1], mcus[i + 1], i == |states| - 2)
    ensures ValidScan(sc, |ts|) && FitsMcu(sc.mcu, mcus[0], states[0].d.lastDc) && states[0].d.st.next <= |data|
    ensures (mcus[|mcus| - 1], states[|states| - 1]) == DecodeStep(data, sc, ts, states[0], mcus[0])
    decreases |states|
  {
    hide DecodeStep, ValidScan, FitsMcu;
    assert Stepped(data, sc, ts, states[0], mcus[0], states[1], mcus[1], 0 == |states| - 2);
    if |states| > 2 {
      var rest, more := states[1..], mcus[1..];
      forall i | 0 <= i < |rest| - 1
        ensures Stepped(data, sc, ts, rest[i], more[i], rest[i + 1], more[i + 1], i == |rest| - 2)
      {
        assert Stepped(data, sc, ts, states[i + 1], mcus[i + 1], states[i + 2], mcus[i + 2], i + 1 == |states| - 2);
      }
      SuspensionInvisible(data, sc, ts, rest, more);
    }
  }

  /** The same for the blocks of an MCU alone; a suspension leaves the decoder state as it was. */
  ghost predicate Decoded(sc: Scan, ts: seq<Table>, d0: DecState, zz0: Mcu, d: DecState, zz: Mcu, ok: bool) {
    && ValidScan(sc, |ts|) && FitsMcu(sc.mcu, zz0, d0.lastDc) && FitsMcu(sc.mcu, zz, d.lastDc) && FitsMcu(sc.mcu, zz, d0.lastDc)
    && if ok then (zz, d) == DecodeOne(sc, ts, d0, zz0)
       else d == d0 && DecodeOne(sc, ts, d0, zz) == DecodeOne(sc, ts, d0, zz0)
  }

  lemma DecodedIs(sc: Scan, ts: seq<Table>, d0: DecState, zz0: Mcu, d: DecState, zz: Mcu, ok: bool)
    requires ValidScan(sc, |ts|) && FitsMcu(sc.mcu, zz0, d0.lastDc) && FitsMcu(sc.mcu, zz, d.lastDc) && |d.lastDc| == |d0.lastDc|
    requires if ok then (zz, d) == DecodeOne(sc, ts, d0, zz0)
             else d == d0 && DecodeOne(sc, ts, d0, zz) == DecodeOne(sc, ts, d0, zz0)
    ensures Decoded(sc, ts, d0, zz0, d, zz, ok)
  {
    hide DecodeOne, ValidScan;
  }

  /** A restart that is not over yet. */
  lemma SteppedRestart(data: seq<Byte>, sc: Scan, ts: seq<Table>, s0: ScanState, s: ScanState, zz: Mcu)
    requires ValidScan(sc, |ts|) && FitsMcu(sc.mcu, zz, s0.d.lastDc) && s0.d.st.next <= |data| && s.d.st.next <= |data|
    requires sc.interval > 0 && s0.togo == 0 && s == s0.(d := s0.d.(st := s.d.st))
    requires Restart(data, s.d.st, s0.num) == Restart(data, s0.d.st, s0.num)
    ensures Stepped(data, sc, ts, s0, zz, s, zz, false)
  {
    hide DecodeStep, Restart, ValidScan, FitsMcu;
    RestartAgain(data, sc, ts, s0, s, zz);
  }

  /** The blocks behind a restart that was due. */
  lemma SteppedBlocks(data: seq<Byte>, sc: Scan, ts: seq<Table>, s0: ScanState, zz0: Mcu, s1: ScanState, d: DecState, zz: Mcu,
                      ok: bool, s: ScanState)
    requires ValidScan(sc, |ts|) && FitsMcu(sc.mcu, zz0, s0.d.lastDc) && s0.d.st.next <= |data| && d.st.next <= |data|
    requires s1 == Begun(data, sc, s0) && Decoded(sc, ts, s1.d, zz0, d, zz, ok)
    requires s == if ok then ScanState(d, Decrement(s1.togo), s1.num) else s1
    ensures Stepped(data, sc, ts, s0, zz0, s, zz, ok)
  {
    hide DecodeStep, DecodeOne, Restart, ValidScan, FitsMcu;
    StepIs(data, sc, ts, s0, s1, zz0);
    if !ok {
      StepSame(data, sc, ts, s1, zz, zz0);
    }
  }

  lemma BegunIs(data: seq<Byte>, sc: Scan, s: ScanState)
    requires s.d.st.next <= |data|
    ensures sc.interval > 0 && s.togo == 0 ==>
      Begun(data, sc, s) == ScanState(DecState(Restart(data, s.d.st, s.num), NoDc(sc), 0), sc.interval, (s.num + 1) % 8)
    ensures !(sc.interval > 0 && s.togo == 0) ==> Begun(data, sc, s) == s
    ensures StepDelivered(data, sc, s) ==> Begun(data, sc, s).d.st.marker != 0
    ensures StepDelivered(data, sc, s) && sc.interval > 0 && s.togo == 0 ==> MarkerReader.Recovers(data, s.d.st, s.num)
  {
    hide Restart;
  }

  /** A restart is due once. */
  lemma BegunOnce(data: seq<Byte>, sc: Scan, s: ScanState)
    requires s.d.st.next <= |data|
    ensures Begun(data, sc, Begun(data, sc, s)) == Begun(data, sc, s)
  {
    hide Restart;
  }

  /** A restart that is not over yet leads to the same state. */
  lemma BegunAgain(data: seq<Byte>, sc: Scan, s: ScanState, s': ScanState)
    requires s.d.st.next <= |data| && s'.d.st.next <= |data| && s' == s.(d := s.d.(st := s'.d.st))
    requires sc.interval > 0 && s.togo == 0 && Restart(data, s'.d.st, s.num) == Restart(data, s.d.st, s.num)
    ensures Begun(data, sc, s') == Begun(data, sc, s)
  {
    hide Restart;
  }

  /** The step of the specification behind a restart that was due, and from there again. */
  lemma StepIs(data: seq<Byte>, sc: Scan, ts: seq<Table>, s: ScanState, s1: ScanState, mcu: Mcu)
    requires ValidScan(sc, |ts|) && FitsMcu(sc.mcu, mcu, s.d.lastDc) && s.d.st.next <= |data| && s1 == Begun(data, sc, s)
    ensures FitsMcu(sc.mcu, mcu, s1.d.lastDc)
    ensures DecodeStep(data, sc, ts, s, mcu)
         == (DecodeOne(sc, ts, s1.d, mcu).0, ScanState(DecodeOne(sc, ts, s1.d, mcu).1, Decrement(s1.togo), s1.num))
    ensures DecodeStep(data, sc, ts, s1, mcu) == DecodeStep(data, sc, ts, s, mcu)
  {
    hide DecodeOne, Restart;
    assert FitsMcu(sc.mcu, mcu, s1.d.lastDc);
  }

  /** A restart that did not get past the marker yet will lead to the same MCU. */
  lemma RestartAgain(data: seq<Byte>, sc: Scan, ts: seq<Table>, s: ScanState, s': ScanState, mcu: Mcu)
    requires ValidScan(sc, |ts|) && FitsMcu(sc.mcu, mcu, s.d.lastDc) && s.d.st.next <= |data| && s'.d.st.next <= |data|
    requires sc.interval > 0 && s.togo == 0 && s' == s.(d := s.d.(st := s'.d.st))
    requires Restart(data, s'.d.st, s.num) == Restart(data, s.d.st, s.num)
    ensures DecodeStep(data, sc, ts, s', mcu) == DecodeStep(data, sc, ts, s, mcu)
  {
    hide DecodeOne, Restart;
  }

  /** MCUs that decode to the same from a state make the same step. */
  lemma StepSame(data: seq<Byte>, sc: Scan, ts: seq<Table>, s: ScanState, a: Mcu, b: Mcu)
    requires ValidScan(sc, |ts|) && FitsMcu(sc.mcu, a, s.d.lastDc) && FitsMcu(sc.mcu, b, s.d.lastDc) && s.d.st.next <= |data|
    requires Begun(data, sc, s) == s && DecodeOne(sc, ts, s.d, a) == DecodeOne(sc, ts, s.d, b)
    ensures DecodeStep(data, sc, ts, s, a) == DecodeStep(data, sc, ts, s, b)
  {
    hide DecodeOne, Restart;
  }

  lemma ViewNext(data: seq<Byte>, r: BitReader.ReadState)
    requires BitReader.Valid(data, r) && r.pos <= |data|
    ensures BitReader.View(data, r).next <= |data| && (BitReader.View(data, r).starved <==> r.insufficient)
  {
    hide StreamAt;
    MarkerReader.NotStarved(data, r.pos);
  }

  /** A suspended attempt leaves everything that is not local as it was, and was not delivered everything. */
  lemma SuspendedReader(data: seq<Byte>, limit: nat, a: BitReader.ReadState, b: BitReader.ReadState)
    requires a.pos <= |data| && Attempt(data, limit, a, b, false)
    ensures a.(unreadMarker := b.unreadMarker, insufficient := b.insufficient) == a
    ensures limit < |data| || limit > |data| || BitReader.View(data, a).marker == 0
  {
  }

  lemma NoDcIs(sc: Scan, lastDc: seq<int>)
    requires |lastDc| == |sc.mcu.dcTbl| && forall i :: 0 <= i < |lastDc| ==> lastDc[i] == 0
    ensures lastDc == NoDc(sc)
  {
  }

  lemma DecrementIs(togo: nat)
    ensures Decrement(togo) == if togo == 0 then 0xFFFF_FFFF else togo - 1
  {
  }

  lemma FitsAlways(m: McuSpec, zz0: Mcu, zz: Mcu, last0: seq<int>, lastDc: seq<int>)
    requires FitsMcu(m, zz0, last0) && |zz| == |zz0| && Blocks(zz) && |last0| == |lastDc|
    ensures FitsMcu(m, zz, lastDc)
  {
  }

  lemma FitsLengths(m: McuSpec, zz: Mcu, lastDc: seq<int>)
    requires FitsMcu(m, zz, lastDc)
    ensures |zz| == |m.membership| && |lastDc| == |m.dcTbl|
  {
  }

  // ----- blocks in the coefficient arrays -----

  /** Distinct blocks of the right size. */
  ghost predicate BlocksOk(blocks: seq<array<int>>) {
    && (forall i :: 0 <= i < |blocks| ==> blocks[i].Length == DCTSIZE2)
    && forall i, j :: 0 <= i < j < |blocks| ==> blocks[i] != blocks[j]
  }

  lemma BlockSizes(blocks: seq<array<int>>)
    requires BlocksOk(blocks)
    ensures DCTSIZE2 == 64 && forall i :: 0 <= i < |blocks| ==> blocks[i].Length == 64
    ensures forall i, j :: 0 <= i < j < |blocks| ==> blocks[i] != blocks[j]
  {
  }

  /** The blocks of an MCU as they stand in the coefficient arrays. */
  ghost function McuContents(blocks: seq<array<int>>): (zz: Mcu)
    requires forall i :: 0 <= i < |blocks| ==> blocks[i].Length == DCTSIZE2
    reads blocks
    ensures |zz| == |blocks| && Blocks(zz)
    ensures forall i :: 0 <= i < |blocks| ==> zz[i] == Contents(blocks[i])
  {
    seq(|blocks|, i requires 0 <= i < |blocks| && blocks[i].Length == DCTSIZE2 reads blocks => Contents(blocks[i]))
  }
}
