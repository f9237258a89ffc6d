/** What jpeg_resync_to_restart (jdmarker.c) achieves: where decoding goes on when a restart marker was lost, repeated or is
    followed by garbage, and how much of the scan is lost. */
module RestartRecovery {
  import opened ByteStream
  import opened BitStream
  import opened Symbols
  import opened AcFirstCoding
  import opened DcCoding
  import opened ScanCoding

  // ----- one restart -----

  /** A restart marker one or two ahead of the expected one stays unread: the interval whose marker is missing is empty. */
  lemma MissedMarker(data: seq<Byte>, st: Stream, num: nat, k: nat)
    requires st.next <= |data| && num < 8 && 1 <= k <= 2 && st.marker == 0xD0 + (num + k) % 8
    ensures Restart(data, st, num) == st.(bits := [])
  {
  }

  /** A marker that does not belong to restarts ends the scan's data: it is never passed. */
  lemma ForeignMarker(data: seq<Byte>, st: Stream, num: nat)
    requires st.next <= |data| && num < 8 && 0xC0 <= st.marker && !(0xD0 <= st.marker <= 0xD7)
    ensures Restart(data, st, num) == st.(bits := [])
  {
  }

  /** A restart marker that is neither expected nor near is discarded: decoding goes on right behind it. */
  lemma FarMarker(data: seq<Byte>, st: Stream, num: nat, k: nat)
    requires st.next <= |data| && num < 8 && 3 <= k <= 5 && st.marker == 0xD0 + (num + k) % 8
    ensures Restart(data, st, num) == StreamAt(data, st.next)
  {
    hide StreamAt;
    assert ResyncAction(st.marker, num) == Discard;
  }

  /** The expected marker is swallowed. */
  lemma ExpectedMarker(data: seq<Byte>, st: Stream, num: nat)
    requires st.next <= |data| && num < 8 && st.marker == 0xD0 + num
    ensures Restart(data, st, num) == StreamAt(data, st.next)
  {
  }

  /** A marker that cannot be the one looked for: one of the two restarts before it, or no legal marker code. */
  predicate Stale(marker: nat, num: nat) {
    0 < marker < 0xC0 || marker == 0xD0 + (num + 7) % 8 || marker == 0xD0 + (num + 6) % 8
  }

  /** The data up to the first marker from here on that is not stale are passed. */
  function AfterStale(data: seq<Byte>, st: Stream, num: nat): (r: Stream)
    requires st.next <= |data|
    ensures r.next <= |data| && !Stale(r.marker, num)
    decreases |data| - st.next
  {
    if !Stale(st.marker, num) then st
    else
      var s := StreamAt(data, st.next);
      if s.marker == 0 then Stream([], st.starved, 0, s.next)
      else AfterStale(data, Stream([], st.starved, s.marker, s.next), num)
  }

  lemma SearchEnds(data: seq<Byte>, st: Stream, num: nat)
    requires st.next <= |data| && num < 8
    ensures st.marker == 0xD0 + num ==> Resync(data, st, num) == Restart(data, st, num)
    ensures Stale(st.marker, num) ==> st.marker != 0xD0 + num && ResyncAction(st.marker, num) == SkipOn
  {
  }

  /** Stale markers are skipped together with the data behind them, as if what follows had been found at once. */
  lemma {:induction false} StaleMarkers(data: seq<Byte>, st: Stream, num: nat)
    requires st.next <= |data| && num < 8 && st.marker != 0
    ensures Restart(data, st, num) ==
      if AfterStale(data, st, num).marker == 0 then Stream([], st.starved, 0, AfterStale(data, st, num).next)
      else Restart(data, AfterStale(data, st, num), num)
    decreases |data| - st.next
  {
    SearchEnds(data, st, num);
    if Stale(st.marker, num) {
      var s := StreamAt(data, st.next);
      if s.marker != 0 {
        var st1 := Stream([], st.starved, s.marker, s.next);
        SearchEnds(data, st1, num);
        StaleMarkers(data, st1, num);
        assert Resync(data, st, num) == Resync(data, st1, num) == Restart(data, st1, num);
      }
    }
  }

  /** So if the expected marker is behind one that came too late, decoding goes on behind the expected one. */
  lemma LateMarker(data: seq<Byte>, st: Stream, num: nat, k: nat)
    requires st.next <= |data| && num < 8 && 6 <= k <= 7 && st.marker == 0xD0 + (num + k) % 8
    requires StreamAt(data, st.next).marker == 0xD0 + num
    ensures Restart(data, st, num) == StreamAt(data, StreamAt(data, st.next).next)
  {
    hide StreamAt;
    StaleMarkers(data, st, num);
    var s := StreamAt(data, st.next);
    assert AfterStale(data, st, num) == Stream([], st.starved, s.marker, s.next);
  }

  // ----- the rest of the scan -----

  lemma {:induction false} AllKeepsMarker(sc: Scan, ts: seq<Table>, d: DecState, mcus: seq<Mcu>)
    requires ValidScan(sc, |ts|) && FitsScan(sc, mcus) && |d.lastDc| == |sc.mcu.dcTbl|
    ensures DecodeAll(sc, ts, d, mcus).1.st.marker == d.st.marker && DecodeAll(sc, ts, d, mcus).1.st.next == d.st.next
    decreases |mcus|
  {
    hide DecodeOne;
    if |mcus| > 0 {
      AllKeepsMarker(sc, ts, DecodeOne(sc, ts, d, mcus[0]).1, mcus[1..]);
    }
  }

  /** The state in which the decoder stands in front of marker m, when restart number num is due. */
  ghost predicate Due(data: seq<Byte>, sc: Scan, s: ScanState, num: nat, m: nat, next: nat) {
    && sc.interval > 0 && s.togo == 0 && s.num == num < 8 && |s.d.lastDc| == |sc.mcu.dcTbl|
    && s.d.st.marker == m && s.d.st.next == next <= |data|
  }

  /** A restart that is due first, and then the MCUs. */
  lemma RestartFirst(data: seq<Byte>, sc: Scan, ts: seq<Table>, s: ScanState, mcus: seq<Mcu>, num: nat, m: nat, next: nat)
    requires ValidScan(sc, |ts|) && FitsScan(sc, mcus) && |mcus| > 0 && Due(data, sc, s, num, m, next)
    ensures DecodeScan(data, sc, ts, s, mcus)
         == DecodeScan(data, sc, ts, ScanState(DecState(Restart(data, s.d.st, num), NoDc(sc), 0), sc.interval, (num + 1) % 8), mcus)
  {
    hide DecodeOne, Restart;
    var s1 := ScanState(DecState(Restart(data, s.d.st, num), NoDc(sc), 0), sc.interval, (num + 1) % 8);
    assert DecodeStep(data, sc, ts, s, mcus[0]) == DecodeStep(data, sc, ts, s1, mcus[0]);
  }

  /** An interval whose marker is missing passes, and the decoder stands in front of the same marker again. */
  lemma IntervalLost(data: seq<Byte>, sc: Scan, ts: seq<Table>, s: ScanState, lost: seq<Mcu>, num: nat, m: nat, next: nat, k: nat)
    requires ValidScan(sc, |ts|) && FitsScan(sc, lost) && Due(data, sc, s, num, m, next) && |lost| == sc.interval
    requires 1 <= k <= 2 && m == 0xD0 + (num + k) % 8
    ensures Due(data, sc, DecodeScan(data, sc, ts, s, lost).1, (num + 1) % 8, m, next)
  {
    hide DecodeScan, Restart, DecodeAll, ValidScan, FitsScan;
    MissedMarker(data, s.d.st, num, k);
    RestartFirst(data, sc, ts, s, lost, num, m, next);
    var s1 := ScanState(DecState(s.d.st.(bits := []), NoDc(sc), 0), sc.interval, (num + 1) % 8);
    NoRestart(data, sc, ts, s1, lost);
    AllKeepsMarker(sc, ts, s1.d, lost);
  }

  lemma OneAfterAnother(data: seq<Byte>, sc: Scan, ts: seq<Table>, s: ScanState, a: seq<Mcu>, b: seq<Mcu>, num: nat, n: nat, m: nat,
                        next: nat)
    requires ValidScan(sc, |ts|) && FitsScan(sc, a) && FitsScan(sc, b) && Due(data, sc, s, num, m, next)
    requires m == 0xD0 + (num + 2) % 8 == 0xD0 + (n + 1) % 8 && n == (num + 1) % 8 && |a| == |b| == sc.interval
    ensures |s.d.lastDc| == |sc.mcu.dcTbl| && s.d.st.next <= |data| && num < 8
    ensures Due(data, sc, DecodeScan(data, sc, ts, DecodeScan(data, sc, ts, s, a).1, b).1, (n + 1) % 8, m, next)
  {
    hide *;
    DueIs(data, sc, s, num, m, next);
    IntervalLost(data, sc, ts, s, a, num, m, next, 2);
    var s1 := DecodeScan(data, sc, ts, s, a).1;
    IntervalLost(data, sc, ts, s1, b, n, m, next, 1);
  }

  lemma TwoIntervalsLost(data: seq<Byte>, sc: Scan, ts: seq<Table>, s: ScanState, lost: seq<Mcu>, num: nat, m: nat, next: nat)
    requires ValidScan(sc, |ts|) && FitsScan(sc, lost) && Due(data, sc, s, num, m, next)
    requires m == 0xD0 + (num + 2) % 8 && |lost| == sc.interval + sc.interval
    ensures |s.d.lastDc| == |sc.mcu.dcTbl| && s.d.st.next <= |data| && num < 8
    ensures Due(data, sc, DecodeScan(data, sc, ts, s, lost).1, (num + 2) % 8, m, next)
  {
    hide *;
    DueIs(data, sc, s, num, m, next);
    FitsSplit(sc, lost, sc.interval);
    DecodeScanSplit(data, sc, ts, s, lost, sc.interval);
    var n := NextButOne(num);
    OneAfterAnother(data, sc, ts, s, lost[..sc.interval], lost[sc.interval..], num, n, m, next);
  }

  lemma NextButOne(num: nat) returns (n: nat)
    ensures n == (num + 1) % 8 && (n + 1) % 8 == (num + 2) % 8
  {
    n := (num + 1) % 8;
  }

  lemma IntervalsLost(data: seq<Byte>, sc: Scan, ts: seq<Table>, s: ScanState, lost: seq<Mcu>, num: nat, k: nat, next: nat)
    requires ValidScan(sc, |ts|) && FitsScan(sc, lost) && Due(data, sc, s, num, 0xD0 + (num + k) % 8, next)
    requires 1 <= k <= 2 && |lost| == k * sc.interval
    ensures |s.d.lastDc| == |sc.mcu.dcTbl| && s.d.st.next <= |data| && num < 8
    ensures Due(data, sc, DecodeScan(data, sc, ts, s, lost).1, (num + k) % 8, 0xD0 + (num + k) % 8, next)
  {
    hide *;
    DueIs(data, sc, s, num, 0xD0 + (num + k) % 8, next);
    if k == 1 {
      IntervalLost(data, sc, ts, s, lost, num, 0xD0 + (num + k) % 8, next, 1);
    } else {
      TwoIntervalsLost(data, sc, ts, s, lost, num, 0xD0 + (num + k) % 8, next);
    }
  }

  /** If one or two restart markers are missing, the intervals they stood before are lost, and every MCU behind the next
      intact one is decoded as if nothing had happened. */
  lemma LostMarkers(data: seq<Byte>, sc: Scan, ts: seq<Table>, s: ScanState, lost: seq<Mcu>, mcus: seq<Mcu>, before: seq<Mcu>,
                    num: nat, k: nat, m: nat, next: nat)
    requires ValidScan(sc, |ts|) && FitsScan(sc, lost) && Due(data, sc, s, num, 0xD0 + (num + k) % 8, next)
    requires 1 <= k <= 2 && |lost| == k * sc.interval
    requires AllReady(sc, mcus, before) && |mcus| > 0 && ScanCoded(sc, ts, mcus)
    requires ScanAt(data, next, ScanBytes(sc, ts, mcus, (num + k + 1) % 8), m)
    ensures FitsScan(sc, lost + before) && |DecodeScan(data, sc, ts, s, lost + before).0| == |lost| + |before|
    ensures DecodeScan(data, sc, ts, s, lost + before).0[|lost|..] == AllSent(sc, mcus, before)
  {
    hide DecodeScan, Restart, DecodeAll, ValidScan, AllReady, ScanCoded, ScanAt, ScanBytes, AllSent, FitsOne, Due;
    var all := lost + before;
    ReadySizes(sc, mcus, before);
    assert FitsScan(sc, all) && all[..|lost|] == lost && all[|lost|..] == before;
    DueIs(data, sc, s, num, 0xD0 + (num + k) % 8, next);
    DecodeScanSplit(data, sc, ts, s, all, |lost|);
    var behind := DecodeScan(data, sc, ts, s, lost).1;
    IntervalsLost(data, sc, ts, s, lost, num, k, next);
    DueIs(data, sc, behind, (num + k) % 8, 0xD0 + (num + k) % 8, next);
    RestartFirst(data, sc, ts, behind, before, (num + k) % 8, 0xD0 + (num + k) % 8, next);
    ExpectedMarker(data, behind.d.st, (num + k) % 8);
    var end := ScanRoundTrip(data, next, sc, ts, mcus, before, (num + k + 1) % 8, m);
  }

  lemma DueIs(data: seq<Byte>, sc: Scan, s: ScanState, num: nat, m: nat, next: nat)
    requires Due(data, sc, s, num, m, next)
    ensures sc.interval > 0 && s.num == num < 8 && |s.d.lastDc| == |sc.mcu.dcTbl|
    ensures s.d.st.marker == m && s.d.st.next == next <= |data|
  {
  }

  lemma ReadySizes(sc: Scan, mcus: seq<Mcu>, before: seq<Mcu>)
    requires AllReady(sc, mcus, before)
    ensures FitsScan(sc, mcus) && FitsScan(sc, before) && |mcus| == |before|
  {
  }

  /** If a restart comes a second time, nothing is lost: decoding goes on behind the expected one. */
  lemma RepeatedMarker(data: seq<Byte>, sc: Scan, ts: seq<Table>, s: ScanState, mcus: seq<Mcu>, before: seq<Mcu>,
                       num: nat, k: nat, m: nat, next: nat)
    requires ValidScan(sc, |ts|) && Due(data, sc, s, num, 0xD0 + (num + k) % 8, next) && 6 <= k <= 7
    requires StreamAt(data, next).marker == 0xD0 + num
    requires AllReady(sc, mcus, before) && |mcus| > 0 && ScanCoded(sc, ts, mcus)
    requires ScanAt(data, StreamAt(data, next).next, ScanBytes(sc, ts, mcus, (num + 1) % 8), m)
    ensures FitsScan(sc, before) && DecodeScan(data, sc, ts, s, before).0 == AllSent(sc, mcus, before)
  {
    hide DecodeScan, Restart, ValidScan, AllReady, ScanCoded, ScanAt, ScanBytes, AllSent, StreamAt;
    ReadySizes(sc, mcus, before);
    LateMarker(data, s.d.st, num, k);
    RestartFirst(data, sc, ts, s, before, num, 0xD0 + (num + k) % 8, next);
    var end := ScanRoundTrip(data, StreamAt(data, next).next, sc, ts, mcus, before, (num + 1) % 8, m);
  }

  // ----- segments without data -----

  lemma {:induction false} NoCorrections(al: nat, st: Stream, mcu: seq<Block>, i: nat)
    requires Blocks(mcu) && i <= |mcu| && st.bits == [] && st.starved
    ensures DecodeDcRefine(al, st, mcu, i) == (mcu, st)
    decreases |mcu| - i
  {
    if i < |mcu| {
      assert ZeroExtended([], 1) == [false];
      NoCorrections(al, st, mcu, i + 1);
    }
  }

  /** Once the data of a segment are used up, the blocks of its further MCUs stay as they are. */
  lemma {:induction false} OutOfData(sc: Scan, ts: seq<Table>, d: DecState, mcus: seq<Mcu>)
    requires ValidScan(sc, |ts|) && FitsScan(sc, mcus) && |d.lastDc| == |sc.mcu.dcTbl| && d.st.bits == [] && d.st.starved
    ensures DecodeAll(sc, ts, d, mcus) == (mcus, d)
    decreases |mcus|
  {
    if |mcus| > 0 {
      assert FitsOne(sc, mcus[0]);
      if sc.kind == DcRefine {
        NoCorrections(sc.al, d.st, mcus[0], 0);
      } else if sc.kind in {AcFirst, AcRefine} {
        assert [mcus[0][0]] == mcus[0];
      }
      OutOfData(sc, ts, d, mcus[1..]);
      assert DecodeOne(sc, ts, d, mcus[0]) == (mcus[0], d);
      assert [mcus[0]] + mcus[1..] == mcus;
    }
  }
}
