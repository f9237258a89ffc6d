/** A scan coded with the tables that its own statistics pass generated (finish_pass_gather of jchuff.c,
    finish_pass_gather_phuff of jcphuff.c): no symbol lacks a code, and decoding returns what the scan sends. */
module OptimizedScan {
  import opened ByteStream
  import opened BitStream
  import opened HuffTable
  import opened Symbols
  import opened DcCoding
  import opened ScanCoding
  import opened ScanEncoding
  import opened HuffmanForest
  import opened OptimalTable
  import opened ScanSymbols

  /** Whether a pass is in range does not depend on the tables at hand: the statistics pass and the output pass agree. */
  lemma {:induction false} SameRange(sc: Scan, ts1: seq<Table>, ts2: seq<Table>, s1: ScanEnc, s2: ScanEnc, mcus: seq<Mcu>)
    requires |ts1| == |ts2| && ValidScan(sc, |ts1|) && FitsScan(sc, mcus) && s1 == s2.(out := s1.out)
    requires |s1.e.lastDc| == |sc.mcu.dcTbl| && s1.num < 8
    ensures PassInRange(sc, ts1, s1, mcus) <==> PassInRange(sc, ts2, s2, mcus)
    decreases |mcus|
  {
    hide McuInRange, Closed, ValidScan, FitsMcu, EncodeOne, ItemsBits, SegmentBytes;
    if |mcus| > 0 {
      FitsFirst(sc, mcus, s1.e.lastDc);
      FitsFirst(sc, mcus, if sc.interval > 0 && s1.togo == 0 then Fresh(sc).lastDc else s1.e.lastDc);
      SameRange(sc, ts1, ts2, EncodeStep(sc, ts1, s1, mcus[0]), EncodeStep(sc, ts2, s2, mcus[0]), mcus[1..]);
    }
  }

  // ----- with the generated tables -----

  /** The counts of a statistics pass over items, with the pseudo-symbol. */
  ghost predicate CountsOf(f: Counts, items: seq<Item>, tbl: nat) {
    |f| == SYMBOLS && f[256] == 1 && forall s: Byte :: f[s] == Occurrences(items, tbl, s)
  }

  /** Each table that the items use was generated from its counts. */
  ghost predicate Generated(ts: seq<Table>, fs: seq<Counts>, css: seq<seq<nat>>, items: seq<Item>) {
    && |ts| == |fs| == |css|
    && forall t :: 0 <= t < |ts| ==> CountsOf(fs[t], items, t) && ((exists s: Byte :: fs[t][s] > 0) ==> TableFor(fs[t], css[t], ts[t]))
  }

  lemma SymbolCoded(ts: seq<Table>, fs: seq<Counts>, css: seq<seq<nat>>, items: seq<Item>, tbls: set<nat>, i: nat)
    requires (forall t :: t in tbls ==> t < |ts|) && Generated(ts, fs, css, items) && i < |items| && FitsCounts(items[i], tbls)
    ensures ItemCoded(ts, items[i])
  {
    hide Codeword, CodeLength;
    if items[i].Sym? {
      OccursCounted(items, i);
      var t: nat, s: Byte := items[i].tbl, items[i].sym;
      assert fs[t][s] > 0;
      assert TableFor(fs[t], css[t], ts[t]);
    }
  }

  /** With the tables generated from the counts of a statistics pass over the same MCUs, no emission meets a symbol
      without code, restarts and end-of-band runs included. */
  lemma GeneratedTablesCode(sc: Scan, ts0: seq<Table>, ts: seq<Table>, mcus: seq<Mcu>, fs: seq<Counts>, css: seq<seq<nat>>)
    requires |ts0| == |ts| && ValidScan(sc, |ts|) && FitsScan(sc, mcus)
    requires |Begin(sc).e.lastDc| == |sc.mcu.dcTbl| && PassInRange(sc, ts0, Begin(sc), mcus)
    requires Generated(ts, fs, css, ScanItems(sc, mcus, |ts|))
    ensures ScanCoded(sc, ts, mcus)
  {
    hide Generated, ScanItems, ValidScan, FitsScan, PassInRange, FitsCounts, ItemCoded;
    SameRange(sc, ts0, ts, Begin(sc), Begin(sc), mcus);
    AllCounted(sc, ts, mcus);
    UsesBelow(sc, |ts|);
    ScanCodedIs(sc, ts, mcus);
    var items := ScanItems(sc, mcus, |ts|);
    forall i | 0 <= i < |items|
      ensures ItemCoded(ts, items[i])
    {
      SymbolCoded(ts, fs, css, items, Uses(sc), i);
    }
  }

  /** Optimized coding, from the statistics to the decoder: what the output pass writes decodes to what the scan sends. */
  lemma OptimizedRoundTrip(data: seq<Byte>, pos: nat, sc: Scan, ts0: seq<Table>, ts: seq<Table>, mcus: seq<Mcu>,
                           before: seq<Mcu>, fs: seq<Counts>, css: seq<seq<nat>>, m: nat) returns (s: ScanState)
    requires pos <= |data| && |ts0| == |ts| && ValidScan(sc, |ts|) && AllReady(sc, mcus, before)
    requires |Begin(sc).e.lastDc| == |sc.mcu.dcTbl| && PassInRange(sc, ts0, Begin(sc), mcus)
    requires Generated(ts, fs, css, ScanItems(sc, mcus, |ts|)) && ScanAt(data, pos, ScanBytes(sc, ts, mcus, 0), m)
    ensures ScanCoded(sc, ts, mcus)
    ensures DecodeScan(data, sc, ts, ScanState(DecState(StreamAt(data, pos), NoDc(sc), 0), sc.interval, 0), before)
         == (AllSent(sc, mcus, before), s)
    ensures Finished(s.d, m, pos + |ScanBytes(sc, ts, mcus, 0)| + 2)
  {
    hide *;
    assert FitsScan(sc, mcus) by { ReadyFits(sc, mcus, before); }
    GeneratedTablesCode(sc, ts0, ts, mcus, fs, css);
    s := ScanRoundTrip(data, pos, sc, ts, mcus, before, 0, m);
  }

  lemma ReadyFits(sc: Scan, mcus: seq<Mcu>, before: seq<Mcu>)
    requires AllReady(sc, mcus, before)
    ensures FitsScan(sc, mcus) && FitsScan(sc, before) && |mcus| == |before|
  {
  }
}
