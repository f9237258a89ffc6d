/** The Huffman symbols that a scan emits: with which tables, which symbols, and that a statistics pass counts them all. */
module ScanSymbols {
  import opened BitSeq
  import ByteStream
  import opened Symbols
  import opened Coefficients
  import opened BlockCoding
  import opened AcFirstCoding
  import opened AcRefineCoding
  import opened DcCoding
  import opened ScanCoding
  import opened ScanEncoding
  import SequentialCoding

  // ----- the symbols of a scan -----

  ghost predicate Countable(items: seq<Item>, tbls: set<nat>) {
    forall i :: 0 <= i < |items| ==> FitsCounts(items[i], tbls)
  }

  /** The encoders limit the size category, which the low half of a symbol holds. */
  predicate UsualSymbol(sym: nat) {
    sym < 256 && sym % 16 <= MAX_COEF_BITS + 1
  }

  /** The tables that a scan of this kind emits symbols with. */
  function Uses(sc: Scan): (tbls: set<nat>) {
    match sc.kind
    case Sequential => (set t | t in sc.mcu.dcTbl) + (set t | t in sc.mcu.acTbl)
    case DcFirst => set t | t in sc.mcu.dcTbl
    case DcRefine => {}
    case _ => {BandOf(sc).tbl}
  }

  lemma UsesBelow(sc: Scan, n: nat)
    requires ValidScan(sc, n)
    ensures forall t :: t in Uses(sc) ==> t < n
    ensures sc.kind in {AcFirst, AcRefine} ==> Uses(sc) == {BandOf(sc).tbl} && BandOf(sc).tbl < n
  {
  }

  ghost predicate FitsCounts(i: Item, tbls: set<nat>) {
    i.Sym? ==> i.tbl in tbls && UsualSymbol(i.sym)
  }

  lemma BothCountable(a: seq<Item>, b: seq<Item>, tbls: set<nat>)
    requires Countable(a, tbls) && Countable(b, tbls)
    ensures Countable(a + b, tbls)
  {
    hide FitsCounts;
  }

  lemma OneCountable(i: Item, tbls: set<nat>)
    requires FitsCounts(i, tbls)
    ensures Countable([i], tbls)
  {
    hide FitsCounts;
  }

  lemma DcCountable(tbl: nat, diff: int, tbls: set<nat>)
    requires tbl in tbls && NBits(Abs(diff)) <= MAX_COEF_BITS + 1
    ensures Countable(DcItems(tbl, diff), tbls)
  {
    hide NBits, ValueBits;
  }

  lemma {:induction false} ZrlsCountable(tbl: nat, k: nat, tbls: set<nat>)
    requires tbl in tbls
    ensures Countable(ZrlItems(tbl, k), tbls)
    decreases k
  {
    if k > 0 {
      ZrlsCountable(tbl, k - 1, tbls);
    }
  }

  lemma CoefCountable(tbl: nat, r: nat, v: int, tbls: set<nat>)
    requires tbl in tbls && NBits(Abs(v)) <= MAX_COEF_BITS
    ensures Countable(CoefItems(tbl, r, v), tbls)
  {
    hide NBits, ValueBits, Countable;
    ZrlsCountable(tbl, r / 16, tbls);
    PairCountable(tbl, r % 16 * 16 + NBits(Abs(v)), ValueBits(v), tbls);
    BothCountable(ZrlItems(tbl, r / 16), [Sym(tbl, r % 16 * 16 + NBits(Abs(v))), Raw(ValueBits(v))], tbls);
  }

  lemma PairCountable(tbl: nat, sym: nat, b: Bits, tbls: set<nat>)
    requires tbl in tbls && UsualSymbol(sym)
    ensures Countable([Sym(tbl, sym), Raw(b)], tbls)
  {
  }

  lemma {:induction false} AcCountable(tbl: nat, zz: seq<int>, k: nat, se: nat, r: nat, tbls: set<nat>)
    requires se < |zz| && tbl in tbls && BandInRange(zz, k, se)
    ensures Countable(AcItems(tbl, zz, k, se, r), tbls)
    decreases se + 1 - k
  {
    hide Countable, CoefItems, NBits;
    if k > se {
      NoneCountable(tbls);
    } else if zz[k] == 0 {
      AcCountable(tbl, zz, k + 1, se, r + 1, tbls);
    } else {
      CoefCountable(tbl, r, zz[k], tbls);
      AcCountable(tbl, zz, k + 1, se, 0, tbls);
      BothCountable(CoefItems(tbl, r, zz[k]), AcItems(tbl, zz, k + 1, se, 0), tbls);
    }
  }

  lemma NoneCountable(tbls: set<nat>)
    ensures Countable([], tbls)
  {
  }

  lemma EobCountable(tbl: nat, run: nat, tbls: set<nat>)
    requires tbl in tbls && run <= MAX_EOBRUN
    ensures Countable(EobItems(tbl, run), tbls)
  {
    hide ToBits;
    if NBits(run) > 15 {
      Pow2Mono(15, NBits(run) - 1);
      Pow2Small();
      assert false;
    }
  }

  lemma RawCountable(b: Bits, tbls: set<nat>)
    ensures Countable(BitItems(b), tbls)
  {
  }

  lemma FlushCountable(tbl: nat, pd: Pending, tbls: set<nat>)
    requires tbl in tbls && pd.run <= MAX_EOBRUN
    ensures Countable(Flush(tbl, pd), tbls)
  {
    hide Countable, EobItems, BitItems;
    NoneCountable(tbls);
    EobCountable(tbl, pd.run, tbls);
    RawCountable(pd.be, tbls);
    BothCountable(EobItems(tbl, pd.run), BitItems(pd.be), tbls);
  }

  lemma {:induction false} LoopCountable(p: BandSpec, zz: Block, k: nat, r: nat, br: Bits, pd: Pending, tbls: set<nat>)
    requires |zz| == DCTSIZE2 && 0 < p.ss <= k && p.se < DCTSIZE2 && p.tbl in tbls && pd.run <= MAX_EOBRUN
    ensures Countable(RefineLoop(p, zz, LastNew(p, zz, p.se), k, r, br, pd).items, tbls)
    ensures RefineLoop(p, zz, LastNew(p, zz, p.se), k, r, br, pd).pd.run <= pd.run
    decreases p.se + 1 - k, r
  {
    hide Mag, Flush, NewItems, BitItems, Countable, LastNew;
    NoneCountable(tbls);
    FlushCountable(p.tbl, pd, tbls);
    RawCountable(br, tbls);
    if k <= p.se {
      if Mag(p, zz, k) == 0 {
        LoopCountable(p, zz, k + 1, r + 1, br, pd, tbls);
      } else if r > 15 && k <= LastNew(p, zz, p.se) {
        LoopCountable(p, zz, k, r - 16, [], NOTHING, tbls);
        OneCountable(Sym(p.tbl, ZRL), tbls);
        ThreeCountable(Flush(p.tbl, pd), [Sym(p.tbl, ZRL)], BitItems(br),
                       RefineLoop(p, zz, LastNew(p, zz, p.se), k, r - 16, [], NOTHING).items, tbls);
      } else if Mag(p, zz, k) > 1 {
        LoopCountable(p, zz, k + 1, r, br + [Mag(p, zz, k) % 2 == 1], pd, tbls);
      } else {
        LoopCountable(p, zz, k + 1, 0, [], NOTHING, tbls);
        NewCountable(p, r, zz[k], tbls);
        ThreeCountable(Flush(p.tbl, pd), NewItems(p, r, zz[k]), BitItems(br),
                       RefineLoop(p, zz, LastNew(p, zz, p.se), k + 1, 0, [], NOTHING).items, tbls);
      }
    }
  }

  lemma NewCountable(p: BandSpec, r: nat, v: int, tbls: set<nat>)
    requires r <= 15 && p.tbl in tbls
    ensures Countable(NewItems(p, r, v), tbls)
  {
  }

  lemma ThreeCountable(a: seq<Item>, b: seq<Item>, c: seq<Item>, d: seq<Item>, tbls: set<nat>)
    requires Countable(a, tbls) && Countable(b, tbls) && Countable(c, tbls) && Countable(d, tbls)
    ensures Countable(a + b + c + d, tbls)
  {
    BothCountable(a, b, tbls);
    BothCountable(a + b, c, tbls);
    BothCountable(a + b + c, d, tbls);
  }

  // ----- one MCU -----

  lemma {:induction false} SequentialCountable(m: McuSpec, mcu: seq<Block>, lastDc: seq<int>, i: nat, n: nat, tbls: set<nat>)
    requires ValidMcu(m, n) && FitsMcu(m, mcu, lastDc) && i <= |mcu| && DcInRange(m, 0, mcu, lastDc, i)
    requires forall c :: 0 <= c < |m.dcTbl| ==> m.dcTbl[c] in tbls && m.acTbl[c] in tbls
    requires forall i :: 0 <= i < |mcu| ==> BandInRange(mcu[i], 1, DCTSIZE2 - 1)
    ensures Countable(SequentialCoding.EncodeMcu(m, mcu, lastDc, i, n).0, tbls)
    decreases |mcu| - i
  {
    hide Countable, SequentialCoding.BlockItems, BandInRange, NBits;
    if i == |mcu| {
      NoneCountable(tbls);
    } else {
      var ci := m.membership[i];
      assert Asr(mcu[i][0], 0) == mcu[i][0];
      SequentialCountable(m, mcu, lastDc[ci := mcu[i][0]], i + 1, n, tbls);
      BlockCountable(m.dcTbl[ci], m.acTbl[ci], mcu[i], lastDc[ci], tbls);
      BothCountable(SequentialCoding.BlockItems(m.dcTbl[ci], m.acTbl[ci], mcu[i], lastDc[ci]),
                    SequentialCoding.EncodeMcu(m, mcu, lastDc[ci := mcu[i][0]], i + 1, n).0, tbls);
    }
  }

  lemma BlockCountable(dcTbl: nat, acTbl: nat, zz: Block, lastDc: int, tbls: set<nat>)
    requires |zz| == DCTSIZE2 && dcTbl in tbls && acTbl in tbls && BandInRange(zz, 1, DCTSIZE2 - 1)
    requires NBits(Abs(zz[0] - lastDc)) <= MAX_COEF_BITS + 1
    ensures Countable(SequentialCoding.BlockItems(dcTbl, acTbl, zz, lastDc), tbls)
  {
    hide Countable, DcItems, AcItems, TrailingZeros, BandInRange, NBits;
    DcCountable(dcTbl, zz[0] - lastDc, tbls);
    AcCountable(acTbl, zz, 1, 63, 0, tbls);
    NoneCountable(tbls);
    OneCountable(Sym(acTbl, 0), tbls);
    BothCountable(DcItems(dcTbl, zz[0] - lastDc), AcItems(acTbl, zz, 1, 63, 0), tbls);
    BothCountable(DcItems(dcTbl, zz[0] - lastDc) + AcItems(acTbl, zz, 1, 63, 0),
                  if TrailingZeros(zz, 1, 63, 0) > 0 then [Sym(acTbl, 0)] else [], tbls);
  }

  lemma {:induction false} DcFirstCountable(m: McuSpec, al: nat, mcu: seq<Block>, lastDc: seq<int>, i: nat, n: nat, tbls: set<nat>)
    requires ValidMcu(m, n) && FitsMcu(m, mcu, lastDc) && i <= |mcu| && DcInRange(m, al, mcu, lastDc, i)
    requires forall c :: 0 <= c < |m.dcTbl| ==> m.dcTbl[c] in tbls
    ensures Countable(EncodeDcFirst(m, al, mcu, lastDc, i, n).0, tbls)
    decreases |mcu| - i
  {
    hide Countable, DcItems, NBits, Asr;
    if i == |mcu| {
      NoneCountable(tbls);
    } else {
      var ci, dc := m.membership[i], Asr(mcu[i][0], al);
      DcFirstCountable(m, al, mcu, lastDc[ci := dc], i + 1, n, tbls);
      DcCountable(m.dcTbl[ci], dc - lastDc[ci], tbls);
      BothCountable(DcItems(m.dcTbl[ci], dc - lastDc[ci]), EncodeDcFirst(m, al, mcu, lastDc[ci := dc], i + 1, n).0, tbls);
    }
  }

  lemma {:induction false} DcRefineCountable(al: nat, mcu: seq<Block>, i: nat, tbls: set<nat>)
    requires Blocks(mcu) && i <= |mcu|
    ensures Countable(EncodeDcRefine(al, mcu, i), tbls)
    decreases |mcu| - i
  {
    if i < |mcu| {
      DcRefineCountable(al, mcu, i + 1, tbls);
    }
  }

  lemma FirstCountable(p: BandSpec, zz: Block, run: nat, tbls: set<nat>)
    requires |zz| == DCTSIZE2 && p.se < DCTSIZE2 && p.tbl in tbls && run < MAX_EOBRUN && BandInRange(Shifted(zz, p.al), p.ss, p.se)
    ensures Countable(EncodeFirst(p, zz, run).0, tbls)
  {
    hide Countable, AcItems, TrailingZeros, BandInRange, EobItems, Shifted;
    var coefs := AcItems(p.tbl, Shifted(zz, p.al), p.ss, p.se, 0);
    AcCountable(p.tbl, Shifted(zz, p.al), p.ss, p.se, 0, tbls);
    EobCountable(p.tbl, run, tbls);
    EobCountable(p.tbl, MAX_EOBRUN, tbls);
    NoneCountable(tbls);
    var before := if coefs == [] then [] else EobItems(p.tbl, run);
    BothCountable(before, coefs, tbls);
    BothCountable(before + coefs, EobItems(p.tbl, MAX_EOBRUN), tbls);
  }

  lemma RefineCountable(p: BandSpec, zz: Block, pd: Pending, tbls: set<nat>)
    requires |zz| == DCTSIZE2 && 0 < p.ss && p.se < DCTSIZE2 && p.tbl in tbls && pd.run < MAX_EOBRUN
    ensures Countable(EncodeRefine(p, zz, pd).0, tbls)
  {
    hide Countable, RefineLoop, LastNew, Flush;
    LoopCountable(p, zz, p.ss, 0, [], pd, tbls);
    var l := RefineLoop(p, zz, LastNew(p, zz, p.se), p.ss, 0, [], pd);
    var pd1 := Pending(l.pd.run + 1, l.pd.be + l.br);
    FlushCountable(p.tbl, pd1, tbls);
    BothCountable(l.items, Flush(p.tbl, pd1), tbls);
  }

  lemma McuCountable(sc: Scan, lastDc: seq<int>, pd: Pending, mcu: Mcu, n: nat)
    requires ValidScan(sc, n) && FitsMcu(sc.mcu, mcu, lastDc) && PendingFits(sc, pd) && McuInRange(sc, lastDc, mcu)
    ensures Countable(OneMcu(sc, lastDc, pd, mcu, n).0, Uses(sc))
  {
    hide Countable, EncodeFirst, EncodeRefine, DcInRange, BandInRange, EncodeDcFirst, EncodeDcRefine, SequentialCoding.EncodeMcu,
         Shifted, Asr;
    UsesBelow(sc, n);
    match sc.kind
    case Sequential => SequentialCountable(sc.mcu, mcu, lastDc, 0, n, Uses(sc));
    case DcFirst => DcFirstCountable(sc.mcu, sc.al, mcu, lastDc, 0, n, Uses(sc));
    case DcRefine => DcRefineCountable(sc.al, mcu, 0, Uses(sc));
    case AcFirst => FirstCountable(BandOf(sc), mcu[0], pd.run, Uses(sc));
    case AcRefine => RefineCountable(BandOf(sc), mcu[0], pd, Uses(sc));
  }

  // ----- the scan -----

  lemma ClosedCountable(sc: Scan, e: EncState, n: nat)
    requires ValidScan(sc, n) && PendingFits(sc, e.pd) && Countable(e.items, Uses(sc))
    ensures Countable(Closed(sc, e), Uses(sc))
  {
    hide Countable, Flush;
    UsesBelow(sc, n);
    if e.pd.run == 0 {
      NoneCountable(Uses(sc));
      assert Flush(BandOf(sc).tbl, e.pd) == [] by { NoRun(BandOf(sc).tbl, e.pd); }
    } else {
      FlushCountable(BandOf(sc).tbl, e.pd, Uses(sc));
    }
    BothCountable(e.items, Flush(BandOf(sc).tbl, e.pd), Uses(sc));
  }

  lemma NoRun(tbl: nat, pd: Pending)
    requires pd.run == 0
    ensures Flush(tbl, pd) == []
  {
  }

  lemma StepCountable(sc: Scan, ts: seq<Table>, s: ScanEnc, mcu: Mcu)
    requires ValidScan(sc, |ts|) && FitsMcu(sc.mcu, mcu, s.e.lastDc) && s.num < 8 && PendingFits(sc, s.e.pd)
    requires FitsMcu(sc.mcu, mcu, if sc.interval > 0 && s.togo == 0 then Fresh(sc).lastDc else s.e.lastDc)
    requires McuInRange(sc, if sc.interval > 0 && s.togo == 0 then Fresh(sc).lastDc else s.e.lastDc, mcu)
    requires Countable(s.done, Uses(sc)) && Countable(s.e.items, Uses(sc))
    ensures var r := EncodeStep(sc, ts, s, mcu);
      PendingFits(sc, r.e.pd) && Countable(r.done, Uses(sc)) && Countable(r.e.items, Uses(sc))
  {
    hide Countable, OneMcu, McuInRange, PendingFits, Closed, ItemsBits, ByteStream.SegmentBytes;
    var s1 := if sc.interval > 0 && s.togo == 0 then EmitRestart(sc, ts, s) else s;
    FreshSafe(sc);
    RunStaysSafe(sc, s1.e, mcu, |ts|);
    McuCountable(sc, s1.e.lastDc, s1.e.pd, mcu, |ts|);
    ClosedCountable(sc, s.e, |ts|);
    BothCountable(s.done, Closed(sc, s.e), Uses(sc));
    NoneCountable(Uses(sc));
    BothCountable(s1.e.items, OneMcu(sc, s1.e.lastDc, s1.e.pd, mcu, |ts|).0, Uses(sc));
  }

  lemma {:induction false} RestCountable(sc: Scan, ts: seq<Table>, s: ScanEnc, mcus: seq<Mcu>)
    requires ValidScan(sc, |ts|) && FitsScan(sc, mcus) && |s.e.lastDc| == |sc.mcu.dcTbl| && s.num < 8
    requires PassInRange(sc, ts, s, mcus) && PendingFits(sc, s.e.pd) && Countable(s.done, Uses(sc)) && Countable(s.e.items, Uses(sc))
    ensures Countable(AllItems(sc, EncodeScan(sc, ts, s, mcus)), Uses(sc))
    decreases |mcus|
  {
    hide Countable, McuInRange, PendingFits, Closed, EncodeStep, ValidScan, FitsMcu;
    if |mcus| == 0 {
      ClosedCountable(sc, s.e, |ts|);
      BothCountable(s.done, Closed(sc, s.e), Uses(sc));
    } else {
      FitsFirst(sc, mcus, s.e.lastDc);
      FreshFits(sc);
      FitsFirst(sc, mcus, if sc.interval > 0 && s.togo == 0 then Fresh(sc).lastDc else s.e.lastDc);
      StepCountable(sc, ts, s, mcus[0]);
      RestCountable(sc, ts, EncodeStep(sc, ts, s, mcus[0]), mcus[1..]);
    }
  }

  /** A statistics pass that takes no error exit counts every symbol of the scan. */
  lemma AllCounted(sc: Scan, ts: seq<Table>, mcus: seq<Mcu>)
    requires ValidScan(sc, |ts|) && FitsScan(sc, mcus)
    requires |Begin(sc).e.lastDc| == |sc.mcu.dcTbl| && PassInRange(sc, ts, Begin(sc), mcus)
    ensures Countable(ScanItems(sc, mcus, |ts|), Uses(sc))
  {
    hide Countable, PendingFits, EncodeScan, ScanItems, ValidScan, FitsScan, AllItems, PassInRange;
    FreshSafe(sc);
    NoneCountable(Uses(sc));
    RestCountable(sc, ts, Begin(sc), mcus);
    PassWritesScan(sc, ts, mcus);
  }

  // ----- every table is used -----

  ghost predicate UsesTable(items: seq<Item>, tbl: nat) {
    exists i :: 0 <= i < |items| && items[i].Sym? && items[i].tbl == tbl
  }

  lemma UsesAt(items: seq<Item>, i: nat)
    requires i < |items| && items[i].Sym?
    ensures UsesTable(items, items[i].tbl)
  {
  }

  lemma UsesEither(a: seq<Item>, b: seq<Item>, tbl: nat)
    requires UsesTable(a, tbl) || UsesTable(b, tbl)
    ensures UsesTable(a + b, tbl)
  {
    if UsesTable(a, tbl) {
      var i :| 0 <= i < |a| && a[i].Sym? && a[i].tbl == tbl;
      assert (a + b)[i] == a[i];
    } else {
      var i :| 0 <= i < |b| && b[i].Sym? && b[i].tbl == tbl;
      assert (a + b)[|a| + i] == b[i];
    }
  }

  lemma CoefUses(tbl: nat, r: nat, v: int)
    ensures UsesTable(CoefItems(tbl, r, v), tbl)
  {
    hide NBits, ValueBits, UsesTable, ZrlItems;
    UsesAt(CoefItems(tbl, r, v), |ZrlItems(tbl, r / 16)|);
  }

  /** A band that is not empty has a symbol of its own, or zeros at its end. */
  lemma {:induction false} AcUses(tbl: nat, zz: seq<int>, k: nat, se: nat, r: nat)
    requires se < |zz| && (k <= se || r > 0)
    ensures UsesTable(AcItems(tbl, zz, k, se, r), tbl) || TrailingZeros(zz, k, se, r) > 0
    decreases se + 1 - k
  {
    hide CoefItems, UsesTable;
    if k <= se {
      if zz[k] == 0 {
        AcUses(tbl, zz, k + 1, se, r + 1);
      } else {
        CoefUses(tbl, r, zz[k]);
        UsesEither(CoefItems(tbl, r, zz[k]), AcItems(tbl, zz, k + 1, se, 0), tbl);
      }
    }
  }

  lemma DcUses(tbl: nat, diff: int)
    ensures UsesTable(DcItems(tbl, diff), tbl)
  {
    hide NBits, ValueBits, UsesTable;
    UsesAt(DcItems(tbl, diff), 0);
  }

  lemma EobUses(tbl: nat, run: nat)
    requires run > 0
    ensures UsesTable(EobItems(tbl, run), tbl)
  {
    hide NBits, ToBits, UsesTable;
    UsesAt(EobItems(tbl, run), 0);
  }

  lemma BlockUses(dcTbl: nat, acTbl: nat, zz: Block, lastDc: int)
    requires |zz| == DCTSIZE2
    ensures UsesTable(SequentialCoding.BlockItems(dcTbl, acTbl, zz, lastDc), dcTbl)
    ensures UsesTable(SequentialCoding.BlockItems(dcTbl, acTbl, zz, lastDc), acTbl)
  {
    hide UsesTable, DcItems, AcItems, TrailingZeros;
    var dc, ac := DcItems(dcTbl, zz[0] - lastDc), AcItems(acTbl, zz, 1, 63, 0);
    var eob := if TrailingZeros(zz, 1, 63, 0) > 0 then [Sym(acTbl, 0)] else [];
    DcUses(dcTbl, zz[0] - lastDc);
    AcUses(acTbl, zz, 1, 63, 0);
    UsesEither(dc, ac, dcTbl);
    UsesEither(dc + ac, eob, dcTbl);
    if TrailingZeros(zz, 1, 63, 0) > 0 {
      UsesAt(eob, 0);
    } else {
      UsesEither(dc, ac, acTbl);
    }
    UsesEither(dc + ac, eob, acTbl);
  }

  lemma {:induction false} SequentialUses(m: McuSpec, mcu: seq<Block>, lastDc: seq<int>, i: nat, n: nat, j: nat)
    requires ValidMcu(m, n) && FitsMcu(m, mcu, lastDc) && i <= j < |mcu|
    ensures UsesTable(SequentialCoding.EncodeMcu(m, mcu, lastDc, i, n).0, m.dcTbl[m.membership[j]])
    ensures UsesTable(SequentialCoding.EncodeMcu(m, mcu, lastDc, i, n).0, m.acTbl[m.membership[j]])
    decreases |mcu| - i
  {
    hide UsesTable, SequentialCoding.BlockItems;
    var ci, cj := m.membership[i], m.membership[j];
    var first := SequentialCoding.BlockItems(m.dcTbl[ci], m.acTbl[ci], mcu[i], lastDc[ci]);
    var rest := SequentialCoding.EncodeMcu(m, mcu, lastDc[ci := mcu[i][0]], i + 1, n).0;
    if i == j {
      BlockUses(m.dcTbl[ci], m.acTbl[ci], mcu[i], lastDc[ci]);
    } else {
      SequentialUses(m, mcu, lastDc[ci := mcu[i][0]], i + 1, n, j);
    }
    UsesEither(first, rest, m.dcTbl[cj]);
    UsesEither(first, rest, m.acTbl[cj]);
  }

  lemma {:induction false} DcFirstUses(m: McuSpec, al: nat, mcu: seq<Block>, lastDc: seq<int>, i: nat, n: nat, j: nat)
    requires ValidMcu(m, n) && FitsMcu(m, mcu, lastDc) && i <= j < |mcu|
    ensures UsesTable(EncodeDcFirst(m, al, mcu, lastDc, i, n).0, m.dcTbl[m.membership[j]])
    decreases |mcu| - i
  {
    hide UsesTable, DcItems, Asr;
    var ci, dc := m.membership[i], Asr(mcu[i][0], al);
    if i == j {
      DcUses(m.dcTbl[ci], dc - lastDc[ci]);
    } else {
      DcFirstUses(m, al, mcu, lastDc[ci := dc], i + 1, n, j);
    }
    UsesEither(DcItems(m.dcTbl[ci], dc - lastDc[ci]), EncodeDcFirst(m, al, mcu, lastDc[ci := dc], i + 1, n).0,
               m.dcTbl[m.membership[j]]);
  }

  /** A block of a first AC scan emits a symbol, or leaves a run pending. */
  lemma FirstUses(p: BandSpec, zz: Block, run: nat)
    requires |zz| == DCTSIZE2 && p.ss <= p.se < DCTSIZE2
    ensures UsesTable(EncodeFirst(p, zz, run).0, p.tbl) || EncodeFirst(p, zz, run).1 > 0
  {
    hide UsesTable, AcItems, TrailingZeros, EobItems, Shifted;
    var band := Shifted(zz, p.al);
    var coefs := AcItems(p.tbl, band, p.ss, p.se, 0);
    var before := if coefs == [] then [] else EobItems(p.tbl, run);
    AcUses(p.tbl, band, p.ss, p.se, 0);
    EobUses(p.tbl, MAX_EOBRUN);
    if UsesTable(coefs, p.tbl) {
      UsesEither(before, coefs, p.tbl);
    }
    UsesEither(before + coefs, EobItems(p.tbl, MAX_EOBRUN), p.tbl);
  }

  lemma {:induction false} SegmentFirstUses(p: BandSpec, bs: seq<Block>, run: nat)
    requires Blocks(bs) && p.ss <= p.se < DCTSIZE2 && (|bs| > 0 || run > 0)
    ensures UsesTable(SegmentFirst(p, bs, run), p.tbl)
    decreases |bs|
  {
    hide UsesTable, EncodeFirst, EobItems;
    if |bs| == 0 {
      EobUses(p.tbl, run);
    } else {
      var (items, run1) := EncodeFirst(p, bs[0], run);
      FirstUses(p, bs[0], run);
      if run1 > 0 {
        SegmentFirstUses(p, bs[1..], run1);
      }
      UsesEither(items, SegmentFirst(p, bs[1..], run1), p.tbl);
    }
  }

  lemma {:induction false} LoopUses(p: BandSpec, zz: Block, eob: nat, k: nat, r: nat, br: Bits, pd: Pending)
    requires |zz| == DCTSIZE2 && p.se < DCTSIZE2 && (k <= p.se || r > 0 || br != [])
    ensures var l := RefineLoop(p, zz, eob, k, r, br, pd); UsesTable(l.items, p.tbl) || l.r > 0 || l.br != []
    decreases p.se + 1 - k, r
  {
    hide Mag, Flush, NewItems, BitItems, UsesTable;
    if k <= p.se {
      if Mag(p, zz, k) == 0 {
        LoopUses(p, zz, eob, k + 1, r + 1, br, pd);
      } else if r > 15 && k <= eob {
        UsesAt([Sym(p.tbl, ZRL)], 0);
        UsesSecond(Flush(p.tbl, pd), [Sym(p.tbl, ZRL)], BitItems(br), RefineLoop(p, zz, eob, k, r - 16, [], NOTHING).items, p.tbl);
      } else if Mag(p, zz, k) > 1 {
        LoopUses(p, zz, eob, k + 1, r, br + [Mag(p, zz, k) % 2 == 1], pd);
      } else {
        NewUses(p, r, zz[k]);
        UsesSecond(Flush(p.tbl, pd), NewItems(p, r, zz[k]), BitItems(br), RefineLoop(p, zz, eob, k + 1, 0, [], NOTHING).items, p.tbl);
      }
    }
  }

  lemma NewUses(p: BandSpec, r: nat, v: int)
    ensures UsesTable(NewItems(p, r, v), p.tbl)
  {
    hide UsesTable;
    UsesAt(NewItems(p, r, v), 0);
  }

  lemma UsesSecond(a: seq<Item>, b: seq<Item>, c: seq<Item>, d: seq<Item>, tbl: nat)
    requires UsesTable(b, tbl)
    ensures UsesTable(a + b + c + d, tbl)
  {
    hide UsesTable;
    UsesEither(a, b, tbl);
    UsesEither(a + b, c, tbl);
    UsesEither(a + b + c, d, tbl);
  }

  lemma FlushUses(tbl: nat, pd: Pending)
    requires pd.run > 0
    ensures UsesTable(Flush(tbl, pd), tbl)
  {
    hide UsesTable, EobItems, BitItems;
    EobUses(tbl, pd.run);
    UsesEither(EobItems(tbl, pd.run), BitItems(pd.be), tbl);
  }

  /** A block of an AC refinement scan emits a symbol, or leaves a run pending. */
  lemma RefineUses(p: BandSpec, zz: Block, pd: Pending)
    requires |zz| == DCTSIZE2 && p.ss <= p.se < DCTSIZE2
    ensures UsesTable(EncodeRefine(p, zz, pd).0, p.tbl) || EncodeRefine(p, zz, pd).1.run > 0
  {
    hide UsesTable, RefineLoop, LastNew, Flush;
    var l := RefineLoop(p, zz, LastNew(p, zz, p.se), p.ss, 0, [], pd);
    LoopUses(p, zz, LastNew(p, zz, p.se), p.ss, 0, [], pd);
    var pd1 := Pending(l.pd.run + 1, l.pd.be + l.br);
    FlushUses(p.tbl, pd1);
    UsesEither(l.items, Flush(p.tbl, pd1), p.tbl);
  }

  lemma {:induction false} SegmentRefineUses(p: BandSpec, bs: seq<Block>, pd: Pending)
    requires Blocks(bs) && p.ss <= p.se < DCTSIZE2 && (|bs| > 0 || pd.run > 0)
    ensures UsesTable(SegmentRefine(p, bs, pd), p.tbl)
    decreases |bs|
  {
    hide UsesTable, EncodeRefine, Flush;
    if |bs| == 0 {
      FlushUses(p.tbl, pd);
    } else {
      var (items, pd1) := EncodeRefine(p, bs[0], pd);
      RefineUses(p, bs[0], pd);
      if pd1.run > 0 {
        SegmentRefineUses(p, bs[1..], pd1);
      }
      UsesEither(items, SegmentRefine(p, bs[1..], pd1), p.tbl);
    }
  }

  /** Every component of the scan has blocks in its MCUs. */
  ghost predicate NoIdleComponent(sc: Scan) {
    forall c :: 0 <= c < |sc.mcu.dcTbl| ==> c in sc.mcu.membership
  }

  lemma SegmentUses(sc: Scan, mcus: seq<Mcu>, n: nat, tbl: nat)
    requires ValidScan(sc, n) && FitsScan(sc, mcus) && |mcus| > 0 && NoIdleComponent(sc) && tbl in Uses(sc)
    ensures UsesTable(SegmentItems(sc, mcus, n), tbl)
  {
    hide UsesTable, EncodeDcFirst, SequentialCoding.EncodeMcu, SegmentFirst, SegmentRefine;
    if sc.kind == AcFirst {
      SegmentFirstUses(BandOf(sc), FirstBlocks(mcus), 0);
    } else if sc.kind == AcRefine {
      SegmentRefineUses(BandOf(sc), FirstBlocks(mcus), NOTHING);
    } else {
      assert FitsOne(sc, mcus[0]);
      var c := ComponentWith(sc, n, tbl);
      assert c in sc.mcu.membership;
      var j :| 0 <= j < |sc.mcu.membership| && sc.mcu.membership[j] == c;
      if sc.kind == Sequential {
        SequentialUses(sc.mcu, mcus[0], NoDc(sc), 0, n, j);
      } else {
        DcFirstUses(sc.mcu, sc.al, mcus[0], NoDc(sc), 0, n, j);
      }
      var e := EncodeDc(sc, mcus[0], NoDc(sc), n);
      UsesEither(e.0, DcSegment(sc, mcus[1..], e.1, n), tbl);
    }
  }

  lemma ComponentWith(sc: Scan, n: nat, tbl: nat) returns (c: nat)
    requires ValidScan(sc, n) && sc.kind in {Sequential, DcFirst, DcRefine} && tbl in Uses(sc)
    ensures sc.kind != DcRefine && c < |sc.mcu.dcTbl| == |sc.mcu.acTbl|
    ensures sc.mcu.dcTbl[c] == tbl || (sc.kind == Sequential && sc.mcu.acTbl[c] == tbl)
  {
    if tbl in sc.mcu.dcTbl {
      c :| 0 <= c < |sc.mcu.dcTbl| && sc.mcu.dcTbl[c] == tbl;
    } else {
      c :| 0 <= c < |sc.mcu.acTbl| && sc.mcu.acTbl[c] == tbl;
    }
  }

  /** A scan with at least one MCU emits a symbol with each of its tables. */
  lemma ScanUses(sc: Scan, mcus: seq<Mcu>, n: nat, tbl: nat)
    requires ValidScan(sc, n) && FitsScan(sc, mcus) && |mcus| > 0 && NoIdleComponent(sc) && tbl in Uses(sc)
    ensures exists sym: nat :: Occurrences(ScanItems(sc, mcus, n), tbl, sym) > 0
  {
    hide UsesTable, SegmentItems, ValidScan, FitsScan, NoIdleComponent, Uses;
    var items := ScanItems(sc, mcus, n);
    if sc.interval == 0 || |mcus| <= sc.interval {
      SegmentUses(sc, mcus, n, tbl);
    } else {
      FitsSplit(sc, mcus, sc.interval);
      SegmentUses(sc, mcus[..sc.interval], n, tbl);
      UsesEither(SegmentItems(sc, mcus[..sc.interval], n), ScanItems(sc, mcus[sc.interval..], n), tbl);
    }
    var sym := SymbolWith(items, tbl);
  }

  lemma SymbolWith(items: seq<Item>, tbl: nat) returns (sym: nat)
    requires UsesTable(items, tbl)
    ensures Occurrences(items, tbl, sym) > 0
  {
    var i :| 0 <= i < |items| && items[i].Sym? && items[i].tbl == tbl;
    sym := items[i].sym;
    OccursCounted(items, i);
  }

  lemma {:induction false} OccursSomewhere(items: seq<Item>, tbl: nat, sym: nat) returns (i: nat)
    requires Occurrences(items, tbl, sym) > 0
    ensures i < |items| && items[i] == Sym(tbl, sym)
  {
    if items[0] == Sym(tbl, sym) {
      i := 0;
    } else {
      i := OccursSomewhere(items[1..], tbl, sym);
      i := i + 1;
    }
  }

  /** What a scan counts are usual symbols of its tables. */
  lemma OnlyUsual(items: seq<Item>, tbls: set<nat>, tbl: nat, sym: nat)
    requires Countable(items, tbls) && Occurrences(items, tbl, sym) > 0
    ensures tbl in tbls && UsualSymbol(sym)
  {
    var i := OccursSomewhere(items, tbl, sym);
    assert FitsCounts(items[i], tbls);
  }
}
