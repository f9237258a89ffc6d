/** The loops of the entropy encoders as relations between what a loop has emitted and what the specification
    says of the whole block or MCU; shared by the sequential and the progressive encoder. */
module EncoderLoops {
  import opened BitSeq
  import opened ByteStream
  import BitWriter
  import opened Symbols
  import opened Coefficients
  import opened BlockCoding
  import opened AcFirstCoding
  import opened AcRefineCoding
  import opened DcCoding
  import opened ScanCoding
  import opened ScanEncoding
  import opened NaturalOrder

  /** The number of bits of a magnitude, counted by shifting. */
  method CountBits(v: nat) returns (nbits: nat)
    ensures nbits == NBits(v)
  {
    nbits := 0;
    var temp := v;
    while temp != 0
      invariant nbits + NBits(temp) == NBits(v)
    {
      nbits := nbits + 1;
      temp := temp / 2;
    }
  }

  lemma OneMore(ts: seq<Table>, items: seq<Item>, i: Item)
    ensures ItemsBits(ts, items + [i]) == ItemsBits(ts, items) + ItemBits(ts, i)
    ensures forall tbl, sym :: Occurrences(items + [i], tbl, sym)
                               == Occurrences(items, tbl, sym) + if i == Sym(tbl, sym) then 1 else 0
    ensures Coded(ts, items + [i]) <==> Coded(ts, items) && ItemCoded(ts, i)
  {
    ItemsBitsConcat(ts, items, [i]);
    var s := [i];
    assert s[0] == i && s[1..] == [];
    assert ItemsBits(ts, s) == ItemBits(ts, i) + ItemsBits(ts, s[1..]);
    forall tbl: nat, sym: nat
      ensures Occurrences(items + [i], tbl, sym) == Occurrences(items, tbl, sym) + if i == Sym(tbl, sym) then 1 else 0
    {
      OccurrencesConcat(items, s, tbl, sym);
      assert Occurrences(s, tbl, sym) == (if i == Sym(tbl, sym) then 1 else 0) + Occurrences(s[1..], tbl, sym);
    }
    assert Coded(ts, s) <==> ItemCoded(ts, s[0]);
  }

  lemma OneBit(bit: bool)
    ensures ToBits(BitVal(bit), 1) == [bit]
  {
    assert ToBits(0, 0) == [];
  }

  lemma BitItemsNext(b: seq<bool>, start: nat, i: nat)
    requires start + i < |b|
    ensures BitItems(b[start..start + i + 1]) == BitItems(b[start..start + i]) + [Raw([b[start + i]])]
  {
  }

  lemma AssocEmission(a: seq<Item>, b: seq<Item>, c: seq<Item>)
    ensures a + b + c == a + (b + c)
  {
  }

  /** floor(log2(run)) is one less than its number of bits. */
  method CountShifts(run: nat) returns (nbits: nat)
    requires run > 0
    ensures nbits == NBits(run) - 1
  {
    nbits := 0;
    var temp: nat := run / 2;
    while temp != 0
      invariant nbits + NBits(temp) == NBits(run) - 1
    {
      nbits := nbits + 1;
      temp := temp / 2;
    }
  }

  lemma HoldsBehind(s: BitWriter.PutState, out: seq<Byte>, base: seq<Byte>, more: seq<Byte>)
    requires BitWriter.Holds(s, out, base, [])
    ensures BitWriter.Holds(s, out + more, base + more, [])
  {
    hide BitWriter.Buffered, Stuff, Pack, Leftover;
    NothingStuffed();
    assert base + [] == base && base + more + [] == base + more;
  }

  lemma NothingStuffed()
    ensures Stuff(Pack([])) == []
  {
  }

  /** An end-of-band run and its correction bits: whether they can be written is decided by the EOBn symbol. */
  lemma FlushParts(ts: seq<Table>, tbl: nat, pd: Pending, items: seq<Item>)
    ensures pd.run > 0 ==> (Coded(ts, Flush(tbl, pd)) <==> ItemCoded(ts, Sym(tbl, (NBits(pd.run) - 1) * 16)))
    ensures pd.run > 0 ==> items + Flush(tbl, pd) == items + EobItems(tbl, pd.run) + BitItems(pd.be)
    ensures pd.run == 0 ==> Coded(ts, Flush(tbl, pd)) && items + Flush(tbl, pd) == items
  {
    hide NBits, ToBits;
    if pd.run > 0 {
      var s, n := Flush(tbl, pd), NBits(pd.run) - 1;
      assert s[0] == Sym(tbl, n * 16);
      if Coded(ts, s) {
        assert ItemCoded(ts, s[0]);
      }
      assert forall i :: 1 <= i < |s| ==> s[i].Raw?;
      AssocEmission(items, EobItems(tbl, pd.run), BitItems(pd.be));
    }
  }

  lemma EobParts(items: seq<Item>, tbl: nat, run: nat)
    requires run > 0
    ensures var n := NBits(run) - 1;
      items + EobItems(tbl, run) == items + [Sym(tbl, n * 16)] + if n > 0 then [Raw(ToBits(run, n))] else []
  {
    hide NBits, ToBits;
  }

  lemma EmptyOutput(ts: seq<Table>)
    ensures ItemsBits(ts, []) == [] && BitWriter.Holds(BitWriter.EMPTY, [], [], [])
    ensures forall t, s :: Occurrences([], t, s) == 0
  {
    NothingStuffed();
  }

  /** The blocks of an MCU in zigzag order. */
  function Zigzags(mcu: seq<seq<int>>): (zz: Mcu)
    requires forall i :: 0 <= i < |mcu| ==> |mcu[i]| == DCTSIZE2
    ensures |zz| == |mcu| && Blocks(zz)
    ensures forall i :: 0 <= i < |mcu| ==> zz[i] == Zigzag(mcu[i])
  {
    seq(|mcu|, i requires 0 <= i < |mcu| => Zigzag(mcu[i]))
  }

  lemma DcCoded(ts: seq<Table>, tbl: nat, diff: int)
    ensures Coded(ts, DcItems(tbl, diff)) <==> ItemCoded(ts, Sym(tbl, NBits(Abs(diff))))
  {
    var s := DcItems(tbl, diff);
    assert s[0] == Sym(tbl, NBits(Abs(diff)));
    assert forall i :: 1 <= i < |s| ==> s[i].Raw?;
  }

  lemma SafeRun(sc: Scan, pd: Pending)
    requires PendingFits(sc, pd)
    ensures pd.run < MAX_EOBRUN && (pd.run == 0 ==> pd.be == []) && (pd.run > 0 ==> sc.kind in {AcFirst, AcRefine})
  {
  }

  lemma OneDcFirst(sc: Scan, lastDc: seq<int>, pd: Pending, zz: Mcu, n: nat)
    requires ValidScan(sc, n) && FitsMcu(sc.mcu, zz, lastDc) && sc.kind == DcFirst
    ensures OneMcu(sc, lastDc, pd, zz, n)
         == (DcCoding.EncodeDcFirst(sc.mcu, sc.al, zz, lastDc, 0, n).0, DcCoding.EncodeDcFirst(sc.mcu, sc.al, zz, lastDc, 0, n).1, pd)
    ensures forall j :: 0 <= j < |sc.mcu.membership| ==> sc.mcu.membership[j] < |sc.mcu.dcTbl|
    ensures McuInRange(sc, lastDc, zz) <==> DcInRange(sc.mcu, sc.al, zz, lastDc, 0)
  {
    hide EncodeDcFirst, DcInRange;
  }

  lemma OneDcRefine(ts: seq<Table>, sc: Scan, lastDc: seq<int>, pd: Pending, zz: Mcu)
    requires ValidScan(sc, |ts|) && FitsMcu(sc.mcu, zz, lastDc) && sc.kind == DcRefine
    ensures OneMcu(sc, lastDc, pd, zz, |ts|) == (DcCoding.EncodeDcRefine(sc.al, zz, 0), lastDc, pd)
    ensures forall j :: 0 <= j < |sc.mcu.membership| ==> sc.mcu.membership[j] < |sc.mcu.dcTbl|
    ensures McuInRange(sc, lastDc, zz) && Coded(ts, DcCoding.EncodeDcRefine(sc.al, zz, 0))
  {
    RefineCoded(ts, sc.al, zz, 0);
  }

  lemma {:induction false} RefineCoded(ts: seq<Table>, al: nat, zz: Mcu, i: nat)
    requires Blocks(zz) && i <= |zz|
    ensures Coded(ts, DcCoding.EncodeDcRefine(al, zz, i))
    decreases |zz| - i
  {
    hide Asr;
    if i < |zz| {
      RefineCoded(ts, al, zz, i + 1);
      CodedConcat(ts, [Raw([DcBit(zz[i][0], al)])], DcCoding.EncodeDcRefine(al, zz, i + 1));
    }
  }

  lemma OneAcFirst(sc: Scan, lastDc: seq<int>, pd: Pending, zz: Mcu, n: nat)
    requires ValidScan(sc, n) && FitsMcu(sc.mcu, zz, lastDc) && sc.kind == AcFirst
    ensures |zz| == 1 && |zz[0]| == DCTSIZE2 && sc.se < DCTSIZE2
    ensures OneMcu(sc, lastDc, pd, zz, n)
         == (EncodeFirst(BandOf(sc), zz[0], pd.run).0, lastDc, Pending(EncodeFirst(BandOf(sc), zz[0], pd.run).1, []))
    ensures forall j :: 0 <= j < |sc.mcu.membership| ==> sc.mcu.membership[j] < |sc.mcu.dcTbl|
    ensures McuInRange(sc, lastDc, zz) <==> BandInRange(Shifted(zz[0], sc.al), sc.ss, sc.se)
  {
    hide EncodeFirst, BandInRange;
  }

  lemma OneAcRefine(sc: Scan, lastDc: seq<int>, pd: Pending, zz: Mcu, n: nat)
    requires ValidScan(sc, n) && FitsMcu(sc.mcu, zz, lastDc) && sc.kind == AcRefine
    ensures |zz| == 1 && |zz[0]| == DCTSIZE2 && BandOf(sc).se < DCTSIZE2
    ensures OneMcu(sc, lastDc, pd, zz, n)
         == (EncodeRefine(BandOf(sc), zz[0], pd).0, lastDc, EncodeRefine(BandOf(sc), zz[0], pd).1)
    ensures forall j :: 0 <= j < |sc.mcu.membership| ==> sc.mcu.membership[j] < |sc.mcu.dcTbl|
    ensures McuInRange(sc, lastDc, zz)
  {
    hide EncodeRefine;
  }

  lemma RestartEncodable(sc: Scan, ts: seq<Table>, gather: bool, s: ScanEnc, zz: Mcu)
    requires ValidScan(sc, |ts|) && FitsMcu(sc.mcu, zz, s.e.lastDc) && s.num < 8 && sc.interval > 0 && s.togo == 0
    ensures StepEncodable(sc, ts, gather, s, zz) ==> gather || Coded(ts, Flush(BandOf(sc).tbl, s.e.pd))
  {
    hide Coded, Flush, OneMcu, McuInRange;
  }

  /** The step of the specification, in terms of the segment state e behind a restart that was due. */
  lemma StepIs(sc: Scan, ts: seq<Table>, gather: bool, s: ScanEnc, zz: Mcu, e: EncState, s1: ScanEnc)
    requires ValidScan(sc, |ts|) && FitsMcu(sc.mcu, zz, s.e.lastDc) && s.num < 8 && |e.lastDc| == |s.e.lastDc|
    requires s1 == (if sc.interval > 0 && s.togo == 0 then EmitRestart(sc, ts, s) else s) && e == s1.e
    requires sc.interval > 0 && s.togo == 0 ==> gather || Coded(ts, Flush(BandOf(sc).tbl, s.e.pd))
    requires PendingFits(sc, e.pd)
    ensures FitsMcu(sc.mcu, zz, e.lastDc)
    ensures forall j :: 0 <= j < |sc.mcu.membership| ==> sc.mcu.membership[j] < |sc.mcu.dcTbl|
    ensures StepEncodable(sc, ts, gather, s, zz) <==>
      McuInRange(sc, e.lastDc, zz) && (gather || Coded(ts, OneMcu(sc, e.lastDc, e.pd, zz, |ts|).0))
    ensures EncodeStep(sc, ts, s, zz) == ScanEnc(s1.out, s1.done,
      EncState(e.items + OneMcu(sc, e.lastDc, e.pd, zz, |ts|).0, OneMcu(sc, e.lastDc, e.pd, zz, |ts|).1,
               OneMcu(sc, e.lastDc, e.pd, zz, |ts|).2), if sc.interval > 0 then s1.togo - 1 else s1.togo, s1.num)
    ensures PendingFits(sc, OneMcu(sc, e.lastDc, e.pd, zz, |ts|).2)
    ensures sc.kind in {AcFirst, AcRefine} ==> OneMcu(sc, e.lastDc, e.pd, zz, |ts|).1 == e.lastDc
  {
    hide Coded, Flush, McuInRange, EncodeFirst, EncodeRefine, EncodeDc, PendingFits, ItemsBits, SegmentBytes;
    RunStaysSafe(sc, e, zz, |ts|);
  }

  /** Behind the loop of AC_refine: what is left joins the pending run, which is written when one of its limits is reached. */
  lemma RefineEnds(ts: seq<Table>, p: BandSpec, zz: Block, pd: Pending, l: Loop, pd1: Pending, items: seq<Item>)
    requires |zz| == DCTSIZE2 && p.se < DCTSIZE2 && l == RefineLoop(p, zz, LastNew(p, zz, p.se), p.ss, 0, [], pd)
    requires pd1 == Pending(l.pd.run + 1, l.pd.be + l.br)
    ensures !Coded(ts, l.items) ==> !Coded(ts, EncodeRefine(p, zz, pd).0)
    ensures l.r == 0 && l.br == [] ==> EncodeRefine(p, zz, pd) == (l.items, l.pd)
    ensures !(l.r == 0 && l.br == []) && pd1.run < MAX_EOBRUN && |pd1.be| <= MAX_CORR_BITS - DCTSIZE2 + 1 ==>
      EncodeRefine(p, zz, pd) == (l.items, pd1)
    ensures !(l.r == 0 && l.br == []) && (pd1.run == MAX_EOBRUN || |pd1.be| > MAX_CORR_BITS - DCTSIZE2 + 1) ==>
      && EncodeRefine(p, zz, pd).1 == NOTHING
      && items + EncodeRefine(p, zz, pd).0 == items + l.items + Flush(p.tbl, pd1)
      && (Coded(ts, EncodeRefine(p, zz, pd).0) <==> Coded(ts, l.items) && Coded(ts, Flush(p.tbl, pd1)))
    ensures l.pd.run < MAX_EOBRUN ==> pd1.run <= MAX_EOBRUN
  {
    hide RefineLoop, LastNew, Flush, Coded;
    CodedConcat(ts, l.items, Flush(p.tbl, pd1));
    AssocEmission(items, l.items, Flush(p.tbl, pd1));
  }

  lemma OneSign(sign: seq<bool>)
    requires |sign| == 1
    ensures BitItems(sign) == [Raw([sign[0]])]
  {
  }

  lemma NoSign()
    ensures BitItems([]) == [] && forall s: seq<Item> :: s + [] == s
  {
  }

  /** The loop of AC_refine at position k, against the whole loop of the block. */
  ghost predicate LoopAt(p: BandSpec, zz: Block, eob: nat, k: nat, r: nat, br: Bits, pd: Pending, emitted: seq<Item>, l0: Loop)
    requires |zz| == DCTSIZE2 && p.se < DCTSIZE2
  {
    var l := RefineLoop(p, zz, eob, k, r, br, pd);
    l0 == l.(items := emitted + l.items)
  }

  lemma LoopStarts(p: BandSpec, zz: Block, eob: nat, pd: Pending)
    requires |zz| == DCTSIZE2 && p.se < DCTSIZE2
    ensures LoopAt(p, zz, eob, p.ss, 0, [], pd, [], RefineLoop(p, zz, eob, p.ss, 0, [], pd))
  {
    var l := RefineLoop(p, zz, eob, p.ss, 0, [], pd);
    assert [] + l.items == l.items;
  }

  lemma LoopEnds(p: BandSpec, zz: Block, eob: nat, k: nat, r: nat, br: Bits, pd: Pending, emitted: seq<Item>, l0: Loop)
    requires |zz| == DCTSIZE2 && p.se < DCTSIZE2 && k == p.se + 1
    requires LoopAt(p, zz, eob, k, r, br, pd, emitted, l0)
    ensures l0 == Loop(emitted, r, br, pd)
  {
    assert emitted + [] == emitted;
  }

  lemma LoopZero(p: BandSpec, zz: Block, eob: nat, k: nat, r: nat, br: Bits, pd: Pending, emitted: seq<Item>, l0: Loop)
    requires |zz| == DCTSIZE2 && p.se < DCTSIZE2 && k <= p.se && Mag(p, zz, k) == 0
    requires LoopAt(p, zz, eob, k, r, br, pd, emitted, l0)
    ensures LoopAt(p, zz, eob, k + 1, r + 1, br, pd, emitted, l0)
  {
    hide Mag;
  }

  lemma LoopCorrection(p: BandSpec, zz: Block, eob: nat, k: nat, r: nat, br: Bits, pd: Pending, emitted: seq<Item>, l0: Loop)
    requires |zz| == DCTSIZE2 && p.se < DCTSIZE2 && k <= p.se && Mag(p, zz, k) > 1 && !(r > 15 && k <= eob)
    requires LoopAt(p, zz, eob, k, r, br, pd, emitted, l0)
    ensures LoopAt(p, zz, eob, k + 1, r, br + [Mag(p, zz, k) % 2 == 1], pd, emitted, l0)
  {
    hide Mag;
  }

  lemma RawCoded(ts: seq<Table>, b: Bits)
    ensures Coded(ts, BitItems(b))
  {
  }

  lemma AssocFour(a: seq<Item>, b: seq<Item>, c: seq<Item>, d: seq<Item>, e: seq<Item>)
    ensures a + (b + c + d + e) == a + b + c + d + e
  {
  }

  /** A symbol of a refinement scan: behind the pending run, before its sign and the block's correction bits so far. */
  function Group(tbl: nat, pd: Pending, symbol: nat, sign: Bits, br: Bits): seq<Item> {
    Flush(tbl, pd) + [Sym(tbl, symbol)] + BitItems(sign) + BitItems(br)
  }

  lemma GroupParts(ts: seq<Table>, items: seq<Item>, tbl: nat, pd: Pending, symbol: nat, sign: Bits, br: Bits)
    ensures items + Group(tbl, pd, symbol, sign, br)
         == items + Flush(tbl, pd) + [Sym(tbl, symbol)] + BitItems(sign) + BitItems(br)
    ensures Coded(ts, Group(tbl, pd, symbol, sign, br)) <==> Coded(ts, Flush(tbl, pd)) && ItemCoded(ts, Sym(tbl, symbol))
  {
    hide Coded, BitItems, Flush, ItemCoded;
    var f, s := Flush(tbl, pd), [Sym(tbl, symbol)];
    AssocFour(items, f, s, BitItems(sign), BitItems(br));
    RawCoded(ts, sign);
    RawCoded(ts, br);
    CodedConcat(ts, f + s + BitItems(sign), BitItems(br));
    CodedConcat(ts, f + s, BitItems(sign));
    CodedConcat(ts, f, s);
    SymCoded(ts, Sym(tbl, symbol));
  }

  lemma SymCoded(ts: seq<Table>, i: Item)
    ensures Coded(ts, [i]) <==> ItemCoded(ts, i)
  {
    var s := [i];
    assert s[0] == i;
  }

  lemma LoopZrl(ts: seq<Table>, p: BandSpec, zz: Block, eob: nat, k: nat, r: nat, br: Bits, pd: Pending, emitted: seq<Item>,
                l0: Loop, g: seq<Item>)
    requires |zz| == DCTSIZE2 && p.se < DCTSIZE2 && k <= p.se && Mag(p, zz, k) > 0 && r > 15 && k <= eob
    requires LoopAt(p, zz, eob, k, r, br, pd, emitted, l0) && g == Group(p.tbl, pd, ZRL, [], br)
    ensures LoopAt(p, zz, eob, k, r - 16, [], NOTHING, emitted + g, l0)
    ensures Coded(ts, l0.items) ==> Coded(ts, g)
    ensures Coded(ts, emitted + g) <==> Coded(ts, emitted) && Coded(ts, g)
  {
    hide Mag, Flush, Coded, BitItems;
    var l := RefineLoop(p, zz, eob, k, r - 16, [], NOTHING);
    assert g == Flush(p.tbl, pd) + [Sym(p.tbl, ZRL)] + BitItems(br) by { NoSign(); }
    MoreEmitted(ts, emitted, g, l.items);
  }

  lemma MoreEmitted(ts: seq<Table>, emitted: seq<Item>, g: seq<Item>, more: seq<Item>)
    ensures emitted + (g + more) == emitted + g + more
    ensures Coded(ts, emitted + g + more) ==> Coded(ts, g)
    ensures Coded(ts, emitted + g) <==> Coded(ts, emitted) && Coded(ts, g)
  {
    CodedConcat(ts, emitted + g, more);
    CodedConcat(ts, emitted, g);
  }

  lemma LoopNewly(ts: seq<Table>, p: BandSpec, zz: Block, eob: nat, k: nat, r: nat, br: Bits, pd: Pending, emitted: seq<Item>,
                  l0: Loop, g: seq<Item>)
    requires |zz| == DCTSIZE2 && 1 <= p.ss <= k <= p.se < DCTSIZE2 && Mag(p, zz, k) == 1 && eob == LastNew(p, zz, p.se)
    requires LoopAt(p, zz, eob, k, r, br, pd, emitted, l0) && g == Group(p.tbl, pd, r * 16 + 1, [zz[k] >= 0], br)
    requires r > 15 ==> k > eob
    ensures r <= 15
    ensures LoopAt(p, zz, eob, k + 1, 0, [], NOTHING, emitted + g, l0)
    ensures Coded(ts, l0.items) ==> Coded(ts, g)
    ensures Coded(ts, emitted + g) <==> Coded(ts, emitted) && Coded(ts, g)
  {
    hide Mag, Flush, Coded, BitItems, LastNew;
    assert k <= eob;
    var l := RefineLoop(p, zz, eob, k + 1, 0, [], NOTHING);
    assert g == Flush(p.tbl, pd) + NewItems(p, r, zz[k]) + BitItems(br) by {
      OneSign([zz[k] >= 0]);
      AssocEmission(Flush(p.tbl, pd), [Sym(p.tbl, r * 16 + 1)], BitItems([zz[k] >= 0]));
    }
    MoreEmitted(ts, emitted, g, l.items);
  }

  /** The two cases that emit a symbol. */
  lemma LoopEmits(ts: seq<Table>, p: BandSpec, zz: Block, eob: nat, k: nat, r: nat, br: Bits, pd: Pending, emitted: seq<Item>,
                  l0: Loop, zrl: bool, sign: Bits, g: seq<Item>)
    requires |zz| == DCTSIZE2 && 1 <= p.ss <= k <= p.se < DCTSIZE2 && eob == LastNew(p, zz, p.se)
    requires zrl == (r > 15 && k <= eob) && sign == (if zrl then [] else [zz[k] >= 0])
    requires Mag(p, zz, k) > 0 && (Mag(p, zz, k) > 1 ==> zrl)
    requires LoopAt(p, zz, eob, k, r, br, pd, emitted, l0) && g == Group(p.tbl, pd, if zrl then ZRL else r * 16 + 1, sign, br)
    ensures zrl || r <= 15
    ensures LoopAt(p, zz, eob, if zrl then k else k + 1, if zrl then r - 16 else 0, [], NOTHING, emitted + g, l0)
    ensures Coded(ts, l0.items) ==> Coded(ts, g)
    ensures Coded(ts, emitted + g) <==> Coded(ts, emitted) && Coded(ts, g)
  {
    hide *;
    if zrl {
      LoopZrl(ts, p, zz, eob, k, r, br, pd, emitted, l0, g);
    } else {
      LoopNewly(ts, p, zz, eob, k, r, br, pd, emitted, l0, g);
    }
  }

  lemma ZeroBits()
    ensures NBits(Abs(0)) == 0
  {
  }

  lemma RangeStep(band: Block, ss: nat, k: nat, se: nat)
    requires 1 <= k && ss <= k <= se < |band|
    ensures BandInRange(band, ss, k) <==> BandInRange(band, ss, k - 1) && NBits(Abs(band[k])) <= MAX_COEF_BITS
    ensures BandInRange(band, ss, se) ==> NBits(Abs(band[k])) <= MAX_COEF_BITS
  {
    hide NBits, Abs;
  }

  lemma FlushRun(tbl: nat, run: nat)
    ensures Flush(tbl, Pending(run, [])) == EobItems(tbl, run)
  {
    assert BitItems([]) == [];
    assert EobItems(tbl, run) + [] == EobItems(tbl, run);
  }

  /** What AC_first has emitted of the band before position k, the pending run aside. */
  ghost predicate FirstAt(p: BandSpec, band: Block, k: nat, r: nat, emitted: seq<Item>)
    requires |band| == DCTSIZE2 && p.se < DCTSIZE2
  {
    && AcItems(p.tbl, band, p.ss, p.se, 0) == emitted + AcItems(p.tbl, band, k, p.se, r)
    && TrailingZeros(band, p.ss, p.se, 0) == TrailingZeros(band, k, p.se, r)
  }

  /** The state of the AC_first loop before position k, against the state before the block. */
  ghost predicate FirstLoop(p: BandSpec, zz: Block, run0: nat, items0: seq<Item>, k: nat, r: nat, emitted: seq<Item>,
                            items: seq<Item>, run: nat)
    requires |zz| == DCTSIZE2 && 1 <= p.ss <= k <= p.se + 1 <= DCTSIZE2
  {
    && FirstAt(p, Shifted(zz, p.al), k, r, emitted)
    && BandInRange(Shifted(zz, p.al), p.ss, k - 1)
    && items == items0 + AcWritten(p.tbl, run0, emitted)
    && run == (if emitted == [] then run0 else 0)
  }

  /** What a first AC scan writes for a block behind which the run was run0: nothing, or the run and the coefficients. */
  function AcWritten(tbl: nat, run0: nat, emitted: seq<Item>): seq<Item> {
    if emitted == [] then [] else EobItems(tbl, run0) + emitted
  }

  lemma FirstStarts(ts: seq<Table>, p: BandSpec, zz: Block, run0: nat, items0: seq<Item>)
    requires |zz| == DCTSIZE2 && 1 <= p.ss <= p.se < DCTSIZE2
    ensures FirstLoop(p, zz, run0, items0, p.ss, 0, [], items0, run0) && Coded(ts, AcWritten(p.tbl, run0, []))
  {
    hide AcItems, TrailingZeros;
    var s := AcItems(p.tbl, Shifted(zz, p.al), p.ss, p.se, 0);
    assert [] + s == s && items0 + [] == items0;
  }

  lemma FirstZero(p: BandSpec, zz: Block, run0: nat, items0: seq<Item>, k: nat, r: nat, emitted: seq<Item>, items: seq<Item>,
                  run: nat)
    requires |zz| == DCTSIZE2 && 1 <= p.ss <= k <= p.se < DCTSIZE2 && Shifted(zz, p.al)[k] == 0
    requires FirstLoop(p, zz, run0, items0, k, r, emitted, items, run)
    ensures FirstLoop(p, zz, run0, items0, k + 1, r + 1, emitted, items, run)
  {
    hide FirstAt, NBits, Shifted;
    FirstStep(p, Shifted(zz, p.al), k, r, emitted);
    RangeStep(Shifted(zz, p.al), p.ss, k, p.se);
    ZeroBits();
  }

  lemma FirstMore(ts: seq<Table>, p: BandSpec, zz: Block, run0: nat, items0: seq<Item>, k: nat, r: nat, emitted: seq<Item>,
                  items: seq<Item>, run: nat)
    requires |zz| == DCTSIZE2 && 1 <= p.ss <= k <= p.se < DCTSIZE2 && Shifted(zz, p.al)[k] != 0
    requires FirstLoop(p, zz, run0, items0, k, r, emitted, items, run)
    ensures var v := Shifted(zz, p.al)[k]; var coef := CoefItems(p.tbl, r, v);
      && (NBits(Abs(v)) > MAX_COEF_BITS ==> !BandInRange(Shifted(zz, p.al), p.ss, p.se))
      && (NBits(Abs(v)) <= MAX_COEF_BITS ==>
            FirstLoop(p, zz, run0, items0, k + 1, 0, emitted + coef, items + EobItems(p.tbl, run) + coef, 0))
      && (!Coded(ts, EobItems(p.tbl, run) + coef) ==> !Coded(ts, EncodeFirst(p, zz, run0).0))
      && (Coded(ts, EobItems(p.tbl, run) + coef) && Coded(ts, AcWritten(p.tbl, run0, emitted)) ==>
            Coded(ts, AcWritten(p.tbl, run0, emitted + coef)))
  {
    hide FirstAt, NBits, Shifted, Coded, EobItems, CoefItems, EncodeFirst, BandInRange;
    var band := Shifted(zz, p.al);
    var coef := CoefItems(p.tbl, r, band[k]);
    FirstStep(p, band, k, r, emitted);
    RangeStep(band, p.ss, k, p.se);
    FirstCoded(ts, p, zz, run0, k, r, emitted);
    CoefItemsNonempty(p.tbl, r, band[k]);
    NoEob(p.tbl);
    NoneCoded(ts);
    CodedConcat(ts, EobItems(p.tbl, run), coef);
    CodedConcat(ts, emitted, coef);
    var eob := EobItems(p.tbl, run0);
    CodedConcat(ts, eob, emitted);
    CodedConcat(ts, eob, emitted + coef);
    AssocEmission(items0, eob, coef);
    AssocEmission(items0, eob + emitted, coef);
    AssocEmission(eob, emitted, coef);
    assert items0 + [] == items0 && items + [] == items && [] + coef == coef;
  }

  lemma FirstDone(p: BandSpec, zz: Block, run0: nat, items0: seq<Item>, r: nat, emitted: seq<Item>, items: seq<Item>, run: nat)
    requires |zz| == DCTSIZE2 && 1 <= p.ss <= p.se < DCTSIZE2
    requires FirstLoop(p, zz, run0, items0, p.se + 1, r, emitted, items, run)
    ensures FirstAt(p, Shifted(zz, p.al), p.se + 1, r, emitted) && BandInRange(Shifted(zz, p.al), p.ss, p.se)
    ensures items == items0 + AcWritten(p.tbl, run0, emitted)
    ensures run == if emitted == [] then run0 else 0
  {
  }

  lemma FirstStep(p: BandSpec, band: Block, k: nat, r: nat, emitted: seq<Item>)
    requires |band| == DCTSIZE2 && p.se < DCTSIZE2 && k <= p.se && FirstAt(p, band, k, r, emitted)
    ensures if band[k] == 0 then FirstAt(p, band, k + 1, r + 1, emitted)
            else FirstAt(p, band, k + 1, 0, emitted + CoefItems(p.tbl, r, band[k]))
  {
    hide CoefItems;
    if band[k] != 0 {
      AssocEmission(emitted, CoefItems(p.tbl, r, band[k]), AcItems(p.tbl, band, k + 1, p.se, 0));
    }
  }

  /** A coefficient can be written only if the pending run, what was emitted, and the coefficient can. */
  lemma FirstCoded(ts: seq<Table>, p: BandSpec, zz: Block, run: nat, k: nat, r: nat, emitted: seq<Item>)
    requires |zz| == DCTSIZE2 && p.se < DCTSIZE2 && k <= p.se
    requires var band := Shifted(zz, p.al); band[k] != 0 && FirstAt(p, band, k, r, emitted)
    ensures Coded(ts, EncodeFirst(p, zz, run).0) ==>
        Coded(ts, EobItems(p.tbl, run)) && Coded(ts, CoefItems(p.tbl, r, Shifted(zz, p.al)[k]))
  {
    hide CoefItems, Coded, EobItems, TrailingZeros, Shifted;
    var band := Shifted(zz, p.al);
    var coef, more := CoefItems(p.tbl, r, band[k]), AcItems(p.tbl, band, k + 1, p.se, 0);
    assert |coef| > 0 by { CoefItemsNonempty(p.tbl, r, band[k]); }
    var coefs, eob := AcItems(p.tbl, band, p.ss, p.se, 0), EobItems(p.tbl, run);
    assert coefs == emitted + (coef + more) && coefs != [];
    CodedConcat(ts, eob, coefs);
    CodedConcat(ts, emitted, coef + more);
    CodedConcat(ts, coef, more);
    CodedConcat(ts, eob + coefs, EobItems(p.tbl, MAX_EOBRUN));
  }

  /** Behind the loop of AC_first: trailing zeros lengthen the run, which is written when it is at its maximum. */
  lemma FirstEnds(ts: seq<Table>, p: BandSpec, zz: Block, run: nat, r: nat, emitted: seq<Item>, items: seq<Item>)
    requires |zz| == DCTSIZE2 && p.se < DCTSIZE2 && FirstAt(p, Shifted(zz, p.al), p.se + 1, r, emitted)
    ensures var e, s := EncodeFirst(p, zz, run), AcWritten(p.tbl, run, emitted);
      var run1 := (if emitted == [] then run else 0) + (if r > 0 then 1 else 0);
      if r > 0 && run1 == MAX_EOBRUN then
        && e.1 == 0 && items + e.0 == items + s + EobItems(p.tbl, MAX_EOBRUN)
        && (Coded(ts, e.0) <==> Coded(ts, s) && Coded(ts, EobItems(p.tbl, MAX_EOBRUN)))
      else e == (s, run1)
  {
    hide EobItems, Coded;
    var s := AcWritten(p.tbl, run, emitted);
    assert emitted + [] == emitted && [] + emitted == emitted;
    CodedConcat(ts, s, EobItems(p.tbl, MAX_EOBRUN));
    AssocEmission(items, s, EobItems(p.tbl, MAX_EOBRUN));
  }

  lemma ZrlCoded(ts: seq<Table>, tbl: nat, n: nat)
    requires n > 0
    ensures ZrlItems(tbl, n) == [Sym(tbl, ZRL)] + ZrlItems(tbl, n - 1)
    ensures Coded(ts, ZrlItems(tbl, n)) <==> ItemCoded(ts, Sym(tbl, ZRL)) && Coded(ts, ZrlItems(tbl, n - 1))
  {
    var s := [Sym(tbl, ZRL)];
    CodedConcat(ts, s, ZrlItems(tbl, n - 1));
    assert Coded(ts, s) <==> ItemCoded(ts, s[0]);
  }

  lemma CoefCoded(ts: seq<Table>, tbl: nat, r: nat, v: int)
    ensures Coded(ts, CoefItems(tbl, r, v)) <==>
      Coded(ts, ZrlItems(tbl, r / 16)) && ItemCoded(ts, Sym(tbl, r % 16 * 16 + NBits(Abs(v))))
  {
    hide NBits, ValueBits;
    var s := [Sym(tbl, r % 16 * 16 + NBits(Abs(v))), Raw(ValueBits(v))];
    CodedConcat(ts, ZrlItems(tbl, r / 16), s);
    assert Coded(ts, s) <==> ItemCoded(ts, s[0]) && ItemCoded(ts, s[1]);
  }

  lemma AssocCoef(a: seq<Item>, b: seq<Item>, sym: Item, raw: Item)
    ensures a + b + [sym] + [raw] == a + (b + [sym, raw])
  {
  }

  /** The DC_first loop before block i, behind what it has emitted, against the whole MCU. */
  ghost predicate DcLoop(ts: seq<Table>, sc: Scan, zz: Mcu, last0: seq<int>, i: nat, lastDc: seq<int>, emitted: seq<Item>)
    requires ValidScan(sc, |ts|) && FitsMcu(sc.mcu, zz, last0) && |lastDc| == |last0| && i <= |zz|
  {
    var e0 := EncodeDcFirst(sc.mcu, sc.al, zz, last0, 0, |ts|);
    var e := EncodeDcFirst(sc.mcu, sc.al, zz, lastDc, i, |ts|);
    && e0.0 == emitted + e.0 && e0.1 == e.1
    && (DcInRange(sc.mcu, sc.al, zz, last0, 0) <==> DcInRange(sc.mcu, sc.al, zz, lastDc, i))
  }

  lemma DcLoopStarts(ts: seq<Table>, sc: Scan, zz: Mcu, last0: seq<int>)
    requires ValidScan(sc, |ts|) && FitsMcu(sc.mcu, zz, last0)
    ensures DcLoop(ts, sc, zz, last0, 0, last0, [])
  {
    var e := EncodeDcFirst(sc.mcu, sc.al, zz, last0, 0, |ts|);
    assert [] + e.0 == e.0;
  }

  /** One more block: its difference, against the whole MCU. */
  lemma DcLoopStep(ts: seq<Table>, sc: Scan, zz: Mcu, last0: seq<int>, i: nat, lastDc: seq<int>, emitted: seq<Item>, ci: nat,
                   dc: int, diff: seq<Item>)
    requires ValidScan(sc, |ts|) && FitsMcu(sc.mcu, zz, last0) && |lastDc| == |last0| && i < |zz|
    requires DcLoop(ts, sc, zz, last0, i, lastDc, emitted)
    requires ci == sc.mcu.membership[i] && dc == Asr(zz[i][0], sc.al) && diff == DcItems(sc.mcu.dcTbl[ci], dc - lastDc[ci])
    ensures NBits(Abs(dc - lastDc[ci])) > MAX_COEF_BITS + 1 ==> !DcInRange(sc.mcu, sc.al, zz, last0, 0)
    ensures !Coded(ts, diff) ==> !Coded(ts, EncodeDcFirst(sc.mcu, sc.al, zz, last0, 0, |ts|).0)
    ensures Coded(ts, emitted + diff) <==> Coded(ts, emitted) && Coded(ts, diff)
    ensures NBits(Abs(dc - lastDc[ci])) <= MAX_COEF_BITS + 1 ==> DcLoop(ts, sc, zz, last0, i + 1, lastDc[ci := dc], emitted + diff)
  {
    hide Coded, NBits, DcItems, Asr, Abs, EncodeDcFirst, DcInRange, ValidScan, ValidMcu, FitsMcu;
    FitsOther(sc, zz, last0, lastDc, i, |ts|);
    FitsOther(sc, zz, last0, lastDc[ci := dc], i, |ts|);
    var rest := EncodeDcFirst(sc.mcu, sc.al, zz, lastDc[ci := dc], i + 1, |ts|).0;
    DcUnfold(sc, zz, lastDc, i, |ts|, ci, dc, diff);
    CodedConcat(ts, diff, rest);
    CodedConcat(ts, emitted, diff);
    CodedConcat(ts, emitted + diff, rest);
    AssocEmission(emitted, diff, rest);
  }

  lemma FitsLengths(sc: Scan, zz: Mcu, lastDc: seq<int>)
    requires FitsMcu(sc.mcu, zz, lastDc)
    ensures |zz| == |sc.mcu.membership| && |lastDc| == |sc.mcu.dcTbl|
  {
  }

  lemma FitsOther(sc: Scan, zz: Mcu, last0: seq<int>, lastDc: seq<int>, i: nat, n: nat)
    requires ValidScan(sc, n) && FitsMcu(sc.mcu, zz, last0) && |lastDc| == |last0| && i < |zz|
    ensures i < |sc.mcu.membership| && |zz[i]| == DCTSIZE2 && ValidMcu(sc.mcu, n)
    ensures forall j :: 0 <= j < |sc.mcu.membership| ==> sc.mcu.membership[j] < |sc.mcu.dcTbl|
    ensures sc.mcu.membership[i] < |lastDc| == |sc.mcu.dcTbl| && FitsMcu(sc.mcu, zz, lastDc)
  {
  }

  lemma DcUnfold(sc: Scan, zz: Mcu, lastDc: seq<int>, i: nat, n: nat, ci: nat, dc: int, diff: seq<Item>)
    requires ValidScan(sc, n) && FitsMcu(sc.mcu, zz, lastDc) && i < |zz|
    requires ci == sc.mcu.membership[i] && dc == Asr(zz[i][0], sc.al) && diff == DcItems(sc.mcu.dcTbl[ci], dc - lastDc[ci])
    ensures EncodeDcFirst(sc.mcu, sc.al, zz, lastDc, i, n).0
         == diff + EncodeDcFirst(sc.mcu, sc.al, zz, lastDc[ci := dc], i + 1, n).0
    ensures EncodeDcFirst(sc.mcu, sc.al, zz, lastDc, i, n).1 == EncodeDcFirst(sc.mcu, sc.al, zz, lastDc[ci := dc], i + 1, n).1
    ensures DcInRange(sc.mcu, sc.al, zz, lastDc, i) <==>
      NBits(Abs(dc - lastDc[ci])) <= MAX_COEF_BITS + 1 && DcInRange(sc.mcu, sc.al, zz, lastDc[ci := dc], i + 1)
  {
    hide Coded, NBits, DcItems, Asr, Abs;
  }

  lemma DcLoopEnds(ts: seq<Table>, sc: Scan, zz: Mcu, last0: seq<int>, lastDc: seq<int>, emitted: seq<Item>)
    requires ValidScan(sc, |ts|) && FitsMcu(sc.mcu, zz, last0) && |lastDc| == |last0|
    requires DcLoop(ts, sc, zz, last0, |zz|, lastDc, emitted)
    ensures EncodeDcFirst(sc.mcu, sc.al, zz, last0, 0, |ts|) == (emitted, lastDc) && DcInRange(sc.mcu, sc.al, zz, last0, 0)
  {
    assert emitted + [] == emitted;
  }

  /** The lowest bit of an int. */
  lemma LowBit(v: int)
    ensures ToBits(Unsigned(v), 1) == [v % 2 == 1]
  {
    var u := Unsigned(v);
    assert u % 2 == v % 2;
    assert ToBits(u, 1) == ToBits(u / 2, 0) + [u % 2 == 1];
    assert ToBits(u / 2, 0) == [];
  }

  lemma NoneCoded(ts: seq<Table>)
    ensures Coded(ts, [])
  {
  }
}
