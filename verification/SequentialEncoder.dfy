/** The sequential entropy encoder (jchuff.c): encode_mcu_huff writes, encode_mcu_gather counts; both follow the
    same specification. An MCU is written into a working state that becomes permanent when the MCU is complete. */
module SequentialEncoder {
  import opened BitSeq
  import opened ByteStream
  import BitWriter
  import opened HuffTable
  import opened DerivedTables
  import opened Symbols
  import opened Coefficients
  import opened BlockCoding
  import opened AcFirstCoding
  import opened AcRefineCoding
  import opened DcCoding
  import opened ScanCoding
  import opened ScanEncoding
  import opened NaturalOrder
  import opened EncoderLoops
  import SequentialCoding

  /** working_state: what is saved when the MCU is complete. */
  datatype Working = Working(out: seq<Byte>, put: BitWriter.PutState, lastDc: seq<int>)

  /** The destination takes everything, or suspends the encoder when its buffer becomes full. */
  datatype Destination = Unlimited | Room(bytes: nat)

  datatype Status = Done | Suspended | Error

  /** The working state has written the items of the segment so far behind base. */
  ghost predicate Written(w: Working, ts: seq<Table>, base: seq<Byte>, items: seq<Item>) {
    BitWriter.Holds(w.put, w.out, base, ItemsBits(ts, items))
  }

  /** emit_bits: size 0 is an error; the destination may suspend once its buffer is full. */
  method PutBits(w: Working, code: nat, size: nat, dest: Destination, ghost ts: seq<Table>, ghost base: seq<Byte>,
                 ghost items: seq<Item>, ghost item: Item)
    returns (w': Working, st: Status)
    requires Written(w, ts, base, items) && size <= 16 && ItemBits(ts, item) == ToBits(code, size)
    ensures st == Error <==> size == 0
    ensures st == Suspended ==> dest.Room?
    ensures w'.lastDc == w.lastDc
    ensures st == Done ==> Written(w', ts, base, items + [item])
  {
    hide ToBits, ItemBits, BitWriter.Holds, ItemsBits;
    w', st := w, Done;
    if size == 0 {
      return w, Error;
    }
    var put, out := BitWriter.EmitBits(w.put, w.out, code, size, base, ItemsBits(ts, items));
    OneMore(ts, items, item);
    w' := w.(put := put, out := out);
    if dest.Room? && |out| >= dest.bytes {
      st := Suspended;
    }
  }

  /** Write a symbol with a derived table of ts[tbl]. */
  method PutSymbol(w: Working, symbol: nat, d: CDerived, dest: Destination, ghost ts: seq<Table>, ghost base: seq<Byte>,
                   ghost items: seq<Item>, ghost tbl: nat)
    returns (w': Working, st: Status)
    requires Written(w, ts, base, items) && symbol < 256 && tbl < |ts| && Encodes(d, ts[tbl])
    ensures st == Error <==> !ItemCoded(ts, Sym(tbl, symbol))
    ensures st == Suspended ==> dest.Room?
    ensures w'.lastDc == w.lastDc
    ensures st == Done ==> Written(w', ts, base, items + [Sym(tbl, symbol)])
  {
    hide ToBits, BitWriter.Holds, ItemsBits, Codeword, Written;
    assert ToBits(d.ehufco[symbol], d.ehufsi[symbol]) == Codeword(ts[tbl], symbol);
    w', st := PutBits(w, d.ehufco[symbol], d.ehufsi[symbol], dest, ts, base, items, Sym(tbl, symbol));
  }

  /** The DC difference of a block. */
  method PutDiff(w: Working, diff: int, d: CDerived, dest: Destination, ghost ts: seq<Table>, ghost base: seq<Byte>,
                 ghost items: seq<Item>, ghost tbl: nat)
    returns (w': Working, st: Status)
    requires Written(w, ts, base, items) && tbl < |ts| && Encodes(d, ts[tbl])
    ensures st == Error ==> NBits(Abs(diff)) > MAX_COEF_BITS + 1 || !Coded(ts, DcItems(tbl, diff))
    ensures st == Suspended ==> dest.Room?
    ensures w'.lastDc == w.lastDc
    ensures st == Done ==> NBits(Abs(diff)) <= MAX_COEF_BITS + 1 && Coded(ts, DcItems(tbl, diff))
    ensures st == Done ==> Written(w', ts, base, items + DcItems(tbl, diff))
  {
    hide Written, Encodes, ToBits, Coded, NBits, ValueBits, Unsigned;
    var temp: int, temp2: int := diff, diff;
    if temp < 0 {
      temp := 0 - temp;
      temp2 := temp2 - 1;
    }
    var nbits := CountBits(temp);
    if nbits > MAX_COEF_BITS + 1 {
      return w, Error;
    }
    DcCoded(ts, tbl, diff);
    w', st := PutSymbol(w, nbits, d, dest, ts, base, items, tbl);
    if st == Done && nbits > 0 {
      ValueBitsMasked(diff, nbits);
      assert items + DcItems(tbl, diff) == items + [Sym(tbl, nbits)] + [Raw(ValueBits(diff))];
      w', st := PutBits(w', Unsigned(temp2), nbits, dest, ts, base, items + [Sym(tbl, nbits)], Raw(ValueBits(diff)));
    }
  }

  /** A nonzero AC coefficient behind some zeros. */
  method PutCoef(w: Working, zeros: nat, v: int, d: CDerived, dest: Destination, ghost ts: seq<Table>, ghost base: seq<Byte>,
                 ghost items: seq<Item>, ghost tbl: nat)
    returns (w': Working, st: Status)
    requires Written(w, ts, base, items) && tbl < |ts| && Encodes(d, ts[tbl]) && v != 0
    ensures st == Error ==> NBits(Abs(v)) > MAX_COEF_BITS || !Coded(ts, CoefItems(tbl, zeros, v))
    ensures st == Suspended ==> dest.Room?
    ensures w'.lastDc == w.lastDc
    ensures st == Done ==> NBits(Abs(v)) <= MAX_COEF_BITS && Coded(ts, CoefItems(tbl, zeros, v))
    ensures st == Done ==> Written(w', ts, base, items + CoefItems(tbl, zeros, v))
  {
    hide Written, Encodes, ToBits, Coded, NBits, ValueBits, Unsigned, ItemCoded, ZrlItems;
    var r := zeros;
    ghost var done: seq<Item> := [];
    CoefCoded(ts, tbl, zeros, v);
    ZrlStart(ts, tbl, zeros / 16, items);
    w', st := w, Done;
    while r > 15
      invariant r >= 0 && r % 16 == zeros % 16 && w'.lastDc == w.lastDc && st == Done
      invariant Written(w', ts, base, items + done)
      invariant ZrlItems(tbl, zeros / 16) == done + ZrlItems(tbl, r / 16)
      invariant Coded(ts, ZrlItems(tbl, zeros / 16)) <==> Coded(ts, ZrlItems(tbl, r / 16))
    {
      ZrlCoded(ts, tbl, r / 16);
      AssocEmission(done, [Sym(tbl, ZRL)], ZrlItems(tbl, r / 16 - 1));
      AssocEmission(items, done, [Sym(tbl, ZRL)]);
      w', st := PutSymbol(w', ZRL, d, dest, ts, base, items + done, tbl);
      if st != Done {
        return;
      }
      done := done + [Sym(tbl, ZRL)];
      assert (r - 16) / 16 == r / 16 - 1;
      r := r - 16;
    }
    ZrlEnd(ts, tbl, done);
    var temp: int, temp2: int := v, v;
    if temp < 0 {
      temp := 0 - temp;
      temp2 := temp2 - 1;
    }
    var nbits := CountBits(temp);
    if nbits > MAX_COEF_BITS {
      return w', Error;
    }
    ghost var sym, bits := Sym(tbl, r * 16 + nbits), Raw(ValueBits(v));
    AssocCoef(items, done, sym, bits);
    w', st := PutSymbol(w', r * 16 + nbits, d, dest, ts, base, items + done, tbl);
    if st == Done {
      ValueBitsMasked(v, nbits);
      w', st := PutBits(w', Unsigned(temp2), nbits, dest, ts, base, items + done + [sym], bits);
    }
  }

  lemma ZrlStart(ts: seq<Table>, tbl: nat, n: nat, items: seq<Item>)
    ensures ZrlItems(tbl, n) == [] + ZrlItems(tbl, n) && items + [] == items
  {
  }

  lemma ZrlEnd(ts: seq<Table>, tbl: nat, done: seq<Item>)
    ensures ZrlItems(tbl, 0) == [] && Coded(ts, ZrlItems(tbl, 0)) && done + ZrlItems(tbl, 0) == done
  {
  }

  /** The coefficients of a block are in the range that the encoder checks. */
  ghost predicate BlockInRange(zz: Block, lastDc: int) {
    |zz| == DCTSIZE2 && NBits(Abs(zz[0] - lastDc)) <= MAX_COEF_BITS + 1 && BandInRange(zz, 1, DCTSIZE2 - 1)
  }

  /** encode_one_block. */
  method PutBlock(w: Working, block: seq<int>, lastDc: int, dctbl: CDerived, actbl: CDerived, dest: Destination,
                  ghost ts: seq<Table>, ghost base: seq<Byte>, ghost items: seq<Item>, ghost dc: nat, ghost ac: nat)
    returns (w': Working, st: Status)
    requires Written(w, ts, base, items) && |block| == DCTSIZE2
    requires dc < |ts| && Encodes(dctbl, ts[dc]) && ac < |ts| && Encodes(actbl, ts[ac])
    ensures st == Error ==> !BlockInRange(Zigzag(block), lastDc) || !Coded(ts, SequentialCoding.BlockItems(dc, ac, Zigzag(block), lastDc))
    ensures st == Suspended ==> dest.Room?
    ensures w'.lastDc == w.lastDc
    ensures st == Done ==> BlockInRange(Zigzag(block), lastDc)
    ensures st == Done ==> Coded(ts, SequentialCoding.BlockItems(dc, ac, Zigzag(block), lastDc))
    ensures st == Done ==> Written(w', ts, base, items + SequentialCoding.BlockItems(dc, ac, Zigzag(block), lastDc))
  {
    hide *;
    BlockSize();
    ghost var zz, p := Zigzag(block), BandSpec(ac, 1, 63, 0);
    ghost var diff, all := DcItems(dc, zz[0] - lastDc), SequentialCoding.BlockItems(dc, ac, zz, lastDc);
    BlockParts(ts, dc, ac, zz, lastDc, items);
    w', st := PutDiff(w, block[0] - lastDc, dctbl, dest, ts, base, items, dc);
    if st != Done {
      return;
    }
    ghost var emitted: seq<Item> := [];
    var r: nat, k: nat := 0, 1;
    BandStarts(ts, p, zz, items + diff);
    while k < 64
      invariant 1 <= k <= 64 && w'.lastDc == w.lastDc && st == Done
      invariant FirstAt(p, zz, k, r, emitted) && BandInRange(zz, 1, k - 1) && Coded(ts, emitted)
      invariant Written(w', ts, base, items + diff + emitted)
    {
      var temp := block[Natural(k)];
      FirstStep(p, zz, k, r, emitted);
      RangeStep(zz, 1, k, 63);
      if temp == 0 {
        ZeroBits();
        r := r + 1;
      } else {
        ghost var coef := CoefItems(ac, r, temp);
        AssocEmission(items + diff, emitted, coef);
        CoefNeeded(ts, p, zz, k, r, emitted);
        w', st := PutCoef(w', r, temp, actbl, dest, ts, base, items + diff + emitted, ac);
        if st != Done {
          return;
        }
        emitted := emitted + coef;
        r := 0;
      }
      k := k + 1;
    }
    BandEnds(ts, p, zz, r, emitted, items, diff);
    if r > 0 {
      w', st := PutSymbol(w', 0, actbl, dest, ts, base, items + diff + emitted, ac);
    }
  }

  lemma BlockSize()
    ensures DCTSIZE2 == 64
  {
  }

  /** Range and codes of a block: those of its difference and those of its band. */
  lemma BlockParts(ts: seq<Table>, dc: nat, ac: nat, zz: Block, lastDc: int, items: seq<Item>)
    requires |zz| == DCTSIZE2
    ensures BlockInRange(zz, lastDc) <==> NBits(Abs(zz[0] - lastDc)) <= MAX_COEF_BITS + 1 && BandInRange(zz, 1, 63)
    ensures Coded(ts, SequentialCoding.BlockItems(dc, ac, zz, lastDc)) <==>
      Coded(ts, DcItems(dc, zz[0] - lastDc)) && Coded(ts, BandItems(ac, zz))
    ensures items + SequentialCoding.BlockItems(dc, ac, zz, lastDc) == items + DcItems(dc, zz[0] - lastDc) + BandItems(ac, zz)
  {
    hide Coded, DcItems, AcItems, TrailingZeros, NBits, BandInRange;
    var eob := if TrailingZeros(zz, 1, 63, 0) > 0 then [Sym(ac, 0)] else [];
    AssocEmission(DcItems(dc, zz[0] - lastDc), AcItems(ac, zz, 1, 63, 0), eob);
    AssocEmission(items, DcItems(dc, zz[0] - lastDc), BandItems(ac, zz));
    CodedConcat(ts, DcItems(dc, zz[0] - lastDc), BandItems(ac, zz));
  }

  /** The AC part of a block. */
  function BandItems(ac: nat, zz: Block): seq<Item>
    requires |zz| == DCTSIZE2
  {
    AcItems(ac, zz, 1, 63, 0) + if TrailingZeros(zz, 1, 63, 0) > 0 then [Sym(ac, 0)] else []
  }

  lemma BandStarts(ts: seq<Table>, p: BandSpec, zz: Block, items: seq<Item>)
    requires |zz| == DCTSIZE2 && p.ss == 1 && p.se == 63
    ensures FirstAt(p, zz, 1, 0, []) && BandInRange(zz, 1, 0) && Coded(ts, []) && items + [] == items
  {
    hide AcItems, TrailingZeros;
    var s := AcItems(p.tbl, zz, p.ss, p.se, 0);
    assert [] + s == s;
  }

  /** A coefficient without code leaves the band without code. */
  lemma CoefNeeded(ts: seq<Table>, p: BandSpec, zz: Block, k: nat, r: nat, emitted: seq<Item>)
    requires |zz| == DCTSIZE2 && p.ss == 1 && p.se == 63 && k <= 63 && zz[k] != 0 && FirstAt(p, zz, k, r, emitted)
    ensures Coded(ts, BandItems(p.tbl, zz)) ==> Coded(ts, CoefItems(p.tbl, r, zz[k]))
    ensures Coded(ts, emitted + CoefItems(p.tbl, r, zz[k])) <==> Coded(ts, emitted) && Coded(ts, CoefItems(p.tbl, r, zz[k]))
  {
    hide Coded, CoefItems, TrailingZeros;
    var coef, more := CoefItems(p.tbl, r, zz[k]), AcItems(p.tbl, zz, k + 1, 63, 0);
    CodedConcat(ts, AcItems(p.tbl, zz, 1, 63, 0), if TrailingZeros(zz, 1, 63, 0) > 0 then [Sym(p.tbl, 0)] else []);
    CodedConcat(ts, emitted, coef + more);
    CodedConcat(ts, coef, more);
    CodedConcat(ts, emitted, coef);
  }

  lemma BandEnds(ts: seq<Table>, p: BandSpec, zz: Block, r: nat, emitted: seq<Item>, items: seq<Item>, diff: seq<Item>)
    requires |zz| == DCTSIZE2 && p.ss == 1 && p.se == 63 && FirstAt(p, zz, 64, r, emitted)
    ensures r == 0 ==> BandItems(p.tbl, zz) == emitted
    ensures r > 0 ==> items + diff + BandItems(p.tbl, zz) == items + diff + emitted + [Sym(p.tbl, 0)]
    ensures r > 0 ==> (Coded(ts, BandItems(p.tbl, zz)) <==> Coded(ts, emitted) && ItemCoded(ts, Sym(p.tbl, 0)))
  {
    hide Coded, ItemCoded;
    assert emitted + [] == emitted;
    CodedConcat(ts, emitted, [Sym(p.tbl, 0)]);
    SymCoded(ts, Sym(p.tbl, 0));
    AssocEmission(items + diff, emitted, [Sym(p.tbl, 0)]);
  }

  /** The block loop of encode_mcu before block i, behind what it has emitted, against the whole MCU. */
  ghost predicate SeqLoop(ts: seq<Table>, sc: Scan, zz: Mcu, last0: seq<int>, i: nat, lastDc: seq<int>, emitted: seq<Item>)
    requires ValidScan(sc, |ts|) && FitsMcu(sc.mcu, zz, last0) && |lastDc| == |last0| && i <= |zz|
  {
    var e0 := SequentialCoding.EncodeMcu(sc.mcu, zz, last0, 0, |ts|);
    var e := SequentialCoding.EncodeMcu(sc.mcu, zz, lastDc, i, |ts|);
    && e0.0 == emitted + e.0 && e0.1 == e.1
    && (DcInRange(sc.mcu, 0, zz, last0, 0) <==> DcInRange(sc.mcu, 0, zz, lastDc, i))
    && forall j :: 0 <= j < i ==> BandInRange(zz[j], 1, 63)
  }

  lemma SeqLoopStarts(ts: seq<Table>, sc: Scan, zz: Mcu, last0: seq<int>, items: seq<Item>)
    requires ValidScan(sc, |ts|) && FitsMcu(sc.mcu, zz, last0)
    ensures SeqLoop(ts, sc, zz, last0, 0, last0, []) && Coded(ts, []) && items + [] == items && |zz| == |sc.mcu.membership|
  {
    hide SequentialCoding.BlockItems, BandInRange;
    var e := SequentialCoding.EncodeMcu(sc.mcu, zz, last0, 0, |ts|);
    assert [] + e.0 == e.0;
  }

  /** One more block against the whole MCU. */
  lemma SeqLoopStep(ts: seq<Table>, sc: Scan, zz: Mcu, last0: seq<int>, i: nat, lastDc: seq<int>, emitted: seq<Item>, ci: nat,
                    dc: int, block: seq<Item>)
    requires ValidScan(sc, |ts|) && FitsMcu(sc.mcu, zz, last0) && |lastDc| == |last0| && i < |zz|
    requires SeqLoop(ts, sc, zz, last0, i, lastDc, emitted) && ci == sc.mcu.membership[i] && dc == zz[i][0]
    requires block == SequentialCoding.BlockItems(sc.mcu.dcTbl[ci], sc.mcu.acTbl[ci], zz[i], lastDc[ci])
    ensures Coded(ts, emitted + block) <==> Coded(ts, emitted) && Coded(ts, block)
    ensures NBits(Abs(dc - lastDc[ci])) <= MAX_COEF_BITS + 1 && BandInRange(zz[i], 1, 63) ==>
      SeqLoop(ts, sc, zz, last0, i + 1, lastDc[ci := dc], emitted + block)
  {
    hide Coded, NBits, Abs, Asr, SequentialCoding.BlockItems, SequentialCoding.EncodeMcu, DcInRange, ValidScan, ValidMcu, FitsMcu,
         BandInRange;
    FitsOther(sc, zz, last0, lastDc, i, |ts|);
    FitsOther(sc, zz, last0, lastDc[ci := dc], i, |ts|);
    var rest := SequentialCoding.EncodeMcu(sc.mcu, zz, lastDc[ci := dc], i + 1, |ts|).0;
    SeqUnfold(sc, zz, lastDc, i, |ts|, ci, dc, block);
    CodedConcat(ts, emitted, block);
    AssocEmission(emitted, block, rest);
  }

  /** A block that cannot be written keeps the whole MCU from being written. */
  lemma SeqLoopFails(ts: seq<Table>, sc: Scan, zz: Mcu, last0: seq<int>, i: nat, lastDc: seq<int>, emitted: seq<Item>, ci: nat,
                     dc: int, block: seq<Item>)
    requires ValidScan(sc, |ts|) && FitsMcu(sc.mcu, zz, last0) && |lastDc| == |last0| && i < |zz|
    requires SeqLoop(ts, sc, zz, last0, i, lastDc, emitted) && ci == sc.mcu.membership[i] && dc == zz[i][0]
    requires block == SequentialCoding.BlockItems(sc.mcu.dcTbl[ci], sc.mcu.acTbl[ci], zz[i], lastDc[ci])
    ensures NBits(Abs(dc - lastDc[ci])) > MAX_COEF_BITS + 1 ==> !DcInRange(sc.mcu, 0, zz, last0, 0)
    ensures !Coded(ts, block) ==> !Coded(ts, SequentialCoding.EncodeMcu(sc.mcu, zz, last0, 0, |ts|).0)
  {
    hide Coded, NBits, Abs, Asr, SequentialCoding.BlockItems, SequentialCoding.EncodeMcu, DcInRange, ValidScan, ValidMcu, FitsMcu,
         BandInRange;
    FitsOther(sc, zz, last0, lastDc, i, |ts|);
    FitsOther(sc, zz, last0, lastDc[ci := dc], i, |ts|);
    var rest := SequentialCoding.EncodeMcu(sc.mcu, zz, lastDc[ci := dc], i + 1, |ts|).0;
    SeqUnfold(sc, zz, lastDc, i, |ts|, ci, dc, block);
    CodedConcat(ts, block, rest);
    CodedConcat(ts, emitted, block + rest);
  }

  lemma SeqUnfold(sc: Scan, zz: Mcu, lastDc: seq<int>, i: nat, n: nat, ci: nat, dc: int, block: seq<Item>)
    requires ValidScan(sc, n) && FitsMcu(sc.mcu, zz, lastDc) && i < |zz| && ci == sc.mcu.membership[i] && dc == zz[i][0]
    requires block == SequentialCoding.BlockItems(sc.mcu.dcTbl[ci], sc.mcu.acTbl[ci], zz[i], lastDc[ci])
    ensures SequentialCoding.EncodeMcu(sc.mcu, zz, lastDc, i, n).0
         == block + SequentialCoding.EncodeMcu(sc.mcu, zz, lastDc[ci := dc], i + 1, n).0
    ensures SequentialCoding.EncodeMcu(sc.mcu, zz, lastDc, i, n).1
         == SequentialCoding.EncodeMcu(sc.mcu, zz, lastDc[ci := dc], i + 1, n).1
    ensures DcInRange(sc.mcu, 0, zz, lastDc, i) <==>
      NBits(Abs(dc - lastDc[ci])) <= MAX_COEF_BITS + 1 && DcInRange(sc.mcu, 0, zz, lastDc[ci := dc], i + 1)
  {
    hide NBits, Abs, SequentialCoding.BlockItems;
    assert Asr(zz[i][0], 0) == zz[i][0];
  }

  lemma RangeOf(zz: Block, lastDc: int)
    requires |zz| == DCTSIZE2
    ensures BlockInRange(zz, lastDc) <==> NBits(Abs(zz[0] - lastDc)) <= MAX_COEF_BITS + 1 && BandInRange(zz, 1, 63)
  {
    hide NBits, BandInRange;
  }

  lemma SeqLoopEnds(ts: seq<Table>, sc: Scan, zz: Mcu, last0: seq<int>, lastDc: seq<int>, emitted: seq<Item>)
    requires ValidScan(sc, |ts|) && FitsMcu(sc.mcu, zz, last0) && |lastDc| == |last0| && sc.kind == Sequential
    requires SeqLoop(ts, sc, zz, last0, |zz|, lastDc, emitted)
    ensures forall j :: 0 <= j < |sc.mcu.membership| ==> sc.mcu.membership[j] < |sc.mcu.dcTbl|
    ensures OneMcu(sc, last0, NOTHING, zz, |ts|) == (emitted, lastDc, NOTHING) && McuInRange(sc, last0, zz)
  {
    hide SequentialCoding.BlockItems, BandInRange;
    assert emitted + [] == emitted;
  }

  /** The specification of an MCU of a sequential scan. */
  lemma SeqMcu(ts: seq<Table>, sc: Scan, zz: Mcu, last0: seq<int>)
    requires ValidScan(sc, |ts|) && FitsMcu(sc.mcu, zz, last0) && sc.kind == Sequential
    ensures forall j :: 0 <= j < |sc.mcu.membership| ==> sc.mcu.membership[j] < |sc.mcu.dcTbl|
    ensures OneMcu(sc, last0, NOTHING, zz, |ts|).0 == SequentialCoding.EncodeMcu(sc.mcu, zz, last0, 0, |ts|).0
    ensures McuInRange(sc, last0, zz) <==>
      DcInRange(sc.mcu, 0, zz, last0, 0) && forall j :: 0 <= j < |zz| ==> BandInRange(zz[j], 1, 63)
  {
    hide SequentialCoding.BlockItems, BandInRange, DcInRange, SequentialCoding.EncodeMcu;
  }

  lemma NothingPending(sc: Scan, items: seq<Item>)
    ensures Flush(BandOf(sc).tbl, NOTHING) == [] && items + [] == items
  {
  }

  lemma NothingWritten(ts: seq<Table>)
    ensures ItemsBits(ts, []) == []
  {
  }

  lemma RestartParts(sc: Scan, ts: seq<Table>, s: ScanEnc)
    requires s.num < 8
    ensures EmitRestart(sc, ts, s).e == EncState([], NoDc(sc), NOTHING) && EmitRestart(sc, ts, s).num == (s.num + 1) % 8
    ensures EmitRestart(sc, ts, s).togo == sc.interval
    ensures EmitRestart(sc, ts, s).done == s.done + (s.e.items + Flush(BandOf(sc).tbl, s.e.pd))
  {
  }

  /** The step of the specification of a sequential scan, behind a restart that was due. */
  lemma StepOf(sc: Scan, ts: seq<Table>, gather: bool, s: ScanEnc, zz: Mcu, s1: ScanEnc)
    requires ValidScan(sc, |ts|) && FitsMcu(sc.mcu, zz, s.e.lastDc) && s.num < 8 && sc.kind == Sequential && s.e.pd == NOTHING
    requires s1 == (if sc.interval > 0 && s.togo == 0 then EmitRestart(sc, ts, s) else s)
    ensures FitsMcu(sc.mcu, zz, s1.e.lastDc) && s1.e.pd == NOTHING && s1.num < 8
    ensures forall j :: 0 <= j < |sc.mcu.membership| ==> sc.mcu.membership[j] < |sc.mcu.dcTbl|
    ensures StepEncodable(sc, ts, gather, s, zz) <==>
      McuInRange(sc, s1.e.lastDc, zz) && (gather || Coded(ts, OneMcu(sc, s1.e.lastDc, NOTHING, zz, |ts|).0))
    ensures OneMcu(sc, s1.e.lastDc, NOTHING, zz, |ts|).2 == NOTHING
    ensures EncodeStep(sc, ts, s, zz) == ScanEnc(s1.out, s1.done,
      EncState(s1.e.items + OneMcu(sc, s1.e.lastDc, NOTHING, zz, |ts|).0, OneMcu(sc, s1.e.lastDc, NOTHING, zz, |ts|).1, NOTHING),
      if sc.interval > 0 then s1.togo - 1 else s1.togo, s1.num)
  {
    hide EncodeDc, McuInRange, ItemsBits, SegmentBytes;
    assert FitsMcu(sc.mcu, zz, s1.e.lastDc);
    assert Coded(ts, Flush(BandOf(sc).tbl, NOTHING));
  }

  /** The DC predictions are not part of what is written. */
  lemma WrittenLast(w: Working, last: seq<int>, ts: seq<Table>, base: seq<Byte>, items: seq<Item>)
    requires Written(w.(lastDc := last), ts, base, items)
    ensures Written(w, ts, base, items)
  {
  }

  class HuffEncoder {
    const sc: Scan
    const gather: bool
    ghost const ts: seq<Table>
    const derived: seq<Option<CDerived>>
    const counts: array2<nat>

    var out: seq<Byte>
    var put: BitWriter.PutState
    var lastDc: seq<int>
    var togo: nat
    var num: nat

    /** What the finished segments wrote and emitted, what this segment has emitted, and the number of the next marker. */
    ghost var base: seq<Byte>
    ghost var done: seq<Item>
    ghost var items: seq<Item>
    ghost var turn: nat

    /** The scan parameters are legal, and an output pass has derived tables for all its components. */
    ghost predicate Setup() {
      && sc.kind == Sequential && ValidScan(sc, |ts|)
      && |derived| == |ts| == counts.Length0 && counts.Length1 == 257
      && (forall t :: 0 <= t < |ts| && derived[t].Some? ==> Encodes(derived[t].value, ts[t]))
      && (!gather ==> forall i :: 0 <= i < |sc.mcu.dcTbl| ==> derived[sc.mcu.dcTbl[i]].Some? && derived[sc.mcu.acTbl[i]].Some?)
    }

    ghost predicate Output()
      reads this`put, this`out, this`base, this`done, this`items, counts
    {
      if gather then
        counts.Length0 == |ts| && counts.Length1 == 257 &&
        forall t: nat, s: nat :: t < |ts| && s < 257 ==> counts[t, s] == Occurrences(done + items, t, s)
      else BitWriter.Holds(put, out, base, ItemsBits(ts, items))
    }

    ghost predicate Valid()
      reads this`put, this`out, this`base, this`done, this`items, counts
    {
      Setup() && Output()
    }

    /** A statistics pass does not keep the marker number. */
    ghost predicate Between()
      reads this, counts
    {
      Valid() && |lastDc| == |sc.mcu.dcTbl| && turn < 8 && (!gather ==> num == turn)
    }

    ghost function State(): ScanEnc
      reads this
    {
      ScanEnc(base, done, EncState(items, lastDc, NOTHING), togo, turn)
    }

    /** start_pass_huff; derived holds what jpeg_make_c_derived_tbl made of the scan's tables. */
    constructor (sc: Scan, gather: bool, ghost ts: seq<Table>, derived: seq<Option<CDerived>>)
      requires sc.kind == Sequential && ValidScan(sc, |ts|) && |derived| == |ts|
      requires forall t :: 0 <= t < |ts| && derived[t].Some? ==> Encodes(derived[t].value, ts[t])
      requires !gather ==> forall i :: 0 <= i < |sc.mcu.dcTbl| ==> derived[sc.mcu.dcTbl[i]].Some? && derived[sc.mcu.acTbl[i]].Some?
      ensures this.sc == sc && this.gather == gather && this.ts == ts && fresh(counts)
      ensures Between() && State() == Begin(sc)
    {
      hide Encodes, BitWriter.Holds, Occurrences, ItemsBits;
      this.sc, this.gather, this.ts, this.derived := sc, gather, ts, derived;
      counts := new nat[|derived|, 257]((_, _) => 0);
      out, put := [], BitWriter.EMPTY;
      lastDc := seq(|sc.mcu.dcTbl|, _ => 0);
      togo, num := sc.interval, 0;
      base, done, items, turn := [], [], [], 0;
      new;
      EmptyOutput(ts);
      assert done + items == [];
      assert lastDc == NoDc(sc);
    }

    // ----- the output pass -----

    /** emit_restart on a working state. */
    method PutRestart(w: Working, dest: Destination) returns (w': Working, st: Status)
      requires !gather && Between() && w == Working(out, put, lastDc)
      ensures st != Error && (st == Suspended ==> dest.Room?)
      ensures st == Done ==> var s1 := EmitRestart(sc, ts, State());
        w'.out == s1.out && w'.lastDc == s1.e.lastDc && Written(w', ts, s1.out, [])
    {
      hide BitWriter.Holds, SegmentBytes, ItemsBits, Encodes, ValidScan;
      NothingPending(sc, items);
      st := Done;
      var put1, out1 := BitWriter.FlushBits(w.put, w.out, base, ItemsBits(ts, items));
      if dest.Room? && |out1| >= dest.bytes {
        return w, Suspended;
      }
      var marker: seq<Byte> := [0xFF, RST0 + num];
      HoldsBehind(put1, out1, out1, marker);
      NothingWritten(ts);
      w' := Working(out1 + marker, put1, seq(|sc.mcu.dcTbl|, _ => 0));
      if dest.Room? && |out1| + 2 >= dest.bytes {
        st := Suspended;
      }
    }

    /** The blocks of an MCU on a working state. */
    method PutBlocks(mcu: seq<seq<int>>, ghost zz: Mcu, w: Working, dest: Destination, ghost base: seq<Byte>, ghost items: seq<Item>)
      returns (w': Working, st: Status)
      requires !gather && Valid() && (forall i :: 0 <= i < |mcu| ==> |mcu[i]| == DCTSIZE2) && zz == Zigzags(mcu)
      requires Written(w, ts, base, items) && FitsMcu(sc.mcu, zz, w.lastDc) && ValidScan(sc, |ts|)
      requires forall j :: 0 <= j < |sc.mcu.membership| ==> sc.mcu.membership[j] < |sc.mcu.dcTbl|
      ensures st == Suspended ==> dest.Room?
      ensures st == Error ==> !McuInRange(sc, w.lastDc, zz) || !Coded(ts, OneMcu(sc, w.lastDc, NOTHING, zz, |ts|).0)
      ensures st == Done ==> McuInRange(sc, w.lastDc, zz) && Coded(ts, OneMcu(sc, w.lastDc, NOTHING, zz, |ts|).0)
      ensures st == Done ==> w'.lastDc == OneMcu(sc, w.lastDc, NOTHING, zz, |ts|).1
      ensures st == Done ==> Written(w', ts, base, items + OneMcu(sc, w.lastDc, NOTHING, zz, |ts|).0)
    {
      hide *;
      Tables();
      SeqMcu(ts, sc, zz, w.lastDc);
      SeqLoopStarts(ts, sc, zz, w.lastDc, items);
      w', st := w, Done;
      ghost var emitted: seq<Item> := [];
      var blkn := 0;
      while blkn < |mcu|
        invariant 0 <= blkn <= |mcu| && st == Done && |w'.lastDc| == |w.lastDc|
        invariant SeqLoop(ts, sc, zz, w.lastDc, blkn, w'.lastDc, emitted) && Coded(ts, emitted)
        invariant Written(w', ts, base, items + emitted)
      {
        var ci := sc.mcu.membership[blkn];
        FitsOther(sc, zz, w.lastDc, w'.lastDc, blkn, |ts|);
        ghost var block := SequentialCoding.BlockItems(sc.mcu.dcTbl[ci], sc.mcu.acTbl[ci], zz[blkn], w'.lastDc[ci]);
        SeqLoopStep(ts, sc, zz, w.lastDc, blkn, w'.lastDc, emitted, ci, mcu[blkn][0], block);
        SeqLoopFails(ts, sc, zz, w.lastDc, blkn, w'.lastDc, emitted, ci, mcu[blkn][0], block);
        RangeOf(zz[blkn], w'.lastDc[ci]);
        AssocEmission(items, emitted, block);
        var last := w'.lastDc;
        w', st := PutBlock(w', mcu[blkn], w'.lastDc[ci], derived[sc.mcu.dcTbl[ci]].value, derived[sc.mcu.acTbl[ci]].value, dest,
                           ts, base, items + emitted, sc.mcu.dcTbl[ci], sc.mcu.acTbl[ci]);
        if st != Done {
          return;
        }
        w' := w'.(lastDc := last[ci := mcu[blkn][0]]);
        emitted := emitted + block;
        WrittenLast(w', last, ts, base, items + emitted);
        blkn := blkn + 1;
      }
      SeqLoopEnds(ts, sc, zz, w.lastDc, w'.lastDc, emitted);
    }

    lemma Tables()
      requires Valid() && !gather
      ensures sc.kind == Sequential && |derived| == |ts| && |sc.mcu.dcTbl| == |sc.mcu.acTbl| && DCTSIZE2 == 64
      ensures forall i :: 0 <= i < |sc.mcu.dcTbl| ==>
        && sc.mcu.dcTbl[i] < |ts| && derived[sc.mcu.dcTbl[i]].Some?
        && Encodes(derived[sc.mcu.dcTbl[i]].value, ts[sc.mcu.dcTbl[i]])
      ensures forall i :: 0 <= i < |sc.mcu.acTbl| ==>
        && sc.mcu.acTbl[i] < |ts| && derived[sc.mcu.acTbl[i]].Some?
        && Encodes(derived[sc.mcu.acTbl[i]].value, ts[sc.mcu.acTbl[i]])
    {
    }

    lemma SetupHolds()
      requires Valid()
      ensures Setup()
    {
    }

    lemma Parts()
      requires Between()
      ensures Valid() && ValidScan(sc, |ts|) && sc.kind == Sequential && |lastDc| == |sc.mcu.dcTbl| && turn < 8
      ensures !gather ==> num == turn && Written(Working(out, put, lastDc), ts, base, items)
      ensures State() == ScanEnc(base, done, EncState(items, lastDc, NOTHING), togo, turn)
    {
    }

    /** After an MCU of an output pass. */
    lemma IsBetween(w: Working)
      requires !gather && Setup() && w == Working(out, put, lastDc) && Written(w, ts, base, items)
      requires |lastDc| == |sc.mcu.dcTbl| && turn < 8 && num == turn
      ensures Between() && State() == ScanEnc(base, done, EncState(items, lastDc, NOTHING), togo, turn)
    {
    }

    /** encode_mcu_huff: either the whole MCU is written, or nothing has changed. */
    method EncodeMcuHuff(mcu: seq<seq<int>>, dest: Destination) returns (st: Status)
      requires !gather && Between() && (forall i :: 0 <= i < |mcu| ==> |mcu[i]| == DCTSIZE2) && FitsMcu(sc.mcu, Zigzags(mcu), lastDc)
      modifies this
      ensures st == Suspended ==> dest.Room?
      ensures st != Done ==> unchanged(this)
      ensures st == Done ==> StepEncodable(sc, ts, gather, old(State()), Zigzags(mcu))
      ensures st == Error ==> !StepEncodable(sc, ts, gather, old(State()), Zigzags(mcu))
      ensures st == Done ==> Between() && State() == EncodeStep(sc, ts, old(State()), Zigzags(mcu))
    {
      hide *;
      Parts();
      SetupHolds();
      ghost var zz, s0 := Zigzags(mcu), State();
      ghost var restart := sc.interval > 0 && togo == 0;
      ghost var s1 := if restart then EmitRestart(sc, ts, s0) else s0;
      var w := Working(out, put, lastDc);
      if sc.interval > 0 {
        if togo == 0 {
          w, st := PutRestart(w, dest);
          if st != Done {
            return;
          }
        }
      }
      RestartParts(sc, ts, s0);
      StepOf(sc, ts, gather, s0, zz, s1);
      w, st := PutBlocks(mcu, zz, w, dest, s1.out, s1.e.items);
      if st != Done {
        return;
      }
      Commit(w, s1, s1.e.items + OneMcu(sc, s1.e.lastDc, NOTHING, zz, |ts|).0);
    }

    /** The MCU is complete: the working state becomes the saved state, and the restart counters advance. */
    method Commit(w: Working, ghost s1: ScanEnc, ghost written: seq<Item>)
      requires !gather && Between() && s1.num < 8
      requires Written(w, ts, s1.out, written) && |w.lastDc| == |sc.mcu.dcTbl|
      requires if sc.interval > 0 && togo == 0 then s1.togo == sc.interval && s1.num == (turn + 1) % 8 else s1.togo == togo && s1.num == turn
      modifies this
      ensures Between()
      ensures State() == ScanEnc(s1.out, s1.done, EncState(written, w.lastDc, NOTHING), if sc.interval > 0 then s1.togo - 1 else s1.togo, s1.num)
    {
      hide *;
      Parts();
      SetupHolds();
      out, put, lastDc := w.out, w.put, w.lastDc;
      if sc.interval > 0 {
        if togo == 0 {
          togo := sc.interval;
          num := num + 1;
          num := num % 8;
        }
        togo := togo - 1;
      }
      base, done, turn := s1.out, s1.done, s1.num;
      items := written;
      IsBetween(w);
    }

    /** finish_pass_huff. */
    method FinishPassHuff()
      requires !gather && Between()
      modifies this`put, this`out
      ensures out == Finish(sc, ts, old(State()))
    {
      hide BitWriter.Holds, SegmentBytes, ItemsBits, Encodes, ValidScan;
      NothingPending(sc, items);
      put, out := BitWriter.FlushBits(put, out, base, ItemsBits(ts, items));
    }

    // ----- the statistics pass -----

    /** Count a symbol. */
    method CountSymbol(tbl: nat, symbol: nat)
      requires gather && Valid() && tbl < |ts| && symbol < 256
      modifies counts, this`items
      ensures Valid() && items == old(items) + [Sym(tbl, symbol)]
    {
      hide Occurrences;
      OneMore(ts, done + items, Sym(tbl, symbol));
      AssocEmission(done, items, [Sym(tbl, symbol)]);
      counts[tbl, symbol] := counts[tbl, symbol] + 1;
      items := items + [Sym(tbl, symbol)];
    }

    /** Appended bits are not counted. */
    ghost method Skip(bits: Bits)
      requires gather && Valid()
      modifies this`items
      ensures Valid() && items == old(items) + [Raw(bits)]
    {
      hide Occurrences;
      OneMore(ts, done + items, Raw(bits));
      AssocEmission(done, items, [Raw(bits)]);
      items := items + [Raw(bits)];
    }

    /** htest_one_block: counts what encode_one_block writes. */
    method TestBlock(block: seq<int>, lastDc: int, dc: nat, ac: nat) returns (ok: bool)
      requires gather && Valid() && |block| == DCTSIZE2 && dc < |ts| && ac < |ts|
      modifies counts, this`items
      ensures ok <==> BlockInRange(Zigzag(block), lastDc)
      ensures ok ==> Valid() && items == old(items) + SequentialCoding.BlockItems(dc, ac, Zigzag(block), lastDc)
    {
      hide *;
      BlockSize();
      ghost var zz, p, items0 := Zigzag(block), BandSpec(ac, 1, 63, 0), items;
      ghost var diff := DcItems(dc, zz[0] - lastDc);
      BlockParts(ts, dc, ac, zz, lastDc, items);
      ok := TestDiff(block[0] - lastDc, dc);
      if !ok {
        return;
      }
      ghost var emitted: seq<Item> := [];
      var r: nat, k: nat := 0, 1;
      BandStarts(ts, p, zz, items0 + diff);
      while k < 64
        invariant 1 <= k <= 64 && Valid()
        invariant FirstAt(p, zz, k, r, emitted) && BandInRange(zz, 1, k - 1)
        invariant items == items0 + diff + emitted
      {
        var temp := block[Natural(k)];
        FirstStep(p, zz, k, r, emitted);
        RangeStep(zz, 1, k, 63);
        if temp == 0 {
          ZeroBits();
          r := r + 1;
        } else {
          ghost var coef := CoefItems(ac, r, temp);
          AssocEmission(items0 + diff, emitted, coef);
          ok := TestCoef(r, temp, ac);
          if !ok {
            return;
          }
          emitted := emitted + coef;
          r := 0;
        }
        k := k + 1;
      }
      BandEnds(ts, p, zz, r, emitted, items0, diff);
      if r > 0 {
        CountSymbol(ac, 0);
      }
      ok := true;
    }

    /** The DC difference of a block. */
    method TestDiff(diff: int, dc: nat) returns (ok: bool)
      requires gather && Valid() && dc < |ts|
      modifies counts, this`items
      ensures ok <==> NBits(Abs(diff)) <= MAX_COEF_BITS + 1
      ensures ok ==> Valid() && items == old(items) + DcItems(dc, diff)
    {
      hide Valid, NBits, ValueBits;
      var temp: int := diff;
      if temp < 0 {
        temp := 0 - temp;
      }
      var nbits := CountBits(temp);
      if nbits > MAX_COEF_BITS + 1 {
        return false;
      }
      ok := true;
      CountSymbol(dc, nbits);
      if nbits > 0 {
        Skip(ValueBits(diff));
        assert old(items) + DcItems(dc, diff) == old(items) + [Sym(dc, nbits)] + [Raw(ValueBits(diff))];
      }
    }

    /** A nonzero AC coefficient behind some zeros. */
    method TestCoef(zeros: nat, v: int, ac: nat) returns (ok: bool)
      requires gather && Valid() && ac < |ts| && v != 0
      modifies counts, this`items
      ensures ok <==> NBits(Abs(v)) <= MAX_COEF_BITS
      ensures ok ==> Valid() && items == old(items) + CoefItems(ac, zeros, v)
    {
      hide Valid, NBits, ValueBits, ZrlItems, Coded;
      var r := zeros;
      ghost var run: seq<Item> := [];
      ZrlStart(ts, ac, zeros / 16, items);
      while r > 15
        invariant r >= 0 && r % 16 == zeros % 16 && Valid()
        invariant items == old(items) + run
        invariant ZrlItems(ac, zeros / 16) == run + ZrlItems(ac, r / 16)
      {
        ZrlCoded(ts, ac, r / 16);
        AssocEmission(run, [Sym(ac, ZRL)], ZrlItems(ac, r / 16 - 1));
        AssocEmission(old(items), run, [Sym(ac, ZRL)]);
        CountSymbol(ac, ZRL);
        run := run + [Sym(ac, ZRL)];
        assert (r - 16) / 16 == r / 16 - 1;
        r := r - 16;
      }
      ZrlEnd(ts, ac, run);
      var temp: int := v;
      if temp < 0 {
        temp := 0 - temp;
      }
      var nbits := CountBits(temp);
      if nbits > MAX_COEF_BITS {
        return false;
      }
      ok := true;
      AssocCoef(old(items), run, Sym(ac, r * 16 + nbits), Raw(ValueBits(v)));
      CountSymbol(ac, r * 16 + nbits);
      Skip(ValueBits(v));
    }

    /** The block loop of encode_mcu_gather. */
    method TestBlocks(mcu: seq<seq<int>>, ghost zz: Mcu) returns (ok: bool)
      requires gather && Valid() && (forall i :: 0 <= i < |mcu| ==> |mcu[i]| == DCTSIZE2) && zz == Zigzags(mcu)
      requires FitsMcu(sc.mcu, zz, lastDc) && ValidScan(sc, |ts|)
      requires forall j :: 0 <= j < |sc.mcu.membership| ==> sc.mcu.membership[j] < |sc.mcu.dcTbl|
      modifies counts, this`items, this`lastDc
      ensures ok <==> McuInRange(sc, old(lastDc), zz)
      ensures ok ==> Valid() && lastDc == OneMcu(sc, old(lastDc), NOTHING, zz, |ts|).1
      ensures ok ==> items == old(items) + OneMcu(sc, old(lastDc), NOTHING, zz, |ts|).0
    {
      hide *;
      TableNumbers();
      ghost var last0, items0 := lastDc, items;
      SeqMcu(ts, sc, zz, last0);
      SeqLoopStarts(ts, sc, zz, last0, items);
      ghost var emitted: seq<Item> := [];
      var blkn := 0;
      while blkn < |mcu|
        invariant 0 <= blkn <= |mcu| && |lastDc| == |last0| && Valid()
        invariant SeqLoop(ts, sc, zz, last0, blkn, lastDc, emitted)
        invariant items == items0 + emitted
      {
        var ci := sc.mcu.membership[blkn];
        FitsOther(sc, zz, last0, lastDc, blkn, |ts|);
        ghost var block := SequentialCoding.BlockItems(sc.mcu.dcTbl[ci], sc.mcu.acTbl[ci], zz[blkn], lastDc[ci]);
        SeqLoopStep(ts, sc, zz, last0, blkn, lastDc, emitted, ci, mcu[blkn][0], block);
        SeqLoopFails(ts, sc, zz, last0, blkn, lastDc, emitted, ci, mcu[blkn][0], block);
        RangeOf(zz[blkn], lastDc[ci]);
        AssocEmission(items0, emitted, block);
        ok := TestBlock(mcu[blkn], lastDc[ci], sc.mcu.dcTbl[ci], sc.mcu.acTbl[ci]);
        if !ok {
          return;
        }
        lastDc := lastDc[ci := mcu[blkn][0]];
        emitted := emitted + block;
        blkn := blkn + 1;
      }
      SeqLoopEnds(ts, sc, zz, last0, lastDc, emitted);
      ok := true;
    }

    lemma TableNumbers()
      requires Valid()
      ensures sc.kind == Sequential && |sc.mcu.dcTbl| == |sc.mcu.acTbl| && DCTSIZE2 == 64
      ensures forall i :: 0 <= i < |sc.mcu.dcTbl| ==> sc.mcu.dcTbl[i] < |ts|
      ensures forall i :: 0 <= i < |sc.mcu.acTbl| ==> sc.mcu.acTbl[i] < |ts|
    {
    }

    /** In a statistics pass, where a segment ends matters only for the predictions. */
    ghost method SegmentEnds()
      requires gather && Valid()
      modifies this`base, this`done, this`items
      ensures Valid() && items == [] && done == old(done) + old(items)
      ensures base == old(base) + SegmentBytes(ItemsBits(ts, old(items))) + [0xFF, RST0 + turn % 8]
    {
      hide Occurrences, SegmentBytes, ItemsBits;
      var marker: seq<Byte> := [0xFF, RST0 + turn % 8];
      base := base + SegmentBytes(ItemsBits(ts, items)) + marker;
      done, items := done + items, [];
      assert done + items == old(done + items);
    }

    /** encode_mcu_gather: counts what encode_mcu_huff writes for the same MCU. */
    method EncodeMcuGather(mcu: seq<seq<int>>) returns (ok: bool)
      requires gather && Between() && (forall i :: 0 <= i < |mcu| ==> |mcu[i]| == DCTSIZE2) && FitsMcu(sc.mcu, Zigzags(mcu), lastDc)
      modifies this, counts
      ensures ok <==> StepEncodable(sc, ts, gather, old(State()), Zigzags(mcu))
      ensures ok ==> Between() && State() == EncodeStep(sc, ts, old(State()), Zigzags(mcu))
    {
      hide *;
      Parts();
      ghost var zz, s0 := Zigzags(mcu), State();
      ghost var restart := sc.interval > 0 && togo == 0;
      ghost var s1 := if restart then EmitRestart(sc, ts, s0) else s0;
      RestartIs(sc, ts, s0);
      if sc.interval > 0 {
        if togo == 0 {
          SegmentEnds();
          turn := (turn + 1) % 8;
          lastDc := seq(|lastDc|, _ => 0);
          NoDcIs(sc, lastDc);
          togo := sc.interval;
        }
        togo := togo - 1;
      }
      StepOf(sc, ts, gather, s0, zz, s1);
      ok := TestBlocks(mcu, zz);
      if ok {
        GatherBetween();
      }
    }

    /** A whole output pass: it writes the bytes of the scan, unless an MCU is out of range or a symbol has no code. */
    method WritePass(mcus: seq<seq<seq<int>>>, ghost zzs: seq<Mcu>) returns (ok: bool)
      requires !gather && Between() && State() == Begin(sc) && ValidScan(sc, |ts|)
      requires |mcus| == |zzs| && FitsScan(sc, zzs)
      requires forall i :: 0 <= i < |mcus| ==> (forall j :: 0 <= j < |mcus[i]| ==> |mcus[i][j]| == DCTSIZE2) && zzs[i] == Zigzags(mcus[i])
      modifies this
      ensures |Begin(sc).e.lastDc| == |sc.mcu.dcTbl| && Begin(sc).num < 8
      ensures ok <==> PassInRange(sc, ts, Begin(sc), zzs) && ScanCoded(sc, ts, zzs)
      ensures ok ==> out == ScanBytes(sc, ts, zzs, 0)
    {
      hide *;
      Parts();
      PassStarts(sc, ts);
      ScanCodedIs(sc, ts, zzs);
      PassWritesScan(sc, ts, zzs);
      ghost var whole := EncodeScan(sc, ts, Begin(sc), zzs);
      var i := 0;
      assert zzs[0..] == zzs;
      while i < |mcus|
        invariant 0 <= i <= |mcus| && Between() && |lastDc| == |sc.mcu.dcTbl| && turn < 8
        invariant FitsScan(sc, zzs[i..]) && |State().e.lastDc| == |sc.mcu.dcTbl| && State().num < 8
        invariant whole == EncodeScan(sc, ts, State(), zzs[i..])
        invariant PassInRange(sc, ts, Begin(sc), zzs) <==> PassInRange(sc, ts, State(), zzs[i..])
        invariant Coded(ts, Emitted(State()))
      {
        ghost var rest := zzs[i..];
        assert rest[0] == zzs[i] && rest[1..] == zzs[i + 1..];
        FitsSplit(sc, rest, 1);
        Parts();
        PassStep(sc, ts, gather, State(), rest);
        var st := EncodeMcuHuff(mcus[i], Unlimited);
        if st != Done {
          return false;
        }
        Parts();
        i := i + 1;
      }
      assert zzs[i..] == [];
      Parts();
      PassEnds(sc, ts, State());
      NothingPending(sc, items);
      NoneCoded(ts);
      FinishPassHuff();
      ok := true;
    }

    /** A whole statistics pass: it counts the symbols that an output pass over the same MCUs writes. */
    method GatherPass(mcus: seq<seq<seq<int>>>, ghost zzs: seq<Mcu>) returns (ok: bool)
      requires gather && Between() && State() == Begin(sc) && ValidScan(sc, |ts|)
      requires |mcus| == |zzs| && FitsScan(sc, zzs)
      requires forall i :: 0 <= i < |mcus| ==> (forall j :: 0 <= j < |mcus[i]| ==> |mcus[i][j]| == DCTSIZE2) && zzs[i] == Zigzags(mcus[i])
      modifies this, counts
      ensures |Begin(sc).e.lastDc| == |sc.mcu.dcTbl| && Begin(sc).num < 8
      ensures ok <==> PassInRange(sc, ts, Begin(sc), zzs)
      ensures ok ==> forall t: nat, s: nat :: t < |ts| && s < 257 ==> counts[t, s] == Occurrences(ScanItems(sc, zzs, |ts|), t, s)
    {
      hide *;
      Parts();
      PassStarts(sc, ts);
      PassWritesScan(sc, ts, zzs);
      ghost var whole := EncodeScan(sc, ts, Begin(sc), zzs);
      var i := 0;
      assert zzs[0..] == zzs;
      while i < |mcus|
        invariant 0 <= i <= |mcus| && Between() && |lastDc| == |sc.mcu.dcTbl| && turn < 8
        invariant FitsScan(sc, zzs[i..]) && |State().e.lastDc| == |sc.mcu.dcTbl| && State().num < 8
        invariant whole == EncodeScan(sc, ts, State(), zzs[i..])
        invariant PassInRange(sc, ts, Begin(sc), zzs) <==> PassInRange(sc, ts, State(), zzs[i..])
      {
        ghost var rest := zzs[i..];
        assert rest[0] == zzs[i] && rest[1..] == zzs[i + 1..];
        FitsSplit(sc, rest, 1);
        Parts();
        PassStep(sc, ts, gather, State(), rest);
        ok := EncodeMcuGather(mcus[i]);
        if !ok {
          return;
        }
        Parts();
        i := i + 1;
      }
      assert zzs[i..] == [];
      Parts();
      PassEnds(sc, ts, State());
      Counted();
      ok := true;
    }

    lemma Counted()
      requires gather && Between()
      ensures forall t: nat, s: nat :: t < |ts| && s < 257 ==> counts[t, s] == Occurrences(AllItems(sc, State()), t, s)
    {
      hide Occurrences;
      NothingPending(sc, items);
    }

    lemma GatherBetween()
      requires gather && Valid() && |lastDc| == |sc.mcu.dcTbl| && turn < 8
      ensures Between() && State() == ScanEnc(base, done, EncState(items, lastDc, NOTHING), togo, turn)
    {
    }
  }

  lemma NoDcIs(sc: Scan, lastDc: seq<int>)
    requires |lastDc| == |sc.mcu.dcTbl| && forall i :: 0 <= i < |lastDc| ==> lastDc[i] == 0
    ensures lastDc == NoDc(sc)
  {
  }

  /** A restart of a sequential scan: nothing is pending. */
  lemma RestartIs(sc: Scan, ts: seq<Table>, s: ScanEnc)
    requires s.num < 8 && s.e.pd == NOTHING
    ensures EmitRestart(sc, ts, s)
         == ScanEnc(s.out + SegmentBytes(ItemsBits(ts, s.e.items)) + [0xFF, RST0 + s.num % 8], s.done + s.e.items,
                    EncState([], NoDc(sc), NOTHING), sc.interval, (s.num + 1) % 8)
  {
    hide SegmentBytes, ItemsBits;
    NothingPending(sc, s.e.items);
  }
}
