/** The progressive entropy encoder (jcphuff.c): one object per scan that counts symbols in a statistics
    pass, or writes bits. ERREXIT is modelled by the result false, after which the object is not used again. */
module ProgressiveEncoder {
  import opened BitSeq
  import opened ByteStream
  import BitWriter
  import opened HuffTable
  import opened DerivedTables
  import opened Symbols
  import opened Coefficients
  import opened BlockCoding
  import opened AcFirstCoding
  import opened AcRefineCoding
  import opened DcCoding
  import opened ScanCoding
  import opened ScanEncoding
  import opened NaturalOrder
  import opened EncoderLoops

  class PhuffEncoder {
    const sc: Scan
    const gather: bool
    ghost const ts: seq<Table>
    const derived: seq<Option<CDerived>>
    const bitBuffer: array<bool>
    const counts: array2<nat>

    var out: seq<Byte>
    var put: BitWriter.PutState
    var lastDc: seq<int>
    var eobrun: nat
    var be: nat
    var togo: nat
    var num: nat

    /** What the finished segments wrote and emitted, and what this segment has emitted. */
    ghost var base: seq<Byte>
    ghost var done: seq<Item>
    ghost var items: seq<Item>

    ghost predicate Prepared(tbl: nat) {
      gather || (tbl < |derived| && derived[tbl].Some?)
    }

    /** The scan parameters are legal, and an output pass has derived tables for all its components. */
    ghost predicate Setup() {
      && sc.kind != Sequential && (sc.ss == 0 <==> sc.kind in {DcFirst, DcRefine}) && ValidScan(sc, |ts|)
      && |derived| == |ts| == counts.Length0 && counts.Length1 == 257 && bitBuffer.Length == MAX_CORR_BITS
      && (forall t :: 0 <= t < |ts| && derived[t].Some? ==> Encodes(derived[t].value, ts[t]))
      && (sc.kind == DcFirst ==> forall i :: 0 <= i < |sc.mcu.dcTbl| ==> Prepared(sc.mcu.dcTbl[i]))
      && (sc.kind in {AcFirst, AcRefine} ==> Prepared(sc.mcu.acTbl[0]))
    }

    /** A statistics pass has counted every symbol so far; an output pass has written every bit so far. */
    ghost predicate Output()
      reads this`put, this`out, this`base, this`done, this`items, counts
    {
      if gather then
        counts.Length0 == |ts| && counts.Length1 == 257 &&
        forall t: nat, s: nat :: t < |ts| && s < 257 ==> counts[t, s] == Occurrences(done + items, t, s)
      else BitWriter.Holds(put, out, base, ItemsBits(ts, items))
    }

    ghost predicate Valid()
      reads this`put, this`out, this`base, this`done, this`items, counts
    {
      Setup() && Output()
    }

    /** What holds between MCUs: the run counter and the correction bit buffer are safe. */
    ghost predicate Between()
      reads this, bitBuffer, counts
    {
      && Valid() && |lastDc| == |sc.mcu.dcTbl| && num < 8
      && be <= MAX_CORR_BITS && PendingFits(sc, Pending(eobrun, bitBuffer[..be]))
      && (sc.kind in {AcFirst, AcRefine} ==> lastDc == NoDc(sc))
    }

    ghost function Run(): Pending
      requires be <= bitBuffer.Length
      reads this`eobrun, this`be, bitBuffer
    {
      Pending(eobrun, bitBuffer[..be])
    }

    lemma AcSetup()
      requires Valid() && sc.kind in {AcFirst, AcRefine}
      ensures |sc.mcu.acTbl| > 0 && sc.mcu.acTbl[0] < |ts| && Prepared(sc.mcu.acTbl[0])
      ensures BandOf(sc) == BandSpec(sc.mcu.acTbl[0], sc.ss, sc.se, sc.al)
      ensures ValidBand(BandOf(sc)) && 1 <= sc.ss <= sc.se < DCTSIZE2 == 64
      ensures MAX_EOBRUN == 0x7FFF && MAX_CORR_BITS == 1000 == bitBuffer.Length && ZRL == 0xF0 && NOTHING == Pending(0, [])
    {
    }

    lemma DcSetup()
      requires Valid() && sc.kind == DcFirst
      ensures ValidScan(sc, |ts|) && DCTSIZE2 == 64
      ensures forall i :: 0 <= i < |sc.mcu.membership| ==> sc.mcu.membership[i] < |sc.mcu.dcTbl|
      ensures forall i :: 0 <= i < |sc.mcu.dcTbl| ==> sc.mcu.dcTbl[i] < |ts| && Prepared(sc.mcu.dcTbl[i])
    {
    }

    lemma RunIs()
      requires be <= bitBuffer.Length
      ensures Run() == Pending(eobrun, bitBuffer[..be])
    {
    }

    lemma BetweenRun()
      requires Between() && sc.kind in {AcFirst, AcRefine}
      ensures Valid() && eobrun < MAX_EOBRUN && (eobrun == 0 ==> be == 0) && be <= MAX_CORR_BITS - DCTSIZE2 + 1
    {
    }

    /** The state that the specification of a scan speaks of. */
    ghost function State(): ScanEnc
      requires be <= bitBuffer.Length
      reads this, bitBuffer
    {
      ScanEnc(base, done, EncState(items, lastDc, Run()), togo, num)
    }

    /** start_pass_phuff; derived holds what jpeg_make_c_derived_tbl made of the scan's tables. */
    constructor (sc: Scan, gather: bool, ghost ts: seq<Table>, derived: seq<Option<CDerived>>)
      requires sc.kind != Sequential && (sc.ss == 0 <==> sc.kind in {DcFirst, DcRefine})
      requires ValidScan(sc, |ts|) && |derived| == |ts|
      requires forall t :: 0 <= t < |ts| && derived[t].Some? ==> Encodes(derived[t].value, ts[t])
      requires !gather && sc.kind == DcFirst ==> forall i :: 0 <= i < |sc.mcu.dcTbl| ==> derived[sc.mcu.dcTbl[i]].Some?
      requires !gather && sc.kind in {AcFirst, AcRefine} ==> derived[sc.mcu.acTbl[0]].Some?
      ensures this.sc == sc && this.gather == gather && this.ts == ts
      ensures fresh(bitBuffer) && fresh(counts)
      ensures Between() && State() == Begin(sc)
    {
      hide Encodes, BitWriter.Holds, Occurrences, ItemsBits;
      this.sc, this.gather, this.ts, this.derived := sc, gather, ts, derived;
      bitBuffer := new bool[MAX_CORR_BITS](_ => false);
      counts := new nat[|derived|, 257]((_, _) => 0);
      out, put := [], BitWriter.EMPTY;
      lastDc := seq(|sc.mcu.dcTbl|, _ => 0);
      eobrun, be := 0, 0;
      togo, num := sc.interval, 0;
      base, done, items := [], [], [];
      new;
      EmptyOutput(ts);
      assert done + items == [] && bitBuffer[..0] == [];
      assert lastDc == NoDc(sc);
    }

    /** emit_bits for appended bits: in a statistics pass it does nothing. */
    method EmitBits(code: nat, size: nat)
      requires Valid() && 1 <= size <= 16
      modifies this`put, this`out, this`items
      ensures Valid() && items == old(items) + [Raw(ToBits(code, size))]
    {
      hide Setup, ToBits, BitWriter.Holds, Occurrences, ItemsBits;
      if !gather {
        put, out := BitWriter.EmitBits(put, out, code, size, base, ItemsBits(ts, items));
      }
      OneMore(ts, items, Raw(ToBits(code, size)));
      OneMore(ts, done + items, Raw(ToBits(code, size)));
      assert done + (items + [Raw(ToBits(code, size))]) == done + items + [Raw(ToBits(code, size))];
      items := items + [Raw(ToBits(code, size))];
    }

    /** emit_symbol: count the symbol, or write its code; a symbol without code is an error. */
    method EmitSymbol(tbl: nat, symbol: nat) returns (ok: bool)
      requires Valid() && tbl < |ts| && Prepared(tbl) && symbol < 256
      modifies this`put, this`out, this`items, counts
      ensures ok <==> gather || ItemCoded(ts, Sym(tbl, symbol))
      ensures ok ==> Valid() && items == old(items) + [Sym(tbl, symbol)]
    {
      hide ToBits, BitWriter.Holds, Occurrences, ItemsBits, Codeword;
      OneMore(ts, items, Sym(tbl, symbol));
      OneMore(ts, done + items, Sym(tbl, symbol));
      assert done + (items + [Sym(tbl, symbol)]) == done + items + [Sym(tbl, symbol)];
      ok := true;
      if gather {
        counts[tbl, symbol] := counts[tbl, symbol] + 1;
      } else {
        var d := derived[tbl].value;
        assert ToBits(d.ehufco[symbol], d.ehufsi[symbol]) == Codeword(ts[tbl], symbol);
        if d.ehufsi[symbol] == 0 {
          return false;
        }
        put, out := BitWriter.EmitBits(put, out, d.ehufco[symbol], d.ehufsi[symbol], base, ItemsBits(ts, items));
      }
      items := items + [Sym(tbl, symbol)];
    }

    /** emit_buffered_bits. */
    method EmitBufferedBits(start: nat, count: nat)
      requires Valid() && start + count <= bitBuffer.Length
      modifies this`put, this`out, this`items
      ensures Valid() && items == old(items) + BitItems(bitBuffer[start..start + count])
    {
      hide Valid, ToBits;
      var i := 0;
      ghost var b := bitBuffer[..];
      assert BitItems(b[start..start]) == [];
      while i < count
        invariant 0 <= i <= count && Valid() && b == bitBuffer[..]
        invariant items == old(items) + BitItems(b[start..start + i])
      {
        OneBit(b[start + i]);
        BitItemsNext(b, start, i);
        AssocEmission(old(items), BitItems(b[start..start + i]), [Raw([b[start + i]])]);
        EmitBits(BitVal(bitBuffer[start + i]), 1);
        i := i + 1;
      }
      assert b[start..start + count] == bitBuffer[start..start + count];
    }

    /** emit_eobrun: the pending run and the correction bits that belong to it. */
    method EmitEobrun() returns (ok: bool)
      requires Valid() && eobrun <= MAX_EOBRUN && be <= bitBuffer.Length && (eobrun == 0 ==> be == 0)
      requires eobrun > 0 ==> sc.kind in {AcFirst, AcRefine}
      modifies this`put, this`out, this`items, this`eobrun, this`be, counts
      ensures ok <==> gather || Coded(ts, Flush(BandOf(sc).tbl, old(Run())))
      ensures ok ==> Valid() && eobrun == 0 && be == 0
      ensures ok ==> items == old(items) + Flush(BandOf(sc).tbl, old(Run()))
    {
      hide *;
      if eobrun > 0 {
        AcSetup();
      }
      RunIs();
      ghost var pd, items0 := Run(), items;
      FlushParts(ts, BandOf(sc).tbl, pd, items0);
      ok := true;
      if eobrun > 0 {
        EobCategory(eobrun);
        EobParts(items0, BandOf(sc).tbl, pd.run);
        var nbits := CountShifts(eobrun);
        ok := EmitSymbol(sc.mcu.acTbl[0], nbits * 16);
        if !ok {
          return;
        }
        if nbits > 0 {
          EmitBits(eobrun, nbits);
        }
        eobrun := 0;
        assert bitBuffer[0..0 + be] == pd.be;
        EmitBufferedBits(0, be);
        be := 0;
      }
    }

    /** flush_bits at the end of a segment, when the pass writes. */
    method FlushBits()
      requires Valid()
      modifies this`put, this`out, this`items, this`base, this`done
      ensures Valid() && items == [] && done == old(done) + old(items)
      ensures base == old(base) + SegmentBytes(ItemsBits(ts, old(items)))
      ensures !gather ==> out == base
    {
      hide Setup, ToBits, BitWriter.Holds, Occurrences, SegmentBytes;
      if !gather {
        put, out := BitWriter.FlushBits(put, out, base, ItemsBits(ts, items));
      }
      base := base + SegmentBytes(ItemsBits(ts, items));
      done, items := done + items, [];
      assert done + items == old(done + items);
    }

    /** The two bytes of a marker behind a finished segment, when the pass writes. */
    method EmitMarker(marker: seq<Byte>)
      requires Valid() && items == []
      modifies this`out, this`base
      ensures Valid() && base == old(base) + marker
    {
      hide Setup, BitWriter.Holds, Occurrences;
      if !gather {
        HoldsBehind(put, out, base, marker);
        out := out + marker;
      }
      base := base + marker;
    }

    /** emit_restart: what is pending, the rest of the last byte, the marker, and fresh predictions. */
    method EmitRestart() returns (ok: bool)
      requires Between()
      modifies this`put, this`out, this`items, this`eobrun, this`be, this`lastDc, this`base, this`done, counts
      ensures ok <==> gather || Coded(ts, Flush(BandOf(sc).tbl, old(Run())))
      ensures ok ==> Between()
      ensures ok ==> State().(togo := sc.interval, num := (num + 1) % 8) == ScanEncoding.EmitRestart(sc, ts, old(State()))
    {
      hide Output, ToBits, BitItems, BitWriter.Holds, Occurrences, ItemsBits, Coded, SegmentBytes, Flush, ValidScan, Encodes;
      ghost var s0 := State();
      ok := EmitEobrun();
      if !ok {
        return;
      }
      assert items == Closed(sc, s0.e);
      FlushBits();
      EmitMarker([0xFF, RST0 + num]);
      if sc.ss == 0 {
        lastDc := seq(|sc.mcu.dcTbl|, _ => 0);
      } else {
        eobrun, be := 0, 0;
      }
    }

    /** A DC difference: its category, and its bits. */
    method EmitDiff(tbl: nat, diff: int) returns (ok: bool)
      requires Valid() && tbl < |ts| && Prepared(tbl)
      modifies this`put, this`out, this`items, counts
      ensures ok <==> NBits(Abs(diff)) <= MAX_COEF_BITS + 1 && (gather || Coded(ts, DcItems(tbl, diff)))
      ensures ok ==> Valid() && items == old(items) + DcItems(tbl, diff)
    {
      hide Valid, ToBits, Coded, NBits, ValueBits, Unsigned;
      var temp: int, temp2: int := diff, diff;
      if temp < 0 {
        temp := 0 - temp;
        temp2 := temp2 - 1;
      }
      var nbits := CountBits(temp);
      if nbits > MAX_COEF_BITS + 1 {
        return false;
      }
      DcCoded(ts, tbl, diff);
      ok := EmitSymbol(tbl, nbits);
      if ok && nbits > 0 {
        ValueBitsMasked(diff, nbits);
        EmitBits(Unsigned(temp2), nbits);
      }
    }

    /** encode_mcu_DC_first, the restart aside. */
    method EncodeDcFirst(mcu: seq<seq<int>>) returns (ok: bool)
      requires Valid() && sc.kind == DcFirst && forall i :: 0 <= i < |mcu| ==> |mcu[i]| == DCTSIZE2
      requires FitsMcu(sc.mcu, Zigzags(mcu), lastDc)
      modifies this`put, this`out, this`items, this`lastDc, counts
      ensures ok <==> DcInRange(sc.mcu, sc.al, Zigzags(mcu), old(lastDc), 0)
                      && (gather || Coded(ts, DcCoding.EncodeDcFirst(sc.mcu, sc.al, Zigzags(mcu), old(lastDc), 0, |ts|).0))
      ensures ok ==> Valid()
      ensures ok ==>
        (items, lastDc) == (var e := DcCoding.EncodeDcFirst(sc.mcu, sc.al, Zigzags(mcu), old(lastDc), 0, |ts|);
                           (old(items) + e.0, e.1))
    {
      hide *;
      DcSetup();
      ghost var zz, last0, items0 := Zigzags(mcu), lastDc, items;
      var blkn := 0;
      FitsLengths(sc, zz, lastDc);
      ghost var emitted: seq<Item> := [];
      DcLoopStarts(ts, sc, zz, last0);
      NoneCoded(ts);
      assert items0 + [] == items0;
      while blkn < |mcu|
        invariant 0 <= blkn <= |mcu| && Valid() && |lastDc| == |last0|
        invariant DcLoop(ts, sc, zz, last0, blkn, lastDc, emitted)
        invariant items == items0 + emitted && (gather || Coded(ts, emitted))
      {
        var ci := sc.mcu.membership[blkn];
        var temp2 := Asr(mcu[blkn][0], sc.al);
        var temp := temp2 - lastDc[ci];
        ghost var diff := DcItems(sc.mcu.dcTbl[ci], temp);
        assert zz[blkn][0] == mcu[blkn][0];
        DcLoopStep(ts, sc, zz, last0, blkn, lastDc, emitted, ci, temp2, diff);
        AssocEmission(items0, emitted, diff);
        lastDc := lastDc[ci := temp2];
        ok := EmitDiff(sc.mcu.dcTbl[ci], temp);
        if !ok {
          return;
        }
        emitted := emitted + diff;
        blkn := blkn + 1;
      }
      ok := true;
      DcLoopEnds(ts, sc, zz, last0, lastDc, emitted);
    }

    /** encode_mcu_DC_refine, the restart aside: one bit per block. */
    method EncodeDcRefine(mcu: seq<seq<int>>)
      requires Valid() && sc.kind == DcRefine && forall i :: 0 <= i < |mcu| ==> |mcu[i]| == DCTSIZE2
      modifies this`put, this`out, this`items
      ensures Valid() && items == old(items) + DcCoding.EncodeDcRefine(sc.al, Zigzags(mcu), 0)
    {
      ghost var zz, items0 := Zigzags(mcu), items;
      ghost var emitted: seq<Item> := [];
      var blkn := 0;
      assert items0 + [] == items0 && [] + DcCoding.EncodeDcRefine(sc.al, zz, 0) == DcCoding.EncodeDcRefine(sc.al, zz, 0);
      hide Valid, Asr, Unsigned, ToBits;
      while blkn < |mcu|
        invariant 0 <= blkn <= |mcu| && Valid()
        invariant items == items0 + emitted
        invariant DcCoding.EncodeDcRefine(sc.al, zz, 0) == emitted + DcCoding.EncodeDcRefine(sc.al, zz, blkn)
      {
        var temp := mcu[blkn][0];
        ghost var bit := [Raw([DcBit(temp, sc.al)])];
        AssocEmission(emitted, bit, DcCoding.EncodeDcRefine(sc.al, zz, blkn + 1));
        AssocEmission(items0, emitted, bit);
        LowBit(Asr(temp, sc.al));
        EmitBits(Unsigned(Asr(temp, sc.al)), 1);
        emitted := emitted + bit;
        blkn := blkn + 1;
      }
      assert emitted + [] == emitted;
    }

    /** A nonzero AC coefficient behind r zeros. */
    method EmitCoef(tbl: nat, zeros: nat, v: int) returns (ok: bool)
      requires Valid() && tbl < |ts| && Prepared(tbl) && v != 0
      modifies this`put, this`out, this`items, counts
      ensures ok <==> NBits(Abs(v)) <= MAX_COEF_BITS && (gather || Coded(ts, CoefItems(tbl, zeros, v)))
      ensures ok ==> Valid() && items == old(items) + CoefItems(tbl, zeros, v)
    {
      hide Valid, ToBits, Coded, NBits, ValueBits, Unsigned, ItemCoded;
      var r := zeros;
      ghost var sym, bits := Sym(tbl, zeros % 16 * 16 + NBits(Abs(v))), Raw(ValueBits(v));
      CoefCoded(ts, tbl, zeros, v);
      while r > 15
        invariant r >= 0 && r % 16 == zeros % 16 && Valid()
        invariant items + ZrlItems(tbl, r / 16) == old(items) + ZrlItems(tbl, zeros / 16)
        invariant gather || (Coded(ts, ZrlItems(tbl, zeros / 16)) <==> Coded(ts, ZrlItems(tbl, r / 16)))
      {
        ZrlCoded(ts, tbl, r / 16);
        AssocEmission(items, [Sym(tbl, ZRL)], ZrlItems(tbl, r / 16 - 1));
        ok := EmitSymbol(tbl, ZRL);
        if !ok {
          return;
        }
        assert (r - 16) / 16 == r / 16 - 1;
        r := r - 16;
      }
      assert items == old(items) + ZrlItems(tbl, zeros / 16);
      NoneCoded(ts);
      var temp: int, temp2: int := v, v;
      if temp < 0 {
        temp := 0 - temp;
        temp2 := temp2 - 1;
      }
      var nbits := CountBits(temp);
      if nbits > MAX_COEF_BITS {
        return false;
      }
      ok := EmitSymbol(tbl, r * 16 + nbits);
      if ok {
        ValueBitsMasked(v, nbits);
        EmitBits(Unsigned(temp2), nbits);
        AssocCoef(old(items), ZrlItems(tbl, zeros / 16), sym, bits);
      }
    }

    /** The coefficient loop of encode_mcu_AC_first: what it emits behind the pending run, and the zeros it ends with. */
    method EncodeAcBand(block: seq<int>) returns (ok: bool, r: nat, ghost emitted: seq<Item>)
      requires Valid() && sc.kind == AcFirst && |block| == DCTSIZE2 && be == 0 && eobrun < MAX_EOBRUN
      modifies this`put, this`out, this`items, this`eobrun, this`be, counts
      ensures ok ==> FirstAt(BandOf(sc), Shifted(Zigzag(block), sc.al), sc.se + 1, r, emitted)
      ensures ok ==> BandInRange(Shifted(Zigzag(block), sc.al), sc.ss, sc.se)
      ensures ok ==> Valid() && be == 0
      ensures ok ==> items == old(items) + AcWritten(sc.mcu.acTbl[0], old(eobrun), emitted)
      ensures ok ==> eobrun == if emitted == [] then old(eobrun) else 0
      ensures ok && !gather ==> Coded(ts, AcWritten(sc.mcu.acTbl[0], old(eobrun), emitted))
      ensures !ok ==> !BandInRange(Shifted(Zigzag(block), sc.al), sc.ss, sc.se)
                      || (!gather && !Coded(ts, EncodeFirst(BandOf(sc), Zigzag(block), old(eobrun)).0))
    {
      hide *;
      AcSetup();
      ghost var p, zz, run0, items0 := BandOf(sc), Zigzag(block), eobrun, items;
      emitted := [];
      r := 0;
      FirstStarts(ts, p, zz, run0, items0);
      var k: nat := sc.ss;
      while k <= sc.se
        invariant sc.ss <= k <= sc.se + 1 && Valid() && be == 0 && eobrun < MAX_EOBRUN
        invariant FirstLoop(p, zz, run0, items0, k, r, emitted, items, eobrun)
        invariant gather || Coded(ts, AcWritten(p.tbl, run0, emitted))
      {
        var temp := TowardZero(block[Natural(k)], sc.al);
        assert temp == Shifted(zz, sc.al)[k];
        if temp == 0 {
          FirstZero(p, zz, run0, items0, k, r, emitted, items, eobrun);
          r := r + 1;
        } else {
          ghost var coef := CoefItems(sc.mcu.acTbl[0], r, temp);
          FirstMore(ts, p, zz, run0, items0, k, r, emitted, items, eobrun);
          ok := EmitBehindRun(r, temp);
          if !ok {
            return;
          }
          emitted := emitted + coef;
          r := 0;
        }
        k := k + 1;
      }
      ok := true;
      FirstDone(p, zz, run0, items0, r, emitted, items, eobrun);
    }

    /** A nonzero coefficient of a first AC scan: behind the pending run, if there is one. */
    method EmitBehindRun(r: nat, temp: int) returns (ok: bool)
      requires Valid() && sc.kind == AcFirst && be == 0 && eobrun < MAX_EOBRUN && temp != 0
      modifies this`put, this`out, this`items, this`eobrun, this`be, counts
      ensures ok <==> NBits(Abs(temp)) <= MAX_COEF_BITS
                      && (gather || Coded(ts, EobItems(sc.mcu.acTbl[0], old(eobrun)) + CoefItems(sc.mcu.acTbl[0], r, temp)))
      ensures ok ==> Valid() && be == 0 && eobrun == 0
      ensures ok ==> items == old(items) + EobItems(sc.mcu.acTbl[0], old(eobrun)) + CoefItems(sc.mcu.acTbl[0], r, temp)
    {
      hide Valid, Coded, NBits, CoefItems, EobItems, Abs, Flush;
      AcSetup();
      RunIs();
      var tbl := sc.mcu.acTbl[0];
      FlushRun(tbl, eobrun);
      NoEob(tbl);
      CodedConcat(ts, EobItems(tbl, eobrun), CoefItems(tbl, r, temp));
      NoneCoded(ts);
      assert bitBuffer[..0] == [];
      if eobrun > 0 {
        ok := EmitEobrun();
        if !ok {
          return;
        }
      }
      ok := EmitCoef(tbl, r, temp);
    }

    /** encode_mcu_AC_first, the restart aside. */
    method EncodeAcFirst(block: seq<int>) returns (ok: bool)
      requires Valid() && sc.kind == AcFirst && |block| == DCTSIZE2 && be == 0 && eobrun < MAX_EOBRUN
      modifies this`put, this`out, this`items, this`eobrun, this`be, counts
      ensures ok <==> BandInRange(Shifted(Zigzag(block), sc.al), sc.ss, sc.se)
                      && (gather || Coded(ts, EncodeFirst(BandOf(sc), Zigzag(block), old(eobrun)).0))
      ensures ok ==> Valid() && be == 0
      ensures ok ==> (items, eobrun) == (var e := EncodeFirst(BandOf(sc), Zigzag(block), old(eobrun)); (old(items) + e.0, e.1))
    {
      hide *;
      AcSetup();
      var tbl := sc.mcu.acTbl[0];
      var r;
      ghost var emitted;
      ok, r, emitted := EncodeAcBand(block);
      if !ok {
        return;
      }
      FirstEnds(ts, BandOf(sc), Zigzag(block), old(eobrun), r, emitted, old(items));
      if r > 0 {
        eobrun := eobrun + 1;
        if eobrun == MAX_EOBRUN {
          RunIs();
          assert bitBuffer[..be] == [];
          FlushRun(tbl, eobrun);
          ok := EmitEobrun();
        }
      }
    }

    /** The pre-pass of encode_mcu_AC_refine: transformed magnitudes, and the last newly nonzero position. */
    method AbsValues(block: seq<int>) returns (absvalues: seq<nat>, eob: nat)
      requires |block| == DCTSIZE2 && ValidBand(BandOf(sc))
      ensures |absvalues| == DCTSIZE2
      ensures forall k :: sc.ss <= k <= sc.se ==> absvalues[k] == Mag(BandOf(sc), Zigzag(block), k)
      ensures eob == LastNew(BandOf(sc), Zigzag(block), sc.se)
    {
      hide Shr, Zigzag;
      ghost var p, zz := BandOf(sc), Zigzag(block);
      var values := new nat[DCTSIZE2](_ => 0);
      eob := 0;
      var k: nat := sc.ss;
      assert LastNew(p, zz, k - 1) == 0;
      while k <= sc.se
        invariant sc.ss <= k <= sc.se + 1
        invariant forall j :: sc.ss <= j < k ==> values[j] == Mag(p, zz, j)
        invariant eob == LastNew(p, zz, k - 1)
      {
        var temp: int := block[Natural(k)];
        if temp < 0 {
          temp := 0 - temp;
        }
        temp := Shr(temp, sc.al);
        values[k] := temp;
        assert zz[k] == block[Natural(k)];
        if temp == 1 {
          eob := k;
        }
        k := k + 1;
      }
      absvalues := values[..];
    }

    /** What has to be written before a symbol of the block: the pending run. Then the symbol, and a sign if there is one. */
    method EmitRefined(symbol: nat, sign: seq<bool>, start: nat, count: nat) returns (ok: bool)
      requires Valid() && sc.kind == AcRefine && symbol < 256 && |sign| <= 1 && start + count <= MAX_CORR_BITS == bitBuffer.Length
      requires eobrun <= MAX_EOBRUN && be <= MAX_CORR_BITS && (eobrun == 0 ==> be == 0)
      modifies this`put, this`out, this`items, this`eobrun, this`be, counts
      ensures ok <==> gather || Coded(ts, Group(BandOf(sc).tbl, old(Run()), symbol, sign, bitBuffer[start..start + count]))
      ensures ok ==> Valid() && eobrun == 0 && be == 0
      ensures ok ==> items == old(items) + Group(BandOf(sc).tbl, old(Run()), symbol, sign, bitBuffer[start..start + count])
    {
      hide Valid, Flush, BitItems, ItemCoded, Coded, ToBits, Group;
      AcSetup();
      GroupParts(ts, items, BandOf(sc).tbl, Run(), symbol, sign, bitBuffer[start..start + count]);
      ok := EmitEobrun();
      if !ok {
        return;
      }
      ok := EmitSymbol(sc.mcu.acTbl[0], symbol);
      if !ok {
        return;
      }
      if |sign| == 1 {
        OneBit(sign[0]);
        OneSign(sign);
        EmitBits(BitVal(sign[0]), 1);
      } else {
        NoSign();
      }
      EmitBufferedBits(start, count);
    }

    /** The main loop of encode_mcu_AC_refine; correction bits are collected behind those of the pending run. */
    method EncodeRefineBand(block: seq<int>) returns (ok: bool, r: nat, br: nat)
      requires Between() && sc.kind == AcRefine && |block| == DCTSIZE2
      modifies this`put, this`out, this`items, this`eobrun, this`be, counts, bitBuffer
      ensures var p, zz, pd := BandOf(sc), Zigzag(block), old(Run());
        var l := RefineLoop(p, zz, LastNew(p, zz, p.se), p.ss, 0, [], pd);
        && (ok <==> gather || Coded(ts, l.items))
        && (ok ==> be + br <= bitBuffer.Length && l == Loop(l.items, r, bitBuffer[be..be + br], Run())
                   && items == old(items) + l.items)
      ensures ok ==> Valid() && eobrun < MAX_EOBRUN && (eobrun == 0 ==> be == 0)
    {
      hide *;
      BetweenRun();
      AcSetup();
      var absvalues, eob := AbsValues(block);
      ghost var p, zz, items0 := BandOf(sc), Zigzag(block), items;
      ghost var emitted: seq<Item> := [];
      ghost var l0 := RefineLoop(p, zz, eob, sc.ss, 0, [], Run());
      r, br := 0, 0;
      var start, k: nat := be, sc.ss;
      assert bitBuffer[start..start] == [] && items + [] == items;
      LoopStarts(p, zz, eob, Run());
      NoneCoded(ts);
      while k <= sc.se
        invariant sc.ss <= k <= sc.se + 1 && Valid() && start == be
        invariant start + br + (sc.se + 1 - k) <= MAX_CORR_BITS && eobrun < MAX_EOBRUN && (eobrun == 0 ==> be == 0)
        invariant LoopAt(p, zz, eob, k, r, bitBuffer[start..start + br], Run(), emitted, l0)
        invariant items == items0 + emitted && (gather || Coded(ts, emitted))
        decreases sc.se + 1 - k, r
      {
        var temp := absvalues[k];
        ghost var bits, pd := bitBuffer[start..start + br], Run();
        RunIs();
        if temp == 0 {
          LoopZero(p, zz, eob, k, r, bits, pd, emitted, l0);
          r := r + 1;
          k := k + 1;
        } else if temp > 1 && !(r > 15 && k <= eob) {
          LoopCorrection(p, zz, eob, k, r, bits, pd, emitted, l0);
          bitBuffer[start + br] := temp % 2 == 1;
          br := br + 1;
          assert bitBuffer[start..start + br] == bits + [Mag(p, zz, k) % 2 == 1];
          RunIs();
          assert bitBuffer[..be] == pd.be;
          k := k + 1;
        } else {
          // a ZRL if more than 15 zeros are pending before the last new coefficient, else the new coefficient itself
          var zrl := r > 15 && k <= eob;
          var symbol, sign := if zrl then ZRL else r * 16 + 1, if zrl then [] else [block[Natural(k)] >= 0];
          ghost var g := Group(p.tbl, pd, symbol, sign, bits);
          LoopEmits(ts, p, zz, eob, k, r, bits, pd, emitted, l0, zrl, sign, g);
          AssocEmission(items0, emitted, g);
          ok := EmitRefined(symbol, sign, start, br);
          if !ok {
            return;
          }
          emitted := emitted + g;
          r, k := if zrl then r - 16 else 0, if zrl then k else k + 1;
          start, br := 0, 0;
          RunIs();
        }
      }
      ok := true;
      LoopEnds(p, zz, eob, k, r, bitBuffer[start..start + br], Run(), emitted, l0);
    }

    /** encode_mcu_AC_refine, the restart aside. */
    method EncodeAcRefine(block: seq<int>) returns (ok: bool)
      requires Between() && sc.kind == AcRefine && |block| == DCTSIZE2
      modifies this`put, this`out, this`items, this`eobrun, this`be, counts, bitBuffer
      ensures ok <==> gather || Coded(ts, EncodeRefine(BandOf(sc), Zigzag(block), old(Run())).0)
      ensures ok ==> Valid() && be <= bitBuffer.Length
      ensures ok ==>
        (items, Run()) == (var e := EncodeRefine(BandOf(sc), Zigzag(block), old(Run()));
                                                      (old(items) + e.0, e.1))
    {
      hide *;
      BetweenRun();
      AcSetup();
      ghost var p, zz, pd, items0 := BandOf(sc), Zigzag(block), Run(), items;
      ghost var l := RefineLoop(p, zz, LastNew(p, zz, sc.se), sc.ss, 0, [], pd);
      ghost var pd1 := Pending(l.pd.run + 1, l.pd.be + l.br);
      RefineEnds(ts, p, zz, pd, l, pd1, items0);
      var r, br;
      ok, r, br := EncodeRefineBand(block);
      if !ok {
        return;
      }
      RunIs();
      if r > 0 || br > 0 {
        ok := ExtendRun(br, pd1);
      }
    }

    /** The block joins the run, its correction bits with it; a run that is too long to go on is emitted. */
    method ExtendRun(br: nat, ghost pd1: Pending) returns (ok: bool)
      requires Valid() && sc.kind == AcRefine && be + br <= bitBuffer.Length && eobrun < MAX_EOBRUN
      requires pd1 == Pending(eobrun + 1, bitBuffer[..be] + bitBuffer[be..be + br])
      modifies this`put, this`out, this`items, this`eobrun, this`be, counts
      ensures var full := pd1.run == MAX_EOBRUN || |pd1.be| > MAX_CORR_BITS - DCTSIZE2 + 1;
        && (ok <==> gather || !full || Coded(ts, Flush(BandOf(sc).tbl, pd1)))
        && (ok ==> Valid() && be <= bitBuffer.Length && Run() == (if full then NOTHING else pd1)
                   && items == if full then old(items) + Flush(BandOf(sc).tbl, pd1) else old(items))
    {
      hide *;
      NothingIs();
      eobrun := eobrun + 1;
      assert bitBuffer[..be + br] == bitBuffer[..be] + bitBuffer[be..be + br];
      be := be + br;
      RunIs();
      ok := true;
      if eobrun == MAX_EOBRUN || be > MAX_CORR_BITS - DCTSIZE2 + 1 {
        ok := EmitEobrun();
        if ok {
          RunIs();
          assert bitBuffer[..0] == [];
        }
      }
    }

    lemma NothingIs()
      ensures NOTHING == Pending(0, [])
    {
    }

    /** The routine that start_pass_phuff selected, on one MCU. */
    method EncodeBlocks(mcu: seq<seq<int>>, ghost zz: Mcu) returns (ok: bool)
      requires Between() && (forall i :: 0 <= i < |mcu| ==> |mcu[i]| == DCTSIZE2)
      requires zz == Zigzags(mcu) && FitsMcu(sc.mcu, zz, lastDc) && ValidScan(sc, |ts|)
      modifies this`put, this`out, this`items, this`eobrun, this`be, this`lastDc, counts, bitBuffer
      ensures ok <==> McuInRange(sc, old(lastDc), zz)
                      && (gather || Coded(ts, OneMcu(sc, old(lastDc), old(Run()), zz, |ts|).0))
      ensures ok ==> Valid() && be <= bitBuffer.Length
      ensures ok ==> items == old(items) + OneMcu(sc, old(lastDc), old(Run()), zz, |ts|).0
      ensures ok ==> (lastDc, Run()) == (OneMcu(sc, old(lastDc), old(Run()), zz, |ts|).1, OneMcu(sc, old(lastDc), old(Run()), zz, |ts|).2)
    {
      hide *;
      KindIs();
      RunIs();
      ghost var last0, pd := lastDc, Run();
      if sc.kind == DcFirst {
        OneDcFirst(sc, last0, pd, zz, |ts|);
        ok := EncodeDcFirst(mcu);
        RunIs();
      } else if sc.kind == DcRefine {
        OneDcRefine(ts, sc, last0, pd, zz);
        EncodeDcRefine(mcu);
        ok := true;
        RunIs();
      } else if sc.kind == AcFirst {
        OneAcFirst(sc, last0, pd, zz, |ts|);
        ok := EncodeAcFirst(mcu[0]);
        if ok {
          RunIs();
          assert bitBuffer[..be] == [];
        }
      } else {
        OneAcRefine(sc, last0, pd, zz, |ts|);
        ok := EncodeAcRefine(mcu[0]);
      }
    }

    lemma KindIs()
      requires Between()
      ensures sc.kind in {DcFirst, DcRefine, AcFirst, AcRefine} && Valid() && be <= bitBuffer.Length && DCTSIZE2 == 64
      ensures sc.kind == AcFirst ==> be == 0 && eobrun < MAX_EOBRUN
    {
    }

    lemma BetweenIs()
      requires Valid() && |lastDc| == |sc.mcu.dcTbl| && num < 8 && be <= bitBuffer.Length
      requires PendingFits(sc, Run()) && (sc.kind in {AcFirst, AcRefine} ==> lastDc == NoDc(sc))
      ensures Between()
    {
    }

    lemma BetweenParts()
      requires Between()
      ensures Valid() && |lastDc| == |sc.mcu.dcTbl| && num < 8 && be <= bitBuffer.Length && ValidScan(sc, |ts|)
      ensures PendingFits(sc, Run()) && (sc.kind in {AcFirst, AcRefine} ==> lastDc == NoDc(sc))
    {
    }

    /** encode_mcu: the restart if one is due, the blocks, and the restart counters. */
    method EncodeMcu(mcu: seq<seq<int>>) returns (ok: bool)
      requires Between() && (forall i :: 0 <= i < |mcu| ==> |mcu[i]| == DCTSIZE2) && FitsMcu(sc.mcu, Zigzags(mcu), lastDc)
      modifies this, counts, bitBuffer
      ensures ok <==> StepEncodable(sc, ts, gather, old(State()), Zigzags(mcu))
      ensures ok ==> Between() && State() == EncodeStep(sc, ts, old(State()), Zigzags(mcu))
    {
      hide *;
      BetweenParts();
      ghost var zz, s0 := Zigzags(mcu), State();
      ghost var restart := sc.interval > 0 && togo == 0;
      StateIs();
      if sc.interval > 0 {
        if togo == 0 {
          ok := EmitRestart();
          RestartEncodable(sc, ts, gather, s0, zz);
          if !ok {
            return;
          }
          BetweenParts();
          StateIs();
        }
      }
      ghost var e := State().e;
      StepIs(sc, ts, gather, s0, zz, e, State().(togo := if restart then sc.interval else togo, num := if restart then (num + 1) % 8 else num));
      ok := EncodeBlocks(mcu, zz);
      if !ok {
        return;
      }
      if sc.interval > 0 {
        if togo == 0 {
          togo := sc.interval;
          num := num + 1;
          num := num % 8;
        }
        togo := togo - 1;
      }
      StateIs();
      BetweenIs();
    }

    /** finish_pass_phuff and the part of finish_pass_gather_phuff before the tables are generated. */
    method FinishPass() returns (ok: bool)
      requires Between()
      modifies this`put, this`out, this`items, this`eobrun, this`be, this`base, this`done, counts
      ensures ok <==> gather || Coded(ts, Flush(BandOf(sc).tbl, old(Run())))
      ensures ok && !gather ==> out == Finish(sc, ts, old(State()))
      ensures ok && gather ==> forall t: nat, s: nat :: t < |ts| && s < 257 ==>
        counts[t, s] == Occurrences(AllItems(sc, old(State())), t, s)
    {
      hide Occurrences, Flush, BitWriter.Holds, SegmentBytes, ItemsBits, Coded, PendingFits, ValidScan, Encodes;
      BetweenParts();
      SafeRun(sc, Run());
      ghost var s0 := State();
      ok := EmitEobrun();
      if !ok {
        return;
      }
      assert items == Closed(sc, s0.e);
      if !gather {
        FlushBits();
      }
    }

    /** A whole pass: an output pass writes the bytes of the scan, a statistics pass counts its symbols; it takes an error
        exit exactly if an MCU is out of range or, in an output pass, a symbol has no code. */
    method EncodePass(mcus: seq<seq<seq<int>>>, ghost zzs: seq<Mcu>) returns (ok: bool)
      requires Between() && State() == Begin(sc) && ValidScan(sc, |ts|)
      requires |mcus| == |zzs| && FitsScan(sc, zzs)
      requires forall i :: 0 <= i < |mcus| ==> (forall j :: 0 <= j < |mcus[i]| ==> |mcus[i][j]| == DCTSIZE2) && zzs[i] == Zigzags(mcus[i])
      modifies this, counts, bitBuffer
      ensures |Begin(sc).e.lastDc| == |sc.mcu.dcTbl| && Begin(sc).num < 8
      ensures ok <==> PassInRange(sc, ts, Begin(sc), zzs) && (gather || ScanCoded(sc, ts, zzs))
      ensures ok && !gather ==> out == ScanBytes(sc, ts, zzs, 0)
      ensures ok && gather ==> forall t: nat, s: nat :: t < |ts| && s < 257 ==>
        counts[t, s] == Occurrences(ScanItems(sc, zzs, |ts|), t, s)
    {
      hide *;
      BetweenParts();
      PassStarts(sc, ts);
      ScanCodedIs(sc, ts, zzs);
      PassWritesScan(sc, ts, zzs);
      ghost var whole := EncodeScan(sc, ts, Begin(sc), zzs);
      var i := 0;
      assert zzs[0..] == zzs;
      while i < |mcus|
        invariant 0 <= i <= |mcus| && Between() && |lastDc| == |sc.mcu.dcTbl| && num < 8 && be <= bitBuffer.Length
        invariant FitsScan(sc, zzs[i..]) && |State().e.lastDc| == |sc.mcu.dcTbl| && State().num < 8
        invariant whole == EncodeScan(sc, ts, State(), zzs[i..])
        invariant PassInRange(sc, ts, Begin(sc), zzs) <==> PassInRange(sc, ts, State(), zzs[i..])
        invariant gather || Coded(ts, Emitted(State()))
      {
        ghost var rest := zzs[i..];
        assert rest[0] == zzs[i] && rest[1..] == zzs[i + 1..];
        FitsSplit(sc, rest, 1);
        StateIs();
        PassStep(sc, ts, gather, State(), rest);
        ok := EncodeMcu(mcus[i]);
        if !ok {
          return;
        }
        BetweenParts();
        StateIs();
        i := i + 1;
      }
      assert zzs[i..] == [];
      StateIs();
      PassEnds(sc, ts, State());
      ok := FinishPass();
    }

    lemma StateIs()
      requires be <= bitBuffer.Length
      ensures State() == ScanEnc(base, done, EncState(items, lastDc, Run()), togo, num)
    {
    }
  }
}
