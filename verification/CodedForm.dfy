/** What the entropy encoders send, in numbers: the run/size symbols, the runs of blocks that one EOBn symbol stands for, and
    how precisely a coefficient is known after a scan (sections F.1.2 and G.1.2 of ITU-T T.81). */
module CodedForm {
  import opened BitSeq
  import opened BitStream
  import opened Symbols
  import opened Coefficients
  import opened BlockCoding
  import opened AcFirstCoding
  import opened AcRefineCoding
  import opened DcCoding
  import opened SequentialCoding
  import ScanEncoding

  // ----- symbols -----

  lemma CategoryIs(v: nat, n: nat)
    requires n > 0 && Pow2(n - 1) <= v < Pow2(n)
    ensures NBits(v) == n
  {
    NBitsBelow(v, n);
    NBitsBelow(v, n - 1);
  }

  /** A DC difference is sent as its category, and as many bits. */
  lemma DcForm(tbl: nat, diff: int, n: nat)
    requires n > 0 && Pow2(n - 1) <= Abs(diff) < Pow2(n)
    ensures DcItems(tbl, diff) == [Sym(tbl, n), Raw(ValueBits(diff))] && |ValueBits(diff)| == n
    ensures DcItems(tbl, 0) == [Sym(tbl, 0)]
  {
    CategoryIs(Abs(diff), n);
  }

  /** A coefficient behind r zeros is sent as a symbol 0xF0 for every 16 of them, the number of the remaining zeros and its
      category in one byte, and as many bits as the category says. */
  lemma CoefForm(tbl: nat, r: nat, v: int, n: nat)
    requires n > 0 && Pow2(n - 1) <= Abs(v) < Pow2(n)
    ensures CoefItems(tbl, r, v) == seq(r / 16, _ => Sym(tbl, 0xF0)) + [Sym(tbl, r % 16 * 16 + n), Raw(ValueBits(v))]
    ensures |ValueBits(v)| == n
  {
    CategoryIs(Abs(v), n);
    ZrlForm(tbl, r / 16);
  }

  lemma {:induction false} ZrlForm(tbl: nat, n: nat)
    ensures ZrlItems(tbl, n) == seq(n, _ => Sym(tbl, 0xF0))
  {
    if n > 0 {
      ZrlForm(tbl, n - 1);
    }
  }

  /** A run of blocks without further coefficients is sent as the category of its length in the high half of a symbol, and the
      length without its leading one. */
  lemma EobForm(tbl: nat, run: nat, n: nat)
    requires Pow2(n) <= run < Pow2(n + 1)
    ensures EobItems(tbl, run) == [Sym(tbl, n * 16)] + if n == 0 then [] else [Raw(ToBits(run - Pow2(n), n))]
  {
    CategoryIs(run, n + 1);
    ToBitsMod(run, n);
    ToBitsMod(run - Pow2(n), n);
    DivModUnique(run, 1, Pow2(n), run - Pow2(n));
    DivModUnique(run - Pow2(n), 0, Pow2(n), run - Pow2(n));
  }

  /** The next nonzero coefficient of a band is sent with the number of zeros before it. */
  lemma {:induction false} BandForm(tbl: nat, zz: Block, k: nat, q: nat, se: nat, r: nat)
    requires |zz| == 64 && k <= q <= se < 64 && zz[q] != 0 && forall j :: k <= j < q ==> zz[j] == 0
    ensures AcItems(tbl, zz, k, se, r) == CoefItems(tbl, r + (q - k), zz[q]) + AcItems(tbl, zz, q + 1, se, 0)
    decreases q - k
  {
    hide CoefItems;
    if k < q {
      BandForm(tbl, zz, k + 1, q, se, r + 1);
    }
  }

  lemma {:induction false} EndsInZero(zz: Block, k: nat, r: nat)
    requires |zz| == 64 && k <= 64
    ensures TrailingZeros(zz, k, 63, r) > 0 <==> if k == 64 then r > 0 else zz[63] == 0
    decreases 64 - k
  {
    if k < 64 {
      EndsInZero(zz, k + 1, if zz[k] == 0 then r + 1 else 0);
    }
  }

  /** A block of a sequential scan is sent as the difference of its DC value to that of the component's block before it, its AC
      coefficients, and a symbol 0 if the last one is zero; each with the tables of its component. */
  lemma BlockForm(m: McuSpec, mcu: seq<Block>, lastDc: seq<int>, i: nat, n: nat)
    requires ValidMcu(m, n) && FitsMcu(m, mcu, lastDc) && i < |mcu|
    ensures var ci, zz := m.membership[i], mcu[i];
      EncodeMcu(m, mcu, lastDc, i, n).0 ==
        DcItems(m.dcTbl[ci], zz[0] - lastDc[ci]) + AcItems(m.acTbl[ci], zz, 1, 63, 0)
        + (if zz[63] == 0 then [Sym(m.acTbl[ci], 0)] else []) + EncodeMcu(m, mcu, lastDc[ci := zz[0]], i + 1, n).0
  {
    hide AcItems, DcItems, TrailingZeros;
    EndsInZero(mcu[i], 1, 0);
  }

  /** The DC values of the blocks from j on, each as the difference to the block of the same component before it. */
  function Differences(m: McuSpec, al: nat, mcu: seq<Block>, lastDc: seq<int>, i: nat, j: nat, n: nat): seq<Item>
    requires ValidMcu(m, n) && FitsMcu(m, mcu, lastDc) && i <= j <= |mcu|
    decreases |mcu| - j
  {
    if j == |mcu| then [] else
      DcItems(m.dcTbl[m.membership[j]], Asr(mcu[j][0], al) - ScanEncoding.Prediction(m, al, mcu, lastDc, i, j))
        + Differences(m, al, mcu, lastDc, i, j + 1, n)
  }

  lemma {:induction false} DifferencesFrom(m: McuSpec, al: nat, mcu: seq<Block>, lastDc: seq<int>, i: nat, j: nat, n: nat)
    requires ValidMcu(m, n) && FitsMcu(m, mcu, lastDc) && i < j <= |mcu|
    ensures Differences(m, al, mcu, lastDc, i, j, n) == Differences(m, al, mcu, lastDc[m.membership[i] := Asr(mcu[i][0], al)], i + 1, j, n)
    decreases |mcu| - j
  {
    hide DcItems, Asr;
    if j < |mcu| {
      DifferencesFrom(m, al, mcu, lastDc, i, j + 1, n);
    }
  }

  /** A first DC scan sends the differences of the shifted values. */
  lemma {:induction false} DcFirstForm(m: McuSpec, al: nat, mcu: seq<Block>, lastDc: seq<int>, i: nat, n: nat)
    requires ValidMcu(m, n) && FitsMcu(m, mcu, lastDc) && i <= |mcu|
    ensures DcCoding.EncodeDcFirst(m, al, mcu, lastDc, i, n).0 == Differences(m, al, mcu, lastDc, i, i, n)
    decreases |mcu| - i
  {
    hide DcItems, Asr;
    if i < |mcu| {
      DcFirstForm(m, al, mcu, lastDc[m.membership[i] := Asr(mcu[i][0], al)], i + 1, n);
      DifferencesFrom(m, al, mcu, lastDc, i, i + 1, n);
    }
  }

  /** Behind the end of a segment's data zero bits are read. */
  lemma BehindEnd(st: Stream, n: nat)
    ensures |st.bits| <= n ==> Take(st, n).0 == Val(st.bits) * Pow2(n - |st.bits|)
    ensures |st.bits| < n ==> Take(st, n).1 == st.(bits := [], starved := true)
    ensures n <= |st.bits| ==> Take(st, n) == (Val(st.bits[..n]), st.(bits := st.bits[n..]))
  {
    if |st.bits| <= n {
      var z := Repeat(false, n - |st.bits|);
      ValConcat(st.bits, z);
      ValZeros(n - |st.bits|);
      assert n == |st.bits| ==> st.bits[..n] == st.bits && st.bits + z == st.bits;
    }
  }

  // ----- runs -----

  /** What a run of n blocks becomes: 0x7FFF blocks at a time, the symbol 0xE0 with 14 ones. */
  function RunItems(tbl: nat, n: nat): seq<Item> {
    if n < 0x7FFF then EobItems(tbl, n) else [Sym(tbl, 0xE0), Raw(Repeat(true, 14))] + RunItems(tbl, n - 0x7FFF)
  }

  lemma {:induction false} AllOnes(n: nat)
    ensures ToBits(Pow2(n) - 1, n) == Repeat(true, n)
  {
    if n > 0 {
      AllOnes(n - 1);
      assert (Pow2(n) - 1) / 2 == Pow2(n - 1) - 1;
    }
  }

  lemma LongestRun(tbl: nat)
    ensures EobItems(tbl, MAX_EOBRUN) == [Sym(tbl, 0xE0), Raw(Repeat(true, 14))] && MAX_EOBRUN == 0x7FFF
  {
    hide EobItems, ToBits;
    Pow2Small();
    assert Pow2(14) == 16384;
    EobForm(tbl, 0x7FFF, 14);
    AllOnes(14);
  }

  /** Blocks whose bands are zero are sent as runs, as few as possible. */
  lemma {:induction false} ZeroBlocks(p: BandSpec, bs: seq<Block>, run: nat)
    requires ValidBand(p) && Blocks(bs) && run < 0x7FFF && forall i :: 0 <= i < |bs| ==> BandZero(p, Shifted(bs[i], p.al))
    ensures SegmentFirst(p, bs, run) == RunItems(p.tbl, run + |bs|)
    decreases |bs|
  {
    hide EobItems, AcItems, TrailingZeros, Repeat, Shifted;
    if |bs| > 0 {
      NoItems(p.tbl, Shifted(bs[0], p.al), p.ss, p.se, 0);
      LongestRun(p.tbl);
      if run + 1 == 0x7FFF {
        ZeroBlocks(p, bs[1..], 0);
      } else {
        ZeroBlocks(p, bs[1..], run + 1);
        assert [] + SegmentFirst(p, bs[1..], run + 1) == SegmentFirst(p, bs[1..], run + 1);
      }
    }
  }

  /** In a refinement scan a block without new coefficients is sent at once only if the run has come to 0x7FFF blocks or more
      than 937 correction bits wait. */
  lemma HeldBack(p: BandSpec, zz: Block, pd: Pending)
    requires ValidBand(p) && |zz| == DCTSIZE2 && forall k :: p.ss <= k <= p.se ==> Mag(p, zz, k) != 1
    ensures var bits := pd.be + Corrections(p, zz, p.ss, p.se + 1);
      EncodeRefine(p, zz, pd) ==
        if pd.run + 1 == 0x7FFF || |bits| > 937 then (EobItems(p.tbl, pd.run + 1) + BitItems(bits), Pending(0, []))
        else ([], Pending(pd.run + 1, bits))
  {
    hide Mag, Corrections, EobItems, BitItems;
    EncodeQuiet(p, zz, pd);
  }

  // ----- precision -----

  /** A DC coefficient sent down to bit al is the largest multiple of 2^al that does not exceed it. */
  lemma DcSentIs(v: int, al: nat) returns (q: int)
    ensures DcSent(v, al) == q * Pow2(al) && q * Pow2(al) <= v < q * Pow2(al) + Pow2(al)
  {
    q := Asr(v, al);
    AsrBounds(v, al);
  }

  /** An AC coefficient sent down to bit al is the multiple of 2^al next to it towards zero. */
  lemma AcSentIs(v: int, al: nat) returns (q: nat)
    ensures Abs(AcSent(v, al)) == q * Pow2(al) && q * Pow2(al) <= Abs(v) < q * Pow2(al) + Pow2(al)
    ensures v >= 0 ==> AcSent(v, al) >= 0
    ensures v <= 0 ==> AcSent(v, al) <= 0
  {
    hide Shr, Pow2;
    q := Shr(Abs(v), al);
    ShrBounds(Abs(v), al);
    AcSentInRange(v, al);
    assert q * Pow2(al) >= 0 by { MulMono(0, q, Pow2(al)); }
  }
}
