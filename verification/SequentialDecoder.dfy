/** The sequential entropy decoder (jdhuff.c): decode_mcu decodes into blocks in place, from a source that may suspend
    it at any byte. */
module SequentialDecoder {
  import opened ByteStream
  import opened BitStream
  import BitReader
  import opened HuffTable
  import opened DerivedTables
  import opened Symbols
  import opened Coefficients
  import opened BlockCoding
  import opened AcFirstCoding
  import opened DcCoding
  import opened ScanCoding
  import opened NaturalOrder
  import MarkerReader
  import opened DecoderLoops
  import opened DecoderSteps
  import opened SequentialCoding

  // ----- block by block -----

  /** The stream and the DC predictions before block i: they do not depend on the blocks. */
  function BlockAt(ts: seq<Table>, m: McuSpec, st: Stream, lastDc: seq<int>, i: nat): (r: (Stream, seq<int>))
    requires ValidMcu(m, |ts|) && |lastDc| == |m.dcTbl| && i <= |m.membership|
    ensures |r.1| == |lastDc| && r.0.marker == st.marker && r.0.next == st.next
    decreases i
  {
    if i == 0 then (st, lastDc) else
      var (s, l) := BlockAt(ts, m, st, lastDc, i - 1);
      var ci := m.membership[i - 1];
      var (diff, s1) := DecodeDc(ts[m.dcTbl[ci]], s);
      (DecodeAc(ts[m.acTbl[ci]], s1, 1, 63).st, l[ci := diff + l[ci]])
  }

  /** What becomes of block i. */
  function BlockResult(ts: seq<Table>, m: McuSpec, st: Stream, lastDc: seq<int>, i: nat, b: Block): (r: Block)
    requires ValidMcu(m, |ts|) && |lastDc| == |m.dcTbl| && i < |m.membership| && |b| == DCTSIZE2
    ensures |r| == DCTSIZE2
  {
    var (s, l) := BlockAt(ts, m, st, lastDc, i);
    var ci := m.membership[i];
    DecodeBlock(ts[m.dcTbl[ci]], ts[m.acTbl[ci]], s, b, l[ci]).0
  }

  /** The blocks from i on decoded one by one. */
  function Results(ts: seq<Table>, m: McuSpec, st: Stream, lastDc: seq<int>, mcu: Mcu, i: nat): (r: Mcu)
    requires ValidMcu(m, |ts|) && FitsMcu(m, mcu, lastDc)
    ensures |r| == |mcu|
    ensures forall j :: 0 <= j < |mcu| ==> r[j] == if j < i then mcu[j] else BlockResult(ts, m, st, lastDc, j, mcu[j])
  {
    seq(|mcu|, j requires 0 <= j < |mcu| => if j < i then mcu[j] else BlockResult(ts, m, st, lastDc, j, mcu[j]))
  }

  lemma {:induction false} McuByBlocks(ts: seq<Table>, m: McuSpec, st: Stream, lastDc: seq<int>, mcu: Mcu, i: nat, s: Stream,
                                       l: seq<int>)
    requires ValidMcu(m, |ts|) && FitsMcu(m, mcu, lastDc) && i <= |mcu| && (s, l) == BlockAt(ts, m, st, lastDc, i)
    ensures FitsMcu(m, mcu, l)
    ensures DecodeMcu(ts, m, s, mcu, l, i)
         == (Results(ts, m, st, lastDc, mcu, i), BlockAt(ts, m, st, lastDc, |mcu|).0, BlockAt(ts, m, st, lastDc, |mcu|).1)
    decreases |mcu| - i
  {
    hide DecodeBlock, BlockAt;
    if i == |mcu| {
      assert Results(ts, m, st, lastDc, mcu, i) == mcu;
    } else {
      var ci := m.membership[i];
      var (b, s1, dc) := DecodeBlock(ts[m.dcTbl[ci]], ts[m.acTbl[ci]], s, mcu[i], l[ci]);
      BlockNext(ts, m, st, lastDc, i, mcu[i], s, l, ci);
      McuByBlocks(ts, m, st, lastDc, mcu[i := b], i + 1, s1, l[ci := dc]);
      assert Results(ts, m, st, lastDc, mcu[i := b], i + 1) == Results(ts, m, st, lastDc, mcu, i);
    }
  }

  /** Decoding block i leads to the state before block i + 1. */
  lemma BlockNext(ts: seq<Table>, m: McuSpec, st: Stream, lastDc: seq<int>, i: nat, b: Block, s: Stream, l: seq<int>, ci: nat)
    requires ValidMcu(m, |ts|) && |lastDc| == |m.dcTbl| && i < |m.membership| && |b| == DCTSIZE2
    requires (s, l) == BlockAt(ts, m, st, lastDc, i) && ci == m.membership[i]
    ensures var x := DecodeBlock(ts[m.dcTbl[ci]], ts[m.acTbl[ci]], s, b, l[ci]);
      (x.1, l[ci := x.2]) == BlockAt(ts, m, st, lastDc, i + 1) && x.0 == BlockResult(ts, m, st, lastDc, i, b)
  {
    hide Decode, DecodeAc, DecodeDc, Store, ToShort;
  }

  // ----- decoding again -----

  /** No coefficient but the first one is at position 0. */
  lemma NotFirst(ws: seq<Write>)
    requires forall i :: 0 <= i < |ws| ==> 1 <= ws[i].pos
    ensures !Touched(ws, 0)
  {
  }

  /** A block that holds its DC coefficient and some of its AC coefficients already decodes to the same block. */
  lemma BlockAgain(dcT: Table, acT: Table, st: Stream, b: Block, lastDc: int, n: nat, dc: int, ws: seq<Write>, c: Block)
    requires |b| == DCTSIZE2 && dc == DecodeDc(dcT, st).0 + lastDc && ws == DecodeAc(acT, DecodeDc(dcT, st).1, 1, 63).writes
    requires n <= |ws| && c == Store(b[0 := ToShort(dc)], ws[..n], 0)
    ensures DecodeBlock(dcT, acT, st, c, lastDc) == DecodeBlock(dcT, acT, st, b, lastDc)
  {
    hide DecodeDc, DecodeAc, ToShort, Store;
    var x := b[0 := ToShort(dc)];
    NotFirst(ws[..n]);
    StoreKeeps(x, ws[..n], 0, 0);
    assert c[0 := ToShort(dc)] == c;
    assert ws[..n] + ws[n..] == ws;
    StoreAgain(x, ws[..n], ws[n..], 0);
  }

  // ----- the decoder -----

  /** One block of decode_mcu. */
  method ReadBlock(data: seq<Byte>, limit: nat, r: BitReader.ReadState, ghost dcT: Table, dcVal: seq<Byte>, dcD: DDerived,
                   ghost acT: Table, acVal: seq<Byte>, acD: DDerived, lastDc: int, block: array<int>, ghost a: BitReader.ReadState)
    returns (r': BitReader.ReadState, dc: int, ok: bool)
    requires BitReader.Valid(data, a) && a.pos <= limit <= |data| && Attempt(data, limit, a, r, true) && BitReader.Valid(data, r)
    requires r.pos <= |data| && block.Length == DCTSIZE2
    requires dcVal == dcT.huffval && Decodes(dcD, dcT) && DCSymbols(dcT) && acVal == acT.huffval && Decodes(acD, acT)
    modifies block
    ensures Attempt(data, limit, a, r', ok)
    ensures ok ==> BitReader.Valid(data, r') && r'.pos <= |data|
    ensures ok ==> (Contents(block), BitReader.View(data, r'), dc)
                   == DecodeBlock(dcT, acT, BitReader.View(data, r), old(Contents(block)), lastDc)
    ensures DecodeBlock(dcT, acT, BitReader.View(data, r), Contents(block), lastDc).0
         == DecodeBlock(dcT, acT, BitReader.View(data, r), old(Contents(block)), lastDc).0
  {
    hide *;
    BlockLength();
    ghost var st0, b0 := BitReader.View(data, r), Contents(block);
    var diff;
    dc := 0;
    diff, r', ok := ReadDiff(data, limit, r, dcT, dcVal, dcD, a);
    if !ok {
      return;
    }
    AttemptValid(data, limit, a, r');
    dc := diff + lastDc;
    ghost var before := block[..];
    ContentsIs(block);
    FirstIs(before, ToShort(dc));
    block[0] := ToShort(dc);
    assert block[..] == before[0 := ToShort(dc)];
    ContentsIs(block);
    ghost var ws := DecodeAc(acT, BitReader.View(data, r'), 1, 63).writes;
    var eob;
    ghost var done;
    BlockIs(dcT, acT, st0, b0, lastDc);
    r', eob, ok, done := ReadBand(data, limit, r', acT, acVal, acD, block, 1, 63, 0, a);
    if ok {
      AttemptValid(data, limit, a, r');
      WholePrefix(ws);
      BlockAgain(dcT, acT, st0, b0, lastDc, |ws|, dc, ws, Contents(block));
    } else {
      BlockAgain(dcT, acT, st0, b0, lastDc, |done|, dc, ws, Contents(block));
    }
  }

  lemma WholePrefix(ws: seq<Write>)
    ensures ws[..|ws|] == ws
  {
  }

  lemma FirstIs(block: seq<int>, v: int)
    requires |block| == DCTSIZE2
    ensures Zigzag(block[0 := v]) == Zigzag(block)[0 := v]
  {
    OrderPermutes();
    ZigzagStore(block, 0, v);
  }

  lemma BlockIs(dcT: Table, acT: Table, st: Stream, b: Block, lastDc: int)
    requires |b| == DCTSIZE2
    ensures var (diff, st1) := DecodeDc(dcT, st); var d := DecodeAc(acT, st1, 1, 63);
      DecodeBlock(dcT, acT, st, b, lastDc) == (Store(b[0 := ToShort(diff + lastDc)], d.writes, 0), d.st, diff + lastDc)
  {
    hide DecodeDc, DecodeAc, Store, ToShort;
  }

  /** The blocks before i are decoded, those from i on are as they were. */
  ghost predicate Halfway(ts: seq<Table>, m: McuSpec, st: Stream, lastDc: seq<int>, zz0: Mcu, i: nat, zz: Mcu)
    requires ValidMcu(m, |ts|) && FitsMcu(m, zz0, lastDc) && i <= |zz0|
  {
    && |zz| == |zz0|
    && (forall j :: 0 <= j < i ==> zz[j] == BlockResult(ts, m, st, lastDc, j, zz0[j]))
    && forall j :: i <= j < |zz| ==> zz[j] == zz0[j]
  }

  /** If each block decodes to the same as before, the MCU does. */
  lemma McuAgain(ts: seq<Table>, m: McuSpec, st: Stream, lastDc: seq<int>, zz0: Mcu, zz: Mcu)
    requires ValidMcu(m, |ts|) && FitsMcu(m, zz0, lastDc) && FitsMcu(m, zz, lastDc)
    requires forall j :: 0 <= j < |zz| ==> BlockResult(ts, m, st, lastDc, j, zz[j]) == BlockResult(ts, m, st, lastDc, j, zz0[j])
    ensures DecodeMcu(ts, m, st, zz, lastDc, 0) == DecodeMcu(ts, m, st, zz0, lastDc, 0)
  {
    hide BlockResult, DecodeMcu, DecodeBlock;
    McuByBlocks(ts, m, st, lastDc, zz0, 0, st, lastDc);
    McuByBlocks(ts, m, st, lastDc, zz, 0, st, lastDc);
    assert Results(ts, m, st, lastDc, zz, 0) == Results(ts, m, st, lastDc, zz0, 0);
  }

  /** A decoded block decodes to itself. */
  lemma ResultAgain(ts: seq<Table>, m: McuSpec, st: Stream, lastDc: seq<int>, j: nat, b: Block)
    requires ValidMcu(m, |ts|) && |lastDc| == |m.dcTbl| && j < |m.membership| && |b| == DCTSIZE2
    ensures BlockResult(ts, m, st, lastDc, j, BlockResult(ts, m, st, lastDc, j, b)) == BlockResult(ts, m, st, lastDc, j, b)
  {
    hide DecodeDc, DecodeAc, ToShort, Store, BlockAt;
    var (s, l) := BlockAt(ts, m, st, lastDc, j);
    var ci := m.membership[j];
    var (diff, s1) := DecodeDc(ts[m.dcTbl[ci]], s);
    var ws := DecodeAc(ts[m.acTbl[ci]], s1, 1, 63).writes;
    WholePrefix(ws);
    BlockAgain(ts[m.dcTbl[ci]], ts[m.acTbl[ci]], s, b, l[ci], |ws|, diff + l[ci], ws, BlockResult(ts, m, st, lastDc, j, b));
  }

  /** What is half decoded when the source suspends decodes to the same MCU later: block i alone is undecided. */
  lemma HalfwayAgain(ts: seq<Table>, m: McuSpec, st: Stream, lastDc: seq<int>, zz0: Mcu, i: nat, zz: Mcu)
    requires ValidMcu(m, |ts|) && FitsMcu(m, zz0, lastDc) && FitsMcu(m, zz, lastDc) && i < |zz0|
    requires Halfway(ts, m, st, lastDc, zz0, i, zz[i := zz0[i]])
    requires BlockResult(ts, m, st, lastDc, i, zz[i]) == BlockResult(ts, m, st, lastDc, i, zz0[i])
    ensures DecodeMcu(ts, m, st, zz, lastDc, 0) == DecodeMcu(ts, m, st, zz0, lastDc, 0)
  {
    hide BlockResult, DecodeMcu;
    forall j | 0 <= j < |zz|
      ensures BlockResult(ts, m, st, lastDc, j, zz[j]) == BlockResult(ts, m, st, lastDc, j, zz0[j])
    {
      if j < i {
        ResultAgain(ts, m, st, lastDc, j, zz0[j]);
        assert zz[i := zz0[i]][j] == zz[j];
      } else if j > i {
        assert zz[i := zz0[i]][j] == zz[j];
      }
    }
    McuAgain(ts, m, st, lastDc, zz0, zz);
  }

  lemma HalfwayStarts(ts: seq<Table>, m: McuSpec, st: Stream, lastDc: seq<int>, zz0: Mcu)
    requires ValidMcu(m, |ts|) && FitsMcu(m, zz0, lastDc)
    ensures Halfway(ts, m, st, lastDc, zz0, 0, zz0) && (st, lastDc) == BlockAt(ts, m, st, lastDc, 0)
    ensures |zz0| == |m.membership| && |m.dcTbl| == |lastDc|
    ensures forall j :: 0 <= j < |zz0| ==> m.membership[j] < |m.dcTbl| && |zz0[j]| == DCTSIZE2
    ensures forall j :: 0 <= j < |m.dcTbl| ==> m.dcTbl[j] < |ts| && m.acTbl[j] < |ts|
    ensures |m.acTbl| == |m.dcTbl|
  {
  }

  /** Block i is decoded, or partly so. */
  lemma HalfwayNext(ts: seq<Table>, m: McuSpec, st: Stream, lastDc: seq<int>, zz0: Mcu, i: nat, zz: Mcu, next: Mcu)
    requires ValidMcu(m, |ts|) && FitsMcu(m, zz0, lastDc) && i < |zz0| && Halfway(ts, m, st, lastDc, zz0, i, zz)
    requires |next| == |zz| && forall j :: 0 <= j < |zz| && j != i ==> next[j] == zz[j]
    ensures zz[i] == zz0[i] && next[i := zz0[i]] == zz
    ensures next[i] == BlockResult(ts, m, st, lastDc, i, zz0[i]) ==> Halfway(ts, m, st, lastDc, zz0, i + 1, next)
  {
    hide BlockResult;
  }

  lemma HalfwayEnds(ts: seq<Table>, m: McuSpec, st: Stream, lastDc: seq<int>, zz0: Mcu, zz: Mcu, s: Stream, l: seq<int>)
    requires ValidMcu(m, |ts|) && FitsMcu(m, zz0, lastDc) && Halfway(ts, m, st, lastDc, zz0, |zz0|, zz)
    requires (s, l) == BlockAt(ts, m, st, lastDc, |zz0|)
    ensures DecodeMcu(ts, m, st, zz0, lastDc, 0) == (zz, s, l)
  {
    hide BlockResult, DecodeMcu, BlockAt;
    assert BlockAt(ts, m, st, lastDc, 0) == (st, lastDc) by { AtStart(ts, m, st, lastDc); }
    McuByBlocks(ts, m, st, lastDc, zz0, 0, st, lastDc);
    assert Results(ts, m, st, lastDc, zz0, 0) == zz;
  }

  lemma AtStart(ts: seq<Table>, m: McuSpec, st: Stream, lastDc: seq<int>)
    requires ValidMcu(m, |ts|) && |lastDc| == |m.dcTbl|
    ensures BlockAt(ts, m, st, lastDc, 0) == (st, lastDc)
  {
  }

  class HuffDecoder {
    const sc: Scan
    const data: seq<Byte>
    ghost const ts: seq<Table>
    const huffvals: seq<seq<Byte>>
    const derived: seq<Option<DDerived>>

    /** bitstate, unread_marker, insufficient_data and the source position. */
    var r: BitReader.ReadState
    var lastDc: seq<int>
    var togo: nat
    var num: nat

    ghost predicate Setup() {
      && sc.kind == Sequential && ValidScan(sc, |ts|) && |derived| == |huffvals| == |ts|
      && forall i :: 0 <= i < |sc.mcu.dcTbl| ==> Ready(sc.mcu.dcTbl[i]) && DCSymbols(ts[sc.mcu.dcTbl[i]]) && Ready(sc.mcu.acTbl[i])
    }

    /** The derived table number t belongs to ts[t]. */
    ghost predicate Ready(t: nat) {
      && t < |ts| && t < |derived| && t < |huffvals|
      && derived[t].Some? && Decodes(derived[t].value, ts[t]) && huffvals[t] == ts[t].huffval
    }

    ghost predicate Valid()
      reads this
    {
      Setup() && BitReader.Valid(data, r) && r.pos <= |data| && |lastDc| == |sc.mcu.dcTbl| && num < 8
    }

    ghost function State(): ScanState
      requires r.pos <= |data|
      reads this
    {
      ScanState(DecState(BitReader.View(data, r), lastDc, 0), togo, num)
    }

    /** start_pass_huff_decoder; derived holds what jpeg_make_d_derived_tbl made of the scan's tables. */
    constructor (sc: Scan, data: seq<Byte>, pos: nat, ghost ts: seq<Table>, huffvals: seq<seq<Byte>>, derived: seq<Option<DDerived>>)
      requires sc.kind == Sequential && ValidScan(sc, |ts|) && |derived| == |huffvals| == |ts| && pos <= |data|
      requires forall i :: 0 <= i < |sc.mcu.dcTbl| ==>
        var t := sc.mcu.dcTbl[i]; derived[t].Some? && Decodes(derived[t].value, ts[t]) && huffvals[t] == ts[t].huffval && DCSymbols(ts[t])
      requires forall i :: 0 <= i < |sc.mcu.acTbl| ==>
        var t := sc.mcu.acTbl[i]; derived[t].Some? && Decodes(derived[t].value, ts[t]) && huffvals[t] == ts[t].huffval
      ensures this.sc == sc && this.data == data && this.ts == ts
      ensures Valid() && r.pos == pos
      ensures State() == ScanState(DecState(StreamAt(data, pos), NoDc(sc), 0), sc.interval, 0)
    {
      hide Decodes, DCSymbols, StreamAt;
      this.sc, this.data, this.ts, this.huffvals, this.derived := sc, data, ts, huffvals, derived;
      r := BitReader.ReadState(pos, 0, 0, 0, false);
      lastDc := seq(|sc.mcu.dcTbl|, _ => 0);
      togo, num := sc.interval, 0;
      new;
      PrependConcat([], [], StreamAt(data, pos));
      assert BitReader.Buffered(r) == [];
      assert lastDc == NoDc(sc);
    }

    lemma Parts()
      requires Valid()
      ensures BitReader.Valid(data, r) && r.pos <= |data| && ValidScan(sc, |ts|) && ValidMcu(sc.mcu, |ts|) && sc.kind == Sequential
      ensures |lastDc| == |sc.mcu.dcTbl| && num < 8
    {
    }

    lemma Tables(ci: nat)
      requires Valid() && ci < |sc.mcu.dcTbl|
      ensures |sc.mcu.acTbl| == |sc.mcu.dcTbl| && Ready(sc.mcu.dcTbl[ci]) && DCSymbols(ts[sc.mcu.dcTbl[ci]]) && Ready(sc.mcu.acTbl[ci])
    {
    }

    lemma ReadyIs(t: nat)
      requires Ready(t)
      ensures t < |ts| && t < |derived| && t < |huffvals| && derived[t].Some?
      ensures Decodes(derived[t].value, ts[t]) && huffvals[t] == ts[t].huffval
    {
    }

    /** The block loop of decode_mcu on a working state. */
    method ReadBlocks(limit: nat, blocks: seq<array<int>>) returns (br: BitReader.ReadState, last: seq<int>, ok: bool)
      requires Valid() && r.pos <= limit <= |data| && BlocksOk(blocks) && FitsMcu(sc.mcu, McuContents(blocks), lastDc)
      modifies blocks
      ensures Attempt(data, limit, r, br, ok) && FitsMcu(sc.mcu, McuContents(blocks), lastDc)
      ensures ValidMcu(sc.mcu, |ts|)
      ensures ok ==> BitReader.Valid(data, br) && br.pos <= |data|
      ensures ok ==> (McuContents(blocks), BitReader.View(data, br), last)
                     == DecodeMcu(ts, sc.mcu, BitReader.View(data, r), old(McuContents(blocks)), lastDc, 0)
      ensures !ok ==>
        DecodeMcu(ts, sc.mcu, BitReader.View(data, r), McuContents(blocks), lastDc, 0)
        == DecodeMcu(ts, sc.mcu, BitReader.View(data, r), old(McuContents(blocks)), lastDc, 0)
    {
      hide *;
      Parts();
      BlockSizes(blocks);
      ghost var m, st, zz0 := sc.mcu, BitReader.View(data, r), McuContents(blocks);
      br, last, ok := r, lastDc, true;
      var blkn := 0;
      HalfwayStarts(ts, m, st, lastDc, zz0);
      AttemptStarts(data, limit, r);
      while blkn < |blocks|
        invariant 0 <= blkn <= |blocks| && ok && |last| == |lastDc|
        invariant Attempt(data, limit, r, br, true) && BitReader.Valid(data, br) && br.pos <= |data|
        invariant (BitReader.View(data, br), last) == BlockAt(ts, m, st, lastDc, blkn)
        invariant Halfway(ts, m, st, lastDc, zz0, blkn, McuContents(blocks))
      {
        var ci := sc.mcu.membership[blkn];
        Tables(ci);
        ReadyIs(sc.mcu.dcTbl[ci]);
        ReadyIs(sc.mcu.acTbl[ci]);
        var dc, ac := sc.mcu.dcTbl[ci], sc.mcu.acTbl[ci];
        ghost var zz, s, l := McuContents(blocks), BitReader.View(data, br), last;
        var v;
        br, v, ok := ReadBlock(data, limit, br, ts[dc], huffvals[dc], derived[dc].value, ts[ac], huffvals[ac], derived[ac].value,
                               last[ci], blocks[blkn], r);
        ghost var next := McuContents(blocks);
        forall j | 0 <= j < |blocks| && j != blkn
          ensures next[j] == zz[j]
        {
          assert blocks[j] != blocks[blkn];
        }
        HalfwayNext(ts, m, st, lastDc, zz0, blkn, zz, next);
        BlockNext(ts, m, st, lastDc, blkn, zz0[blkn], s, l, ci);
        BlockNext(ts, m, st, lastDc, blkn, next[blkn], s, l, ci);
        if !ok {
          FitsAlways(m, zz0, next, lastDc, lastDc);
          HalfwayAgain(ts, m, st, lastDc, zz0, blkn, next);
          return;
        }
        last := last[ci := v];
        blkn := blkn + 1;
      }
      HalfwayEnds(ts, m, st, lastDc, zz0, McuContents(blocks), BitReader.View(data, br), last);
      FitsAlways(m, zz0, McuContents(blocks), lastDc, lastDc);
    }

    lemma StateIs()
      requires r.pos <= |data|
      ensures State() == ScanState(DecState(BitReader.View(data, r), lastDc, 0), togo, num)
    {
    }

    lemma ValidIs()
      requires Setup() && BitReader.Valid(data, r) && r.pos <= |data| && |lastDc| == |sc.mcu.dcTbl| && num < 8
      ensures Valid()
    {
    }

    lemma SetupHolds()
      requires Valid()
      ensures Setup()
    {
    }

    /** process_restart: a fresh state behind the marker; a suspension only drops buffered bits. */
    method ProcessRestart(limit: nat) returns (ok: bool)
      requires Valid() && r.pos <= limit <= |data| && sc.interval > 0 && togo == 0
      modifies this
      ensures Valid() && r.pos <= limit && old(State()).d.st.next <= |data|
      ensures ok ==> State() == Begun(data, sc, old(State()))
      ensures !ok ==> State() == old(State()).(d := old(State()).d.(st := State().d.st)) && State().d.st.next <= |data|
      ensures !ok ==> Restart(data, State().d.st, old(State()).num) == Restart(data, old(State()).d.st, old(State()).num)
      ensures limit == |data| && MarkerReader.Recovers(data, old(State()).d.st, old(State()).num) ==> ok
    {
      hide *;
      Parts();
      SetupHolds();
      StateIs();
      ViewNext(data, r);
      BegunIs(data, sc, State());
      r, num, ok := MarkerReader.ProcessRestart(data, limit, r, num);
      if ok {
        lastDc := seq(|lastDc|, _ => 0);
        NoDcIs(sc, lastDc);
        togo := sc.interval;
      }
      ViewNext(data, r);
      StateIs();
      ValidIs();
    }

    /** The blocks of decode_mcu, unless the data has run out. */
    method DecodeBlocks(limit: nat, blocks: seq<array<int>>) returns (ok: bool)
      requires Valid() && r.pos <= limit <= |data| && BlocksOk(blocks) && FitsMcu(sc.mcu, McuContents(blocks), lastDc)
      modifies this`r, this`lastDc, blocks
      ensures Valid() && r.pos <= limit
      ensures Decoded(sc, ts, old(State()).d, old(McuContents(blocks)), State().d, McuContents(blocks), ok)
      ensures !ok ==> State() == old(State())
      ensures limit == |data| && old(State()).d.st.marker != 0 ==> ok
    {
      hide *;
      Parts();
      SetupHolds();
      StateIs();
      ViewNext(data, r);
      BlockSizes(blocks);
      ghost var d, zz := State().d, McuContents(blocks);
      OneOf(sc, ts, d, zz);
      ok := true;
      if !r.insufficient {
        var br, last;
        br, last, ok := ReadBlocks(limit, blocks);
        OneOf(sc, ts, d, McuContents(blocks));
        if !ok {
          SuspendedReader(data, limit, r, br);
          r := r.(unreadMarker := br.unreadMarker, insufficient := br.insufficient);
        } else {
          AttemptValid(data, limit, r, br);
          DecodedFits(ts, sc.mcu, d.st, zz, lastDc);
          r, lastDc := br, last;
        }
        FitsLengths(sc.mcu, McuContents(blocks), lastDc);
        StateIs();
        ValidIs();
      }
      DecodedIs(sc, ts, d, zz, State().d, McuContents(blocks), ok);
    }

    /** decode_mcu. When the source suspends, decoding again later gives what decoding without suspension would have given;
        a source that delivers everything up to the marker that ends the segment does not suspend. */
    method DecodeMcuInPlace(limit: nat, blocks: seq<array<int>>) returns (ok: bool)
      requires Valid() && r.pos <= limit <= |data| && BlocksOk(blocks) && FitsMcu(sc.mcu, McuContents(blocks), lastDc)
      modifies this, blocks
      ensures Valid() && r.pos <= limit && old(State()).d.st.next <= |data|
      ensures Stepped(data, sc, ts, old(State()), old(McuContents(blocks)), State(), McuContents(blocks), ok)
      ensures limit == |data| && StepDelivered(data, sc, old(State())) ==> ok
    {
      hide *;
      Parts();
      StateIs();
      ViewNext(data, r);
      BlockSizes(blocks);
      ghost var s0, zz := State(), McuContents(blocks);
      BegunIs(data, sc, s0);
      if sc.interval > 0 {
        if togo == 0 {
          ok := ProcessRestart(limit);
          if !ok {
            SteppedRestart(data, sc, ts, s0, State(), zz);
            return;
          }
        }
      }
      Parts();
      StateIs();
      FitsAlways(sc.mcu, zz, zz, s0.d.lastDc, lastDc);
      ghost var s1 := State();
      ok := DecodeBlocks(limit, blocks);
      Parts();
      StateIs();
      ghost var d := State().d;
      ViewNext(data, r);
      SetupHolds();
      if ok {
        togo := if togo == 0 then 0xFFFF_FFFF else togo - 1;
        DecrementIs(s1.togo);
      }
      ValidIs();
      StateIs();
      SteppedBlocks(data, sc, ts, s0, zz, s1, d, McuContents(blocks), ok, State());
    }
  }

  lemma DecodedFits(ts: seq<Table>, m: McuSpec, st: Stream, zz: Mcu, lastDc: seq<int>)
    requires ValidMcu(m, |ts|) && FitsMcu(m, zz, lastDc)
    ensures FitsMcu(m, DecodeMcu(ts, m, st, zz, lastDc, 0).0, DecodeMcu(ts, m, st, zz, lastDc, 0).2)
  {
    hide DecodeMcu, FitsMcu;
  }

  /** A decode_mcu call, restart processing aside, of a sequential scan. */
  lemma OneOf(sc: Scan, ts: seq<Table>, d: DecState, mcu: Mcu)
    requires ValidScan(sc, |ts|) && FitsMcu(sc.mcu, mcu, d.lastDc) && sc.kind == Sequential
    ensures ValidMcu(sc.mcu, |ts|)
    ensures d.st.starved ==> DecodeOne(sc, ts, d, mcu) == (mcu, d)
    ensures !d.st.starved ==> var x := DecodeMcu(ts, sc.mcu, d.st, mcu, d.lastDc, 0);
      DecodeOne(sc, ts, d, mcu) == (x.0, d.(st := x.1, lastDc := x.2))
  {
    hide DecodeMcu;
  }
}
