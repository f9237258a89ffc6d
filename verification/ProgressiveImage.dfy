/** Whole images, scan after scan: what the decoder's coefficient arrays hold after every scan of a script
    that validate_script accepts, progressive or sequential (section G.1 of ITU-T T.81). */
module ProgressiveImage {
  import BitSeq
  import ByteStream
  import opened BitStream
  import opened Symbols
  import opened Coefficients
  import opened BlockCoding
  import opened AcFirstCoding
  import opened AcRefineCoding
  import opened DcCoding
  import opened ScanCoding
  import opened ScanScript
  import SequentialCoding
  import SimpleProgression

  /** A block of a component. */
  datatype Ref = Ref(comp: nat, block: nat)

  /** The coefficient arrays of all components. */
  type Image = map<Ref, Block>

  ghost predicate WholeBlocks(img: Image) {
    forall r :: r in img ==> |img[r]| == DCTSIZE2
  }

  // ----- scans in place -----

  function Load(img: Image, refs: seq<Ref>): (mcu: Mcu)
    requires forall i :: 0 <= i < |refs| ==> refs[i] in img
    ensures |mcu| == |refs|
    ensures forall i :: 0 <= i < |refs| ==> mcu[i] == img[refs[i]]
  {
    seq(|refs|, i requires 0 <= i < |refs| => img[refs[i]])
  }

  function Save(img: Image, refs: seq<Ref>, mcu: Mcu): (r: Image)
    requires |mcu| == |refs| && forall i :: 0 <= i < |refs| ==> refs[i] in img
    ensures r.Keys == img.Keys
    ensures forall x :: x in img && x !in refs ==> r[x] == img[x]
  {
    if |refs| == 0 then img else Save(img[refs[0] := mcu[0]], refs[1..], mcu[1..])
  }

  ghost predicate Distinct(refs: seq<Ref>) {
    forall i, j :: 0 <= i < j < |refs| ==> refs[i] != refs[j]
  }

  lemma {:induction false} SaveLoad(img: Image, refs: seq<Ref>, mcu: Mcu)
    requires |mcu| == |refs| && Distinct(refs) && forall i :: 0 <= i < |refs| ==> refs[i] in img
    ensures Load(Save(img, refs, mcu), refs) == mcu
  {
    if |refs| > 0 {
      var img1 := img[refs[0] := mcu[0]];
      SaveLoad(img1, refs[1..], mcu[1..]);
      var r := Save(img1, refs[1..], mcu[1..]);
      assert refs[0] !in refs[1..];
      forall i | 0 <= i < |refs|
        ensures r[refs[i]] == mcu[i]
      {
        if i > 0 {
          assert refs[1..][i - 1] == refs[i];
          assert Load(r, refs[1..])[i - 1] == mcu[1..][i - 1];
        }
      }
    }
  }

  /** The blocks that a scan visits, MCU by MCU. */
  type Layout = seq<seq<Ref>>

  function Cells(layout: Layout): set<Ref> {
    if |layout| == 0 then {} else (set r | r in layout[0]) + Cells(layout[1..])
  }

  /** No block is visited twice. */
  ghost predicate Once(layout: Layout) {
    |layout| == 0 || (Distinct(layout[0]) && (forall r :: r in layout[0] ==> r !in Cells(layout[1..])) && Once(layout[1..]))
  }

  ghost predicate FitsLayout(sc: Scan, img: Image, layout: Layout) {
    && WholeBlocks(img)
    && forall i :: 0 <= i < |layout| ==> |layout[i]| == |sc.mcu.membership| && forall j :: 0 <= j < |layout[i]| ==> layout[i][j] in img
  }

  function Loads(sc: Scan, img: Image, layout: Layout): (mcus: seq<Mcu>)
    requires FitsLayout(sc, img, layout)
    ensures |mcus| == |layout| && FitsScan(sc, mcus)
    ensures forall i :: 0 <= i < |layout| ==> mcus[i] == Load(img, layout[i])
  {
    seq(|layout|, i requires 0 <= i < |layout| => Load(img, layout[i]))
  }

  /** Decoding a scan into the coefficient arrays, one MCU after the other. */
  function DecodeImage(data: seq<ByteStream.Byte>, sc: Scan, ts: seq<Table>, s: ScanState, img: Image, layout: Layout)
    : (r: (Image, ScanState))
    requires ValidScan(sc, |ts|) && FitsLayout(sc, img, layout) && |s.d.lastDc| == |sc.mcu.dcTbl| && s.d.st.next <= |data|
    ensures r.0.Keys == img.Keys && WholeBlocks(r.0)
    decreases |layout|
  {
    if |layout| == 0 then (img, s) else
      var (m, s1) := DecodeStep(data, sc, ts, s, Load(img, layout[0]));
      var img1 := Save(img, layout[0], m);
      SaveWhole(img, layout[0], m);
      DecodeImage(data, sc, ts, s1, img1, layout[1..])
  }

  lemma {:induction false} SaveWhole(img: Image, refs: seq<Ref>, mcu: Mcu)
    requires |mcu| == |refs| && forall i :: 0 <= i < |refs| ==> refs[i] in img
    requires WholeBlocks(img) && Blocks(mcu)
    ensures WholeBlocks(Save(img, refs, mcu))
  {
    if |refs| > 0 {
      SaveWhole(img[refs[0] := mcu[0]], refs[1..], mcu[1..]);
    }
  }

  lemma {:induction false} CellsAre(layout: Layout, i: nat, j: nat)
    requires i < |layout| && j < |layout[i]|
    ensures layout[i][j] in Cells(layout)
  {
    if i > 0 {
      CellsAre(layout[1..], i - 1, j);
    }
  }

  /** In place or not: the visited blocks become what decoding their MCUs gives, the others stay. */
  lemma {:induction false} InPlace(data: seq<ByteStream.Byte>, sc: Scan, ts: seq<Table>, s: ScanState, img: Image, layout: Layout)
    requires ValidScan(sc, |ts|) && FitsLayout(sc, img, layout) && |s.d.lastDc| == |sc.mcu.dcTbl| && s.d.st.next <= |data|
    requires Once(layout)
    ensures var r, x := DecodeImage(data, sc, ts, s, img, layout), DecodeScan(data, sc, ts, s, Loads(sc, img, layout));
      && Loads(sc, r.0, layout) == x.0 && r.1 == x.1
      && forall c :: c in img && c !in Cells(layout) ==> r.0[c] == img[c]
    decreases |layout|
  {
    hide DecodeStep;
    if |layout| > 0 {
      var mcus := Loads(sc, img, layout);
      var (m, s1) := DecodeStep(data, sc, ts, s, mcus[0]);
      var img1 := Save(img, layout[0], m);
      SaveWhole(img, layout[0], m);
      InPlace(data, sc, ts, s1, img1, layout[1..]);
      Untouched(sc, img, img1, layout);
      SaveLoad(img, layout[0], m);
      var r := DecodeImage(data, sc, ts, s1, img1, layout[1..]).0;
      FirstStays(sc, img1, r, layout);
    }
  }

  lemma Untouched(sc: Scan, img: Image, img1: Image, layout: Layout)
    requires |layout| > 0 && FitsLayout(sc, img, layout) && FitsLayout(sc, img1, layout) && Once(layout)
    requires img.Keys == img1.Keys && forall x :: x in img && x !in layout[0] ==> img1[x] == img[x]
    ensures Loads(sc, img1, layout[1..]) == Loads(sc, img, layout)[1..]
  {
    forall i | 0 <= i < |layout| - 1
      ensures Load(img1, layout[1..][i]) == Load(img, layout[i + 1])
    {
      var refs := layout[i + 1];
      forall j | 0 <= j < |refs|
        ensures img1[refs[j]] == img[refs[j]]
      {
        CellsAre(layout[1..], i, j);
      }
    }
  }

  lemma FirstStays(sc: Scan, img1: Image, r: Image, layout: Layout)
    requires |layout| > 0 && FitsLayout(sc, img1, layout) && FitsLayout(sc, r, layout) && Once(layout)
    requires img1.Keys == r.Keys && forall c :: c in img1 && c !in Cells(layout[1..]) ==> r[c] == img1[c]
    ensures Loads(sc, r, layout) == [Load(img1, layout[0])] + Loads(sc, r, layout[1..])
  {
    OnlyOnce(layout);
    hide Cells, Once;
    LoadSame(img1, r, layout[0], Cells(layout[1..]));
  }

  lemma OnlyOnce(layout: Layout)
    requires |layout| > 0 && Once(layout)
    ensures forall c :: c in layout[0] ==> c !in Cells(layout[1..])
  {
  }

  lemma LoadSame(img1: Image, r: Image, refs: seq<Ref>, cells: set<Ref>)
    requires img1.Keys == r.Keys && forall j :: 0 <= j < |refs| ==> refs[j] in img1
    requires forall c :: c in img1 && c !in cells ==> r[c] == img1[c]
    requires forall c :: c in refs ==> c !in cells
    ensures Load(r, refs) == Load(img1, refs)
  {
    forall j | 0 <= j < |refs|
      ensures r[refs[j]] == img1[refs[j]]
    {
      assert refs[j] in refs;
    }
  }

  // ----- what is known after each scan -----

  /** Coefficient k once it has been sent down to bit position pos; nothing is known of it before. */
  function Known(v: int, k: nat, pos: int): int {
    if pos < 0 then 0 else if k == 0 then DcSent(v, pos) else AcSent(v, pos)
  }

  ghost predicate KnownBlock(zz: Block, b: Block, pos: seq<int>) {
    && |zz| == |b| == |pos| == DCTSIZE2
    && forall k :: 0 <= k < DCTSIZE2 ==> b[k] == Known(zz[k], k, pos[k])
  }

  /** The real blocks hold everything that the positions say; of padding blocks nothing is claimed. */
  ghost predicate Holds(orig: Image, img: Image, visible: set<Ref>, pos: BitPos) {
    && orig.Keys == img.Keys && visible <= orig.Keys && WholeBlocks(orig) && WholeBlocks(img) && Shape(pos)
    && forall r :: r in visible ==> r.comp < |pos| && KnownBlock(orig[r], img[r], pos[r.comp])
  }

  /** All values are JCOEFs; AC values of real blocks have at most MAX_COEF_BITS magnitude bits. */
  ghost predicate Storable(orig: Image, visible: set<Ref>) {
    && visible <= orig.Keys
    && (forall r :: r in orig ==> ShortBlock(orig[r]))
    && forall r, k :: r in visible && 1 <= k < DCTSIZE2 ==> NBits(Abs(orig[r][k])) <= MAX_COEF_BITS
  }

  /** One scan of a file: its script entry, geometry, tables and place. */
  datatype Step = Step(info: ScanInfo, layout: Layout, mcu: McuSpec, interval: nat, ts: seq<Table>, at: nat, marker: nat)

  /** A sequential scan: all bits of whole blocks. */
  predicate WholeScan(info: ScanInfo) {
    FullBand(info) && info.ah == 0 && info.al == 0
  }

  /** The parameters are those of a progressive or of a sequential scan. */
  predicate ScanParameters(info: ScanInfo) {
    ParametersOk(info) || WholeScan(info)
  }

  /** The routine that the start_pass methods of the entropy coders select. */
  function KindOf(info: ScanInfo): Kind {
    if FullBand(info) then Sequential
    else if info.ss == 0 then (if info.ah == 0 then DcFirst else DcRefine)
    else (if info.ah == 0 then AcFirst else AcRefine)
  }

  function ScanOf(s: Step): Scan
    requires ScanParameters(s.info)
  {
    Scan(KindOf(s.info), s.mcu, s.info.ss, s.info.se, s.info.al, s.interval)
  }

  /** The scan visits every real block of its components, each block once; an AC scan visits no others. */
  ghost predicate Covers(s: Step, orig: Image, visible: set<Ref>)
    requires ScanParameters(s.info)
  {
    && FitsLayout(ScanOf(s), orig, s.layout) && Once(s.layout)
    && (forall c :: c in Cells(s.layout) ==> c.comp in s.info.components)
    && (forall c :: c in visible && c.comp in s.info.components ==> c in Cells(s.layout))
    && (s.info.ss > 0 ==> Cells(s.layout) <= visible)
  }

  /** The MCU structure that per_scan_setup makes: an AC scan has one block per MCU. */
  ghost predicate Structured(s: Step) {
    && ValidMcu(s.mcu, |s.ts|) && |s.mcu.dcTbl| == |s.info.components|
    && (|s.info.components| == 1 && s.info.ss > 0 ==> s.mcu.membership == [0])
  }

  /** The bytes of the scan stand in the file, and every symbol in it has a code. */
  ghost predicate Written(data: seq<ByteStream.Byte>, s: Step, orig: Image)
    requires ScanParameters(s.info) && FitsLayout(ScanOf(s), orig, s.layout) && ValidScan(ScanOf(s), |s.ts|)
  {
    var sc, mcus := ScanOf(s), Loads(ScanOf(s), orig, s.layout);
    && s.at <= |data|
    && ScanCoded(sc, s.ts, mcus)
    && ScanAt(data, s.at, ScanBytes(sc, s.ts, mcus, 0), s.marker)
  }

  /** Everything that is asked of a scan. */
  ghost predicate StepOk(data: seq<ByteStream.Byte>, s: Step, orig: Image, visible: set<Ref>) {
    && ScanParameters(s.info) && Structured(s) && ValidScan(ScanOf(s), |s.ts|)
    && Covers(s, orig, visible)
    && Written(data, s, orig)
  }

  lemma StepReadable(data: seq<ByteStream.Byte>, s: Step, orig: Image, visible: set<Ref>)
    requires StepOk(data, s, orig, visible)
    ensures Readable(data, s, orig.Keys)
  {
  }

  /** Decoder state at the start of a scan. */
  function Start(data: seq<ByteStream.Byte>, s: Step): (r: ScanState)
    requires s.at <= |data|
    ensures r.d.st.next <= |data| && |r.d.lastDc| == |s.mcu.dcTbl|
  {
    ScanState(DecState(StreamAt(data, s.at), seq(|s.mcu.dcTbl|, _ => 0), 0), s.interval, 0)
  }

  /** What reading a scan needs: legal parameters, and a place to store each block. */
  ghost predicate Readable(data: seq<ByteStream.Byte>, s: Step, cells: set<Ref>) {
    && ScanParameters(s.info) && ValidScan(ScanOf(s), |s.ts|) && s.at <= |data|
    && forall i :: 0 <= i < |s.layout| ==>
         |s.layout[i]| == |s.mcu.membership| && forall j :: 0 <= j < |s.layout[i]| ==> s.layout[i][j] in cells
  }

  function DecodeOneScan(data: seq<ByteStream.Byte>, s: Step, img: Image): (r: Image)
    requires Readable(data, s, img.Keys) && WholeBlocks(img)
    ensures r.Keys == img.Keys && WholeBlocks(r)
  {
    DecodeImage(data, ScanOf(s), s.ts, Start(data, s), img, s.layout).0
  }

  // ----- one scan -----

  lemma {:induction false} CellOf(layout: Layout, c: Ref) returns (i: nat, j: nat)
    requires c in Cells(layout)
    ensures i < |layout| && j < |layout[i]| && layout[i][j] == c
  {
    if c in layout[0] {
      i := 0;
      j :| 0 <= j < |layout[0]| && layout[0][j] == c;
    } else {
      i, j := CellOf(layout[1..], c);
      i := i + 1;
    }
  }

  /** Shifting a coefficient does not add magnitude bits. */
  lemma ShiftedBits(v: int, al: nat)
    requires NBits(Abs(v)) <= MAX_COEF_BITS
    ensures NBits(Abs(TowardZero(v, al))) <= MAX_COEF_BITS
  {
    ShiftedNBits(Abs(v), al);
  }

  lemma {:induction false} ShiftedNBits(v: nat, al: nat)
    ensures NBits(BitSeq.Shr(v, al)) <= NBits(v)
    decreases al
  {
    if al > 0 {
      ShiftedNBits(v / 2, al - 1);
    }
  }

  /** The blocks of one MCU are ready for the scan. */
  lemma McuReady(s: Step, orig: Image, img: Image, visible: set<Ref>, pos: BitPos, refs: seq<Ref>)
    requires ParametersOk(s.info) && Structured(s) && ValidScan(ScanOf(s), |s.ts|)
    requires Holds(orig, img, visible, pos) && Storable(orig, visible) && ScanOk(s.info, pos)
    requires |refs| == |s.mcu.membership| && forall j :: 0 <= j < |refs| ==> refs[j] in orig
    requires s.info.ss > 0 ==> forall j :: 0 <= j < |refs| ==> refs[j] in visible && refs[j].comp in s.info.components
    ensures Ready(ScanOf(s), Load(orig, refs), Load(img, refs))
  {
    hide NBits, AcSent, DcSent, Asr;
    var mcu, before := Load(orig, refs), Load(img, refs);
    assert ShortBlocks(mcu);
    if s.info.ss > 0 {
      forall j | 0 <= j < |refs|
        ensures s.info.ah == 0 ==> BandInRange(Shifted(mcu[j], s.info.al), s.info.ss, s.info.se)
                                   && BandZero(BandOf(ScanOf(s)), before[j])
        ensures s.info.ah > 0 ==> before[j] == Mixed(BandOf(ScanOf(s)), mcu[j], before[j], s.info.ss)
      {
        var i :| 0 <= i < |s.info.components| && s.info.components[i] == refs[j].comp;
        assert ComponentOk(s.info, pos[refs[j].comp]);
        BandReady(s.info, BandOf(ScanOf(s)), orig[refs[j]], img[refs[j]], pos[refs[j].comp]);
      }
    }
  }

  lemma BandReady(info: ScanInfo, p: BandSpec, zz: Block, b: Block, last: seq<int>)
    requires ParametersOk(info) && info.ss > 0 && p.ss == info.ss && p.se == info.se && p.al == info.al
    requires KnownBlock(zz, b, last) && ComponentOk(info, last)
    requires forall k :: 1 <= k < DCTSIZE2 ==> NBits(Abs(zz[k])) <= MAX_COEF_BITS
    ensures info.ah == 0 ==> BandInRange(Shifted(zz, p.al), p.ss, p.se) && BandZero(p, b)
    ensures info.ah > 0 ==> b == Mixed(p, zz, b, p.ss)
  {
    hide NBits, AcSent, DcSent, TowardZero, Abs;
    forall k | p.ss <= k <= p.se
      ensures NBits(Abs(Shifted(zz, p.al)[k])) <= MAX_COEF_BITS
      ensures info.ah == 0 ==> b[k] == 0
      ensures info.ah > 0 ==> b[k] == AcSent(zz[k], p.al + 1)
    {
      assert CoefOk(info, last[k]);
      ShiftedBits(zz[k], p.al);
    }
  }

  /** What the scan makes of one block is what is known at its new bit positions. */
  lemma BlockKnown(info: ScanInfo, p: BandSpec, zz: Block, b: Block, last: seq<int>)
    requires ParametersOk(info) && p.ss == info.ss && p.se == info.se && p.al == info.al
    requires KnownBlock(zz, b, last) && ComponentOk(info, last) && ShortBlock(zz)
    ensures info.ss > 0 ==> KnownBlock(zz, BandSent(p, zz, b), NextOf(info, last, DCTSIZE2))
    ensures info.ss == 0 && info.ah == 0 ==> KnownBlock(zz, b[0 := DcSent(zz[0], p.al)], NextOf(info, last, DCTSIZE2))
    ensures info.ss == 0 && info.ah > 0 ==>
        KnownBlock(zz, b[0 := RefinedDc(zz[0], b[0], p.al)], NextOf(info, last, DCTSIZE2))
  {
    hide NBits, AcSent, DcSent, RefinedDc;
    if info.ss == 0 && info.ah > 0 {
      assert CoefOk(info, last[0]);
      assert b[0] == DcSent(zz[0], p.al + 1);
      OrSent(zz[0], p.al);
    }
  }

  /** What the scan makes of the blocks of one MCU. */
  lemma McuKnown(s: Step, orig: Image, img: Image, visible: set<Ref>, pos: BitPos, refs: seq<Ref>, j: nat)
    requires ParametersOk(s.info) && Structured(s) && ValidScan(ScanOf(s), |s.ts|)
    requires Holds(orig, img, visible, pos) && Storable(orig, visible) && ScanOk(s.info, pos)
    requires |refs| == |s.mcu.membership| && forall j :: 0 <= j < |refs| ==> refs[j] in orig
    requires j < |refs| && refs[j] in visible && refs[j].comp in s.info.components
    ensures KnownBlock(orig[refs[j]], Sent(ScanOf(s), Load(orig, refs), Load(img, refs))[j], NextPos(s.info, pos)[refs[j].comp])
  {
    hide NBits, AcSent, DcSent, RefinedDc, BandSent, KnownBlock, ShortBlock;
    var i :| 0 <= i < |s.info.components| && s.info.components[i] == refs[j].comp;
    assert ComponentOk(s.info, pos[refs[j].comp]);
    BlockKnown(s.info, BandOf(ScanOf(s)), orig[refs[j]], img[refs[j]], pos[refs[j].comp]);
  }

  /** A scan whose MCUs are ready leaves in the image what it sends, and everything else alone. */
  lemma ScanStored(data: seq<ByteStream.Byte>, s: Step, orig: Image, img: Image, visible: set<Ref>)
    requires StepOk(data, s, orig, visible) && orig.Keys == img.Keys && WholeBlocks(img)
    requires ScanParameters(s.info) && FitsLayout(ScanOf(s), orig, s.layout) && FitsLayout(ScanOf(s), img, s.layout)
    requires AllReady(ScanOf(s), Loads(ScanOf(s), orig, s.layout), Loads(ScanOf(s), img, s.layout))
    ensures Readable(data, s, img.Keys) && FitsLayout(ScanOf(s), DecodeOneScan(data, s, img), s.layout)
    ensures Loads(ScanOf(s), DecodeOneScan(data, s, img), s.layout)
         == AllSent(ScanOf(s), Loads(ScanOf(s), orig, s.layout), Loads(ScanOf(s), img, s.layout))
    ensures forall c :: c in img && c !in Cells(s.layout) ==> DecodeOneScan(data, s, img)[c] == img[c]
  {
    hide Ready, Sent, ScanBytes, ScanCoded, StreamAt, DecodeScan, DecodeImage, ScanParameters, KindOf, ValidScan, Cells, Once, Loads;
    var sc := ScanOf(s);
    var end := ScanRoundTrip(data, s.at, sc, s.ts, Loads(sc, orig, s.layout), Loads(sc, img, s.layout), 0, s.marker);
    InPlace(data, sc, s.ts, Start(data, s), img, s.layout);
  }

  /** So block j of MCU i is what the scan sends of it. */
  lemma StoredAt(sc: Scan, orig: Image, img: Image, r: Image, layout: Layout, i: nat, j: nat)
    requires FitsLayout(sc, orig, layout) && FitsLayout(sc, img, layout) && FitsLayout(sc, r, layout)
    requires Loads(sc, r, layout) == AllSent(sc, Loads(sc, orig, layout), Loads(sc, img, layout))
    requires i < |layout| && j < |layout[i]|
    ensures FitsOne(sc, Load(orig, layout[i])) && FitsOne(sc, Load(img, layout[i])) && layout[i][j] in r
    ensures r[layout[i][j]] == Sent(sc, Load(orig, layout[i]), Load(img, layout[i]))[j]
  {
    hide Sent;
    assert Loads(sc, r, layout)[i] == Load(r, layout[i]);
    assert Load(r, layout[i])[j] == r[layout[i][j]];
  }

  lemma StepFits(data: seq<ByteStream.Byte>, s: Step, orig: Image, img: Image, visible: set<Ref>)
    requires StepOk(data, s, orig, visible) && orig.Keys == img.Keys && WholeBlocks(img)
    ensures FitsLayout(ScanOf(s), orig, s.layout) && FitsLayout(ScanOf(s), img, s.layout) && Structured(s)
    ensures ScanParameters(s.info) && Covers(s, orig, visible) && ValidScan(ScanOf(s), |s.ts|)
  {
    hide ValidScan, KindOf;
  }

  lemma ScanReady(data: seq<ByteStream.Byte>, s: Step, orig: Image, img: Image, visible: set<Ref>, pos: BitPos)
    requires StepOk(data, s, orig, visible) && Storable(orig, visible) && Holds(orig, img, visible, pos) && ScanOk(s.info, pos)
    requires FitsLayout(ScanOf(s), orig, s.layout) && FitsLayout(ScanOf(s), img, s.layout)
    ensures AllReady(ScanOf(s), Loads(ScanOf(s), orig, s.layout), Loads(ScanOf(s), img, s.layout))
  {
    ParametersOf(s.info, pos);
    StepFits(data, s, orig, img, visible);
    hide StepOk, Ready, ScanOk, Storable, KindOf, ValidScan, FitsOne, ParametersOk, Structured, Holds;
    forall i | 0 <= i < |s.layout|
      ensures Ready(ScanOf(s), Loads(ScanOf(s), orig, s.layout)[i], Loads(ScanOf(s), img, s.layout)[i])
    {
      LayoutCells(s, orig, visible, i);
      McuReady(s, orig, img, visible, pos, s.layout[i]);
    }
  }

  /** What the scan has stored of a real block of its components. */
  lemma KnownAt(data: seq<ByteStream.Byte>, s: Step, orig: Image, img: Image, r: Image, visible: set<Ref>, pos: BitPos, c: Ref)
    requires StepOk(data, s, orig, visible) && Storable(orig, visible) && Holds(orig, img, visible, pos) && ScanOk(s.info, pos)
    requires FitsLayout(ScanOf(s), orig, s.layout) && FitsLayout(ScanOf(s), img, s.layout) && FitsLayout(ScanOf(s), r, s.layout)
    requires Loads(ScanOf(s), r, s.layout)
          == AllSent(ScanOf(s), Loads(ScanOf(s), orig, s.layout), Loads(ScanOf(s), img, s.layout))
    requires c in visible && c.comp in s.info.components
    ensures c in orig && c in r && c.comp < |pos| && KnownBlock(orig[c], r[c], NextPos(s.info, pos)[c.comp])
  {
    ParametersOf(s.info, pos);
    StepFits(data, s, orig, img, visible);
    hide StepOk, Ready, Sent, ScanOk, Storable, KnownBlock, KindOf, ValidScan, FitsOne, ParametersOk, Structured;
    var i, j := CellOf(s.layout, c);
    McuKnown(s, orig, img, visible, pos, s.layout[i], j);
    StoredAt(ScanOf(s), orig, img, r, s.layout, i, j);
  }

  /** Other components are as they were. */
  lemma HoldsNext(info: ScanInfo, orig: Image, img: Image, r: Image, visible: set<Ref>, pos: BitPos)
    requires Holds(orig, img, visible, pos) && r.Keys == img.Keys && WholeBlocks(r)
    requires forall c :: c in visible && c.comp in info.components ==> c in orig && c.comp < |pos| && KnownBlock(orig[c], r[c], NextPos(info, pos)[c.comp])
    requires forall c :: c in visible && c.comp !in info.components ==> r[c] == img[c]
    ensures Holds(orig, r, visible, NextPos(info, pos))
  {
    hide KnownBlock;
  }

  lemma CoversIs(s: Step, orig: Image, visible: set<Ref>)
    requires ScanParameters(s.info) && Covers(s, orig, visible)
    ensures forall c :: c in Cells(s.layout) ==> c.comp in s.info.components
  {
    hide ScanParameters, FitsLayout, Once;
  }

  /** One legal scan: the decoder's image holds what the new positions say. */
  lemma OneScan(data: seq<ByteStream.Byte>, s: Step, orig: Image, img: Image, visible: set<Ref>, pos: BitPos)
    requires StepOk(data, s, orig, visible) && Storable(orig, visible)
    requires Holds(orig, img, visible, pos) && ScanOk(s.info, pos)
    ensures Readable(data, s, img.Keys)
    ensures Holds(orig, DecodeOneScan(data, s, img), visible, NextPos(s.info, pos))
  {
    hide *;
    HoldsIs(orig, img, visible, pos);
    StepFits(data, s, orig, img, visible);
    CoversIs(s, orig, visible);
    ScanReady(data, s, orig, img, visible, pos);
    ScanStored(data, s, orig, img, visible);
    var r := DecodeOneScan(data, s, img);
    forall c | c in visible && c.comp in s.info.components
      ensures c in orig && c.comp < |pos| && KnownBlock(orig[c], r[c], NextPos(s.info, pos)[c.comp])
    {
      KnownAt(data, s, orig, img, r, visible, pos, c);
    }
    HoldsNext(s.info, orig, img, r, visible, pos);
  }

  lemma ParametersOf(info: ScanInfo, pos: BitPos)
    requires Shape(pos) && ScanOk(info, pos)
    ensures ParametersOk(info) && |info.components| > 0
  {
    hide ComponentOk;
  }

  lemma LayoutCells(s: Step, orig: Image, visible: set<Ref>, i: nat)
    requires ScanParameters(s.info) && Covers(s, orig, visible) && i < |s.layout|
    ensures forall j :: 0 <= j < |s.layout[i]| ==> s.layout[i][j] in orig && s.layout[i][j].comp in s.info.components
    ensures s.info.ss > 0 ==> forall j :: 0 <= j < |s.layout[i]| ==> s.layout[i][j] in visible
  {
    forall j | 0 <= j < |s.layout[i]|
      ensures s.layout[i][j] in Cells(s.layout)
    {
      CellsAre(s.layout, i, j);
    }
  }

  // ----- one sequential scan -----

  /** The blocks of components that have not been sent are zero, padding included. */
  ghost predicate UnsentZero(img: Image, pos: BitPos) {
    forall r :: r in img && r.comp < |pos| && UnsentYet(pos[r.comp]) ==> img[r] == ZeroBlock()
  }

  function ZeroBlock(): (b: Block)
    ensures |b| == DCTSIZE2 && forall k :: 0 <= k < DCTSIZE2 ==> b[k] == 0
  {
    seq(DCTSIZE2, _ => 0)
  }

  ghost predicate UnsentYet(last: seq<int>) {
    |last| == DCTSIZE2 && forall k :: 0 <= k < DCTSIZE2 ==> last[k] == -1
  }

  /** The components of the scan belong to the image and have not been sent yet. */
  ghost predicate FirstTime(info: ScanInfo, pos: BitPos) {
    && WholeScan(info) && ComponentsOk(info, |pos|)
    && forall i :: 0 <= i < |info.components| ==> UnsentYet(pos[info.components[i]])
  }

  lemma WholeReady(s: Step, orig: Image, img: Image, pos: BitPos, refs: seq<Ref>)
    requires WholeScan(s.info) && FirstTime(s.info, pos) && Storable(orig, orig.Keys)
    requires orig.Keys == img.Keys && WholeBlocks(orig) && WholeBlocks(img) && UnsentZero(img, pos)
    requires |refs| == |s.mcu.membership|
    requires forall j :: 0 <= j < |refs| ==> refs[j] in orig && refs[j].comp in s.info.components
    ensures Ready(ScanOf(s), Load(orig, refs), Load(img, refs))
  {
    hide NBits;
    var mcu, before := Load(orig, refs), Load(img, refs);
    forall j | 0 <= j < |refs|
      ensures SequentialCoding.InRange(mcu[j]) && before[j] == ZeroBlock()
    {
      var i :| 0 <= i < |s.info.components| && s.info.components[i] == refs[j].comp;
    }
  }

  /** A component that has not been sent is sent completely. */
  lemma WholeKnown(info: ScanInfo, zz: Block, last: seq<int>)
    requires WholeScan(info) && |zz| == |last| == DCTSIZE2
    ensures KnownBlock(zz, zz, NextOf(info, last, DCTSIZE2))
  {
    hide AcSent, DcSent;
    forall k | 0 <= k < DCTSIZE2
      ensures zz[k] == Known(zz[k], k, 0)
    {
      SentAtZero(zz[k]);
    }
  }

  lemma WholeScanReady(data: seq<ByteStream.Byte>, s: Step, orig: Image, img: Image, visible: set<Ref>, pos: BitPos)
    requires StepOk(data, s, orig, visible) && FirstTime(s.info, pos) && Storable(orig, orig.Keys)
    requires orig.Keys == img.Keys && WholeBlocks(img) && UnsentZero(img, pos)
    requires FitsLayout(ScanOf(s), orig, s.layout) && FitsLayout(ScanOf(s), img, s.layout)
    ensures AllReady(ScanOf(s), Loads(ScanOf(s), orig, s.layout), Loads(ScanOf(s), img, s.layout))
  {
    StepFits(data, s, orig, img, visible);
    hide StepOk, Ready, Storable, ValidScan, FitsOne, ScanParameters, Structured, UnsentZero;
    forall i | 0 <= i < |s.layout|
      ensures Ready(ScanOf(s), Loads(ScanOf(s), orig, s.layout)[i], Loads(ScanOf(s), img, s.layout)[i])
    {
      LayoutCells(s, orig, visible, i);
      WholeReady(s, orig, img, pos, s.layout[i]);
    }
  }

  lemma WholeKnownAt(data: seq<ByteStream.Byte>, s: Step, orig: Image, img: Image, r: Image, visible: set<Ref>, pos: BitPos, c: Ref)
    requires StepOk(data, s, orig, visible) && FirstTime(s.info, pos) && Shape(pos) && orig.Keys == img.Keys && WholeBlocks(img)
    requires FitsLayout(ScanOf(s), orig, s.layout) && FitsLayout(ScanOf(s), img, s.layout) && FitsLayout(ScanOf(s), r, s.layout)
    requires Loads(ScanOf(s), r, s.layout)
          == AllSent(ScanOf(s), Loads(ScanOf(s), orig, s.layout), Loads(ScanOf(s), img, s.layout))
    requires c in visible && c.comp in s.info.components
    ensures c in orig && c in r && c.comp < |pos| && KnownBlock(orig[c], r[c], NextPos(s.info, pos)[c.comp])
  {
    StepFits(data, s, orig, img, visible);
    hide StepOk, Ready, Sent, KnownBlock, ValidScan, FitsOne, ScanParameters, Structured;
    var i, j := CellOf(s.layout, c);
    StoredAt(ScanOf(s), orig, img, r, s.layout, i, j);
    AllOfMcu(ScanOf(s), Load(orig, s.layout[i]), Load(img, s.layout[i]));
    WholeKnown(s.info, orig[c], pos[c.comp]);
  }

  lemma FirstIs(info: ScanInfo, pos: BitPos)
    requires FirstTime(info, pos)
    ensures WholeScan(info) && ScanParameters(info)
  {
    hide ComponentsOk;
  }

  /** One sequential scan: the decoder's image holds the blocks of its components. */
  lemma OneWholeScan(data: seq<ByteStream.Byte>, s: Step, orig: Image, img: Image, visible: set<Ref>, pos: BitPos)
    requires StepOk(data, s, orig, visible) && FirstTime(s.info, pos) && Storable(orig, orig.Keys)
    requires Holds(orig, img, visible, pos) && UnsentZero(img, pos)
    ensures Readable(data, s, img.Keys)
    ensures Holds(orig, DecodeOneScan(data, s, img), visible, NextPos(s.info, pos))
    ensures UnsentZero(DecodeOneScan(data, s, img), NextPos(s.info, pos))
  {
    hide *;
    HoldsIs(orig, img, visible, pos);
    StepFits(data, s, orig, img, visible);
    FirstIs(s.info, pos);
    CoversIs(s, orig, visible);
    WholeScanReady(data, s, orig, img, visible, pos);
    ScanStored(data, s, orig, img, visible);
    var r := DecodeOneScan(data, s, img);
    StillUnsent(s.info, img, r, Cells(s.layout), pos);
    forall c | c in visible && c.comp in s.info.components
      ensures c in orig && c.comp < |pos| && KnownBlock(orig[c], r[c], NextPos(s.info, pos)[c.comp])
    {
      WholeKnownAt(data, s, orig, img, r, visible, pos, c);
    }
    HoldsNext(s.info, orig, img, r, visible, pos);
  }

  lemma StillUnsent(info: ScanInfo, img: Image, r: Image, cells: set<Ref>, pos: BitPos)
    requires WholeScan(info) && Shape(pos) && UnsentZero(img, pos) && r.Keys == img.Keys
    requires forall c :: c in cells ==> c.comp in info.components
    requires forall c :: c in img && c !in cells ==> r[c] == img[c]
    ensures UnsentZero(r, NextPos(info, pos))
  {
    var next := NextPos(info, pos);
    forall c | c in r && c.comp < |next| && UnsentYet(next[c.comp])
      ensures r[c] == ZeroBlock()
    {
      assert next[c.comp][0] == -1;
    }
  }

  lemma AllOfMcu(sc: Scan, mcu: Mcu, before: Mcu)
    requires sc.kind == Sequential && FitsOne(sc, mcu) && FitsOne(sc, before)
    ensures Sent(sc, mcu, before) == mcu
  {
  }

  // ----- all scans -----

  function Script(steps: seq<Step>): (script: seq<ScanInfo>)
    ensures |script| == |steps| && forall i :: 0 <= i < |steps| ==> script[i] == steps[i].info
  {
    seq(|steps|, i requires 0 <= i < |steps| => steps[i].info)
  }

  ghost predicate StepsOk(data: seq<ByteStream.Byte>, steps: seq<Step>, orig: Image, visible: set<Ref>) {
    forall i :: 0 <= i < |steps| ==> StepOk(data, steps[i], orig, visible)
  }

  ghost predicate AllReadable(data: seq<ByteStream.Byte>, steps: seq<Step>, cells: set<Ref>) {
    forall i :: 0 <= i < |steps| ==> Readable(data, steps[i], cells)
  }

  /** Decoding one scan after the other. */
  function DecodeScans(data: seq<ByteStream.Byte>, steps: seq<Step>, img: Image): (r: Image)
    requires AllReadable(data, steps, img.Keys) && WholeBlocks(img)
    ensures r.Keys == img.Keys && WholeBlocks(r)
    decreases |steps|
  {
    if |steps| == 0 then img else DecodeScans(data, steps[1..], DecodeOneScan(data, steps[0], img))
  }

  lemma StepsReadable(data: seq<ByteStream.Byte>, steps: seq<Step>, orig: Image, visible: set<Ref>)
    requires StepsOk(data, steps, orig, visible)
    ensures AllReadable(data, steps, orig.Keys)
  {
    forall i | 0 <= i < |steps|
      ensures Readable(data, steps[i], orig.Keys)
    {
      StepReadable(data, steps[i], orig, visible);
    }
  }

  /** After any legal sequence of scans every coefficient is known down to the bit it was last sent at. */
  lemma {:induction false} ScansKnown(data: seq<ByteStream.Byte>, steps: seq<Step>, orig: Image, img: Image, visible: set<Ref>,
                                      pos: BitPos)
    requires StepsOk(data, steps, orig, visible) && Storable(orig, visible)
    requires Holds(orig, img, visible, pos) && ScansOk(Script(steps), pos)
    ensures AllReadable(data, steps, img.Keys)
    ensures Holds(orig, DecodeScans(data, steps, img), visible, FinalPos(Script(steps), pos))
    decreases |steps|
  {
    StepsReadable(data, steps, orig, visible);
    hide StepOk, ScanOk, DecodeOneScan, Storable, KnownBlock, NextPos, Readable;
    if |steps| > 0 {
      assert Script(steps)[1..] == Script(steps[1..]);
      OneScan(data, steps[0], orig, img, visible, pos);
      ScansKnown(data, steps[1..], orig, DecodeOneScan(data, steps[0], img), visible, NextPos(steps[0].info, pos));
    }
  }

  /** The coefficient arrays before the first scan. */
  function Blank(orig: Image): (img: Image)
    ensures img.Keys == orig.Keys && WholeBlocks(img)
  {
    map r | r in orig :: seq(DCTSIZE2, _ => 0)
  }

  lemma BlankHolds(orig: Image, visible: set<Ref>, n: nat)
    requires Storable(orig, visible) && forall r :: r in visible ==> r.comp < n
    ensures Holds(orig, Blank(orig), visible, Unsent(n)) && UnsentZero(Blank(orig), Unsent(n))
  {
  }

  /** Progressive round trip: after the first m scans of any script that validate_script accepts, every coefficient of
      every real block equals the original truncated at the bit position it was last sent at. */
  lemma ProgressiveRoundTrip(data: seq<ByteStream.Byte>, steps: seq<Step>, n: nat, orig: Image, visible: set<Ref>, m: nat)
    requires Progressive(Script(steps), n) && m <= |steps|
    requires StepsOk(data, steps[..m], orig, visible) && Storable(orig, visible)
    requires forall r :: r in visible ==> r.comp < n
    ensures AllReadable(data, steps[..m], orig.Keys)
    ensures var img, pos := DecodeScans(data, steps[..m], Blank(orig)), FinalPos(Script(steps)[..m], Unsent(n));
      forall r :: r in visible ==> KnownBlock(orig[r], img[r], pos[r.comp])
  {
    var a, b := Script(steps)[..m], Script(steps)[m..];
    assert a + b == Script(steps) && a == Script(steps[..m]);
    SimpleProgression.ScansOkConcat(a, b, Unsent(n));
    BlankHolds(orig, visible, n);
    hide StepOk, DecodeScans, Storable, ScansOk, FinalPos, KnownBlock, Readable, Unsent;
    ScansKnown(data, steps[..m], orig, Blank(orig), visible, Unsent(n));
  }

  /** After any sequence of sequential scans, each component in one of them. */
  lemma {:induction false} WholeScansKnown(data: seq<ByteStream.Byte>, steps: seq<Step>, orig: Image, img: Image, visible: set<Ref>,
                                           pos: BitPos)
    requires StepsOk(data, steps, orig, visible) && Storable(orig, orig.Keys)
    requires Holds(orig, img, visible, pos) && UnsentZero(img, pos) && FirstTimes(Script(steps), pos)
    ensures AllReadable(data, steps, img.Keys)
    ensures Holds(orig, DecodeScans(data, steps, img), visible, FinalPos(Script(steps), pos))
    decreases |steps|
  {
    hide *;
    StepsReadable(data, steps, orig, visible);
    HoldsIs(orig, img, visible, pos);
    ScanByScan(data, steps, img, pos);
    if |steps| > 0 {
      StepsApart(data, steps, orig, visible);
      FirstTimesApart(steps, pos);
      OneWholeScan(data, steps[0], orig, img, visible, pos);
      WholeScansKnown(data, steps[1..], orig, DecodeOneScan(data, steps[0], img), visible, NextPos(steps[0].info, pos));
    }
  }

  lemma StepsApart(data: seq<ByteStream.Byte>, steps: seq<Step>, orig: Image, visible: set<Ref>)
    requires StepsOk(data, steps, orig, visible) && |steps| > 0
    ensures StepOk(data, steps[0], orig, visible) && StepsOk(data, steps[1..], orig, visible)
  {
    hide StepOk;
  }

  lemma FirstTimesApart(steps: seq<Step>, pos: BitPos)
    requires Shape(pos) && FirstTimes(Script(steps), pos) && |steps| > 0
    ensures FirstTime(steps[0].info, pos) && FirstTimes(Script(steps[1..]), NextPos(steps[0].info, pos))
  {
    hide FirstTime, NextPos;
    assert Script(steps)[1..] == Script(steps[1..]);
  }

  lemma ScanByScan(data: seq<ByteStream.Byte>, steps: seq<Step>, img: Image, pos: BitPos)
    requires AllReadable(data, steps, img.Keys) && WholeBlocks(img) && Shape(pos)
    ensures |steps| == 0 ==> DecodeScans(data, steps, img) == img && FinalPos(Script(steps), pos) == pos
    ensures |steps| > 0 ==>
      && Readable(data, steps[0], img.Keys) && AllReadable(data, steps[1..], img.Keys)
      && DecodeScans(data, steps, img) == DecodeScans(data, steps[1..], DecodeOneScan(data, steps[0], img))
      && FinalPos(Script(steps), pos) == FinalPos(Script(steps[1..]), NextPos(steps[0].info, pos))
  {
    hide Readable, DecodeOneScan, NextPos;
    if |steps| > 0 {
      assert Script(steps)[1..] == Script(steps[1..]);
    }
  }

  lemma HoldsIs(orig: Image, img: Image, visible: set<Ref>, pos: BitPos)
    requires Holds(orig, img, visible, pos)
    ensures orig.Keys == img.Keys && visible <= orig.Keys && WholeBlocks(img) && Shape(pos)
  {
  }

  /** Every scan sends components for the first time. */
  ghost predicate FirstTimes(script: seq<ScanInfo>, pos: BitPos)
    requires Shape(pos)
    decreases |script|
  {
    |script| == 0 || (FirstTime(script[0], pos) && FirstTimes(script[1..], NextPos(script[0], pos)))
  }

  /** In a sequential script they do, and later scans leave alone what has been sent. */
  lemma {:induction false} SequentialFirstTimes(script: seq<ScanInfo>, n: nat, i: nat, m: nat, pos: BitPos)
    requires ScanScript.Sequential(script, n) && i <= m <= |script| && |pos| == n && Shape(pos)
    requires forall c :: 0 <= c < n ==> if SentBy(script, i, c) then pos[c] == ZeroBlock() else UnsentYet(pos[c])
    ensures FirstTimes(script[i..m], pos)
    ensures forall c :: 0 <= c < n ==>
      if SentBy(script, m, c) then FinalPos(script[i..m], pos)[c] == ZeroBlock() else UnsentYet(FinalPos(script[i..m], pos)[c])
    decreases m - i
  {
    if i < m {
      var next := NextPos(script[i], pos);
      assert script[i..m][0] == script[i] && script[i..m][1..] == script[i + 1..m];
      forall c | 0 <= c < n
        ensures if SentBy(script, i + 1, c) then next[c] == ZeroBlock() else UnsentYet(next[c])
      {
        if c in script[i].components {
          assert SentBy(script, i + 1, c);
        } else {
          assert SentBy(script, i + 1, c) <==> SentBy(script, i, c);
        }
      }
      SequentialFirstTimes(script, n, i + 1, m, next);
    }
  }

  /** Sequential round trip: after the first m scans of any sequential script that validate_script accepts, the real blocks of
      the components sent equal the original, and the others are zero. */
  lemma SequentialRoundTrip(data: seq<ByteStream.Byte>, steps: seq<Step>, n: nat, orig: Image, visible: set<Ref>, m: nat)
    requires ScanScript.Sequential(Script(steps), n) && m <= |steps|
    requires StepsOk(data, steps[..m], orig, visible) && Storable(orig, orig.Keys) && visible <= orig.Keys
    requires forall r :: r in visible ==> r.comp < n
    ensures AllReadable(data, steps[..m], orig.Keys)
    ensures var img, pos := DecodeScans(data, steps[..m], Blank(orig)), FinalPos(Script(steps)[..m], Unsent(n));
      forall r :: r in visible ==> KnownBlock(orig[r], img[r], pos[r.comp])
    ensures var img := DecodeScans(data, steps[..m], Blank(orig));
      forall r :: r in visible ==> img[r] == if SentBy(Script(steps), m, r.comp) then orig[r] else ZeroBlock()
  {
    var script := Script(steps);
    assert script[..m] == script[0..m] == Script(steps[..m]);
    BlankHolds(orig, visible, n);
    SequentialFirstTimes(script, n, 0, m, Unsent(n));
    hide StepOk, DecodeScans, Storable, FirstTimes, FinalPos, KnownBlock, Readable, Unsent, SentBy, ScanScript.Sequential, UnsentYet;
    WholeScansKnown(data, steps[..m], orig, Blank(orig), visible, Unsent(n));
    var img, pos := DecodeScans(data, steps[..m], Blank(orig)), FinalPos(script[..m], Unsent(n));
    forall r | r in visible
      ensures img[r] == if SentBy(script, m, r.comp) then orig[r] else ZeroBlock()
    {
      if SentBy(script, m, r.comp) {
        CompletelyKnown(orig[r], img[r], pos[r.comp]);
      } else {
        NothingKnown(orig[r], img[r], pos[r.comp]);
      }
    }
  }

  lemma NothingKnown(zz: Block, b: Block, pos: seq<int>)
    requires KnownBlock(zz, b, pos) && UnsentYet(pos)
    ensures b == ZeroBlock()
  {
  }

  /** The script of jpeg_simple_progression is lossless. */
  lemma SimpleProgressionLossless(data: seq<ByteStream.Byte>, steps: seq<Step>, n: nat, ycc: bool, orig: Image, visible: set<Ref>)
    requires 1 <= n <= MAX_COMPONENTS && Script(steps) == SimpleProgression.SimpleScript(n, ycc)
    requires StepsOk(data, steps, orig, visible) && Storable(orig, visible)
    requires forall r :: r in visible ==> r.comp < n
    ensures AllReadable(data, steps, orig.Keys)
    ensures forall r :: r in visible ==> DecodeScans(data, steps, Blank(orig))[r] == orig[r]
  {
    SimpleProgression.SimpleScriptLegal(n, ycc);
    assert steps[..|steps|] == steps && Script(steps)[..|steps|] == Script(steps);
    ProgressiveRoundTrip(data, steps, n, orig, visible, |steps|);
    hide KnownBlock, StepOk, DecodeScans, FinalPos, Readable, ScansOk, Storable, Known, SimpleProgression.SimpleScript, Progressive, Unsent;
    var img, pos := DecodeScans(data, steps, Blank(orig)), FinalPos(Script(steps), Unsent(n));
    forall r | r in visible
      ensures img[r] == orig[r]
    {
      CompletelyKnown(orig[r], img[r], pos[r.comp]);
    }
  }

  lemma CompletelyKnown(zz: Block, b: Block, pos: seq<int>)
    requires KnownBlock(zz, b, pos) && forall k :: 0 <= k < DCTSIZE2 ==> pos[k] == 0
    ensures b == zz
  {
    hide AcSent, DcSent;
    forall k | 0 <= k < DCTSIZE2
      ensures b[k] == zz[k]
    {
      SentAtZero(zz[k]);
    }
  }
}
