/** jpeg_simple_progression (jcparam.c): its script is accepted by validate_script for
    every number of components, and sends every coefficient down to bit 0. */
module SimpleProgression {
  import opened BlockCoding
  import opened ScanScript

  function AScan(c: int, ss: int, se: int, ah: int, al: int): ScanInfo {
    ScanInfo([c], ss, se, ah, al)
  }

  function Scans(n: nat, ss: int, se: int, ah: int, al: int): (s: seq<ScanInfo>)
    ensures |s| == n
  {
    seq(n, c => AScan(c, ss, se, ah, al))
  }

  function DcScans(n: nat, ah: int, al: int): seq<ScanInfo> {
    if n <= MAX_COMPS_IN_SCAN then [ScanInfo(seq(n, c => c), 0, 0, ah, al)] else Scans(n, 0, 0, ah, al)
  }

  /** The script for YCbCr images. */
  function YccScript(): seq<ScanInfo> {
    DcScans(3, 0, 1) + [AScan(0, 1, 5, 0, 2), AScan(2, 1, 63, 0, 1), AScan(1, 1, 63, 0, 1), AScan(0, 6, 63, 0, 2),
                        AScan(0, 1, 63, 2, 1)]
    + DcScans(3, 1, 0) + [AScan(2, 1, 63, 1, 0), AScan(1, 1, 63, 1, 0), AScan(0, 1, 63, 1, 0)]
  }

  /** The script for other colour spaces. */
  function PlainScript(n: nat): seq<ScanInfo> {
    DcScans(n, 0, 1) + (Scans(n, 1, 5, 0, 2) + (Scans(n, 6, 63, 0, 2)
    + (Scans(n, 1, 63, 2, 1) + (DcScans(n, 1, 0) + Scans(n, 1, 63, 1, 0)))))
  }

  function SimpleScript(n: nat, ycc: bool): seq<ScanInfo> {
    if n == 3 && ycc then YccScript() else PlainScript(n)
  }

  // ----- filling the script space -----

  method FillAScan(script: array<ScanInfo>, scanptr: nat, ci: int, ss: int, se: int, ah: int, al: int) returns (p: nat)
    requires scanptr < script.Length
    modifies script
    ensures p == scanptr + 1 && script[..p] == old(script[..scanptr]) + [AScan(ci, ss, se, ah, al)]
  {
    script[scanptr] := ScanInfo([ci], ss, se, ah, al);
    p := scanptr + 1;
  }

  method FillScans(script: array<ScanInfo>, scanptr: nat, ncomps: nat, ss: int, se: int, ah: int, al: int) returns (p: nat)
    requires scanptr + ncomps <= script.Length
    modifies script
    ensures p == scanptr + ncomps && script[..p] == old(script[..scanptr]) + Scans(ncomps, ss, se, ah, al)
  {
    var ci := 0;
    p := scanptr;
    while ci < ncomps
      invariant 0 <= ci <= ncomps && p == scanptr + ci
      invariant script[..p] == old(script[..scanptr]) + Scans(ci, ss, se, ah, al)
    {
      p := FillAScan(script, p, ci, ss, se, ah, al);
      ci := ci + 1;
    }
  }

  method FillDcScans(script: array<ScanInfo>, scanptr: nat, ncomps: nat, ah: int, al: int) returns (p: nat)
    requires scanptr + |DcScans(ncomps, ah, al)| <= script.Length
    modifies script
    ensures p == scanptr + |DcScans(ncomps, ah, al)|
    ensures script[..p] == old(script[..scanptr]) + DcScans(ncomps, ah, al)
  {
    p := scanptr;
    if ncomps <= MAX_COMPS_IN_SCAN {
      script[p] := ScanInfo(seq(ncomps, c => c), 0, 0, ah, al);
      p := p + 1;
    } else {
      p := FillScans(script, p, ncomps, 0, 0, ah, al);
    }
  }

  method FillYcc(script: array<ScanInfo>)
    requires script.Length == 10
    modifies script
    ensures script[..] == YccScript()
  {
    var p := FillDcScans(script, 0, 3, 0, 1);
    p := FillAScan(script, p, 0, 1, 5, 0, 2);
    p := FillAScan(script, p, 2, 1, 63, 0, 1);
    p := FillAScan(script, p, 1, 1, 63, 0, 1);
    p := FillAScan(script, p, 0, 6, 63, 0, 2);
    p := FillAScan(script, p, 0, 1, 63, 2, 1);
    assert script[..p] == DcScans(3, 0, 1) + [AScan(0, 1, 5, 0, 2), AScan(2, 1, 63, 0, 1), AScan(1, 1, 63, 0, 1),
                                              AScan(0, 6, 63, 0, 2), AScan(0, 1, 63, 2, 1)];
    p := FillDcScans(script, p, 3, 1, 0);
    p := FillAScan(script, p, 2, 1, 63, 1, 0);
    p := FillAScan(script, p, 1, 1, 63, 1, 0);
    p := FillAScan(script, p, 0, 1, 63, 1, 0);
    assert script[..p] == YccScript();
  }

  lemma AssocScans(a: seq<ScanInfo>, b: seq<ScanInfo>, c: seq<ScanInfo>, d: seq<ScanInfo>, e: seq<ScanInfo>,
                   f: seq<ScanInfo>)
    ensures a + b + c + d + e + f == a + (b + (c + (d + (e + f))))
  {
  }

  method FillPlain(script: array<ScanInfo>, ncomps: nat)
    requires script.Length == |PlainScript(ncomps)|
    modifies script
    ensures script[..] == PlainScript(ncomps)
  {
    hide DcScans;
    ghost var s1, s2, s3, s4, s5, s6 := DcScans(ncomps, 0, 1), Scans(ncomps, 1, 5, 0, 2), Scans(ncomps, 6, 63, 0, 2),
                                        Scans(ncomps, 1, 63, 2, 1), DcScans(ncomps, 1, 0), Scans(ncomps, 1, 63, 1, 0);
    AssocScans(s1, s2, s3, s4, s5, s6);
    var p := FillDcScans(script, 0, ncomps, 0, 1);
    assert script[..p] == s1;
    p := FillScans(script, p, ncomps, 1, 5, 0, 2);
    p := FillScans(script, p, ncomps, 6, 63, 0, 2);
    p := FillScans(script, p, ncomps, 1, 63, 2, 1);
    assert script[..p] == s1 + s2 + s3 + s4;
    p := FillDcScans(script, p, ncomps, 1, 0);
    p := FillScans(script, p, ncomps, 1, 63, 1, 0);
    assert script[..p] == s1 + s2 + s3 + s4 + s5 + s6;
  }

  /** jpeg_simple_progression: the space computed in advance is exactly what the scans need. */
  method SimpleProgressionScript(ncomps: nat, ycc: bool) returns (script: array<ScanInfo>)
    ensures fresh(script) && script[..] == SimpleScript(ncomps, ycc)
  {
    var nscans: nat;
    if ncomps == 3 && ycc {
      nscans := 10;
    } else {
      if ncomps > MAX_COMPS_IN_SCAN {
        nscans := 6 * ncomps;
      } else {
        nscans := 2 + 4 * ncomps;
      }
    }
    script := new ScanInfo[nscans](_ => ScanInfo([], 0, 0, 0, 0));
    if ncomps == 3 && ycc {
      FillYcc(script);
    } else {
      FillPlain(script, ncomps);
    }
  }

  // ----- the script is legal -----

  lemma {:induction false} ScansOkConcat(a: seq<ScanInfo>, b: seq<ScanInfo>, pos: BitPos)
    requires Shape(pos)
    ensures ScansOk(a + b, pos) <==> ScansOk(a, pos) && ScansOk(b, FinalPos(a, pos))
    ensures FinalPos(a + b, pos) == FinalPos(b, FinalPos(a, pos))
    decreases |a|
  {
    hide ScanOk, NextPos;
    if |a| == 0 {
      assert a + b == b;
    } else {
      assert (a + b)[0] == a[0] && (a + b)[1..] == a[1..] + b;
      ScansOkConcat(a[1..], b, NextPos(a[0], pos));
    }
  }

  /** All components have been sent down to bit dc (DC), lo (1..5) and hi (6..63). */
  ghost predicate Level(pos: BitPos, n: nat, dc: int, lo: int, hi: int) {
    && |pos| == n && Shape(pos)
    && forall c :: 0 <= c < n ==> Row(pos[c], dc, lo, hi)
  }

  ghost predicate Row(last: seq<int>, dc: int, lo: int, hi: int) {
    && |last| == DCTSIZE2
    && last[0] == dc
    && (forall k :: 1 <= k <= 5 ==> last[k] == lo)
    && forall k :: 6 <= k < DCTSIZE2 ==> last[k] == hi
  }

  /** Sending the same band of each component in turn: the first m are done. */
  lemma {:induction false} ScansLevel(n: nat, m: nat, pos0: BitPos, pos: BitPos, s: ScanInfo)
    requires m <= n && |pos0| == |pos| == n && Shape(pos0) && Shape(pos)
    requires s.components == [0] && ParametersOk(s)
    requires forall c :: 0 <= c < n ==> ComponentOk(s, pos0[c])
    requires forall c :: m <= c < n ==> pos[c] == pos0[c]
    requires forall c :: 0 <= c < m ==> pos[c] == NextOf(s, pos0[c], DCTSIZE2)
    ensures ScansOk(Scans(n, s.ss, s.se, s.ah, s.al)[m..], pos)
    ensures var r := FinalPos(Scans(n, s.ss, s.se, s.ah, s.al)[m..], pos);
      |r| == n && Shape(r) && forall c :: 0 <= c < n ==> r[c] == NextOf(s, pos0[c], DCTSIZE2)
    decreases n - m
  {
    hide NextOf;
    var rest := Scans(n, s.ss, s.se, s.ah, s.al)[m..];
    if m < n {
      var t := AScan(m, s.ss, s.se, s.ah, s.al);
      assert rest[0] == t && rest[1..] == Scans(n, s.ss, s.se, s.ah, s.al)[m + 1..];
      SameScan(s, t, pos0[m]);
      ScansLevel(n, m + 1, pos0, NextPos(t, pos), s);
    }
  }

  lemma SameScan(s: ScanInfo, t: ScanInfo, last: seq<int>)
    requires |last| == DCTSIZE2 && ParametersOk(s) && |s.components| == |t.components| == 1
    requires t.ss == s.ss && t.se == s.se && t.ah == s.ah && t.al == s.al
    ensures ParametersOk(t) && (ComponentOk(t, last) <==> ComponentOk(s, last))
    ensures NextOf(t, last, DCTSIZE2) == NextOf(s, last, DCTSIZE2)
  {
  }

  lemma AcLevel(n: nat, pos: BitPos, ss: int, se: int, ah: int, al: int, dc: int, lo: int, hi: int)
    requires Level(pos, n, dc, lo, hi) && dc >= 0 && 0 <= ah <= 10 && 0 <= al <= 10
    requires ss in {1, 6} && se in {5, 63} && ss <= se
    requires ss == 1 ==> CoefOk(AScan(0, ss, se, ah, al), lo)
    requires se == 63 ==> CoefOk(AScan(0, ss, se, ah, al), hi)
    ensures ScansOk(Scans(n, ss, se, ah, al), pos)
    ensures Level(FinalPos(Scans(n, ss, se, ah, al), pos), n, dc, if ss == 1 then al else lo, if se == 63 then al else hi)
  {
    var s := AScan(0, ss, se, ah, al);
    ScansLevel(n, 0, pos, pos, s);
    assert Scans(n, ss, se, ah, al)[0..] == Scans(n, ss, se, ah, al);
  }

  lemma DcLevel(n: nat, pos: BitPos, ah: int, al: int, dc: int, lo: int, hi: int)
    requires 1 <= n && Level(pos, n, dc, lo, hi) && 0 <= ah <= 10 && 0 <= al <= 10
    requires CoefOk(AScan(0, 0, 0, ah, al), dc)
    ensures ScansOk(DcScans(n, ah, al), pos)
    ensures Level(FinalPos(DcScans(n, ah, al), pos), n, al, lo, hi)
  {
    if n <= MAX_COMPS_IN_SCAN {
      var s := ScanInfo(seq(n, c => c), 0, 0, ah, al);
      var d := DcScans(n, ah, al);
      assert d[0] == s && d[1..] == [];
      forall c | 0 <= c < n
        ensures c in s.components
      {
        assert s.components[c] == c;
      }
      assert FinalPos(d, pos) == NextPos(s, pos);
    } else {
      ScansLevel(n, 0, pos, pos, AScan(0, 0, 0, ah, al));
      assert Scans(n, 0, 0, ah, al)[0..] == Scans(n, 0, 0, ah, al);
    }
  }

  lemma PlainProgressive(n: nat)
    requires 1 <= n
    ensures ScansOk(PlainScript(n), Unsent(n)) && Level(FinalPos(PlainScript(n), Unsent(n)), n, 0, 0, 0)
  {
    hide ScansOk, FinalPos, DcScans, Scans, Level;
    var p0 := Unsent(n);
    assert Level(p0, n, -1, -1, -1) by { UnsentLevel(n); }
    var s1, s2, s3, s4, s5, s6 := DcScans(n, 0, 1), Scans(n, 1, 5, 0, 2), Scans(n, 6, 63, 0, 2), Scans(n, 1, 63, 2, 1),
                                  DcScans(n, 1, 0), Scans(n, 1, 63, 1, 0);
    DcLevel(n, p0, 0, 1, -1, -1, -1);
    var p1 := FinalPos(s1, p0);
    AcLevel(n, p1, 1, 5, 0, 2, 1, -1, -1);
    var p2 := FinalPos(s2, p1);
    AcLevel(n, p2, 6, 63, 0, 2, 1, 2, -1);
    var p3 := FinalPos(s3, p2);
    AcLevel(n, p3, 1, 63, 2, 1, 1, 2, 2);
    var p4 := FinalPos(s4, p3);
    DcLevel(n, p4, 1, 0, 1, 1, 1);
    var p5 := FinalPos(s5, p4);
    AcLevel(n, p5, 1, 63, 1, 0, 0, 1, 1);
    ScansOkConcat(s5, s6, p4);
    ScansOkConcat(s4, s5 + s6, p3);
    ScansOkConcat(s3, s4 + (s5 + s6), p2);
    ScansOkConcat(s2, s3 + (s4 + (s5 + s6)), p1);
    ScansOkConcat(s1, s2 + (s3 + (s4 + (s5 + s6))), p0);
  }

  lemma UnsentLevel(n: nat)
    ensures Level(Unsent(n), n, -1, -1, -1)
  {
  }

  /** How far the three bands (DC, 1..5, 6..63) of one component have been sent. */
  datatype Sent = Sent(dc: int, lo: int, hi: int)

  ghost predicate Ycc(pos: BitPos, y: Sent, cb: Sent, cr: Sent) {
    && |pos| == 3 && Shape(pos)
    && Row(pos[0], y.dc, y.lo, y.hi) && Row(pos[1], cb.dc, cb.lo, cb.hi) && Row(pos[2], cr.dc, cr.lo, cr.hi)
  }

  function AfterAc(r: Sent, ss: int, se: int, al: int): Sent {
    Sent(r.dc, if ss == 1 then al else r.lo, if se == 63 then al else r.hi)
  }

  /** One AC scan of one component. */
  lemma YccAc(pos: BitPos, y: Sent, cb: Sent, cr: Sent, c: nat, ss: int, se: int, ah: int, al: int) returns (next: BitPos)
    requires Ycc(pos, y, cb, cr) && c < 3 && 0 <= ah <= 10 && 0 <= al <= 10
    requires ss in {1, 6} && se in {5, 63} && ss <= se
    requires var r := if c == 0 then y else if c == 1 then cb else cr;
      && r.dc >= 0
      && (ss == 1 ==> CoefOk(AScan(c, ss, se, ah, al), r.lo))
      && (se == 63 ==> CoefOk(AScan(c, ss, se, ah, al), r.hi))
    ensures next == FinalPos([AScan(c, ss, se, ah, al)], pos) && ScansOk([AScan(c, ss, se, ah, al)], pos)
    ensures Ycc(next, if c == 0 then AfterAc(y, ss, se, al) else y, if c == 1 then AfterAc(cb, ss, se, al) else cb,
                if c == 2 then AfterAc(cr, ss, se, al) else cr)
  {
    var s := AScan(c, ss, se, ah, al);
    next := NextPos(s, pos);
    OneScan(s, pos);
  }

  lemma OneScan(s: ScanInfo, pos: BitPos)
    requires Shape(pos)
    ensures FinalPos([s], pos) == NextPos(s, pos)
    ensures ScansOk([s], pos) <==> ScanOk(s, pos)
  {
    hide ScanOk, NextPos;
    var l := [s];
    assert l[1..] == [] && l[0] == s;
  }

  /** An interleaved DC scan. */
  lemma YccDc(pos: BitPos, y: Sent, cb: Sent, cr: Sent, ah: int, al: int) returns (next: BitPos)
    requires Ycc(pos, y, cb, cr) && 0 <= ah <= 10 && 0 <= al <= 10
    requires CoefOk(AScan(0, 0, 0, ah, al), y.dc) && y.dc == cb.dc == cr.dc
    ensures next == FinalPos(DcScans(3, ah, al), pos) && ScansOk(DcScans(3, ah, al), pos)
    ensures Ycc(next, y.(dc := al), cb.(dc := al), cr.(dc := al))
  {
    var s := ScanInfo(seq(3, c => c), 0, 0, ah, al);
    assert s.components[0] == 0 && s.components[1] == 1 && s.components[2] == 2;
    next := NextPos(s, pos);
    OneScan(s, pos);
  }

  /** One more AC scan behind the scans a. */
  lemma YccMore(a: seq<ScanInfo>, p0: BitPos, pos: BitPos, y: Sent, cb: Sent, cr: Sent, c: nat, ss: int, se: int, ah: int,
                al: int) returns (b: seq<ScanInfo>, next: BitPos)
    requires Shape(p0) && ScansOk(a, p0) && FinalPos(a, p0) == pos
    requires Ycc(pos, y, cb, cr) && c < 3 && 0 <= ah <= 10 && 0 <= al <= 10
    requires ss in {1, 6} && se in {5, 63} && ss <= se
    requires var r := if c == 0 then y else if c == 1 then cb else cr;
      && r.dc >= 0
      && (ss == 1 ==> CoefOk(AScan(c, ss, se, ah, al), r.lo))
      && (se == 63 ==> CoefOk(AScan(c, ss, se, ah, al), r.hi))
    ensures b == a + [AScan(c, ss, se, ah, al)] && ScansOk(b, p0) && FinalPos(b, p0) == next
    ensures Ycc(next, if c == 0 then AfterAc(y, ss, se, al) else y, if c == 1 then AfterAc(cb, ss, se, al) else cb,
                if c == 2 then AfterAc(cr, ss, se, al) else cr)
  {
    hide ScansOk, FinalPos;
    b := a + [AScan(c, ss, se, ah, al)];
    next := YccAc(pos, y, cb, cr, c, ss, se, ah, al);
    ScansOkConcat(a, [AScan(c, ss, se, ah, al)], p0);
  }

  lemma YccFirstHalf() returns (a: seq<ScanInfo>, pos: BitPos)
    ensures a == DcScans(3, 0, 1) + [AScan(0, 1, 5, 0, 2)] + [AScan(2, 1, 63, 0, 1)] + [AScan(1, 1, 63, 0, 1)]
              + [AScan(0, 6, 63, 0, 2)] + [AScan(0, 1, 63, 2, 1)]
    ensures ScansOk(a, Unsent(3)) && FinalPos(a, Unsent(3)) == pos
    ensures Ycc(pos, Sent(1, 1, 1), Sent(1, 1, 1), Sent(1, 1, 1))
  {
    hide ScansOk, FinalPos, DcScans, Ycc;
    var n := Sent(-1, -1, -1);
    UnsentYcc();
    pos := YccDc(Unsent(3), n, n, n, 0, 1);
    a := DcScans(3, 0, 1);
    a, pos := YccMore(a, Unsent(3), pos, Sent(1, -1, -1), Sent(1, -1, -1), Sent(1, -1, -1), 0, 1, 5, 0, 2);
    a, pos := YccMore(a, Unsent(3), pos, Sent(1, 2, -1), Sent(1, -1, -1), Sent(1, -1, -1), 2, 1, 63, 0, 1);
    a, pos := YccMore(a, Unsent(3), pos, Sent(1, 2, -1), Sent(1, -1, -1), Sent(1, 1, 1), 1, 1, 63, 0, 1);
    a, pos := YccMore(a, Unsent(3), pos, Sent(1, 2, -1), Sent(1, 1, 1), Sent(1, 1, 1), 0, 6, 63, 0, 2);
    a, pos := YccMore(a, Unsent(3), pos, Sent(1, 2, 2), Sent(1, 1, 1), Sent(1, 1, 1), 0, 1, 63, 2, 1);
  }

  lemma YccProgressive()
    ensures ScansOk(YccScript(), Unsent(3)) && Level(FinalPos(YccScript(), Unsent(3)), 3, 0, 0, 0)
  {
    hide ScansOk, FinalPos, DcScans, Ycc, Level;
    var a, pos := YccFirstHalf();
    var next := YccDc(pos, Sent(1, 1, 1), Sent(1, 1, 1), Sent(1, 1, 1), 1, 0);
    ScansOkConcat(a, DcScans(3, 1, 0), Unsent(3));
    var b := a + DcScans(3, 1, 0);
    b, next := YccMore(b, Unsent(3), next, Sent(0, 1, 1), Sent(0, 1, 1), Sent(0, 1, 1), 2, 1, 63, 1, 0);
    b, next := YccMore(b, Unsent(3), next, Sent(0, 1, 1), Sent(0, 1, 1), Sent(0, 0, 0), 1, 1, 63, 1, 0);
    b, next := YccMore(b, Unsent(3), next, Sent(0, 1, 1), Sent(0, 0, 0), Sent(0, 0, 0), 0, 1, 63, 1, 0);
    YccLevel(next);
    assert b == YccScript();
  }

  lemma UnsentYcc()
    ensures Ycc(Unsent(3), Sent(-1, -1, -1), Sent(-1, -1, -1), Sent(-1, -1, -1))
  {
  }

  lemma YccLevel(pos: BitPos)
    requires Ycc(pos, Sent(0, 0, 0), Sent(0, 0, 0), Sent(0, 0, 0))
    ensures Level(pos, 3, 0, 0, 0)
  {
  }

  /** The recommended script passes validate_script as a progressive one and sends every coefficient completely. */
  lemma SimpleScriptLegal(n: nat, ycc: bool)
    requires 1 <= n <= MAX_COMPONENTS
    ensures Progressive(SimpleScript(n, ycc), n)
    ensures forall c, k :: 0 <= c < n && 0 <= k < DCTSIZE2 ==> FinalPos(SimpleScript(n, ycc), Unsent(n))[c][k] == 0
  {
    hide ScansOk, FinalPos;
    if n == 3 && ycc {
      YccProgressive();
    } else {
      PlainProgressive(n);
    }
    assert SimpleScript(n, ycc)[0].se == 0 && |SimpleScript(n, ycc)| > 0;
  }

  // ----- the scripts, scan by scan -----

  /** For YCbCr: DC but for its last bit; five AC coefficients of luma but for two bits; chroma but for one bit; the rest of luma;
      the next bit of luma; the last bits, those of luma at the end. */
  lemma YccScans()
    ensures SimpleScript(3, true) ==
      [ScanInfo([0, 1, 2], 0, 0, 0, 1), ScanInfo([0], 1, 5, 0, 2), ScanInfo([2], 1, 63, 0, 1), ScanInfo([1], 1, 63, 0, 1),
       ScanInfo([0], 6, 63, 0, 2), ScanInfo([0], 1, 63, 2, 1), ScanInfo([0, 1, 2], 0, 0, 1, 0), ScanInfo([2], 1, 63, 1, 0),
       ScanInfo([1], 1, 63, 1, 0), ScanInfo([0], 1, 63, 1, 0)]
  {
    assert seq(3, c => c) == [0, 1, 2];
    assert DcScans(3, 0, 1) == [ScanInfo([0, 1, 2], 0, 0, 0, 1)] && DcScans(3, 1, 0) == [ScanInfo([0, 1, 2], 0, 0, 1, 0)];
  }

  /** For grayscale. */
  lemma GrayScans()
    ensures SimpleScript(1, false) ==
      [ScanInfo([0], 0, 0, 0, 1), ScanInfo([0], 1, 5, 0, 2), ScanInfo([0], 6, 63, 0, 2), ScanInfo([0], 1, 63, 2, 1),
       ScanInfo([0], 0, 0, 1, 0), ScanInfo([0], 1, 63, 1, 0)]
  {
    assert seq(1, c => c) == [0];
    assert DcScans(1, 0, 1) == [ScanInfo([0], 0, 0, 0, 1)] && DcScans(1, 1, 0) == [ScanInfo([0], 0, 0, 1, 0)];
    assert Scans(1, 1, 5, 0, 2) == [ScanInfo([0], 1, 5, 0, 2)] && Scans(1, 6, 63, 0, 2) == [ScanInfo([0], 6, 63, 0, 2)];
    assert Scans(1, 1, 63, 2, 1) == [ScanInfo([0], 1, 63, 2, 1)] && Scans(1, 1, 63, 1, 0) == [ScanInfo([0], 1, 63, 1, 0)];
  }

  /** For n components in general: the same stages, with one scan per component for AC, and for DC one for all components, or one
      each if there are more than four. */
  lemma PlainScans(n: nat, i: nat)
    requires n > 0 && i < n
    ensures var d := if n <= 4 then 1 else n; |SimpleScript(n, false)| == 2 * d + 4 * n
    ensures var d, s := if n <= 4 then 1 else n, SimpleScript(n, false);
      && s[d + i] == ScanInfo([i], 1, 5, 0, 2) && s[d + n + i] == ScanInfo([i], 6, 63, 0, 2)
      && s[d + 2 * n + i] == ScanInfo([i], 1, 63, 2, 1) && s[2 * d + 3 * n + i] == ScanInfo([i], 1, 63, 1, 0)
    ensures n <= 4 ==> SimpleScript(n, false)[0] == ScanInfo(seq(n, c => c), 0, 0, 0, 1) && SimpleScript(n, false)[1 + 3 * n] == ScanInfo(seq(n, c => c), 0, 0, 1, 0)
    ensures n > 4 ==> SimpleScript(n, false)[i] == ScanInfo([i], 0, 0, 0, 1) && SimpleScript(n, false)[4 * n + i] == ScanInfo([i], 0, 0, 1, 0)
  {
  }
}
