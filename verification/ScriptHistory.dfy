/** What validate_script of jcmaster.c accepts, told without its table of bit positions: by what earlier scans have sent. */
module ScriptHistory {
  import opened BlockCoding
  import opened ScanScript

  /** The scan sends coefficient k of component c. */
  predicate Sends(s: ScanInfo, c: int, k: int) {
    c in s.components && s.ss <= k <= s.se
  }

  /** The last of the first i scans that sends coefficient k of component c, or -1. */
  function LastSent(script: seq<ScanInfo>, i: nat, c: int, k: int): (j: int)
    requires i <= |script|
    ensures -1 <= j < i
    ensures j >= 0 ==> Sends(script[j], c, k)
    ensures forall l :: j < l < i ==> !Sends(script[l], c, k)
  {
    if i == 0 then -1 else if Sends(script[i - 1], c, k) then i - 1 else LastSent(script, i - 1, c, k)
  }

  /** The bit position that it sends, -1 without such a scan. */
  function LastBit(script: seq<ScanInfo>, i: nat, c: int, k: int): int
    requires i <= |script|
  {
    if LastSent(script, i, c, k) < 0 then -1 else script[LastSent(script, i, c, k)].al
  }

  /** One to four components of the image in ascending order, and either DC coefficients, or AC coefficients of one component. */
  ghost predicate WellFormed(s: ScanInfo, n: nat) {
    && 1 <= |s.components| <= 4
    && (forall i :: 0 <= i < |s.components| ==> 0 <= s.components[i] < n)
    && (forall i, j :: 0 <= i < j < |s.components| ==> s.components[i] < s.components[j])
    && 0 <= s.ss <= s.se <= 63 && 0 <= s.ah <= 10 && 0 <= s.al <= 10
    && (if s.ss == 0 then s.se == 0 else |s.components| == 1)
  }

  /** Scan i sends a coefficient for the first time, all bits from al on, or exactly one bit more than the last scan did. */
  ghost predicate Continues(script: seq<ScanInfo>, i: nat, c: int, k: int)
    requires i < |script|
  {
    var j := LastSent(script, i, c, k);
    if j < 0 then script[i].ah == 0 else script[i].ah == script[j].al && script[i].al == script[j].al - 1
  }

  ghost predicate LegalScan(script: seq<ScanInfo>, i: nat, n: nat)
    requires i < |script|
  {
    && WellFormed(script[i], n)
    && (forall c, k :: Sends(script[i], c, k) ==> Continues(script, i, c, k))
    && (script[i].ss > 0 ==> forall c :: c in script[i].components ==> LastSent(script, i, c, 0) >= 0)
  }

  /** Every scan is well-formed and continues what was sent; no AC coefficients come before their component's DC; and every
      component's DC is sent. */
  ghost predicate LegalByHistory(script: seq<ScanInfo>, n: nat) {
    && |script| > 0
    && (forall i :: 0 <= i < |script| ==> LegalScan(script, i, n))
    && forall c :: 0 <= c < n ==> LastSent(script, |script|, c, 0) >= 0
  }

  lemma {:induction false} FinalAppend(script: seq<ScanInfo>, pos: BitPos, i: nat)
    requires i < |script| && Shape(pos)
    ensures FinalPos(script[..i + 1], pos) == NextPos(script[i], FinalPos(script[..i], pos))
    decreases i
  {
    hide NextPos;
    if i == 0 {
      assert script[..1] == [script[0]] && script[..1][1..] == [];
    } else {
      FinalAppend(script[1..], NextPos(script[0], pos), i - 1);
      assert script[..i + 1][1..] == script[1..][..i] && script[..i][1..] == script[1..][..i - 1];
    }
  }

  lemma {:induction false} EachOk(script: seq<ScanInfo>, pos: BitPos)
    requires Shape(pos)
    ensures ScansOk(script, pos) <==> forall i :: 0 <= i < |script| ==> ScanOk(script[i], FinalPos(script[..i], pos))
    decreases |script|
  {
    hide NextPos, ScanOk;
    if |script| > 0 {
      var rest, next := script[1..], NextPos(script[0], pos);
      EachOk(rest, next);
      assert script[..0] == [];
      forall i | 0 <= i < |rest|
        ensures rest[i] == script[i + 1] && FinalPos(rest[..i], next) == FinalPos(script[..i + 1], pos)
      {
        assert script[..i + 1][1..] == rest[..i];
      }
      if forall i :: 0 <= i < |rest| ==> ScanOk(rest[i], FinalPos(rest[..i], next)) {
        forall i | 0 < i < |script|
          ensures ScanOk(script[i], FinalPos(script[..i], pos))
        {
          assert ScanOk(rest[i - 1], FinalPos(rest[..i - 1], next));
        }
      }
      if forall i :: 0 <= i < |script| ==> ScanOk(script[i], FinalPos(script[..i], pos)) {
        forall i | 0 <= i < |rest|
          ensures ScanOk(rest[i], FinalPos(rest[..i], next))
        {
          assert ScanOk(script[i + 1], FinalPos(script[..i + 1], pos));
        }
      }
    }
  }

  /** The table of bit positions holds the last bits sent. */
  lemma {:induction false} PositionsAre(script: seq<ScanInfo>, n: nat, i: nat, c: nat, k: nat)
    requires i <= |script| && c < n && k < DCTSIZE2
    ensures FinalPos(script[..i], Unsent(n))[c][k] == LastBit(script, i, c, k)
    decreases i
  {
    hide FinalPos;
    if i == 0 {
      assert script[..0] == [];
      NothingSent(n);
    } else {
      PositionsAre(script, n, i - 1, c, k);
      FinalAppend(script, Unsent(n), i - 1);
    }
  }

  lemma NothingSent(n: nat)
    ensures FinalPos([], Unsent(n)) == Unsent(n)
  {
  }

  lemma WellFormedIs(s: ScanInfo, n: nat)
    ensures WellFormed(s, n) <==> ComponentsOk(s, n) && ParametersOk(s)
  {
    if ComponentsOk(s, n) {
      forall i, j | 0 <= i < j < |s.components|
        ensures s.components[i] < s.components[j]
      {
        Ascends(s, n, i, j);
      }
    }
  }

  lemma {:induction false} Ascends(s: ScanInfo, n: nat, i: nat, j: nat)
    requires ComponentsOk(s, n) && i < j < |s.components|
    ensures s.components[i] < s.components[j]
    decreases j
  {
    assert s.components[j - 1] < s.components[j];
    if i < j - 1 {
      Ascends(s, n, i, j - 1);
    }
  }

  lemma CoefContinues(script: seq<ScanInfo>, i: nat, c: int, k: int)
    requires i < |script| && forall j :: 0 <= j < i ==> script[j].al >= 0
    ensures CoefOk(script[i], LastBit(script, i, c, k)) <==> Continues(script, i, c, k)
  {
  }

  /** One scan against the table, and against what was sent. */
  lemma ScanLegal(script: seq<ScanInfo>, n: nat, i: nat)
    requires i < |script| && forall j :: 0 <= j < i ==> script[j].al >= 0
    ensures ScanOk(script[i], FinalPos(script[..i], Unsent(n))) <==> LegalScan(script, i, n)
  {
    hide FinalPos, Continues, CoefOk, ComponentsOk, ParametersOk, WellFormed, LastSent;
    var s, pos := script[i], FinalPos(script[..i], Unsent(n));
    WellFormedIs(s, n);
    FinalSize(script[..i], n);
    if WellFormed(s, n) {
      WellFormedRange(s, n);
      forall c, k | c in s.components && 0 <= k < 64
        ensures 0 <= c < n && pos[c][k] == LastBit(script, i, c, k)
        ensures CoefOk(s, pos[c][k]) <==> Continues(script, i, c, k)
      {
        PositionsAre(script, n, i, c, k);
        CoefContinues(script, i, c, k);
      }
      forall c | c in s.components
        ensures ComponentOk(s, pos[c]) <==>
          && (forall k :: Sends(s, c, k) ==> Continues(script, i, c, k))
          && (s.ss > 0 ==> LastSent(script, i, c, 0) >= 0)
      {
        BitSent(script, i, c, 0);
      }
      EachComponent(s, pos);
    }
  }

  lemma WellFormedRange(s: ScanInfo, n: nat)
    requires WellFormed(s, n)
    ensures 0 <= s.ss <= s.se <= 63 && ParametersOk(s) && forall c :: c in s.components ==> 0 <= c < n
  {
    WellFormedIs(s, n);
    forall c | c in s.components
      ensures 0 <= c < n
    {
      var i :| 0 <= i < |s.components| && s.components[i] == c;
    }
  }

  lemma FinalSize(script: seq<ScanInfo>, n: nat)
    ensures |FinalPos(script, Unsent(n))| == n && Shape(FinalPos(script, Unsent(n)))
  {
  }

  lemma BitSent(script: seq<ScanInfo>, i: nat, c: int, k: int)
    requires i <= |script| && forall j :: 0 <= j < i ==> script[j].al >= 0
    ensures LastBit(script, i, c, k) >= 0 <==> LastSent(script, i, c, k) >= 0
  {
  }

  lemma EachComponent(s: ScanInfo, pos: BitPos)
    requires Shape(pos) && ParametersOk(s) && forall c :: c in s.components ==> 0 <= c < |pos|
    ensures ScanOk(s, pos) <==> ComponentsOk(s, |pos|) && forall c :: c in s.components ==> ComponentOk(s, pos[c])
  {
    hide ComponentOk, ParametersOk;
    if ComponentsOk(s, |pos|) && forall i :: 0 <= i < |s.components| ==> ComponentOk(s, pos[s.components[i]]) {
      forall c | c in s.components
        ensures ComponentOk(s, pos[c])
      {
        var i :| 0 <= i < |s.components| && s.components[i] == c;
      }
    }
  }

  /** validate_script's progressive scripts are the ones that are legal by what earlier scans have sent. */
  lemma ProgressiveIs(script: seq<ScanInfo>, n: nat)
    ensures Progressive(script, n) <==> LegalByHistory(script, n)
  {
    hide Progressive, LegalByHistory;
    if Progressive(script, n) {
      AcceptedIsLegal(script, n);
    }
    if LegalByHistory(script, n) {
      LegalIsAccepted(script, n);
    }
  }

  lemma AcceptedIsLegal(script: seq<ScanInfo>, n: nat)
    requires Progressive(script, n)
    ensures LegalByHistory(script, n)
  {
    hide FinalPos, ScanOk, LegalScan, ScansOk, LastSent;
    EachOk(script, Unsent(n));
    AllBits(script, n, |script|);
    forall i | 0 <= i < |script|
      ensures LegalScan(script, i, n)
    {
      ScanLegal(script, n, i);
    }
    forall c | 0 <= c < n
      ensures LastSent(script, |script|, c, 0) >= 0
    {
      DcSent(script, n, c);
    }
  }

  lemma LegalIsAccepted(script: seq<ScanInfo>, n: nat)
    requires LegalByHistory(script, n)
    ensures Progressive(script, n)
  {
    hide FinalPos, ScanOk, LegalScan, ScansOk, LastSent, FullBand;
    EachOk(script, Unsent(n));
    forall i | 0 <= i < |script|
      ensures ScanOk(script[i], FinalPos(script[..i], Unsent(n))) && script[i].al >= 0
    {
      BitsOf(script, n, i);
      ScanLegal(script, n, i);
    }
    BitsOf(script, n, 0);
    forall c | 0 <= c < n
      ensures FinalPos(script, Unsent(n))[c][0] >= 0
    {
      DcSent(script, n, c);
    }
  }

  lemma AllBits(script: seq<ScanInfo>, n: nat, m: nat)
    requires m <= |script| && ScansOk(script, Unsent(n))
    ensures forall i :: 0 <= i < m ==> script[i].al >= 0
  {
    hide FinalPos, ScansOk;
    EachOk(script, Unsent(n));
    forall i | 0 <= i < m
      ensures script[i].al >= 0
    {
      assert ScanOk(script[i], FinalPos(script[..i], Unsent(n)));
    }
  }

  lemma BitsOf(script: seq<ScanInfo>, n: nat, m: nat)
    requires m < |script| && forall i :: 0 <= i < |script| ==> LegalScan(script, i, n)
    ensures forall i :: 0 <= i <= m ==> script[i].al >= 0 && !FullBand(script[i])
  {
    forall i | 0 <= i <= m
      ensures script[i].al >= 0 && !FullBand(script[i])
    {
      assert LegalScan(script, i, n);
    }
  }

  lemma DcSent(script: seq<ScanInfo>, n: nat, c: nat)
    requires c < n && forall i :: 0 <= i < |script| ==> script[i].al >= 0
    ensures |FinalPos(script, Unsent(n))| == n && |FinalPos(script, Unsent(n))[c]| == DCTSIZE2
    ensures FinalPos(script, Unsent(n))[c][0] >= 0 <==> LastSent(script, |script|, c, 0) >= 0
  {
    hide FinalPos, LastSent;
    assert script[..|script|] == script;
    PositionsAre(script, n, |script|, c, 0);
    BitSent(script, |script|, c, 0);
  }

  /** A sequential scan: all coefficients of one to four components in ascending order. */
  ghost predicate WholeBlocks(s: ScanInfo, n: nat) {
    && s.ss == 0 && s.se == 63 && s.ah == 0 && s.al == 0 && 1 <= |s.components| <= 4
    && (forall i :: 0 <= i < |s.components| ==> 0 <= s.components[i] < n)
    && forall i, j :: 0 <= i < j < |s.components| ==> s.components[i] < s.components[j]
  }

  /** Scan i is the one that sends component c. */
  ghost predicate OnlyIn(script: seq<ScanInfo>, c: int, i: nat)
    requires i < |script|
  {
    c in script[i].components && forall j :: 0 <= j < |script| && j != i ==> c !in script[j].components
  }

  ghost predicate SentOnce(script: seq<ScanInfo>, c: int) {
    exists i :: 0 <= i < |script| && OnlyIn(script, c, i)
  }

  /** Whole blocks, each component in exactly one scan. */
  ghost predicate LegalSequential(script: seq<ScanInfo>, n: nat) {
    && |script| > 0 && (forall i :: 0 <= i < |script| ==> WholeBlocks(script[i], n))
    && forall c :: 0 <= c < n ==> SentOnce(script, c)
  }

  /** So are validate_script's sequential scripts. */
  lemma SequentialIs(script: seq<ScanInfo>, n: nat)
    ensures Sequential(script, n) <==> LegalSequential(script, n)
  {
    hide Sequential, LegalSequential;
    if Sequential(script, n) {
      SequentialIsLegal(script, n);
    }
    if LegalSequential(script, n) {
      LegalIsSequential(script, n);
    }
  }

  lemma SequentialIsLegal(script: seq<ScanInfo>, n: nat)
    requires Sequential(script, n)
    ensures LegalSequential(script, n)
  {
    hide WholeBlocks, ComponentsOk;
    forall i | 0 <= i < |script|
      ensures WholeBlocks(script[i], n)
    {
      WholeBlocksIs(script[i], n);
    }
    forall c | 0 <= c < n
      ensures SentOnce(script, c)
    {
      assert SentBy(script, |script|, c);
      var i :| 0 <= i < |script| && c in script[i].components;
      forall j | 0 <= j < |script| && j != i
        ensures c !in script[j].components
      {
        assert j < i ==> !SentBy(script, i, c);
        assert i < j && c in script[j].components ==> !SentBy(script, j, c);
      }
      assert OnlyIn(script, c, i);
    }
  }

  lemma LegalIsSequential(script: seq<ScanInfo>, n: nat)
    requires LegalSequential(script, n)
    ensures Sequential(script, n)
  {
    hide WholeBlocks, ComponentsOk;
    forall i | 0 <= i < |script|
      ensures FullBand(script[i]) && script[i].ah == 0 && script[i].al == 0 && ComponentsOk(script[i], n)
    {
      WholeBlocksIs(script[i], n);
    }
    forall c | 0 <= c < n
      ensures SentBy(script, |script|, c)
    {
      assert SentOnce(script, c);
      var i :| 0 <= i < |script| && OnlyIn(script, c, i);
    }
    forall j, c | 0 <= j < |script| && c in script[j].components
      ensures !SentBy(script, j, c)
    {
      ComponentRange(script[j], n, c);
      assert SentOnce(script, c);
      var i :| 0 <= i < |script| && OnlyIn(script, c, i);
    }
  }

  lemma ComponentRange(s: ScanInfo, n: nat, c: int)
    requires WholeBlocks(s, n) && c in s.components
    ensures 0 <= c < n
  {
    var i :| 0 <= i < |s.components| && s.components[i] == c;
  }

  lemma WholeBlocksIs(s: ScanInfo, n: nat)
    ensures WholeBlocks(s, n) <==> FullBand(s) && s.ah == 0 && s.al == 0 && ComponentsOk(s, n)
  {
    if ComponentsOk(s, n) {
      forall i, j | 0 <= i < j < |s.components|
        ensures s.components[i] < s.components[j]
      {
        Ascends(s, n, i, j);
      }
    }
  }
}
