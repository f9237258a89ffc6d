/** Scan scripts: validate_script of jcmaster.c and the script of jpeg_simple_progression (jcparam.c). */
module ScanScript {
  import opened BlockCoding

  const MAX_COMPS_IN_SCAN: nat := 4
  const MAX_COMPONENTS: nat := 10
  const MAX_AH_AL: int := 10

  /** jpeg_scan_info: the components of a scan, and its progression parameters. */
  datatype ScanInfo = ScanInfo(components: seq<int>, ss: int, se: int, ah: int, al: int)

  /** For each component and coefficient the bit position it was last sent at, -1 if it was not sent yet. */
  type BitPos = seq<seq<int>>

  ghost predicate Shape(pos: BitPos) {
    forall c :: 0 <= c < |pos| ==> |pos[c]| == DCTSIZE2
  }

  function Unsent(n: nat): (pos: BitPos)
    ensures |pos| == n && Shape(pos)
    ensures forall c, k :: 0 <= c < n && 0 <= k < DCTSIZE2 ==> pos[c][k] == -1
  {
    seq(n, _ => seq(DCTSIZE2, _ => -1))
  }

  /** One to four components of the image, in ascending order. */
  ghost predicate ComponentsOk(s: ScanInfo, n: nat) {
    && 0 < |s.components| <= MAX_COMPS_IN_SCAN
    && (forall i :: 0 <= i < |s.components| ==> 0 <= s.components[i] < n)
    && forall i {:trigger s.components[i - 1]} :: 0 < i < |s.components| ==> s.components[i - 1] < s.components[i]
  }

  /** The parameters of a progressive scan by themselves. */
  predicate ParametersOk(s: ScanInfo) {
    && 0 <= s.ss < DCTSIZE2 && s.ss <= s.se < DCTSIZE2
    && 0 <= s.ah <= MAX_AH_AL && 0 <= s.al <= MAX_AH_AL
    && (if s.ss == 0 then s.se == 0 else |s.components| == 1)
  }

  /** A coefficient may be sent: for the first time, or one bit more of it. */
  predicate CoefOk(s: ScanInfo, last: int) {
    if last < 0 then s.ah == 0 else s.ah == last && s.al == s.ah - 1
  }

  ghost predicate ComponentOk(s: ScanInfo, last: seq<int>)
    requires |last| == DCTSIZE2 && ParametersOk(s)
  {
    && (s.ss != 0 ==> last[0] >= 0)
    && forall k :: s.ss <= k <= s.se ==> CoefOk(s, last[k])
  }

  /** The scan is legal when the coefficients have been sent down to pos. */
  ghost predicate ScanOk(s: ScanInfo, pos: BitPos)
    requires Shape(pos)
  {
    && ComponentsOk(s, |pos|) && ParametersOk(s)
    && forall i :: 0 <= i < |s.components| ==> ComponentOk(s, pos[s.components[i]])
  }

  /** The bit positions after the scan. */
  function NextPos(s: ScanInfo, pos: BitPos): (r: BitPos)
    requires Shape(pos)
    ensures |r| == |pos| && Shape(r)
  {
    seq(|pos|, c requires 0 <= c < |pos| =>
      if c in s.components then NextOf(s, pos[c], DCTSIZE2) else pos[c])
  }

  /** The positions of one component, the band's coefficients below n being updated. */
  function NextOf(s: ScanInfo, last: seq<int>, n: nat): (r: seq<int>)
    ensures |r| == |last|
    ensures forall k :: 0 <= k < |r| ==> r[k] == if s.ss <= k <= s.se && k < n then s.al else last[k]
  {
    seq(|last|, k requires 0 <= k < |last| => if s.ss <= k <= s.se && k < n then s.al else last[k])
  }

  /** All scans are legal in turn. */
  ghost predicate ScansOk(script: seq<ScanInfo>, pos: BitPos)
    requires Shape(pos)
    decreases |script|
  {
    |script| == 0 || (ScanOk(script[0], pos) && ScansOk(script[1..], NextPos(script[0], pos)))
  }

  function FinalPos(script: seq<ScanInfo>, pos: BitPos): (r: BitPos)
    requires Shape(pos)
    ensures |r| == |pos| && Shape(r)
    decreases |script|
  {
    if |script| == 0 then pos else FinalPos(script[1..], NextPos(script[0], pos))
  }

  /** A progressive script for n components: every scan is legal, and every component's DC is sent. */
  ghost predicate Progressive(script: seq<ScanInfo>, n: nat) {
    && |script| > 0
    && !FullBand(script[0])
    && ScansOk(script, Unsent(n))
    && forall c :: 0 <= c < n ==> FinalPos(script, Unsent(n))[c][0] >= 0
  }

  predicate FullBand(s: ScanInfo) {
    s.ss == 0 && s.se == DCTSIZE2 - 1
  }

  /** A sequential script: whole blocks, every component exactly once. */
  ghost predicate Sequential(script: seq<ScanInfo>, n: nat) {
    && |script| > 0
    && (forall i :: 0 <= i < |script| ==> FullBand(script[i]) && script[i].ah == 0 && script[i].al == 0
                                          && ComponentsOk(script[i], n))
    && (forall j, c :: 0 <= j < |script| && c in script[j].components ==> !SentBy(script, j, c))
    && forall c :: 0 <= c < n ==> SentBy(script, |script|, c)
  }

  /** One of the first m scans sends component c. */
  ghost predicate SentBy(script: seq<ScanInfo>, m: nat, c: int)
    requires m <= |script|
  {
    exists i :: 0 <= i < m && c in script[i].components
  }

  datatype Verdict = Valid(progressive: bool) | Rejected(error: ScriptError)
  datatype ScriptError = BadScanScript | ComponentCount | BadProgScript | MissingData

  /** The component checks of one scan. */
  method CheckComponents(s: ScanInfo, n: nat) returns (ok: bool, error: ScriptError)
    ensures ok <==> ComponentsOk(s, n)
  {
    ok, error := false, ComponentCount;
    if |s.components| <= 0 || |s.components| > MAX_COMPS_IN_SCAN {
      return;
    }
    error := BadScanScript;
    var ci := 0;
    while ci < |s.components|
      invariant 0 <= ci <= |s.components|
      invariant forall i :: 0 <= i < ci ==> 0 <= s.components[i] < n
      invariant forall i {:trigger s.components[i - 1]} :: 0 < i < ci ==> s.components[i - 1] < s.components[i]
    {
      var thisi := s.components[ci];
      if thisi < 0 || thisi >= n {
        return;
      }
      if ci > 0 && thisi <= s.components[ci - 1] {
        return;
      }
      ci := ci + 1;
    }
    ok := true;
  }

  /** The coefficient loop for one component of a progressive scan. */
  method CheckComponent(s: ScanInfo, last: seq<int>) returns (ok: bool, next: seq<int>)
    requires |last| == DCTSIZE2 && ParametersOk(s)
    ensures ok <==> ComponentOk(s, last)
    ensures ok ==> next == NextOf(s, last, DCTSIZE2)
  {
    ok, next := false, last;
    if s.ss != 0 && next[0] < 0 {
      return;
    }
    var coefi := s.ss;
    while coefi <= s.se
      invariant s.ss <= coefi <= s.se + 1
      invariant next == NextOf(s, last, coefi)
      invariant forall k :: s.ss <= k < coefi ==> CoefOk(s, last[k])
    {
      if next[coefi] < 0 {
        if s.ah != 0 {
          return;
        }
      } else {
        if s.ah != next[coefi] || s.al != s.ah - 1 {
          return;
        }
      }
      next := next[coefi := s.al];
      coefi := coefi + 1;
    }
    ok := true;
  }

  /** The positions after the first m components of the scan. */
  function NextPosTo(s: ScanInfo, pos: BitPos, m: nat): (r: BitPos)
    requires Shape(pos) && m <= |s.components|
    ensures |r| == |pos| && Shape(r)
  {
    seq(|pos|, c requires 0 <= c < |pos| =>
      if c in s.components[..m] then NextOf(s, pos[c], DCTSIZE2) else pos[c])
  }

  lemma ComponentsDistinct(s: ScanInfo, n: nat, m: nat)
    requires ComponentsOk(s, n) && m < |s.components|
    ensures s.components[m] !in s.components[..m]
    ensures forall c :: c in s.components[..m + 1] <==> c in s.components[..m] || c == s.components[m]
  {
    Ascending(s, n, m);
    assert s.components[..m + 1] == s.components[..m] + [s.components[m]];
  }

  lemma {:induction false} Ascending(s: ScanInfo, n: nat, m: nat)
    requires ComponentsOk(s, n) && m < |s.components|
    ensures forall i :: 0 <= i < m ==> s.components[i] < s.components[m]
    decreases m
  {
    if m > 0 {
      Ascending(s, n, m - 1);
      assert s.components[m - 1] < s.components[m];
    }
  }

  /** One scan of a progressive script: all its checks, and the new bit positions. */
  method CheckScan(s: ScanInfo, pos: BitPos) returns (ok: bool, next: BitPos)
    requires Shape(pos) && ComponentsOk(s, |pos|)
    ensures ok <==> ScanOk(s, pos)
    ensures ok ==> next == NextPos(s, pos)
  {
    ok, next := false, pos;
    if !ParametersOk(s) {
      return;
    }
    var ci := 0;
    while ci < |s.components|
      invariant 0 <= ci <= |s.components|
      invariant next == NextPosTo(s, pos, ci)
      invariant forall i :: 0 <= i < ci ==> ComponentOk(s, pos[s.components[i]])
    {
      ComponentsDistinct(s, |pos|, ci);
      var c := s.components[ci];
      var good, row := CheckComponent(s, next[c]);
      if !good {
        return;
      }
      next := next[c := row];
      ci := ci + 1;
    }
    assert s.components[..ci] == s.components;
    ok := true;
  }

  /** A progressive script, scan by scan. */
  method ValidateProgressive(script: seq<ScanInfo>, n: nat) returns (v: Verdict)
    requires |script| > 0 && !FullBand(script[0])
    ensures v.Valid? <==> Progressive(script, n)
    ensures v.Valid? ==> v.progressive
  {
    var pos := Unsent(n);
    var scanno := 0;
    while scanno < |script|
      invariant 0 <= scanno <= |script|
      invariant |pos| == n && Shape(pos)
      invariant ScansOk(script, Unsent(n)) <==> ScansOk(script[scanno..], pos)
      invariant FinalPos(script, Unsent(n)) == FinalPos(script[scanno..], pos)
    {
      assert script[scanno..][0] == script[scanno] && script[scanno..][1..] == script[scanno + 1..];
      var ok, error := CheckComponents(script[scanno], n);
      if !ok {
        return Rejected(error);
      }
      ok, pos := CheckScan(script[scanno], pos);
      if !ok {
        return Rejected(BadProgScript);
      }
      scanno := scanno + 1;
    }
    var ci := 0;
    while ci < n
      invariant 0 <= ci <= n
      invariant forall c :: 0 <= c < ci ==> pos[c][0] >= 0
    {
      if pos[ci][0] < 0 {
        return Rejected(MissingData);
      }
      ci := ci + 1;
    }
    v := Valid(true);
  }

  /** component_sent says which components the first m scans send, and the first k of the next one. */
  ghost predicate SentFlags(script: seq<ScanInfo>, m: nat, k: nat, sent: seq<bool>)
    requires m <= |script| && (m < |script| ==> k <= |script[m].components|)
  {
    forall c :: 0 <= c < |sent| ==>
      (sent[c] <==> SentBy(script, m, c) || (m < |script| && c in script[m].components[..k]))
  }

  /** The component loop of a sequential scan. */
  method MarkSent(script: seq<ScanInfo>, m: nat, n: nat, sent0: seq<bool>) returns (ok: bool, sent: seq<bool>)
    requires m < |script| && ComponentsOk(script[m], n) && |sent0| == n && SentFlags(script, m, 0, sent0)
    ensures ok <==> forall c :: c in script[m].components ==> !SentBy(script, m, c)
    ensures ok ==> |sent| == n && SentFlags(script, m + 1, 0, sent)
  {
    ok, sent := false, sent0;
    ghost var s := script[m];
    var ci := 0;
    while ci < |script[m].components|
      invariant 0 <= ci <= |s.components| && |sent| == n
      invariant SentFlags(script, m, ci, sent)
      invariant forall i :: 0 <= i < ci ==> !SentBy(script, m, s.components[i])
    {
      ComponentsDistinct(s, n, ci);
      var thisi := script[m].components[ci];
      if sent[thisi] {
        return;
      }
      sent := sent[thisi := true];
      ci := ci + 1;
    }
    assert s.components[..ci] == s.components;
    ok := true;
  }

  /** A sequential script, scan by scan. */
  method ValidateSequential(script: seq<ScanInfo>, n: nat) returns (v: Verdict)
    requires |script| > 0 && FullBand(script[0])
    ensures v.Valid? <==> Sequential(script, n)
    ensures v.Valid? ==> !v.progressive
  {
    var sent := seq(n, _ => false);
    var scanno := 0;
    while scanno < |script|
      invariant 0 <= scanno <= |script| && |sent| == n
      invariant SentFlags(script, scanno, 0, sent)
      invariant forall i :: 0 <= i < scanno ==> FullBand(script[i]) && script[i].ah == 0 && script[i].al == 0
                                                && ComponentsOk(script[i], n)
      invariant forall j, c :: 0 <= j < scanno && c in script[j].components ==> !SentBy(script, j, c)
    {
      var s := script[scanno];
      var ok, error := CheckComponents(s, n);
      if !ok {
        return Rejected(error);
      }
      if s.ss != 0 || s.se != DCTSIZE2 - 1 || s.ah != 0 || s.al != 0 {
        return Rejected(BadProgScript);
      }
      ok, sent := MarkSent(script, scanno, n, sent);
      if !ok {
        return Rejected(BadScanScript);
      }
      scanno := scanno + 1;
    }
    var ci := 0;
    while ci < n
      invariant 0 <= ci <= n
      invariant forall c :: 0 <= c < ci ==> SentBy(script, |script|, c)
    {
      if !sent[ci] {
        return Rejected(MissingData);
      }
      ci := ci + 1;
    }
    v := Valid(false);
  }

  /** validate_script: accepts exactly the legal progressive and sequential scripts. */
  method ValidateScript(script: seq<ScanInfo>, n: nat) returns (v: Verdict)
    ensures v.Valid? <==> Progressive(script, n) || Sequential(script, n)
    ensures v.Valid? ==> (v.progressive <==> Progressive(script, n))
  {
    if |script| <= 0 {
      return Rejected(BadScanScript);
    }
    if script[0].ss != 0 || script[0].se != DCTSIZE2 - 1 {
      v := ValidateProgressive(script, n);
    } else {
      v := ValidateSequential(script, n);
    }
  }
}
