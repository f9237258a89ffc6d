/** The passes of the compressor: prepare_for_pass, pass_startup and finish_pass_master of jcmaster.c, driven by
    jpeg_start_compress, jpeg_write_scanlines and jpeg_finish_compress (jcapistd.c, jcapimin.c). */
module PassSchedule {
  import opened BlockCoding
  import opened ScanScript

  datatype PassType = MainPass | HuffOptPass | OutputPass

  /** How the coefficient controller runs: single pass, saving the coefficients, or from saved coefficients. */
  datatype BufferMode = PassThru | SaveAndPass | CrankDest

  /** What a pass does to the outside: it counts symbols, or writes headers and the data of a scan. */
  datatype Event = Gather(scan: ScanInfo) | FrameHeader | ScanHeader(scan: ScanInfo) | ScanData(scan: ScanInfo, last: bool) | Trailer

  /** A refinement scan of DC coefficients: it has no Huffman symbols. */
  predicate DcRefinement(s: ScanInfo) {
    s.ss == 0 && s.ah != 0
  }

  /** The scans of an image with n components: those of the script, or without one a single sequential scan. */
  function Scans(script: seq<ScanInfo>, n: nat): (r: seq<ScanInfo>)
    ensures |r| > 0
  {
    if script == [] then [ScanInfo(seq(n, i => i), 0, DCTSIZE2 - 1, 0, 0)] else script
  }

  /** validate_script accepts the script, or there is none. */
  ghost predicate ScriptOk(script: seq<ScanInfo>, n: nat) {
    script == [] || Progressive(script, n) || Sequential(script, n)
  }

  /** The script is given, or a single scan can hold all components, of which there is at least one. */
  predicate Selectable(script: seq<ScanInfo>, n: nat) {
    n > 0 && (script != [] || n <= MAX_COMPS_IN_SCAN)
  }

  /** The scans are those of a legal script, so that together they send every component. */
  ghost predicate LegalScans(scans: seq<ScanInfo>, n: nat) {
    Progressive(scans, n) || Sequential(scans, n)
  }

  /** The single scan that is made without a script is a legal sequential script: all coefficients of all components. */
  lemma ScansLegal(script: seq<ScanInfo>, n: nat)
    requires ScriptOk(script, n) && Selectable(script, n)
    ensures LegalScans(Scans(script, n), n) && (script == [] ==> Sequential(Scans(script, n), n))
  {
    hide Progressive;
    if script == [] {
      var scans := Scans(script, n);
      assert FullBand(scans[0]) && ComponentsOk(scans[0], n);
      forall c | 0 <= c < n
        ensures SentBy(scans, 1, c)
      {
        assert scans[0].components[c] == c;
      }
    }
  }

  lemma FirstScanNotRefined(script: seq<ScanInfo>, n: nat)
    requires ScriptOk(script, n)
    ensures !DcRefinement(Scans(script, n)[0])
  {
    if Progressive(script, n) {
      var s := script[0];
      assert ScanOk(s, Unsent(n));
      assert ComponentOk(s, Unsent(n)[s.components[0]]);
      assert CoefOk(s, Unsent(n)[s.components[0]][s.ss]);
    }
  }

  // ----- what is promised -----

  /** The output of scan i; the frame header comes before the first one. */
  function Output(scans: seq<ScanInfo>, i: nat): seq<Event>
    requires i < |scans|
  {
    (if i == 0 then [FrameHeader] else []) + [ScanHeader(scans[i]), ScanData(scans[i], i == |scans| - 1)]
  }

  /** The whole run from scan i on: each scan's statistics, unless it has no symbols, and then its output. */
  function Schedule(scans: seq<ScanInfo>, i: nat, optimize: bool): seq<Event>
    requires i <= |scans|
    decreases |scans| - i
  {
    if i == |scans| then [Trailer]
    else Statistics(scans[i], optimize) + Output(scans, i) + Schedule(scans, i + 1, optimize)
  }

  function Statistics(s: ScanInfo, optimize: bool): seq<Event> {
    if optimize && !DcRefinement(s) then [Gather(s)] else []
  }

  /** The data written, in order. */
  function Written(log: seq<Event>): seq<ScanInfo> {
    if |log| == 0 then [] else (if log[0].ScanData? then [log[0].scan] else []) + Written(log[1..])
  }

  lemma WrittenFirst(e: Event, log: seq<Event>)
    ensures Written([e] + log) == (if e.ScanData? then [e.scan] else []) + Written(log)
  {
    assert ([e] + log)[1..] == log;
  }

  lemma {:induction false} WrittenConcat(a: seq<Event>, b: seq<Event>)
    ensures Written(a + b) == Written(a) + Written(b)
  {
    hide Written;
    if |a| == 0 {
      assert a + b == b;
      NothingWritten();
    } else {
      WrittenConcat(a[1..], b);
      WrittenFirst(a[0], a[1..]);
      WrittenFirst(a[0], a[1..] + b);
      assert [a[0]] + a[1..] == a && [a[0]] + (a[1..] + b) == a + b;
    }
  }

  lemma NothingWritten()
    ensures Written([]) == []
  {
  }

  lemma StatisticsOnly(s: ScanInfo, optimize: bool)
    ensures Written(Statistics(s, optimize)) == []
  {
    if optimize && !DcRefinement(s) {
      assert [Gather(s)][1..] == [];
    }
  }

  lemma OutputOnly(scans: seq<ScanInfo>, i: nat)
    requires i < |scans|
    ensures Written(Output(scans, i)) == [scans[i]]
  {
    hide Written;
    var header, data := ScanHeader(scans[i]), ScanData(scans[i], i == |scans| - 1);
    NothingWritten();
    WrittenFirst(data, []);
    WrittenFirst(header, [data]);
    WrittenFirst(FrameHeader, [header, data]);
    assert [header] + [data] == [header, data] && [data] + [] == [data] && [] + [header, data] == [header, data];
  }

  /** Every scan is written once, in the order of the script. */
  lemma {:induction false} EachScanOnce(scans: seq<ScanInfo>, i: nat, optimize: bool)
    requires i <= |scans|
    ensures Written(Schedule(scans, i, optimize)) == scans[i..]
    decreases |scans| - i
  {
    hide Written, Output, Statistics;
    if i == |scans| {
      NothingWritten();
      WrittenFirst(Trailer, []);
      assert [Trailer] + [] == [Trailer];
    } else {
      EachScanOnce(scans, i + 1, optimize);
      StatisticsOnly(scans[i], optimize);
      OutputOnly(scans, i);
      WrittenConcat(Statistics(scans[i], optimize) + Output(scans, i), Schedule(scans, i + 1, optimize));
      WrittenConcat(Statistics(scans[i], optimize), Output(scans, i));
      assert scans[i..] == [scans[i]] + scans[i + 1..];
    }
  }

  /** The data written at place k has its scan header right before it, and before that its statistics, if it has any;
      the first header is behind the only frame header. */
  ghost predicate InOrder(log: seq<Event>, optimize: bool) {
    forall k :: 0 <= k < |log| && log[k].ScanData? ==> Prepared(log, k, optimize)
  }

  ghost predicate Prepared(log: seq<Event>, k: nat, optimize: bool)
    requires k < |log| && log[k].ScanData?
  {
    && k >= 1 && log[k - 1] == ScanHeader(log[k].scan)
    && (optimize && (log[k].scan.ss != 0 || log[k].scan.ah == 0) ==>
          k >= 2 && (log[k - 2] == Gather(log[k].scan) || (k >= 3 && log[k - 2] == FrameHeader && log[k - 3] == Gather(log[k].scan))))
  }

  lemma {:induction false} ScheduleInOrder(scans: seq<ScanInfo>, i: nat, optimize: bool)
    requires i <= |scans|
    ensures InOrder(Schedule(scans, i, optimize), optimize)
    decreases |scans| - i
  {
    if i < |scans| {
      ScheduleInOrder(scans, i + 1, optimize);
      var one, rest := Statistics(scans[i], optimize) + Output(scans, i), Schedule(scans, i + 1, optimize);
      var log := one + rest;
      forall k | 0 <= k < |log| && log[k].ScanData?
        ensures Prepared(log, k, optimize)
      {
        if k >= |one| {
          assert rest[k - |one|] == log[k];
          assert Prepared(rest, k - |one|, optimize);
        }
      }
    }
  }

  /** The only frame header comes before all other headers and data. */
  lemma OneFrameHeader(scans: seq<ScanInfo>, optimize: bool)
    requires |scans| > 0
    ensures var f := |Statistics(scans[0], optimize)|;
      && f < |Schedule(scans, 0, optimize)| && Schedule(scans, 0, optimize)[f] == FrameHeader
      && (forall k :: 0 <= k < f ==> Schedule(scans, 0, optimize)[k].Gather?)
      && forall k :: f < k < |Schedule(scans, 0, optimize)| ==> Schedule(scans, 0, optimize)[k] != FrameHeader
  {
    var st, o, rest := Statistics(scans[0], optimize), Output(scans, 0), Schedule(scans, 1, optimize);
    NoFrameHeader(scans, 1, optimize);
    assert Schedule(scans, 0, optimize) == st + (o + rest);
    assert o[0] == FrameHeader;
  }

  lemma {:induction false} NoFrameHeader(scans: seq<ScanInfo>, i: nat, optimize: bool)
    requires 0 < i <= |scans|
    ensures forall k :: 0 <= k < |Schedule(scans, i, optimize)| ==> Schedule(scans, i, optimize)[k] != FrameHeader
    decreases |scans| - i
  {
    if i < |scans| {
      NoFrameHeader(scans, i + 1, optimize);
    }
  }

  lemma DataEnds(scans: seq<ScanInfo>, i: nat, optimize: bool)
    requires i < |scans|
    ensures var one := Statistics(scans[i], optimize) + Output(scans, i);
      |one| > 0 && one[|one| - 1] == ScanData(scans[i], i == |scans| - 1) && forall k :: 0 <= k < |one| - 1 ==> !one[k].ScanData?
  {
  }

  /** is_last_pass is set for the data of the last scan, and for no other. */
  lemma {:induction false} LastIsLast(scans: seq<ScanInfo>, i: nat, optimize: bool, k: nat)
    requires i <= |scans| && k < |Schedule(scans, i, optimize)| && Schedule(scans, i, optimize)[k].ScanData?
    ensures Schedule(scans, i, optimize)[k].last <==> Written(Schedule(scans, i, optimize)[k + 1..]) == []
    decreases |scans| - i
  {
    hide Written, Statistics, Output;
    if i < |scans| {
      var log := Schedule(scans, i, optimize);
      var one, rest := Statistics(scans[i], optimize) + Output(scans, i), Schedule(scans, i + 1, optimize);
      DataEnds(scans, i, optimize);
      EachScanOnce(scans, i + 1, optimize);
      if k < |one| {
        assert k == |one| - 1;
        assert log[k + 1..] == rest;
      } else {
        LastIsLast(scans, i + 1, optimize, k - |one|);
        assert log[k + 1..] == rest[k - |one| + 1..];
      }
    }
  }

  /** Where an event stands: statistics only for scans that have symbols, if coding is optimized at all, right before the scan's
      headers; the frame header before the first scan header; data right behind its header, marked as the last before the
      trailer; the trailer at the end. */
  ghost predicate InPlace(log: seq<Event>, k: nat, optimize: bool)
    requires k < |log|
  {
    match log[k]
    case Gather(s) => optimize && !(s.ss == 0 && s.ah != 0) && HeaderFollows(log, k + 1, s)
    case FrameHeader => k <= 1 && k + 1 < |log| && log[k + 1].ScanHeader?
    case ScanHeader(s) => k + 1 < |log| && log[k + 1].ScanData? && log[k + 1].scan == s
    case ScanData(s, last) => Prepared(log, k, optimize) && k + 1 < |log| && (last <==> log[k + 1] == Trailer)
    case Trailer => k == |log| - 1
  }

  ghost predicate HeaderFollows(log: seq<Event>, k: nat, s: ScanInfo) {
    (k < |log| && log[k] == ScanHeader(s)) || (k + 1 < |log| && log[k] == FrameHeader && log[k + 1] == ScanHeader(s))
  }

  ghost predicate Arranged(log: seq<Event>, optimize: bool) {
    && |log| > 0 && log[|log| - 1] == Trailer && (exists k :: 0 <= k <= 1 && k < |log| && log[k] == FrameHeader)
    && forall k :: 0 <= k < |log| ==> InPlace(log, k, optimize)
  }

  /** A scan's events are in their places if what follows begins as it should. */
  lemma OneInPlace(scans: seq<ScanInfo>, i: nat, optimize: bool, rest: seq<Event>, k: nat)
    requires i < |scans| && |rest| > 0 && (rest[0] == Trailer <==> i + 1 == |scans|)
    requires k < |Statistics(scans[i], optimize) + Output(scans, i)|
    ensures InPlace(Statistics(scans[i], optimize) + Output(scans, i) + rest, k, optimize)
  {
  }

  /** The events of the scans from i on are in their places, whatever comes before. */
  lemma {:induction false} AllInPlace(scans: seq<ScanInfo>, i: nat, optimize: bool, k: nat)
    requires i <= |scans| && k < |Schedule(scans, i, optimize)|
    ensures InPlace(Schedule(scans, i, optimize), k, optimize)
    decreases |scans| - i
  {
    hide Statistics, Output, InPlace;
    if i < |scans| {
      var one, rest := Statistics(scans[i], optimize) + Output(scans, i), Schedule(scans, i + 1, optimize);
      RestStarts(scans, i + 1, optimize);
      if k >= |one| {
        NoFrameHeader(scans, i + 1, optimize);
        AllInPlace(scans, i + 1, optimize, k - |one|);
        Later(one, rest, k - |one|, optimize);
      } else {
        OneInPlace(scans, i, optimize, rest, k);
      }
    } else {
      TrailerInPlace(optimize);
    }
  }

  lemma TrailerInPlace(optimize: bool)
    ensures InPlace([Trailer], 0, optimize)
  {
  }

  lemma RestStarts(scans: seq<ScanInfo>, i: nat, optimize: bool)
    requires i <= |scans|
    ensures |Schedule(scans, i, optimize)| > 0 && (Schedule(scans, i, optimize)[0] == Trailer <==> i == |scans|)
  {
  }

  lemma Later(one: seq<Event>, rest: seq<Event>, k: nat, optimize: bool)
    requires k < |rest| && InPlace(rest, k, optimize) && rest[k] != FrameHeader
    ensures InPlace(one + rest, |one| + k, optimize)
  {
    var log := one + rest;
    assert forall j :: 0 <= j < |rest| ==> log[|one| + j] == rest[j];
  }

  lemma ScheduleArranged(scans: seq<ScanInfo>, optimize: bool)
    requires |scans| > 0
    ensures Arranged(Schedule(scans, 0, optimize), optimize)
  {
    hide InPlace, Output, Statistics;
    OneFrameHeader(scans, optimize);
    StatisticsSize(scans[0], optimize);
    EndsWithTrailer(scans, 0, optimize);
    var log := Schedule(scans, 0, optimize);
    forall k | 0 <= k < |log|
      ensures InPlace(log, k, optimize)
    {
      AllInPlace(scans, 0, optimize, k);
    }
  }

  lemma StatisticsSize(s: ScanInfo, optimize: bool)
    ensures |Statistics(s, optimize)| <= 1
  {
  }

  lemma {:induction false} EndsWithTrailer(scans: seq<ScanInfo>, i: nat, optimize: bool)
    requires i <= |scans|
    ensures |Schedule(scans, i, optimize)| > 0
    ensures Schedule(scans, i, optimize)[|Schedule(scans, i, optimize)| - 1] == Trailer
    decreases |scans| - i
  {
    if i < |scans| {
      EndsWithTrailer(scans, i + 1, optimize);
    }
  }

  /** The events of scan i at the head of what is left. */
  lemma ScheduleHead(scans: seq<ScanInfo>, i: nat, optimize: bool)
    requires i <= |scans|
    ensures i == |scans| ==> Schedule(scans, i, optimize) == [Trailer]
    ensures i < |scans| && !(optimize && !DcRefinement(scans[i])) ==>
      Schedule(scans, i, optimize) == Output(scans, i) + Schedule(scans, i + 1, optimize)
    ensures i < |scans| && optimize && !DcRefinement(scans[i]) ==>
      Schedule(scans, i, optimize) == [Gather(scans[i])] + Output(scans, i) + Schedule(scans, i + 1, optimize)
  {
  }

  lemma OutputHead(scans: seq<ScanInfo>, i: nat, rest: seq<Event>, log: seq<Event>)
    requires i < |scans|
    ensures log + (Output(scans, i) + rest)
         == log + (if i == 0 then [FrameHeader] else []) + [ScanHeader(scans[i])] + ([ScanData(scans[i], i == |scans| - 1)] + rest)
  {
  }

  lemma OneMore(log: seq<Event>, e: Event, a: seq<Event>, b: seq<Event>)
    ensures log + ([e] + a + b) == log + [e] + (a + b)
    ensures log + ([e] + b) == log + [e] + b
  {
  }

  // ----- the state machine -----

  class CompMaster {
    const script: seq<ScanInfo>
    const n: nat
    const transcode: bool
    const fullBuffer: bool
    const optimize: bool
    const totalPasses: nat
    var passType: PassType
    var passNumber: nat
    var scanNumber: nat
    var isLastPass: bool
    var callPassStartup: bool
    // the scan whose parameters are in force, and whether the entropy coder counts or writes
    var cur: ScanInfo
    var gathering: bool
    var log: seq<Event>

    ghost function All(): seq<ScanInfo> {
      Scans(script, n)
    }

    /** What is still to be done when the next pass is about to begin. */
    ghost function Remaining(): seq<Event>
      reads this`passType, this`scanNumber
      requires scanNumber <= |All()| && (scanNumber == |All()| ==> !passType.MainPass?)
    {
      if scanNumber == |All()| then [Trailer]
      else match passType
        case OutputPass => Output(All(), scanNumber) + Schedule(All(), scanNumber + 1, optimize)
        case _ => Schedule(All(), scanNumber, optimize)
    }

    /** The parts that never change fit together. */
    ghost predicate Settled() {
      && ScriptOk(script, n) && Selectable(script, n)
      && totalPasses == |All()| * (if optimize then 2 else 1)
      && (!transcode ==> (fullBuffer <==> |All()| > 1 || optimize))
    }

    /** Between passes. */
    ghost predicate Between()
      reads this
    {
      && Settled() && scanNumber <= |All()| && !callPassStartup
      && (passType.MainPass? ==> !transcode && scanNumber == 0 && passNumber == 0)
      && (passType.HuffOptPass? ==> optimize && passNumber == 2 * scanNumber)
      && (passType.OutputPass? && optimize ==> passNumber == 2 * scanNumber + 1 && scanNumber < |All()| && cur == All()[scanNumber])
      && (passType.OutputPass? && !optimize ==> passNumber == scanNumber)
      && (isLastPass <==> scanNumber == |All()|)
      && log + Remaining() == Schedule(All(), 0, optimize)
      && (scanNumber == |All()| ==> !passType.MainPass?)
      && (!transcode && !passType.MainPass? && scanNumber < |All()| ==> fullBuffer)
    }

    /** jinit_c_master_control, and the coefficient controller's buffer (jcinit.c). */
    constructor (script: seq<ScanInfo>, n: nat, progressive: bool, optimizeCoding: bool, transcode: bool)
      requires ScriptOk(script, n) && Selectable(script, n) && (progressive <==> script != [] && Progressive(script, n))
      ensures Between() && this.script == script && this.n == n && this.transcode == transcode
      ensures optimize == (optimizeCoding || progressive) && log == [] && !isLastPass && scanNumber == 0 && passNumber == 0
    {
      var numScans := if script == [] then 1 else |script|;
      var opt := optimizeCoding || progressive;
      this.script, this.n, this.transcode := script, n, transcode;
      this.optimize := opt;
      this.passType := if transcode then (if opt then HuffOptPass else OutputPass) else MainPass;
      this.scanNumber, this.passNumber := 0, 0;
      this.totalPasses := if opt then numScans * 2 else numScans;
      this.isLastPass, this.callPassStartup := false, false;
      this.fullBuffer := numScans > 1 || opt;
      this.cur, this.gathering, this.log := ScanInfo([], 0, 0, 0, 0), false, [];
      new;
      FirstScanNotRefined(script, n);
    }

    /** What is still to be done when a pass is under way. */
    ghost function Rest(): seq<Event>
      reads this`passType, this`scanNumber, this`gathering, this`cur, this`callPassStartup
      requires scanNumber < |All()|
    {
      (if gathering then [Gather(cur)] + Output(All(), scanNumber)
       else if callPassStartup then Output(All(), scanNumber)
       else [ScanData(cur, scanNumber == |All()| - 1)])
      + Schedule(All(), scanNumber + 1, optimize)
    }

    /** During a pass. */
    ghost predicate During()
      reads this
    {
      && Settled() && scanNumber < |All()| && cur == All()[scanNumber]
      && (passType.MainPass? ==> !transcode && scanNumber == 0 && passNumber == 0 && (gathering <==> optimize))
      && (passType.HuffOptPass? ==> optimize && gathering && passNumber == 2 * scanNumber)
      && (passType.OutputPass? ==> !gathering && passNumber == if optimize then 2 * scanNumber + 1 else scanNumber)
      && (callPassStartup ==> passType.MainPass? && !optimize)
      && (isLastPass <==> !gathering && scanNumber == |All()| - 1)
      && log + Rest() == Schedule(All(), 0, optimize)
      && (!transcode && !passType.MainPass? ==> fullBuffer)
    }

    /** select_scan_parameters. */
    method SelectScanParameters()
      requires Settled() && scanNumber < |All()|
      modifies this`cur
      ensures cur == All()[scanNumber]
    {
      if script != [] {
        cur := script[scanNumber];
      } else {
        cur := ScanInfo(seq(n, i => i), 0, DCTSIZE2 - 1, 0, 0);
      }
    }

    /** start_pass_coef: does the mode fit the buffers that were allocated? */
    method StartCoef(mode: BufferMode) returns (ok: bool)
      ensures ok <==> if transcode then mode.CrankDest? else mode.PassThru? <==> !fullBuffer
    {
      if transcode {
        return mode == CrankDest;
      }
      match mode
      case PassThru => ok := !fullBuffer;
      case SaveAndPass => ok := fullBuffer;
      case CrankDest => ok := fullBuffer;
    }

    /** prepare_for_pass. It never asks the coefficient controller for a mode it cannot run in. */
    method PrepareForPass() returns (ok: bool)
      requires Between() && !isLastPass
      modifies this
      ensures ok && During() && scanNumber == old(scanNumber) && passNumber >= old(passNumber)
      ensures passNumber == old(passNumber) + if old(passType).HuffOptPass? && DcRefinement(cur) then 1 else 0
      ensures callPassStartup <==> passType.MainPass? && !optimize
    {
      hide Schedule, Output, ScriptOk, Scans;
      FirstScanNotRefined(script, n);
      ScheduleHead(All(), scanNumber, optimize);
      OutputHead(All(), scanNumber, Schedule(All(), scanNumber + 1, optimize), log);
      match passType {
        case MainPass =>
          SelectScanParameters();
          gathering := optimize;
          ok := StartCoef(if totalPasses > 1 then SaveAndPass else PassThru);
          callPassStartup := !optimize;
        case HuffOptPass =>
          SelectScanParameters();
          if cur.ss != 0 || cur.ah == 0 {
            gathering := true;
            ok := StartCoef(CrankDest);
            callPassStartup := false;
          } else {
            passType := OutputPass;
            passNumber := passNumber + 1;
            ok := StartOutput();
          }
        case OutputPass =>
          ok := StartOutput();
      }
      isLastPass := passNumber == totalPasses - 1;
    }

    /** The data-output case of prepare_for_pass. */
    method StartOutput() returns (ok: bool)
      requires Settled() && scanNumber < |All()| && (optimize ==> cur == All()[scanNumber]) && (transcode || fullBuffer)
      modifies this`cur, this`gathering, this`callPassStartup, this`log
      ensures ok && cur == All()[scanNumber] && !gathering && !callPassStartup
      ensures log == old(log) + (if scanNumber == 0 then [FrameHeader] else []) + [ScanHeader(cur)]
    {
      if !optimize {
        SelectScanParameters();
      }
      gathering := false;
      ok := StartCoef(CrankDest);
      if scanNumber == 0 {
        log := log + [FrameHeader];
      }
      log := log + [ScanHeader(cur)];
      callPassStartup := false;
    }

    /** pass_startup: the delayed headers of a single-pass run. */
    method PassStartup()
      requires During() && callPassStartup
      modifies this`callPassStartup, this`log
      ensures During() && !callPassStartup
    {
      callPassStartup := false;
      log := log + [FrameHeader] + [ScanHeader(cur)];
    }

    /** finish_pass_master; the entropy coder's finish_pass ends the counting or the writing. */
    method FinishPass()
      requires During() && !callPassStartup
      modifies this
      ensures Between() && passNumber == old(passNumber) + 1
      ensures log == old(log) + [if old(gathering) then Gather(old(cur)) else ScanData(old(cur), old(isLastPass))]
    {
      hide Schedule, Output, ScriptOk, Scans, DcRefinement;
      ScheduleHead(All(), scanNumber + 1, optimize);
      OneMore(log, if gathering then Gather(cur) else ScanData(cur, isLastPass), Output(All(), scanNumber), Schedule(All(), scanNumber + 1, optimize));
      log := log + [if gathering then Gather(cur) else ScanData(cur, isLastPass)];
      match passType {
        case MainPass =>
          passType := OutputPass;
          if !optimize {
            scanNumber := scanNumber + 1;
          }
        case HuffOptPass =>
          passType := OutputPass;
        case OutputPass =>
          if optimize {
            passType := HuffOptPass;
          }
          scanNumber := scanNumber + 1;
      }
      passNumber := passNumber + 1;
    }

    /** A whole run: the passes until is_last_pass is set. */
    method Compress() returns (ok: bool)
      requires Between() && scanNumber == 0 && passNumber == 0 && !isLastPass && (transcode <==> !passType.MainPass?)
      modifies this
      ensures ok && log == Schedule(Scans(script, n), 0, optimize) && passNumber == totalPasses
      ensures Arranged(log, optimize) && LegalScans(Written(log), n)
      ensures Written(log) == Scans(script, n) && (script != [] ==> Written(log) == script) && (script == [] ==> |Written(log)| == 1)
    {
      ok := true;
      if !transcode {
        ok := PrepareForPass();
        if callPassStartup {
          PassStartup();
        }
        FinishPass();
      }
      while !isLastPass
        invariant ok && Between() && passNumber <= totalPasses
        decreases totalPasses - passNumber
      {
        ok := PrepareForPass();
        FinishPass();
      }
      log := log + [Trailer];
      hide Schedule, ScriptOk, Arranged, Written, LegalScans;
      ScansLegal(script, n);
      ScheduleArranged(Scans(script, n), optimize);
      EachScanOnce(Scans(script, n), 0, optimize);
      assert Scans(script, n)[0..] == Scans(script, n);
    }
  }
}
