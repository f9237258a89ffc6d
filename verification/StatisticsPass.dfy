/** The end of a statistics pass (finish_pass_gather of jchuff.c, finish_pass_gather_phuff of jcphuff.c): a table is generated
    from the counts of each table that the scan uses, once, although several components may use it. */
module StatisticsPass {
  import opened ByteStream
  import opened HuffTable
  import opened Symbols
  import opened ScanCoding
  import opened ScanEncoding
  import opened ScanSymbols
  import opened HuffmanForest
  import opened OptimalCodeSizes
  import opened SymbolLengths
  import opened OptimalTable
  import opened OptimizedScan

  // ----- what a pass can count -----

  /** Of sixteen consecutive symbols at most twelve are usual. */
  lemma {:induction false} UsualUsed(f: Counts, n: nat)
    requires n <= 256 && n <= |f| && forall x :: 0 <= x < n && f[x] > 0 ==> UsualSymbol(x)
    ensures Used(f, n) <= n / 16 * 12 + if n % 16 < 12 then n % 16 else 12
    decreases n
  {
    if n > 0 {
      UsualUsed(f, n - 1);
      assert (n - 1) % 16 == 15 ==> n / 16 == (n - 1) / 16 + 1 && n % 16 == 0;
      assert (n - 1) % 16 != 15 ==> n / 16 == (n - 1) / 16 && n % 16 == (n - 1) % 16 + 1;
    }
  }

  /** A pass that takes no error exit counts at most 192 different symbols with any table, so that no byte overflows when the
      table is generated; and at least one with each table that the scan uses. */
  lemma PassCounts(sc: Scan, ts: seq<Table>, mcus: seq<Mcu>, f: Counts, tbl: nat)
    requires ValidScan(sc, |ts|) && FitsScan(sc, mcus)
    requires |Begin(sc).e.lastDc| == |sc.mcu.dcTbl| && PassInRange(sc, ts, Begin(sc), mcus)
    requires CountsOf(f, ScanItems(sc, mcus, |ts|), tbl)
    ensures Used(f, 256) <= 192
    ensures tbl in Uses(sc) && |mcus| > 0 && NoIdleComponent(sc) ==> exists s: Byte :: f[s] > 0
    ensures tbl !in Uses(sc) ==> forall s: Byte :: f[s] == 0
  {
    hide PassInRange, ScanItems, ScanSymbols.Countable, UsualSymbol, Uses, NoIdleComponent;
    var items := ScanItems(sc, mcus, |ts|);
    AllCounted(sc, ts, mcus);
    forall x: Byte | f[x] > 0
      ensures tbl in Uses(sc) && UsualSymbol(x)
    {
      OnlyUsual(items, Uses(sc), tbl, x);
    }
    UsualUsed(f, 256);
    if tbl in Uses(sc) && |mcus| > 0 && NoIdleComponent(sc) {
      ScanUses(sc, mcus, |ts|, tbl);
      var sym: nat :| Occurrences(items, tbl, sym) > 0;
      OnlyUsual(items, Uses(sc), tbl, sym);
      assert sym < 256 by { UsualIs(sym); }
      assert f[sym] > 0;
    }
  }

  lemma UsualIs(sym: nat)
    requires UsualSymbol(sym)
    ensures sym < 256
  {
  }

  // ----- the tables -----

  /** The arrays of counts are separate. */
  ghost predicate Rows(freqs: seq<array<nat>>) {
    && (forall t :: 0 <= t < |freqs| ==> freqs[t].Length == SYMBOLS)
    && forall t, u :: 0 <= t < u < |freqs| ==> freqs[t] != freqs[u]
  }

  /** A table can be generated from the counts f. */
  ghost predicate Suitable(f: Counts) {
    |f| == SYMBOLS && f[256] == 1 && (exists s: Byte :: f[s] > 0) && Used(f, 256) <= 254 && Mergeable(Bag(f, SYMBOLS))
  }

  ghost function Contents(freqs: seq<array<nat>>): (rows: seq<Counts>)
    reads freqs
    ensures |rows| == |freqs| && forall t :: 0 <= t < |rows| ==> rows[t] == freqs[t][..]
  {
    seq(|freqs|, t requires 0 <= t < |freqs| reads freqs => freqs[t][..])
  }

  /** The counts with the pseudo-symbol. */
  ghost function WithPseudos(rows: seq<Counts>): (fs: seq<Counts>)
    requires forall t :: 0 <= t < |rows| ==> |rows[t]| == SYMBOLS
    ensures |fs| == |rows| && forall t :: 0 <= t < |fs| ==> fs[t] == rows[t][256 := 1]
  {
    seq(|rows|, t requires 0 <= t < |rows| => rows[t][256 := 1])
  }

  /** What has been done is right, and the counts are still there for what has not. */
  ghost predicate Progress(rows: seq<Counts>, tables: seq<HuffTbl>, did: seq<bool>, fs: seq<Counts>, css: seq<seq<nat>>) {
    && |rows| == |tables| == |did| == |fs| == |css|
    && (forall t :: 0 <= t < |tables| ==> |rows[t]| == SYMBOLS && WellTyped(tables[t]))
    && forall t :: 0 <= t < |did| ==> if did[t] then TableFor(fs[t], css[t], tables[t]) else rows[t][256 := 1] == fs[t]
  }

  lemma ProgressIs(rows: seq<Counts>, tables: seq<HuffTbl>, did: seq<bool>, fs: seq<Counts>, css: seq<seq<nat>>, t: nat)
    requires Progress(rows, tables, did, fs, css) && t < |did|
    ensures |rows| == |tables| == |did| == |fs| == |css| && |rows[t]| == SYMBOLS == 257
    ensures |tables[t].bits| == 17 && |tables[t].huffval| == 256 && (!did[t] ==> rows[t][256 := 1] == fs[t])
  {
    hide TableFor;
  }

  lemma ProgressNext(rows: seq<Counts>, tables: seq<HuffTbl>, did: seq<bool>, fs: seq<Counts>, css: seq<seq<nat>>, t: nat,
                     row: Counts, table: HuffTbl, cs: seq<nat>)
    requires Progress(rows, tables, did, fs, css) && t < |did| && |row| == SYMBOLS && |table.bits| == 17 && |table.huffval| == 256
    requires TableFor(fs[t], cs, table)
    ensures Progress(rows[t := row], tables[t := table], did[t := true], fs, css[t := cs])
  {
    hide TableFor;
  }

  lemma RowSuits(row: Counts, f: Counts)
    requires |row| == SYMBOLS && row[256 := 1] == f && Suitable(f)
    ensures (exists s: Byte :: row[s] > 0) && Used(row, 256) <= 254 && Mergeable(Bag(row[256 := 1], SYMBOLS))
  {
    hide Mergeable, Bag, Used;
    UsedSame(row, f, 256);
    var s: Byte :| f[s] > 0;
    assert row[s] > 0;
  }

  lemma RowsAre(freqs: seq<array<nat>>, t: nat)
    requires Rows(freqs) && t < |freqs|
    ensures freqs[t].Length == SYMBOLS == 257 && forall u :: 0 <= u < |freqs| && u != t ==> freqs[u] != freqs[t]
  {
  }

  /** Generates table t unless that has been done. */
  method GenerateOnce(t: nat, freqs: seq<array<nat>>, tables: array<HuffTbl>, did: array<bool>, ghost fs: seq<Counts>,
                      ghost css: seq<seq<nat>>)
    returns (ok: bool, ghost css': seq<seq<nat>>)
    requires Rows(freqs) && Progress(Contents(freqs), tables[..], did[..], fs, css) && t < |freqs| == did.Length == |fs| && Suitable(fs[t])
    modifies freqs, tables, did
    ensures ok ==> Progress(Contents(freqs), tables[..], did[..], fs, css')
    ensures ok ==> did[t] && forall u :: 0 <= u < did.Length && old(did[u]) ==> did[u]
    ensures !ok ==> Total(fs[t], SYMBOLS) >= 9227465
  {
    hide *;
    ok, css' := true, css;
    ProgressIs(Contents(freqs), tables[..], did[..], fs, css, t);
    if !did[t] {
      ghost var rows0, tables0, did0 := Contents(freqs), tables[..], did[..];
      var table := tables[t];
      var bits := new Byte[17](i requires 0 <= i < 17 => table.bits[i]);
      var huffval := new Byte[256](i requires 0 <= i < 256 => table.huffval[i]);
      RowsAre(freqs, t);
      RowSuits(freqs[t][..], fs[t]);
      var outcome;
      ghost var cs;
      outcome, cs := GenOptimalTable(freqs[t], bits, huffval);
      if outcome != Made {
        return false, css;
      }
      tables[t] := HuffTbl(bits[..], huffval[..]);
      did[t] := true;
      css' := css[t := cs];
      ProgressNext(rows0, tables0, did0, fs, css, t, freqs[t][..], tables[t], cs);
      assert Contents(freqs) == rows0[t := freqs[t][..]];
      assert tables[..] == tables0[t := tables[t]] && did[..] == did0[t := true];
    }
  }

  /** Together the tables are what an output pass needs; those that the scan does not use do not matter. */
  lemma GeneratedTables(sc: Scan, rows: seq<Counts>, tables: seq<HuffTbl>, did: seq<bool>, fs: seq<Counts>,
                        css: seq<seq<nat>>, items: seq<Item>)
    returns (ts: seq<Table>)
    requires Progress(rows, tables, did, fs, css)
    requires Counted(sc, fs, items) && forall t :: t in Uses(sc) ==> t < |did| && did[t]
    ensures |ts| == |tables| && forall t :: t in Uses(sc) && t < |ts| ==> ts[t] == tables[t]
    ensures Generated(ts, fs, css, items)
  {
    hide Uses, Accepted, CodeLength, Codeword, SymbolsOk;
    ts := seq(|tables|, t requires 0 <= t < |tables| => if t in Uses(sc) && Accepted(tables[t]) then tables[t] else NoCodes());
    forall t | 0 <= t < |ts|
      ensures CountsOf(fs[t], items, t) && ((exists s: Byte :: fs[t][s] > 0) ==> TableFor(fs[t], css[t], ts[t]))
      ensures t in Uses(sc) ==> ts[t] == tables[t]
    {
      if t in Uses(sc) {
        assert TableFor(fs[t], css[t], tables[t]);
      }
    }
  }

  /** What is asked of the counts when a pass over the MCUs is finished. */
  ghost predicate Counted(sc: Scan, fs: seq<Counts>, items: seq<Item>) {
    && (forall t :: 0 <= t < |fs| ==> CountsOf(fs[t], items, t))
    && forall t :: 0 <= t < |fs| ==> if t in Uses(sc) then Suitable(fs[t]) else forall s: Byte :: fs[t][s] == 0
  }

  lemma AllSuitable(sc: Scan, ts: seq<Table>, mcus: seq<Mcu>, rows: seq<Counts>)
    requires |rows| == |ts| && forall t :: 0 <= t < |rows| ==> |rows[t]| == SYMBOLS
    requires ValidScan(sc, |ts|) && FitsScan(sc, mcus) && |mcus| > 0 && NoIdleComponent(sc)
    requires |Begin(sc).e.lastDc| == |sc.mcu.dcTbl| && PassInRange(sc, ts, Begin(sc), mcus)
    requires forall t, s: Byte :: 0 <= t < |rows| ==> rows[t][s] == Occurrences(ScanItems(sc, mcus, |ts|), t, s)
    requires forall t :: t in Uses(sc) && t < |rows| ==> Mergeable(Bag(rows[t][256 := 1], SYMBOLS))
    ensures Counted(sc, WithPseudos(rows), ScanItems(sc, mcus, |ts|))
  {
    hide PassInRange, ScanItems, Mergeable, Bag, Used, NoIdleComponent, Uses, FitsScan, ValidScan;
    var fs := WithPseudos(rows);
    forall t | 0 <= t < |fs|
      ensures CountsOf(fs[t], ScanItems(sc, mcus, |ts|), t)
      ensures if t in Uses(sc) then Suitable(fs[t]) else forall s: Byte :: fs[t][s] == 0
    {
      PassCounts(sc, ts, mcus, fs[t], t);
    }
  }

  /** The tables of component ci. */
  ghost predicate Done(sc: Scan, did: seq<bool>, ci: nat)
    requires ci < |sc.mcu.dcTbl| == |sc.mcu.acTbl|
  {
    && (sc.kind in {Sequential, DcFirst} ==> sc.mcu.dcTbl[ci] < |did| && did[sc.mcu.dcTbl[ci]])
    && (sc.kind in {Sequential, AcFirst, AcRefine} ==> sc.mcu.acTbl[ci] < |did| && did[sc.mcu.acTbl[ci]])
  }

  lemma StillDone(sc: Scan, did0: seq<bool>, did: seq<bool>, ci: nat)
    requires ci < |sc.mcu.dcTbl| == |sc.mcu.acTbl| && Done(sc, did0, ci) && |did0| == |did|
    requires forall u :: 0 <= u < |did| && did0[u] ==> did[u]
    ensures Done(sc, did, ci)
  {
  }

  lemma AllDone(sc: Scan, did: seq<bool>)
    requires ValidScan(sc, |did|) && forall ci :: 0 <= ci < |sc.mcu.dcTbl| ==> Done(sc, did, ci)
    ensures forall t :: t in Uses(sc) ==> t < |did| && did[t]
  {
    forall t | t in Uses(sc)
      ensures t < |did| && did[t]
    {
      if sc.kind in {Sequential, DcFirst} && t in sc.mcu.dcTbl {
        var ci :| 0 <= ci < |sc.mcu.dcTbl| && sc.mcu.dcTbl[ci] == t;
        assert Done(sc, did, ci);
      } else if sc.kind == Sequential {
        var ci :| 0 <= ci < |sc.mcu.acTbl| && sc.mcu.acTbl[ci] == t;
        assert Done(sc, did, ci);
      } else {
        assert Done(sc, did, 0);
      }
    }
  }

  lemma TablePairs(sc: Scan, n: nat)
    requires ValidScan(sc, n)
    ensures |sc.mcu.dcTbl| == |sc.mcu.acTbl|
  {
  }

  lemma TableUsed(sc: Scan, n: nat, ci: nat)
    requires ValidScan(sc, n) && ci < |sc.mcu.dcTbl|
    ensures |sc.mcu.dcTbl| == |sc.mcu.acTbl| && sc.mcu.dcTbl[ci] < n && sc.mcu.acTbl[ci] < n
    ensures sc.kind in {Sequential, DcFirst} ==> sc.mcu.dcTbl[ci] in Uses(sc)
    ensures sc.kind in {Sequential, AcFirst, AcRefine} ==> sc.mcu.acTbl[ci] in Uses(sc)
  {
  }

  /** The tables of a component, as far as the scan uses them. */
  method GenerateFor(sc: Scan, ci: nat, freqs: seq<array<nat>>, tables: array<HuffTbl>, did: array<bool>, ghost fs: seq<Counts>,
                     ghost css: seq<seq<nat>>, ghost items: seq<Item>)
    returns (ok: bool, ghost css': seq<seq<nat>>)
    requires Rows(freqs) && Progress(Contents(freqs), tables[..], did[..], fs, css) && Counted(sc, fs, items)
    requires |freqs| == did.Length == |fs| && ValidScan(sc, |fs|) && ci < |sc.mcu.dcTbl|
    modifies freqs, tables, did
    ensures |sc.mcu.dcTbl| == |sc.mcu.acTbl|
    ensures ok ==> Progress(Contents(freqs), tables[..], did[..], fs, css')
    ensures ok ==> Done(sc, did[..], ci) && forall u :: 0 <= u < did.Length && old(did[u]) ==> did[u]
    ensures !ok ==> exists t :: t in Uses(sc) && t < |fs| && Total(fs[t], SYMBOLS) >= 9227465
  {
    hide ValidScan, Progress, CountsOf, Suitable, Uses, Total, Rows;
    TableUsed(sc, |fs|, ci);
    ok, css' := true, css;
    if sc.kind == Sequential || sc.kind == DcFirst {
      ok, css' := GenerateOnce(sc.mcu.dcTbl[ci], freqs, tables, did, fs, css');
    }
    if ok && sc.kind != DcFirst && sc.kind != DcRefine {
      ok, css' := GenerateOnce(sc.mcu.acTbl[ci], freqs, tables, did, fs, css');
    }
  }

  /** finish_pass_gather: generates all tables that the scan uses. An error exit is taken only for very large counts. */
  method FinishPassGather(sc: Scan, freqs: seq<array<nat>>, tables: array<HuffTbl>, ghost ts0: seq<Table>, ghost mcus: seq<Mcu>)
    returns (ok: bool, ghost ts: seq<Table>, ghost css: seq<seq<nat>>)
    requires Rows(freqs) && |freqs| == tables.Length == |ts0| && forall t :: 0 <= t < tables.Length ==> WellTyped(tables[t])
    requires ValidScan(sc, |ts0|) && FitsScan(sc, mcus) && |mcus| > 0 && NoIdleComponent(sc)
    requires |Begin(sc).e.lastDc| == |sc.mcu.dcTbl| && PassInRange(sc, ts0, Begin(sc), mcus)
    requires forall t, s: Byte :: 0 <= t < |freqs| ==> freqs[t][s] == Occurrences(ScanItems(sc, mcus, |ts0|), t, s)
    requires forall t :: t in Uses(sc) && t < |freqs| ==> Mergeable(Bag(freqs[t][..][256 := 1], SYMBOLS))
    modifies freqs, tables
    ensures ok ==> |ts| == tables.Length && forall t :: t in Uses(sc) && t < |ts| ==> tables[t] == ts[t]
    ensures ok ==> Generated(ts, WithPseudos(old(Contents(freqs))), css, ScanItems(sc, mcus, |ts0|))
    ensures (forall t :: t in Uses(sc) && t < |freqs| ==> Total(old(freqs[t][..])[256 := 1], SYMBOLS) < 9227465) ==> ok
  {
    hide PassInRange, ScanItems, Mergeable, Bag, Used, Total, NoIdleComponent, Uses, Progress, Counted, Generated, Done, ValidScan, FitsScan,
         WellTyped;
    ghost var rows, items := Contents(freqs), ScanItems(sc, mcus, |ts0|);
    ghost var fs := WithPseudos(rows);
    AllSuitable(sc, ts0, mcus, rows);
    hide Rows;
    ok, ts, css := true, [], seq(|freqs|, _ => []);
    var did := new bool[tables.Length](_ => false);
    NothingDone(rows, tables[..], did[..], css);
    TablePairs(sc, |ts0|);
    for ci := 0 to |sc.mcu.dcTbl|
      invariant ok && Progress(Contents(freqs), tables[..], did[..], fs, css)
      invariant |sc.mcu.dcTbl| == |sc.mcu.acTbl| && forall c :: 0 <= c < ci ==> Done(sc, did[..], c)
    {
      ghost var did0 := did[..];
      ok, css := GenerateFor(sc, ci, freqs, tables, did, fs, css, items);
      if !ok {
        return;
      }
      forall c | 0 <= c < ci
        ensures Done(sc, did[..], c)
      {
        StillDone(sc, did0, did[..], c);
      }
    }
    AllDone(sc, did[..]);
    ts := GeneratedTables(sc, Contents(freqs), tables[..], did[..], fs, css, items);
  }

  lemma NothingDone(rows: seq<Counts>, tables: seq<HuffTbl>, did: seq<bool>, css: seq<seq<nat>>)
    requires |rows| == |tables| == |did| == |css|
    requires forall t :: 0 <= t < |rows| ==> |rows[t]| == SYMBOLS && WellTyped(tables[t]) && !did[t]
    ensures Progress(rows, tables, did, WithPseudos(rows), css)
  {
  }
}
