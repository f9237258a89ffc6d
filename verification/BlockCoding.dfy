/** Coding of DC differences and of AC coefficients as run/size symbols, and the
    decoding that inverts it; shared by sequential and first progressive scans.
    Blocks are sequences of 64 coefficients in zigzag order here. */
module BlockCoding {
  import opened BitSeq
  import opened BitStream
  import opened HuffTable
  import opened Symbols
  import opened Coefficients

  const DCTSIZE2: nat := 64
  const MAX_COEF_BITS: nat := 10
  const ZRL: nat := 0xF0

  /** DC difference: its size category, then its bits. */
  function DcItems(tbl: nat, diff: int): seq<Item> {
    var n := NBits(Abs(diff));
    if n == 0 then [Sym(tbl, 0)] else [Sym(tbl, n), Raw(ValueBits(diff))]
  }

  function DecodeDc(t: Table, st: Stream): (r: (int, Stream))
    ensures r.1.marker == st.marker && r.1.next == st.next
  {
    var (s, st1) := Decode(t, st);
    if s == 0 then (0, st1) else
      var (v, st2) := Take(st1, s);
      (Extend(v, s), st2)
  }

  lemma DcRoundTrip(ts: seq<Table>, tbl: nat, diff: int, st: Stream)
    requires Coded(ts, DcItems(tbl, diff))
    ensures tbl < |ts| && DecodeDc(ts[tbl], Ahead(ts, DcItems(tbl, diff), st)) == (diff, st)
  {
    var n := NBits(Abs(diff));
    assert ItemCoded(ts, DcItems(tbl, diff)[0]);
    if n == 0 {
      DecodeSym(ts, tbl, 0, st);
    } else {
      var b := Raw(ValueBits(diff));
      assert DcItems(tbl, diff) == [Sym(tbl, n)] + [b];
      AheadConcat(ts, [Sym(tbl, n)], [b], st);
      DecodeSym(ts, tbl, n, Ahead(ts, [b], st));
      TakeRaw(ts, ValueBits(diff), st);
      ExtendValueBits(diff);
    }
  }

  function ZrlItems(tbl: nat, n: nat): seq<Item> {
    if n == 0 then [] else [Sym(tbl, ZRL)] + ZrlItems(tbl, n - 1)
  }

  /** A nonzero coefficient behind r zeros. */
  function CoefItems(tbl: nat, r: nat, v: int): seq<Item> {
    var n := NBits(Abs(v));
    ZrlItems(tbl, r / 16) + [Sym(tbl, r % 16 * 16 + n), Raw(ValueBits(v))]
  }

  /** The coefficients k..se of a band, r zeros being pending; without the end-of-band symbol. */
  function AcItems(tbl: nat, zz: seq<int>, k: nat, se: nat, r: nat): seq<Item>
    requires se < |zz|
    decreases se + 1 - k
  {
    if k > se then []
    else if zz[k] == 0 then AcItems(tbl, zz, k + 1, se, r + 1)
    else CoefItems(tbl, r, zz[k]) + AcItems(tbl, zz, k + 1, se, 0)
  }

  /** The number of zeros at the end of the band, r zeros being pending. */
  function TrailingZeros(zz: seq<int>, k: nat, se: nat, r: nat): (z: nat)
    requires se < |zz|
    ensures z <= r + (if k > se then 0 else se + 1 - k)
    decreases se + 1 - k
  {
    if k > se then r
    else if zz[k] == 0 then TrailingZeros(zz, k + 1, se, r + 1)
    else TrailingZeros(zz, k + 1, se, 0)
  }

  /** A coefficient to be stored: its position in zigzag order and its value. */
  datatype Write = Write(pos: nat, value: int)

  /** The result of decoding a band: what to store, and the run length of an EOB symbol if one ended it. */
  datatype Band = Band(writes: seq<Write>, st: Stream, eob: int)

  const NO_EOB: int := -1

  function DecodeAc(t: Table, st: Stream, k: nat, se: nat): (r: Band)
    requires se < DCTSIZE2
    ensures r.st.marker == st.marker && r.st.next == st.next
    ensures forall i :: 0 <= i < |r.writes| ==> k <= r.writes[i].pos < DCTSIZE2 + 15
    ensures -1 <= r.eob < 15
    decreases se + 1 - k
  {
    if k > se then Band([], st, NO_EOB) else
      var (rs, st1) := Decode(t, st);
      var (r, s) := (rs / 16, rs % 16);
      if s != 0 then
        var (v, st2) := Take(st1, s);
        var rest := DecodeAc(t, st2, k + r + 1, se);
        rest.(writes := [Write(k + r, Extend(v, s))] + rest.writes)
      else if r == 15 then DecodeAc(t, st1, k + 16, se)
      else Band([], st1, r)
  }

  /** The nonzero coefficients of a band. */
  function NonzeroWrites(zz: seq<int>, k: nat, se: nat): seq<Write>
    requires se < |zz|
    decreases se + 1 - k
  {
    if k > se then []
    else if zz[k] == 0 then NonzeroWrites(zz, k + 1, se)
    else [Write(k, zz[k])] + NonzeroWrites(zz, k + 1, se)
  }

  /** Every magnitude of the band fits the size limit of the encoder. */
  ghost predicate BandInRange(zz: seq<int>, ss: nat, se: nat)
    requires se < |zz|
  {
    forall k :: ss <= k <= se ==> NBits(Abs(zz[k])) <= MAX_COEF_BITS
  }

  /** The encoder takes AC coefficients from -1023 to 1023, as 8-bit samples yield them. */
  lemma BandInRangeIs(zz: seq<int>, ss: nat, se: nat)
    requires se < |zz|
    ensures BandInRange(zz, ss, se) <==> forall k :: ss <= k <= se ==> -1023 <= zz[k] <= 1023
  {
    hide NBits;
    Pow2Small();
    forall k | ss <= k <= se
      ensures NBits(Abs(zz[k])) <= MAX_COEF_BITS <==> -1023 <= zz[k] <= 1023
    {
      NBitsBelow(Abs(zz[k]), MAX_COEF_BITS);
    }
  }

  lemma {:induction false} SkipZrls(ts: seq<Table>, tbl: nat, n: nat, st: Stream, k: nat, se: nat)
    requires Coded(ts, ZrlItems(tbl, n)) && tbl < |ts|
    requires se < DCTSIZE2 && (n > 0 ==> k + 16 * (n - 1) <= se)
    ensures DecodeAc(ts[tbl], Ahead(ts, ZrlItems(tbl, n), st), k, se) == DecodeAc(ts[tbl], st, k + 16 * n, se)
    decreases n
  {
    hide Decode, Take, Codeword;
    if n == 0 {
      AheadConcat(ts, [], [], st);
    } else {
      var rest := ZrlItems(tbl, n - 1);
      CodedConcat(ts, [Sym(tbl, ZRL)], rest);
      assert ItemCoded(ts, [Sym(tbl, ZRL)][0]);
      AheadConcat(ts, [Sym(tbl, ZRL)], rest, st);
      DecodeSym(ts, tbl, ZRL, Ahead(ts, rest, st));
      SkipZrls(ts, tbl, n - 1, st, k + 16, se);
    }
  }

  lemma DecodeAcStep(t: Table, st0: Stream, st1: Stream, st2: Stream, k: nat, se: nat, r: nat, s: nat, v: nat)
    requires se < DCTSIZE2 && k <= se && r < 16 && 0 < s < 16
    requires Decode(t, st0) == (r * 16 + s, st1) && Take(st1, s) == (v, st2)
    ensures var rest := DecodeAc(t, st2, k + r + 1, se);
      DecodeAc(t, st0, k, se) == rest.(writes := [Write(k + r, Extend(v, s))] + rest.writes)
  {
    hide Decode, Take, Extend;
    assert (r * 16 + s) / 16 == r && (r * 16 + s) % 16 == s;
  }

  /** Decoding a nonzero coefficient behind r zeros. */
  lemma DecodeCoef(ts: seq<Table>, tbl: nat, r: nat, v: int, st: Stream, k: nat, se: nat)
    requires Coded(ts, CoefItems(tbl, r, v)) && v != 0 && NBits(Abs(v)) <= MAX_COEF_BITS
    requires se < DCTSIZE2 && k + r <= se
    ensures tbl < |ts|
    ensures var rest := DecodeAc(ts[tbl], st, k + r + 1, se);
      DecodeAc(ts[tbl], Ahead(ts, CoefItems(tbl, r, v), st), k, se)
      == rest.(writes := [Write(k + r, v)] + rest.writes)
  {
    hide Decode, Take, Codeword, NBits, ValueBits, Val, Extend, Ahead, ZrlItems, DecodeAc;
    var n := NBits(Abs(v));
    var zrls, sym, raw := ZrlItems(tbl, r / 16), Sym(tbl, r % 16 * 16 + n), Raw(ValueBits(v));
    assert [sym, raw] == [sym] + [raw];
    CodedConcat(ts, zrls, [sym, raw]);
    assert ItemCoded(ts, [sym, raw][0]);
    AheadConcat(ts, zrls, [sym, raw], st);
    AheadConcat(ts, [sym], [raw], st);
    var st1 := Ahead(ts, [raw], st);
    var st0 := Ahead(ts, [sym], st1);
    SkipZrls(ts, tbl, r / 16, st0, k, se);
    DecodeSym(ts, tbl, r % 16 * 16 + n, st1);
    TakeRaw(ts, ValueBits(v), st);
    ExtendValueBits(v);
    DecodeAcStep(ts[tbl], st0, st1, st, k + 16 * (r / 16), se, r % 16, n, Val(ValueBits(v)));
  }

  lemma ConcatWrites(w: Write, a: seq<Write>, b: seq<Write>)
    ensures [w] + (a + b) == [w] + a + b
  {
  }

  /** The coefficients of a band come back; decoding then continues behind the last nonzero one. */
  lemma {:induction false} AcRoundTrip(ts: seq<Table>, tbl: nat, zz: seq<int>, k: nat, se: nat, r: nat, st: Stream)
    requires |zz| == DCTSIZE2 && se < DCTSIZE2 && r <= k <= se + 1 && tbl < |ts|
    requires BandInRange(zz, k, se) && Coded(ts, AcItems(tbl, zz, k, se, r))
    ensures var rest := DecodeAc(ts[tbl], st, se + 1 - TrailingZeros(zz, k, se, r), se);
      DecodeAc(ts[tbl], Ahead(ts, AcItems(tbl, zz, k, se, r), st), k - r, se)
      == rest.(writes := NonzeroWrites(zz, k, se) + rest.writes)
    decreases se + 1 - k, 1
  {
    hide DecodeAc, Decode, Take, Codeword, NBits, ValueBits, Ahead, Coded, CoefItems;
    if k > se {
      AheadConcat(ts, [], [], st);
      var rest := DecodeAc(ts[tbl], st, se + 1 - r, se);
      assert [] + rest.writes == rest.writes;
    } else if zz[k] == 0 {
      AcRoundTrip(ts, tbl, zz, k + 1, se, r + 1, st);
    } else {
      AcRoundTripNonzero(ts, tbl, zz, k, se, r, st);
    }
  }

  lemma AcRoundTripNonzero(ts: seq<Table>, tbl: nat, zz: seq<int>, k: nat, se: nat, r: nat, st: Stream)
    requires |zz| == DCTSIZE2 && se < DCTSIZE2 && r <= k <= se && tbl < |ts| && zz[k] != 0
    requires BandInRange(zz, k, se) && Coded(ts, AcItems(tbl, zz, k, se, r))
    ensures var rest := DecodeAc(ts[tbl], st, se + 1 - TrailingZeros(zz, k, se, r), se);
      DecodeAc(ts[tbl], Ahead(ts, AcItems(tbl, zz, k, se, r), st), k - r, se)
      == rest.(writes := NonzeroWrites(zz, k, se) + rest.writes)
    decreases se + 1 - k, 0
  {
    hide DecodeAc, Decode, Take, Codeword, NBits, ValueBits, Ahead, Coded, CoefItems;
    var c, more := CoefItems(tbl, r, zz[k]), AcItems(tbl, zz, k + 1, se, 0);
    CodedConcat(ts, c, more);
    AheadConcat(ts, c, more, st);
    DecodeCoef(ts, tbl, r, zz[k], Ahead(ts, more, st), k - r, se);
    AcRoundTrip(ts, tbl, zz, k + 1, se, 0, st);
    var rest := DecodeAc(ts[tbl], st, se + 1 - TrailingZeros(zz, k + 1, se, 0), se);
    ConcatWrites(Write(k, zz[k]), NonzeroWrites(zz, k + 1, se), rest.writes);
  }
}
