/** jpeg_gen_optimal_table (jchuff.c): from the counts of a statistics pass to a Huffman table with exactly the symbols counted. */
module OptimalTable {
  import opened BitSeq
  import opened ByteStream
  import opened HuffTable
  import DerivedTables
  import opened HuffmanForest
  import opened LengthLimiting
  import opened OptimalCodeSizes
  import opened SymbolLengths

  // ----- the code lengths in the table -----

  /** The table's bytes are the first 17 numbers of b. */
  ghost predicate FirstBytes(bits: seq<Byte>, b: Lengths) {
    |bits| == 17 && |b| == 33 && b[0] == 0 && forall k :: 0 <= k <= 16 ==> bits[k] == b[k]
  }

  lemma {:induction false} StartPrefix(s: seq<nat>, t: seq<nat>, p: nat)
    requires CodeLengths(s) && CodeLengths(s + t) && p <= |s|
    ensures Start(s + t, p) == Start(s, p)
    decreases p
  {
    if p > 0 {
      StartPrefix(s, t, p - 1);
    }
  }

  lemma {:induction false} StartCopies(s: seq<nat>, l: nat, n: nat, m: nat)
    requires CodeLengths(s) && CodeLengths(s + Copies(l, n)) && l <= 16 && m <= n
    ensures Start(s + Copies(l, n), |s| + m) == Start(s, |s|) + m * Pow2(16 - l)
    decreases m
  {
    hide Pow2;
    if m == 0 {
      StartPrefix(s, Copies(l, n), |s|);
    } else {
      StartCopies(s, l, n, m - 1);
      MulDistrib(m - 1, 1, Pow2(16 - l));
    }
  }

  lemma SizesStep(bits: seq<Byte>, l: nat)
    requires 0 < l < |bits| <= 17
    ensures Sizes(bits, l) == Sizes(bits, l - 1) + Copies(l, bits[l])
    ensures CodeLengths(Sizes(bits, l)) && CodeLengths(Sizes(bits, l - 1))
  {
  }

  /** The list of code lengths against the number of codes of each length. */
  lemma {:induction false} SizesSums(bits: seq<Byte>, b: Lengths, l: nat)
    requires FirstBytes(bits, b) && l <= 16
    ensures |Sizes(bits, l)| == Codes(b, l + 1) && CodeLengths(Sizes(bits, l))
    ensures Start(Sizes(bits, l), |Sizes(bits, l)|) * Pow2(16) == Span(b, l + 1)
  {
    hide Pow2, CodeLengths, Sizes, Codes, Span, Start;
    if l == 0 {
      NoSizes(bits, b);
    } else {
      SizesSums(bits, b, l - 1);
      SizesStep(bits, l);
      SpanStep(b, l);
      StartCopies(Sizes(bits, l - 1), l, bits[l], bits[l]);
      Pow2Add(16 - l, 16);
      MulAssoc(b[l], Pow2(16 - l), Pow2(16));
      MulDistrib(Start(Sizes(bits, l - 1), |Sizes(bits, l - 1)|), b[l] * Pow2(16 - l), Pow2(16));
    }
  }

  lemma NoSizes(bits: seq<Byte>, b: Lengths)
    requires FirstBytes(bits, b)
    ensures Sizes(bits, 0) == [] && CodeLengths(Sizes(bits, 0)) && Start(Sizes(bits, 0), 0) == 0
    ensures Codes(b, 1) == 0 && Span(b, 1) == 0
  {
    hide Pow2;
    assert Codes(b, 0) == 0 && Span(b, 0) == 0;
  }

  /** Position p has a code of at most l bits if p is among the first codes. */
  lemma ShortEnough(bits: seq<Byte>, b: Lengths, l: nat, p: nat)
    requires FirstBytes(bits, b) && l <= 16 && p < Codes(b, l + 1)
    ensures p < |Sizes(bits, 16)| && Sizes(bits, 16)[p] <= l
  {
    hide Sizes, Pow2, CodeLengths, Codes, Span;
    SizesSums(bits, b, l);
    DerivedTables.SizesPrefix(bits, l, 16);
    assert Sizes(bits, l)[p] == Sizes(bits, 16)[..|Sizes(bits, l)|][p];
  }

  /** With room left in the code space, the table is accepted. */
  lemma RoomAccepted(t: HuffTbl, b: Lengths)
    requires WellTyped(t) && FirstBytes(t.bits, b) && NoneAbove(b, 16)
    requires Codes(b, 33) <= 256 && Span(b, 33) + Pow2(16) <= Pow2(32)
    ensures Accepted(t) && |AllSizes(t)| == Codes(b, 33)
  {
    hide Sizes, CodeLengths, Codes, Span, Pow2, NoneAbove, Legal, FirstBytes;
    FirstLength(t.bits, b);
    SizesSums(t.bits, b, 16);
    SumsAbove(b, 16, 33);
    LegalIffKraft(AllSizes(t));
    Pow2Small();
    AllSizesAre(t);
  }

  lemma FirstLength(bits: seq<Byte>, b: Lengths)
    requires FirstBytes(bits, b)
    ensures |bits| == 17 && |b| == 33
  {
  }

  lemma AllSizesAre(t: HuffTbl)
    requires WellTyped(t)
    ensures AllSizes(t) == Sizes(t.bits, 16) && CodeLengths(AllSizes(t)) && TOP == 65536
  {
  }

  // ----- the symbols in the table -----

  /** The table lists the symbols sorted by their lengths cs. */
  ghost predicate Lists(t: HuffTbl, cs: seq<nat>) {
    && WellTyped(t) && |cs| >= 256 && |AllSizes(t)| == |Sorted(cs, MAX_CLEN)| <= 256
    && t.huffval[..|AllSizes(t)|] == Sorted(cs, MAX_CLEN)
  }

  lemma SymbolAt(t: HuffTbl, cs: seq<nat>, sym: Byte)
    requires Lists(t, cs) && 0 < cs[sym] <= MAX_CLEN
    ensures IndexOf(t.huffval, |AllSizes(t)|, sym) < |AllSizes(t)|
    ensures Sorted(cs, MAX_CLEN)[IndexOf(t.huffval, |AllSizes(t)|, sym)] == sym
  {
    hide Sorted, AllSizes, IndexOf;
    SortedIs(cs, MAX_CLEN);
    var n := |AllSizes(t)|;
    var k :| 0 <= k < n && Sorted(cs, MAX_CLEN)[k] == sym;
    assert t.huffval[..n][k] == t.huffval[k];
    var p := IndexOf(t.huffval, n, sym);
    assert t.huffval[..n][p] == t.huffval[p];
  }

  lemma NoSymbol(t: HuffTbl, cs: seq<nat>, sym: Byte)
    requires Lists(t, cs) && !(0 < cs[sym] <= MAX_CLEN)
    ensures IndexOf(t.huffval, |AllSizes(t)|, sym) == |AllSizes(t)|
  {
    hide Sorted, AllSizes, IndexOf;
    SortedIs(cs, MAX_CLEN);
    var n := |AllSizes(t)|;
    var p := IndexOf(t.huffval, n, sym);
    if p < n {
      assert false;
    }
  }

  /** The length of a symbol's code. */
  function CodeLength(t: HuffTbl, sym: nat): nat
    requires Accepted(t)
  {
    |Codeword(t, sym)|
  }

  lemma CodeLengthAt(t: HuffTbl, cs: seq<nat>, sym: Byte)
    requires Accepted(t) && Lists(t, cs)
    ensures 0 < cs[sym] <= MAX_CLEN <==> CodeLength(t, sym) > 0
    ensures 0 < cs[sym] <= MAX_CLEN ==> IndexOf(t.huffval, |AllSizes(t)|, sym) < |AllSizes(t)|
    ensures 0 < cs[sym] <= MAX_CLEN ==>
      CodeLength(t, sym) == AllSizes(t)[IndexOf(t.huffval, |AllSizes(t)|, sym)]
  {
    hide Sorted, IndexOf, Lists;
    assert |cs| >= 256 by { Listed256(t, cs); }
    if 0 < cs[sym] <= MAX_CLEN {
      SymbolAt(t, cs, sym);
    } else {
      NoSymbol(t, cs, sym);
    }
  }

  lemma Listed256(t: HuffTbl, cs: seq<nat>)
    requires Lists(t, cs)
    ensures |cs| >= 256
  {
  }

  /** No symbol is listed twice; a DC table results exactly from DC symbols. */
  lemma ListsOk(t: HuffTbl, cs: seq<nat>)
    requires Accepted(t) && Lists(t, cs)
    ensures SymbolsOk(t, false)
    ensures SymbolsOk(t, true) <==> forall sym: Byte :: 0 < cs[sym] <= MAX_CLEN ==> sym <= 15
  {
    hide Sorted, AllSizes, IndexOf;
    SortedIs(cs, MAX_CLEN);
    var n, s := |AllSizes(t)|, Sorted(cs, MAX_CLEN);
    forall p | 0 <= p < n
      ensures t.huffval[p] == s[p] && t.huffval[p] in s
    {
      assert t.huffval[p] == t.huffval[..n][p];
    }
    if DCSymbols(t) {
      forall sym: Byte | 0 < cs[sym] <= MAX_CLEN
        ensures sym <= 15
      {
        assert sym in s;
      }
    }
  }

  lemma ListsInOrder(t: HuffTbl, cs: seq<nat>)
    requires Lists(t, cs)
    ensures forall p, q :: 0 <= p < q < |AllSizes(t)| ==> Before(cs, t.huffval[p], t.huffval[q])
  {
    hide Sorted, AllSizes, Before;
    SortedIs(cs, MAX_CLEN);
    var n, s := |AllSizes(t)|, Sorted(cs, MAX_CLEN);
    forall p | 0 <= p < n
      ensures t.huffval[p] == s[p]
    {
      assert t.huffval[p] == t.huffval[..n][p];
    }
  }

  lemma {:induction false} SizesAscend(s: seq<nat>, p: nat, q: nat)
    requires CodeLengths(s) && p <= q < |s|
    ensures s[p] <= s[q]
    decreases q
  {
    if p < q {
      SizesAscend(s, p, q - 1);
      assert Ascending(s, q);
    }
  }

  /** Symbols keep the order of their lengths. */
  lemma OrderKept(t: HuffTbl, cs: seq<nat>, sym1: Byte, sym2: Byte)
    requires Accepted(t) && Lists(t, cs) && 0 < cs[sym1] < cs[sym2] <= MAX_CLEN
    ensures CodeLength(t, sym1) <= CodeLength(t, sym2)
  {
    hide Sorted, IndexOf, Codeword, Legal;
    SymbolAt(t, cs, sym1);
    SymbolAt(t, cs, sym2);
    CodeLengthAt(t, cs, sym1);
    CodeLengthAt(t, cs, sym2);
    SortedIs(cs, MAX_CLEN);
    var p, q := IndexOf(t.huffval, |AllSizes(t)|, sym1), IndexOf(t.huffval, |AllSizes(t)|, sym2);
    if p <= q {
      SizesAscend(AllSizes(t), p, q);
    }
  }

  lemma {:induction false} SortedPrefix(cs: seq<nat>, k: nat, m: nat)
    requires |cs| >= 256 && k <= m
    ensures Sorted(cs, k) <= Sorted(cs, m)
    decreases m
  {
    hide Row;
    if k < m {
      SortedPrefix(cs, k, m - 1);
    }
  }

  /** A symbol with a code of l bits is among the first symbols. */
  lemma AmongFirst(cs: seq<nat>, sym: Byte, p: nat)
    requires |cs| >= 256 && 0 < cs[sym] <= MAX_CLEN && p < |Sorted(cs, MAX_CLEN)| && Sorted(cs, MAX_CLEN)[p] == sym
    ensures p < |Sorted(cs, cs[sym])|
  {
    hide Sorted;
    SortedIs(cs, MAX_CLEN);
    SortedIs(cs, cs[sym]);
    SortedPrefix(cs, cs[sym], MAX_CLEN);
    var k :| 0 <= k < |Sorted(cs, cs[sym])| && Sorted(cs, cs[sym])[k] == sym;
    assert Sorted(cs, MAX_CLEN)[k] == sym;
  }

  // ----- exact lengths -----

  /** The pseudo-symbol has one of the longest codes. */
  ghost predicate PseudoLongest(cs: seq<nat>) {
    |cs| == SYMBOLS && forall x :: 0 <= x < SYMBOLS ==> cs[x] <= cs[256]
  }

  /** Without the pseudo-symbol's code the real symbols' are left. */
  lemma DroppedIsReal(cs: seq<nat>)
    requires PseudoLongest(cs) && 0 < cs[256] <= 16
    ensures LastUsed(Histogram(cs, SYMBOLS), 16) == cs[256] && Histogram(cs, SYMBOLS)[cs[256]] > 0
    ensures Dropped(Histogram(cs, SYMBOLS)) == Histogram(cs, 256)
  {
    hide LastUsed, Tally, Histogram;
    var b := Histogram(cs, SYMBOLS);
    HistogramStep(cs, SYMBOLS);
    assert b == Plus(Histogram(cs, 256), cs[256], 1);
    forall k | cs[256] < k <= 16
      ensures b[k] == 0
    {
      NoneTallied(cs, k, SYMBOLS);
    }
    LastUsedIs(b, 16, cs[256]);
  }

  lemma {:induction false} LastUsedIs(b: Lengths, j: nat, l: nat)
    requires l <= j < |b| && b[l] > 0 && forall k :: l < k <= j ==> b[k] == 0
    ensures LastUsed(b, j) == l
    decreases j
  {
    if j > l {
      LastUsedIs(b, j - 1, l);
    }
  }

  /** The codes behind those shorter than l bits have at least l bits. */
  lemma {:induction false} LongEnough(bits: seq<Byte>, l: nat, m: nat, p: nat)
    requires 0 < l <= m + 1 && m < |bits| && |Sizes(bits, l - 1)| <= p < |Sizes(bits, m)|
    ensures Sizes(bits, m)[p] >= l
    decreases m
  {
    hide CodeLengths;
    if m >= l && p < |Sizes(bits, m - 1)| {
      LongEnough(bits, l, m - 1, p);
    }
  }

  /** If no length had to be limited, every symbol gets a code of its optimal length. */
  lemma ExactLength(t: HuffTbl, cs: seq<nat>, sym: Byte)
    requires PseudoLongest(cs) && cs[256] <= 16 && 0 < cs[sym]
    requires Accepted(t) && Lists(t, cs) && FirstBytes(t.bits, Histogram(cs, 256)) && |AllSizes(t)| == Codes(Histogram(cs, 256), 33)
    ensures CodeLength(t, sym) == cs[sym]
  {
    hide Sorted, IndexOf, Codeword, Legal, Codes, Span, Histogram, LastUsed, FirstBytes, Pow2, Dropped, Sizes, CodeLength;
    var l, b := cs[sym], Histogram(cs, 256);
    SymbolAt(t, cs, sym);
    CodeLengthAt(t, cs, sym);
    var p := IndexOf(t.huffval, |AllSizes(t)|, sym);
    AmongFirst(cs, sym, p);
    NotAmongShorter(cs, sym, p);
    SortedLength(cs, l);
    SortedLength(cs, l - 1);
    ShortEnough(t.bits, b, l, p);
    SizesSums(t.bits, b, l - 1);
    AllSizesAre(t);
    FirstLength(t.bits, b);
    LongEnough(t.bits, l, 16, p);
  }

  lemma NotAmongShorter(cs: seq<nat>, sym: Byte, p: nat)
    requires |cs| >= 256 && 0 < cs[sym] <= MAX_CLEN && p < |Sorted(cs, MAX_CLEN)| && Sorted(cs, MAX_CLEN)[p] == sym
    ensures p >= |Sorted(cs, cs[sym] - 1)|
  {
    hide Sorted;
    SortedIs(cs, cs[sym] - 1);
    SortedPrefix(cs, cs[sym] - 1, MAX_CLEN);
    if p < |Sorted(cs, cs[sym] - 1)| {
      assert false;
    }
  }

  // ----- the generated table -----

  /** What is promised of the table t generated for the counts f from the optimal lengths cs. */
  ghost predicate TableFor(f: Counts, cs: seq<nat>, t: HuffTbl) {
    && |f| == |cs| == SYMBOLS && Accepted(t) && SymbolsOk(t, false)
    && (SymbolsOk(t, true) <==> forall sym: Byte :: f[sym] > 0 ==> sym <= 15)
    && (forall sym: Byte :: Codeword(t, sym) != [] <==> f[sym] > 0)
    && (forall p, q :: 0 <= p < q < |AllSizes(t)| ==> Before(cs, t.huffval[p], t.huffval[q]))
    && (forall x: Byte, y: Byte :: f[x] > 0 && f[y] > 0 && cs[x] < cs[y] ==> CodeLength(t, x) <= CodeLength(t, y))
    && ((forall x :: 0 <= x < SYMBOLS ==> cs[x] <= 16) ==> forall sym: Byte :: CodeLength(t, sym) == cs[sym])
  }

  /** The table made of the limited lengths without the pseudo-symbol's, and of the sorted symbols. */
  ghost predicate MadeOf(t: HuffTbl, cs: seq<nat>, b: Lengths) {
    WellTyped(t) && |cs| == SYMBOLS && Listed(t.huffval, t.huffval, Sorted(cs, MAX_CLEN), |Sorted(cs, MAX_CLEN)|) && FirstBytes(t.bits, b)
  }

  lemma MadeAccepted(f: Counts, cs: seq<nat>, sym: Byte, b: Lengths, t: HuffTbl)
    requires LengthsFit(f, cs, SYMBOLS) && Countable(f, sym)
    requires Balanced(b, Used(f, SYMBOLS)) && NoneAbove(b, 16) && |b| == 33 && b[LastUsed(b, 16)] > 0
    requires MadeOf(t, cs, Dropped(b))
    ensures Accepted(t) && Lists(t, cs) && FirstBytes(t.bits, Dropped(b)) && |AllSizes(t)| == Codes(Dropped(b), 33)
  {
    hide Sorted, Legal, Codes, Span, Histogram, LastUsed, FirstBytes, Pow2, Balanced, AllSizes, NoneAbove;
    DroppedSums(b, Used(f, SYMBOLS));
    SortedLength(cs, MAX_CLEN);
    HistogramSums(f, cs, 256);
    UsedStep(f);
    RoomAccepted(t, Dropped(b));
  }

  lemma MadeShort(f: Counts, cs: seq<nat>, b: Lengths, t: HuffTbl, sym: Byte)
    requires LengthsFit(f, cs, SYMBOLS) && PseudoLongest(cs) && f[sym] > 0 && f[256] > 0 && forall x :: 0 <= x < SYMBOLS ==> cs[x] <= 16
    requires Balanced(Histogram(cs, SYMBOLS), Used(f, SYMBOLS)) && Used(f, SYMBOLS) <= 257
    requires b == Limited(Histogram(cs, SYMBOLS), Used(f, SYMBOLS), 32) && b[LastUsed(b, 16)] > 0
    requires Accepted(t) && Lists(t, cs) && FirstBytes(t.bits, Dropped(b)) && |AllSizes(t)| == Codes(Dropped(b), 33)
    ensures CodeLength(t, sym) == cs[sym]
  {
    hide Accepted, Lists, FirstBytes, AllSizes, Codes, LastUsed, Balanced, Used, Limited, Sorted, Histogram, CodeLength;
    NoneLong(cs);
    ShortStay(Histogram(cs, SYMBOLS), Used(f, SYMBOLS), 32);
    DroppedIsReal(cs);
    ExactLength(t, cs, sym);
  }

  lemma NoneLong(cs: seq<nat>)
    requires |cs| == SYMBOLS && forall x :: 0 <= x < SYMBOLS ==> cs[x] <= 16
    ensures NoneAbove(Histogram(cs, SYMBOLS), 16)
  {
    forall k | 16 < k <= 32
      ensures Histogram(cs, SYMBOLS)[k] == 0
    {
      NoneTallied(cs, k, SYMBOLS);
    }
  }

  lemma {:induction false} NoneTallied(cs: seq<nat>, k: nat, n: nat)
    requires n <= |cs| && forall x :: 0 <= x < n ==> cs[x] != k
    ensures Tally(cs, k, n) == 0
    decreases n
  {
    if n > 0 {
      NoneTallied(cs, k, n - 1);
    }
  }

  lemma MadeFor(f: Counts, cs: seq<nat>, sym: Byte, b: Lengths, t: HuffTbl)
    requires LengthsFit(f, cs, SYMBOLS) && |cs| == SYMBOLS && Countable(f, sym)
    requires Balanced(Histogram(cs, SYMBOLS), Used(f, SYMBOLS)) && Used(f, SYMBOLS) <= 257
    requires b == Limited(Histogram(cs, SYMBOLS), Used(f, SYMBOLS), 32) && b[LastUsed(b, 16)] > 0 && MadeOf(t, cs, Dropped(b))
    requires PseudoLongest(cs)
    ensures TableFor(f, cs, t)
  {
    hide Accepted, Lists, FirstBytes, AllSizes, Codes, LastUsed, Balanced, Used, Limited, Sorted, CodeLength, MadeOf, Codeword, IndexOf;
    MadeAccepted(f, cs, sym, b, t);
    ListsOk(t, cs);
    ListsInOrder(t, cs);
    forall x: Byte
      ensures Codeword(t, x) != [] <==> f[x] > 0
    {
      CodeLengthAt(t, cs, x);
      CodeLengthIs(t, x);
    }
    forall x: Byte, y: Byte | f[x] > 0 && f[y] > 0 && cs[x] < cs[y]
      ensures CodeLength(t, x) <= CodeLength(t, y)
    {
      OrderKept(t, cs, x, y);
    }
    if forall x :: 0 <= x < SYMBOLS ==> cs[x] <= 16 {
      forall x: Byte
        ensures CodeLength(t, x) == cs[x]
      {
        CodeLengthAt(t, cs, x);
        if f[x] > 0 {
          MadeShort(f, cs, b, t, x);
        }
      }
    }
  }

  lemma CodeLengthIs(t: HuffTbl, sym: nat)
    requires Accepted(t)
    ensures CodeLength(t, sym) == |Codeword(t, sym)|
  {
  }

  // ----- the whole procedure -----

  /** The counts as they come, and with the pseudo-symbol added. */
  lemma WithPseudo(f0: Counts, f: Counts, sym: Byte)
    requires |f0| == SYMBOLS && f == f0[256 := 1] && f0[sym] > 0
    ensures Countable(f, sym) && Used(f, SYMBOLS) == Used(f0, 256) + 1 <= 257
  {
    hide Used;
    UsedStep(f);
    UsedSame(f0, f, 256);
  }

  lemma {:induction false} UsedSame(f: Counts, g: Counts, n: nat)
    requires n <= |f| && n <= |g| && forall x :: 0 <= x < n ==> f[x] == g[x]
    ensures Used(f, n) == Used(g, n)
    decreases n
  {
    if n > 0 {
      UsedSame(f, g, n - 1);
    }
  }

  lemma ReadyToLimit(f: Counts, cs: seq<nat>, sym: Byte, counts: Lengths)
    requires CodeSizes(f, cs) && Countable(f, sym) && Used(f, SYMBOLS) <= 257 && |cs| == SYMBOLS && !Overflows(cs)
    requires (forall x :: 0 <= x < SYMBOLS ==> cs[x] <= MAX_CLEN) && counts == Wrapped(Histogram(cs, SYMBOLS))
    ensures counts == Histogram(cs, SYMBOLS) && |counts| == 33 && Balanced(counts, Used(f, SYMBOLS)) && Bytes(counts)
    ensures LengthsFit(f, cs, SYMBOLS) && Tally(cs, 8, SYMBOLS) != 256
  {
    hide Wrapped, CodeSizes, Balanced, Used, LengthsFit, Tally;
    HistogramBalanced(f, cs, sym);
    FitsExactly(Histogram(cs, SYMBOLS), Used(f, SYMBOLS));
  }

  /** What the bytes hold then: nothing, or one code of one bit. */
  lemma WhenOverflown(f: Counts, cs: seq<nat>, sym: Byte, counts: Lengths)
    requires CodeSizes(f, cs) && Countable(f, sym) && Used(f, SYMBOLS) <= 257 && |cs| == SYMBOLS && Overflows(cs)
    requires (forall x :: 0 <= x < SYMBOLS ==> cs[x] <= MAX_CLEN) && counts == Wrapped(Histogram(cs, SYMBOLS))
    ensures |counts| == 33 && Bytes(counts) && !Balanced(counts, Used(f, SYMBOLS)) && NoneAbove(counts, 16)
    ensures forall k :: 0 <= k <= 32 && k != 1 ==> counts[k] == 0
    ensures counts[1] == if Tally(cs, 8, SYMBOLS) == 256 then 0 else 1
    ensures Used(f, SYMBOLS) >= 256
  {
    hide CodeSizes, Used, LengthsFit, Tally, Balanced;
    var b, n := Histogram(cs, SYMBOLS), Used(f, SYMBOLS);
    HistogramBalanced(f, cs, sym);
    FitsExactly(b, n);
    Overflowed(b, n);
    if n <= 255 {
      FewSymbolsFit(b, n);
    }
    FewNotBalanced(counts, n);
  }

  lemma FewNotBalanced(b: Lengths, n: nat)
    requires |b| == 33 && n >= 256 && forall k :: 0 <= k <= 32 && k != 1 ==> b[k] == 0
    requires b[1] <= 1
    ensures !Balanced(b, n)
  {
    AtMostOne(b, 33);
  }

  lemma {:induction false} AtMostOne(b: Lengths, m: nat)
    requires |b| == 33 && m <= 33 && b[1] <= 1 && forall k :: 0 <= k <= 32 && k != 1 ==> b[k] == 0
    ensures Codes(b, m) <= 1
    decreases m
  {
    if m > 0 {
      AtMostOne(b, m - 1);
      if m == 2 {
        assert Codes(b, 1) == b[0];
      } else if m > 2 {
        OneBefore(b, m - 1);
      }
    }
  }

  lemma OneBefore(b: Lengths, m: nat)
    requires |b| == 33 && 0 < m < 33 && m != 1 && b[m] == 0
    ensures Codes(b, m + 1) == Codes(b, m)
  {
  }

  lemma LastOfOne(b: Lengths)
    requires |b| == 33 && b[1] <= 1 && forall k :: 0 <= k <= 32 && k != 1 ==> b[k] == 0
    ensures b[LastUsed(b, 16)] == b[1]
    ensures b[1] > 0 ==> Dropped(b) == seq(33, _ => 0) && Bytes(Dropped(b))
  {
  }

  lemma DroppedFits(b: Lengths, n: nat)
    requires Balanced(b, n) && NoneAbove(b, 16) && |b| == 33 && b[LastUsed(b, 16)] > 0 && Bytes(b)
    ensures Bytes(Dropped(b)) && Dropped(b)[0] == 0
  {
    hide Balanced, NoneAbove, LastUsed, Codes, Span, Pow2;
    DroppedSums(b, n);
  }

  lemma NothingLonger(f: Counts, cs: seq<nat>)
    requires CodeSizes(f, cs)
    ensures |cs| == SYMBOLS
    ensures Total(f, SYMBOLS) < 9227465 ==> forall x :: 0 <= x < SYMBOLS ==> cs[x] <= MAX_CLEN
  {
    hide Total, Dot, UsedKraft, Bag, Fib;
    forall x | 0 <= x < SYMBOLS && Total(f, SYMBOLS) < 9227465
      ensures cs[x] <= MAX_CLEN
    {
      DepthBound(f, cs, x);
    }
  }

  lemma TableMade(bits: seq<Byte>, huffval: seq<Byte>, h0: seq<Byte>, cs: seq<nat>, b: Lengths, p: nat)
    requires |bits| == 17 && |b| == 33 && b[0] == 0 && (forall k :: 0 <= k < 17 ==> bits[k] == b[k]) && |cs| == SYMBOLS
    requires Listed(huffval, h0, Sorted(cs, MAX_CLEN), p)
    ensures MadeOf(HuffTbl(bits, huffval), cs, b)
  {
    hide Sorted;
  }

  lemma LongestIs(cs: seq<nat>)
    requires |cs| == SYMBOLS && forall x :: 0 <= x < SYMBOLS ==> cs[x] <= cs[256]
    ensures PseudoLongest(cs)
  {
  }

  /** The lengths of the symbols' codes. */
  function TableLengths(t: HuffTbl): seq<nat>
    requires Accepted(t)
  {
    seq(256, (sym: nat) => CodeLength(t, sym))
  }

  lemma {:induction false} SameWeighted(f: Counts, ls: seq<nat>, ms: seq<nat>, n: nat)
    requires n <= |f| && n <= |ls| && n <= |ms| && forall x :: 0 <= x < n ==> ls[x] == ms[x]
    ensures Dot(f, ls, n) == Dot(f, ms, n)
    decreases n
  {
    if n > 0 {
      SameWeighted(f, ls, ms, n - 1);
    }
  }

  lemma TableLengthsAre(f: Counts, cs: seq<nat>, t: HuffTbl)
    requires TableFor(f, cs, t) && forall x :: 0 <= x < SYMBOLS ==> cs[x] <= 16
    ensures |TableLengths(t)| == 256 && forall x :: 0 <= x < 256 ==> TableLengths(t)[x] == cs[x]
  {
    hide Accepted, CodeLength, SymbolsOk, AllSizes, Before;
    forall x: nat | x < 256
      ensures CodeLength(t, x) == cs[x]
    {
      assert CodeLength(t, x as Byte) == cs[x];
    }
  }

  /** If no optimal length exceeds 16, no prefix code that leaves a code of ls[256] bits unused takes fewer bits for the
      symbols counted, up to the length of that code. */
  lemma GeneratedOptimal(f: Counts, cs: seq<nat>, t: HuffTbl, ls: seq<nat>, scale: nat)
    requires TableFor(f, cs, t) && CodeSizes(f, cs) && f[256] == 1 && |ls| == SYMBOLS && forall x :: 0 <= x < SYMBOLS ==> cs[x] <= 16
    requires (forall x :: 0 <= x < SYMBOLS ==> ls[x] <= scale) && UsedKraft(f, ls, SYMBOLS, scale) <= Pow2(scale)
    ensures Dot(f, TableLengths(t), 256) + cs[256] <= Dot(f, ls, 256) + ls[256]
  {
    hide Dot, UsedKraft, Pow2, Bag, TableLengths, CodeLength, Codeword, Accepted, SymbolsOk, Total, Fib, AllSizes;
    TableLengthsAre(f, cs, t);
    SameWeighted(f, TableLengths(t), cs, 256);
    CodeSizesOptimal(f, cs, ls, scale);
    LastTerm(f, cs);
    LastTerm(f, ls);
  }

  lemma LastTerm(f: Counts, ls: seq<nat>)
    requires |f| == |ls| == SYMBOLS && f[256] == 1
    ensures Dot(f, ls, SYMBOLS) == Dot(f, ls, 256) + ls[256]
  {
  }

  /** How jpeg_gen_optimal_table ends: with a table, with ERREXIT because a code is too long, or by reading before the start
      of the array bits. */
  datatype Outcome = Made | TooLong | OffArray

  /** Generates the best table for the counts of a statistics pass. If no byte overflows, it is a table for exactly the
      symbols counted; otherwise there is none, or one without codes. */
  method GenOptimalTable(freq: array<nat>, bits: array<Byte>, huffval: array<Byte>) returns (outcome: Outcome, ghost cs: seq<nat>)
    requires freq.Length == SYMBOLS && bits.Length == 17 && huffval.Length == 256 && bits != huffval
    requires exists sym: Byte :: freq[sym] > 0
    requires Mergeable(Bag(freq[..][256 := 1], SYMBOLS))
    modifies freq, bits, huffval
    ensures CodeSizes(old(freq[..])[256 := 1], cs) && |cs| == SYMBOLS
    ensures outcome == TooLong <==> exists x :: 0 <= x < SYMBOLS && cs[x] > MAX_CLEN
    ensures outcome == OffArray <==> outcome != TooLong && Tally(cs, 8, SYMBOLS) == 256
    ensures outcome == Made && !Overflows(cs) ==> TableFor(old(freq[..])[256 := 1], cs, HuffTbl(bits[..], huffval[..]))
    ensures outcome == Made && Overflows(cs) ==> forall k :: 0 <= k <= 16 ==> bits[k] == 0
    ensures outcome != TooLong && Used(old(freq[..]), 256) <= 254 ==> outcome == Made && !Overflows(cs)
    ensures Total(old(freq[..])[256 := 1], SYMBOLS) < 9227465 ==> outcome != TooLong
    ensures outcome != Made ==> bits[..] == old(bits[..]) && huffval[..] == old(huffval[..])
  {
    hide *;
    assert SYMBOLS == 257 by { Size(); }
    ghost var f := freq[..][256 := 1];
    ghost var sym: Byte :| freq[sym] > 0;
    WithPseudo(freq[..], f, sym);
    var codesize := GenCodeSizes(freq);
    cs := codesize[..];
    assert PseudoLongest(cs) by { LongestIs(cs); }
    var fits, counts := CountLengths(codesize);
    if !fits {
      NothingLonger(f, cs);
      return TooLong, cs;
    }
    ghost var n := Used(f, SYMBOLS);
    if n <= 255 {
      OverflowExactly(f, cs, sym);
    }
    if Overflows(cs) {
      WhenOverflown(f, cs, sym, counts[..]);
    } else {
      ReadyToLimit(f, cs, sym, counts[..]);
    }
    LimitLengths(counts, n);
    ghost var limited := counts[..];
    if Overflows(cs) {
      LastOfOne(limited);
    } else {
      SomeUsed(limited, n);
      DroppedFits(limited, n);
    }
    var found := DropPseudo(counts);
    if !found {
      return OffArray, cs;
    }
    CopyBits(counts, bits);
    ghost var p := SortSymbols(codesize, huffval);
    outcome := Made;
    if !Overflows(cs) {
      TableMade(bits[..], huffval[..], old(huffval[..]), cs, counts[..], p);
      MadeFor(f, cs, sym, limited, HuffTbl(bits[..], huffval[..]));
    }
  }

  /** Keeps the numbers of codes of up to 16 bits. */
  method CopyBits(counts: array<nat>, bits: array<Byte>)
    requires counts.Length == 33 && bits.Length == 17 && Bytes(counts[..])
    modifies bits
    ensures forall k :: 0 <= k < 17 ==> bits[k] == counts[k]
  {
    for i := 0 to 17
      invariant forall k :: 0 <= k < i ==> bits[k] == counts[k]
    {
      assert counts[..][i] < 256;
      bits[i] := counts[i];
    }
  }
}
