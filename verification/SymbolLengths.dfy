/** The code lengths of jpeg_gen_optimal_table (jchuff.c): how many symbols have each, and the symbols in their order. */
module SymbolLengths {
  import opened BitSeq
  import opened ByteStream
  import opened HuffmanForest
  import opened LengthLimiting

  // ----- how many symbols have which length -----

  /** The symbols below n with a code of length k. */
  function Tally(cs: seq<nat>, k: nat, n: nat): nat
    requires n <= |cs|
  {
    if n == 0 then 0 else Tally(cs, k, n - 1) + if cs[n - 1] == k then 1 else 0
  }

  function Histogram(cs: seq<nat>, n: nat): (b: Lengths)
    requires n <= |cs|
    ensures |b| == 33 && b[0] == 0 && forall k :: 0 < k <= MAX_CLEN ==> b[k] == Tally(cs, k, n)
  {
    seq(MAX_CLEN + 1, k requires 0 <= k <= MAX_CLEN => if k == 0 then 0 else Tally(cs, k, n))
  }

  /** The number of symbols below n that occur. */
  function Used(f: Counts, n: nat): (u: nat)
    requires n <= |f|
    ensures u <= n
  {
    if n == 0 then 0 else Used(f, n - 1) + if f[n - 1] > 0 then 1 else 0
  }

  /** Exactly the symbols below n that occur have lengths, and none is above MAX_CLEN. */
  ghost predicate LengthsFit(f: Counts, cs: seq<nat>, n: nat) {
    n <= |f| && n <= |cs| && forall x :: 0 <= x < n ==> cs[x] <= MAX_CLEN && (f[x] > 0 <==> cs[x] > 0)
  }

  lemma HistogramStep(cs: seq<nat>, n: nat)
    requires 0 < n <= |cs| && cs[n - 1] <= MAX_CLEN
    ensures Histogram(cs, n) == if cs[n - 1] == 0 then Histogram(cs, n - 1) else Plus(Histogram(cs, n - 1), cs[n - 1], 1)
  {
  }

  lemma {:induction false} HistogramSums(f: Counts, cs: seq<nat>, n: nat)
    requires LengthsFit(f, cs, n)
    ensures Codes(Histogram(cs, n), 33) == Used(f, n)
    ensures Span(Histogram(cs, n), 33) == UsedKraft(f, cs, n, MAX_CLEN)
    decreases n
  {
    hide Pow2, Codes, Span, Histogram;
    if n == 0 {
      SumsOfNone(Histogram(cs, 0), 33);
    } else {
      HistogramSums(f, cs, n - 1);
      HistogramStep(cs, n);
      if cs[n - 1] > 0 {
        PlusSums(Histogram(cs, n - 1), cs[n - 1], 1, 33);
      }
    }
  }

  /** The Kraft sum at another scale. */
  lemma {:induction false} Rescaled(f: Counts, cs: seq<nat>, n: nat, scale: nat, more: nat)
    requires n <= |f| && n <= |cs| && forall x :: 0 <= x < n ==> cs[x] <= scale
    ensures UsedKraft(f, cs, n, scale + more) == UsedKraft(f, cs, n, scale) * Pow2(more)
    decreases n
  {
    hide Pow2;
    if n > 0 {
      Rescaled(f, cs, n - 1, scale, more);
      Pow2Add(scale - cs[n - 1], more);
      MulDistrib(UsedKraft(f, cs, n - 1, scale), Pow2(scale - cs[n - 1]), Pow2(more));
    }
  }

  lemma {:induction false} OneTerm(f: Counts, cs: seq<nat>, x: nat, n: nat, scale: nat)
    requires x < n <= |f| && n <= |cs| && f[x] > 0 && cs[x] <= scale
    ensures UsedKraft(f, cs, n, scale) >= Pow2(scale - cs[x])
    decreases n
  {
    hide Pow2;
    if x < n - 1 {
      OneTerm(f, cs, x, n - 1, scale);
    }
  }

  lemma {:induction false} TwoTerms(f: Counts, cs: seq<nat>, x: nat, y: nat, n: nat, scale: nat)
    requires x < y < n <= |f| && n <= |cs| && f[x] > 0 && f[y] > 0 && cs[x] <= scale && cs[y] <= scale
    ensures UsedKraft(f, cs, n, scale) >= Pow2(scale - cs[x]) + Pow2(scale - cs[y])
    decreases n
  {
    hide Pow2;
    if y < n - 1 {
      TwoTerms(f, cs, x, y, n - 1, scale);
    } else {
      OneTerm(f, cs, x, n - 1, scale);
    }
  }

  /** With two symbols that occur, no code is empty. */
  lemma NotEmpty(f: Counts, cs: seq<nat>, x: nat, y: nat)
    requires CodeSizes(f, cs) && x < y < SYMBOLS && f[x] > 0 && f[y] > 0
    ensures cs[x] > 0 && cs[y] > 0
  {
    hide Pow2, UsedKraft, Dot, Bag, Total, Fib;
    TwoTerms(f, cs, x, y, SYMBOLS, SCALE);
  }

  /** The counts with the pseudo-symbol, and a real symbol that occurs. */
  ghost predicate Countable(f: Counts, sym: nat) {
    |f| == SYMBOLS && f[256] == 1 && sym < 256 && f[sym] > 0
  }

  lemma AllFit(f: Counts, cs: seq<nat>, sym: nat)
    requires CodeSizes(f, cs) && Countable(f, sym) && forall x :: 0 <= x < SYMBOLS ==> cs[x] <= MAX_CLEN
    ensures LengthsFit(f, cs, SYMBOLS)
  {
    hide Pow2, UsedKraft, Dot, Bag, Total, Fib;
    forall x | 0 <= x < SYMBOLS && f[x] > 0
      ensures cs[x] > 0
    {
      if x == 256 {
        NotEmpty(f, cs, sym, 256);
      } else {
        NotEmpty(f, cs, x, 256);
      }
    }
  }

  /** What the length-limiting loops start from. */
  lemma HistogramBalanced(f: Counts, cs: seq<nat>, sym: nat)
    requires CodeSizes(f, cs) && Countable(f, sym) && forall x :: 0 <= x < SYMBOLS ==> cs[x] <= MAX_CLEN
    ensures LengthsFit(f, cs, SYMBOLS) && Balanced(Histogram(cs, SYMBOLS), Used(f, SYMBOLS))
  {
    hide Pow2, UsedKraft, Dot, Bag, Total, Fib, Codes, Span, Histogram, Used, LengthsFit;
    AllFit(f, cs, sym);
    HistogramSums(f, cs, SYMBOLS);
    Rescaled(f, cs, SYMBOLS, MAX_CLEN, SCALE - MAX_CLEN);
    Pow2Add(MAX_CLEN, SCALE - MAX_CLEN);
    MulCancel(UsedKraft(f, cs, SYMBOLS, MAX_CLEN), Pow2(MAX_CLEN), Pow2(SCALE - MAX_CLEN));
  }

  /** A byte is too small for the number of codes of 8 or of 9 bits. */
  ghost predicate Overflows(cs: seq<nat>)
    requires |cs| == SYMBOLS
  {
    Tally(cs, 8, SYMBOLS) == 256 || Tally(cs, 9, SYMBOLS) == 256
  }

  lemma UsedStep(f: Counts)
    requires |f| == SYMBOLS && f[256] > 0
    ensures Used(f, SYMBOLS) == Used(f, 256) + 1 <= SYMBOLS
  {
  }

  /** No byte overflows with at most 254 symbols, and with more exactly if neither 256 codes of 8 bits nor 256 codes of 9 bits
      are found. */
  lemma OverflowExactly(f: Counts, cs: seq<nat>, sym: nat)
    requires CodeSizes(f, cs) && Countable(f, sym) && |cs| == SYMBOLS && forall x :: 0 <= x < SYMBOLS ==> cs[x] <= MAX_CLEN
    ensures Used(f, 256) <= 254 ==> !Overflows(cs)
    ensures Bytes(Histogram(cs, SYMBOLS)) <==> !Overflows(cs)
  {
    hide CodeSizes, Tally, Used, Balanced;
    HistogramBalanced(f, cs, sym);
    UsedStep(f);
    if Used(f, 256) <= 254 {
      FewSymbolsFit(Histogram(cs, SYMBOLS), Used(f, SYMBOLS));
    }
    FitsExactly(Histogram(cs, SYMBOLS), Used(f, SYMBOLS));
  }

  // ----- counting and dropping -----

  function Wrapped(b: Lengths): (r: Lengths)
    ensures |r| == |b| && (Bytes(b) ==> r == b)
  {
    seq(|b|, k requires 0 <= k < |b| => Wrap(b[k]))
  }

  lemma WrappedStep(cs: seq<nat>, n: nat, b: Lengths)
    requires n < |cs| && cs[n] <= MAX_CLEN && b == Wrapped(Histogram(cs, n))
    ensures Wrapped(Histogram(cs, n + 1)) == if cs[n] == 0 then b else b[cs[n] := Wrap(b[cs[n]] + 1)]
  {
    HistogramStep(cs, n + 1);
  }

  /** Counts the codes of each length; fails if there is one above MAX_CLEN. */
  method CountLengths(codesize: array<nat>) returns (ok: bool, bits: array<nat>)
    ensures fresh(bits)
    ensures ok <==> forall x :: 0 <= x < codesize.Length ==> codesize[x] <= MAX_CLEN
    ensures ok ==> bits[..] == Wrapped(Histogram(codesize[..], codesize.Length))
  {
    hide Histogram, Wrapped;
    bits := new nat[MAX_CLEN + 1](_ => 0);
    EmptyHistogram(codesize[..], bits[..]);
    for i := 0 to codesize.Length
      invariant bits.Length == 33 && bits[..] == Wrapped(Histogram(codesize[..], i))
      invariant forall x :: 0 <= x < i ==> codesize[x] <= MAX_CLEN
    {
      if codesize[i] != 0 {
        if codesize[i] > MAX_CLEN {
          return false, bits;
        }
        WrappedStep(codesize[..], i, bits[..]);
        bits[codesize[i]] := Wrap(bits[codesize[i]] + 1);
      } else {
        WrappedStep(codesize[..], i, bits[..]);
      }
    }
    ok := true;
  }

  lemma EmptyHistogram(cs: seq<nat>, b: Lengths)
    requires |b| == 33 && forall k :: 0 <= k < 33 ==> b[k] == 0
    ensures b == Wrapped(Histogram(cs, 0))
  {
  }

  /** One code fewer of the largest length. */
  function Dropped(b: Lengths): (r: Lengths)
    requires |b| == 33 && b[LastUsed(b, 16)] > 0
    ensures |r| == 33
  {
    Plus(b, LastUsed(b, 16), -1)
  }

  lemma SomeUsed(b: Lengths, n: nat)
    requires Balanced(b, n) && NoneAbove(b, 16)
    ensures |b| == 33 && 0 < LastUsed(b, 16) <= 16 && b[LastUsed(b, 16)] > 0
  {
    hide Codes, Pow2;
    if LastUsed(b, 16) == 0 {
      SumsOfNone(b, 33);
    }
  }

  /** The count of the pseudo-symbol is taken from the largest length. The search has no lower bound: if no length up to 16
      is in use, it leaves the array, which ends the model's method with the result false. */
  method DropPseudo(bits: array<nat>) returns (found: bool)
    requires bits.Length == 33 && Bytes(bits[..])
    modifies bits
    ensures found <==> old(bits[..])[LastUsed(old(bits[..]), 16)] > 0
    ensures bits[..] == if found then Dropped(old(bits[..])) else old(bits[..])
  {
    hide LastUsed;
    ghost var b := bits[..];
    var i := 16;
    while i >= 0 && bits[i] == 0
      invariant -1 <= i <= 16 && LastUsed(b, 16) <= i + 1 && (b[LastUsed(b, 16)] > 0 ==> LastUsed(b, 16) <= i)
      decreases i
    {
      i := i - 1;
    }
    found := i >= 0;
    if found {
      bits[i] := Wrap(bits[i] - 1);
    }
  }

  /** What is left after the pseudo-symbol is dropped: a code space with room. */
  lemma DroppedSums(b: Lengths, n: nat)
    requires Balanced(b, n) && NoneAbove(b, 16) && |b| == 33 && b[LastUsed(b, 16)] > 0
    ensures NoneAbove(Dropped(b), 16) && Dropped(b)[0] == 0
    ensures Codes(Dropped(b), 33) == n - 1 && Span(Dropped(b), 33) + Pow2(16) <= Pow2(32)
  {
    hide Codes, Span, Pow2;
    SomeUsed(b, n);
    PlusSums(b, LastUsed(b, 16), -1, 33);
    Pow2Mono(16, 32 - LastUsed(b, 16));
  }

  // ----- the symbols in order of length -----

  /** The symbols below n with a code of length k. */
  function Row(cs: seq<nat>, k: nat, n: nat): (s: seq<Byte>)
    requires n <= |cs| && n <= 256
    ensures |s| == Tally(cs, k, n)
  {
    if n == 0 then [] else if cs[n - 1] == k then Row(cs, k, n - 1) + [n - 1] else Row(cs, k, n - 1)
  }

  /** The symbols with codes of lengths 1..k. */
  function Sorted(cs: seq<nat>, k: nat): seq<Byte>
    requires |cs| >= 256
  {
    if k == 0 then [] else Sorted(cs, k - 1) + Row(cs, k, 256)
  }

  lemma {:induction false} RowHas(cs: seq<nat>, k: nat, n: nat)
    requires n <= |cs| && n <= 256
    ensures forall x: Byte :: x in Row(cs, k, n) <==> x < n && cs[x] == k
    ensures forall p, q :: 0 <= p < q < |Row(cs, k, n)| ==> Row(cs, k, n)[p] < Row(cs, k, n)[q]
    decreases n
  {
    if n > 0 {
      RowHas(cs, k, n - 1);
      forall p, q | 0 <= p < q < |Row(cs, k, n)|
        ensures Row(cs, k, n)[p] < Row(cs, k, n)[q]
      {
        assert p < |Row(cs, k, n - 1)| ==> Row(cs, k, n - 1)[p] in Row(cs, k, n - 1);
      }
    }
  }

  /** Shorter optimal lengths first, and smaller symbols first among equal ones. */
  predicate Before(cs: seq<nat>, a: Byte, b: Byte)
    requires |cs| >= 256
  {
    cs[a] < cs[b] || (cs[a] == cs[b] && a < b)
  }

  /** Each symbol with a code of at most k bits is there, once, and they are sorted by length. */
  ghost predicate SortedBy(s: seq<Byte>, cs: seq<nat>, k: nat)
    requires |cs| >= 256
  {
    && (forall x: Byte :: x in s <==> 0 < cs[x] <= k)
    && (forall p, q :: 0 <= p < q < |s| ==> Before(cs, s[p], s[q]))
  }

  lemma {:induction false} SortedIs(cs: seq<nat>, k: nat)
    requires |cs| >= 256
    ensures SortedBy(Sorted(cs, k), cs, k)
  {
    if k > 0 {
      SortedIs(cs, k - 1);
      RowHas(cs, k, 256);
      SortedMore(Sorted(cs, k - 1), Row(cs, k, 256), cs, k);
    }
  }

  lemma SortedMore(s: seq<Byte>, r: seq<Byte>, cs: seq<nat>, k: nat)
    requires |cs| >= 256 && k > 0 && SortedBy(s, cs, k - 1)
    requires forall x: Byte :: x in r <==> cs[x] == k
    requires forall p, q :: 0 <= p < q < |r| ==> r[p] < r[q]
    ensures SortedBy(s + r, cs, k)
  {
    var t := s + r;
    forall p, q | 0 <= p < q < |t|
      ensures t[p] != t[q] && cs[t[p]] <= cs[t[q]]
    {
      assert p < |s| ==> t[p] in s;
      assert q < |s| ==> t[q] in s;
      assert p >= |s| ==> t[p] in r;
      assert q >= |s| ==> t[q] in r;
    }
  }

  /** There are as many as the histogram of the real symbols says. */
  lemma {:induction false} SortedLength(cs: seq<nat>, k: nat)
    requires |cs| >= 256 && k <= MAX_CLEN
    ensures |Sorted(cs, k)| == Codes(Histogram(cs, 256), k + 1)
  {
    if k > 0 {
      SortedLength(cs, k - 1);
    }
  }

  lemma {:induction false} AtMost(cs: seq<nat>, n: nat)
    requires n <= |cs|
    ensures Codes(Histogram(cs, n), 33) <= n
    decreases n
  {
    hide Codes, Histogram;
    if n == 0 {
      SumsOfNone(Histogram(cs, 0), 33);
    } else {
      AtMost(cs, n - 1);
      if 0 < cs[n - 1] <= MAX_CLEN {
        HistogramStep(cs, n);
        PlusSums(Histogram(cs, n - 1), cs[n - 1], 1, 33);
      } else {
        SameHistogram(cs, n);
      }
    }
  }

  lemma SameHistogram(cs: seq<nat>, n: nat)
    requires 0 < n <= |cs| && !(0 < cs[n - 1] <= MAX_CLEN)
    ensures Histogram(cs, n) == Histogram(cs, n - 1)
  {
  }

  lemma {:induction false} SortedMono(cs: seq<nat>, k: nat, m: nat)
    requires |cs| >= 256 && k <= m
    ensures |Sorted(cs, k)| <= |Sorted(cs, m)|
    decreases m
  {
    if k < m {
      SortedMono(cs, k, m - 1);
    }
  }

  lemma {:induction false} RowMono(cs: seq<nat>, k: nat, n: nat, m: nat)
    requires n <= m <= |cs| && m <= 256
    ensures |Row(cs, k, n)| <= |Row(cs, k, m)|
    decreases m
  {
    if n < m {
      RowMono(cs, k, n, m - 1);
    }
  }

  /** There is room for one more symbol. */
  lemma SortedFits(cs: seq<nat>, k: nat, n: nat)
    requires |cs| >= 256 && 0 < k <= MAX_CLEN && n < 256 && cs[n] == k
    ensures |Sorted(cs, k - 1)| + |Row(cs, k, n)| < 256
  {
    hide Codes, Histogram, Tally, Sorted;
    AtMost(cs, 256);
    SortedLength(cs, MAX_CLEN);
    SortedMono(cs, k, MAX_CLEN);
    RowMono(cs, k, n + 1, 256);
    SortedRow(cs, k);
  }

  lemma SortedRow(cs: seq<nat>, k: nat)
    requires |cs| >= 256 && 0 < k
    ensures Sorted(cs, k) == Sorted(cs, k - 1) + Row(cs, k, 256)
  {
  }

  /** The symbols listed when the loops have come to length i and symbol j. */
  function Listing(cs: seq<nat>, i: nat, j: nat): seq<Byte>
    requires |cs| >= 256 && 0 < i && j <= 256
  {
    Sorted(cs, i - 1) + Row(cs, i, j)
  }

  lemma ListingStep(cs: seq<nat>, i: nat, j: nat)
    requires |cs| >= 256 && 0 < i <= MAX_CLEN && j < 256
    ensures Listing(cs, i, j + 1) == if cs[j] == i then Listing(cs, i, j) + [j] else Listing(cs, i, j)
    ensures cs[j] == i ==> |Listing(cs, i, j)| < 256
  {
    hide Sorted, Codes, Tally;
    if cs[j] == i {
      SortedFits(cs, i, j);
    }
  }

  lemma ListingRow(cs: seq<nat>, i: nat)
    requires |cs| >= 256 && 0 < i
    ensures Listing(cs, i, 0) == Sorted(cs, i - 1) && Listing(cs, i, 256) == Sorted(cs, i)
    ensures Sorted(cs, 0) == []
  {
  }

  /** The array h begins with s and is h0 from there on. */
  ghost predicate Listed(h: seq<Byte>, h0: seq<Byte>, s: seq<Byte>, p: nat) {
    |h| == |h0| == 256 && p == |s| <= 256 && h[..p] == s && h[p..] == h0[p..]
  }

  lemma ListedStep(h: seq<Byte>, h0: seq<Byte>, s: seq<Byte>, p: nat, x: Byte)
    requires Listed(h, h0, s, p) && p < 256
    ensures Listed(h[p := x], h0, s + [x], p + 1)
  {
    assert h[p + 1..] == h[p..][1..];
    assert h0[p + 1..] == h0[p..][1..];
  }

  /** Lists the symbols sorted by code length. */
  method SortSymbols(codesize: array<nat>, huffval: array<Byte>) returns (ghost p: nat)
    requires codesize.Length == SYMBOLS && huffval.Length == 256
    modifies huffval
    ensures Listed(huffval[..], old(huffval[..]), Sorted(codesize[..], MAX_CLEN), p)
  {
    hide Sorted, Tally, Codes, Histogram, Listed, Listing, Row;
    ghost var cs, h0 := codesize[..], huffval[..];
    ListingRow(cs, 1);
    var next: nat := 0;
    NothingListed(h0);
    for i := 1 to MAX_CLEN + 1
      invariant codesize[..] == cs && Listed(huffval[..], h0, Sorted(cs, i - 1), next)
    {
      ListingRow(cs, i);
      for j := 0 to 256
        invariant codesize[..] == cs && Listed(huffval[..], h0, Listing(cs, i, j), next)
      {
        ListingStep(cs, i, j);
        if codesize[j] == i {
          ListedNext(huffval[..], h0, Listing(cs, i, j), next);
          ListedStep(huffval[..], h0, Listing(cs, i, j), next, j);
          huffval[next] := j;
          next := next + 1;
        }
      }
    }
    p := next;
  }

  lemma ListedNext(h: seq<Byte>, h0: seq<Byte>, s: seq<Byte>, p: nat)
    requires Listed(h, h0, s, p)
    ensures p == |s|
  {
  }

  lemma NothingListed(h: seq<Byte>)
    requires |h| == 256
    ensures Listed(h, h, [], 0)
  {
  }
}
