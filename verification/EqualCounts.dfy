/** 255 symbols with equal counts: the input on which the byte counters of jpeg_gen_optimal_table (jchuff.c) overflow; and why
    counts that differ do not make them overflow. */
module EqualCounts {
  import opened BitSeq
  import opened HuffmanForest
  import opened LengthLimiting
  import opened SymbolLengths

  /** 255 symbols that occur once each, and the pseudo-symbol. */
  ghost predicate Equal(f: Counts) {
    |f| == SYMBOLS && f[256] == 1 && Used(f, SYMBOLS) == 256 && forall x :: 0 <= x < SYMBOLS ==> f[x] <= 1
  }

  function Eights(): (s: seq<nat>)
    ensures |s| == SYMBOLS && forall x :: 0 <= x < SYMBOLS ==> s[x] == 8
  {
    seq(SYMBOLS, _ => 8)
  }

  lemma {:induction false} EightSums(f: Counts, n: nat)
    requires |f| == SYMBOLS && n <= SYMBOLS && forall x :: 0 <= x < SYMBOLS ==> f[x] <= 1
    ensures Dot(f, Eights(), n) == 8 * Used(f, n) && UsedKraft(f, Eights(), n, 8) == Used(f, n)
    decreases n
  {
    assert Pow2(0) == 1;
    hide Pow2;
    if n > 0 {
      EightSums(f, n - 1);
      assert f[n - 1] * Eights()[n - 1] == if f[n - 1] > 0 then 8 else 0;
    }
  }

  /** 2^k >= k + 1. */
  lemma {:induction false} Tangent(k: nat)
    ensures Pow2(k) >= k + 1
  {
    if k > 0 {
      Tangent(k - 1);
    }
  }

  lemma TangentAt(c: nat)
    requires c <= SCALE
    ensures Pow2(SCALE - c) + c * Pow2(248) >= 9 * Pow2(248) + if c > 8 then 1 else 0
  {
    hide Pow2;
    if c <= 8 {
      Pow2Add(8 - c, 248);
      Tangent(8 - c);
      MulMono(9 - c, Pow2(8 - c), Pow2(248));
      MulDistrib(9 - c, c, Pow2(248));
    } else {
      MulMono(9, c, Pow2(248));
    }
  }

  /** The Kraft sum grows faster than the total length shrinks. */
  lemma {:induction false} SumTangent(f: Counts, cs: seq<nat>, n: nat, x: nat)
    requires |f| == |cs| == SYMBOLS && n <= SYMBOLS && forall x :: 0 <= x < SYMBOLS ==> f[x] <= 1 && cs[x] <= SCALE
    ensures UsedKraft(f, cs, n, SCALE) + Dot(f, cs, n) * Pow2(248)
         >= 9 * Used(f, n) * Pow2(248) + if x < n && f[x] > 0 && cs[x] > 8 then 1 else 0
    decreases n
  {
    hide Pow2;
    if n > 0 {
      SumTangent(f, cs, n - 1, x);
      if f[n - 1] > 0 {
        assert f[n - 1] * cs[n - 1] == cs[n - 1];
        TangentAt(cs[n - 1]);
        MulDistrib(Dot(f, cs, n - 1), cs[n - 1], Pow2(248));
        MulDistrib(9 * Used(f, n - 1), 9, Pow2(248));
      } else {
        assert f[n - 1] * cs[n - 1] == 0;
      }
    }
  }

  /** Codes of at most 8 bits, one of them shorter, take more than their share. */
  lemma {:induction false} ShortTakesMore(f: Counts, cs: seq<nat>, n: nat, x: nat)
    requires |f| == |cs| == SYMBOLS && n <= SYMBOLS && forall x :: 0 <= x < SYMBOLS && f[x] > 0 ==> cs[x] <= 8
    ensures UsedKraft(f, cs, n, SCALE) >= Used(f, n) * Pow2(248) + if x < n && f[x] > 0 && cs[x] < 8 then Pow2(248) else 0
    decreases n
  {
    hide Pow2;
    if n > 0 {
      ShortTakesMore(f, cs, n - 1, x);
      if f[n - 1] > 0 {
        Pow2Mono(248, SCALE - cs[n - 1]);
        if cs[n - 1] < 8 {
          Pow2Mono(249, SCALE - cs[n - 1]);
          Double(248);
        }
        MulDistrib(Used(f, n - 1), 1, Pow2(248));
      }
    }
  }

  lemma {:induction false} AllAtEight(f: Counts, cs: seq<nat>, n: nat)
    requires n <= |f| && n <= |cs| && forall x :: 0 <= x < n ==> cs[x] == if f[x] > 0 then 8 else 0
    ensures Tally(cs, 8, n) == Used(f, n) && forall k :: 0 < k && k != 8 ==> Tally(cs, k, n) == 0
    decreases n
  {
    if n > 0 {
      AllAtEight(f, cs, n - 1);
    }
  }

  lemma NoExcess(k: nat, d: nat, p: nat, e: nat)
    requires k == 256 * p && d <= 2048 && k + d * p >= 2304 * p + e
    ensures e == 0
  {
    MulMono(d, 2048, p);
  }

  lemma AtMostEight(f: Counts, cs: seq<nat>, x: nat)
    requires CodeSizes(f, cs) && Equal(f) && x < SYMBOLS && f[x] > 0
    ensures cs[x] <= 8
  {
    hide Pow2, Dot, UsedKraft, Used, Bag, Total, Fib;
    EightSums(f, SYMBOLS);
    assert Pow2(8) == 256 by { Pow2Small(); }
    CodeSizesOptimal(f, cs, Eights(), 8);
    Pow2Add(8, 248);
    SumTangent(f, cs, SYMBOLS, x);
    NoExcess(UsedKraft(f, cs, SYMBOLS, SCALE), Dot(f, cs, SYMBOLS), Pow2(248), if cs[x] > 8 then 1 else 0);
  }

  lemma ExactlyEight(f: Counts, cs: seq<nat>, x: nat)
    requires CodeSizes(f, cs) && Equal(f) && x < SYMBOLS
    ensures cs[x] == if f[x] > 0 then 8 else 0
  {
    hide Pow2, Dot, UsedKraft, Used, Bag, Total, Fib;
    assert Pow2(SCALE) == 256 * Pow2(248) by {
      Pow2Add(8, 248);
      Pow2Small();
    }
    forall y | 0 <= y < SYMBOLS && f[y] > 0
      ensures cs[y] <= 8
    {
      AtMostEight(f, cs, y);
    }
    ShortTakesMore(f, cs, SYMBOLS, x);
  }

  /** With 255 equal counts all 256 codes have 8 bits; the byte that counts them wraps to 0 and no code is left. */
  lemma EqualCountsOverflow(f: Counts, cs: seq<nat>)
    requires CodeSizes(f, cs) && Equal(f)
    ensures Histogram(cs, SYMBOLS)[8] == 256 && !Bytes(Histogram(cs, SYMBOLS))
    ensures forall k :: 0 <= k <= 32 ==> Wrapped(Histogram(cs, SYMBOLS))[k] == 0
  {
    hide Pow2, Dot, UsedKraft, Used, Bag, Total, Fib;
    forall x | 0 <= x < SYMBOLS
      ensures cs[x] == if f[x] > 0 then 8 else 0
    {
      ExactlyEight(f, cs, x);
    }
    AllAtEight(f, cs, SYMBOLS);
  }

  /** Symbols 0 to 254 once each, symbol 255 not at all, and the pseudo-symbol. */
  function Ones(): (f: Counts)
    ensures |f| == SYMBOLS
  {
    seq(SYMBOLS, x => if x == 255 then 0 else 1)
  }

  lemma {:induction false} OnesUsed(n: nat)
    requires n <= SYMBOLS
    ensures Used(Ones(), n) == if n <= 255 then n else n - 1
    decreases n
  {
    if n > 0 {
      OnesUsed(n - 1);
    }
  }

  /** On this input no code is left in any byte, whichever optimal lengths the merging found. */
  lemma OnesOverflow(cs: seq<nat>)
    requires CodeSizes(Ones(), cs)
    ensures Used(Ones(), 256) == 255 && Histogram(cs, SYMBOLS)[8] == 256 && Overflows(cs)
    ensures forall k :: 0 <= k <= 32 ==> Wrapped(Histogram(cs, SYMBOLS))[k] == 0
  {
    hide CodeSizes, Histogram, Wrapped, Used;
    OnesUsed(SYMBOLS);
    OnesUsed(256);
    EqualCountsOverflow(Ones(), cs);
  }

  // ----- counts that differ -----

  lemma {:induction false} DotChange(f: Counts, cs: seq<nat>, x: nat, v: nat, n: nat)
    requires n <= |f| == |cs| && x < |cs|
    ensures Dot(f, cs[x := v], n) + (if x < n then f[x] * cs[x] else 0) == Dot(f, cs, n) + if x < n then f[x] * v else 0
    decreases n
  {
    if n > 0 {
      DotChange(f, cs, x, v, n - 1);
    }
  }

  lemma {:induction false} KraftChange(f: Counts, cs: seq<nat>, x: nat, v: nat, n: nat)
    requires n <= |f| == |cs| && x < |cs| && f[x] > 0 && cs[x] <= SCALE && v <= SCALE
    ensures UsedKraft(f, cs[x := v], n, SCALE) + (if x < n then Pow2(SCALE - cs[x]) else 0)
         == UsedKraft(f, cs, n, SCALE) + if x < n then Pow2(SCALE - v) else 0
    decreases n
  {
    hide Pow2;
    if n > 0 {
      KraftChange(f, cs, x, v, n - 1);
    }
  }

  lemma Doubles(l: nat)
    requires 0 < l < SCALE
    ensures Pow2(SCALE - (l - 1)) == 2 * Pow2(SCALE - l) && Pow2(SCALE - l) == 2 * Pow2(SCALE - (l + 1))
  {
    Double(SCALE - l);
    Double(SCALE - (l + 1));
  }

  lemma Weighed(a: nat, b: nat, c: nat, l: nat)
    requires l > 0 && a * l + b * l + c * l <= a * (l - 1) + b * (l + 1) + c * (l + 1)
    ensures a <= b + c
  {
    assert a * (l - 1) == a * l - a && b * (l + 1) == b * l + b && c * (l + 1) == c * l + c;
  }

  /** Of three symbols with codes of the same length none occurs more often than the other two together: otherwise a bit could
      be taken from its code and given to each of theirs. */
  lemma SameLength(f: Counts, cs: seq<nat>, l: nat, x: nat, y: nat, z: nat)
    requires CodeSizes(f, cs) && f[SYMBOLS - 1] > 0 && 0 < l < SCALE
    requires x < SYMBOLS && y < SYMBOLS && z < SYMBOLS && x != y && x != z && y != z
    requires f[x] > 0 && f[y] > 0 && f[z] > 0 && cs[x] == cs[y] == cs[z] == l
    ensures f[x] <= f[y] + f[z]
  {
    hide Dot, UsedKraft, Bag, Total, Fib, Pow2;
    var a := cs[x := l - 1];
    var b := a[y := l + 1];
    var ls := b[z := l + 1];
    KraftChange(f, cs, x, l - 1, SYMBOLS);
    KraftChange(f, a, y, l + 1, SYMBOLS);
    KraftChange(f, b, z, l + 1, SYMBOLS);
    Doubles(l);
    DotChange(f, cs, x, l - 1, SYMBOLS);
    DotChange(f, a, y, l + 1, SYMBOLS);
    DotChange(f, b, z, l + 1, SYMBOLS);
    CodeSizesOptimal(f, cs, ls, SCALE);
    Weighed(f[x], f[y], f[z], l);
  }

  lemma {:induction false} OthersTallied(f: Counts, cs: seq<nat>, k: nat, n: nat, x: nat)
    requires LengthsFit(f, cs, n) && k > 0
    ensures Tally(cs, k, n) + (if x < n && f[x] > 0 && cs[x] != k then 1 else 0) <= Used(f, n)
    decreases n
  {
    if n > 0 {
      OthersTallied(f, cs, k, n - 1, x);
    }
  }

  /** 255 symbols do not make a byte overflow if the counts of two of them differ by more than one. */
  lemma SpreadFits(f: Counts, cs: seq<nat>, x: nat, y: nat)
    requires CodeSizes(f, cs) && Countable(f, y) && |cs| == SYMBOLS && Used(f, 256) == 255
    requires forall z :: 0 <= z < SYMBOLS ==> cs[z] <= MAX_CLEN
    requires x < 256 && f[x] > f[y] + 1
    ensures !Overflows(cs)
  {
    hide CodeSizes, Tally, Used, Balanced, LengthsFit;
    HistogramBalanced(f, cs, y);
    UsedStep(f);
    if Overflows(cs) {
      var l := if Tally(cs, 8, SYMBOLS) == 256 then 8 else 9;
      forall z | z in [x, y, 256]
        ensures cs[z] == l
      {
        OthersTallied(f, cs, l, SYMBOLS, z);
      }
      SameLength(f, cs, l, x, y, 256);
      assert false;
    }
  }
}
