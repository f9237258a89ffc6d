/** Counts beyond the limit of the merge loop of jpeg_gen_optimal_table (jchuff.c): which are still merged, and which are not. */
module LargeCounts {
  import opened HuffmanForest
  import opened OptimalCodeSizes

  /** A count above the limit is not merged with any other. */
  lemma {:induction false} OverlookedCount(f: Counts, x: nat, y: nat)
    requires x < |f| && y < |f| && x != y && f[x] > LIMIT && f[y] > 0
    ensures !Mergeable(Bag(f, |f|))
    decreases |Bag(f, |f|)|
  {
    hide Bag, Mergeable;
    var c1, c2 := TwoLeast(f, x, y);
    MergeableStep(f, c1, c2);
    if f[c2] <= LIMIT {
      BagShrinks(f, c1, c2);
      OverlookedCount(MergeCounts(f, c1, c2), x, c1);
    }
  }

  /** Two counts are merged exactly if neither is above the limit. */
  lemma TwoCounts(f: Counts, x: nat, y: nat)
    requires x < |f| && y < |f| && x != y && f[x] > 0 && f[y] > 0
    requires forall i :: 0 <= i < |f| && i != x && i != y ==> f[i] == 0
    ensures Mergeable(Bag(f, |f|)) <==> f[x] <= LIMIT && f[y] <= LIMIT
  {
    hide Bag, Mergeable;
    var c1, c2 := if f[x] <= f[y] then x else y, if f[x] <= f[y] then y else x;
    MergeableStep(f, c1, c2);
    OneCount(MergeCounts(f, c1, c2));
  }

  /** The pseudo-symbol, and symbols 0 and 1 with the counts a and b. */
  function Large(a: nat, b: nat): (f: Counts)
    ensures |f| == SYMBOLS
  {
    seq(SYMBOLS, x => if x == 0 then a else if x == 1 then b else if x == 256 then 1 else 0)
  }

  /** One count just above the limit: its symbol is overlooked. */
  lemma OneTooLarge()
    ensures Large(1_000_000_001, 0)[256] == 1 && !Mergeable(Bag(Large(1_000_000_001, 0), SYMBOLS))
  {
    hide Bag, Mergeable;
    TwoCounts(Large(1_000_000_001, 0), 0, 256);
  }

  /** One count at the limit: the total is above it, but the merging completes. */
  lemma OneAtLimit()
    ensures Total(Large(1_000_000_000, 0), SYMBOLS) == LIMIT + 1 && Mergeable(Bag(Large(1_000_000_000, 0), SYMBOLS))
  {
    hide Bag, Mergeable;
    TwoCounts(Large(1_000_000_000, 0), 0, 256);
    LargeTotal(1_000_000_000, 0, SYMBOLS);
  }

  lemma {:induction false} LargeTotal(a: nat, b: nat, n: nat)
    requires n <= SYMBOLS
    ensures Total(Large(a, b), n) == (if n > 0 then a else 0) + (if n > 1 then b else 0) + if n > 256 then 1 else 0
    decreases n
  {
    if n > 0 {
      LargeTotal(a, b, n - 1);
    }
  }

  /** Two counts at the limit, none above it: the pseudo-symbol makes one of them too large for the other. */
  lemma TwoAtLimit()
    ensures (forall x :: 0 <= x < SYMBOLS ==> Large(1_000_000_000, 1_000_000_000)[x] <= LIMIT)
    ensures !Mergeable(Bag(Large(1_000_000_000, 1_000_000_000), SYMBOLS))
  {
    hide Bag, Mergeable;
    var f := Large(1_000_000_000, 1_000_000_000);
    MergeableStep(f, 256, 0);
    TwoCounts(MergeCounts(f, 256, 0), 256, 1);
  }
}
