/** The merge loop of jpeg_gen_optimal_table (jchuff.c): counts, code sizes and the chains of symbols behind each count. */
module OptimalCodeSizes {
  import opened BitSeq
  import opened HuffmanOptimality
  import opened HuffmanForest

  /** Counts above this are overlooked. */
  const LIMIT: nat := 1_000_000_000

  // ----- chains -----

  /** ch is a chain of distinct symbols through `others`. */
  ghost predicate Linked(others: seq<int>, ch: seq<nat>) {
    && |ch| > 0
    && (forall k :: 0 <= k < |ch| ==> ch[k] < |others|)
    && (forall j, k :: 0 <= j < k < |ch| ==> ch[j] != ch[k])
    && (forall k :: 0 <= k < |ch| - 1 ==> others[ch[k]] == ch[k + 1])
    && others[ch[|ch| - 1]] == -1
  }

  /** The chain of r holds exactly the symbols that r owns. */
  ghost predicate ChainOf(owner: seq<int>, others: seq<int>, ch: seq<nat>, r: nat) {
    Linked(others, ch) && ch[0] == r && forall x: nat :: x < |owner| ==> (x in ch <==> owner[x] == r)
  }

  ghost predicate Chained(freq: Counts, owner: seq<int>, others: seq<int>, chains: seq<seq<nat>>) {
    && |freq| == |owner| == |others| == |chains| == SYMBOLS
    && forall r :: 0 <= r < SYMBOLS && freq[r] > 0 ==> ChainOf(owner, others, chains[r], r)
  }

  /** Linking the end of one chain to the beginning of another. */
  lemma LinkedTwo(others: seq<int>, a: seq<nat>, b: seq<nat>)
    requires Linked(others, a) && Linked(others, b) && forall x :: x in a ==> x !in b
    ensures Linked(others[a[|a| - 1] := b[0]], a + b)
  {
    var o, ch := others[a[|a| - 1] := b[0]], a + b;
    assert b[|b| - 1] in b;
    forall k | 0 <= k < |ch| - 1
      ensures o[ch[k]] == ch[k + 1]
    {
      assert k >= |a| ==> ch[k] in b;
    }
    forall j, k | 0 <= j < k < |ch|
      ensures ch[j] != ch[k]
    {
      assert j < |a| ==> ch[j] in a;
      assert k >= |a| ==> ch[k] in b;
    }
  }

  lemma LinkedAside(others: seq<int>, ch: seq<nat>, x: nat, y: int)
    requires Linked(others, ch) && x !in ch && x < |others|
    ensures Linked(others[x := y], ch)
  {
  }

  lemma InBoth(a: seq<nat>, b: seq<nat>, x: nat)
    ensures x in a + b <==> x in a || x in b
  {
  }

  lemma ChainsMerge(freq: Counts, owner: seq<int>, others: seq<int>, chains: seq<seq<nat>>, c1: nat, c2: nat, last: nat)
    requires Chained(freq, owner, others, chains) && Smallest(freq, c1, c2)
    requires |chains[c1]| > 0 && last == chains[c1][|chains[c1]| - 1] < SYMBOLS
    ensures Chained(MergeCounts(freq, c1, c2), MergeOwners(owner, c1, c2), others[last := c2], chains[c1 := chains[c1] + chains[c2]])
  {
    hide Linked;
    var owner1, others1, ch := MergeOwners(owner, c1, c2), others[last := c2], chains[c1] + chains[c2];
    assert last in chains[c1];
    Elements(others, chains[c1]);
    Elements(others, chains[c2]);
    forall x | x in chains[c1]
      ensures x !in chains[c2]
    {
      assert owner[x] == c1;
    }
    LinkedTwo(others, chains[c1], chains[c2]);
    forall x: nat | x < SYMBOLS
      ensures x in ch <==> owner1[x] == c1
    {
      InBoth(chains[c1], chains[c2], x);
    }
    forall r | 0 <= r < SYMBOLS && MergeCounts(freq, c1, c2)[r] > 0 && r != c1
      ensures ChainOf(owner1, others1, chains[r], r)
    {
      assert owner[last] == c1;
      LinkedAside(others, chains[r], last, c2);
    }
  }

  lemma Elements(others: seq<int>, ch: seq<nat>)
    requires Linked(others, ch)
    ensures |ch| > 0 && forall x :: x in ch ==> x < |others|
  {
  }

  // ----- the state of the loop -----

  /** A count above the limit is never merged. */
  ghost predicate Overlooked(f0: Counts, freq: Counts, cs: seq<nat>, owner: seq<int>) {
    && |f0| == |freq| == |cs| == |owner| == SYMBOLS
    && forall x :: 0 <= x < SYMBOLS && f0[x] > LIMIT ==> freq[x] == f0[x] && owner[x] == x && cs[x] == 0
  }

  /** What holds between merges. */
  ghost predicate Merging(f0: Counts, freq: Counts, cs: seq<nat>, owner: seq<int>, merges: nat) {
    && Grouped(f0, freq, owner) && FullTrees(f0, freq, cs, owner, merges) && Deep(freq, cs, owner) && Priced(f0, freq, cs)
    && Overlooked(f0, freq, cs, owner)
    && merges + |Bag(freq, SYMBOLS)| <= SYMBOLS
  }

  lemma MergingStarts(f0: Counts)
    requires |f0| == SYMBOLS && f0[SYMBOLS - 1] > 0
    ensures Merging(f0, f0, seq(SYMBOLS, _ => 0), Singles(f0), 0)
    ensures Chained(f0, Singles(f0), seq(SYMBOLS, _ => -1), seq(SYMBOLS, x requires 0 <= x < SYMBOLS => [x]))
  {
    hide Grouped, FullTrees, Deep, Priced, Bag;
    Beginning(f0);
  }

  lemma BagShrinks(freq: Counts, c1: nat, c2: nat)
    requires Smallest(freq, c1, c2)
    ensures |Bag(MergeCounts(freq, c1, c2), |freq|)| + 1 == |Bag(freq, |freq|)| && |Bag(freq, |freq|)| > 1
  {
    hide Bag;
    AtLeastTwo(freq, c1, c2);
    BagMerges(freq, c1, c2);
  }

  lemma OverlookedStill(f0: Counts, freq: Counts, cs: seq<nat>, owner: seq<int>, c1: nat, c2: nat)
    requires Overlooked(f0, freq, cs, owner) && Smallest(freq, c1, c2) && freq[c1] <= LIMIT && freq[c2] <= LIMIT
    ensures Overlooked(f0, MergeCounts(freq, c1, c2), MergeLengths(cs, owner, c1, c2), MergeOwners(owner, c1, c2))
  {
  }

  lemma MergingStep(f0: Counts, freq: Counts, cs: seq<nat>, owner: seq<int>, merges: nat, c1: nat, c2: nat)
    requires Merging(f0, freq, cs, owner, merges) && Smallest(freq, c1, c2) && freq[c1] <= LIMIT && freq[c2] <= LIMIT
    ensures Merging(f0, MergeCounts(freq, c1, c2), MergeLengths(cs, owner, c1, c2), MergeOwners(owner, c1, c2), merges + 1)
    ensures |Bag(MergeCounts(freq, c1, c2), SYMBOLS)| < |Bag(freq, SYMBOLS)|
  {
    hide Deep, Priced, Bag, Grouped, FullTrees, Overlooked, Smallest;
    Sizes257(f0, freq, owner);
    BagShrinks(freq, c1, c2);
    GroupsMerge(f0, freq, owner, c1, c2);
    TreesMerge(f0, freq, cs, owner, c1, c2, merges);
    DepthMerges(f0, freq, cs, owner, c1, c2);
    PriceMerges(f0, freq, cs, owner, c1, c2);
    OverlookedStill(f0, freq, cs, owner, c1, c2);
  }

  lemma Sizes257(f0: Counts, freq: Counts, owner: seq<int>)
    requires Grouped(f0, freq, owner)
    ensures |f0| == |freq| == |owner| == SYMBOLS
  {
  }

  // ----- which counts are merged completely -----

  /** As long as there are two counts, the second smallest is not overlooked. */
  ghost predicate Mergeable(m: multiset<nat>)
    decreases |m|
  {
    |m| <= 1 || (Min(m - multiset{Min(m)}) <= LIMIT && Mergeable(Merged(m)))
  }

  lemma MergeableStep(freq: Counts, c1: nat, c2: nat)
    requires Smallest(freq, c1, c2)
    ensures Mergeable(Bag(freq, |freq|)) <==> freq[c2] <= LIMIT && Mergeable(Bag(MergeCounts(freq, c1, c2), |freq|))
  {
    hide *;
    SmallestIs(freq, c1, c2);
    AtLeastTwo(freq, c1, c2);
    BagMerges(freq, c1, c2);
    MergedIs(Bag(freq, |freq|), freq[c1], freq[c2]);
    UnfoldMergeable(Bag(freq, |freq|), freq[c1], freq[c2], Bag(MergeCounts(freq, c1, c2), |freq|));
  }

  lemma UnfoldMergeable(m: multiset<nat>, a: nat, b: nat, r: multiset<nat>)
    requires |m| > 1 && a == Min(m) && |m - multiset{a}| > 0 && b == Min(m - multiset{a}) && r == Merged(m)
    ensures Mergeable(m) <==> b <= LIMIT && Mergeable(r)
  {
    hide Min, Merged;
  }

  lemma MergedIs(m: multiset<nat>, a: nat, b: nat)
    requires |m| > 1 && a == Min(m) && |m - multiset{a}| > 0 && b == Min(m - multiset{a})
    ensures Merged(m) == m - multiset{a} - multiset{b} + multiset{a + b}
  {
    hide Min;
  }

  lemma SmallestIs(freq: Counts, c1: nat, c2: nat)
    requires Smallest(freq, c1, c2)
    ensures c1 < |freq| && c2 < |freq| && c1 != c2
  {
  }

  /** A smallest count other than skip's. */
  lemma LeastIndex(freq: Counts, skip: int, x: nat) returns (a: nat)
    requires x < |freq| && x != skip && freq[x] > 0
    ensures a < |freq| && a != skip && freq[a] > 0
    ensures forall i :: 0 <= i < |freq| && i != skip && freq[i] > 0 ==> freq[a] <= freq[i]
    decreases freq[x]
  {
    a := x;
    if i: nat :| i < |freq| && i != skip && 0 < freq[i] < freq[x] {
      a := LeastIndex(freq, skip, i);
    }
  }

  lemma TwoLeast(freq: Counts, x: nat, y: nat) returns (c1: nat, c2: nat)
    requires x < |freq| && y < |freq| && x != y && freq[x] > 0 && freq[y] > 0
    ensures Smallest(freq, c1, c2)
  {
    c1 := LeastIndex(freq, -1, x);
    c2 := LeastIndex(freq, c1, if x == c1 then y else x);
  }

  lemma {:induction false} TotalAtLeast(f: Counts, x: nat, n: nat)
    requires x < n <= |f|
    ensures f[x] <= Total(f, n)
    decreases n
  {
    if x < n - 1 {
      TotalAtLeast(f, x, n - 1);
    }
  }

  lemma {:induction false} TotalChange(f: Counts, i: nat, v: nat, n: nat)
    requires i < |f| && n <= |f|
    ensures Total(f[i := v], n) == Total(f, n) + if i < n then v - f[i] else 0
    decreases n
  {
    if n > 0 {
      TotalChange(f, i, v, n - 1);
    }
  }

  /** Counts that total at most the limit are merged completely; so are some that total more. */
  lemma {:induction false} TotalSuffices(f: Counts)
    requires Total(f, |f|) <= LIMIT
    ensures Mergeable(Bag(f, |f|))
    decreases |Bag(f, |f|)|
  {
    hide Bag, Mergeable, Total;
    if x: nat, y: nat :| x < y < |f| && f[x] > 0 && f[y] > 0 {
      var c1, c2 := TwoLeast(f, x, y);
      TotalAtLeast(f, c2, |f|);
      TotalChange(f, c1, f[c1] + f[c2], |f|);
      TotalChange(f[c1 := f[c1] + f[c2]], c2, 0, |f|);
      BagShrinks(f, c1, c2);
      TotalSuffices(MergeCounts(f, c1, c2));
      MergeableStep(f, c1, c2);
    } else {
      OneCount(f);
    }
  }

  lemma OneCount(f: Counts)
    requires forall x, y :: 0 <= x < y < |f| && f[x] > 0 ==> f[y] == 0
    ensures Mergeable(Bag(f, |f|))
  {
    if x: nat :| x < |f| && f[x] > 0 {
      BagOfOne(f, x, |f|);
    } else {
      BagOfOne(f, |f|, |f|);
    }
  }

  /** Two groups of full trees take twice the code space. */
  lemma {:induction false} TwoKrafts(f0: Counts, cs: seq<nat>, owner: seq<int>, r: nat, g: nat, n: nat)
    requires n <= |f0| && n <= |cs| && n <= |owner| && r != g && forall x :: 0 <= x < n && f0[x] == 0 ==> owner[x] == -1
    ensures GroupKraft(cs, owner, r, n, SCALE) + GroupKraft(cs, owner, g, n, SCALE) <= UsedKraft(f0, cs, n, SCALE)
    decreases n
  {
    hide Pow2;
    if n > 0 {
      TwoKrafts(f0, cs, owner, r, g, n - 1);
    }
  }

  /** c is the symbol other than skip with the smallest nonzero count, the larger one if there are several; -1 if there is none. */
  ghost predicate Found(freq: Counts, skip: int, c: int) {
    && -1 <= c < |freq|
    && (c == -1 ==> forall i :: 0 <= i < |freq| && i != skip && freq[i] > 0 ==> freq[i] > LIMIT)
    && (c >= 0 ==> c != skip && 0 < freq[c] <= LIMIT)
    && (c >= 0 ==>
          forall i :: 0 <= i < |freq| && i != skip && freq[i] > 0 ==> freq[c] <= freq[i] && (freq[i] == freq[c] ==> i <= c))
  }

  lemma BothFound(freq: Counts, c1: int, c2: int)
    requires |freq| == SYMBOLS && Found(freq, -1, c1) && Found(freq, c1, c2) && c2 >= 0
    ensures 0 <= c1 < SYMBOLS && c2 < SYMBOLS && Smallest(freq, c1, c2) && c1 != c2
    ensures 0 < freq[c1] <= LIMIT && 0 < freq[c2] <= LIMIT
  {
  }

  /** The loop ends with one group, or with counts of which all but one are overlooked. */
  lemma MergingEnds(f0: Counts, freq: Counts, cs: seq<nat>, owner: seq<int>, merges: nat, c1: int)
    requires Merging(f0, freq, cs, owner, merges) && f0[SYMBOLS - 1] > 0 && Found(freq, -1, c1) && Found(freq, c1, -1)
    requires Mergeable(Bag(f0, SYMBOLS)) <==> Mergeable(Bag(freq, SYMBOLS))
    ensures Mergeable(Bag(f0, SYMBOLS)) ==> CodeSizes(f0, cs)
    ensures !Mergeable(Bag(f0, SYMBOLS)) ==> UsedKraft(f0, cs, SYMBOLS, SCALE) >= 2 * Pow2(SCALE)
    ensures forall x :: 0 <= x < SYMBOLS && f0[x] > LIMIT ==> cs[x] == 0
  {
    hide FullTrees, Deep, Priced, Bag, GroupWeight, Total, Mergeable;
    var c := owner[SYMBOLS - 1];
    if g: nat :| g < SYMBOLS && g != c && freq[g] > 0 {
      var a, b := TwoLeast(freq, c, g);
      MergeableStep(freq, a, b);
      TreesAt(f0, freq, cs, owner, merges, c);
      TreesAt(f0, freq, cs, owner, merges, g);
      TwoKrafts(f0, cs, owner, c, g, SYMBOLS);
    } else {
      OneGroupLeft(f0, freq, cs, owner, merges, c);
      OneCount(freq);
    }
  }

  lemma TreesAt(f0: Counts, freq: Counts, cs: seq<nat>, owner: seq<int>, merges: nat, r: nat)
    requires FullTrees(f0, freq, cs, owner, merges) && r < SYMBOLS && freq[r] > 0
    ensures |cs| == |owner| == SYMBOLS && GroupKraft(cs, owner, r, SYMBOLS, SCALE) == Pow2(SCALE)
  {
  }

  // ----- the pseudo-symbol -----

  /** Group g is chosen before group h: it is lighter, or as heavy with a larger symbol number. */
  predicate Precedes(freq: Counts, g: nat, h: nat)
    requires g < |freq| && h < |freq|
  {
    freq[g] < freq[h] || (freq[g] == freq[h] && g > h)
  }

  /** No code is longer than the pseudo-symbol's, and in groups chosen before its own all are shorter. */
  ghost predicate PseudoDeep(freq: Counts, cs: seq<nat>, owner: seq<int>) {
    && |freq| == |cs| == |owner| == SYMBOLS && 0 <= owner[256] < SYMBOLS && freq[owner[256]] > 0
    && forall x :: 0 <= x < SYMBOLS && 0 <= owner[x] < SYMBOLS ==>
         cs[x] <= cs[256] && (owner[x] != owner[256] && Precedes(freq, owner[x], owner[256]) ==> cs[x] < cs[256])
  }

  /** The group p of the pseudo-symbol weighs at most twice as much as any other; where exactly twice, the others come after
      the one it was merged as. */
  ghost predicate AtMostTwice(freq: Counts, p: nat, t: nat) {
    && p < |freq| && t >= 1 && freq[p] <= 2 * t
    && forall g :: 0 <= g < |freq| && g != p && freq[g] > 0 ==> freq[g] >= t && (freq[p] == 2 * t && freq[g] == t ==> g < p)
  }

  /** The choice of the two smallest counts, ties being broken by the larger symbol number. */
  ghost predicate Chosen(freq: Counts, c1: nat, c2: nat) {
    && Smallest(freq, c1, c2)
    && (forall i :: 0 <= i < |freq| && freq[i] > 0 && i != c1 ==> Precedes(freq, c1, i))
    && forall i :: 0 <= i < |freq| && freq[i] > 0 && i != c1 && i != c2 ==> Precedes(freq, c2, i)
  }

  lemma PseudoStarts(f0: Counts)
    requires |f0| == SYMBOLS && f0[256] == 1
    ensures PseudoDeep(f0, seq(SYMBOLS, _ => 0), Singles(f0)) && Singles(f0)[256] == 256 && AtMostTwice(f0, 256, 1)
  {
  }

  /** The owners of symbols are groups. */
  ghost predicate Owned(freq: Counts, owner: seq<int>) {
    && |freq| == |owner| == SYMBOLS
    && (forall x :: 0 <= x < SYMBOLS && 0 <= owner[x] < SYMBOLS ==> freq[owner[x]] > 0)
    && forall r :: 0 <= r < SYMBOLS && freq[r] > 0 ==> owner[r] == r
  }

  lemma GroupedOwned(f0: Counts, freq: Counts, owner: seq<int>)
    requires Grouped(f0, freq, owner)
    ensures Owned(freq, owner)
  {
    hide GroupWeight;
  }

  /** A merge keeps this, whether the pseudo-symbol's group takes part or not. */
  lemma PseudoStep(freq: Counts, cs: seq<nat>, owner: seq<int>, c1: nat, c2: nat, t: nat) returns (t': nat)
    requires Owned(freq, owner) && PseudoDeep(freq, cs, owner) && AtMostTwice(freq, owner[256], t) && Chosen(freq, c1, c2)
    ensures |owner| == SYMBOLS && |cs| == SYMBOLS
    ensures PseudoDeep(MergeCounts(freq, c1, c2), MergeLengths(cs, owner, c1, c2), MergeOwners(owner, c1, c2))
    ensures MergeOwners(owner, c1, c2)[256] >= 0 && AtMostTwice(MergeCounts(freq, c1, c2), MergeOwners(owner, c1, c2)[256], t')
  {
    var p := owner[256];
    if p == c1 || p == c2 {
      t' := freq[c2];
      PseudoMerged(freq, cs, owner, c1, c2);
    } else {
      t' := t;
      OthersMerged(freq, cs, owner, c1, c2, t);
    }
  }

  lemma PseudoMerged(freq: Counts, cs: seq<nat>, owner: seq<int>, c1: nat, c2: nat)
    requires Owned(freq, owner) && PseudoDeep(freq, cs, owner) && Chosen(freq, c1, c2) && (owner[256] == c1 || owner[256] == c2)
    ensures PseudoDeep(MergeCounts(freq, c1, c2), MergeLengths(cs, owner, c1, c2), MergeOwners(owner, c1, c2))
    ensures AtMostTwice(MergeCounts(freq, c1, c2), c1, freq[c2])
  {
  }

  lemma OthersMerged(freq: Counts, cs: seq<nat>, owner: seq<int>, c1: nat, c2: nat, t: nat)
    requires Owned(freq, owner) && PseudoDeep(freq, cs, owner) && AtMostTwice(freq, owner[256], t) && Chosen(freq, c1, c2)
    requires owner[256] != c1 && owner[256] != c2
    ensures PseudoDeep(MergeCounts(freq, c1, c2), MergeLengths(cs, owner, c1, c2), MergeOwners(owner, c1, c2))
    ensures AtMostTwice(MergeCounts(freq, c1, c2), owner[256], t)
  {
    var p, freq1 := owner[256], MergeCounts(freq, c1, c2);
    assert freq1[c1] >= 2 * t >= freq1[p] && (freq1[c1] == freq1[p] ==> c1 < p);
  }

  lemma PseudoEnds(f0: Counts, freq: Counts, cs: seq<nat>, owner: seq<int>, merges: nat, x: nat)
    requires Merging(f0, freq, cs, owner, merges) && PseudoDeep(freq, cs, owner) && x < SYMBOLS
    ensures cs[x] <= cs[256]
  {
    hide Deep, Priced, Overlooked, Bag, GroupKraft, GroupWeight;
  }

  // ----- the loop -----

  /** The symbol other than skip with the smallest nonzero count, the larger one if there are several; -1 if there is none. */
  method FindSmallest(freq: array<nat>, skip: int) returns (c: int)
    requires freq.Length == SYMBOLS
    ensures Found(freq[..], skip, c)
  {
    c := -1;
    var v := LIMIT;
    for i := 0 to SYMBOLS
      invariant -1 <= c < i && (if c >= 0 then freq[c] == v else v == LIMIT) && Found(freq[..i], skip, c)
    {
      if freq[i] != 0 && freq[i] <= v && i != skip {
        v := freq[i];
        c := i;
      }
    }
  }

  lemma ChainEnd(others: seq<int>, ch: seq<nat>, k: nat)
    requires Linked(others, ch) && k < |ch|
    ensures others[ch[k]] >= 0 <==> k < |ch| - 1
  {
    if k < |ch| - 1 {
      assert others[ch[k]] == ch[k + 1];
    }
  }

  /** Lengthens the codes of a whole chain by one, and finds its end. */
  method Deepen(codesize: array<nat>, others: array<int>, c: nat, ghost ch: seq<nat>) returns (last: nat)
    requires codesize.Length == others.Length == SYMBOLS
    requires Linked(others[..], ch) && ch[0] == c
    modifies codesize
    ensures last == ch[|ch| - 1] < SYMBOLS
    ensures forall x: nat :: x < SYMBOLS ==> codesize[x] == old(codesize[x]) + if x in ch then 1 else 0
  {
    last := c;
    ghost var k := 0;
    codesize[last] := codesize[last] + 1;
    while others[last] >= 0
      invariant 0 <= k < |ch| && last == ch[k]
      invariant forall x: nat :: x < SYMBOLS ==> codesize[x] == old(codesize[x]) + if x in ch[..k + 1] then 1 else 0
      decreases |ch| - k
    {
      assert k < |ch| - 1;
      assert ch[..k + 2] == ch[..k + 1] + [ch[k + 1]];
      last := others[last];
      codesize[last] := codesize[last] + 1;
      k := k + 1;
    }
    ChainEnd(others[..], ch, k);
    assert ch[..k + 1] == ch;
  }

  /** Deepening the chains of both groups is what the merge does to the lengths. */
  lemma DeepenedBoth(freq: Counts, owner: seq<int>, others: seq<int>, chains: seq<seq<nat>>, cs: seq<nat>, cs2: seq<nat>, c1: nat, c2: nat)
    requires Chained(freq, owner, others, chains) && Smallest(freq, c1, c2) && |cs| == |cs2| == SYMBOLS
    requires forall x: nat :: x < SYMBOLS ==> cs2[x] == cs[x] + (if x in chains[c1] then 1 else 0) + if x in chains[c2] then 1 else 0
    ensures cs2 == MergeLengths(cs, owner, c1, c2)
  {
    hide Linked;
    var m := MergeLengths(cs, owner, c1, c2);
    forall x: nat | x < SYMBOLS
      ensures cs2[x] == m[x]
    {
    }
  }

  /** The chain of c2 is still there when the end of c1's has been linked to it. */
  lemma SecondChain(freq: Counts, owner: seq<int>, others: seq<int>, chains: seq<seq<nat>>, c1: nat, c2: nat, last: nat)
    requires Chained(freq, owner, others, chains) && Smallest(freq, c1, c2)
    requires |chains[c1]| > 0 && last == chains[c1][|chains[c1]| - 1] < SYMBOLS
    ensures Linked(others[last := c2], chains[c2]) && chains[c2][0] == c2
  {
    hide Linked;
    assert last in chains[c1];
    assert owner[last] == c1;
    LinkedAside(others, chains[c2], last, c2);
  }

  /** Adding one count to another in place. */
  lemma MergedInPlace(freq: Counts, freq1: Counts, c1: nat, c2: nat)
    requires Smallest(freq, c1, c2) && freq1 == freq[c1 := freq[c1] + freq[c2]][c2 := 0]
    ensures freq1 == MergeCounts(freq, c1, c2)
  {
  }

  lemma FirstLinked(freq: Counts, owner: seq<int>, others: seq<int>, chains: seq<seq<nat>>, c1: nat, c2: nat)
    requires Chained(freq, owner, others, chains) && Smallest(freq, c1, c2)
    ensures |chains| == SYMBOLS && c1 < SYMBOLS && c2 < SYMBOLS && Linked(others, chains[c1]) && |chains[c1]| > 0 && chains[c1][0] == c1
  {
  }

  lemma Size()
    ensures SYMBOLS == 257
  {
  }

  /** Two counts become one, the codes of both chains one bit longer, and both chains one. */
  method MergeTwo(freq: array<nat>, codesize: array<nat>, others: array<int>, c1: nat, c2: nat,
                  ghost owner: seq<int>, ghost chains: seq<seq<nat>>)
    requires freq.Length == codesize.Length == others.Length == SYMBOLS && freq != codesize
    requires Chained(freq[..], owner, others[..], chains) && Smallest(freq[..], c1, c2)
    modifies freq, codesize, others
    ensures |owner| == |chains| == SYMBOLS && c1 < SYMBOLS && c2 < SYMBOLS && c1 != c2
    ensures freq[..] == MergeCounts(old(freq[..]), c1, c2) && codesize[..] == MergeLengths(old(codesize[..]), owner, c1, c2)
    ensures Chained(freq[..], MergeOwners(owner, c1, c2), others[..], chains[c1 := chains[c1] + chains[c2]])
  {
    hide *;
    ghost var freq0, cs0, others0 := freq[..], codesize[..], others[..];
    ChainedSizes(freq0, owner, others0, chains, c1, c2);
    FirstLinked(freq0, owner, others0, chains, c1, c2);
    freq[c1] := freq[c1] + freq[c2];
    freq[c2] := 0;
    MergedInPlace(freq0, freq[..], c1, c2);
    var last := Deepen(codesize, others, c1, chains[c1]);
    SecondChain(freq0, owner, others0, chains, c1, c2, last);
    others[last] := c2;
    var _ := Deepen(codesize, others, c2, chains[c2]);
    DeepenedBoth(freq0, owner, others0, chains, cs0, codesize[..], c1, c2);
    ChainsMerge(freq0, owner, others0, chains, c1, c2, last);
  }

  lemma ChainedSizes(freq: Counts, owner: seq<int>, others: seq<int>, chains: seq<seq<nat>>, c1: nat, c2: nat)
    requires Chained(freq, owner, others, chains) && Smallest(freq, c1, c2)
    ensures |freq| == |owner| == |others| == |chains| == SYMBOLS == 257 && c1 < SYMBOLS && c2 < SYMBOLS && c1 != c2
  {
  }

  lemma MergingOwned(f0: Counts, freq: Counts, cs: seq<nat>, owner: seq<int>, merges: nat)
    requires Merging(f0, freq, cs, owner, merges)
    ensures Owned(freq, owner)
  {
    hide Grouped, FullTrees, Deep, Priced, Bag, Overlooked;
    GroupedOwned(f0, freq, owner);
  }

  lemma NotBoth(f0: Counts, cs: seq<nat>)
    ensures CodeSizes(f0, cs) ==> UsedKraft(f0, cs, SYMBOLS, SCALE) == Pow2(SCALE) > 0
  {
    hide Dot, UsedKraft, Bag, Total, Fib;
  }

  lemma ChosenIs(freq: Counts, c1: int, c2: int)
    requires |freq| == SYMBOLS && Found(freq, -1, c1) && Found(freq, c1, c2) && c2 >= 0
    ensures 0 <= c1 < SYMBOLS && c2 < SYMBOLS && Chosen(freq, c1, c2)
  {
  }

  /** Huffman's algorithm: the two smallest counts are merged until one is left; the pseudo-symbol gets one of the longest codes.
      If the second smallest is overlooked before
      that, the lengths of all symbols together take more than the code space. */
  method GenCodeSizes(freq: array<nat>) returns (codesize: array<nat>)
    requires freq.Length == SYMBOLS
    modifies freq
    ensures fresh(codesize) && codesize.Length == SYMBOLS
    ensures CodeSizes(old(freq[..])[256 := 1], codesize[..]) <==> Mergeable(Bag(old(freq[..])[256 := 1], SYMBOLS))
    ensures !Mergeable(Bag(old(freq[..])[256 := 1], SYMBOLS)) ==>
      UsedKraft(old(freq[..])[256 := 1], codesize[..], SYMBOLS, SCALE) >= 2 * Pow2(SCALE)
    ensures forall x :: 0 <= x < 256 && old(freq[x]) > LIMIT ==> codesize[x] == 0
    ensures forall x :: 0 <= x < SYMBOLS ==> codesize[x] <= codesize[256]
  {
    hide *;
    assert SYMBOLS == 257 by { Size(); }
    codesize := new nat[SYMBOLS](_ => 0);
    var others := new int[SYMBOLS](_ => -1);
    freq[256] := 1;
    ghost var f0, owner, merges := freq[..], Singles(freq[..]), 0;
    ghost var chains: seq<seq<nat>> := seq(SYMBOLS, x requires 0 <= x < SYMBOLS => [x]);
    ghost var t := 1;
    assert f0 == old(freq[..])[256 := 1];
    MergingStarts(f0);
    PseudoStarts(f0);
    assert codesize[..] == seq(SYMBOLS, _ => 0) && others[..] == seq(SYMBOLS, _ => -1);
    var c1 := FindSmallest(freq, -1);
    var c2 := FindSmallest(freq, c1);
    while c2 >= 0
      invariant Merging(f0, freq[..], codesize[..], owner, merges) && Chained(freq[..], owner, others[..], chains)
      invariant Found(freq[..], -1, c1) && Found(freq[..], c1, c2)
      invariant Mergeable(Bag(f0, SYMBOLS)) <==> Mergeable(Bag(freq[..], SYMBOLS))
      invariant PseudoDeep(freq[..], codesize[..], owner) && |owner| == 257 && owner[256] >= 0 && AtMostTwice(freq[..], owner[256], t)
      decreases |Bag(freq[..], SYMBOLS)|
    {
      ghost var freq0, cs0 := freq[..], codesize[..];
      BothFound(freq0, c1, c2);
      ChosenIs(freq0, c1, c2);
      MergingOwned(f0, freq0, cs0, owner, merges);
      MergeTwo(freq, codesize, others, c1, c2, owner, chains);
      MergingStep(f0, freq0, cs0, owner, merges, c1, c2);
      MergeableStep(freq0, c1, c2);
      t := PseudoStep(freq0, cs0, owner, c1, c2, t);
      owner, chains, merges := MergeOwners(owner, c1, c2), chains[c1 := chains[c1] + chains[c2]], merges + 1;
      c1 := FindSmallest(freq, -1);
      c2 := FindSmallest(freq, c1);
    }
    MergingEnds(f0, freq[..], codesize[..], owner, merges, c1);
    NotBoth(f0, codesize[..]);
    forall x | 0 <= x < SYMBOLS
      ensures codesize[..][x] <= codesize[..][256]
    {
      PseudoEnds(f0, freq[..], codesize[..], owner, merges, x);
    }
  }
}
