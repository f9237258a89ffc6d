/** The groups of symbols that jpeg_gen_optimal_table merges (jchuff.c, section K.2 of ITU-T T.81): what every merge of the
    two smallest counts keeps. */
module HuffmanForest {
  import opened BitSeq
  import opened HuffmanOptimality

  /** 256 symbols and the pseudo-symbol that reserves the code of all ones. */
  const SYMBOLS: nat := 257

  /** Code lengths are compared at this scale; none of at most 256 merges makes a length exceed it. */
  const SCALE: nat := 256

  type Counts = seq<nat>

  // ----- sums over the symbols below n -----

  function Total(f: Counts, n: nat): nat
    requires n <= |f|
  {
    if n == 0 then 0 else Total(f, n - 1) + f[n - 1]
  }

  /** Total weighted length. */
  function Dot(f: Counts, cs: seq<nat>, n: nat): nat
    requires n <= |f| && n <= |cs|
  {
    if n == 0 then 0 else Dot(f, cs, n - 1) + f[n - 1] * cs[n - 1]
  }

  /** The counts that are not zero. */
  function Bag(f: Counts, n: nat): (m: multiset<nat>)
    requires n <= |f|
    ensures |m| <= n
  {
    if n == 0 then multiset{} else Bag(f, n - 1) + if f[n - 1] > 0 then multiset{f[n - 1]} else multiset{}
  }

  /** The original counts of the symbols in group r. */
  function GroupWeight(f: Counts, owner: seq<int>, r: int, n: nat): nat
    requires n <= |f| && n <= |owner|
  {
    if n == 0 then 0 else GroupWeight(f, owner, r, n - 1) + if owner[n - 1] == r then f[n - 1] else 0
  }

  /** The scaled Kraft sum of group r. */
  function GroupKraft(cs: seq<nat>, owner: seq<int>, r: int, n: nat, scale: nat): nat
    requires n <= |cs| && n <= |owner|
  {
    if n == 0 then 0
    else GroupKraft(cs, owner, r, n - 1, scale)
         + if owner[n - 1] == r && cs[n - 1] <= scale then Pow2(scale - cs[n - 1]) else 0
  }

  function Fib(n: nat): (f: nat)
    ensures n > 0 ==> f > 0
  {
    if n < 2 then n else Fib(n - 1) + Fib(n - 2)
  }

  lemma {:induction false} FibMono(m: nat, n: nat)
    requires m <= n
    ensures Fib(m) <= Fib(n)
    decreases n - m
  {
    if m < n {
      FibMono(m, n - 1);
      assert n >= 2 ==> Fib(n) == Fib(n - 1) + Fib(n - 2);
    }
  }

  // ----- the forest -----

  /** Every symbol that occurs is in the group of its owner; the owner's count is that of the whole group. */
  ghost predicate Grouped(f0: Counts, freq: Counts, owner: seq<int>) {
    && |f0| == |freq| == |owner| == SYMBOLS
    && (forall x :: 0 <= x < SYMBOLS ==>
          if f0[x] == 0 then owner[x] == -1 && freq[x] == 0 else 0 <= owner[x] < SYMBOLS && freq[owner[x]] > 0)
    && forall r :: 0 <= r < SYMBOLS && freq[r] > 0 ==> owner[r] == r && freq[r] == GroupWeight(f0, owner, r, SYMBOLS)
  }

  /** The lengths within each group are those of a full binary tree, and none is above the number of merges. */
  ghost predicate FullTrees(f0: Counts, freq: Counts, cs: seq<nat>, owner: seq<int>, merges: nat) {
    && |f0| == |freq| == |owner| == |cs| == SYMBOLS && merges <= SCALE
    && (forall x :: 0 <= x < SYMBOLS ==> cs[x] <= merges && (f0[x] == 0 ==> cs[x] == 0))
    && forall r :: 0 <= r < SYMBOLS && freq[r] > 0 ==> GroupKraft(cs, owner, r, SYMBOLS, SCALE) == Pow2(SCALE)
  }

  /** A group with a code of length d weighs at least Fib(d + 2), and every other group at least Fib(d + 1). */
  ghost predicate Deep(freq: Counts, cs: seq<nat>, owner: seq<int>) {
    && |freq| == |owner| == |cs| == SYMBOLS
    && (forall x :: 0 <= x < SYMBOLS ==> OwnDeep(freq, cs[x], owner[x]))
    && forall x :: 0 <= x < SYMBOLS ==> OthersDeep(freq, cs[x], owner[x])
  }

  ghost predicate OwnDeep(freq: Counts, d: nat, owner: int) {
    0 <= owner < |freq| ==> freq[owner] >= Fib(d + 2)
  }

  ghost predicate OthersDeep(freq: Counts, d: nat, owner: int) {
    0 <= owner < |freq| ==> forall g :: 0 <= g < |freq| && freq[g] > 0 && g != owner ==> freq[g] >= Fib(d + 1)
  }

  /** What the lengths cost so far, and what merging the rest will cost, is what merging costs from the beginning. */
  ghost predicate Priced(f0: Counts, freq: Counts, cs: seq<nat>) {
    && |f0| == |freq| == |cs| == SYMBOLS
    && Dot(f0, cs, SYMBOLS) + HuffCost(Bag(freq, SYMBOLS)) == HuffCost(Bag(f0, SYMBOLS))
  }

  /** c1 and c2 are the two smallest counts. */
  ghost predicate Smallest(freq: Counts, c1: nat, c2: nat) {
    && c1 < |freq| && c2 < |freq| && c1 != c2 && 0 < freq[c1] && 0 < freq[c2]
    && forall i :: 0 <= i < |freq| && freq[i] > 0 ==> freq[c1] <= freq[i] && (i != c1 ==> freq[c2] <= freq[i])
  }

  // ----- merging -----

  function MergeCounts(freq: Counts, c1: nat, c2: nat): (r: Counts)
    requires c1 < |freq| && c2 < |freq| && c1 != c2
    ensures |r| == |freq|
  {
    freq[c1 := freq[c1] + freq[c2]][c2 := 0]
  }

  function MergeOwners(owner: seq<int>, c1: int, c2: int): (r: seq<int>)
    ensures |r| == |owner| && forall x :: 0 <= x < |r| ==> r[x] == if owner[x] == c2 then c1 else owner[x]
  {
    seq(|owner|, x requires 0 <= x < |owner| => if owner[x] == c2 then c1 else owner[x])
  }

  function MergeLengths(cs: seq<nat>, owner: seq<int>, c1: int, c2: int): (r: seq<nat>)
    requires |cs| == |owner|
    ensures |r| == |cs| && forall x :: 0 <= x < |r| ==> r[x] == cs[x] + if owner[x] == c1 || owner[x] == c2 then 1 else 0
  {
    seq(|cs|, x requires 0 <= x < |cs| => cs[x] + if owner[x] == c1 || owner[x] == c2 then 1 else 0)
  }

  lemma {:induction false} WeightMerges(f0: Counts, owner: seq<int>, c1: int, c2: int, r: int, n: nat)
    requires n <= |f0| && n <= |owner| && c1 != c2
    ensures r == c1 ==>
      GroupWeight(f0, MergeOwners(owner, c1, c2), r, n) == GroupWeight(f0, owner, c1, n) + GroupWeight(f0, owner, c2, n)
    ensures r != c1 && r != c2 ==> GroupWeight(f0, MergeOwners(owner, c1, c2), r, n) == GroupWeight(f0, owner, r, n)
    decreases n
  {
    if n > 0 {
      WeightMerges(f0, owner, c1, c2, r, n - 1);
    }
  }

  lemma {:induction false} KraftMerges(cs: seq<nat>, owner: seq<int>, c1: int, c2: int, r: int, n: nat, scale: nat)
    requires n <= |cs| == |owner| && c1 != c2 && forall x :: 0 <= x < |cs| ==> cs[x] < scale
    ensures r == c1 ==> 2 * GroupKraft(MergeLengths(cs, owner, c1, c2), MergeOwners(owner, c1, c2), r, n, scale)
                        == GroupKraft(cs, owner, c1, n, scale) + GroupKraft(cs, owner, c2, n, scale)
    ensures r != c1 && r != c2 ==>
      GroupKraft(MergeLengths(cs, owner, c1, c2), MergeOwners(owner, c1, c2), r, n, scale) == GroupKraft(cs, owner, r, n, scale)
    decreases n
  {
    if n > 0 {
      KraftMerges(cs, owner, c1, c2, r, n - 1, scale);
      NextPow(scale - cs[n - 1] - 1);
    }
  }

  lemma OneLonger(f: nat, c: nat)
    ensures f * (c + 1) == f * c + f
  {
  }

  lemma {:induction false} DotMerges(f0: Counts, cs: seq<nat>, owner: seq<int>, c1: int, c2: int, n: nat)
    requires n <= |f0| && n <= |cs| == |owner| && c1 != c2
    ensures Dot(f0, MergeLengths(cs, owner, c1, c2), n)
         == Dot(f0, cs, n) + GroupWeight(f0, owner, c1, n) + GroupWeight(f0, owner, c2, n)
    decreases n
  {
    if n > 0 {
      DotMerges(f0, cs, owner, c1, c2, n - 1);
      OneLonger(f0[n - 1], cs[n - 1]);
    }
  }

  /** What a count contributes to the bag. */
  function One(w: nat): multiset<nat> {
    if w > 0 then multiset{w} else multiset{}
  }

  lemma {:induction false} BagChange(f: Counts, i: nat, v: nat, n: nat)
    requires i < n <= |f|
    ensures Bag(f[i := v], n) + One(f[i]) == Bag(f, n) + One(v)
    decreases n
  {
    hide *;
    BagStep(f, n);
    BagStep(f[i := v], n);
    if i < n - 1 {
      BagChange(f, i, v, n - 1);
      AddBoth(Bag(f[i := v], n - 1), One(f[i]), Bag(f, n - 1), One(v), One(f[n - 1]));
    } else {
      BagSame(f, f[i := v], n - 1);
      Rotate(Bag(f, n - 1), One(v), One(f[i]));
    }
  }

  lemma BagStep(f: Counts, n: nat)
    requires 0 < n <= |f|
    ensures Bag(f, n) == Bag(f, n - 1) + One(f[n - 1])
  {
  }

  lemma AddBoth(a: multiset<nat>, x: multiset<nat>, b: multiset<nat>, y: multiset<nat>, c: multiset<nat>)
    requires a + x == b + y
    ensures a + c + x == b + c + y
  {
    Rotate(a, c, x);
    Rotate(b, c, y);
  }

  lemma Rotate(a: multiset<nat>, b: multiset<nat>, c: multiset<nat>)
    ensures a + b + c == a + c + b
  {
  }

  lemma {:induction false} BagSame(f: Counts, g: Counts, n: nat)
    requires n <= |f| && n <= |g| && forall x :: 0 <= x < n ==> f[x] == g[x]
    ensures Bag(f, n) == Bag(g, n)
    decreases n
  {
    if n > 0 {
      BagSame(f, g, n - 1);
    }
  }

  lemma {:induction false} InBag(f: Counts, n: nat, x: nat)
    requires x < n <= |f| && f[x] > 0
    ensures f[x] in Bag(f, n)
    decreases n
  {
    if x < n - 1 {
      InBag(f, n - 1, x);
    }
  }

  lemma {:induction false} FromBag(f: Counts, n: nat, w: nat) returns (x: nat)
    requires n <= |f| && w in Bag(f, n)
    ensures x < n && f[x] == w > 0
    decreases n
  {
    if f[n - 1] == w && w > 0 {
      x := n - 1;
    } else {
      x := FromBag(f, n - 1, w);
    }
  }

  lemma OneIs(w: nat)
    ensures w > 0 ==> One(w) == multiset{w}
    ensures w == 0 ==> forall m: multiset<nat> :: m + One(w) == m
  {
  }

  /** The two smallest counts in the bag. */
  lemma AtLeastTwo(freq: Counts, c1: nat, c2: nat)
    requires Smallest(freq, c1, c2)
    ensures |Bag(freq, |freq|)| > 1 && freq[c1] == Min(Bag(freq, |freq|))
    ensures |Bag(freq, |freq|) - multiset{freq[c1]}| > 0 && freq[c2] == Min(Bag(freq, |freq|) - multiset{freq[c1]})
  {
    hide Bag, One;
    var n, bag, a, b := |freq|, Bag(freq, |freq|), freq[c1], freq[c2];
    InBag(freq, n, c1);
    var least := FromBag(freq, n, Min(bag));
    var f1 := freq[c1 := 0];
    BagChange(freq, c1, 0, n);
    OneIs(a);
    OneIs(0);
    Uncancel(bag, Bag(f1, n), a);
    InBag(f1, n, c2);
    var next := FromBag(f1, n, Min(Bag(f1, n)));
  }

  /** The bag after the merge. */
  lemma BagMerges(freq: Counts, c1: nat, c2: nat)
    requires Smallest(freq, c1, c2)
    ensures Bag(MergeCounts(freq, c1, c2), |freq|)
         == Bag(freq, |freq|) - multiset{freq[c1]} - multiset{freq[c2]} + multiset{freq[c1] + freq[c2]}
  {
    hide *;
    AtLeastTwo(freq, c1, c2);
    MergedTwice(freq, c1, c2);
    BagChange(freq, c1, freq[c1] + freq[c2], |freq|);
    BagChange(freq[c1 := freq[c1] + freq[c2]], c2, 0, |freq|);
    Replaced(Bag(freq, |freq|), Bag(freq[c1 := freq[c1] + freq[c2]], |freq|), Bag(MergeCounts(freq, c1, c2), |freq|), freq[c1], freq[c2]);
  }

  lemma MergedTwice(freq: Counts, c1: nat, c2: nat)
    requires Smallest(freq, c1, c2)
    ensures c1 < |freq| && c2 < |freq| && c1 != c2 && freq[c1] > 0 && freq[c2] > 0
    ensures MergeCounts(freq, c1, c2) == freq[c1 := freq[c1] + freq[c2]][c2 := 0] && freq[c1 := freq[c1] + freq[c2]][c2] == freq[c2]
  {
  }

  lemma Replaced(m: multiset<nat>, m1: multiset<nat>, r: multiset<nat>, a: nat, b: nat)
    requires m1 + One(a) == m + One(a + b) && r + One(b) == m1 + One(0)
    requires a > 0 && b > 0 && a in m && b in m - multiset{a}
    ensures r == m - multiset{a} - multiset{b} + multiset{a + b}
  {
    hide One;
    OneIs(a);
    OneIs(b);
    OneIs(a + b);
    OneIs(0);
    Rotate(r, multiset{b}, multiset{a});
    TwoOut(m, r, a, b);
  }

  /** Merging keeps the price. */
  lemma PriceMerges(f0: Counts, freq: Counts, cs: seq<nat>, owner: seq<int>, c1: nat, c2: nat)
    requires Grouped(f0, freq, owner) && Priced(f0, freq, cs) && Smallest(freq, c1, c2)
    ensures Priced(f0, MergeCounts(freq, c1, c2), MergeLengths(cs, owner, c1, c2))
  {
    hide Bag, HuffCost, Dot, GroupWeight;
    AtLeastTwo(freq, c1, c2);
    BagMerges(freq, c1, c2);
    DotMerges(f0, cs, owner, c1, c2, SYMBOLS);
    CostOfMerging(Bag(freq, SYMBOLS), freq[c1], freq[c2], Bag(MergeCounts(freq, c1, c2), SYMBOLS));
  }

  lemma GroupsMerge(f0: Counts, freq: Counts, owner: seq<int>, c1: nat, c2: nat)
    requires Grouped(f0, freq, owner) && Smallest(freq, c1, c2)
    ensures Grouped(f0, MergeCounts(freq, c1, c2), MergeOwners(owner, c1, c2))
  {
    hide GroupWeight;
    var freq1, owner1 := MergeCounts(freq, c1, c2), MergeOwners(owner, c1, c2);
    forall r | 0 <= r < SYMBOLS && freq1[r] > 0
      ensures owner1[r] == r && freq1[r] == GroupWeight(f0, owner1, r, SYMBOLS)
    {
      WeightMerges(f0, owner, c1, c2, r, SYMBOLS);
    }
  }

  lemma TreesMerge(f0: Counts, freq: Counts, cs: seq<nat>, owner: seq<int>, c1: nat, c2: nat, merges: nat)
    requires Grouped(f0, freq, owner) && FullTrees(f0, freq, cs, owner, merges) && Smallest(freq, c1, c2) && merges < SCALE
    ensures FullTrees(f0, MergeCounts(freq, c1, c2), MergeLengths(cs, owner, c1, c2), MergeOwners(owner, c1, c2), merges + 1)
  {
    hide GroupWeight, GroupKraft, Pow2;
    var freq1, cs1, owner1 := MergeCounts(freq, c1, c2), MergeLengths(cs, owner, c1, c2), MergeOwners(owner, c1, c2);
    forall r | 0 <= r < SYMBOLS && freq1[r] > 0
      ensures GroupKraft(cs1, owner1, r, SYMBOLS, SCALE) == Pow2(SCALE)
    {
      KraftMerges(cs, owner, c1, c2, r, SYMBOLS, SCALE);
    }
  }

  lemma FibStep(d: nat)
    ensures Fib(d + 3) == Fib(d + 2) + Fib(d + 1)
  {
  }

  /** One code length after a merge, and the weights behind it. */
  lemma OneDepth(freq: Counts, d: nat, owner: int, c1: nat, c2: nat)
    requires |freq| == SYMBOLS && 0 <= owner < SYMBOLS && Smallest(freq, c1, c2) && freq[owner] > 0
    requires OwnDeep(freq, d, owner) && OthersDeep(freq, d, owner)
    ensures var o := if owner == c2 then c1 else owner; var e := d + if owner == c1 || owner == c2 then 1 else 0;
      OwnDeep(MergeCounts(freq, c1, c2), e, o) && OthersDeep(MergeCounts(freq, c1, c2), e, o)
  {
    hide Fib;
    FibStep(d);
    var freq1 := MergeCounts(freq, c1, c2);
    var e := d + if owner == c1 || owner == c2 then 1 else 0;
    forall g | 0 <= g < SYMBOLS && freq1[g] > 0 && g != if owner == c2 then c1 else owner
      ensures freq1[g] >= Fib(e + 1)
    {
      assert freq[g] > 0 && freq1[g] >= freq[g];
      assert freq[g] >= freq[c2] >= freq[c1] || g == c1;
    }
  }

  /** Merging the two smallest groups keeps the weights behind the code lengths. */
  lemma DepthMerges(f0: Counts, freq: Counts, cs: seq<nat>, owner: seq<int>, c1: nat, c2: nat)
    requires Grouped(f0, freq, owner) && Deep(freq, cs, owner) && Smallest(freq, c1, c2)
    ensures Deep(MergeCounts(freq, c1, c2), MergeLengths(cs, owner, c1, c2), MergeOwners(owner, c1, c2))
  {
    hide GroupWeight, OwnDeep, OthersDeep;
    var freq1, cs1, owner1 := MergeCounts(freq, c1, c2), MergeLengths(cs, owner, c1, c2), MergeOwners(owner, c1, c2);
    forall x | 0 <= x < SYMBOLS
      ensures OwnDeep(freq1, cs1[x], owner1[x]) && OthersDeep(freq1, cs1[x], owner1[x])
    {
      if 0 <= owner[x] < SYMBOLS {
        OneDepth(freq, cs[x], owner[x], c1, c2);
      } else {
        NotOwned(freq1, cs1[x], owner1[x]);
      }
    }
  }

  lemma NotOwned(freq: Counts, d: nat, owner: int)
    requires !(0 <= owner < |freq|)
    ensures OwnDeep(freq, d, owner) && OthersDeep(freq, d, owner)
  {
  }

  // ----- the beginning and the end -----

  /** At the beginning every symbol that occurs is a group by itself. */
  function Singles(f0: Counts): (owner: seq<int>)
    ensures |owner| == |f0| && forall x :: 0 <= x < |f0| ==> owner[x] == if f0[x] > 0 then x else -1
  {
    seq(|f0|, x requires 0 <= x < |f0| => if f0[x] > 0 then x else -1)
  }

  lemma {:induction false} SingleSums(f0: Counts, r: int, n: nat)
    requires n <= |f0| && 0 <= r < |f0| && f0[r] > 0
    ensures GroupWeight(f0, Singles(f0), r, n) == if r < n then f0[r] else 0
    ensures GroupKraft(seq(|f0|, _ => 0), Singles(f0), r, n, SCALE) == if r < n then Pow2(SCALE) else 0
    ensures Dot(f0, seq(|f0|, _ => 0), n) == 0
    decreases n
  {
    hide Pow2;
    if n > 0 {
      SingleSums(f0, r, n - 1);
    }
  }

  lemma Beginning(f0: Counts)
    requires |f0| == SYMBOLS && f0[SYMBOLS - 1] > 0
    ensures Grouped(f0, f0, Singles(f0))
    ensures FullTrees(f0, f0, seq(SYMBOLS, _ => 0), Singles(f0), 0)
    ensures Deep(f0, seq(SYMBOLS, _ => 0), Singles(f0))
    ensures Priced(f0, f0, seq(SYMBOLS, _ => 0))
  {
    hide Pow2, GroupWeight, GroupKraft, Bag, HuffCost, Dot;
    forall r | 0 <= r < SYMBOLS && f0[r] > 0
      ensures GroupWeight(f0, Singles(f0), r, SYMBOLS) == f0[r]
      ensures GroupKraft(seq(SYMBOLS, _ => 0), Singles(f0), r, SYMBOLS, SCALE) == Pow2(SCALE)
    {
      SingleSums(f0, r, SYMBOLS);
      assert seq(|f0|, _ => 0) == seq(SYMBOLS, _ => 0);
    }
    SingleSums(f0, SYMBOLS - 1, SYMBOLS);
    assert seq(|f0|, _ => 0) == seq(SYMBOLS, _ => 0);
    assert Fib(2) == 1 && Fib(1) == 1;
  }

  /** The scaled Kraft sum of the symbols that occur. */
  function UsedKraft(f0: Counts, cs: seq<nat>, n: nat, scale: nat): nat
    requires n <= |f0| && n <= |cs|
  {
    if n == 0 then 0
    else UsedKraft(f0, cs, n - 1, scale) + if f0[n - 1] > 0 && cs[n - 1] <= scale then Pow2(scale - cs[n - 1]) else 0
  }

  /** Two groups weigh no more than everything. */
  lemma {:induction false} TwoGroups(f0: Counts, owner: seq<int>, r: int, g: int, n: nat)
    requires n <= |f0| && n <= |owner| && r != g
    ensures GroupWeight(f0, owner, r, n) + GroupWeight(f0, owner, g, n) <= Total(f0, n)
    decreases n
  {
    if n > 0 {
      TwoGroups(f0, owner, r, g, n - 1);
    }
  }

  lemma {:induction false} WholeGroup(f0: Counts, cs: seq<nat>, owner: seq<int>, c: int, n: nat)
    requires n <= |f0| && n <= |owner| && n <= |cs| && forall x :: 0 <= x < n ==> (owner[x] == c <==> f0[x] > 0)
    ensures GroupWeight(f0, owner, c, n) == Total(f0, n)
    ensures GroupKraft(cs, owner, c, n, SCALE) == UsedKraft(f0, cs, n, SCALE)
    decreases n
  {
    if n > 0 {
      WholeGroup(f0, cs, owner, c, n - 1);
    }
  }

  lemma {:induction false} BagOfOne(f: Counts, c: nat, n: nat)
    requires n <= |f| && forall x :: 0 <= x < n && x != c ==> f[x] == 0
    ensures |Bag(f, n)| <= if c < n then 1 else 0
    decreases n
  {
    if n > 0 {
      BagOfOne(f, c, n - 1);
    }
  }

  /** What the merge loop has achieved once one group is left. */
  ghost predicate CodeSizes(f0: Counts, cs: seq<nat>) {
    && |f0| == |cs| == SYMBOLS
    && (forall x :: 0 <= x < SYMBOLS ==> cs[x] <= SCALE && (f0[x] == 0 ==> cs[x] == 0))
    && Dot(f0, cs, SYMBOLS) == HuffCost(Bag(f0, SYMBOLS))
    && UsedKraft(f0, cs, SYMBOLS, SCALE) == Pow2(SCALE)
    && forall x :: 0 <= x < SYMBOLS && f0[x] > 0 ==> Total(f0, SYMBOLS) >= Fib(cs[x] + 2)
  }

  lemma AllOneGroup(f0: Counts, freq: Counts, owner: seq<int>, c: nat, x: nat)
    requires Grouped(f0, freq, owner) && x < SYMBOLS
    requires c < SYMBOLS && freq[c] > 0 && forall y :: 0 <= y < SYMBOLS && y != c ==> freq[y] == 0
    ensures owner[x] == c <==> f0[x] > 0
  {
    hide GroupWeight;
  }

  lemma OneGroupLeft(f0: Counts, freq: Counts, cs: seq<nat>, owner: seq<int>, merges: nat, c: nat)
    requires Grouped(f0, freq, owner) && FullTrees(f0, freq, cs, owner, merges) && Deep(freq, cs, owner) && Priced(f0, freq, cs)
    requires c < SYMBOLS && freq[c] > 0 && forall x :: 0 <= x < SYMBOLS && x != c ==> freq[x] == 0
    ensures CodeSizes(f0, cs)
  {
    hide GroupWeight, GroupKraft, UsedKraft, Total, Dot, Bag, Pow2, OthersDeep;
    forall x | 0 <= x < SYMBOLS
      ensures owner[x] == c <==> f0[x] > 0
    {
      AllOneGroup(f0, freq, owner, c, x);
    }
    WholeGroup(f0, cs, owner, c, SYMBOLS);
    BagOfOne(freq, c, SYMBOLS);
    assert HuffCost(Bag(freq, SYMBOLS)) == 0;
    forall x | 0 <= x < SYMBOLS && f0[x] > 0
      ensures Total(f0, SYMBOLS) >= Fib(cs[x] + 2)
    {
      assert OwnDeep(freq, cs[x], owner[x]);
    }
  }

  // ----- optimality -----

  /** The symbols that occur, as leaves with the lengths ls. */
  function Leaves(f0: Counts, ls: seq<nat>, n: nat): seq<Leaf>
    requires n <= |f0| && n <= |ls|
  {
    if n == 0 then [] else if f0[n - 1] > 0 then [Leaf(f0[n - 1], ls[n - 1])] + Leaves(f0, ls, n - 1) else Leaves(f0, ls, n - 1)
  }

  lemma {:induction false} LeavesAre(f0: Counts, ls: seq<nat>, n: nat, scale: nat)
    requires n <= |f0| && n <= |ls| && forall x :: 0 <= x < n ==> ls[x] <= scale
    ensures Bounded(Leaves(f0, ls, n), scale) && Weights(Leaves(f0, ls, n)) == Bag(f0, n)
    ensures Cost(Leaves(f0, ls, n)) == Dot(f0, ls, n) && Kraft(Leaves(f0, ls, n), scale) == UsedKraft(f0, ls, n, scale)
    ensures |Leaves(f0, ls, n)| == 0 ==> forall x :: 0 <= x < n ==> f0[x] == 0
    decreases n
  {
    hide Pow2, Weights, Bag, Cost, Kraft, Bounded, One;
    if n == 0 {
      NoLeaves(scale);
      EmptyBag(f0);
    } else {
      LeavesAre(f0, ls, n - 1, scale);
      BagStep(f0, n);
      if f0[n - 1] > 0 {
        OneLeafMore(Leaf(f0[n - 1], ls[n - 1]), Leaves(f0, ls, n - 1), scale);
        OneIs(f0[n - 1]);
        Swap(One(f0[n - 1]), Bag(f0, n - 1));
      } else {
        OneIs(0);
        assert f0[n - 1] * ls[n - 1] == 0;
      }
    }
  }

  lemma Swap(a: multiset<nat>, b: multiset<nat>)
    ensures a + b == b + a
  {
  }

  lemma NoLeaves(scale: nat)
    ensures Bounded([], scale) && Weights([]) == multiset{} && Cost([]) == 0 && Kraft([], scale) == 0
  {
  }

  lemma EmptyBag(f: Counts)
    ensures Bag(f, 0) == multiset{}
  {
  }

  lemma OneLeafMore(l: Leaf, rest: seq<Leaf>, scale: nat)
    requires l.length <= scale && Bounded(rest, scale)
    ensures Bounded([l] + rest, scale) && Weights([l] + rest) == multiset{l.weight} + Weights(rest)
    ensures Cost([l] + rest) == l.weight * l.length + Cost(rest)
    ensures Kraft([l] + rest, scale) == Pow2(scale - l.length) + Kraft(rest, scale)
  {
    hide Pow2;
    var s := [l] + rest;
    assert s[0] == l && s[1..] == rest;
  }

  /** The code lengths have the least total weighted length of all prefix codes for the symbols that occur. */
  lemma CodeSizesOptimal(f0: Counts, cs: seq<nat>, ls: seq<nat>, scale: nat)
    requires CodeSizes(f0, cs) && |ls| == SYMBOLS && f0[SYMBOLS - 1] > 0
    requires (forall x :: 0 <= x < SYMBOLS ==> ls[x] <= scale) && UsedKraft(f0, ls, SYMBOLS, scale) <= Pow2(scale)
    ensures Dot(f0, cs, SYMBOLS) <= Dot(f0, ls, SYMBOLS)
  {
    hide Dot, UsedKraft, Bag, HuffCost, Cost, Kraft, Weights, Leaves, Pow2;
    LeavesAre(f0, ls, SYMBOLS, scale);
    MergingIsOptimal(Leaves(f0, ls, SYMBOLS), scale);
  }

  /** If the counts total less than the 35th Fibonacci number, no code is longer than 32 bits. */
  lemma DepthBound(f0: Counts, cs: seq<nat>, x: nat)
    requires CodeSizes(f0, cs) && x < SYMBOLS && Total(f0, SYMBOLS) < 9227465
    ensures cs[x] <= 32
  {
    hide Fib, Total, Dot, UsedKraft, Bag, HuffCost;
    if cs[x] > 32 {
      FibMono(35, cs[x] + 2);
      Fib35();
      assert false;
    }
  }

  lemma FibNext(n: nat)
    ensures Fib(n + 2) == Fib(n + 1) + Fib(n)
  {
  }

  /** Seven steps at once. */
  lemma FibSeven(n: nat)
    ensures Fib(n + 7) == 13 * Fib(n + 1) + 8 * Fib(n) && Fib(n + 8) == 21 * Fib(n + 1) + 13 * Fib(n)
  {
    hide Fib;
    FibNext(n);
    FibNext(n + 1);
    FibNext(n + 2);
    FibNext(n + 3);
    FibNext(n + 4);
    FibNext(n + 5);
    FibNext(n + 6);
  }

  lemma Fib35()
    ensures Fib(35) == 9227465
  {
    hide Fib;
    FibSmall();
    FibSeven(0);
    FibSeven(7);
    FibSeven(14);
    FibSeven(21);
    FibSeven(28);
  }

  lemma FibSmall()
    ensures Fib(0) == 0 && Fib(1) == 1
  {
  }
}
