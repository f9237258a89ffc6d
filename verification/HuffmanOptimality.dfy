/** Merging the two smallest weights again and again costs no more than any prefix code (section K.2 of ITU-T T.81). */
module HuffmanOptimality {
  import opened BitSeq

  // ----- the cost of merging -----

  /** The least element. */
  ghost function Min(m: multiset<nat>): (x: nat)
    requires |m| > 0
    ensures x in m && forall y :: y in m ==> x <= y
  {
    LeastExists(m);
    var x :| x in m && forall y :: y in m ==> x <= y;
    x
  }

  lemma LeastExists(m: multiset<nat>)
    requires |m| > 0
    ensures exists x :: x in m && forall y :: y in m ==> x <= y
  {
    var x := Least(m);
  }

  lemma {:induction false} Least(m: multiset<nat>) returns (x: nat)
    requires |m| > 0
    ensures x in m && forall y :: y in m ==> x <= y
    decreases |m|
  {
    var z :| z in m;
    var rest := m - multiset{z};
    assert m == rest + multiset{z};
    x := z;
    if |rest| > 0 {
      var y := Least(rest);
      if y < z {
        x := y;
      }
    }
    assert forall y :: y in m ==> y == z || y in rest;
  }

  /** The weights once the two smallest have been merged. */
  ghost function Merged(m: multiset<nat>): (r: multiset<nat>)
    requires |m| > 1
    ensures |r| == |m| - 1
  {
    var a := Min(m);
    var b := Min(m - multiset{a});
    m - multiset{a} - multiset{b} + multiset{a + b}
  }

  /** What merging the two smallest weights until one is left adds up to. */
  ghost function HuffCost(m: multiset<nat>): nat
    decreases |m|
  {
    if |m| <= 1 then 0 else Min(m) + Min(m - multiset{Min(m)}) + HuffCost(Merged(m))
  }

  // ----- prefix codes by their lengths -----

  datatype Leaf = Leaf(weight: nat, length: nat)

  function Weights(s: seq<Leaf>): (m: multiset<nat>)
    ensures |m| == |s|
  {
    if |s| == 0 then multiset{} else multiset{s[0].weight} + Weights(s[1..])
  }

  /** Total weighted length. */
  function Cost(s: seq<Leaf>): nat {
    if |s| == 0 then 0 else s[0].weight * s[0].length + Cost(s[1..])
  }

  ghost predicate Bounded(s: seq<Leaf>, n: nat) {
    forall i :: 0 <= i < |s| ==> s[i].length <= n
  }

  /** 2^n times the Kraft sum. */
  function Kraft(s: seq<Leaf>, n: nat): nat
    requires Bounded(s, n)
  {
    if |s| == 0 then 0 else Pow2(n - s[0].length) + Kraft(s[1..], n)
  }

  function TotalLength(s: seq<Leaf>): nat {
    if |s| == 0 then 0 else s[0].length + TotalLength(s[1..])
  }

  /** Taking leaf i out. */
  function Without(s: seq<Leaf>, i: nat): (r: seq<Leaf>)
    requires i < |s|
    ensures |r| == |s| - 1 && forall j :: 0 <= j < |r| ==> r[j] == s[if j < i then j else j + 1]
  {
    s[..i] + s[i + 1..]
  }

  lemma Assoc(a: multiset<nat>, b: multiset<nat>, c: multiset<nat>)
    ensures a + (b + c) == a + b + c
  {
  }

  lemma {:induction false} TakeOutWeight(s: seq<Leaf>, i: nat)
    requires i < |s|
    ensures Weights(s) == Weights(Without(s, i)) + multiset{s[i].weight}
  {
    if i == 0 {
      assert Without(s, 0) == s[1..];
    } else {
      TakeOutWeight(s[1..], i - 1);
      var w := Without(s, i);
      assert w[0] == s[0] && w[1..] == Without(s[1..], i - 1);
      Assoc(multiset{s[0].weight}, Weights(w[1..]), multiset{s[i].weight});
    }
  }

  lemma {:induction false} TakeOut(s: seq<Leaf>, i: nat, n: nat)
    requires i < |s| && Bounded(s, n)
    ensures Bounded(Without(s, i), n)
    ensures Weights(s) == Weights(Without(s, i)) + multiset{s[i].weight}
    ensures Cost(s) == Cost(Without(s, i)) + s[i].weight * s[i].length
    ensures Kraft(s, n) == Kraft(Without(s, i), n) + Pow2(n - s[i].length)
    ensures TotalLength(s) == TotalLength(Without(s, i)) + s[i].length
  {
    hide Weights, Pow2;
    TakeOutWeight(s, i);
    if i == 0 {
      assert Without(s, 0) == s[1..];
    } else {
      TakeOut(s[1..], i - 1, n);
      var w := Without(s, i);
      assert w[0] == s[0] && w[1..] == Without(s[1..], i - 1);
    }
  }

  /** Cancelling an element. */
  lemma Cancel(a: multiset<nat>, b: multiset<nat>, w: nat)
    requires a + multiset{w} == b + multiset{w}
    ensures a == b
  {
    assert (a + multiset{w}) - multiset{w} == a && (b + multiset{w}) - multiset{w} == b;
  }

  /** Changing leaf i. */
  lemma Change(s: seq<Leaf>, i: nat, x: Leaf, n: nat)
    requires i < |s| && Bounded(s, n) && x.length <= n
    ensures Bounded(s[i := x], n)
    ensures Weights(s[i := x]) + multiset{s[i].weight} == Weights(s) + multiset{x.weight}
    ensures Cost(s[i := x]) + s[i].weight * s[i].length == Cost(s) + x.weight * x.length
    ensures Kraft(s[i := x], n) + Pow2(n - s[i].length) == Kraft(s, n) + Pow2(n - x.length)
    ensures TotalLength(s[i := x]) + s[i].length == TotalLength(s) + x.length
  {
    hide Weights, Cost, Kraft, TotalLength, Pow2, Bounded;
    TakeOut(s, i, n);
    assert Bounded(s[i := x], n) by { StillBounded(s, i, x, n); }
    TakeOut(s[i := x], i, n);
    assert Without(s[i := x], i) == Without(s, i);
  }

  lemma StillBounded(s: seq<Leaf>, i: nat, x: Leaf, n: nat)
    requires i < |s| && Bounded(s, n) && x.length <= n
    ensures Bounded(s[i := x], n)
  {
  }

  /** The longest of the leaves other than i. */
  lemma {:induction false} Longest(s: seq<Leaf>, i: int) returns (p: nat)
    requires |s| > (if 0 <= i < |s| then 1 else 0)
    ensures p < |s| && p != i && forall j :: 0 <= j < |s| && j != i ==> s[j].length <= s[p].length
  {
    if |s| == 1 || (|s| == 2 && i == |s| - 1) {
      p := 0;
    } else if i == |s| - 1 {
      p := Longest(s[..|s| - 1], -1);
    } else if |s| == 2 && i == 0 {
      p := 1;
    } else {
      p := Longest(s[..|s| - 1], i);
      if s[|s| - 1].length > s[p].length {
        p := |s| - 1;
      }
    }
  }

  lemma {:induction false} WithWeight(s: seq<Leaf>, w: nat) returns (i: nat)
    requires w in Weights(s)
    ensures i < |s| && s[i].weight == w
  {
    if s[0].weight == w {
      i := 0;
    } else {
      i := WithWeight(s[1..], w);
      i := i + 1;
    }
  }

  // ----- exchanging -----

  lemma ExchangeCost(a: nat, w: nat, l: nat, m: nat)
    requires a <= w && l <= m
    ensures a * m + w * l <= a * l + w * m
  {
    var d, e := w - a, m - l;
    assert w * m - w * l == w * e && a * m - a * l == a * e;
    assert w * e == a * e + d * e;
    assert d * e >= 0;
  }

  /** Giving the lighter leaf the longer code does not cost more. */
  lemma Exchange(s: seq<Leaf>, i: nat, p: nat, n: nat) returns (r: seq<Leaf>)
    requires i < |s| && p < |s| && Bounded(s, n) && s[i].weight <= s[p].weight && s[i].length <= s[p].length
    ensures |r| == |s| && Bounded(r, n) && Weights(r) == Weights(s) && Cost(r) <= Cost(s)
    ensures Kraft(r, n) == Kraft(s, n) && TotalLength(r) == TotalLength(s)
    ensures r[i] == Leaf(s[i].weight, s[p].length) && r[p] == Leaf(s[p].weight, s[i].length)
    ensures forall j :: 0 <= j < |s| && j != i && j != p ==> r[j] == s[j]
  {
    hide Weights, Cost, Kraft, TotalLength, Pow2;
    if i == p {
      r := s;
    } else {
      var s1 := s[i := Leaf(s[i].weight, s[p].length)];
      Change(s, i, Leaf(s[i].weight, s[p].length), n);
      r := s1[p := Leaf(s[p].weight, s[i].length)];
      Change(s1, p, Leaf(s[p].weight, s[i].length), n);
      Cancel(Weights(s1), Weights(s), s[i].weight);
      Cancel(Weights(r), Weights(s1), s[p].weight);
      ExchangeCost(s[i].weight, s[p].weight, s[i].length, s[p].length);
    }
  }

  // ----- the longest code is not alone -----

  /** If no code is longer than l, the scaled Kraft sum is a multiple of 2^(n - l). */
  lemma {:induction false} KraftMultiple(s: seq<Leaf>, l: nat, n: nat) returns (m: nat)
    requires Bounded(s, l) && l <= n
    ensures Bounded(s, n) && Kraft(s, n) == m * Pow2(n - l)
  {
    if |s| == 0 {
      m := 0;
    } else {
      m := KraftMultiple(s[1..], l, n);
      var k := l - s[0].length;
      Pow2Add(k, n - l);
      MulDistrib(Pow2(k), m, Pow2(n - l));
      m := Pow2(k) + m;
    }
  }

  lemma RoomFor(m: nat, p: nat, c: nat)
    requires p > 0 && m * (2 * p) + p <= c * (2 * p)
    ensures m * (2 * p) + 2 * p <= c * (2 * p)
  {
    if m >= c {
      MulMono(c, m, 2 * p);
      assert false;
    }
    MulMono(m + 1, c, 2 * p);
    MulDistrib(m, 1, 2 * p);
  }

  /** A code that is longer than all others can be shortened. */
  lemma Shorten(s: seq<Leaf>, i: nat, n: nat) returns (r: seq<Leaf>)
    requires i < |s| && Bounded(s, n) && Kraft(s, n) <= Pow2(n) && s[i].length > 0
    requires forall j :: 0 <= j < |s| && j != i ==> s[j].length < s[i].length
    ensures |r| == |s| && Bounded(r, n) && Weights(r) == Weights(s) && Cost(r) <= Cost(s)
    ensures Kraft(r, n) <= Pow2(n) && TotalLength(r) < TotalLength(s)
  {
    hide Weights, Cost, Kraft, TotalLength, Pow2;
    var l := s[i].length;
    r := s[i := Leaf(s[i].weight, l - 1)];
    Change(s, i, Leaf(s[i].weight, l - 1), n);
    Cancel(Weights(r), Weights(s), s[i].weight);
    TakeOut(s, i, n);
    var m := KraftMultiple(Without(s, i), l - 1, n);
    assert Pow2(n - (l - 1)) == 2 * Pow2(n - l) by { NextPow(n - l); }
    Pow2Add(l - 1, n - (l - 1));
    RoomFor(m, Pow2(n - l), Pow2(l - 1));
    assert s[i].weight * (l - 1) <= s[i].weight * l by { MulLess(s[i].weight, l); }
  }

  lemma NextPow(k: nat)
    ensures Pow2(k + 1) == 2 * Pow2(k) && Pow2(k) > 0
  {
  }

  lemma MulLess(w: nat, l: nat)
    requires l > 0
    ensures w * (l - 1) + w == w * l
  {
  }

  // ----- optimality -----

  lemma {:induction false} EmptyCodes(s: seq<Leaf>, n: nat)
    requires Bounded(s, n) && forall j :: 0 <= j < |s| ==> s[j].length == 0
    ensures Kraft(s, n) == |s| * Pow2(n)
  {
    if |s| > 0 {
      EmptyCodes(s[1..], n);
      MulDistrib(|s| - 1, 1, Pow2(n));
    }
  }

  /** With more than one leaf, the longest code is not empty. */
  lemma LongestNotEmpty(s: seq<Leaf>, n: nat, p: nat)
    requires |s| > 1 && Bounded(s, n) && Kraft(s, n) <= Pow2(n)
    requires p < |s| && forall j :: 0 <= j < |s| ==> s[j].length <= s[p].length
    ensures s[p].length > 0
  {
    hide Kraft;
    if s[p].length == 0 {
      EmptyCodes(s, n);
      NextPow(n);
      MulMono(2, |s|, Pow2(n));
      assert false;
    }
  }

  /** Two leaves of the same, longest length become one. */
  lemma MergeTwo(s: seq<Leaf>, i: nat, k: nat, n: nat) returns (r: seq<Leaf>)
    requires i < |s| && k < |s| && i != k && Bounded(s, n) && s[i].length == s[k].length > 0
    ensures |r| == |s| - 1 && Bounded(r, n) && Kraft(r, n) == Kraft(s, n)
    ensures Cost(s) == Cost(r) + s[i].weight + s[k].weight
    ensures Weights(r) + multiset{s[i].weight} + multiset{s[k].weight} == Weights(s) + multiset{s[i].weight + s[k].weight}
  {
    hide Weights, Cost, Kraft, TotalLength, Pow2;
    var a, b, l := s[i].weight, s[k].weight, s[i].length;
    var s1 := s[i := Leaf(a + b, l - 1)];
    Change(s, i, Leaf(a + b, l - 1), n);
    TakeOut(s1, k, n);
    r := Without(s1, k);
    NextPow(n - l);
    MulLess(a, l);
    MulLess(b, l);
    assert (a + b) * (l - 1) == a * (l - 1) + b * (l - 1) by { MulDistrib(a, b, l - 1); }
  }

  /** Every prefix code, given by lengths whose Kraft sum is at most 1, costs at least what merging costs. */
  lemma {:induction false} MergingIsOptimal(s: seq<Leaf>, n: nat)
    requires |s| > 0 && Bounded(s, n) && Kraft(s, n) <= Pow2(n)
    ensures HuffCost(Weights(s)) <= Cost(s)
    decreases |s|, TotalLength(s), 1
  {
    hide Weights, Cost, Kraft, TotalLength, Pow2;
    if |s| > 1 {
      var p := Longest(s, -1);
      LongestNotEmpty(s, n, p);
      var a := Min(Weights(s));
      var i := WithWeight(s, a);
      LeastWeight(s, n, i, a);
      var s1 := Exchange(s, i, p, n);
      var q := Longest(s1, i);
      assert forall j :: 0 <= j < |s1| ==> s1[j].length <= s1[i].length;
      if s1[q].length < s1[i].length {
        var s2 := Shorten(s1, i, n);
        MergingIsOptimal(s2, n);
      } else {
        MergeLightest(s1, i, q, n, a);
      }
    }
  }

  lemma LeastWeight(s: seq<Leaf>, n: nat, i: nat, a: nat)
    requires i < |s| && Bounded(s, n) && s[i].weight == a && forall y :: y in Weights(s) ==> a <= y
    ensures forall j :: 0 <= j < |s| ==> a <= s[j].weight
  {
    hide Weights, Cost, Kraft, TotalLength, Pow2;
    forall j | 0 <= j < |s|
      ensures a <= s[j].weight
    {
      TakeOut(s, j, n);
      assert s[j].weight in Weights(Without(s, j)) + multiset{s[j].weight};
    }
  }

  /** The lightest leaf i and another one, q, are longest: merge the lightest with the second lightest. */
  lemma MergeLightest(s: seq<Leaf>, i: nat, q: nat, n: nat, a: nat)
    requires |s| > 1 && Bounded(s, n) && Kraft(s, n) <= Pow2(n)
    requires i < |s| && q < |s| && i != q && s[q].length == s[i].length > 0
    requires forall j :: 0 <= j < |s| ==> s[j].length <= s[i].length
    requires a == Min(Weights(s)) == s[i].weight
    ensures HuffCost(Weights(s)) <= Cost(s)
    decreases |s|, TotalLength(s), 0
  {
    hide *;
    var k, b := SecondLightest(s, i, q, n, a);
    var s1 := Exchange(s, k, q, n);
    var r := MergeTwo(s1, i, k, n);
    MergingIsOptimal(r, n);
    TwoOut(Weights(s), Weights(r), a, b);
    CostOfMerging(Weights(s), a, b, Weights(r));
  }

  /** The lightest leaf apart from the lightest one, i. */
  lemma SecondLightest(s: seq<Leaf>, i: nat, q: nat, n: nat, a: nat) returns (k: nat, b: nat)
    requires |s| > 1 && Bounded(s, n) && i < |s| && q < |s| && i != q && a == s[i].weight
    ensures k < |s| && k != i && s[k].weight == b <= s[q].weight
    ensures a in Weights(s) && |Weights(s) - multiset{a}| > 0 && b in Weights(s) - multiset{a} && b == Min(Weights(s) - multiset{a})
  {
    hide Weights, Cost, Kraft, TotalLength, Pow2, HuffCost;
    TakeOut(s, i, n);
    var rest := Without(s, i);
    Uncancel(Weights(s), Weights(rest), a);
    b := Min(Weights(rest));
    var k0 := WithWeight(rest, b);
    LeastWeight(rest, n, k0, b);
    k := if k0 < i then k0 else k0 + 1;
    assert s[k] == rest[k0];
    assert s[q] == rest[if q < i then q else q - 1];
  }

  lemma Uncancel(m: multiset<nat>, r: multiset<nat>, a: nat)
    requires m == r + multiset{a}
    ensures m - multiset{a} == r
  {
  }

  lemma TwoOut(m: multiset<nat>, r: multiset<nat>, a: nat, b: nat)
    requires r + multiset{a} + multiset{b} == m + multiset{a + b} && a in m && b in m - multiset{a}
    ensures r == m - multiset{a} - multiset{b} + multiset{a + b}
  {
    var m2 := m - multiset{a} - multiset{b} + multiset{a + b};
    var lhs := r + multiset{a} + multiset{b};
    forall x: nat
      ensures r[x] == m2[x]
    {
      assert lhs[x] == (m + multiset{a + b})[x];
    }
  }

  lemma CostOfMerging(m: multiset<nat>, a: nat, b: nat, r: multiset<nat>)
    requires |m| > 1 && a == Min(m) && b == Min(m - multiset{a}) && r == m - multiset{a} - multiset{b} + multiset{a + b}
    ensures HuffCost(m) == a + b + HuffCost(r)
  {
    hide Min;
    assert r == Merged(m);
  }
}
