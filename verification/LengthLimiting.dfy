/** Limiting code lengths to 16 bits (jchuff.c, figure K.3 of ITU-T T.81), on the number of codes of each length. */
module LengthLimiting {
  import opened BitSeq

  /** The longest code length that the algorithm can start from. */
  const MAX_CLEN: nat := 32

  type Lengths = seq<nat>

  // ----- sums over the lengths below m -----

  function Codes(b: Lengths, m: nat): nat
    requires m <= |b|
  {
    if m == 0 then 0 else Codes(b, m - 1) + b[m - 1]
  }

  /** The Kraft sum, scaled by 2^32. */
  function Span(b: Lengths, m: nat): nat
    requires m <= |b| <= 33
  {
    if m == 0 then 0 else Span(b, m - 1) + b[m - 1] * Pow2(33 - m)
  }

  /** n codes that use up all of the code space, none of them empty. */
  ghost predicate Balanced(b: Lengths, n: nat) {
    |b| == 33 && b[0] == 0 && Codes(b, 33) == n && Span(b, 33) == Pow2(32)
  }

  ghost predicate NoneAbove(b: Lengths, i: nat) {
    forall k :: i < k < |b| ==> b[k] == 0
  }

  /** Every number of codes fits the byte it is kept in. */
  ghost predicate Bytes(b: Lengths) {
    forall k :: 0 <= k < |b| ==> b[k] < 256
  }

  function Plus(b: Lengths, k: nat, d: int): (r: Lengths)
    requires k < |b| && b[k] + d >= 0
    ensures |r| == |b| && forall j :: 0 <= j < |b| ==> r[j] == b[j] + if j == k then d else 0
  {
    b[k := b[k] + d]
  }

  lemma {:induction false} PlusSums(b: Lengths, k: nat, d: int, m: nat)
    requires k < |b| && b[k] + d >= 0 && m <= |b| <= 33
    ensures Codes(Plus(b, k, d), m) == Codes(b, m) + if k < m then d else 0
    ensures Span(Plus(b, k, d), m) == Span(b, m) + if k < m then d * Pow2(32 - k) else 0
    decreases m
  {
    hide Pow2;
    if m > 0 {
      PlusSums(b, k, d, m - 1);
      if k == m - 1 {
        MulDistrib(b[k], d, Pow2(32 - k));
      }
    }
  }

  lemma {:induction false} SumsAbove(b: Lengths, i: nat, m: nat)
    requires |b| == 33 && i < m <= 33 && NoneAbove(b, i)
    ensures Codes(b, m) == Codes(b, i + 1) && Span(b, m) == Span(b, i + 1)
    decreases m
  {
    hide Pow2;
    if m > i + 1 {
      SumsAbove(b, i, m - 1);
    }
  }

  lemma {:induction false} SumsOfNone(b: Lengths, m: nat)
    requires m <= |b| <= 33 && forall k :: 0 <= k < m ==> b[k] == 0
    ensures Codes(b, m) == 0 && Span(b, m) == 0
    decreases m
  {
    hide Pow2;
    if m > 0 {
      SumsOfNone(b, m - 1);
    }
  }

  lemma {:induction false} SpanMultiple(b: Lengths, m: nat) returns (q: nat)
    requires m <= |b| <= 33
    ensures Span(b, m) == q * Pow2(33 - m)
    decreases m
  {
    hide Pow2;
    q := 0;
    if m > 0 {
      var q1 := SpanMultiple(b, m - 1);
      Double(33 - m);
      MulAssoc(q1, 2, Pow2(33 - m));
      MulDistrib(2 * q1, b[m - 1], Pow2(33 - m));
      q := 2 * q1 + b[m - 1];
    }
  }

  lemma Double(k: nat)
    ensures Pow2(k + 1) == 2 * Pow2(k)
  {
  }

  lemma MulCancel(a: nat, b: nat, d: nat)
    requires d > 0 && a * d == b * d
    ensures a == b
  {
    if a < b {
      MulMono(a + 1, b, d);
      MulDistrib(a, 1, d);
      assert false;
    }
    if b < a {
      MulMono(b + 1, a, d);
      MulDistrib(b, 1, d);
      assert false;
    }
  }

  /** In terms of the longest length, the codes use 2^i places. */
  lemma SpanAtLongest(b: Lengths, n: nat, i: nat) returns (q: nat)
    requires Balanced(b, n) && i <= 32 && NoneAbove(b, i)
    ensures 2 * q + b[i] == Pow2(i)
  {
    hide Pow2, Codes, Span;
    SumsAbove(b, i, 33);
    q := SpanMultiple(b, i);
    SpanStep(b, i);
    Double(32 - i);
    Pow2Add(i, 32 - i);
    MulAssoc(q, 2, Pow2(32 - i));
    MulDistrib(2 * q, b[i], Pow2(32 - i));
    MulCancel(2 * q + b[i], Pow2(i), Pow2(32 - i));
  }

  /** The codes of the longest length come in pairs. */
  lemma Paired(b: Lengths, n: nat, i: nat)
    requires Balanced(b, n) && 0 < i <= 32 && NoneAbove(b, i)
    ensures b[i] % 2 == 0
  {
    hide *;
    Length33(b, n);
    var q := SpanAtLongest(b, n, i);
    Double(i - 1);
    assert b[i] == 2 * (Pow2(i - 1) - q);
  }

  lemma SpanStep(b: Lengths, i: nat)
    requires i < |b| <= 33
    ensures Span(b, i + 1) == Span(b, i) + b[i] * Pow2(32 - i)
    ensures Codes(b, i + 1) == Codes(b, i) + b[i]
  {
  }

  /** Codes longer than 16 bits cannot use up the code space unless there are codes at least two bits shorter. */
  lemma ShorterExists(b: Lengths, n: nat, i: nat, j: nat)
    requires Balanced(b, n) && n <= 257 && 16 < i <= 32 && NoneAbove(b, i)
    requires j <= i - 2 && forall k :: j <= k <= i - 2 ==> b[k] == 0
    ensures j > 1
  {
    hide Pow2, Codes, Span;
    if j <= 1 {
      assert forall k :: 0 <= k < i - 1 ==> b[k] == 0;
      SumsOfNone(b, i - 1);
      SumsAbove(b, i, 33);
      SpanStep(b, i);
      SpanStep(b, i - 1);
      Double(32 - i);
      Pow2Add(i, 32 - i);
      MulAssoc(b[i - 1], 2, Pow2(32 - i));
      MulDistrib(2 * b[i - 1], b[i], Pow2(32 - i));
      MulCancel(2 * b[i - 1] + b[i], Pow2(i), Pow2(32 - i));
      Pow2Mono(16, i);
      Pow2Small();
      assert false;
    }
  }

  // ----- one step -----

  /** The longest length up to j that is used; 0 if there is none. */
  function LastUsed(b: Lengths, j: nat): (k: nat)
    requires j < |b|
    ensures k <= j && (b[k] > 0 || k == 0) && forall l :: k < l <= j ==> b[l] == 0
  {
    if j == 0 || b[j] > 0 then j else LastUsed(b, j - 1)
  }

  /** Two codes of length i give up their place: one takes their common prefix, the other shares the place of a code of length j. */
  function Split(b: Lengths, i: nat, j: nat): (r: Lengths)
    requires 1 < i < |b| && j <= i - 2 && b[i] >= 2 && b[j] >= 1
    ensures |r| == |b|
  {
    Plus(Plus(Plus(Plus(b, i, -2), i - 1, 1), j + 1, 2), j, -1)
  }

  function Moved(k: int, i: int, j: int): int {
    (if k == i then -2 else 0) + (if k == i - 1 then 1 else 0) + (if k == j + 1 then 2 else 0) + if k == j then -1 else 0
  }

  lemma SplitAt(b: Lengths, i: nat, j: nat)
    requires 1 < i < |b| && j <= i - 2 && b[i] >= 2 && b[j] >= 1
    ensures forall k :: 0 <= k < |b| ==> Split(b, i, j)[k] == b[k] + Moved(k, i, j)
  {
  }

  /** A step keeps the number of codes and the Kraft sum. */
  lemma SplitBalanced(b: Lengths, n: nat, i: nat, j: nat)
    requires Balanced(b, n) && 1 < i <= 32 && 0 < j <= i - 2 && b[i] >= 2 && b[j] >= 1
    ensures Balanced(Split(b, i, j), n)
  {
    hide Pow2, Codes, Span;
    SplitAt(b, i, j);
    var b1 := Plus(b, i, -2);
    var b2 := Plus(b1, i - 1, 1);
    var b3 := Plus(b2, j + 1, 2);
    PlusSums(b, i, -2, 33);
    PlusSums(b1, i - 1, 1, 33);
    PlusSums(b2, j + 1, 2, 33);
    PlusSums(b3, j, -1, 33);
    Double(32 - i);
    Double(31 - j);
  }

  /** The two lengths involved, as the loops of the method find them. */
  lemma CanSplit(b: Lengths, n: nat, i: nat)
    requires Balanced(b, n) && n <= 257 && 16 < i <= 32 && NoneAbove(b, i) && b[i] > 0
    ensures b[i] >= 2 && 0 < LastUsed(b, i - 2) <= i - 2 && b[LastUsed(b, i - 2)] >= 1
  {
    Paired(b, n, i);
    var j := LastUsed(b, i - 2);
    if j == 0 {
      ShorterExists(b, n, i, j);
    }
  }

  // ----- all steps -----

  /** Lengths above 16 removed, the longest first. */
  ghost function Limited(b: Lengths, n: nat, i: nat): (r: Lengths)
    requires Balanced(b, n) && n <= 257 && 16 <= i <= 32 && NoneAbove(b, i)
    ensures Balanced(r, n) && NoneAbove(r, 16)
    decreases i, b[i]
  {
    if i == 16 then b
    else if b[i] == 0 then Limited(b, n, i - 1)
    else
      CanSplit(b, n, i);
      SplitBalanced(b, n, i, LastUsed(b, i - 2));
      SplitAt(b, i, LastUsed(b, i - 2));
      Limited(Split(b, i, LastUsed(b, i - 2)), n, i)
  }

  lemma {:induction false} ShortStay(b: Lengths, n: nat, i: nat)
    requires Balanced(b, n) && n <= 257 && 16 <= i <= 32 && NoneAbove(b, 16)
    ensures Limited(b, n, i) == b
  {
    if i > 16 {
      ShortStay(b, n, i - 1);
    }
  }

  // ----- bytes -----

  lemma {:induction false} NoCodes(b: Lengths, m: nat)
    requires m <= |b| <= 33 && Codes(b, m) == 0
    ensures Span(b, m) == 0 && forall k :: 0 <= k < m ==> b[k] == 0
    decreases m
  {
    hide Pow2;
    if m > 0 {
      NoCodes(b, m - 1);
    }
  }

  lemma {:induction false} OneCode(b: Lengths, m: nat) returns (l: nat)
    requires m <= |b| <= 33 && Codes(b, m) == 1
    ensures l < m && b[l] == 1 && Span(b, m) == Pow2(32 - l) && forall k :: 0 <= k < m && k != l ==> b[k] == 0
    decreases m
  {
    hide Pow2;
    if b[m - 1] == 0 {
      l := OneCode(b, m - 1);
    } else {
      l := m - 1;
      NoCodes(b, m - 1);
    }
  }

  lemma {:induction false} OneLength(b: Lengths, m: nat, l: nat)
    requires l < m <= |b| <= 33
    ensures Codes(b, m) >= b[l]
    decreases m
  {
    if l < m - 1 {
      OneLength(b, m - 1, l);
    }
  }

  /** The only ways to have as many as 256 of at most 257 codes at one length. */
  lemma TooMany(b: Lengths, n: nat, l: nat)
    requires Balanced(b, n) && n <= 257 && l <= 32 && b[l] >= 256
    ensures (l == 8 || l == 9) && b[l] == 256 && NoneAbove(b, 9)
    ensures forall k :: 0 <= k <= 32 && k != l ==> b[k] == if l == 9 && k == 1 then 1 else 0
  {
    hide Pow2, Codes, Span;
    var c := Plus(b, l, -256);
    PlusSums(b, l, -256, 33);
    Pow2Small();
    Powers();
    if Codes(c, 33) == 0 {
      NoCodes(c, 33);
      NearPowers(l);
    } else {
      var m := OneCode(c, 33);
      NearPowers(l);
      NearPowers(m);
    }
  }

  lemma Powers()
    ensures Pow2(31) == 0x8000_0000 && Pow2(30) == 0x4000_0000 && Pow2(25) == 0x200_0000 && Pow2(23) == 0x80_0000 && Pow2(22) == 0x40_0000
  {
    Pow2Small();
    Double(31);
    Double(30);
    Double(24);
    Double(23);
    Double(22);
  }

  lemma NearPowers(l: nat)
    requires l <= 32
    ensures l <= 7 ==> Pow2(32 - l) >= Pow2(25)
    ensures l >= 10 ==> Pow2(32 - l) <= Pow2(22)
    ensures l >= 2 ==> Pow2(32 - l) <= Pow2(30)
  {
    hide Pow2;
    if l <= 7 { Pow2Mono(25, 32 - l); }
    if l >= 10 { Pow2Mono(32 - l, 22); }
    if l >= 2 { Pow2Mono(32 - l, 30); }
  }

  /** A byte is too small exactly for 256 codes of length 8, or of length 9. */
  lemma FitsExactly(b: Lengths, n: nat)
    requires Balanced(b, n) && n <= 257
    ensures Bytes(b) <==> b[8] != 256 && b[9] != 256
    ensures !Bytes(b) ==> NoneAbove(b, 9)
  {
    hide Balanced;
    assert |b| == 33 by { Length33(b, n); }
    forall l | 0 <= l <= 32 && b[l] >= 256
      ensures (b[8] == 256 || b[9] == 256) && NoneAbove(b, 9)
    {
      TooMany(b, n, l);
    }
  }

  /** A byte that is too small wraps to zero; then no code is left at all, or a single one of one bit. */
  lemma Overflowed(b: Lengths, n: nat)
    requires Balanced(b, n) && n <= 257 && !Bytes(b)
    ensures b[8] == 256 ==> forall k :: 0 <= k <= 32 && k != 8 ==> b[k] == 0
    ensures b[8] != 256 ==> b[9] == 256 && forall k :: 0 <= k <= 32 && k != 9 ==> b[k] == if k == 1 then 1 else 0
  {
    hide Balanced;
    Length33(b, n);
    FitsExactly(b, n);
    TooMany(b, n, if b[8] == 256 then 8 else 9);
  }

  lemma Length33(b: Lengths, n: nat)
    requires Balanced(b, n)
    ensures |b| == 33
  {
  }

  /** With at most 254 symbols and the pseudo-symbol no byte overflows. */
  lemma FewSymbolsFit(b: Lengths, n: nat)
    requires Balanced(b, n) && n <= 255
    ensures Bytes(b)
  {
    forall l | 0 <= l < |b|
      ensures b[l] < 256
    {
      OneLength(b, 33, l);
    }
  }

  // ----- the loops -----

  /** An unsigned byte. */
  function Wrap(x: int): (r: nat)
    ensures r < 256 && (0 <= x < 256 ==> r == x)
  {
    x % 256
  }

  function WrappedPlus(b: Lengths, k: nat, d: int): (r: Lengths)
    requires k < |b|
    ensures |r| == |b|
  {
    b[k := Wrap(b[k] + d)]
  }

  /** No byte overflows in a step. */
  lemma SplitFits(b: Lengths, n: nat, i: nat, j: nat)
    requires Balanced(b, n) && n <= 257 && 16 < i <= 32 && NoneAbove(b, i) && Bytes(b)
    requires 0 < j <= i - 2 && b[i] >= 2 && b[j] >= 1
    ensures WrappedPlus(WrappedPlus(WrappedPlus(WrappedPlus(b, i, -2), i - 1, 1), j + 1, 2), j, -1) == Split(b, i, j)
    ensures Balanced(Split(b, i, j), n) && NoneAbove(Split(b, i, j), i) && Bytes(Split(b, i, j)) && Split(b, i, j)[i] == b[i] - 2
  {
    hide Balanced;
    Length33(b, n);
    SplitBalanced(b, n, i, j);
    SplitAt(b, i, j);
    FitsExactly(Split(b, i, j), n);
    assert Split(b, i, j)[i - 1] > 0;
  }

  lemma SplitLimited(b: Lengths, n: nat, i: nat)
    requires Balanced(b, n) && n <= 257 && 16 < i <= 32 && NoneAbove(b, i) && b[i] > 0
    requires b[i] >= 2 && 0 < LastUsed(b, i - 2) <= i - 2 && b[LastUsed(b, i - 2)] >= 1
    requires Balanced(Split(b, i, LastUsed(b, i - 2)), n) && NoneAbove(Split(b, i, LastUsed(b, i - 2)), i)
    ensures Limited(b, n, i) == Limited(Split(b, i, LastUsed(b, i - 2)), n, i)
  {
    hide Balanced, NoneAbove, Split, LastUsed;
  }

  lemma NextLength(b: Lengths, n: nat, i: nat)
    requires Balanced(b, n) && n <= 257 && 16 < i <= 32 && NoneAbove(b, i) && b[i] == 0
    ensures NoneAbove(b, i - 1) && Limited(b, n, i) == Limited(b, n, i - 1)
  {
    hide Balanced;
  }

  lemma NothingAbove(b: Lengths)
    requires |b| == 33
    ensures NoneAbove(b, 32)
  {
  }

  lemma LimitedDone(b: Lengths, n: nat)
    requires Balanced(b, n) && n <= 257 && NoneAbove(b, 16)
    ensures Limited(b, n, 16) == b
  {
  }

  lemma WrappedPlusIs(b: Lengths, k: nat, d: int)
    requires k < |b| && b[k] + d >= 0
    ensures WrappedPlus(b, k, d) == b[k := Wrap(b[k] + d)]
  {
  }

  lemma NoneAboveAt(b: Lengths, i: nat)
    requires |b| == 33 && NoneAbove(b, i)
    ensures forall k :: i < k < 33 ==> b[k] == 0
  {
  }

  /** Removes all lengths above 16. Where a byte has overflowed there are none. */
  method LimitLengths(bits: array<nat>, ghost n: nat)
    requires bits.Length == 33 && n <= 257 && Bytes(bits[..]) && (Balanced(bits[..], n) || NoneAbove(bits[..], 16))
    modifies bits
    ensures Bytes(bits[..]) && bits[..] == if Balanced(old(bits[..]), n) then Limited(old(bits[..]), n, 32) else old(bits[..])
  {
    hide *;
    var i := 32;
    ghost var b0 := bits[..];
    ghost var fits := Balanced(b0, n);
    NothingAbove(b0);
    if !fits {
      NoneAboveAt(b0, 16);
    }
    while i > 16
      invariant 16 <= i <= 32 && Bytes(bits[..])
      invariant if fits then Balanced(bits[..], n) && NoneAbove(bits[..], i) else bits[..] == b0
      invariant fits ==> Limited(bits[..], n, i) == Limited(b0, n, 32)
    {
      while bits[i] > 0
        invariant Bytes(bits[..]) && if fits then Balanced(bits[..], n) && NoneAbove(bits[..], i) else bits[..] == b0
        invariant fits ==> Limited(bits[..], n, i) == Limited(b0, n, 32)
        decreases bits[i]
      {
        ghost var b := bits[..];
        CanSplit(b, n, i);
        var j := i - 2;
        while bits[j] == 0
          invariant 0 < LastUsed(b, i - 2) <= j <= i - 2
          decreases j
        {
          j := j - 1;
        }
        SplitFits(b, n, i, j);
        SplitLimited(b, n, i);
        WrappedPlusIs(b, i, -2);
        bits[i] := Wrap(bits[i] - 2);
        WrappedPlusIs(bits[..], i - 1, 1);
        bits[i - 1] := Wrap(bits[i - 1] + 1);
        WrappedPlusIs(bits[..], j + 1, 2);
        bits[j + 1] := Wrap(bits[j + 1] + 2);
        WrappedPlusIs(bits[..], j, -1);
        bits[j] := Wrap(bits[j] - 1);
      }
      if fits {
        NextLength(bits[..], n, i);
      }
      i := i - 1;
    }
    if fits {
      LimitedDone(bits[..], n);
    }
  }

  lemma {:induction false} LimitedSkips(b: Lengths, n: nat, i: nat, j: nat)
    requires Balanced(b, n) && n <= 257 && 16 <= j <= i <= 32 && NoneAbove(b, j)
    ensures Limited(b, n, i) == Limited(b, n, j)
    decreases i
  {
    if j < i {
      LimitedSkips(b, n, i - 1, j);
    }
  }

  lemma {:induction false} OneEach(b: Lengths, m: nat)
    requires |b| == 33 && b[0] == 0 && 1 <= m <= 17 && forall k :: 1 <= k < m ==> b[k] == 1
    ensures Codes(b, m) == m - 1 && Span(b, m) == Pow2(32) - Pow2(33 - m)
    decreases m
  {
    if m > 1 {
      OneEach(b, m - 1);
    } else {
      assert Codes(b, 0) == 0 && Span(b, 0) == 0;
    }
  }

  /** One code of each length up to 16 and two of 17: the longest two give way, and the code of 15 bits makes room for a second
      one of 16 bits beside it. */
  lemma SeventeenBits(b: Lengths)
    requires |b| == 33 && b[0] == 0 && b[17] == 2 && (forall k :: 1 <= k <= 16 ==> b[k] == 1) && forall k :: 17 < k <= 32 ==> b[k] == 0
    ensures Balanced(b, 18) && NoneAbove(b, 32)
    ensures Limited(b, 18, 32) == b[17 := 0][16 := 4][15 := 0]
  {
    hide Codes, Span, Pow2;
    OneEach(b, 17);
    SpanStep(b, 17);
    SumsAbove(b, 17, 33);
    Double(15);
    LimitedSkips(b, 18, 32, 17);
    assert LastUsed(b, 15) == 15;
    var r := Split(b, 17, 15);
    SplitAt(b, 17, 15);
    SplitBalanced(b, 18, 17, 15);
    ShortStay(r, 18, 17);
    assert r == b[17 := 0][16 := 4][15 := 0];
  }
}
