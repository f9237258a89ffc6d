/** Canonical Huffman codes (Annex C of ITU-T T.81): the code lengths of a table
    determine the codes, and the codes partition an initial part of the 16-bit numbers. */
module HuffTable {
  import opened BitSeq
  import opened ByteStream
  import opened BitStream

  const TOP: nat := 0x1_0000

  /** JHUFF_TBL: bits[l] codes of length l (bits[0] is unused), huffval the symbols in order of length. */
  datatype HuffTbl = HuffTbl(bits: seq<Byte>, huffval: seq<Byte>)

  predicate WellTyped(t: HuffTbl) {
    |t.bits| == 17 && |t.huffval| == 256
  }

  /** Figure C.1: the code lengths 1..l, each as often as it is used. */
  function Sizes(bits: seq<Byte>, l: nat): (s: seq<nat>)
    requires l < |bits|
    ensures forall p :: 0 <= p < |s| ==> 1 <= s[p] <= l
    ensures forall p :: 0 < p < |s| ==> Ascending(s, p)
  {
    if l == 0 then [] else
      var shorter := Sizes(bits, l - 1);
      var s := shorter + Copies(l, bits[l]);
      assert forall p :: 0 < p < |shorter| ==> Ascending(shorter, p) ==> Ascending(s, p);
      s
  }

  function Copies(x: nat, n: nat): (s: seq<nat>)
    ensures |s| == n && forall p :: 0 <= p < n ==> s[p] == x
  {
    seq(n, _ => x)
  }

  predicate Ascending(s: seq<nat>, p: nat)
    requires 0 < p < |s|
  {
    s[p - 1] <= s[p]
  }

  function AllSizes(t: HuffTbl): (s: seq<nat>)
    requires WellTyped(t)
    ensures CodeLengths(s)
  {
    Sizes(t.bits, 16)
  }

  ghost predicate CodeLengths(s: seq<nat>) {
    && (forall p :: 0 <= p < |s| ==> 1 <= s[p] <= 16)
    && forall p :: 0 < p < |s| ==> Ascending(s, p)
  }

  /** Figure C.2: consecutive codes within a length, a shift where the length grows. */
  function Code(s: seq<nat>, p: nat): (c: nat)
    requires CodeLengths(s) && p < |s|
  {
    if p == 0 then 0 else
      assert Ascending(s, p);
      (Code(s, p - 1) + 1) * Pow2(s[p] - s[p - 1])
  }

  /** Where the interval of codeword p starts among the 16-bit numbers. */
  function Start(s: seq<nat>, p: nat): (k: nat)
    requires CodeLengths(s) && p <= |s|
  {
    if p == 0 then 0 else Start(s, p - 1) + Pow2(16 - s[p - 1])
  }

  /** No code consists of one bits only (and none overflows its length). */
  ghost predicate Legal(s: seq<nat>)
    requires CodeLengths(s)
  {
    forall p {:trigger Code(s, p)} :: 0 <= p < |s| ==> Code(s, p) + 1 < Pow2(s[p])
  }

  /** A code followed by 16 - length arbitrary bits is exactly the interval of its codeword. */
  lemma {:induction false} CodeScaled(s: seq<nat>, p: nat)
    requires CodeLengths(s) && p < |s|
    ensures Code(s, p) * Pow2(16 - s[p]) == Start(s, p)
    ensures (Code(s, p) + 1) * Pow2(16 - s[p]) == Start(s, p + 1)
  {
    if p > 0 {
      CodeScaled(s, p - 1);
      assert Ascending(s, p);
      Pow2Add(s[p] - s[p - 1], 16 - s[p]);
      MulAssoc(Code(s, p - 1) + 1, Pow2(s[p] - s[p - 1]), Pow2(16 - s[p]));
    }
    MulDistrib(Code(s, p), 1, Pow2(16 - s[p]));
  }

  lemma {:induction false} StartMono(s: seq<nat>, p: nat, q: nat)
    requires CodeLengths(s) && p <= q <= |s|
    ensures Start(s, p) <= Start(s, q)
    ensures p < q ==> Start(s, p) < Start(s, q)
    decreases q - p
  {
    if p < q {
      StartMono(s, p, q - 1);
    }
  }

  lemma CodeFits(s: seq<nat>, p: nat)
    requires CodeLengths(s) && p < |s|
    ensures Code(s, p) + 1 < Pow2(s[p]) <==> Start(s, p + 1) < TOP
  {
    hide Code, Start, Pow2;
    CodeScaled(s, p);
    ScaledBelow(Code(s, p) + 1, s[p]);
  }

  /** The table is legal exactly if its Kraft sum stays below one. */
  lemma LegalIffKraft(s: seq<nat>)
    requires CodeLengths(s)
    ensures Legal(s) <==> Start(s, |s|) < TOP
  {
    forall p | 0 <= p < |s|
      ensures Code(s, p) + 1 < Pow2(s[p]) <==> Start(s, p + 1) < TOP
      ensures Start(s, p + 1) <= Start(s, |s|)
    {
      CodeFits(s, p);
      StartMono(s, p + 1, |s|);
    }
    if |s| > 0 {
      assert Legal(s) ==> Code(s, |s| - 1) + 1 < Pow2(s[|s| - 1]);
    }
  }

  lemma ScaledBelow(c: nat, l: nat)
    requires l <= 16
    ensures c < Pow2(l) <==> c * Pow2(16 - l) < TOP
  {
    Pow2Add(l, 16 - l);
    Pow2Small();
    if c < Pow2(l) {
      MulMono(c + 1, Pow2(l), Pow2(16 - l));
      MulDistrib(c, 1, Pow2(16 - l));
    } else {
      MulMono(Pow2(l), c, Pow2(16 - l));
    }
  }

  /** The codeword whose interval contains x, or |s|. */
  function Locate(s: seq<nat>, x: nat, p: nat): (q: nat)
    requires CodeLengths(s) && p <= |s|
    ensures p <= q <= |s|
    ensures q < |s| ==> x < Start(s, q + 1)
    ensures p < q ==> Start(s, q) <= x
    decreases |s| - p
  {
    if p == |s| || x < Start(s, p + 1) then p else Locate(s, x, p + 1)
  }

  lemma {:induction false} LocateIs(s: seq<nat>, x: nat, p: nat, q: nat)
    requires CodeLengths(s) && p <= q < |s| && Start(s, q) <= x < Start(s, q + 1)
    ensures Locate(s, x, p) == q
    decreases q - p
  {
    if p < q {
      StartMono(s, p + 1, q);
      LocateIs(s, x, p + 1, q);
    }
  }

  /** The table defines a code: at most 256 codewords, none of them all ones. */
  ghost predicate Accepted(t: HuffTbl) {
    WellTyped(t) && |AllSizes(t)| <= 256 && Legal(AllSizes(t))
  }

  /** No symbol occurs twice, and a DC table codes only 0..15. */
  ghost predicate SymbolsOk(t: HuffTbl, isDC: bool)
    requires WellTyped(t) && |AllSizes(t)| <= 256
  {
    && (forall p, q :: 0 <= p < q < |AllSizes(t)| ==> t.huffval[p] != t.huffval[q])
    && (isDC ==> DCSymbols(t))
  }

  ghost predicate DCSymbols(t: HuffTbl)
    requires WellTyped(t) && |AllSizes(t)| <= 256
  {
    forall p :: 0 <= p < |AllSizes(t)| ==> t.huffval[p] <= 15
  }

  /** The first index below n at which v holds x, or n. */
  function IndexOf(v: seq<Byte>, n: nat, x: nat): (i: nat)
    requires n <= |v|
    ensures i <= n
    ensures i < n ==> v[i] == x
    ensures forall j :: 0 <= j < i ==> v[j] != x
  {
    if n == 0 then 0 else
      var i := IndexOf(v, n - 1, x);
      if i < n - 1 || v[n - 1] == x then i else n
  }

  /** The codeword of a symbol; the empty string if it has none. */
  function Codeword(t: HuffTbl, sym: nat): (b: Bits)
    requires Accepted(t)
    ensures |b| <= 16
  {
    var s := AllSizes(t);
    var p := IndexOf(t.huffval, |s|, sym);
    if p == |s| then [] else ToBits(Code(s, p), s[p])
  }

  /** The next 16 bits of a stream as a number. */
  function Window(st: Stream): (x: nat)
    ensures x < TOP
  {
    Pow2Small();
    Val(ZeroExtended(st.bits, 16))
  }

  /** Decoding one symbol: the codeword that the stream starts with; 0 after 17 bits if there is none. */
  function Decode(t: HuffTbl, st: Stream): (r: (Byte, Stream))
    requires Accepted(t)
    ensures r.1.marker == st.marker && r.1.next == st.next
  {
    var s := AllSizes(t);
    var p := Locate(s, Window(st), 0);
    if p < |s| then (t.huffval[p], Drop(st, s[p])) else (0, Drop(st, 17))
  }

  /** The numbers whose bits start with the codeword of p are those of its interval. */
  lemma PrefixInInterval(s: seq<nat>, p: nat, b: Bits, st: Stream)
    requires CodeLengths(s) && Legal(s) && p < |s| && b == ToBits(Code(s, p), s[p])
    ensures Start(s, p) <= Window(Prepend(b, st)) < Start(s, p + 1)
  {
    var z := ZeroExtended(Prepend(b, st).bits, 16);
    assert z[..s[p]] == b;
    var r := z[s[p]..];
    assert z == b + r;
    ValConcat(b, r);
    ValToBits(Code(s, p), s[p]);
    assert Code(s, p) % Pow2(s[p]) == Code(s, p) by { DivModUnique(Code(s, p), 0, Pow2(s[p]), Code(s, p)); }
    CodeScaled(s, p);
    MulDistrib(Code(s, p), 1, Pow2(16 - s[p]));
  }

  /** A codeword decodes to its symbol, whatever follows. */
  lemma DecodeCodeword(t: HuffTbl, sym: nat, st: Stream)
    requires Accepted(t) && Codeword(t, sym) != []
    ensures Decode(t, Prepend(Codeword(t, sym), st)) == (sym, st)
  {
    var s := AllSizes(t);
    var p := IndexOf(t.huffval, |s|, sym);
    var b := Codeword(t, sym);
    PrefixInInterval(s, p, b, st);
    LocateIs(s, Window(Prepend(b, st)), 0, p);
    assert (b + st.bits)[|b|..] == st.bits;
  }

  /** Distinct codewords are never prefixes of one another. */
  lemma PrefixFree(t: HuffTbl, sym1: nat, sym2: nat)
    requires Accepted(t) && sym1 != sym2
    requires Codeword(t, sym1) != [] && Codeword(t, sym2) != []
    ensures !(Codeword(t, sym1) <= Codeword(t, sym2))
  {
    var b1, b2 := Codeword(t, sym1), Codeword(t, sym2);
    if b1 <= b2 {
      var st1, st2 := Stream(b2[|b1|..], false, 0, 0), Stream([], false, 0, 0);
      assert Prepend(b1, st1) == Prepend(b2, st2);
      DecodeCodeword(t, sym1, st1);
      DecodeCodeword(t, sym2, st2);
    }
  }

  /** If the stream starts with no codeword, zeros being supplied behind its end, decoding gives 0 and uses 17 bits. */
  lemma NoCodeword(t: HuffTbl, st: Stream)
    requires Accepted(t)
    requires forall p :: 0 <= p < |AllSizes(t)| ==> ToBits(Code(AllSizes(t), p), AllSizes(t)[p]) != ZeroExtended(st.bits, 16)[..AllSizes(t)[p]]
    ensures Decode(t, st) == (0, Drop(st, 17))
  {
    hide Code, Start, Legal;
    var s := AllSizes(t);
    var p := Locate(s, Window(st), 0);
    if p < |s| {
      assert Start(s, 0) == 0 by { StartOrigin(s); }
      IntervalPrefix(s, p, ZeroExtended(st.bits, 16));
    }
  }

  lemma StartOrigin(s: seq<nat>)
    requires CodeLengths(s)
    ensures Start(s, 0) == 0
  {
  }

  /** A number in the interval of p starts with its codeword. */
  lemma IntervalPrefix(s: seq<nat>, p: nat, z: Bits)
    requires CodeLengths(s) && p < |s| && |z| == 16 && Start(s, p) <= Val(z) < Start(s, p + 1)
    ensures ToBits(Code(s, p), s[p]) == z[..s[p]]
  {
    hide Code, Start, Pow2, Val, ToBits;
    var a, r := z[..s[p]], z[s[p]..];
    assert z == a + r;
    ValConcat(a, r);
    CodeScaled(s, p);
    MulDistrib(Code(s, p), 1, Pow2(16 - s[p]));
    DivModUnique(Val(z), Val(a), Pow2(16 - s[p]), Val(r));
    DivModUnique(Val(z), Code(s, p), Pow2(16 - s[p]), Val(z) - Start(s, p));
    ToBitsVal(a);
  }
}
