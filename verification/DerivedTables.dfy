/** jpeg_make_c_derived_tbl and jpeg_make_d_derived_tbl (jchuff.c, jdhuff.c):
    the tables the encoders and decoders work with, built from a JHUFF_TBL. */
module DerivedTables {
  import opened BitSeq
  import opened ByteStream
  import opened HuffTable

  datatype Option<T> = None | Some(value: T)

  /** Code and length of each symbol; length 0 for a symbol without code. */
  datatype CDerived = CDerived(ehufco: seq<nat>, ehufsi: seq<nat>)

  datatype DDerived = DDerived(maxcode: seq<int>, valoffset: seq<int>, lookNbits: seq<nat>, lookSym: seq<Byte>)

  /** Figure C.1; fails if there are more than 256 codes. */
  method CodeSizes(t: HuffTbl) returns (huffsize: seq<nat>, ok: bool)
    requires WellTyped(t)
    ensures ok <==> |AllSizes(t)| <= 256
    ensures ok ==> huffsize == AllSizes(t)
  {
    huffsize, ok := [], true;
    var l := 1;
    while l <= 16
      invariant 1 <= l <= 17
      invariant huffsize == Sizes(t.bits, l - 1) && |huffsize| <= 256
    {
      var i := t.bits[l];
      if |huffsize| + i > 256 {
        SizesGrow(t, l);
        ok := false;
        return;
      }
      while i > 0
        invariant 0 <= i <= t.bits[l]
        invariant huffsize == Sizes(t.bits, l - 1) + Copies(l, t.bits[l] - i)
      {
        huffsize := huffsize + [l];
        i := i - 1;
      }
      l := l + 1;
    }
  }

  lemma {:induction false} SizesPrefix(bits: seq<Byte>, l: nat, m: nat)
    requires l <= m < |bits|
    ensures |Sizes(bits, l)| <= |Sizes(bits, m)|
    ensures Sizes(bits, m)[..|Sizes(bits, l)|] == Sizes(bits, l)
    ensures forall p :: |Sizes(bits, l)| <= p < |Sizes(bits, m)| ==> Sizes(bits, m)[p] > l
    decreases m - l
  {
    if l < m {
      SizesPrefix(bits, l, m - 1);
    }
  }

  lemma SizesGrow(t: HuffTbl, l: nat)
    requires WellTyped(t) && 1 <= l <= 16
    ensures |Sizes(t.bits, l)| == |Sizes(t.bits, l - 1)| + t.bits[l]
    ensures |Sizes(t.bits, l)| <= |AllSizes(t)|
  {
    SizesPrefix(t.bits, l, 16);
  }

  /** The code that would come next at length si after the first p codes. */
  ghost function NextCode(s: seq<nat>, p: nat, si: nat): nat
    requires CodeLengths(s) && p <= |s|
    requires p > 0 ==> s[p - 1] <= si
  {
    if p == 0 then 0 else (Code(s, p - 1) + 1) * Pow2(si - s[p - 1])
  }

  lemma NextCodeDoubles(s: seq<nat>, p: nat, si: nat)
    requires CodeLengths(s) && p <= |s|
    requires p > 0 ==> s[p - 1] <= si
    ensures NextCode(s, p, si + 1) == 2 * NextCode(s, p, si)
    ensures p > 0 ==> NextCode(s, p, s[p - 1]) == Code(s, p - 1) + 1
  {
    if p > 0 {
      assert Pow2(si + 1 - s[p - 1]) == 2 * Pow2(si - s[p - 1]);
      MulDouble(Code(s, p - 1) + 1, Pow2(si - s[p - 1]));
    }
  }

  lemma NextIsCode(s: seq<nat>, p: nat)
    requires CodeLengths(s) && p < |s|
    requires p == 0 || Ascending(s, p)
    ensures NextCode(s, p, s[p]) == Code(s, p)
    ensures NextCode(s, p + 1, s[p]) == Code(s, p) + 1
  {
    assert Pow2(0) == 1;
  }

  /** All codes of the first p lengths are legal. */
  ghost predicate LegalTo(s: seq<nat>, p: nat)
    requires CodeLengths(s) && p <= |s|
  {
    forall q {:trigger Code(s, q)} :: 0 <= q < p ==> Code(s, q) + 1 < Pow2(s[q])
  }

  /** Within one length the codes count up, so the last one decides. */
  lemma {:induction false} LegalBackward(s: seq<nat>, p: nat)
    requires CodeLengths(s) && p < |s|
    requires Code(s, p) + 1 < Pow2(s[p])
    ensures LegalTo(s, p + 1)
  {
    CodeFits(s, p);
    forall q | 0 <= q < p + 1
      ensures Code(s, q) + 1 < Pow2(s[q])
    {
      CodeFits(s, q);
      StartMono(s, q + 1, p + 1);
    }
  }

  /** The state of the code generation loops: the first p codes are known, code comes next at length si. */
  ghost predicate Generated(s: seq<nat>, huffcode: seq<nat>, code: nat, p: nat, si: nat)
    requires CodeLengths(s)
  {
    && |huffcode| == p <= |s|
    && (forall q {:trigger huffcode[q]} :: 0 <= q < p ==> huffcode[q] == Code(s, q))
    && (p > 0 ==> s[p - 1] <= si)
    && (p < |s| ==> si <= s[p] && (p == 0 ==> si == s[0]))
    && code == NextCode(s, p, si)
  }

  lemma LengthenCode(s: seq<nat>, huffcode: seq<nat>, code: nat, p: nat, si: nat)
    requires CodeLengths(s) && Generated(s, huffcode, code, p, si) && p > 0
    requires p < |s| ==> si < s[p]
    requires code < Pow2(si)
    ensures Generated(s, huffcode, code * 2, p, si + 1) && code * 2 < Pow2(si + 1)
  {
    NextCodeDoubles(s, p, si);
  }

  ghost predicate GenerationInv(s: seq<nat>, huffcode: seq<nat>, code: nat, p: nat, si: nat)
    requires CodeLengths(s)
  {
    Generated(s, huffcode, code, p, si) && (p > 0 ==> code < Pow2(si)) && LegalTo(s, p)
  }

  lemma LengthDone(s: seq<nat>, p0: nat, huffcode: seq<nat>, code: nat, p: nat, si: nat)
    requires CodeLengths(s) && Generated(s, huffcode, code, p, si) && p > 0
    requires p < |s| ==> si < s[p]
    requires p0 <= |s| && LegalTo(s, p0)
    requires if p == p0 then code < Pow2(si) else s[p - 1] == si
    ensures code < Pow2(si) ==> GenerationInv(s, huffcode, code * 2, p, si + 1)
    ensures code >= Pow2(si) ==> !Legal(s)
  {
    NextCodeDoubles(s, p, si);
    if code < Pow2(si) {
      if p != p0 {
        LegalBackward(s, p - 1);
      }
      LengthenCode(s, huffcode, code, p, si);
    }
  }

  /** Figure C.2; fails if some code does not fit its length or would be all ones. */
  method GenerateCodes(s: seq<nat>) returns (huffcode: seq<nat>, ok: bool)
    requires CodeLengths(s)
    ensures ok <==> Legal(s)
    ensures ok ==> |huffcode| == |s| && forall p {:trigger huffcode[p]} :: 0 <= p < |s| ==> huffcode[p] == Code(s, p)
  {
    huffcode, ok := [], true;
    var code: nat, p: nat := 0, 0;
    var si := if |s| > 0 then s[0] else 0;
    while p < |s|
      invariant GenerationInv(s, huffcode, code, p, si)
      decreases |s| - p, if p < |s| then s[p] - si else 0
    {
      ghost var p0 := p;
      huffcode, code, p := CodesOfLength(s, huffcode, code, p, si);
      LengthDone(s, p0, huffcode, code, p, si);
      if code >= Pow2(si) {
        ok := false;
        return;
      }
      code := code * 2;
      si := si + 1;
    }
  }

  /** The inner loop of figure C.2: consecutive codes for all entries of length si. */
  method CodesOfLength(s: seq<nat>, codes: seq<nat>, first: nat, p0: nat, si: nat)
    returns (huffcode: seq<nat>, code: nat, p: nat)
    requires CodeLengths(s) && p0 < |s| && Generated(s, codes, first, p0, si)
    ensures p0 <= p && Generated(s, huffcode, code, p, si)
    ensures p < |s| ==> si < s[p]
    ensures if p == p0 then code == first && si < s[p0] && p0 > 0 else s[p - 1] == si
  {
    huffcode, code, p := codes, first, p0;
    while p < |s| && s[p] == si
      invariant p0 <= p && Generated(s, huffcode, code, p, si)
      invariant if p == p0 then code == first else s[p - 1] == si
    {
      assert p == 0 || Ascending(s, p);
      assert p + 1 == |s| || Ascending(s, p + 1);
      NextIsCode(s, p);
      huffcode := huffcode + [code];
      code := code + 1;
      p := p + 1;
    }
  }

  /** After the first n codes, symbol x has this code and length. */
  ghost predicate Assigned(t: HuffTbl, s: seq<nat>, n: nat, x: nat, code: nat, size: nat)
    requires WellTyped(t) && CodeLengths(s) && n <= |s| <= 256
  {
    var p := IndexOf(t.huffval, n, x);
    if p == n then size == 0 else code == Code(s, p) && size == s[p]
  }

  ghost predicate AllAssigned(t: HuffTbl, s: seq<nat>, n: nat, d: CDerived)
    requires WellTyped(t) && CodeLengths(s) && n <= |s| <= 256
  {
    && |d.ehufco| == |d.ehufsi| == 256
    && forall x :: 0 <= x < 256 ==> Assigned(t, s, n, x, d.ehufco[x], d.ehufsi[x])
  }

  lemma AssignStep(t: HuffTbl, s: seq<nat>, n: nat, d: CDerived)
    requires WellTyped(t) && CodeLengths(s) && n < |s| <= 256 && AllAssigned(t, s, n, d)
    requires d.ehufsi[t.huffval[n]] == 0
    ensures AllAssigned(t, s, n + 1,
                        CDerived(d.ehufco[t.huffval[n] := Code(s, n)], d.ehufsi[t.huffval[n] := s[n]]))
  {
    var i := t.huffval[n];
    assert Assigned(t, s, n, i, d.ehufco[i], d.ehufsi[i]);
    assert IndexOf(t.huffval, n, i) == n;
    forall x | 0 <= x < 256 && x != i
      ensures Assigned(t, s, n + 1, x, d.ehufco[x], d.ehufsi[x])
    {
      assert Assigned(t, s, n, x, d.ehufco[x], d.ehufsi[x]);
    }
  }

  ghost predicate DistinctTo(v: seq<Byte>, n: nat)
    requires n <= |v|
  {
    forall q, q' :: 0 <= q < q' < n ==> v[q] != v[q']
  }

  /** A symbol already has a length exactly if it occurred before. */
  lemma SeenBefore(t: HuffTbl, s: seq<nat>, n: nat, d: CDerived)
    requires WellTyped(t) && CodeLengths(s) && n < |s| <= 256 && AllAssigned(t, s, n, d)
    requires DistinctTo(t.huffval, n)
    ensures d.ehufsi[t.huffval[n]] == 0 <==> DistinctTo(t.huffval, n + 1)
  {
    var i := t.huffval[n];
    assert Assigned(t, s, n, i, d.ehufco[i], d.ehufsi[i]);
  }

  /** Figure C.3: assign the codes to the symbols; fails on a bad or repeated symbol. */
  method AssignCodes(t: HuffTbl, huffcode: seq<nat>, huffsize: seq<nat>, isDC: bool) returns (r: Option<CDerived>)
    requires Accepted(t) && huffsize == AllSizes(t) && |huffcode| == |huffsize|
    requires forall p {:trigger huffcode[p]} :: 0 <= p < |huffsize| ==> huffcode[p] == Code(huffsize, p)
    ensures r.Some? <==> SymbolsOk(t, isDC)
    ensures r.Some? ==> Encodes(r.value, t)
  {
    hide AllSizes, Codeword, Legal, Code, ToBits;
    var d := CDerived(seq(256, _ => 0), seq(256, _ => 0));
    var maxsymbol := if isDC then 15 else 255;
    var p := 0;
    while p < |huffsize|
      invariant 0 <= p <= |huffsize|
      invariant forall q :: 0 <= q < p ==> t.huffval[q] <= maxsymbol
      invariant DistinctTo(t.huffval, p)
      invariant AllAssigned(t, huffsize, p, d)
    {
      var i := t.huffval[p];
      SeenBefore(t, huffsize, p, d);
      if i > maxsymbol || d.ehufsi[i] != 0 {
        return None;
      }
      AssignStep(t, huffsize, p, d);
      d := CDerived(d.ehufco[i := huffcode[p]], d.ehufsi[i := huffsize[p]]);
      p := p + 1;
    }
    r := Some(d);
    AssignedEncodes(t, d);
  }

  lemma AssignedEncodes(t: HuffTbl, d: CDerived)
    requires Accepted(t) && AllAssigned(t, AllSizes(t), |AllSizes(t)|, d)
    ensures Encodes(d, t)
  {
    forall x | 0 <= x < 256
      ensures ToBits(d.ehufco[x], d.ehufsi[x]) == Codeword(t, x)
    {
      assert Assigned(t, AllSizes(t), |AllSizes(t)|, x, d.ehufco[x], d.ehufsi[x]);
    }
  }

  /** d holds the codewords of t. */
  ghost predicate Encodes(d: CDerived, t: HuffTbl)
    requires Accepted(t)
  {
    && |d.ehufco| == |d.ehufsi| == 256
    && forall x :: 0 <= x < 256 ==> ToBits(d.ehufco[x], d.ehufsi[x]) == Codeword(t, x)
  }

  method MakeCDerived(t: HuffTbl, isDC: bool) returns (r: Option<CDerived>)
    requires WellTyped(t)
    ensures r.Some? <==> Accepted(t) && SymbolsOk(t, isDC)
    ensures r.Some? ==> Encodes(r.value, t)
  {
    var huffsize, ok := CodeSizes(t);
    if !ok {
      return None;
    }
    var huffcode;
    huffcode, ok := GenerateCodes(huffsize);
    if !ok {
      return None;
    }
    r := AssignCodes(t, huffcode, huffsize, isDC);
  }

  /** Number of codes of at most l bits. */
  function CodesTo(t: HuffTbl, l: nat): (n: nat)
    requires WellTyped(t) && l <= 16
  {
    |Sizes(t.bits, l)|
  }

  lemma CodesOfOneLength(t: HuffTbl, l: nat)
    requires WellTyped(t) && 1 <= l <= 16
    ensures CodesTo(t, l) == CodesTo(t, l - 1) + t.bits[l] <= |AllSizes(t)|
    ensures forall p :: CodesTo(t, l - 1) <= p < CodesTo(t, l) ==> AllSizes(t)[p] == l
    ensures forall p :: 0 <= p < CodesTo(t, l) ==> AllSizes(t)[p] <= l
    ensures forall p :: CodesTo(t, l) <= p < |AllSizes(t)| ==> AllSizes(t)[p] > l
  {
    SizesPrefix(t.bits, l, 16);
    SizesPrefix(t.bits, l - 1, 16);
  }

  /** Figure F.15: the entries for length l. */
  ghost predicate MaxEntry(t: HuffTbl, l: nat, maxcode: int, valoffset: int)
    requires WellTyped(t) && 1 <= l <= 16
  {
    var s, first, behind := AllSizes(t), CodesTo(t, l - 1), CodesTo(t, l);
    if first < behind <= |s| then maxcode == Code(s, behind - 1) && valoffset == first - Code(s, first)
    else maxcode == -1
  }

  /** The lookahead entry for the 8 bits look. */
  ghost predicate LookEntry(t: HuffTbl, look: nat, nbits: nat, sym: Byte)
    requires Accepted(t)
  {
    var s := AllSizes(t);
    var p := Locate(s, look * 256, 0);
    if p < |s| && s[p] <= 8 then nbits == s[p] && sym == t.huffval[p] else nbits == 0
  }

  /** d holds the decoding tables of t. */
  ghost predicate Decodes(d: DDerived, t: HuffTbl)
    requires Accepted(t)
  {
    && |d.maxcode| == 18 && |d.valoffset| == 17 && |d.lookNbits| == |d.lookSym| == 256
    && (forall l :: 1 <= l <= 16 ==> MaxEntry(t, l, d.maxcode[l], d.valoffset[l]))
    && d.maxcode[17] == 0xFFFFF
    && forall look :: 0 <= look < 256 ==> LookEntry(t, look, d.lookNbits[look], d.lookSym[look])
  }

  /** huffcode holds the codes of t. */
  ghost predicate CodesOf(t: HuffTbl, huffcode: seq<nat>)
    requires WellTyped(t)
  {
    && |huffcode| == |AllSizes(t)|
    && forall p {:trigger huffcode[p]} :: 0 <= p < |huffcode| ==> huffcode[p] == Code(AllSizes(t), p)
  }

  lemma MaxEntryHolds(t: HuffTbl, huffcode: seq<nat>, l: nat, first: nat, n: nat)
    requires WellTyped(t) && CodesOf(t, huffcode) && 1 <= l <= 16
    requires first == CodesTo(t, l - 1) && n == t.bits[l]
    ensures first + n == CodesTo(t, l) <= |huffcode|
    ensures n == 0 ==> forall v :: MaxEntry(t, l, -1, v)
    ensures n > 0 ==> MaxEntry(t, l, huffcode[first + n - 1], first - huffcode[first])
  {
    CodesOfOneLength(t, l);
  }

  ghost predicate MaxEntries(t: HuffTbl, maxcode: seq<int>, valoffset: seq<int>, l: nat)
    requires WellTyped(t) && l <= 17 && l <= |maxcode| && l <= |valoffset|
  {
    forall k :: 1 <= k < l ==> MaxEntry(t, k, maxcode[k], valoffset[k])
  }

  lemma AppendEntry(t: HuffTbl, maxcode: seq<int>, valoffset: seq<int>, l: nat, m: int, v: int)
    requires WellTyped(t) && 1 <= l <= 16 && |maxcode| == |valoffset| == l
    requires MaxEntries(t, maxcode, valoffset, l) && MaxEntry(t, l, m, v)
    ensures MaxEntries(t, maxcode + [m], valoffset + [v], l + 1)
  {
    var mc, vo := maxcode + [m], valoffset + [v];
    forall k | 1 <= k < l + 1
      ensures MaxEntry(t, k, mc[k], vo[k])
    {
      if k < l {
        assert mc[k] == maxcode[k] && vo[k] == valoffset[k];
      }
    }
  }

  /** The largest code of each length, and where its symbols are. */
  method MaxCodes(t: HuffTbl, huffcode: seq<nat>) returns (maxcode: seq<int>, valoffset: seq<int>)
    requires Accepted(t) && CodesOf(t, huffcode)
    ensures |maxcode| == 18 && |valoffset| == 17 && maxcode[17] == 0xFFFFF
    ensures forall l :: 1 <= l <= 16 ==> MaxEntry(t, l, maxcode[l], valoffset[l])
  {
    maxcode, valoffset := [0], [0];
    var p: nat, l: nat := 0, 1;
    while l <= 16
      invariant 1 <= l <= 17 && p == CodesTo(t, l - 1)
      invariant |maxcode| == |valoffset| == l
      invariant MaxEntries(t, maxcode, valoffset, l)
    {
      var n := t.bits[l];
      MaxEntryHolds(t, huffcode, l, p, n);
      var m: int, v: int := -1, 0;
      if n != 0 {
        v := p - huffcode[p];
        p := p + n;
        m := huffcode[p - 1];
      }
      AppendEntry(t, maxcode, valoffset, l, m, v);
      maxcode, valoffset := maxcode + [m], valoffset + [v];
      l := l + 1;
    }
    ghost var mc := maxcode;
    maxcode := maxcode + [0xFFFFF];
    assert forall k :: 1 <= k <= 16 ==> maxcode[k] == mc[k];
  }

  /** The entries covered by the first p codes are set, all others are 0. */
  ghost predicate LookFilled(t: HuffTbl, bound: nat, nbits: seq<nat>, syms: seq<Byte>)
    requires Accepted(t)
  {
    && |nbits| == |syms| == 256
    && (forall look :: 0 <= look < bound && look < 256 ==> LookEntry(t, look, nbits[look], syms[look]))
    && forall look :: bound <= look < 256 ==> nbits[look] == 0
  }

  /** The codes of at most 8 bits fill the lookahead table from the start, without gaps. */
  lemma LookRange(s: seq<nat>, p: nat) returns (n: nat)
    requires CodeLengths(s) && Legal(s) && p < |s| && s[p] <= 8
    ensures n == Pow2(8 - s[p]) > 0
    ensures Code(s, p) * n * 256 == Start(s, p) && (Code(s, p) * n + n) * 256 == Start(s, p + 1)
    ensures Code(s, p) * n + n <= 256
  {
    n := Pow2(8 - s[p]);
    CodeScaled(s, p);
    Pow2Add(8 - s[p], 8);
    Pow2Small();
    MulAssoc(Code(s, p), n, 256);
    MulDistrib(Code(s, p) * n, n, 256);
    MulDistrib(Code(s, p), 1, Pow2(16 - s[p]));
    CodeFits(s, p);
  }

  /** Fill the entries of one code; their number is that of the bit patterns behind it. */
  method FillCode(t: HuffTbl, p: nat, l: nat, start: nat, nb: seq<nat>, sy: seq<Byte>)
    returns (bound: nat, nbits: seq<nat>, syms: seq<Byte>)
    requires Accepted(t) && p < |AllSizes(t)| && l == AllSizes(t)[p] <= 8
    requires FilledTo(t, p, start, nb, sy)
    ensures FilledTo(t, p + 1, bound, nbits, syms)
  {
    ghost var s := AllSizes(t);
    ghost var n := LookRange(s, p);
    bound, nbits, syms := start, nb, sy;
    var ctr := Pow2(8 - l);
    while ctr > 0
      invariant 0 <= ctr <= n && bound + ctr == start + n
      invariant LookFilled(t, bound, nbits, syms)
    {
      LocateIs(s, bound * 256, 0, p);
      nbits := nbits[bound := l];
      syms := syms[bound := t.huffval[p]];
      bound := bound + 1;
      ctr := ctr - 1;
    }
  }

  /** The entries of all codes of l bits. */
  method FillLength(t: HuffTbl, huffcode: seq<nat>, l: nat, nb: seq<nat>, sy: seq<Byte>, ghost start: nat)
    returns (nbits: seq<nat>, syms: seq<Byte>, ghost bound: nat)
    requires Accepted(t) && CodesOf(t, huffcode) && 1 <= l <= 8
    requires FilledTo(t, CodesTo(t, l - 1), start, nb, sy)
    ensures FilledTo(t, CodesTo(t, l), bound, nbits, syms)
  {
    nbits, syms, bound := nb, sy, start;
    CodesOfOneLength(t, l);
    var i: nat, p: nat := 1, CodesTo(t, l - 1);
    while i <= t.bits[l]
      invariant 0 <= i - 1 <= t.bits[l] && p == CodesTo(t, l - 1) + i - 1
      invariant FilledTo(t, p, bound, nbits, syms)
    {
      LookStart(t, huffcode, p, l, bound);
      var lookbits := huffcode[p] * Pow2(8 - l);
      bound, nbits, syms := FillCode(t, p, l, lookbits, nbits, syms);
      i := i + 1;
      p := p + 1;
    }
  }

  /** The entries of the first p codes are set, up to bound. */
  ghost predicate FilledTo(t: HuffTbl, p: nat, bound: nat, nbits: seq<nat>, syms: seq<Byte>)
    requires Accepted(t)
  {
    p <= |AllSizes(t)| && LookFilled(t, bound, nbits, syms) && bound * 256 == Start(AllSizes(t), p)
  }

  lemma LookStart(t: HuffTbl, huffcode: seq<nat>, p: nat, l: nat, bound: nat)
    requires Accepted(t) && CodesOf(t, huffcode) && 1 <= l <= 8
    requires CodesTo(t, l - 1) <= p < CodesTo(t, l - 1) + t.bits[l]
    requires p <= |AllSizes(t)| && bound * 256 == Start(AllSizes(t), p)
    ensures p < |huffcode| && AllSizes(t)[p] == l
    ensures huffcode[p] * Pow2(8 - l) == bound
  {
    CodesOfOneLength(t, l);
    var n := LookRange(AllSizes(t), p);
  }

  /** The lookahead tables. */
  method Lookahead(t: HuffTbl, huffcode: seq<nat>) returns (nbits: seq<nat>, syms: seq<Byte>)
    requires Accepted(t) && CodesOf(t, huffcode)
    ensures |nbits| == |syms| == 256
    ensures forall look :: 0 <= look < 256 ==> LookEntry(t, look, nbits[look], syms[look])
  {
    nbits, syms := seq(256, _ => 0), seq(256, _ => 0);
    ghost var bound: nat := 0;
    var l := 1;
    while l <= 8
      invariant 1 <= l <= 9
      invariant FilledTo(t, CodesTo(t, l - 1), bound, nbits, syms)
    {
      nbits, syms, bound := FillLength(t, huffcode, l, nbits, syms, bound);
      l := l + 1;
    }
    LookComplete(t, bound, nbits, syms);
  }

  lemma LookComplete(t: HuffTbl, bound: nat, nbits: seq<nat>, syms: seq<Byte>)
    requires Accepted(t) && FilledTo(t, CodesTo(t, 8), bound, nbits, syms)
    ensures forall look :: 0 <= look < 256 ==> LookEntry(t, look, nbits[look], syms[look])
  {
    forall look | bound <= look < 256
      ensures LookEntry(t, look, nbits[look], syms[look])
    {
      LookBeyond(t, look, syms[look]);
    }
  }

  lemma LookBeyond(t: HuffTbl, look: nat, sym: Byte)
    requires Accepted(t)
    requires CodesTo(t, 8) <= |AllSizes(t)| && Start(AllSizes(t), CodesTo(t, 8)) <= look * 256
    ensures LookEntry(t, look, 0, sym)
  {
    CodesOfOneLength(t, 8);
    LocateBeyond(AllSizes(t), look * 256, CodesTo(t, 8));
  }

  /** A number behind the first p intervals is not located among them. */
  lemma LocateBeyond(s: seq<nat>, x: nat, p: nat)
    requires CodeLengths(s) && p <= |s| && Start(s, p) <= x
    ensures Locate(s, x, 0) >= p
  {
    var q := Locate(s, x, 0);
    if q < p {
      StartMono(s, q + 1, p);
    }
  }

  method MakeDDerived(t: HuffTbl, isDC: bool) returns (r: Option<DDerived>)
    requires WellTyped(t)
    ensures r.Some? <==> Accepted(t) && (isDC ==> DCSymbols(t))
    ensures r.Some? ==> Decodes(r.value, t)
  {
    var huffsize, ok := CodeSizes(t);
    if !ok {
      return None;
    }
    var huffcode;
    huffcode, ok := GenerateCodes(huffsize);
    if !ok {
      return None;
    }
    var maxcode, valoffset := MaxCodes(t, huffcode);
    var nbits, syms := Lookahead(t, huffcode);
    if isDC {
      var i := 0;
      while i < |huffsize|
        invariant 0 <= i <= |huffsize|
        invariant forall p :: 0 <= p < i ==> t.huffval[p] <= 15
      {
        if t.huffval[i] > 15 {
          return None;
        }
        i := i + 1;
      }
    }
    r := Some(DDerived(maxcode, valoffset, nbits, syms));
  }
}
