/** HUFF_DECODE and jpeg_huff_decode (jdhuff.h, jdhuff.c): the table-driven
    decoder with its 8-bit lookahead refines the unique-codeword decoder. */
module HuffDecode {
  import opened BitSeq
  import opened ByteStream
  import opened BitStream
  import opened BitReader
  import opened HuffTable
  import opened DerivedTables

  const HUFF_LOOKAHEAD: nat := 8

  /** The first l of the bits b, as a number. */
  function Prefix(b: Bits, l: nat): (v: nat)
  {
    Val(ZeroExtended(b, l))
  }

  lemma PrefixSplit(b: Bits, l: nat, m: nat)
    requires l <= m
    ensures Prefix(b, m) == Prefix(b, l) * Pow2(m - l) + Val(ZeroExtended(b, m)[l..])
    ensures Val(ZeroExtended(b, m)[l..]) < Pow2(m - l)
  {
    var z := ZeroExtended(b, m);
    assert z[..l] == ZeroExtended(b, l);
    assert z == z[..l] + z[l..];
    ValConcat(z[..l], z[l..]);
  }

  lemma PrefixNext(b: Bits, l: nat)
    ensures Prefix(b, l + 1) == 2 * Prefix(b, l) + Prefix(b[if l <= |b| then l else |b|..], 1)
  {
    PrefixSplit(b, l, l + 1);
    var rest := b[if l <= |b| then l else |b|..];
    assert ZeroExtended(b, l + 1)[l..] == ZeroExtended(rest, 1);
    assert Pow2(1) == 2;
  }

  lemma DropDrop(st: Stream, l: nat, m: nat)
    ensures Drop(Drop(st, l), m) == Drop(st, l + m) || (l > |st.bits| && m == 0)
    ensures m > 0 ==> Drop(Drop(st, l), m) == Drop(st, l + m)
  {
    if l + m <= |st.bits| {
      assert st.bits[l..][m..] == st.bits[l + m..];
    }
  }

  /** Codes within one length are consecutive. */
  lemma {:induction false} CodesConsecutive(s: seq<nat>, p: nat, q: nat, l: nat)
    requires CodeLengths(s) && p <= q < |s|
    requires forall i :: p <= i <= q ==> s[i] == l
    ensures Code(s, q) == Code(s, p) + (q - p)
    decreases q - p
  {
    if p < q {
      CodesConsecutive(s, p, q - 1, l);
      assert Pow2(0) == 1;
      assert Code(s, q) == (Code(s, q - 1) + 1) * Pow2(s[q] - s[q - 1]);
    }
  }

  lemma ScaledOrder(code: nat, bound: nat, d: nat, r: nat)
    requires r < d
    ensures code * d + r < bound * d <==> code < bound
    ensures code * d + r >= bound * d <==> code >= bound
  {
    if code < bound {
      MulMono(code + 1, bound, d);
      MulDistrib(code, 1, d);
    } else {
      MulMono(bound, code, d);
    }
  }

  /** One comparison of the bit-serial decoder: the codes first..behind-1 have l bits. */
  lemma CompareMax(s: seq<nat>, first: nat, behind: nat, l: nat, x: nat, code: nat, r: nat)
    requires CodeLengths(s) && 1 <= l <= 16 && first < behind <= |s|
    requires forall i :: first <= i < behind ==> s[i] == l
    requires r < Pow2(16 - l) && x == code * Pow2(16 - l) + r
    requires Start(s, first) <= x
    ensures code > Code(s, behind - 1) <==> Start(s, behind) <= x
    ensures code >= Code(s, first)
  {
    var d := Pow2(16 - l);
    CodeScaled(s, behind - 1);
    ScaledOrder(code, Code(s, behind - 1) + 1, d, r);
    CodeScaled(s, first);
    ScaledOrder(code, Code(s, first), d, r);
  }

  lemma LocateCode(s: seq<nat>, first: nat, behind: nat, l: nat, x: nat, code: nat, r: nat)
    requires CodeLengths(s) && 1 <= l <= 16 && first < behind <= |s|
    requires forall i :: first <= i < behind ==> s[i] == l
    requires r < Pow2(16 - l) && x == code * Pow2(16 - l) + r
    requires Code(s, first) <= code <= Code(s, behind - 1)
    ensures first <= first + code - Code(s, first) < behind
    ensures Locate(s, x, 0) == first + code - Code(s, first)
  {
    CodesConsecutive(s, first, behind - 1, l);
    var p := first + code - Code(s, first);
    CodesConsecutive(s, first, p, l);
    CodeScaled(s, p);
    MulDistrib(code, 1, Pow2(16 - l));
    LocateIs(s, x, 0, p);
  }

  /** The bit-serial decoder has read l bits; no codeword shorter than l bits matches. */
  ghost predicate Searching(t: HuffTbl, st: Stream, l: nat, code: nat)
    requires Accepted(t)
  {
    && 1 <= l <= 17
    && code == Prefix(st.bits, l)
    && CodesTo(t, l - 1) <= |AllSizes(t)|
    && Start(AllSizes(t), CodesTo(t, l - 1)) <= Window(st)
  }

  /** What the comparison with maxcode[l] tells. */
  lemma SearchStep(t: HuffTbl, d: DDerived, st: Stream, l: nat, code: nat)
    requires Accepted(t) && Decodes(d, t) && Searching(t, st, l, code)
    ensures code > d.maxcode[l] ==>
      l <= 16 && CodesTo(t, l) <= |AllSizes(t)| && Start(AllSizes(t), CodesTo(t, l)) <= Window(st)
    ensures code <= d.maxcode[l] && l <= 16 ==>
      && 0 <= code + d.valoffset[l] < |AllSizes(t)| <= 256
      && Decode(t, st) == (t.huffval[code + d.valoffset[l]], Drop(st, l))
    ensures code <= d.maxcode[l] && l > 16 ==> Decode(t, st) == (0, Drop(st, 17))
  {
    if l <= 16 {
      assert MaxEntry(t, l, d.maxcode[l], d.valoffset[l]);
      CodesOfOneLength(t, l);
      PrefixSplit(st.bits, l, 16);
      var first, behind := CodesTo(t, l - 1), CodesTo(t, l);
      if first < behind {
        var r := Val(ZeroExtended(st.bits, 16)[l..]);
        CompareMax(AllSizes(t), first, behind, l, Window(st), code, r);
        if code <= d.maxcode[l] {
          LocateCode(AllSizes(t), first, behind, l, Window(st), code, r);
        }
      }
    } else {
      assert Pow2(17) == 131072 by { Pow2Small(); }
      LocateBeyond(AllSizes(t), Window(st), CodesTo(t, 16));
    }
  }

  lemma SearchNext(t: HuffTbl, st: Stream, l: nat, code: nat, bit: nat, st': Stream)
    requires Accepted(t) && Searching(t, st, l, code) && l <= 16
    requires CodesTo(t, l) <= |AllSizes(t)| && Start(AllSizes(t), CodesTo(t, l)) <= Window(st)
    requires (bit, st') == Take(Drop(st, l), 1)
    ensures Searching(t, st, l + 1, code * 2 + bit)
    ensures st' == Drop(st, l + 1)
  {
    PrefixNext(st.bits, l);
    DropDrop(st, l, 1);
    assert Drop(st, l).bits == st.bits[if l <= |st.bits| then l else |st.bits|..];
  }

  /** jpeg_huff_decode: fetch minBits bits in one swoop, then one bit at a time. */
  method SlowDecode(data: seq<Byte>, limit: nat, r: ReadState, ghost t: HuffTbl, huffval: seq<Byte>, d: DDerived,
                    minBits: nat)
    returns (sym: Byte, r': ReadState, ok: bool)
    requires Valid(data, r) && r.pos <= limit <= |data|
    requires Accepted(t) && huffval == t.huffval && Decodes(d, t) && 1 <= minBits <= 9
    requires Searching(t, View(data, r), minBits, Prefix(View(data, r).bits, minBits))
    ensures Shape(data, r') && r'.pos <= limit
    ensures Delivered(data, limit, r) ==> ok
    ensures !ok ==> r.unreadMarker == 0 && r'.unreadMarker == 0 && r'.insufficient == r.insufficient
    ensures r.unreadMarker != 0 ==> r'.unreadMarker != 0
    ensures ok ==> Valid(data, r') && (sym, View(data, r')) == Decode(t, View(data, r))
  {
    ghost var st := View(data, r);
    sym := 0;
    var l: nat, code: nat := minBits, 0;
    code, r', ok := GetBits(data, limit, r, l);
    if !ok {
      return;
    }
    while code > d.maxcode[l]
      invariant 1 <= l <= 17 && Valid(data, r') && r'.pos <= limit
      invariant Searching(t, st, l, code) && View(data, r') == Drop(st, l)
      invariant r.unreadMarker != 0 ==> r'.unreadMarker != 0
      invariant r'.unreadMarker == 0 ==> r'.insufficient == r.insufficient
      decreases 17 - l
    {
      SearchStep(t, d, st, l, code);
      var bit: nat;
      bit, r', ok := GetBits(data, limit, r', 1);
      if !ok {
        return;
      }
      SearchNext(t, st, l, code, bit, View(data, r'));
      code := code * 2 + bit;
      l := l + 1;
    }
    SearchStep(t, d, st, l, code);
    if l <= 16 {
      sym := huffval[code + d.valoffset[l]];
    }
  }

  /** A lookahead hit is the codeword at the head of the stream; a miss means a longer code. */
  lemma LookaheadStep(t: HuffTbl, d: DDerived, st: Stream, look: nat)
    requires Accepted(t) && Decodes(d, t) && look == Prefix(st.bits, 8)
    ensures look < 256
    ensures d.lookNbits[look] != 0 ==>
      d.lookNbits[look] <= 8 && Decode(t, st) == (d.lookSym[look], Drop(st, d.lookNbits[look]))
    ensures d.lookNbits[look] == 0 ==> Searching(t, st, 9, Prefix(st.bits, 9))
  {
    Pow2Small();
    PrefixSplit(st.bits, 8, 16);
    assert LookEntry(t, look, d.lookNbits[look], d.lookSym[look]);
    LocateInBlock(t, look, Window(st));
  }

  /** Whether a code of at most 8 bits matches depends on the first 8 bits only. */
  lemma LocateInBlock(t: HuffTbl, look: nat, x: nat)
    requires Accepted(t) && look < 256 && look * 256 <= x < look * 256 + 256
    ensures var s, p := AllSizes(t), Locate(AllSizes(t), look * 256, 0);
      if p < |s| && s[p] <= 8 then Locate(s, x, 0) == p
      else CodesTo(t, 8) <= |s| && Start(s, CodesTo(t, 8)) <= x
  {
    var s, p := AllSizes(t), Locate(AllSizes(t), look * 256, 0);
    CodesOfOneLength(t, 8);
    if p < |s| && s[p] <= 8 {
      var n := LookRange(s, p);
      LocateIs(s, x, 0, p);
    } else {
      StartMono(s, CodesTo(t, 8), p);
    }
  }

  /** HUFF_DECODE: by table if 8 bits are at hand and the code is short, else bit by bit. */
  method DecodeSymbol(data: seq<Byte>, limit: nat, r: ReadState, ghost t: HuffTbl, huffval: seq<Byte>, d: DDerived)
    returns (sym: Byte, r': ReadState, ok: bool)
    requires Valid(data, r) && r.pos <= limit <= |data|
    requires Accepted(t) && huffval == t.huffval && Decodes(d, t)
    ensures Shape(data, r') && r'.pos <= limit
    ensures Delivered(data, limit, r) ==> ok
    ensures !ok ==> r.unreadMarker == 0 && r'.unreadMarker == 0 && r'.insufficient == r.insufficient
    ensures r.unreadMarker != 0 ==> r'.unreadMarker != 0
    ensures ok ==> Valid(data, r') && (sym, View(data, r')) == Decode(t, View(data, r))
  {
    sym, r', ok := 0, r, true;
    if r.bitsLeft < HUFF_LOOKAHEAD {
      r', ok := FillBitBuffer(data, limit, r, 0);
      if !ok {
        return;
      }
      if r'.bitsLeft < HUFF_LOOKAHEAD {
        SearchStart(t, View(data, r));
        sym, r', ok := SlowDecode(data, limit, r', t, huffval, d, 1);
        return;
      }
    }
    ghost var st := View(data, r);
    var look, _ := ShiftOut(r', HUFF_LOOKAHEAD);
    TakeBuffered(data, r', HUFF_LOOKAHEAD);
    LookaheadStep(t, d, st, look);
    var nb := d.lookNbits[look];
    if nb != 0 {
      TakeBuffered(data, r', nb);
      r' := r'.(bitsLeft := r'.bitsLeft - nb);
      sym := d.lookSym[look];
    } else {
      sym, r', ok := SlowDecode(data, limit, r', t, huffval, d, HUFF_LOOKAHEAD + 1);
    }
  }

  lemma SearchStart(t: HuffTbl, st: Stream)
    requires Accepted(t)
    ensures Searching(t, st, 1, Prefix(st.bits, 1))
  {
  }
}
