/** emit_bits and flush_bits: the 24-bit left-justified accumulator of the
    entropy encoders (jchuff.c, jcphuff.c). INT32 values are held as their
    32-bit patterns; a left shift drops what leaves the 32 bits. */
module BitWriter {
  import opened BitSeq
  import opened ByteStream

  const INT32_RANGE: nat := 0x1_0000_0000
  const LOW: nat := 0x100_0000  // only the low 24 bits of the accumulator are used

  /** Bitwise or. */
  function BitOr(x: nat, y: nat): nat
    decreases x + y
  {
    if x == 0 && y == 0 then 0
    else 2 * BitOr(x / 2, y / 2) + (if x % 2 == 1 || y % 2 == 1 then 1 else 0)
  }

  datatype PutState = PutState(putBuffer: nat, putBits: nat)

  const EMPTY := PutState(0, 0)

  /** out is base followed by the stuffed whole bytes of b, and s holds the bits still missing. */
  ghost predicate Holds(s: PutState, out: seq<Byte>, base: seq<Byte>, b: Bits) {
    && out == base + Stuff(Pack(b))
    && Buffered(s, Leftover(b))
  }

  /** s holds exactly the bits rem, left-justified in the low 24 bits. */
  ghost predicate Buffered(s: PutState, rem: Bits) {
    && s.putBits == |rem| <= 24
    && s.putBuffer < INT32_RANGE
    && s.putBuffer % LOW == Val(rem) * Pow2(24 - |rem|)
  }

  lemma {:induction false} BitOrZero(y: nat)
    ensures BitOr(0, y) == y
  {
    if y > 0 {
      BitOrZero(y / 2);
    }
  }

  /** Or-ing numbers whose bits do not overlap adds them. */
  lemma {:induction false} BitOrDisjoint(x: nat, h: nat, k: nat)
    requires x < Pow2(k)
    ensures BitOr(x, h * Pow2(k)) == x + h * Pow2(k)
  {
    if k == 0 {
      assert h * Pow2(0) == h;
      BitOrZero(h);
    } else {
      BitOrDisjoint(x / 2, h, k - 1);
      var y := h * Pow2(k - 1);
      MulDouble(h, Pow2(k - 1));
      assert h * Pow2(k) == 2 * y;
      assert 2 * y / 2 == y && 2 * y % 2 == 0;
    }
  }

  /** The low bits of a buffer that holds the value v above position k. */
  lemma SplitBuffer(x: nat, v: nat, p: nat, w: nat) returns (h: nat)
    requires p > 0 && w * p == LOW && x % LOW == v * p
    ensures x == h * p && h == x / LOW * w + v
  {
    var q := x / LOW;
    h := q * w + v;
    MulDistrib(q * w, v, p);
    MulAssoc(q, w, p);
  }

  lemma MergeBounds(v: nat, w: nat, m: nat, c: nat, d: nat)
    requires v < w && m < c
    ensures m * d < c * d || d == 0
    ensures v * (c * d) + m * d <= w * (c * d)
    ensures (v * c + m) * d == v * (c * d) + m * d
  {
    MulMono(m + 1, c, d);
    MulDistrib(m, 1, d);
    MulMono(v + 1, w, c * d);
    MulDistrib(v, 1, c * d);
    MulDistrib(v * c, m, d);
    MulAssoc(v, c, d);
  }

  lemma MergeInts(x: nat, v: nat, w: nat, m: nat, c: nat, d: nat, k: nat)
    requires x < INT32_RANGE && v < w && m < c && d > 0
    requires Pow2(k) == c * d && w * (c * d) == LOW
    requires x % LOW == v * (c * d)
    ensures m * d < LOW
    ensures BitOr(m * d, x) < INT32_RANGE && BitOr(m * d, x) % LOW == (v * c + m) * d
  {
    var p := c * d;
    var h := SplitBuffer(x, v, p, w);
    MergeBounds(v, w, m, c, d);
    BitOrDisjoint(m * d, h, k);
    MulMono(v + 1, w, p);
    MulDistrib(v, 1, p);
    MergeArith(x, v * p, m * d);
  }

  /** Merging the masked code into the buffer appends its bits. */
  lemma MergeCode(s: PutState, rem: Bits, m: nat, size: nat)
    requires Buffered(s, rem) && |rem| + size <= 24 && m < Pow2(size)
    ensures m * Pow2(24 - |rem| - size) < LOW
    ensures BitOr(m * Pow2(24 - |rem| - size), s.putBuffer) < INT32_RANGE
    ensures BitOr(m * Pow2(24 - |rem| - size), s.putBuffer) % LOW
            == (Val(rem) * Pow2(size) + m) * Pow2(24 - |rem| - size)
  {
    hide Val, BitOr;
    var k := 24 - |rem|;
    Pow2Add(size, k - size);
    Pow2Add(|rem|, k);
    Pow2Small();
    MergeInts(s.putBuffer, Val(rem), Pow2(|rem|), m, Pow2(size), Pow2(k - size), k);
  }

  lemma MergeArith(x: nat, r: nat, low: nat)
    requires x < INT32_RANGE && x % LOW == r && r + low < LOW
    ensures x + low < INT32_RANGE && (x + low) % LOW == r + low
  {
  }

  lemma TakeByteArith(x: nat, hi: nat, low: nat)
    requires x % LOW == hi * 65536 + low && hi < 256 && low < 65536
    ensures x / 65536 % 256 == hi
    ensures x * 256 % INT32_RANGE % LOW == low * 256
  {
    var q := x / LOW;
    DivModUnique(x, q * 256 + hi, 65536, low);
    DivModUnique(q * 256 + hi, q, 256, hi);
    DivModUnique(x * 256, q, INT32_RANGE, hi * LOW + low * 256);
    DivModUnique(hi * LOW + low * 256, hi, LOW, low * 256);
  }

  lemma SplitValue(hi: nat, lo: nat, c: nat, d: nat)
    requires lo < c && c * d == 65536
    ensures (hi * c + lo) * d == hi * 65536 + lo * d
    ensures lo * d < 65536
  {
    MulDistrib(hi * c, lo, d);
    MulAssoc(hi, c, d);
    MulMono(lo + 1, c, d);
    MulDistrib(lo, 1, d);
    assert d > 0;
  }

  /** Taking the top byte off a buffer that holds at least eight bits. */
  lemma TakeByte(s: PutState, rem: Bits)
    requires Buffered(s, rem) && |rem| >= 8
    ensures s.putBuffer / 65536 % 256 == Val(rem[..8])
    ensures Buffered(PutState(s.putBuffer * 256 % INT32_RANGE, s.putBits - 8), rem[8..])
  {
    hide Pow2, Val;
    Pow2Small();
    var hi, lo := rem[..8], rem[8..];
    var n := |rem|;
    assert rem == hi + lo;
    ValConcat(hi, lo);
    var d, c := Pow2(24 - n), Pow2(n - 8);
    Pow2Add(n - 8, 24 - n);
    SplitValue(Val(hi), Val(lo), c, d);
    TakeByteArith(s.putBuffer, Val(hi), Val(lo) * d);
    Pow2Add(24 - n, 8);
    MulAssoc(Val(lo), d, 256);
  }

  /** The masked, aligned and merged accumulator after size more bits of code. */
  method MergeBits(cur: PutState, code: nat, size: nat, ghost rem: Bits) returns (next: PutState)
    requires Buffered(cur, rem) && |rem| < 8 && 1 <= size <= 16
    ensures Buffered(next, rem + ToBits(code, size))
  {
    hide Pow2, ToBits, Val;
    var mask := Pow2(size);
    var putBuffer := code % mask;
    MergeCode(cur, rem, putBuffer, size);
    ValConcat(rem, ToBits(code, size));
    ValToBits(code, size);
    var putBits := cur.putBits + size;
    putBuffer := putBuffer * Pow2(24 - putBits);
    putBuffer := BitOr(putBuffer, cur.putBuffer);
    next := PutState(putBuffer, putBits);
  }

  function Stuffed(c: Byte): seq<Byte> {
    if c == 0xFF then [0xFF, 0] else [c]
  }

  lemma StuffCons(out: seq<Byte>, c: Byte, t: seq<Byte>)
    ensures out + Stuff([c] + t) == out + Stuffed(c) + Stuff(t)
  {
    var s := [c] + t;
    assert s[0] == c && s[1..] == t;
  }

  lemma DrainStep(out: seq<Byte>, r: Bits, c: Byte)
    requires |r| >= 8 && c == Val(r[..8])
    ensures out + Stuff(Pack(r)) == out + Stuffed(c) + Stuff(Pack(r[8..]))
    ensures Leftover(r[8..]) == Leftover(r)
  {
    assert Pack(r) == [c] + Pack(r[8..]);
    StuffCons(out, c, Pack(r[8..]));
  }

  /** Write out the whole bytes of the accumulator, stuffing a zero after each 0xFF. */
  method DrainBytes(cur: PutState, out: seq<Byte>, ghost rem: Bits) returns (next: PutState, out': seq<Byte>)
    requires Buffered(cur, rem)
    ensures out' == out + Stuff(Pack(rem))
    ensures Buffered(next, Leftover(rem))
  {
    ghost var r := rem;
    next := cur;
    out' := out;
    while next.putBits >= 8
      invariant Buffered(next, r)
      invariant out' + Stuff(Pack(r)) == out + Stuff(Pack(rem))
      invariant Leftover(r) == Leftover(rem)
      decreases next.putBits
    {
      TakeByte(next, r);
      var c := next.putBuffer / 65536 % 256;
      DrainStep(out', r, c);
      ghost var before := out';
      out' := out' + [c];
      if c == 0xFF {
        out' := out' + [0];
      }
      assert out' == before + Stuffed(c);
      next := PutState(next.putBuffer * 256 % INT32_RANGE, next.putBits - 8);
      r := r[8..];
    }
  }

  /** Emit the size low bits of code; base and b say what has been written of this segment before. */
  method EmitBits(cur: PutState, out: seq<Byte>, code: nat, size: nat, ghost base: seq<Byte>, ghost b: Bits)
    returns (next: PutState, out': seq<Byte>)
    requires Holds(cur, out, base, b)
    requires 1 <= size <= 16
    ensures Holds(next, out', base, b + ToBits(code, size))
  {
    ghost var c := ToBits(code, size);
    next := MergeBits(cur, code, size, Leftover(b));
    next, out' := DrainBytes(next, out, Leftover(b) + c);
    PackLeftover(b, c);
    StuffConcat(Pack(b), Pack(Leftover(b) + c));
    LeftoverConcat(b, c);
  }

  lemma LeftoverConcat(b: Bits, c: Bits)
    ensures Leftover(b + c) == Leftover(Leftover(b) + c)
  {
    var w := b[..|b| - |b| % 8];
    assert w + (Leftover(b) + c) == b + c;
  }

  /** Fill any partial byte with ones and empty the buffer: the segment is finished. */
  method FlushBits(cur: PutState, out: seq<Byte>, ghost base: seq<Byte>, ghost b: Bits)
    returns (next: PutState, out': seq<Byte>)
    requires Holds(cur, out, base, b)
    ensures out' == base + SegmentBytes(b)
    ensures Holds(next, out', out', [])
  {
    next, out' := EmitBits(cur, out, 0x7F, 7, base, b);
    assert ToBits(0x7F, 7) == Repeat(true, 7) by { SevenOnes(); }
    next := EMPTY;
    assert Stuff(Pack([])) == [];
  }

  lemma SevenOnes()
    ensures ToBits(0x7F, 7) == Repeat(true, 7)
  {
    assert ToBits(7, 3) == [true, true, true];
    assert ToBits(0x1F, 5) == ToBits(7, 3) + [true, true];
    assert ToBits(0x7F, 7) == ToBits(0x1F, 5) + [true, true];
  }
}
