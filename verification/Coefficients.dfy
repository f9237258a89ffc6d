/** Magnitude categories and point transforms of DCT coefficients
    (sections F.1.2.1, F.1.2.2 and G.1.2 of ITU-T T.81). */
module Coefficients {
  import opened BitSeq

  /** Number of bits of the magnitude v. */
  function NBits(v: nat): (n: nat)
    ensures n == 0 <==> v == 0
    ensures v < Pow2(n)
    ensures n > 0 ==> Pow2(n - 1) <= v
  {
    if v == 0 then 0 else 1 + NBits(v / 2)
  }

  function Abs(v: int): nat {
    if v < 0 then -v else v
  }

  /** The appended bits of a value: itself if positive, the complement of its magnitude if negative. */
  function ValueBits(v: int): (b: Bits)
    ensures |b| == NBits(Abs(v))
  {
    var n := NBits(Abs(v));
    ToBits(if v >= 0 then v else v - 1 + Pow2(n), n)
  }

  /** A magnitude of at most n bits is below 2^n. */
  lemma NBitsBelow(v: nat, n: nat)
    ensures NBits(v) <= n <==> v < Pow2(n)
  {
    if NBits(v) <= n {
      Pow2Mono(NBits(v), n);
    } else {
      Pow2Mono(n, NBits(v) - 1);
    }
  }

  /** The appended bits of a positive value are its binary digits, the first one being a one; those of its negative are their
      complements (tables F.1 and F.2 of ITU-T T.81). */
  lemma ValueBitsAre(v: int, k: nat)
    requires v > 0 && k < |ValueBits(v)|
    ensures |ValueBits(v)| == |ValueBits(-v)| > 0 && Val(ValueBits(v)) == v && ValueBits(v)[0]
    ensures ValueBits(-v)[k] == !ValueBits(v)[k]
  {
    var n := NBits(v);
    ValToBits(v, n);
    DivModUnique(v, 0, Pow2(n), v);
    FirstBit(v, n);
    Complement(v, n, k);
  }

  lemma {:induction false} FirstBit(v: nat, n: nat)
    requires n > 0 && Pow2(n - 1) <= v < Pow2(n)
    ensures ToBits(v, n)[0]
    decreases n
  {
    if n > 1 {
      FirstBit(v / 2, n - 1);
    } else {
      assert Pow2(0) == 1 && Pow2(1) == 2;
    }
  }

  /** The binary digits of 2^n - 1 - v are the complements of those of v. */
  lemma {:induction false} Complement(v: nat, n: nat, k: nat)
    requires v < Pow2(n) && k < n
    ensures ToBits(Pow2(n) - 1 - v, n)[k] == !ToBits(v, n)[k]
    decreases n
  {
    var w := Pow2(n) - 1 - v;
    assert Pow2(n) == 2 * Pow2(n - 1);
    assert w / 2 == Pow2(n - 1) - 1 - v / 2 && w % 2 == 1 - v % 2;
    if k < n - 1 {
      Complement(v / 2, n - 1, k);
    }
  }

  /** An int seen as a 32-bit unsigned number. */
  function Unsigned(v: int): nat {
    v % 0x1_0000_0000
  }

  lemma MaskNegative(m: nat, p: nat, c: nat)
    requires 0 < m < p && c * p == 0x1_0000_0000
    ensures (0x1_0000_0000 - 1 - m) % p == p - 1 - m
  {
    MulDistrib(c - 1, 1, p);
    DivModUnique(0x1_0000_0000 - 1 - m, c - 1, p, p - 1 - m);
  }

  lemma MaskedBits(u: nat, x: nat, n: nat)
    requires u % Pow2(n) == x
    ensures ToBits(u, n) == ToBits(x, n)
  {
    ToBitsMod(u, n);
  }

  lemma MaskedNegative(v: int, n: nat)
    requires v < 0 && n <= 16 && -v < Pow2(n)
    ensures ToBits(Unsigned(v - 1), n) == ToBits(v - 1 + Pow2(n), n)
  {
    hide ToBits;
    assert Pow2(n) <= 65536 && Pow2(32 - n) * Pow2(n) == 0x1_0000_0000 by {
      Pow2Mono(n, 16);
      Pow2Add(32 - n, n);
      Pow2Small();
    }
    MaskNegative(-v, Pow2(n), Pow2(32 - n));
    MaskedBits(0x1_0000_0000 - 1 + v, Pow2(n) - 1 + v, n);
  }

  lemma SmallUnsigned(v: nat, n: nat)
    requires n <= 16 && v < Pow2(n)
    ensures Unsigned(v) == v
  {
    Pow2Mono(n, 16);
    Pow2Small();
  }

  /** Emitting v, or v - 1 if negative, masked to n bits, emits the appended bits. */
  lemma ValueBitsMasked(v: int, n: nat)
    requires n == NBits(Abs(v)) <= 16
    ensures v < 0 ==> ToBits(Unsigned(v - 1), n) == ValueBits(v)
    ensures v >= 0 ==> ToBits(Unsigned(v), n) == ValueBits(v)
  {
    if v < 0 {
      MaskedNegative(v, n);
    } else {
      SmallUnsigned(v, n);
    }
  }

  /** Figure F.12: extend the sign bit of an s-bit value. */
  function Extend(r: nat, s: nat): int
    requires s > 0
  {
    if r < Pow2(s - 1) then r - Pow2(s) + 1 else r
  }

  lemma ExtendValueBits(v: int)
    requires v != 0
    ensures Extend(Val(ValueBits(v)), NBits(Abs(v))) == v
  {
    hide NBits, ToBits, Val;
    var n := NBits(Abs(v));
    var x := if v >= 0 then v else v - 1 + Pow2(n);
    assert x < Pow2(n);
    ValToBits(x, n);
    DivModUnique(x, 0, Pow2(n), x);
    assert Pow2(n) == 2 * Pow2(n - 1);
  }

  /** Arithmetic shift right (the point transform of DC coefficients). */
  function Asr(v: int, n: nat): int
    decreases n
  {
    if n == 0 then v else Asr(v / 2, n - 1)
  }

  /** Division by 2^n rounding towards zero (the point transform of AC coefficients). */
  function TowardZero(v: int, n: nat): int {
    if v < 0 then 0 - Shr(-v, n) else Shr(v, n)
  }

  /** Assignment to a JCOEF, a 16-bit short. */
  function ToShort(v: int): (s: int)
    ensures -32768 <= s < 32768
    ensures -32768 <= v < 32768 ==> s == v
  {
    (v + 32768) % 65536 - 32768
  }

  /** What is left of a DC coefficient that was sent down to bit al. */
  function DcSent(v: int, al: nat): int {
    Asr(v, al) * Pow2(al)
  }

  /** What is left of an AC coefficient that was sent down to bit al. */
  function AcSent(v: int, al: nat): int {
    TowardZero(v, al) * Pow2(al)
  }

  lemma {:induction false} AsrBounds(v: int, n: nat)
    ensures Asr(v, n) * Pow2(n) <= v < Asr(v, n) * Pow2(n) + Pow2(n)
    decreases n
  {
    if n > 0 {
      AsrBounds(v / 2, n - 1);
      MulDouble(Asr(v, n), Pow2(n - 1));
    } else {
      assert Pow2(0) == 1;
    }
  }

  lemma MulMonoInt(a: int, b: int, p: nat)
    requires a <= b
    ensures a * p <= b * p
  {
    assert b * p == a * p + (b - a) * p;
  }

  lemma ProductAbove(q: int, p: int, m: int)
    requires p > 0 && q * p + p > m * p
    ensures q * p >= m * p
  {
    if q < m {
      MulMonoInt(q, m - 1, p);
      MulDistrib(m, -1, p);
      assert false;
    }
    MulMonoInt(m, q, p);
  }

  lemma DcSentInRange(v: int, al: nat)
    requires -32768 <= v < 32768 && al <= 15
    ensures -32768 <= DcSent(v, al) <= v
  {
    hide Asr, Pow2;
    AsrBounds(v, al);
    assert Pow2(15 - al) * Pow2(al) == 32768 by {
      Pow2Add(15 - al, al);
      Pow2Small();
    }
    var m: int := Pow2(15 - al);
    NegProduct(m, Pow2(al));
    ProductAbove(Asr(v, al), Pow2(al), -m);
  }

  lemma NegProduct(q: int, p: int)
    ensures (-q) * p == -(q * p)
  {
  }

  lemma AcSentInRange(v: int, al: nat)
    ensures Abs(AcSent(v, al)) <= Abs(v)
    ensures v >= 0 ==> AcSent(v, al) >= 0
    ensures v <= 0 ==> AcSent(v, al) <= 0
    ensures AcSent(v, al) == if v < 0 then 0 - Shr(-v, al) * Pow2(al) else Shr(v, al) * Pow2(al)
    ensures TowardZero(v, al) == 0 <==> AcSent(v, al) == 0
  {
    hide Shr, Pow2;
    ShrBounds(Abs(v), al);
    NegProduct(Shr(Abs(v), al), Pow2(al));
    if Shr(Abs(v), al) > 0 {
      MulMono(1, Shr(Abs(v), al), Pow2(al));
    }
  }

  lemma SentAtZero(v: int)
    ensures DcSent(v, 0) == v && AcSent(v, 0) == v
  {
    assert Pow2(0) == 1;
  }
}
