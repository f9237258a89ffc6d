/** Bit strings, most significant bit first, and the numbers they denote.
    Shifts of the C sources are multiplications and divisions by Pow2. */
module BitSeq {
  type Bits = seq<bool>

  function Pow2(n: nat): (p: nat)
    ensures p > 0
  {
    if n == 0 then 1 else 2 * Pow2(n - 1)
  }

  function BitVal(b: bool): nat {
    if b then 1 else 0
  }

  /** The number written by b. */
  function Val(b: Bits): (v: nat)
    ensures v < Pow2(|b|)
  {
    if |b| == 0 then 0 else 2 * Val(b[..|b| - 1]) + BitVal(b[|b| - 1])
  }

  /** The n low-order bits of v. */
  function ToBits(v: nat, n: nat): (b: Bits)
    ensures |b| == n
  {
    if n == 0 then [] else ToBits(v / 2, n - 1) + [v % 2 == 1]
  }

  /** v shifted right by n bits. */
  function Shr(v: nat, n: nat): nat {
    if n == 0 then v else Shr(v / 2, n - 1)
  }

  /** n copies of the bit x. */
  function Repeat(x: bool, n: nat): (b: Bits)
    ensures |b| == n
    ensures forall i :: 0 <= i < n ==> b[i] == x
  {
    seq(n, _ => x)
  }

  lemma {:induction false} Pow2Add(m: nat, n: nat)
    ensures Pow2(m + n) == Pow2(m) * Pow2(n)
  {
    if n > 0 {
      Pow2Add(m, n - 1);
      assert m + n - 1 == m + (n - 1);
      MulDouble(Pow2(m), Pow2(n - 1));
    }
  }

  lemma {:induction false} Pow2Mono(m: nat, n: nat)
    requires m <= n
    ensures Pow2(m) <= Pow2(n)
  {
    if m < n {
      Pow2Mono(m, n - 1);
    }
  }

  lemma Pow2Small()
    ensures Pow2(0) == 1 && Pow2(1) == 2 && Pow2(2) == 4 && Pow2(3) == 8 && Pow2(4) == 16
    ensures Pow2(5) == 32 && Pow2(6) == 64 && Pow2(7) == 128 && Pow2(8) == 256
    ensures Pow2(10) == 1024 && Pow2(11) == 2048
    ensures Pow2(15) == 32768 && Pow2(16) == 65536 && Pow2(24) == 0x100_0000 && Pow2(32) == 0x1_0000_0000
  {
    assert Pow2(4) == 16;
    assert Pow2(8) == 256 by { Pow2Add(4, 4); }
    assert Pow2(10) == 1024 by { assert Pow2(9) == 512; }
    assert Pow2(12) == 4096;
    assert Pow2(15) == 32768 by { assert Pow2(14) == 16384; }
    assert Pow2(16) == 65536;
    assert Pow2(24) == 0x100_0000 by { Pow2Add(8, 16); }
    assert Pow2(32) == 0x1_0000_0000 by { Pow2Add(16, 16); }
  }

  lemma MulMono(a: nat, b: nat, d: nat)
    requires a <= b
    ensures a * d <= b * d
  {
    assert b * d == a * d + (b - a) * d;
  }

  lemma MulDouble(a: int, b: int)
    ensures 2 * (a * b) == a * (2 * b)
  {
  }

  lemma MulDistrib(a: int, b: int, d: int)
    ensures (a + b) * d == a * d + b * d
  {
  }

  lemma MulAssoc(a: int, b: int, c: int)
    ensures a * b * c == a * (b * c)
  {
  }

  /** Quotient and remainder are unique. */
  lemma DivModUnique(v: nat, x: nat, d: nat, r: nat)
    requires r < d && v == x * d + r
    ensures v / d == x && v % d == r
  {
    var q, m := v / d, v % d;
    assert v == q * d + m;
    if q < x {
      MulMono(q + 1, x, d);
      MulDistrib(q, 1, d);
      assert false;
    }
    if x < q {
      MulMono(x + 1, q, d);
      MulDistrib(x, 1, d);
      assert false;
    }
  }

  lemma HalfMod(v: nat, p: nat)
    requires p > 0
    ensures v % (2 * p) == 2 * (v / 2 % p) + v % 2
    ensures v / (2 * p) == v / 2 / p
  {
    var q, r := v / 2 / p, v / 2 % p;
    assert v / 2 == q * p + r;
    MulDouble(q, p);
    DivModUnique(v, q, 2 * p, 2 * r + v % 2);
  }

  lemma {:induction false} ValConcat(a: Bits, b: Bits)
    ensures Val(a + b) == Val(a) * Pow2(|b|) + Val(b)
  {
    if |b| == 0 {
      assert a + b == a;
    } else {
      var c, last := b[..|b| - 1], BitVal(b[|b| - 1]);
      var ab := a + b;
      assert ab[..|ab| - 1] == a + c && ab[|ab| - 1] == b[|b| - 1];
      ValConcat(a, c);
      calc {
        Val(ab);
        2 * Val(a + c) + last;
        2 * (Val(a) * Pow2(|c|) + Val(c)) + last;
        { MulDouble(Val(a), Pow2(|c|)); }
        Val(a) * (2 * Pow2(|c|)) + (2 * Val(c) + last);
        Val(a) * Pow2(|b|) + Val(b);
      }
    }
  }

  lemma {:induction false} ValToBits(v: nat, n: nat)
    ensures Val(ToBits(v, n)) == v % Pow2(n)
  {
    if n > 0 {
      ValToBits(v / 2, n - 1);
      var b := ToBits(v, n);
      assert b[..n - 1] == ToBits(v / 2, n - 1);
      HalfMod(v, Pow2(n - 1));
    }
  }

  lemma {:induction false} ToBitsVal(b: Bits)
    ensures ToBits(Val(b), |b|) == b
  {
    if |b| > 0 {
      var c := b[..|b| - 1];
      ToBitsVal(c);
      assert Val(b) / 2 == Val(c);
      assert b == c + [b[|b| - 1]];
    }
  }

  lemma ConcatAssoc(x: Bits, y: Bits, z: Bits)
    ensures (x + y) + z == x + (y + z)
  {
  }

  lemma {:induction false} ShrBounds(v: nat, n: nat)
    ensures Shr(v, n) * Pow2(n) <= v < Shr(v, n) * Pow2(n) + Pow2(n)
  {
    if n > 0 {
      ShrBounds(v / 2, n - 1);
      MulDouble(Shr(v, n), Pow2(n - 1));
    } else {
      assert Pow2(0) == 1;
    }
  }

  lemma {:induction false} ToBitsConcat(v: nat, m: nat, n: nat)
    ensures ToBits(v, m + n) == ToBits(Shr(v, n), m) + ToBits(v, n)
  {
    if n == 0 {
      assert ToBits(v, m) == ToBits(v, m) + ToBits(v, 0);
    } else {
      ToBitsConcat(v / 2, m, n - 1);
      ConcatAssoc(ToBits(Shr(v, n), m), ToBits(v / 2, n - 1), [v % 2 == 1]);
    }
  }

  lemma {:induction false} ToBitsMod(v: nat, n: nat)
    ensures ToBits(v % Pow2(n), n) == ToBits(v, n)
  {
    ValToBits(v, n);
    ToBitsVal(ToBits(v, n));
  }

  lemma {:induction false} ValZeros(n: nat)
    ensures Val(Repeat(false, n)) == 0
  {
    if n > 0 {
      assert Repeat(false, n)[..n - 1] == Repeat(false, n - 1);
      ValZeros(n - 1);
    }
  }
}
