/** The byte format of an entropy-coded segment: whole bytes of a bit string,
    a zero byte stuffed after each 0xFF (section F.1.2.3 of ITU-T T.81), the last
    byte padded with ones, and a marker behind it. */
module ByteStream {
  import opened BitSeq

  type Byte = n: nat | n < 256

  /** The whole bytes of b; an incomplete last byte is not included. */
  function Pack(b: Bits): (s: seq<Byte>)
    ensures |s| == |b| / 8
  {
    if |b| < 8 then [] else
      Pow2Small();
      [Val(b[..8])] + Pack(b[8..])
  }

  /** The bits of an incomplete last byte. */
  function Leftover(b: Bits): (r: Bits)
    ensures |r| == |b| % 8
  {
    b[|b| - |b| % 8..]
  }

  function Unpack(s: seq<Byte>): (b: Bits)
    ensures |b| == 8 * |s|
  {
    if |s| == 0 then [] else ToBits(s[0], 8) + Unpack(s[1..])
  }

  function Stuff(s: seq<Byte>): seq<Byte> {
    if |s| == 0 then []
    else (if s[0] == 0xFF then [0xFF, 0] else [s[0]]) + Stuff(s[1..])
  }

  /** A finished segment: seven one bits are appended and what is then still incomplete is dropped. */
  function SegmentBytes(b: Bits): seq<Byte> {
    Stuff(Pack(b + Repeat(true, 7)))
  }

  /** What a segment starting at some position delivers: its data bits, the
      marker behind it (0 when the data ends first), and the position behind the marker. */
  datatype Segment = Segment(bits: Bits, marker: nat, next: nat)

  /** The first position from p on that does not hold 0xFF. */
  function SkipFF(data: seq<Byte>, p: nat): (q: nat)
    requires p <= |data|
    ensures p <= q <= |data|
    ensures q < |data| ==> data[q] != 0xFF
    ensures forall i :: p <= i < q ==> data[i] == 0xFF
    decreases |data| - p
  {
    if p < |data| && data[p] == 0xFF then SkipFF(data, p + 1) else p
  }

  function Scan(data: seq<Byte>, pos: nat): (s: Segment)
    requires pos <= |data|
    ensures s.marker < 256 && s.marker != 0xFF
    ensures pos <= s.next <= |data|
    ensures s.marker != 0 ==> pos + 2 <= s.next
    decreases |data| - pos
  {
    if pos == |data| then Segment([], 0, pos)
    else if data[pos] != 0xFF then
      var s := Scan(data, pos + 1);
      s.(bits := ToBits(data[pos], 8) + s.bits)
    else
      var q := SkipFF(data, pos + 1);
      if q == |data| then Segment([], 0, q)
      else if data[q] == 0 then
        var s := Scan(data, q + 1);
        s.(bits := ToBits(0xFF, 8) + s.bits)
      else Segment([], data[q], q + 1)
  }

  lemma {:induction false} UnpackPack(b: Bits)
    ensures Unpack(Pack(b)) == b[..|b| - |b| % 8]
  {
    if |b| >= 8 {
      UnpackPack(b[8..]);
      ToBitsVal(b[..8]);
      Pow2Small();
      var p := Pack(b);
      assert p[0] == Val(b[..8]) && p[1..] == Pack(b[8..]);
      assert b[..8] + b[8..][..|b[8..]| - |b[8..]| % 8] == b[..|b| - |b| % 8];
    }
  }

  /** Packing works bytewise: what is already packed stays as it is. */
  lemma {:induction false} PackConcat(a: Bits, b: Bits)
    requires |a| % 8 == 0
    ensures Pack(a + b) == Pack(a) + Pack(b)
  {
    hide Pow2, Val, Pack;
    if |a| == 0 {
      assert a + b == b;
      assert Pack(a) == [];
    } else {
      PackConcat(a[8..], b);
      assert (a + b)[..8] == a[..8] && (a + b)[8..] == a[8..] + b;
      PackStep(a);
      PackStep(a + b);
      AssocBytes([FirstByte(a)], Pack(a[8..]), Pack(b));
    }
  }

  function FirstByte(b: Bits): Byte
    requires |b| >= 8
  {
    Pow2Small();
    Val(b[..8])
  }

  lemma PackStep(b: Bits)
    requires |b| >= 8
    ensures Pack(b) == [FirstByte(b)] + Pack(b[8..])
  {
  }

  lemma PackLeftover(b: Bits, c: Bits)
    ensures Pack(b + c) == Pack(b) + Pack(Leftover(b) + c)
  {
    var w := b[..|b| - |b| % 8];
    assert w + (Leftover(b) + c) == b + c;
    PackConcat(w, Leftover(b) + c);
    PackConcat(w, Leftover(b));
    assert w + Leftover(b) == b;
  }

  lemma {:induction false} StuffConcat(s: seq<Byte>, t: seq<Byte>)
    ensures Stuff(s + t) == Stuff(s) + Stuff(t)
  {
    if |s| == 0 {
      assert s + t == t;
    } else {
      var st, r := s + t, s[1..];
      StuffConcat(r, t);
      assert st[0] == s[0] && st[1..] == r + t;
      var h: seq<Byte> := if s[0] == 0xFF then [0xFF, 0] else [s[0]];
      assert Stuff(st) == h + Stuff(r + t);
      assert Stuff(s) == h + Stuff(r);
      AssocBytes(h, Stuff(r), Stuff(t));
    }
  }

  lemma AssocBytes(a: seq<Byte>, b: seq<Byte>, c: seq<Byte>)
    ensures a + b + c == a + (b + c)
  {
  }

  /** Every 0xFF of a stuffed string is followed by 0x00. */
  lemma {:induction false} StuffedFF(s: seq<Byte>, i: nat)
    requires i < |Stuff(s)| && Stuff(s)[i] == 0xFF
    ensures i + 1 < |Stuff(s)| && Stuff(s)[i + 1] == 0
  {
    var h := if s[0] == 0xFF then [0xFF, 0] else [s[0]];
    assert Stuff(s) == h + Stuff(s[1..]);
    if i >= |h| {
      StuffedFF(s[1..], i - |h|);
    }
  }

  /** At position pos of data the stuffed bytes s begin, and marker m stands behind them. */
  ghost predicate SegmentAt(data: seq<Byte>, pos: nat, s: seq<Byte>, m: nat) {
    && pos + |Stuff(s)| + 2 <= |data|
    && data[pos..pos + |Stuff(s)|] == Stuff(s)
    && data[pos + |Stuff(s)|] == 0xFF
    && data[pos + |Stuff(s)| + 1] == m
    && m != 0 && m != 0xFF
  }

  lemma {:induction false} ScanStuffed(data: seq<Byte>, pos: nat, s: seq<Byte>, m: nat)
    requires SegmentAt(data, pos, s, m)
    ensures Scan(data, pos) == Segment(Unpack(s), m, pos + |Stuff(s)| + 2)
    decreases |s|
  {
    if |s| == 0 {
      assert SkipFF(data, pos + 1) == pos + 1;
    } else {
      var h := if s[0] == 0xFF then [0xFF, 0] else [s[0]];
      var t := Stuff(s[1..]);
      var d := data[pos..pos + |Stuff(s)|];
      assert d == h + t;
      assert d[..|h|] == h && d[|h|..] == t;
      assert data[pos] == d[0] == h[0];
      assert data[pos + |h|..pos + |h| + |t|] == d[|h|..];
      ScanStuffed(data, pos + |h|, s[1..], m);
      if s[0] == 0xFF {
        assert data[pos + 1] == d[1] == h[1];
        assert SkipFF(data, pos + 1) == pos + 1;
      }
    }
  }

  /** A finished segment reads back as its bits followed by fewer than eight one bits. */
  lemma ScanSegmentBytes(data: seq<Byte>, pos: nat, b: Bits, m: nat) returns (n: nat)
    requires SegmentAt(data, pos, Pack(b + Repeat(true, 7)), m)
    ensures n < 8 && (|b| + n) % 8 == 0
    ensures Scan(data, pos) == Segment(b + Repeat(true, n), m, pos + |SegmentBytes(b)| + 2)
  {
    hide Pack, Unpack, Stuff, Scan, SegmentAt;
    var c := b + Repeat(true, 7);
    ScanStuffed(data, pos, Pack(c), m);
    UnpackPack(c);
    n := 7 - |c| % 8;
    assert c[..|c| - |c| % 8] == b + Repeat(true, n);
  }

  /** What the bytes at a position mean: n bytes 0xFF followed by something else are a data byte 0xFF if a zero follows, and the marker
      that follows otherwise; any other byte is eight bits of data. */
  lemma {:induction false} ScanForm(data: seq<Byte>, pos: nat, n: nat)
    requires pos + n < |data| && data[pos + n] != 0xFF && forall i :: pos <= i < pos + n ==> data[i] == 0xFF
    ensures n == 0 ==>
      var s := Scan(data, pos + 1);
      Scan(data, pos) == Segment(ToBits(data[pos], 8) + s.bits, s.marker, s.next)
    ensures n > 0 && data[pos + n] == 0 ==>
      var s := Scan(data, pos + n + 1);
      Scan(data, pos) == Segment([true, true, true, true, true, true, true, true] + s.bits, s.marker, s.next)
    ensures n > 0 && data[pos + n] != 0 ==> Scan(data, pos) == Segment([], data[pos + n], pos + n + 1)
  {
    if n > 0 {
      FillBytes(data, pos + 1, n - 1);
      assert ToBits(0xFF, 8) == [true, true, true, true, true, true, true, true];
    }
  }

  lemma {:induction false} FillBytes(data: seq<Byte>, pos: nat, n: nat)
    requires pos + n < |data| && data[pos + n] != 0xFF && forall i :: pos <= i < pos + n ==> data[i] == 0xFF
    ensures SkipFF(data, pos) == pos + n
    decreases n
  {
    if n > 0 {
      FillBytes(data, pos + 1, n - 1);
    }
  }
}
