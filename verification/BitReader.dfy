/** jpeg_fill_bit_buffer, CHECK_BIT_BUFFER and GET_BITS (jdhuff.c, jdhuff.h).
    The data source delivers data[..limit] during one attempt: reading past limit
    makes the attempt suspend. get_buffer is held as its 32-bit pattern. */
module BitReader {
  import opened BitSeq
  import opened ByteStream
  import opened BitStream

  const MIN_GET_BITS: nat := 25
  const RANGE: nat := 0x1_0000_0000

  datatype ReadState = ReadState(pos: nat, getBuffer: nat, bitsLeft: nat, unreadMarker: nat, insufficient: bool)

  function Buffered(r: ReadState): (b: Bits)
    ensures |b| == r.bitsLeft
  {
    ToBits(r.getBuffer, r.bitsLeft)
  }

  /** The representation invariant; once dummy zeros have been read, only zeros are left. */
  ghost predicate Valid(data: seq<Byte>, r: ReadState) {
    && Shape(data, r)
    && (r.insufficient ==> r.unreadMarker != 0 && Buffered(r) == Repeat(false, r.bitsLeft))
  }

  ghost predicate Shape(data: seq<Byte>, r: ReadState) {
    && r.pos <= |data|
    && r.getBuffer < RANGE
    && r.bitsLeft <= 32
    && r.unreadMarker < 256 && r.unreadMarker != 0xFF
  }

  /** The abstract stream a reader state stands for. */
  ghost function View(data: seq<Byte>, r: ReadState): (s: Stream)
    requires r.pos <= |data|
  {
    if r.insufficient then Stream([], true, r.unreadMarker, r.pos)
    else if r.unreadMarker != 0 then Stream(Buffered(r), false, r.unreadMarker, r.pos)
    else Prepend(Buffered(r), StreamAt(data, r.pos))
  }

  lemma ToBitsLow(v: nat, k: nat, n: nat)
    requires n <= k
    ensures ToBits(v % Pow2(k), n) == ToBits(v, n)
  {
    var w := v % Pow2(k);
    ToBitsMod(v, k);
    ToBitsConcat(v, k - n, n);
    ToBitsConcat(w, k - n, n);
    assert ToBits(v, k)[k - n..] == ToBits(v, n);
    assert ToBits(w, k)[k - n..] == ToBits(w, n);
  }

  lemma ByteShift(g: nat, c: Byte) returns (x: nat, h: nat)
    ensures x == g * 256 % RANGE + c < RANGE
    ensures h == g % 0x100_0000 && x == h * 256 + c
  {
    h := g % 0x100_0000;
    var q := g / 0x100_0000;
    x := g * 256 % RANGE + c;
    assert g == q * 0x100_0000 + h;
    DivModUnique(g * 256, q, RANGE, h * 256);
  }

  /** Shifting in one byte appends its bits. */
  lemma LoadByte(g: nat, bl: nat, c: Byte)
    requires bl <= 24
    ensures g * 256 % RANGE + c < RANGE
    ensures ToBits(g * 256 % RANGE + c, bl + 8) == ToBits(g, bl) + ToBits(c, 8)
  {
    hide Pow2, ToBits, Shr;
    var x, h := ByteShift(g, c);
    ToBitsConcat(x, bl, 8);
    assert Shr(x, 8) == h && ToBits(x, 8) == ToBits(c, 8) by {
      Pow2Small();
      ShrBounds(x, 8);
      ToBitsMod(x, 8);
    }
    assert ToBits(h, bl) == ToBits(g, bl) by {
      Pow2Small();
      ToBitsLow(g, 24, bl);
    }
  }

  lemma {:induction false} ToBitsShift(g: nat, n: nat, j: nat)
    ensures ToBits(g * Pow2(j), n + j) == ToBits(g, n) + Repeat(false, j)
  {
    if j == 0 {
      assert g * Pow2(0) == g;
      assert ToBits(g, n) + Repeat(false, 0) == ToBits(g, n);
    } else {
      ToBitsShift(g, n, j - 1);
      MulDouble(g, Pow2(j - 1));
      var h := g * Pow2(j - 1);
      assert g * Pow2(j) == 2 * h;
      assert 2 * h / 2 == h && 2 * h % 2 == 0;
      ConcatAssoc(ToBits(g, n), Repeat(false, j - 1), [false]);
      assert Repeat(false, j) == Repeat(false, j - 1) + [false];
    }
  }

  /** Shifting in zeros appends zero bits. */
  lemma LoadZeros(g: nat, bl: nat, j: nat)
    requires bl + j <= 32
    ensures ToBits(g * Pow2(j) % RANGE, bl + j) == ToBits(g, bl) + Repeat(false, j)
  {
    hide Pow2, ToBits;
    Pow2Small();
    ToBitsLow(g * Pow2(j), 32, bl + j);
    ToBitsShift(g, bl, j);
  }

  /** Everything up to the end of the segment can be read in this attempt. */
  ghost predicate Delivered(data: seq<Byte>, limit: nat, r: ReadState)
    requires r.pos <= |data|
  {
    limit == |data| && View(data, r).marker != 0
  }

  /** Load up the bit buffer; false means the source suspended. */
  method FillBitBuffer(data: seq<Byte>, limit: nat, r: ReadState, nbits: nat) returns (r': ReadState, ok: bool)
    requires Valid(data, r) && r.pos <= limit <= |data| && nbits <= MIN_GET_BITS
    ensures Shape(data, r') && r'.pos <= limit
    ensures Delivered(data, limit, r) ==> ok
    ensures !ok ==> r.unreadMarker == 0 && r'.unreadMarker == 0 && r'.insufficient == r.insufficient
    ensures r.unreadMarker != 0 ==> r'.unreadMarker != 0
    ensures ok ==> nbits <= r'.bitsLeft
    ensures ok ==> (r'.bitsLeft >= MIN_GET_BITS || r'.unreadMarker != 0)
    ensures ok && nbits <= |View(data, r).bits| ==>
      Valid(data, r') && View(data, r') == View(data, r)
    ensures ok && nbits > |View(data, r).bits| ==>
      && r'.insufficient && r'.unreadMarker == View(data, r).marker && r'.pos == View(data, r).next
      && r'.unreadMarker != 0
      && r'.bitsLeft >= nbits
      && Buffered(r') == ZeroExtended(View(data, r).bits, r'.bitsLeft)
  {
    r', ok := r, true;
    if r.unreadMarker == 0 {
      r', ok := LoadBytes(data, limit, r);
      if !ok {
        return;
      }
    }
    if r'.unreadMarker != 0 && nbits > r'.bitsLeft {
      ghost var before := r';
      LoadZeros(r'.getBuffer, r'.bitsLeft, MIN_GET_BITS - r'.bitsLeft);
      var g := r'.getBuffer * Pow2(MIN_GET_BITS - r'.bitsLeft) % RANGE;
      r' := r'.(getBuffer := g, bitsLeft := MIN_GET_BITS, insufficient := true);
      assert Buffered(r') == Buffered(before) + Repeat(false, MIN_GET_BITS - before.bitsLeft);
    }
  }

  /** Read one data byte, undoing the stuffing, or the marker that ends the segment. */
  method ReadDataByte(data: seq<Byte>, limit: nat, start: nat)
    returns (pos: nat, c: Byte, marker: Byte, ok: bool)
    requires start <= limit <= |data|
    ensures ok ==> start < pos <= limit && marker != 0xFF
    ensures !ok ==> limit < |data| || Scan(data, start).marker == 0
    ensures ok && marker != 0 ==> Scan(data, start) == Segment([], marker, pos)
    ensures ok && marker == 0 ==>
      Scan(data, start) == Scan(data, pos).(bits := ToBits(c, 8) + Scan(data, pos).bits)
  {
    pos, c, marker, ok := start, 0, 0, false;
    if pos == limit {
      return;
    }
    c := data[pos];
    pos := pos + 1;
    if c == 0xFF {
      while c == 0xFF
        invariant start < pos <= limit
        invariant c == data[pos - 1]
        invariant SkipFF(data, start + 1) == SkipFF(data, if c == 0xFF then pos else pos - 1)
        invariant c != 0xFF ==> SkipFF(data, start + 1) == pos - 1
        decreases |data| - pos
      {
        if pos == limit {
          return;
        }
        c := data[pos];
        pos := pos + 1;
      }
      if c == 0 {
        c := 0xFF;
      } else {
        marker := c;
      }
    }
    ok := true;
  }

  lemma ShiftIn(data: seq<Byte>, r: ReadState, pos: nat, c: Byte) returns (r': ReadState)
    requires Valid(data, r) && r.unreadMarker == 0 && r.bitsLeft < MIN_GET_BITS
    requires r.pos < pos <= |data|
    requires Scan(data, r.pos) == Scan(data, pos).(bits := ToBits(c, 8) + Scan(data, pos).bits)
    ensures r' == r.(pos := pos, getBuffer := r.getBuffer * 256 % RANGE + c, bitsLeft := r.bitsLeft + 8)
    ensures Valid(data, r') && View(data, r') == View(data, r)
  {
    hide Pow2, ToBits, Shr, Scan;
    LoadByte(r.getBuffer, r.bitsLeft, c);
    ConcatAssoc(Buffered(r), ToBits(c, 8), Scan(data, pos).bits);
    r' := r.(pos := pos, getBuffer := r.getBuffer * 256 % RANGE + c, bitsLeft := r.bitsLeft + 8);
  }

  /** The byte-reading loop of jpeg_fill_bit_buffer: it stops when the buffer is full or at a marker. */
  method LoadBytes(data: seq<Byte>, limit: nat, r: ReadState) returns (r': ReadState, ok: bool)
    requires Valid(data, r) && r.unreadMarker == 0 && r.pos <= limit <= |data|
    ensures Shape(data, r') && r'.pos <= limit && !r'.insufficient
    ensures Delivered(data, limit, r) ==> ok
    ensures !ok ==> r'.unreadMarker == 0
    ensures ok ==> View(data, r') == View(data, r)
    ensures ok ==> r'.bitsLeft >= MIN_GET_BITS || r'.unreadMarker != 0
  {
    r' := r;
    ok := true;
    while r'.bitsLeft < MIN_GET_BITS
      invariant Valid(data, r') && r'.unreadMarker == 0 && r'.pos <= limit
      invariant View(data, r') == View(data, r)
      decreases |data| - r'.pos
    {
      var pos, c, marker, got := ReadDataByte(data, limit, r'.pos);
      if !got {
        ok := false;
        return;
      }
      if marker != 0 {
        r' := r'.(unreadMarker := marker, pos := pos);
        return;
      }
      ghost var loaded := ShiftIn(data, r', pos, c);
      r' := r'.(pos := pos, getBuffer := r'.getBuffer * 256 % RANGE + c, bitsLeft := r'.bitsLeft + 8);
    }
  }

  lemma SplitBuffered(r: ReadState, n: nat)
    requires n <= r.bitsLeft
    ensures Val(Buffered(r)[..n]) == Shr(r.getBuffer, r.bitsLeft - n) % Pow2(n)
    ensures Buffered(r)[n..] == Buffered(r.(bitsLeft := r.bitsLeft - n))
  {
    hide Pow2, Val, ToBits, Shr;
    var m := r.bitsLeft - n;
    var w := Shr(r.getBuffer, m);
    ToBitsConcat(r.getBuffer, n, m);
    ValToBits(w, n);
    assert ToBits(r.getBuffer, n + m)[..n] == ToBits(w, n);
    assert ToBits(r.getBuffer, n + m)[n..] == ToBits(r.getBuffer, m);
  }

  /** GET_BITS: shift the next n bits out of the buffer. */
  method ShiftOut(r: ReadState, n: nat) returns (v: nat, r': ReadState)
    requires n <= r.bitsLeft
    ensures v == Val(Buffered(r)[..n]) && r' == r.(bitsLeft := r.bitsLeft - n)
  {
    var rest := r.bitsLeft - n;
    SplitBuffered(r, n);
    v := Shr(r.getBuffer, rest) % Pow2(n);
    r' := r.(bitsLeft := rest);
  }

  /** Bits taken from a valid buffer are the next bits of the stream. */
  lemma TakeBuffered(data: seq<Byte>, r: ReadState, n: nat)
    requires Valid(data, r) && n <= r.bitsLeft
    ensures var r' := r.(bitsLeft := r.bitsLeft - n);
      && Valid(data, r')
      && Take(View(data, r), n) == (Val(Buffered(r)[..n]), View(data, r'))
  {
    hide Pow2, ToBits, Shr, Scan, Val;
    var b, r' := Buffered(r), r.(bitsLeft := r.bitsLeft - n);
    SplitBuffered(r, n);
    if r.insufficient {
      assert b[..n] == ZeroExtended([], n);
      assert Buffered(r') == Repeat(false, r'.bitsLeft);
      assert Drop(View(data, r), n) == View(data, r');
    } else {
      var s := View(data, r);
      assert ZeroExtended(s.bits, n) == b[..n];
      assert Drop(s, n).bits == View(data, r').bits;
    }
  }

  /** Bits taken right after dummy zeros were added: all remaining data bits and some of the zeros. */
  lemma TakeStarved(data: seq<Byte>, s: Stream, r: ReadState, n: nat)
    requires Shape(data, r) && |s.bits| < n <= r.bitsLeft
    requires r.insufficient && r.unreadMarker == s.marker != 0 && r.pos == s.next
    requires Buffered(r) == ZeroExtended(s.bits, r.bitsLeft)
    ensures var r' := r.(bitsLeft := r.bitsLeft - n);
      && Valid(data, r')
      && Take(s, n) == (Val(Buffered(r)[..n]), View(data, r'))
  {
    hide Pow2, ToBits, Shr, Scan, Val;
    var r' := r.(bitsLeft := r.bitsLeft - n);
    SplitBuffered(r, n);
    assert Buffered(r)[..n] == ZeroExtended(s.bits, n);
    assert Buffered(r') == Repeat(false, r'.bitsLeft);
  }

  /** CHECK_BIT_BUFFER followed by GET_BITS: the next n bits of the stream, or a suspension. */
  method GetBits(data: seq<Byte>, limit: nat, r: ReadState, n: nat) returns (v: nat, r': ReadState, ok: bool)
    requires Valid(data, r) && r.pos <= limit <= |data| && n <= 17
    ensures Shape(data, r') && r'.pos <= limit
    ensures Delivered(data, limit, r) ==> ok
    ensures !ok ==> r.unreadMarker == 0 && r'.unreadMarker == 0 && r'.insufficient == r.insufficient
    ensures r.unreadMarker != 0 ==> r'.unreadMarker != 0
    ensures ok ==> Valid(data, r') && (v, View(data, r')) == Take(View(data, r), n)
  {
    v, r', ok := 0, r, true;
    if r.bitsLeft < n {
      r', ok := FillBitBuffer(data, limit, r, n);
      if !ok {
        return;
      }
    }
    if |View(data, r).bits| < n && r.bitsLeft < n {
      TakeStarved(data, View(data, r), r', n);
    } else {
      TakeBuffered(data, r', n);
    }
    v, r' := ShiftOut(r', n);
  }
}
