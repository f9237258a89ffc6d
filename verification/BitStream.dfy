/** What a decoder can still read of the current entropy-coded segment. */
module BitStream {
  import opened BitSeq
  import opened ByteStream

  /** bits are the data bits left; behind them the stream continues with zero
      bits, and starved says that some of those have been handed out. marker is the
      marker that ends the segment (0: the data ends first), next the position behind it. */
  datatype Stream = Stream(bits: Bits, starved: bool, marker: nat, next: nat)

  function StreamAt(data: seq<Byte>, pos: nat): (s: Stream)
    requires pos <= |data|
    ensures pos <= s.next <= |data|
  {
    var seg := Scan(data, pos);
    Stream(seg.bits, false, seg.marker, seg.next)
  }

  /** The first n bits of b, followed by zeros if b is too short. */
  function ZeroExtended(b: Bits, n: nat): (r: Bits)
    ensures |r| == n
  {
    if n <= |b| then b[..n] else b + Repeat(false, n - |b|)
  }

  function Drop(s: Stream, n: nat): (s': Stream)
    ensures s'.marker == s.marker && s'.next == s.next
  {
    if n <= |s.bits| then s.(bits := s.bits[n..]) else s.(bits := [], starved := true)
  }

  /** Read n bits as a number. */
  function Take(s: Stream, n: nat): (r: (nat, Stream))
    ensures r.0 < Pow2(n)
    ensures r.1.marker == s.marker && r.1.next == s.next
  {
    (Val(ZeroExtended(s.bits, n)), Drop(s, n))
  }

  /** s with the bits b still to be read first. */
  function Prepend(b: Bits, s: Stream): Stream {
    s.(bits := b + s.bits)
  }

  lemma PrependConcat(a: Bits, b: Bits, s: Stream)
    ensures Prepend(a + b, s) == Prepend(a, Prepend(b, s))
    ensures Prepend([], s) == s
  {
    assert (a + b) + s.bits == a + (b + s.bits);
    assert [] + s.bits == s.bits;
  }
}
