/** What the decoders' loops share: reading DC differences from a source that may suspend, and why decoding
    again over partly decoded coefficients gives the same result. */
module DecoderLoops {
  import opened BitSeq
  import opened ByteStream
  import opened BitStream
  import opened BitReader
  import opened HuffTable
  import opened DerivedTables
  import opened HuffDecode
  import opened Symbols
  import opened Coefficients
  import opened BlockCoding
  import opened AcFirstCoding
  import opened NaturalOrder

  // ----- attempts -----

  /** An attempt that started in state a has got to state b, or has suspended there. A source that delivers everything
      does not suspend the attempt, and a suspension leaves no trace in the fields that are not local. */
  ghost predicate Attempt(data: seq<Byte>, limit: nat, a: ReadState, b: ReadState, ok: bool)
    requires a.pos <= |data|
  {
    && Shape(data, b) && b.pos <= limit
    && (Delivered(data, limit, a) ==> ok)
    && (!ok ==> a.unreadMarker == 0 && b.unreadMarker == 0 && b.insufficient == a.insufficient)
    && (a.unreadMarker != 0 ==> b.unreadMarker != 0)
    && (ok ==> Valid(data, b) && View(data, b).marker == View(data, a).marker && View(data, b).next == View(data, a).next)
  }

  lemma AttemptStarts(data: seq<Byte>, limit: nat, a: ReadState)
    requires Valid(data, a) && a.pos <= limit
    ensures Attempt(data, limit, a, a, true)
  {
  }

  lemma AttemptGoesOn(data: seq<Byte>, limit: nat, a: ReadState, b: ReadState, c: ReadState, ok: bool)
    requires Valid(data, a) && a.pos <= |data| && Attempt(data, limit, a, b, true) && Attempt(data, limit, b, c, ok)
    ensures Attempt(data, limit, a, c, ok)
  {
    hide View, Shape, Buffered;
    assert !b.insufficient || b.unreadMarker != 0;
  }

  /** HUFF_DECODE within an attempt. */
  method ReadSymbol(data: seq<Byte>, limit: nat, r: ReadState, ghost t: Table, huffval: seq<Byte>, d: DDerived, ghost a: ReadState)
    returns (sym: Byte, r': ReadState, ok: bool)
    requires Valid(data, a) && a.pos <= limit <= |data| && Attempt(data, limit, a, r, true)
    requires huffval == t.huffval && Decodes(d, t)
    ensures Attempt(data, limit, a, r', ok)
    ensures ok ==> Valid(data, r') && (sym, View(data, r')) == Decode(t, View(data, r))
  {
    hide Decode, View, Shape, Decodes, Accepted;
    sym, r', ok := DecodeSymbol(data, limit, r, t, huffval, d);
    assert Attempt(data, limit, r, r', ok);
    AttemptGoesOn(data, limit, a, r, r', ok);
  }

  /** CHECK_BIT_BUFFER and GET_BITS within an attempt. */
  method ReadBits(data: seq<Byte>, limit: nat, r: ReadState, n: nat, ghost a: ReadState) returns (v: nat, r': ReadState, ok: bool)
    requires Valid(data, a) && a.pos <= limit <= |data| && Attempt(data, limit, a, r, true) && n <= 16
    ensures Attempt(data, limit, a, r', ok)
    ensures ok ==> Valid(data, r') && (v, View(data, r')) == Take(View(data, r), n)
  {
    hide Take, View, Shape;
    v, r', ok := GetBits(data, limit, r, n);
    assert Attempt(data, limit, r, r', ok);
    AttemptGoesOn(data, limit, a, r, r', ok);
  }

  /** Symbols of a DC table are categories up to 15. */
  lemma CategoryOf(t: Table, st: Stream)
    requires DCSymbols(t)
    ensures Decode(t, st).0 <= 15
  {
  }

  /** The DC difference of a block. */
  method ReadDiff(data: seq<Byte>, limit: nat, r: ReadState, ghost t: Table, huffval: seq<Byte>, d: DDerived, ghost a: ReadState)
    returns (diff: int, r': ReadState, ok: bool)
    requires Valid(data, a) && a.pos <= limit <= |data| && Attempt(data, limit, a, r, true)
    requires huffval == t.huffval && Decodes(d, t) && DCSymbols(t)
    ensures Attempt(data, limit, a, r', ok)
    ensures ok ==> Valid(data, r') && (diff, View(data, r')) == DecodeDc(t, View(data, r))
  {
    hide Decode, Take, View, Attempt, Decodes, DCSymbols, Pow2, Valid;
    AttemptValid(data, limit, a, r);
    CategoryOf(t, View(data, r));
    diff := 0;
    var s: nat, v: nat;
    s, r', ok := ReadSymbol(data, limit, r, t, huffval, d, a);
    if !ok {
      return;
    }
    if s != 0 {
      v, r', ok := ReadBits(data, limit, r', s, a);
      if ok {
        diff := Extend(v, s);
      }
    }
  }

  lemma AttemptValid(data: seq<Byte>, limit: nat, a: ReadState, r: ReadState)
    requires a.pos <= |data| && Attempt(data, limit, a, r, true)
    ensures Valid(data, r) && r.pos <= limit && r.pos <= |data|
  {
  }

  // ----- storing coefficients again -----

  /** Where a decoded coefficient goes. */
  function Target(k: nat): (n: nat)
    ensures n < DCTSIZE2
  {
    if k < DCTSIZE2 then k else DCTSIZE2 - 1
  }

  ghost predicate Touched(ws: seq<Write>, n: nat) {
    exists i :: 0 <= i < |ws| && Target(ws[i].pos) == n
  }

  lemma {:induction false} StoreAppend(b: Block, ws: seq<Write>, w: Write, al: nat)
    requires |b| == DCTSIZE2
    ensures Store(b, ws + [w], al) == Store(b, ws, al)[Target(w.pos) := ToShort(w.value * Pow2(al))]
    decreases |ws|
  {
    hide Pow2, ToShort;
    if |ws| == 0 {
      assert ws + [w] == [w] && [w][1..] == [];
    } else {
      assert (ws + [w])[0] == ws[0] && (ws + [w])[1..] == ws[1..] + [w];
      StoreAppend(b[Target(ws[0].pos) := ToShort(ws[0].value * Pow2(al))], ws[1..], w, al);
    }
  }

  lemma TouchedSplit(a: seq<Write>, b: seq<Write>, n: nat)
    ensures Touched(a + b, n) <==> Touched(a, n) || Touched(b, n)
  {
    if Touched(a, n) {
      var i :| 0 <= i < |a| && Target(a[i].pos) == n;
      assert (a + b)[i] == a[i];
    }
    if Touched(b, n) {
      var i :| 0 <= i < |b| && Target(b[i].pos) == n;
      assert (a + b)[|a| + i] == b[i];
    }
  }

  lemma TouchedHead(ws: seq<Write>, n: nat)
    requires |ws| > 0
    ensures Touched(ws, n) <==> Target(ws[0].pos) == n || Touched(ws[1..], n)
  {
    TouchedSplit([ws[0]], ws[1..], n);
    assert [ws[0]] + ws[1..] == ws;
    assert Touched([ws[0]], n) <==> Target([ws[0]][0].pos) == n;
  }

  /** Only the targets change. */
  lemma {:induction false} StoreKeeps(b: Block, ws: seq<Write>, al: nat, n: nat)
    requires |b| == DCTSIZE2 && n < DCTSIZE2 && !Touched(ws, n)
    ensures Store(b, ws, al)[n] == b[n]
    decreases |ws|
  {
    hide Pow2, ToShort, Touched;
    if |ws| > 0 {
      TouchedHead(ws, n);
      StoreKeeps(b[Target(ws[0].pos) := ToShort(ws[0].value * Pow2(al))], ws[1..], al, n);
    }
  }

  /** What stood at the targets before does not matter. */
  lemma {:induction false} StoreOver(b: Block, c: Block, ws: seq<Write>, al: nat)
    requires |b| == |c| == DCTSIZE2 && forall n :: 0 <= n < DCTSIZE2 && !Touched(ws, n) ==> b[n] == c[n]
    ensures Store(b, ws, al) == Store(c, ws, al)
    decreases |ws|
  {
    if |ws| == 0 {
      assert b == c;
    } else {
      hide Pow2, ToShort, Touched;
      var v := ToShort(ws[0].value * Pow2(al));
      forall n | 0 <= n < DCTSIZE2 && !Touched(ws[1..], n)
        ensures b[Target(ws[0].pos) := v][n] == c[Target(ws[0].pos) := v][n]
      {
        TouchedHead(ws, n);
      }
      StoreOver(b[Target(ws[0].pos) := v], c[Target(ws[0].pos) := v], ws[1..], al);
    }
  }

  /** Storing everything again over a part of it is storing everything. */
  lemma StoreAgain(b: Block, done: seq<Write>, more: seq<Write>, al: nat)
    requires |b| == DCTSIZE2
    ensures Store(Store(b, done, al), done + more, al) == Store(b, done + more, al)
  {
    hide Pow2, ToShort, Touched, Store;
    forall n | 0 <= n < DCTSIZE2 && !Touched(done + more, n)
      ensures Store(b, done, al)[n] == b[n]
    {
      TouchedSplit(done, more, n);
      StoreKeeps(b, done, al, n);
    }
    StoreOver(Store(b, done, al), b, done + more, al);
  }

  // ----- the coefficients of a band -----

  /** The coefficient loop before position k, behind the writes done so far, against the whole band. */
  ghost predicate AcLoop(t: Table, st0: Stream, k0: nat, se: nat, k: nat, st: Stream, done: seq<Write>)
    requires se < DCTSIZE2
  {
    var d0, d := DecodeAc(t, st0, k0, se), DecodeAc(t, st, k, se);
    d0.writes == done + d.writes && d0.st == d.st && d0.eob == d.eob
  }

  lemma AcLoopStarts(t: Table, st: Stream, k: nat, se: nat)
    requires se < DCTSIZE2
    ensures AcLoop(t, st, k, se, k, st, [])
  {
    var d := DecodeAc(t, st, k, se);
    assert [] + d.writes == d.writes;
  }

  /** One symbol: a coefficient, a ZRL, or the end of the band. */
  lemma AcLoopStep(t: Table, st0: Stream, k0: nat, se: nat, k: nat, st: Stream, done: seq<Write>, rs: nat, st1: Stream)
    requires se < DCTSIZE2 && k <= se && AcLoop(t, st0, k0, se, k, st, done) && (rs, st1) == Decode(t, st)
    ensures rs % 16 != 0 ==> forall v: nat, st2: Stream :: (v, st2) == Take(st1, rs % 16) ==>
      AcLoop(t, st0, k0, se, k + rs / 16 + 1, st2, done + [Write(k + rs / 16, Extend(v, rs % 16))])
    ensures rs % 16 == 0 && rs / 16 == 15 ==> AcLoop(t, st0, k0, se, k + 16, st1, done)
    ensures rs % 16 == 0 && rs / 16 != 15 ==> DecodeAc(t, st0, k0, se) == Band(done, st1, rs / 16)
  {
    hide Decode, Take, Extend;
    if rs % 16 != 0 {
      var (v, st2) := Take(st1, rs % 16);
      var rest := DecodeAc(t, st2, k + rs / 16 + 1, se);
      var w := Write(k + rs / 16, Extend(v, rs % 16));
      assert done + ([w] + rest.writes) == done + [w] + rest.writes;
    } else if rs / 16 != 15 {
      assert done + [] == done;
    }
  }

  lemma AcLoopEnds(t: Table, st0: Stream, k0: nat, se: nat, k: nat, st: Stream, done: seq<Write>)
    requires se < DCTSIZE2 && k > se && AcLoop(t, st0, k0, se, k, st, done)
    ensures DecodeAc(t, st0, k0, se) == Band(done, st, NO_EOB)
  {
    assert done + [] == done;
  }

  /** The zigzag contents of a block that lives in the coefficient arrays. */
  ghost function Contents(block: array<int>): (zz: Block)
    requires block.Length == DCTSIZE2
    reads block
    ensures |zz| == DCTSIZE2
  {
    Zigzag(block[..])
  }

  /** The coefficient loop of decode_mcu and decode_mcu_AC_first, for the band k0..se scaled by 2^al. */
  method ReadBand(data: seq<Byte>, limit: nat, r: ReadState, ghost t: Table, huffval: seq<Byte>, d: DDerived, block: array<int>,
                  k0: nat, se: nat, al: nat, ghost a: ReadState)
    returns (r': ReadState, eob: int, ok: bool, ghost done: seq<Write>)
    requires Valid(data, a) && a.pos <= limit <= |data| && Attempt(data, limit, a, r, true) && Valid(data, r)
    requires huffval == t.huffval && Decodes(d, t) && block.Length == DCTSIZE2 && 1 <= k0 <= se < DCTSIZE2
    modifies block
    ensures Attempt(data, limit, a, r', ok)
    ensures ok ==> Valid(data, r') && var b := DecodeAc(t, View(data, r), k0, se);
      Contents(block) == Store(old(Contents(block)), b.writes, al) && View(data, r') == b.st && eob == b.eob
    ensures !ok ==> |done| <= |DecodeAc(t, View(data, r), k0, se).writes|
    ensures !ok ==> done == DecodeAc(t, View(data, r), k0, se).writes[..|done|]
    ensures !ok ==> Contents(block) == Store(old(Contents(block)), done, al)
  {
    hide *;
    BlockLength();
    AttemptValid(data, limit, a, r);
    ghost var st0, b0 := View(data, r), Contents(block);
    done := [];
    r', ok, eob := r, true, -1;
    var k: nat := k0;
    AcLoopStarts(t, st0, k0, se);
    StoreNone(b0, al);
    while k <= se
      invariant k0 <= k && ok && block.Length == 64 && Attempt(data, limit, a, r', true) && Valid(data, r') && r'.pos <= |data|
      invariant AcLoop(t, st0, k0, se, k, View(data, r'), done)
      invariant Contents(block) == Store(b0, done, al)
      decreases se + 1 - k
    {
      ghost var st := View(data, r');
      var rs: nat, v: nat;
      LoopWrites(t, st0, k0, se, k, st, done);
      rs, r', ok := ReadSymbol(data, limit, r', t, huffval, d, a);
      if !ok {
        return;
      }
      AttemptValid(data, limit, a, r');
      AcLoopStep(t, st0, k0, se, k, st, done, rs, View(data, r'));
      var n, s := rs / 16, rs % 16;
      if s != 0 {
        k := k + n;
        ghost var st1 := View(data, r');
        v, r', ok := ReadBits(data, limit, r', s, a);
        if !ok {
          return;
        }
        AttemptValid(data, limit, a, r');
        var x := Extend(v, s);
        ghost var before := block[..];
        ContentsIs(block);
        StoreOne(b0, done, before, k, x, al);
        block[Natural(k)] := ToShort(x * Pow2(al));
        assert block[..] == before[Natural(k) := ToShort(x * Pow2(al))];
        ContentsIs(block);
        done := done + [Write(k, x)];
      } else {
        if n != 15 {
          eob := n;
          NoMore(done);
          return;
        }
        k := k + 15;
      }
      k := k + 1;
    }
    AcLoopEnds(t, st0, k0, se, k, View(data, r'), done);
    NoEobIs();
  }

  lemma BlockLength()
    ensures DCTSIZE2 == 64
  {
  }

  lemma NoEobIs()
    ensures NO_EOB == -1
  {
  }

  lemma NoMore(done: seq<Write>)
    ensures done + [] == done
  {
  }

  lemma StoreNone(b: Block, al: nat)
    requires |b| == DCTSIZE2
    ensures Store(b, [], al) == b
  {
  }

  lemma ContentsIs(block: array<int>)
    requires block.Length == DCTSIZE2
    ensures Contents(block) == Zigzag(block[..])
  {
  }

  /** What has been written so far is part of what the whole band writes. */
  lemma LoopWrites(t: Table, st0: Stream, k0: nat, se: nat, k: nat, st: Stream, done: seq<Write>)
    requires se < DCTSIZE2 && AcLoop(t, st0, k0, se, k, st, done)
    ensures |done| <= |DecodeAc(t, st0, k0, se).writes| && done == DecodeAc(t, st0, k0, se).writes[..|done|]
  {
  }

  /** Writing one coefficient in natural order. */
  lemma StoreOne(b0: Block, done: seq<Write>, block: seq<int>, k: nat, x: int, al: nat)
    requires |b0| == |block| == DCTSIZE2 && Zigzag(block) == Store(b0, done, al) && k < DCTSIZE2 + 16
    ensures Zigzag(block[Natural(k) := ToShort(x * Pow2(al))]) == Store(b0, done + [Write(k, x)], al)
  {
    hide Zigzag, Store, ToShort, Pow2;
    StoreAppend(b0, done, Write(k, x), al);
    ZigzagStore(block, k, ToShort(x * Pow2(al)));
  }
}
