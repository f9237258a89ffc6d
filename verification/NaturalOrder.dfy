/** jpeg_natural_order (jutils.c): where the k'th coefficient in zigzag order stands in a block. */
module NaturalOrder {
  import opened BlockCoding
  import opened AcFirstCoding

  /** The zigzag order (section A.3.6 of ITU-T T.81), followed by sixteen entries 63. */
  function Order(): seq<nat> {
    [ 0,  1,  8, 16,  9,  2,  3, 10] +
   ([17, 24, 32, 25, 18, 11,  4,  5] +
   ([12, 19, 26, 33, 40, 48, 41, 34] +
   ([27, 20, 13,  6,  7, 14, 21, 28] +
   ([35, 42, 49, 56, 57, 50, 43, 36] +
   ([29, 22, 15, 23, 30, 37, 44, 51] +
   ([58, 59, 52, 45, 38, 31, 39, 46] +
   ([53, 60, 61, 54, 47, 55, 62, 63] +
    seq(16, _ => 63))))))))
  }

  /** The zigzag position of each entry of a block. */
  function Position(): seq<nat> {
    [ 0,  1,  5,  6, 14, 15, 27, 28] +
   ([ 2,  4,  7, 13, 16, 26, 29, 42] +
   ([ 3,  8, 12, 17, 25, 30, 41, 43] +
   ([ 9, 11, 18, 24, 31, 40, 44, 53] +
   ([10, 19, 23, 32, 39, 45, 52, 54] +
   ([20, 22, 33, 38, 46, 51, 55, 60] +
   ([21, 34, 37, 47, 50, 56, 59, 61] +
    [35, 36, 48, 49, 57, 58, 62, 63]))))))
  }

  lemma FirstForward()
    ensures |Order()| == DCTSIZE2 + 16 && |Position()| == DCTSIZE2
    ensures forall k :: 0 <= k < 16 ==> Order()[k] < DCTSIZE2 && Position()[Order()[k]] == k
  {
  }

  lemma FirstBackward()
    ensures |Order()| == DCTSIZE2 + 16 && |Position()| == DCTSIZE2
    ensures forall n :: 0 <= n < 16 ==> Position()[n] < DCTSIZE2 && Order()[Position()[n]] == n
  {
  }

  lemma SecondForward()
    ensures |Order()| == DCTSIZE2 + 16 && |Position()| == DCTSIZE2
    ensures forall k :: 16 <= k < 32 ==> Order()[k] < DCTSIZE2 && Position()[Order()[k]] == k
  {
  }

  lemma SecondBackward()
    ensures |Order()| == DCTSIZE2 + 16 && |Position()| == DCTSIZE2
    ensures forall n :: 16 <= n < 32 ==> Position()[n] < DCTSIZE2 && Order()[Position()[n]] == n
  {
  }

  lemma ThirdForward()
    ensures |Order()| == DCTSIZE2 + 16 && |Position()| == DCTSIZE2
    ensures forall k :: 32 <= k < 48 ==> Order()[k] < DCTSIZE2 && Position()[Order()[k]] == k
  {
  }

  lemma ThirdBackward()
    ensures |Order()| == DCTSIZE2 + 16 && |Position()| == DCTSIZE2
    ensures forall n :: 32 <= n < 48 ==> Position()[n] < DCTSIZE2 && Order()[Position()[n]] == n
  {
  }

  lemma LastForward()
    ensures |Order()| == DCTSIZE2 + 16 && |Position()| == DCTSIZE2
    ensures forall k :: 48 <= k < 64 ==> Order()[k] < DCTSIZE2 && Position()[Order()[k]] == k
  {
  }

  lemma LastBackward()
    ensures |Order()| == DCTSIZE2 + 16 && |Position()| == DCTSIZE2
    ensures forall n :: 48 <= n < 64 ==> Position()[n] < DCTSIZE2 && Order()[Position()[n]] == n
  {
  }

  lemma OrderBeyond()
    ensures |Order()| == DCTSIZE2 + 16
    ensures forall k :: DCTSIZE2 <= k < |Order()| ==> Order()[k] == DCTSIZE2 - 1
    ensures Order()[0] == 0 && Order()[DCTSIZE2 - 1] == DCTSIZE2 - 1
  {
  }

  /** The order is a permutation; past the block it points to the last entry. */
  lemma OrderPermutes()
    ensures |Order()| == DCTSIZE2 + 16 && |Position()| == DCTSIZE2
    ensures forall k :: 0 <= k < DCTSIZE2 ==> Order()[k] < DCTSIZE2 && Position()[Order()[k]] == k
    ensures forall n :: 0 <= n < DCTSIZE2 ==> Position()[n] < DCTSIZE2 && Order()[Position()[n]] == n
    ensures forall k :: DCTSIZE2 <= k < |Order()| ==> Order()[k] == DCTSIZE2 - 1
    ensures Order()[0] == 0 && Order()[DCTSIZE2 - 1] == DCTSIZE2 - 1
  {
    hide Order, Position;
    FirstForward();
    FirstBackward();
    SecondForward();
    SecondBackward();
    ThirdForward();
    ThirdBackward();
    LastForward();
    LastBackward();
    OrderBeyond();
  }

  /** The zigzag through a block of rows of eight: up to the right on even diagonals, down to the left on odd ones; at an edge it
      turns into the next diagonal. */
  function NextInZigzag(n: nat): nat {
    var row, col := n / 8, n % 8;
    if (row + col) % 2 == 0 then
      if col == 7 then n + 8 else if row == 0 then n + 1 else n - 7
    else
      if row == 7 then n + 1 else if col == 0 then n + 8 else n + 7
  }

  lemma FirstSteps()
    ensures |Order()| == DCTSIZE2 + 16
    ensures forall k :: 0 <= k < 16 ==> Order()[k + 1] == NextInZigzag(Order()[k])
  {
  }

  lemma SecondSteps()
    ensures |Order()| == DCTSIZE2 + 16
    ensures forall k :: 16 <= k < 32 ==> Order()[k + 1] == NextInZigzag(Order()[k])
  {
  }

  lemma ThirdSteps()
    ensures |Order()| == DCTSIZE2 + 16
    ensures forall k :: 32 <= k < 48 ==> Order()[k + 1] == NextInZigzag(Order()[k])
  {
  }

  lemma LastSteps()
    ensures |Order()| == DCTSIZE2 + 16
    ensures forall k :: 48 <= k < 63 ==> Order()[k + 1] == NextInZigzag(Order()[k])
  {
  }

  /** The order starts at the DC coefficient and follows the zigzag to the last coefficient. */
  lemma OrderIsZigzag(k: nat)
    requires k < 63
    ensures |Order()| == 80 && Order()[0] == 0 && Order()[63] == 63 && Order()[k + 1] == NextInZigzag(Order()[k])
  {
    hide Order, NextInZigzag;
    FirstSteps();
    SecondSteps();
    ThirdSteps();
    LastSteps();
    OrderBeyond();
  }

  /** Where the decoders store coefficient k: positions past the block go to its last entry. */
  function Natural(k: nat): (n: nat)
    requires k < DCTSIZE2 + 16
    ensures n < DCTSIZE2 && n == Order()[k]
  {
    OrderPermutes();
    Order()[k]
  }

  /** The coefficients of a block in zigzag order. */
  function Zigzag(block: seq<int>): (zz: Block)
    requires |block| == DCTSIZE2
    ensures |zz| == DCTSIZE2 && zz[0] == block[0]
    ensures forall k :: 0 <= k < DCTSIZE2 ==> zz[k] == block[Natural(k)]
  {
    OrderPermutes();
    seq(DCTSIZE2, k requires 0 <= k < DCTSIZE2 => block[Natural(k)])
  }

  /** Storing a coefficient in natural order is storing it at its zigzag position. */
  lemma ZigzagStore(block: seq<int>, k: nat, v: int)
    requires |block| == DCTSIZE2 && k < DCTSIZE2 + 16
    ensures Zigzag(block[Natural(k) := v]) == Zigzag(block)[(if k < DCTSIZE2 then k else DCTSIZE2 - 1) := v]
  {
    OrderPermutes();
    hide Order, Position;
  }

  /** A block in zigzag order, and the decoders' stores beyond its end. */
  lemma ZigzagIs(block: seq<int>, k: nat)
    requires |block| == 64 && k < 80
    ensures |Order()| == 80 && |Zigzag(block)| == 64 && Natural(k) == Order()[k] && (k >= 64 ==> Natural(k) == 63)
    ensures k < 64 ==> Order()[k] < 64 && Zigzag(block)[k] == block[Order()[k]]
  {
    hide Order, Position;
    OrderPermutes();
  }
}
