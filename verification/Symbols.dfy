/** What an entropy encoder writes, before it becomes bits: Huffman symbols and raw bits. */
module Symbols {
  import opened BitSeq
  import opened ByteStream
  import opened BitStream
  import opened HuffTable

  /** A symbol to be coded with table number tbl, or bits to be sent as they are. */
  datatype Item = Sym(tbl: nat, sym: nat) | Raw(bits: Bits)

  function NoCodes(): (t: HuffTbl)
    ensures Accepted(t)
  {
    var t := HuffTbl(seq(17, _ => 0), seq(256, _ => 0));
    NoSizes(t.bits, 16);
    t
  }

  lemma {:induction false} NoSizes(bits: seq<Byte>, l: nat)
    requires l < |bits| && forall i :: 0 <= i < |bits| ==> bits[i] == 0
    ensures Sizes(bits, l) == []
  {
    if l > 0 {
      NoSizes(bits, l - 1);
    }
  }

  /** A table that make_c_derived_tbl and make_d_derived_tbl take. */
  type Table = t: HuffTbl | Accepted(t) ghost witness NoCodes()

  function ItemBits(ts: seq<Table>, i: Item): Bits {
    match i
    case Sym(tbl, sym) => if tbl < |ts| then Codeword(ts[tbl], sym) else []
    case Raw(b) => b
  }

  /** The bits of a list of items. */
  function ItemsBits(ts: seq<Table>, items: seq<Item>): Bits {
    if |items| == 0 then [] else ItemBits(ts, items[0]) + ItemsBits(ts, items[1..])
  }

  /** Every symbol has a code, so that no emission fails. */
  ghost predicate Coded(ts: seq<Table>, items: seq<Item>) {
    forall i :: 0 <= i < |items| ==> ItemCoded(ts, items[i])
  }

  ghost predicate ItemCoded(ts: seq<Table>, i: Item) {
    i.Sym? ==> i.tbl < |ts| && Codeword(ts[i.tbl], i.sym) != []
  }

  lemma {:induction false} ItemsBitsConcat(ts: seq<Table>, a: seq<Item>, b: seq<Item>)
    ensures ItemsBits(ts, a + b) == ItemsBits(ts, a) + ItemsBits(ts, b)
    ensures Coded(ts, a + b) <==> Coded(ts, a) && Coded(ts, b)
  {
    hide Codeword, Coded, ItemBits;
    CodedConcat(ts, a, b);
    if |a| == 0 {
      assert a + b == b;
    } else {
      ItemsBitsConcat(ts, a[1..], b);
      assert (a + b)[0] == a[0] && (a + b)[1..] == a[1..] + b;
      ConcatAssoc(ItemBits(ts, a[0]), ItemsBits(ts, a[1..]), ItemsBits(ts, b));
    }
  }

  lemma CodedConcat(ts: seq<Table>, a: seq<Item>, b: seq<Item>)
    ensures Coded(ts, a + b) <==> Coded(ts, a) && Coded(ts, b)
  {
    if Coded(ts, a + b) {
      assert forall i :: 0 <= i < |a| ==> (a + b)[i] == a[i];
      forall i | 0 <= i < |b|
        ensures ItemCoded(ts, b[i])
      {
        assert (a + b)[|a| + i] == b[i];
      }
    }
  }

  /** The stream st preceded by the bits of items. */
  function Ahead(ts: seq<Table>, items: seq<Item>, st: Stream): (s: Stream)
    ensures s.marker == st.marker && s.next == st.next && s.starved == st.starved
  {
    Prepend(ItemsBits(ts, items), st)
  }

  lemma AheadConcat(ts: seq<Table>, a: seq<Item>, b: seq<Item>, st: Stream)
    ensures Ahead(ts, a + b, st) == Ahead(ts, a, Ahead(ts, b, st))
    ensures Ahead(ts, [], st) == st
  {
    ItemsBitsConcat(ts, a, b);
    PrependConcat(ItemsBits(ts, a), ItemsBits(ts, b), st);
  }

  lemma AheadOne(ts: seq<Table>, i: Item, st: Stream)
    ensures Ahead(ts, [i], st) == Prepend(ItemBits(ts, i), st)
  {
    var s := [i];
    assert s[1..] == [] && s[0] == i;
    assert ItemsBits(ts, s) == ItemBits(ts, i) + ItemsBits(ts, []);
  }

  /** Decoding the symbol at the head of the items. */
  lemma DecodeSym(ts: seq<Table>, tbl: nat, sym: nat, st: Stream)
    requires ItemCoded(ts, Sym(tbl, sym))
    ensures Decode(ts[tbl], Ahead(ts, [Sym(tbl, sym)], st)) == (sym, st)
  {
    AheadOne(ts, Sym(tbl, sym), st);
    DecodeCodeword(ts[tbl], sym, st);
  }

  /** Reading the raw bits at the head of the items. */
  lemma TakeRaw(ts: seq<Table>, b: Bits, st: Stream)
    ensures Take(Ahead(ts, [Raw(b)], st), |b|) == (Val(b), st)
  {
    AheadOne(ts, Raw(b), st);
    assert (b + st.bits)[..|b|] == b && (b + st.bits)[|b|..] == st.bits;
  }

  /** How often symbol sym of table tbl occurs. */
  function Occurrences(items: seq<Item>, tbl: nat, sym: nat): (n: nat) {
    if |items| == 0 then 0
    else (if items[0] == Sym(tbl, sym) then 1 else 0) + Occurrences(items[1..], tbl, sym)
  }

  lemma {:induction false} OccurrencesConcat(a: seq<Item>, b: seq<Item>, tbl: nat, sym: nat)
    ensures Occurrences(a + b, tbl, sym) == Occurrences(a, tbl, sym) + Occurrences(b, tbl, sym)
  {
    if |a| == 0 {
      assert a + b == b;
    } else {
      OccurrencesConcat(a[1..], b, tbl, sym);
      assert (a + b)[0] == a[0] && (a + b)[1..] == a[1..] + b;
    }
  }

  lemma {:induction false} OccursCounted(items: seq<Item>, i: nat)
    requires i < |items| && items[i].Sym?
    ensures Occurrences(items, items[i].tbl, items[i].sym) > 0
  {
    if i > 0 {
      assert items[1..][i - 1] == items[i];
      OccursCounted(items[1..], i - 1);
    }
  }
}
