/** Objects and their XML form (XMLEncoder of inc/tiny.h). */
module XmlTree {
  import opened XmlNumbers
  import opened XmlText

  /** Objects; sets and maps by their elements. Those of classes that the encoder does not know are encoded as null. */
  datatype Obj =
    | Null
    | Unknown
    | Int(v: int)
    | Long(v: int)
    | Point(x: int, y: int)
    | Rect(left: int, top: int, right: int, bottom: int)
    | Color(c: nat)
    | Rational(n: int, d: int)
    | Text(s: string)
    | Buffer(s: string)
    | File(s: string)
    | LinkedList(items: seq<Obj>)
    | ArrayList(items: seq<Obj>)
    | HashSet(elements: set<Obj>)
    | HashMap(entries: map<Obj, Obj>)

  datatype Kind = ListKind | ArrayKind | SetKind

  /** An object together with the order in which the encoder walks through its collections. */
  datatype Tree = Leaf(o: Obj) | Items(kind: Kind, items: seq<Tree>) | Pairs(pairs: seq<Entry>)

  /** A key and its value in a map. */
  datatype Entry = Entry(key: Tree, value: Tree)

  predicate IsLeaf(o: Obj) {
    !o.LinkedList? && !o.ArrayList? && !o.HashSet? && !o.HashMap?
  }

  /** Leaves are no collections, and denominators are not zero, as the constructor of Rational sees to. */
  ghost predicate ValidTree(t: Tree) {
    match t
    case Leaf(o) => IsLeaf(o) && (o.Rational? ==> o.d != 0)
    case Items(_, items) => forall i :: 0 <= i < |items| ==> ValidTree(items[i])
    case Pairs(pairs) => forall i :: 0 <= i < |pairs| ==> ValidTree(pairs[i].key) && ValidTree(pairs[i].value)
  }

  // ----- what a tree stands for -----

  function FromItems(kind: Kind, items: seq<Obj>): Obj {
    match kind
    case ListKind => LinkedList(items)
    case ArrayKind => ArrayList(items)
    case SetKind => HashSet(set o | o in items)
  }

  /** put, pair after pair. */
  function FromPairs(pairs: seq<(Obj, Obj)>): map<Obj, Obj> {
    if |pairs| == 0 then map[] else FromPairs(pairs[..|pairs| - 1])[pairs[|pairs| - 1].0 := pairs[|pairs| - 1].1]
  }

  function Value(t: Tree): Obj {
    match t
    case Leaf(o) => o
    case Items(kind, items) => FromItems(kind, Values(items))
    case Pairs(pairs) => HashMap(FromPairs(PairValues(pairs)))
  }

  function Values(items: seq<Tree>): (r: seq<Obj>)
    ensures |r| == |items|
  {
    if |items| == 0 then [] else [Value(items[0])] + Values(items[1..])
  }

  function PairValues(pairs: seq<Entry>): (r: seq<(Obj, Obj)>)
    ensures |r| == |pairs|
  {
    if |pairs| == 0 then [] else [PairValue(pairs[0])] + PairValues(pairs[1..])
  }

  function PairValue(e: Entry): (Obj, Obj) {
    (Value(e.key), Value(e.value))
  }

  // ----- what is written -----

  function Name(o: Obj): string {
    match o
    case Int(_) => "int"
    case Long(_) => "long"
    case Point(_, _) => "point"
    case Rect(_, _, _, _) => "rect"
    case Color(_) => "color"
    case Rational(_, _) => "rational"
    case Text(_) => "string"
    case Buffer(_) => "StringBuffer"
    case File(_) => "file"
    case _ => "object"
  }

  /** The text between the tags of a leaf, before it is escaped. */
  function Body(o: Obj): string {
    match o
    case Int(v) => Join([v], ',')
    case Long(v) => Join([v], ',')
    case Point(x, y) => Join([x, y], ',')
    case Rect(l, t, r, b) => Join([l, t, r, b], ',')
    case Color(c) => "0x" + Hex(c, 8)
    case Rational(n, d) => Join([n, d], '/')
    case Text(s) => s
    case Buffer(s) => s
    case File(s) => s
    case _ => "null"
  }

  function Opening(name: string): string {
    "<" + name + ">"
  }

  function Closing(name: string): string {
    "</" + name + ">"
  }

  function KindName(kind: Kind): string {
    match kind
    case ListKind => "list"
    case ArrayKind => "array"
    case SetKind => "set"
  }

  function TreeName(t: Tree): string {
    match t
    case Leaf(o) => Name(o)
    case Items(kind, _) => KindName(kind)
    case Pairs(_) => "map"
  }

  /** tabify: a blank for each level; none if depth is negative. */
  function Tabs(depth: int): (b: string)
    ensures AllBlank(b)
  {
    seq(if depth < 0 then 0 else depth, _ => ' ')
  }

  const NEWLINE: string := "\r\n"

  /** encode, from the opening tag to the closing tag. Behind the closing tag of a collection follows a line end. */
  function Core(t: Tree, depth: int): string
    decreases t, 1
  {
    Opening(TreeName(t)) + Inside(t, depth) + Closing(TreeName(t))
  }

  function Inside(t: Tree, depth: int): string
    decreases t, 0
  {
    match t
    case Leaf(o) => Escaped(Body(o))
    case Items(_, items) => NEWLINE + ItemsText(items, depth) + Tabs(depth)
    case Pairs(pairs) => NEWLINE + PairsText(pairs, depth) + Tabs(depth)
  }

  /** Elements, each on a line of its own: append goes two levels deeper. */
  function ItemsText(items: seq<Tree>, depth: int): string
    decreases items
  {
    if |items| == 0 then [] else Tabs(depth + 2) + Core(items[0], depth + 2) + NEWLINE + ItemsText(items[1..], depth)
  }

  /** Keys and values: a value that is no collection stands on the line of its key. */
  function PairsText(pairs: seq<Entry>, depth: int): string
    decreases pairs
  {
    if |pairs| == 0 then [] else Tabs(depth + 1) + EntryText(pairs[0], depth) + NEWLINE + PairsText(pairs[1..], depth)
  }

  function EntryText(e: Entry, depth: int): string
    decreases e
  {
    Core(e.key, depth + 1) + Between(e.key, e.value, depth) + Core(e.value, ValueDepth(e.value, depth))
  }

  function ValueDepth(value: Tree, depth: int): int {
    if value.Leaf? then -1 else depth + 1
  }

  /** What stands between a key and its value: the line end behind a key that is a collection, and a line end and blanks
      before a value that is one. */
  function Between(key: Tree, value: Tree, depth: int): (b: string)
    ensures AllBlank(b)
  {
    (if key.Leaf? then [] else NEWLINE) + (if value.Leaf? then [] else NEWLINE + Tabs(depth + 1))
  }

  /** encode of the object, with the blanks before it and the line end behind a collection. */
  function Encoded(t: Tree, depth: int): string {
    Tabs(depth) + Core(t, depth) + if t.Leaf? then [] else NEWLINE
  }

  const PROLOG: string := "<?xml version=\"1.0\" encoding=\"UTF-8\"?>"
  const HEADER: string := "<XMLEncoder" + " xmlns:xsi=\"http://www.w3.org" + "/2001/XMLSchema-instance\"" + ">"
  const TRAILER: string := "</XMLEncoder>"

  /** The whole document. */
  function Document(t: Tree): string {
    PROLOG + NEWLINE + HEADER + NEWLINE + Encoded(t, 0) + TRAILER
  }

  // ----- the encoder -----

  /** A string buffer that is appended to. */
  class StringBuffer {
    var text: string

    constructor ()
      ensures text == ""
    {
      text := "";
    }

    /** operator +=. */
    method Add(s: string)
      modifies this
      ensures text == old(text) + s
    {
      text := text + s;
    }

    /** tabify. */
    method Tabify(depth: int)
      modifies this
      ensures text == old(text) + Tabs(depth)
    {
      var d := 0;
      while d < depth
        invariant 0 <= d && (depth >= 0 ==> d <= depth) && (depth < 0 ==> d == 0)
        invariant text == old(text) + Tabs(d)
      {
        text := text + " ";
        d := d + 1;
      }
    }

    /** encodeString. */
    method EncodeString(s: string)
      modifies this
      ensures text == old(text) + Escaped(s)
    {
      hide *;
      ghost var start := text;
      for i := 0 to |s|
        invariant text + Escaped(s[i..]) == start + Escaped(s)
      {
        EscapedNext(s, i, text);
        text := text + Escape(s[i]);
      }
      NothingEscaped(s, text);
    }

    /** encode: the object behind depth blanks. */
    method Encode(t: Tree, depth: int)
      modifies this
      ensures text == old(text) + Encoded(t, depth)
      decreases t, 1, 0
    {
      hide *;
      ghost var start := text;
      NoTabs(depth);
      if depth >= 0 {
        Tabify(depth);
      }
      Add(Opening(TreeName(t)));
      EncodeInside(t, depth);
      Add(Closing(TreeName(t)));
      if !t.Leaf? {
        Add(NEWLINE);
      }
      EncodedIs(t, depth);
      TreeAppended(start, Tabs(depth), Opening(TreeName(t)), Inside(t, depth), Closing(TreeName(t)), if t.Leaf? then [] else NEWLINE);
    }

    /** What stands between the tags. */
    method EncodeInside(t: Tree, depth: int)
      modifies this
      ensures text == old(text) + Inside(t, depth)
      decreases t, 0, 2
    {
      hide *;
      ghost var start := text;
      InsideIs(t, depth);
      match t {
        case Leaf(o) =>
          EncodeString(Body(o));
        case Items(kind, items) =>
          Add(NEWLINE);
          EncodeItems(t, items, depth);
          Tabify(depth);
          LinesAppended(start, NEWLINE, ItemsText(items, depth), Tabs(depth));
        case Pairs(pairs) =>
          Add(NEWLINE);
          EncodePairs(t, pairs, depth);
          Tabify(depth);
          LinesAppended(start, NEWLINE, PairsText(pairs, depth), Tabs(depth));
      }
    }

    /** The elements of a list, an array or a set. */
    method EncodeItems(t: Tree, items: seq<Tree>, depth: int)
      requires t.Items? && t.items == items
      modifies this
      ensures text == old(text) + ItemsText(items, depth)
      decreases t, 0, 0
    {
      hide *;
      ghost var start := text;
      for i := 0 to |items|
        invariant start + ItemsText(items, depth) == text + ItemsText(items[i..], depth)
      {
        ghost var before := text;
        Encode(items[i], depth + 2);
        if items[i].Leaf? {
          Add(NEWLINE);
        }
        NextItem(items, i, depth, before, text);
      }
      ItemsDone(items, depth);
    }

    /** The entries of a map. */
    method EncodePairs(t: Tree, pairs: seq<Entry>, depth: int)
      requires t.Pairs? && t.pairs == pairs
      modifies this
      ensures text == old(text) + PairsText(pairs, depth)
      decreases t, 0, 1
    {
      hide *;
      ghost var start := text;
      for i := 0 to |pairs|
        invariant start + PairsText(pairs, depth) == text + PairsText(pairs[i..], depth)
      {
        ghost var before := text;
        EncodeEntry(t, pairs, i, depth);
        NextPair(pairs, i, depth, before, text);
      }
      PairsDone(pairs, depth);
    }

    method EncodeEntry(t: Tree, pairs: seq<Entry>, i: nat, depth: int)
      requires t.Pairs? && t.pairs == pairs && i < |pairs|
      modifies this
      ensures text == old(text) + (Tabs(depth + 1) + EntryText(pairs[i], depth) + NEWLINE)
      decreases t, 0, 0
    {
      hide *;
      ghost var before := text;
      var e := pairs[i];
      Encode(e.key, depth + 1);
      if e.value.Leaf? {
        Encode(e.value, -1);
        Add(NEWLINE);
      } else {
        Add(NEWLINE);
        Encode(e.value, depth + 1);
      }
      EntryAppended(e, depth, before, text);
    }

    /** The whole document. */
    method EncodeDocument(t: Tree)
      modifies this
      ensures text == old(text) + Document(t)
    {
      hide *;
      ghost var start := text;
      Add(PROLOG);
      Add(NEWLINE);
      Add(HEADER);
      Add(NEWLINE);
      Encode(t, 0);
      Add(TRAILER);
      DocumentAppended(start, t, PROLOG, NEWLINE, HEADER, Encoded(t, 0), TRAILER);
    }
  }

  lemma DocumentAppended(start: string, t: Tree, p: string, n: string, h: string, e: string, r: string)
    requires p == PROLOG && n == NEWLINE && h == HEADER && e == Encoded(t, 0) && r == TRAILER
    ensures start + p + n + h + n + e + r == start + Document(t)
  {
    Appended(start, p, n, h, e, r);
  }

  lemma Appended(start: string, p: string, n: string, h: string, e: string, r: string)
    ensures start + p + n + h + n + e + r == start + (p + n + h + n + e + r)
  {
  }

  lemma EscapedNext(s: string, i: nat, before: string)
    requires i < |s|
    ensures before + Escaped(s[i..]) == before + Escape(s[i]) + Escaped(s[i + 1..])
  {
    hide Escape;
    assert s[i..][1..] == s[i + 1..];
  }

  lemma NothingEscaped(s: string, text: string)
    ensures text + Escaped(s[|s|..]) == text
  {
  }

  lemma NoTabs(depth: int)
    ensures depth < 0 ==> Tabs(depth) == []
  {
  }

  lemma EncodedIs(t: Tree, depth: int)
    ensures Encoded(t, depth) == Tabs(depth) + (Opening(TreeName(t)) + Inside(t, depth) + Closing(TreeName(t))) + if t.Leaf? then [] else NEWLINE
  {
  }

  lemma InsideIs(t: Tree, depth: int)
    ensures t.Leaf? ==> Inside(t, depth) == Escaped(Body(t.o))
    ensures t.Items? ==> Inside(t, depth) == NEWLINE + ItemsText(t.items, depth) + Tabs(depth)
    ensures t.Pairs? ==> Inside(t, depth) == NEWLINE + PairsText(t.pairs, depth) + Tabs(depth)
  {
  }

  lemma TreeAppended(start: string, a: string, b: string, c: string, d: string, n: string)
    ensures start + a + b + c + d + n == start + (a + (b + c + d) + n)
    ensures n == [] ==> start + a + b + c + d == start + (a + (b + c + d) + n)
  {
  }

  lemma LinesAppended(start: string, n: string, c: string, a: string)
    ensures start + n + c + a == start + (n + c + a)
  {
  }

  lemma Joined(before: string, a: string, b: string)
    ensures before + a + b == before + (a + b)
  {
  }

  lemma NextItem(items: seq<Tree>, i: nat, depth: int, before: string, after: string)
    requires i < |items| && after == before + Encoded(items[i], depth + 2) + if items[i].Leaf? then NEWLINE else []
    ensures before + ItemsText(items[i..], depth) == after + ItemsText(items[i + 1..], depth)
  {
    hide Core, Tabs;
    var rest := items[i..];
    assert rest[0] == items[i] && rest[1..] == items[i + 1..];
    var one := Tabs(depth + 2) + Core(items[i], depth + 2) + NEWLINE;
    assert after == before + one;
    Joined(before, one, ItemsText(items[i + 1..], depth));
  }

  lemma ItemsDone(items: seq<Tree>, depth: int)
    ensures items[|items|..] == [] && ItemsText([], depth) == [] && items[0..] == items
  {
  }

  lemma NextPair(pairs: seq<Entry>, i: nat, depth: int, before: string, after: string)
    requires i < |pairs| && after == before + (Tabs(depth + 1) + EntryText(pairs[i], depth) + NEWLINE)
    ensures before + PairsText(pairs[i..], depth) == after + PairsText(pairs[i + 1..], depth)
  {
    hide EntryText, Tabs;
    var rest := pairs[i..];
    assert rest[0] == pairs[i] && rest[1..] == pairs[i + 1..];
    Joined(before, Tabs(depth + 1) + EntryText(pairs[i], depth) + NEWLINE, PairsText(pairs[i + 1..], depth));
  }

  lemma PairsDone(pairs: seq<Entry>, depth: int)
    ensures pairs[|pairs|..] == [] && PairsText([], depth) == [] && pairs[0..] == pairs
  {
  }

  lemma EntryAppended(e: Entry, depth: int, before: string, after: string)
    requires after == if e.value.Leaf? then before + Encoded(e.key, depth + 1) + Encoded(e.value, -1) + NEWLINE
                      else before + Encoded(e.key, depth + 1) + NEWLINE + Encoded(e.value, depth + 1)
    ensures after == before + (Tabs(depth + 1) + EntryText(e, depth) + NEWLINE)
  {
    hide *;
    NoTabs(-1);
    EntryTextIs(e, depth);
    EncodedParts(e.key, depth + 1);
    EncodedParts(e.value, ValueDepth(e.value, depth));
    if e.value.Leaf? {
      OnOneLine(before, Tabs(depth + 1), Core(e.key, depth + 1), if e.key.Leaf? then [] else NEWLINE, Core(e.value, -1), NEWLINE);
    } else {
      OnTwoLines(before, Tabs(depth + 1), Core(e.key, depth + 1), if e.key.Leaf? then [] else NEWLINE, Core(e.value, depth + 1), NEWLINE);
    }
  }

  lemma EntryTextIs(e: Entry, depth: int)
    ensures ValueDepth(e.value, depth) == if e.value.Leaf? then -1 else depth + 1
    ensures EntryText(e, depth) == Core(e.key, depth + 1)
      + ((if e.key.Leaf? then [] else NEWLINE) + (if e.value.Leaf? then [] else NEWLINE + Tabs(depth + 1))) + Core(e.value, ValueDepth(e.value, depth))
  {
  }

  lemma EncodedParts(t: Tree, depth: int)
    ensures Encoded(t, depth) == Tabs(depth) + Core(t, depth) + if t.Leaf? then [] else NEWLINE
  {
  }

  lemma OnOneLine(before: string, a: string, k: string, b: string, v: string, n: string)
    ensures before + (a + k + b) + ([] + v + []) + n == before + (a + (k + (b + []) + v) + n)
  {
  }

  lemma OnTwoLines(before: string, a: string, k: string, b: string, v: string, n: string)
    ensures before + (a + k + b) + n + (a + v + n) == before + (a + (k + (b + (n + a)) + v) + n)
  {
  }
}
