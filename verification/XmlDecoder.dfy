/** XMLDecoder of inc/tiny.h: reading objects from their XML form, and what comes back. */
module XmlDecoder {
  import opened XmlNumbers
  import opened XmlText
  import opened XmlTree

  // ----- leaves -----

  /** The name in the opening tag of a leaf; empty for any other tag. */
  function LeafName(tag: string): string {
    if tag == "<object>" then "object"
    else if tag == "<int>" then "int"
    else if tag == "<long>" then "long"
    else if tag == "<point>" then "point"
    else if tag == "<rect>" then "rect"
    else if tag == "<color>" then "color"
    else if tag == "<string>" then "string"
    else if tag == "<file>" then "file"
    else if tag == "<StringBuffer>" then "StringBuffer"
    else if tag == "<rational>" then "rational"
    else ""
  }

  /** The leaf with a name and the text between its tags; numbers that cannot be read stay 0. */
  function LeafOf(name: string, text: string): Parsed<Obj> {
    if name == "object" then if text == "null" then Done(Null, 0) else Failed
    else if name == "int" then Done(Int(ReadInts(text, [0], ',')[0]), 0)
    else if name == "long" then Done(Long(ReadInts(text, [0], ',')[0]), 0)
    else if name == "point" then var v := ReadInts(text, [0, 0], ','); Done(Point(v[0], v[1]), 0)
    else if name == "rect" then var v := ReadInts(text, [0, 0, 0, 0], ','); Done(Rect(v[0], v[1], v[2], v[3]), 0)
    else if name == "color" then
      if |text| >= 2 && text[0] == '0' && (text[1] == 'x' || text[1] == 'X') then Done(Color(ReadHexNumber(text[2..])), 0) else Failed
    else if name == "string" then Done(Text(text), 0)
    else if name == "file" then Done(File(text), 0)
    else if name == "StringBuffer" then Done(Buffer(text), 0)
    else if name == "rational" then
      var v := ReadInts(text, [0, 1], '/');
      Done(Rational(v[0], if v[1] == 0 then 1 else v[1]), 0)
    else Failed
  }

  /** The leaves for which the decoder takes a text that looks like the closing tag for an empty element. */
  predicate MayBeEmpty(name: string) {
    name == "string" || name == "file" || name == "StringBuffer" || name == "rational"
  }

  function EmptyLeaf(name: string): Parsed<Obj> {
    if name == "rational" then Done(Rational(0, 1), 0) else LeafOf(name, "")
  }

  /** A leaf behind its opening tag. */
  function DecodeLeaf(s: string, pos: nat, name: string): (r: Parsed<Obj>)
    ensures r.Done? ==> pos <= r.pos <= |s|
  {
    match NextValue(s, pos)
    case Failed => Failed
    case Done(text, pos1) =>
      if MayBeEmpty(name) && text == Closing(name) then
        match EmptyLeaf(name)
        case Failed => Failed
        case Done(o, _) => Done(o, pos1)
      else
        match LeafOf(name, text)
        case Failed => Failed
        case Done(o, _) =>
          match NextTag(s, pos1)
          case Failed => Failed
          case Done(close, pos2) => if close == Closing(name) then Done(o, pos2) else Failed
  }

  // ----- objects -----

  function CollectionKind(tag: string): Parsed<Kind> {
    if tag == "<list>" then Done(ListKind, 0)
    else if tag == "<array>" then Done(ArrayKind, 0)
    else if tag == "<set>" then Done(SetKind, 0)
    else Failed
  }

  /** decodeObject: the object whose opening tag has been read. */
  function DecodeObject(s: string, pos: nat, tag: string): (r: Parsed<Obj>)
    requires pos <= |s|
    ensures r.Done? ==> pos <= r.pos <= |s|
    decreases |s| - pos, 1
  {
    if LeafName(tag) != "" then DecodeLeaf(s, pos, LeafName(tag))
    else match CollectionKind(tag)
      case Done(kind, _) =>
        (match DecodeItems(s, pos, Closing(KindName(kind)))
         case Failed => Failed
         case Done(items, pos1) => Done(FromItems(kind, items), pos1))
      case Failed =>
        if tag == "<map>" then
          match DecodePairs(s, pos)
          case Failed => Failed
          case Done(pairs, pos1) => Done(HashMap(FromPairs(pairs)), pos1)
        else Failed
  }

  /** The elements of a collection up to its closing tag. */
  function DecodeItems(s: string, pos: nat, close: string): (r: Parsed<seq<Obj>>)
    requires pos <= |s|
    ensures r.Done? ==> pos <= r.pos <= |s|
    decreases |s| - pos, 0
  {
    match NextTag(s, pos)
    case Failed => Failed
    case Done(tag, pos1) =>
      if tag == close then Done([], pos1)
      else match DecodeObject(s, pos1, tag)
        case Failed => Failed
        case Done(o, pos2) =>
          match DecodeItems(s, pos2, close)
          case Failed => Failed
          case Done(rest, pos3) => Done([o] + rest, pos3)
  }

  /** A key, whose opening tag has been read, and its value. */
  function DecodeEntry(s: string, pos: nat, tag: string): (r: Parsed<(Obj, Obj)>)
    requires pos <= |s|
    ensures r.Done? ==> pos <= r.pos <= |s|
    decreases |s| - pos, 2
  {
    match DecodeObject(s, pos, tag)
    case Failed => Failed
    case Done(key, pos1) =>
      match NextTag(s, pos1)
      case Failed => Failed
      case Done(tag1, pos2) =>
        match DecodeObject(s, pos2, tag1)
        case Failed => Failed
        case Done(value, pos3) => Done((key, value), pos3)
  }

  /** The keys and values of a map up to its closing tag. */
  function DecodePairs(s: string, pos: nat): (r: Parsed<seq<(Obj, Obj)>>)
    requires pos <= |s|
    ensures r.Done? ==> pos <= r.pos <= |s|
    decreases |s| - pos, 0
  {
    match NextTag(s, pos)
    case Failed => Failed
    case Done(tag, pos1) =>
      if tag == "</map>" then Done([], pos1)
      else match DecodeEntry(s, pos1, tag)
        case Failed => Failed
        case Done(entry, pos2) =>
          match DecodePairs(s, pos2)
          case Failed => Failed
          case Done(rest, pos3) => Done([entry] + rest, pos3)
  }

  /** decode: the prolog, the header, one object, and the trailer. */
  function Decode(s: string): Parsed<Obj> {
    match NextTag(s, 0)
    case Failed => Failed
    case Done(prolog, pos1) =>
      if prolog != PROLOG then Failed
      else match NextTag(s, pos1)
        case Failed => Failed
        case Done(header, pos2) =>
          if !("<XMLEncoder" <= header) then Failed
          else match NextTag(s, pos2)
            case Failed => Failed
            case Done(tag, pos3) =>
              match DecodeObject(s, pos3, tag)
              case Failed => Failed
              case Done(o, pos4) =>
                match NextTag(s, pos4)
                case Failed => Failed
                case Done(trailer, pos5) => if "</XMLEncoder" <= trailer then Done(o, pos5) else Failed
  }

  // ----- what comes back -----

  predicate IsText(o: Obj) {
    o.Text? || o.Buffer? || o.File?
  }

  /** An object as it comes back: texts without their NULs, and null in place of unknown objects. */
  function StripObj(o: Obj): Obj {
    match o
    case Text(s) => Text(Stripped(s))
    case Buffer(s) => Buffer(Stripped(s))
    case File(s) => File(Stripped(s))
    case Unknown => Null
    case _ => o
  }

  /** A text that reads like its own closing tag. */
  predicate OwnClosing(o: Obj) {
    IsText(o) && Stripped(o.s) == Closing(Name(o))
  }

  function StripTree(t: Tree): Tree {
    match t
    case Leaf(o) => Leaf(StripObj(o))
    case Items(kind, items) => Items(kind, StripTrees(items))
    case Pairs(pairs) => Pairs(StripEntries(pairs))
  }

  function StripTrees(items: seq<Tree>): seq<Tree> {
    if |items| == 0 then [] else [StripTree(items[0])] + StripTrees(items[1..])
  }

  function StripEntries(pairs: seq<Entry>): seq<Entry> {
    if |pairs| == 0 then [] else [StripEntry(pairs[0])] + StripEntries(pairs[1..])
  }

  function StripEntry(e: Entry): Entry {
    Entry(StripTree(e.key), StripTree(e.value))
  }

  /** No text in the tree reads like its own closing tag. */
  ghost predicate Clean(t: Tree) {
    match t
    case Leaf(o) => !OwnClosing(o)
    case Items(_, items) => AllClean(items)
    case Pairs(pairs) => EntriesClean(pairs)
  }

  ghost predicate AllClean(items: seq<Tree>) {
    |items| == 0 || (Clean(items[0]) && AllClean(items[1..]))
  }

  ghost predicate EntriesClean(pairs: seq<Entry>) {
    |pairs| == 0 || (EntryClean(pairs[0]) && EntriesClean(pairs[1..]))
  }

  ghost predicate EntryClean(e: Entry) {
    Clean(e.key) && Clean(e.value)
  }

  // ----- leaves come back -----

  lemma {:induction false} PlainStays(x: string)
    requires AllPlain(x)
    ensures Stripped(x) == x
  {
    forall k | 0 <= k < |x|
      ensures x[k] != '\0'
    {
      assert Plain(x[k]);
    }
    NothingStripped(x);
  }

  lemma LeafNames(o: Obj)
    requires IsLeaf(o)
    ensures LeafName(Opening(Name(o))) == Name(o) && Name(o) != ""
  {
    var n := Name(o);
    assert Opening("object") == "<object>" && Opening("int") == "<int>" && Opening("long") == "<long>" && Opening("point") == "<point>";
    assert Opening("rect") == "<rect>" && Opening("color") == "<color>" && Opening("string") == "<string>" && Opening("file") == "<file>";
    assert Opening("StringBuffer") == "<StringBuffer>" && Opening("rational") == "<rational>";
    assert "<long>"[1] == 'l' && "<rect>"[1] == 'r' && "<file>"[1] == 'f';
    assert "<point>"[1] == 'p' && "<color>"[1] == 'c' && "<object>"[1] == 'o' && "<string>"[1] == 's' && "<int>"[1] == 'i';
    assert "<rational>"[1] == 'r';
  }

  /** The text of a leaf is read as that leaf. */
  lemma BodyRead(o: Obj)
    requires IsLeaf(o) && (o.Rational? ==> o.d != 0)
    ensures LeafOf(Name(o), Stripped(Body(o))) == Done(StripObj(o), 0)
    ensures !IsText(o) ==> Stripped(Body(o)) == Body(o)
  {
    hide Join, ReadInts, Hex, ReadHexNumber, Decimal, Stripped;
    match o
    case Int(v) => JoinRead([v], [0], ','); JoinPlain([v], ','); PlainStays(Body(o));
    case Long(v) => JoinRead([v], [0], ','); JoinPlain([v], ','); PlainStays(Body(o));
    case Point(x, y) => JoinRead([x, y], [0, 0], ','); JoinPlain([x, y], ','); PlainStays(Body(o));
    case Rect(l, t, r, b) => JoinRead([l, t, r, b], [0, 0, 0, 0], ','); JoinPlain([l, t, r, b], ','); PlainStays(Body(o));
    case Rational(n, d) => JoinRead([n, d], [0, 1], '/'); JoinPlain([n, d], '/'); PlainStays(Body(o));
    case Color(c) =>
      HexNumberRead(c, 8);
      HexPlain(c, 8);
      assert ("0x" + Hex(c, 8))[2..] == Hex(c, 8);
      PlainStays(Body(o));
    case Null => PlainStays("null");
    case Unknown => PlainStays("null");
    case _ =>
  }
}
