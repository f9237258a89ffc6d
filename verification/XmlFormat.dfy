/** What the XML form of inc/tiny.h looks like: which characters occur in it, how objects are spelled and laid out, and which
    spellings the decoder takes besides the encoder's own. */
module XmlFormat {
  import opened XmlNumbers
  import opened XmlText
  import opened XmlTree
  import opened XmlDecoder

  // ----- characters -----

  /** Neither a control character nor one of the codes 128 to 255. */
  predicate Printable(c: char) {
    32 <= c as int <= 127 || c as int > 255
  }

  predicate Markup(c: char) {
    c == '<' || c == '>' || c == '\'' || c == '\"'
  }

  lemma HexPrintable(n: nat)
    requires n < 16
    ensures Printable(HexDigit(n)) && !Markup(HexDigit(n)) && HexDigit(n) != '&'
  {
  }

  /** An escaped character consists of printable characters without markup; a character that needs no escape stands for itself. */
  lemma EscapeClean(ch: char, k: nat)
    requires k < |Escape(ch)|
    ensures Printable(Escape(ch)[k]) && !Markup(Escape(ch)[k]) && (Escape(ch)[k] == '&' ==> k == 0)
    ensures Printable(ch) && !Markup(ch) && ch != '&' ==> Escape(ch) == [ch]
  {
    if ch as int <= 255 {
      HexPrintable(ch as int / 16);
      HexPrintable(ch as int % 16);
    }
  }

  /** What is escaped is spelled out in printable characters without markup, so that every line end, quote and tag in a document
      is the encoder's own. */
  lemma {:induction false} EscapedClean(s: string, k: nat)
    requires k < |Escaped(s)|
    ensures Printable(Escaped(s)[k]) && !Markup(Escaped(s)[k])
    decreases |s|
  {
    hide Escape, Printable, Markup;
    if k < |Escape(s[0])| {
      EscapeClean(s[0], k);
    } else {
      EscapedClean(s[1..], k - |Escape(s[0])|);
    }
  }

  /** Printable, or part of a line end. */
  predicate LineAt(s: string, k: nat)
    requires k < |s|
  {
    || Printable(s[k])
    || (s[k] == '\r' && k + 1 < |s| && s[k + 1] == '\n')
    || (s[k] == '\n' && k > 0 && s[k - 1] == '\r')
  }

  ghost predicate Lines(s: string) {
    forall k :: 0 <= k < |s| ==> LineAt(s, k)
  }

  lemma LinesConcat(a: string, b: string)
    requires Lines(a) && Lines(b)
    ensures Lines(a + b)
  {
    hide Printable;
    forall k | 0 <= k < |a + b|
      ensures LineAt(a + b, k)
    {
      if k < |a| {
        assert LineAt(a, k);
      } else {
        assert LineAt(b, k - |a|);
      }
    }
  }

  lemma EscapedLines(s: string)
    ensures Lines(Escaped(s))
  {
    hide Escaped, Printable;
    forall k | 0 <= k < |Escaped(s)|
      ensures Printable(Escaped(s)[k])
    {
      EscapedClean(s, k);
    }
  }

  ghost predicate AllPrintable(s: string) {
    forall k :: 0 <= k < |s| ==> Printable(s[k])
  }

  lemma JoinPrintable(a: string, b: string)
    requires AllPrintable(a) && AllPrintable(b)
    ensures AllPrintable(a + b)
  {
    hide Printable;
  }

  lemma PrintableLines(s: string)
    requires AllPrintable(s)
    ensures Lines(s)
  {
    hide Printable;
  }

  lemma ShortNames()
    ensures AllPrintable("int") && AllPrintable("long") && AllPrintable("rect") && AllPrintable("file") && AllPrintable("map")
    ensures AllPrintable("list") && AllPrintable("set") && AllPrintable("<") && AllPrintable("</") && AllPrintable(">")
  {
  }

  lemma LongNames()
    ensures AllPrintable("point") && AllPrintable("color") && AllPrintable("array") && AllPrintable("string") && AllPrintable("object")
    ensures AllPrintable("rational") && AllPrintable("StringBuffer")
  {
  }

  lemma NamePrintable(t: Tree)
    ensures AllPrintable(TreeName(t))
  {
    ShortNames();
    LongNames();
    hide AllPrintable;
  }

  lemma PartLines(t: Tree, depth: int)
    ensures Lines(Opening(TreeName(t))) && Lines(Closing(TreeName(t))) && Lines(NEWLINE) && Lines(Tabs(depth)) && Lines([])
  {
    ShortNames();
    NamePrintable(t);
    NewlineLines();
    assert AllPrintable(Tabs(depth)) && AllPrintable([]);
    hide AllPrintable, Lines, TreeName, NEWLINE;
    JoinPrintable("<", TreeName(t));
    JoinPrintable("<" + TreeName(t), ">");
    JoinPrintable("</", TreeName(t));
    JoinPrintable("</" + TreeName(t), ">");
    PrintableLines(Opening(TreeName(t)));
    PrintableLines(Closing(TreeName(t)));
    PrintableLines(Tabs(depth));
    PrintableLines([]);
  }

  lemma NewlineLines()
    ensures Lines(NEWLINE)
  {
    assert NEWLINE == "\r\n" && NEWLINE[0] == '\r' && NEWLINE[1] == '\n' && |NEWLINE| == 2;
  }

  lemma {:induction false} CoreLines(t: Tree, depth: int)
    ensures Lines(Inside(t, depth)) && Lines(Core(t, depth))
    decreases t, 1
  {
    hide Lines, Opening, Closing, TreeName, Escaped, Tabs, Body;
    PartLines(t, depth);
    match t {
      case Leaf(o) => EscapedLines(Body(o));
      case Items(_, items) =>
        ItemsLines(t, items, depth);
        LinesConcat(NEWLINE, ItemsText(items, depth));
        LinesConcat(NEWLINE + ItemsText(items, depth), Tabs(depth));
      case Pairs(pairs) =>
        PairsLines(t, pairs, depth);
        LinesConcat(NEWLINE, PairsText(pairs, depth));
        LinesConcat(NEWLINE + PairsText(pairs, depth), Tabs(depth));
    }
    LinesConcat(Opening(TreeName(t)), Inside(t, depth));
    LinesConcat(Opening(TreeName(t)) + Inside(t, depth), Closing(TreeName(t)));
  }

  lemma {:induction false} ItemsLines(t: Tree, items: seq<Tree>, depth: int)
    requires t.Items? && forall i :: 0 <= i < |items| ==> items[i] in t.items
    ensures Lines(ItemsText(items, depth))
    decreases t, 0, |items|
  {
    hide Lines, Tabs, Core;
    PartLines(t, depth + 2);
    if |items| > 0 {
      var tabs, core, rest := Tabs(depth + 2), Core(items[0], depth + 2), ItemsText(items[1..], depth);
      CoreLines(items[0], depth + 2);
      ItemsLines(t, items[1..], depth);
      LinesConcat(tabs, core);
      LinesConcat(tabs + core, NEWLINE);
      LinesConcat(tabs + core + NEWLINE, rest);
    }
  }

  lemma {:induction false} PairsLines(t: Tree, pairs: seq<Entry>, depth: int)
    requires t.Pairs? && forall i :: 0 <= i < |pairs| ==> pairs[i] in t.pairs
    ensures Lines(PairsText(pairs, depth))
    decreases t, 0, |pairs|
  {
    hide Lines, Tabs, Core, EntryText;
    PartLines(t, depth + 1);
    if |pairs| > 0 {
      var tabs, e, rest := Tabs(depth + 1), EntryText(pairs[0], depth), PairsText(pairs[1..], depth);
      EntryLines(t, pairs[0], depth);
      PairsLines(t, pairs[1..], depth);
      LinesConcat(tabs, e);
      LinesConcat(tabs + e, NEWLINE);
      LinesConcat(tabs + e + NEWLINE, rest);
    }
  }

  lemma {:induction false} EntryLines(t: Tree, e: Entry, depth: int)
    requires t.Pairs? && e in t.pairs
    ensures Lines(EntryText(e, depth))
    decreases t, 0, 0
  {
    hide Lines, Tabs, Core;
    var key, mid, value := Core(e.key, depth + 1), Between(e.key, e.value, depth), Core(e.value, ValueDepth(e.value, depth));
    CoreLines(e.key, depth + 1);
    CoreLines(e.value, ValueDepth(e.value, depth));
    PartLines(t, depth + 1);
    LinesConcat(NEWLINE, Tabs(depth + 1));
    LinesConcat(if e.key.Leaf? then [] else NEWLINE, if e.value.Leaf? then [] else NEWLINE + Tabs(depth + 1));
    LinesConcat(key, mid);
    LinesConcat(key + mid, value);
  }

  lemma PrologPrintable()
    ensures AllPrintable(PROLOG)
  {
  }

  lemma HeaderPrintable()
    ensures AllPrintable("<XMLEncoder") && AllPrintable(" xmlns:xsi=\"http://www.w3.org") && AllPrintable("/2001/XMLSchema-instance\"")
    ensures AllPrintable(">") && AllPrintable(TRAILER)
  {
  }

  lemma FrameLines()
    ensures Lines(PROLOG) && Lines(HEADER) && Lines(TRAILER) && Lines(NEWLINE)
  {
    PrologPrintable();
    HeaderPrintable();
    NewlineLines();
    hide AllPrintable, Lines, PROLOG, TRAILER, NEWLINE;
    JoinPrintable("<XMLEncoder", " xmlns:xsi=\"http://www.w3.org");
    JoinPrintable("<XMLEncoder" + " xmlns:xsi=\"http://www.w3.org", "/2001/XMLSchema-instance\"");
    JoinPrintable("<XMLEncoder" + " xmlns:xsi=\"http://www.w3.org" + "/2001/XMLSchema-instance\"", ">");
    PrintableLines(PROLOG);
    PrintableLines(HEADER);
    PrintableLines(TRAILER);
  }

  /** A document consists of lines of printable characters, each ended by a carriage return and a line feed. */
  lemma DocumentLines(t: Tree)
    ensures Lines(Document(t))
  {
    hide Lines, Core, Tabs, PROLOG, HEADER, TRAILER;
    FrameLines();
    PartLines(t, 0);
    CoreLines(t, 0);
    LinesConcat(Tabs(0), Core(t, 0));
    LinesConcat(Tabs(0) + Core(t, 0), if t.Leaf? then [] else NEWLINE);
    LinesConcat(PROLOG, NEWLINE);
    LinesConcat(PROLOG + NEWLINE, HEADER);
    LinesConcat(PROLOG + NEWLINE + HEADER, NEWLINE);
    LinesConcat(PROLOG + NEWLINE + HEADER + NEWLINE, Encoded(t, 0));
    LinesConcat(PROLOG + NEWLINE + HEADER + NEWLINE + Encoded(t, 0), TRAILER);
  }

  // ----- spelling -----

  /** Control characters and the codes 128 to 255 are written as four hexadecimal digits, the markup characters by name. */
  lemma Escapes()
    ensures Escape('\n') == "&#x000A;" && Escape('\r') == "&#x000D;" && Escape('\t') == "&#x0009;" && Escape(0xE9 as char) == "&#x00E9;"
    ensures Escape('&') == "&amp;" && Escape('<') == "&lt;" && Escape('>') == "&gt;" && Escape('\'') == "&apos;" && Escape('\"') == "&quot;"
  {
    assert HexDigit(0) == '0' && HexDigit(9) == '9' && HexDigit(10) == 'A' && HexDigit(13) == 'D' && HexDigit(14) == 'E';
    assert "&#x00" + ['0', 'A'] + ";" == "&#x000A;" && "&#x00" + ['0', 'D'] + ";" == "&#x000D;";
    assert "&#x00" + ['0', '9'] + ";" == "&#x0009;" && "&#x00" + ['E', '9'] + ";" == "&#x00E9;";
  }

  lemma JoinOne(x: int, sep: char)
    ensures Join([x], sep) == Decimal(x)
  {
  }

  lemma JoinMore(x: int, rest: seq<int>, sep: char)
    requires |rest| > 0
    ensures Join([x] + rest, sep) == Decimal(x) + ([sep] + Join(rest, sep))
  {
    hide Decimal;
    var ns := [x] + rest;
    assert ns[0] == x && ns[1..] == rest;
    assert Decimal(x) + [sep] + Join(rest, sep) == Decimal(x) + ([sep] + Join(rest, sep));
  }

  lemma JoinTwo(x: int, y: int, sep: char)
    ensures Join([x, y], sep) == Decimal(x) + [sep] + Decimal(y)
  {
    hide Decimal, Join;
    JoinOne(y, sep);
    JoinMore(x, [y], sep);
    assert [x] + [y] == [x, y];
    assert Decimal(x) + ([sep] + Decimal(y)) == Decimal(x) + [sep] + Decimal(y);
  }

  /** Which tag stands for which class. */
  lemma Tags(s: string, n: int)
    ensures Name(Int(n)) == "int" && Name(Long(n)) == "long" && Name(Point(n, n)) == "point" && Name(Rect(n, n, n, n)) == "rect"
    ensures Name(Text(s)) == "string" && Name(Buffer(s)) == "StringBuffer" && Name(File(s)) == "file" && Name(Null) == "object"
    ensures Name(Rational(n, 1)) == "rational" && Name(Color(0)) == "color" && Name(Unknown) == "object" && Body(Text(s)) == s
    ensures TreeName(Items(ListKind, [])) == "list" && TreeName(Items(ArrayKind, [])) == "array" && TreeName(Items(SetKind, [])) == "set"
    ensures TreeName(Pairs([])) == "map"
  {
  }

  /** Numbers are decimal with commas between them, fractions have a slash. */
  lemma Bodies(x: int, y: int, z: int, w: int)
    ensures Body(Int(x)) == Decimal(x) && Body(Long(x)) == Decimal(x) && Body(Null) == "null" && Body(Unknown) == "null"
    ensures Body(Point(x, y)) == Decimal(x) + "," + Decimal(y) && Body(Rational(x, y)) == Decimal(x) + "/" + Decimal(y)
    ensures Body(Rect(x, y, z, w)) == Decimal(x) + "," + (Decimal(y) + "," + (Decimal(z) + "," + Decimal(w)))
  {
    hide Decimal, Join;
    JoinOne(x, ',');
    JoinTwo(x, y, ',');
    JoinTwo(x, y, '/');
    JoinTwo(z, w, ',');
    JoinMore(y, [z, w], ',');
    JoinMore(x, [y, z, w], ',');
    assert [y] + [z, w] == [y, z, w] && [x] + [y, z, w] == [x, y, z, w];
  }

  lemma {:induction false} HexShape(v: nat, n: nat, k: nat)
    requires k < |Hex(v, n)|
    ensures '0' <= Hex(v, n)[k] <= '9' || 'A' <= Hex(v, n)[k] <= 'F'
    decreases v, n
  {
    var rest := Hex(v / 16, if n == 0 then 0 else n - 1);
    if k < |rest| {
      HexShape(v / 16, if n == 0 then 0 else n - 1, k);
    }
  }

  lemma {:induction false} HexFits(v: nat, n: nat, p: nat)
    requires v < p && p == Power16(n)
    ensures |Hex(v, n)| == n
    decreases n
  {
    if n > 0 {
      HexFits(v / 16, n - 1, Power16(n - 1));
    }
  }

  function Power16(n: nat): nat {
    if n == 0 then 1 else 16 * Power16(n - 1)
  }

  /** A color is written with eight hexadecimal digits in upper case. */
  lemma ColorBody(c: nat, k: nat)
    requires c < 0x1_0000_0000 && 2 <= k < |Body(Color(c))|
    ensures |Body(Color(c))| == 10 && Body(Color(c))[..2] == "0x"
    ensures '0' <= Body(Color(c))[k] <= '9' || 'A' <= Body(Color(c))[k] <= 'F'
  {
    assert Power16(8) == 0x1_0000_0000 by { assert Power16(4) == 65536; }
    HexFits(c, 8, 0x1_0000_0000);
    hide Hex;
    HexShape(c, 8, k - 2);
  }

  // ----- layout -----

  lemma BlanksBefore(depth: nat)
    ensures |Tabs(depth)| == depth && forall k :: 0 <= k < depth ==> Tabs(depth)[k] == ' '
    ensures Tabs(-1) == ""
  {
  }

  /** Leaves stand on one line, indented by their depth. */
  lemma LeafLayout(o: Obj, depth: int)
    requires IsLeaf(o)
    ensures Encoded(Leaf(o), depth) == Tabs(depth) + ("<" + Name(o) + ">" + Escaped(Body(o)) + ("</" + Name(o) + ">"))
  {
    LeafCore(o, depth);
    hide *;
    NoNewline(o, depth);
  }

  lemma LeafCore(o: Obj, depth: int)
    ensures Core(Leaf(o), depth) == "<" + Name(o) + ">" + Escaped(Body(o)) + ("</" + Name(o) + ">")
  {
    hide Escaped, Name, Body, Tabs;
    assert TreeName(Leaf(o)) == Name(o);
    assert Inside(Leaf(o), depth) == Escaped(Body(o));
    assert Opening(Name(o)) == "<" + Name(o) + ">";
    assert Closing(Name(o)) == "</" + Name(o) + ">";
  }

  lemma NoNewline(o: Obj, depth: int)
    ensures Encoded(Leaf(o), depth) == Tabs(depth) + Core(Leaf(o), depth)
  {
    hide Core, Tabs;
  }

  /** The tags of a list, an array or a set stand on lines of their own, each element between them two blanks deeper. */
  lemma ListLayout(kind: Kind, items: seq<Tree>, depth: int)
    ensures Encoded(Items(kind, []), depth) == Tabs(depth) + ("<" + KindName(kind) + ">" + ("\r\n" + Tabs(depth)) + ("</" + KindName(kind) + ">")) + "\r\n"
    ensures |items| > 0 ==> ItemsText(items, depth) == Tabs(depth + 2) + Core(items[0], depth + 2) + "\r\n" + ItemsText(items[1..], depth)
    ensures Core(Items(kind, items), depth) == "<" + KindName(kind) + ">" + ("\r\n" + ItemsText(items, depth) + Tabs(depth)) + ("</" + KindName(kind) + ">")
  {
    hide KindName, Tabs;
    assert "\r\n" + ItemsText([], depth) == "\r\n";
  }

  /** In a map each key is one blank deeper, its value behind it on the same line, or on lines of its own if it is a collection. */
  lemma MapLayout(key: Tree, value: Tree, depth: int)
    requires key.Leaf?
    ensures value.Leaf? ==> EntryText(Entry(key, value), depth) == Core(key, depth + 1) + Core(value, -1)
    ensures !value.Leaf? ==> EntryText(Entry(key, value), depth) == Core(key, depth + 1) + ("\r\n" + Tabs(depth + 1)) + Core(value, depth + 1)
    ensures PairsText([Entry(key, value)], depth) == Tabs(depth + 1) + EntryText(Entry(key, value), depth) + "\r\n"
  {
    hide Core, Tabs;
    var pairs := [Entry(key, value)];
    assert pairs[1..] == [] && PairsText([], depth) == [];
    assert [] + (NEWLINE + Tabs(depth + 1)) == NEWLINE + Tabs(depth + 1);
    assert Core(key, depth + 1) + [] == Core(key, depth + 1);
  }

  /** The lines around the object. */
  lemma DocumentLayout(t: Tree)
    ensures Document(t) == "<?xml version=\"1.0\" encoding=\"UTF-8\"?>" + "\r\n"
      + ("<XMLEncoder" + " xmlns:xsi=\"http://www.w3.org" + "/2001/XMLSchema-instance\"" + ">") + "\r\n" + Encoded(t, 0) + "</XMLEncoder>"
  {
    hide Encoded;
  }

  // ----- other spellings that are read -----

  /** Blanks between tags, and white space in front of numbers. */
  lemma BlanksAre(c: char)
    ensures Blank(c) <==> c as int in {9, 10, 13, 32}
    ensures IsSpace(c) <==> c as int in {9, 10, 11, 12, 13, 32}
  {
  }

  /** A character may be given by four decimal digits. */
  lemma DecimalEntity(a: nat, b: nat, c: nat, d: nat)
    requires a < 10 && b < 10 && c < 10 && d < 10
    ensures Entity(['#', Digit(a), Digit(b), Digit(c), Digit(d)]) == Done((1000 * a + 100 * b + 10 * c + d) as char, 0)
  {
    var name := ['#', Digit(a), Digit(b), Digit(c), Digit(d)];
    assert UpToNul(name)[0] == '#' && "amp"[0] == 'a' && "apos"[0] == 'a' && "lt"[0] == 'l' && "gt"[0] == 'g' && "quot"[0] == 'q';
    assert DecimalValue(Digit(a)) == a && DecimalValue(Digit(b)) == b && DecimalValue(Digit(c)) == c && DecimalValue(Digit(d)) == d;
    assert name[1] != 'x';
  }

  /** Or by four hexadecimal digits in either case. */
  lemma HexEntity(name: string)
    requires |name| == 6 && name[0] == '#' && name[1] == 'x' && forall k :: 2 <= k < 6 ==> HexValue(name[k]) >= 0
    ensures var c := 4096 * HexValue(name[2]) + 256 * HexValue(name[3]) + 16 * HexValue(name[4]) + HexValue(name[5]);
      c < 0xD800 ==> Entity(name) == Done(c as char, 0)
    ensures HexValue('a') == HexValue('A') == 10 && HexValue('f') == HexValue('F') == 15 && HexValue('0') == 0 && HexValue('g') == -1
  {
    assert UpToNul(name)[0] == '#' && "amp"[0] == 'a' && "apos"[0] == 'a' && "lt"[0] == 'l' && "gt"[0] == 'g' && "quot"[0] == 'q';
  }

  lemma {:induction false} SpaceSkipped(blanks: string, s: string)
    requires (forall k :: 0 <= k < |blanks| ==> blanks[k] as int in {9, 10, 11, 12, 13, 32}) && |s| > 0 && !IsSpace(s[0])
    ensures SkipSpace(blanks + s) == s
    decreases |blanks|
  {
    if |blanks| == 0 {
      assert blanks + s == s;
    } else {
      assert (blanks + s)[0] == blanks[0] && (blanks + s)[1..] == blanks[1..] + s;
      SpaceSkipped(blanks[1..], s);
    }
  }

  /** White space before a number and a plus sign do not matter. */
  lemma SpacedNumber(blanks: string, n: nat, rest: string)
    requires (forall k :: 0 <= k < |blanks| ==> blanks[k] as int in {9, 10, 11, 12, 13, 32}) && Ends(rest)
    ensures ReadInt(blanks + ("+" + Natural(n) + rest)) == ReadInt(blanks + (Natural(n) + rest)) == Scan(n, rest)
  {
    hide Natural;
    NaturalDigits(n);
    var plain, signed := Natural(n) + rest, "+" + Natural(n) + rest;
    assert plain[0] == Natural(n)[0] && IsDigit(Natural(n)[0]);
    assert signed[0] == '+' && signed[1] == Natural(n)[0] && signed[1..] == plain;
    SpaceSkipped(blanks, plain);
    SpaceSkipped(blanks, signed);
    DecimalRead(n, rest);
    assert SkipSpace(plain) == plain;
  }

  lemma PlainHex(s: string, h: string)
    requires SkipSpace(s) == h && |h| >= 2 && HexValue(h[0]) >= 0 && HexValue(h[1]) >= 0
    ensures ReadHexNumber(s) == ReadHex(h, 0)
  {
    hide ReadHex, SkipSpace;
  }

  lemma PrefixedHex(s: string, h: string, x: char)
    requires SkipSpace(s) == ['0', x] + h && (x == 'x' || x == 'X')
    ensures ReadHexNumber(s) == ReadHex(h, 0)
  {
    hide ReadHex, SkipSpace;
    assert (['0', x] + h)[2..] == h;
  }

  lemma NegativeHex(s: string, h: string)
    requires SkipSpace(s) == ['-'] + h && |h| >= 2 && HexValue(h[1]) >= 0
    ensures ReadHexNumber(s) == (0x1_0000_0000 - ReadHex(h, 0) % 0x1_0000_0000) % 0x1_0000_0000
  {
    hide ReadHex, SkipSpace;
    assert (['-'] + h)[1..] == h;
  }

  lemma HexStart(v: nat, n: nat)
    requires n >= 2
    ensures |Hex(v, n)| >= 2 && HexValue(Hex(v, n)[0]) >= 0 && HexValue(Hex(v, n)[1]) >= 0 && ReadHex(Hex(v, n), 0) == v
    ensures !IsSpace(Hex(v, n)[0]) && !IsSpace('0') && !IsSpace('-')
  {
    HexLength(v, n);
    HexRead(v, n);
    hide Hex, ReadHex;
  }

  lemma Negated(v: nat)
    requires 0 < v < 0x1_0000_0000
    ensures (0x1_0000_0000 - v % 0x1_0000_0000) % 0x1_0000_0000 == 0x1_0000_0000 - v
  {
  }

  /** White space, a minus sign and another 0x in front of the digits of a color. */
  lemma SpacedHex(blanks: string, v: nat, n: nat)
    requires (forall k :: 0 <= k < |blanks| ==> blanks[k] as int in {9, 10, 11, 12, 13, 32}) && n >= 2 && v < 0x1_0000_0000
    ensures ReadHexNumber(blanks + Hex(v, n)) == v && ReadHexNumber(blanks + (['0', 'x'] + Hex(v, n))) == v
    ensures v > 0 ==> ReadHexNumber(blanks + (['-'] + Hex(v, n))) == 0x1_0000_0000 - v
  {
    hide *;
    HexStart(v, n);
    var h := Hex(v, n);
    SpaceSkipped(blanks, h);
    SpaceSkipped(blanks, ['0', 'x'] + h);
    SpaceSkipped(blanks, ['-'] + h);
    PlainHex(blanks + h, h);
    PrefixedHex(blanks + (['0', 'x'] + h), h, 'x');
    NegativeHex(blanks + (['-'] + h), h);
    if v > 0 {
      Negated(v);
    }
  }

  /** A zero denominator is read as 1, an escaped closing tag as 0/1 and the end of the element. */
  lemma OddRationals(n: int, s: string, pos: nat, p: nat)
    ensures LeafOf("rational", Join([n, 0], '/')) == Done(Rational(n, 1), 0)
    ensures NextValue(s, pos) == Done("</rational>", p) ==> DecodeLeaf(s, pos, "rational") == Done(Rational(0, 1), p)
  {
    hide Join, ReadInts, NextValue;
    JoinRead([n, 0], [0, 1], '/');
    assert "rational" != "object" && "rational"[1] == 'a' && "object"[1] == 'b' && "int"[1] == 'n' && "long"[1] == 'o';
    assert "point"[1] == 'o' && "rect"[1] == 'e' && "color"[1] == 'o' && "string"[1] == 't' && "file"[1] == 'i' && "StringBuffer"[1] == 't';
    assert "<" + "/" + "rational" + ">" == "</rational>";
  }
}
