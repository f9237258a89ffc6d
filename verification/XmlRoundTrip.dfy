/** Decoding what XMLEncoder wrote (inc/tiny.h): which trees come back, and which do not. */
module XmlRoundTrip {
  import opened XmlNumbers
  import opened XmlText
  import opened XmlTree
  import opened XmlDecoder

  // ----- tags -----

  ghost predicate Letters(name: string) {
    |name| > 0 && forall k :: 0 <= k < |name| ==> 'A' <= name[k] <= 'Z' || 'a' <= name[k] <= 'z'
  }

  lemma LeafLetters(o: Obj)
    ensures Letters(Name(o)) && Name(o)[0] in "oilprcsSf"
  {
  }

  lemma TreeLetters(t: Tree)
    ensures Letters(TreeName(t))
  {
    if t.Leaf? {
      hide Name;
      LeafLetters(t.o);
    }
  }

  lemma TagsOf(name: string)
    requires Letters(name)
    ensures IsTag(Opening(name)) && IsTag(Closing(name))
  {
  }

  lemma LeafTags(o: Obj)
    ensures IsTag(Opening(Name(o))) && IsTag(Closing(Name(o)))
  {
    hide *;
    LeafLetters(o);
    TagsOf(Name(o));
  }

  lemma TreeTags(t: Tree)
    ensures IsTag(Opening(TreeName(t))) && IsTag(Closing(TreeName(t)))
  {
    hide *;
    TreeLetters(t);
    TagsOf(TreeName(t));
  }

  /** An opening tag is no closing tag. */
  lemma OpeningIsNotClosing(t: Tree, name: string)
    ensures Opening(TreeName(t)) != Closing(name)
  {
    hide TreeName;
    TreeLetters(t);
    var a, b := Opening(TreeName(t)), Closing(name);
    assert b[1] == '/';
    assert a[1] == TreeName(t)[0];
  }

  lemma CollectionNames(t: Tree)
    requires !t.Leaf?
    ensures LeafName(Opening(TreeName(t))) == ""
    ensures t.Items? ==> CollectionKind(Opening(TreeName(t))) == Done(t.kind, 0)
    ensures t.Pairs? ==> CollectionKind(Opening(TreeName(t))).Failed? && Opening(TreeName(t)) == "<map>"
  {
    assert Opening("list") == "<list>" && Opening("array") == "<array>" && Opening("set") == "<set>" && Opening("map") == "<map>";
    var a := Opening(TreeName(t));
    assert a[1] in ['l', 'a', 's', 'm'];
    assert "<list>"[2] == 'i' && "<long>"[2] == 'o';
    assert "<map>"[1] == 'm' && "<set>"[1] == 's' && "<int>"[1] == 'i';
  }

  /** No opening tag has a slash. */
  lemma SlashUnknown(tag: string)
    requires |tag| > 1 && tag[1] == '/'
    ensures LeafName(tag) == "" && CollectionKind(tag).Failed? && tag != "<map>"
  {
  }

  lemma SameClosing(a: string, b: string)
    requires Closing(a) == Closing(b)
    ensures a == b
  {
    var c := Closing(a);
    assert c[2..|c| - 1] == a;
    assert c[2..|c| - 1] == b;
  }

  lemma NoCollection(o: Obj)
    ensures Name(o) != "list" && Name(o) != "set" && Name(o) != "array" && Name(o) != "map"
  {
    assert Name(o) != "list" by {
      assert "list"[1] == 'i';
      assert "long"[1] == 'o' && "rect"[0] == 'r' && "file"[0] == 'f';
    }
    assert Name(o) != "set" && Name(o) != "map" by {
      assert "int"[0] == 'i';
    }
    LeafLetters(o);
  }

  /** The closing tag of a leaf is not what the decoder goes on with. */
  lemma ClosingUnknown(s: string, pos: nat, o: Obj)
    requires pos <= |s|
    ensures DecodeObject(s, pos, Closing(Name(o))) == Failed
    ensures (forall kind :: Closing(Name(o)) != Closing(KindName(kind))) && Closing(Name(o)) != Closing("map")
    ensures !("</XMLEncoder" <= Closing(Name(o)))
  {
    hide Name, LeafName, CollectionKind, DecodeItems, DecodePairs;
    var c := Closing(Name(o));
    assert c[1] == '/';
    SlashUnknown(c);
    NoCollection(o);
    forall kind
      ensures c != Closing(KindName(kind))
    {
      if c == Closing(KindName(kind)) {
        SameClosing(Name(o), KindName(kind));
      }
    }
    if c == Closing("map") {
      SameClosing(Name(o), "map");
    }
    LeafLetters(o);
    assert c[2] == Name(o)[0];
    assert "</XMLEncoder"[2] == 'X';
  }

  // ----- leaves -----

  /** A leaf comes back; but a text that reads like its own closing tag is taken for an empty one, and the closing tag is
      left unread. */
  lemma LeafRound(s: string, pos: nat, o: Obj)
    requires pos <= |s| && At(s, pos, Escaped(Body(o)) + Closing(Name(o))) && IsLeaf(o) && (o.Rational? ==> o.d != 0)
    ensures !OwnClosing(o) ==> DecodeLeaf(s, pos, Name(o)) == Done(StripObj(o), pos + |Escaped(Body(o))| + |Closing(Name(o))|)
    ensures OwnClosing(o) ==> DecodeLeaf(s, pos, Name(o)).Done? && DecodeLeaf(s, pos, Name(o)).pos == pos + |Escaped(Body(o))|
  {
    hide NextValue, NextTag, LeafOf, Body, Name, Escaped, Stripped, At, IsTag;
    var e, c := Escaped(Body(o)), Closing(Name(o));
    assert e + c == (e + "<") + ("/" + Name(o) + ">");
    AtSplit(s, pos, e + "<", "/" + Name(o) + ">");
    ValueDecodes(s, pos, Body(o));
    BodyRead(o);
    AtSplit(s, pos, e, c);
    LeafTags(o);
    assert [] + c == c;
    TagDecodes(s, pos + |e|, [], c);
    TextOfLeaf(o);
  }

  /** Only a text can read like a closing tag. */
  lemma TextOfLeaf(o: Obj)
    requires IsLeaf(o)
    ensures MayBeEmpty(Name(o)) && Stripped(Body(o)) == Closing(Name(o)) <==> OwnClosing(o)
    ensures IsText(o) ==> EmptyLeaf(Name(o)).Done?
  {
    hide Join, Stripped;
    if o.Rational? {
      JoinPlain([o.n, o.d], '/');
      PlainStays(Body(o));
      assert Closing(Name(o))[0] == '<' && !Plain('<');
      PlainFirst(Body(o));
    }
    assert "string" != "rational" && "file" != "rational";
    if !IsText(o) && !o.Rational? {
      NoText(o);
    }
  }

  lemma PlainFirst(x: string)
    requires AllPlain(x)
    ensures |x| > 0 ==> Plain(x[0])
  {
  }

  lemma NoText(o: Obj)
    requires !IsText(o) && !o.Rational?
    ensures !MayBeEmpty(Name(o))
  {
    assert "object"[0] == 'o' && "int"[0] == 'i' && "long"[0] == 'l' && "point"[0] == 'p' && "rect"[1] == 'e' && "color"[0] == 'c';
    assert "string"[0] == 's' && "file"[0] == 'f' && "StringBuffer"[0] == 'S' && "rational"[1] == 'a' && "rational"[0] == 'r';
  }

  // ----- texts behind the decoder's positions -----

  function ItemsTail(items: seq<Tree>, depth: int, kind: Kind): string {
    ItemsText(items, depth) + Tabs(depth) + Closing(KindName(kind))
  }

  lemma ItemsTailStep(b: string, items: seq<Tree>, depth: int, kind: Kind)
    requires |items| > 0
    ensures b + ItemsTail(items, depth, kind)
         == (b + Tabs(depth + 2)) + (Core(items[0], depth + 2) + (NEWLINE + ItemsTail(items[1..], depth, kind)))
  {
    hide *;
    ItemsTextIs(items, depth);
    ItemsTailIs(items, depth, kind);
    ItemsTailIs(items[1..], depth, kind);
    RegroupItem(b, Tabs(depth + 2), Core(items[0], depth + 2), NEWLINE, ItemsText(items[1..], depth), Tabs(depth), Closing(KindName(kind)));
  }

  lemma ItemsTextIs(items: seq<Tree>, depth: int)
    requires |items| > 0
    ensures ItemsText(items, depth) == Tabs(depth + 2) + Core(items[0], depth + 2) + NEWLINE + ItemsText(items[1..], depth)
  {
    hide Core, Tabs;
  }

  lemma ItemsTailIs(items: seq<Tree>, depth: int, kind: Kind)
    ensures ItemsTail(items, depth, kind) == ItemsText(items, depth) + Tabs(depth) + Closing(KindName(kind))
  {
  }

  lemma RegroupItem(b: string, t: string, c: string, n: string, r: string, e: string, f: string)
    ensures b + (t + c + n + r + e + f) == (b + t) + (c + (n + (r + e + f)))
  {
  }

  function PairsTail(pairs: seq<Entry>, depth: int): string {
    PairsText(pairs, depth) + Tabs(depth) + Closing("map")
  }

  lemma PairsTailStep(b: string, pairs: seq<Entry>, depth: int)
    requires |pairs| > 0
    ensures b + PairsTail(pairs, depth)
         == (b + Tabs(depth + 1)) + (Core(pairs[0].key, depth + 1) + (Between(pairs[0].key, pairs[0].value, depth)
            + (Core(pairs[0].value, ValueDepth(pairs[0].value, depth)) + (NEWLINE + PairsTail(pairs[1..], depth)))))
  {
    hide Core, Tabs, Between, ValueDepth;
    var k, m, v := Core(pairs[0].key, depth + 1), Between(pairs[0].key, pairs[0].value, depth),
                   Core(pairs[0].value, ValueDepth(pairs[0].value, depth));
    var rest, tab, end := PairsText(pairs[1..], depth), Tabs(depth + 1), Tabs(depth) + Closing("map");
    assert PairsText(pairs, depth) == tab + (k + m + v) + NEWLINE + rest;
    Regroup(b, tab, k, m, v, NEWLINE, rest, end);
    assert PairsTail(pairs, depth) == PairsText(pairs, depth) + end;
    assert PairsTail(pairs[1..], depth) == rest + end;
  }

  lemma Regroup(b: string, t: string, k: string, m: string, v: string, n: string, r: string, e: string)
    ensures b + ((t + (k + m + v) + n + r) + e) == (b + t) + (k + (m + (v + (n + (r + e)))))
  {
  }

  lemma BlankThen(b: string, c: string)
    requires AllBlank(b) && AllBlank(c)
    ensures AllBlank(b + c)
  {
  }

  lemma NewlineBlank()
    ensures AllBlank(NEWLINE) && AllBlank([])
  {
  }

  /** The opening tag of an object behind blanks. */
  lemma OpeningRead(s: string, pos: nat, b: string, t: Tree, depth: int, rest: string)
    requires At(s, pos, b + (Core(t, depth) + rest)) && AllBlank(b)
    ensures NextTag(s, pos) == Done(Opening(TreeName(t)), pos + |b| + |Opening(TreeName(t))|)
    ensures pos + |b| + |Opening(TreeName(t))| <= |s|
    ensures At(s, pos + |b|, Core(t, depth)) && At(s, pos + |b| + |Core(t, depth)|, rest)
  {
    hide NextTag, At, AllBlank, TreeName, Inside, Opening, Closing, IsTag;
    AtSplit(s, pos, b, Core(t, depth) + rest);
    AtSplit(s, pos + |b|, Core(t, depth), rest);
    CoreIs(t, depth);
    AtSplit(s, pos + |b|, Opening(TreeName(t)), Inside(t, depth) + Closing(TreeName(t)));
    AtSplit(s, pos, b, Opening(TreeName(t)));
    TreeTags(t);
    TagDecodes(s, pos, b, Opening(TreeName(t)));
    AtInside(s, pos + |b|, Opening(TreeName(t)));
  }

  lemma CoreIs(t: Tree, depth: int)
    ensures Core(t, depth) == Opening(TreeName(t)) + (Inside(t, depth) + Closing(TreeName(t)))
  {
    hide Inside;
  }

  lemma AtInside(s: string, pos: nat, x: string)
    requires At(s, pos, x)
    ensures pos + |x| <= |s|
  {
  }

  // ----- trees -----

  /** A clean tree comes back, and the decoder stops right behind its closing tag; in any other tree it stops in front of a
      closing tag if the tree is a text, and fails if the text is further inside. */
  lemma {:induction false} ObjectRound(s: string, pos: nat, t: Tree, depth: int)
    requires At(s, pos, Core(t, depth)) && ValidTree(t)
    ensures pos + |Opening(TreeName(t))| <= |s|
    ensures Clean(t) ==> DecodeObject(s, pos + |Opening(TreeName(t))|, Opening(TreeName(t))) == Done(Value(StripTree(t)), pos + |Core(t, depth)|)
    ensures !Clean(t) && !t.Leaf? ==> DecodeObject(s, pos + |Opening(TreeName(t))|, Opening(TreeName(t))) == Failed
    ensures !Clean(t) && t.Leaf? ==> LeftUnread(s, DecodeObject(s, pos + |Opening(TreeName(t))|, Opening(TreeName(t))), t.o)
    decreases t, 1
  {
    hide *;
    CoreIs(t, depth);
    var open, rest := Opening(TreeName(t)), Inside(t, depth) + Closing(TreeName(t));
    AtSplit(s, pos, open, rest);
    AtInside(s, pos, open);
    match t {
      case Leaf(o) => LeafObject(s, pos + |open|, t, depth);
      case Items(kind, items) =>
        ValidParts(t);
        ItemsInside(t, depth);
        NewlineBlank();
        ItemsRound(s, pos + |open|, NEWLINE, items, depth, kind);
        ItemsObject(s, pos + |open|, t);
      case Pairs(pairs) =>
        ValidParts(t);
        ItemsInside(t, depth);
        NewlineBlank();
        PairsRound(s, pos + |open|, NEWLINE, pairs, depth);
        PairsObject(s, pos + |open|, t);
    }
  }

  /** The decoder returned, but stands in front of the closing tag of o. */
  ghost predicate LeftUnread(s: string, r: Parsed<Obj>, o: Obj) {
    r.Done? && At(s, r.pos, Closing(Name(o)))
  }

  lemma LeafObject(s: string, pos: nat, t: Tree, depth: int)
    requires pos <= |s| && t.Leaf? && ValidTree(t) && At(s, pos, Inside(t, depth) + Closing(TreeName(t)))
    ensures Clean(t) ==> DecodeObject(s, pos, Opening(TreeName(t))) == Done(Value(StripTree(t)), pos + |Inside(t, depth)| + |Closing(TreeName(t))|)
    ensures !Clean(t) ==> LeftUnread(s, DecodeObject(s, pos, Opening(TreeName(t))), t.o)
  {
    hide Name, Body, Escaped, Opening, Closing, At, LeafName, DecodeLeaf, OwnClosing;
    LeafRound(s, pos, t.o);
    LeafNames(t.o);
    AtSplit(s, pos, Escaped(Body(t.o)), Closing(Name(t.o)));
  }

  lemma ItemsInside(t: Tree, depth: int)
    ensures t.Items? ==> Inside(t, depth) + Closing(TreeName(t)) == NEWLINE + ItemsTail(t.items, depth, t.kind)
    ensures t.Pairs? ==> Inside(t, depth) + Closing(TreeName(t)) == NEWLINE + PairsTail(t.pairs, depth)
  {
    hide Tabs, ItemsText, PairsText, Closing;
  }

  lemma ItemsObject(s: string, pos: nat, t: Tree)
    requires pos <= |s| && t.Items?
    ensures var r := DecodeItems(s, pos, Closing(KindName(t.kind)));
      DecodeObject(s, pos, Opening(TreeName(t))) == if r.Done? then Done(FromItems(t.kind, r.value), r.pos) else Failed
    ensures Value(StripTree(t)) == FromItems(t.kind, Values(StripTrees(t.items)))
    ensures Clean(t) <==> AllClean(t.items)
  {
    hide FromItems, LeafName, CollectionKind, DecodeItems, Opening, Closing;
    CollectionNames(t);
  }

  lemma PairsObject(s: string, pos: nat, t: Tree)
    requires pos <= |s| && t.Pairs?
    ensures var r := DecodePairs(s, pos);
      DecodeObject(s, pos, Opening(TreeName(t))) == if r.Done? then Done(HashMap(FromPairs(r.value)), r.pos) else Failed
    ensures Value(StripTree(t)) == HashMap(FromPairs(PairValues(StripEntries(t.pairs))))
    ensures Clean(t) <==> EntriesClean(t.pairs)
  {
    hide FromPairs, LeafName, CollectionKind, DecodePairs, Opening, Closing;
    CollectionNames(t);
  }

  /** All trees of a list, or of the entries of a map, are valid. */
  ghost predicate AllValid(items: seq<Tree>) {
    forall i :: 0 <= i < |items| ==> ValidTree(items[i])
  }

  ghost predicate EntriesValid(pairs: seq<Entry>) {
    forall i :: 0 <= i < |pairs| ==> EntryValid(pairs[i])
  }

  ghost predicate EntryValid(e: Entry) {
    ValidTree(e.key) && ValidTree(e.value)
  }

  lemma ValidParts(t: Tree)
    requires ValidTree(t)
    ensures t.Items? ==> AllValid(t.items)
    ensures t.Pairs? ==> EntriesValid(t.pairs)
  {
  }

  /** Where a closing tag was left unread, the decoder fails on it. */
  lemma Unread(s: string, r: Parsed<Obj>, o: Obj)
    requires LeftUnread(s, r, o)
    ensures r.Done? && NextTag(s, r.pos) == Done(Closing(Name(o)), r.pos + |Closing(Name(o))|) && r.pos + |Closing(Name(o))| <= |s|
    ensures DecodeObject(s, r.pos + |Closing(Name(o))|, Closing(Name(o))) == Failed
    ensures (forall kind :: Closing(Name(o)) != Closing(KindName(kind))) && Closing(Name(o)) != Closing("map")
    ensures !("</XMLEncoder" <= Closing(Name(o)))
  {
    hide NextTag, DecodeObject, Name, Closing, At, IsTag, AllBlank;
    assert [] + Closing(Name(o)) == Closing(Name(o));
    NewlineBlank();
    LeafTags(o);
    TagDecodes(s, r.pos, [], Closing(Name(o)));
    AtInside(s, r.pos, Closing(Name(o)));
    ClosingUnknown(s, r.pos + |Closing(Name(o))|, o);
  }

  /** The closing tag of a collection behind blanks. */
  lemma ClosingRead(s: string, pos: nat, b: string, name: string)
    requires At(s, pos, b + Closing(name)) && AllBlank(b) && Letters(name)
    ensures NextTag(s, pos) == Done(Closing(name), pos + |b| + |Closing(name)|)
  {
    hide *;
    TagsOf(name);
    TagDecodes(s, pos, b, Closing(name));
  }

  lemma KindLetters(kind: Kind)
    ensures Letters(KindName(kind)) && Letters("map")
  {
  }

  /** One step of the loop over elements. */
  lemma ItemsStep(s: string, pos: nat, close: string)
    requires pos <= |s|
    ensures var r := NextTag(s, pos);
      DecodeItems(s, pos, close) ==
        if r.Failed? then Failed
        else if r.value == close then Done([], r.pos)
        else
          var o := DecodeObject(s, r.pos, r.value);
          if o.Failed? then Failed
          else
            var rest := DecodeItems(s, o.pos, close);
            if rest.Failed? then Failed else Done([o.value] + rest.value, rest.pos)
  {
    hide NextTag, DecodeObject;
  }

  lemma PairsStep(s: string, pos: nat)
    requires pos <= |s|
    ensures Closing("map") == "</map>"
    ensures var r := NextTag(s, pos);
      DecodePairs(s, pos) ==
        if r.Failed? then Failed
        else if r.value == Closing("map") then Done([], r.pos)
        else
          var e := DecodeEntry(s, r.pos, r.value);
          if e.Failed? then Failed
          else
            var rest := DecodePairs(s, e.pos);
            if rest.Failed? then Failed else Done([e.value] + rest.value, rest.pos)
  {
    assert "</" + "map" + ">" == "</map>";
    hide NextTag, DecodeObject, DecodeEntry;
  }

  lemma ItemsParts(items: seq<Tree>)
    requires |items| > 0 && AllValid(items)
    ensures ValidTree(items[0]) && AllValid(items[1..])
    ensures AllClean(items) <==> Clean(items[0]) && AllClean(items[1..])
    ensures Values(StripTrees(items)) == [Value(StripTree(items[0]))] + Values(StripTrees(items[1..]))
  {
    var r := StripTrees(items);
    assert r[0] == StripTree(items[0]) && r[1..] == StripTrees(items[1..]);
  }

  lemma NoItems()
    ensures AllClean([]) && Values(StripTrees([])) == [] && EntriesClean([]) && PairValues(StripEntries([])) == []
  {
  }

  lemma EmptyTail(b: string, depth: int, kind: Kind)
    ensures b + ItemsTail([], depth, kind) == b + Tabs(depth) + Closing(KindName(kind))
    ensures b + PairsTail([], depth) == b + Tabs(depth) + Closing("map")
    ensures AllBlank(b) ==> AllBlank(b + Tabs(depth))
  {
  }

  /** The elements of a collection, behind blanks. */
  lemma {:induction false} ItemsRound(s: string, pos: nat, b: string, items: seq<Tree>, depth: int, kind: Kind)
    requires At(s, pos, b + ItemsTail(items, depth, kind)) && AllBlank(b) && AllValid(items) && pos <= |s|
    ensures AllClean(items) ==>
      DecodeItems(s, pos, Closing(KindName(kind))) == Done(Values(StripTrees(items)), pos + |b| + |ItemsTail(items, depth, kind)|)
    ensures !AllClean(items) ==> DecodeItems(s, pos, Closing(KindName(kind))) == Failed
    decreases items
  {
    hide *;
    var close := Closing(KindName(kind));
    ItemsStep(s, pos, close);
    KindLetters(kind);
    NewlineBlank();
    if |items| == 0 {
      EmptyTail(b, depth, kind);
      ClosingRead(s, pos, b + Tabs(depth), KindName(kind));
      NoItems();
    } else {
      ItemsTailStep(b, items, depth, kind);
      ItemsParts(items);
      BlankThen(b, Tabs(depth + 2));
      var one, rest := items[0], NEWLINE + ItemsTail(items[1..], depth, kind);
      var p := pos + |b + Tabs(depth + 2)|;
      OpeningRead(s, pos, b + Tabs(depth + 2), one, depth + 2, rest);
      OpeningIsNotClosing(one, KindName(kind));
      ObjectRound(s, p, one, depth + 2);
      if Clean(one) {
        AtInside(s, p, Core(one, depth + 2));
        ItemsRound(s, p + |Core(one, depth + 2)|, NEWLINE, items[1..], depth, kind);
      } else if one.Leaf? {
        var r := DecodeObject(s, p + |Opening(TreeName(one))|, Opening(TreeName(one)));
        Unread(s, r, one.o);
        ItemsStep(s, r.pos, close);
      }
    }
  }

  lemma PairsParts(pairs: seq<Entry>)
    requires |pairs| > 0 && EntriesValid(pairs)
    ensures EntryValid(pairs[0]) && EntriesValid(pairs[1..])
    ensures EntriesClean(pairs) <==> EntryClean(pairs[0]) && EntriesClean(pairs[1..])
    ensures PairValues(StripEntries(pairs)) == [PairValue(StripEntry(pairs[0]))] + PairValues(StripEntries(pairs[1..]))
  {
    var r := StripEntries(pairs);
    assert r[0] == StripEntry(pairs[0]) && r[1..] == StripEntries(pairs[1..]);
  }

  lemma EntryParts(e: Entry)
    ensures EntryValid(e) <==> ValidTree(e.key) && ValidTree(e.value)
    ensures EntryClean(e) <==> Clean(e.key) && Clean(e.value)
    ensures PairValue(StripEntry(e)) == (Value(StripTree(e.key)), Value(StripTree(e.value)))
  {
  }

  lemma EntryStep(s: string, pos: nat, tag: string)
    requires pos <= |s|
    ensures var k := DecodeObject(s, pos, tag);
      DecodeEntry(s, pos, tag) ==
        if k.Failed? then Failed
        else
          var r := NextTag(s, k.pos);
          if r.Failed? then Failed
          else
            var v := DecodeObject(s, r.pos, r.value);
            if v.Failed? then Failed else Done((k.value, v.value), v.pos)
  {
    hide NextTag, DecodeObject;
  }

  /** What is read of an entry whose value is a text that reads like its closing tag. */
  ghost predicate EntryUnread(s: string, r: Parsed<(Obj, Obj)>, e: Entry) {
    r.Failed? || (e.value.Leaf? && LeftUnread(s, Done(r.value.1, r.pos), e.value.o))
  }

  /** An entry at its key. */
  lemma {:induction false} EntryRound(s: string, pos: nat, e: Entry, depth: int, rest: string)
    requires EntryValid(e) && pos <= |s|
    requires At(s, pos, Core(e.key, depth + 1) + (Between(e.key, e.value, depth) + (Core(e.value, ValueDepth(e.value, depth)) + rest)))
    ensures pos + |Opening(TreeName(e.key))| <= |s|
    ensures EntryClean(e) ==>
      DecodeEntry(s, pos + |Opening(TreeName(e.key))|, Opening(TreeName(e.key))) ==
        Done(PairValue(StripEntry(e)), pos + |Core(e.key, depth + 1)| + |Between(e.key, e.value, depth)| + |Core(e.value, ValueDepth(e.value, depth))|)
    ensures !EntryClean(e) ==> EntryUnread(s, DecodeEntry(s, pos + |Opening(TreeName(e.key))|, Opening(TreeName(e.key))), e)
    ensures At(s, pos + |Core(e.key, depth + 1)| + |Between(e.key, e.value, depth)| + |Core(e.value, ValueDepth(e.value, depth))|, rest)
    decreases e
  {
    hide *;
    EntryParts(e);
    var k, b, v := Core(e.key, depth + 1), Between(e.key, e.value, depth), Core(e.value, ValueDepth(e.value, depth));
    AtSplit(s, pos, k, b + (v + rest));
    ObjectRound(s, pos, e.key, depth + 1);
    EntryStep(s, pos + |Opening(TreeName(e.key))|, Opening(TreeName(e.key)));
    OpeningRead(s, pos + |k|, b, e.value, ValueDepth(e.value, depth), rest);
    ObjectRound(s, pos + |k| + |b|, e.value, ValueDepth(e.value, depth));
    var r := DecodeObject(s, pos + |Opening(TreeName(e.key))|, Opening(TreeName(e.key)));
    if !Clean(e.key) {
      if e.key.Leaf? {
        Unread(s, r, e.key.o);
      }
      EntryUnreadIs(s, DecodeEntry(s, pos + |Opening(TreeName(e.key))|, Opening(TreeName(e.key))), e);
    } else {
      EntryUnreadIs(s, DecodeEntry(s, pos + |Opening(TreeName(e.key))|, Opening(TreeName(e.key))), e);
      if !Clean(e.value) && e.value.Leaf? {
        UnreadSame(s, DecodeObject(s, pos + |k| + |b| + |Opening(TreeName(e.value))|, Opening(TreeName(e.value))), e.value.o);
      }
    }
  }

  lemma EntryUnreadIs(s: string, r: Parsed<(Obj, Obj)>, e: Entry)
    ensures EntryUnread(s, r, e) <==> r.Failed? || (e.value.Leaf? && LeftUnread(s, Done(r.value.1, r.pos), e.value.o))
  {
  }

  lemma UnreadSame(s: string, r: Parsed<Obj>, o: Obj)
    requires LeftUnread(s, r, o)
    ensures r.Done? && LeftUnread(s, Done(r.value, r.pos), o)
  {
  }

  /** The entries of a map, behind blanks. */
  lemma {:induction false} PairsRound(s: string, pos: nat, b: string, pairs: seq<Entry>, depth: int)
    requires At(s, pos, b + PairsTail(pairs, depth)) && AllBlank(b) && EntriesValid(pairs) && pos <= |s|
    ensures EntriesClean(pairs) ==> DecodePairs(s, pos) == Done(PairValues(StripEntries(pairs)), pos + |b| + |PairsTail(pairs, depth)|)
    ensures !EntriesClean(pairs) ==> DecodePairs(s, pos) == Failed
    decreases pairs
  {
    hide *;
    PairsStep(s, pos);
    KindLetters(ListKind);
    NewlineBlank();
    if |pairs| == 0 {
      EmptyTail(b, depth, ListKind);
      ClosingRead(s, pos, b + Tabs(depth), "map");
      NoItems();
    } else {
      PairsTailStep(b, pairs, depth);
      PairsParts(pairs);
      BlankThen(b, Tabs(depth + 1));
      var e, rest := pairs[0], NEWLINE + PairsTail(pairs[1..], depth);
      var p := pos + |b + Tabs(depth + 1)|;
      var behind := Between(e.key, e.value, depth) + (Core(e.value, ValueDepth(e.value, depth)) + rest);
      OpeningRead(s, pos, b + Tabs(depth + 1), e.key, depth + 1, behind);
      AtSplit(s, pos, b + Tabs(depth + 1), Core(e.key, depth + 1) + behind);
      OpeningIsNotClosing(e.key, "map");
      AtInside(s, p, Core(e.key, depth + 1));
      EntryRound(s, p, e, depth, rest);
      var r := DecodeEntry(s, p + |Opening(TreeName(e.key))|, Opening(TreeName(e.key)));
      if EntryClean(e) {
        AtInside(s, r.pos, rest);
        PairsRound(s, r.pos, NEWLINE, pairs[1..], depth);
      } else {
        EntryUnreadIs(s, r, e);
        if r.Done? {
          Unread(s, Done(r.value.1, r.pos), e.value.o);
          PairsStep(s, r.pos);
          EntryStep(s, r.pos + |Closing(Name(e.value.o))|, Closing(Name(e.value.o)));
        }
      }
    }
  }

  // ----- documents -----

  /** Neither > nor NUL. */
  ghost predicate Inner(s: string) {
    forall k :: 0 <= k < |s| ==> s[k] != '>' && s[k] != '\0'
  }

  lemma InnerBoth(a: string, b: string)
    requires Inner(a) && Inner(b)
    ensures Inner(a + b)
  {
  }

  lemma InnerTag(a: string)
    requires Inner(a) && |a| > 0 && a[0] == '<'
    ensures IsTag(a + ">")
  {
  }

  lemma HeaderTag()
    ensures IsTag(HEADER) && "<XMLEncoder" <= HEADER
  {
    var a, b, c := "<XMLEncoder", " xmlns:xsi=\"http://www.w3.org", "/2001/XMLSchema-instance\"";
    assert Inner(a) && Inner(b) && Inner(c);
    InnerBoth(a, b);
    InnerBoth(a + b, c);
    InnerTag(a + b + c);
    assert HEADER == a + b + c + ">";
    Begins(a, b, c, ">");
  }

  lemma Begins(a: string, b: string, c: string, d: string)
    ensures a <= a + b + c + d
  {
  }

  lemma FrameTags()
    ensures IsTag(PROLOG) && IsTag(HEADER) && IsTag(TRAILER)
    ensures "<XMLEncoder" <= HEADER && "</XMLEncoder" <= TRAILER
  {
    HeaderTag();
  }

  /** What follows the header. */
  function AfterHeader(t: Tree): string {
    (NEWLINE + Tabs(0)) + (Core(t, 0) + AfterObject(t))
  }

  function AfterObject(t: Tree): string {
    (if t.Leaf? then [] else NEWLINE) + TRAILER
  }

  lemma DocumentIs(t: Tree)
    ensures Document(t) == PROLOG + ((NEWLINE + HEADER) + AfterHeader(t))
    ensures AllBlank(NEWLINE + Tabs(0)) && AllBlank(if t.Leaf? then [] else NEWLINE)
  {
    hide Core;
    Regroup6(PROLOG, NEWLINE, HEADER, Tabs(0), Core(t, 0), if t.Leaf? then [] else NEWLINE, TRAILER);
  }

  lemma Regroup6(p: string, n: string, h: string, t: string, c: string, e: string, r: string)
    ensures p + n + h + n + (t + c + e) + r == p + ((n + h) + ((n + t) + (c + (e + r))))
  {
  }

  /** XMLDecoder.decode returns exactly the clean trees, their texts without NULs, and stops behind the last tag; it fails on all
      other trees. */
  lemma DocumentRound(t: Tree)
    requires ValidTree(t)
    ensures Decode(Document(t)) == if Clean(t) then Done(Value(StripTree(t)), |Document(t)|) else Failed
  {
    hide *;
    var s := Document(t);
    DocumentIs(t);
    FrameTags();
    NewlineBlank();
    WholeAt(s);
    AtSplit(s, 0, PROLOG, (NEWLINE + HEADER) + AfterHeader(t));
    assert [] + PROLOG == PROLOG;
    TagDecodes(s, 0, [], PROLOG);
    var p1 := |PROLOG|;
    AtSplit(s, p1, NEWLINE + HEADER, AfterHeader(t));
    TagDecodes(s, p1, NEWLINE, HEADER);
    var p2 := p1 + |NEWLINE| + |HEADER|;
    assert AfterHeader(t) == (NEWLINE + Tabs(0)) + (Core(t, 0) + AfterObject(t)) by { AfterIs(t); }
    OpeningRead(s, p2, NEWLINE + Tabs(0), t, 0, AfterObject(t));
    var p3 := p2 + |NEWLINE + Tabs(0)|;
    ObjectRound(s, p3, t, 0);
    DecodeStep(s);
    var p4 := p3 + |Core(t, 0)|;
    if Clean(t) {
      AfterIs(t);
      TagDecodes(s, p4, if t.Leaf? then [] else NEWLINE, TRAILER);
      LengthIs(s, t);
    } else if t.Leaf? {
      Unread(s, DecodeObject(s, p3 + |Opening(TreeName(t))|, Opening(TreeName(t))), t.o);
    }
  }

  lemma WholeAt(s: string)
    ensures At(s, 0, s)
  {
  }

  lemma AfterIs(t: Tree)
    ensures AfterHeader(t) == (NEWLINE + Tabs(0)) + (Core(t, 0) + AfterObject(t))
    ensures AfterObject(t) == (if t.Leaf? then [] else NEWLINE) + TRAILER
  {
  }

  lemma LengthIs(s: string, t: Tree)
    requires s == Document(t)
    ensures |s| == |PROLOG| + |NEWLINE| + |HEADER| + |NEWLINE + Tabs(0)| + |Core(t, 0)| + |if t.Leaf? then [] else NEWLINE| + |TRAILER|
  {
    hide Core;
  }

  lemma DecodeStep(s: string)
    ensures Decode(s) ==
      var a := NextTag(s, 0);
      if a.Failed? || a.value != PROLOG then Failed
      else
        var b := NextTag(s, a.pos);
        if b.Failed? || !("<XMLEncoder" <= b.value) then Failed
        else
          var c := NextTag(s, b.pos);
          if c.Failed? then Failed
          else
            var o := DecodeObject(s, c.pos, c.value);
            if o.Failed? then Failed
            else
              var d := NextTag(s, o.pos);
              if d.Failed? || !("</XMLEncoder" <= d.value) then Failed else Done(o.value, d.pos)
  {
    hide NextTag, DecodeObject;
  }

  // ----- trees that come back as they are -----

  /** No text in the tree has a NUL, and all objects are known. */
  ghost predicate Exact(t: Tree) {
    match t
    case Leaf(o) => !o.Unknown? && (IsText(o) ==> NoNul(o.s))
    case Items(_, items) => AllExact(items)
    case Pairs(pairs) => EntriesExact(pairs)
  }

  ghost predicate AllExact(items: seq<Tree>) {
    |items| == 0 || (Exact(items[0]) && AllExact(items[1..]))
  }

  ghost predicate EntriesExact(pairs: seq<Entry>) {
    |pairs| == 0 || (EntryExact(pairs[0]) && EntriesExact(pairs[1..]))
  }

  ghost predicate EntryExact(e: Entry) {
    Exact(e.key) && Exact(e.value)
  }

  ghost predicate NoNul(s: string) {
    forall k :: 0 <= k < |s| ==> s[k] != '\0'
  }

  lemma {:induction false} StrippedSame(s: string)
    ensures Stripped(s) == s <==> NoNul(s)
    ensures |Stripped(s)| <= |s|
  {
    if |s| > 0 {
      StrippedSame(s[1..]);
      if s[0] != '\0' {
        assert s == [s[0]] + s[1..];
        assert ([s[0]] + Stripped(s[1..]))[1..] == Stripped(s[1..]);
        assert NoNul(s) <==> NoNul(s[1..]) by { NoNulHead(s); }
      }
    }
  }

  lemma NoNulHead(s: string)
    requires |s| > 0 && s[0] != '\0'
    ensures NoNul(s) <==> NoNul(s[1..])
  {
    if NoNul(s[1..]) {
      forall k | 0 <= k < |s|
        ensures s[k] != '\0'
      {
        assert k > 0 ==> s[1..][k - 1] == s[k];
      }
    }
  }

  lemma {:induction false} TreeStays(t: Tree)
    requires Exact(t)
    ensures StripTree(t) == t
    decreases t, 1
  {
    hide Stripped;
    match t
    case Leaf(o) =>
      if IsText(o) {
        StrippedSame(o.s);
      }
    case Items(_, items) => TreesStay(items);
    case Pairs(pairs) => EntriesStay(pairs);
  }

  lemma {:induction false} TreesStay(items: seq<Tree>)
    requires AllExact(items)
    ensures StripTrees(items) == items
    decreases items, 0
  {
    hide StripTree;
    if |items| > 0 {
      TreeStays(items[0]);
      TreesStay(items[1..]);
    }
  }

  lemma {:induction false} EntriesStay(pairs: seq<Entry>)
    requires EntriesExact(pairs)
    ensures StripEntries(pairs) == pairs
    decreases pairs, 0
  {
    hide StripTree;
    if |pairs| > 0 {
      EntryStays(pairs[0]);
      EntriesStay(pairs[1..]);
    }
  }

  lemma EntryStays(e: Entry)
    requires EntryExact(e)
    ensures StripEntry(e) == e
    decreases e, 0
  {
    hide StripTree;
    TreeStays(e.key);
    TreeStays(e.value);
  }

  /** Every tree of known objects whose texts have no NULs and do not read like their own closing tags comes back. */
  lemma XmlRoundTrip(t: Tree)
    requires ValidTree(t) && Clean(t) && Exact(t)
    ensures Decode(Document(t)) == Done(Value(t), |Document(t)|)
  {
    hide Decode, Document, Value;
    DocumentRound(t);
    TreeStays(t);
  }

  /** A single text comes back exactly if it has no NUL and is not its own closing tag. */
  lemma TextComesBack(o: Obj)
    requires IsText(o)
    ensures Decode(Document(Leaf(o))) == Done(o, |Document(Leaf(o))|) <==> NoNul(o.s) && o.s != Closing(Name(o))
  {
    hide Decode, Document, Stripped, Name, Closing;
    DocumentRound(Leaf(o));
    StrippedSame(o.s);
  }
}
