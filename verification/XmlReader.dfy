/** XMLDecoder of inc/tiny.h as it runs: loops over a position in the text, recursion over nested objects. */
module XmlReader {
  import opened XmlText
  import opened XmlTree
  import opened XmlDecoder

  /** The text and the position that all routines advance. */
  class Reader {
    const s: string
    var pos: nat

    constructor (s: string)
      ensures this.s == s && pos == 0
    {
      this.s := s;
      pos := 0;
    }

    /** A routine that computes r: on success the position is behind what was read. */
    ghost predicate Read<T>(ok: bool, value: T, r: Parsed<T>)
      reads this`pos
    {
      (ok <==> r.Done?) && (ok ==> r == Done(value, pos))
    }

    /** decodeChar. */
    method DecodeOne() returns (ok: bool, ch: char, stop: bool)
      modifies this`pos
      ensures Read(ok, ch, DecodeChar(s, old(pos))) && (ok ==> stop == Stop(s, old(pos)))
    {
      hide Entity;
      ok, ch, stop := false, ' ', false;
      if pos >= |s| {
        return;
      }
      ch := s[pos];
      pos := pos + 1;
      stop := ch == '<';
      if ch != '&' {
        ok := true;
        return;
      }
      var n := pos;
      while n < |s| && s[n] != ';'
        invariant pos <= n <= |s| && Find(s, pos, ';') == Find(s, n, ';')
      {
        n := n + 1;
      }
      if n == |s| {
        return;
      }
      match Entity(s[pos..n]) {
        case Done(c, _) => ok, ch, pos := true, c, n + 1;
        case Failed =>
      }
    }

    /** The loop of nextValue. */
    method Value(first: char, stopped: bool) returns (ok: bool, text: string)
      requires pos <= |s| && (stopped ==> pos > 0)
      modifies this`pos
      ensures Read(ok, text, ValueLoop(s, old(pos), [], first, stopped))
    {
      hide DecodeChar;
      var ch, stop := first, stopped;
      ok, text := true, [];
      while !stop && pos < |s|
        invariant ok && pos <= |s| && (stop ==> pos > 0)
        invariant ValueLoop(s, old(pos), [], first, stopped) == ValueLoop(s, pos, text, ch, stop)
        decreases |s| - pos
      {
        text := Append(text, ch);
        ok, ch, stop := DecodeOne();
        if !ok {
          return;
        }
      }
      if stop && ch == '<' {
        pos := pos - 1;
      }
    }

    /** nextValue. */
    method NextText() returns (ok: bool, text: string)
      modifies this`pos
      ensures Read(ok, text, NextValue(s, old(pos)))
    {
      hide DecodeChar, ValueLoop;
      text := [];
      var ch, stop;
      ok, ch, stop := DecodeOne();
      if ok {
        ok, text := Value(ch, stop);
      }
    }

    /** skipBlank. */
    method SkipBlanks() returns (ok: bool)
      modifies this`pos
      ensures Read(ok, (), SkipBlank(s, old(pos)))
    {
      while pos < |s| && Blank(s[pos])
        invariant SkipBlank(s, old(pos)) == SkipBlank(s, pos)
        decreases |s| - pos
      {
        pos := pos + 1;
      }
      ok := pos < |s|;
    }

    /** nextTag. */
    method Tag() returns (ok: bool, tag: string)
      modifies this`pos
      ensures Read(ok, tag, NextTag(s, old(pos)))
    {
      hide DecodeChar, ValueLoop, SkipBlank;
      tag := [];
      ok := SkipBlanks();
      if !ok {
        return;
      }
      var ch, stop;
      ok, ch, stop := DecodeOne();
      if !ok {
        return;
      }
      if ch != '<' {
        ok, tag := Value(ch, false);
        return;
      }
      ok, tag := RestOfTag();
    }

    /** The loop of nextTag up to the > of a tag. */
    method RestOfTag() returns (ok: bool, tag: string)
      requires pos <= |s|
      modifies this`pos
      ensures ok <==> Find(s, old(pos), '>') < |s|
      ensures ok ==> pos == Find(s, old(pos), '>') + 1 && tag == TagText(s, old(pos), pos)
    {
      hide Stripped, Find, Append, TagText;
      tag := "<";
      var from := pos;
      TagBegins(s, from);
      while pos < |s| && s[pos] != '>'
        invariant from <= pos <= |s| && tag == TagText(s, from, pos) && Find(s, from, '>') == Find(s, pos, '>')
        decreases |s| - pos
      {
        TagLonger(s, from, pos);
        tag := Append(tag, s[pos]);
        pos := pos + 1;
      }
      TagEnds(s, pos);
      ok := pos < |s|;
      if ok {
        TagLonger(s, from, pos);
        tag := Append(tag, s[pos]);
        pos := pos + 1;
      }
    }

    /** The part of decodeObject for everything but collections, with checkEndTag. */
    method ReadLeaf(name: string) returns (ok: bool, o: Obj)
      modifies this`pos
      ensures Read(ok, o, DecodeLeaf(s, old(pos), name))
    {
      hide NextValue, NextTag, LeafOf, EmptyLeaf;
      o := Null;
      var text;
      ok, text := NextText();
      if !ok {
        return;
      }
      if MayBeEmpty(name) && text == Closing(name) {
        match EmptyLeaf(name) {
          case Done(v, _) => o := v;
          case Failed => ok := false;
        }
      } else {
        match LeafOf(name, text) {
          case Failed => ok := false;
          case Done(v, _) =>
            o := v;
            var close;
            ok, close := Tag();
            ok := ok && close == Closing(name);
        }
      }
    }

    /** decodeObject. */
    method ReadObject(tag: string) returns (ok: bool, o: Obj)
      requires pos <= |s|
      modifies this`pos
      ensures Read(ok, o, DecodeObject(s, old(pos), tag))
      decreases |s| - pos, 2
    {
      hide NextTag, LeafName, CollectionKind, DecodeLeaf, DecodeItems, DecodePairs, FromItems, FromPairs;
      o := Null;
      if LeafName(tag) != "" {
        ok, o := ReadLeaf(LeafName(tag));
        return;
      }
      match CollectionKind(tag) {
        case Done(kind, _) =>
          var items;
          ok, items := ReadItems(Closing(KindName(kind)));
          if ok {
            o := FromItems(kind, items);
          }
        case Failed =>
          ok := tag == "<map>";
          if ok {
            var entries;
            ok, entries := ReadPairs();
            if ok {
              o := HashMap(FromPairs(entries));
            }
          }
      }
    }

    /** The loop over the elements of a collection. */
    method ReadItems(close: string) returns (ok: bool, items: seq<Obj>)
      requires pos <= |s|
      modifies this`pos
      ensures Read(ok, items, DecodeItems(s, old(pos), close))
      decreases |s| - pos, 1
    {
      hide NextTag, DecodeObject;
      items := [];
      ghost var all := DecodeItems(s, pos, close);
      var tag;
      ok, tag := Tag();
      ghost var at := old(pos);
      assert [] + (if all.Done? then all.value else []) == if all.Done? then all.value else [];
      while ok && tag != close
        invariant old(pos) <= at <= |s| && Read(ok, tag, NextTag(s, at)) && Continues(all, items, DecodeItems(s, at, close))
        decreases |s| - at
      {
        ghost var next := pos;
        var o;
        ok, o := ReadObject(tag);
        ContinuesWith(all, items, s, at, close, tag, next);
        if !ok {
          return;
        }
        items := items + [o];
        at := pos;
        ok, tag := Tag();
      }
      LastOne(all, items, s, at, close);
    }

    /** The loop over the keys and values of a map. */
    method ReadPairs() returns (ok: bool, entries: seq<(Obj, Obj)>)
      requires pos <= |s|
      modifies this`pos
      ensures Read(ok, entries, DecodePairs(s, old(pos)))
      decreases |s| - pos, 1
    {
      hide NextTag, DecodeObject, DecodeEntry;
      entries := [];
      ghost var all := DecodePairs(s, pos);
      var tag;
      ok, tag := Tag();
      ghost var at := old(pos);
      assert [] + (if all.Done? then all.value else []) == if all.Done? then all.value else [];
      while ok && tag != "</map>"
        invariant old(pos) <= at <= |s| && Read(ok, tag, NextTag(s, at)) && Continues(all, entries, DecodePairs(s, at))
        decreases |s| - at
      {
        ghost var next := pos;
        var entry;
        ok, entry := ReadEntry(tag);
        PairsContinue(all, entries, s, at, tag, next);
        if !ok {
          return;
        }
        entries := entries + [entry];
        at := pos;
        ok, tag := Tag();
      }
      LastPair(all, entries, s, at);
    }

    /** A key and its value. */
    method ReadEntry(tag: string) returns (ok: bool, entry: (Obj, Obj))
      requires pos <= |s|
      modifies this`pos
      ensures Read(ok, entry, DecodeEntry(s, old(pos), tag))
      decreases |s| - pos, 3
    {
      hide NextTag, DecodeObject;
      entry := (Null, Null);
      var key;
      ok, key := ReadObject(tag);
      if ok {
        var tag1;
        ok, tag1 := Tag();
        if ok {
          var value;
          ok, value := ReadObject(tag1);
          entry := (key, value);
        }
      }
    }

    /** decode: a whole document. */
    method ReadDocument() returns (ok: bool, o: Obj)
      requires pos == 0
      modifies this`pos
      ensures Read(ok, o, Decode(s))
    {
      hide NextTag, DecodeObject;
      o := Null;
      var tag;
      ok, tag := Tag();
      if !ok || tag != PROLOG {
        return false, o;
      }
      ok, tag := Tag();
      if !ok || !("<XMLEncoder" <= tag) {
        return false, o;
      }
      ok, tag := Tag();
      if !ok {
        return;
      }
      ok, o := ReadObject(tag);
      if !ok {
        return;
      }
      ok, tag := Tag();
      ok := ok && "</XMLEncoder" <= tag;
    }
  }

  lemma {:induction false} StrippedNext(x: string, c: char)
    ensures Stripped(x + [c]) == Append(Stripped(x), c)
    ensures "<" + Stripped(x + [c]) == Append("<" + Stripped(x), c)
  {
    if |x| == 0 {
      assert x + [c] == [c] && [c][1..] == [];
    } else {
      assert (x + [c])[0] == x[0] && (x + [c])[1..] == x[1..] + [c];
      StrippedNext(x[1..], c);
    }
  }

  lemma TagBegins(s: string, from: nat)
    requires from <= |s|
    ensures TagText(s, from, from) == "<"
  {
    assert s[from..from] == [];
  }

  /** One more character of a tag. */
  lemma TagLonger(s: string, from: nat, to: nat)
    requires from <= to < |s|
    ensures Append(TagText(s, from, to), s[to]) == TagText(s, from, to + 1)
    ensures s[to] != '>' ==> Find(s, to, '>') == Find(s, to + 1, '>')
  {
    hide Stripped, Append;
    assert s[from..to + 1] == s[from..to] + [s[to]];
    StrippedNext(s[from..to], s[to]);
  }

  lemma TagEnds(s: string, to: nat)
    requires to <= |s| && (to < |s| ==> s[to] == '>')
    ensures Find(s, to, '>') == to
  {
  }

  /** The whole result is what has been read, followed by what is still to be read. */
  ghost predicate Continues<T>(all: Parsed<seq<T>>, done: seq<T>, rest: Parsed<seq<T>>) {
    all == if rest.Done? then Done(done + rest.value, rest.pos) else Failed
  }

  lemma Longer<T>(all: Parsed<seq<T>>, done: seq<T>, x: T, rest: Parsed<seq<T>>, tail: Parsed<seq<T>>)
    requires Continues(all, done, rest) && rest == if tail.Done? then Done([x] + tail.value, tail.pos) else Failed
    ensures Continues(all, done + [x], tail)
  {
    if tail.Done? {
      assert done + ([x] + tail.value) == done + [x] + tail.value;
    }
  }

  lemma ContinuesWith(all: Parsed<seq<Obj>>, items: seq<Obj>, s: string, at: nat, close: string, tag: string, next: nat)
    requires at <= |s| && Continues(all, items, DecodeItems(s, at, close)) && NextTag(s, at) == Done(tag, next) && tag != close
    requires next <= |s|
    ensures var o := DecodeObject(s, next, tag);
      if o.Done? then Continues(all, items + [o.value], DecodeItems(s, o.pos, close)) else all == Failed
  {
    hide NextTag, DecodeObject;
    var o := DecodeObject(s, next, tag);
    if o.Done? {
      Longer(all, items, o.value, DecodeItems(s, at, close), DecodeItems(s, o.pos, close));
    }
  }

  lemma LastOne(all: Parsed<seq<Obj>>, items: seq<Obj>, s: string, at: nat, close: string)
    requires at <= |s| && Continues(all, items, DecodeItems(s, at, close))
    ensures NextTag(s, at).Failed? ==> all == Failed
    ensures NextTag(s, at).Done? && NextTag(s, at).value == close ==> all == Done(items, NextTag(s, at).pos)
  {
    hide NextTag, DecodeObject;
    assert items + [] == items;
  }

  lemma PairsContinue(all: Parsed<seq<(Obj, Obj)>>, entries: seq<(Obj, Obj)>, s: string, at: nat, tag: string, next: nat)
    requires at <= |s| && Continues(all, entries, DecodePairs(s, at)) && NextTag(s, at) == Done(tag, next) && tag != "</map>"
    requires next <= |s|
    ensures var e := DecodeEntry(s, next, tag);
      if e.Done? then Continues(all, entries + [e.value], DecodePairs(s, e.pos)) else all == Failed
  {
    hide NextTag, DecodeEntry;
    var e := DecodeEntry(s, next, tag);
    if e.Done? {
      Longer(all, entries, e.value, DecodePairs(s, at), DecodePairs(s, e.pos));
    }
  }

  lemma LastPair(all: Parsed<seq<(Obj, Obj)>>, entries: seq<(Obj, Obj)>, s: string, at: nat)
    requires at <= |s| && Continues(all, entries, DecodePairs(s, at))
    ensures NextTag(s, at).Failed? ==> all == Failed
    ensures NextTag(s, at).Done? && NextTag(s, at).value == "</map>" ==> all == Done(entries, NextTag(s, at).pos)
  {
    hide NextTag, DecodeEntry;
    assert entries + [] == entries;
  }
}
