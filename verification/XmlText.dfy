/** Characters, numbers and tags of the XML form in inc/tiny.h: how they are written, and how they are read. */
module XmlText {
  import opened XmlNumbers

  /** A result and the position behind it; failed assertions of the source are failures here. */
  datatype Parsed<T> = Done(value: T, pos: nat) | Failed

  /** s has x at pos. */
  predicate At(s: string, pos: nat, x: string) {
    pos + |x| <= |s| && s[pos..pos + |x|] == x
  }

  lemma AtSplit(s: string, pos: nat, x: string, y: string)
    ensures At(s, pos, x + y) <==> At(s, pos, x) && At(s, pos + |x|, y)
  {
    if At(s, pos, x + y) {
      assert s[pos..pos + |x|] == (x + y)[..|x|];
      assert s[pos + |x|..pos + |x| + |y|] == (x + y)[|x|..];
    }
    if At(s, pos, x) && At(s, pos + |x|, y) {
      assert s[pos..pos + |x + y|] == s[pos..pos + |x|] + s[pos + |x|..pos + |x| + |y|];
    }
  }

  lemma AtChar(s: string, pos: nat, x: string, k: nat)
    requires At(s, pos, x) && k < |x|
    ensures s[pos + k] == x[k]
  {
    assert s[pos..pos + |x|][k] == s[pos + k];
  }

  // ----- characters -----

  /** StringBuffer's += of a character: a NUL ends the appended text, so it adds nothing. */
  function Append(sb: string, ch: char): string {
    if ch == '\0' then sb else sb + [ch]
  }

  /** A text without its NULs. */
  function Stripped(s: string): string {
    if |s| == 0 then [] else if s[0] == '\0' then Stripped(s[1..]) else [s[0]] + Stripped(s[1..])
  }

  /** encodeString, one character. */
  function Escape(ch: char): string {
    if ch == '&' then "&amp;"
    else if ch == '<' then "&lt;"
    else if ch == '>' then "&gt;"
    else if ch == '\'' then "&apos;"
    else if ch == '\"' then "&quot;"
    else if ch as int <= 255 && (ch as int < 32 || ch as int > 127) then
      "&#x00" + [HexDigit(ch as int / 16), HexDigit(ch as int % 16)] + ";"
    else [ch]
  }

  function Escaped(s: string): string {
    if |s| == 0 then [] else Escape(s[0]) + Escaped(s[1..])
  }

  function DecimalValue(c: char): int {
    if '0' <= c <= '9' then c as int - '0' as int else -1
  }

  /** The four digits behind #x or #; a surrogate half has no char here. */
  function CharCode(c: int): Parsed<char> {
    if 0 <= c < 0xD800 || 0xE000 <= c < 0x1_0000 then Done(c as char, 0) else Failed
  }

  /** A text as ustrcmp sees it. */
  function UpToNul(s: string): string {
    if |s| == 0 || s[0] == '\0' then [] else [s[0]] + UpToNul(s[1..])
  }

  /** What the name between & and ; stands for. */
  function Entity(name: string): Parsed<char> {
    if |name| >= 16 then Failed
    else if UpToNul(name) == "amp" then Done('&', 0)
    else if UpToNul(name) == "lt" then Done('<', 0)
    else if UpToNul(name) == "gt" then Done('>', 0)
    else if UpToNul(name) == "apos" then Done('\'', 0)
    else if UpToNul(name) == "quot" then Done('\"', 0)
    else if |name| >= 1 && name[0] == '#' then
      if |name| >= 2 && name[1] == 'x' then
        if |name| >= 6 && (forall i :: 2 <= i < 6 ==> HexValue(name[i]) >= 0)
        then CharCode(((HexValue(name[2]) * 16 + HexValue(name[3])) * 16 + HexValue(name[4])) * 16 + HexValue(name[5]))
        else Failed
      else
        if |name| >= 5 && (forall i :: 1 <= i < 5 ==> DecimalValue(name[i]) >= 0)
        then CharCode(((DecimalValue(name[1]) * 10 + DecimalValue(name[2])) * 10 + DecimalValue(name[3])) * 10 + DecimalValue(name[4]))
        else Failed
    else Failed
  }

  /** The first c from pos on, or the end. */
  function Find(s: string, pos: nat, c: char): (n: nat)
    requires pos <= |s|
    ensures pos <= n <= |s| && (n < |s| ==> s[n] == c) && forall k :: pos <= k < n ==> s[k] != c
    decreases |s| - pos
  {
    if pos == |s| || s[pos] == c then pos else Find(s, pos + 1, c)
  }

  /** decodeChar: the character at pos, entities decoded. */
  function DecodeChar(s: string, pos: nat): (r: Parsed<char>)
    ensures r.Done? ==> pos < r.pos <= |s|
  {
    if pos >= |s| then Failed
    else if s[pos] != '&' then Done(s[pos], pos + 1)
    else
      var n := Find(s, pos + 1, ';');
      if n == |s| then Failed
      else match Entity(s[pos + 1..n])
        case Done(ch, _) => Done(ch, n + 1)
        case Failed => Failed
  }

  /** stop: a < that is not an entity. */
  predicate Stop(s: string, pos: nat) {
    pos < |s| && s[pos] == '<'
  }

  lemma {:induction false} FindIs(s: string, pos: nat, c: char, n: nat)
    requires pos <= n < |s| && s[n] == c && forall k :: pos <= k < n ==> s[k] != c
    ensures Find(s, pos, c) == n
    decreases n - pos
  {
    if pos < n {
      FindIs(s, pos + 1, c, n);
    }
  }

  lemma EntityAt(s: string, pos: nat, name: string, ch: char)
    requires At(s, pos, "&" + name + ";") && ';' !in name && Entity(name) == Done(ch, 0)
    ensures DecodeChar(s, pos) == Done(ch, pos + |name| + 2) && !Stop(s, pos)
  {
    hide Entity;
    var x := "&" + name + ";";
    AtChar(s, pos, x, 0);
    AtChar(s, pos, x, |x| - 1);
    forall k | pos + 1 <= k < pos + 1 + |name|
      ensures s[k] == name[k - pos - 1] && s[k] != ';'
    {
      AtChar(s, pos, x, k - pos);
    }
    FindIs(s, pos + 1, ';', pos + 1 + |name|);
    assert s[pos + 1..pos + 1 + |name|] == name;
  }

  lemma NamedEntities()
    ensures Entity("amp") == Done('&', 0) && Entity("lt") == Done('<', 0) && Entity("gt") == Done('>', 0)
    ensures Entity("apos") == Done('\'', 0) && Entity("quot") == Done('\"', 0)
  {
    assert "lt" != "gt" && "lt"[0] != "gt"[0];
    assert "apos"[0] != "quot"[0];
  }

  lemma CodedEntity(ch: char)
    requires ch as int <= 255
    ensures Entity("#x00" + [HexDigit(ch as int / 16), HexDigit(ch as int % 16)]) == Done(ch, 0)
  {
    var hi, lo := ch as int / 16, ch as int % 16;
    var name := "#x00" + [HexDigit(hi), HexDigit(lo)];
    HexOfDigit(hi);
    HexOfDigit(lo);
    assert name[0] == '#' && name[1] == 'x' && name[2] == '0' && name[3] == '0' && name[4] == HexDigit(hi) && name[5] == HexDigit(lo);
    assert HexValue('0') == 0;
    assert UpToNul(name)[0] == '#' && "amp"[0] == 'a' && "apos"[0] == 'a' && "lt"[0] == 'l' && "gt"[0] == 'g' && "quot"[0] == 'q';
    assert (hi * 16 + lo) as char == ch;
  }

  /** An escaped character is read back, and is not taken for the end of the text. */
  lemma EscapeDecodes(s: string, pos: nat, ch: char)
    requires At(s, pos, Escape(ch))
    ensures DecodeChar(s, pos) == Done(ch, pos + |Escape(ch)|) && !Stop(s, pos)
  {
    hide *;
    EscapeIs(ch);
    if ch == '&' { Named(s, pos, ch, "amp"); }
    else if ch == '<' { Named(s, pos, ch, "lt"); }
    else if ch == '>' { Named(s, pos, ch, "gt"); }
    else if ch == '\'' { Named(s, pos, ch, "apos"); }
    else if ch == '\"' { Named(s, pos, ch, "quot"); }
    else if ch as int <= 255 && (ch as int < 32 || ch as int > 127) { Coded(s, pos, ch); }
    else { Itself(s, pos, ch); }
  }

  /** The name of a character that has one. */
  function NameOf(ch: char): string {
    if ch == '&' then "amp" else if ch == '<' then "lt" else if ch == '>' then "gt"
    else if ch == '\'' then "apos" else if ch == '\"' then "quot" else ""
  }

  lemma EscapeIs(ch: char)
    ensures ch in "&<>'\"" ==> NameOf(ch) != "" && Escape(ch) == "&" + NameOf(ch) + ";"
    ensures ch == '&' ==> NameOf(ch) == "amp"
    ensures ch == '<' ==> NameOf(ch) == "lt"
    ensures ch == '>' ==> NameOf(ch) == "gt"
    ensures ch == '\'' ==> NameOf(ch) == "apos"
    ensures ch == '\"' ==> NameOf(ch) == "quot"
  {
    assert "&amp;" == "&" + "amp" + ";" && "&lt;" == "&" + "lt" + ";" && "&gt;" == "&" + "gt" + ";";
    assert "&apos;" == "&" + "apos" + ";" && "&quot;" == "&" + "quot" + ";";
  }

  lemma Named(s: string, pos: nat, ch: char, name: string)
    requires ch in "&<>'\"" && name == NameOf(ch) && At(s, pos, Escape(ch))
    ensures DecodeChar(s, pos) == Done(ch, pos + |Escape(ch)|) && !Stop(s, pos)
  {
    hide Entity, DecodeChar, Escape, At;
    EscapeIs(ch);
    NamedEntities();
    EntityAt(s, pos, name, ch);
  }

  lemma Coded(s: string, pos: nat, ch: char)
    requires ch as int <= 255 && (ch as int < 32 || ch as int > 127) && At(s, pos, Escape(ch))
    ensures DecodeChar(s, pos) == Done(ch, pos + |Escape(ch)|) && !Stop(s, pos)
  {
    hide Entity, DecodeChar, HexDigit, At;
    var digits := [HexDigit(ch as int / 16), HexDigit(ch as int % 16)];
    assert "&" + ("#x00" + digits) + ";" == "&#x00" + digits + ";";
    CodedEntity(ch);
    HexOfDigit(ch as int / 16);
    HexOfDigit(ch as int % 16);
    EntityAt(s, pos, "#x00" + digits, ch);
  }

  lemma Itself(s: string, pos: nat, ch: char)
    requires ch != '&' && ch != '<' && ch != '>' && ch != '\'' && ch != '\"' && !(ch as int <= 255 && (ch as int < 32 || ch as int > 127)) && At(s, pos, Escape(ch))
    ensures DecodeChar(s, pos) == Done(ch, pos + |Escape(ch)|) && !Stop(s, pos)
  {
    hide DecodeChar;
    AtChar(s, pos, [ch], 0);
    PlainChar(s, pos);
  }

  lemma PlainChar(s: string, pos: nat)
    requires pos < |s| && s[pos] != '&'
    ensures DecodeChar(s, pos) == Done(s[pos], pos + 1)
  {
  }

  // ----- texts -----

  /** The loop of nextValue: ch has been read, stop says whether it ended the text. */
  function ValueLoop(s: string, pos: nat, sb: string, ch: char, stop: bool): (r: Parsed<string>)
    requires pos <= |s| && (stop ==> pos > 0)
    ensures r.Done? ==> r.pos <= |s| && r.pos >= if stop then pos - 1 else pos
    decreases |s| - pos
  {
    if stop then Done(sb, if ch == '<' then pos - 1 else pos)
    else if pos == |s| then Done(sb, pos)
    else match DecodeChar(s, pos)
      case Failed => Failed
      case Done(ch1, pos1) => ValueLoop(s, pos1, Append(sb, ch), ch1, Stop(s, pos))
  }

  /** nextValue: the text up to the next tag. */
  function NextValue(s: string, pos: nat): (r: Parsed<string>)
    ensures r.Done? ==> pos <= r.pos <= |s|
  {
    match DecodeChar(s, pos)
    case Failed => Failed
    case Done(ch, pos1) => ValueLoop(s, pos1, [], ch, Stop(s, pos))
  }

  /** An escaped text in front of a tag is read back, but for its NULs. */
  lemma {:induction false} TextDecodes(s: string, pos: nat, sb: string, text: string)
    requires At(s, pos, Escaped(text) + "<")
    ensures DecodeChar(s, pos).Done?
    ensures ValueLoop(s, DecodeChar(s, pos).pos, sb, DecodeChar(s, pos).value, Stop(s, pos))
         == Done(sb + Stripped(text), pos + |Escaped(text)|)
    decreases |text|
  {
    hide DecodeChar, Escape, At;
    if |text| == 0 {
      LessAt(s, pos, Escaped(text));
      assert sb + Stripped(text) == sb;
      PlainChar(s, pos);
    } else {
      var e, rest := Escape(text[0]), Escaped(text[1..]);
      assert Escaped(text) + "<" == e + (rest + "<");
      AtSplit(s, pos, e, rest + "<");
      EscapeDecodes(s, pos, text[0]);
      TextDecodes(s, pos + |e|, Append(sb, text[0]), text[1..]);
      LessAt(s, pos + |e|, rest);
      AppendStripped(sb, text);
    }
  }

  /** A text with a < behind it is not at the end. */
  lemma LessAt(s: string, pos: nat, x: string)
    requires At(s, pos, x + "<")
    ensures pos + |x| < |s| && s[pos + |x|] == '<'
  {
    AtChar(s, pos, x + "<", |x|);
  }

  lemma AppendStripped(sb: string, text: string)
    requires |text| > 0
    ensures Append(sb, text[0]) + Stripped(text[1..]) == sb + Stripped(text)
  {
  }

  lemma ValueDecodes(s: string, pos: nat, text: string)
    requires At(s, pos, Escaped(text) + "<")
    ensures NextValue(s, pos) == Done(Stripped(text), pos + |Escaped(text)|)
  {
    hide DecodeChar, ValueLoop;
    TextDecodes(s, pos, [], text);
    assert [] + Stripped(text) == Stripped(text);
  }

  // ----- tags -----

  predicate Blank(c: char) {
    c == ' ' || c == '\t' || c == '\r' || c == '\n'
  }

  /** skipBlank; the source does not look beyond the end of the text. */
  function SkipBlank(s: string, pos: nat): (r: Parsed<()>)
    ensures r.Done? ==> pos <= r.pos < |s|
    decreases |s| - pos
  {
    if pos >= |s| then Failed else if Blank(s[pos]) then SkipBlank(s, pos + 1) else Done((), pos)
  }

  /** nextTag: from < to >, or a text if there is no <. */
  function NextTag(s: string, pos: nat): (r: Parsed<string>)
    ensures r.Done? ==> pos < r.pos <= |s|
  {
    match SkipBlank(s, pos)
    case Failed => Failed
    case Done(_, pos1) =>
      match DecodeChar(s, pos1)
      case Failed => Failed
      case Done(ch, pos2) =>
        if ch == '<' then
          var n := Find(s, pos2, '>');
          if n == |s| then Failed else Done(TagText(s, pos2, n + 1), n + 1)
        else
          ValueLoop(s, pos2, [], ch, false)
  }

  /** The characters of the tag as the string buffer takes them. */
  function TagText(s: string, from: nat, to: nat): string
    requires from <= to <= |s|
  {
    "<" + Stripped(s[from..to])
  }

  /** A tag: nothing but its last character is a >, and there are no NULs. */
  predicate IsTag(tag: string) {
    && |tag| >= 2 && tag[0] == '<' && tag[|tag| - 1] == '>'
    && (forall k :: 0 <= k < |tag| - 1 ==> tag[k] != '>') && forall k :: 0 <= k < |tag| ==> tag[k] != '\0'
  }

  lemma {:induction false} NothingStripped(s: string)
    requires forall k :: 0 <= k < |s| ==> s[k] != '\0'
    ensures Stripped(s) == s
  {
    if |s| > 0 {
      NothingStripped(s[1..]);
    }
  }

  ghost predicate AllBlank(b: string) {
    forall k :: 0 <= k < |b| ==> Blank(b[k])
  }

  lemma {:induction false} SkipsBlank(s: string, pos: nat, b: string)
    requires At(s, pos, b) && AllBlank(b) && pos + |b| < |s| && !Blank(s[pos + |b|])
    ensures SkipBlank(s, pos) == Done((), pos + |b|)
    decreases |b|
  {
    if |b| > 0 {
      AtChar(s, pos, b, 0);
      assert b == [b[0]] + b[1..];
      AtSplit(s, pos, [b[0]], b[1..]);
      SkipsBlank(s, pos + 1, b[1..]);
    }
  }

  lemma TagAt(s: string, p: nat, tag: string)
    requires At(s, p, tag) && IsTag(tag)
    ensures p + |tag| <= |s| && s[p] == '<' && Find(s, p + 1, '>') == p + |tag| - 1 && TagText(s, p + 1, p + |tag|) == tag
  {
    hide Find, Stripped, Entity;
    forall k | 0 <= k < |tag|
      ensures s[p + k] == tag[k]
    {
      AtChar(s, p, tag, k);
    }
    assert s[p + 0] == tag[0];
    var n := p + |tag| - 1;
    forall k | p + 1 <= k < n
      ensures s[k] != '>'
    {
      assert s[p + (k - p)] == tag[k - p];
    }
    assert s[p + (|tag| - 1)] == '>';
    FindIs(s, p + 1, '>', n);
    assert s[p + 1..n + 1] == tag[1..];
    NothingStripped(tag[1..]);
    assert "<" + tag[1..] == tag;
  }

  lemma TagStarts(tag: string)
    requires IsTag(tag)
    ensures |tag| >= 2
  {
  }

  /** A tag behind blanks is read. */
  lemma TagDecodes(s: string, pos: nat, b: string, tag: string)
    requires At(s, pos, b + tag) && AllBlank(b) && IsTag(tag)
    ensures NextTag(s, pos) == Done(tag, pos + |b| + |tag|)
  {
    hide DecodeChar, SkipBlank, AllBlank, Stripped, ValueLoop, Find, TagText, At, IsTag, Entity;
    AtSplit(s, pos, b, tag);
    TagAt(s, pos + |b|, tag);
    TagStarts(tag);
    SkipsBlank(s, pos, b);
    PlainChar(s, pos + |b|);
  }
}
