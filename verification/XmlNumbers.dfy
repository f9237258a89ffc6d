/** Numbers as printf writes them and as _wtoi, swscanf and their kin read them (inc/tiny.h). */
module XmlNumbers {
  /** A number and what is left of the text. */
  datatype Scan = Scan(value: int, rest: string) | NoNumber

  predicate IsDigit(c: char) {
    '0' <= c <= '9'
  }

  function Digit(n: nat): (c: char)
    requires n < 10
    ensures IsDigit(c) && c as int - '0' as int == n
  {
    ('0' as int + n) as char
  }

  /** %d of a natural number, and of any number. */
  function Natural(n: nat): (s: string)
    ensures |s| > 0
  {
    if n < 10 then [Digit(n)] else Natural(n / 10) + [Digit(n % 10)]
  }

  function Decimal(n: int): (s: string)
    ensures |s| > 0
  {
    if n < 0 then "-" + Natural(-n) else Natural(n)
  }

  /** Digits read from the left, on top of what has been read. */
  function Digits(s: string, v: nat): (r: (nat, string))
    ensures |r.1| <= |s|
  {
    if |s| == 0 || !IsDigit(s[0]) then (v, s) else Digits(s[1..], 10 * v + (s[0] as int - '0' as int))
  }

  /** White space of the C locale. */
  predicate IsSpace(c: char) {
    c == ' ' || 9 <= c as int <= 13
  }

  function SkipSpace(s: string): string {
    if |s| > 0 && IsSpace(s[0]) then SkipSpace(s[1..]) else s
  }

  /** White space, an optional sign and digits. */
  function ReadInt(s: string): Scan {
    ReadSigned(SkipSpace(s))
  }

  function ReadSigned(s: string): Scan {
    if |s| > 0 && (s[0] == '-' || s[0] == '+') then
      if |s| > 1 && IsDigit(s[1]) then
        var d := Digits(s[1..], 0);
        Scan(if s[0] == '-' then 0 - d.0 else d.0, d.1)
      else NoNumber
    else if |s| > 0 && IsDigit(s[0]) then
      var d := Digits(s, 0);
      Scan(d.0, d.1)
    else NoNumber
  }

  /** Appending one digit. */
  lemma {:induction false} DigitsThen(a: string, b: string, v: nat)
    requires forall k :: 0 <= k < |a| ==> IsDigit(a[k])
    ensures Digits(a + b, v) == Digits(b, Digits(a, v).0)
  {
    if |a| == 0 {
      assert a + b == b;
    } else {
      assert (a + b)[0] == a[0] && (a + b)[1..] == a[1..] + b;
      DigitsThen(a[1..], b, 10 * v + (a[0] as int - '0' as int));
    }
  }

  lemma {:induction false} NaturalDigits(n: nat)
    ensures forall k :: 0 <= k < |Natural(n)| ==> IsDigit(Natural(n)[k])
  {
    if n >= 10 {
      NaturalDigits(n / 10);
    }
  }

  /** The text does not go on with a digit. */
  predicate Ends(rest: string) {
    |rest| == 0 || !IsDigit(rest[0])
  }

  lemma {:induction false} NaturalRead(n: nat, rest: string)
    requires Ends(rest)
    ensures Digits(Natural(n), 0).0 == n && Digits(Natural(n) + rest, 0) == (n, rest)
  {
    NaturalDigits(n);
    if n < 10 {
      var d := [Digit(n)];
      assert d[1..] == [];
      assert Digits([], n) == (n, []);
      assert Digits(d, 0) == Digits(d[1..], n);
    } else {
      NaturalRead(n / 10, []);
      NaturalDigits(n / 10);
      var d := [Digit(n % 10)];
      DigitsThen(Natural(n / 10), d, 0);
      assert d[1..] == [];
      assert Digits(d, n / 10) == Digits([], 10 * (n / 10) + n % 10);
    }
    DigitsThen(Natural(n), rest, 0);
  }

  /** A number is read back, and the rest of the text is left. */
  lemma DecimalRead(n: int, rest: string)
    requires Ends(rest)
    ensures ReadInt(Decimal(n) + rest) == Scan(n, rest)
  {
    hide Natural, Digits;
    if n < 0 {
      NaturalRead(-n, rest);
      NaturalDigits(-n);
      var s := Decimal(n) + rest;
      assert s[1..] == Natural(-n) + rest;
      assert IsDigit(s[1]) by { assert Natural(-n)[0] == s[1]; }
    } else {
      NaturalRead(n, rest);
      NaturalDigits(n);
      assert IsDigit((Natural(n) + rest)[0]) by { assert Natural(n)[0] == (Natural(n) + rest)[0]; }
    }
  }

  /** Numbers with separators between them, as in %d,%d; what cannot be read stays as it was. */
  function Join(ns: seq<int>, sep: char): string {
    if |ns| == 0 then [] else if |ns| == 1 then Decimal(ns[0]) else Decimal(ns[0]) + [sep] + Join(ns[1..], sep)
  }

  function ReadInts(s: string, before: seq<int>, sep: char): (r: seq<int>)
    ensures |r| == |before|
    decreases |before|
  {
    if |before| == 0 then []
    else match ReadInt(s)
      case NoNumber => before
      case Scan(v, rest) =>
        if |rest| > 0 && rest[0] == sep then [v] + ReadInts(rest[1..], before[1..], sep) else [v] + before[1..]
  }

  lemma {:induction false} JoinRead(ns: seq<int>, before: seq<int>, sep: char)
    requires |ns| == |before| && !IsDigit(sep)
    ensures ReadInts(Join(ns, sep), before, sep) == ns
  {
    hide Decimal, ReadInt;
    if |ns| == 1 {
      DecimalRead(ns[0], []);
      assert Decimal(ns[0]) + [] == Decimal(ns[0]);
    } else if |ns| > 1 {
      var rest := [sep] + Join(ns[1..], sep);
      DecimalRead(ns[0], rest);
      assert Decimal(ns[0]) + [sep] + Join(ns[1..], sep) == Decimal(ns[0]) + rest;
      assert rest[1..] == Join(ns[1..], sep);
      JoinRead(ns[1..], before[1..], sep);
    }
  }

  // ----- hexadecimal -----

  function HexDigit(n: nat): (c: char)
    requires n < 16
  {
    if n < 10 then ('0' as int + n) as char else ('A' as int + (n - 10)) as char
  }

  function HexValue(c: char): int {
    if '0' <= c <= '9' then c as int - '0' as int
    else if 'a' <= c <= 'f' then c as int - 'a' as int + 10
    else if 'A' <= c <= 'F' then c as int - 'A' as int + 10
    else -1
  }

  /** %0nX: at least n digits. */
  function Hex(v: nat, n: nat): string {
    if n == 0 && v == 0 then [] else Hex(v / 16, if n == 0 then 0 else n - 1) + [HexDigit(v % 16)]
  }

  /** %X: white space, an optional sign, which negates the 32-bit number, an optional 0x, and digits. */
  function ReadHexNumber(s: string): nat {
    var t := SkipSpace(s);
    var u := if |t| > 0 && (t[0] == '-' || t[0] == '+') then t[1..] else t;
    var v := ReadHex(if |u| >= 2 && u[0] == '0' && (u[1] == 'x' || u[1] == 'X') then u[2..] else u, 0);
    if |t| > 0 && t[0] == '-' then (0x1_0000_0000 - v % 0x1_0000_0000) % 0x1_0000_0000 else v
  }

  function ReadHex(s: string, v: nat): nat {
    if |s| == 0 || HexValue(s[0]) < 0 then v else ReadHex(s[1..], 16 * v + HexValue(s[0]))
  }

  lemma {:induction false} ReadHexThen(s: string, c: char, v: nat)
    requires HexValue(c) >= 0 && forall k :: 0 <= k < |s| ==> HexValue(s[k]) >= 0
    ensures ReadHex(s + [c], v) == 16 * ReadHex(s, v) + HexValue(c)
  {
    if |s| == 0 {
      assert (s + [c])[1..] == [];
      assert ReadHex([], 16 * v + HexValue(c)) == 16 * v + HexValue(c);
    } else {
      assert (s + [c])[0] == s[0] && (s + [c])[1..] == s[1..] + [c];
      ReadHexThen(s[1..], c, 16 * v + HexValue(s[0]));
    }
  }

  lemma HexOfDigit(n: nat)
    requires n < 16
    ensures HexValue(HexDigit(n)) == n && HexDigit(n) != ';'
  {
  }

  lemma {:induction false} HexRead(v: nat, n: nat)
    ensures ReadHex(Hex(v, n), 0) == v
    ensures forall k :: 0 <= k < |Hex(v, n)| ==> HexValue(Hex(v, n)[k]) >= 0
    decreases v, n
  {
    hide HexDigit, HexValue, ReadHex;
    if n == 0 && v == 0 {
      assert ReadHex([], 0) == 0 by { NoHex(); }
    } else {
      HexRead(v / 16, if n == 0 then 0 else n - 1);
      HexOfDigit(v % 16);
      ReadHexThen(Hex(v / 16, if n == 0 then 0 else n - 1), HexDigit(v % 16), 0);
    }
  }

  /** What %0nX wrote starts with digits, so nothing is skipped. */
  lemma HexNumberRead(v: nat, n: nat)
    requires n >= 2
    ensures ReadHexNumber(Hex(v, n)) == v
  {
    var s := Hex(v, n);
    HexLength(v, n);
    HexRead(v, n);
    assert HexValue(s[0]) >= 0 && HexValue(s[1]) >= 0;
    hide ReadHex, Hex;
  }

  lemma {:induction false} HexLength(v: nat, n: nat)
    ensures |Hex(v, n)| >= n
    decreases v, n
  {
    if n > 0 {
      HexLength(v / 16, n - 1);
    }
  }

  lemma NoHex()
    ensures ReadHex([], 0) == 0
  {
  }

  // ----- no markup in numbers -----

  /** Characters that need no escaping. */
  predicate Plain(c: char) {
    IsDigit(c) || c == '-' || c == ',' || c == '/' || c == 'x' || 'A' <= c <= 'F' || 'a' <= c <= 'z'
  }

  ghost predicate AllPlain(s: string) {
    forall k :: 0 <= k < |s| ==> Plain(s[k])
  }

  lemma DecimalPlain(n: int)
    ensures AllPlain(Decimal(n))
  {
    hide Natural;
    NaturalDigits(if n < 0 then -n else n);
  }

  lemma {:induction false} JoinPlain(ns: seq<int>, sep: char)
    requires sep == ',' || sep == '/'
    ensures AllPlain(Join(ns, sep))
  {
    hide Decimal, Plain;
    assert Plain(sep) by { SeparatorPlain(sep); }
    if |ns| > 0 {
      DecimalPlain(ns[0]);
      JoinPlain(ns[1..], sep);
    }
  }

  lemma SeparatorPlain(c: char)
    requires c == ',' || c == '/' || c == 'x' || c == '0'
    ensures Plain(c)
  {
  }

  lemma {:induction false} HexPlain(v: nat, n: nat)
    ensures AllPlain(Hex(v, n))
    decreases v, n
  {
    if !(n == 0 && v == 0) {
      HexPlain(v / 16, if n == 0 then 0 else n - 1);
    }
  }
}
