/** What a string token stands for: which texts are tokens of a given string. */
module JsonStrings {
  import opened JsonText
  import opened JsonScalars
  import Encodings

  // ---------- section 7 of RFC 8259 ----------

  const LOWER := "0123456789abcdef"
  const UPPER := "0123456789ABCDEF"

  /** A hexadecimal digit, in either case. */
  predicate IsDigitOf(c: char, d: nat)
    requires d < 16
  {
    c == LOWER[d] || c == UPPER[d]
  }

  predicate IsUnitEscape(w: string, n: nat)
    requires n < 0x1_0000
  {
    && |w| == 6 && w[0] == '\\' && w[1] == 'u'
    && IsDigitOf(w[2], n / 0x1000) && IsDigitOf(w[3], n / 0x100 % 0x10)
    && IsDigitOf(w[4], n / 0x10 % 0x10) && IsDigitOf(w[5], n % 0x10)
  }

  /** A code point is escaped as one UTF-16 unit or as the pair of its surrogates. */
  predicate IsPointEscape(w: string, cp: nat)
    requires Encodings.IsScalarValue(cp)
  {
    var u := Encodings.Utf16(cp);
    if |u| == 1 then IsUnitEscape(w, u[0])
    else |w| == 12 && IsUnitEscape(w[..6], u[0]) && IsUnitEscape(w[6..], u[1])
  }

  predicate IsShortEscape(w: string, c: char) {
    || (w == "\\\"" && c == 0x22 as char)
    || (w == "\\\\" && c == 0x5C as char)
    || (w == "\\/" && c == 0x2F as char)
    || (w == "\\b" && c == 0x08 as char)
    || (w == "\\f" && c == 0x0C as char)
    || (w == "\\n" && c == 0x0A as char)
    || (w == "\\r" && c == 0x0D as char)
    || (w == "\\t" && c == 0x09 as char)
  }

  predicate IsPlain(c: char) {
    0x20 as char <= c && c != 0x22 as char && c != 0x5C as char
  }

  /** One item of a token and the units it stands for. */
  datatype Item =
    | Plain(c: char)
    | Short(text: string, c: char)
    | Unicode(text: string, cp: nat)

  predicate IsItem(i: Item) {
    match i
    case Plain(c) => IsPlain(c)
    case Short(text, c) => IsShortEscape(text, c)
    case Unicode(text, cp) => Encodings.IsScalarValue(cp) && IsPointEscape(text, cp)
  }

  function ItemText(i: Item): string {
    match i
    case Plain(c) => [c]
    case Short(text, _) => text
    case Unicode(text, _) => text
  }

  /** A code point stands for its UTF-8 units. */
  function Meaning(i: Item): string
    requires IsItem(i)
  {
    match i
    case Plain(c) => [c]
    case Short(_, c) => [c]
    case Unicode(_, cp) => Encodings.Utf8Chars(cp)
  }

  predicate AreItems(items: seq<Item>) {
    forall i | i in items :: IsItem(i)
  }

  function Body(items: seq<Item>): string {
    if items == [] then "" else ItemText(items[0]) + Body(items[1..])
  }

  function Meanings(items: seq<Item>): string
    requires AreItems(items)
  {
    if items == [] then "" else Meaning(items[0]) + Meanings(items[1..])
  }

  /** A token of a string: quotes around items that stand for it. */
  ghost predicate IsToken(token: string, s: string) {
    exists items :: AreItems(items) && token == "\"" + Body(items) + "\"" && s == Meanings(items)
  }

  // ---------- items are read ----------

  lemma DigitRead(c: char, d: nat)
    requires d < 16
    ensures IsDigitOf(c, d) <==> IsHex(c) && HexOf(c) == d
  {}

  lemma FourPlaces(n: nat, a: nat, b: nat, c: nat, d: nat)
    requires a < 16 && b < 16 && c < 16 && d < 16 && n < 0x1_0000
    ensures n == ((a * 16 + b) * 16 + c) * 16 + d <==>
            a == n / 0x1000 && b == n / 0x100 % 0x10 && c == n / 0x10 % 0x10 && d == n % 0x10
  {
    var n3 := n / 0x10;
    var n2 := n3 / 0x10;
    assert n3 == n / 0x10 && n2 == n / 0x100 && n2 / 0x10 == n / 0x1000;
  }

  lemma HexRead(t: string, p: nat, n: nat)
    requires n < 0x1_0000 && p + 4 <= |t|
    ensures IsDigitOf(t[p], n / 0x1000) && IsDigitOf(t[p + 1], n / 0x100 % 0x10)
            && IsDigitOf(t[p + 2], n / 0x10 % 0x10) && IsDigitOf(t[p + 3], n % 0x10)
            <==> HexDigits(t, p, 4) && Hex4(t, p) == n
  {
    hide IsDigitOf, HexOf, IsHex, Hex4, HexValue;
    DigitRead(t[p], n / 0x1000);
    DigitRead(t[p + 1], n / 0x100 % 0x10);
    DigitRead(t[p + 2], n / 0x10 % 0x10);
    DigitRead(t[p + 3], n % 0x10);
    if HexDigits(t, p, 4) {
      FourDigits(t, p);
      FourPlaces(n, HexOf(t[p]), HexOf(t[p + 1]), HexOf(t[p + 2]), HexOf(t[p + 3]));
    }
  }

  lemma FourDigits(t: string, p: nat)
    requires HexDigits(t, p, 4)
    ensures Hex4(t, p) == ((HexOf(t[p]) * 16 + HexOf(t[p + 1])) * 16 + HexOf(t[p + 2])) * 16 + HexOf(t[p + 3])
  {
    hide HexOf, IsHex;
    assert HexValue(t, p, 0) == 0;
    assert HexValue(t, p, 1) == HexOf(t[p]);
    assert HexValue(t, p, 2) == HexOf(t[p]) * 16 + HexOf(t[p + 1]);
    assert HexValue(t, p, 3) == (HexOf(t[p]) * 16 + HexOf(t[p + 1])) * 16 + HexOf(t[p + 2]);
  }

  /** The six units at p escape n exactly if they are read as n. */
  lemma UnitRead(t: string, p: nat, n: nat)
    requires n < 0x1_0000 && p + 6 <= |t|
    ensures IsUnitEscape(t[p..p + 6], n) <==>
            t[p] == '\\' && t[p + 1] == 'u' && HexDigits(t, p + 2, 4) && Hex4(t, p + 2) == n
  {
    hide IsDigitOf, HexDigits, Hex4;
    var w := t[p..p + 6];
    assert w[0] == t[p] && w[1] == t[p + 1] && w[2] == t[p + 2] && w[3] == t[p + 3] && w[4] == t[p + 4] && w[5] == t[p + 5];
    HexRead(t, p + 2, n);
  }

  lemma PointRead(t: string, p: nat, w: string, cp: nat)
    requires Encodings.IsScalarValue(cp) && Has(t, p, w) && IsPointEscape(w, cp)
    ensures 6 <= |w| && p + |w| <= |t| && t[p] == '\\' && t[p + 1] == 'u'
    ensures UnicodeEscape(t, p + 2) == Point(p + |w|, cp)
  {
    hide IsUnitEscape, HexDigits, Hex4;
    var u := Encodings.Utf16(cp);
    if |u| == 1 {
      UnitLength(w, u[0]);
      UnitRead(t, p, u[0]);
    } else {
      assert w[..6] == t[p..p + 6] && w[6..] == t[p + 6..p + 12];
      UnitRead(t, p, u[0]);
      UnitRead(t, p + 6, u[1]);
    }
  }

  lemma UnitLength(w: string, n: nat)
    requires n < 0x1_0000 && IsUnitEscape(w, n)
    ensures |w| == 6
  {}

  lemma ShortRead(t: string, p: nat, w: string, c: char)
    requires Has(t, p, w) && IsShortEscape(w, c)
    ensures |w| == 2 && p + 2 <= |t| && t[p] == '\\' && Escape(t[p + 1]) == c != NUL
  {
    HasAt(t, p, w, 0);
    HasAt(t, p, w, 1);
  }

  lemma ItemRead(t: string, p: nat, i: Item, acc: string)
    requires IsItem(i) && Has(t, p, ItemText(i))
    ensures ItemText(i) != "" && p + |ItemText(i)| <= |t|
    ensures StringBody(t, p, acc) == StringBody(t, p + |ItemText(i)|, acc + Meaning(i))
  {
    hide IsPointEscape, IsShortEscape, UnicodeEscape, Encodings.Utf8Chars, Escape;
    match i
    case Plain(c) => HasAt(t, p, [c], 0);
    case Short(w, c) => ShortRead(t, p, w, c);
    case Unicode(w, cp) =>
      PointRead(t, p, w, cp);
      NoEscape();
  }

  lemma NoEscape()
    ensures Escape('u') == NUL
  {}

  lemma BodyEnds(t: string, p: nat, acc: string)
    requires Has(t, p, "\"")
    ensures StringBody(t, p, acc) == Text(p + 1, acc)
  {
    HasAt(t, p, "\"", 0);
  }

  lemma {:induction false} ItemsRead(t: string, p: nat, items: seq<Item>, acc: string)
    requires AreItems(items) && Has(t, p, Body(items) + "\"")
    ensures StringBody(t, p, acc) == Text(p + |Body(items)| + 1, acc + Meanings(items))
    decreases |items|
  {
    hide StringBody, Has, IsItem, ItemText, Meaning;
    if items == [] {
      assert Body(items) + "\"" == "\"";
      BodyEnds(t, p, acc);
    } else {
      var text, rest := ItemText(items[0]), Body(items[1..]);
      assert Body(items) + "\"" == text + (rest + "\"");
      HasSplit(t, p, text, rest + "\"");
      ItemRead(t, p, items[0], acc);
      ItemsRead(t, p + |text|, items[1..], acc + Meaning(items[0]));
      assert acc + Meaning(items[0]) + Meanings(items[1..]) == acc + (Meaning(items[0]) + Meanings(items[1..]));
    }
  }

  // ---------- what is read is items ----------

  /** The first item of a body that is read, unless the body ends. */
  lemma FirstItem(t: string, p: nat, acc: string) returns (i: Item)
    requires p <= |t| && StringBody(t, p, acc).Text? && Peek(t, p) != '\"'
    ensures IsItem(i) && Has(t, p, ItemText(i))
  {
    hide UnicodeEscape, IsPointEscape;
    if Peek(t, p) != '\\' {
      i := Plain(t[p]);
    } else if Escape(Peek(t, p + 1)) != NUL {
      i := Short(t[p..p + 2], Escape(t[p + 1]));
      assert t[p..p + 2] == [t[p], t[p + 1]];
    } else {
      var u := UnicodeEscape(t, p + 2);
      PointItem(t, p);
      i := Unicode(t[p..u.pos], u.codepoint);
    }
  }

  lemma PointItem(t: string, p: nat)
    requires p + 2 <= |t| && t[p] == '\\' && t[p + 1] == 'u' && UnicodeEscape(t, p + 2).Point?
    ensures var u := UnicodeEscape(t, p + 2); p <= u.pos <= |t| && IsPointEscape(t[p..u.pos], u.codepoint)
  {
    hide IsUnitEscape, HexValue, HexDigits;
    var u := UnicodeEscape(t, p + 2);
    UnitRead(t, p, Hex4(t, p + 2));
    if u.pos == p + 12 {
      UnitRead(t, p + 6, Hex4(t, p + 8));
      assert t[p..u.pos][..6] == t[p..p + 6] && t[p..u.pos][6..] == t[p + 6..p + 12];
    }
  }

  lemma {:induction false} BodyItems(t: string, p: nat, acc: string) returns (items: seq<Item>)
    requires p <= |t| && StringBody(t, p, acc).Text?
    ensures AreItems(items) && Has(t, p, Body(items) + "\"")
    decreases |t| - p
  {
    hide Escape, UnicodeEscape, IsItem, ItemText, Meaning, StringBody;
    if Peek(t, p) == '\"' {
      items := [];
      assert t[p..p + 1] == "\"" == Body([]) + "\"";
    } else {
      var i := FirstItem(t, p, acc);
      ItemRead(t, p, i, acc);
      var rest := BodyItems(t, p + |ItemText(i)|, acc + Meaning(i));
      items := [i] + rest;
      assert items[1..] == rest;
      HasJoin(t, p, ItemText(i), Body(rest) + "\"");
      assert Body(items) + "\"" == ItemText(i) + (Body(rest) + "\"");
    }
  }

  lemma HasJoin(t: string, p: nat, a: string, b: string)
    requires Has(t, p, a) && Has(t, p + |a|, b)
    ensures Has(t, p, a + b)
  {
    assert t[p..p + |a + b|] == t[p..p + |a|] + t[p + |a|..p + |a| + |b|];
  }

  /** The string read of a token is what its items stand for: a text is read as s exactly if it is a
      token of s. */
  lemma StringMeans(t: string, p: nat, q: nat, s: string)
    requires p < |t| && t[p] == '\"'
    ensures StringAt(t, p) == Text(q, s) <==> p <= q <= |t| && IsToken(t[p..q], s)
  {
    hide StringBody, AreItems, Body, Meanings, Has;
    if StringAt(t, p) == Text(q, s) {
      var items := BodyItems(t, p + 1, "");
      ItemsRead(t, p + 1, items, "");
      BodyText(t, p, Body(items));
    }
    if p <= q <= |t| && IsToken(t[p..q], s) {
      var items :| AreItems(items) && t[p..q] == "\"" + Body(items) + "\"" && s == Meanings(items);
      TextBody(t, p, q, Body(items));
      ItemsRead(t, p + 1, items, "");
    }
  }

  lemma BodyText(t: string, p: nat, body: string)
    requires p < |t| && t[p] == '\"' && Has(t, p + 1, body + "\"")
    ensures p + |body| + 2 <= |t| && t[p..p + |body| + 2] == "\"" + body + "\""
  {
    assert t[p..p + |body| + 2] == [t[p]] + t[p + 1..p + 1 + |body + "\""|];
  }

  lemma TextBody(t: string, p: nat, q: nat, body: string)
    requires p <= q <= |t| && t[p..q] == "\"" + body + "\""
    ensures q == p + |body| + 2 && Has(t, p + 1, body + "\"")
  {
    assert t[p + 1..q] == t[p..q][1..];
    assert ("\"" + body + "\"")[1..] == body + "\"";
  }

  // ---------- the shortest way to write a string ----------

  function UnitText(n: nat): (w: string)
    requires n < 0x1_0000
    ensures IsUnitEscape(w, n)
  {
    ['\\', 'u', UPPER[n / 0x1000], UPPER[n / 0x100 % 0x10], UPPER[n / 0x10 % 0x10], UPPER[n % 0x10]]
  }

  /** Quotes, reverse solidi and control characters must be escaped. */
  function EscapedItem(c: char): (i: Item)
    ensures IsItem(i) && Meaning(i) == [c]
  {
    if c == '\"' then Short("\\\"", c)
    else if c == '\\' then Short("\\\\", c)
    else if c < ' ' then Unicode(UnitText(c as nat), c as nat)
    else Plain(c)
  }

  function EscapedItems(v: string): (items: seq<Item>)
    ensures AreItems(items) && Meanings(items) == v
  {
    if v == "" then [] else [EscapedItem(v[0])] + EscapedItems(v[1..])
  }

  function Quoted(v: string): string {
    "\"" + Body(EscapedItems(v)) + "\""
  }

  /** A string that is escaped and put in quotes is read back, whatever it contains. */
  lemma EscapedRead(t: string, p: nat, v: string)
    requires Has(t, p, Quoted(v))
    ensures p < |t| && t[p] == '\"' && StringAt(t, p) == Text(p + |Quoted(v)|, v)
  {
    hide Body, EscapedItems, AreItems, Meanings;
    var items := EscapedItems(v);
    HasAt(t, p, Quoted(v), 0);
    assert IsToken(t[p..p + |Quoted(v)|], v);
    StringMeans(t, p, p + |Quoted(v)|, v);
  }
}
