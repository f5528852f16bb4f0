/** The UTF-8 and UTF-16 codecs: code units come from and go to streams one at a time. */
module Encodings {
  import opened Widths

  type byte = b: int | 0 <= b < 0x100
  type word = w: int | 0 <= w < 0x1_0000

  predicate IsSurrogate(cp: int) {
    0xD800 <= cp <= 0xDFFF
  }

  /** A code point that may be encoded. */
  predicate IsScalarValue(cp: int) {
    0 <= cp <= 0x10FFFF && !IsSurrogate(cp)
  }

  // ---------- the functions the codecs compute ----------

  function Utf8(cp: nat): (s: seq<int>)
    requires cp <= 0x10FFFF
    ensures 1 <= |s| <= 4 && Bytes(s)
  {
    if cp <= 0x7F then [cp]
    else if cp <= 0x7FF then [0xC0 + cp / 0x40, 0x80 + cp % 0x40]
    else if cp <= 0xFFFF then [0xE0 + cp / 0x1000, 0x80 + cp / 0x40 % 0x40, 0x80 + cp % 0x40]
    else [0xF0 + cp / 0x4_0000, 0x80 + cp / 0x1000 % 0x40, 0x80 + cp / 0x40 % 0x40, 0x80 + cp % 0x40]
  }

  predicate Bytes(s: seq<int>) {
    forall i | 0 <= i < |s| :: 0 <= s[i] < 0x100
  }

  predicate Words(s: seq<int>) {
    forall i | 0 <= i < |s| :: 0 <= s[i] < 0x1_0000
  }

  function Chars(s: seq<int>): (r: string)
    requires Bytes(s)
    ensures |r| == |s| && forall i | 0 <= i < |s| :: r[i] as int == s[i]
  {
    seq(|s|, i requires 0 <= i < |s| => s[i] as char)
  }

  /** The encoding of a code point as characters of an 8-bit text. */
  function Utf8Chars(cp: nat): string
    requires cp <= 0x10FFFF
  {
    Chars(Utf8(cp))
  }

  function Utf16(cp: nat): (s: seq<int>)
    requires IsScalarValue(cp)
    ensures 1 <= |s| <= 2 && Words(s)
  {
    if cp <= 0xFFFF then [cp]
    else [0xD800 + (cp - 0x1_0000) / 0x400, 0xDC00 + (cp - 0x1_0000) % 0x400]
  }

  // ---------- the grammar of section 4 of RFC 3629, and UTF-16 ----------

  predicate IsTail(b: int) {
    0x80 <= b <= 0xBF
  }

  /** The bytes of one character, by the rule UTF8-char. */
  predicate IsUtf8Char(s: seq<int>) {
    if |s| == 1 then 0 <= s[0] <= 0x7F
    else if |s| == 2 then 0xC2 <= s[0] <= 0xDF && IsTail(s[1])
    else if |s| == 3 then
      && IsTail(s[2])
      && (|| (s[0] == 0xE0 && 0xA0 <= s[1] <= 0xBF)
          || (0xE1 <= s[0] <= 0xEC && IsTail(s[1]))
          || (s[0] == 0xED && 0x80 <= s[1] <= 0x9F)
          || (0xEE <= s[0] <= 0xEF && IsTail(s[1])))
    else if |s| == 4 then
      && IsTail(s[2]) && IsTail(s[3])
      && (|| (s[0] == 0xF0 && 0x90 <= s[1] <= 0xBF)
          || (0xF1 <= s[0] <= 0xF3 && IsTail(s[1]))
          || (s[0] == 0xF4 && 0x80 <= s[1] <= 0x8F))
    else false
  }

  /** The length of the character at p, or 0 if no character begins there. */
  function CharLength(s: seq<int>, p: nat): (n: nat)
    ensures 0 < n ==> p + n <= |s| && IsUtf8Char(s[p..p + n])
    ensures n == 0 ==> forall k | p <= k <= |s| :: !IsUtf8Char(s[p..k])
  {
    if p + 1 <= |s| && IsUtf8Char(s[p..p + 1]) then 1
    else if p + 2 <= |s| && IsUtf8Char(s[p..p + 2]) then 2
    else if p + 3 <= |s| && IsUtf8Char(s[p..p + 3]) then 3
    else if p + 4 <= |s| && IsUtf8Char(s[p..p + 4]) then 4
    else 0
  }

  predicate IsUtf16Char(s: seq<int>) {
    if |s| == 1 then 0 <= s[0] <= 0xFFFF && !IsSurrogate(s[0])
    else |s| == 2 && 0xD800 <= s[0] <= 0xDBFF && 0xDC00 <= s[1] <= 0xDFFF
  }

  function Char16Length(s: seq<int>, p: nat): (n: nat)
    ensures 0 < n ==> p + n <= |s| && IsUtf16Char(s[p..p + n])
    ensures n == 0 ==> forall k | p <= k <= |s| :: !IsUtf16Char(s[p..k])
  {
    if p + 1 <= |s| && IsUtf16Char(s[p..p + 1]) then 1
    else if p + 2 <= |s| && IsUtf16Char(s[p..p + 2]) then 2
    else 0
  }

  /** The code point of a character. */
  function Value8(s: seq<int>): (cp: nat)
    requires IsUtf8Char(s)
    ensures IsScalarValue(cp)
  {
    if |s| == 1 then s[0]
    else if |s| == 2 then Six(s[0] as int - 0xC0, s[1])
    else if |s| == 3 then Six(Six(s[0] as int - 0xE0, s[1]), s[2])
    else Six(Six(Six(s[0] as int - 0xF0, s[1]), s[2]), s[3])
  }

  /** Six more bits, from a tail byte. */
  function Six(high: nat, tail: int): (n: nat)
    requires IsTail(tail)
    ensures n / 0x40 == high && n % 0x40 == tail as int - 0x80
  {
    high * 0x40 + (tail as int - 0x80)
  }

  lemma ShiftTwice(n: nat)
    ensures n / 0x40 / 0x40 == n / 0x1000
    ensures n / 0x1000 / 0x40 == n / 0x4_0000
  {}

  /** Well-formed sequences are exactly the encodings of the scalar values: every character is the
      encoding of its code point, and every scalar value is the code point of its encoding. */
  lemma Utf8Value8(s: seq<int>)
    requires IsUtf8Char(s)
    ensures Utf8(Value8(s)) == s
  {
    ShiftTwice(Value8(s));
    hide Six;
  }

  lemma Value8Utf8(cp: nat)
    requires IsScalarValue(cp)
    ensures IsUtf8Char(Utf8(cp)) && Value8(Utf8(cp)) == cp
  {
    ShiftTwice(cp);
    var a, b := cp / 0x40, cp / 0x1000;
    assert cp == a * 0x40 + cp % 0x40;
    assert a == b * 0x40 + a % 0x40;
    assert b == cp / 0x4_0000 * 0x40 + b % 0x40;
    Utf8IsChar(cp);
  }

  lemma Utf8IsChar(cp: nat)
    requires IsScalarValue(cp)
    ensures IsUtf8Char(Utf8(cp))
  {}

  function Value16(s: seq<int>): (cp: nat)
    requires IsUtf16Char(s)
    ensures IsScalarValue(cp) && Utf16(cp) == s
  {
    if |s| == 1 then s[0] else (s[0] as int - 0xD800) * 0x400 + (s[1] as int - 0xDC00) + 0x1_0000
  }

  lemma Value16Utf16(cp: nat)
    requires IsScalarValue(cp)
    ensures IsUtf16Char(Utf16(cp)) && Value16(Utf16(cp)) == cp
  {}

  /** Behind a character nothing changes where it ends. */
  lemma CharLengthIs(s: seq<int>, p: nat, n: nat)
    requires p + n <= |s| && IsUtf8Char(s[p..p + n])
    ensures CharLength(s, p) == n
  {
    var k := CharLength(s, p);
    assert s[p] == s[p..p + n][0] && s[p] == s[p..p + k][0];
  }

  lemma Char16LengthIs(s: seq<int>, p: nat, n: nat)
    requires p + n <= |s| && IsUtf16Char(s[p..p + n])
    ensures Char16Length(s, p) == n
  {
    var k := Char16Length(s, p);
    assert s[p] == s[p..p + n][0] && s[p] == s[p..p + k][0];
  }

  // ---------- streams ----------

  /** Reads code units; at the end it delivers zero and stays there. */
  class InputStream {
    const src: seq<int>
    var pos: nat

    constructor (src: seq<int>)
      ensures this.src == src && pos == 0
    {
      this.src := src;
      pos := 0;
    }

    method Take() returns (c: int)
      requires pos <= |src|
      modifies this
      ensures c == At(src, old(pos)) && pos == Min(old(pos) + 1, |src|)
    {
      if pos == |src| { return 0; }
      c := src[pos];
      pos := pos + 1;
    }
  }

  class OutputStream {
    var out: seq<int>

    constructor ()
      ensures out == []
    {
      out := [];
    }

    method Put(c: int)
      modifies this
      ensures out == old(out) + [c]
    {
      out := out + [c];
    }
  }

  function At(s: seq<int>, p: nat): int {
    if p < |s| then s[p] else 0
  }

  function Min(a: nat, b: nat): nat {
    if a <= b then a else b
  }

  // ---------- UTF-8 ----------


  /** The class of a byte. The three classes of tail bytes are single bits, so that one mask can
      admit several of them. */
  function GetRange(c: byte): bv8 {
    if c <= 0x7F then 0
    else if c <= 0x8F then 0x10
    else if c <= 0x9F then 0x40
    else if c <= 0xBF then 0x20
    else if c <= 0xC1 then 8
    else if c <= 0xDF then 2
    else if c == 0xE0 then 10
    else if c <= 0xEC then 3
    else if c == 0xED then 4
    else if c <= 0xEF then 3
    else if c == 0xF0 then 11
    else if c <= 0xF3 then 6
    else if c == 0xF4 then 5
    else 8
  }

  predicate Admits(mask: bv8, c: byte) {
    GetRange(c) & mask != 0
  }

  lemma Masks(c: byte)
    ensures Admits(0x70, c) <==> IsTail(c)
    ensures Admits(0x50, c) <==> 0x80 <= c <= 0x9F
    ensures Admits(0x10, c) <==> 0x80 <= c <= 0x8F
    ensures Admits(0x20, c) <==> 0xA0 <= c <= 0xBF
    ensures Admits(0x60, c) <==> 0x90 <= c <= 0xBF
  {}

  /** The bits of a leading byte of this class that belong to the code point: 0xFF >> type. */
  function LeadBits(range: bv8, c: byte): uint32 {
    if range == 2 then c % 0x40
    else if range == 3 then c % 0x20
    else if range == 4 then c % 0x10
    else if range == 5 then c % 8
    else if range == 6 then c % 4
    else 0
  }

  /** What decoding at p comes to: the end of the text reads as a zero, a character is decoded and
      consumed, and anything else is refused. */
  predicate Decoded8(s: seq<int>, p: nat, ok: bool, cp: int, q: nat)
    requires p <= |s| && Bytes(s)
  {
    if p == |s| then ok && cp == 0 && q == p
    else if CharLength(s, p) == 0 then !ok
    else ok && q == p + CharLength(s, p) && cp == Value8(s[p..q])
  }

  method Copy(stream: InputStream, cp: uint32) returns (c: byte, cp': uint32)
    requires stream.pos <= |stream.src| && Bytes(stream.src)
    modifies stream
    ensures c == At(stream.src, old(stream.pos)) && stream.pos == Min(old(stream.pos) + 1, |stream.src|)
    ensures cp' == (cp * 0x40 + c % 0x40) % 0x1_0000_0000
  {
    c := stream.Take();
    cp' := (cp * 0x40 + c % 0x40) % 0x1_0000_0000;
  }

  method Tail(stream: InputStream, cp: uint32, result: bool) returns (cp': uint32, result': bool)
    requires stream.pos <= |stream.src| && Bytes(stream.src)
    modifies stream
    ensures var c := At(stream.src, old(stream.pos));
            && stream.pos == Min(old(stream.pos) + 1, |stream.src|)
            && cp' == (cp * 0x40 + c % 0x40) % 0x1_0000_0000
            && (result' <==> result && 0x80 <= c <= 0xBF)
  {
    var c;
    c, cp' := Copy(stream, cp);
    Masks(c);
    result' := result && Admits(0x70, c);
  }

  /** The length and the code point that the leading byte and the second byte call for. */
  lemma Character2(s: seq<int>, p: nat)
    requires p < |s| && Bytes(s) && 0xC2 <= s[p] <= 0xDF
    ensures CharLength(s, p) == if IsTail(At(s, p + 1)) then 2 else 0
    ensures CharLength(s, p) == 2 ==> Value8(s[p..p + 2]) == s[p] % 0x40 * 0x40 + s[p + 1] % 0x40
  {
    OneByte(s, p);
    if p + 2 <= |s| { assert s[p..p + 2] == [s[p], s[p + 1]]; }
    if p + 3 <= |s| { assert s[p..p + 3] == [s[p], s[p + 1], s[p + 2]]; }
    if p + 4 <= |s| { assert s[p..p + 4] == [s[p], s[p + 1], s[p + 2], s[p + 3]]; }
  }

  lemma OneByte(s: seq<int>, p: nat)
    requires p < |s|
    ensures 0x80 <= s[p] ==> !IsUtf8Char(s[p..p + 1])
  {}

  predicate Second3(c0: int, c1: byte) {
    if c0 == 0xE0 then 0xA0 <= c1 <= 0xBF
    else if c0 == 0xED then 0x80 <= c1 <= 0x9F
    else IsTail(c1)
  }

  lemma Character3(s: seq<int>, p: nat)
    requires p < |s| && Bytes(s) && 0xE0 <= s[p] <= 0xEF
    ensures CharLength(s, p) == if Second3(s[p], At(s, p + 1)) && IsTail(At(s, p + 2)) then 3 else 0
    ensures CharLength(s, p) == 3 ==>
              Value8(s[p..p + 3]) == ((s[p] - 0xE0) * 0x40 + s[p + 1] % 0x40) * 0x40 + s[p + 2] % 0x40
  {
    OneByte(s, p);
    if p + 2 <= |s| { assert s[p..p + 2] == [s[p], s[p + 1]]; }
    if p + 3 <= |s| { assert s[p..p + 3] == [s[p], s[p + 1], s[p + 2]]; }
    if p + 4 <= |s| { assert s[p..p + 4] == [s[p], s[p + 1], s[p + 2], s[p + 3]]; }
  }

  predicate Second4(c0: int, c1: byte) {
    if c0 == 0xF0 then 0x90 <= c1 <= 0xBF
    else if c0 == 0xF4 then 0x80 <= c1 <= 0x8F
    else IsTail(c1)
  }

  lemma Character4(s: seq<int>, p: nat)
    requires p < |s| && Bytes(s) && 0xF0 <= s[p] <= 0xF4
    ensures CharLength(s, p) ==
            if Second4(s[p], At(s, p + 1)) && IsTail(At(s, p + 2)) && IsTail(At(s, p + 3)) then 4 else 0
    ensures CharLength(s, p) == 4 ==>
              Value8(s[p..p + 4]) ==
              (((s[p] - 0xF0) * 0x40 + s[p + 1] % 0x40) * 0x40 + s[p + 2] % 0x40) * 0x40 + s[p + 3] % 0x40
  {
    OneByte(s, p);
    if p + 2 <= |s| { assert s[p..p + 2] == [s[p], s[p + 1]]; }
    if p + 3 <= |s| { assert s[p..p + 3] == [s[p], s[p + 1], s[p + 2]]; }
    if p + 4 <= |s| { assert s[p..p + 4] == [s[p], s[p + 1], s[p + 2], s[p + 3]]; }
  }

  lemma NoCharacter(s: seq<int>, p: nat)
    requires p < |s| && Bytes(s) && (0x80 <= s[p] <= 0xC1 || 0xF5 <= s[p])
    ensures CharLength(s, p) == 0
  {
    OneByte(s, p);
    hide Value8;
  }

  /** The classes of leading bytes, and the bits of theirs that belong to the code point. */
  lemma Classes(c: byte)
    requires 0x80 <= c
    ensures var r := GetRange(c);
            && (r == 2 <==> 0xC2 <= c <= 0xDF)
            && (r == 3 <==> 0xE1 <= c <= 0xEC || 0xEE <= c <= 0xEF)
            && (r == 4 <==> c == 0xED)
            && (r == 5 <==> c == 0xF4)
            && (r == 6 <==> 0xF1 <= c <= 0xF3)
            && (r == 10 <==> c == 0xE0)
            && (r == 11 <==> c == 0xF0)
    ensures var bits := LeadBits(GetRange(c), c);
            && (0xE0 <= c <= 0xEF ==> bits == c - 0xE0)
            && (0xF0 <= c <= 0xF4 ==> bits == c - 0xF0)
            && (0xC2 <= c <= 0xDF ==> bits == c % 0x40)
  {}

  /** The bytes behind the leading one: the second is tested with its own mask, and `tails` more
      have to be tail bytes. */
  method Rest(stream: InputStream, lead: uint32, mask: bv8, tails: nat) returns (ok: bool, codepoint: uint32)
    requires stream.pos <= |stream.src| && Bytes(stream.src) && tails <= 2 && lead < 0x40
    modifies stream
    ensures stream.pos == Min(old(stream.pos) + 1 + tails, |stream.src|)
    ensures var s, p := stream.src, old(stream.pos);
            && (ok <==> Admits(mask, At(s, p)) && (1 <= tails ==> IsTail(At(s, p + 1))) && (2 <= tails ==> IsTail(At(s, p + 2))))
            && var c2 := lead * 0x40 + At(s, p) % 0x40;
               var c3 := c2 * 0x40 + At(s, p + 1) % 0x40;
               codepoint == if tails == 0 then c2 else if tails == 1 then c3 else c3 * 0x40 + At(s, p + 2) % 0x40
  {
    hide Admits;
    ghost var s, p := stream.src, stream.pos;
    var c: byte;
    c, codepoint := Copy(stream, lead);
    SixMore(lead, c, 0x40);
    ok := Admits(mask, c);
    if 1 <= tails {
      SixMore(codepoint, At(s, p + 1), 0x1000);
      codepoint, ok := Tail(stream, codepoint, ok);
    }
    if 2 <= tails {
      SixMore(codepoint, At(s, p + 2), 0x4_0000);
      codepoint, ok := Tail(stream, codepoint, ok);
    }
  }

  /** Six bits behind a small number do not leave 32 bits. */
  lemma SixMore(cp: nat, c: int, bound: nat)
    requires cp < bound <= 0x4_0000
    ensures (cp * 0x40 + c % 0x40) % 0x1_0000_0000 == cp * 0x40 + c % 0x40 < bound * 0x40
  {}

  method Utf8Decode(stream: InputStream) returns (ok: bool, codepoint: uint32)
    requires stream.pos <= |stream.src| && Bytes(stream.src)
    modifies stream
    ensures old(stream.pos) <= stream.pos <= |stream.src|
    ensures Decoded8(stream.src, old(stream.pos), ok, codepoint, stream.pos)
  {
    hide CharLength, Value8, GetRange, LeadBits, Admits;
    ghost var s, p := stream.src, stream.pos;
    var c: byte := stream.Take();
    if c < 0x80 {
      if p < |s| { Ascii(s, p); }
      return true, c;
    }
    Classes(c);
    if p + 1 < |s| { Masks(s[p + 1]); } else { Masks(0); }
    var range := GetRange(c);
    var lead := LeadBits(range, c);
    if range == 2 {
      Character2(s, p);
      ok, codepoint := Rest(stream, lead, 0x70, 0);
    } else if range == 3 {
      Character3(s, p);
      ok, codepoint := Rest(stream, lead, 0x70, 1);
    } else if range == 4 {
      Character3(s, p);
      ok, codepoint := Rest(stream, lead, 0x50, 1);
    } else if range == 5 {
      Character4(s, p);
      ok, codepoint := Rest(stream, lead, 0x10, 2);
    } else if range == 6 {
      Character4(s, p);
      ok, codepoint := Rest(stream, lead, 0x70, 2);
    } else if range == 10 {
      Character3(s, p);
      ok, codepoint := Rest(stream, lead, 0x20, 1);
    } else if range == 11 {
      Character4(s, p);
      ok, codepoint := Rest(stream, lead, 0x60, 2);
    } else {
      NoCharacter(s, p);
      return false, 0;
    }
  }

  lemma Ascii(s: seq<int>, p: nat)
    requires p < |s| && Bytes(s) && s[p] < 0x80
    ensures CharLength(s, p) == 1 && Value8(s[p..p + 1]) == s[p]
  {}

  method Utf8Encode(stream: OutputStream, codepoint: uint32)
    requires codepoint <= 0x10FFFF
    modifies stream
    ensures stream.out == old(stream.out) + Utf8(codepoint)
  {
    if codepoint <= 0x7F {
      stream.Put(codepoint);
    } else if codepoint <= 0x7FF {
      stream.Put(0xC0 + codepoint / 0x40);
      stream.Put(0x80 + codepoint % 0x40);
    } else if codepoint <= 0xFFFF {
      stream.Put(0xE0 + codepoint / 0x1000);
      stream.Put(0x80 + codepoint / 0x40 % 0x40);
      stream.Put(0x80 + codepoint % 0x40);
    } else {
      stream.Put(0xF0 + codepoint / 0x4_0000);
      stream.Put(0x80 + codepoint / 0x1000 % 0x40);
      stream.Put(0x80 + codepoint / 0x40 % 0x40);
      stream.Put(0x80 + codepoint % 0x40);
    }
  }

  // ---------- validation ----------

  method CopyByte(stream: InputStream, os: OutputStream) returns (c: byte)
    requires stream.pos <= |stream.src| && Bytes(stream.src)
    modifies stream, os
    ensures c == At(stream.src, old(stream.pos)) && stream.pos == Min(old(stream.pos) + 1, |stream.src|)
    ensures os.out == old(os.out) + [c] && (Bytes(old(os.out)) ==> Bytes(os.out))
  {
    c := stream.Take();
    os.Put(c);
  }

  /** The bytes that must follow the leading one at p: the second passes the mask, the others are tails. */
  predicate Follows(s: seq<int>, p: nat, mask: bv8, tails: nat)
    requires p <= |s| && Bytes(s)
  {
    Admits(mask, At(s, p + 1)) && (1 <= tails ==> IsTail(At(s, p + 2))) && (2 <= tails ==> IsTail(At(s, p + 3)))
  }

  /** The length of the character with a leading byte of each class. */
  lemma Lengths(s: seq<int>, p: nat)
    requires p < |s| && Bytes(s) && 0x80 <= s[p]
    ensures var n := CharLength(s, p);
            match GetRange(s[p])
            case 2 => n == if Follows(s, p, 0x70, 0) then 2 else 0
            case 3 => n == if Follows(s, p, 0x70, 1) then 3 else 0
            case 4 => n == if Follows(s, p, 0x50, 1) then 3 else 0
            case 5 => n == if Follows(s, p, 0x10, 2) then 4 else 0
            case 6 => n == if Follows(s, p, 0x70, 2) then 4 else 0
            case 10 => n == if Follows(s, p, 0x20, 1) then 3 else 0
            case 11 => n == if Follows(s, p, 0x60, 2) then 4 else 0
            case _ => n == 0
  {
    hide CharLength, Value8, GetRange, LeadBits, Admits, IsUtf8Char;
    Classes(s[p]);
    Masks(At(s, p + 1));
    if 0xC2 <= s[p] <= 0xDF { Character2(s, p); }
    else if 0xE0 <= s[p] <= 0xEF { Character3(s, p); }
    else if 0xF0 <= s[p] <= 0xF4 { Character4(s, p); }
    else { NoCharacter(s, p); }
  }

  /** Like Rest, but the bytes are copied instead of collected. */
  method ValidateRest(stream: InputStream, os: OutputStream, mask: bv8, tails: nat, ghost out: seq<int>) returns (ok: bool)
    requires 0 < stream.pos <= |stream.src| && Bytes(stream.src) && tails <= 2
    requires os.out == out + stream.src[stream.pos - 1..stream.pos]
    modifies stream, os
    ensures stream.pos == Min(old(stream.pos) + 1 + tails, |stream.src|)
    ensures var s, p := stream.src, old(stream.pos);
            && (ok <==> Follows(s, p - 1, mask, tails))
            && (p + 1 + tails <= |s| ==> os.out == out + s[p - 1..p + 1 + tails])
    ensures |os.out| == |out| + 2 + tails && (Bytes(out) ==> Bytes(os.out))
  {
    ghost var s, p := stream.src, stream.pos;
    assert s[p - 1..p] == [s[p - 1]];
    var c := CopyByte(stream, os);
    ok := Admits(mask, c);
    assert p + 1 <= |s| ==> os.out == out + s[p - 1..p + 1];
    if 1 <= tails {
      c := CopyByte(stream, os);
      Masks(c);
      ok := ok && Admits(0x70, c);
      assert p + 2 <= |s| ==> os.out == out + s[p - 1..p + 2];
    }
    if 2 <= tails {
      c := CopyByte(stream, os);
      Masks(c);
      ok := ok && Admits(0x70, c);
      assert p + 3 <= |s| ==> os.out == out + s[p - 1..p + 3];
    }
  }

  lemma One(s: seq<int>, p: nat)
    ensures p < |s| ==> s[p..p + 1] == [At(s, p)]
  {}

  /** Validation gives the verdict of decoding. On success the bytes of the character, or the zero
      read at the end, have been copied. */
  method Utf8Validate(stream: InputStream, os: OutputStream) returns (ok: bool)
    requires stream.pos <= |stream.src| && Bytes(stream.src)
    modifies stream, os
    ensures old(stream.pos) <= stream.pos <= |stream.src|
    ensures var s, p := stream.src, old(stream.pos);
            && (ok <==> p == |s| || 0 < CharLength(s, p))
            && (ok && p == |s| ==> stream.pos == p && os.out == old(os.out) + [0])
            && (ok && p < |s| ==> stream.pos == p + CharLength(s, p) && os.out == old(os.out) + s[p..stream.pos])
    ensures |os.out| <= |old(os.out)| + 4 && (Bytes(old(os.out)) ==> Bytes(os.out))
  {
    hide CharLength, GetRange, Admits, IsUtf8Char, Follows;
    ghost var s, p, out := stream.src, stream.pos, os.out;
    One(s, p);
    var c := CopyByte(stream, os);
    if c < 0x80 {
      if p < |s| { Ascii(s, p); }
      return true;
    }
    Lengths(s, p);
    var range := GetRange(c);
    if range == 2 {
      ok := ValidateRest(stream, os, 0x70, 0, out);
    } else if range == 3 {
      ok := ValidateRest(stream, os, 0x70, 1, out);
    } else if range == 4 {
      ok := ValidateRest(stream, os, 0x50, 1, out);
    } else if range == 5 {
      ok := ValidateRest(stream, os, 0x10, 2, out);
    } else if range == 6 {
      ok := ValidateRest(stream, os, 0x70, 2, out);
    } else if range == 10 {
      ok := ValidateRest(stream, os, 0x20, 1, out);
    } else if range == 11 {
      ok := ValidateRest(stream, os, 0x60, 2, out);
    } else {
      return false;
    }
  }

  // ---------- UTF-16 ----------

  predicate Decoded16(s: seq<int>, p: nat, ok: bool, cp: int, q: nat)
    requires p <= |s| && Words(s)
  {
    if p == |s| then ok && cp == 0 && q == p
    else if Char16Length(s, p) == 0 then !ok
    else ok && q == p + Char16Length(s, p) && cp == Value16(s[p..q])
  }

  method Utf16Decode(stream: InputStream) returns (ok: bool, codepoint: uint32)
    requires stream.pos <= |stream.src| && Words(stream.src)
    modifies stream
    ensures old(stream.pos) <= stream.pos <= |stream.src|
    ensures Decoded16(stream.src, old(stream.pos), ok, codepoint, stream.pos)
  {
    ghost var s, p := stream.src, stream.pos;
    var c: word := stream.Take();
    if c < 0xD800 || 0xDFFF < c {
      return true, c;
    } else if c <= 0xDBFF {
      codepoint := c % 0x400 * 0x400;
      c := stream.Take();
      codepoint := codepoint + c % 0x400;
      codepoint := codepoint + 0x1_0000;
      ok := 0xDC00 <= c <= 0xDFFF;
      if p + 2 <= |s| { assert s[p..p + 2] == [s[p], s[p + 1]]; }
    } else {
      return false, 0;
    }
  }

  method Utf16Encode(stream: OutputStream, codepoint: uint32)
    requires IsScalarValue(codepoint)
    modifies stream
    ensures stream.out == old(stream.out) + Utf16(codepoint)
  {
    if codepoint <= 0xFFFF {
      stream.Put(codepoint);
    } else {
      var v := codepoint - 0x1_0000;
      stream.Put(0xD800 + v / 0x400);
      stream.Put(0xDC00 + v % 0x400);
    }
  }

  // ---------- whole strings ----------

  datatype Decoding = IllFormed | Points(cps: seq<nat>)

  predicate AllScalar(cps: seq<nat>) {
    forall i | 0 <= i < |cps| :: IsScalarValue(cps[i])
  }

  function EncodeAll8(cps: seq<nat>): (s: seq<int>)
    requires AllScalar(cps)
    ensures Bytes(s)
  {
    if cps == [] then [] else Utf8(cps[0]) + EncodeAll8(cps[1..])
  }

  function EncodeAll16(cps: seq<nat>): (s: seq<int>)
    requires AllScalar(cps)
    ensures Words(s)
  {
    if cps == [] then [] else Utf16(cps[0]) + EncodeAll16(cps[1..])
  }

  /** The code points from p on, behind those already decoded. */
  function DecodeFrom8(s: seq<int>, p: nat, done: seq<nat>): (r: Decoding)
    requires p <= |s| && Bytes(s) && AllScalar(done)
    ensures r.Points? ==> AllScalar(r.cps)
    decreases |s| - p
  {
    if p == |s| then Points(done)
    else
      var n := CharLength(s, p);
      if n == 0 then IllFormed else DecodeFrom8(s, p + n, done + [Value8(s[p..p + n])])
  }

  function DecodeFrom16(s: seq<int>, p: nat, done: seq<nat>): (r: Decoding)
    requires p <= |s| && Words(s) && AllScalar(done)
    ensures r.Points? ==> AllScalar(r.cps)
    decreases |s| - p
  {
    if p == |s| then Points(done)
    else
      var n := Char16Length(s, p);
      if n == 0 then IllFormed else DecodeFrom16(s, p + n, done + [Value16(s[p..p + n])])
  }

  lemma EncodeAppend(cps: seq<nat>, cp: nat)
    requires AllScalar(cps) && IsScalarValue(cp)
    ensures EncodeAll8(cps + [cp]) == EncodeAll8(cps) + Utf8(cp)
    ensures EncodeAll16(cps + [cp]) == EncodeAll16(cps) + Utf16(cp)
  {
    hide EncodeAll8, EncodeAll16, Utf8, Utf16;
    EncodeAppend8(cps, cp);
    EncodeAppend16(cps, cp);
  }

  lemma {:induction false} EncodeAppend8(cps: seq<nat>, cp: nat)
    requires AllScalar(cps) && IsScalarValue(cp)
    ensures EncodeAll8(cps + [cp]) == EncodeAll8(cps) + Utf8(cp)
  {
    hide Utf8, IsScalarValue, Bytes;
    if cps == [] {
      assert (cps + [cp])[1..] == [];
    } else {
      assert (cps + [cp])[1..] == cps[1..] + [cp];
      EncodeAppend8(cps[1..], cp);
    }
  }

  lemma {:induction false} EncodeAppend16(cps: seq<nat>, cp: nat)
    requires AllScalar(cps) && IsScalarValue(cp)
    ensures EncodeAll16(cps + [cp]) == EncodeAll16(cps) + Utf16(cp)
  {
    hide Utf16, IsScalarValue, Words;
    if cps == [] {
      assert (cps + [cp])[1..] == [];
    } else {
      assert (cps + [cp])[1..] == cps[1..] + [cp];
      EncodeAppend16(cps[1..], cp);
    }
  }

  /** Decoding a whole string and encoding it again gives back the string. */
  lemma {:induction false} EncodeDecoded8(s: seq<int>, p: nat, done: seq<nat>)
    requires p <= |s| && Bytes(s) && AllScalar(done)
    ensures match DecodeFrom8(s, p, done)
            case IllFormed => true
            case Points(cps) => EncodeAll8(cps) == EncodeAll8(done) + s[p..]
    decreases |s| - p
  {
    hide CharLength, Value8, Utf8, Utf16, IsUtf8Char;
    if p < |s| && 0 < CharLength(s, p) {
      var n := CharLength(s, p);
      var cp := Value8(s[p..p + n]);
      Utf8Value8(s[p..p + n]);
      EncodeAppend(done, cp);
      EncodeDecoded8(s, p + n, done + [cp]);
      assert s[p..] == s[p..p + n] + s[p + n..];
    }
  }

  /** Encoding scalar values and decoding the string gives them back, in UTF-8 ... */
  lemma {:induction false} DecodeEncoded8(s: seq<int>, p: nat, done: seq<nat>, cps: seq<nat>)
    requires p <= |s| && Bytes(s) && AllScalar(done) && AllScalar(cps) && s[p..] == EncodeAll8(cps)
    ensures DecodeFrom8(s, p, done) == Points(done + cps)
    decreases cps
  {
    hide Value8, Utf8, IsUtf8Char, CharLength;
    if cps == [] {
      assert done + cps == done;
    } else {
      var u := Utf8(cps[0]);
      Value8Utf8(cps[0]);
      assert s[p..p + |u|] == s[p..][..|u|] == u;
      assert s[p + |u|..] == s[p..][|u|..] == EncodeAll8(cps[1..]);
      CharLengthIs(s, p, |u|);
      DecodeEncoded8(s, p + |u|, done + [cps[0]], cps[1..]);
      assert done + [cps[0]] + cps[1..] == done + cps;
    }
  }

  /** ... and in UTF-16. */
  lemma {:induction false} DecodeEncoded16(s: seq<int>, p: nat, done: seq<nat>, cps: seq<nat>)
    requires p <= |s| && Words(s) && AllScalar(done) && AllScalar(cps) && s[p..] == EncodeAll16(cps)
    ensures DecodeFrom16(s, p, done) == Points(done + cps)
    decreases cps
  {
    hide Value16, Utf16, IsUtf16Char, Char16Length;
    if cps == [] {
      assert done + cps == done;
    } else {
      var u := Utf16(cps[0]);
      Value16Utf16(cps[0]);
      assert s[p..p + |u|] == s[p..][..|u|] == u;
      assert s[p + |u|..] == s[p..][|u|..] == EncodeAll16(cps[1..]);
      Char16LengthIs(s, p, |u|);
      DecodeEncoded16(s, p + |u|, done + [cps[0]], cps[1..]);
      assert done + [cps[0]] + cps[1..] == done + cps;
    }
  }

  /** Transcodes code point by code point until the source is exhausted or refused. */
  method TranscodeTo16(src: seq<int>) returns (ok: bool, out: seq<int>)
    requires Bytes(src)
    ensures match DecodeFrom8(src, 0, [])
            case IllFormed => !ok
            case Points(cps) => ok && out == EncodeAll16(cps)
  {
    hide CharLength, Value8, Utf8, Utf16;
    var stream := new InputStream(src);
    var os := new OutputStream();
    ghost var done: seq<nat> := [];
    while stream.pos < |src|
      invariant stream.src == src && stream.pos <= |src|
      invariant AllScalar(done) && os.out == EncodeAll16(done)
      invariant DecodeFrom8(src, 0, []) == DecodeFrom8(src, stream.pos, done)
      decreases |src| - stream.pos
    {
      var decoded, codepoint := Utf8Decode(stream);
      if !decoded { return false, os.out; }
      EncodeAppend(done, codepoint);
      Utf16Encode(os, codepoint);
      done := done + [codepoint];
    }
    return true, os.out;
  }

  method TranscodeTo8(src: seq<int>) returns (ok: bool, out: seq<int>)
    requires Words(src)
    ensures match DecodeFrom16(src, 0, [])
            case IllFormed => !ok
            case Points(cps) => ok && out == EncodeAll8(cps)
  {
    hide Char16Length, Value16, Utf8, Utf16;
    var stream := new InputStream(src);
    var os := new OutputStream();
    ghost var done: seq<nat> := [];
    while stream.pos < |src|
      invariant stream.src == src && stream.pos <= |src|
      invariant AllScalar(done) && os.out == EncodeAll8(done)
      invariant DecodeFrom16(src, 0, []) == DecodeFrom16(src, stream.pos, done)
      decreases |src| - stream.pos
    {
      var decoded, codepoint := Utf16Decode(stream);
      if !decoded { return false, os.out; }
      EncodeAppend(done, codepoint);
      Utf8Encode(os, codepoint);
      done := done + [codepoint];
    }
    return true, os.out;
  }

  /** From UTF-8 to UTF-16 and back: a well-formed string comes back unchanged, and an ill-formed
      one is refused on the way out. */
  method ThereAndBack(src: seq<int>) returns (ok: bool, back: seq<int>)
    requires Bytes(src)
    ensures ok <==> DecodeFrom8(src, 0, []).Points?
    ensures ok ==> back == src
  {
    var there;
    ok, there := TranscodeTo16(src);
    back := src;
    if ok {
      ghost var cps := DecodeFrom8(src, 0, []).cps;
      DecodeEncoded16(there, 0, [], cps);
      assert [] + cps == cps;
      EncodeDecoded8(src, 0, []);
      assert src[0..] == src;
      ok, back := TranscodeTo8(there);
    }
  }
}
