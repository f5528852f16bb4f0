/** The pointer parser: decoded names go into one buffer as long as the source, and tokens into an
    array with one entry for each '/'. */
module PointerParser {
  import opened JsonText
  import opened JsonPointer
  import Encodings

  /** Decodes a %XY triplet at a time; at anything else it delivers zero and becomes invalid. */
  class PercentDecodeStream {
    const src: string
    var pos: nat
    var valid: bool

    constructor (src: string, pos: nat)
      ensures this.src == src && this.pos == pos && valid
    {
      this.src, this.pos, valid := src, pos, true;
    }

    method Take() returns (c: int)
      requires pos <= |src|
      modifies this
      ensures old(pos) <= pos <= |src|
      ensures if IsTriplet(src, old(pos))
              then valid == old(valid) && c == TripletByte(src, old(pos)) && pos == old(pos) + 3
              else !valid && c == 0
    {
      if Peek(src, pos) != '%' || pos + 3 > |src| {
        valid := false;
        return 0;
      }
      hide Shifted, HexOf;
      ghost var p := pos;
      pos := pos + 1;
      c := 0;
      for j := 0 to 2
        invariant pos == p + 1 + j && valid == old(valid)
        invariant 1 <= j ==> IsHex(src[p + 1])
        invariant 2 <= j ==> IsHex(src[p + 2])
        invariant c == if j == 0 then 0 else if j == 1 then HexOf(src[p + 1]) else HexOf(src[p + 1]) * 16 + HexOf(src[p + 2])
      {
        var ok, d := HexValue(src[pos]);
        if !ok {
          valid := false;
          return 0;
        }
        c := Shifted(c, d);
        pos := pos + 1;
      }
    }
  }

  /** A hexadecimal digit more, in 8 bits. */
  function Shifted(c: int, d: nat): (r: int)
    ensures 0 <= c < 16 && d < 16 ==> r == c * 16 + d
  {
    (c * 16 + d) % 0x100
  }

  method HexValue(h: char) returns (ok: bool, d: nat)
    ensures ok == IsHex(h) && (ok ==> d == HexOf(h))
  {
    if '0' <= h <= '9' { return true, h as int - '0' as int; }
    else if 'A' <= h <= 'F' { return true, h as int - 'A' as int + 10; }
    else if 'a' <= h <= 'f' { return true, h as int - 'a' as int + 10; }
    else { return false, 0; }
  }

  /** The bytes of the triplets at p, as many as one character can have. */
  method TakeBytes(source: string, p: nat) returns (bytes: seq<int>)
    requires p <= |source|
    ensures bytes == PercentBytes(source, p, 4)
  {
    hide PercentBytes, IsTriplet, TripletByte;
    var stream := new PercentDecodeStream(source, p);
    bytes := [];
    while |bytes| < 4
      invariant stream.src == source && stream.valid && |bytes| <= 4
      invariant stream.pos == p + 3 * |bytes| <= |source|
      invariant bytes + PercentBytes(source, stream.pos, 4 - |bytes|) == PercentBytes(source, p, 4)
    {
      NextTriplet(source, stream.pos, 4 - |bytes|);
      var c := stream.Take();
      if !stream.valid { return; }
      bytes := bytes + [c];
    }
  }

  lemma NextTriplet(s: string, p: nat, k: nat)
    requires k > 0
    ensures PercentBytes(s, p, k) == if IsTriplet(s, p) then [TripletByte(s, p)] + PercentBytes(s, p + 3, k - 1) else []
    ensures PercentBytes(s, p, 0) == []
  {}

  method CopyTo(names: array<char>, nb: nat, bytes: seq<int>)
    requires nb + |bytes| <= names.Length && Encodings.Bytes(bytes)
    modifies names
    ensures names[..nb] == old(names[..nb]) && names[nb..nb + |bytes|] == Encodings.Chars(bytes)
  {
    for k := 0 to |bytes|
      invariant names[..nb] == old(names[..nb])
      invariant forall i | 0 <= i < k :: names[nb + i] == bytes[i] as char
    {
      names[nb + k] := bytes[k] as char;
    }
  }

  /** Copies the decoded character at p into the buffer at nb; on failure some bytes may have been
      copied too. */
  method PercentValidate(source: string, p: nat, names: array<char>, nb: nat) returns (ok: bool, len: nat)
    requires p < |source| == names.Length && nb + 2 <= p
    modifies names
    ensures names[..nb] == old(names[..nb])
    ensures var b := PercentBytes(source, p, 4); var n := Encodings.CharLength(b, 0);
      && (ok <==> 0 < n)
      && (ok ==> len == n && nb + n <= names.Length && names[nb..nb + n] == Encodings.Chars(b[..n]))
  {
    hide Encodings.CharLength, PercentBytes;
    var bytes := TakeBytes(source, p);
    var stream := new Encodings.InputStream(bytes);
    var os := new Encodings.OutputStream();
    ok := Encodings.Utf8Validate(stream, os);
    NoBytes(bytes);
    len := |os.out|;
    assert bytes != [] ==> p + 3 <= |source|;
    CopyTo(names, nb, os.out);
    ok := ok && bytes != [];
    if ok { assert os.out == bytes[..len]; }
  }

  lemma NoBytes(b: seq<int>)
    ensures b == [] ==> Encodings.CharLength(b, 0) == 0
  {}

  // ---------- names ----------

  /** One unit behind a consumed '~' or any other unit. */
  method Unescaped(source: string, p: nat, c: char) returns (ok: bool, c': char, p': nat)
    requires p <= |source|
    ensures ok ==> Unescape(source, c, p) == Piece([c'], p')
    ensures !ok ==> Unescape(source, c, p) == BadPiece(InvalidEscape, p')
  {
    c', p' := c, p;
    if c == '~' {
      if p' < |source| {
        c' := source[p'];
        if c' == '0' { c' := '~'; }
        else if c' == '1' { c' := '/'; }
        else { return false, c', p'; }
        p' := p' + 1;
      } else {
        return false, c', p';
      }
    }
    ok := true;
  }

  /** Decodes one piece of a name into the buffer at nb. */
  method ReadPiece(source: string, p: nat, uri: bool, names: array<char>, nb: nat)
    returns (ok: bool, next: nat, len: nat, digit: bool, code: PointerError)
    requires p < |source| == names.Length && nb + 1 + (if uri then 1 else 0) <= p
    modifies names
    ensures match PieceAt(source, p, uri)
            case BadPiece(code', at) => !ok && code == code' && next == at
            case Piece(units, next') =>
              && ok && next == next' && len == |units| && digit == AllDigits(units)
              && nb + len <= names.Length && names[..nb + len] == old(names[..nb]) + units
  {
    hide NeedPercentEncode, Encodings.CharLength, PercentBytes, Unescape, AllDigits;
    var c := source[p];
    next, len, digit := p + 1, 1, false;
    if uri {
      if c == '%' {
        var valid;
        valid, len := PercentValidate(source, p, names, nb);
        if !valid {
          return false, p, 0, false, InvalidPercentEncoding;
        }
        next := p + 3 * len;
        if len > 1 {
          Multibyte(source, p);
          AllDigitsAppend("", names[nb..nb + len]);
          assert names[..nb + len] == names[..nb] + names[nb..nb + len];
          return true, next, len, false, InvalidPercentEncoding;
        }
        c := names[nb];
      } else if NeedPercentEncode(c) {
        return false, p, 0, false, CharacterMustPercentEncode;
      }
    }
    var c';
    ok, c', next := Unescaped(source, next, c);
    if !ok {
      return false, next, 0, false, InvalidEscape;
    }
    names[nb] := c';
    digit := IsDigit(c');
    AllDigitsAppend("", [c']);
    code := InvalidEscape;
  }

  /** Decodes a name into the buffer from start on. Apart from the '#' of a URI fragment, the buffer
      has taken fewer units than the source has given. */
  method ReadName(source: string, p: nat, uri: bool, names: array<char>, start: nat)
    returns (ok: bool, i: nat, nb: nat, isNumber: bool, code: PointerError)
    requires p <= |source| == names.Length && start + 1 + (if uri then 1 else 0) <= p
    modifies names
    ensures match NameFrom(source, p, uri, "")
            case BadName(code', at) => !ok && code == code' && i == at
            case Name(name, end) =>
              && ok && i == end && isNumber == AllDigits(name)
              && nb == start + |name| && nb <= names.Length && names[..nb] == old(names[..start]) + name
    ensures ok ==> nb + 1 + (if uri then 1 else 0) <= i <= |source|
  {
    hide PieceAt, AllDigits;
    ghost var name := "";
    NoDigits();
    i, nb, isNumber, code := p, start, true, InvalidEscape;
    while i < |source| && source[i] != '/'
      invariant nb + 1 + (if uri then 1 else 0) <= i <= |source|
      invariant nb == start + |name| && names[..nb] == old(names[..start]) + name
      invariant isNumber == AllDigits(name)
      invariant NameFrom(source, p, uri, "") == NameFrom(source, i, uri, name)
    {
      var good, next, len, digit, code' := ReadPiece(source, i, uri, names, nb);
      if !good {
        return false, next, nb, isNumber, code';
      }
      ghost var units := PieceAt(source, i, uri).units;
      AllDigitsAppend(name, units);
      name := name + units;
      i, nb, isNumber := next, nb + len, isNumber && digit;
    }
    ok := true;
  }

  lemma AllDigitsAppend(name: string, units: string)
    ensures AllDigits(name + units) <==> AllDigits(name) && AllDigits(units)
    ensures units != "" && !IsDigit(units[0]) ==> !AllDigits(units)
    ensures |units| == 1 ==> (AllDigits(units) <==> IsDigit(units[0]))
  {
    forall i | 0 <= i < |units| ensures units[i] == (name + units)[|name| + i] {}
    if AllDigits(name + units) {
      forall i | 0 <= i < |name| ensures IsDigit(name[i]) { assert name[i] == (name + units)[i]; }
    }
  }

  lemma AllDigitsTake(name: string, n: nat)
    requires n <= |name| && AllDigits(name)
    ensures AllDigits(name[..n])
  {}

  lemma NoDigits()
    ensures AllDigits("")
  {}

  lemma Multibyte(source: string, i: nat)
    requires i < |source|
    ensures var b := PercentBytes(source, i, 4); var n := Encodings.CharLength(b, 0);
            1 < n ==> !IsDigit(b[0] as char)
  {}

  // ---------- tokens ----------

  /** A token as stored: where its name begins in the buffer. */
  datatype Record = Record(start: nat, length: nat, index: nat)

  /** The records denote the tokens, whose names end before nb. */
  predicate Denote(records: seq<Record>, names: seq<char>, tokens: seq<Token>) {
    && |records| == |tokens|
    && forall k | 0 <= k < |tokens| ::
        && records[k].start + records[k].length <= |names|
        && tokens[k] == Token(names[records[k].start..records[k].start + records[k].length], records[k].index)
  }

  lemma DenoteMore(records: seq<Record>, names: seq<char>, tokens: seq<Token>, more: seq<char>, r: Record)
    requires Denote(records, names, tokens) && r.start + r.length <= |names + more|
    ensures Denote(records + [r], names + more,
                   tokens + [Token((names + more)[r.start..r.start + r.length], r.index)])
  {
    forall k | 0 <= k < |tokens|
      ensures (names + more)[records[k].start..records[k].start + records[k].length]
              == names[records[k].start..records[k].start + records[k].length]
    {}
  }

  lemma DenoteWithin(records: seq<Record>, names: seq<char>, all: seq<char>, tokens: seq<Token>)
    requires Denote(records, names, tokens) && |names| <= |all| && all[..|names|] == names
    ensures Denote(records, all, tokens)
  {
    assert all == names + all[|names|..];
    forall k | 0 <= k < |tokens|
      ensures all[records[k].start..records[k].start + records[k].length]
              == names[records[k].start..records[k].start + records[k].length]
    {}
  }

  /** The conversion to an index of a name stored in the buffer. */
  method ToIndex(names: array<char>, start: nat, length: nat, digits: bool) returns (index: nat)
    requires start + length <= names.Length
    requires digits ==> AllDigits(names[start..start + length])
    ensures index == if digits then IndexOf(names[start..start + length]) else INVALID_INDEX
  {
    ghost var name := names[start..start + length];
    var isNumber := digits;
    if length == 0 {
      isNumber := false;
    }
    if isNumber && length > 1 && names[start] == '0' {
      isNumber := false;
    }
    var n: nat := 0;
    if isNumber {
      assert IsNumeral(name);
      for j := 0 to length
        invariant n < SIZE_LIMIT && IndexFrom(name, 0, 0) == IndexFrom(name, j, n)
      {
        var m := Wrap(n * 10 + DigitOf(names[start + j]));
        if m < n {
          isNumber := false;
          break;
        }
        n := m;
      }
    }
    index := if isNumber then n else INVALID_INDEX;
  }

  lemma WrapAtMost(n: nat)
    ensures Wrap(n) <= n
  {}

  lemma KeptName(kept: string, name: string, n: nat)
    requires n <= |name|
    ensures (kept + (name + [NUL]))[|kept|..|kept| + n] == name[..n]
  {}

  /** A name and its terminator behind the names stored so far make one more token. */
  lemma DenoteToken(records: seq<Record>, kept: string, tokens: seq<Token>, name: string, index: nat)
    requires Denote(records, kept, tokens)
    requires index == if AllDigits(name) then IndexOf(name[..Wrap(|name|)]) else INVALID_INDEX
    ensures Wrap(|name|) <= |name|
    ensures Denote(records + [Record(|kept|, Wrap(|name|), index)], kept + (name + [NUL]), tokens + [TokenOf(name)])
  {
    hide TokenOf, AllDigits, IndexOf, Denote, Wrap;
    WrapAtMost(|name|);
    var length := Wrap(|name|);
    TokenOfParts(name, index);
    DenoteMore(records, kept, tokens, name + [NUL], Record(|kept|, length, index));
    KeptName(kept, name, length);
  }

  lemma TokenOfParts(name: string, index: nat)
    requires index == if AllDigits(name) then IndexOf(name[..Wrap(|name|)]) else INVALID_INDEX
    ensures TokenOf(name) == Token(name[..Wrap(|name|)], index)
  {}

  class Pointer {
    var names: array<char>
    var records: array<Record>
    var failed: bool
    var code: PointerError
    var errorOffset: nat

    /** The tokens of a valid pointer. */
    ghost predicate Holds(tokens: seq<Token>)
      reads this, names, records
    {
      !failed && Denote(records[..], names[..], tokens)
    }

    /** Every '/' starts a token, so the records of a valid pointer fill their array; every name and
        its terminator fit into a buffer of the length of the source. */
    constructor (source: string)
      ensures match JsonPointer.Parse(source)
              case Invalid(c, at) => failed && code == c && errorOffset == at && records.Length == 0
              case Tokens(tokens) => Holds(tokens) && records.Length == Solidi(source, 0) && names.Length == |source|
    {
      names := new char[|source|];
      records := new Record[0];
      failed, code, errorOffset := false, TokenMustBeginWithSolidus, 0;
      new;
      Fill(source);
    }

    method CountTokens(source: string) returns (n: nat)
      ensures n == Solidi(source, 0)
    {
      n := 0;
      for i := 0 to |source|
        invariant n + Solidi(source, i) == Solidi(source, 0)
      {
        if source[i] == '/' { n := n + 1; }
      }
    }

    method Fail(c: PointerError, at: nat)
      modifies this
      ensures failed && code == c && errorOffset == at && records.Length == 0
      ensures fresh(records)
    {
      records := new Record[0];
      failed, code, errorOffset := true, c, at;
    }

    /** Reads one name and stores its token in entry k. */
    method ReadToken(source: string, p: nat, uri: bool, k: nat, start: nat, ghost tokens: seq<Token>)
      returns (ok: bool, i: nat, nb: nat, c: PointerError)
      requires p <= |source| == names.Length && start + 1 + (if uri then 1 else 0) <= p
      requires k < records.Length && Denote(records[..k], names[..start], tokens)
      modifies names, records
      ensures match NameFrom(source, p, uri, "")
              case BadName(c', at) => !ok && c == c' && i == at
              case Name(name, end) =>
                && ok && i == end && nb + (if uri then 1 else 0) <= i
                && Denote(records[..k + 1], names[..nb], tokens + [TokenOf(name)])
    {
      hide NameFrom, IndexOf, AllDigits, TokenOf, Denote, Wrap;
      ghost var kept := names[..start];
      var end, digits;
      ok, i, end, digits, c := ReadName(source, p, uri, names, start);
      nb := end;
      if ok {
        ghost var name := NameFrom(source, p, uri, "").name;
        WrapAtMost(|name|);
        var length := Wrap(end - start);
        names[end] := NUL;
        nb := end + 1;
        assert names[..nb] == kept + (name + [NUL]);
        assert names[start..start + length] == names[..nb][start..start + length];
        KeptName(kept, name, length);
        if digits { AllDigitsTake(name, length); }
        var index := ToIndex(names, start, length, digits);
        DenoteToken(records[..k], kept, tokens, name, index);
        records[k] := Record(start, length, index);
        assert records[..k + 1] == records[..k] + [Record(start, length, index)];
      }
    }

    method Fill(source: string)
      requires names.Length == |source|
      modifies this, names
      ensures match JsonPointer.Parse(source)
              case Invalid(c, at) => failed && code == c && errorOffset == at && records.Length == 0
              case Tokens(tokens) => Holds(tokens) && records.Length == Solidi(source, 0) && names.Length == |source|
    {
      hide NameFrom, TokenOf;
      var count := CountTokens(source);
      records := new Record[count](_ => Record(0, 0, 0));
      var i: nat := 0;
      var uri := false;
      if Peek(source, i) == '#' {
        uri := true;
        i := i + 1;
      }
      if i != |source| && source[i] != '/' {
        Fail(TokenMustBeginWithSolidus, i);
        return;
      }
      var k: nat, nb: nat := 0, 0;
      ghost var tokens := [];
      while i < |source|
        invariant nb + (if uri then 1 else 0) <= i <= |source| == names.Length
        invariant names == old(names) && fresh(records)
        invariant i < |source| ==> source[i] == '/'
        invariant k + Solidi(source, i) == records.Length == Solidi(source, 0)
        invariant Denote(records[..k], names[..nb], tokens)
        invariant JsonPointer.Parse(source) == TokensFrom(source, i, uri, tokens)
        decreases |source| - i
      {
        var ok, end, nb', c := ReadToken(source, i + 1, uri, k, nb, tokens);
        if !ok {
          Fail(c, end);
          return;
        }
        SolidiSkip(source, i + 1, end);
        tokens := tokens + [TokenOf(NameFrom(source, i + 1, uri, "").name)];
        k, nb, i := k + 1, nb', end;
      }
      failed := false;
      assert records[..k] == records[..];
      DenoteWithin(records[..], names[..nb], names[..], tokens);
    }

    /** Prints a valid pointer. */
    method Stringify(uri: bool, ghost tokens: seq<Token>) returns (ok: bool, text: string)
      requires Holds(tokens) && (uri ==> ByteNames(tokens))
      ensures match Print(tokens, uri)
              case NotPrintable => !ok
              case Printed(text') => ok && text == text'
    {
      hide NameText;
      text := if uri then "#" else "";
      for k := 0 to records.Length
        invariant Print(tokens, uri) == TokensText(tokens, k, uri, text)
      {
        var t := records[k];
        text := text + "/";
        ok, text := PutName(names[..][t.start..t.start + t.length], uri, text);
        if !ok { return; }
      }
      ok := true;
    }
  }

  /** Prints one name; what must be percent-encoded goes through the codec a character at a time. */
  method PutName(name: string, uri: bool, out: string) returns (ok: bool, text: string)
    requires uri ==> IsByteText(name)
    ensures match NameText(name, 0, uri, out)
            case NotPrintable => !ok
            case Printed(text') => ok && text == text'
  {
    hide NeedPercentEncode, Encodings.CharLength, PercentEncode, IsByteText;
    text := out;
    var j: nat := 0;
    while j < |name|
      invariant j <= |name| && NameText(name, 0, uri, out) == NameText(name, j, uri, text)
      decreases |name| - j
    {
      var c := name[j];
      if c == '~' {
        text := text + "~0";
        TildeIsUnreserved();
      } else if c == '/' {
        text := text + "~1";
      } else if uri && NeedPercentEncode(c) {
        var source := new Encodings.InputStream(Units(name));
        source.pos := j;
        var target := new Encodings.OutputStream();
        var valid := Encodings.Utf8Validate(source, target);
        if !valid { return false, text; }
        var next := source.pos;
        assert target.out == Units(name)[j..next];
        text := PutPercent(target.out, text);
        j := next;
        continue;
      } else {
        text := text + [c];
      }
      j := j + 1;
    }
    ok := true;
  }

  method PutPercent(bytes: seq<int>, out: string) returns (text: string)
    requires Encodings.Bytes(bytes)
    ensures text == out + PercentEncode(bytes)
  {
    text := out;
    for i := 0 to |bytes|
      invariant text + PercentEncode(bytes[i..]) == out + PercentEncode(bytes)
    {
      var u := bytes[i];
      assert bytes[i..][0] == u && bytes[i..][1..] == bytes[i + 1..];
      text := text + ['%', HexDigit(u / 16), HexDigit(u % 16)];
    }
  }
}
