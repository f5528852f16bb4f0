/** RFC 6901: what is printed is read back, what is read is printed back, and what is accepted. */
module PointerLaws {
  import opened JsonText
  import opened JsonPointer
  import Encodings

  /** Tokens as the parser builds them: lengths fit their field and the index is that of the name. */
  predicate Regular(tokens: seq<Token>) {
    forall i | 0 <= i < |tokens| :: |tokens[i].name| < SIZE_LIMIT && tokens[i].index == IndexOf(tokens[i].name)
  }

  predicate DashesUnindexed(tokens: seq<Token>) {
    forall i | 0 <= i < |tokens| && tokens[i].name == "-" :: tokens[i].index == INVALID_INDEX
  }

  predicate IsPrefix(a: string, b: string) {
    |a| <= |b| && b[..|a|] == a
  }

  lemma PrefixTransitive(a: string, b: string, c: string)
    requires IsPrefix(a, b) && IsPrefix(b, c)
    ensures IsPrefix(a, c)
  {}

  lemma PrefixHas(a: string, b: string, s: string)
    requires IsPrefix(a + b, s)
    ensures IsPrefix(a, s) && Has(s, |a|, b)
  {
    assert s[..|a|] == s[..|a + b|][..|a|];
    assert s[|a|..|a| + |b|] == s[..|a + b|][|a|..];
  }

  // ---------- printed, then parsed ----------

  lemma {:induction false} NameTextGrows(name: string, j: nat, uri: bool, out: string)
    requires j <= |name| && (uri ==> IsByteText(name)) && NameText(name, j, uri, out).Printed?
    ensures IsPrefix(out, NameText(name, j, uri, out).text)
    decreases |name| - j
  {
    hide NeedPercentEncode, EscapeUnit, PercentEncode, IsByteText;
    if j < |name| {
      if uri && NeedPercentEncode(name[j]) && name[j] != '/' {
        var n := Encodings.CharLength(Units(name), j);
        NameTextGrows(name, j + n, uri, out + PercentEncode(Units(name)[j..j + n]));
      } else {
        NameTextGrows(name, j + 1, uri, out + EscapeUnit(name[j]));
      }
    }
  }

  lemma {:induction false} TokensTextGrows(tokens: seq<Token>, k: nat, uri: bool, out: string)
    requires k <= |tokens| && (uri ==> ByteNames(tokens)) && TokensText(tokens, k, uri, out).Printed?
    ensures IsPrefix(out, TokensText(tokens, k, uri, out).text)
    decreases |tokens| - k
  {
    hide NameText;
    if k < |tokens| {
      var text := NameText(tokens[k].name, 0, uri, out + "/").text;
      NameTextGrows(tokens[k].name, 0, uri, out + "/");
      TokensTextGrows(tokens, k + 1, uri, text);
    }
  }

  /** An escaped unit is read back in one step, in either form. */
  lemma EscapedPiece(s: string, p: nat, uri: bool, c: char)
    requires Has(s, p, EscapeUnit(c))
    requires uri ==> c == '/' || !NeedPercentEncode(c)
    ensures PieceAt(s, p, uri) == Piece([c], p + |EscapeUnit(c)|)
    ensures s[p] != '/'
  {
    var e := EscapeUnit(c);
    assert s[p] == e[0];
    if |e| == 2 { assert s[p + 1] == e[1]; }
  }

  lemma TripletRead(s: string, p: nat, b: int)
    requires 0 <= b < 0x100 && Has(s, p, ['%', HexDigit(b / 16), HexDigit(b % 16)])
    ensures IsTriplet(s, p) && TripletByte(s, p) == b
  {
    var t := ['%', HexDigit(b / 16), HexDigit(b % 16)];
    assert s[p] == t[0] && s[p + 1] == t[1] && s[p + 2] == t[2];
  }

  /** Percent-encoded bytes are read back as bytes. */
  lemma {:induction false} PercentRead(s: string, p: nat, b: seq<int>, k: nat)
    requires Encodings.Bytes(b) && |b| <= k && Has(s, p, PercentEncode(b))
    ensures |b| <= |PercentBytes(s, p, k)| && PercentBytes(s, p, k)[..|b|] == b
    decreases |b|
  {
    if b != [] {
      hide IsTriplet, TripletByte, HexDigit, Has;
      HasSplit(s, p, ['%', HexDigit(b[0] / 16), HexDigit(b[0] % 16)], PercentEncode(b[1..]));
      TripletRead(s, p, b[0]);
      PercentRead(s, p + 3, b[1..], k - 1);
      assert b == [b[0]] + b[1..];
    }
  }

  lemma PercentPieceRead(s: string, p: nat, b: seq<int>)
    requires Encodings.Bytes(b) && Encodings.IsUtf8Char(b) && b != ['~' as int] && Has(s, p, PercentEncode(b))
    ensures PieceAt(s, p, true) == Piece(Encodings.Chars(b), p + 3 * |b|)
    ensures s[p] != '/'
  {
    PercentRead(s, p, b, 4);
    var all := PercentBytes(s, p, 4);
    assert all[0..0 + |b|] == b;
    Encodings.CharLengthIs(all, 0, |b|);
    assert s[p] == PercentEncode(b)[0] == '%';
    if |b| == 1 { assert Encodings.Chars(b) == [b[0] as char]; }
  }

  lemma NameStep(s: string, p: nat, uri: bool, done: string)
    requires p < |s| && s[p] != '/' && PieceAt(s, p, uri).Piece?
    ensures NameFrom(s, p, uri, done) == NameFrom(s, PieceAt(s, p, uri).next, uri, done + PieceAt(s, p, uri).units)
  {}

  /** A printed name is read back, in either form. */
  lemma {:induction false} NamePrinted(s: string, name: string, j: nat, uri: bool, out: string)
    requires j <= |name| && (uri ==> IsByteText(name))
    requires NameText(name, j, uri, out).Printed? && IsPrefix(NameText(name, j, uri, out).text, s)
    ensures IsPrefix(out, s)
    ensures NameFrom(s, |out|, uri, name[..j]) == NameFrom(s, |NameText(name, j, uri, out).text|, uri, name)
    decreases |name| - j
  {
    hide NeedPercentEncode, EscapeUnit, PercentEncode, IsByteText, NameFrom, PieceAt, Has;
    NameTextGrows(name, j, uri, out);
    PrefixTransitive(out, NameText(name, j, uri, out).text, s);
    if j == |name| {
      assert name[..j] == name;
    } else if uri && NeedPercentEncode(name[j]) && name[j] != '/' {
      PercentPrinted(s, name, j, out);
    } else {
      var e := EscapeUnit(name[j]);
      NamePrinted(s, name, j + 1, uri, out + e);
      PrefixHas(out, e, s);
      EscapedPiece(s, |out|, uri, name[j]);
      NameStep(s, |out|, uri, name[..j]);
      assert name[..j] + [name[j]] == name[..j + 1];
    }
  }

  /** A percent-encoded character is printed in one step. */
  lemma PercentText(name: string, j: nat, out: string)
    requires j < |name| && IsByteText(name) && NeedPercentEncode(name[j]) && name[j] != '/'
    requires NameText(name, j, true, out).Printed?
    ensures 0 < Encodings.CharLength(Units(name), j) <= |name| - j
    ensures var n := Encodings.CharLength(Units(name), j); var b := Units(name)[j..j + n];
            && Encodings.IsUtf8Char(b) && b != ['~' as int]
            && NameText(name, j, true, out) == NameText(name, j + n, true, out + PercentEncode(b))
            && name[..j] + Encodings.Chars(b) == name[..j + n]
  {
    hide Encodings.CharLength, Encodings.IsUtf8Char, PercentEncode;
    var n := Encodings.CharLength(Units(name), j);
    var b := Units(name)[j..j + n];
    TildeIsUnreserved();
    assert b[0] == name[j] as int;
    CharsOfSlice(name, j, n);
  }

  lemma CharsOfSlice(name: string, j: nat, n: nat)
    requires j + n <= |name| && IsByteText(name)
    ensures name[..j] + Encodings.Chars(Units(name)[j..j + n]) == name[..j + n]
  {}

  lemma {:induction false} PercentPrinted(s: string, name: string, j: nat, out: string)
    requires j < |name| && IsByteText(name) && NeedPercentEncode(name[j]) && name[j] != '/'
    requires NameText(name, j, true, out).Printed? && IsPrefix(NameText(name, j, true, out).text, s)
    ensures IsPrefix(out, s)
    ensures NameFrom(s, |out|, true, name[..j]) == NameFrom(s, |NameText(name, j, true, out).text|, true, name)
    decreases |name| - j, 0
  {
    hide NeedPercentEncode, PercentEncode, IsByteText, NameFrom, PieceAt, Has, NameText, Encodings.CharLength, Encodings.IsUtf8Char;
    PercentText(name, j, out);
    var n := Encodings.CharLength(Units(name), j);
    var b := Units(name)[j..j + n];
    NamePrinted(s, name, j + n, true, out + PercentEncode(b));
    PrefixHas(out, PercentEncode(b), s);
    PercentPieceRead(s, |out|, b);
    NameStep(s, |out|, true, name[..j]);
  }

  lemma NameEnds(s: string, p: nat, uri: bool, done: string)
    requires p <= |s| && (p == |s| || s[p] == '/')
    ensures NameFrom(s, p, uri, done) == Name(done, p)
  {}

  lemma TokenText(s: string, tokens: seq<Token>, k: nat, uri: bool, out: string)
    requires k < |tokens| && (uri ==> ByteNames(tokens))
    requires TokensText(tokens, k, uri, out) == Printed(s)
    ensures IsPrefix(out + "/", s)
    ensures var name := NameText(tokens[k].name, 0, uri, out + "/");
      && name.Printed? && TokensText(tokens, k + 1, uri, name.text) == Printed(s)
      && NameFrom(s, |out| + 1, uri, "") == Name(tokens[k].name, |name.text|)
  {
    hide NameText, NameFrom;
    var text := NameText(tokens[k].name, 0, uri, out + "/").text;
    TokensTextGrows(tokens, k + 1, uri, text);
    NamePrinted(s, tokens[k].name, 0, uri, out + "/");
    assert tokens[k].name[..0] == "";
    if k + 1 < |tokens| {
      var next := NameText(tokens[k + 1].name, 0, uri, text + "/").text;
      NameTextGrows(tokens[k + 1].name, 0, uri, text + "/");
      TokensTextGrows(tokens, k + 2, uri, next);
      PrefixTransitive(text + "/", next, s);
      PrefixHas(text, "/", s);
      assert s[|text|] == s[|text|..|text| + 1][0];
    }
    NameEnds(s, |text|, uri, tokens[k].name);
  }

  lemma {:induction false} TokensPrinted(s: string, tokens: seq<Token>, k: nat, uri: bool, out: string)
    requires k <= |tokens| && (uri ==> ByteNames(tokens)) && Regular(tokens)
    requires TokensText(tokens, k, uri, out) == Printed(s)
    ensures |out| <= |s| && TokensFrom(s, |out|, uri, tokens[..k]) == Tokens(tokens)
    decreases |tokens| - k
  {
    hide NameText, NameFrom, TokensText;
    TokensTextGrows(tokens, k, uri, out);
    if k == |tokens| {
      TokensEnd(tokens, uri, out);
      assert tokens[..k] == tokens;
    } else {
      TokenText(s, tokens, k, uri, out);
      TokensPrinted(s, tokens, k + 1, uri, NameText(tokens[k].name, 0, uri, out + "/").text);
      PrefixHas(out, "/", s);
      assert s[|out|] == s[|out|..|out| + 1][0];
      assert tokens[..k] + [tokens[k]] == tokens[..k + 1];
    }
  }

  lemma TokensEnd(tokens: seq<Token>, uri: bool, out: string)
    requires uri ==> ByteNames(tokens)
    ensures TokensText(tokens, |tokens|, uri, out) == Printed(out)
  {}

  /** The plain form can always be printed. */
  lemma {:induction false} PlainName(name: string, j: nat, out: string)
    requires j <= |name|
    ensures NameText(name, j, false, out).Printed?
    decreases |name| - j
  {
    if j < |name| { PlainName(name, j + 1, out + EscapeUnit(name[j])); }
  }

  lemma {:induction false} PlainTokens(tokens: seq<Token>, k: nat, out: string)
    requires k <= |tokens|
    ensures TokensText(tokens, k, false, out).Printed?
    decreases |tokens| - k
  {
    hide NameText;
    if k < |tokens| {
      PlainName(tokens[k].name, 0, out + "/");
      PlainTokens(tokens, k + 1, NameText(tokens[k].name, 0, false, out + "/").text);
    }
  }

  /** Parsing a printed pointer gives back its tokens, names and indexes, in either form; the plain
      form can always be printed. */
  lemma ParsePrinted(tokens: seq<Token>, uri: bool)
    requires Regular(tokens) && (uri ==> ByteNames(tokens))
    ensures match Print(tokens, uri)
            case NotPrintable => uri
            case Printed(text) => IsUriFragment(text) == uri && Parse(text) == Tokens(tokens)
  {
    hide TokensText, TokensFrom, NameText;
    if !uri { PlainTokens(tokens, 0, ""); }
    if Print(tokens, uri).Printed? {
      var out := if uri then "#" else "";
      var text := Print(tokens, uri).text;
      assert tokens[..0] == [];
      TokensPrinted(text, tokens, 0, uri, out);
      TokensTextGrows(tokens, 0, uri, out);
      if uri {
        assert text[0] == text[..1][0];
      } else if tokens == [] {
        TokensEnd(tokens, uri, out);
      } else {
        TokenText(text, tokens, 0, uri, out);
        assert text[0] == text[..1][0];
      }
    }
  }

  // ---------- parsed, then printed ----------

  lemma {:induction false} NameGrows(s: string, p: nat, uri: bool, done: string)
    requires p <= |s| && NameFrom(s, p, uri, done).Name?
    ensures IsPrefix(done, NameFrom(s, p, uri, done).name)
    decreases |s| - p
  {
    hide PieceAt;
    if p < |s| && s[p] != '/' {
      NameGrows(s, PieceAt(s, p, uri).next, uri, done + PieceAt(s, p, uri).units);
    }
  }

  lemma PlainPiece(s: string, p: nat)
    requires p < |s| && s[p] != '/' && PieceAt(s, p, false).Piece?
    ensures var piece := PieceAt(s, p, false); |piece.units| == 1 && s[p..piece.next] == EscapeUnit(piece.units[0])
  {
    if s[p] == '~' { assert s[p..p + 2] == [s[p], s[p + 1]]; } else { assert s[p..p + 1] == [s[p]]; }
  }

  lemma {:induction false} PlainNameParsed(s: string, p: nat, done: string, out: string)
    requires p <= |s| && NameFrom(s, p, false, done).Name?
    ensures var r := NameFrom(s, p, false, done);
            IsPrefix(done, r.name) && NameText(r.name, |done|, false, out) == Printed(out + s[p..r.end])
    decreases |s| - p
  {
    NameGrows(s, p, false, done);
    if p < |s| && s[p] != '/' {
      var r, piece := NameFrom(s, p, false, done), PieceAt(s, p, false);
      PlainPiece(s, p);
      hide PieceAt, EscapeUnit;
      PlainNameParsed(s, piece.next, done + piece.units, out + s[p..piece.next]);
      assert r.name[|done|] == (done + piece.units)[|done|];
      assert out + s[p..piece.next] + s[piece.next..r.end] == out + s[p..r.end];
    }
  }

  lemma {:induction false} TokensGrow(s: string, p: nat, uri: bool, done: seq<Token>)
    requires p <= |s| && TokensFrom(s, p, uri, done).Tokens?
    ensures done <= TokensFrom(s, p, uri, done).tokens
    decreases |s| - p
  {
    hide NameFrom, TokenOf;
    if p < |s| {
      var r := NameFrom(s, p + 1, uri, "");
      TokensGrow(s, r.end, uri, done + [TokenOf(r.name)]);
    }
  }

  lemma {:induction false} PlainTokensParsed(s: string, p: nat, done: seq<Token>)
    requires p <= |s| <= SIZE_LIMIT && TokensFrom(s, p, false, done).Tokens?
    ensures var tokens := TokensFrom(s, p, false, done).tokens;
            done <= tokens && TokensText(tokens, |done|, false, s[..p]) == Printed(s)
    decreases |s| - p
  {
    hide NameFrom, NameText, IndexOf;
    TokensGrow(s, p, false, done);
    if p == |s| {
      assert s[..p] == s;
    } else {
      var r := NameFrom(s, p + 1, false, "");
      PlainNameParsed(s, p + 1, "", s[..p] + "/");
      assert s[..p] + "/" + s[p + 1..r.end] == s[..r.end];
      PlainTokensParsed(s, r.end, done + [TokenOf(r.name)]);
      assert TokensFrom(s, p, false, done).tokens[|done|] == (done + [TokenOf(r.name)])[|done|];
    }
  }

  /** Printing a parsed pointer gives back the text it was parsed from. */
  lemma PrintParsed(s: string)
    requires !IsUriFragment(s) && Parse(s).Tokens? && |s| <= SIZE_LIMIT
    ensures Print(Parse(s).tokens, false) == Printed(s)
  {
    PlainTokensParsed(s, 0, []);
    assert s[..0] == "";
  }

  // ---------- the URI form and UTF-8 ----------

  /** A name that is a string of well-formed UTF-8 characters. */
  predicate WellFormed(name: string)
    requires IsByteText(name)
  {
    Encodings.DecodeFrom8(Units(name), 0, []).Points?
  }

  lemma AsciiLength(u: seq<int>, j: nat)
    requires j < |u| && 0 <= u[j] < 0x80
    ensures Encodings.CharLength(u, j) == 1
  {
    assert Encodings.IsUtf8Char(u[j..j + 1]);
  }

  lemma {:induction false} NamePrintable(name: string, j: nat, out: string, cps: seq<nat>)
    requires j <= |name| && IsByteText(name) && Encodings.AllScalar(cps)
    ensures NameText(name, j, true, out).Printed? <==> Encodings.DecodeFrom8(Units(name), j, cps).Points?
    decreases |name| - j
  {
    hide PercentEncode, EscapeUnit, Encodings.CharLength, Encodings.IsUtf8Char, Encodings.Value8;
    if j < |name| {
      var u := Units(name);
      var n := Encodings.CharLength(u, j);
      if NeedPercentEncode(name[j]) && name[j] != '/' {
        if n > 0 {
          NamePrintable(name, j + n, out + PercentEncode(u[j..j + n]), cps + [Encodings.Value8(u[j..j + n])]);
        }
      } else {
        AsciiLength(u, j);
        NamePrintable(name, j + 1, out + EscapeUnit(name[j]), cps + [Encodings.Value8(u[j..j + 1])]);
      }
    }
  }

  lemma {:induction false} TokensPrintable(tokens: seq<Token>, k: nat, out: string)
    requires k <= |tokens| && ByteNames(tokens)
    ensures TokensText(tokens, k, true, out).Printed? <==> forall i | k <= i < |tokens| :: WellFormed(tokens[i].name)
    decreases |tokens| - k
  {
    hide NameText, Encodings.DecodeFrom8;
    if k < |tokens| {
      NamePrintable(tokens[k].name, 0, out + "/", []);
      var r := NameText(tokens[k].name, 0, true, out + "/");
      if r.Printed? { TokensPrintable(tokens, k + 1, r.text); }
    }
  }

  /** The URI form can be printed exactly when every name is well-formed UTF-8. */
  lemma UriPrintable(tokens: seq<Token>)
    requires ByteNames(tokens)
    ensures Print(tokens, true).Printed? <==> forall i | 0 <= i < |tokens| :: WellFormed(tokens[i].name)
  {
    TokensPrintable(tokens, 0, "#");
  }

  /** A character behind a well-formed string. */
  lemma {:induction false} DecodeAppend(u: seq<int>, p: nat, cps: seq<nat>, c: seq<int>)
    requires p <= |u| && Encodings.Bytes(u) && Encodings.AllScalar(cps) && Encodings.DecodeFrom8(u, p, cps).Points?
    requires Encodings.Bytes(c) && Encodings.IsUtf8Char(c)
    ensures Encodings.Bytes(u + c) && Encodings.DecodeFrom8(u + c, p, cps).Points?
    decreases |u| - p
  {
    hide Encodings.CharLength, Encodings.IsUtf8Char, Encodings.Value8;
    if p == |u| {
      assert (u + c)[p..p + |c|] == c;
      Encodings.CharLengthIs(u + c, p, |c|);
    } else {
      var n := Encodings.CharLength(u, p);
      assert (u + c)[p..p + n] == u[p..p + n];
      Encodings.CharLengthIs(u + c, p, n);
      DecodeAppend(u, p + n, cps + [Encodings.Value8(u[p..p + n])], c);
    }
  }

  lemma UriPieceWellFormed(s: string, p: nat)
    requires p < |s|
    ensures match PieceAt(s, p, true)
            case BadPiece(_, _) => true
            case Piece(units, _) => IsByteText(units) && Encodings.IsUtf8Char(Units(units))
  {
    if s[p] == '%' {
      hide Unescape, Encodings.CharLength, PercentBytes, Encodings.IsUtf8Char;
      var b := PercentBytes(s, p, 4);
      var n := Encodings.CharLength(b, 0);
      if n == 1 {
        OneByteWellFormed(b, n);
        UnescapedWellFormed(s, b[0] as char, p + 3);
      } else if n > 1 {
        assert Units(Encodings.Chars(b[..n])) == b[0..n];
      }
    } else if !NeedPercentEncode(s[p]) {
      UnescapedWellFormed(s, s[p], p + 1);
    }
  }

  lemma OneByteWellFormed(b: seq<int>, n: nat)
    requires n == 1 == Encodings.CharLength(b, 0) && Encodings.Bytes(b)
    ensures 0 <= b[0] < 0x80
  {
    assert Encodings.IsUtf8Char(b[0..1]);
  }

  lemma UnescapedWellFormed(s: string, c: char, p: nat)
    requires p <= |s| && c as int < 0x80
    ensures match Unescape(s, c, p)
            case BadPiece(_, _) => true
            case Piece(units, _) => IsByteText(units) && Encodings.IsUtf8Char(Units(units))
  {}

  lemma {:induction false} UriNameWellFormed(s: string, p: nat, done: string)
    requires p <= |s| && IsByteText(done) && WellFormed(done)
    ensures match NameFrom(s, p, true, done)
            case BadName(_, _) => true
            case Name(name, _) => IsByteText(name) && WellFormed(name)
    decreases |s| - p
  {
    hide PieceAt, Encodings.IsUtf8Char, Encodings.DecodeFrom8;
    if p < |s| && s[p] != '/' && PieceAt(s, p, true).Piece? {
      var units := PieceAt(s, p, true).units;
      UriPieceWellFormed(s, p);
      DecodeAppend(Units(done), 0, [], Units(units));
      assert Units(done) + Units(units) == Units(done + units);
      UriNameWellFormed(s, PieceAt(s, p, true).next, done + units);
    }
  }

  predicate UriNames(tokens: seq<Token>) {
    && ByteNames(tokens)
    && forall i | 0 <= i < |tokens| :: WellFormed(tokens[i].name)
  }

  lemma {:induction false} UriTokensWellFormed(s: string, p: nat, done: seq<Token>)
    requires p <= |s| <= SIZE_LIMIT && UriNames(done)
    ensures match TokensFrom(s, p, true, done)
            case Invalid(_, _) => true
            case Tokens(tokens) => UriNames(tokens)
    decreases |s| - p
  {
    hide NameFrom, IndexOf, Encodings.DecodeFrom8;
    if p < |s| && s[p] == '/' && NameFrom(s, p + 1, true, "").Name? {
      var r := NameFrom(s, p + 1, true, "");
      EmptyWellFormed();
      UriNameWellFormed(s, p + 1, "");
      UriTokensWellFormed(s, r.end, done + [TokenOf(r.name)]);
    }
  }

  lemma EmptyWellFormed()
    ensures WellFormed("")
  {}

  lemma {:induction false} TokensRegular(s: string, p: nat, uri: bool, done: seq<Token>)
    requires p <= |s| <= SIZE_LIMIT && Regular(done)
    ensures match TokensFrom(s, p, uri, done)
            case Invalid(_, _) => true
            case Tokens(tokens) => Regular(tokens)
    decreases |s| - p
  {
    hide NameFrom, IndexOf;
    if p < |s| && s[p] == '/' && NameFrom(s, p + 1, uri, "").Name? {
      var r := NameFrom(s, p + 1, uri, "");
      TokensRegular(s, r.end, uri, done + [TokenOf(r.name)]);
    }
  }

  /** No token "-" of a parsed pointer has an index. */
  lemma {:induction false} DashesParsed(s: string, p: nat, uri: bool, done: seq<Token>)
    requires p <= |s| && DashesUnindexed(done)
    ensures match TokensFrom(s, p, uri, done)
            case Invalid(_, _) => true
            case Tokens(tokens) => DashesUnindexed(tokens)
    decreases |s| - p
  {
    hide NameFrom;
    if p < |s| && s[p] == '/' && NameFrom(s, p + 1, uri, "").Name? {
      var r := NameFrom(s, p + 1, uri, "");
      DashesParsed(s, r.end, uri, done + [TokenOf(r.name)]);
    }
  }

  /** A parsed URI fragment can be printed as one, and that text denotes the same pointer. */
  lemma UriReprinted(s: string)
    requires IsUriFragment(s) && Parse(s).Tokens? && |s| <= SIZE_LIMIT
    ensures ByteNames(Parse(s).tokens)
    ensures match Print(Parse(s).tokens, true)
            case NotPrintable => false
            case Printed(text) => Parse(text) == Parse(s)
  {
    hide TokensFrom, Print;
    UriTokensWellFormed(s, 1, []);
    TokensRegular(s, 1, true, []);
    UriPrintable(Parse(s).tokens);
    ParsePrinted(Parse(s).tokens, true);
  }

  // ---------- what is accepted ----------

  /** Every '~' introduces one of the two escapes of section 3 of RFC 6901. */
  predicate EscapesFrom(s: string, p: nat) {
    forall i | p <= i < |s| && s[i] == '~' :: i + 1 < |s| && (s[i + 1] == '0' || s[i + 1] == '1')
  }

  /** In the plain form a text is a pointer exactly when it is empty or begins with '/', and every
      '~' is followed by '0' or '1'. */
  lemma PlainAccepted(s: string)
    requires !IsUriFragment(s)
    ensures Parse(s).Tokens? <==> (s == "" || s[0] == '/') && EscapesFrom(s, 0)
  {
    if s == "" || s[0] == '/' { AcceptedFrom(s, 0, []); }
  }

  lemma {:induction false} AcceptedFrom(s: string, p: nat, done: seq<Token>)
    requires p <= |s| && (p < |s| ==> s[p] == '/')
    ensures TokensFrom(s, p, false, done).Tokens? <==> EscapesFrom(s, p)
    decreases |s| - p
  {
    hide NameFrom, TokenOf;
    if p < |s| {
      NameAccepted(s, p + 1, "");
      var r := NameFrom(s, p + 1, false, "");
      if r.Name? { AcceptedFrom(s, r.end, done + [TokenOf(r.name)]); }
    }
  }

  lemma {:induction false} NameAccepted(s: string, p: nat, done: string)
    requires p <= |s|
    ensures match NameFrom(s, p, false, done)
            case BadName(_, _) => !EscapesFrom(s, p)
            case Name(_, end) => EscapesFrom(s, p) <==> EscapesFrom(s, end)
    decreases |s| - p
  {
    if p < |s| && s[p] != '/' && PieceAt(s, p, false).Piece? {
      NameAccepted(s, PieceAt(s, p, false).next, done + PieceAt(s, p, false).units);
    }
  }
}
