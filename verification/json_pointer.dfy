/** JSON Pointer texts, as a JSON string and as a URI fragment: what the parser and the printer compute. */
module JsonPointer {
  import opened JsonText
  import Encodings

  /** The index of a token that names no array element. */
  const INVALID_INDEX: nat := SIZE_LIMIT - 1

  datatype Token = Token(name: string, index: nat)

  datatype PointerError =
    | TokenMustBeginWithSolidus
    | InvalidEscape
    | InvalidPercentEncoding
    | CharacterMustPercentEncode

  datatype Parsed =
    | Tokens(tokens: seq<Token>)
    | Invalid(code: PointerError, at: nat)

  // ---------- array indexes ----------

  predicate AllDigits(name: string) {
    forall i | 0 <= i < |name| :: IsDigit(name[i])
  }

  /** A digit run with no superfluous leading zero. */
  predicate IsNumeral(name: string) {
    && name != ""
    && AllDigits(name)
    && (|name| > 1 ==> name[0] != '0')
  }

  /** The conversion to a 32-bit index, from digit j on; a sum below the one before it is an overflow. */
  function IndexFrom(name: string, j: nat, n: nat): (r: nat)
    requires j <= |name| && n < SIZE_LIMIT
    ensures r < SIZE_LIMIT
    decreases |name| - j
  {
    if j == |name| then n
    else
      var m := Wrap(10 * n + DigitOf(name[j]));
      if m < n then INVALID_INDEX else IndexFrom(name, j + 1, m)
  }

  function IndexOf(name: string): (r: nat)
    ensures r < SIZE_LIMIT
  {
    if IsNumeral(name) then IndexFrom(name, 0, 0) else INVALID_INDEX
  }

  /** The token of a decoded name; a length is stored in 32 bits. */
  function TokenOf(name: string): (t: Token)
    ensures |name| < SIZE_LIMIT ==> t == Token(name, IndexOf(name))
  {
    var kept := name[..Wrap(|name|)];
    Token(kept, if AllDigits(name) then IndexOf(kept) else INVALID_INDEX)
  }

  // ---------- percent encoding ----------

  predicate NeedPercentEncode(c: char) {
    !('0' <= c <= '9' || 'A' <= c <= 'Z' || 'a' <= c <= 'z' || c == '-' || c == '.' || c == '_' || c == '~')
  }

  lemma TildeIsUnreserved()
    ensures !NeedPercentEncode('~')
  {}

  function HexDigit(d: nat): (c: char)
    requires d < 16
    ensures IsHex(c) && HexOf(c) == d
  {
    if d < 10 then '0' + d as char else 'A' + (d - 10) as char
  }

  predicate IsTriplet(s: string, p: nat) {
    p + 3 <= |s| && s[p] == '%' && IsHex(s[p + 1]) && IsHex(s[p + 2])
  }

  /** The byte a triplet stands for. */
  function TripletByte(s: string, p: nat): (b: int)
    requires IsTriplet(s, p)
    ensures 0 <= b < 0x100
  {
    HexOf(s[p + 1]) * 16 + HexOf(s[p + 2])
  }

  /** The bytes of the triplets that follow one another from p on, at most k of them. */
  function PercentBytes(s: string, p: nat, k: nat): (b: seq<int>)
    ensures Encodings.Bytes(b) && |b| <= k
    ensures b != [] ==> p + 3 * |b| <= |s|
    ensures forall i | p <= i < p + 3 * |b| :: i < |s| && s[i] != '/'
    decreases k
  {
    if k > 0 && IsTriplet(s, p) then [TripletByte(s, p)] + PercentBytes(s, p + 3, k - 1) else []
  }

  function PercentEncode(b: seq<int>): (s: string)
    requires Encodings.Bytes(b)
    ensures |s| == 3 * |b|
  {
    if b == [] then ""
    else ['%', HexDigit(b[0] / 16), HexDigit(b[0] % 16)] + PercentEncode(b[1..])
  }

  // ---------- parsing ----------

  /** One step of decoding a name: the decoded code units and where the next step starts. */
  datatype Piece =
    | Piece(units: string, next: nat)
    | BadPiece(code: PointerError, at: nat)

  /** The unit c has been consumed and the cursor is at p. */
  function Unescape(s: string, c: char, p: nat): Piece
    requires p <= |s|
  {
    if c != '~' then Piece([c], p)
    else if p == |s| then BadPiece(InvalidEscape, p)
    else if s[p] == '0' then Piece("~", p + 1)
    else if s[p] == '1' then Piece("/", p + 1)
    else BadPiece(InvalidEscape, p)
  }

  function PercentPiece(s: string, p: nat): Piece
    requires p < |s|
  {
    var b := PercentBytes(s, p, 4);
    var n := Encodings.CharLength(b, 0);
    if n == 0 then BadPiece(InvalidPercentEncoding, p)
    else if n == 1 then Unescape(s, b[0] as char, p + 3)
    else Piece(Encodings.Chars(b[..n]), p + 3 * n)
  }

  function PieceAt(s: string, p: nat, uri: bool): (r: Piece)
    requires p < |s|
    ensures r.Piece? ==> p < r.next <= |s| && r.next >= p + |r.units|
    ensures r.Piece? && s[p] != '/' ==> forall i | p <= i < r.next :: s[i] != '/'
  {
    if uri && s[p] == '%' then PercentPiece(s, p)
    else if uri && NeedPercentEncode(s[p]) then BadPiece(CharacterMustPercentEncode, p)
    else Unescape(s, s[p], p + 1)
  }

  datatype Name =
    | Name(name: string, end: nat)
    | BadName(code: PointerError, at: nat)

  /** The rest of a name, up to the next '/' or the end, behind the units already decoded. */
  function NameFrom(s: string, p: nat, uri: bool, done: string): (r: Name)
    requires p <= |s|
    ensures r.Name? ==> p <= r.end <= |s| && (r.end == |s| || s[r.end] == '/')
    ensures r.Name? ==> |r.name| - |done| <= r.end - p
    ensures r.Name? ==> forall i | p <= i < r.end :: s[i] != '/'
    decreases |s| - p
  {
    if p == |s| || s[p] == '/' then Name(done, p)
    else
      match PieceAt(s, p, uri)
      case BadPiece(code, at) => BadName(code, at)
      case Piece(units, next) => NameFrom(s, next, uri, done + units)
  }

  function TokensFrom(s: string, p: nat, uri: bool, done: seq<Token>): Parsed
    requires p <= |s|
    decreases |s| - p
  {
    if p == |s| then Tokens(done)
    else if s[p] != '/' then Invalid(TokenMustBeginWithSolidus, p)
    else
      match NameFrom(s, p + 1, uri, "")
      case BadName(code, at) => Invalid(code, at)
      case Name(name, end) => TokensFrom(s, end, uri, done + [TokenOf(name)])
  }

  predicate IsUriFragment(s: string) {
    s != "" && s[0] == '#'
  }

  function Parse(s: string): Parsed {
    if IsUriFragment(s) then TokensFrom(s, 1, true, []) else TokensFrom(s, 0, false, [])
  }

  /** The number of '/' from p on. */
  function Solidi(s: string, p: nat): nat
    requires p <= |s|
    decreases |s| - p
  {
    if p == |s| then 0 else (if s[p] == '/' then 1 else 0) + Solidi(s, p + 1)
  }

  lemma {:induction false} SolidiSkip(s: string, p: nat, q: nat)
    requires p <= q <= |s| && forall i | p <= i < q :: s[i] != '/'
    ensures Solidi(s, p) == Solidi(s, q)
    decreases q - p
  {
    if p < q { SolidiSkip(s, p + 1, q); }
  }

  // ---------- printing ----------

  function EscapeUnit(c: char): string {
    if c == '~' then "~0" else if c == '/' then "~1" else [c]
  }

  /** The code units of a name as bytes. */
  predicate IsByteText(s: string) {
    forall i | 0 <= i < |s| :: s[i] as int < 0x100
  }

  function Units(s: string): (u: seq<int>)
    ensures |u| == |s| && forall i | 0 <= i < |s| :: u[i] == s[i] as int
    ensures IsByteText(s) ==> Encodings.Bytes(u)
  {
    seq(|s|, i requires 0 <= i < |s| => s[i] as int)
  }

  datatype Printed = Printed(text: string) | NotPrintable

  /** A name from unit j on, behind the text already printed. A unit that must be percent-encoded
      takes the rest of its UTF-8 character with it. */
  function NameText(name: string, j: nat, uri: bool, out: string): Printed
    requires j <= |name| && (uri ==> IsByteText(name))
    decreases |name| - j
  {
    if j == |name| then Printed(out)
    else if uri && NeedPercentEncode(name[j]) && name[j] != '/' then
      var n := Encodings.CharLength(Units(name), j);
      if n == 0 then NotPrintable
      else NameText(name, j + n, uri, out + PercentEncode(Units(name)[j..j + n]))
    else NameText(name, j + 1, uri, out + EscapeUnit(name[j]))
  }

  predicate ByteNames(tokens: seq<Token>) {
    forall i | 0 <= i < |tokens| :: IsByteText(tokens[i].name)
  }

  function TokensText(tokens: seq<Token>, k: nat, uri: bool, out: string): Printed
    requires k <= |tokens| && (uri ==> ByteNames(tokens))
    decreases |tokens| - k
  {
    if k == |tokens| then Printed(out)
    else
      match NameText(tokens[k].name, 0, uri, out + "/")
      case NotPrintable => NotPrintable
      case Printed(text) => TokensText(tokens, k + 1, uri, text)
  }

  /** A pointer as a JSON string, or as a URI fragment. */
  function Print(tokens: seq<Token>, uri: bool): Printed
    requires uri ==> ByteNames(tokens)
  {
    TokensText(tokens, 0, uri, if uri then "#" else "")
  }
}
