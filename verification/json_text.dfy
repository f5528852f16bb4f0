/** Vocabulary shared by the JSON modules: the input, the cursor primitives, SAX events and parse errors. */
module JsonText {

  const NUL := '\0'

  /** A NUL-terminated text. `overflows` stands for the floating-point library: it says whether
      the decimal text of a number exceeds the largest double. */
  datatype Input = Input(text: string, overflows: string -> bool)

  datatype ErrorCode =
    | DocumentEmpty
    | DocumentRootNotSingular
    | ValueInvalid
    | ObjectMissName
    | ObjectMissColon
    | ObjectMissCommaOrCurlyBracket
    | ArrayMissCommaOrSquareBracket
    | StringUnicodeEscapeInvalidHex
    | StringUnicodeSurrogateInvalid
    | StringEscapeInvalid
    | StringMissQuotationMark
    | StringInvalidEncoding
    | NumberTooBig
    | NumberMissFraction
    | NumberMissExponent

  datatype Event =
    | Null
    | Bool(b: bool)
    | Int(i: int)
    | Uint(i: int)
    | Int64(i: int)
    | Uint64(i: int)
    | Double(digits: string)
    | String(s: string)
    | StartObject
    | Key(s: string)
    | EndObject(count: nat)
    | StartArray
    | EndArray(count: nat)

  /** The outcome of a parse: the handler has received `events`; on success the cursor is at `pos`,
      on failure `code` was reported at offset `at`. */
  datatype Outcome =
    | Done(pos: nat, events: seq<Event>)
    | Fail(code: ErrorCode, at: nat, events: seq<Event>)

  /** The character under the cursor; the terminator is read at the end. */
  function Peek(t: string, p: nat): char {
    if p < |t| then t[p] else NUL
  }

  /** The word stands at p. */
  predicate Has(t: string, p: nat, word: string) {
    p + |word| <= |t| && t[p..p + |word|] == word
  }

  lemma HasAt(t: string, p: nat, word: string, i: nat)
    requires Has(t, p, word) && i < |word|
    ensures t[p + i] == word[i]
  {
    assert t[p + i] == t[p..p + |word|][i];
  }

  lemma HasSplit(t: string, p: nat, a: string, b: string)
    requires Has(t, p, a + b)
    ensures Has(t, p, a) && Has(t, p + |a|, b)
  {
    assert t[p..p + |a|] == (a + b)[..|a|] == a;
    assert t[p + |a|..p + |a| + |b|] == (a + b)[|a|..] == b;
  }

  predicate IsWs(c: char) {
    c == ' ' || c == '\n' || c == '\r' || c == '\t'
  }

  predicate IsDigit(c: char) {
    '0' <= c <= '9'
  }

  function DigitOf(c: char): (d: nat)
    ensures IsDigit(c) ==> d <= 9
  {
    if IsDigit(c) then c as int - '0' as int else 0
  }

  predicate IsHex(c: char) {
    '0' <= c <= '9' || 'A' <= c <= 'F' || 'a' <= c <= 'f'
  }

  function HexOf(c: char): (d: nat)
    requires IsHex(c)
    ensures d < 16
  {
    if c <= '9' then c as int - '0' as int
    else if c <= 'F' then c as int - 'A' as int + 10
    else c as int - 'a' as int + 10
  }

  /** White space from p to q. */
  predicate Spaces(t: string, p: nat, q: nat)
    requires q <= |t|
  {
    forall i | p <= i < q :: IsWs(t[i])
  }

  /** The first position at or after p that does not hold white space. */
  function Ws(t: string, p: nat): (q: nat)
    requires p <= |t|
    ensures p <= q <= |t| && !IsWs(Peek(t, q)) && Spaces(t, p, q)
    decreases |t| - p
  {
    if IsWs(Peek(t, p)) then Ws(t, p + 1) else p
  }

  /** The end of the run of digits starting at p. */
  function DigitsEnd(t: string, p: nat): (q: nat)
    requires p <= |t|
    ensures p <= q <= |t| && !IsDigit(Peek(t, q))
    ensures forall i | p <= i < q :: IsDigit(t[i])
    ensures IsDigit(Peek(t, p)) ==> p < q
    decreases |t| - p
  {
    if IsDigit(Peek(t, p)) then DigitsEnd(t, p + 1) else p
  }

  /** The number a run of decimal digits denotes. */
  function DigitsValue(t: string, p: nat, q: nat): nat
    requires p <= q <= |t|
  {
    if p == q then 0 else 10 * DigitsValue(t, p, q - 1) + DigitOf(t[q - 1])
  }

  /** Item counts are 32-bit unsigned and wrap. */
  const SIZE_LIMIT: nat := 0x1_0000_0000

  function Wrap(n: nat): (w: nat)
    ensures n < SIZE_LIMIT ==> w == n
  {
    n % SIZE_LIMIT
  }

  function Inc(n: nat): nat {
    Wrap(n + 1)
  }

  lemma IncWrap(n: nat)
    ensures Inc(Wrap(n)) == Wrap(n + 1)
  {}
}
