/** What the scalar parsers of the reader deliver: literals, strings and numbers. */
module JsonScalars {
  import opened JsonText
  import Encodings

  datatype Scalar =
    | Got(pos: nat, event: Event)
    | Bad(code: ErrorCode, at: nat)

  datatype Str =
    | Text(pos: nat, s: string)
    | BadText(code: ErrorCode, at: nat)

  // ---------- literals ----------

  /** The cursor after matching as much of `word` as the text allows, starting at p. */
  function Match(t: string, p: nat, word: string): (q: nat)
    requires p <= |t| && NUL !in word
    ensures p <= q <= |t| && q <= p + |word|
    ensures q == p + |word| <==> word <= t[p..]
    decreases |word|
  {
    if word == [] then p
    else if Peek(t, p) == word[0] then
      assert word <= t[p..] <==> word[1..] <= t[p + 1..];
      Match(t, p + 1, word[1..])
    else p
  }

  /** Match stops at the first difference, or behind the word. */
  lemma {:induction false} MatchIs(t: string, p: nat, word: string, q: nat)
    requires p <= q <= |t| && NUL !in word && q - p <= |word|
    requires forall i | p <= i < q :: t[i] == word[i - p]
    requires q - p == |word| || Peek(t, q) != word[q - p]
    ensures Match(t, p, word) == q
    decreases |word|
  {
    if p < q {
      MatchIs(t, p + 1, word[1..], q);
    }
  }

  function Literal(t: string, p: nat, word: string, e: Event): (r: Scalar)
    requires p <= |t| && NUL !in word
    ensures r.Got? ==> r.pos == p + |word| <= |t|
  {
    var q := Match(t, p, word);
    if q == p + |word| then Got(q, e) else Bad(ValueInvalid, q)
  }

  // ---------- strings ----------

  /** The text has k hexadecimal digits at p. */
  predicate HexDigits(t: string, p: nat, k: nat) {
    p + k <= |t| && forall i | p <= i < p + k :: IsHex(t[i])
  }

  function HexValue(t: string, p: nat, k: nat): nat
    requires HexDigits(t, p, k)
  {
    if k == 0 then 0 else HexValue(t, p, k - 1) * 16 + HexOf(t[p + k - 1])
  }

  function Hex4(t: string, p: nat): (n: nat)
    requires HexDigits(t, p, 4)
    ensures n < 0x1_0000
  {
    assert HexValue(t, p, 1) < 0x10;
    assert HexValue(t, p, 2) < 0x100;
    assert HexValue(t, p, 3) < 0x1000;
    HexValue(t, p, 4)
  }

  /** The two-character escapes; NUL means the character has none. */
  function Escape(e: char): char {
    if e == '\"' then '\"'
    else if e == '/' then '/'
    else if e == '\\' then '\\'
    else if e == 'b' then 8 as char
    else if e == 'f' then 12 as char
    else if e == 'n' then '\n'
    else if e == 'r' then '\r'
    else if e == 't' then '\t'
    else NUL
  }

  datatype Unicode = Point(pos: nat, codepoint: nat) | BadPoint(code: ErrorCode)

  /** A \uXXXX escape, or a pair of them; p is just behind the 'u'. */
  function UnicodeEscape(t: string, p: nat): (r: Unicode)
    requires p <= |t|
    ensures r.Point? ==> p < r.pos <= |t| && Encodings.IsScalarValue(r.codepoint)
  {
    if !HexDigits(t, p, 4) then BadPoint(StringUnicodeEscapeInvalidHex)
    else
      var c1 := Hex4(t, p);
      if c1 < 0xD800 || 0xDFFF < c1 then Point(p + 4, c1)
      else if 0xDBFF < c1 then BadPoint(StringUnicodeSurrogateInvalid)
      else if Peek(t, p + 4) != '\\' || Peek(t, p + 5) != 'u' then BadPoint(StringUnicodeSurrogateInvalid)
      else if !HexDigits(t, p + 6, 4) then BadPoint(StringUnicodeEscapeInvalidHex)
      else
        var c2 := Hex4(t, p + 6);
        if c2 < 0xDC00 || 0xDFFF < c2 then BadPoint(StringUnicodeSurrogateInvalid)
        else Point(p + 10, (c1 - 0xD800) * 0x400 + (c2 - 0xDC00) + 0x10000)
  }

  /** The body of a string; p is behind the opening quote or behind an item of the body, and
      `acc` holds the characters decoded so far. */
  function StringBody(t: string, p: nat, acc: string): (r: Str)
    requires p <= |t|
    ensures r.Text? ==> p < r.pos <= |t|
    decreases |t| - p
  {
    var c := Peek(t, p);
    if c == '\\' then
      var e := Peek(t, p + 1);
      if Escape(e) != NUL then StringBody(t, p + 2, acc + [Escape(e)])
      else if e == 'u' then
        match UnicodeEscape(t, p + 2)
        case Point(q, cp) => StringBody(t, q, acc + Encodings.Utf8Chars(cp))
        case BadPoint(code) => BadText(code, p)
      else BadText(StringEscapeInvalid, p)
    else if c == '\"' then Text(p + 1, acc)
    else if c < ' ' then
      BadText(if c == NUL then StringMissQuotationMark else StringInvalidEncoding, p)
    else StringBody(t, p + 1, acc + [c])
  }

  /** A string whose opening quote is at p. */
  function StringAt(t: string, p: nat): (r: Str)
    requires p < |t|
    ensures r.Text? ==> p < r.pos <= |t|
  {
    StringBody(t, p + 1, "")
  }

  // ---------- numbers ----------

  const U32_MAX: nat := 0xFFFF_FFFF
  const U64_MAX: nat := 0xFFFF_FFFF_FFFF_FFFF
  const I32_MIN_MAGNITUDE: nat := 0x8000_0000
  const I64_MIN_MAGNITUDE: nat := 0x8000_0000_0000_0000
  const FAST_PATH_MAX: nat := 0x1F_FFFF_FFFF_FFFF

  predicate Fits32(minus: bool, n: nat) {
    n <= if minus then I32_MIN_MAGNITUDE else U32_MAX
  }

  predicate Fits64(minus: bool, n: nat) {
    n <= if minus then I64_MIN_MAGNITUDE else U64_MAX
  }

  /** The event for an integer without fraction or exponent. */
  function IntegerEvent(minus: bool, n: nat, digits: string): Event {
    if Fits32(minus, n) then (if minus then Int(-(n as int)) else Uint(n))
    else if Fits64(minus, n) then (if minus then Int64(-(n as int)) else Uint64(n))
    else Double(digits)
  }

  /** How many of the fraction digits in [p, q) scale the significand: all of them while the
      64-bit significand v stays on the fast path, then as many as bring the count of significant
      digits to 17. */
  function FractionScale(t: string, p: nat, q: nat, v: nat, significant: nat): (k: nat)
    requires p <= q <= |t|
    ensures k <= q - p
    decreases q - p
  {
    if p == q then 0
    else if v > FAST_PATH_MAX then SlowScale(q - p, significant)
    else
      var v' := v * 10 + DigitOf(t[p]);
      1 + FractionScale(t, p + 1, q, v', if v' != 0 then significant + 1 else significant)
  }

  function SlowScale(digits: nat, significant: nat): (k: nat)
    ensures k <= digits
  {
    if significant >= 17 then 0
    else if digits <= 17 - significant then digits
    else 17 - significant
  }

  /** The part of a number in front of the fraction: zero, or a digit 1-9 and more digits. */
  function IntegerEnd(t: string, p: nat): (q: nat)
    requires p <= |t| && IsDigit(Peek(t, p))
    ensures p < q <= |t|
    ensures forall i | p <= i < q :: IsDigit(t[i])
  {
    if t[p] == '0' then p + 1 else DigitsEnd(t, p)
  }

  datatype Fraction = Scale(pos: nat, digits: nat, present: bool) | NoFraction(at: nat)

  /** The fraction at p, where n is the integer in front of it, written at [from, p). An integer
      beyond 64 bits already has 17 significant digits, so its fraction scales nothing. */
  function FractionAt(t: string, from: nat, p: nat, minus: bool, n: nat): (r: Fraction)
    requires from < p <= |t|
    ensures r.Scale? ==> p <= r.pos <= |t| && r.digits <= r.pos - p
  {
    if Peek(t, p) != '.' then Scale(p, 0, false)
    else if !IsDigit(Peek(t, p + 1)) then NoFraction(p + 1)
    else
      var q := DigitsEnd(t, p + 1);
      var k := if Fits64(minus, n) then FractionScale(t, p + 1, q, n, p - from - 1)
               else 0;
      Scale(q, k, true)
  }


  datatype Exponent = Exp(pos: nat, present: bool) | TooBig | NoExponent(at: nat)

  /** The exponent at p behind a number whose fraction scaled it by `scale` digits. */
  function ExponentAt(t: string, p: nat, scale: nat): (r: Exponent)
    requires p <= |t|
    ensures r.Exp? ==> p <= r.pos <= |t|
  {
    if Peek(t, p) != 'e' && Peek(t, p) != 'E' then Exp(p, false)
    else
      var signed := Peek(t, p + 1) == '+' || Peek(t, p + 1) == '-';
      var d := if signed then p + 2 else p + 1;
      if !IsDigit(Peek(t, d)) then NoExponent(d)
      else
        var q := DigitsEnd(t, d);
        if Peek(t, p + 1) != '-' && DigitsValue(t, d, q) > 308 + scale then TooBig
        else Exp(q, true)
  }

  /** The number at [p, end) is delivered, unless it is a double beyond the largest one. */
  function Checked(inp: Input, p: nat, end: nat, e: Event): (r: Scalar) {
    if e.Double? && inp.overflows(e.digits) then Bad(NumberTooBig, p) else Got(end, e)
  }

  function NumberAt(inp: Input, p: nat): (r: Scalar)
    requires p <= |inp.text|
    ensures r.Got? ==> p < r.pos <= |inp.text|
  {
    var t := inp.text;
    var minus := Peek(t, p) == '-';
    var from := if minus then p + 1 else p;
    if !IsDigit(Peek(t, from)) then Bad(ValueInvalid, from)
    else
      var to := IntegerEnd(t, from);
      var n := DigitsValue(t, from, to);
      match FractionAt(t, from, to, minus, n)
      case NoFraction(at) => Bad(NumberMissFraction, at)
      case Scale(q, scale, hasFraction) =>
        match ExponentAt(t, q, scale)
        case NoExponent(at) => Bad(NumberMissExponent, at)
        case TooBig => Bad(NumberTooBig, p)
        case Exp(end, hasExponent) =>
          var digits := t[p..end];
          Checked(inp, p, end, if hasFraction || hasExponent then Double(digits) else IntegerEvent(minus, n, digits))
  }

  /** A character that cannot continue a number. */
  predicate Stops(c: char) {
    !IsDigit(c) && c != '.' && c != 'e' && c != 'E'
  }

  // ---------- any value that is not a container ----------

  predicate IsScalarEvent(e: Event) {
    !e.StartObject? && !e.StartArray? && !e.EndObject? && !e.EndArray? && !e.Key?
  }

  function ScalarAt(inp: Input, p: nat): (r: Scalar)
    requires p <= |inp.text|
    requires Peek(inp.text, p) != '{' && Peek(inp.text, p) != '['
    ensures r.Got? ==> p < r.pos <= |inp.text| && IsScalarEvent(r.event)
  {
    var t := inp.text;
    var c := Peek(t, p);
    if c == 'n' then Literal(t, p, "null", Null)
    else if c == 't' then Literal(t, p, "true", Bool(true))
    else if c == 'f' then Literal(t, p, "false", Bool(false))
    else if c == '\"' then
      match StringAt(t, p)
      case Text(q, s) => Got(q, String(s))
      case BadText(code, at) => Bad(code, at)
    else NumberAt(inp, p)
  }

  /** A token that no value begins with. */
  predicate StrayToken(c: char) {
    c == ']' || c == '}' || c == ',' || c == ':'
  }

  lemma NoScalar(inp: Input, p: nat)
    requires p <= |inp.text| && (Peek(inp.text, p) == NUL || StrayToken(Peek(inp.text, p)))
    ensures ScalarAt(inp, p) == Bad(ValueInvalid, p)
  {}

  // ---------- facts about runs of digits ----------

  lemma {:induction false} DigitsEndIs(t: string, p: nat, q: nat)
    requires p <= q <= |t| && !IsDigit(Peek(t, q))
    requires forall i | p <= i < q :: IsDigit(t[i])
    ensures DigitsEnd(t, p) == q
    decreases q - p
  {
    if p < q { DigitsEndIs(t, p + 1, q); }
  }

  lemma {:induction false} DigitsMonotone(t: string, p: nat, q: nat, r: nat)
    requires p <= q <= r <= |t|
    ensures DigitsValue(t, p, q) <= DigitsValue(t, p, r)
  {
    if q < r { DigitsMonotone(t, p, q, r - 1); }
  }

  function Pow10(k: nat): nat {
    if k == 0 then 1 else 10 * Pow10(k - 1)
  }

  lemma {:induction false} Pow10Monotone(j: nat, k: nat)
    requires j <= k
    ensures 1 <= Pow10(j) <= Pow10(k)
  {
    if j < k { Pow10Monotone(j, k - 1); }
    else if 0 < k { Pow10Monotone(j - 1, k - 1); }
  }

  lemma {:induction false} DigitsBelowPow(t: string, p: nat, q: nat)
    requires p <= q <= |t|
    ensures DigitsValue(t, p, q) < Pow10(q - p)
  {
    if p < q { DigitsBelowPow(t, p, q - 1); }
  }

  lemma {:induction false} DigitsAtLeastPow(t: string, p: nat, q: nat)
    requires p < q <= |t| && '1' <= t[p] <= '9'
    ensures Pow10(q - p - 1) <= DigitsValue(t, p, q)
    decreases q
  {
    if p + 1 < q { DigitsAtLeastPow(t, p, q - 1); } else { assert DigitsValue(t, p, p) == 0; }
  }

  /** A number of 64 bits has at most 20 digits. */
  lemma FewDigits(t: string, p: nat, q: nat)
    requires p < q <= |t| && '1' <= t[p] <= '9' && DigitsValue(t, p, q) <= U64_MAX
    ensures q - p <= 20
  {
    DigitsAtLeastPow(t, p, q);
    assert Pow10(10) == 10_000_000_000;
    assert Pow10(20) == 100_000_000_000_000_000_000;
    if 20 < q - p { Pow10Monotone(20, q - p - 1); }
  }

  /** A number that cannot take another digit within 63 bits has 18 digits. */
  lemma DigitsBound(t: string, p: nat, q: nat)
    requires p <= q <= |t| && 0x0CCC_CCCC_CCCC_CCCC <= DigitsValue(t, p, q)
    ensures 18 <= q - p
  {
    DigitsBelowPow(t, p, q);
    assert Pow10(8) == 100_000_000;
    assert Pow10(17) == 100_000_000_000_000_000;
    if q - p <= 17 { Pow10Monotone(q - p, 17); }
  }
}
