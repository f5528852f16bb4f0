/** The grammar of sections 2 to 7 of RFC 8259, over the units of a text, and the limits the reader
    sets within it. */
module JsonGrammar {
  import opened JsonText
  import opened JsonScalars

  /** Whether numbers must be in range and escaped surrogates paired; the grammar asks for neither.
      A double is out of range if it `overflows`. */
  datatype Limits = Limits(ranged: bool, paired: bool, overflows: string -> bool)

  /** ws */
  predicate IsSpace(s: string) {
    forall i | 0 <= i < |s| :: IsWs(s[i])
  }

  // ---------- section 6 ----------

  predicate IsDigits(s: string) {
    s != "" && forall i | 0 <= i < |s| :: IsDigit(s[i])
  }

  /** int: zero, or a digit 1-9 and more digits */
  predicate IsInt(s: string) {
    IsDigits(s) && (s[0] == '0' ==> |s| == 1)
  }

  /** [ frac ] */
  predicate IsFrac(s: string) {
    s == "" || (s[0] == '.' && IsDigits(s[1..]))
  }

  /** [ exp ] */
  predicate IsExp(s: string) {
    s == "" ||
    ((s[0] == 'e' || s[0] == 'E') &&
     (IsDigits(s[1..]) || (2 <= |s| && (s[1] == '+' || s[1] == '-') && IsDigits(s[2..]))))
  }

  ghost predicate IsUnsigned(s: string) {
    exists b, c :: 0 <= b <= c <= |s| && IsInt(s[..b]) && IsFrac(s[b..c]) && IsExp(s[c..])
  }

  ghost predicate HasNumberForm(s: string) {
    IsUnsigned(s) || (s != "" && s[0] == '-' && IsUnsigned(s[1..]))
  }

  /** The value of an exponent at [c, q), without its sign. */
  function ExponentValue(t: string, c: nat, q: nat): nat {
    var d := if Peek(t, c + 1) == '+' || Peek(t, c + 1) == '-' then c + 2 else c + 1;
    if d <= q <= |t| then DigitsValue(t, d, q) else 0
  }

  /** There is no exponent at [c, q), or it is negative or at most `limit`. */
  predicate ExponentAtMost(t: string, c: nat, q: nat, limit: nat) {
    c < q ==> Peek(t, c + 1) == '-' || ExponentValue(t, c, q) <= limit
  }

  /** The limits of a number whose integer stands at [from, b) and whose exponent at [c, q): it is an
      integer of 64 bits, or a double that does not overflow, whose exponent does not exceed 308 and
      the fraction digits that scale the significand. */
  predicate Fits(t: string, from: nat, b: nat, c: nat, q: nat, minus: bool, word: string, overflows: string -> bool)
    requires from < b <= |t|
  {
    var n := DigitsValue(t, from, b);
    var f := FractionAt(t, from, b, minus, n);
    || (b == q && Fits64(minus, n))
    || (f.Scale? && ExponentAtMost(t, c, q, 308 + f.digits) && !overflows(word))
  }

  predicate InRange(s: string, overflows: string -> bool) {
    var minus := Peek(s, 0) == '-';
    var from := if minus then 1 else 0;
    && IsDigit(Peek(s, from))
    && var b := IntegerEnd(s, from);
       var f := FractionAt(s, from, b, minus, DigitsValue(s, from, b));
       f.Scale? && Fits(s, from, b, f.pos, |s|, minus, s, overflows)
  }

  ghost predicate IsNumber(s: string, l: Limits) {
    HasNumberForm(s) && (l.ranged ==> InRange(s, l.overflows))
  }

  // ---------- section 7 ----------

  predicate IsUnescaped(c: char) {
    ' ' <= c && c != '\"' && c != '\\'
  }

  predicate IsEscaped(c: char) {
    c == '\"' || c == '\\' || c == '/' || c == 'b' || c == 'f' || c == 'n' || c == 'r' || c == 't'
  }

  /** *char */
  predicate IsChars(s: string) {
    || s == ""
    || (IsUnescaped(s[0]) && IsChars(s[1..]))
    || (s[0] == '\\' && 2 <= |s| && IsEscaped(s[1]) && IsChars(s[2..]))
    || (s[0] == '\\' && 6 <= |s| && s[1] == 'u' && (forall i | 2 <= i < 6 :: IsHex(s[i])) && IsChars(s[6..]))
  }

  predicate IsLow(c: nat) {
    0xDC00 <= c <= 0xDFFF
  }

  /** Every escaped high surrogate is followed by an escaped low one, and no other low one occurs. */
  predicate IsPaired(s: string) {
    if s == "" then true
    else if s[0] != '\\' then IsPaired(s[1..])
    else if Peek(s, 1) == 'u' && HexDigits(s, 2, 4) then
      var c := Hex4(s, 2);
      if c < 0xD800 || 0xDFFF < c then IsPaired(s[6..])
      else
        && !IsLow(c)
        && Peek(s, 6) == '\\' && Peek(s, 7) == 'u' && HexDigits(s, 8, 4) && IsLow(Hex4(s, 8))
        && IsPaired(s[12..])
    else 2 <= |s| ==> IsPaired(s[2..])
  }

  predicate IsString(s: string, l: Limits) {
    && 2 <= |s| && s[0] == '\"' && s[|s| - 1] == '\"'
    && IsChars(s[1..|s| - 1]) && (l.paired ==> IsPaired(s[1..|s| - 1]))
  }

  // ---------- sections 2 to 5 ----------

  ghost predicate IsValue(s: string, l: Limits)
    decreases |s|, 2
  {
    s == "null" || s == "true" || s == "false" || IsNumber(s, l) || IsString(s, l) || IsArray(s, l) || IsObject(s, l)
  }

  ghost predicate IsArray(s: string, l: Limits)
    decreases |s|, 1
  {
    2 <= |s| && s[0] == '[' && s[|s| - 1] == ']' && (IsSpace(s[1..|s| - 1]) || IsElements(s[1..|s| - 1], l))
  }

  ghost predicate IsObject(s: string, l: Limits)
    decreases |s|, 1
  {
    2 <= |s| && s[0] == '{' && s[|s| - 1] == '}' && (IsSpace(s[1..|s| - 1]) || IsMembers(s[1..|s| - 1], l))
  }

  /** value *( value-separator value ) */
  ghost predicate IsElements(s: string, l: Limits)
    decreases |s|, 4
  {
    IsElement(s, l) || exists i :: 0 <= i < |s| && s[i] == ',' && IsElement(s[..i], l) && IsElements(s[i + 1..], l)
  }

  /** A value with white space around it; a JSON text is one. */
  ghost predicate IsElement(s: string, l: Limits)
    decreases |s|, 3
  {
    exists a, b :: 0 <= a <= b <= |s| && IsSpace(s[..a]) && IsValue(s[a..b], l) && IsSpace(s[b..])
  }

  /** member *( value-separator member ) */
  ghost predicate IsMembers(s: string, l: Limits)
    decreases |s|, 5
  {
    IsMember(s, l) || exists i :: 0 <= i < |s| && s[i] == ',' && IsMember(s[..i], l) && IsMembers(s[i + 1..], l)
  }

  /** A string, a colon and a value, with white space around each. */
  ghost predicate IsMember(s: string, l: Limits)
    decreases |s|, 4
  {
    exists c :: 0 <= c < |s| && s[c] == ':' && IsName(s[..c], l) && IsElement(s[c + 1..], l)
  }

  ghost predicate IsName(s: string, l: Limits) {
    exists a, b :: 0 <= a <= b <= |s| && IsSpace(s[..a]) && IsString(s[a..b], l) && IsSpace(s[b..])
  }
}
