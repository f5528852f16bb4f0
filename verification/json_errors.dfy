/** What stands in the text where a parse has failed. */
module JsonErrors {
  import opened JsonText
  import opened JsonScalars
  import opened GrammarScalars
  import opened GrammarLaws
  import opened JsonGrammar
  import Recursive = RecursiveParser

  /** A literal that has been begun at p does not go on at `at`. */
  predicate Breaks(t: string, p: nat, at: nat, word: string) {
    p < at <= |t| && at - p < |word| && t[p..at] == word[..at - p] && Peek(t, at) != word[at - p]
  }

  /** No value stands here: no value begins so, a minus stands alone, or a literal breaks off. */
  ghost predicate NoValue(t: string, at: nat) {
    || !IsHead(Peek(t, at))
    || (0 < at <= |t| && t[at - 1] == '-' && !IsDigit(Peek(t, at)))
    || (exists p: nat :: Breaks(t, p, at, "null") || Breaks(t, p, at, "true") || Breaks(t, p, at, "false"))
  }

  predicate IsEscapeLetter(c: char) {
    c in "\"\\/bfnrtu"
  }

  /** An escape at p whose digits are not four, or those of the second half of a pair. */
  predicate MissesDigits(t: string, p: nat) {
    Peek(t, p) == '\\' && Peek(t, p + 1) == 'u' &&
    (!HexDigits(t, p + 2, 4) || (Peek(t, p + 6) == '\\' && Peek(t, p + 7) == 'u' && !HexDigits(t, p + 8, 4)))
  }

  /** An escape at p of one half of a pair, behind which the other half does not stand. */
  predicate Unpaired(t: string, p: nat) {
    && Peek(t, p) == '\\' && Peek(t, p + 1) == 'u' && HexDigits(t, p + 2, 4)
    && var c := Hex4(t, p + 2);
       || IsLow(c)
       || (0xD800 <= c < 0xDC00
           && !(Peek(t, p + 6) == '\\' && Peek(t, p + 7) == 'u' && HexDigits(t, p + 8, 4) && IsLow(Hex4(t, p + 8))))
  }

  /** A number stands at p that is not in range. */
  ghost predicate TooLarge(inp: Input, p: nat) {
    exists q: nat :: p <= q <= |inp.text| && HasNumberForm(inp.text[p..q]) && !InRange(inp.text[p..q], inp.overflows)
                     && !IsDigit(Peek(inp.text, q))
  }

  /** What each error says of the offset it is reported at. */
  ghost predicate Explains(inp: Input, code: ErrorCode, at: nat) {
    var t := inp.text;
    at <= |t| &&
    match code
    case DocumentEmpty => IsSpace(t[..at]) && Peek(t, at) == NUL
    case DocumentRootNotSingular =>
      IsElement(t[..at], Limits(false, false, inp.overflows)) && Peek(t, at) != NUL && !IsWs(Peek(t, at))
    case ValueInvalid => NoValue(t, at)
    case ObjectMissName => Peek(t, at) != '\"' && !IsWs(Peek(t, at))
    case ObjectMissColon => Peek(t, at) != ':' && !IsWs(Peek(t, at))
    case ObjectMissCommaOrCurlyBracket => Peek(t, at) != ',' && Peek(t, at) != '}' && !IsWs(Peek(t, at))
    case ArrayMissCommaOrSquareBracket => Peek(t, at) != ',' && Peek(t, at) != ']' && !IsWs(Peek(t, at))
    case StringUnicodeEscapeInvalidHex => MissesDigits(t, at)
    case StringUnicodeSurrogateInvalid => Unpaired(t, at)
    case StringEscapeInvalid => Peek(t, at) == '\\' && !IsEscapeLetter(Peek(t, at + 1))
    case StringMissQuotationMark => Peek(t, at) == NUL
    case StringInvalidEncoding => NUL < Peek(t, at) < ' '
    case NumberTooBig => TooLarge(inp, at)
    case NumberMissFraction => 0 < at && t[at - 1] == '.' && !IsDigit(Peek(t, at))
    case NumberMissExponent =>
      && 0 < at && !IsDigit(Peek(t, at))
      && (|| t[at - 1] in "eE"
          || (1 < at && t[at - 1] in "+-" && t[at - 2] in "eE"))
  }

  // ---------- scalars ----------

  lemma {:induction false} MatchStops(t: string, p: nat, word: string)
    requires p <= |t| && NUL !in word && Match(t, p, word) < p + |word|
    ensures var q := Match(t, p, word); t[p..q] == word[..q - p] && Peek(t, q) != word[q - p]
    decreases |word|
  {
    if word != "" && Peek(t, p) == word[0] {
      MatchStops(t, p + 1, word[1..]);
      var q := Match(t, p + 1, word[1..]);
      assert t[p..q] == [t[p]] + t[p + 1..q];
      assert word[..q - p] == [word[0]] + word[1..][..q - p - 1];
    }
  }

  lemma LiteralFails(inp: Input, p: nat, word: string, e: Event)
    requires p < |inp.text| && NUL !in word && word != "" && inp.text[p] == word[0]
    requires word == "null" || word == "true" || word == "false"
    requires Literal(inp.text, p, word, e).Bad?
    ensures Explains(inp, Literal(inp.text, p, word, e).code, Literal(inp.text, p, word, e).at)
  {
    MatchStops(inp.text, p, word);
    var q := Match(inp.text, p, word);
    assert q == Match(inp.text, p + 1, word[1..]);
    assert Breaks(inp.text, p, q, word);
  }

  lemma {:induction false} BodyFails(inp: Input, p: nat, acc: string)
    requires p <= |inp.text| && StringBody(inp.text, p, acc).BadText?
    ensures Explains(inp, StringBody(inp.text, p, acc).code, StringBody(inp.text, p, acc).at)
    decreases |inp.text| - p
  {
    hide Hex4, HexDigits, Encodings.Utf8Chars;
    var t, c := inp.text, Peek(inp.text, p);
    if c == '\\' {
      var e := Peek(t, p + 1);
      EscapeLetters(e);
      if Escape(e) != NUL {
        BodyFails(inp, p + 2, acc + [Escape(e)]);
      } else if e == 'u' && UnicodeEscape(t, p + 2).Point? {
        BodyFails(inp, UnicodeEscape(t, p + 2).pos, acc + Encodings.Utf8Chars(UnicodeEscape(t, p + 2).codepoint));
      }
    } else if c != '\"' && ' ' <= c {
      BodyFails(inp, p + 1, acc + [c]);
    }
  }

  lemma EscapeLetters(e: char)
    ensures IsEscapeLetter(e) <==> Escape(e) != NUL || e == 'u'
  {}

  /** A number that is too big has a form, and is not in range. */
  lemma BigNumber(inp: Input, p: nat)
    requires p <= |inp.text| && NumberAt(inp, p).Bad? && NumberAt(inp, p).code.NumberTooBig?
    ensures NumberAt(inp, p).at == p && TooLarge(inp, p)
  {
    hide DigitsValue, IntegerEvent, FractionAt, IsUnsigned, IntegerEnd, InRange, Fits, FractionEnds, ExponentEnds;
    var t, minus := inp.text, Peek(inp.text, p) == '-';
    var from := if minus then p + 1 else p;
    var b := IntegerEnd(t, from);
    var f := FractionAt(t, from, b, minus, DigitsValue(t, from, b));
    IntegerSound(t, from);
    FractionSound(t, from, b, minus, DigitsValue(t, from, b));
    FractionDelivered(t, from, b, minus, DigitsValue(t, from, b));
    var q := ExponentSpan(t, f.pos, f.digits);
    assert Parts(t, p, from, b, f.pos, q);
    UnsignedSpan(t, from, b, f.pos, q);
    Signed(t, p, q);
    NumberParts(inp, p, from, b, f.pos, q);
    RangeWithin(t, p, from, b, f.pos, q, inp.overflows);
    NumberStops(inp, p, from, b, f.pos, q);
  }

  /** The exponent, whether it is too large or not. */
  lemma ExponentSpan(t: string, c: nat, scale: nat) returns (q: nat)
    requires c <= |t| && !ExponentAt(t, c, scale).NoExponent?
    ensures c <= q <= |t| && IsExp(t[c..q]) && ExponentEnds(t, c, q)
    ensures c < q ==> !IsDigit(Peek(t, q))
    ensures ExponentAt(t, c, scale).Exp? ==> q == ExponentAt(t, c, scale).pos
  {
    hide DigitsValue;
    if Peek(t, c) == 'e' || Peek(t, c) == 'E' {
      var d := if Peek(t, c + 1) == '+' || Peek(t, c + 1) == '-' then c + 2 else c + 1;
      q := DigitsEnd(t, d);
      Sub(t, c, q, d - c, q - c);
      DigitsSpan(t, d, q);
      assert t[c..q][0] == t[c] && t[c..q][1] == t[c + 1];
    } else {
      q := c;
    }
  }

  lemma NumberStops(inp: Input, p: nat, from: nat, b: nat, c: nat, q: nat)
    requires Parts(inp.text, p, from, b, c, q) && (c < q ==> !IsDigit(Peek(inp.text, q)))
    requires NumberAt(inp, p).Bad? && NumberAt(inp, p).code.NumberTooBig?
    ensures !IsDigit(Peek(inp.text, q))
  {
    hide DigitsValue, FractionAt, ExponentAt, FractionScale;
    FractionAtParts(inp.text, from, b, c);
    if b == q && inp.text[from] == '0' { ZeroFits(inp.text, from); }
  }

  lemma ZeroFits(t: string, from: nat)
    requires from < |t| && t[from] == '0'
    ensures DigitsValue(t, from, from + 1) == 0
  {
    assert DigitsValue(t, from, from) == 0;
  }

  lemma FractionAtParts(t: string, from: nat, b: nat, c: nat)
    requires from < b <= c <= |t| && FractionEnds(t, b, c)
    ensures b < c ==> !IsDigit(Peek(t, c))
  {
    hide FractionScale;
    assert FractionAt(t, from, b, false, 0).pos == c;
  }

  lemma NumberFails(inp: Input, p: nat)
    requires p <= |inp.text| && NumberAt(inp, p).Bad?
    requires IsHead(Peek(inp.text, p)) ==> Peek(inp.text, p) == '-' || IsDigit(Peek(inp.text, p))
    ensures Explains(inp, NumberAt(inp, p).code, NumberAt(inp, p).at)
  {
    hide DigitsValue, FractionScale, TooLarge, IsElement, IsSpace;
    if NumberAt(inp, p).code.NumberTooBig? {
      BigNumber(inp, p);
    } else {
      NoNumber(inp, p);
    }
  }

  lemma NoNumber(inp: Input, p: nat)
    requires p <= |inp.text| && NumberAt(inp, p).Bad? && !NumberAt(inp, p).code.NumberTooBig?
    requires IsHead(Peek(inp.text, p)) ==> Peek(inp.text, p) == '-' || IsDigit(Peek(inp.text, p))
    ensures Explains(inp, NumberAt(inp, p).code, NumberAt(inp, p).at)
  {
    hide DigitsValue, FractionScale, TooLarge, IsElement, IsSpace, IntegerEnd;
  }

  lemma ScalarFails(inp: Input, p: nat)
    requires p <= |inp.text| && Peek(inp.text, p) != '{' && Peek(inp.text, p) != '[' && ScalarAt(inp, p).Bad?
    ensures Explains(inp, ScalarAt(inp, p).code, ScalarAt(inp, p).at)
  {
    hide Literal, NumberAt, StringBody, Explains;
    var c := Peek(inp.text, p);
    if c == 'n' { LiteralFails(inp, p, "null", Null); }
    else if c == 't' { LiteralFails(inp, p, "true", Bool(true)); }
    else if c == 'f' { LiteralFails(inp, p, "false", Bool(false)); }
    else if c == '\"' { BodyFails(inp, p + 1, ""); }
    else { NumberFails(inp, p); }
  }

  // ---------- containers ----------

  lemma PlaceFails(inp: Input, at: nat)
    requires at <= |inp.text| && !IsWs(Peek(inp.text, at))
    ensures Peek(inp.text, at) != '\"' ==> Explains(inp, ObjectMissName, at)
    ensures Peek(inp.text, at) != ':' ==> Explains(inp, ObjectMissColon, at)
    ensures Peek(inp.text, at) != ',' && Peek(inp.text, at) != '}' ==> Explains(inp, ObjectMissCommaOrCurlyBracket, at)
    ensures Peek(inp.text, at) != ',' && Peek(inp.text, at) != ']' ==> Explains(inp, ArrayMissCommaOrSquareBracket, at)
  {}

  lemma {:induction false} ValueFails(inp: Input, p: nat, log: seq<Event>)
    requires p <= |inp.text| && Recursive.ValueAt(inp, p, log).Fail?
    ensures Explains(inp, Recursive.ValueAt(inp, p, log).code, Recursive.ValueAt(inp, p, log).at)
    decreases |inp.text| - p, 2
  {
    hide ScalarAt, Recursive.ObjectAt, Recursive.ArrayAt, Recursive.MembersAt, Recursive.ElementsAt, Explains, Ws, Spaces;
    if Peek(inp.text, p) == '{' {
      Recursive.ObjectStarts(inp, p, log);
      var q := Ws(inp.text, p + 1);
      SkippedTo(inp.text, p + 1);
      MembersFail(inp, q, 0, log + [StartObject]);
    } else if Peek(inp.text, p) == '[' {
      Recursive.ArrayStarts(inp, p, log);
      var q := Ws(inp.text, p + 1);
      SkippedTo(inp.text, p + 1);
      ElementsFail(inp, q, 0, log + [StartArray]);
    } else {
      ScalarFails(inp, p);
    }
  }

  lemma SkippedTo(t: string, p: nat)
    requires p <= |t|
    ensures p <= Ws(t, p) <= |t| && !IsWs(Peek(t, Ws(t, p)))
  {}

  lemma {:induction false} ElementsFail(inp: Input, p: nat, count: nat, log: seq<Event>)
    requires p <= |inp.text| && Recursive.ElementsAt(inp, p, count, log).Fail?
    ensures Explains(inp, Recursive.ElementsAt(inp, p, count, log).code, Recursive.ElementsAt(inp, p, count, log).at)
    decreases |inp.text| - p, 3
  {
    hide Recursive.ValueAt, Recursive.ElementsAt, Explains, Ws, Spaces;
    Recursive.AfterElement(inp, p, count, log);
    var v := Recursive.ValueAt(inp, p, log);
    if v.Fail? {
      ValueFails(inp, p, log);
    } else {
      var q := Ws(inp.text, v.pos);
      SkippedTo(inp.text, v.pos);
      PlaceFails(inp, q);
      if Peek(inp.text, q) == ',' {
        SkippedTo(inp.text, q + 1);
        ElementsFail(inp, Ws(inp.text, q + 1), Inc(count), v.events);
      }
    }
  }

  lemma {:induction false} MembersFail(inp: Input, p: nat, count: nat, log: seq<Event>)
    requires p <= |inp.text| && !IsWs(Peek(inp.text, p)) && Recursive.MembersAt(inp, p, count, log).Fail?
    ensures Explains(inp, Recursive.MembersAt(inp, p, count, log).code, Recursive.MembersAt(inp, p, count, log).at)
    decreases |inp.text| - p, 0
  {
    hide Recursive.MemberValueAt, StringBody, Explains, Ws, Spaces;
    var t := inp.text;
    PlaceFails(inp, p);
    if Peek(t, p) == '\"' {
      match StringAt(t, p)
      case BadText(_, _) => BodyFails(inp, p + 1, "");
      case Text(p1, s) =>
        var q := Ws(t, p1);
        SkippedTo(t, p1);
        PlaceFails(inp, q);
        if Peek(t, q) == ':' {
          SkippedTo(t, q + 1);
          MemberValueFails(inp, Ws(t, q + 1), count, log + [Key(s)]);
        }
    }
  }

  lemma {:induction false} MemberValueFails(inp: Input, p: nat, count: nat, log: seq<Event>)
    requires p <= |inp.text| && Recursive.MemberValueAt(inp, p, count, log).Fail?
    ensures Explains(inp, Recursive.MemberValueAt(inp, p, count, log).code, Recursive.MemberValueAt(inp, p, count, log).at)
    decreases |inp.text| - p, 3
  {
    hide Recursive.ValueAt, Recursive.MemberValueAt, Recursive.MembersAt, Explains, Ws, Spaces;
    Recursive.AfterMemberValue(inp, p, count, log);
    var v := Recursive.ValueAt(inp, p, log);
    if v.Fail? {
      ValueFails(inp, p, log);
    } else {
      var q := Ws(inp.text, v.pos);
      SkippedTo(inp.text, v.pos);
      PlaceFails(inp, q);
      if Peek(inp.text, q) == ',' {
        SkippedTo(inp.text, q + 1);
        MembersFail(inp, Ws(inp.text, q + 1), Inc(count), v.events);
      }
    }
  }

  // ---------- documents ----------

  /** A failed parse is explained by what stands at the offset of its error. */
  lemma FailureExplained(inp: Input)
    requires Recursive.Document(inp).Fail?
    ensures Explains(inp, Recursive.Document(inp).code, Recursive.Document(inp).at)
  {
    hide Recursive.ValueAt, Ws, Spaces, Explains, IsElement, IsValue, Span;
    var p := Ws(inp.text, 0);
    SkippedTo(inp.text, 0);
    WsSpan(inp.text, 0);
    var v := Recursive.ValueAt(inp, p, []);
    if Peek(inp.text, p) == NUL {
      EmptyExplained(inp, p);
    } else if v.Fail? {
      ValueFails(inp, p, []);
    } else {
      var l := Limits(false, false, inp.overflows);
      var q := Ws(inp.text, v.pos);
      SkippedTo(inp.text, v.pos);
      ValueSound(inp, p, [], l);
      WsSpan(inp.text, v.pos);
      ElementSpan(inp.text, 0, p, v.pos, q, l);
      RootExplained(inp, q);
    }
  }

  lemma EmptyExplained(inp: Input, at: nat)
    requires at <= |inp.text| && IsSpace(Span(inp.text, 0, at)) && Peek(inp.text, at) == NUL
    ensures Explains(inp, DocumentEmpty, at)
  {
    assert inp.text[0..at] == inp.text[..at];
  }

  lemma RootExplained(inp: Input, at: nat)
    requires at <= |inp.text| && IsElement(Span(inp.text, 0, at), Limits(false, false, inp.overflows))
    requires Peek(inp.text, at) != NUL && !IsWs(Peek(inp.text, at))
    ensures Explains(inp, DocumentRootNotSingular, at)
  {
    hide IsElement;
    assert inp.text[0..at] == inp.text[..at];
  }
}
