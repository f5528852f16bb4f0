/** The reader: a cursor over the text, the events sent to the handler, the parse error, and the
    state and stack of the iterative parser. The handler accepts every event. */
module JsonReader {
  import opened Widths
  import opened JsonText
  import opened JsonScalars
  import Encodings
  import Recursive = RecursiveParser
  import Iterative = IterativeParser
  import PullParser

  datatype ParseResult = NoError | ParseError(code: ErrorCode, offset: nat)

  /** With more fraction digits than this the exponent of a number could leave 32 bits. */
  const MAX_FRACTION: nat := 214_748_055

  predicate ShortFractions(t: string) {
    forall p | 0 <= p < |t| && t[p] == '.' :: DigitsEnd(t, p + 1) - (p + 1) <= MAX_FRACTION
  }

  /** The handler call behind a scalar value. */
  function Sent(s: Scalar, events: seq<Event>): Outcome {
    match s
    case Got(q, e) => Done(q, events + [e])
    case Bad(code, at) => Fail(code, at, events)
  }

  function Neg(x: int): int {
    -x
  }

  /** Conversion to a signed type of the same width. */
  function AsSigned(u: nat, half: nat): int {
    if u < half then u else u - 2 * half
  }

  class Reader {
    const inp: Input
    var pos: nat
    var events: seq<Event>
    var error: ParseResult
    var stack: seq<nat>
    var state: Iterative.State

    constructor (inp: Input)
      ensures this.inp == inp && pos == 0 && events == [] && error.NoError?
      ensures stack == [] && state == Iterative.Start
    {
      this.inp := inp;
      pos, events, error, stack, state := 0, [], NoError, [], Iterative.Start;
    }

    predicate Ready()
      reads this
    {
      error.NoError? && pos <= |inp.text|
    }

    /** The reader has reached the given outcome. */
    predicate Reached(o: Outcome)
      reads this
    {
      && pos <= |inp.text|
      && events == o.events
      && match o
         case Done(p, _) => error.NoError? && pos == p
         case Fail(code, at, _) => error == ParseError(code, at)
    }

    method Consume(ch: char) returns (consumed: bool)
      requires pos <= |inp.text| && ch != NUL
      modifies this`pos
      ensures consumed == (Peek(inp.text, old(pos)) == ch)
      ensures pos == if consumed then old(pos) + 1 else old(pos)
      ensures pos <= |inp.text|
    {
      consumed := Peek(inp.text, pos) == ch;
      if consumed { pos := pos + 1; }
    }

    method SkipWhitespace()
      requires pos <= |inp.text|
      modifies this`pos
      ensures pos == Ws(inp.text, old(pos))
    {
      while IsWs(Peek(inp.text, pos))
        invariant pos <= |inp.text| && Ws(inp.text, pos) == Ws(inp.text, old(pos))
        decreases |inp.text| - pos
      {
        pos := pos + 1;
      }
    }

    // ---------- literals ----------

    method ParseNull()
      requires Ready() && Peek(inp.text, pos) == 'n'
      modifies this`pos, this`events, this`error
      ensures Reached(Sent(Literal(inp.text, old(pos), "null", Null), old(events)))
    {
      hide Match;
      pos := pos + 1;
      var matched := Consume('u');
      if matched { matched := Consume('l'); }
      if matched { matched := Consume('l'); }
      MatchIs(inp.text, old(pos), "null", pos);
      if matched {
        events := events + [Null];
      } else {
        error := ParseError(ValueInvalid, pos);
      }
    }

    method ParseTrue()
      requires Ready() && Peek(inp.text, pos) == 't'
      modifies this`pos, this`events, this`error
      ensures Reached(Sent(Literal(inp.text, old(pos), "true", Bool(true)), old(events)))
    {
      hide Match;
      pos := pos + 1;
      var matched := Consume('r');
      if matched { matched := Consume('u'); }
      if matched { matched := Consume('e'); }
      MatchIs(inp.text, old(pos), "true", pos);
      if matched {
        events := events + [Bool(true)];
      } else {
        error := ParseError(ValueInvalid, pos);
      }
    }

    method ParseFalse()
      requires Ready() && Peek(inp.text, pos) == 'f'
      modifies this`pos, this`events, this`error
      ensures Reached(Sent(Literal(inp.text, old(pos), "false", Bool(false)), old(events)))
    {
      hide Match;
      pos := pos + 1;
      var matched := Consume('a');
      if matched { matched := Consume('l'); }
      if matched { matched := Consume('s'); }
      if matched { matched := Consume('e'); }
      MatchIs(inp.text, old(pos), "false", pos);
      if matched {
        events := events + [Bool(false)];
      } else {
        error := ParseError(ValueInvalid, pos);
      }
    }

    // ---------- strings ----------

    method ParseHex4(escapeOffset: nat) returns (codepoint: uint32)
      requires Ready()
      modifies this`pos, this`error
      ensures pos <= |inp.text|
      ensures if HexDigits(inp.text, old(pos), 4)
              then error.NoError? && pos == old(pos) + 4 && codepoint == Hex4(inp.text, old(pos))
              else error == ParseError(StringUnicodeEscapeInvalidHex, escapeOffset)
    {
      codepoint := 0;
      for i := 0 to 4
        invariant error.NoError? && pos == old(pos) + i && HexDigits(inp.text, old(pos), i)
        invariant codepoint == HexValue(inp.text, old(pos), i) && codepoint <= 0xFFFF
        invariant (i <= 1 ==> codepoint < 0x10) && (i <= 2 ==> codepoint < 0x100) && (i <= 3 ==> codepoint < 0x1000)
      {
        var c := Peek(inp.text, pos);
        if '0' <= c <= '9' {
          codepoint := codepoint * 16 + c as int - '0' as int;
        } else if 'A' <= c <= 'F' {
          codepoint := codepoint * 16 + c as int - ('A' as int - 10);
        } else if 'a' <= c <= 'f' {
          codepoint := codepoint * 16 + c as int - ('a' as int - 10);
        } else {
          error := ParseError(StringUnicodeEscapeInvalidHex, escapeOffset);
          return 0;
        }
        pos := pos + 1;
      }
    }

    /** The rest of a \u escape, the cursor being behind the 'u'. */
    method ParseUnicode(escapeOffset: nat) returns (codepoint: uint32)
      requires Ready()
      modifies this`pos, this`error
      ensures pos <= |inp.text|
      ensures match UnicodeEscape(inp.text, old(pos))
              case Point(q, cp) => error.NoError? && pos == q && codepoint == cp
              case BadPoint(code) => error == ParseError(code, escapeOffset)
    {
      codepoint := ParseHex4(escapeOffset);
      if !error.NoError? { return; }
      if 0xD800 <= codepoint <= 0xDFFF {
        if codepoint <= 0xDBFF {
          var pair := Consume('\\');
          if pair { pair := Consume('u'); }
          if !pair {
            error := ParseError(StringUnicodeSurrogateInvalid, escapeOffset);
            return;
          }
          var codepoint2 := ParseHex4(escapeOffset);
          if !error.NoError? { return; }
          if codepoint2 < 0xDC00 || 0xDFFF < codepoint2 {
            error := ParseError(StringUnicodeSurrogateInvalid, escapeOffset);
            return;
          }
          codepoint := (codepoint - 0xD800) * 0x400 + (codepoint2 - 0xDC00) + 0x10000;
        } else {
          error := ParseError(StringUnicodeSurrogateInvalid, escapeOffset);
        }
      }
    }

    method ParseStringToStream() returns (os: string)
      requires Ready()
      modifies this`pos, this`error
      ensures pos <= |inp.text|
      ensures match StringBody(inp.text, old(pos), "")
              case Text(q, s) => error.NoError? && pos == q && os == s
              case BadText(code, at) => error == ParseError(code, at)
    {
      hide UnicodeEscape, Encodings.Utf8Chars;
      os := "";
      while true
        invariant Ready()
        invariant StringBody(inp.text, pos, os) == StringBody(inp.text, old(pos), "")
        decreases |inp.text| - pos
      {
        var c := Peek(inp.text, pos);
        if c == '\\' {
          var escapeOffset := pos;
          pos := pos + 1;
          var e := Peek(inp.text, pos);
          if Escape(e) != NUL {
            pos := pos + 1;
            os := os + [Escape(e)];
          } else if e == 'u' {
            pos := pos + 1;
            var codepoint := ParseUnicode(escapeOffset);
            if !error.NoError? { return; }
            os := os + Encodings.Utf8Chars(codepoint);
          } else {
            error := ParseError(StringEscapeInvalid, escapeOffset);
            return;
          }
        } else if c == '\"' {
          pos := pos + 1;
          return;
        } else if c < ' ' {
          error := ParseError(if c == NUL then StringMissQuotationMark else StringInvalidEncoding, pos);
          return;
        } else {
          os := os + [c];
          pos := pos + 1;
        }
      }
    }

    method ParseString(isKey: bool)
      requires Ready() && Peek(inp.text, pos) == '\"'
      modifies this`pos, this`events, this`error
      ensures Reached(
          match StringAt(inp.text, old(pos))
          case Text(q, s) => Done(q, old(events) + [if isKey then Key(s) else String(s)])
          case BadText(code, at) => Fail(code, at, old(events)))
    {
      pos := pos + 1;
      var str := ParseStringToStream();
      if !error.NoError? { return; }
      events := events + [if isKey then Key(str) else String(str)];
    }

    // ---------- numbers ----------

    /** The loops over the integer part that collect its value in 32 and then in 64 bits. The
        cursor stops behind the digits, or in front of the first one that does not fit. */
    method ParseInteger(minus: bool) returns (i: uint32, i64: uint64, use64bit: bool, useDouble: bool, significandDigit: int32)
      requires Ready() && '1' <= Peek(inp.text, pos) <= '9'
      modifies this`pos
      ensures old(pos) < pos <= |inp.text| && (forall k | old(pos) <= k < pos :: IsDigit(inp.text[k]))
      ensures 0 <= significandDigit == pos - old(pos) - 1 < 20
      ensures var n := DigitsValue(inp.text, old(pos), pos);
              && (if use64bit then i64 == n else i == n)
              && (!useDouble ==> !IsDigit(Peek(inp.text, pos)) && Fits64(minus, n) && (use64bit <==> !Fits32(minus, n)))
              && (useDouble ==>
                    && use64bit && 17 <= significandDigit && IsDigit(Peek(inp.text, pos))
                    && !Fits64(minus, DigitsValue(inp.text, old(pos), pos + 1)))
    {
      var t := inp.text;
      var from := pos;
      i64, use64bit, useDouble, significandDigit := 0, false, false, 0;
      i := DigitOf(Peek(t, pos));
      pos := pos + 1;
      assert DigitsValue(t, from, from) == 0;
      // 2^31 = 2147483648 and 2^32 - 1 = 4294967295
      var bound32: uint32, last32 := if minus then 214748364 else 429496729, if minus then '8' else '5';
      while IsDigit(Peek(t, pos))
        invariant from < pos <= |t| && (forall k | from <= k < pos :: IsDigit(t[k]))
        invariant i == DigitsValue(t, from, pos) && Fits32(minus, i)
        invariant significandDigit == pos - from - 1 < 20
        invariant !use64bit
        decreases |t| - pos
      {
        if bound32 <= i && (i != bound32 || last32 < Peek(t, pos)) {
          i64 := i;
          use64bit := true;
          break;
        }
        i := i * 10 + DigitOf(Peek(t, pos));
        pos := pos + 1;
        FewDigits(t, from, pos);
        significandDigit := significandDigit + 1;
      }
      if use64bit {
        assert !Fits32(minus, DigitsValue(t, from, pos + 1));
        i64, useDouble, significandDigit := ParseInteger64(from, minus, i64, significandDigit);
      }
    }

    /** The digits that no longer fit 32 bits, behind those at [from, pos). */
    method ParseInteger64(ghost from: nat, minus: bool, start: uint64, digitsSoFar: int32)
        returns (i64: uint64, useDouble: bool, significandDigit: int32)
      requires Ready() && from < pos && '1' <= inp.text[from] <= '9' && (forall k | from <= k < pos :: IsDigit(inp.text[k]))
      requires IsDigit(Peek(inp.text, pos)) && !Fits32(minus, DigitsValue(inp.text, from, pos + 1))
      requires start == DigitsValue(inp.text, from, pos) && Fits64(minus, start) && digitsSoFar == pos - from - 1 < 20
      modifies this`pos
      ensures from < pos <= |inp.text| && (forall k | from <= k < pos :: IsDigit(inp.text[k]))
      ensures 0 <= significandDigit == pos - from - 1 < 20 && i64 == DigitsValue(inp.text, from, pos)
      ensures !useDouble ==> !IsDigit(Peek(inp.text, pos)) && Fits64(minus, i64) && !Fits32(minus, i64)
      ensures useDouble ==>
                && 17 <= significandDigit && IsDigit(Peek(inp.text, pos))
                && !Fits64(minus, DigitsValue(inp.text, from, pos + 1))
    {
      var t := inp.text;
      ghost var first := pos;
      i64, useDouble, significandDigit := start, false, digitsSoFar;
      // 2^63 = 9223372036854775808 and 2^64 - 1 = 18446744073709551615
      var bound64: uint64, last64 :=
        if minus then 0x0CCC_CCCC_CCCC_CCCC else 0x1999_9999_9999_9999, if minus then '8' else '5';
      while IsDigit(Peek(t, pos))
        invariant first <= pos <= |t| && (forall k | from <= k < pos :: IsDigit(t[k]))
        invariant i64 == DigitsValue(t, from, pos) && Fits64(minus, i64)
        invariant first < pos ==> !Fits32(minus, i64)
        invariant first == pos ==> IsDigit(Peek(t, pos))
        invariant significandDigit == pos - from - 1 < 20
        invariant !useDouble
        decreases |t| - pos
      {
        if bound64 <= i64 && (i64 != bound64 || last64 < Peek(t, pos)) {
          useDouble := true;
          DigitsBound(t, from, pos);
          break;
        }
        assert first == pos ==> DigitsValue(t, from, pos + 1) == i64 * 10 + DigitOf(Peek(t, pos));
        i64 := i64 * 10 + DigitOf(Peek(t, pos));
        pos := pos + 1;
        FewDigits(t, from, pos);
        significandDigit := significandDigit + 1;
      }
    }

    method SkipDigits()
      requires pos <= |inp.text|
      modifies this`pos
      ensures pos == DigitsEnd(inp.text, old(pos))
    {
      while IsDigit(Peek(inp.text, pos))
        invariant pos <= |inp.text| && DigitsEnd(inp.text, pos) == DigitsEnd(inp.text, old(pos))
        decreases |inp.text| - pos
      {
        pos := pos + 1;
      }
    }

    /** The digits behind the decimal point. `significand` is the integer in front of it, unless
        that was too big for 64 bits; `positive` says whether the double collected so far is
        greater than zero. The result is how far the digits scale the significand. */
    method ParseFraction(significand: uint64, big: bool, digitsSoFar: int32) returns (expFrac: int32)
      requires Ready() && IsDigit(Peek(inp.text, pos)) && DigitsEnd(inp.text, pos) - pos <= MAX_FRACTION
      requires 0 <= digitsSoFar < 20 && (big ==> 17 <= digitsSoFar)
      modifies this`pos
      ensures pos == DigitsEnd(inp.text, old(pos)) && Neg(expFrac) <= pos - old(pos)
      ensures Neg(expFrac) == if big then 0 else FractionScale(inp.text, old(pos), pos, significand, digitsSoFar)
    {
      var t := inp.text;
      ghost var p, q := pos, DigitsEnd(t, pos);
      var i64: uint64 := significand;
      var significandDigit: int32 := digitsSoFar;
      var positive := big;
      expFrac := 0;
      if !big {
        while IsDigit(Peek(t, pos))
          invariant p <= pos <= q && Neg(expFrac) == pos - p && q == DigitsEnd(t, pos)
          invariant digitsSoFar <= significandDigit <= digitsSoFar + pos - p
          invariant Neg(expFrac) + FractionScale(t, pos, q, i64, significandDigit) ==
                    FractionScale(t, p, q, significand, digitsSoFar)
          decreases q - pos
        {
          if FAST_PATH_MAX < i64 {
            break;
          }
          i64 := i64 * 10 + DigitOf(Peek(t, pos));
          pos := pos + 1;
          expFrac := expFrac - 1;
          if i64 != 0 { significandDigit := significandDigit + 1; }
        }
        positive := i64 != 0;
      }
      expFrac := ParseSlowFraction(expFrac, positive, significandDigit);
    }

    /** The fraction digits that no longer fit the 64-bit significand: they count up to 17
        significant ones. */
    method ParseSlowFraction(scaled: int32, positive: bool, digitsSoFar: int32) returns (expFrac: int32)
      requires pos <= |inp.text| && 0 <= digitsSoFar && 0 <= Neg(scaled)
      requires DigitsEnd(inp.text, pos) - pos + Neg(scaled) <= MAX_FRACTION
      requires DigitsEnd(inp.text, pos) - pos + digitsSoFar <= MAX_FRACTION + 20
      requires IsDigit(Peek(inp.text, pos)) ==> positive
      modifies this`pos
      ensures pos == DigitsEnd(inp.text, old(pos))
      ensures Neg(expFrac) == Neg(scaled) + SlowScale(pos - old(pos), digitsSoFar)
    {
      var t := inp.text;
      ghost var p, q := pos, DigitsEnd(t, pos);
      var significandDigit: int32 := digitsSoFar;
      expFrac := scaled;
      while IsDigit(Peek(t, pos))
        invariant p <= pos <= q && q == DigitsEnd(t, pos) && 0 <= Neg(expFrac) <= Neg(scaled) + pos - p
        invariant digitsSoFar <= significandDigit <= digitsSoFar + pos - p
        invariant Neg(expFrac) + SlowScale(q - pos, significandDigit) == Neg(scaled) + SlowScale(q - p, digitsSoFar)
        decreases q - pos
      {
        if significandDigit < 17 {
          pos := pos + 1;
          expFrac := expFrac - 1;
          if positive { significandDigit := significandDigit + 1; }
        } else {
          pos := pos + 1;
        }
      }
    }

    /** The digits of a negative exponent. An exponent that gets dangerously close to the smallest
        32-bit integer is not collected any further. */
    method ParseNegativeExponent(expFrac: int32) returns (exp: int32)
      requires pos <= |inp.text| && 0 <= Neg(expFrac) <= MAX_FRACTION && IsDigit(Peek(inp.text, pos))
      modifies this`pos
      ensures pos == DigitsEnd(inp.text, old(pos)) && 0 <= exp && -0x8000_0000 <= expFrac - exp
    {
      var t := inp.text;
      exp := DigitOf(Peek(t, pos));
      pos := pos + 1;
      var maxExp: int32 := (expFrac + 2147483639) / 10;
      while IsDigit(Peek(t, pos))
        invariant pos <= |t| && DigitsEnd(t, pos) == DigitsEnd(t, old(pos))
        invariant 0 <= exp <= 10 * maxExp + 9 && (IsDigit(Peek(t, pos)) ==> exp <= maxExp)
        decreases |t| - pos
      {
        exp := exp * 10 + DigitOf(Peek(t, pos));
        pos := pos + 1;
        if maxExp < exp {
          SkipDigits();
        }
      }
    }

    /** The digits of a positive exponent: a value that no double reaches is refused at once. */
    method ParsePositiveExponent(startOffset: nat, expFrac: int32) returns (exp: int32)
      requires Ready() && 0 <= Neg(expFrac) <= MAX_FRACTION && IsDigit(Peek(inp.text, pos))
      modifies this`pos, this`error
      ensures pos <= |inp.text|
      ensures var q := DigitsEnd(inp.text, old(pos));
              if DigitsValue(inp.text, old(pos), q) > 308 + Neg(expFrac) then error == ParseError(NumberTooBig, startOffset)
              else error.NoError? && pos == q && 0 <= exp <= 308 - expFrac
    {
      var t := inp.text;
      ghost var d := pos;
      assert DigitsValue(t, d, d) == 0;
      exp := DigitOf(Peek(t, pos));
      pos := pos + 1;
      var maxExp: int32 := 308 - expFrac;
      while IsDigit(Peek(t, pos))
        invariant d < pos <= |t| && DigitsEnd(t, pos) == DigitsEnd(t, d) && error.NoError?
        invariant exp == DigitsValue(t, d, pos) && 0 <= exp <= maxExp
        decreases |t| - pos
      {
        exp := exp * 10 + DigitOf(Peek(t, pos));
        pos := pos + 1;
        if maxExp < exp {
          DigitsMonotone(t, d, pos, DigitsEnd(t, d));
          error := ParseError(NumberTooBig, startOffset);
          return;
        }
      }
    }

    /** The exponent behind the 'e'. No intermediate value leaves 32 bits. */
    method ParseExponent(startOffset: nat, expFrac: int32) returns (exp: int32)
      requires Ready() && 0 <= Neg(expFrac) <= MAX_FRACTION
      requires 0 < pos && (Peek(inp.text, pos - 1) == 'e' || Peek(inp.text, pos - 1) == 'E')
      modifies this`pos, this`error
      ensures pos <= |inp.text|
      ensures match ExponentAt(inp.text, old(pos) - 1, Neg(expFrac))
              case Exp(q, _) => error.NoError? && pos == q && -0x8000_0000 <= exp + expFrac < 0x8000_0000
              case TooBig => error == ParseError(NumberTooBig, startOffset)
              case NoExponent(at) => error == ParseError(NumberMissExponent, at)
    {
      var expMinus := false;
      var plus := Consume('+');
      if !plus { expMinus := Consume('-'); }
      if IsDigit(Peek(inp.text, pos)) {
        if expMinus {
          exp := ParseNegativeExponent(expFrac);
          exp := -exp;
        } else {
          exp := ParsePositiveExponent(startOffset, expFrac);
        }
      } else {
        exp := 0;
        error := ParseError(NumberMissExponent, pos);
      }
    }

    /** The integer part: zero, or a digit 1-9 and more digits. */
    method ParseIntegerPart(minus: bool) returns (i: uint32, i64: uint64, use64bit: bool, useDouble: bool, significandDigit: int32)
      requires Ready()
      modifies this`pos, this`error
      ensures !IsDigit(Peek(inp.text, old(pos))) ==> error == ParseError(ValueInvalid, old(pos)) && pos == old(pos)
      ensures IsDigit(Peek(inp.text, old(pos))) ==>
                && error.NoError?
                && pos == IntegerEnd(inp.text, old(pos))
                && significandDigit < 20
                && (if useDouble then 17 <= significandDigit < pos - old(pos) else significandDigit == pos - old(pos) - 1)
                && var n := DigitsValue(inp.text, old(pos), pos);
                   && (useDouble <==> !Fits64(minus, n))
                   && (!useDouble ==> (use64bit <==> !Fits32(minus, n)) && n == if use64bit then i64 else i)
    {
      var t := inp.text;
      ghost var from := pos;
      i, i64, use64bit, useDouble, significandDigit := 0, 0, false, false, 0;
      if Peek(t, pos) == '0' {
        pos := pos + 1;
        assert DigitsValue(t, from, from) == 0;
      } else if '1' <= Peek(t, pos) <= '9' {
        i, i64, use64bit, useDouble, significandDigit := ParseInteger(minus);
        ghost var stop := pos;
        if useDouble {
          SkipDigits();
          DigitsMonotone(t, from, stop + 1, pos);
        }
        DigitsEndIs(t, from, pos);
      } else {
        error := ParseError(ValueInvalid, pos);
      }
    }

    method ParseOptionalFraction(ghost from: nat, minus: bool, significand: uint64, big: bool, significandDigit: int32)
        returns (expFrac: int32, present: bool)
      requires Ready() && ShortFractions(inp.text) && from < pos
      requires big <==> !Fits64(minus, DigitsValue(inp.text, from, pos))
      requires !big ==> significand == DigitsValue(inp.text, from, pos)
      requires significandDigit < 20
      requires if big then 17 <= significandDigit < pos - from else significandDigit == pos - from - 1
      modifies this`pos, this`error
      ensures pos <= |inp.text|
      ensures match FractionAt(inp.text, from, old(pos), minus, DigitsValue(inp.text, from, old(pos)))
              case Scale(q, k, p) => error.NoError? && pos == q && Neg(expFrac) == k <= MAX_FRACTION && present == p
              case NoFraction(at) => error == ParseError(NumberMissFraction, at)
    {
      expFrac := 0;
      present := Consume('.');
      if present {
        if !IsDigit(Peek(inp.text, pos)) {
          error := ParseError(NumberMissFraction, pos);
          return;
        }
        expFrac := ParseFraction(significand, big, significandDigit);
      }
    }

    method ParseOptionalExponent(startOffset: nat, expFrac: int32) returns (exp: int32, present: bool)
      requires Ready() && 0 <= Neg(expFrac) <= MAX_FRACTION
      modifies this`pos, this`error
      ensures pos <= |inp.text|
      ensures match ExponentAt(inp.text, old(pos), Neg(expFrac))
              case Exp(q, p) => error.NoError? && pos == q && present == p && -0x8000_0000 <= exp + expFrac < 0x8000_0000
              case TooBig => error == ParseError(NumberTooBig, startOffset)
              case NoExponent(at) => error == ParseError(NumberMissExponent, at)
    {
      exp := 0;
      present := Consume('e');
      if !present { present := Consume('E'); }
      if present {
        exp := ParseExponent(startOffset, expFrac);
      }
    }

    method ParseNumber()
      requires Ready() && ShortFractions(inp.text)
      modifies this`pos, this`events, this`error
      ensures Reached(Sent(NumberAt(inp, old(pos)), old(events)))
    {
      hide Fits64, Fits32, IntegerEvent, DigitsValue, IntegerEnd, FractionAt, ExponentAt, Checked;
      var startOffset := pos;
      var minus := Consume('-');
      ghost var from := pos;
      var i, i64, use64bit, useDouble, significandDigit := ParseIntegerPart(minus);
      if !error.NoError? { return; }
      ghost var n := DigitsValue(inp.text, from, pos);
      var expFrac, hasFraction :=
        ParseOptionalFraction(from, minus, if use64bit then i64 else i, useDouble, significandDigit);
      if !error.NoError? { return; }
      var exp, hasExponent := ParseOptionalExponent(startOffset, expFrac);
      if !error.NoError? { return; }
      var floating := hasFraction || hasExponent;
      useDouble := useDouble || floating;
      if useDouble {
        var p: int32 := exp + expFrac;
      }
      SendNumber(startOffset, minus, i, i64, use64bit, useDouble, n, floating);
    }

    /** The handler call for the number at [startOffset, pos). */
    method SendNumber(startOffset: nat, minus: bool, i: uint32, i64: uint64, use64bit: bool, useDouble: bool,
                      ghost n: nat, ghost floating: bool)
      requires Ready() && startOffset < pos
      requires useDouble <==> floating || !Fits64(minus, n)
      requires !useDouble ==> (use64bit <==> !Fits32(minus, n)) && n == if use64bit then i64 else i
      modifies this`events, this`error
      ensures var digits := inp.text[startOffset..pos];
              var e := if floating then Double(digits) else IntegerEvent(minus, n, digits);
              Reached(Sent(Checked(inp, startOffset, pos, e), old(events)))
    {
      if useDouble {
        var digits := inp.text[startOffset..pos];
        if inp.overflows(digits) {
          error := ParseError(NumberTooBig, startOffset);
          return;
        }
        events := events + [Double(digits)];
      } else if use64bit {
        events := events + [if minus then Int64(AsSigned((U64_MAX - i64 + 1) % (U64_MAX + 1), I64_MIN_MAGNITUDE))
                            else Uint64(i64)];
      } else {
        events := events + [if minus then Int(AsSigned((U32_MAX - i + 1) % (U32_MAX + 1), I32_MIN_MAGNITUDE))
                            else Uint(i)];
      }
    }

    // ---------- the recursive parser ----------

    method ParseValue()
      requires Ready() && ShortFractions(inp.text)
      modifies this`pos, this`events, this`error
      ensures Reached(Recursive.ValueAt(inp, old(pos), old(events)))
      decreases |inp.text| - pos, 2
    {
      hide Literal, StringAt, NumberAt, Recursive.ObjectAt, Recursive.ArrayAt;
      var c := Peek(inp.text, pos);
      if c == 'n' {
        ParseNull();
      } else if c == 't' {
        ParseTrue();
      } else if c == 'f' {
        ParseFalse();
      } else if c == '\"' {
        ParseString(false);
      } else if c == '{' {
        ParseObject();
      } else if c == '[' {
        ParseArray();
      } else {
        ParseNumber();
      }
    }

    /** A member's name and the colon behind it. */
    method ParseKey(ghost count: nat)
      requires Ready()
      modifies this`pos, this`events, this`error
      ensures error.NoError? ==> Ready() && old(pos) < pos
      ensures var o := Recursive.MembersAt(inp, old(pos), count, old(events));
              if error.NoError? then o == Recursive.MemberValueAt(inp, pos, count, events) else o.Fail? && Reached(o)
    {
      hide StringAt, Recursive.MemberValueAt, Ws;
      if Peek(inp.text, pos) != '\"' {
        error := ParseError(ObjectMissName, pos);
        return;
      }
      ParseString(true);
      if !error.NoError? { return; }
      SkipWhitespace();
      var colon := Consume(':');
      if !colon {
        error := ParseError(ObjectMissColon, pos);
        return;
      }
      SkipWhitespace();
    }

    method ParseObject()
      requires Ready() && ShortFractions(inp.text) && Peek(inp.text, pos) == '{'
      modifies this`pos, this`events, this`error
      ensures Reached(Recursive.ObjectAt(inp, old(pos), old(events)))
      decreases |inp.text| - pos, 1
    {
      hide Recursive.ValueAt, Recursive.MembersAt, Recursive.ElementsAt, Recursive.ArrayAt, Ws, Inc;
      ghost var p0 := pos;
      pos := pos + 1;
      events := events + [StartObject];
      SkipWhitespace();
      var empty := Consume('}');
      if empty {
        events := events + [EndObject(0)];
        return;
      }
      var memberCount: nat := 0;
      ghost var o := Recursive.MembersAt(inp, pos, 0, events);
      while true
        invariant Ready() && p0 < pos
        invariant Recursive.MembersAt(inp, pos, memberCount, events) == o
        decreases |inp.text| - pos
      {
        ParseKey(memberCount);
        if !error.NoError? { return; }
        ParseValue();
        if !error.NoError? { return; }
        SkipWhitespace();
        memberCount := Inc(memberCount);
        if Peek(inp.text, pos) == ',' {
          pos := pos + 1;
          SkipWhitespace();
        } else if Peek(inp.text, pos) == '}' {
          pos := pos + 1;
          events := events + [EndObject(memberCount)];
          return;
        } else {
          error := ParseError(ObjectMissCommaOrCurlyBracket, pos);
          return;
        }
      }
    }

    method ParseArray()
      requires Ready() && ShortFractions(inp.text) && Peek(inp.text, pos) == '['
      modifies this`pos, this`events, this`error
      ensures Reached(Recursive.ArrayAt(inp, old(pos), old(events)))
      decreases |inp.text| - pos, 1
    {
      hide Recursive.ValueAt, Recursive.MembersAt, Recursive.ObjectAt, Recursive.MemberValueAt, Ws, Inc;
      ghost var p0 := pos;
      pos := pos + 1;
      events := events + [StartArray];
      SkipWhitespace();
      var empty := Consume(']');
      if empty {
        events := events + [EndArray(0)];
        return;
      }
      var elementCount: nat := 0;
      ghost var o := Recursive.ElementsAt(inp, pos, 0, events);
      while true
        invariant Ready() && p0 < pos
        invariant Recursive.ElementsAt(inp, pos, elementCount, events) == o
        decreases |inp.text| - pos
      {
        ParseValue();
        if !error.NoError? { return; }
        elementCount := Inc(elementCount);
        SkipWhitespace();
        var comma := Consume(',');
        if comma {
          SkipWhitespace();
        } else {
          var close := Consume(']');
          if close {
            events := events + [EndArray(elementCount)];
          } else {
            error := ParseError(ArrayMissCommaOrSquareBracket, pos);
          }
          return;
        }
      }
    }

    method Parse()
      requires Ready() && ShortFractions(inp.text) && pos == 0 && events == []
      modifies this`pos, this`events, this`error
      ensures Reached(Recursive.Document(inp))
    {
      SkipWhitespace();
      if Peek(inp.text, pos) == NUL {
        error := ParseError(DocumentEmpty, pos);
        return;
      }
      ParseValue();
      if !error.NoError? { return; }
      SkipWhitespace();
      if Peek(inp.text, pos) != NUL {
        error := ParseError(DocumentRootNotSingular, pos);
      }
    }

    // ---------- the iterative parser ----------

    function Config(s: Iterative.State): Iterative.Config
      reads this
    {
      Iterative.Config(s, stack, pos, events)
    }

    /** Pops the item count, adding the last item, and the state to go on in. */
    method PopContainer(pending: bool) returns (c: nat, n: Iterative.State)
      requires 2 <= |stack|
      modifies this`stack
      ensures var top := old(stack)[|old(stack)| - 1]; c == if pending then Inc(top) else top
      ensures n == Iterative.Outer(old(stack)) && stack == old(stack)[..|old(stack)| - 2]
    {
      c := stack[|stack| - 1];
      stack := stack[..|stack| - 1];
      if pending { c := Inc(c); }
      n := Iterative.Decode(stack[|stack| - 1]);
      stack := stack[..|stack| - 1];
      if n.Start? { n := Iterative.Finish; }
    }

    /** Pushes the state to restore when the container closes, and an item count of zero. */
    method PushContainer(src: Iterative.State)
      modifies this`stack
      ensures stack == old(stack) + [Iterative.Code(Iterative.Saved(src)), 0]
    {
      var n := src;
      if src.ArrayInitial? || src.ElementDelimiter? {
        n := Iterative.Element;
      } else if src.KeyValueDelimiter? {
        n := Iterative.MemberValue;
      }
      stack := stack + [Iterative.Code(n)];
      stack := stack + [0];
    }

    /** A value that is known not to be a container. */
    method ParseScalar()
      requires Ready() && ShortFractions(inp.text) && Peek(inp.text, pos) != '{' && Peek(inp.text, pos) != '['
      modifies this`pos, this`events, this`error
      ensures Reached(Sent(ScalarAt(inp, old(pos)), old(events)))
    {
      hide ScalarAt;
      ParseValue();
    }

    /** Pushes the entries of a new container, or pops those of the innermost one, or updates its
        count, or parses a scalar, as the destination state demands. */
    method Transit(src: Iterative.State, dst: Iterative.State) returns (d: Iterative.State)
      requires Ready() && ShortFractions(inp.text) && Iterative.Inv(Config(src))
      requires dst == Iterative.Target(inp, Config(src))
      modifies this`pos, this`events, this`error, this`stack
      ensures Iterative.Depth(src) <= |old(stack)|
      ensures match Iterative.Transit(inp, old(Config(src)), dst)
              case To(next) => Ready() && Config(d) == next && !d.Error? && Iterative.Inv(next)
              case Refused => d.Error? && Ready() && Config(src) == old(Config(src))
              case Raised(code, at) => d.Error? && error == ParseError(code, at) && events == old(events) && pos <= |inp.text|
    {
      hide ScalarAt, StringAt, Iterative.Inv, Iterative.Code, Iterative.Outer;
      Iterative.StackShape(Config(src));
      Iterative.TransitKeepsInv(inp, Config(src));
      ghost var step := Iterative.Transit(inp, Config(src), dst);
      if step.To? { Iterative.InvIsNoError(step.next); }
      if dst.Error? {
        return dst;
      } else if dst.ObjectInitial? || dst.ArrayInitial? {
        PushContainer(src);
        events := events + [if dst.ObjectInitial? then StartObject else StartArray];
        pos := pos + 1;
        return dst;
      } else if dst.MemberKey? {
        ParseString(true);
        return if error.NoError? then dst else Iterative.Error;
      } else if dst.KeyValueDelimiter? {
        pos := pos + 1;
        return dst;
      } else if dst.MemberDelimiter? || dst.ElementDelimiter? {
        pos := pos + 1;
        stack := stack[|stack| - 1 := Inc(stack[|stack| - 1])];
        return dst;
      } else if dst.ObjectFinish? {
        if src.MemberDelimiter? {
          error := ParseError(ObjectMissName, pos);
          return Iterative.Error;
        }
        var c, n := PopContainer(src.MemberValue?);
        events := events + [EndObject(c)];
        pos := pos + 1;
        return n;
      } else if dst.ArrayFinish? {
        if src.ElementDelimiter? {
          error := ParseError(ValueInvalid, pos);
          return Iterative.Error;
        }
        var c, n := PopContainer(src.Element?);
        events := events + [EndArray(c)];
        pos := pos + 1;
        return n;
      } else {
        ParseScalar();
        return if !error.NoError? then Iterative.Error else if dst.Value? then Iterative.Finish else dst;
      }
    }

    method HandleError(src: Iterative.State)
      requires pos <= |inp.text|
      modifies this`error
      ensures error == if old(error).ParseError? then old(error) else ParseError(Iterative.RefusalCode(src), pos)
    {
      if error.ParseError? { return; }
      match src {
        case Start => error := ParseError(DocumentEmpty, pos);
        case Finish => error := ParseError(DocumentRootNotSingular, pos);
        case ObjectInitial | MemberDelimiter => error := ParseError(ObjectMissName, pos);
        case MemberKey => error := ParseError(ObjectMissColon, pos);
        case MemberValue => error := ParseError(ObjectMissCommaOrCurlyBracket, pos);
        case KeyValueDelimiter | ArrayInitial | ElementDelimiter => error := ParseError(ValueInvalid, pos);
        case _ => error := ParseError(ArrayMissCommaOrSquareBracket, pos);
      }
    }

    method IterativeParse()
      requires Ready() && ShortFractions(inp.text) && pos == 0 && events == [] && stack == []
      modifies this
      ensures Reached(Iterative.Document(inp))
    {
      hide Iterative.Transit, Iterative.Inv;
      var s: Iterative.State := Iterative.Start;
      SkipWhitespace();
      ghost var o := Iterative.Document(inp);
      assert Config(s) == Iterative.Initial(inp);
      while Peek(inp.text, pos) != NUL
        invariant Ready() && Iterative.Inv(Config(s)) && Iterative.Run(inp, Config(s)) == o
        decreases |inp.text| - pos
      {
        ghost var c := Config(s);
        var n := Iterative.Predict(s, Iterative.Tokenize(Peek(inp.text, pos)));
        Iterative.StackShape(c);
        var d := Transit(s, n);
        if d.Error? {
          HandleError(s);
          break;
        }
        s := d;
        Iterative.SkipKeepsInv(inp, Config(s));
        SkipWhitespace();
      }
      if !s.Finish? {
        HandleError(s);
      }
      stack := [];
    }

    method IterativeParseInit()
      modifies this`error, this`state
      ensures error.NoError? && state.Start?
    {
      error := NoError;
      state := Iterative.Start;
    }

    /** One call delivers one event; delimiters are passed over. */
    method IterativeParseNext() returns (more: bool)
      requires Ready() && ShortFractions(inp.text) && Iterative.Inv(Config(state))
      modifies this
      ensures match PullParser.Next(inp, old(Config(state)))
              case Returned(c) => more && Ready() && Config(state) == c
              case Failed(code, at, c) => !more && error == ParseError(code, at) && events == c.events && pos <= |inp.text|
    {
      hide Iterative.Transit, Iterative.Inv;
      ghost var o := PullParser.Next(inp, Config(state));
      while Peek(inp.text, pos) != NUL
        invariant Ready() && Iterative.Inv(Config(state)) && PullParser.Next(inp, Config(state)) == o
        decreases |inp.text| - pos
      {
        Iterative.SkipKeepsInv(inp, Config(state));
        SkipWhitespace();
        ghost var c := Config(state);
        var n := Iterative.Predict(state, Iterative.Tokenize(Peek(inp.text, pos)));
        Iterative.StackShape(c);
        var d := Transit(state, n);
        if Iterative.IsComplete(d) {
          if d.Error? {
            HandleError(state);
            return false;
          }
          state := d;
          SkipWhitespace();
          if Peek(inp.text, pos) != NUL {
            HandleError(state);
            return false;
          }
          return true;
        }
        state := d;
        if !Iterative.IsDelimiter(n) {
          return true;
        }
      }
      stack := [];
      if !state.Finish? {
        HandleError(state);
        return false;
      }
      return true;
    }

    predicate IterativeParseComplete()
      reads this
    {
      Iterative.IsComplete(state)
    }

    /** The caller's loop: pull until parsing is complete or a call fails. */
    method PullAll()
      requires Ready() && ShortFractions(inp.text) && pos == 0 && events == [] && stack == []
      modifies this
      ensures Reached(PullParser.Document(inp))
    {
      hide Iterative.Inv, PullParser.Next;
      IterativeParseInit();
      ghost var o := PullParser.Document(inp);
      Iterative.EmptyInv(Config(state));
      while !IterativeParseComplete()
        invariant Ready() && Iterative.Inv(Config(state)) && PullParser.Pull(inp, Config(state)) == o
        decreases |inp.text| - pos
      {
        var more := IterativeParseNext();
        if !more { return; }
      }
      Iterative.InvIsNoError(Config(state));
    }
  }
}
