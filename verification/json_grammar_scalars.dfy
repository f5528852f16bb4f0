/** The parsers of strings and numbers accept exactly the strings of the grammar with paired surrogates
    and its numbers in range. */
module GrammarScalars {
  import opened JsonText
  import opened JsonScalars
  import opened JsonGrammar
  import Encodings

  lemma Sub(t: string, p: nat, q: nat, a: nat, b: nat)
    requires p <= q <= |t| && a <= b <= q - p
    ensures t[p..q][a..b] == t[p + a..p + b]
  {
    forall i | a <= i < b ensures t[p..q][i] == t[p + i] {}
  }

  lemma Three(t: string, p: nat, q: nat, i: nat, j: nat)
    requires p <= q <= |t| && i <= j <= q - p
    ensures t[p..q][..i] == t[p..p + i] && t[p..q][i..j] == t[p + i..p + j] && t[p..q][j..] == t[p + j..q]
  {
    Sub(t, p, q, 0, i);
    Sub(t, p, q, i, j);
    Sub(t, p, q, j, q - p);
  }

  /** The codes of texts that follow the grammar but are refused: only where it is the text that is
      not within the limits. */
  predicate Refuses(code: ErrorCode, l: Limits) {
    (code == NumberTooBig && !l.ranged) || (code == StringUnicodeSurrogateInvalid && !l.paired)
  }

  // ---------- numbers ----------

  lemma DigitsSpan(t: string, p: nat, q: nat)
    requires p < q <= |t| && forall i | p <= i < q :: IsDigit(t[i])
    ensures IsDigits(t[p..q])
  {}

  lemma DigitsThere(t: string, p: nat, q: nat)
    requires p <= q <= |t| && IsDigits(t[p..q])
    ensures p < q && forall i | p <= i < q :: IsDigit(t[i])
  {
    forall i | p <= i < q ensures IsDigit(t[i]) { assert t[i] == t[p..q][i - p]; }
  }

  lemma FractionSound(t: string, from: nat, p: nat, minus: bool, n: nat)
    requires from < p <= |t| && FractionAt(t, from, p, minus, n).Scale?
    ensures IsFrac(t[p..FractionAt(t, from, p, minus, n).pos])
  {
    hide FractionScale;
    if Peek(t, p) == '.' {
      var q := DigitsEnd(t, p + 1);
      Sub(t, p, q, 1, q - p);
      DigitsSpan(t, p + 1, q);
      assert t[p..q][0] == '.';
    }
  }

  lemma ExponentSound(t: string, p: nat, scale: nat)
    requires p <= |t| && ExponentAt(t, p, scale).Exp?
    ensures IsExp(t[p..ExponentAt(t, p, scale).pos])
  {
    hide DigitsValue;
    var q := ExponentAt(t, p, scale).pos;
    if Peek(t, p) == 'e' || Peek(t, p) == 'E' {
      var d := if Peek(t, p + 1) == '+' || Peek(t, p + 1) == '-' then p + 2 else p + 1;
      assert q == DigitsEnd(t, d);
      Sub(t, p, q, d - p, q - p);
      DigitsSpan(t, d, q);
      assert t[p..q][0] == t[p] && t[p..q][1] == t[p + 1];
    }
  }

  lemma IntegerSound(t: string, p: nat)
    requires p <= |t| && IsDigit(Peek(t, p))
    ensures IsInt(t[p..IntegerEnd(t, p)])
  {
    DigitsSpan(t, p, IntegerEnd(t, p));
  }

  lemma UnsignedSpan(t: string, p: nat, b: nat, c: nat, q: nat)
    requires p <= b <= c <= q <= |t| && IsInt(t[p..b]) && IsFrac(t[b..c]) && IsExp(t[c..q])
    ensures IsUnsigned(t[p..q])
  {
    hide IsInt, IsFrac, IsExp;
    Three(t, p, q, b - p, c - p);
  }

  lemma Signed(t: string, p: nat, q: nat)
    requires p < q <= |t| && IsUnsigned(t[(if t[p] == '-' then p + 1 else p)..q])
    ensures HasNumberForm(t[p..q])
  {
    assert t[p..q][1..] == t[p + 1..q];
  }

  /** The integer, the fraction and the exponent of a number at [p, q) end at b, c and q, and nothing
      behind it continues it. */
  ghost predicate Parts(t: string, p: nat, from: nat, b: nat, c: nat, q: nat) {
    && p <= from < b <= c <= q <= |t| && IsDigit(t[from])
    && from == (if Peek(t, p) == '-' then p + 1 else p)
    && IntegerEnd(t, from) == b && FractionEnds(t, b, c) && ExponentEnds(t, c, q)
  }

  /** Whatever integer stands in front, the fraction at p ends at q. */
  ghost predicate FractionEnds(t: string, p: nat, q: nat)
    requires p <= |t|
  {
    forall from: nat, minus: bool, n: nat :: from < p ==>
      var f := FractionAt(t, from, p, minus, n); f.Scale? && f.pos == q && f.present == (p < q)
  }

  /** Whatever fraction stands in front, the exponent at p ends at q, unless it is too large. */
  ghost predicate ExponentEnds(t: string, p: nat, q: nat)
    requires p <= |t|
  {
    forall scale: nat ::
      ExponentAt(t, p, scale) == if ExponentAtMost(t, p, q, 308 + scale) then Exp(q, p < q) else TooBig
  }

  lemma FractionDelivered(t: string, from: nat, p: nat, minus: bool, n: nat)
    requires from < p <= |t| && FractionAt(t, from, p, minus, n).Scale?
    ensures FractionEnds(t, p, FractionAt(t, from, p, minus, n).pos)
  {
    hide FractionScale;
  }

  lemma ExponentDelivered(t: string, p: nat, scale: nat)
    requires p <= |t| && ExponentAt(t, p, scale).Exp?
    ensures ExponentEnds(t, p, ExponentAt(t, p, scale).pos)
  {
    hide DigitsValue;
  }

  /** A number that is delivered has parts. */
  lemma NumberDelivered(inp: Input, p: nat) returns (from: nat, b: nat, c: nat)
    requires p <= |inp.text| && NumberAt(inp, p).Got?
    ensures p <= from < b <= c <= NumberAt(inp, p).pos <= |inp.text|
    ensures Parts(inp.text, p, from, b, c, NumberAt(inp, p).pos)
    ensures IsUnsigned(inp.text[from..NumberAt(inp, p).pos])
  {
    hide DigitsValue, IntegerEvent, FractionEnds, ExponentEnds, FractionAt, ExponentAt, IsInt, IsFrac, IsExp, IsUnsigned,
         IntegerEnd;
    var t, minus := inp.text, Peek(inp.text, p) == '-';
    from := if minus then p + 1 else p;
    b := IntegerEnd(t, from);
    var n := DigitsValue(t, from, b);
    var f := FractionAt(t, from, b, minus, n);
    c := f.pos;
    IntegerSound(t, from);
    FractionSound(t, from, b, minus, n);
    FractionDelivered(t, from, b, minus, n);
    ExponentSound(t, c, f.digits);
    ExponentDelivered(t, c, f.digits);
    UnsignedSpan(t, from, b, c, ExponentAt(t, c, f.digits).pos);
  }

  /** A number with these parts is delivered exactly if it is within the limits. */
  lemma NumberParts(inp: Input, p: nat, from: nat, b: nat, c: nat, q: nat)
    requires Parts(inp.text, p, from, b, c, q)
    ensures var t := inp.text;
            match NumberAt(inp, p)
            case Got(end, _) => end == q && Fits(t, from, b, c, q, Peek(t, p) == '-', t[p..q], inp.overflows)
            case Bad(code, _) => code == NumberTooBig && !Fits(t, from, b, c, q, Peek(t, p) == '-', t[p..q], inp.overflows)
  {
    hide DigitsValue, FractionAt, ExponentAt, IntegerEnd;
    hide ExponentValue;
    var minus, n := Peek(inp.text, p) == '-', DigitsValue(inp.text, from, b);
    var f := FractionAt(inp.text, from, b, minus, n);
    var e := ExponentAt(inp.text, c, f.digits);
    assert f.pos == c && f.present == (b < c);
    assert e == if ExponentAtMost(inp.text, c, q, 308 + f.digits) then Exp(q, c < q) else TooBig;
  }

  // The limits of a number depend on its own text only.

  lemma {:induction false} DigitsValueWithin(t: string, p: nat, q: nat, a: nat, b: nat)
    requires p <= a <= b <= q <= |t|
    ensures DigitsValue(t[p..q], a - p, b - p) == DigitsValue(t, a, b)
    decreases b - a
  {
    if a < b {
      DigitsValueWithin(t, p, q, a, b - 1);
      assert t[p..q][b - 1 - p] == t[b - 1];
    }
  }

  lemma {:induction false} ScaleWithin(t: string, p: nat, q: nat, a: nat, b: nat, v: nat, significant: nat)
    requires p <= a <= b <= q <= |t|
    ensures FractionScale(t[p..q], a - p, b - p, v, significant) == FractionScale(t, a, b, v, significant)
    decreases b - a
  {
    if a < b && v <= FAST_PATH_MAX {
      assert t[p..q][a - p] == t[a];
      var v' := v * 10 + DigitOf(t[a]);
      ScaleWithin(t, p, q, a + 1, b, v', if v' != 0 then significant + 1 else significant);
    }
  }

  lemma IntegerWithin(t: string, p: nat, q: nat, from: nat)
    requires p <= from < q <= |t| && IsDigit(t[from]) && IntegerEnd(t, from) <= q
    ensures IsDigit(t[p..q][from - p]) && IntegerEnd(t[p..q], from - p) == IntegerEnd(t, from) - p
  {
    var s, b := t[p..q], IntegerEnd(t, from);
    assert forall i | from <= i < q :: s[i - p] == t[i];
    if t[from] != '0' { DigitsEndIs(s, from - p, b - p); }
  }

  lemma FractionWithin(t: string, p: nat, q: nat, from: nat, b: nat, minus: bool, n: nat)
    requires p <= from < b <= q <= |t| && FractionAt(t, from, b, minus, n).Scale? && FractionAt(t, from, b, minus, n).pos <= q
    ensures var f := FractionAt(t, from, b, minus, n);
            FractionAt(t[p..q], from - p, b - p, minus, n) == if f.present then f.(pos := f.pos - p) else Scale(b - p, 0, false)
  {
    var s, f := t[p..q], FractionAt(t, from, b, minus, n);
    if f.present {
      assert forall i | b <= i < f.pos :: s[i - p] == t[i];
      DigitsEndIs(s, b + 1 - p, f.pos - p);
      ScaleWithin(t, p, q, b + 1, f.pos, n, b - from - 1);
    }
  }

  lemma ExponentWithin(t: string, p: nat, q: nat, c: nat, limit: nat)
    requires p <= c <= q <= |t|
    ensures ExponentAtMost(t[p..q], c - p, q - p, limit) <==> ExponentAtMost(t, c, q, limit)
  {
    if c < q {
      if c + 1 < q { assert t[p..q][c + 1 - p] == t[c + 1]; }
      DigitsValueWithin(t, p, q, if c + 1 < q then c + 1 else q, q);
      if c + 2 <= q { DigitsValueWithin(t, p, q, c + 2, q); }
    }
  }

  lemma RangeWithin(t: string, p: nat, from: nat, b: nat, c: nat, q: nat, overflows: string -> bool)
    requires Parts(t, p, from, b, c, q)
    ensures InRange(t[p..q], overflows) <==> Fits(t, from, b, c, q, Peek(t, p) == '-', t[p..q], overflows)
  {
    hide DigitsValue, ExponentAtMost, ExponentEnds, FractionAt, IntegerEnd;
    var s, minus, n := t[p..q], Peek(t, p) == '-', DigitsValue(t, from, b);
    assert s[0] == t[p];
    IntegerWithin(t, p, q, from);
    DigitsValueWithin(t, p, q, from, b);
    FractionWithin(t, p, q, from, b, minus, n);
    ExponentWithin(t, p, q, c, 308 + FractionAt(t, from, b, minus, n).digits);
  }

  /** A number that is delivered follows the grammar and is in range. */
  lemma NumberSound(inp: Input, p: nat, l: Limits)
    requires p <= |inp.text| && NumberAt(inp, p).Got? && l.overflows == inp.overflows
    ensures IsNumber(inp.text[p..NumberAt(inp, p).pos], l)
  {
    hide Parts, NumberAt, Fits, InRange, IsUnsigned;
    var q := NumberAt(inp, p).pos;
    var from, b, c := NumberDelivered(inp, p);
    PartsFrom(inp.text, p, from, b, c, q);
    NumberParts(inp, p, from, b, c, q);
    RangeWithin(inp.text, p, from, b, c, q, inp.overflows);
    Signed(inp.text, p, q);
  }

  lemma PartsFrom(t: string, p: nat, from: nat, b: nat, c: nat, q: nat)
    requires Parts(t, p, from, b, c, q)
    ensures p <= from < q <= |t| && IsDigit(t[from]) && from == (if t[p] == '-' then p + 1 else p)
  {
    hide IntegerEnd, FractionEnds, ExponentEnds;
  }

  /** A number of the grammar is delivered, or refused as too big if it is not in range. */
  lemma NumberComplete(inp: Input, p: nat, q: nat, l: Limits)
    requires p <= q <= |inp.text| && IsNumber(inp.text[p..q], l) && Stops(Peek(inp.text, q)) && l.overflows == inp.overflows
    ensures match NumberAt(inp, p)
            case Got(end, _) => end == q
            case Bad(code, _) => Refuses(code, l)
    ensures p < q && (Peek(inp.text, p) == '-' || IsDigit(Peek(inp.text, p)))
  {
    hide Parts, NumberAt, Fits, InRange;
    var from, b, c := FormParts(inp.text, p, q);
    PartsFrom(inp.text, p, from, b, c, q);
    NumberParts(inp, p, from, b, c, q);
    RangeWithin(inp.text, p, from, b, c, q, inp.overflows);
  }

  lemma FormParts(t: string, p: nat, q: nat) returns (from: nat, b: nat, c: nat)
    requires p <= q <= |t| && HasNumberForm(t[p..q]) && Stops(Peek(t, q))
    ensures Parts(t, p, from, b, c, q)
  {
    hide Parts, Stops;
    var s := t[p..q];
    if s != "" && s[0] == '-' && IsUnsigned(s[1..]) {
      assert s[1..] == t[p + 1..q];
      from := p + 1;
    } else {
      from := p;
    }
    b, c := UnsignedComplete(t, p, from, q);
  }

  lemma UnsignedComplete(t: string, p: nat, from: nat, q: nat) returns (b: nat, c: nat)
    requires p <= from <= q <= |t| && IsUnsigned(t[from..q]) && Stops(Peek(t, q))
    requires from == p || (from == p + 1 && t[p] == '-')
    ensures Parts(t, p, from, b, c, q)
  {
    hide IsInt, IsFrac, IsExp, FractionEnds, ExponentEnds, IsUnsigned, IntegerEnd;
    b, c := UnsignedParts(t, from, q);
    ExponentComplete(t, c, q);
    FractionComplete(t, b, c);
    IntegerComplete(t, from, b);
  }

  lemma UnsignedParts(t: string, p: nat, q: nat) returns (b: nat, c: nat)
    requires p <= q <= |t| && IsUnsigned(t[p..q])
    ensures p <= b <= c <= q && IsInt(t[p..b]) && IsFrac(t[b..c]) && IsExp(t[c..q])
  {
    hide IsUnsigned, IsInt, IsFrac, IsExp;
    var i, j := UnsignedWitness(t[p..q]);
    Three(t, p, q, i, j);
    b, c := p + i, p + j;
  }

  lemma UnsignedWitness(s: string) returns (i: nat, j: nat)
    requires IsUnsigned(s)
    ensures i <= j <= |s| && IsInt(s[..i]) && IsFrac(s[i..j]) && IsExp(s[j..])
  {
    hide IsInt, IsFrac, IsExp;
    var b: int, c: int :| 0 <= b <= c <= |s| && IsInt(s[..b]) && IsFrac(s[b..c]) && IsExp(s[c..]);
    i, j := b, c;
  }

  lemma IntegerComplete(t: string, p: nat, q: nat)
    requires p <= q <= |t| && IsInt(t[p..q]) && !IsDigit(Peek(t, q))
    ensures p < q && IsDigit(t[p]) && IntegerEnd(t, p) == q
  {
    DigitsThere(t, p, q);
    assert t[p] == t[p..q][0];
    if t[p] != '0' { DigitsEndIs(t, p, q); }
  }

  lemma FractionComplete(t: string, p: nat, q: nat)
    requires p <= q <= |t| && IsFrac(t[p..q]) && !IsDigit(Peek(t, q)) && Peek(t, q) != '.'
    ensures !IsDigit(Peek(t, p))
    ensures FractionEnds(t, p, q)
  {
    hide FractionScale;
    if p < q {
      assert t[p..q][0] == t[p] && t[p..q][1..] == t[p + 1..q];
      DigitsThere(t, p + 1, q);
      DigitsEndIs(t, p + 1, q);
    }
  }

  lemma ExponentComplete(t: string, p: nat, q: nat)
    requires p <= q <= |t| && IsExp(t[p..q]) && Stops(Peek(t, q))
    ensures !IsDigit(Peek(t, p)) && Peek(t, p) != '.'
    ensures ExponentEnds(t, p, q)
  {
    hide DigitsValue;
    if p < q {
      var s := t[p..q];
      assert s[0] == t[p];
      if IsDigits(s[1..]) {
        assert s[1..] == t[p + 1..q];
        DigitsThere(t, p + 1, q);
        DigitsEndIs(t, p + 1, q);
      } else {
        assert s[1] == t[p + 1] && s[2..] == t[p + 2..q];
        DigitsThere(t, p + 2, q);
        DigitsEndIs(t, p + 2, q);
      }
    }
  }

  // ---------- strings ----------

  lemma CharsCons(t: string, p: nat, k: nat, q: nat)
    requires p + k <= q <= |t|
    ensures t[p..q][k..] == t[p + k..q]
    ensures forall i | 0 <= i < q - p :: t[p..q][i] == t[p + i]
  {}

  lemma OneUnicode(t: string, p: nat, q: nat)
    requires p + 6 <= q <= |t| && t[p] == '\\' && t[p + 1] == 'u' && HexDigits(t, p + 2, 4)
    ensures IsChars(t[p..q]) <==> IsChars(t[p + 6..q])
  {
    CharsCons(t, p, 6, q);
    var s := t[p..q];
    forall i | 2 <= i < 6 ensures IsHex(s[i]) { assert s[i] == t[p + i]; }
  }

  /** One escape, or two of them that make a pair. */
  lemma UnicodeSound(t: string, p: nat, q: nat)
    requires p + 2 <= q <= |t| && t[p] == '\\' && t[p + 1] == 'u' && UnicodeEscape(t, p + 2).Point?
    requires UnicodeEscape(t, p + 2).pos <= q && IsChars(t[UnicodeEscape(t, p + 2).pos..q])
    requires IsPaired(t[UnicodeEscape(t, p + 2).pos..q])
    ensures IsChars(t[p..q]) && IsPaired(t[p..q])
  {
    hide Hex4, IsPaired;
    PairedEscape(t, p, q);
    OneUnicode(t, p, q);
    if UnicodeEscape(t, p + 2).pos == p + 12 { OneUnicode(t, p + 6, q); }
  }

  lemma {:induction false} HexWithin(t: string, p: nat, q: nat, a: nat, k: nat)
    requires p <= a && a + k <= q <= |t| && HexDigits(t, a, k)
    ensures HexDigits(t[p..q], a - p, k) && HexValue(t[p..q], a - p, k) == HexValue(t, a, k)
    decreases k
  {
    assert forall i | a <= i < a + k :: t[p..q][i - p] == t[i];
    if 0 < k { HexWithin(t, p, q, a, k - 1); }
  }

  /** Pairs are seen one after the other: an escape is read exactly if it is one unit or a pair. */
  lemma PairedEscape(t: string, p: nat, q: nat)
    requires p + 6 <= q <= |t| && t[p] == '\\' && t[p + 1] == 'u' && HexDigits(t, p + 2, 4)
    ensures match UnicodeEscape(t, p + 2)
            case Point(end, _) => end <= q ==> (IsPaired(t[p..q]) <==> IsPaired(t[end..q]))
            case BadPoint(_) => !IsPaired(t[p..q])
  {
    hide HexValue;
    var s := t[p..q];
    CharsCons(t, p, 6, q);
    HexWithin(t, p, q, p + 2, 4);
    if p + 12 <= q {
      CharsCons(t, p, 12, q);
      if HexDigits(t, p + 8, 4) { HexWithin(t, p, q, p + 8, 4); }
    }
    SecondEscape(t, p, q);
  }

  lemma SecondEscape(t: string, p: nat, q: nat)
    requires p + 6 <= q <= |t|
    ensures HexDigits(t[p..q], 8, 4) <==> p + 12 <= q && HexDigits(t, p + 8, 4)
    ensures Peek(t[p..q], 6) == (if p + 6 < q then t[p + 6] else NUL) && Peek(t[p..q], 7) == if p + 7 < q then t[p + 7] else NUL
  {
    if HexDigits(t[p..q], 8, 4) {
      forall i | p + 8 <= i < p + 12 ensures IsHex(t[i]) { assert t[i] == t[p..q][i - p]; }
    }
  }

  lemma PairedItem(t: string, p: nat, q: nat, k: nat)
    requires p + k <= q <= |t|
    requires (k == 1 && t[p] != '\\') || (k == 2 && t[p] == '\\' && t[p + 1] != 'u')
    ensures IsPaired(t[p..q]) <==> IsPaired(t[p + k..q])
  {
    CharsCons(t, p, k, q);
  }

  lemma {:induction false} BodySound(t: string, p: nat, acc: string)
    requires p <= |t| && StringBody(t, p, acc).Text?
    ensures var q := StringBody(t, p, acc).pos; t[q - 1] == '\"' && IsChars(t[p..q - 1]) && IsPaired(t[p..q - 1])
    decreases |t| - p
  {
    hide UnicodeEscape, Encodings.Utf8Chars, Escape, IsChars, IsPaired;
    var c, q := Peek(t, p), StringBody(t, p, acc).pos;
    if c == '\\' {
      var e := Peek(t, p + 1);
      if Escape(e) != NUL {
        BodySound(t, p + 2, acc + [Escape(e)]);
        EscapeSound(t, p, q - 1);
      } else {
        var u := UnicodeEscape(t, p + 2);
        BodySound(t, u.pos, acc + Encodings.Utf8Chars(u.codepoint));
        UnicodeSound(t, p, q - 1);
      }
    } else if c != '\"' {
      BodySound(t, p + 1, acc + [c]);
      UnescapedSound(t, p, q - 1);
    } else {
      NoChars(t, p);
    }
  }

  lemma NoChars(t: string, p: nat)
    requires p <= |t|
    ensures IsChars(t[p..p]) && IsPaired(t[p..p])
  {}

  lemma EscapeSound(t: string, p: nat, q: nat)
    requires p + 2 <= q <= |t| && t[p] == '\\' && Escape(t[p + 1]) != NUL
    requires IsChars(t[p + 2..q]) && IsPaired(t[p + 2..q])
    ensures IsChars(t[p..q]) && IsPaired(t[p..q])
  {
    hide IsPaired;
    PairedItem(t, p, q, 2);
    CharsCons(t, p, 2, q);
  }

  lemma UnescapedSound(t: string, p: nat, q: nat)
    requires p < q <= |t| && IsUnescaped(t[p]) && IsChars(t[p + 1..q]) && IsPaired(t[p + 1..q])
    ensures IsChars(t[p..q]) && IsPaired(t[p..q])
  {
    hide IsPaired;
    PairedItem(t, p, q, 1);
    CharsCons(t, p, 1, q);
  }

  /** A body that follows the grammar is read to its closing quote, unless a surrogate is unpaired. */
  lemma {:induction false} BodyComplete(t: string, p: nat, q: nat, acc: string)
    requires p <= q < |t| && t[q] == '\"' && IsChars(t[p..q])
    ensures match StringBody(t, p, acc)
            case Text(end, _) => end == q + 1 && IsPaired(t[p..q])
            case BadText(code, _) => code == StringUnicodeSurrogateInvalid && !IsPaired(t[p..q])
    decreases q - p
  {
    hide IsPaired, UnicodeEscape, Encodings.Utf8Chars;
    if p < q {
      var s := t[p..q];
      assert s[0] == t[p];
      if IsUnescaped(s[0]) {
        CharsCons(t, p, 1, q);
        PairedItem(t, p, q, 1);
        BodyComplete(t, p + 1, q, acc + [t[p]]);
      } else if IsEscaped(s[1]) {
        CharsCons(t, p, 2, q);
        PairedItem(t, p, q, 2);
        BodyComplete(t, p + 2, q, acc + [Escape(t[p + 1])]);
      } else {
        CharsCons(t, p, 6, q);
        UnicodeComplete(t, p, q);
        PairedEscape(t, p, q);
        var u := UnicodeEscape(t, p + 2);
        if u.Point? { BodyComplete(t, u.pos, q, acc + Encodings.Utf8Chars(u.codepoint)); }
      }
    } else {
      NoChars(t, p);
    }
  }

  lemma UnicodeComplete(t: string, p: nat, q: nat)
    requires p + 6 <= q < |t| && t[q] == '\"' && IsChars(t[p..q]) && t[p] == '\\' && t[p + 1] == 'u'
    ensures match UnicodeEscape(t, p + 2)
            case Point(end, _) => p + 2 < end <= q && IsChars(t[end..q])
            case BadPoint(code) => code == StringUnicodeSurrogateInvalid
    ensures HexDigits(t, p + 2, 4)
  {
    var s := t[p..q];
    CharsCons(t, p, 6, q);
    forall i | p + 2 <= i < p + 6 ensures IsHex(t[i]) { assert t[i] == s[i - p]; }
    hide Hex4;
    if Peek(t, p + 6) == '\\' && Peek(t, p + 7) == 'u' {
      SecondUnicode(t, p + 6, q);
    }
  }

  /** Behind "\\u" the grammar asks for four hexadecimal digits. */
  lemma SecondUnicode(t: string, p: nat, q: nat)
    requires p <= q < |t| && t[q] == '\"' && IsChars(t[p..q]) && t[p] == '\\' && Peek(t, p + 1) == 'u'
    ensures p + 6 <= q && HexDigits(t, p + 2, 4) && IsChars(t[p + 6..q])
  {
    var s := t[p..q];
    assert s != "" && s[0] == t[p];
    assert 2 <= |s| && s[1] == t[p + 1];
    CharsCons(t, p, 6, q);
    forall i | p + 2 <= i < p + 6 ensures IsHex(t[i]) { assert t[i] == s[i - p]; }
  }

  /** A string that is delivered follows the grammar, and its escaped surrogates are paired. */
  lemma StringSound(t: string, p: nat, l: Limits)
    requires p < |t| && t[p] == '\"' && StringAt(t, p).Text?
    ensures IsString(t[p..StringAt(t, p).pos], l)
  {
    var q := StringAt(t, p).pos;
    BodySound(t, p + 1, "");
    hide StringBody, IsChars, IsPaired;
    Sub(t, p, q, 1, q - p - 1);
    assert t[p..q][0] == t[p] && t[p..q][q - p - 1] == t[q - 1];
  }

  /** A string of the grammar is delivered if its escaped surrogates are paired, and refused if not. */
  lemma StringComplete(t: string, p: nat, q: nat, l: Limits)
    requires p <= q <= |t| && IsString(t[p..q], l)
    ensures p < q && t[p] == '\"'
    ensures match StringAt(t, p)
            case Text(end, _) => end == q
            case BadText(code, _) => Refuses(code, l)
  {
    var s := t[p..q];
    Sub(t, p, q, 1, q - p - 1);
    assert s[0] == t[p] && s[|s| - 1] == t[q - 1];
    hide StringBody, IsChars, IsPaired;
    BodyComplete(t, p + 1, q - 1, "");
  }

  // ---------- literals ----------

  lemma LiteralComplete(t: string, p: nat, q: nat, word: string, e: Event)
    requires p <= q <= |t| && t[p..q] == word && word != "" && NUL !in word
    ensures Literal(t, p, word, e) == Got(q, e) && Peek(t, p) == word[0]
  {
    assert t[p] == t[p..q][0];
    assert word <= t[p..] by { assert t[p..][..|word|] == t[p..q]; }
  }

  lemma LiteralSound(t: string, p: nat, word: string, e: Event)
    requires p <= |t| && NUL !in word && Literal(t, p, word, e).Got?
    ensures t[p..Literal(t, p, word, e).pos] == word
  {
    assert word <= t[p..];
    assert t[p..][..|word|] == t[p..p + |word|];
  }

  /** A scalar that is delivered is a value of the grammar, within the limits. */
  lemma ScalarSound(inp: Input, p: nat, l: Limits)
    requires p <= |inp.text| && Peek(inp.text, p) != '{' && Peek(inp.text, p) != '['
    requires ScalarAt(inp, p).Got? && l.overflows == inp.overflows
    ensures IsValue(inp.text[p..ScalarAt(inp, p).pos], l)
  {
    hide Literal, StringAt, NumberAt, IsNumber, IsString, IsArray, IsObject;
    var t, c := inp.text, Peek(inp.text, p);
    if c == 'n' { LiteralSound(t, p, "null", Null); }
    else if c == 't' { LiteralSound(t, p, "true", Bool(true)); }
    else if c == 'f' { LiteralSound(t, p, "false", Bool(false)); }
    else if c == '\"' { StringSound(t, p, l); }
    else { NumberSound(inp, p, l); }
  }

  predicate IsWord(s: string) {
    s == "null" || s == "true" || s == "false"
  }

  /** A value of the grammar that is not a container is delivered, or refused for its range or an
      unpaired surrogate. */
  lemma ScalarComplete(inp: Input, p: nat, q: nat, l: Limits)
    requires p <= q <= |inp.text| && Stops(Peek(inp.text, q)) && l.overflows == inp.overflows
    requires IsWord(inp.text[p..q]) || IsNumber(inp.text[p..q], l) || IsString(inp.text[p..q], l)
    ensures p < q && Peek(inp.text, p) != '{' && Peek(inp.text, p) != '[' && !IsWs(Peek(inp.text, p))
    ensures Peek(inp.text, p) != ']' && Peek(inp.text, p) != '}' && Peek(inp.text, p) != NUL
    ensures match ScalarAt(inp, p)
            case Got(end, _) => end == q
            case Bad(code, _) => Refuses(code, l)
  {
    hide Literal, StringAt, NumberAt, IsNumber, IsString;
    var t := inp.text;
    var s := t[p..q];
    if s == "null" { LiteralComplete(t, p, q, "null", Null); }
    else if s == "true" { LiteralComplete(t, p, q, "true", Bool(true)); }
    else if s == "false" { LiteralComplete(t, p, q, "false", Bool(false)); }
    else if IsString(s, l) { StringComplete(t, p, q, l); }
    else { NumberComplete(inp, p, q, l); }
  }
}
