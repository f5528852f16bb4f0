/** What a number text means: decimal numerals are delivered exactly, and the bound under which
    exponents stay within 32 bits is the best one. */
module JsonNumbers {
  import opened JsonText
  import opened JsonScalars
  import opened Decimals

  lemma {:induction false} DecimalValue(t: string, p: nat, n: nat)
    requires Has(t, p, Decimal(n))
    ensures DigitsValue(t, p, p + |Decimal(n)|) == n
    decreases n
  {
    var d := Decimal(n);
    HasAt(t, p, d, |d| - 1);
    if n < 10 {
      assert DigitsValue(t, p, p) == 0;
    } else {
      HasSplit(t, p, Decimal(n / 10), [Digit(n % 10)]);
      DecimalValue(t, p, n / 10);
    }
  }

  /** Every digit string without a leading zero is the numeral of its value. */
  lemma {:induction false} DigitsAreDecimal(t: string, p: nat, q: nat)
    requires p < q <= |t| && (forall i | p <= i < q :: IsDigit(t[i])) && (t[p] == '0' ==> q == p + 1)
    ensures t[p..q] == Decimal(DigitsValue(t, p, q))
    decreases q
  {
    var n := DigitsValue(t, p, q);
    if q == p + 1 {
      assert DigitsValue(t, p, p) == 0;
    } else {
      DigitsAreDecimal(t, p, q - 1);
      var m := DigitsValue(t, p, q - 1);
      assert t[p..q - 1][0] == t[p];
      assert 0 < m;
      assert n / 10 == m && n % 10 == DigitOf(t[q - 1]);
      assert t[p..q] == t[p..q - 1] + [t[q - 1]];
    }
  }

  /** An integer of any size without fraction or exponent: its exact value is sent as the first of
      the 32-bit and the 64-bit type of its sign that holds it; only an integer outside
      [-2^63, 2^64 - 1] falls back to a double. */
  lemma IntegerDelivered(inp: Input, p: nat, minus: bool, n: nat)
    requires Has(inp.text, p, (if minus then "-" else "") + Decimal(n))
    requires var k := p + |(if minus then "-" else "") + Decimal(n)|; Stops(Peek(inp.text, k))
    ensures var word := (if minus then "-" else "") + Decimal(n);
            var k := p + |word|;
            var v := if minus then -(n as int) else n;
            NumberAt(inp, p) ==
              if minus && -0x8000_0000 <= v then Got(k, Int(v))
              else if minus && -0x8000_0000_0000_0000 <= v then Got(k, Int64(v))
              else if !minus && v <= 0xFFFF_FFFF then Got(k, Uint(v))
              else if !minus && v <= 0xFFFF_FFFF_FFFF_FFFF then Got(k, Uint64(v))
              else if inp.overflows(word) then Bad(NumberTooBig, p)
              else Got(k, Double(word))
  {
    var t := inp.text;
    var word := (if minus then "-" else "") + Decimal(n);
    var from := if minus then p + 1 else p;
    var k := p + |word|;
    IntegerPart(t, p, minus, n);
    NoFractionNoExponent(t, from, k, minus, n);
    hide FractionAt, ExponentAt, IntegerEnd, DigitsValue, Decimal;
    assert t[p..k] == word;
    assert NumberAt(inp, p) == Checked(inp, p, k, IntegerEvent(minus, n, word));
  }

  /** A number is floating if it has a point or an exponent. */
  predicate IsFloating(word: string) {
    exists c :: c in word && (c == '.' || c == 'e' || c == 'E')
  }

  /** A number with a point or an exponent is delivered as a double of its own text, and so is any
      double. */
  lemma DoubleDelivered(inp: Input, p: nat)
    requires p <= |inp.text| && NumberAt(inp, p).Got?
    ensures var r := NumberAt(inp, p); var word := inp.text[p..r.pos];
            && (IsFloating(word) ==> r.event.Double?)
            && (r.event.Double? ==> r.event.digits == word)
  {
    var t := inp.text;
    var minus := Peek(t, p) == '-';
    var from := if minus then p + 1 else p;
    var to := IntegerEnd(t, from);
    var n := DigitsValue(t, from, to);
    hide DigitsValue, FractionScale, IntegerEnd;
    var r := NumberAt(inp, p);
    if r.pos == to {
      forall i | p <= i < to ensures t[i] == '-' || IsDigit(t[i]) {}
      forall c | c in t[p..to] ensures c == '-' || IsDigit(c) {
        var i :| 0 <= i < to - p && t[p..to][i] == c;
        assert t[p..to][i] == t[p + i];
      }
    }
  }

  lemma IntegerPart(t: string, p: nat, minus: bool, n: nat)
    requires Has(t, p, (if minus then "-" else "") + Decimal(n))
    requires var k := p + |(if minus then "-" else "") + Decimal(n)|; Stops(Peek(t, k))
    ensures var from := if minus then p + 1 else p;
            && (Peek(t, p) == '-' <==> minus)
            && IsDigit(Peek(t, from))
            && IntegerEnd(t, from) == from + |Decimal(n)|
            && DigitsValue(t, from, from + |Decimal(n)|) == n
  {
    var d := Decimal(n);
    var sign := if minus then "-" else "";
    var from := if minus then p + 1 else p;
    hide Decimal, Has, DigitsValue;
    HasSplit(t, p, sign, d);
    if minus { HasAt(t, p, sign, 0); }
    HasAt(t, from, d, 0);
    DecimalValue(t, from, n);
    DigitsOfNumeral(t, from, d);
    DigitsEndIs(t, from, from + |d|);
  }

  lemma DigitsOfNumeral(t: string, p: nat, d: string)
    requires Has(t, p, d) && forall c | c in d :: '0' <= c <= '9'
    ensures forall i | p <= i < p + |d| :: IsDigit(t[i])
  {
    forall i | p <= i < p + |d| ensures IsDigit(t[i]) {
      HasAt(t, p, d, i - p);
      assert d[i - p] in d;
    }
  }

  lemma NoFractionNoExponent(t: string, from: nat, k: nat, minus: bool, n: nat)
    requires from < k <= |t| && Stops(Peek(t, k))
    ensures FractionAt(t, from, k, minus, n) == Scale(k, 0, false)
    ensures ExponentAt(t, k, 0) == Exp(k, false)
  {}

  /** The exponent of a zero may be 308 and no more, although the value is zero. */
  lemma ExponentLimit(inp: Input, n: nat)
    requires inp.text == "0e" + Decimal(n)
    ensures NumberAt(inp, 0) ==
            if n <= 308 && !inp.overflows(inp.text) then Got(|inp.text|, Double(inp.text)) else Bad(NumberTooBig, 0)
  {
    var t, q := inp.text, |inp.text|;
    assert t[2..q] == Decimal(n) && t[..q] == t;
    DigitsOfNumeral(t, 2, Decimal(n));
    DigitsEndIs(t, 2, q);
    DecimalValue(t, 2, n);
    hide Decimal, DigitsValue;
  }

  // ---------- the digits of a fraction that count ----------

  function LeadingZeros(t: string, p: nat, q: nat): (z: nat)
    requires p <= q <= |t|
    ensures z <= q - p
    decreases q - p
  {
    if p < q && t[p] == '0' then 1 + LeadingZeros(t, p + 1, q) else 0
  }

  function Minimum(a: nat, b: int): int {
    if a <= b then a else b
  }

  lemma FastDigits(v: nat, significant: nat)
    requires v <= FAST_PATH_MAX && (significant == 0 || v == 0 || Pow10(significant - 1) <= v)
    ensures v == 0 || significant <= 16
  {
    assert Pow10(8) == 100_000_000;
    assert Pow10(16) == 10_000_000_000_000_000;
    if 16 < significant { Pow10Monotone(16, significant - 1); }
  }

  lemma {:induction false} ScaleIs(t: string, p: nat, q: nat, v: nat, significant: nat)
    requires p <= q <= |t| && forall i | p <= i < q :: IsDigit(t[i])
    requires if v == 0 then significant == 0 else significant == 0 || Pow10(significant - 1) <= v
    ensures FractionScale(t, p, q, v, significant) ==
            Minimum(q - p, (if v == 0 then LeadingZeros(t, p, q) else 0) + if significant >= 17 then 0 else 17 - significant)
    decreases q - p
  {
    if p < q && v <= FAST_PATH_MAX {
      FastDigits(v, significant);
      var v' := v * 10 + DigitOf(t[p]);
      ScaleIs(t, p + 1, q, v', if v' != 0 then significant + 1 else significant);
    }
  }

  /** The fraction digits that scale the significand: the first 17 that are significant behind a zero,
      and as many as make 18 together with the digits of any other integer. */
  lemma FractionDigits(t: string, from: nat, p: nat, minus: bool)
    requires from < p <= |t| && IsDigit(t[from]) && IntegerEnd(t, from) == p
    requires Peek(t, p) == '.' && IsDigit(Peek(t, p + 1))
    ensures var q, n := DigitsEnd(t, p + 1), DigitsValue(t, from, p);
            FractionAt(t, from, p, minus, n) ==
            Scale(q, if n == 0 then Minimum(q - p - 1, LeadingZeros(t, p + 1, q) + 17)
                     else if p - from <= 18 then Minimum(q - p - 1, 18 - (p - from)) else 0, true)
  {
    var q, n := DigitsEnd(t, p + 1), DigitsValue(t, from, p);
    if t[from] == '0' {
      assert DigitsValue(t, from, from) == 0;
    } else {
      DigitsAtLeastPow(t, from, p);
      if 1 < p - from { Pow10Monotone(p - from - 2, p - from - 1); }
      Pow10Monotone(0, p - from - 1);
      if p - from <= 18 {
        DigitsBelowPow(t, from, p);
        Pow10Monotone(p - from, 18);
        assert Pow10(9) == 1_000_000_000;
        assert Pow10(18) == 1_000_000_000_000_000_000;
      }
    }
    if Fits64(minus, n) { ScaleIs(t, p + 1, q, n, p - from - 1); }
  }

  function Zeros(k: nat): (s: string)
    ensures |s| == k && forall c | c in s :: c == '0'
  {
    seq(k, _ => '0')
  }

  /** "0.", then k zeros, then the exponent 2147483648. */
  function LongFraction(k: nat): string {
    "0." + Zeros(k) + "e2147483648"
  }

  lemma {:induction false} ZeroScale(t: string, p: nat, q: nat)
    requires p <= q <= |t| && forall i | p <= i < q :: t[i] == '0'
    ensures FractionScale(t, p, q, 0, 0) == q - p
    decreases q - p
  {
    if p < q { ZeroScale(t, p + 1, q); }
  }

  /** Beyond 214748055 zeros the nine-digit prefix of the exponent is not refused yet, and the
      tenth digit takes the collected exponent out of 32 bits. */
  lemma LongerFractionOverflows(k: nat)
    requires 214_748_055 < k
    ensures var t := LongFraction(k);
            && FractionAt(t, 0, 1, false, 0) == Scale(k + 2, k, true)
            && DigitsValue(t, k + 3, k + 12) <= 308 + k
            && DigitsEnd(t, k + 3) == k + 13
            && DigitsValue(t, k + 3, k + 13) == 0x8000_0000
  {
    var t := LongFraction(k);
    assert forall i | 2 <= i < k + 2 :: t[i] == '0' by {
      assert forall i | 2 <= i < k + 2 :: t[i] == Zeros(k)[i - 2];
    }
    assert t[0] == '0' && t[1] == '.' && t[k + 2] == 'e';
    DigitsEndIs(t, 2, k + 2);
    ZeroScale(t, 2, k + 2);
    assert t[k + 3..] == "2147483648";
    ExponentDigits(t, k + 3);
  }

  lemma ExponentDigits(t: string, p: nat)
    requires p <= |t| && t[p..] == "2147483648"
    ensures DigitsEnd(t, p) == p + 10
    ensures DigitsValue(t, p, p + 9) == 214_748_364 && DigitsValue(t, p, p + 10) == 0x8000_0000
  {
    var word := "2147483648";
    assert forall i | p <= i < p + 10 :: t[i] == word[i - p];
    DigitsEndIs(t, p, p + 10);
    assert t[p] == '2' && t[p + 1] == '1' && t[p + 2] == '4' && t[p + 3] == '7' && t[p + 4] == '4';
    assert t[p + 5] == '8' && t[p + 6] == '3' && t[p + 7] == '6' && t[p + 8] == '4' && t[p + 9] == '8';
    assert DigitsValue(t, p, p) == 0;
    assert DigitsValue(t, p, p + 1) == 2;
    assert DigitsValue(t, p, p + 2) == 21;
    assert DigitsValue(t, p, p + 3) == 214;
    assert DigitsValue(t, p, p + 4) == 2147;
    assert DigitsValue(t, p, p + 5) == 21474;
    assert DigitsValue(t, p, p + 6) == 214748;
    assert DigitsValue(t, p, p + 7) == 2147483;
    assert DigitsValue(t, p, p + 8) == 21474836;
    assert DigitsValue(t, p, p + 9) == 214748364;
  }
}
