/** When the index of a token is the number its name denotes. */
module PointerIndexes {
  import opened JsonText
  import opened JsonPointer
  import opened Decimals
  import JsonScalars
  import JsonNumbers

  function ValueOf(name: string): nat {
    DigitsValue(name, 0, |name|)
  }

  lemma {:induction false} IndexValue(name: string, j: nat)
    requires j <= |name| && ValueOf(name) < SIZE_LIMIT
    ensures DigitsValue(name, 0, j) < SIZE_LIMIT
    ensures IndexFrom(name, j, DigitsValue(name, 0, j)) == ValueOf(name)
    decreases |name| - j
  {
    JsonScalars.DigitsMonotone(name, 0, j, |name|);
    if j < |name| { IndexValue(name, j + 1); }
  }

  /** The conversion computes modulo 2^32, unless it notices that it has wrapped. */
  lemma {:induction false} IndexResidue(name: string, j: nat)
    requires j <= |name|
    ensures Wrap(DigitsValue(name, 0, j)) < SIZE_LIMIT
    ensures var r := IndexFrom(name, j, Wrap(DigitsValue(name, 0, j)));
            r == INVALID_INDEX || r == Wrap(ValueOf(name))
    decreases |name| - j
  {
    if j < |name| {
      WrapStep(DigitsValue(name, 0, j), DigitOf(name[j]));
      IndexResidue(name, j + 1);
    }
  }

  lemma WrapStep(n: nat, d: nat)
    ensures Wrap(10 * Wrap(n) + d) == Wrap(10 * n + d)
  {
    assert 10 * n + d == 10 * Wrap(n) + d + SIZE_LIMIT * (10 * (n / SIZE_LIMIT));
  }

  /** A numeral has a valid index that is the number it denotes exactly when that number lies below
      2^32 - 1, which it does with at most nine digits; 2^32 - 1 itself stands for no index. A larger one is refused or taken modulo 2^32; with ten digits it is
      refused exactly when the residue lies below the number of the first nine. */
  lemma NumeralIndex(name: string)
    requires IsNumeral(name)
    ensures IndexOf(name) != INVALID_INDEX && IndexOf(name) == ValueOf(name) <==> ValueOf(name) < SIZE_LIMIT - 1
    ensures ValueOf(name) == SIZE_LIMIT - 1 ==> IndexOf(name) == INVALID_INDEX
    ensures |name| <= 9 ==> ValueOf(name) < SIZE_LIMIT - 1
    ensures IndexOf(name) == INVALID_INDEX || IndexOf(name) == Wrap(ValueOf(name))
    ensures |name| == 10 ==> IndexOf(name) == if Wrap(ValueOf(name)) < ValueOf(name) / 10 then INVALID_INDEX else Wrap(ValueOf(name))
  {
    assert DigitsValue(name, 0, 0) == 0;
    IndexResidue(name, 0);
    if ValueOf(name) < SIZE_LIMIT { IndexValue(name, 0); }
    JsonScalars.DigitsBelowPow(name, 0, |name|);
    assert JsonScalars.Pow10(9) == 1_000_000_000;
    if |name| <= 9 { JsonScalars.Pow10Monotone(|name|, 9); }
    if |name| == 10 { TenDigits(name); }
  }

  lemma TenDigits(name: string)
    requires |name| == 10
    ensures IndexFrom(name, 0, 0) == if Wrap(ValueOf(name)) < ValueOf(name) / 10 then INVALID_INDEX else Wrap(ValueOf(name))
  {
    NineDigits(name, 0);
    assert IndexFrom(name, 10, Wrap(ValueOf(name))) == Wrap(ValueOf(name));
  }

  /** The first nine digits are converted exactly. */
  lemma {:induction false} NineDigits(name: string, j: nat)
    requires j <= 9 <= |name|
    ensures DigitsValue(name, 0, j) <= DigitsValue(name, 0, 9) < 1_000_000_000
    ensures IndexFrom(name, j, DigitsValue(name, 0, j)) == IndexFrom(name, 9, DigitsValue(name, 0, 9))
    decreases 9 - j
  {
    JsonScalars.DigitsBelowPow(name, 0, 9);
    assert JsonScalars.Pow10(9) == 1_000_000_000;
    JsonScalars.DigitsMonotone(name, 0, j, 9);
    if j < 9 { NineDigits(name, j + 1); }
  }

  /** A number that does not fit but is not noticed: 5000000000 becomes the index 705032704. */
  lemma UnnoticedOverflow()
    ensures IsNumeral("5000000000") && ValueOf("5000000000") == 5_000_000_000
    ensures IndexOf("5000000000") == 705_032_704
  {
    Numeral();
    ValueOfDecimal(5_000_000_000);
    hide Decimal, ValueOf, IndexOf, IndexFrom;
    NumeralIndex(Decimal(5_000_000_000));
  }

  lemma ValueOfDecimal(n: nat)
    ensures IsNumeral(Decimal(n)) && ValueOf(Decimal(n)) == n
  {
    JsonNumbers.DecimalValue(Decimal(n), 0, n);
  }

  lemma Numeral()
    ensures Decimal(5_000_000_000) == "5000000000"
  {
    assert Decimal(5) == "5";
    assert Decimal(50) == "50";
    assert Decimal(500) == "500";
    assert Decimal(5_000) == "5000";
    assert Decimal(50_000) == "50000";
    assert Decimal(500_000) == "500000";
    assert Decimal(5_000_000) == "5000000";
    assert Decimal(50_000_000) == "50000000";
    assert Decimal(500_000_000) == "500000000";
  }

  /** The numeral of a 32-bit number is read back as that number, the largest of which is no valid index. */
  lemma DecimalIndex(n: nat)
    requires n < SIZE_LIMIT
    ensures IndexOf(Decimal(n)) == n
    ensures IndexOf(Decimal(n)) != INVALID_INDEX <==> n < SIZE_LIMIT - 1
  {
    ValueOfDecimal(n);
    NumeralIndex(Decimal(n));
  }
}
