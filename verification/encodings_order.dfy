/** The encodings keep the order of code points, which leaves no other way to assign the characters. */
module EncodingsOrder {
  import opened Encodings

  /** Lexicographic order. */
  predicate Less(a: seq<int>, b: seq<int>) {
    b != [] && (a == [] || a[0] < b[0] || (a[0] == b[0] && Less(a[1..], b[1..])))
  }

  lemma Less1(a: int, b: int)
    ensures Less([a], [b]) <==> a < b
  {}

  lemma Less2(a0: int, a1: int, b0: int, b1: int)
    ensures Less([a0, a1], [b0, b1]) <==> a0 < b0 || (a0 == b0 && a1 < b1)
  {
    assert [a0, a1][1..] == [a1] && [b0, b1][1..] == [b1];
    Less1(a1, b1);
  }

  lemma Less3(a0: int, a1: int, a2: int, b0: int, b1: int, b2: int)
    ensures Less([a0, a1, a2], [b0, b1, b2]) <==> a0 < b0 || (a0 == b0 && (a1 < b1 || (a1 == b1 && a2 < b2)))
  {
    assert [a0, a1, a2][1..] == [a1, a2] && [b0, b1, b2][1..] == [b1, b2];
    Less2(a1, a2, b1, b2);
  }

  lemma Less4(a0: int, a1: int, a2: int, a3: int, b0: int, b1: int, b2: int, b3: int)
    ensures Less([a0, a1, a2, a3], [b0, b1, b2, b3]) <==>
            a0 < b0 || (a0 == b0 && (a1 < b1 || (a1 == b1 && (a2 < b2 || (a2 == b2 && a3 < b3)))))
  {
    assert [a0, a1, a2, a3][1..] == [a1, a2, a3] && [b0, b1, b2, b3][1..] == [b1, b2, b3];
    Less3(a1, a2, a3, b1, b2, b3);
  }

  /** The order of two numbers is that of their quotients and then of their remainders. */
  lemma Digits(m: nat, n: nat)
    ensures m < n <==> m / 0x40 < n / 0x40 || (m / 0x40 == n / 0x40 && m % 0x40 < n % 0x40)
  {}

  /** The UTF-8 texts of two code points are in the order of the code points. */
  lemma OrderKept8(m: nat, n: nat)
    requires IsScalarValue(m) && IsScalarValue(n)
    ensures Less(Utf8(m), Utf8(n)) <==> m < n
  {
    Digits(m, n);
    Digits(m / 0x40, n / 0x40);
    Digits(m / 0x1000, n / 0x1000);
    ShiftTwice(m);
    ShiftTwice(n);
    var a, b := Utf8(m), Utf8(n);
    if |a| == |b| {
      SameLength8(m, n);
    } else {
      LeadingByte(m);
      LeadingByte(n);
    }
  }

  lemma SameLength8(m: nat, n: nat)
    requires IsScalarValue(m) && IsScalarValue(n) && |Utf8(m)| == |Utf8(n)|
    requires m < n <==> m / 0x40 < n / 0x40 || (m / 0x40 == n / 0x40 && m % 0x40 < n % 0x40)
    requires m / 0x40 < n / 0x40 <==>
             m / 0x1000 < n / 0x1000 || (m / 0x1000 == n / 0x1000 && m / 0x40 % 0x40 < n / 0x40 % 0x40)
    requires m / 0x1000 < n / 0x1000 <==>
             m / 0x4_0000 < n / 0x4_0000 || (m / 0x4_0000 == n / 0x4_0000 && m / 0x1000 % 0x40 < n / 0x1000 % 0x40)
    requires m / 0x40 == n / 0x40 <==> m / 0x1000 == n / 0x1000 && m / 0x40 % 0x40 == n / 0x40 % 0x40
    requires m / 0x1000 == n / 0x1000 <==> m / 0x4_0000 == n / 0x4_0000 && m / 0x1000 % 0x40 == n / 0x1000 % 0x40
    ensures Less(Utf8(m), Utf8(n)) <==> m < n
  {
    hide Less;
    var a, b := Utf8(m), Utf8(n);
    if |a| == 1 { Less1(a[0], b[0]); }
    else if |a| == 2 { Less2(a[0], a[1], b[0], b[1]); }
    else if |a| == 3 { Less3(a[0], a[1], a[2], b[0], b[1], b[2]); }
    else { Less4(a[0], a[1], a[2], a[3], b[0], b[1], b[2], b[3]); }
  }

  /** The leading byte of a longer text is greater. */
  lemma LeadingByte(m: nat)
    requires IsScalarValue(m)
    ensures var a := Utf8(m);
            match |a|
            case 1 => m <= 0x7F && a[0] <= 0x7F
            case 2 => 0x7F < m <= 0x7FF && 0xC0 <= a[0] < 0xE0
            case 3 => 0x7FF < m <= 0xFFFF && 0xE0 <= a[0] < 0xF0
            case _ => 0xFFFF < m && 0xF0 <= a[0]
  {}

  /** One unit stands for itself, and pairs are in the order of their code points. */
  lemma OrderKept16(m: nat, n: nat)
    requires IsScalarValue(m) && IsScalarValue(n)
    ensures |Utf16(m)| == 1 <==> m <= 0xFFFF
    ensures m <= 0xFFFF ==> Utf16(m) == [m]
    ensures 0xFFFF < m && 0xFFFF < n ==> (Less(Utf16(m), Utf16(n)) <==> m < n)
  {
    hide Less;
    if 0xFFFF < m && 0xFFFF < n {
      var a, b := Utf16(m), Utf16(n);
      Less2(a[0], a[1], b[0], b[1]);
    }
  }
}
