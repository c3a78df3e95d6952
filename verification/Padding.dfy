/** Numbers printed with leading zeros (`{:0>width$}`). */
module Padding {
  import opened Text

  function Zeros(n: nat): string {
    if n == 0 then "" else ['0'] + Zeros(n - 1)
  }

  /** Leading zeros when `n` is printed at `width`. */
  function ZeroPadded(n: nat, width: nat): nat {
    if width > |Decimal(n)| then width - |Decimal(n)| else 0
  }

  /** `format!("{:0>width$}", n)`. */
  function Pad(n: nat, width: nat): string {
    Zeros(ZeroPadded(n, width)) + Decimal(n)
  }

  lemma {:induction false} DigitsGrow(m: nat, n: nat)
    requires m <= n
    ensures |Decimal(m)| <= |Decimal(n)|
  {
    if m >= 10 {
      DigitsGrow(m / 10, n / 10);
    }
  }

  lemma {:induction false} ZerosAreDigits(n: nat)
    ensures AllDigits(Zeros(n)) && |Zeros(n)| == n
  {
    if n > 0 {
      ZerosAreDigits(n - 1);
    }
  }

  lemma PadIsDigits(n: nat, width: nat)
    ensures AllDigits(Pad(n, width)) && Pad(n, width) != []
    ensures ']' !in Pad(n, width) && '-' !in Pad(n, width) && ',' !in Pad(n, width) && '[' !in Pad(n, width)
  {
    ZerosAreDigits(ZeroPadded(n, width));
    forall c | c in Pad(n, width) ensures IsDigit(c) {}
  }

  lemma {:induction false} NumeralOfZeros(n: nat, digits: string)
    requires AllDigits(digits)
    ensures AllDigits(Zeros(n) + digits) && Numeral(Zeros(n) + digits) == Numeral(digits)
  {
    ZerosAreDigits(n);
    if n == 0 {
      assert Zeros(n) + digits == digits;
    } else {
      NumeralOfZeros(n - 1, digits);
      assert (Zeros(n) + digits)[1..] == Zeros(n - 1) + digits;
      assert DigitValue('0') == 0;
    }
  }

  lemma NumeralOfPad(n: nat, width: nat)
    ensures AllDigits(Pad(n, width)) && Numeral(Pad(n, width)) == n
  {
    NumeralOfZeros(ZeroPadded(n, width), Decimal(n));
    NumeralDecimal(n);
  }

  lemma PadLength(n: nat, width: nat)
    ensures |Pad(n, width)| == if width > |Decimal(n)| then width else |Decimal(n)|
  {
    ZerosAreDigits(ZeroPadded(n, width));
  }

  lemma {:induction false} ZerosSnoc(n: nat)
    ensures Zeros(n) + ['0'] == ['0'] + Zeros(n)
  {
    if n > 0 {
      ZerosSnoc(n - 1);
      assert Zeros(n) + ['0'] == ['0'] + (Zeros(n - 1) + ['0']);
    }
  }

  /** Digits are recovered from their value and their number. */
  lemma {:induction false} PadOfNumeral(digits: string)
    requires AllDigits(digits) && digits != []
    ensures Pad(Numeral(digits), |digits|) == digits
  {
    var n := |digits| - 1;
    var init, last := digits[..n], digits[n];
    assert digits == init + [last];
    if init == [] {
      assert digits == [last];
      assert NumeralFrom(0, digits) == NumeralFrom(DigitValue(last), digits[1..]);
      assert Decimal(DigitValue(last)) == [last];
    } else {
      PadOfNumeral(init);
      NumeralFromSnoc(0, init, last);
      var v, d := Numeral(init), DigitValue(last);
      assert (v * 10 + d) / 10 == v && (v * 10 + d) % 10 == d;
      PadSnoc(v, d, n);
    }
  }

  /** Appending a digit to a padded number. */
  lemma PadSnoc(v: nat, d: nat, width: nat)
    requires d < 10 && width >= |Decimal(v)|
    ensures Pad(v * 10 + d, width + 1) == Pad(v, width) + [('0' as int + d) as char]
  {
    var c := ('0' as int + d) as char;
    assert (v * 10 + d) / 10 == v && (v * 10 + d) % 10 == d;
    if v > 0 {
      assert Decimal(v * 10 + d) == Decimal(v) + [c];
      assert Zeros(width - |Decimal(v)|) + (Decimal(v) + [c]) == Zeros(width - |Decimal(v)|) + Decimal(v) + [c];
    } else {
      assert Decimal(d) == [c] && Decimal(0) == ['0'];
      ZerosSnoc(width - 1);
      assert Zeros(width) == ['0'] + Zeros(width - 1);
    }
  }
}
