/** Natural string comparison (`spur_core::hostlist::natural_cmp`): digit runs compare by
    value. Strings are compared byte by byte in the original; for UTF-8 that is the order of
    the characters. */
module NaturalOrder {
  import opened Text
  import opened Padding

  datatype Ordering = Less | Equal | Greater {
    function Then(next: Ordering): Ordering {
      if Equal? then next else this
    }

    function Reversed(): Ordering {
      match this case Less => Greater case Equal => Equal case Greater => Less
    }
  }

  function Compare(a: int, b: int): Ordering {
    if a < b then Less else if a == b then Equal else Greater
  }

  /** Dictionary order, a proper prefix first. */
  function Dictionary(a: seq<int>, b: seq<int>): Ordering {
    if a == [] || b == [] then Compare(|a|, |b|)
    else Compare(a[0], b[0]).Then(Dictionary(a[1..], b[1..]))
  }

  function Codes(s: string): (codes: seq<int>)
    ensures |codes| == |s| && forall k :: 0 <= k < |s| ==> codes[k] == s[k] as int
  {
    seq(|s|, k requires 0 <= k < |s| => s[k] as int)
  }

  // ----- the comparison

  /** The digits at the start of `s`. */
  function Run(s: string): (n: nat)
    ensures n <= |s| && AllDigits(s[..n]) && (n < |s| ==> !IsDigit(s[n]))
    ensures s != [] && IsDigit(s[0]) ==> n > 0
  {
    if s == [] || !IsDigit(s[0]) then 0
    else
      var n := 1 + Run(s[1..]);
      assert s[..n] == [s[0]] + s[1..][..n - 1];
      n
  }

  /** `trim_leading_zeros`: the last digit always stays. */
  function TrimZeros(run: string): (kept: string)
    ensures |kept| <= |run|
  {
    if |run| > 1 && run[0] == '0' then TrimZeros(run[1..]) else run
  }

  function CompareRuns(a: string, b: string): Ordering {
    var x, y := TrimZeros(a), TrimZeros(b);
    Compare(|x|, |y|).Then(Dictionary(Codes(x), Codes(y))).Then(Compare(|a|, |b|))
  }

  /** `natural_cmp` from the remaining characters. */
  function NaturalCmp(a: string, b: string): Ordering
    decreases |a|
  {
    if a == [] || b == [] then Compare(|a|, |b|)
    else if IsDigit(a[0]) && IsDigit(b[0]) then
      CompareRuns(a[..Run(a)], b[..Run(b)]).Then(NaturalCmp(a[Run(a)..], b[Run(b)..]))
    else Compare(a[0] as int, b[0] as int).Then(NaturalCmp(a[1..], b[1..]))
  }

  // ----- digit runs compare by value

  lemma CompareDigits(v: nat, d: nat, w: nat, e: nat)
    requires d < 10 && e < 10
    ensures Compare(v * 10 + d, w * 10 + e) == Compare(v, w).Then(Compare(d, e))
  {}

  lemma {:induction false} SameLengthByValue(x: string, y: string)
    requires |x| == |y| && AllDigits(x) && AllDigits(y)
    ensures Dictionary(Codes(x), Codes(y)) == Compare(Numeral(x), Numeral(y))
  {
    if x != [] {
      var n := |x| - 1;
      SameLengthByValue(x[..n], y[..n]);
      assert x == x[..n] + [x[n]] && y == y[..n] + [y[n]];
      NumeralFromSnoc(0, x[..n], x[n]);
      NumeralFromSnoc(0, y[..n], y[n]);
      CompareDigits(Numeral(x[..n]), DigitValue(x[n]), Numeral(y[..n]), DigitValue(y[n]));
      assert Codes(x) == Codes(x[..n]) + [x[n] as int] && Codes(y) == Codes(y[..n]) + [y[n] as int];
      DictionaryOfEqualLengths(Codes(x[..n]), Codes(y[..n]), [x[n] as int], [y[n] as int]);
    }
  }

  lemma {:induction false} DecimalStart(n: nat)
    ensures Decimal(n)[0] == '0' ==> |Decimal(n)| == 1
  {
    if n >= 10 {
      DecimalStart(n / 10);
      assert n / 10 > 0;
      if n / 10 < 10 {
        assert Decimal(n / 10)[0] != '0';
      }
    }
  }

  lemma {:induction false} TrimPadding(zeros: nat, n: nat)
    ensures TrimZeros(Zeros(zeros) + Decimal(n)) == Decimal(n)
  {
    DecimalStart(n);
    if zeros == 0 {
      assert Zeros(0) + Decimal(n) == Decimal(n);
    } else {
      TrimPadding(zeros - 1, n);
      assert (Zeros(zeros) + Decimal(n))[1..] == Zeros(zeros - 1) + Decimal(n);
    }
  }

  lemma TrimmedIsDecimal(run: string)
    requires run != [] && AllDigits(run)
    ensures TrimZeros(run) == Decimal(Numeral(run))
  {
    PadOfNumeral(run);
    TrimPadding(ZeroPadded(Numeral(run), |run|), Numeral(run));
  }

  /** Runs compare by value, and runs of one value by length. */
  lemma RunsCompareByValue(a: string, b: string)
    requires a != [] && AllDigits(a) && b != [] && AllDigits(b)
    ensures CompareRuns(a, b) == Compare(Numeral(a), Numeral(b)).Then(Compare(|a|, |b|))
  {
    var m, n := Numeral(a), Numeral(b);
    TrimmedIsDecimal(a);
    TrimmedIsDecimal(b);
    if |Decimal(m)| == |Decimal(n)| {
      SameLengthByValue(Decimal(m), Decimal(n));
      NumeralDecimal(m);
      NumeralDecimal(n);
    } else if m <= n {
      DigitsGrow(m, n);
    } else {
      DigitsGrow(n, m);
    }
  }

  // ----- the order it stands for

  /** A digit run sorts as a `0` would among other characters; among runs, by the number of
      significant digits, then by those digits, then by the number of digits. */
  function RunKey(run: string): seq<int> {
    ['0' as int, |TrimZeros(run)|] + Codes(TrimZeros(run)) + [|run|]
  }

  function Key(s: string): seq<int> {
    if s == [] then []
    else if IsDigit(s[0]) then RunKey(s[..Run(s)]) + Key(s[Run(s)..])
    else [s[0] as int] + Key(s[1..])
  }

  lemma {:induction false} DictionaryOfEqualLengths(p: seq<int>, q: seq<int>, a: seq<int>, b: seq<int>)
    requires |p| == |q|
    ensures Dictionary(p + a, q + b) == Dictionary(p, q).Then(Dictionary(a, b))
  {
    if p == [] {
      assert p + a == a && q + b == b;
    } else {
      DictionaryOfEqualLengths(p[1..], q[1..], a, b);
      assert (p + a)[1..] == p[1..] + a && (q + b)[1..] == q[1..] + b;
    }
  }

  lemma DictionaryCons(x: int, a: seq<int>, y: int, b: seq<int>)
    ensures Dictionary([x] + a, [y] + b) == Compare(x, y).Then(Dictionary(a, b))
  {
    assert ([x] + a)[1..] == a && ([y] + b)[1..] == b;
  }

  /** Codes of equal length, then a number each, then anything. */
  lemma DictionaryOfTails(x: seq<int>, m: int, a: seq<int>, y: seq<int>, n: int, b: seq<int>)
    requires |x| == |y|
    ensures Dictionary(x + [m] + a, y + [n] + b) == Dictionary(x, y).Then(Compare(m, n)).Then(Dictionary(a, b))
  {
    assert x + [m] + a == x + ([m] + a) && y + [n] + b == y + ([n] + b);
    DictionaryOfEqualLengths(x, y, [m] + a, [n] + b);
    DictionaryCons(m, a, n, b);
  }

  lemma RunKeyTail(run: string, rest: seq<int>)
    ensures RunKey(run) + rest == ['0' as int] + ([|TrimZeros(run)|] + (Codes(TrimZeros(run)) + [|run|] + rest))
  {}

  lemma DictionaryOfRunKeys(r: string, a: seq<int>, s: string, b: seq<int>)
    ensures Dictionary(RunKey(r) + a, RunKey(s) + b) == CompareRuns(r, s).Then(Dictionary(a, b))
  {
    var x, y := TrimZeros(r), TrimZeros(s);
    var zero := '0' as int;
    var tailA, tailB := Codes(x) + [|r|] + a, Codes(y) + [|s|] + b;
    RunKeyTail(r, a);
    RunKeyTail(s, b);
    DictionaryCons(zero, [|x|] + tailA, zero, [|y|] + tailB);
    DictionaryCons(|x|, tailA, |y|, tailB);
    if |x| == |y| {
      DictionaryOfTails(Codes(x), |r|, a, Codes(y), |s|, b);
    }
  }

  lemma KeyStart(s: string)
    requires s != []
    ensures Key(s) != [] && Key(s)[0] == if IsDigit(s[0]) then '0' as int else s[0] as int
  {}

  /** Natural comparison is dictionary order of the keys. */
  lemma {:induction false} NaturalIsDictionary(a: string, b: string)
    ensures NaturalCmp(a, b) == Dictionary(Key(a), Key(b))
    decreases |a|
  {
    if a == [] || b == [] {
      if a != [] { KeyStart(a); }
      if b != [] { KeyStart(b); }
    } else if IsDigit(a[0]) && IsDigit(b[0]) {
      NaturalIsDictionary(a[Run(a)..], b[Run(b)..]);
      DictionaryOfRunKeys(a[..Run(a)], Key(a[Run(a)..]), b[..Run(b)], Key(b[Run(b)..]));
    } else if a[0] == b[0] {
      NaturalIsDictionary(a[1..], b[1..]);
      DictionaryCons(a[0] as int, Key(a[1..]), b[0] as int, Key(b[1..]));
    } else {
      KeyStart(a);
      KeyStart(b);
    }
  }

  lemma {:induction false} DictionaryReversed(a: seq<int>, b: seq<int>)
    ensures Dictionary(b, a) == Dictionary(a, b).Reversed()
  {
    if a != [] && b != [] {
      DictionaryReversed(a[1..], b[1..]);
    }
  }

  lemma {:induction false} DictionaryEqual(a: seq<int>, b: seq<int>)
    ensures Dictionary(a, b) == Equal <==> a == b
  {
    if a != [] && b != [] {
      DictionaryEqual(a[1..], b[1..]);
      assert a == [a[0]] + a[1..] && b == [b[0]] + b[1..];
    }
  }

  lemma {:induction false} DictionaryTransitive(a: seq<int>, b: seq<int>, c: seq<int>)
    requires Dictionary(a, b) == Less && Dictionary(b, c) == Less
    ensures Dictionary(a, c) == Less
  {
    if a != [] && b != [] && c != [] && a[0] == b[0] == c[0] {
      DictionaryTransitive(a[1..], b[1..], c[1..]);
    }
  }

  // ----- equal only when the same

  lemma {:induction false} TrimmedRun(a: string, b: string)
    requires |a| == |b| && TrimZeros(a) == TrimZeros(b)
    ensures a == b
    decreases |a|
  {
    if |a| > 1 && a[0] == '0' {
      TrimmedRunLength(b);
      TrimmedRunLength(a);
      if b[0] == '0' {
        TrimmedRun(a[1..], b[1..]);
        assert a == ['0'] + a[1..] && b == ['0'] + b[1..];
      }
    } else {
      TrimmedRunLength(b);
    }
  }

  lemma {:induction false} TrimmedRunLength(run: string)
    ensures |run| > 1 && run[0] == '0' <==> |TrimZeros(run)| < |run|
  {}

  lemma EqualRuns(a: string, b: string)
    requires CompareRuns(a, b) == Equal
    ensures a == b
  {
    var x, y := TrimZeros(a), TrimZeros(b);
    DictionaryEqual(Codes(x), Codes(y));
    forall k | 0 <= k < |x| ensures x[k] == y[k] {
      assert Codes(x)[k] == Codes(y)[k];
    }
    TrimmedRun(a, b);
  }

  lemma {:induction false} NaturalEqual(a: string, b: string)
    ensures NaturalCmp(a, b) == Equal <==> a == b
    decreases |a|
  {
    if a == b {
      NaturalIsDictionary(a, b);
      DictionaryEqual(Key(a), Key(b));
    }
    if NaturalCmp(a, b) == Equal && a != [] && b != [] {
      if IsDigit(a[0]) && IsDigit(b[0]) {
        EqualRuns(a[..Run(a)], b[..Run(b)]);
        NaturalEqual(a[Run(a)..], b[Run(b)..]);
        assert a == a[..Run(a)] + a[Run(a)..] && b == b[..Run(b)] + b[Run(b)..];
      } else {
        NaturalEqual(a[1..], b[1..]);
        assert a == [a[0]] + a[1..] && b == [b[0]] + b[1..];
      }
    }
  }

  // ----- a total order

  predicate NaturalLess(a: string, b: string) {
    NaturalCmp(a, b) == Less
  }

  /** `natural_cmp` is a total order on strings. */
  lemma NaturalOrderIsTotal(a: string, b: string)
    ensures NaturalCmp(b, a) == NaturalCmp(a, b).Reversed()
    ensures NaturalCmp(a, b) == Equal <==> a == b
  {
    NaturalIsDictionary(a, b);
    NaturalIsDictionary(b, a);
    DictionaryReversed(Key(a), Key(b));
    NaturalEqual(a, b);
  }

  lemma NaturalOrderIsTransitive(a: string, b: string, c: string)
    requires NaturalLess(a, b) && NaturalLess(b, c)
    ensures NaturalLess(a, c)
  {
    NaturalIsDictionary(a, b);
    NaturalIsDictionary(b, c);
    NaturalIsDictionary(a, c);
    DictionaryTransitive(Key(a), Key(b), Key(c));
  }

  /** How the order is decided at the front of two strings: nothing sorts before something, other
      characters by their code, and numbers by value, then by their leading zeros. */
  lemma NaturalAtFront(a: string, b: string)
    ensures a == [] && b != [] ==> NaturalLess(a, b)
    ensures a != [] && b != [] && !(IsDigit(a[0]) && IsDigit(b[0])) ==>
              (a[0] < b[0] ==> NaturalLess(a, b)) && (a[0] == b[0] ==> NaturalCmp(a, b) == NaturalCmp(a[1..], b[1..]))
    ensures a != [] && b != [] && IsDigit(a[0]) && IsDigit(b[0]) ==>
              var r, s := a[..Run(a)], b[..Run(b)];
              && (Numeral(r) < Numeral(s) ==> NaturalLess(a, b))
              && (Numeral(r) == Numeral(s) && |r| < |s| ==> NaturalLess(a, b))
              && (r == s ==> NaturalCmp(a, b) == NaturalCmp(a[Run(a)..], b[Run(b)..]))
  {
    if a != [] && b != [] && IsDigit(a[0]) && IsDigit(b[0]) {
      RunsCompareByValue(a[..Run(a)], b[..Run(b)]);
    }
  }

  // ----- as loops

  method CountDigits(s: string, start: nat) returns (end: nat)
    requires start <= |s|
    ensures end == start + Run(s[start..])
  {
    end := start;
    while end < |s| && IsDigit(s[end])
      invariant start <= end <= |s|
      invariant end + Run(s[end..]) == start + Run(s[start..])
    {
      assert s[end..][1..] == s[end + 1..];
      end := end + 1;
    }
  }

  lemma RunStep(a: string, i: nat, m: nat, b: string, j: nat, n: nat)
    requires i < |a| && IsDigit(a[i]) && m == i + Run(a[i..])
    requires j < |b| && IsDigit(b[j]) && n == j + Run(b[j..])
    ensures i < m <= |a| && j < n <= |b|
    ensures NaturalCmp(a[i..], b[j..]) == CompareRuns(a[i..m], b[j..n]).Then(NaturalCmp(a[m..], b[n..]))
  {
    var s, t := a[i..], b[j..];
    assert s[..m - i] == a[i..m] && t[..n - j] == b[j..n];
    assert s[m - i..] == a[m..] && t[n - j..] == b[n..];
  }

  lemma CharStep(a: string, i: nat, b: string, j: nat)
    requires i < |a| && j < |b| && !(IsDigit(a[i]) && IsDigit(b[j]))
    ensures NaturalCmp(a[i..], b[j..]) == Compare(a[i] as int, b[j] as int).Then(NaturalCmp(a[i + 1..], b[j + 1..]))
  {
    assert a[i..][1..] == a[i + 1..] && b[j..][1..] == b[j + 1..];
  }

  method Natural(a: string, b: string) returns (ordering: Ordering)
    ensures ordering == NaturalCmp(a, b) == Dictionary(Key(a), Key(b))
  {
    NaturalIsDictionary(a, b);
    ghost var result := NaturalCmp(a, b);
    var i, j := 0, 0;
    assert a[0..] == a && b[0..] == b;
    while i < |a| && j < |b|
      invariant 0 <= i <= |a| && 0 <= j <= |b|
      invariant result == NaturalCmp(a[i..], b[j..])
      decreases |a| - i
    {
      if IsDigit(a[i]) && IsDigit(b[j]) {
        var startA, startB := i, j;
        i := CountDigits(a, startA);
        j := CountDigits(b, startB);
        RunStep(a, startA, i, b, startB, j);
        var order := CompareRuns(a[startA..i], b[startB..j]);
        if order != Equal {
          return order;
        }
      } else {
        CharStep(a, i, b, j);
        match Compare(a[i] as int, b[j] as int)
        case Equal => i, j := i + 1, j + 1;
        case order => return order;
      }
    }
    ordering := Compare(|a| - i, |b| - j);
  }
}
