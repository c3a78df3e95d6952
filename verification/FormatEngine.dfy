/** The Slurm-compatible format engine (`format_engine.rs`): the `%` grammar and its
    canonical printer. */
module FormatEngine {
  import opened Text

  datatype Field = Field(spec: char, width: nat, rightAlign: bool, truncate: Option<nat>, header: string)

  datatype Token = FieldToken(field: Field) | Literal(text: string)

  // ----- the grammar

  /** Two's-complement wrap of an `i32`, as an optimised build computes it. */
  function WrapI32(n: int): (r: int)
    ensures -0x8000_0000 <= r < 0x8000_0000
    ensures (n - r) % 0x1_0000_0000 == 0
    ensures -0x8000_0000 <= n < 0x8000_0000 ==> r == n
  {
    (n + 0x8000_0000) % 0x1_0000_0000 - 0x8000_0000
  }

  function Abs(n: int): nat {
    if n < 0 then -n else n
  }

  datatype Scan = Scan(width: int, any: bool, rest: string)

  function ReadDigits(s: string, width: int, any: bool): (r: Scan)
    ensures |r.rest| <= |s| && (r.rest != [] ==> !IsDigit(r.rest[0]))
    ensures -0x8000_0000 <= width < 0x8000_0000 ==> -0x8000_0000 <= r.width < 0x8000_0000
    decreases |s|
  {
    if s != [] && IsDigit(s[0]) then ReadDigits(s[1..], WrapI32(width * 10 + DigitValue(s[0])), true)
    else Scan(width, any, s)
  }

  predicate StartsWith(s: string, c: char) {
    s != [] && s[0] == c
  }

  /** Drops `c` from the front of `s` if it is there: `peek` and then `next`. */
  function Skip(s: string, c: char): (r: string)
    ensures |r| <= |s|
  {
    if StartsWith(s, c) then s[1..] else s
  }

  function MakeField(hash: bool, dot: bool, minus: bool, scan: Scan, header: char -> string): Field
    requires scan.rest != []
  {
    var width := if minus || hash then WrapI32(-scan.width) else scan.width;
    Field(scan.rest[0], Abs(width), !hash && width >= 0,
          if dot && scan.any then Some(Abs(width)) else None, header(scan.rest[0]))
  }

  datatype FieldRead = FieldRead(field: Field, rest: string)

  /** One specifier, `s` being what follows its `%`; None when the string ends inside it. */
  function ReadField(s: string, header: char -> string): (r: Option<FieldRead>)
    ensures r.Some? ==> |r.value.rest| < |s|
  {
    var s1 := Skip(s, '#');
    var s2 := Skip(s1, '.');
    var scan := ReadDigits(Skip(s2, '-'), 0, false);
    if scan.rest == [] then None
    else Some(FieldRead(MakeField(StartsWith(s, '#'), StartsWith(s1, '.'), StartsWith(s2, '-'), scan, header),
                        scan.rest[1..]))
  }

  function Flush(literal: string): seq<Token> {
    if literal == "" then [] else [Literal(literal)]
  }

  function ParseFrom(s: string, literal: string, header: char -> string): seq<Token>
    decreases |s|
  {
    if s == [] then Flush(literal)
    else if s[0] != '%' then ParseFrom(s[1..], literal + [s[0]], header)
    else if StartsWith(s[1..], '%') then ParseFrom(s[2..], literal + "%", header)
    else
      match ReadField(s[1..], header)
      case None => Flush(literal)
      case Some(read) => Flush(literal) + [FieldToken(read.field)] + ParseFrom(read.rest, "", header)
  }

  function Parse(fmt: string, header: char -> string): seq<Token> {
    ParseFrom(fmt, "", header)
  }

  /** The part of the parsing loop that reads one specifier. `chars` is the character
      iterator just after the `%`; `rest` is the iterator afterwards. */
  method ScanField(chars: string, header: char -> string) returns (field: Option<Field>, rest: string)
    ensures match ReadField(chars, header)
            case None => field == None
            case Some(read) => field == Some(read.field) && rest == read.rest
    ensures ReadAsWritten(chars, if field.Some? then Some(FieldRead(field.value, rest)) else None, header)
  {
    ScanMeans(chars, header);
    rest := chars;
    var hash := StartsWith(rest, '#');
    rest := Skip(rest, '#');
    var dot := StartsWith(rest, '.');
    rest := Skip(rest, '.');
    var minus := StartsWith(rest, '-');
    rest := Skip(rest, '-');

    var width, hasWidth := 0, false;
    ghost var scan := ReadDigits(rest, 0, false);
    while rest != [] && IsDigit(rest[0])
      invariant ReadDigits(rest, width, hasWidth) == scan
      decreases |rest|
    {
      width, hasWidth := WrapI32(width * 10 + DigitValue(rest[0])), true;
      rest := rest[1..];
    }
    if rest == [] {
      return None, rest;
    }
    if minus || hash {
      width := WrapI32(-width);
    }
    field := Some(Field(rest[0], Abs(width), !hash && width >= 0,
                        if dot && hasWidth then Some(Abs(width)) else None, header(rest[0])));
    rest := rest[1..];
  }

  lemma ParseFieldStep(tokens: seq<Token>, chars: string, literal: string, header: char -> string)
    requires StartsWith(chars, '%') && !StartsWith(chars[1..], '%')
    ensures match ReadField(chars[1..], header)
            case None => tokens + ParseFrom(chars, literal, header) == tokens + Flush(literal)
            case Some(read) =>
              tokens + ParseFrom(chars, literal, header)
              == tokens + Flush(literal) + [FieldToken(read.field)] + ParseFrom(read.rest, "", header)
  {}

  method ParseFormat(fmt: string, header: char -> string) returns (tokens: seq<Token>)
    ensures tokens == Parse(fmt, header) && Normal(tokens, header)
    ensures forall ts :: Normal(ts, header) && fmt == Print(ts) ==> tokens == ts
  {
    ParsesAsPrinted(fmt, header);
    tokens := [];
    var chars := fmt;
    var literal := "";
    while chars != []
      invariant tokens + ParseFrom(chars, literal, header) == Parse(fmt, header)
      decreases |chars|
    {
      var c := chars[0];
      if c != '%' {
        chars := chars[1..];
        literal := literal + [c];
      } else if StartsWith(chars[1..], '%') {
        chars := chars[2..];
        literal := literal + "%";
      } else {
        ParseFieldStep(tokens, chars, literal, header);
        tokens := tokens + Flush(literal);
        literal := "";
        var field, rest := ScanField(chars[1..], header);
        if field.None? {
          break;
        }
        tokens := tokens + [FieldToken(field.value)];
        chars := rest;
      }
    }
    tokens := tokens + Flush(literal);
  }

  // ----- which token lists are parses, and a canonical string for each

  /** What every parsed field satisfies: the specifier is not a digit, a truncation
      is to the width, and the width is the magnitude of an `i32` of that sign. */
  predicate NormalField(f: Field, header: char -> string) {
    && !IsDigit(f.spec) && f.header == header(f.spec)
    && (f.truncate.Some? ==> f.truncate.value == f.width)
    && f.width <= (if f.rightAlign then 0x7FFF_FFFF else 0x8000_0000)
  }

  predicate NormalToken(t: Token, header: char -> string) {
    match t
    case Literal(text) => text != ""
    case FieldToken(f) => NormalField(f, header)
  }

  /** Normal tokens, no two literals side by side. */
  predicate Normal(ts: seq<Token>, header: char -> string) {
    && (forall k :: 0 <= k < |ts| ==> NormalToken(ts[k], header))
    && (forall k :: 0 < k < |ts| ==> !(ts[k - 1].Literal? && ts[k].Literal?))
  }

  /** Without a width the flags `.-` mean nothing, but let any character follow as the specifier. */
  function PrintWidth(f: Field): string {
    if f.truncate.Some? then "." + Decimal(f.width) else if f.width > 0 then Decimal(f.width) else ".-"
  }

  // The printers put their text in front of `rest`.

  function PrintField(f: Field, rest: string): string {
    var body := PrintWidth(f) + ([f.spec] + rest);
    if f.rightAlign then body else ['#'] + body
  }

  function PrintLiteral(text: string, rest: string): string {
    if text == "" then rest
    else if text[0] == '%' then "%%" + PrintLiteral(text[1..], rest)
    else [text[0]] + PrintLiteral(text[1..], rest)
  }

  function Print(ts: seq<Token>): string {
    if ts == [] then ""
    else
      match ts[0]
      case Literal(text) => PrintLiteral(text, Print(ts[1..]))
      case FieldToken(f) => ['%'] + PrintField(f, Print(ts[1..]))
  }

  lemma RemainderIs(x: int, q: int, r: nat)
    requires r < 0x1_0000_0000 && x == q * 0x1_0000_0000 + r
    ensures x % 0x1_0000_0000 == r
  {}

  lemma WrapIgnoresPeriods(n: int, k: int)
    ensures WrapI32(n + k * 0x1_0000_0000) == WrapI32(n)
  {
    var shifted := n + 0x8000_0000;
    RemainderIs(shifted + k * 0x1_0000_0000, shifted / 0x1_0000_0000 + k, shifted % 0x1_0000_0000);
  }

  lemma WrapAbsorbs(n: int, d: int)
    ensures WrapI32(WrapI32(n) * 10 + d) == WrapI32(n * 10 + d)
  {
    var q := (n + 0x8000_0000) / 0x1_0000_0000;
    assert WrapI32(n) == n - q * 0x1_0000_0000;
    WrapIgnoresPeriods(n * 10 + d, -10 * q);
  }

  lemma {:induction false} ReadDigitsOfNumeral(digits: string, tail: string, acc: nat, any: bool)
    requires AllDigits(digits) && tail != [] && !IsDigit(tail[0])
    ensures ReadDigits(digits + tail, WrapI32(acc), any)
         == Scan(WrapI32(NumeralFrom(acc, digits)), any || digits != [], tail)
    decreases |digits|
  {
    if digits == [] {
      assert digits + tail == tail;
    } else {
      var d := DigitValue(digits[0]);
      WrapAbsorbs(acc, d);
      ReadDigitsOfNumeral(digits[1..], tail, acc * 10 + d, true);
      assert (digits + tail)[1..] == digits[1..] + tail;
    }
  }

  lemma ReadDigitsOfDecimal(width: nat, spec: char, rest: string)
    requires !IsDigit(spec)
    ensures ReadDigits(Decimal(width) + ([spec] + rest), 0, false) == Scan(WrapI32(width), true, [spec] + rest)
  {
    ReadDigitsOfNumeral(Decimal(width), [spec] + rest, 0, false);
    NumeralDecimal(width);
  }

  lemma SkipHead(c: char, s: string)
    ensures StartsWith([c] + s, c) && Skip([c] + s, c) == s
  {}

  lemma SkipOther(digits: string, tail: string, c: char)
    requires AllDigits(digits) && digits != [] && !IsDigit(c)
    ensures !StartsWith(digits + tail, c) && Skip(digits + tail, c) == digits + tail
  {}

  lemma MakeNormalField(f: Field, minus: bool, scan: Scan, header: char -> string)
    requires NormalField(f, header) && scan.rest != [] && scan.rest[0] == f.spec
    requires (scan.width == WrapI32(f.width) && !minus && scan.any)
          || (scan.width == f.width == 0 && f.truncate.None? && !scan.any)
    ensures MakeField(!f.rightAlign, f.truncate.Some? || !scan.any, minus, scan, header) == f
  {}

  /** Reading after `#`: what the truncation and width part of a printed field gives. */
  lemma ReadWidthPart(f: Field, s1: string, rest: string, header: char -> string)
    requires NormalField(f, header)
    requires s1 == PrintWidth(f) + ([f.spec] + rest)
    ensures var s2 := Skip(s1, '.');
            var scan := ReadDigits(Skip(s2, '-'), 0, false);
            && scan.rest == [f.spec] + rest
            && MakeField(!f.rightAlign, StartsWith(s1, '.'), StartsWith(s2, '-'), scan, header) == f
    ensures s1 != [] && s1[0] != '%' && s1[0] != '#'
  {
    var tail := [f.spec] + rest;
    if f.truncate.None? && f.width == 0 {
      assert s1 == ['.'] + (['-'] + tail);
      SkipHead('.', ['-'] + tail);
      SkipHead('-', tail);
      MakeNormalField(f, true, Scan(0, false, tail), header);
    } else {
      var digits := Decimal(f.width);
      if f.truncate.Some? {
        assert s1 == ['.'] + (digits + tail);
        SkipHead('.', digits + tail);
      } else {
        SkipOther(digits, tail, '.');
      }
      SkipOther(digits, tail, '-');
      ReadDigitsOfDecimal(f.width, f.spec, rest);
      MakeNormalField(f, false, Scan(WrapI32(f.width), true, tail), header);
    }
  }

  lemma ReadPrintedField(f: Field, rest: string, header: char -> string)
    requires NormalField(f, header)
    ensures ReadField(PrintField(f, rest), header) == Some(FieldRead(f, rest))
    ensures !StartsWith(PrintField(f, rest), '%')
  {
    var s1 := PrintWidth(f) + ([f.spec] + rest);
    ReadWidthPart(f, s1, rest, header);
    if !f.rightAlign {
      SkipHead('#', s1);
    }
    assert ([f.spec] + rest)[1..] == rest;
  }

  lemma ParsePrintedField(f: Field, rest: string, literal: string, header: char -> string)
    requires NormalField(f, header)
    ensures ParseFrom(['%'] + PrintField(f, rest), literal, header)
         == Flush(literal) + [FieldToken(f)] + ParseFrom(rest, "", header)
  {
    ReadPrintedField(f, rest, header);
    assert (['%'] + PrintField(f, rest))[1..] == PrintField(f, rest);
  }

  lemma {:induction false} ParsePrintedLiteral(text: string, rest: string, literal: string, header: char -> string)
    ensures ParseFrom(PrintLiteral(text, rest), literal, header) == ParseFrom(rest, literal + text, header)
    decreases |text|
  {
    if text == "" {
      assert literal + text == literal;
    } else {
      var tail := PrintLiteral(text[1..], rest);
      ParsePrintedLiteral(text[1..], rest, literal + [text[0]], header);
      assert literal + [text[0]] + text[1..] == literal + text;
      if text[0] == '%' {
        assert ("%%" + tail)[2..] == tail && ("%%" + tail)[1..][0] == '%';
      } else {
        assert ([text[0]] + tail)[1..] == tail;
      }
    }
  }

  lemma NormalDrop(ts: seq<Token>, k: nat, header: char -> string)
    requires k <= |ts| && Normal(ts, header)
    ensures Normal(ts[k..], header)
  {
    forall j | 0 < j < |ts[k..]| ensures !(ts[k..][j - 1].Literal? && ts[k..][j].Literal?) {
      assert ts[k..][j] == ts[k + j] && ts[k..][j - 1] == ts[k + j - 1];
    }
  }

  lemma {:induction false} RoundTrip(ts: seq<Token>, header: char -> string)
    requires Normal(ts, header)
    ensures Parse(Print(ts), header) == ts
    decreases |ts|
  {
    if ts == [] {
    } else if ts[0].FieldToken? {
      NormalDrop(ts, 1, header);
      RoundTrip(ts[1..], header);
      ParsePrintedField(ts[0].field, Print(ts[1..]), "", header);
      assert ts == [ts[0]] + ts[1..];
    } else {
      var text := ts[0].text;
      ParsePrintedLiteral(text, Print(ts[1..]), "", header);
      assert "" + text == text;
      if |ts| == 1 {
        assert ts == [Literal(text)];
      } else {
        assert ts[1].FieldToken? && ts[1..][1..] == ts[2..];
        NormalDrop(ts, 2, header);
        RoundTrip(ts[2..], header);
        ParsePrintedField(ts[1].field, Print(ts[2..]), text, header);
        assert ts == [ts[0]] + [ts[1]] + ts[2..];
      }
    }
  }

  lemma ReadFieldNormal(s: string, header: char -> string)
    ensures var r := ReadField(s, header); r.Some? ==> NormalField(r.value.field, header)
  {}

  lemma NormalJoin(literal: string, f: Field, ts: seq<Token>, header: char -> string)
    requires NormalField(f, header) && Normal(ts, header)
    ensures Normal(Flush(literal) + [FieldToken(f)] + ts, header)
  {}

  lemma {:induction false} ParseFromNormal(s: string, literal: string, header: char -> string)
    ensures Normal(ParseFrom(s, literal, header), header)
    decreases |s|
  {
    if s == [] {
    } else if s[0] != '%' {
      ParseFromNormal(s[1..], literal + [s[0]], header);
    } else if StartsWith(s[1..], '%') {
      ParseFromNormal(s[2..], literal + "%", header);
    } else {
      var read := ReadField(s[1..], header);
      if read.Some? {
        ReadFieldNormal(s[1..], header);
        ParseFromNormal(read.value.rest, "", header);
        NormalJoin(literal, read.value.field, ParseFrom(read.value.rest, "", header), header);
      }
    }
  }

  /** Exactly the normal lists are parses, and printing picks one string for each. */
  lemma ParsesAsPrinted(fmt: string, header: char -> string)
    ensures Normal(Parse(fmt, header), header)
    ensures forall ts :: Normal(ts, header) && fmt == Print(ts) ==> Parse(fmt, header) == ts
  {
    ParseFromNormal(fmt, "", header);
    forall ts | Normal(ts, header) && fmt == Print(ts) ensures Parse(fmt, header) == ts {
      RoundTrip(ts, header);
    }
  }

  lemma ParsesAreNormal(ts: seq<Token>, header: char -> string)
    ensures Normal(ts, header) <==> exists fmt :: Parse(fmt, header) == ts
  {
    if Normal(ts, header) {
      RoundTrip(ts, header);
    }
    forall fmt | Parse(fmt, header) == ts ensures Normal(ts, header) {
      ParseFromNormal(fmt, "", header);
    }
  }

  // ----- every way of writing a specifier

  /** `c` if the flag is given, in front of `rest`. */
  function Flagged(given: bool, c: char, rest: string): string {
    if given then [c] + rest else rest
  }

  /** `[#][.][-]` in front of `rest`. */
  function WithFlags(hash: bool, dot: bool, minus: bool, rest: string): string {
    Flagged(hash, '#', Flagged(dot, '.', Flagged(minus, '-', rest)))
  }

  /** The character after the digits is the specifier, and not a flag. */
  predicate EndsAt(hash: bool, dot: bool, minus: bool, digits: string, spec: char) {
    && !IsDigit(spec)
    && (digits == "" ==>
          && (spec == '-' ==> minus) && (spec == '.' ==> dot || minus) && (spec == '#' ==> hash || dot || minus))
  }

  lemma SkipFlag(given: bool, c: char, rest: string)
    requires !given ==> !StartsWith(rest, c)
    ensures StartsWith(Flagged(given, c, rest), c) == given && Skip(Flagged(given, c, rest), c) == rest
  {
    if given {
      SkipHead(c, rest);
    }
  }

  lemma SkipFlags(hash: bool, dot: bool, minus: bool, tail: string)
    requires !minus ==> !StartsWith(tail, '-')
    requires !dot && !minus ==> !StartsWith(tail, '.')
    requires !hash && !dot && !minus ==> !StartsWith(tail, '#')
    ensures var s := WithFlags(hash, dot, minus, tail);
            var s1 := Skip(s, '#');
            var s2 := Skip(s1, '.');
            && StartsWith(s, '#') == hash && StartsWith(s1, '.') == dot && StartsWith(s2, '-') == minus
            && Skip(s2, '-') == tail
  {
    var s2 := Flagged(minus, '-', tail);
    var s1 := Flagged(dot, '.', s2);
    SkipFlag(minus, '-', tail);
    SkipFlag(dot, '.', s2);
    SkipFlag(hash, '#', s1);
  }

  lemma ReadSpecifier(hash: bool, dot: bool, minus: bool, digits: string, spec: char, rest: string,
                      header: char -> string)
    requires AllDigits(digits) && EndsAt(hash, dot, minus, digits, spec)
    ensures var scan := Scan(WrapI32(Numeral(digits)), digits != "", [spec] + rest);
            ReadField(WithFlags(hash, dot, minus, digits + ([spec] + rest)), header)
            == Some(FieldRead(MakeField(hash, dot, minus, scan, header), rest))
  {
    var tail := digits + ([spec] + rest);
    assert tail[0] == if digits == "" then spec else digits[0];
    SkipFlags(hash, dot, minus, tail);
    ReadDigitsOfNumeral(digits, [spec] + rest, 0, false);
    assert ([spec] + rest)[1..] == rest;
  }

  /** The field a specifier stands for, read off its text: its number, negated by `#` or `-`, as a 32-bit
      number is the width, and its sign the alignment; `#` aligns to the left in any case; `.` with a
      number cuts to the width. */
  function Written(hash: bool, dot: bool, minus: bool, digits: string, spec: char, header: char -> string): Field
    requires AllDigits(digits)
  {
    var number: int := Numeral(digits);
    var width := WrapI32(if hash || minus then -number else number);
    Field(spec, Abs(width), !hash && width >= 0, if dot && digits != "" then Some(Abs(width)) else None, header(spec))
  }

  /** A number that fits in 32 bits is the width as written, and `-` aligns to the left unless it is zero. */
  lemma WrittenInRange(hash: bool, dot: bool, minus: bool, digits: string, spec: char, header: char -> string)
    requires AllDigits(digits) && Numeral(digits) <= 0x7FFF_FFFF
    ensures var width := Numeral(digits);
            var left := hash || (minus && width != 0);
            Written(hash, dot, minus, digits, spec, header)
            == Field(spec, width, !left, if dot && digits != "" then Some(width) else None, header(spec))
  {}

  lemma WrapOfNegated(n: int)
    ensures WrapI32(-WrapI32(n)) == WrapI32(-n)
  {}

  lemma SpecifierMeans(hash: bool, dot: bool, minus: bool, digits: string, spec: char, rest: string,
                       header: char -> string)
    requires AllDigits(digits) && EndsAt(hash, dot, minus, digits, spec)
    ensures ReadField(WithFlags(hash, dot, minus, digits + ([spec] + rest)), header)
         == Some(FieldRead(Written(hash, dot, minus, digits, spec, header), rest))
  {
    ReadSpecifier(hash, dot, minus, digits, spec, rest, header);
    WrapOfNegated(Numeral(digits));
  }

  /** In a format string such a specifier is one field, unless it is the second `%` of `%%`. */
  lemma SpecifierIsAField(literal: string, hash: bool, dot: bool, minus: bool, digits: string, spec: char,
                          rest: string, header: char -> string)
    requires AllDigits(digits) && EndsAt(hash, dot, minus, digits, spec)
    requires spec == '%' ==> hash || dot || minus || digits != ""
    ensures ParseFrom(['%'] + WithFlags(hash, dot, minus, digits + ([spec] + rest)), literal, header)
         == Flush(literal) + [FieldToken(Written(hash, dot, minus, digits, spec, header))] + ParseFrom(rest, "", header)
  {
    var text := WithFlags(hash, dot, minus, digits + ([spec] + rest));
    assert (['%'] + text)[1..] == text;
    SpecifierMeans(hash, dot, minus, digits, spec, rest, header);
  }

  /** Whatever specifier `chars` begins with was read as the field it stands for. */
  ghost predicate ReadAsWritten(chars: string, read: Option<FieldRead>, header: char -> string) {
    forall hash, dot, minus, digits, spec, tail ::
      && AllDigits(digits) && EndsAt(hash, dot, minus, digits, spec)
      && chars == WithFlags(hash, dot, minus, digits + ([spec] + tail)) ==>
        read == Some(FieldRead(Written(hash, dot, minus, digits, spec, header), tail))
  }

  lemma ScanMeans(chars: string, header: char -> string)
    ensures ReadAsWritten(chars, ReadField(chars, header), header)
  {
    forall hash, dot, minus, digits, spec, tail |
      && AllDigits(digits) && EndsAt(hash, dot, minus, digits, spec)
      && chars == WithFlags(hash, dot, minus, digits + ([spec] + tail))
      ensures ReadField(chars, header) == Some(FieldRead(Written(hash, dot, minus, digits, spec, header), tail))
    {
      SpecifierMeans(hash, dot, minus, digits, spec, tail, header);
    }
  }

  lemma {:induction false} ReadDigitsToEnd(digits: string, width: int, any: bool)
    requires AllDigits(digits)
    ensures ReadDigits(digits, width, any).rest == ""
    decreases |digits|
  {
    if digits != "" {
      ReadDigitsToEnd(digits[1..], WrapI32(width * 10 + DigitValue(digits[0])), true);
    }
  }

  /** A specifier that the string ends in is dropped, and what came before it kept. */
  lemma CutOffSpecifier(literal: string, hash: bool, dot: bool, minus: bool, digits: string, header: char -> string)
    requires AllDigits(digits)
    ensures ParseFrom(['%'] + WithFlags(hash, dot, minus, digits), literal, header) == Flush(literal)
  {
    var text := WithFlags(hash, dot, minus, digits);
    assert (['%'] + text)[1..] == text;
    SkipFlags(hash, dot, minus, digits);
    ReadDigitsToEnd(digits, 0, false);
  }
}
