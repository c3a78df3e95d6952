/** Strings as the command-line tools use them: Rust's `char::is_whitespace`,
    `str::trim`, `str::split` and `[..].join`, and decimal numerals. */
module Text {

  datatype Option<+T> = None | Some(value: T) {
    function Or(default: T): T {
      if Some? then value else default
    }
  }

  /** A fallible call; only success or failure is kept of the error. */
  datatype Outcome<+T> = Ok(value: T) | Err

  /** Functions of the Rust library and of `spur_core`; nothing is assumed of them. */
  datatype Library = Library(
    lower: string -> string,        // to_lowercase
    upper: string -> string,        // to_uppercase
    asciiLower: string -> string,   // to_ascii_lowercase
    u32: string -> Option<nat>,     // parse::<u32>
    minutes: string -> Option<nat>) // spur_core::config::parse_time_minutes
  {
    predicate EqIgnoreAsciiCase(a: string, b: string) {
      asciiLower(a) == asciiLower(b)
    }
  }

  /** The Unicode White_Space property, which `char::is_whitespace` tests. */
  predicate IsWhitespace(c: char) {
    || '\t' <= c <= '\r' || c == ' ' || c == '\U{85}' || c == '\U{A0}' || c == '\U{1680}'
    || '\U{2000}' <= c <= '\U{200A}' || c == '\U{2028}' || c == '\U{2029}' || c == '\U{202F}'
    || c == '\U{205F}' || c == '\U{3000}'
  }

  function TrimStart(s: string): (r: string)
    ensures r == [] || !IsWhitespace(r[0])
    ensures |r| <= |s| && s[|s| - |r|..] == r
  {
    if s != [] && IsWhitespace(s[0]) then TrimStart(s[1..]) else s
  }

  function TrimEnd(s: string): (r: string)
    ensures r == [] || !IsWhitespace(r[|r| - 1])
    ensures r <= s && forall k :: |r| <= k < |s| ==> IsWhitespace(s[k])
  {
    if s != [] && IsWhitespace(s[|s| - 1]) then TrimEnd(s[..|s| - 1]) else s
  }

  function Trim(s: string): string {
    TrimEnd(TrimStart(s))
  }

  /** `s.split(c)`: always at least one piece. */
  function Split(s: string, c: char): (parts: seq<string>)
    ensures |parts| >= 1
  {
    if s == [] then [""]
    else
      var rest := Split(s[1..], c);
      if s[0] == c then [""] + rest else [[s[0]] + rest[0]] + rest[1..]
  }

  function TrimmedNonEmpty(parts: seq<string>): (r: seq<string>)
    ensures "" !in r && |r| <= |parts|
  {
    if parts == [] then []
    else (if Trim(parts[0]) == "" then [] else [Trim(parts[0])]) + TrimmedNonEmpty(parts[1..])
  }

  /** The trimmed, non-empty entries of a comma-separated list. */
  function SplitCsv(s: string): seq<string> {
    TrimmedNonEmpty(Split(s, ','))
  }

  function Join(parts: seq<string>, sep: string): string {
    if parts == [] then ""
    else if |parts| == 1 then parts[0]
    else parts[0] + sep + Join(parts[1..], sep)
  }

  predicate NoneHolds(parts: seq<string>, c: char) {
    forall k :: 0 <= k < |parts| ==> c !in parts[k]
  }

  lemma {:induction false} SplitPiecesLackSeparator(s: string, c: char)
    ensures NoneHolds(Split(s, c), c)
  {
    if s != [] {
      SplitPiecesLackSeparator(s[1..], c);
    }
  }

  lemma {:induction false} SplitAtFirst(head: string, c: char, tail: string)
    requires c !in head
    ensures Split(head + [c] + tail, c) == [head] + Split(tail, c)
  {
    if head == [] {
      assert (head + [c] + tail)[1..] == tail;
    } else {
      SplitAtFirst(head[1..], c, tail);
      assert (head + [c] + tail)[1..] == head[1..] + [c] + tail;
      assert [head[0]] + head[1..] == head;
    }
  }

  lemma {:induction false} SplitWhole(s: string, c: char)
    requires c !in s
    ensures Split(s, c) == [s]
  {
    if s != [] {
      SplitWhole(s[1..], c);
      assert [s[0]] + s[1..] == s;
    }
  }

  /** Splitting undoes joining exactly when there is a piece and none holds the separator. */
  lemma {:induction false} SplitJoin(parts: seq<string>, c: char)
    ensures Split(Join(parts, [c]), c) == parts <==> parts != [] && NoneHolds(parts, c)
  {
    if parts != [] && NoneHolds(parts, c) {
      SplitJoinForward(parts, c);
    } else {
      SplitPiecesLackSeparator(Join(parts, [c]), c);
    }
  }

  lemma {:induction false} SplitJoinForward(parts: seq<string>, c: char)
    requires parts != [] && NoneHolds(parts, c)
    ensures Split(Join(parts, [c]), c) == parts
  {
    if |parts| == 1 {
      SplitWhole(parts[0], c);
    } else {
      SplitJoinForward(parts[1..], c);
      SplitAtFirst(parts[0], c, Join(parts[1..], [c]));
    }
  }

  /** An entry as it stands when the blanks around it are dropped. */
  predicate IsEntry(s: string) {
    s != "" && ',' !in s && Trim(s) == s
  }

  lemma {:induction false} EntriesAreKept(entries: seq<string>)
    requires forall k :: 0 <= k < |entries| ==> IsEntry(entries[k])
    ensures TrimmedNonEmpty(entries) == entries
  {
    if entries != [] {
      EntriesAreKept(entries[1..]);
      assert IsEntry(entries[0]);
    }
  }

  /** A list of entries is read back from its comma-separated text. */
  lemma SplitCsvJoin(entries: seq<string>)
    requires entries != [] && forall k :: 0 <= k < |entries| ==> IsEntry(entries[k])
    ensures SplitCsv(Join(entries, ",")) == entries
  {
    assert NoneHolds(entries, ',') by {
      assert forall k :: 0 <= k < |entries| ==> IsEntry(entries[k]);
    }
    SplitJoinForward(entries, ',');
    EntriesAreKept(entries);
  }

  // ----- decimal numerals

  predicate IsDigit(c: char) {
    '0' <= c <= '9'
  }

  predicate AllDigits(s: string) {
    forall k :: 0 <= k < |s| ==> IsDigit(s[k])
  }

  function DigitValue(c: char): (d: nat)
    requires IsDigit(c)
    ensures d < 10
  {
    c as int - '0' as int
  }

  /** `n.to_string()`. */
  function Decimal(n: nat): (s: string)
    ensures s != [] && AllDigits(s)
  {
    if n < 10 then [('0' as int + n) as char]
    else Decimal(n / 10) + [('0' as int + n % 10) as char]
  }

  /** `n.to_string()` for a signed number. */
  function DecimalInt(n: int): string {
    if n < 0 then "-" + Decimal(-n) else Decimal(n)
  }

  function NumeralFrom(acc: nat, s: string): nat
    requires AllDigits(s)
    decreases |s|
  {
    if s == [] then acc else NumeralFrom(acc * 10 + DigitValue(s[0]), s[1..])
  }

  function Numeral(s: string): nat
    requires AllDigits(s)
  {
    NumeralFrom(0, s)
  }

  lemma {:induction false} NumeralFromSnoc(acc: nat, s: string, c: char)
    requires AllDigits(s) && IsDigit(c)
    ensures NumeralFrom(acc, s + [c]) == NumeralFrom(acc, s) * 10 + DigitValue(c)
    decreases |s|
  {
    if s == [] {
      assert NumeralFrom(acc * 10 + DigitValue(c), []) == acc * 10 + DigitValue(c);
    } else {
      assert (s + [c])[1..] == s[1..] + [c];
      NumeralFromSnoc(acc * 10 + DigitValue(s[0]), s[1..], c);
    }
  }

  lemma {:induction false} NumeralDecimal(n: nat)
    ensures Numeral(Decimal(n)) == n
  {
    if n >= 10 {
      NumeralDecimal(n / 10);
      NumeralFromSnoc(0, Decimal(n / 10), ('0' as int + n % 10) as char);
    } else {
      var s := Decimal(n);
      assert s[1..] == [] && DigitValue(s[0]) == n;
      assert NumeralFrom(0, s) == NumeralFrom(n, s[1..]);
    }
  }

  lemma DecimalIntInjective(m: int, n: int)
    requires DecimalInt(m) == DecimalInt(n)
    ensures m == n
  {
    var a, b := if m < 0 then -m else m, if n < 0 then -n else n;
    NumeralDecimal(a);
    NumeralDecimal(b);
    assert !IsDigit('-');
    assert (m < 0) == (n < 0) by {
      assert IsDigit(Decimal(a)[0]) && IsDigit(Decimal(b)[0]);
    }
    if m < 0 {
      assert DecimalInt(m)[1..] == Decimal(a);
      assert DecimalInt(n)[1..] == Decimal(b);
    }
  }
}
