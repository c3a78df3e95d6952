/** Host list patterns such as `node[001-003,005]` (`spur_core::hostlist`): compressing
    names into a pattern and expanding a pattern into names. */
module Hostlist {
  import opened Text
  import opened Padding
  import opened HostRanges
  import opened Sorting

  const MAX_HOSTLIST_SIZE: nat := 1_000_000

  const U64_MAX: nat := 0xFFFF_FFFF_FFFF_FFFF

  // ----- expanding

  /** `s.find(c)`, or the length of `s`. */
  function IndexOf(s: string, c: char): (k: nat)
    ensures k <= |s| && c !in s[..k] && (k < |s| ==> s[k] == c)
  {
    if s == [] || s[0] == c then 0
    else
      var k := 1 + IndexOf(s[1..], c);
      assert s[..k] == [s[0]] + s[1..][..k - 1];
      k
  }

  /** `s.parse::<u64>()`. */
  function ParseU64(s: string): Option<nat> {
    var digits := if s != [] && s[0] == '+' then s[1..] else s;
    if digits != [] && AllDigits(digits) && Numeral(digits) <= U64_MAX then Some(Numeral(digits)) else None
  }

  /** Splits at the commas that are not inside brackets. */
  function SplitTopFrom(s: string, depth: nat, current: string): (parts: seq<string>)
    decreases |s|
  {
    if s == [] then [current]
    else if s[0] == ',' && depth == 0 then [current] + SplitTopFrom(s[1..], 0, "")
    else
      var next := if s[0] == '[' then depth + 1 else if s[0] == ']' && depth > 0 then depth - 1 else depth;
      SplitTopFrom(s[1..], next, current + [s[0]])
  }

  method SplitTopLevel(s: string) returns (parts: seq<string>)
    ensures parts == SplitTopFrom(s, 0, "")
  {
    parts := [];
    var chars := s;
    var depth := 0;
    var current := "";
    while chars != []
      invariant depth >= 0
      invariant parts + SplitTopFrom(chars, depth, current) == SplitTopFrom(s, 0, "")
      decreases |chars|
    {
      var c := chars[0];
      ghost var rest := SplitTopFrom(chars[1..], 0, "");
      assert parts + ([current] + rest) == parts + [current] + rest;
      chars := chars[1..];
      if c == ',' && depth == 0 {
        parts, current := parts + [current], "";
      } else {
        if c == '[' {
          depth := depth + 1;
        } else if c == ']' && depth > 0 {
          depth := depth - 1;
        }
        current := current + [c];
      }
    }
    parts := parts + [current];
  }

  datatype Bounds = NotARange | BadRange | Bounds(start: nat, end: nat, width: nat)

  function ParseRangeBounds(part: string): Bounds {
    var dash := IndexOf(part, '-');
    if dash == |part| then NotARange
    else
      match (ParseU64(part[..dash]), ParseU64(part[dash + 1..]))
      case (Some(start), Some(end)) => if start > end then BadRange else Bounds(start, end, dash)
      case _ => BadRange
  }

  function Push(results: seq<string>, name: string): Outcome<seq<string>> {
    if |results| >= MAX_HOSTLIST_SIZE then Err else Ok(results + [name])
  }

  function Closes(s: string): nat {
    if s == [] then 0 else (if s[0] == ']' then 1 else 0) + Closes(s[1..])
  }

  lemma {:induction false} ClosesConcat(a: string, b: string)
    ensures Closes(a + b) == Closes(a) + Closes(b)
  {
    if a == [] {
      assert a + b == b;
    } else {
      ClosesConcat(a[1..], b);
      assert (a + b)[1..] == a[1..] + b;
    }
  }

  lemma {:induction false} NoCloses(s: string)
    requires ']' !in s
    ensures Closes(s) == 0
  {
    if s != [] {
      NoCloses(s[1..]);
    }
  }

  lemma ClosesAfterFirst(before: string, after: string)
    requires ']' !in before
    ensures Closes(before + ("]" + after)) == 1 + Closes(after)
  {
    ClosesConcat(before, "]" + after);
    NoCloses(before);
    assert ("]" + after)[1..] == after;
  }

  /** One fewer `]` is left after the first. */
  lemma FirstCloses(pattern: string, close: nat)
    requires close < |pattern| && pattern[close] == ']' && ']' !in pattern[..close]
    ensures Closes(pattern) == Closes(pattern[close + 1..]) + 1
  {
    assert pattern == pattern[..close] + ("]" + pattern[close + 1..]);
    ClosesAfterFirst(pattern[..close], pattern[close + 1..]);
  }

  /** The text before the first `]` holds none. */
  lemma FirstBracket(pattern: string, open: nat, close: nat)
    requires open < close < |pattern| && ']' !in pattern[..close]
    ensures ']' !in pattern[..open] && NoneHolds(Split(pattern[open + 1..close], ','), ']')
  {
    var before := pattern[..close];
    assert pattern[..open] == before[..open];
    assert pattern[open + 1..close] == before[open + 1..];
    SplitKeepsOut(before[open + 1..], ',', ']');
  }

  /** One term of a pattern. Text after a bracket may hold further brackets, which are
      expanded in turn. */
  function ExpandSingle(pattern: string, results: seq<string>): Outcome<seq<string>>
    decreases Closes(pattern), 4, 0
  {
    var open, close := IndexOf(pattern, '['), IndexOf(pattern, ']');
    if open == |pattern| then Push(results, pattern)
    else if close == |pattern| || close < open then Err
    else
      var prefix, body, suffix := pattern[..open], pattern[open + 1..close], pattern[close + 1..];
      FirstCloses(pattern, close);
      FirstBracket(pattern, open, close);
      ExpandParts(prefix, Split(body, ','), suffix, results)
  }

  lemma {:induction false} SplitKeepsOut(s: string, c: char, d: char)
    requires d !in s
    ensures NoneHolds(Split(s, c), d)
  {
    if s != [] {
      SplitKeepsOut(s[1..], c, d);
    }
  }

  function ExpandParts(prefix: string, parts: seq<string>, suffix: string, results: seq<string>): Outcome<seq<string>>
    requires ']' !in prefix && NoneHolds(parts, ']')
    decreases Closes(suffix) + 1, 3, |parts|
  {
    if parts == [] then Ok(results)
    else
      match ExpandPart(prefix, parts[0], suffix, results)
      case Err => Err
      case Ok(longer) => ExpandParts(prefix, parts[1..], suffix, longer)
  }

  /** A range is counted before any of its names is made. */
  function ExpandPart(prefix: string, part: string, suffix: string, results: seq<string>): Outcome<seq<string>>
    requires ']' !in prefix && ']' !in part
    decreases Closes(suffix) + 1, 2, 0
  {
    match ParseRangeBounds(part)
    case BadRange => Err
    case NotARange => ExpandName(prefix, part, suffix, results)
    case Bounds(start, end, width) =>
      if |results| + (end - start + 1) > MAX_HOSTLIST_SIZE then Err
      else ExpandRange(prefix, start, end, width, suffix, results)
  }

  function ExpandRange(prefix: string, i: nat, end: nat, width: nat, suffix: string, results: seq<string>)
    : Outcome<seq<string>>
    requires ']' !in prefix
    decreases Closes(suffix) + 1, 1, end + 1 - i
  {
    if i > end then Ok(results)
    else
      PadIsDigits(i, width);
      match ExpandName(prefix, Pad(i, width), suffix, results)
      case Err => Err
      case Ok(longer) => ExpandRange(prefix, i + 1, end, width, suffix, longer)
  }

  function ExpandName(prefix: string, value: string, suffix: string, results: seq<string>): Outcome<seq<string>>
    requires ']' !in prefix && ']' !in value
    decreases Closes(suffix) + 1, 0, 0
  {
    var name := prefix + value + suffix;
    if '[' in suffix then
      ClosesConcat(prefix + value, suffix);
      NoCloses(prefix + value);
      ExpandSingle(name, results)
    else Push(results, name)
  }

  type Expander = (string, seq<string>) -> Outcome<seq<string>>

  function ExpandTrimmed(part: string, results: seq<string>): Outcome<seq<string>> {
    ExpandSingle(Trim(part), results)
  }

  function ExpandEach(expand: Expander, parts: seq<string>, results: seq<string>): Outcome<seq<string>>
    decreases |parts|
  {
    if parts == [] then Ok(results)
    else
      match expand(parts[0], results)
      case Err => Err
      case Ok(longer) => ExpandEach(expand, parts[1..], longer)
  }

  function NonEmpty(names: seq<string>): seq<string> {
    if names == [] then []
    else
      var before, last := NonEmpty(names[..|names| - 1]), names[|names| - 1];
      if last == "" then before else before + [last]
  }

  function Expand(pattern: string): Outcome<seq<string>> {
    match ExpandEach(ExpandTrimmed, SplitTopFrom(pattern, 0, ""), [])
    case Err => Err
    case Ok(names) => Ok(NonEmpty(names))
  }

  // ----- compressing

  /** A name's number, if it ends in digits that follow something else and fit in 64 bits. */
  datatype Numbered = Numbered(prefix: string, num: Num)

  function DigitStart(name: string): (k: nat)
    ensures k <= |name| && AllDigits(name[k..]) && (k > 0 ==> !IsDigit(name[k - 1]))
  {
    if name == [] || !IsDigit(name[|name| - 1]) then |name|
    else
      var init := name[..|name| - 1];
      var k := DigitStart(init);
      assert name[k..] == init[k..] + [name[|name| - 1]];
      k
  }

  function SplitNameNumber(name: string): Option<Numbered> {
    var k := DigitStart(name);
    if k == 0 || k == |name| || Numeral(name[k..]) > U64_MAX then None
    else Some(Numbered(name[..k], Num(Numeral(name[k..]), |name| - k)))
  }

  /** The names without repeats, in order of first appearance. */
  function Unique(hosts: seq<string>): seq<string> {
    if hosts == [] then []
    else
      var before, last := Unique(hosts[..|hosts| - 1]), hosts[|hosts| - 1];
      if last in before then before else before + [last]
  }

  datatype Term = Bare(name: string) | Numeric(prefix: string, nums: seq<Num>)

  /** Files a number under its prefix, the prefixes being in order of first appearance. */
  function AddNumber(groups: seq<Term>, prefix: string, num: Num): seq<Term> {
    if groups == [] then [Numeric(prefix, [num])]
    else if groups[0].Numeric? && groups[0].prefix == prefix then
      [Numeric(prefix, groups[0].nums + [num])] + groups[1..]
    else [groups[0]] + AddNumber(groups[1..], prefix, num)
  }

  function NumericTerms(hosts: seq<string>): seq<Term> {
    if hosts == [] then []
    else
      var groups := NumericTerms(hosts[..|hosts| - 1]);
      match SplitNameNumber(hosts[|hosts| - 1])
      case Some(split) => AddNumber(groups, split.prefix, split.num)
      case None => groups
  }

  function BareTerms(hosts: seq<string>): seq<Term> {
    if hosts == [] then []
    else
      var last := hosts[|hosts| - 1];
      BareTerms(hosts[..|hosts| - 1]) + (if SplitNameNumber(last).None? then [Bare(last)] else [])
  }

  function Gather(hosts: seq<string>): seq<Term> {
    BareTerms(hosts) + NumericTerms(hosts)
  }

  predicate NumBefore(a: Num, b: Num) {
    a.value < b.value || (a.value == b.value && a.width <= b.width)
  }

  function SortNums(nums: seq<Num>): seq<Num> {
    Sort(nums, NumBefore)
  }

  function SortedTerm(t: Term): Term {
    match t case Bare(_) => t case Numeric(prefix, nums) => Numeric(prefix, SortNums(nums))
  }

  /** An order on terms; any will do for the results here. */
  type TermOrder = (Term, Term) -> bool

  function SortedTerms(terms: seq<Term>): (sorted: seq<Term>)
    ensures |sorted| == |terms| && forall k :: 0 <= k < |terms| ==> sorted[k] == SortedTerm(terms[k])
  {
    seq(|terms|, k requires 0 <= k < |terms| => SortedTerm(terms[k]))
  }

  /** Every term with its numbers sorted, in the given order. */
  function Arrange(terms: seq<Term>, before: TermOrder): seq<Term> {
    Sort(SortedTerms(terms), before)
  }

  function FormatRange(r: Range): string {
    if r.lo == r.hi then Pad(r.lo, r.width) else Pad(r.lo, r.width) + "-" + Pad(r.hi, r.width)
  }

  function FormatRanges(ranges: seq<Range>): (parts: seq<string>)
    ensures |parts| == |ranges| && forall k :: 0 <= k < |ranges| ==> parts[k] == FormatRange(ranges[k])
  {
    seq(|ranges|, k requires 0 <= k < |ranges| => FormatRange(ranges[k]))
  }

  function RenderPrefix(prefix: string, ranges: seq<Range>): string {
    var body := Join(FormatRanges(ranges), ",");
    if |ranges| == 1 && ranges[0].lo == ranges[0].hi then prefix + body else prefix + "[" + body + "]"
  }

  function Render(t: Term): string {
    match t case Bare(name) => name case Numeric(prefix, nums) => RenderPrefix(prefix, Coalesced(nums))
  }

  function RenderAll(terms: seq<Term>): (texts: seq<string>)
    ensures |texts| == |terms| && forall k :: 0 <= k < |terms| ==> texts[k] == Render(terms[k])
  {
    seq(|terms|, k requires 0 <= k < |terms| => Render(terms[k]))
  }

  function Compress(hosts: seq<string>, before: TermOrder): string {
    Join(RenderAll(Arrange(Gather(Unique(hosts)), before)), ",")
  }
}
