/** Which single host names a pattern can stand for (`spur_core::hostlist`). */
module HostlistNames {
  import opened Text
  import opened Padding
  import opened HostRanges
  import opened Sorting
  import opened Hostlist
  import opened HostlistExpansion
  import opened HostlistProduct
  import opened HostGroups
  import opened HostlistRoundTrip

  // ----- expanding never makes a name longer

  /** The outcome extends `results` by names of at most `bound` characters, up to the cap. */
  predicate Extends(expanded: Outcome<seq<string>>, results: seq<string>, bound: int) {
    expanded.Ok? ==>
      && results <= expanded.value
      && (|results| <= MAX_HOSTLIST_SIZE ==> |expanded.value| <= MAX_HOSTLIST_SIZE)
      && forall k :: |results| <= k < |expanded.value| ==> |expanded.value[k]| <= bound
  }

  lemma ExtendsTwice(results: seq<string>, longer: seq<string>, longest: Outcome<seq<string>>, a: int, b: int)
    requires Extends(Ok(longer), results, a) && a <= b && Extends(longest, longer, b)
    ensures Extends(longest, results, b)
  {
    if longest.Ok? {
      forall k | |results| <= k < |longest.value| ensures |longest.value[k]| <= b {
        assert k < |longer| ==> longest.value[k] == longer[k];
      }
    }
  }

  lemma ReadNumberIsNoLonger(s: string)
    ensures ParseU64(s).Some? ==> |Decimal(ParseU64(s).value)| <= |s|
  {
    if ParseU64(s).Some? {
      var digits := if s[0] == '+' then s[1..] else s;
      PadOfNumeral(digits);
    }
  }

  lemma {:induction false} SplitIsNoLonger(s: string, c: char)
    ensures forall k :: 0 <= k < |Split(s, c)| ==> |Split(s, c)[k]| <= |s|
  {
    if s != [] {
      SplitIsNoLonger(s[1..], c);
    }
  }

  lemma {:induction false} ExpandNameExtends(prefix: string, value: string, suffix: string, results: seq<string>)
    requires ']' !in prefix && ']' !in value
    ensures Extends(ExpandName(prefix, value, suffix, results), results, |prefix| + |value| + |suffix|)
    decreases Closes(suffix) + 1, 0, 0
  {
    if '[' in suffix {
      ClosesConcat(prefix + value, suffix);
      NoCloses(prefix + value);
      ExpandSingleExtends(prefix + value + suffix, results);
    }
  }

  lemma {:induction false} ExpandRangeExtends(prefix: string, i: nat, end: nat, width: nat, suffix: string,
                                                  results: seq<string>, size: nat)
    requires ']' !in prefix && width <= size && |Decimal(end)| <= size
    ensures Extends(ExpandRange(prefix, i, end, width, suffix, results), results, |prefix| + size + |suffix|)
    decreases Closes(suffix) + 1, 1, end + 1 - i
  {
    if i <= end {
      PadIsDigits(i, width);
      PadLength(i, width);
      DigitsGrow(i, end);
      ExpandNameExtends(prefix, Pad(i, width), suffix, results);
      var longer := ExpandName(prefix, Pad(i, width), suffix, results);
      if longer.Ok? {
        var longest := ExpandRange(prefix, i + 1, end, width, suffix, longer.value);
        ExpandRangeExtends(prefix, i + 1, end, width, suffix, longer.value, size);
        ExtendsTwice(results, longer.value, longest, |prefix| + |Pad(i, width)| + |suffix|, |prefix| + size + |suffix|);
      }
    }
  }

  lemma {:induction false} ExpandPartExtends(prefix: string, part: string, suffix: string, results: seq<string>)
    requires ']' !in prefix && ']' !in part
    ensures Extends(ExpandPart(prefix, part, suffix, results), results, |prefix| + |part| + |suffix|)
    decreases Closes(suffix) + 1, 2, 0
  {
    match ParseRangeBounds(part)
    case BadRange =>
    case NotARange => ExpandNameExtends(prefix, part, suffix, results);
    case Bounds(start, end, width) =>
      ReadNumberIsNoLonger(part[width + 1..]);
      ExpandRangeExtends(prefix, start, end, width, suffix, results, |part|);
  }

  lemma {:induction false} ExpandPartsExtends(prefix: string, parts: seq<string>, suffix: string,
                                                  results: seq<string>, size: nat)
    requires ']' !in prefix && NoneHolds(parts, ']') && forall k :: 0 <= k < |parts| ==> |parts[k]| <= size
    ensures Extends(ExpandParts(prefix, parts, suffix, results), results, |prefix| + size + |suffix|)
    decreases Closes(suffix) + 1, 3, |parts|
  {
    if parts != [] {
      ExpandPartExtends(prefix, parts[0], suffix, results);
      var longer := ExpandPart(prefix, parts[0], suffix, results);
      if longer.Ok? {
        var longest := ExpandParts(prefix, parts[1..], suffix, longer.value);
        ExpandPartsExtends(prefix, parts[1..], suffix, longer.value, size);
        ExtendsTwice(results, longer.value, longest, |prefix| + |parts[0]| + |suffix|, |prefix| + size + |suffix|);
      }
    }
  }

  /** Names expanded from a bracket are shorter than the pattern by at least the brackets. */
  lemma {:induction false} ExpandSingleExtends(pattern: string, results: seq<string>)
    ensures Extends(ExpandSingle(pattern, results), results, if '[' in pattern then |pattern| - 2 else |pattern|)
    decreases Closes(pattern), 4, 0
  {
    var open, close := IndexOf(pattern, '['), IndexOf(pattern, ']');
    if open < |pattern| && open < close < |pattern| {
      var prefix, body, suffix := pattern[..open], pattern[open + 1..close], pattern[close + 1..];
      FirstCloses(pattern, close);
      FirstBracket(pattern, open, close);
      SplitIsNoLonger(body, ',');
      ExpandPartsExtends(prefix, Split(body, ','), suffix, results, |body|);
    }
  }

  lemma {:induction false} ExpandEachIsCapped(parts: seq<string>, results: seq<string>)
    requires |results| <= MAX_HOSTLIST_SIZE
    ensures ExpandEach(ExpandTrimmed, parts, results).Ok?
            ==> |ExpandEach(ExpandTrimmed, parts, results).value| <= MAX_HOSTLIST_SIZE
    decreases |parts|
  {
    if parts != [] {
      ExpandSingleExtends(Trim(parts[0]), results);
      var expanded := ExpandTrimmed(parts[0], results);
      if expanded.Ok? {
        ExpandEachIsCapped(parts[1..], expanded.value);
      }
    }
  }

  lemma {:induction false} NonEmptyIsNoLonger(names: seq<string>)
    ensures |NonEmpty(names)| <= |names|
  {
    if names != [] {
      NonEmptyIsNoLonger(names[..|names| - 1]);
    }
  }

  /** No pattern expands past the cap, however its brackets multiply. */
  lemma ExpandIsCapped(pattern: string)
    ensures Expand(pattern).Ok? ==> |Expand(pattern).value| <= MAX_HOSTLIST_SIZE
  {
    var parts := SplitTopFrom(pattern, 0, "");
    ExpandEachIsCapped(parts, []);
    var names := ExpandEach(ExpandTrimmed, parts, []);
    if names.Ok? {
      NonEmptyIsNoLonger(names.value);
    }
  }

  // ----- splitting never makes a name longer

  /** Several parts are all shorter than the text. */
  lemma {:induction false} SplitTopParts(s: string, depth: nat, current: string)
    ensures var parts := SplitTopFrom(s, depth, current);
            && |parts| >= 1
            && (|parts| == 1 ==> parts[0] == current + s)
            && (|parts| > 1 ==> forall k :: 0 <= k < |parts| ==> |parts[k]| < |current| + |s|)
    decreases |s|
  {
    if s == [] {
      assert current + s == current;
    } else if s[0] == ',' && depth == 0 {
      SplitTopParts(s[1..], 0, "");
      assert "" + s[1..] == s[1..];
    } else {
      var next := if s[0] == '[' then depth + 1 else if s[0] == ']' && depth > 0 then depth - 1 else depth;
      SplitTopParts(s[1..], next, current + [s[0]]);
      assert current + [s[0]] + s[1..] == current + s;
    }
  }

  lemma SplitTopWhole(s: string)
    ensures var parts := SplitTopFrom(s, 0, "");
            && (|parts| == 1 ==> parts[0] == s)
            && (|parts| > 1 ==> forall k :: 0 <= k < |parts| ==> |parts[k]| < |s|)
  {
    SplitTopParts(s, 0, "");
    assert "" + s == s;
  }

  lemma {:induction false} CommaSplits(s: string, current: string)
    requires '[' !in s && ',' in s
    ensures |SplitTopFrom(s, 0, current)| > 1
    decreases |s|
  {
    if s[0] == ',' {
      SplitTopParts(s[1..], 0, "");
    } else {
      CommaSplits(s[1..], current + [s[0]]);
    }
  }

  // ----- a name on its own

  lemma TrimIsNoLonger(s: string)
    ensures |Trim(s)| <= |s| && (|Trim(s)| == |s| ==> Trim(s) == s)
  {}

  lemma ExpandedFromOnePart(part: string, results: seq<string>, name: string)
    requires ExpandTrimmed(part, results).Ok? && name in ExpandTrimmed(part, results).value
    ensures name in results || |name| <= |Trim(part)|
  {
    ExpandSingleExtends(Trim(part), results);
    var names := ExpandTrimmed(part, results).value;
    var k :| 0 <= k < |names| && names[k] == name;
    assert k < |results| ==> results[k] == name;
  }

  /** Everything expanded from these parts is at most as long as one of them. */
  lemma {:induction false} ExpandedFromAPart(parts: seq<string>, results: seq<string>, name: string)
    requires ExpandEach(ExpandTrimmed, parts, results).Ok? && name in ExpandEach(ExpandTrimmed, parts, results).value
    ensures name in results || exists k :: 0 <= k < |parts| && |name| <= |Trim(parts[k])|
    decreases |parts|
  {
    if parts != [] {
      var longer := ExpandTrimmed(parts[0], results).value;
      ExpandedFromAPart(parts[1..], longer, name);
      if name in longer {
        ExpandedFromOnePart(parts[0], results, name);
      } else {
        var k :| 0 <= k < |parts[1..]| && |name| <= |Trim(parts[1..][k])|;
        assert parts[k + 1] == parts[1..][k];
      }
    }
  }

  lemma {:induction false} NonEmptyNames(names: seq<string>, name: string)
    ensures name in NonEmpty(names) ==> name != "" && name in names
  {
    if names != [] {
      NonEmptyNames(names[..|names| - 1], name);
    }
  }

  predicate Listed(expanded: Outcome<seq<string>>, name: string) {
    expanded.Ok? && name in expanded.value
  }

  lemma ListedBeforeEmptiesGo(pattern: string, name: string)
    requires Listed(Expand(pattern), name)
    ensures name != "" && Listed(ExpandEach(ExpandTrimmed, SplitTopFrom(pattern, 0, ""), []), name)
  {
    NonEmptyNames(ExpandEach(ExpandTrimmed, SplitTopFrom(pattern, 0, ""), []).value, name);
  }

  lemma OnlyPart(name: string, parts: seq<string>, k: nat, trimmed: string)
    requires |parts| == 1 ==> parts[0] == name
    requires |parts| > 1 ==> forall i :: 0 <= i < |parts| ==> |parts[i]| < |name|
    requires k < |parts| && |name| <= |trimmed| <= |parts[k]|
    requires |trimmed| == |parts[k]| ==> trimmed == parts[k]
    ensures parts == [name] && trimmed == name
  {}

  lemma NoShorterPart(name: string, parts: seq<string>, k: nat)
    requires parts == SplitTopFrom(name, 0, "") && k < |parts| && |name| <= |Trim(parts[k])|
    ensures parts == [name] && Trim(name) == name
  {
    TrimIsNoLonger(parts[k]);
    SplitTopWhole(name);
    OnlyPart(name, parts, k, Trim(parts[k]));
  }

  lemma SelfExpandingIsWhole(name: string, parts: seq<string>)
    requires parts == SplitTopFrom(name, 0, "") && Listed(ExpandEach(ExpandTrimmed, parts, []), name)
    ensures parts == [name] && Trim(name) == name
  {
    ExpandedFromAPart(parts, [], name);
    var k :| 0 <= k < |parts| && |name| <= |Trim(parts[k])|;
    NoShorterPart(name, parts, k);
  }

  lemma SelfExpandingIsPlain(name: string)
    requires Trim(name) == name && SplitTopFrom(name, 0, "") == [name] && Listed(ExpandSingle(name, []), name)
    ensures PlainText(name)
  {
    ExpandSingleExtends(name, []);
    if '[' !in name && ',' in name {
      CommaSplits(name, "");
    }
  }

  lemma ExpandEachOfOne(expand: Expander, part: string)
    ensures ExpandEach(expand, [part], []) == expand(part, [])
  {
    assert [part][1..] == [];
  }

  /** A name that its own pattern can stand for is clean. */
  lemma SelfExpandingIsClean(name: string)
    requires Listed(Expand(name), name)
    ensures Clean(name)
  {
    ListedBeforeEmptiesGo(name, name);
    SelfExpandingIsWhole(name, SplitTopFrom(name, 0, ""));
    ExpandEachOfOne(ExpandTrimmed, name);
    SelfExpandingIsPlain(name);
  }

  lemma SortOne<T>(x: T, before: (T, T) -> bool)
    ensures Sort([x], before) == [x]
  {
    assert [x][1..] == [];
  }

  lemma ArrangeOne(t: Term, before: TermOrder)
    ensures Arrange([t], before) == [SortedTerm(t)]
  {
    assert SortedTerms([t]) == [SortedTerm(t)];
    SortOne(SortedTerm(t), before);
  }

  lemma RenderOne(prefix: string, num: Num)
    ensures Render(Numeric(prefix, [num])) == prefix + num.Text()
  {
    assert [num][..0] == [];
    assert Coalesced([num]) == Coalesce([], num);
    assert FormatRanges([Range(num.value, num.value, num.width)]) == [num.Text()];
  }

  function OneTerm(name: string): Term {
    match SplitNameNumber(name) case None => Bare(name) case Some(split) => Numeric(split.prefix, [split.num])
  }

  lemma GatherOne(name: string)
    ensures Gather([name]) == [OneTerm(name)]
  {
    assert [name][..0] == [];
    assert BareTerms([]) == [] && NumericTerms([]) == [];
  }

  lemma RenderedOne(name: string)
    ensures SortedTerm(OneTerm(name)) == OneTerm(name) && Render(OneTerm(name)) == name
  {
    match SplitNameNumber(name)
    case None =>
    case Some(split) =>
      SplitNameIsExact(name);
      SortOne(split.num, NumBefore);
      RenderOne(split.prefix, split.num);
  }

  lemma CompressOne(name: string, before: TermOrder)
    ensures Compress([name], before) == name
  {
    var t := OneTerm(name);
    assert [name][..0] == [];
    assert Unique([name]) == [name];
    GatherOne(name);
    ArrangeOne(t, before);
    RenderedOne(name);
    assert RenderAll([t]) == [name];
  }

  lemma SplitCleanName(name: string)
    requires PlainText(name)
    ensures SplitTopFrom(name, 0, "") == [name]
  {
    SplitTopPlain(name, "", 0, "");
    assert name + "" == name && "" + name == name;
  }

  lemma ExpandCleanName(name: string)
    requires Clean(name)
    ensures ExpandTrimmed(name, []) == Capped([], [name])
  {
    TrimTrimmed(name);
    ExpandBare(name, []);
  }

  lemma CleanIsSelfExpanding(name: string)
    requires Clean(name)
    ensures Expand(name) == Capped([], [name])
  {
    SplitCleanName(name);
    ExpandEachOfOne(ExpandTrimmed, name);
    ExpandCleanName(name);
    ExpandOfTexts(name, [name], [name]);
  }

  lemma CappedOne(name: string)
    ensures Capped([], [name]) == Ok([name])
  {
    assert [] + [name] == [name];
  }

  /** One name survives compressing and expanding exactly when it is clean. */
  lemma OneName(name: string, before: TermOrder)
    ensures Expand(Compress([name], before)) == Ok([name]) <==> Clean(name)
  {
    CompressOne(name, before);
    CappedOne(name);
    if Clean(name) {
      CleanIsSelfExpanding(name);
    }
    if Expand(name) == Ok([name]) {
      SelfExpandingIsClean(name);
    }
  }

  lemma PrefixOf(prefix: string, digit: char)
    requires prefix != "" && !IsDigit(prefix[|prefix| - 1]) && IsDigit(digit)
    ensures HasPrefix(prefix + [digit], prefix)
  {
    var name := prefix + [digit];
    assert name[..|prefix|] == prefix && name[|prefix|..] == [digit];
    assert DigitStart(name) == DigitStart(prefix) == |prefix|;
    assert NumeralFrom(0, [digit]) == NumeralFrom(DigitValue(digit), [digit][1..]);
  }

  /** Names that survive one by one can fail together: `a]1` and `a]2` do. */
  lemma ClosedPrefixFails(prefix: string, hosts: seq<string>, before: TermOrder)
    requires Clean(prefix) && ']' in prefix && !IsDigit(prefix[|prefix| - 1])
    requires hosts == [prefix + ['1'], prefix + ['2']]
    ensures Expand(Compress(hosts, before)) == Err
  {
    PrefixOf(prefix, '1');
    PrefixOf(prefix, '2');
    assert hosts[0][|prefix|] != hosts[1][|prefix|];
    SharedCloseFails(hosts, before);
  }
}
