/** What a pattern printed from terms expands to (`spur_core::hostlist`). */
module HostlistExpansion {
  import opened Text
  import opened Padding
  import opened HostRanges
  import opened Hostlist
  import opened HostlistProduct

  /** A name that cannot be mistaken for pattern syntax. */
  predicate Clean(name: string) {
    && name != "" && PlainText(name)
    && !IsWhitespace(name[0]) && !IsWhitespace(name[|name| - 1])
  }

  /** A split name is its prefix and its number as written. */
  lemma SplitNameIsExact(name: string)
    requires SplitNameNumber(name).Some?
    ensures var split := SplitNameNumber(name).value;
            name == split.prefix + split.num.Text() && split.prefix != "" && split.num.value <= U64_MAX
  {
    var k := DigitStart(name);
    PadOfNumeral(name[k..]);
    assert name == name[..k] + name[k..];
  }

  // ----- expanding a printed range

  predicate Bounded(ranges: seq<Range>) {
    forall k :: 0 <= k < |ranges| ==> ranges[k].lo <= ranges[k].hi <= U64_MAX
  }

  lemma {:induction false} CoalescedIsBounded(nums: seq<Num>)
    requires forall k :: 0 <= k < |nums| ==> nums[k].value <= U64_MAX
    ensures Bounded(Coalesced(nums))
  {
    if nums != [] {
      CoalescedIsBounded(nums[..|nums| - 1]);
    }
  }

  lemma ParseU64OfPad(n: nat, width: nat)
    requires n <= U64_MAX
    ensures ParseU64(Pad(n, width)) == Some(n)
  {
    PadIsDigits(n, width);
    NumeralOfPad(n, width);
    assert IsDigit(Pad(n, width)[0]);
  }

  /** The width read back from a printed range pads its numbers as the range did. */
  lemma PrintedWidth(r: Range)
    ensures Span(r.lo, r.hi, |Pad(r.lo, r.width)|) == Span(r.lo, r.hi, r.width)
  {
    var w := |Pad(r.lo, r.width)|;
    PadLength(r.lo, r.width);
    forall i | r.lo <= i <= r.hi ensures ZeroPadded(i, w) == ZeroPadded(i, r.width) {
      PaddedAlike(r.lo, i, w, r.width);
    }
    SpanAtWidth(r.lo, r.hi, w, r.width);
  }

  lemma {:induction false} FlattenCons(r: Range, ranges: seq<Range>)
    ensures Flatten([r] + ranges) == RangeTexts(r) + Flatten(ranges)
  {
    if ranges == [] {
      FlattenSnoc([], r);
      assert [r] + [] == [] + [r];
    } else {
      var n := |ranges| - 1;
      var init, last := ranges[..n], ranges[n];
      FlattenCons(r, init);
      Assoc([r], init, [last]);
      assert ranges == init + [last];
      FlattenSnoc([r] + init, last);
      FlattenSnoc(init, last);
      Assoc(RangeTexts(r), Flatten(init), RangeTexts(last));
    }
  }

  lemma FormatRangeText(r: Range)
    ensures ']' !in FormatRange(r) && '[' !in FormatRange(r) && ',' !in FormatRange(r) && FormatRange(r) != []
  {
    PadIsDigits(r.lo, r.width);
    PadIsDigits(r.hi, r.width);
  }

  // ----- expanding a rendered term

  lemma FormatRangesText(ranges: seq<Range>)
    ensures NoneHolds(FormatRanges(ranges), ',') && NoneHolds(FormatRanges(ranges), ']')
    ensures NoneHolds(FormatRanges(ranges), '[')
  {
    forall k | 0 <= k < |ranges|
      ensures ',' !in FormatRanges(ranges)[k] && ']' !in FormatRanges(ranges)[k] && '[' !in FormatRanges(ranges)[k]
    {
      FormatRangeText(ranges[k]);
    }
  }

  function RangeItem(r: Range): Item {
    if r.lo == r.hi then Word(Pad(r.lo, r.width)) else Dashed(Pad(r.lo, r.width), Pad(r.hi, r.width))
  }

  function RangeItems(ranges: seq<Range>): (items: seq<Item>)
    ensures |items| == |ranges| && forall k :: 0 <= k < |ranges| ==> items[k] == RangeItem(ranges[k])
  {
    seq(|ranges|, k requires 0 <= k < |ranges| => RangeItem(ranges[k]))
  }

  lemma RangeItemIsExact(r: Range)
    requires r.lo <= r.hi <= U64_MAX
    ensures ValidItem(RangeItem(r)) && Reads(RangeItem(r)) && PrintItem(RangeItem(r)) == FormatRange(r)
    ensures ItemNames(RangeItem(r)) == RangeTexts(r)
  {
    PadIsDigits(r.lo, r.width);
    PadIsDigits(r.hi, r.width);
    if r.lo == r.hi {
      SpanOne(r.lo, r.width);
    } else {
      ParseU64OfPad(r.lo, r.width);
      ParseU64OfPad(r.hi, r.width);
      PrintedWidth(r);
    }
  }

  lemma RangeItemsPrint(ranges: seq<Range>)
    requires Bounded(ranges)
    ensures ValidItems(RangeItems(ranges)) && AllRead(RangeItems(ranges))
    ensures PrintItems(RangeItems(ranges)) == FormatRanges(ranges)
  {
    var items := RangeItems(ranges);
    forall k | 0 <= k < |ranges|
      ensures ValidItem(items[k]) && Reads(items[k]) && PrintItem(items[k]) == FormatRange(ranges[k])
    {
      RangeItemIsExact(ranges[k]);
    }
  }

  lemma {:induction false} RangeItemsNames(ranges: seq<Range>)
    requires Bounded(ranges) && AllRead(RangeItems(ranges))
    ensures ItemsNames(RangeItems(ranges)) == Flatten(ranges)
  {
    if ranges != [] {
      var items := RangeItems(ranges);
      assert items[1..] == RangeItems(ranges[1..]);
      RangeItemsNames(ranges[1..]);
      RangeItemIsExact(ranges[0]);
      assert ranges == [ranges[0]] + ranges[1..];
      FlattenCons(ranges[0], ranges[1..]);
    }
  }

  lemma OneBracketPrints(prefix: string, items: seq<Item>)
    ensures prefix + Print([Bracket(items)]) == prefix + "[" + Join(PrintItems(items), ",") + "]"
  {
    var pieces := [Bracket(items)];
    assert pieces[1..] == [];
    assert Print(pieces[1..]) == "";
  }

  lemma ExpandBracketed(prefix: string, ranges: seq<Range>, results: seq<string>)
    requires PlainText(prefix) && ']' !in prefix
    requires ranges != [] && Bounded(ranges) && |results| <= MAX_HOSTLIST_SIZE
    ensures ExpandSingle(prefix + "[" + Join(FormatRanges(ranges), ",") + "]", results)
         == Capped(results, Prefixed(prefix, Flatten(ranges)))
  {
    var items := RangeItems(ranges);
    RangeItemsPrint(ranges);
    RangeItemsNames(ranges);
    OneBracketPrints(prefix, items);
    OnlyBracket(items);
    ExpandProduct([Bracket(items)], prefix, results);
  }

  predicate Bracketed(ranges: seq<Range>) {
    !(|ranges| == 1 && ranges[0].lo == ranges[0].hi)
  }

  lemma RenderUnbracketed(prefix: string, r: Range)
    requires r.lo == r.hi
    ensures RenderPrefix(prefix, [r]) == prefix + Pad(r.lo, r.width)
    ensures Prefixed(prefix, Flatten([r])) == [prefix + Pad(r.lo, r.width)]
  {
    assert FormatRanges([r]) == [FormatRange(r)];
    FlattenCons(r, []);
    assert [r] == [r] + [];
    SpanOne(r.lo, r.width);
  }

  lemma ExpandUnbracketed(prefix: string, ranges: seq<Range>, results: seq<string>)
    requires PlainText(prefix) && !Bracketed(ranges)
    ensures ExpandSingle(RenderPrefix(prefix, ranges), results) == Capped(results, Prefixed(prefix, Flatten(ranges)))
  {
    var r := ranges[0];
    var name := prefix + Pad(r.lo, r.width);
    assert ranges == [r];
    RenderUnbracketed(prefix, r);
    PadIsDigits(r.lo, r.width);
    ExpandBare(name, results);
  }

  function TermNames(t: Term): seq<string> {
    match t case Bare(name) => [name] case Numeric(prefix, nums) => Prefixed(prefix, NumTexts(nums))
  }

  function AllNames(terms: seq<Term>): seq<string> {
    if terms == [] then [] else TermNames(terms[0]) + AllNames(terms[1..])
  }

  /** What every term made from clean names looks like. */
  predicate Shaped(t: Term) {
    match t
    case Bare(name) => Clean(name)
    case Numeric(prefix, nums) =>
      && prefix != "" && PlainText(prefix) && !IsWhitespace(prefix[0])
      && nums != [] && forall k :: 0 <= k < |nums| ==> nums[k].value <= U64_MAX
  }

  /** A term that expands: brackets do not follow a prefix that holds `]`. */
  predicate Sound(t: Term) {
    t.Numeric? ==> ']' !in t.prefix || |t.nums| < 2
  }

  predicate AllSound(terms: seq<Term>) {
    forall k :: 0 <= k < |terms| ==> Sound(terms[k])
  }

  predicate AllShaped(terms: seq<Term>) {
    forall k :: 0 <= k < |terms| ==> Shaped(terms[k])
  }

  lemma PrefixedDistinct(prefix: string, texts: seq<string>)
    requires Distinct(Prefixed(prefix, texts))
    ensures Distinct(texts)
  {
    forall i, j | 0 <= i < j < |texts| ensures texts[i] != texts[j] {
      assert Prefixed(prefix, texts)[i] != Prefixed(prefix, texts)[j];
    }
  }

  lemma OneIsUnbracketed(num: Num)
    ensures !Bracketed(Coalesced([num]))
  {
    assert [num][..0] == [];
    assert Coalesced([num]) == Coalesce([], num);
  }

  lemma UnbracketedIsOne(ranges: seq<Range>)
    ensures !Bracketed(ranges) ==> |Flatten(ranges)| == 1
  {
    if !Bracketed(ranges) {
      FlattenCons(ranges[0], []);
      assert ranges == [ranges[0]] + [];
      SpanLength(ranges[0].lo, ranges[0].hi, ranges[0].width);
    }
  }

  lemma SeveralAreBracketed(nums: seq<Num>)
    requires |nums| >= 2 && Distinct(NumTexts(nums))
    ensures Bracketed(Coalesced(nums))
  {
    CoalescedIsExact(nums);
    UnbracketedIsOne(Coalesced(nums));
  }

  lemma ExpandSoundTerm(t: Term, results: seq<string>)
    requires Shaped(t) && Sound(t) && Distinct(TermNames(t)) && |results| <= MAX_HOSTLIST_SIZE
    ensures ExpandSingle(Render(t), results) == Capped(results, TermNames(t))
  {
    match t
    case Bare(name) =>
      ExpandBare(name, results);
    case Numeric(prefix, nums) =>
      PrefixedDistinct(prefix, NumTexts(nums));
      CoalescedIsExact(nums);
      CoalescedIsBounded(nums);
      if |nums| == 1 {
        OneIsUnbracketed(nums[0]);
        assert nums == [nums[0]];
        ExpandUnbracketed(prefix, Coalesced(nums), results);
      } else {
        SeveralAreBracketed(nums);
        ExpandBracketed(prefix, Coalesced(nums), results);
      }
  }

  lemma ExpandUnsoundTerm(t: Term, results: seq<string>)
    requires Shaped(t) && !Sound(t) && Distinct(TermNames(t))
    ensures ExpandSingle(Render(t), results) == Err
  {
    PrefixedDistinct(t.prefix, NumTexts(t.nums));
    SeveralAreBracketed(t.nums);
    var body := Join(FormatRanges(Coalesced(t.nums)), ",");
    assert t.prefix + "[" + body + "]" == t.prefix + "[" + (body + "]");
    ExpandAfterClose(t.prefix, body + "]", results);
  }

  lemma RenderPrefixIsTrimmed(prefix: string, ranges: seq<Range>)
    requires prefix != "" && !IsWhitespace(prefix[0]) && ranges != []
    ensures Trim(RenderPrefix(prefix, ranges)) == RenderPrefix(prefix, ranges)
  {
    var text := RenderPrefix(prefix, ranges);
    assert text[0] == prefix[0];
    if |ranges| == 1 && ranges[0].lo == ranges[0].hi {
      var r := ranges[0];
      PadIsDigits(r.lo, r.width);
      var digits := Pad(r.lo, r.width);
      assert FormatRanges(ranges) == [digits];
      assert text == prefix + digits;
      assert IsDigit(digits[|digits| - 1]);
    } else {
      assert text[|text| - 1] == ']';
    }
    TrimTrimmed(text);
  }

  lemma CoalescedNonEmpty(nums: seq<Num>)
    requires nums != []
    ensures Coalesced(nums) != []
  {}

  lemma RenderIsTrimmed(t: Term)
    requires Shaped(t)
    ensures Trim(Render(t)) == Render(t)
  {
    match t
    case Bare(name) => TrimTrimmed(name);
    case Numeric(prefix, nums) =>
      CoalescedNonEmpty(nums);
      RenderPrefixIsTrimmed(prefix, Coalesced(nums));
  }

  // ----- splitting the pattern back into its terms

  lemma SplitTopTerm(t: Term, rest: string)
    requires Shaped(t)
    ensures SplitTopFrom(Render(t) + rest, 0, "") == SplitTopFrom(rest, 0, Render(t))
  {
    match t
    case Bare(name) =>
      SplitTopPlain(name, rest, 0, "");
      assert "" + name == name;
    case Numeric(prefix, nums) =>
      CoalescedNonEmpty(nums);
      SplitTopPrefix(prefix, Coalesced(nums), rest);
  }

  lemma SplitTopPrefix(prefix: string, ranges: seq<Range>, rest: string)
    requires PlainText(prefix) && ranges != []
    ensures SplitTopFrom(RenderPrefix(prefix, ranges) + rest, 0, "")
         == SplitTopFrom(rest, 0, RenderPrefix(prefix, ranges))
  {
    FormatRangesText(ranges);
    var parts := FormatRanges(ranges);
    if |ranges| == 1 && ranges[0].lo == ranges[0].hi {
      assert Join(parts, ",") == parts[0];
      SplitTopPlain(prefix + parts[0], rest, 0, "");
      assert "" + (prefix + parts[0]) == prefix + parts[0];
    } else {
      JoinKeepsOut(parts, ",", '[');
      JoinKeepsOut(parts, ",", ']');
      SplitTopBracketed(prefix, Join(parts, ","), rest);
    }
  }

  lemma {:induction false} SplitRendered(terms: seq<Term>)
    requires terms != [] && AllShaped(terms)
    ensures SplitTopFrom(Join(RenderAll(terms), ","), 0, "") == RenderAll(terms)
  {
    var first, rest := terms[0], terms[1..];
    if rest == [] {
      SplitTopTerm(first, "");
      assert Render(first) + "" == Render(first);
    } else {
      assert RenderAll(terms)[1..] == RenderAll(rest);
      var tail := "," + Join(RenderAll(rest), ",");
      assert Join(RenderAll(terms), ",") == Render(first) + tail;
      SplitTopTerm(first, tail);
      assert tail[1..] == Join(RenderAll(rest), ",");
      SplitRendered(rest);
    }
  }

  lemma DistinctParts(a: seq<string>, b: seq<string>)
    requires Distinct(a + b)
    ensures Distinct(a) && Distinct(b)
  {
    forall i, j | 0 <= i < j < |a| ensures a[i] != a[j] {
      assert (a + b)[i] != (a + b)[j];
    }
    forall i, j | 0 <= i < j < |b| ensures b[i] != b[j] {
      assert (a + b)[|a| + i] != (a + b)[|a| + j];
    }
  }

  lemma {:induction false} NonEmptyKeeps(names: seq<string>)
    requires "" !in names
    ensures NonEmpty(names) == names
  {
    if names != [] {
      NonEmptyKeeps(names[..|names| - 1]);
    }
  }

  lemma {:induction false} NamesAreNotEmpty(terms: seq<Term>)
    requires AllShaped(terms)
    ensures "" !in AllNames(terms)
  {
    if terms != [] {
      NamesAreNotEmpty(terms[1..]);
    }
  }

  function NameLists(terms: seq<Term>): (lists: seq<seq<string>>)
    ensures |lists| == |terms| && forall k :: 0 <= k < |terms| ==> lists[k] == TermNames(terms[k])
  {
    seq(|terms|, k requires 0 <= k < |terms| => TermNames(terms[k]))
  }

  lemma {:induction false} ConcatNameLists(terms: seq<Term>)
    ensures Concat(NameLists(terms)) == AllNames(terms)
  {
    if terms != [] {
      ConcatNameLists(terms[1..]);
      assert NameLists(terms)[1..] == NameLists(terms[1..]);
    }
  }

  lemma {:induction false} NamesOfOneAreDistinct(terms: seq<Term>, k: nat)
    requires k < |terms| && Distinct(AllNames(terms))
    ensures Distinct(TermNames(terms[k]))
  {
    DistinctParts(TermNames(terms[0]), AllNames(terms[1..]));
    if k > 0 {
      NamesOfOneAreDistinct(terms[1..], k - 1);
    }
  }

  lemma TermExpands(t: Term)
    requires Shaped(t) && Distinct(TermNames(t))
    ensures if Sound(t) then Expands(ExpandTrimmed, Render(t), TermNames(t)) else Fails(ExpandTrimmed, Render(t))
  {
    RenderIsTrimmed(t);
    forall r: seq<string> | |r| <= MAX_HOSTLIST_SIZE
      ensures ExpandTrimmed(Render(t), r) == if Sound(t) then Capped(r, TermNames(t)) else Err
    {
      if Sound(t) {
        ExpandSoundTerm(t, r);
      } else {
        ExpandUnsoundTerm(t, r);
      }
    }
  }

  lemma TermsExpand(terms: seq<Term>)
    requires AllShaped(terms) && Distinct(AllNames(terms))
    ensures forall k :: 0 <= k < |terms| ==>
      if Sound(terms[k]) then Expands(ExpandTrimmed, RenderAll(terms)[k], NameLists(terms)[k])
      else Fails(ExpandTrimmed, RenderAll(terms)[k])
  {
    forall k | 0 <= k < |terms|
      ensures
        if Sound(terms[k]) then Expands(ExpandTrimmed, RenderAll(terms)[k], NameLists(terms)[k])
        else Fails(ExpandTrimmed, RenderAll(terms)[k])
    {
      NamesOfOneAreDistinct(terms, k);
      TermExpands(terms[k]);
    }
  }

  lemma ExpandOfTexts(pattern: string, texts: seq<string>, names: seq<string>)
    requires SplitTopFrom(pattern, 0, "") == texts
    requires ExpandEach(ExpandTrimmed, texts, []) == Capped([], names) && "" !in names
    ensures Expand(pattern) == Capped([], names)
  {
    NonEmptyKeeps(names);
    assert [] + names == names;
  }

  /** A pattern printed from sound terms expands to their names, in order. */
  lemma ExpandOfSound(terms: seq<Term>)
    requires terms != [] && AllShaped(terms) && AllSound(terms) && Distinct(AllNames(terms))
    ensures Expand(Join(RenderAll(terms), ",")) == Capped([], AllNames(terms))
  {
    SplitRendered(terms);
    TermsExpand(terms);
    ExpandEachIs(ExpandTrimmed, RenderAll(terms), NameLists(terms), []);
    ConcatNameLists(terms);
    NamesAreNotEmpty(terms);
    ExpandOfTexts(Join(RenderAll(terms), ","), RenderAll(terms), AllNames(terms));
  }

  lemma TermsAreDecided(terms: seq<Term>)
    requires AllShaped(terms) && Distinct(AllNames(terms))
    ensures EachDecided(ExpandTrimmed, RenderAll(terms), NameLists(terms))
  {
    TermsExpand(terms);
  }

  lemma UnsoundFails(terms: seq<Term>, k: nat)
    requires AllShaped(terms) && k < |terms| && !Sound(terms[k]) && Distinct(AllNames(terms))
    ensures ExpandEach(ExpandTrimmed, RenderAll(terms), []) == Err
  {
    TermsAreDecided(terms);
    NamesOfOneAreDistinct(terms, k);
    TermExpands(terms[k]);
    ExpandEachFails(ExpandTrimmed, RenderAll(terms), NameLists(terms), k, []);
  }

  /** One unsound term makes the whole pattern an error. */
  lemma ExpandOfUnsound(terms: seq<Term>, k: nat)
    requires AllShaped(terms) && k < |terms| && !Sound(terms[k]) && Distinct(AllNames(terms))
    ensures Expand(Join(RenderAll(terms), ",")) == Err
  {
    SplitRendered(terms);
    UnsoundFails(terms, k);
    ExpandOfEach(Join(RenderAll(terms), ","), RenderAll(terms), Err);
  }

  lemma EmptyPattern()
    ensures Expand("") == Ok([])
  {
    ExpandBare("", []);
    var one := [""];
    assert Trim(one[0]) == "" && one[1..] == [] && one[..0] == [];
    assert [] + one == one;
    assert SplitTopFrom("", 0, "") == one;
    assert ExpandEach(ExpandTrimmed, one, []) == ExpandEach(ExpandTrimmed, one[1..], one);
    assert NonEmpty(one) == NonEmpty(one[..0]);
  }
}
