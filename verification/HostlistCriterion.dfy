/** Exactly which host lists survive compressing and expanding (`spur_core::hostlist`). */
module HostlistCriterion {
  import opened Text
  import opened Padding
  import opened HostRanges
  import opened Sorting
  import opened Hostlist
  import opened HostlistExpansion
  import opened HostlistProduct
  import opened HostGroups
  import opened HostlistRoundTrip
  import opened HostlistNames

  // ----- the terms of names without an opening bracket

  predicate Loose(t: Term) {
    match t
    case Bare(name) => '[' !in name
    case Numeric(prefix, nums) =>
      '[' !in prefix && nums != [] && forall k :: 0 <= k < |nums| ==> nums[k].value <= U64_MAX
  }

  predicate AllLoose(terms: seq<Term>) {
    forall k :: 0 <= k < |terms| ==> Loose(terms[k])
  }

  lemma PrefixIsLoose(name: string, prefix: string)
    requires '[' !in name && HasPrefix(name, prefix)
    ensures '[' !in prefix
  {
    assert prefix == name[..DigitStart(name)];
  }

  lemma NumsFit(prefix: string, hosts: seq<string>, num: Num)
    requires num in NumsOf(prefix, hosts)
    ensures num.value <= U64_MAX
  {
    NumsOfMember(prefix, hosts, num);
    var h :| h in hosts && HasPrefix(h, prefix) && SplitNameNumber(h).value.num == num;
    SplitNameIsExact(h);
  }

  lemma GatheredIsLoose(hosts: seq<string>, t: Term)
    requires NoneHolds(hosts, '[') && t in Gather(hosts)
    ensures Loose(t)
  {
    BareTermsAre(hosts, t);
    NumericTermsAre(hosts, t);
    if t.Numeric? {
      var i := OneHost(t.prefix, hosts);
      PrefixIsLoose(hosts[i], t.prefix);
      forall k | 0 <= k < |t.nums| ensures t.nums[k].value <= U64_MAX {
        NumsFit(t.prefix, hosts, t.nums[k]);
      }
    }
  }

  lemma SortedIsLoose(t: Term)
    requires Loose(t)
    ensures Loose(SortedTerm(t))
  {
    if t.Numeric? {
      var sorted := SortNums(t.nums);
      SortMembers(t.nums, NumBefore, t.nums[0]);
      forall k | 0 <= k < |sorted| ensures sorted[k].value <= U64_MAX {
        SortMembers(t.nums, NumBefore, sorted[k]);
      }
    }
  }

  lemma TermsAreLoose(hosts: seq<string>, before: TermOrder)
    requires NoneHolds(hosts, '[')
    ensures AllLoose(Terms(hosts, before))
  {
    var unique, terms := Unique(hosts), Terms(hosts, before);
    UniqueMembers(hosts);
    forall k | 0 <= k < |unique| ensures '[' !in unique[k] {
      assert unique[k] in hosts;
    }
    forall k | 0 <= k < |terms| ensures Loose(terms[k]) {
      ArrangeMembers(Gather(unique), before, terms[k]);
      var t :| t in Gather(unique) && terms[k] == SortedTerm(t);
      GatheredIsLoose(unique, t);
      SortedIsLoose(t);
    }
  }

  // ----- the parts such a pattern splits into

  function BracketText(prefix: string, ranges: seq<Range>): string {
    prefix + ("[" + Join(FormatRanges(ranges), ",") + "]")
  }

  ghost predicate IsBracket(part: string, prefix: string, ranges: seq<Range>) {
    PlainText(prefix) && ranges != [] && Bounded(ranges) && part == BracketText(prefix, ranges)
  }

  /** Plain text, or plain text and one printed bracket. */
  ghost predicate Simple(part: string) {
    PlainText(part) || exists prefix, ranges :: IsBracket(part, prefix, ranges)
  }

  ghost predicate AllSimple(parts: seq<string>) {
    forall k :: 0 <= k < |parts| ==> Simple(parts[k])
  }

  /** Text without an opening bracket splits at its commas into plain parts. */
  lemma {:induction false} SplitPlain(s: string, rest: string, current: string)
    returns (done: seq<string>, last: string)
    requires '[' !in s && PlainText(current)
    ensures SplitTopFrom(s + rest, 0, current) == done + SplitTopFrom(rest, 0, last)
    ensures AllSimple(done) && PlainText(last)
    decreases |s|
  {
    if s == [] {
      done, last := [], current;
      assert s + rest == rest;
    } else {
      assert (s + rest)[1..] == s[1..] + rest;
      if s[0] == ',' {
        done, last := SplitPlain(s[1..], rest, "");
        Assoc([current], done, SplitTopFrom(rest, 0, last));
        done := [current] + done;
      } else {
        done, last := SplitPlain(s[1..], rest, current + [s[0]]);
      }
    }
  }

  /** A printed bracket stays in the part it is in. */
  lemma SplitBracket(prefix: string, body: string, rest: string)
    requires '[' !in body && ']' !in body
    ensures SplitTopFrom("[" + body + "]" + rest, 0, prefix) == SplitTopFrom(rest, 0, prefix + ("[" + body + "]"))
  {
    var tail := "]" + rest;
    assert "[" + body + "]" + rest == "[" + (body + tail);
    assert ("[" + (body + tail))[1..] == body + tail && tail[1..] == rest;
    SplitTopPlain(body, tail, 1, prefix + "[");
    assert prefix + "[" + body + "]" == prefix + ("[" + body + "]");
  }

  lemma SplitLoosePrefix(prefix: string, ranges: seq<Range>, rest: string)
    returns (done: seq<string>, last: string)
    requires '[' !in prefix && ranges != [] && Bounded(ranges)
    ensures SplitTopFrom(RenderPrefix(prefix, ranges) + rest, 0, "") == done + SplitTopFrom(rest, 0, last)
    ensures AllSimple(done) && Simple(last)
  {
    var parts := FormatRanges(ranges);
    FormatRangesText(ranges);
    if !Bracketed(ranges) {
      assert Join(parts, ",") == parts[0];
      done, last := SplitPlain(prefix + parts[0], rest, "");
    } else {
      var body := Join(parts, ",");
      JoinKeepsOut(parts, ",", '[');
      JoinKeepsOut(parts, ",", ']');
      var inner := "[" + body + "]" + rest;
      assert prefix + "[" + body + "]" + rest == prefix + inner;
      var q;
      done, q := SplitPlain(prefix, inner, "");
      SplitBracket(q, body, rest);
      last := BracketText(q, ranges);
      assert IsBracket(last, q, ranges);
    }
  }

  lemma SplitLooseTerm(t: Term, rest: string) returns (done: seq<string>, last: string)
    requires Loose(t)
    ensures SplitTopFrom(Render(t) + rest, 0, "") == done + SplitTopFrom(rest, 0, last)
    ensures AllSimple(done) && Simple(last)
  {
    match t
    case Bare(name) =>
      done, last := SplitPlain(name, rest, "");
    case Numeric(prefix, nums) =>
      CoalescedNonEmpty(nums);
      CoalescedIsBounded(nums);
      done, last := SplitLoosePrefix(prefix, Coalesced(nums), rest);
  }

  lemma SplitAtComma(more: string, last: string)
    ensures SplitTopFrom("," + more, 0, last) == [last] + SplitTopFrom(more, 0, "")
  {
    assert ("," + more)[1..] == more;
  }

  lemma AllSimpleConcat(a: seq<string>, b: seq<string>)
    requires AllSimple(a) && AllSimple(b)
    ensures AllSimple(a + b)
  {}

  lemma SplitLastTerm(t: Term)
    requires Loose(t)
    ensures AllSimple(SplitTopFrom(Render(t), 0, ""))
  {
    var done, last := SplitLooseTerm(t, "");
    assert Render(t) + "" == Render(t);
    AllSimpleConcat(done, [last]);
  }

  lemma SplitFirstTerm(t: Term, more: string)
    requires Loose(t) && AllSimple(SplitTopFrom(more, 0, ""))
    ensures AllSimple(SplitTopFrom(Render(t) + ("," + more), 0, ""))
  {
    var done, last := SplitLooseTerm(t, "," + more);
    SplitAtComma(more, last);
    AllSimpleConcat([last], SplitTopFrom(more, 0, ""));
    AllSimpleConcat(done, [last] + SplitTopFrom(more, 0, ""));
  }

  lemma JoinRendered(terms: seq<Term>)
    requires |terms| > 1
    ensures Join(RenderAll(terms), ",") == Render(terms[0]) + ("," + Join(RenderAll(terms[1..]), ","))
  {
    assert RenderAll(terms)[1..] == RenderAll(terms[1..]);
  }

  lemma {:induction false} SplitLooseTerms(terms: seq<Term>)
    requires terms != [] && AllLoose(terms)
    ensures AllSimple(SplitTopFrom(Join(RenderAll(terms), ","), 0, ""))
  {
    if |terms| == 1 {
      SplitLastTerm(terms[0]);
    } else {
      SplitLooseTerms(terms[1..]);
      SplitFirstTerm(terms[0], Join(RenderAll(terms[1..]), ","));
      JoinRendered(terms);
    }
  }

  // ----- what such parts expand to

  /** No white space around it. */
  predicate Edged(name: string) {
    name != "" ==> !IsWhitespace(name[0]) && !IsWhitespace(name[|name| - 1])
  }

  predicate Tidy(name: string) {
    ',' !in name && Edged(name)
  }

  predicate AllTidy(names: seq<string>) {
    forall k :: 0 <= k < |names| ==> Tidy(names[k])
  }

  lemma {:induction false} TrimStartKeepsOut(s: string, c: char)
    requires c !in s
    ensures c !in TrimStart(s)
  {
    if s != [] && IsWhitespace(s[0]) {
      TrimStartKeepsOut(s[1..], c);
    }
  }

  lemma TrimIsEdged(s: string)
    ensures Edged(Trim(s)) && Trim(s) <= TrimStart(s)
  {
    var t := TrimStart(s);
    var r := TrimEnd(t);
    assert r != "" ==> r[0] == t[0];
  }

  lemma TrimIsTidy(s: string)
    requires PlainText(s)
    ensures Tidy(Trim(s)) && '[' !in Trim(s)
  {
    TrimStartKeepsOut(s, ',');
    TrimStartKeepsOut(s, '[');
    TrimIsEdged(s);
  }

  lemma {:induction false} TrimStartBefore(s: string, rest: string)
    requires rest != "" && !IsWhitespace(rest[0])
    ensures TrimStart(s + rest) == TrimStart(s) + rest
  {
    if s == [] {
      assert s + rest == rest;
    } else {
      assert (s + rest)[1..] == s[1..] + rest;
      if IsWhitespace(s[0]) {
        TrimStartBefore(s[1..], rest);
      }
    }
  }

  lemma TrimEndIdentity(s: string)
    requires s != "" && !IsWhitespace(s[|s| - 1])
    ensures TrimEnd(s) == s
  {}

  lemma TrimClosed(s: string, rest: string)
    requires rest != "" && !IsWhitespace(rest[0]) && !IsWhitespace(rest[|rest| - 1])
    ensures Trim(s + rest) == TrimStart(s) + rest
  {
    TrimStartBefore(s, rest);
    var trimmed := TrimStart(s) + rest;
    assert trimmed[|trimmed| - 1] == rest[|rest| - 1];
    TrimEndIdentity(trimmed);
  }

  lemma TrimBracket(prefix: string, ranges: seq<Range>)
    ensures Trim(BracketText(prefix, ranges)) == BracketText(TrimStart(prefix), ranges)
  {
    var rest := "[" + Join(FormatRanges(ranges), ",") + "]";
    assert rest[0] == '[' && rest[|rest| - 1] == ']';
    TrimClosed(prefix, rest);
  }

  predicate Digits(text: string) {
    text != "" && AllDigits(text)
  }

  predicate AllAreDigits(texts: seq<string>) {
    forall k :: 0 <= k < |texts| ==> Digits(texts[k])
  }

  lemma {:induction false} SpanIsDigits(lo: nat, hi: nat, width: nat)
    ensures AllAreDigits(Span(lo, hi, width))
    decreases hi + 1 - lo
  {
    if lo <= hi {
      PadIsDigits(lo, width);
      SpanIsDigits(lo + 1, hi, width);
    }
  }

  lemma {:induction false} FlattenIsDigits(ranges: seq<Range>)
    ensures AllAreDigits(Flatten(ranges))
  {
    if ranges != [] {
      var last := ranges[|ranges| - 1];
      FlattenIsDigits(ranges[..|ranges| - 1]);
      SpanIsDigits(last.lo, last.hi, last.width);
    }
  }

  lemma DigitIsNotBlank(c: char)
    requires IsDigit(c)
    ensures !IsWhitespace(c)
  {}

  lemma NumberedIsEdged(q: string, digits: string)
    requires (q != "" ==> !IsWhitespace(q[0])) && Digits(digits)
    ensures Edged(q + digits)
  {
    var name := q + digits;
    DigitIsNotBlank(digits[0]);
    DigitIsNotBlank(digits[|digits| - 1]);
    assert name[|name| - 1] == digits[|digits| - 1];
    assert name[0] == if q == "" then digits[0] else q[0];
  }

  lemma NumberedIsTidy(prefix: string, digits: string)
    requires ',' !in prefix && Digits(digits)
    ensures Tidy(TrimStart(prefix) + digits)
  {
    TrimStartKeepsOut(prefix, ',');
    NumberedIsEdged(TrimStart(prefix), digits);
    assert ',' !in digits by { assert !IsDigit(','); }
  }

  lemma PrefixedIsTidy(prefix: string, texts: seq<string>)
    requires ',' !in prefix && AllAreDigits(texts)
    ensures AllTidy(Prefixed(TrimStart(prefix), texts))
  {
    forall k | 0 <= k < |texts| ensures Tidy(Prefixed(TrimStart(prefix), texts)[k]) {
      NumberedIsTidy(prefix, texts[k]);
    }
  }

  /** Still tidy, if it succeeds. */
  predicate StaysTidy(expanded: Outcome<seq<string>>) {
    expanded.Ok? ==> AllTidy(expanded.value) && |expanded.value| <= MAX_HOSTLIST_SIZE
  }

  lemma PushStaysTidy(results: seq<string>, name: string)
    requires AllTidy(results) && Tidy(name)
    ensures StaysTidy(Push(results, name))
  {}

  lemma ExpandPlainPart(part: string, results: seq<string>)
    requires PlainText(part) && AllTidy(results)
    ensures StaysTidy(ExpandTrimmed(part, results))
  {
    TrimIsTidy(part);
    ExpandBare(Trim(part), results);
    PushStaysTidy(results, Trim(part));
  }

  lemma CappedStaysTidy(results: seq<string>, names: seq<string>)
    requires AllTidy(results) && AllTidy(names)
    ensures StaysTidy(Capped(results, names))
  {}

  lemma ExpandBracketText(prefix: string, ranges: seq<Range>, results: seq<string>)
    requires PlainText(prefix) && ranges != [] && Bounded(ranges) && |results| <= MAX_HOSTLIST_SIZE
    ensures ExpandSingle(BracketText(prefix, ranges), results)
         == if ']' in prefix then Err else Capped(results, Prefixed(prefix, Flatten(ranges)))
  {
    var body := Join(FormatRanges(ranges), ",");
    if ']' in prefix {
      assert BracketText(prefix, ranges) == prefix + "[" + (body + "]");
      ExpandAfterClose(prefix, body + "]", results);
    } else {
      assert BracketText(prefix, ranges) == prefix + "[" + body + "]";
      ExpandBracketed(prefix, ranges, results);
    }
  }

  lemma ExpandBracketPart(part: string, prefix: string, ranges: seq<Range>, results: seq<string>)
    requires IsBracket(part, prefix, ranges) && AllTidy(results) && |results| <= MAX_HOSTLIST_SIZE
    ensures StaysTidy(ExpandTrimmed(part, results))
  {
    TrimBracket(prefix, ranges);
    TrimStartKeepsOut(prefix, ',');
    TrimStartKeepsOut(prefix, '[');
    ExpandBracketText(TrimStart(prefix), ranges, results);
    FlattenIsDigits(ranges);
    PrefixedIsTidy(prefix, Flatten(ranges));
    CappedStaysTidy(results, Prefixed(TrimStart(prefix), Flatten(ranges)));
  }

  lemma ExpandSimplePart(part: string, results: seq<string>)
    requires Simple(part) && AllTidy(results) && |results| <= MAX_HOSTLIST_SIZE
    ensures StaysTidy(ExpandTrimmed(part, results))
  {
    if PlainText(part) {
      ExpandPlainPart(part, results);
    } else {
      var prefix, ranges :| IsBracket(part, prefix, ranges);
      ExpandBracketPart(part, prefix, ranges, results);
    }
  }

  lemma {:induction false} ExpandSimpleParts(parts: seq<string>, results: seq<string>)
    requires AllSimple(parts) && AllTidy(results) && |results| <= MAX_HOSTLIST_SIZE
    ensures StaysTidy(ExpandEach(ExpandTrimmed, parts, results))
    decreases |parts|
  {
    if parts != [] {
      ExpandSimplePart(parts[0], results);
      var longer := ExpandTrimmed(parts[0], results);
      if longer.Ok? {
        ExpandSimpleParts(parts[1..], longer.value);
      }
    }
  }

  /** Whatever such a list expands to is a list of tidy names. */
  lemma ExpandedIsTidy(pattern: string, name: string)
    requires AllSimple(SplitTopFrom(pattern, 0, "")) && Listed(Expand(pattern), name)
    ensures name != "" && Tidy(name)
  {
    ListedBeforeEmptiesGo(pattern, name);
    ExpandSimpleParts(SplitTopFrom(pattern, 0, ""), []);
  }

  // ----- the criterion

  /** Every host comes back, exactly once. */
  ghost predicate RoundTrips(hosts: seq<string>, before: TermOrder) {
    var expanded := Expand(Compress(hosts, before));
    expanded.Ok? && multiset(expanded.value) == multiset(HostSet(hosts))
  }

  lemma RoundTripIsListed(hosts: seq<string>, before: TermOrder, name: string)
    requires RoundTrips(hosts, before) && name in hosts
    ensures Listed(Expand(Compress(hosts, before)), name)
  {
    assert name in multiset(HostSet(hosts));
  }

  lemma TidyIsClean(name: string)
    requires name != "" && Tidy(name) && '[' !in name
    ensures Clean(name)
  {}

  lemma SomeTerm(hosts: seq<string>, before: TermOrder, name: string)
    requires name in hosts
    ensures Terms(hosts, before) != []
  {
    TermsNameTheHosts(hosts, before);
    assert name in multiset(HostSet(hosts));
    assert multiset(AllNames(Terms(hosts, before)))[name] > 0;
  }

  lemma RoundTripIsClean(hosts: seq<string>, before: TermOrder, name: string)
    requires NoneHolds(hosts, '[') && RoundTrips(hosts, before) && name in hosts
    ensures Clean(name)
  {
    RoundTripIsListed(hosts, before, name);
    TermsAreLoose(hosts, before);
    SomeTerm(hosts, before, name);
    SplitLooseTerms(Terms(hosts, before));
    ExpandedIsTidy(Compress(hosts, before), name);
    TidyIsClean(name);
  }

  /** For every list, in any term order: every host comes back exactly once and no name holds
      an opening bracket, if and only if every name is clean, no two share a prefix that
      holds a closing bracket, and there are not too many. */
  lemma RoundTrip(hosts: seq<string>, before: TermOrder)
    ensures RoundTrips(hosts, before) && NoneHolds(hosts, '[')
       <==> AllClean(hosts) && NoSharedClose(hosts) && |HostSet(hosts)| <= MAX_HOSTLIST_SIZE
  {
    if RoundTrips(hosts, before) && NoneHolds(hosts, '[') {
      forall k | 0 <= k < |hosts| ensures Clean(hosts[k]) {
        RoundTripIsClean(hosts, before, hosts[k]);
      }
    }
    if AllClean(hosts) {
      CleanRoundTrip(hosts, before);
    }
  }
}
