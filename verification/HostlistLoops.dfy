/** The loops of `spur_core::hostlist`, proved against their specifications. */
module HostlistLoops {
  import opened Text
  import opened Padding
  import opened HostRanges
  import opened Hostlist
  import opened HostlistProduct

  // ----- compress

  method DropRepeats(hosts: seq<string>) returns (unique: seq<string>)
    ensures unique == Unique(hosts)
  {
    unique := [];
    var seen: set<string> := {};
    for i := 0 to |hosts|
      invariant unique == Unique(hosts[..i])
      invariant forall h :: h in seen <==> h in unique
    {
      assert hosts[..i + 1][..i] == hosts[..i];
      if hosts[i] !in seen {
        seen := seen + {hosts[i]};
        unique := unique + [hosts[i]];
      }
    }
    assert hosts[..|hosts|] == hosts;
  }

  predicate Under(t: Term, prefix: string) {
    t.Numeric? && t.prefix == prefix
  }

  /** Filing a number changes the first group of its prefix, or adds a group. */
  lemma {:induction false} AddNumberAt(groups: seq<Term>, prefix: string, num: Num, k: nat)
    requires k <= |groups| && forall i :: 0 <= i < k ==> !Under(groups[i], prefix)
    requires k < |groups| ==> Under(groups[k], prefix)
    ensures AddNumber(groups, prefix, num)
         == if k < |groups| then groups[k := Numeric(prefix, groups[k].nums + [num])]
            else groups + [Numeric(prefix, [num])]
  {
    if k > 0 {
      var rest := groups[1..];
      assert forall i :: 0 <= i < |rest| ==> rest[i] == groups[i + 1];
      AddNumberAt(rest, prefix, num, k - 1);
      assert AddNumber(groups, prefix, num) == [groups[0]] + AddNumber(rest, prefix, num);
    }
  }

  method FindGroup(groups: seq<Term>, prefix: string) returns (k: nat)
    ensures k <= |groups| && forall i :: 0 <= i < k ==> !Under(groups[i], prefix)
    ensures k < |groups| ==> Under(groups[k], prefix)
  {
    k := 0;
    while k < |groups| && !Under(groups[k], prefix)
      invariant k <= |groups| && forall i :: 0 <= i < k ==> !Under(groups[i], prefix)
    {
      k := k + 1;
    }
  }

  method GroupHosts(hosts: seq<string>) returns (bare: seq<Term>, numeric: seq<Term>)
    ensures bare == BareTerms(hosts) && numeric == NumericTerms(hosts)
  {
    bare, numeric := [], [];
    for i := 0 to |hosts|
      invariant bare == BareTerms(hosts[..i]) && numeric == NumericTerms(hosts[..i])
    {
      assert hosts[..i + 1][..i] == hosts[..i];
      match SplitNameNumber(hosts[i])
      case Some(split) =>
        var k := FindGroup(numeric, split.prefix);
        AddNumberAt(numeric, split.prefix, split.num, k);
        if k < |numeric| {
          numeric := numeric[k := Numeric(split.prefix, numeric[k].nums + [split.num])];
        } else {
          numeric := numeric + [Numeric(split.prefix, [split.num])];
        }
      case None =>
        bare := bare + [Bare(hosts[i])];
    }
    assert hosts[..|hosts|] == hosts;
  }

  method CompressHosts(hosts: seq<string>, before: TermOrder) returns (pattern: string)
    ensures pattern == Compress(hosts, before)
  {
    var unique := DropRepeats(hosts);
    if unique == [] {
      assert Arrange(Gather(unique), before) == [];
      return "";
    }
    var bare, numeric := GroupHosts(unique);
    pattern := Join(RenderAll(Arrange(bare + numeric, before)), ",");
  }

  // ----- expand

  method AddName(prefix: string, value: string, suffix: string, results: seq<string>) returns (r: Outcome<seq<string>>)
    requires ']' !in prefix && ']' !in value
    ensures r == ExpandName(prefix, value, suffix, results)
    decreases Closes(suffix) + 1, 0
  {
    var name := prefix + value + suffix;
    if '[' in suffix {
      ClosesConcat(prefix + value, suffix);
      NoCloses(prefix + value);
      r := ExpandInto(name, results);
    } else {
      r := Push(results, name);
    }
  }

  method AddRange(prefix: string, start: nat, end: nat, width: nat, suffix: string, results: seq<string>)
    returns (r: Outcome<seq<string>>)
    requires ']' !in prefix && start <= end
    ensures r == ExpandRange(prefix, start, end, width, suffix, results)
    decreases Closes(suffix) + 1, 1
  {
    var current := results;
    for i := start to end + 1
      invariant ExpandRange(prefix, start, end, width, suffix, results)
             == ExpandRange(prefix, i, end, width, suffix, current)
    {
      PadIsDigits(i, width);
      var added := AddName(prefix, Pad(i, width), suffix, current);
      if added.Err? {
        return Err;
      }
      current := added.value;
    }
    r := Ok(current);
  }

  lemma PartStep(prefix: string, parts: seq<string>, k: nat, suffix: string, results: seq<string>)
    requires ']' !in prefix && NoneHolds(parts, ']') && k < |parts|
    ensures ExpandParts(prefix, parts[k..], suffix, results)
         == match ExpandPart(prefix, parts[k], suffix, results)
            case Err => Err
            case Ok(longer) => ExpandParts(prefix, parts[k + 1..], suffix, longer)
  {
    assert parts[k..][1..] == parts[k + 1..];
  }

  method AddPart(prefix: string, part: string, suffix: string, results: seq<string>) returns (r: Outcome<seq<string>>)
    requires ']' !in prefix && ']' !in part
    ensures r == ExpandPart(prefix, part, suffix, results)
    decreases Closes(suffix) + 1, 2
  {
    match ParseRangeBounds(part)
    case BadRange =>
      r := Err;
    case NotARange =>
      r := AddName(prefix, part, suffix, results);
    case Bounds(start, end, width) =>
      if |results| + (end - start + 1) > MAX_HOSTLIST_SIZE {
        return Err;
      }
      r := AddRange(prefix, start, end, width, suffix, results);
  }

  method AddParts(prefix: string, parts: seq<string>, suffix: string, results: seq<string>)
    returns (r: Outcome<seq<string>>)
    requires ']' !in prefix && NoneHolds(parts, ']')
    ensures r == ExpandParts(prefix, parts, suffix, results)
    decreases Closes(suffix) + 1, 3
  {
    var current := results;
    for k := 0 to |parts|
      invariant ExpandParts(prefix, parts, suffix, results) == ExpandParts(prefix, parts[k..], suffix, current)
    {
      PartStep(prefix, parts, k, suffix, current);
      var added := AddPart(prefix, parts[k], suffix, current);
      if added.Err? {
        return Err;
      }
      current := added.value;
    }
    r := Ok(current);
  }

  lemma SingleIsParts(pattern: string, results: seq<string>, open: nat, close: nat)
    requires open == IndexOf(pattern, '[') && close == IndexOf(pattern, ']') && open < close < |pattern|
    ensures ']' !in pattern[..open] && NoneHolds(Split(pattern[open + 1..close], ','), ']')
    ensures Closes(pattern) == Closes(pattern[close + 1..]) + 1
    ensures ExpandSingle(pattern, results)
         == ExpandParts(pattern[..open], Split(pattern[open + 1..close], ','), pattern[close + 1..], results)
  {
    FirstCloses(pattern, close);
    FirstBracket(pattern, open, close);
  }

  lemma SingleMeans(pattern: string, results: seq<string>)
    ensures forall pieces :: ValidPieces(pieces) && pattern == Print(pieces) && |results| <= MAX_HOSTLIST_SIZE ==>
              ExpandSingle(pattern, results) == if PiecesRead(pieces) then Capped(results, Names(pieces)) else Err
  {
    forall pieces | ValidPieces(pieces) && pattern == Print(pieces) && |results| <= MAX_HOSTLIST_SIZE
      ensures ExpandSingle(pattern, results) == if PiecesRead(pieces) then Capped(results, Names(pieces)) else Err
    {
      if PiecesRead(pieces) {
        PiecesComplete(pieces);
        AloneExpands(pattern, Names(pieces), results);
      } else {
        PiecesRefused(pieces);
        AloneFails(pattern, results);
      }
    }
  }

  /** A term stands for the product of its brackets, and a text that is no range refuses it. */
  method ExpandInto(pattern: string, results: seq<string>) returns (r: Outcome<seq<string>>)
    ensures r == ExpandSingle(pattern, results)
    ensures forall pieces :: ValidPieces(pieces) && pattern == Print(pieces) && |results| <= MAX_HOSTLIST_SIZE ==>
              r == if PiecesRead(pieces) then Capped(results, Names(pieces)) else Err
    decreases Closes(pattern), 4
  {
    SingleMeans(pattern, results);
    var open := IndexOf(pattern, '[');
    if open == |pattern| {
      return Push(results, pattern);
    }
    var close := IndexOf(pattern, ']');
    if close == |pattern| || close < open {
      return Err;
    }
    SingleIsParts(pattern, results, open, close);
    var parts := Split(pattern[open + 1..close], ',');
    r := AddParts(pattern[..open], parts, pattern[close + 1..], results);
  }

  lemma PatternMeans(pattern: string)
    ensures forall terms :: terms != [] && ValidTerms(terms) && pattern == PatternText(terms) ==>
              Expand(pattern) == Meaning(terms)
  {
    forall terms | terms != [] && ValidTerms(terms) && pattern == PatternText(terms)
      ensures Expand(pattern) == Meaning(terms)
    {
      ExpandMeans(terms);
    }
  }

  /** A pattern stands for the products of its terms, in order. */
  method ExpandPattern(pattern: string) returns (r: Outcome<seq<string>>)
    ensures r == Expand(pattern)
    ensures forall terms :: terms != [] && ValidTerms(terms) && pattern == PatternText(terms) ==> r == Meaning(terms)
  {
    PatternMeans(pattern);
    var parts := SplitTopLevel(pattern);
    var results: seq<string> := [];
    for k := 0 to |parts|
      invariant ExpandEach(ExpandTrimmed, parts, []) == ExpandEach(ExpandTrimmed, parts[k..], results)
    {
      assert parts[k..][1..] == parts[k + 1..];
      var added := ExpandInto(Trim(parts[k]), results);
      if added.Err? {
        return Err;
      }
      results := added.value;
    }
    r := Ok(NonEmpty(results));
  }
}
