/** Expanding a compressed host list gives back the hosts (`spur_core::hostlist`). */
module HostlistRoundTrip {
  import opened Text
  import opened HostRanges
  import opened Sorting
  import opened Hostlist
  import opened HostlistExpansion
  import opened HostlistProduct
  import opened HostGroups

  function HostSet(hosts: seq<string>): set<string> {
    set h | h in hosts
  }

  // ----- no name is lost or added on the way to a pattern

  lemma InitAndLast<T>(xs: seq<T>)
    requires xs != []
    ensures xs == xs[..|xs| - 1] + [xs[|xs| - 1]]
  {}

  lemma {:induction false} UniqueMembers(hosts: seq<string>)
    ensures forall h :: h in Unique(hosts) <==> h in hosts
  {
    if hosts != [] {
      UniqueMembers(hosts[..|hosts| - 1]);
      assert hosts == hosts[..|hosts| - 1] + [hosts[|hosts| - 1]];
    }
  }

  ghost predicate EachOnce(names: seq<string>, hosts: set<string>) {
    multiset(names) == multiset(hosts)
  }

  lemma HostSetStep(init: seq<string>, last: string)
    ensures HostSet(init + [last]) == HostSet(init) + {last}
  {}

  lemma UniqueStep(init: seq<string>, last: string)
    requires EachOnce(Unique(init), HostSet(init))
    ensures EachOnce(Unique(init + [last]), HostSet(init + [last]))
  {
    assert (init + [last])[..|init|] == init;
    UniqueMembers(init);
    HostSetStep(init, last);
  }

  lemma {:induction false} UniqueEachOnce(hosts: seq<string>)
    ensures EachOnce(Unique(hosts), HostSet(hosts))
  {
    if hosts != [] {
      UniqueEachOnce(hosts[..|hosts| - 1]);
      UniqueStep(hosts[..|hosts| - 1], hosts[|hosts| - 1]);
      InitAndLast(hosts);
    }
  }

  lemma UniqueIs(hosts: seq<string>)
    ensures multiset(Unique(hosts)) == multiset(HostSet(hosts))
    ensures forall h :: h in Unique(hosts) <==> h in hosts
  {
    UniqueMembers(hosts);
    UniqueEachOnce(hosts);
  }

  lemma RepeatCounts(names: seq<string>, i: nat, j: nat)
    requires i < j < |names|
    ensures names[i] == names[j] ==> multiset(names)[names[i]] >= 2
  {
    assert names == names[..j] + [names[j]] + names[j + 1..];
    assert names[..j][i] == names[i];
  }

  lemma DistinctFromSet(names: seq<string>, s: set<string>)
    requires multiset(names) == multiset(s)
    ensures Distinct(names)
  {
    forall i, j | 0 <= i < j < |names| ensures names[i] != names[j] {
      RepeatCounts(names, i, j);
    }
  }

  lemma AllNamesCons(t: Term, terms: seq<Term>)
    ensures AllNames([t] + terms) == TermNames(t) + AllNames(terms)
  {
    assert ([t] + terms)[1..] == terms;
  }

  lemma {:induction false} AllNamesConcat(a: seq<Term>, b: seq<Term>)
    ensures AllNames(a + b) == AllNames(a) + AllNames(b)
  {
    if a == [] {
      assert a + b == b;
    } else {
      var first, rest := a[0], a[1..];
      AllNamesConcat(rest, b);
      AllNamesCons(first, rest + b);
      AllNamesCons(first, rest);
      assert a == [first] + rest;
      Assoc([first], rest, b);
      Assoc(TermNames(first), AllNames(rest), AllNames(b));
    }
  }

  lemma AllNamesOne(t: Term)
    ensures AllNames([t]) == TermNames(t)
  {
    assert [t][1..] == [];
  }

  lemma NumNamesConcat(prefix: string, a: seq<Num>, b: seq<Num>)
    ensures TermNames(Numeric(prefix, a + b)) == TermNames(Numeric(prefix, a)) + TermNames(Numeric(prefix, b))
  {}

  lemma NumNamesOne(prefix: string, num: Num)
    ensures TermNames(Numeric(prefix, [num])) == [prefix + num.Text()]
  {}

  lemma {:induction false} NumNamesTally(prefix: string, nums: seq<Num>, worth: Num -> multiset<string>)
    requires forall num :: worth(num) == multiset{prefix + num.Text()}
    ensures multiset(TermNames(Numeric(prefix, nums))) == Tally(nums, worth)
  {
    if nums != [] {
      NumNamesTally(prefix, nums[1..], worth);
      NumNamesOne(prefix, nums[0]);
      NumNamesConcat(prefix, [nums[0]], nums[1..]);
      assert nums == [nums[0]] + nums[1..];
    }
  }

  lemma SortedTermNames(t: Term)
    ensures multiset(TermNames(SortedTerm(t))) == multiset(TermNames(t))
  {
    if t.Numeric? {
      var worth := (num: Num) => multiset{t.prefix + num.Text()};
      NumNamesTally(t.prefix, t.nums, worth);
      NumNamesTally(t.prefix, SortNums(t.nums), worth);
      SortTally(t.nums, NumBefore, worth);
    }
  }

  lemma {:induction false} SortedTermsNames(terms: seq<Term>)
    ensures multiset(AllNames(SortedTerms(terms))) == multiset(AllNames(terms))
  {
    if terms != [] {
      SortedTermNames(terms[0]);
      SortedTermsNames(terms[1..]);
      assert SortedTerms(terms)[1..] == SortedTerms(terms[1..]);
    }
  }

  lemma {:induction false} AllNamesTally(terms: seq<Term>, worth: Term -> multiset<string>)
    requires forall t :: worth(t) == multiset(TermNames(t))
    ensures multiset(AllNames(terms)) == Tally(terms, worth)
  {
    if terms != [] {
      AllNamesTally(terms[1..], worth);
    }
  }

  lemma ArrangeNames(terms: seq<Term>, before: TermOrder)
    ensures multiset(AllNames(Arrange(terms, before))) == multiset(AllNames(terms))
  {
    var worth := (t: Term) => multiset(TermNames(t));
    SortedTermsNames(terms);
    AllNamesTally(SortedTerms(terms), worth);
    AllNamesTally(Arrange(terms, before), worth);
    SortTally(SortedTerms(terms), before, worth);
  }

  lemma {:induction false} AddNumberNames(groups: seq<Term>, prefix: string, num: Num)
    ensures multiset(AllNames(AddNumber(groups, prefix, num)))
         == multiset(AllNames(groups)) + multiset{prefix + num.Text()}
  {
    NumNamesOne(prefix, num);
    if groups == [] {
      AllNamesOne(Numeric(prefix, [num]));
    } else if groups[0].Numeric? && groups[0].prefix == prefix {
      var larger := Numeric(prefix, groups[0].nums + [num]);
      NumNamesConcat(prefix, groups[0].nums, [num]);
      assert ([larger] + groups[1..])[1..] == groups[1..];
    } else {
      AddNumberNames(groups[1..], prefix, num);
      var added := AddNumber(groups[1..], prefix, num);
      assert ([groups[0]] + added)[1..] == added;
    }
  }

  ghost function GatheredNames(hosts: seq<string>): multiset<string> {
    multiset(AllNames(BareTerms(hosts))) + multiset(AllNames(NumericTerms(hosts)))
  }

  lemma GatherNumbered(init: seq<string>, last: string)
    requires SplitNameNumber(last).Some?
    ensures GatheredNames(init + [last]) == GatheredNames(init) + multiset{last}
  {
    assert (init + [last])[..|init|] == init;
    var split := SplitNameNumber(last).value;
    SplitNameIsExact(last);
    AddNumberNames(NumericTerms(init), split.prefix, split.num);
    assert BareTerms(init) + [] == BareTerms(init);
  }

  lemma GatherBare(init: seq<string>, last: string)
    requires SplitNameNumber(last).None?
    ensures GatheredNames(init + [last]) == GatheredNames(init) + multiset{last}
  {
    assert (init + [last])[..|init|] == init;
    AllNamesConcat(BareTerms(init), [Bare(last)]);
    AllNamesOne(Bare(last));
  }

  lemma GatherStep(init: seq<string>, last: string)
    ensures GatheredNames(init + [last]) == GatheredNames(init) + multiset{last}
  {
    if SplitNameNumber(last).Some? {
      GatherNumbered(init, last);
    } else {
      GatherBare(init, last);
    }
  }

  ghost predicate Accounted(hosts: seq<string>) {
    GatheredNames(hosts) == multiset(hosts)
  }

  lemma NothingGathered()
    ensures Accounted([])
  {}

  lemma AccountedStep(init: seq<string>, last: string)
    requires Accounted(init)
    ensures Accounted(init + [last])
  {
    GatherStep(init, last);
  }

  /** Every host is in exactly one term. */
  lemma {:induction false} GatherNames(hosts: seq<string>)
    ensures Accounted(hosts)
  {
    if hosts == [] {
      NothingGathered();
    } else {
      var init, last := hosts[..|hosts| - 1], hosts[|hosts| - 1];
      GatherNames(init);
      AccountedStep(init, last);
      InitAndLast(hosts);
    }
  }

  // ----- the terms made from clean names

  predicate AllClean(hosts: seq<string>) {
    forall k :: 0 <= k < |hosts| ==> Clean(hosts[k])
  }

  lemma SplitNameShape(name: string)
    requires Clean(name) && SplitNameNumber(name).Some?
    ensures var split := SplitNameNumber(name).value; Shaped(Numeric(split.prefix, [split.num]))
  {
    SplitNameIsExact(name);
    var k := DigitStart(name);
    assert name[..k] <= name;
  }

  lemma {:induction false} AddNumberShape(groups: seq<Term>, prefix: string, num: Num)
    requires AllShaped(groups) && Shaped(Numeric(prefix, [num]))
    ensures AllShaped(AddNumber(groups, prefix, num))
  {
    assert num == [num][0];
    if groups != [] && !(groups[0].Numeric? && groups[0].prefix == prefix) {
      AddNumberShape(groups[1..], prefix, num);
    }
  }

  lemma {:induction false} GatherShape(hosts: seq<string>)
    requires AllClean(hosts)
    ensures AllShaped(BareTerms(hosts)) && AllShaped(NumericTerms(hosts))
  {
    if hosts != [] {
      var init, last := hosts[..|hosts| - 1], hosts[|hosts| - 1];
      GatherShape(init);
      if SplitNameNumber(last).Some? {
        SplitNameShape(last);
        AddNumberShape(NumericTerms(init), SplitNameNumber(last).value.prefix, SplitNameNumber(last).value.num);
      }
    }
  }

  lemma SortedTermShape(t: Term)
    requires Shaped(t)
    ensures Shaped(SortedTerm(t))
  {
    if t.Numeric? {
      var sorted := SortNums(t.nums);
      SortMembers(t.nums, NumBefore, t.nums[0]);
      forall k | 0 <= k < |sorted| ensures sorted[k].value <= U64_MAX {
        SortMembers(t.nums, NumBefore, sorted[k]);
      }
    }
  }

  lemma ArrangeShape(terms: seq<Term>, before: TermOrder)
    requires AllShaped(terms)
    ensures AllShaped(Arrange(terms, before))
  {
    forall k | 0 <= k < |Arrange(terms, before)| ensures Shaped(Arrange(terms, before)[k]) {
      var u := Arrange(terms, before)[k];
      ArrangeMembers(terms, before, u);
      var t :| t in terms && u == SortedTerm(t);
      SortedTermShape(t);
    }
  }

  // ----- which lists can be printed

  /** No two hosts share a prefix that holds `]`. */
  ghost predicate NoSharedClose(hosts: seq<string>) {
    forall a, b, prefix ::
      a in hosts && b in hosts && a != b && HasPrefix(a, prefix) && HasPrefix(b, prefix) ==> ']' !in prefix
  }

  function Terms(hosts: seq<string>, before: TermOrder): seq<Term> {
    Arrange(Gather(Unique(hosts)), before)
  }

  lemma UnsoundFromShared(hosts: seq<string>, before: TermOrder, a: string, b: string, prefix: string) returns (k: nat)
    requires a in hosts && b in hosts && a != b && HasPrefix(a, prefix) && HasPrefix(b, prefix) && ']' in prefix
    ensures k < |Terms(hosts, before)| && !Sound(Terms(hosts, before)[k])
  {
    var unique := Unique(hosts);
    UniqueIs(hosts);
    var i :| 0 <= i < |unique| && unique[i] == a;
    var j :| 0 <= j < |unique| && unique[j] == b;
    if i < j {
      TwoNumbers(prefix, unique, i, j);
    } else {
      TwoNumbers(prefix, unique, j, i);
    }
    var t := Numeric(prefix, NumsOf(prefix, unique));
    NumericTermsAre(unique, t);
    SortedTermSound(t);
    ArrangeMembers(Gather(unique), before, SortedTerm(t));
    k :| 0 <= k < |Terms(hosts, before)| && Terms(hosts, before)[k] == SortedTerm(t);
  }

  lemma SharedFromUnsound(hosts: seq<string>, before: TermOrder, k: nat)
    requires k < |Terms(hosts, before)| && !Sound(Terms(hosts, before)[k])
    ensures !NoSharedClose(hosts)
  {
    var unique := Unique(hosts);
    var u := Terms(hosts, before)[k];
    ArrangeMembers(Gather(unique), before, u);
    var t :| t in Gather(unique) && u == SortedTerm(t);
    SortedTermSound(t);
    BareTermsAre(unique, t);
    NumericTermsAre(unique, t);
    var i, j := TwoHosts(t.prefix, unique);
    UniqueIs(hosts);
    DistinctFromSet(unique, HostSet(hosts));
    assert unique[i] in hosts && unique[j] in hosts;
  }

  lemma TermsNameTheHosts(hosts: seq<string>, before: TermOrder)
    ensures multiset(AllNames(Terms(hosts, before))) == multiset(HostSet(hosts))
    ensures Distinct(AllNames(Terms(hosts, before)))
  {
    var unique := Unique(hosts);
    UniqueIs(hosts);
    GatherNames(unique);
    AllNamesConcat(BareTerms(unique), NumericTerms(unique));
    ArrangeNames(Gather(unique), before);
    DistinctFromSet(AllNames(Terms(hosts, before)), HostSet(hosts));
  }

  lemma TermsAreShaped(hosts: seq<string>, before: TermOrder)
    requires AllClean(hosts)
    ensures AllShaped(Terms(hosts, before))
  {
    var unique := Unique(hosts);
    UniqueIs(hosts);
    forall k | 0 <= k < |unique| ensures Clean(unique[k]) {
      assert unique[k] in hosts;
    }
    GatherShape(unique);
    ArrangeShape(Gather(unique), before);
  }

  // ----- the round trip

  lemma ExpandOfTerms(hosts: seq<string>, before: TermOrder)
    requires AllClean(hosts) && NoSharedClose(hosts)
    ensures Expand(Compress(hosts, before)) == Capped([], AllNames(Terms(hosts, before)))
  {
    var terms := Terms(hosts, before);
    TermsAreShaped(hosts, before);
    TermsNameTheHosts(hosts, before);
    forall k | 0 <= k < |terms| ensures Sound(terms[k]) {
      if !Sound(terms[k]) {
        SharedFromUnsound(hosts, before, k);
      }
    }
    if terms == [] {
      EmptyPattern();
    } else {
      ExpandOfSound(terms);
    }
  }

  lemma SharedCloseFails(hosts: seq<string>, before: TermOrder)
    requires AllClean(hosts) && !NoSharedClose(hosts)
    ensures Expand(Compress(hosts, before)) == Err
  {
    TermsAreShaped(hosts, before);
    TermsNameTheHosts(hosts, before);
    var a, b, prefix :|
      a in hosts && b in hosts && a != b && HasPrefix(a, prefix) && HasPrefix(b, prefix) && ']' in prefix;
    var k := UnsoundFromShared(hosts, before, a, b, prefix);
    ExpandOfUnsound(Terms(hosts, before), k);
  }

  lemma CappedNames(names: seq<string>, hosts: set<string>)
    requires multiset(names) == multiset(hosts)
    ensures Capped([], names) == if |hosts| <= MAX_HOSTLIST_SIZE then Ok(names) else Err
  {
    assert |names| == |multiset(names)|;
    assert [] + names == names;
  }

  /** Compressing clean names and expanding the pattern gives every host exactly once. It
      fails exactly when there are more hosts than a pattern may name, or two hosts share a
      prefix that holds a closing bracket. */
  lemma CleanRoundTrip(hosts: seq<string>, before: TermOrder)
    requires AllClean(hosts)
    ensures var expanded := Expand(Compress(hosts, before));
            && (expanded.Ok? <==> |HostSet(hosts)| <= MAX_HOSTLIST_SIZE && NoSharedClose(hosts))
            && (expanded.Ok? ==> multiset(expanded.value) == multiset(HostSet(hosts)))
  {
    if NoSharedClose(hosts) {
      ExpandOfTerms(hosts, before);
      TermsNameTheHosts(hosts, before);
      CappedNames(AllNames(Terms(hosts, before)), HostSet(hosts));
    } else {
      SharedCloseFails(hosts, before);
    }
  }
}
