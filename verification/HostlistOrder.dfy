/** The order of a compressed host list (`spur_core::hostlist::compress`): the pattern does
    not depend on the order in which the hosts are given. */
module HostlistOrder {
  import opened HostRanges
  import opened Sorting
  import opened NaturalOrder
  import opened Hostlist
  import opened HostlistExpansion
  import opened HostGroups
  import opened HostlistRoundTrip

  // ----- the order of the terms

  function Spelling(t: Term): string {
    match t case Bare(name) => name case Numeric(prefix, _) => prefix
  }

  function MinNum(t: Term): nat {
    if t.Numeric? && t.nums != [] && Coalesced(t.nums) != [] then Coalesced(t.nums)[0].lo else 0
  }

  function BareFirst(t: Term, u: Term): Ordering {
    if t.Bare? == u.Bare? then Equal else if t.Bare? then Less else Greater
  }

  /** How `compress` compares two terms. */
  function TermCmp(t: Term, u: Term): Ordering {
    NaturalCmp(Spelling(t), Spelling(u)).Then(BareFirst(t, u)).Then(Compare(MinNum(t), MinNum(u)))
      .Then(Dictionary(Codes(Render(t)), Codes(Render(u))))
  }

  predicate NotAfter(t: Term, u: Term) {
    TermCmp(t, u) != Greater
  }

  /** The first two comparisons alone. */
  predicate TermLess(t: Term, u: Term) {
    NaturalCmp(Spelling(t), Spelling(u)).Then(BareFirst(t, u)) == Less
  }

  /** Terms are in the natural order of their names or prefixes, a bare name before the numbered hosts
      it is a prefix of. */
  lemma TermLessMeans(t: Term, u: Term)
    ensures TermLess(t, u)
       <==> NaturalLess(Spelling(t), Spelling(u)) || (Spelling(t) == Spelling(u) && t.Bare? && u.Numeric?)
  {
    NaturalOrderIsTotal(Spelling(t), Spelling(u));
  }

  predicate SameIdentity(t: Term, u: Term) {
    Spelling(t) == Spelling(u) && t.Bare? == u.Bare?
  }

  lemma TermLessPlaces(t: Term, u: Term)
    requires !SameIdentity(t, u)
    ensures Places(NotAfter, TermLess, t, u)
  {
    NaturalOrderIsTotal(Spelling(t), Spelling(u));
  }

  lemma TermLessIsStrict()
    ensures Transitive(TermLess) && Irreflexive(TermLess)
  {
    forall t, u, v | TermLess(t, u) && TermLess(u, v) ensures TermLess(t, v) {
      TermLessIsTransitive(t, u, v);
    }
    forall t ensures !TermLess(t, t) {
      NaturalOrderIsTotal(Spelling(t), Spelling(t));
    }
  }

  lemma TermLessIsTransitive(t: Term, u: Term, v: Term)
    requires TermLess(t, u) && TermLess(u, v)
    ensures TermLess(t, v)
  {
    NaturalOrderIsTotal(Spelling(t), Spelling(u));
    NaturalOrderIsTotal(Spelling(u), Spelling(v));
    NaturalOrderIsTotal(Spelling(t), Spelling(v));
    if NaturalLess(Spelling(t), Spelling(u)) && NaturalLess(Spelling(u), Spelling(v)) {
      NaturalOrderIsTransitive(Spelling(t), Spelling(u), Spelling(v));
    }
  }

  // ----- no two terms have the same spelling and kind

  predicate DistinctIdentities(terms: seq<Term>) {
    forall i, j :: 0 <= i < j < |terms| ==> !SameIdentity(terms[i], terms[j])
  }

  lemma {:induction false} GroupedIdentities(groups: seq<Term>)
    requires Grouped(groups)
    ensures DistinctIdentities(groups)
  {
    if groups != [] {
      GroupedIdentities(groups[1..]);
      forall j | 0 < j < |groups| ensures !SameIdentity(groups[0], groups[j]) {
        assert groups[j] == groups[1..][j - 1];
        GroupedMember(groups[1..], groups[j]);
      }
    }
  }

  lemma {:induction false} BareIdentities(hosts: seq<string>)
    requires Distinct(hosts)
    ensures DistinctIdentities(BareTerms(hosts))
  {
    if hosts != [] {
      var init, last := hosts[..|hosts| - 1], hosts[|hosts| - 1];
      BareIdentities(init);
      assert last !in init;
      forall i | 0 <= i < |BareTerms(init)| ensures BareTerms(init)[i].Bare? && BareTerms(init)[i].name != last {
        BareTermsAre(init, BareTerms(init)[i]);
      }
    }
  }

  lemma GatheredIdentities(hosts: seq<string>)
    requires Distinct(hosts)
    ensures DistinctIdentities(Gather(hosts))
  {
    BareIdentities(hosts);
    NumericTermsAreGrouped(hosts);
    GroupedIdentities(NumericTerms(hosts));
    var bare, numeric := BareTerms(hosts), NumericTerms(hosts);
    forall i, j | 0 <= i < |bare| && 0 <= j < |numeric| ensures !SameIdentity(bare[i], numeric[j]) {
      BareTermsAre(hosts, bare[i]);
      NumericTermsAre(hosts, numeric[j]);
    }
  }

  lemma TermsAscend(hosts: seq<string>)
    ensures Ascending(Terms(hosts, NotAfter), TermLess)
  {
    UniqueIs(hosts);
    DistinctFromSet(Unique(hosts), HostSet(hosts));
    GatheredIdentities(Unique(hosts));
    var sorted := SortedTerms(Gather(Unique(hosts)));
    forall i, j | 0 <= i < j < |sorted| ensures Places(NotAfter, TermLess, sorted[i], sorted[j]) {
      TermLessPlaces(sorted[i], sorted[j]);
    }
    TermLessIsStrict();
    SortAscends(sorted, NotAfter, TermLess);
  }

  // ----- the numbers of a prefix

  predicate NumLess(a: Num, b: Num) {
    a.value < b.value || (a.value == b.value && a.width < b.width)
  }

  predicate DistinctNums(nums: seq<Num>) {
    forall i, j :: 0 <= i < j < |nums| ==> nums[i] != nums[j]
  }

  lemma {:induction false} NumsOfAreDistinct(prefix: string, hosts: seq<string>)
    requires Distinct(hosts)
    ensures DistinctNums(NumsOf(prefix, hosts))
  {
    if hosts != [] {
      var init, last := hosts[..|hosts| - 1], hosts[|hosts| - 1];
      NumsOfAreDistinct(prefix, init);
      if HasPrefix(last, prefix) {
        var num := SplitNameNumber(last).value.num;
        NumsOfMember(prefix, init, num);
        if num in NumsOf(prefix, init) {
          var h :| h in init && HasPrefix(h, prefix) && SplitNameNumber(h).value.num == num;
          SplitNameIsExact(h);
          SplitNameIsExact(last);
          assert false;
        }
      }
    }
  }

  lemma SortedNumsAscend(nums: seq<Num>)
    requires DistinctNums(nums)
    ensures Ascending(SortNums(nums), NumLess)
  {
    assert Transitive(NumLess);
    forall i, j | 0 <= i < j < |nums| ensures Places(NumBefore, NumLess, nums[i], nums[j]) {
      assert nums[i] != nums[j];
    }
    SortAscends(nums, NumBefore, NumLess);
  }

  /** The sorted numbers of a prefix depend only on the set of hosts. */
  lemma SortedNumsOf(prefix: string, a: seq<string>, b: seq<string>)
    requires Distinct(a) && Distinct(b) && forall h :: h in a <==> h in b
    ensures SortNums(NumsOf(prefix, a)) == SortNums(NumsOf(prefix, b))
  {
    var m, n := NumsOf(prefix, a), NumsOf(prefix, b);
    NumsOfAreDistinct(prefix, a);
    NumsOfAreDistinct(prefix, b);
    SortedNumsAscend(m);
    SortedNumsAscend(n);
    forall num ensures num in SortNums(m) <==> num in SortNums(n) {
      NumsOfMember(prefix, a, num);
      NumsOfMember(prefix, b, num);
      SortMembers(m, NumBefore, num);
      SortMembers(n, NumBefore, num);
    }
    AscendingIsUnique(SortNums(m), SortNums(n), NumLess);
  }

  // ----- one pattern for a set of hosts

  lemma TermCarriesOver(a: seq<string>, b: seq<string>, t: Term) returns (u: Term)
    requires Distinct(a) && Distinct(b) && (forall h :: h in a <==> h in b) && t in Gather(a)
    ensures u in Gather(b) && SortedTerm(u) == SortedTerm(t)
  {
    BareTermsAre(a, t);
    NumericTermsAre(a, t);
    match t
    case Bare(_) =>
      u := t;
      BareTermsAre(b, u);
    case Numeric(prefix, nums) =>
      u := Numeric(prefix, NumsOf(prefix, b));
      SortedNumsOf(prefix, a, b);
      SortMembers(nums, NumBefore, nums[0]);
      SortMembers(u.nums, NumBefore, nums[0]);
      NumericTermsAre(b, u);
  }

  lemma TermsCarryOver(a: seq<string>, b: seq<string>, t: Term)
    requires HostSet(a) == HostSet(b) && t in Terms(a, NotAfter)
    ensures t in Terms(b, NotAfter)
  {
    UniqueIs(a);
    UniqueIs(b);
    DistinctFromSet(Unique(a), HostSet(a));
    DistinctFromSet(Unique(b), HostSet(b));
    forall h ensures h in Unique(a) <==> h in Unique(b) {
      assert h in HostSet(a) <==> h in HostSet(b);
    }
    ArrangeMembers(Gather(Unique(a)), NotAfter, t);
    var s :| s in Gather(Unique(a)) && t == SortedTerm(s);
    var u := TermCarriesOver(Unique(a), Unique(b), s);
    ArrangeMembers(Gather(Unique(b)), NotAfter, t);
  }

  /** The pattern is a function of the set of hosts: order and repeats do not matter. */
  lemma OrderIndependent(a: seq<string>, b: seq<string>)
    requires HostSet(a) == HostSet(b)
    ensures Compress(a, NotAfter) == Compress(b, NotAfter)
  {
    TermsAscend(a);
    TermsAscend(b);
    TermLessIsStrict();
    forall t ensures t in Terms(a, NotAfter) <==> t in Terms(b, NotAfter) {
      if t in Terms(a, NotAfter) {
        TermsCarryOver(a, b, t);
      }
      if t in Terms(b, NotAfter) {
        TermsCarryOver(b, a, t);
      }
    }
    AscendingIsUnique(Terms(a, NotAfter), Terms(b, NotAfter), TermLess);
  }

  /** A pattern that can be expanded stands for one set of hosts only. */
  lemma PatternIdentifiesHosts(a: seq<string>, b: seq<string>)
    requires AllClean(a) && NoSharedClose(a) && |HostSet(a)| <= MAX_HOSTLIST_SIZE
    requires AllClean(b)
    ensures Compress(a, NotAfter) == Compress(b, NotAfter) <==> HostSet(a) == HostSet(b)
  {
    if HostSet(a) == HostSet(b) {
      OrderIndependent(a, b);
    } else if Compress(a, NotAfter) == Compress(b, NotAfter) {
      CleanRoundTrip(a, NotAfter);
      CleanRoundTrip(b, NotAfter);
      forall h ensures h in HostSet(a) <==> h in HostSet(b) {
        assert h in multiset(HostSet(a)) <==> h in multiset(HostSet(b));
      }
    }
  }
}
