/** How `compress` groups host names by prefix (`spur_core::hostlist`). */
module HostGroups {
  import opened HostRanges
  import opened Sorting
  import opened Hostlist
  import opened HostlistExpansion

  predicate HasPrefix(name: string, prefix: string) {
    SplitNameNumber(name).Some? && SplitNameNumber(name).value.prefix == prefix
  }

  /** The numbers of the hosts with this prefix, in order. */
  function NumsOf(prefix: string, hosts: seq<string>): seq<Num> {
    if hosts == [] then []
    else
      var last := hosts[|hosts| - 1];
      NumsOf(prefix, hosts[..|hosts| - 1]) + (if HasPrefix(last, prefix) then [SplitNameNumber(last).value.num] else [])
  }

  function Lookup(groups: seq<Term>, prefix: string): seq<Num> {
    if groups == [] then []
    else if groups[0].Numeric? && groups[0].prefix == prefix then groups[0].nums
    else Lookup(groups[1..], prefix)
  }

  lemma {:induction false} LookupAdded(groups: seq<Term>, prefix: string, num: Num, other: string)
    ensures Lookup(AddNumber(groups, prefix, num), other)
         == if other == prefix then Lookup(groups, prefix) + [num] else Lookup(groups, other)
  {
    if groups != [] {
      LookupAdded(groups[1..], prefix, num, other);
    }
  }

  lemma {:induction false} LookupIs(hosts: seq<string>, prefix: string)
    ensures Lookup(NumericTerms(hosts), prefix) == NumsOf(prefix, hosts)
  {
    if hosts != [] {
      var init, last := hosts[..|hosts| - 1], hosts[|hosts| - 1];
      LookupIs(init, prefix);
      match SplitNameNumber(last)
      case Some(split) => LookupAdded(NumericTerms(init), split.prefix, split.num, prefix);
      case None =>
    }
  }

  /** Non-empty groups, no two of the same prefix. */
  predicate Grouped(groups: seq<Term>) {
    groups != [] ==>
      && groups[0].Numeric? && groups[0].nums != []
      && Lookup(groups[1..], groups[0].prefix) == [] && Grouped(groups[1..])
  }

  lemma {:induction false} AddKeepsGrouped(groups: seq<Term>, prefix: string, num: Num)
    requires Grouped(groups)
    ensures Grouped(AddNumber(groups, prefix, num))
  {
    if groups == [] {
      assert [Numeric(prefix, [num])][1..] == [];
    } else if groups[0].prefix == prefix {
      assert AddNumber(groups, prefix, num)[1..] == groups[1..];
    } else {
      AddKeepsGrouped(groups[1..], prefix, num);
      LookupAdded(groups[1..], prefix, num, groups[0].prefix);
      assert AddNumber(groups, prefix, num)[1..] == AddNumber(groups[1..], prefix, num);
    }
  }

  lemma {:induction false} NumericTermsAreGrouped(hosts: seq<string>)
    ensures Grouped(NumericTerms(hosts))
  {
    if hosts != [] {
      var init, last := hosts[..|hosts| - 1], hosts[|hosts| - 1];
      NumericTermsAreGrouped(init);
      match SplitNameNumber(last)
      case Some(split) => AddKeepsGrouped(NumericTerms(init), split.prefix, split.num);
      case None =>
    }
  }

  lemma {:induction false} GroupedMember(groups: seq<Term>, t: Term)
    requires Grouped(groups)
    ensures t in groups <==> t.Numeric? && t.nums != [] && Lookup(groups, t.prefix) == t.nums
  {
    if groups != [] {
      GroupedMember(groups[1..], t);
      assert groups == [groups[0]] + groups[1..];
    }
  }

  /** The numeric terms are the prefixes in use, each with the numbers of its hosts. */
  lemma NumericTermsAre(hosts: seq<string>, t: Term)
    ensures t in NumericTerms(hosts) <==> t.Numeric? && t.nums != [] && t.nums == NumsOf(t.prefix, hosts)
  {
    NumericTermsAreGrouped(hosts);
    GroupedMember(NumericTerms(hosts), t);
    if t.Numeric? {
      LookupIs(hosts, t.prefix);
    }
  }

  lemma {:induction false} BareTermsAre(hosts: seq<string>, t: Term)
    ensures t in BareTerms(hosts) <==> t.Bare? && t.name in hosts && SplitNameNumber(t.name).None?
  {
    if hosts != [] {
      var init, last := hosts[..|hosts| - 1], hosts[|hosts| - 1];
      BareTermsAre(init, t);
      assert hosts == init + [last];
    }
  }

  lemma {:induction false} NumsOfMember(prefix: string, hosts: seq<string>, num: Num)
    ensures num in NumsOf(prefix, hosts)
       <==> exists h :: h in hosts && HasPrefix(h, prefix) && SplitNameNumber(h).value.num == num
  {
    if hosts != [] {
      var init, last := hosts[..|hosts| - 1], hosts[|hosts| - 1];
      NumsOfMember(prefix, init, num);
      assert hosts == init + [last];
    }
  }

  // ----- prefixes with several hosts

  lemma {:induction false} OneNumber(prefix: string, hosts: seq<string>, i: nat)
    requires i < |hosts| && HasPrefix(hosts[i], prefix)
    ensures |NumsOf(prefix, hosts)| >= 1
  {
    if i < |hosts| - 1 {
      OneNumber(prefix, hosts[..|hosts| - 1], i);
    }
  }

  lemma {:induction false} TwoNumbers(prefix: string, hosts: seq<string>, i: nat, j: nat)
    requires i < j < |hosts| && HasPrefix(hosts[i], prefix) && HasPrefix(hosts[j], prefix)
    ensures |NumsOf(prefix, hosts)| >= 2
  {
    if j < |hosts| - 1 {
      TwoNumbers(prefix, hosts[..|hosts| - 1], i, j);
    } else {
      OneNumber(prefix, hosts[..j], i);
    }
  }

  lemma {:induction false} OneHost(prefix: string, hosts: seq<string>) returns (i: nat)
    requires |NumsOf(prefix, hosts)| >= 1
    ensures i < |hosts| && HasPrefix(hosts[i], prefix)
  {
    i := |hosts| - 1;
    if !HasPrefix(hosts[i], prefix) {
      i := OneHost(prefix, hosts[..i]);
    }
  }

  lemma {:induction false} TwoHosts(prefix: string, hosts: seq<string>) returns (i: nat, j: nat)
    requires |NumsOf(prefix, hosts)| >= 2
    ensures i < j < |hosts| && HasPrefix(hosts[i], prefix) && HasPrefix(hosts[j], prefix)
  {
    j := |hosts| - 1;
    if HasPrefix(hosts[j], prefix) {
      i := OneHost(prefix, hosts[..j]);
    } else {
      i, j := TwoHosts(prefix, hosts[..j]);
    }
  }

  // ----- the terms in their final order

  /** Arranging changes only the order, of terms and of numbers. */
  lemma ArrangeMembers(terms: seq<Term>, before: TermOrder, u: Term)
    ensures u in Arrange(terms, before) <==> exists t :: t in terms && u == SortedTerm(t)
  {
    var sorted := SortedTerms(terms);
    SortMembers(sorted, before, u);
    if u in sorted {
      var k :| 0 <= k < |sorted| && sorted[k] == u;
      assert terms[k] in terms;
    }
    forall t | t in terms && u == SortedTerm(t) ensures u in sorted {
      var k :| 0 <= k < |terms| && terms[k] == t;
      assert sorted[k] == u;
    }
  }

  lemma SortedTermSound(t: Term)
    ensures Sound(SortedTerm(t)) <==> Sound(t)
  {
    if t.Numeric? {
      SortMembers(t.nums, NumBefore, Num(0, 0));
    }
  }
}
