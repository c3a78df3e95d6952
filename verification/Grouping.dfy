/** Grouping by a string key into a sorted map, as a `BTreeMap<String, Vec<_>>` filled by
    `entry(key).or_default().push(item)` and read in key order does it. */
module Grouping {

  // ----- the order of strings

  predicate Less(a: string, b: string) {
    b != [] && (a == [] || a[0] < b[0] || (a[0] == b[0] && Less(a[1..], b[1..])))
  }

  lemma {:induction false} LessIsStrict(a: string)
    ensures !Less(a, a)
  {
    if a != [] {
      LessIsStrict(a[1..]);
    }
  }

  lemma {:induction false} LessIsTransitive(a: string, b: string, c: string)
    requires Less(a, b) && Less(b, c)
    ensures Less(a, c)
  {
    if a != [] && a[0] == b[0] == c[0] {
      LessIsTransitive(a[1..], b[1..], c[1..]);
    }
  }

  lemma {:induction false} LessIsTotal(a: string, b: string)
    ensures a == b || Less(a, b) || Less(b, a)
  {
    if a != [] && b != [] && a[0] == b[0] {
      LessIsTotal(a[1..], b[1..]);
      assert a == [a[0]] + a[1..] && b == [b[0]] + b[1..];
    }
  }

  /** Strings are ordered by their first difference, and a proper prefix comes first. */
  lemma {:induction false} LessAtDifference(a: string, b: string, k: nat)
    requires k <= |a| && k <= |b| && a[..k] == b[..k]
    ensures k < |a| && k < |b| && a[k] < b[k] ==> Less(a, b)
    ensures k == |a| < |b| ==> Less(a, b)
  {
    if k > 0 {
      assert a[0] == a[..k][0] && b[0] == b[..k][0];
      assert a[1..][..k - 1] == a[..k][1..] && b[1..][..k - 1] == b[..k][1..];
      LessAtDifference(a[1..], b[1..], k - 1);
    }
  }

  // ----- the map

  datatype Group<+T> = Group(key: string, members: seq<T>)

  predicate Sorted<T>(groups: seq<Group<T>>) {
    forall i, j :: 0 <= i < j < |groups| ==> Less(groups[i].key, groups[j].key)
  }

  function Put<T>(groups: seq<Group<T>>, key: string, item: T): (r: seq<Group<T>>) {
    if groups == [] then [Group(key, [item])]
    else if groups[0].key == key then [Group(key, groups[0].members + [item])] + groups[1..]
    else if Less(key, groups[0].key) then [Group(key, [item])] + groups
    else [groups[0]] + Put(groups[1..], key, item)
  }

  predicate HasKey<T>(groups: seq<Group<T>>, key: string) {
    exists i :: 0 <= i < |groups| && groups[i].key == key
  }

  lemma {:induction false} PutKeys<T>(groups: seq<Group<T>>, key: string, item: T, other: string)
    ensures HasKey(Put(groups, key, item), other) <==> HasKey(groups, other) || other == key
  {
    var r := Put(groups, key, item);
    if groups == [] {
      assert r[0].key == key;
    } else if groups[0].key == key {
      assert r[0].key == groups[0].key && forall i :: 0 < i < |groups| ==> r[i] == groups[i];
    } else if Less(key, groups[0].key) {
      assert r[0].key == key && forall i :: 0 <= i < |groups| ==> r[i + 1] == groups[i];
    } else {
      PutKeys(groups[1..], key, item, other);
      var rest := Put(groups[1..], key, item);
      assert r[0] == groups[0] && forall i :: 0 <= i < |rest| ==> r[i + 1] == rest[i];
      assert forall i :: 0 < i < |groups| ==> groups[1..][i - 1] == groups[i];
    }
  }

  lemma SortedCons<T>(first: Group<T>, rest: seq<Group<T>>)
    requires Sorted(rest) && forall key :: HasKey(rest, key) ==> Less(first.key, key)
    ensures Sorted([first] + rest)
  {
    forall i | 0 <= i < |rest| ensures Less(first.key, rest[i].key) {
      assert HasKey(rest, rest[i].key);
    }
  }

  lemma {:induction false} PutSorted<T>(groups: seq<Group<T>>, key: string, item: T)
    requires Sorted(groups)
    ensures Sorted(Put(groups, key, item))
  {
    if groups != [] && groups[0].key != key {
      if Less(key, groups[0].key) {
        forall i | 0 < i < |groups| ensures Less(key, groups[i].key) {
          LessIsTransitive(key, groups[0].key, groups[i].key);
        }
      } else {
        LessIsTotal(key, groups[0].key);
        var rest := groups[1..];
        PutSorted(rest, key, item);
        forall other | HasKey(Put(rest, key, item), other) ensures Less(groups[0].key, other) {
          PutKeys(rest, key, item, other);
          if other != key {
            var i :| 0 <= i < |rest| && rest[i].key == other;
            assert groups[i + 1] == rest[i];
          }
        }
        SortedCons(groups[0], Put(rest, key, item));
      }
    }
  }

  /** The members filed under a key, none if it is absent. */
  function Lookup<T>(groups: seq<Group<T>>, key: string): seq<T> {
    if groups == [] then []
    else if groups[0].key == key then groups[0].members
    else Lookup(groups[1..], key)
  }

  lemma {:induction false} LookupAt<T>(groups: seq<Group<T>>, i: nat)
    requires Sorted(groups) && i < |groups|
    ensures Lookup(groups, groups[i].key) == groups[i].members
  {
    if i > 0 {
      LessIsStrict(groups[0].key);
      LookupAt(groups[1..], i - 1);
    }
  }

  lemma {:induction false} LookupBelow<T>(groups: seq<Group<T>>, key: string)
    requires Sorted(groups) && groups != [] && Less(key, groups[0].key)
    ensures Lookup(groups, key) == []
  {
    LessIsStrict(key);
    if |groups| > 1 {
      LessIsTransitive(key, groups[0].key, groups[1].key);
      LookupBelow(groups[1..], key);
    }
  }

  lemma {:induction false} PutLookup<T>(groups: seq<Group<T>>, key: string, item: T, other: string)
    requires Sorted(groups)
    ensures Lookup(Put(groups, key, item), other)
         == if other == key then Lookup(groups, key) + [item] else Lookup(groups, other)
  {
    if groups != [] && groups[0].key != key {
      if Less(key, groups[0].key) {
        LookupBelow(groups, key);
        assert ([Group(key, [item])] + groups)[1..] == groups;
      } else {
        PutLookup(groups[1..], key, item, other);
        assert ([groups[0]] + Put(groups[1..], key, item))[1..] == Put(groups[1..], key, item);
      }
    }
  }

  // ----- grouping a list

  function Grouped<T>(items: seq<T>, keyOf: T -> string): seq<Group<T>> {
    if items == [] then []
    else
      var last := items[|items| - 1];
      Put(Grouped(items[..|items| - 1], keyOf), keyOf(last), last)
  }

  method GroupBy<T>(items: seq<T>, keyOf: T -> string) returns (groups: seq<Group<T>>)
    ensures groups == Grouped(items, keyOf)
  {
    groups := [];
    for i := 0 to |items|
      invariant groups == Grouped(items[..i], keyOf)
    {
      assert items[..i + 1][..i] == items[..i];
      groups := Put(groups, keyOf(items[i]), items[i]);
    }
    assert items[..|items|] == items;
  }

  /** The items with a key, in their original order. */
  function WithKey<T>(items: seq<T>, keyOf: T -> string, key: string): seq<T> {
    if items == [] then []
    else
      var last := items[|items| - 1];
      WithKey(items[..|items| - 1], keyOf, key) + (if keyOf(last) == key then [last] else [])
  }

  lemma {:induction false} GroupedSorted<T>(items: seq<T>, keyOf: T -> string)
    ensures Sorted(Grouped(items, keyOf))
  {
    if items != [] {
      var n := |items| - 1;
      GroupedSorted(items[..n], keyOf);
      PutSorted(Grouped(items[..n], keyOf), keyOf(items[n]), items[n]);
    }
  }

  lemma {:induction false} GroupedLookup<T>(items: seq<T>, keyOf: T -> string, key: string)
    ensures Lookup(Grouped(items, keyOf), key) == WithKey(items, keyOf, key)
    ensures HasKey(Grouped(items, keyOf), key) <==> WithKey(items, keyOf, key) != []
  {
    if items != [] {
      var n := |items| - 1;
      var before := Grouped(items[..n], keyOf);
      GroupedLookup(items[..n], keyOf, key);
      GroupedSorted(items[..n], keyOf);
      PutLookup(before, keyOf(items[n]), items[n], key);
      PutKeys(before, keyOf(items[n]), items[n], key);
    }
  }

  /** Grouping is a partition: the keys strictly increase, each group is the non-empty
      in-order list of the items with its key, and every item's key has a group. */
  lemma GroupedIsPartition<T>(items: seq<T>, keyOf: T -> string)
    ensures var groups := Grouped(items, keyOf);
            && Sorted(groups)
            && (forall i :: 0 <= i < |groups| ==>
                  groups[i].members != [] && groups[i].members == WithKey(items, keyOf, groups[i].key))
            && (forall key :: HasKey(groups, key) <==> WithKey(items, keyOf, key) != [])
  {
    var groups := Grouped(items, keyOf);
    GroupedSorted(items, keyOf);
    forall key ensures HasKey(groups, key) <==> WithKey(items, keyOf, key) != [] {
      GroupedLookup(items, keyOf, key);
    }
    forall i | 0 <= i < |groups|
      ensures groups[i].members != [] && groups[i].members == WithKey(items, keyOf, groups[i].key)
    {
      LookupAt(groups, i);
      GroupedLookup(items, keyOf, groups[i].key);
      assert HasKey(groups, groups[i].key);
    }
  }

  function AllMembers<T>(groups: seq<Group<T>>): seq<T> {
    if groups == [] then [] else groups[0].members + AllMembers(groups[1..])
  }

  lemma AllMembersCons<T>(first: Group<T>, rest: seq<Group<T>>)
    ensures AllMembers([first] + rest) == first.members + AllMembers(rest)
  {
    assert ([first] + rest)[1..] == rest;
  }

  lemma {:induction false} PutKeepsAll<T>(groups: seq<Group<T>>, key: string, item: T)
    ensures multiset(AllMembers(Put(groups, key, item))) == multiset(AllMembers(groups)) + multiset{item}
  {
    if groups == [] {
      AllMembersCons(Group(key, [item]), []);
      assert [Group(key, [item])] == [Group(key, [item])] + [];
    } else if groups[0].key == key {
      AllMembersCons(Group(key, groups[0].members + [item]), groups[1..]);
    } else if Less(key, groups[0].key) {
      AllMembersCons(Group(key, [item]), groups);
    } else {
      PutKeepsAll(groups[1..], key, item);
      AllMembersCons(groups[0], Put(groups[1..], key, item));
    }
  }

  lemma MultisetSnoc<T>(items: seq<T>)
    requires items != []
    ensures var n := |items| - 1; multiset(items) == multiset(items[..n]) + multiset{items[n]}
  {
    assert items == items[..|items| - 1] + [items[|items| - 1]];
  }

  /** Every item is in exactly one group, as often as it was given. */
  lemma {:induction false} GroupedKeepsAll<T>(items: seq<T>, keyOf: T -> string)
    ensures multiset(AllMembers(Grouped(items, keyOf))) == multiset(items)
  {
    if items != [] {
      var n := |items| - 1;
      GroupedKeepsAll(items[..n], keyOf);
      PutKeepsAll(Grouped(items[..n], keyOf), keyOf(items[n]), items[n]);
      MultisetSnoc(items);
    }
  }

  lemma {:induction false} WithKeyHasKey<T>(items: seq<T>, keyOf: T -> string, key: string)
    ensures forall i :: 0 <= i < |WithKey(items, keyOf, key)| ==> keyOf(WithKey(items, keyOf, key)[i]) == key
  {
    if items != [] {
      WithKeyHasKey(items[..|items| - 1], keyOf, key);
    }
  }
}
