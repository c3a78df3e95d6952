/** The coordinator columns of `sacctmgr show` (`sacctmgr.rs`): one list of assignments
    indexed both by user and by account. */
module Coordinators {
  import opened Grouping
  import opened Sorting

  datatype Assignment = Assignment(user: string, account: string)

  type Index = map<string, seq<string>>

  function Push(index: Index, key: string, name: string): Index {
    index[key := (if key in index then index[key] else []) + [name]]
  }

  // ----- sorting and removing repeats

  predicate NotDescending(names: seq<string>) {
    forall i, j :: 0 <= i < j < |names| ==> !Less(names[j], names[i])
  }

  predicate NotAfter(a: string, b: string) {
    !Less(b, a)
  }

  /** Drops each name equal to the one kept before it. */
  function Dedup(names: seq<string>): seq<string> {
    if |names| < 2 then names
    else if names[0] == names[1] then Dedup(names[1..])
    else [names[0]] + Dedup(names[1..])
  }

  ghost predicate SameNames(a: seq<string>, b: seq<string>) {
    forall n :: n in a <==> n in b
  }

  lemma NotLessIsTransitive(a: string, b: string, c: string)
    requires !Less(b, a) && !Less(c, b)
    ensures !Less(c, a)
  {
    if Less(c, a) {
      LessIsTotal(a, b);
      LessIsTotal(b, c);
      if a != b && b != c {
        LessIsTransitive(a, b, c);
        LessIsTransitive(a, c, a);
      }
      LessIsStrict(a);
    }
  }

  lemma {:induction false} InsertSorts(name: string, names: seq<string>)
    requires NotDescending(names)
    ensures NotDescending(Insert(name, names, NotAfter))
  {
    if names == [] {
    } else if !Less(names[0], name) {
      LessIsStrict(names[0]);
      forall j | 0 <= j < |names| ensures !Less(names[j], name) {
        NotLessIsTransitive(name, names[0], names[j]);
      }
    } else {
      var rest := names[1..];
      InsertSorts(name, rest);
      var inserted := Insert(name, rest, NotAfter);
      forall j | 0 <= j < |inserted| ensures !Less(inserted[j], names[0]) {
        InsertMembers(name, rest, NotAfter, inserted[j]);
        if inserted[j] == name {
          if Less(name, names[0]) {
            LessIsTransitive(names[0], name, names[0]);
            LessIsStrict(names[0]);
          }
        } else {
          var k :| 0 <= k < |rest| && rest[k] == inserted[j];
          assert names[k + 1] == inserted[j];
        }
      }
    }
  }

  lemma {:induction false} SortSorts(names: seq<string>)
    ensures NotDescending(Sort(names, NotAfter)) && SameNames(Sort(names, NotAfter), names)
  {
    forall n ensures n in Sort(names, NotAfter) <==> n in names {
      SortMembers(names, NotAfter, n);
    }
    if names != [] {
      SortSorts(names[1..]);
      InsertSorts(names[0], Sort(names[1..], NotAfter));
    }
  }

  lemma {:induction false} DedupOfSorted(names: seq<string>)
    requires NotDescending(names)
    ensures Ascending(Dedup(names), Less) && SameNames(Dedup(names), names)
    ensures names != [] ==> Dedup(names) != [] && Dedup(names)[0] == names[0]
  {
    if |names| >= 2 {
      var rest := names[1..];
      DedupOfSorted(rest);
      assert names == [names[0]] + rest;
      if names[0] != names[1] {
        LessIsTotal(names[0], names[1]);
        var kept := Dedup(rest);
        forall j | 0 <= j < |kept| ensures Less(names[0], kept[j]) {
          if j > 0 {
            LessIsTransitive(names[0], kept[0], kept[j]);
          }
        }
      }
    }
  }

  function Tidy(names: seq<string>): seq<string> {
    Dedup(Sort(names, NotAfter))
  }

  lemma TidyIs(names: seq<string>)
    ensures Ascending(Tidy(names), Less) && SameNames(Tidy(names), names)
  {
    SortSorts(names);
    DedupOfSorted(Sort(names, NotAfter));
  }

  // ----- the two indexes

  predicate Lists(index: Index, key: string, name: string) {
    key in index && name in index[key]
  }

  /** `join_names`, before the names are joined into one string. */
  function TidyIndex(index: Index): Index {
    map key | key in index :: Tidy(index[key])
  }

  /** An account is listed under a user exactly when the user is listed under the account,
      which is exactly when the assignment is there; and every list strictly ascends. */
  method CoordinatorColumns(rows: seq<Assignment>) returns (byUser: Index, byAccount: Index)
    ensures forall u, a :: Lists(byUser, u, a) <==> Assignment(u, a) in rows
    ensures forall u, a :: Lists(byAccount, a, u) <==> Assignment(u, a) in rows
    ensures forall k :: k in byUser ==> byUser[k] != [] && Ascending(byUser[k], Less)
    ensures forall k :: k in byAccount ==> byAccount[k] != [] && Ascending(byAccount[k], Less)
  {
    byUser, byAccount := map[], map[];
    for i := 0 to |rows|
      invariant forall u, a :: Lists(byUser, u, a) <==> Assignment(u, a) in rows[..i]
      invariant forall u, a :: Lists(byAccount, a, u) <==> Assignment(u, a) in rows[..i]
      invariant forall k :: k in byUser ==> byUser[k] != []
      invariant forall k :: k in byAccount ==> byAccount[k] != []
    {
      assert rows[..i + 1] == rows[..i] + [rows[i]];
      byUser := Push(byUser, rows[i].user, rows[i].account);
      byAccount := Push(byAccount, rows[i].account, rows[i].user);
    }
    assert rows[..|rows|] == rows;
    TidyIndexLists(byUser);
    TidyIndexLists(byAccount);
    byUser, byAccount := TidyIndex(byUser), TidyIndex(byAccount);
  }

  lemma TidyIndexLists(index: Index)
    requires forall k :: k in index ==> index[k] != []
    ensures forall k, n :: Lists(TidyIndex(index), k, n) <==> Lists(index, k, n)
    ensures forall k :: k in TidyIndex(index) ==> TidyIndex(index)[k] != [] && Ascending(TidyIndex(index)[k], Less)
  {
    forall k | k in index
      ensures SameNames(Tidy(index[k]), index[k]) && Ascending(Tidy(index[k]), Less) && Tidy(index[k]) != []
    {
      TidyIs(index[k]);
      assert index[k][0] in Tidy(index[k]);
    }
  }
}
