/** The job-size reports of `sreport` (`sreport.rs`): usage entries added up per account,
    or per user and account, and one row per key of the directory or of the usage. */
module UsageReport {
  import opened Sorting
  import Grouping

  /** Exact arithmetic stands for the floating-point seconds. */
  datatype Usage = Usage(cpu: real, jobs: nat) {
    function Plus(other: Usage): Usage {
      Usage(cpu + other.cpu, jobs + other.jobs)
    }
  }

  const NOTHING := Usage(0.0, 0)

  datatype Entry<+Key> = Entry(key: Key, usage: Usage)

  datatype Row<+Key> = Row(key: Key, usage: Usage)

  // ----- reference sums

  function Total<Key>(entries: seq<Entry<Key>>): Usage {
    if entries == [] then NOTHING
    else Total(entries[..|entries| - 1]).Plus(entries[|entries| - 1].usage)
  }

  /** The usage recorded under a set of keys. */
  function Over<Key(==)>(entries: seq<Entry<Key>>, keys: set<Key>): Usage {
    if entries == [] then NOTHING
    else
      var before, last := Over(entries[..|entries| - 1], keys), entries[|entries| - 1];
      if last.key in keys then before.Plus(last.usage) else before
  }

  function Keys<Key(==)>(entries: seq<Entry<Key>>): set<Key> {
    if entries == [] then {} else Keys(entries[..|entries| - 1]) + {entries[|entries| - 1].key}
  }

  function RowTotal<Key>(rows: seq<Row<Key>>): Usage {
    if rows == [] then NOTHING else RowTotal(rows[..|rows| - 1]).Plus(rows[|rows| - 1].usage)
  }

  lemma {:induction false} OverNone<Key>(entries: seq<Entry<Key>>)
    ensures Over(entries, {}) == NOTHING
  {
    if entries != [] {
      OverNone(entries[..|entries| - 1]);
    }
  }

  lemma {:induction false} OverAdds<Key>(entries: seq<Entry<Key>>, keys: set<Key>, key: Key)
    requires key !in keys
    ensures Over(entries, keys + {key}) == Over(entries, keys).Plus(Over(entries, {key}))
  {
    if entries != [] {
      OverAdds(entries[..|entries| - 1], keys, key);
    }
  }

  lemma {:induction false} OverAbsent<Key>(entries: seq<Entry<Key>>, key: Key)
    requires key !in Keys(entries)
    ensures Over(entries, {key}) == NOTHING
  {
    if entries != [] {
      OverAbsent(entries[..|entries| - 1], key);
    }
  }

  lemma {:induction false} OverAll<Key>(entries: seq<Entry<Key>>, keys: set<Key>)
    requires Keys(entries) <= keys
    ensures Over(entries, keys) == Total(entries)
  {
    if entries != [] {
      OverAll(entries[..|entries| - 1], keys);
    }
  }

  // ----- collecting the rows

  /** The map every report starts from: one summed usage per key. */
  method Aggregate<Key(==)>(entries: seq<Entry<Key>>) returns (agg: map<Key, Usage>)
    ensures agg.Keys == Keys(entries)
    ensures forall k :: k in agg ==> agg[k] == Over(entries, {k})
  {
    agg := map[];
    for i := 0 to |entries|
      invariant agg.Keys == Keys(entries[..i])
      invariant forall k :: k in agg ==> agg[k] == Over(entries[..i], {k})
    {
      assert entries[..i + 1][..i] == entries[..i];
      var e := entries[i];
      if e.key !in agg {
        OverAbsent(entries[..i], e.key);
      }
      var had := if e.key in agg then agg[e.key] else NOTHING;
      agg := agg[e.key := had.Plus(e.usage)];
    }
    assert entries[..|entries|] == entries;
  }

  /** The totals line, summed over the map in whatever order it yields its keys. */
  method Totals<Key(==)>(agg: map<Key, Usage>, ghost entries: seq<Entry<Key>>) returns (total: Usage)
    requires agg.Keys == Keys(entries) && forall k :: k in agg ==> agg[k] == Over(entries, {k})
    ensures total == Total(entries)
  {
    total := NOTHING;
    var todo := agg.Keys;
    ghost var done: set<Key> := {};
    OverNone(entries);
    while todo != {}
      invariant done + todo == agg.Keys && done !! todo
      invariant total == Over(entries, done)
      decreases todo
    {
      var key :| key in todo;
      OverAdds(entries, done, key);
      total := total.Plus(agg[key]);
      todo, done := todo - {key}, done + {key};
    }
    OverAll(entries, done);
  }

  /** Usage shown again because the directory lists a key again. */
  function Repeated<Key(==)>(directory: seq<Key>, entries: seq<Entry<Key>>): Usage {
    if directory == [] then NOTHING
    else
      var before, last := directory[..|directory| - 1], directory[|directory| - 1];
      if last in before then Repeated(before, entries).Plus(Over(entries, {last})) else Repeated(before, entries)
  }

  function KeySet<Key(==)>(directory: seq<Key>): set<Key> {
    if directory == [] then {} else KeySet(directory[..|directory| - 1]) + {directory[|directory| - 1]}
  }

  lemma {:induction false} KeySetHas<Key>(directory: seq<Key>, key: Key)
    ensures key in KeySet(directory) <==> key in directory
  {
    if directory != [] {
      KeySetHas(directory[..|directory| - 1], key);
      assert directory == directory[..|directory| - 1] + [directory[|directory| - 1]];
    }
  }

  function RowKeys<Key(==)>(rows: seq<Row<Key>>): set<Key> {
    if rows == [] then {} else RowKeys(rows[..|rows| - 1]) + {rows[|rows| - 1].key}
  }

  /** Every row shows the whole usage of its key. */
  predicate Exact<Key(==)>(rows: seq<Row<Key>>, entries: seq<Entry<Key>>) {
    forall i :: 0 <= i < |rows| ==> rows[i].usage == Over(entries, {rows[i].key})
  }

  predicate DistinctRows<Key(==)>(rows: seq<Row<Key>>) {
    forall i, j :: 0 <= i < j < |rows| ==> rows[i].key != rows[j].key
  }

  /** Key `i` of the directory was listed before. */
  predicate IsRepeat<Key(==)>(directory: seq<Key>, i: nat)
    requires i < |directory|
  {
    directory[i] in directory[..i]
  }

  predicate NoRepeats<Key(==)>(directory: seq<Key>) {
    forall i :: 0 <= i < |directory| ==> !IsRepeat(directory, i)
  }

  lemma {:induction false} RowKeysHas<Key>(rows: seq<Row<Key>>, i: nat)
    requires i < |rows|
    ensures rows[i].key in RowKeys(rows)
  {
    if i < |rows| - 1 {
      RowKeysHas(rows[..|rows| - 1], i);
    }
  }

  lemma {:induction false} AddRow<Key>(rows: seq<Row<Key>>, entries: seq<Entry<Key>>, key: Key)
    requires Exact(rows, entries)
    ensures var longer := rows + [Row(key, Over(entries, {key}))];
            && Exact(longer, entries)
            && RowKeys(longer) == RowKeys(rows) + {key}
            && RowTotal(longer) == RowTotal(rows).Plus(Over(entries, {key}))
            && (DistinctRows(rows) && key !in RowKeys(rows) ==> DistinctRows(longer))
  {
    var longer := rows + [Row(key, Over(entries, {key}))];
    assert longer[..|rows|] == rows;
    forall i | 0 <= i < |rows| ensures rows[i].key in RowKeys(rows) {
      RowKeysHas(rows, i);
    }
  }

  lemma PlusReorders(a: Usage, b: Usage, c: Usage)
    ensures a.Plus(b).Plus(c) == a.Plus(c).Plus(b) == a.Plus(b.Plus(c))
  {}

  lemma {:induction false} KeySetStep<Key>(before: seq<Key>, key: Key)
    ensures KeySet(before + [key]) == KeySet(before) + {key}
  {
    assert (before + [key])[..|before|] == before;
  }

  lemma {:induction false} RepeatedStep<Key>(before: seq<Key>, key: Key, entries: seq<Entry<Key>>)
    ensures Repeated(before + [key], entries)
         == if key in before then Repeated(before, entries).Plus(Over(entries, {key})) else Repeated(before, entries)
  {
    assert (before + [key])[..|before|] == before;
  }

  lemma {:induction false} NewKeyStep<Key>(before: seq<Key>, key: Key, entries: seq<Entry<Key>>)
    requires key !in before
    ensures Over(entries, KeySet(before) + {key}).Plus(Repeated(before + [key], entries))
         == Over(entries, KeySet(before)).Plus(Repeated(before, entries)).Plus(Over(entries, {key}))
  {
    KeySetHas(before, key);
    OverAdds(entries, KeySet(before), key);
    RepeatedStep(before, key, entries);
    PlusReorders(Over(entries, KeySet(before)), Repeated(before, entries), Over(entries, {key}));
  }

  lemma {:induction false} OldKeyStep<Key>(before: seq<Key>, key: Key, entries: seq<Entry<Key>>)
    requires key in before
    ensures Over(entries, KeySet(before) + {key}).Plus(Repeated(before + [key], entries))
         == Over(entries, KeySet(before)).Plus(Repeated(before, entries)).Plus(Over(entries, {key}))
  {
    KeySetHas(before, key);
    assert KeySet(before) + {key} == KeySet(before);
    RepeatedStep(before, key, entries);
    PlusReorders(Over(entries, KeySet(before)), Repeated(before, entries), Over(entries, {key}));
  }

  /** One row per directory entry, as often as it is listed. */
  method ListDirectory<Key(==)>(agg: map<Key, Usage>, directory: seq<Key>, ghost entries: seq<Entry<Key>>)
    returns (rows: seq<Row<Key>>)
    requires agg.Keys == Keys(entries) && forall k :: k in agg ==> agg[k] == Over(entries, {k})
    ensures Exact(rows, entries) && RowKeys(rows) == KeySet(directory)
    ensures RowTotal(rows) == Over(entries, KeySet(directory)).Plus(Repeated(directory, entries))
    ensures NoRepeats(directory) ==> DistinctRows(rows)
  {
    rows := [];
    OverNone(entries);
    for i := 0 to |directory|
      invariant Exact(rows, entries) && RowKeys(rows) == KeySet(directory[..i])
      invariant RowTotal(rows) == Over(entries, KeySet(directory[..i])).Plus(Repeated(directory[..i], entries))
      invariant NoRepeats(directory) ==> DistinctRows(rows)
    {
      var key := directory[i];
      KeySetStep(directory[..i], key);
      KeySetHas(directory[..i], key);
      assert IsRepeat(directory, i) == (key in directory[..i]);
      if key in directory[..i] {
        OldKeyStep(directory[..i], key, entries);
      } else {
        NewKeyStep(directory[..i], key, entries);
      }
      assert directory[..i + 1] == directory[..i] + [key];
      if key !in agg {
        OverAbsent(entries, key);
      }
      AddRow(rows, entries, key);
      rows := rows + [Row(key, if key in agg then agg[key] else NOTHING)];
    }
    assert directory[..|directory|] == directory;
  }

  lemma {:induction false} MissingStep<Key>(rows: seq<Row<Key>>, key: Key, entries: seq<Entry<Key>>, extra: Usage)
    requires Exact(rows, entries) && key !in RowKeys(rows)
    requires RowTotal(rows) == Over(entries, RowKeys(rows)).Plus(extra)
    ensures var longer := rows + [Row(key, Over(entries, {key}))];
            && Exact(longer, entries) && RowKeys(longer) == RowKeys(rows) + {key}
            && (DistinctRows(rows) ==> DistinctRows(longer))
            && RowTotal(longer) == Over(entries, RowKeys(rows) + {key}).Plus(extra)
  {
    AddRow(rows, entries, key);
    OverAdds(entries, RowKeys(rows), key);
    PlusReorders(Over(entries, RowKeys(rows)), extra, Over(entries, {key}));
  }

  /** Then a row for each used key that has none. */
  method AddMissing<Key(==)>(agg: map<Key, Usage>, listed: seq<Row<Key>>,
                             ghost entries: seq<Entry<Key>>, ghost extra: Usage)
    returns (rows: seq<Row<Key>>)
    requires agg.Keys == Keys(entries) && forall k :: k in agg ==> agg[k] == Over(entries, {k})
    requires Exact(listed, entries) && RowTotal(listed) == Over(entries, RowKeys(listed)).Plus(extra)
    ensures Exact(rows, entries) && RowKeys(rows) == RowKeys(listed) + Keys(entries)
    ensures DistinctRows(listed) ==> DistinctRows(rows)
    ensures RowTotal(rows) == Total(entries).Plus(extra)
  {
    rows := listed;
    var todo := agg.Keys;
    ghost var done: set<Key> := {};
    while todo != {}
      invariant done + todo == agg.Keys && Exact(rows, entries)
      invariant RowKeys(rows) == RowKeys(listed) + done
      invariant DistinctRows(listed) ==> DistinctRows(rows)
      invariant RowTotal(rows) == Over(entries, RowKeys(rows)).Plus(extra)
      decreases todo
    {
      var key :| key in todo;
      if key !in RowKeys(rows) {
        MissingStep(rows, key, entries, extra);
        rows := rows + [Row(key, agg[key])];
      }
      todo, done := todo - {key}, done + {key};
    }
    OverAll(entries, RowKeys(rows));
  }

  // ----- printing the rows in key order

  ghost predicate TotalOrder<Key(!new)>(less: (Key, Key) -> bool) {
    Transitive(less) && Irreflexive(less) && forall x, y :: x == y || less(x, y) || less(y, x)
  }

  /** The report by account is ordered by name. */
  lemma NamesAreOrdered()
    ensures TotalOrder(Grouping.Less)
  {
    forall a, b, c | Grouping.Less(a, b) && Grouping.Less(b, c) ensures Grouping.Less(a, c) {
      Grouping.LessIsTransitive(a, b, c);
    }
    forall a ensures !Grouping.Less(a, a) {
      Grouping.LessIsStrict(a);
    }
    forall a, b ensures a == b || Grouping.Less(a, b) || Grouping.Less(b, a) {
      Grouping.LessIsTotal(a, b);
    }
  }

  /** The report by user is ordered by user, then account. */
  predicate PairLess(a: (string, string), b: (string, string)) {
    Grouping.Less(a.0, b.0) || (a.0 == b.0 && Grouping.Less(a.1, b.1))
  }

  lemma PairsAreOrdered()
    ensures TotalOrder(PairLess)
  {
    NamesAreOrdered();
  }

  function NotAfter<Key>(less: (Key, Key) -> bool): (Row<Key>, Row<Key>) -> bool {
    (a: Row<Key>, b: Row<Key>) => !less(b.key, a.key)
  }

  function RowLess<Key>(less: (Key, Key) -> bool): (Row<Key>, Row<Key>) -> bool {
    (a: Row<Key>, b: Row<Key>) => less(a.key, b.key)
  }

  lemma {:induction false} RowTotalCons<Key>(row: Row<Key>, rows: seq<Row<Key>>)
    ensures RowTotal([row] + rows) == row.usage.Plus(RowTotal(rows))
  {
    if rows == [] {
      assert [row] + rows == [row] && [row][..0] == [];
    } else {
      var n := |rows| - 1;
      RowTotalCons(row, rows[..n]);
      assert ([row] + rows)[..n + 1] == [row] + rows[..n];
    }
  }

  lemma {:induction false} InsertTotal<Key>(row: Row<Key>, rows: seq<Row<Key>>, before: (Row<Key>, Row<Key>) -> bool)
    ensures RowTotal(Insert(row, rows, before)) == row.usage.Plus(RowTotal(rows))
  {
    if rows == [] || before(row, rows[0]) {
      RowTotalCons(row, rows);
    } else {
      InsertTotal(row, rows[1..], before);
      RowTotalCons(rows[0], Insert(row, rows[1..], before));
      RowTotalCons(rows[0], rows[1..]);
      assert rows == [rows[0]] + rows[1..];
    }
  }

  lemma {:induction false} SortTotal<Key>(rows: seq<Row<Key>>, before: (Row<Key>, Row<Key>) -> bool)
    ensures RowTotal(Sort(rows, before)) == RowTotal(rows)
  {
    if rows != [] {
      SortTotal(rows[1..], before);
      InsertTotal(rows[0], Sort(rows[1..], before), before);
      RowTotalCons(rows[0], rows[1..]);
      assert rows == [rows[0]] + rows[1..];
    }
  }

  lemma {:induction false} RowKeysAre<Key>(rows: seq<Row<Key>>, key: Key)
    ensures key in RowKeys(rows) <==> exists row :: row in rows && row.key == key
  {
    if rows != [] {
      RowKeysAre(rows[..|rows| - 1], key);
      assert rows == rows[..|rows| - 1] + [rows[|rows| - 1]];
    }
  }

  lemma SortKeepsRows<Key(!new)>(rows: seq<Row<Key>>, before: (Row<Key>, Row<Key>) -> bool, entries: seq<Entry<Key>>)
    requires Exact(rows, entries)
    ensures Exact(Sort(rows, before), entries) && RowKeys(Sort(rows, before)) == RowKeys(rows)
  {
    var sorted := Sort(rows, before);
    forall i | 0 <= i < |sorted| ensures sorted[i].usage == Over(entries, {sorted[i].key}) {
      SortMembers(rows, before, sorted[i]);
    }
    forall key ensures key in RowKeys(sorted) <==> key in RowKeys(rows) {
      RowKeysAre(sorted, key);
      RowKeysAre(rows, key);
      forall row: Row<Key> | row.key == key ensures row in sorted <==> row in rows {
        SortMembers(rows, before, row);
      }
    }
    assert RowKeys(sorted) == RowKeys(rows);
  }

  lemma SortedRowsAscend<Key(!new)>(rows: seq<Row<Key>>, less: (Key, Key) -> bool)
    requires TotalOrder(less) && DistinctRows(rows)
    ensures Ascending(Sort(rows, NotAfter(less)), RowLess(less))
  {
    forall x: Row<Key>, y: Row<Key>, z: Row<Key> | RowLess(less)(x, y) && RowLess(less)(y, z)
      ensures RowLess(less)(x, z)
    {
      assert less(x.key, y.key) && less(y.key, z.key);
    }
    forall i, j | 0 <= i < j < |rows| ensures Places(NotAfter(less), RowLess(less), rows[i], rows[j]) {
      assert rows[i].key != rows[j].key;
    }
    SortAscends(rows, NotAfter(less), RowLess(less));
  }

  // ----- what repeated directory entries do to the sums

  /** No key that the directory lists again has jobs. */
  predicate RepeatsHaveNoJobs<Key(==)>(directory: seq<Key>, entries: seq<Entry<Key>>) {
    forall i :: 0 <= i < |directory| && IsRepeat(directory, i) ==> Over(entries, {directory[i]}).jobs == 0
  }

  lemma RepeatOfInit<Key>(directory: seq<Key>, n: nat, i: nat)
    requires i < n <= |directory|
    ensures directory[..n][i] == directory[i] && IsRepeat(directory[..n], i) == IsRepeat(directory, i)
  {
    assert directory[..n][..i] == directory[..i];
  }

  /** Nothing is shown again for a directory without repeats. */
  lemma {:induction false} NothingRepeated<Key>(directory: seq<Key>, entries: seq<Entry<Key>>)
    requires NoRepeats(directory)
    ensures Repeated(directory, entries) == NOTHING
  {
    if directory != [] {
      var n := |directory| - 1;
      forall i | 0 <= i < n ensures !IsRepeat(directory[..n], i) {
        RepeatOfInit(directory, n, i);
      }
      NothingRepeated(directory[..n], entries);
      assert !IsRepeat(directory, n);
    }
  }

  lemma NoJobsStep<Key>(directory: seq<Key>, entries: seq<Entry<Key>>)
    requires directory != []
    ensures var n := |directory| - 1;
            RepeatsHaveNoJobs(directory, entries)
            <==> && RepeatsHaveNoJobs(directory[..n], entries)
                 && (directory[n] in directory[..n] ==> Over(entries, {directory[n]}).jobs == 0)
  {
    var n := |directory| - 1;
    forall i | 0 <= i < n
      ensures directory[..n][i] == directory[i] && IsRepeat(directory[..n], i) == IsRepeat(directory, i)
    {
      RepeatOfInit(directory, n, i);
    }
    assert IsRepeat(directory, n) == (directory[n] in directory[..n]);
  }

  lemma {:induction false} RepeatedJobs<Key>(directory: seq<Key>, entries: seq<Entry<Key>>)
    ensures Repeated(directory, entries).jobs == 0 <==> RepeatsHaveNoJobs(directory, entries)
  {
    if directory != [] {
      RepeatedJobs(directory[..|directory| - 1], entries);
      NoJobsStep(directory, entries);
    }
  }

  // ----- percentages

  function Percent(usage: Usage, total: Usage): (r: real)
    ensures total.cpu > 0.0 ==> r * total.cpu == usage.cpu * 100.0
    ensures total.cpu <= 0.0 ==> r == 0.0
  {
    if total.cpu > 0.0 then usage.cpu / total.cpu * 100.0 else 0.0
  }

  function PercentTotal<Key>(rows: seq<Row<Key>>, total: Usage): real {
    if rows == [] then 0.0
    else PercentTotal(rows[..|rows| - 1], total) + Percent(rows[|rows| - 1].usage, total)
  }

  lemma ShareAdds(a: real, b: real, t: real)
    requires t > 0.0
    ensures (a + b) / t * 100.0 == a / t * 100.0 + b / t * 100.0
  {}

  lemma {:induction false} PercentTotalIs<Key>(rows: seq<Row<Key>>, total: Usage)
    requires total.cpu > 0.0
    ensures PercentTotal(rows, total) == RowTotal(rows).cpu / total.cpu * 100.0
  {
    if rows == [] {
      assert 0.0 / total.cpu * 100.0 == 0.0;
    } else {
      PercentTotalIs(rows[..|rows| - 1], total);
      ShareAdds(RowTotal(rows[..|rows| - 1]).cpu, rows[|rows| - 1].usage.cpu, total.cpu);
    }
  }

  /** The percentages are of a whole exactly when no CPU time is shown again. */
  lemma PercentagesOf<Key>(rows: seq<Row<Key>>, total: Usage, extra: Usage)
    requires total.cpu > 0.0 && RowTotal(rows) == total.Plus(extra)
    ensures PercentTotal(rows, total) == 100.0 <==> extra.cpu == 0.0
  {
    PercentTotalIs(rows, total);
    ShareAdds(total.cpu, extra.cpu, total.cpu);
    assert total.cpu / total.cpu == 1.0;
    ZeroShare(extra.cpu, total.cpu);
  }

  lemma ZeroShare(a: real, t: real)
    requires t > 0.0
    ensures a / t * 100.0 == 0.0 <==> a == 0.0
  {
    assert a / t * t == a;
  }

  // ----- the report

  /** The rows in the order they are printed. */
  method CollectRows<Key(==, !new)>(entries: seq<Entry<Key>>, agg: map<Key, Usage>, shown: seq<Key>,
                                    less: (Key, Key) -> bool)
    returns (rows: seq<Row<Key>>)
    requires agg.Keys == Keys(entries) && forall k :: k in agg ==> agg[k] == Over(entries, {k})
    requires TotalOrder(less)
    ensures Exact(rows, entries) && RowKeys(rows) == KeySet(shown) + Keys(entries)
    ensures NoRepeats(shown) ==> Ascending(rows, RowLess(less))
    ensures RowTotal(rows) == Total(entries).Plus(Repeated(shown, entries))
  {
    var listed := ListDirectory(agg, shown, entries);
    var unsorted := AddMissing(agg, listed, entries, Repeated(shown, entries));
    rows := Sort(unsorted, NotAfter(less));
    SortTotal(unsorted, NotAfter(less));
    SortKeepsRows(unsorted, NotAfter(less), entries);
    if DistinctRows(unsorted) {
      SortedRowsAscend(unsorted, less);
    }
  }

  /** The rows add up as the directory repeats itself. */
  ghost predicate AddsUp<Key>(rows: seq<Row<Key>>, total: Usage, shown: seq<Key>, entries: seq<Entry<Key>>) {
    && RowTotal(rows) == total.Plus(Repeated(shown, entries))
    && (NoRepeats(shown) ==> RowTotal(rows) == total)
    && (RowTotal(rows).jobs == total.jobs <==> RepeatsHaveNoJobs(shown, entries))
    && (total.cpu > 0.0 ==> (PercentTotal(rows, total) == 100.0 <==> Repeated(shown, entries).cpu == 0.0))
    && (total.cpu > 0.0 && NoRepeats(shown) ==> PercentTotal(rows, total) == 100.0)
  }

  lemma RowsAddUp<Key>(rows: seq<Row<Key>>, total: Usage, shown: seq<Key>, entries: seq<Entry<Key>>)
    requires RowTotal(rows) == total.Plus(Repeated(shown, entries))
    ensures AddsUp(rows, total, shown, entries)
  {
    RepeatedJobs(shown, entries);
    if NoRepeats(shown) {
      NothingRepeated(shown, entries);
    }
    if total.cpu > 0.0 {
      PercentagesOf(rows, total, Repeated(shown, entries));
    }
  }

  /** What the report lists besides the used keys: nothing when it is restricted. */
  function Shown<Key>(directory: seq<Key>, scoped: bool, partial: bool): seq<Key> {
    if scoped || partial then [] else directory
  }

  /** Every used and every listed key has a row, and every row the whole usage of its key; the rows add up
      to the total and to whatever repeated directory entries show a second time. Without
      repeats, or restricted, a key has one row and the keys strictly ascend, the rows add
      up to the total, and the percentages to 100. With repeats, the job column still adds
      up exactly when no repeated key has jobs, and the percentages exactly when no
      CPU time is shown again. */
  method Report<Key(==, !new)>(entries: seq<Entry<Key>>, directory: seq<Key>, scoped: bool, partial: bool,
                               less: (Key, Key) -> bool)
    returns (rows: seq<Row<Key>>, total: Usage)
    requires TotalOrder(less)
    ensures total == Total(entries)
    ensures Exact(rows, entries) && RowKeys(rows) == KeySet(Shown(directory, scoped, partial)) + Keys(entries)
    ensures scoped || partial || NoRepeats(directory) ==> Ascending(rows, RowLess(less)) && RowTotal(rows) == total
    ensures RowTotal(rows).jobs == total.jobs <==> scoped || partial || RepeatsHaveNoJobs(directory, entries)
    ensures total.cpu > 0.0 && (scoped || partial || NoRepeats(directory)) ==> PercentTotal(rows, total) == 100.0
    ensures AddsUp(rows, total, Shown(directory, scoped, partial), entries)
  {
    var agg := Aggregate(entries);
    total := Totals(agg, entries);
    var restricted := scoped || partial || directory == [];
    var shown := if restricted then [] else directory;
    rows := CollectRows(entries, agg, shown, less);
    RowsAddUp(rows, total, shown, entries);
  }

  /** What a directory that names a key twice would do: its whole usage is shown again. */
  lemma NamedTwice<Key>(key: Key, usage: Usage)
    ensures var directory, entries := [key, key], [Entry(key, usage)];
            Repeated(directory, entries) == Total(entries) == usage
  {
    var directory, entries := [key, key], [Entry(key, usage)];
    assert directory[..1] == [key] && [key][..0] == [] && entries[..0] == [];
    assert Over(entries, {key}) == Over(entries[..0], {key}).Plus(usage);
    assert Total(entries) == Total(entries[..0]).Plus(usage);
    assert Repeated([key], entries) == NOTHING;
  }
}
