/** The rows `sinfo` prints (`sinfo.rs`): one per partition and state, one per node and
    partition, or, for `-R`, one per reason a node is unavailable. */
module SinfoListing {
  import opened Text
  import opened NodeInfo
  import opened Grouping

  /** A row before its fields are formatted: a group of nodes, or a node in a partition. */
  datatype Row = GroupRow(partition: string, nodes: seq<Node>) | NodeRow(node: Node, partition: string)

  /** The `%t` field of a group row. */
  function StateField(nodes: seq<Node>): string {
    if nodes == [] then "n/a" else EffectiveState(nodes[0])
  }

  function Members(nodes: seq<Node>, partition: string): seq<Node> {
    if nodes == [] then []
    else
      var last := nodes[|nodes| - 1];
      Members(nodes[..|nodes| - 1], partition) + (if partition in last.partitions then [last] else [])
  }

  function GroupRows(partition: string, groups: seq<Group<Node>>): (rows: seq<Row>)
    ensures |rows| == |groups|
    ensures forall i :: 0 <= i < |groups| ==> rows[i] == GroupRow(partition, groups[i].members)
  {
    seq(|groups|, i requires 0 <= i < |groups| => GroupRow(partition, groups[i].members))
  }

  /** An empty partition still has a row. */
  function RowsOfPartition(partition: string, nodes: seq<Node>): seq<Row> {
    var groups := Grouped(Members(nodes, partition), EffectiveState);
    if groups == [] then [GroupRow(partition, [])] else GroupRows(partition, groups)
  }

  function PartitionRows(partitions: seq<string>, nodes: seq<Node>): seq<Row> {
    if partitions == [] then []
    else PartitionRows(partitions[..|partitions| - 1], nodes) + RowsOfPartition(partitions[|partitions| - 1], nodes)
  }

  /** A node in no partition is listed under the empty name. */
  function PartitionsShown(node: Node): seq<string> {
    if node.partitions == [] then [""] else node.partitions
  }

  function RowsOfNode(node: Node, shown: seq<string>): (rows: seq<Row>) {
    if shown == [] then [] else RowsOfNode(node, shown[..|shown| - 1]) + [NodeRow(node, shown[|shown| - 1])]
  }

  function NodeRows(nodes: seq<Node>): seq<Row> {
    if nodes == [] then []
    else
      var last := nodes[|nodes| - 1];
      NodeRows(nodes[..|nodes| - 1]) + RowsOfNode(last, PartitionsShown(last))
  }

  method FilterMembers(nodes: seq<Node>, partition: string) returns (members: seq<Node>)
    ensures members == Members(nodes, partition)
  {
    members := [];
    for i := 0 to |nodes|
      invariant members == Members(nodes[..i], partition)
    {
      assert nodes[..i + 1][..i] == nodes[..i];
      if partition in nodes[i].partitions {
        members := members + [nodes[i]];
      }
    }
    assert nodes[..|nodes|] == nodes;
  }

  method ListNode(node: Node) returns (rows: seq<Row>)
    ensures rows == RowsOfNode(node, PartitionsShown(node))
  {
    rows := [];
    var shown := PartitionsShown(node);
    for k := 0 to |shown|
      invariant rows == RowsOfNode(node, shown[..k])
    {
      assert shown[..k + 1][..k] == shown[..k];
      rows := rows + [NodeRow(node, shown[k])];
    }
    assert shown[..|shown|] == shown;
  }

  method NodeOriented(nodes: seq<Node>) returns (rows: seq<Row>)
    ensures rows == NodeRows(nodes)
  {
    rows := [];
    for i := 0 to |nodes|
      invariant rows == NodeRows(nodes[..i])
    {
      assert nodes[..i + 1][..i] == nodes[..i];
      var listed := ListNode(nodes[i]);
      rows := rows + listed;
    }
    assert nodes[..|nodes|] == nodes;
  }

  method PartitionOriented(partitions: seq<string>, nodes: seq<Node>) returns (rows: seq<Row>)
    ensures rows == PartitionRows(partitions, nodes)
  {
    rows := [];
    for i := 0 to |partitions|
      invariant rows == PartitionRows(partitions[..i], nodes)
    {
      assert partitions[..i + 1][..i] == partitions[..i];
      var members := FilterMembers(nodes, partitions[i]);
      var groups := GroupBy(members, EffectiveState);
      if groups == [] {
        rows := rows + [GroupRow(partitions[i], [])];
      } else {
        rows := rows + GroupRows(partitions[i], groups);
      }
    }
    assert partitions[..|partitions|] == partitions;
  }

  // ----- the counts add up

  function ShownTotal(nodes: seq<Node>): nat {
    if nodes == [] then 0
    else
      var last := nodes[|nodes| - 1];
      ShownTotal(nodes[..|nodes| - 1]) + (if last.partitions == [] then 1 else |last.partitions|)
  }

  lemma {:induction false} RowsOfNodeCount(node: Node, shown: seq<string>)
    ensures |RowsOfNode(node, shown)| == |shown|
  {
    if shown != [] {
      RowsOfNodeCount(node, shown[..|shown| - 1]);
    }
  }

  lemma {:induction false} RowsOfNodeAre(node: Node, shown: seq<string>, row: Row)
    ensures row in RowsOfNode(node, shown) <==> row.NodeRow? && row.node == node && row.partition in shown
  {
    if shown != [] {
      var init, last := shown[..|shown| - 1], shown[|shown| - 1];
      RowsOfNodeAre(node, init, row);
      assert shown == init + [last];
    }
  }

  /** The rows are the nodes given, each under each of its partitions, or under the empty
      name if it has none. */
  lemma {:induction false} NodeRowsAre(nodes: seq<Node>, row: Row)
    ensures row in NodeRows(nodes)
       <==> row.NodeRow? && row.node in nodes && row.partition in PartitionsShown(row.node)
  {
    if nodes != [] {
      var init, last := nodes[..|nodes| - 1], nodes[|nodes| - 1];
      NodeRowsAre(init, row);
      RowsOfNodeAre(last, PartitionsShown(last), row);
      assert nodes == init + [last];
    }
  }

  /** There are as many as nodes have partitions, and one for each node in no partition. */
  lemma {:induction false} NodeRowsCount(nodes: seq<Node>)
    ensures |NodeRows(nodes)| == ShownTotal(nodes)
  {
    if nodes != [] {
      var last := nodes[|nodes| - 1];
      NodeRowsCount(nodes[..|nodes| - 1]);
      RowsOfNodeCount(last, PartitionsShown(last));
    }
  }

  // ----- the rows of a partition hold exactly its nodes

  lemma {:induction false} MembersAre(nodes: seq<Node>, partition: string, node: Node)
    ensures node in Members(nodes, partition) <==> node in nodes && partition in node.partitions
  {
    if nodes != [] {
      var init, last := nodes[..|nodes| - 1], nodes[|nodes| - 1];
      MembersAre(init, partition, node);
      assert nodes == init + [last];
    }
  }

  predicate AllGroupRows(rows: seq<Row>) {
    forall i :: 0 <= i < |rows| ==> rows[i].GroupRow?
  }

  /** The nodes counted in the `%D` fields and listed in the `%N` fields. */
  function NodesIn(rows: seq<Row>): seq<Node>
    requires AllGroupRows(rows)
  {
    if rows == [] then [] else rows[0].nodes + NodesIn(rows[1..])
  }

  lemma {:induction false} GroupRowsHold(partition: string, groups: seq<Group<Node>>)
    ensures NodesIn(GroupRows(partition, groups)) == AllMembers(groups)
  {
    if groups != [] {
      GroupRowsHold(partition, groups[1..]);
      assert GroupRows(partition, groups)[1..] == GroupRows(partition, groups[1..]);
    }
  }

  /** The row holds, in order, all members of the partition in the state it shows. */
  predicate RowIsExact(row: Row, partition: string, members: seq<Node>) {
    && row.GroupRow? && row.partition == partition
    && row.nodes == WithKey(members, EffectiveState, StateField(row.nodes))
  }

  /** The rows have different states, each holds all the members in its state, and together
      they hold exactly the members. */
  ghost predicate AccountFor(rows: seq<Row>, partition: string, members: seq<Node>) {
    && AllGroupRows(rows) && multiset(NodesIn(rows)) == multiset(members)
    && (forall i :: 0 <= i < |rows| ==> RowIsExact(rows[i], partition, members))
    && (forall i, j :: 0 <= i < j < |rows| ==> Less(StateField(rows[i].nodes), StateField(rows[j].nodes)))
  }

  lemma GroupRowIsExact(partition: string, members: seq<Node>, i: nat)
    requires i < |Grouped(members, EffectiveState)|
    ensures var group := Grouped(members, EffectiveState)[i];
            && StateField(group.members) == group.key
            && RowIsExact(GroupRow(partition, group.members), partition, members)
  {
    GroupedIsPartition(members, EffectiveState);
    WithKeyHasKey(members, EffectiveState, Grouped(members, EffectiveState)[i].key);
  }

  lemma GroupRowsAccount(partition: string, members: seq<Node>)
    ensures AccountFor(GroupRows(partition, Grouped(members, EffectiveState)), partition, members)
  {
    var groups := Grouped(members, EffectiveState);
    GroupedKeepsAll(members, EffectiveState);
    GroupRowsHold(partition, groups);
    GroupedSorted(members, EffectiveState);
    forall i | 0 <= i < |groups|
      ensures StateField(groups[i].members) == groups[i].key
      ensures RowIsExact(GroupRows(partition, groups)[i], partition, members)
    {
      GroupRowIsExact(partition, members, i);
    }
  }

  lemma EmptyRowAccounts(partition: string)
    ensures AccountFor([GroupRow(partition, [])], partition, [])
  {
    var rows := [GroupRow(partition, [])];
    assert rows[1..] == [];
    assert NodesIn(rows) == rows[0].nodes + NodesIn(rows[1..]);
  }

  lemma NoGroups(members: seq<Node>)
    requires Grouped(members, EffectiveState) == []
    ensures members == []
  {
    GroupedKeepsAll(members, EffectiveState);
    assert |multiset(members)| == |members|;
  }

  /** Every partition has a row. Its rows have different states, each holds all the nodes of
      the partition in its state, and together they hold exactly the nodes of the partition,
      each as often as it is given. */
  lemma PartitionRowsAccount(partition: string, nodes: seq<Node>)
    ensures RowsOfPartition(partition, nodes) != []
    ensures AccountFor(RowsOfPartition(partition, nodes), partition, Members(nodes, partition))
  {
    var members := Members(nodes, partition);
    if Grouped(members, EffectiveState) == [] {
      NoGroups(members);
      EmptyRowAccounts(partition);
    } else {
      GroupRowsAccount(partition, members);
    }
  }

  /** A node is in some row of a partition exactly when it was given and is in the partition. */
  lemma PartitionRowsHold(partition: string, nodes: seq<Node>, node: Node)
    ensures var rows := RowsOfPartition(partition, nodes);
            AllGroupRows(rows) && (node in NodesIn(rows) <==> node in nodes && partition in node.partitions)
  {
    PartitionRowsAccount(partition, nodes);
    MembersAre(nodes, partition, node);
    var rows := RowsOfPartition(partition, nodes);
    assert node in multiset(NodesIn(rows)) <==> node in multiset(Members(nodes, partition));
  }

  // ----- listing reasons

  const SEPARATOR := '\U{1}'

  /** The `{:?}` form of an optional uid. */
  function UidText(uid: Option<nat>): string {
    match uid case None => "None" case Some(n) => "Some(" + Decimal(n) + ")"
  }

  function TimeOrZero(node: Node): int {
    node.reasonTime.Or(0)
  }

  function ReasonKey(node: Node): string {
    node.reason + [SEPARATOR] + UidText(node.reasonUid) + [SEPARATOR]
    + DecimalInt(TimeOrZero(node)) + [SEPARATOR] + EffectiveState(node)
  }

  predicate IsListed(node: Node) {
    FromWire(node.state).Some? && IsUnavailable(FromWire(node.state).value)
  }

  function Unavailable(nodes: seq<Node>): (r: seq<Node>)
    ensures forall i :: 0 <= i < |r| ==> IsListed(r[i])
  {
    if nodes == [] then []
    else
      var last := nodes[|nodes| - 1];
      Unavailable(nodes[..|nodes| - 1]) + (if IsListed(last) then [last] else [])
  }

  /** The groups behind the rows of `sinfo -R`, in row order. */
  function ReasonGroups(nodes: seq<Node>): seq<Group<Node>> {
    Grouped(Unavailable(nodes), ReasonKey)
  }

  /** The nodes listed are the down, drained, draining and failing ones. */
  lemma {:induction false} UnavailableAre(nodes: seq<Node>, node: Node)
    ensures node in Unavailable(nodes) <==> node in nodes && node.state in {3, 4, 5, 6}
  {
    if nodes != [] {
      var init, last := nodes[..|nodes| - 1], nodes[|nodes| - 1];
      UnavailableAre(init, node);
      assert nodes == init + [last];
    }
  }

  /** Each of them is in some row, and no other node is. */
  lemma ReasonRowsHold(nodes: seq<Node>, node: Node)
    ensures node in AllMembers(ReasonGroups(nodes)) <==> node in nodes && node.state in {3, 4, 5, 6}
  {
    GroupedKeepsAll(Unavailable(nodes), ReasonKey);
    UnavailableAre(nodes, node);
    assert node in multiset(AllMembers(ReasonGroups(nodes))) <==> node in multiset(Unavailable(nodes));
  }

  lemma {:induction false} LastSeparatorSplits(a: string, x: string, b: string, y: string)
    requires SEPARATOR !in x && SEPARATOR !in y && a + [SEPARATOR] + x == b + [SEPARATOR] + y
    ensures a == b && x == y
    decreases |x|
  {
    var s := a + [SEPARATOR] + x;
    assert s[|a|] == SEPARATOR && s[|b|] == SEPARATOR;
    assert forall i :: |a| < i < |s| ==> s[i] == x[i - |a| - 1];
    assert forall i :: |b| < i < |s| ==> s[i] == y[i - |b| - 1];
    assert |a| == |b|;
    assert a == s[..|a|] && x == s[|a| + 1..];
    assert b == (b + [SEPARATOR] + y)[..|b|] && y == (b + [SEPARATOR] + y)[|b| + 1..];
  }

  lemma UidTextHead(uid: Option<nat>)
    ensures UidText(uid) != [] && (UidText(uid)[0] == 'S' <==> uid.Some?)
  {}

  lemma UidTextInjective(a: Option<nat>, b: Option<nat>)
    requires UidText(a) == UidText(b)
    ensures a == b
  {
    UidTextHead(a);
    UidTextHead(b);
    if a.Some? {
      assert UidText(a)[5..|UidText(a)| - 1] == Decimal(a.value);
      assert UidText(b)[5..|UidText(b)| - 1] == Decimal(b.value);
      NumeralDecimal(a.value);
      NumeralDecimal(b.value);
    }
  }

  lemma NumeralLacksSeparator(n: nat)
    ensures SEPARATOR !in Decimal(n)
  {
    assert !IsDigit(SEPARATOR);
  }

  lemma UidLacksSeparator(uid: Option<nat>)
    ensures SEPARATOR !in UidText(uid)
  {
    if uid.Some? {
      NumeralLacksSeparator(uid.value);
    }
  }

  lemma TimeLacksSeparator(time: int)
    ensures SEPARATOR !in DecimalInt(time)
  {
    NumeralLacksSeparator(if time < 0 then -time else time);
  }

  lemma StateLacksSeparator(node: Node)
    ensures SEPARATOR !in EffectiveState(node)
  {
    forall state: NodeState ensures SEPARATOR !in Short(state) {
      match state
      case Idle => case Allocated => case Mixed => case Down => case Drain =>
      case Draining => case Failing => case Unknown => case Suspended =>
    }
  }

  lemma PartsLackSeparator(node: Node)
    ensures SEPARATOR !in UidText(node.reasonUid) && SEPARATOR !in DecimalInt(TimeOrZero(node))
    ensures SEPARATOR !in EffectiveState(node)
  {
    UidLacksSeparator(node.reasonUid);
    TimeLacksSeparator(TimeOrZero(node));
    StateLacksSeparator(node);
  }

  /** Two nodes share a key exactly when they agree on all four parts of it, even though
      a reason may itself hold the separator. */
  lemma ReasonKeyIsFaithful(m: Node, n: Node)
    ensures ReasonKey(m) == ReasonKey(n)
       <==> && m.reason == n.reason && m.reasonUid == n.reasonUid
            && TimeOrZero(m) == TimeOrZero(n) && EffectiveState(m) == EffectiveState(n)
  {
    if ReasonKey(m) == ReasonKey(n) {
      PartsLackSeparator(m);
      PartsLackSeparator(n);
      var am, an := m.reason + [SEPARATOR] + UidText(m.reasonUid), n.reason + [SEPARATOR] + UidText(n.reasonUid);
      var bm, bn := am + [SEPARATOR] + DecimalInt(TimeOrZero(m)), an + [SEPARATOR] + DecimalInt(TimeOrZero(n));
      LastSeparatorSplits(bm, EffectiveState(m), bn, EffectiveState(n));
      LastSeparatorSplits(am, DecimalInt(TimeOrZero(m)), an, DecimalInt(TimeOrZero(n)));
      LastSeparatorSplits(m.reason, UidText(m.reasonUid), n.reason, UidText(n.reasonUid));
      UidTextInjective(m.reasonUid, n.reasonUid);
      DecimalIntInjective(TimeOrZero(m), TimeOrZero(n));
    }
  }

  /** The `%H` field: seconds render only when positive. */
  function TimeField(node: Node, render: int -> string): string {
    match node.reasonTime
    case None => "Unknown"
    case Some(seconds) => if seconds > 0 then render(seconds) else "N/A"
  }

  /** The reason, user and state of a row, taken from its first node, are those of every
      node in it. The time shown is right for a node exactly when the two agree on whether
      a time was recorded at all. */
  lemma ReasonRowsTellTheTruth(nodes: seq<Node>, g: nat, k: nat, render: int -> string)
    requires g < |ReasonGroups(nodes)| && k < |ReasonGroups(nodes)[g].members|
    ensures var first, node := ReasonGroups(nodes)[g].members[0], ReasonGroups(nodes)[g].members[k];
            && IsListed(node)
            && node.reason == first.reason && node.reasonUid == first.reasonUid
            && EffectiveState(node) == EffectiveState(first)
            && (TimeField(node, render) == TimeField(first, render)
                <==> node.reasonTime.None? == first.reasonTime.None?)
  {
    var listed, group := Unavailable(nodes), ReasonGroups(nodes)[g];
    GroupedIsPartition(listed, ReasonKey);
    WithKeyHasKey(listed, ReasonKey, group.key);
    ReasonKeyIsFaithful(group.members[k], group.members[0]);
    WithKeySubset(listed, group.key, group.members[k]);
  }

  lemma {:induction false} WithKeySubset(nodes: seq<Node>, key: string, node: Node)
    requires node in WithKey(nodes, ReasonKey, key)
    ensures node in nodes
  {
    var n := |nodes| - 1;
    if node in WithKey(nodes[..n], ReasonKey, key) {
      WithKeySubset(nodes[..n], key, node);
    }
  }

  lemma TwoNodesOneRow(m: Node, n: Node)
    requires IsListed(m) && IsListed(n) && ReasonKey(m) == ReasonKey(n)
    ensures ReasonGroups([m, n]) == [Group(ReasonKey(m), [m, n])]
  {
    assert [m, n][..1] == [m] && [m][..0] == [];
    assert Unavailable([m]) == [m];
    assert Unavailable([m, n]) == [m, n];
    assert Grouped([m], ReasonKey) == [Group(ReasonKey(m), [m])];
    assert [m] + [n] == [m, n];
  }

  /** A row whose time field is wrong for its second node: one reason has no recorded
      time and the other the zero time. */
  lemma ZeroTimeSharesARow() returns (unset: Node, zero: Node)
    ensures ReasonGroups([unset, zero]) == [Group(ReasonKey(unset), [unset, zero])]
    ensures forall render :: TimeField(unset, render) != TimeField(zero, render)
  {
    unset := Node("n1", 3, [], false, "", false, 0, "disk", None, None);
    zero := Node("n2", 3, [], false, "", false, 0, "disk", None, Some(0));
    ReasonKeyIsFaithful(unset, zero);
    TwoNodesOneRow(unset, zero);
  }
}
