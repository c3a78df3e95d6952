/** `scontrol update` of a job or of nodes (`scontrol.rs`): which of the two it is, and
    the request, depend only on the last value of each key. */
module JobUpdate {
  import opened Text
  import opened KeyValue

  datatype Key =
    | JobId | Priority | TimeLimit | Partition | Account | Comment | Qos | Exclude
    | NodeName | State | Reason

  function KeyOf(name: string): Option<Key> {
    match name
    case "jobid" => Some(JobId)
    case "job" => Some(JobId)
    case "priority" => Some(Priority)
    case "timelimit" => Some(TimeLimit)
    case "time_limit" => Some(TimeLimit)
    case "partition" => Some(Partition)
    case "account" => Some(Account)
    case "comment" => Some(Comment)
    case "qos" => Some(Qos)
    case "excnodelist" => Some(Exclude)
    case "excludednodes" => Some(Exclude)
    case "nodename" => Some(NodeName)
    case "node" => Some(NodeName)
    case "state" => Some(State)
    case "reason" => Some(Reason)
    case _ => None
  }

  predicate IsNodeOnly(key: Key) {
    key.State? || key.Reason?
  }

  predicate IsJobKey(key: Key) {
    !IsNodeOnly(key) && !key.NodeName?
  }

  // Node states as wire discriminants.
  const NODE_IDLE := 0
  const NODE_DOWN := 3
  const NODE_DRAIN := 4

  function ParseNodeState(value: string, lib: Library): Option<nat> {
    var low := lib.lower(value);
    if low == "idle" || low == "resume" then Some(NODE_IDLE)
    else if low == "drain" then Some(NODE_DRAIN)
    else if low == "down" then Some(NODE_DOWN)
    else None
  }

  /** A time limit in seconds; no limit at all cannot be asked for. */
  function ParseTimeLimit(value: string, lib: Library): Option<nat> {
    var low := lib.lower(Trim(value));
    if low == "unlimited" || low == "infinite" then None
    else match lib.minutes(value) case Some(m) => Some(m * 60) case None => None
  }

  datatype Draft = Draft(
    jobId: Option<nat>, priority: Option<nat>, timeLimit: Option<nat>, partition: Option<string>,
    account: Option<string>, comment: Option<string>, qos: Option<string>, exclude: Option<string>,
    nodeName: Option<string>, nodeState: Option<nat>, nodeReason: Option<string>,
    sawJobParam: bool, sawNodeOnlyParam: bool)

  const BLANK := Draft(None, None, None, None, None, None, None, None, None, None, None, false, false)

  predicate Accepts(key: Key, value: string, lib: Library) {
    match key
    case JobId => lib.u32(value).Some?
    case Priority => lib.u32(value).Some?
    case TimeLimit => ParseTimeLimit(value, lib).Some?
    case State => ParseNodeState(value, lib).Some?
    case _ => true
  }

  function Assign(d: Draft, key: Key, value: string, lib: Library): Draft {
    var d := d.(sawJobParam := d.sawJobParam || IsJobKey(key),
                sawNodeOnlyParam := d.sawNodeOnlyParam || IsNodeOnly(key));
    match key
    case JobId => d.(jobId := lib.u32(value))
    case Priority => d.(priority := lib.u32(value))
    case TimeLimit => d.(timeLimit := ParseTimeLimit(value, lib))
    case Partition => d.(partition := Some(value))
    case Account => d.(account := Some(value))
    case Comment => d.(comment := Some(value))
    case Qos => d.(qos := Some(value))
    case Exclude => d.(exclude := Some(value))
    case NodeName => d.(nodeName := Some(value))
    case State => d.(nodeState := ParseNodeState(value, lib))
    case Reason => d.(nodeReason := Some(value))
  }

  datatype JobRequest = JobRequest(
    jobId: nat, priority: Option<nat>, timeLimit: Option<nat>, partition: Option<string>,
    account: Option<string>, comment: Option<string>, qos: Option<string>, exclude: Option<string>)
  {
    predicate HasChanges() {
      || priority.Some? || timeLimit.Some? || partition.Some? || account.Some?
      || comment.Some? || qos.Some? || exclude.Some?
    }
  }

  datatype Target = Nodes(pattern: string, state: Option<nat>, reason: Option<string>) | Job(request: JobRequest)

  function Finish(d: Draft): Outcome<Target> {
    if d.nodeName.Some? then
      if d.sawJobParam then Err else Ok(Nodes(d.nodeName.value, d.nodeState, d.nodeReason))
    else if d.sawNodeOnlyParam || d.jobId.None? then Err
    else
      var request := JobRequest(d.jobId.value, d.priority, d.timeLimit, d.partition, d.account, d.comment,
                                d.qos, d.exclude);
      if request.HasChanges() then Ok(Job(request)) else Err
  }

  // ----- the reference: what the last value of each key says

  function Read(param: string, lib: Library): Option<Entry<Key>> {
    match SplitOnce(param)
    case None => None
    case Some(Pair(name, value)) =>
      match KeyOf(lib.lower(name))
      case None => None
      case Some(key) => if Accepts(key, value, lib) then Some(Entry(key, value)) else None
  }

  function UpdateReader(lib: Library): Reader<Key> {
    (param: string) => Read(param, lib)
  }

  function Last(m: map<Key, string>, key: Key): Option<string> {
    if key in m then Some(m[key]) else None
  }

  function DraftOf(m: map<Key, string>, lib: Library): Draft {
    Draft(
      if JobId in m then lib.u32(m[JobId]) else None,
      if Priority in m then lib.u32(m[Priority]) else None,
      if TimeLimit in m then ParseTimeLimit(m[TimeLimit], lib) else None,
      Last(m, Partition), Last(m, Account), Last(m, Comment), Last(m, Qos), Last(m, Exclude),
      Last(m, NodeName), if State in m then ParseNodeState(m[State], lib) else None, Last(m, Reason),
      exists key :: key in m && IsJobKey(key), exists key :: key in m && IsNodeOnly(key))
  }

  function TargetOf(params: seq<string>, lib: Library): Outcome<Target> {
    if AllRead(params, UpdateReader(lib)) then Finish(DraftOf(LastValues(params, UpdateReader(lib)), lib)) else Err
  }

  lemma KindsStep(m: map<Key, string>, key: Key, value: string)
    ensures (exists k :: k in m[key := value] && IsJobKey(k)) <==> (exists k :: k in m && IsJobKey(k)) || IsJobKey(key)
    ensures (exists k :: k in m[key := value] && IsNodeOnly(k))
       <==> (exists k :: k in m && IsNodeOnly(k)) || IsNodeOnly(key)
  {
    assert key in m[key := value];
    forall k | k in m ensures k in m[key := value] {}
  }

  lemma AssignTracksParsed(m: map<Key, string>, key: Key, value: string, lib: Library)
    requires key.JobId? || key.Priority? || key.TimeLimit? || key.State?
    ensures Assign(DraftOf(m, lib), key, value, lib) == DraftOf(m[key := value], lib)
  {
    KindsStep(m, key, value);
    match key case JobId => case Priority => case TimeLimit => case State =>
  }

  lemma AssignTracksLast(m: map<Key, string>, key: Key, value: string, lib: Library)
    ensures Assign(DraftOf(m, lib), key, value, lib) == DraftOf(m[key := value], lib)
  {
    if key.JobId? || key.Priority? || key.TimeLimit? || key.State? {
      AssignTracksParsed(m, key, value, lib);
    } else {
      KindsStep(m, key, value);
    }
  }

  lemma DraftStep(params: seq<string>, i: nat, lib: Library)
    requires i < |params| && AllRead(params[..i], UpdateReader(lib)) && Read(params[i], lib).Some?
    ensures AllRead(params[..i + 1], UpdateReader(lib))
    ensures var e := Read(params[i], lib).value;
            DraftOf(LastValues(params[..i + 1], UpdateReader(lib)), lib)
            == Assign(DraftOf(LastValues(params[..i], UpdateReader(lib)), lib), e.key, e.value, lib)
  {
    var read := UpdateReader(lib);
    assert params[..i + 1][..i] == params[..i];
    var e := read(params[i]).value;
    AssignTracksLast(LastValues(params[..i], read), e.key, e.value, lib);
  }

  lemma RejectsAll(params: seq<string>, i: nat, lib: Library)
    requires i < |params| && Read(params[i], lib).None?
    ensures TargetOf(params, lib) == Err
  {
    assert UpdateReader(lib)(params[i]).None?;
  }

  // ----- what a caller can rely on

  lemma OrderIndependent(a: seq<string>, b: seq<string>, lib: Library)
    requires SameParams(a, b)
    requires AllRead(a, UpdateReader(lib)) ==> DistinctKeys(a, UpdateReader(lib))
    ensures TargetOf(a, lib) == TargetOf(b, lib)
  {
    AllReadOfSameParams(a, b, UpdateReader(lib));
    if AllRead(a, UpdateReader(lib)) {
      OrderIsIrrelevant(a, b, UpdateReader(lib));
    }
  }

  lemma LastWins(a: seq<string>, p: string, b: seq<string>, lib: Library)
    requires Read(p, lib).Some?
    requires exists i :: 0 <= i < |b| && Read(b[i], lib).Some? && Read(b[i], lib).value.key == Read(p, lib).value.key
    ensures TargetOf(a + [p] + b, lib) == TargetOf(a + b, lib)
  {
    LastWinsOverall(a, p, b, UpdateReader(lib));
  }

  /** What was asked is what is sent, or nothing is sent: a node update carries no job
      parameter, a job update no node parameter, and neither is ever empty-handed about its target. */
  lemma NothingIsDropped(params: seq<string>, i: nat, lib: Library)
    requires i < |params| && TargetOf(params, lib).Ok?
    ensures Read(params[i], lib).Some?
    ensures var key := Read(params[i], lib).value.key;
            match TargetOf(params, lib).value
            case Nodes(_, _, _) => !IsJobKey(key)
            case Job(request) => IsJobKey(key) && request.HasChanges()
  {
    var read := UpdateReader(lib);
    assert read(params[i]) == Read(params[i], lib);
    LastValuesComeFromParams(params, read, Read(params[i], lib).value.key);
  }

  // ----- the target, field by field

  /** The parameter names, in lower case, and the keys they reach. */
  lemma KeyNames()
    ensures KeyOf("jobid") == KeyOf("job") == Some(JobId) && KeyOf("priority") == Some(Priority)
    ensures KeyOf("timelimit") == KeyOf("time_limit") == Some(TimeLimit)
    ensures KeyOf("partition") == Some(Partition) && KeyOf("account") == Some(Account)
    ensures KeyOf("comment") == Some(Comment) && KeyOf("qos") == Some(Qos)
    ensures KeyOf("excnodelist") == KeyOf("excludednodes") == Some(Exclude)
    ensures KeyOf("nodename") == KeyOf("node") == Some(NodeName)
    ensures KeyOf("state") == Some(State) && KeyOf("reason") == Some(Reason)
  {}

  /** A time limit is the minutes its value reads as, in seconds. */
  predicate SaysTimeLimit(limit: Option<nat>, m: map<Key, string>, lib: Library) {
    if TimeLimit in m then
      && lib.minutes(m[TimeLimit]).Some? && limit == Some(lib.minutes(m[TimeLimit]).value * 60)
      && lib.lower(Trim(m[TimeLimit])) !in {"unlimited", "infinite"}
    else limit == None
  }

  predicate SaysState(state: Option<nat>, m: map<Key, string>, lib: Library) {
    if State in m then
      var low := lib.lower(m[State]);
      && (low in {"idle", "resume"} ==> state == Some(NODE_IDLE))
      && (low == "drain" ==> state == Some(NODE_DRAIN))
      && (low == "down" ==> state == Some(NODE_DOWN))
      && low in {"idle", "resume", "drain", "down"}
    else state == None
  }

  predicate SaysJob(r: JobRequest, m: map<Key, string>, lib: Library) {
    && SaysNumber(Some(r.jobId), m, JobId, lib) && SaysNumber(r.priority, m, Priority, lib)
    && SaysTimeLimit(r.timeLimit, m, lib)
    && SaysText(r.partition, m, Partition) && SaysText(r.account, m, Account) && SaysText(r.comment, m, Comment)
    && SaysText(r.qos, m, Qos) && SaysText(r.exclude, m, Exclude)
  }

  /** Every field of the target, from the last value of each key. */
  predicate Says(t: Target, m: map<Key, string>, lib: Library) {
    match t
    case Nodes(pattern, state, reason) =>
      SaysText(Some(pattern), m, NodeName) && SaysState(state, m, lib) && SaysText(reason, m, Reason)
    case Job(request) => NodeName !in m && SaysJob(request, m, lib)
  }

  /** The last values can be sent: a node and nothing about a job, or a job, a change to it, and
      nothing about a node. */
  predicate Sendable(m: map<Key, string>) {
    || (NodeName in m && m.Keys <= {NodeName, State, Reason})
    || (JobId in m && m.Keys !! {NodeName, State, Reason} && m.Keys != {JobId})
  }

  /** Every value in `m` was accepted for its key. */
  predicate AllAccepted(m: map<Key, string>, lib: Library) {
    forall key :: key in m ==> Accepts(key, m[key], lib)
  }

  lemma LastValuesAreAccepted(params: seq<string>, lib: Library)
    requires AllRead(params, UpdateReader(lib))
    ensures AllAccepted(LastValues(params, UpdateReader(lib)), lib)
  {
    var read := UpdateReader(lib);
    var m := LastValues(params, read);
    forall key | key in m ensures Accepts(key, m[key], lib) {
      LastValuesComeFromParams(params, read, key);
      var i :| 0 <= i < |params| && read(params[i]) == Some(Entry(key, m[key]));
      assert Read(params[i], lib) == Some(Entry(key, m[key]));
    }
  }

  lemma NodesSentWhenSendable(m: map<Key, string>, lib: Library)
    requires NodeName in m
    ensures Finish(DraftOf(m, lib)).Ok? <==> Sendable(m)
  {
    if m.Keys <= {NodeName, State, Reason} {
      assert forall key :: key in m ==> !IsJobKey(key);
    } else {
      var key :| key in m.Keys && key !in {NodeName, State, Reason};
      assert IsJobKey(key);
    }
  }

  lemma JobSentWhenSendable(m: map<Key, string>, lib: Library)
    requires NodeName !in m && AllAccepted(m, lib)
    ensures Finish(DraftOf(m, lib)).Ok? <==> Sendable(m)
  {
    assert JobId in m ==> Accepts(JobId, m[JobId], lib);
    assert Priority in m ==> Accepts(Priority, m[Priority], lib);
    assert TimeLimit in m ==> Accepts(TimeLimit, m[TimeLimit], lib);
    if State in m {
      assert IsNodeOnly(State);
    } else if Reason in m {
      assert IsNodeOnly(Reason);
    } else {
      assert forall key :: key in m ==> !IsNodeOnly(key);
    }
  }

  lemma TargetSays(m: map<Key, string>, lib: Library)
    requires AllAccepted(m, lib) && Finish(DraftOf(m, lib)).Ok?
    ensures Says(Finish(DraftOf(m, lib)).value, m, lib)
  {
    assert JobId in m ==> Accepts(JobId, m[JobId], lib);
    assert Priority in m ==> Accepts(Priority, m[Priority], lib);
    assert TimeLimit in m ==> Accepts(TimeLimit, m[TimeLimit], lib);
    assert State in m ==> Accepts(State, m[State], lib);
  }

  /** All or nothing: a target is sent exactly when every parameter is accepted and the last
      values can be sent, and it says what they say. */
  method ParseUpdate(params: seq<string>, lib: Library) returns (r: Outcome<Target>)
    ensures r == TargetOf(params, lib)
    ensures r.Ok? <==> AllRead(params, UpdateReader(lib)) && Sendable(LastValues(params, UpdateReader(lib)))
    ensures r.Ok? ==> Says(r.value, LastValues(params, UpdateReader(lib)), lib)
  {
    var d := BLANK;
    assert d == DraftOf(map[], lib);
    for i := 0 to |params|
      invariant AllRead(params[..i], UpdateReader(lib))
      invariant d == DraftOf(LastValues(params[..i], UpdateReader(lib)), lib)
    {
      var pair := SplitOnce(params[i]);
      if pair.None? {
        RejectsAll(params, i, lib);
        return Err;
      }
      var key := KeyOf(lib.lower(pair.value.key));
      if key.None? || !Accepts(key.value, pair.value.value, lib) {
        RejectsAll(params, i, lib);
        return Err;
      }
      d := Assign(d, key.value, pair.value.value, lib);
      DraftStep(params, i, lib);
    }
    assert params[..|params|] == params;
    ghost var m := LastValues(params, UpdateReader(lib));
    LastValuesAreAccepted(params, lib);
    if NodeName in m {
      NodesSentWhenSendable(m, lib);
    } else {
      JobSentWhenSendable(m, lib);
    }
    r := Finish(d);
    if r.Ok? {
      TargetSays(m, lib);
    }
  }
}
