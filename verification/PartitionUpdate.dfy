/** `scontrol update PartitionName=...` (`scontrol.rs`): a loop that assigns options as
    it meets them, proved to depend only on the last value of each key. */
module PartitionUpdate {
  import opened Text
  import opened KeyValue

  /** The keys, aliases identified. Keys that only Slurm acts on are accepted and ignored. */
  datatype Key =
    | PartitionName | Nodes | State | Default | MaxTime | DefaultTime | MaxNodes | MinNodes
    | AllowAccounts | AllowGroups | DenyAccounts | DenyQos | AllowQos | PriorityTier | PreemptMode
    | PreemptExemptTime | ClearPreemptExemptTime | ExclusiveTopo | GraceTime | ClearGraceTime
    | Ignored(name: string)

  const IGNORED: seq<string> := [
    "allocnodes", "hidden", "rootonly", "reqresv", "oversubscribe", "overtimelimit", "disablerootjobs",
    "exclusiveuser", "lln", "maxcpuspernode", "maxcpuspersocket", "jobdefaults", "defmempernode",
    "maxmempernode", "qos", "tres"]

  function KeyOf(name: string): Option<Key> {
    match name
    case "partitionname" => Some(PartitionName)
    case "nodes" => Some(Nodes)
    case "state" => Some(State)
    case "default" => Some(Default)
    case "maxtime" => Some(MaxTime)
    case "defaulttime" => Some(DefaultTime)
    case "maxnodes" => Some(MaxNodes)
    case "minnodes" => Some(MinNodes)
    case "allowaccounts" => Some(AllowAccounts)
    case "allowgroups" => Some(AllowGroups)
    case "denyaccounts" => Some(DenyAccounts)
    case "denyqos" => Some(DenyQos)
    case "allowqos" => Some(AllowQos)
    case "prioritytier" => Some(PriorityTier)
    case "priorityjobfactor" => Some(PriorityTier)
    case "preemptmode" => Some(PreemptMode)
    case "preemptexempttime" => Some(PreemptExemptTime)
    case "clearpreemptexempttime" => Some(ClearPreemptExemptTime)
    case "exclusivetopo" => Some(ExclusiveTopo)
    case "gracetime" => Some(GraceTime)
    case "cleargracetime" => Some(ClearGraceTime)
    case _ => if name in IGNORED then Some(Ignored(name)) else None
  }

  /** The request under construction. */
  datatype Draft = Draft(
    name: string, nodes: Option<string>, state: Option<string>, isDefault: Option<bool>,
    maxTime: Option<string>, defaultTime: Option<string>,
    maxNodes: Option<nat>, clearMaxNodes: bool, minNodes: Option<nat>,
    allowAccounts: Option<string>, allowGroups: Option<string>, denyAccounts: Option<string>,
    denyQos: Option<string>, allowQos: Option<string>,
    priorityTier: Option<nat>, preemptMode: Option<string>,
    preemptExemptTime: Option<nat>, clearPreemptExemptTime: bool,
    graceTime: Option<nat>, clearGraceTime: bool)

  const BLANK := Draft("", None, None, None, None, None, None, false, None,
                       None, None, None, None, None, None, None, None, false, None, false)

  predicate LiftsMaxNodes(value: string, lib: Library) {
    lib.EqIgnoreAsciiCase(value, "UNLIMITED") || value == "0"
  }

  predicate IsYes(value: string, lib: Library) {
    lib.EqIgnoreAsciiCase(value, "yes") || value == "1" || lib.EqIgnoreAsciiCase(value, "true")
  }

  /** `crate::boolean::parse_bool`. */
  function ParseBool(value: string, lib: Library): Option<bool> {
    var low := lib.lower(value);
    if low == "1" || low == "yes" || low == "true" then Some(true)
    else if low == "0" || low == "no" || low == "false" then Some(false)
    else None
  }

  predicate TopoAccepted(value: string, lib: Library) {
    var low := lib.asciiLower(value);
    low == "no" || low == "0" || low == "false"
  }

  /** The values an arm of the loop's match does not reject. */
  predicate Accepts(key: Key, value: string, lib: Library) {
    match key
    case MaxNodes => LiftsMaxNodes(value, lib) || lib.u32(value).Some?
    case MinNodes => lib.u32(value).Some?
    case PriorityTier => lib.u32(value).Some?
    case PreemptExemptTime => lib.u32(value).Some?
    case GraceTime => lib.u32(value).Some?
    case ExclusiveTopo => TopoAccepted(value, lib)
    case ClearGraceTime => ParseBool(value, lib).Some?
    case _ => true
  }

  /** What an arm of the loop's match assigns. */
  function Assign(d: Draft, key: Key, value: string, lib: Library): Draft {
    match key
    case PartitionName => d.(name := value)
    case Nodes => d.(nodes := Some(value))
    case State => d.(state := Some(lib.upper(value)))
    case Default => d.(isDefault := Some(lib.EqIgnoreAsciiCase(value, "yes")))
    case MaxTime => d.(maxTime := Some(value))
    case DefaultTime => d.(defaultTime := Some(value))
    case MaxNodes =>
      if LiftsMaxNodes(value, lib) then d.(clearMaxNodes := true, maxNodes := None)
      else d.(maxNodes := lib.u32(value), clearMaxNodes := false)
    case MinNodes => d.(minNodes := lib.u32(value))
    case AllowAccounts => d.(allowAccounts := Some(value))
    case AllowGroups => d.(allowGroups := Some(value))
    case DenyAccounts => d.(denyAccounts := Some(value))
    case DenyQos => d.(denyQos := Some(value))
    case AllowQos => d.(allowQos := Some(value))
    case PriorityTier => d.(priorityTier := lib.u32(value))
    case PreemptMode => d.(preemptMode := Some(lib.upper(value)))
    case PreemptExemptTime => d.(preemptExemptTime := lib.u32(value))
    case ClearPreemptExemptTime => d.(clearPreemptExemptTime := IsYes(value, lib))
    case GraceTime => d.(graceTime := lib.u32(value))
    case ClearGraceTime => d.(clearGraceTime := ParseBool(value, lib) == Some(true))
    case ExclusiveTopo => d
    case Ignored(_) => d
  }

  /** An access list of the request: whether to replace it, and by what. */
  datatype Acl = Acl(set_: bool, entries: seq<string>)

  function AclOf(list: Option<string>): Acl {
    if list.Some? then Acl(true, SplitCsv(list.value)) else Acl(false, [])
  }

  datatype Request = Request(
    name: string, nodes: Option<string>, state: Option<string>, isDefault: Option<bool>,
    maxTime: Option<string>, defaultTime: Option<string>,
    maxNodesValue: Option<nat>, clearMaxNodes: bool, minNodes: Option<nat>,
    allowAccounts: Acl, allowGroups: Acl, denyAccounts: Acl, denyQos: Acl, allowQos: Acl,
    priorityTier: Option<nat>, preemptMode: Option<string>,
    preemptExemptTime: Option<nat>, clearPreemptExemptTime: bool,
    graceTime: Option<nat>, clearGraceTime: bool)

  /** The checks and the assembly after the loop. */
  function Finish(d: Draft): Outcome<Request> {
    if d.name == "" || (d.graceTime.Some? && d.clearGraceTime) then Err
    else Ok(Request(
      d.name, d.nodes, d.state, d.isDefault, d.maxTime, d.defaultTime,
      d.maxNodes, d.clearMaxNodes, d.minNodes,
      AclOf(d.allowAccounts), AclOf(d.allowGroups), AclOf(d.denyAccounts), AclOf(d.denyQos), AclOf(d.allowQos),
      d.priorityTier, d.preemptMode, d.preemptExemptTime, d.clearPreemptExemptTime, d.graceTime, d.clearGraceTime))
  }

  // ----- the reference: what the last value of each key says

  function Read(param: string, lib: Library): Option<Entry<Key>> {
    match SplitOnce(param)
    case None => None
    case Some(Pair(name, value)) =>
      match KeyOf(lib.lower(name))
      case None => None
      case Some(key) => if Accepts(key, value, lib) then Some(Entry(key, value)) else None
  }

  function PartitionReader(lib: Library): Reader<Key> {
    (param: string) => Read(param, lib)
  }

  function Last(m: map<Key, string>, key: Key): Option<string> {
    if key in m then Some(m[key]) else None
  }

  function LastNumber(m: map<Key, string>, key: Key, lib: Library): Option<nat> {
    if key in m then lib.u32(m[key]) else None
  }

  function LastUpper(m: map<Key, string>, key: Key, lib: Library): Option<string> {
    if key in m then Some(lib.upper(m[key])) else None
  }

  function DraftOf(m: map<Key, string>, lib: Library): Draft {
    Draft(
      Last(m, PartitionName).Or(""), Last(m, Nodes), LastUpper(m, State, lib),
      if Default in m then Some(lib.EqIgnoreAsciiCase(m[Default], "yes")) else None,
      Last(m, MaxTime), Last(m, DefaultTime),
      if MaxNodes in m && LiftsMaxNodes(m[MaxNodes], lib) then None else LastNumber(m, MaxNodes, lib),
      MaxNodes in m && LiftsMaxNodes(m[MaxNodes], lib), LastNumber(m, MinNodes, lib),
      Last(m, AllowAccounts), Last(m, AllowGroups), Last(m, DenyAccounts), Last(m, DenyQos), Last(m, AllowQos),
      LastNumber(m, PriorityTier, lib), LastUpper(m, PreemptMode, lib), LastNumber(m, PreemptExemptTime, lib),
      ClearPreemptExemptTime in m && IsYes(m[ClearPreemptExemptTime], lib),
      LastNumber(m, GraceTime, lib), ClearGraceTime in m && ParseBool(m[ClearGraceTime], lib) == Some(true))
  }

  /** All or nothing: one bad parameter anywhere, and there is no request. */
  function RequestOf(params: seq<string>, lib: Library): Outcome<Request> {
    if AllRead(params, PartitionReader(lib)) then Finish(DraftOf(LastValues(params, PartitionReader(lib)), lib))
    else Err
  }

  /** Assigning the next value keeps the draft what the last values say. */
  predicate Tracks(m: map<Key, string>, key: Key, value: string, lib: Library) {
    Assign(DraftOf(m, lib), key, value, lib) == DraftOf(m[key := value], lib)
  }

  lemma AssignTracksAllowed(m: map<Key, string>, key: Key, value: string, lib: Library)
    requires key.AllowAccounts? || key.AllowGroups? || key.AllowQos?
    ensures Tracks(m, key, value, lib)
  {
    match key case AllowAccounts => case AllowGroups => case AllowQos =>
  }

  lemma AssignTracksDenied(m: map<Key, string>, key: Key, value: string, lib: Library)
    requires key.DenyAccounts? || key.DenyQos?
    ensures Tracks(m, key, value, lib)
  {
    match key case DenyAccounts => case DenyQos =>
  }

  lemma AssignTracksNames(m: map<Key, string>, key: Key, value: string, lib: Library)
    requires key.PartitionName? || key.Nodes?
    ensures Tracks(m, key, value, lib)
  {
    match key case PartitionName => case Nodes =>
  }

  lemma AssignTracksLimits(m: map<Key, string>, key: Key, value: string, lib: Library)
    requires key.MaxTime? || key.DefaultTime?
    ensures Tracks(m, key, value, lib)
  {
    match key case MaxTime => case DefaultTime =>
  }

  lemma AssignTracksWords(m: map<Key, string>, key: Key, value: string, lib: Library)
    requires key.State? || key.Default? || key.PreemptMode?
    ensures Tracks(m, key, value, lib)
  {
    match key case State => case Default => case PreemptMode =>
  }

  lemma AssignTracksCounts(m: map<Key, string>, key: Key, value: string, lib: Library)
    requires key.MinNodes? || key.PriorityTier?
    ensures Tracks(m, key, value, lib)
  {
    match key case MinNodes => case PriorityTier =>
  }

  lemma AssignTracksTimes(m: map<Key, string>, key: Key, value: string, lib: Library)
    requires key.PreemptExemptTime? || key.GraceTime?
    ensures Tracks(m, key, value, lib)
  {
    match key case PreemptExemptTime => case GraceTime =>
  }

  lemma AssignTracksClears(m: map<Key, string>, key: Key, value: string, lib: Library)
    requires key.ClearPreemptExemptTime? || key.ClearGraceTime?
    ensures Tracks(m, key, value, lib)
  {
    match key case ClearPreemptExemptTime => case ClearGraceTime =>
  }

  lemma AssignTracksMaxNodes(m: map<Key, string>, value: string, lib: Library)
    ensures Tracks(m, MaxNodes, value, lib)
  {
    var before, after := DraftOf(m, lib), DraftOf(m[MaxNodes := value], lib);
    assert after == before.(maxNodes := after.maxNodes, clearMaxNodes := after.clearMaxNodes);
  }

  lemma AssignTracksLast(m: map<Key, string>, key: Key, value: string, lib: Library)
    ensures Tracks(m, key, value, lib)
  {
    match key
    case AllowAccounts => AssignTracksAllowed(m, key, value, lib);
    case AllowGroups => AssignTracksAllowed(m, key, value, lib);
    case DenyAccounts => AssignTracksDenied(m, key, value, lib);
    case DenyQos => AssignTracksDenied(m, key, value, lib);
    case AllowQos => AssignTracksAllowed(m, key, value, lib);
    case PartitionName => AssignTracksNames(m, key, value, lib);
    case Nodes => AssignTracksNames(m, key, value, lib);
    case MaxTime => AssignTracksLimits(m, key, value, lib);
    case DefaultTime => AssignTracksLimits(m, key, value, lib);
    case State => AssignTracksWords(m, key, value, lib);
    case Default => AssignTracksWords(m, key, value, lib);
    case PreemptMode => AssignTracksWords(m, key, value, lib);
    case MinNodes => AssignTracksCounts(m, key, value, lib);
    case PriorityTier => AssignTracksCounts(m, key, value, lib);
    case PreemptExemptTime => AssignTracksTimes(m, key, value, lib);
    case GraceTime => AssignTracksTimes(m, key, value, lib);
    case ClearPreemptExemptTime => AssignTracksClears(m, key, value, lib);
    case ClearGraceTime => AssignTracksClears(m, key, value, lib);
    case MaxNodes => AssignTracksMaxNodes(m, value, lib);
    case ExclusiveTopo =>
    case Ignored(_) =>
  }

  lemma DraftStep(params: seq<string>, i: nat, lib: Library)
    requires i < |params| && AllRead(params[..i], PartitionReader(lib)) && Read(params[i], lib).Some?
    ensures AllRead(params[..i + 1], PartitionReader(lib))
    ensures var e := Read(params[i], lib).value;
            DraftOf(LastValues(params[..i + 1], PartitionReader(lib)), lib)
            == Assign(DraftOf(LastValues(params[..i], PartitionReader(lib)), lib), e.key, e.value, lib)
  {
    var read := PartitionReader(lib);
    assert params[..i + 1][..i] == params[..i];
    var e := read(params[i]).value;
    AssignTracksLast(LastValues(params[..i], read), e.key, e.value, lib);
  }

  lemma RejectsAll(params: seq<string>, i: nat, lib: Library)
    requires i < |params| && Read(params[i], lib).None?
    ensures RequestOf(params, lib) == Err
  {
    assert PartitionReader(lib)(params[i]).None?;
  }

  // ----- what a caller can rely on

  /** With no key repeated, the order of the parameters changes neither the success nor the request. */
  lemma OrderIndependent(a: seq<string>, b: seq<string>, lib: Library)
    requires SameParams(a, b)
    requires AllRead(a, PartitionReader(lib)) ==> DistinctKeys(a, PartitionReader(lib))
    ensures RequestOf(a, lib) == RequestOf(b, lib)
  {
    AllReadOfSameParams(a, b, PartitionReader(lib));
    if AllRead(a, PartitionReader(lib)) {
      OrderIsIrrelevant(a, b, PartitionReader(lib));
    }
  }

  /** A valid value given again later under the same key, or an alias of it, has no effect. */
  lemma LastWins(a: seq<string>, p: string, b: seq<string>, lib: Library)
    requires Read(p, lib).Some?
    requires exists i :: 0 <= i < |b| && Read(b[i], lib).Some? && Read(b[i], lib).value.key == Read(p, lib).value.key
    ensures RequestOf(a + [p] + b, lib) == RequestOf(a + b, lib)
  {
    LastWinsOverall(a, p, b, PartitionReader(lib));
  }

  /** No request both sets and clears the node limit, or the grace time. */
  lemma NeverSetAndCleared(params: seq<string>, lib: Library)
    ensures var r := RequestOf(params, lib);
            r.Ok? ==> && !(r.value.maxNodesValue.Some? && r.value.clearMaxNodes)
                      && !(r.value.graceTime.Some? && r.value.clearGraceTime)
  {}

  /** The exempt time has no such check: an accepted request sets and clears it exactly when
      both keys are given and the last clear is a yes. */
  lemma ExemptTimeSetAndCleared(params: seq<string>, lib: Library)
    ensures var r := RequestOf(params, lib);
            r.Ok? ==>
              var m := LastValues(params, PartitionReader(lib));
              r.value.preemptExemptTime.Some? && r.value.clearPreemptExemptTime
              <==> && PreemptExemptTime in m && ClearPreemptExemptTime in m
                   && IsYes(m[ClearPreemptExemptTime], lib)
  {
    if RequestOf(params, lib).Ok? {
      LastNumberIsRead(params, PreemptExemptTime, lib);
    }
  }

  /** A number that is kept was accepted, so it reads as one. */
  lemma LastNumberIsRead(params: seq<string>, key: Key, lib: Library)
    requires AllRead(params, PartitionReader(lib)) && (key.PreemptExemptTime? || key.GraceTime? || key.MinNodes?)
    ensures var m := LastValues(params, PartitionReader(lib)); key in m ==> lib.u32(m[key]).Some?
  {
    var read := PartitionReader(lib);
    LastValuesComeFromParams(params, read, key);
    var m := LastValues(params, read);
    if key in m {
      var i :| 0 <= i < |params| && read(params[i]) == Some(Entry(key, m[key]));
      assert Read(params[i], lib) == Some(Entry(key, m[key]));
    }
  }

  /** A parameter is read when its name, whatever its case, is known and its value is accepted. */
  lemma ReadOf(name: string, value: string, lib: Library)
    requires '=' !in name
    ensures KeyOf(lib.lower(name)) == None ==> Read(name + ['='] + value, lib) == None
    ensures forall key :: KeyOf(lib.lower(name)) == Some(key) ==>
              Read(name + ['='] + value, lib) == if Accepts(key, value, lib) then Some(Entry(key, value)) else None
  {
    SplitOnceAt(name, value);
  }

  lemma BothKeysGiven(params: seq<string>, name: string, exempt: string, clear: string, lib: Library)
    requires |params| == 3 && name != "" && IsYes(clear, lib)
    requires Read(params[0], lib) == Some(Entry(PartitionName, name))
    requires Read(params[1], lib) == Some(Entry(PreemptExemptTime, exempt))
    requires Read(params[2], lib) == Some(Entry(ClearPreemptExemptTime, clear))
    ensures var r := RequestOf(params, lib);
            r.Ok? && r.value.preemptExemptTime == lib.u32(exempt) && r.value.clearPreemptExemptTime
  {
    ThreeKept(params, PartitionReader(lib), Entry(PartitionName, name), Entry(PreemptExemptTime, exempt),
              Entry(ClearPreemptExemptTime, clear));
    BothKeysKept(map[PartitionName := name, PreemptExemptTime := exempt, ClearPreemptExemptTime := clear], lib);
  }

  lemma BothKeysKept(m: map<Key, string>, lib: Library)
    requires PartitionName in m && m[PartitionName] != "" && GraceTime !in m && PreemptExemptTime in m
    requires ClearPreemptExemptTime in m && IsYes(m[ClearPreemptExemptTime], lib)
    ensures var r := Finish(DraftOf(m, lib));
            && r.Ok? && r.value.preemptExemptTime == lib.u32(m[PreemptExemptTime])
            && r.value.clearPreemptExemptTime
  {}

  /** The parameter names, in lower case, and the keys they reach. */
  lemma KeyNames()
    ensures KeyOf("partitionname") == Some(PartitionName) && KeyOf("nodes") == Some(Nodes)
    ensures KeyOf("state") == Some(State) && KeyOf("default") == Some(Default)
    ensures KeyOf("maxtime") == Some(MaxTime) && KeyOf("defaulttime") == Some(DefaultTime)
    ensures KeyOf("maxnodes") == Some(MaxNodes) && KeyOf("minnodes") == Some(MinNodes)
    ensures KeyOf("allowaccounts") == Some(AllowAccounts) && KeyOf("allowgroups") == Some(AllowGroups)
    ensures KeyOf("denyaccounts") == Some(DenyAccounts) && KeyOf("denyqos") == Some(DenyQos)
    ensures KeyOf("allowqos") == Some(AllowQos) && KeyOf("preemptmode") == Some(PreemptMode)
    ensures KeyOf("prioritytier") == KeyOf("priorityjobfactor") == Some(PriorityTier)
    ensures KeyOf("preemptexempttime") == Some(PreemptExemptTime)
    ensures KeyOf("clearpreemptexempttime") == Some(ClearPreemptExemptTime)
    ensures KeyOf("exclusivetopo") == Some(ExclusiveTopo)
    ensures KeyOf("gracetime") == Some(GraceTime) && KeyOf("cleargracetime") == Some(ClearGraceTime)
  {}

  /** `PreemptExemptTime=5 ClearPreemptExemptTime=1` is such a request, whatever its
      parameters are spelled like. */
  lemma ExemptTimeExample(named: string, exempt: string, clear: string, lib: Library) returns (params: seq<string>)
    requires '=' !in named && lib.lower(named) == "partitionname"
    requires '=' !in exempt && lib.lower(exempt) == "preemptexempttime"
    requires '=' !in clear && lib.lower(clear) == "clearpreemptexempttime"
    requires lib.u32("5") == Some(5)
    ensures params == [named + ['='] + "gpu", exempt + ['='] + "5", clear + ['='] + "1"]
    ensures var r := RequestOf(params, lib);
            r.Ok? && r.value.preemptExemptTime == Some(5) && r.value.clearPreemptExemptTime
  {
    KeyNames();
    ReadOf(named, "gpu", lib);
    ReadOf(exempt, "5", lib);
    ReadOf(clear, "1", lib);
    params := [named + ['='] + "gpu", exempt + ['='] + "5", clear + ['='] + "1"];
    BothKeysGiven(params, "gpu", "5", "1", lib);
  }

  // ----- the request, field by field

  /** The values a parameter may have: a number, a node limit, a boolean, a no, or anything. */
  lemma ValuesAccepted(key: Key, value: string, lib: Library)
    ensures key.MinNodes? || key.PriorityTier? || key.PreemptExemptTime? || key.GraceTime? ==>
              (Accepts(key, value, lib) <==> lib.u32(value).Some?)
    ensures key.MaxNodes? ==>
              (Accepts(key, value, lib)
               <==> lib.u32(value).Some? || lib.asciiLower(value) == lib.asciiLower("UNLIMITED") || value == "0")
    ensures key.ClearGraceTime? ==>
              (Accepts(key, value, lib) <==> lib.lower(value) in {"1", "yes", "true", "0", "no", "false"})
    ensures key.ExclusiveTopo? ==> (Accepts(key, value, lib) <==> lib.asciiLower(value) in {"no", "0", "false"})
    ensures key !in {MinNodes, PriorityTier, PreemptExemptTime, GraceTime, MaxNodes, ClearGraceTime, ExclusiveTopo} ==>
              Accepts(key, value, lib)
  {}

  /** An access list is replaced exactly when its parameter is given. */
  predicate SaysAcl(acl: Acl, m: map<Key, string>, key: Key) {
    acl == if key in m then Acl(true, SplitCsv(m[key])) else Acl(false, [])
  }

  predicate SaysUpper(text: Option<string>, m: map<Key, string>, key: Key, lib: Library) {
    text == if key in m then Some(lib.upper(m[key])) else None
  }

  predicate SaysTexts(r: Request, m: map<Key, string>, lib: Library) {
    && PartitionName in m && r.name == m[PartitionName]
    && SaysText(r.nodes, m, Nodes) && SaysText(r.maxTime, m, MaxTime) && SaysText(r.defaultTime, m, DefaultTime)
    && SaysUpper(r.state, m, State, lib) && SaysUpper(r.preemptMode, m, PreemptMode, lib)
  }

  predicate SaysAcls(r: Request, m: map<Key, string>) {
    && SaysAcl(r.allowAccounts, m, AllowAccounts) && SaysAcl(r.allowGroups, m, AllowGroups)
    && SaysAcl(r.allowQos, m, AllowQos)
    && SaysAcl(r.denyAccounts, m, DenyAccounts) && SaysAcl(r.denyQos, m, DenyQos)
  }

  predicate SaysNumbers(r: Request, m: map<Key, string>, lib: Library) {
    && SaysNumber(r.minNodes, m, MinNodes, lib) && SaysNumber(r.priorityTier, m, PriorityTier, lib)
    && SaysNumber(r.preemptExemptTime, m, PreemptExemptTime, lib) && SaysNumber(r.graceTime, m, GraceTime, lib)
  }

  predicate SaysSwitches(r: Request, m: map<Key, string>, lib: Library) {
    && r.isDefault == (if Default in m then Some(lib.asciiLower(m[Default]) == lib.asciiLower("yes")) else None)
    && r.clearPreemptExemptTime == (
         && ClearPreemptExemptTime in m
         && var low := lib.asciiLower(m[ClearPreemptExemptTime]);
            low == lib.asciiLower("yes") || low == lib.asciiLower("true") || m[ClearPreemptExemptTime] == "1")
    && r.clearGraceTime == (ClearGraceTime in m && lib.lower(m[ClearGraceTime]) in {"1", "yes", "true"})
  }

  /** `UNLIMITED` and `0` clear the node limit; a number sets it. */
  predicate SaysMaxNodes(r: Request, m: map<Key, string>, lib: Library) {
    if MaxNodes !in m then r.maxNodesValue == None && !r.clearMaxNodes
    else if lib.asciiLower(m[MaxNodes]) == lib.asciiLower("UNLIMITED") || m[MaxNodes] == "0" then
      r.maxNodesValue == None && r.clearMaxNodes
    else r.maxNodesValue.Some? && r.maxNodesValue == lib.u32(m[MaxNodes]) && !r.clearMaxNodes
  }

  /** Every field of the request, from the last value of each key. */
  predicate Says(r: Request, m: map<Key, string>, lib: Library) {
    && SaysTexts(r, m, lib) && SaysAcls(r, m) && SaysNumbers(r, m, lib)
    && SaysSwitches(r, m, lib) && SaysMaxNodes(r, m, lib)
  }

  /** The last values can be sent: there is a name, and the grace time is not both set and cleared. */
  predicate Sendable(m: map<Key, string>, lib: Library) {
    && PartitionName in m && m[PartitionName] != ""
    && !(GraceTime in m && ClearGraceTime in m && lib.lower(m[ClearGraceTime]) in {"1", "yes", "true"})
  }

  /** Every value in `m` was accepted for its key. */
  predicate AllAccepted(m: map<Key, string>, lib: Library) {
    forall key :: key in m ==> Accepts(key, m[key], lib)
  }

  lemma LastValuesAreAccepted(params: seq<string>, lib: Library)
    requires AllRead(params, PartitionReader(lib))
    ensures AllAccepted(LastValues(params, PartitionReader(lib)), lib)
  {
    var read := PartitionReader(lib);
    var m := LastValues(params, read);
    forall key | key in m ensures Accepts(key, m[key], lib) {
      LastValuesComeFromParams(params, read, key);
      var i :| 0 <= i < |params| && read(params[i]) == Some(Entry(key, m[key]));
      assert Read(params[i], lib) == Some(Entry(key, m[key]));
    }
  }

  lemma SentWhenSendable(m: map<Key, string>, lib: Library)
    requires AllAccepted(m, lib)
    ensures Finish(DraftOf(m, lib)).Ok? <==> Sendable(m, lib)
  {
    assert GraceTime in m ==> Accepts(GraceTime, m[GraceTime], lib);
  }

  lemma TextsSaid(m: map<Key, string>, lib: Library)
    requires Finish(DraftOf(m, lib)).Ok?
    ensures SaysTexts(Finish(DraftOf(m, lib)).value, m, lib)
  {}

  lemma AclsSaid(m: map<Key, string>, lib: Library)
    requires Finish(DraftOf(m, lib)).Ok?
    ensures SaysAcls(Finish(DraftOf(m, lib)).value, m)
  {}

  lemma NumbersSaid(m: map<Key, string>, lib: Library)
    requires AllAccepted(m, lib) && Finish(DraftOf(m, lib)).Ok?
    ensures SaysNumbers(Finish(DraftOf(m, lib)).value, m, lib)
  {
    assert MinNodes in m ==> Accepts(MinNodes, m[MinNodes], lib);
    assert PriorityTier in m ==> Accepts(PriorityTier, m[PriorityTier], lib);
    assert PreemptExemptTime in m ==> Accepts(PreemptExemptTime, m[PreemptExemptTime], lib);
    assert GraceTime in m ==> Accepts(GraceTime, m[GraceTime], lib);
  }

  lemma SwitchesSaid(m: map<Key, string>, lib: Library)
    requires Finish(DraftOf(m, lib)).Ok?
    ensures SaysSwitches(Finish(DraftOf(m, lib)).value, m, lib)
  {}

  lemma MaxNodesSaid(m: map<Key, string>, lib: Library)
    requires AllAccepted(m, lib) && Finish(DraftOf(m, lib)).Ok?
    ensures SaysMaxNodes(Finish(DraftOf(m, lib)).value, m, lib)
  {
    assert MaxNodes in m ==> Accepts(MaxNodes, m[MaxNodes], lib);
  }

  lemma RequestSays(m: map<Key, string>, lib: Library)
    requires AllAccepted(m, lib) && Finish(DraftOf(m, lib)).Ok?
    ensures Says(Finish(DraftOf(m, lib)).value, m, lib)
  {
    TextsSaid(m, lib);
    AclsSaid(m, lib);
    NumbersSaid(m, lib);
    SwitchesSaid(m, lib);
    MaxNodesSaid(m, lib);
  }

  /** All or nothing: a request is sent exactly when every parameter is accepted and the last
      values can be sent, and it says what they say. */
  method UpdateRequest(params: seq<string>, lib: Library) returns (r: Outcome<Request>)
    ensures r == RequestOf(params, lib)
    ensures r.Ok? <==> && AllRead(params, PartitionReader(lib))
                       && Sendable(LastValues(params, PartitionReader(lib)), lib)
    ensures r.Ok? ==> Says(r.value, LastValues(params, PartitionReader(lib)), lib)
  {
    var d := BLANK;
    for i := 0 to |params|
      invariant AllRead(params[..i], PartitionReader(lib))
      invariant d == DraftOf(LastValues(params[..i], PartitionReader(lib)), lib)
    {
      var pair := SplitOnce(params[i]);
      if pair.None? {
        RejectsAll(params, i, lib);
        return Err;
      }
      var key := KeyOf(lib.lower(pair.value.key));
      if key.None? || !Accepts(key.value, pair.value.value, lib) {
        RejectsAll(params, i, lib);
        return Err;
      }
      d := Assign(d, key.value, pair.value.value, lib);
      DraftStep(params, i, lib);
    }
    assert params[..|params|] == params;
    LastValuesAreAccepted(params, lib);
    SentWhenSendable(LastValues(params, PartitionReader(lib)), lib);
    r := Finish(d);
    if r.Ok? {
      RequestSays(LastValues(params, PartitionReader(lib)), lib);
    }
  }
}
