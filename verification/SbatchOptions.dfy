/** How `sbatch` settles its options (`sbatch.rs`, `env_defaults.rs`): the command line
    and the `#SBATCH` directives are parsed apart and merged, and environment values
    are put between the two. */
module SbatchOptions {
  import opened Text

  /** The single-valued options, by their argument ids. */
  datatype Flag =
    | JobName | Partition | Account | Nodes | Ntasks | NtasksPerNode | CpusPerTask | Mem | MemPerCpu
    | Gpus | GpusPerNode | GpusPerTask | Time | TimeMin | Chdir | Output | Error | Qos | Dependency
    | Exclude | Constraint | Reservation | Array | Distribution | HetGroup | Bb | Begin | Deadline
    | SpreadJob | Topology | OpenMode | Mpi | Exclusive | Hold | Comment | MailType | MailUser | Export
    | ContainerImage | ContainerWorkdir | ContainerName | ContainerReadonly | ContainerMountHome
    | ContainerEntrypoint | ContainerRemapRoot | Controller | Wait | Parsable | Wrap

  /** Declared without `overrides_with`: giving one twice is an error. */
  predicate GivenOnce(flag: Flag) {
    flag.Wait? || flag.Parsable? || flag.Wrap?
  }

  /** The merge names every option but these, so a directive has no effect on them. */
  predicate CliOnly(flag: Flag) {
    flag.Parsable? || flag.Wrap?
  }

  /** One option as the parser meets it. A comma list given to `--gres` arrives split. */
  datatype Event =
    | Set(flag: Flag, value: string)
    | Nodelist(value: string) | Nodefile(value: string)
    | Requeue | NoRequeue
    | Gres(items: seq<string>)
    | License(value: string) | ContainerMount(value: string) | ContainerEnv(value: string)

  datatype Source = CommandLine | EnvVariable

  datatype Given = Given(value: string, source: Source)

  /** Parsed options; an absent one stands for its default. */
  datatype Args = Args(
    scalars: map<Flag, Given>, gres: Option<seq<string>>,
    nodelist: Option<string>, nodefile: Option<string>, requeue: bool, noRequeue: bool,
    licenses: seq<string>, containerMounts: seq<string>, containerEnv: seq<string>)

  const NO_ARGS := Args(map[], None, None, None, false, false, [], [], [])

  type Env = map<string, string>

  // ----- parsing one list of options

  /** Later options win, except that a once-only option must not come twice. */
  function Apply(args: Args, event: Event): Outcome<Args> {
    match event
    case Set(flag, value) =>
      if GivenOnce(flag) && flag in args.scalars then Err
      else Ok(args.(scalars := args.scalars[flag := Given(value, CommandLine)]))
    case Nodelist(value) => Ok(args.(nodelist := Some(value), nodefile := None))
    case Nodefile(value) => Ok(args.(nodelist := None, nodefile := Some(value)))
    case Requeue => Ok(args.(requeue := true, noRequeue := false))
    case NoRequeue => Ok(args.(requeue := false, noRequeue := true))
    case Gres(items) => Ok(args.(gres := Some(items)))
    case License(value) => Ok(args.(licenses := args.licenses + [value]))
    case ContainerMount(value) => Ok(args.(containerMounts := args.containerMounts + [value]))
    case ContainerEnv(value) => Ok(args.(containerEnv := args.containerEnv + [value]))
  }

  function Parse(events: seq<Event>): Outcome<Args> {
    if events == [] then Ok(NO_ARGS)
    else
      match Parse(events[..|events| - 1])
      case Err => Err
      case Ok(args) => Apply(args, events[|events| - 1])
  }

  const CONTROLLER_ENV := "SPUR_CONTROLLER_ADDR"

  /** `--controller` is the one option the parser itself also looks up in the environment. */
  function ParseWithEnv(events: seq<Event>, env: Env): Outcome<Args> {
    match Parse(events)
    case Err => Err
    case Ok(args) =>
      if Controller !in args.scalars && CONTROLLER_ENV in env then
        Ok(args.(scalars := args.scalars[Controller := Given(env[CONTROLLER_ENV], EnvVariable)]))
      else Ok(args)
  }

  // ----- merging

  /** Keeps what the command line gave and falls back to the directives option by option,
      a pair of spellings being one option; the accumulating lists are appended. */
  function Merged(cli: Args, dir: Args): Args {
    var nodes := if cli.nodelist.None? && cli.nodefile.None? then dir else cli;
    var queue := if !cli.requeue && !cli.noRequeue then dir else cli;
    Args(map f | f in cli.scalars.Keys + dir.scalars.Keys && (f in cli.scalars || !CliOnly(f))
           :: if f in cli.scalars then cli.scalars[f] else dir.scalars[f],
         if cli.gres.None? then dir.gres else cli.gres,
         nodes.nodelist, nodes.nodefile, queue.requeue, queue.noRequeue,
         dir.licenses + cli.licenses, dir.containerMounts + cli.containerMounts, dir.containerEnv + cli.containerEnv)
  }

  method MergeResolved(cli: Args, dir: Args) returns (out: Args)
    ensures out == Merged(cli, dir)
  {
    out := cli;
    var fallback := map f | f in dir.scalars && !CliOnly(f) && f !in cli.scalars :: dir.scalars[f];
    out := out.(scalars := out.scalars + fallback);
    assert out.scalars == Merged(cli, dir).scalars;
    if cli.nodelist.None? && cli.nodefile.None? {
      out := out.(nodelist := dir.nodelist, nodefile := dir.nodefile);
    }
    if !cli.requeue && !cli.noRequeue {
      out := out.(requeue := dir.requeue, noRequeue := dir.noRequeue);
    }
    if cli.gres.None? {
      out := out.(gres := dir.gres);
    }
    out := out.(licenses := dir.licenses + out.licenses,
                containerMounts := dir.containerMounts + out.containerMounts,
                containerEnv := dir.containerEnv + out.containerEnv);
  }

  // ----- the merge refines one parse of the directives followed by the command line

  /** Laying `cli` over `dir` with no option excepted. */
  function Over(dir: Args, cli: Args): Args {
    Merged(cli, dir).(scalars := dir.scalars + cli.scalars)
  }

  predicate Gives(events: seq<Event>, flag: Flag) {
    exists i :: 0 <= i < |events| && events[i].Set? && events[i].flag == flag
  }

  /** Some once-only option is in both lists. */
  ghost predicate Clash(dir: seq<Event>, cli: seq<Event>) {
    exists flag :: GivenOnce(flag) && Gives(dir, flag) && Gives(cli, flag)
  }

  lemma {:induction false} GivesIffParsed(events: seq<Event>)
    requires Parse(events).Ok?
    ensures forall flag :: Gives(events, flag) <==> flag in Parse(events).value.scalars
  {
    if events != [] {
      var before, last := events[..|events| - 1], events[|events| - 1];
      GivesIffParsed(before);
      forall flag ensures Gives(events, flag) <==> Gives(before, flag) || (last.Set? && last.flag == flag) {
        if Gives(before, flag) {
          var i :| 0 <= i < |before| && before[i].Set? && before[i].flag == flag;
          assert events[i] == before[i];
        }
      }
    }
  }

  ghost predicate ArgsClash(dir: Args, cli: Args) {
    exists flag :: GivenOnce(flag) && flag in dir.scalars && flag in cli.scalars
  }

  lemma SetOver(dir: Args, cli: Args, flag: Flag, value: string)
    requires !ArgsClash(dir, cli)
    ensures var next := Apply(cli, Set(flag, value));
            Apply(Over(dir, cli), Set(flag, value))
            == if next.Ok? && !ArgsClash(dir, next.value) then Ok(Over(dir, next.value)) else Err
  {
    var next := Apply(cli, Set(flag, value));
    if next.Ok? {
      assert ArgsClash(dir, next.value) <==> GivenOnce(flag) && flag in dir.scalars;
      assert (dir.scalars + cli.scalars)[flag := Given(value, CommandLine)] == dir.scalars + next.value.scalars;
    }
  }

  lemma ApplyOver(dir: Args, cli: Args, event: Event)
    requires !ArgsClash(dir, cli)
    ensures var next := Apply(cli, event);
            Apply(Over(dir, cli), event)
            == if next.Ok? && !ArgsClash(dir, next.value) then Ok(Over(dir, next.value)) else Err
  {
    match event
    case Set(flag, value) => SetOver(dir, cli, flag, value);
    case License(value) => assert dir.licenses + cli.licenses + [value] == dir.licenses + (cli.licenses + [value]);
    case ContainerMount(value) =>
      assert dir.containerMounts + cli.containerMounts + [value]
          == dir.containerMounts + (cli.containerMounts + [value]);
    case ContainerEnv(value) =>
      assert dir.containerEnv + cli.containerEnv + [value] == dir.containerEnv + (cli.containerEnv + [value]);
    case _ =>
  }

  lemma ApplyKeepsClash(dir: Args, cli: Args, event: Event)
    requires ArgsClash(dir, cli) && Apply(cli, event).Ok?
    ensures ArgsClash(dir, Apply(cli, event).value)
  {
    var flag :| GivenOnce(flag) && flag in dir.scalars && flag in cli.scalars;
    assert flag in Apply(cli, event).value.scalars;
  }

  lemma {:induction false} ParseConcat(dir: seq<Event>, cli: seq<Event>)
    ensures var d, c := Parse(dir), Parse(cli);
            Parse(dir + cli)
            == if d.Ok? && c.Ok? && !ArgsClash(d.value, c.value) then Ok(Over(d.value, c.value)) else Err
    decreases |cli|
  {
    var d := Parse(dir);
    if cli == [] {
      assert dir + cli == dir;
      if d.Ok? {
        assert Over(d.value, NO_ARGS) == d.value;
      }
    } else {
      var before, last := cli[..|cli| - 1], cli[|cli| - 1];
      assert (dir + cli)[..|dir + cli| - 1] == dir + before;
      ParseConcat(dir, before);
      var c := Parse(before);
      if d.Ok? && c.Ok? {
        if !ArgsClash(d.value, c.value) {
          ApplyOver(d.value, c.value, last);
        } else if Apply(c.value, last).Ok? {
          ApplyKeepsClash(d.value, c.value, last);
        }
      }
    }
  }

  predicate AgreeOn(a: Args, b: Args, flag: Flag) {
    (flag in a.scalars <==> flag in b.scalars) && (flag in a.scalars ==> a.scalars[flag] == b.scalars[flag])
  }

  lemma MergedAgreesWithOver(dir: Args, cli: Args)
    ensures Merged(cli, dir) == Over(dir, cli).(scalars := Merged(cli, dir).scalars)
    ensures forall flag :: !CliOnly(flag) || flag in cli.scalars ==> AgreeOn(Merged(cli, dir), Over(dir, cli), flag)
  {}

  lemma MergedIsOver(dir: Args, cli: Args)
    requires !ArgsClash(dir, cli)
    ensures Merged(cli, dir) == Over(dir, cli) <==> Parsable !in dir.scalars && Wrap !in dir.scalars
  {
    var merged, one := Merged(cli, dir), Over(dir, cli);
    forall flag | CliOnly(flag) && flag in dir.scalars ensures flag !in merged.scalars && flag in one.scalars {
      assert GivenOnce(flag);
    }
    if Parsable !in dir.scalars && Wrap !in dir.scalars {
      assert merged.scalars == one.scalars;
    }
  }

  /** Parsing the directives and the command line apart and merging gives what one
      last-wins parse of the directives followed by the command line gives, except that
      a once-only option may be in both lists, and that `--parsable` and `--wrap` in a
      directive are dropped: the two results are equal exactly when neither is there. */
  lemma MergeRefinesOneParse(dir: seq<Event>, cli: seq<Event>)
    requires Parse(dir).Ok? && Parse(cli).Ok?
    ensures Parse(dir + cli).Ok? <==> !Clash(dir, cli)
    ensures var merged := Merged(Parse(cli).value, Parse(dir).value);
            Parse(dir + cli).Ok? ==>
              var one := Parse(dir + cli).value;
              && merged == one.(scalars := merged.scalars)
              && (forall flag :: !CliOnly(flag) || Gives(cli, flag) ==> AgreeOn(merged, one, flag))
              && (merged == one <==> !Gives(dir, Parsable) && !Gives(dir, Wrap))
  {
    var d, c := Parse(dir).value, Parse(cli).value;
    ParseConcat(dir, cli);
    GivesIffParsed(dir);
    GivesIffParsed(cli);
    assert Clash(dir, cli) <==> ArgsClash(d, c);
    MergedAgreesWithOver(d, c);
    if !ArgsClash(d, c) {
      MergedIsOver(d, c);
    }
  }

  // ----- environment values

  predicate IsSet(env: Env, name: string) {
    name in env && env[name] != ""
  }

  /** The first variable that is set and not empty. */
  function EnvFirst(env: Env, names: seq<string>): Option<string> {
    if names == [] then None
    else if IsSet(env, names[0]) then Some(env[names[0]])
    else EnvFirst(env, names[1..])
  }

  lemma {:induction false} EnvFirstIsFirst(env: Env, names: seq<string>, k: nat)
    requires k <= |names| && forall j :: 0 <= j < k ==> !IsSet(env, names[j])
    ensures k == |names| ==> EnvFirst(env, names) == None
    ensures k < |names| && IsSet(env, names[k]) ==> EnvFirst(env, names) == Some(env[names[k]])
  {
    if k > 0 {
      EnvFirstIsFirst(env, names[1..], k - 1);
    }
  }

  const ALIASES: map<Flag, seq<string>> := map[
    JobName := ["SBATCH_JOB_NAME"],
    Partition := ["SPUR_PARTITION", "SBATCH_PARTITION"],
    Account := ["SPUR_ACCOUNT", "SBATCH_ACCOUNT"],
    Mem := ["SPUR_MEM_PER_NODE", "SBATCH_MEM"],
    MemPerCpu := ["SPUR_MEM_PER_CPU", "SBATCH_MEM_PER_CPU"],
    Time := ["SPUR_TIMELIMIT", "SBATCH_TIMELIMIT"],
    Output := ["SPUR_OUTPUT", "SBATCH_OUTPUT"],
    Error := ["SPUR_ERROR", "SBATCH_ERROR"],
    Qos := ["SPUR_QOS", "SBATCH_QOS"],
    Exclude := ["SPUR_EXCLUDE", "SBATCH_EXCLUDE"],
    Constraint := ["SPUR_CONSTRAINT", "SBATCH_CONSTRAINT"],
    Reservation := ["SPUR_RESERVATION", "SBATCH_RESERVATION"],
    Distribution := ["SPUR_DISTRIBUTION", "SBATCH_DISTRIBUTION"],
    Export := ["SPUR_EXPORT", "SBATCH_EXPORT"]]

  const GRES_ALIASES := ["SPUR_GRES", "SBATCH_GRES"]

  const NODELIST_ALIASES := ["SBATCH_NODELIST"]

  predicate CliSet(cli: Args, flag: Flag) {
    flag in cli.scalars && cli.scalars[flag].source == CommandLine
  }

  /** The environment supplies `flag`: it has a variable for it and the command line has not given it. */
  predicate FromEnv(cli: Args, env: Env, aliases: map<Flag, seq<string>>, flag: Flag) {
    flag in aliases && !CliSet(cli, flag) && EnvFirst(env, aliases[flag]).Some?
  }

  function EnvScalars(cli: Args, env: Env, aliases: map<Flag, seq<string>>, flags: set<Flag>): map<Flag, Given> {
    map f | f in flags && FromEnv(cli, env, aliases, f) :: Given(EnvFirst(env, aliases[f]).value, EnvVariable)
  }

  function EnvLayered(cli: Args, args: Args, env: Env, aliases: map<Flag, seq<string>>): Args {
    var gres := EnvFirst(env, GRES_ALIASES);
    var nodelist := EnvFirst(env, NODELIST_ALIASES);
    var nodes := cli.nodelist.None? && cli.nodefile.None? && nodelist.Some?;
    args.(
      scalars := args.scalars + EnvScalars(cli, env, aliases, aliases.Keys),
      gres := if cli.gres.None? && gres.Some? then Some(SplitCsv(gres.value)) else args.gres,
      nodelist := if nodes then nodelist else args.nodelist,
      nodefile := if nodes then None else args.nodefile)
  }

  lemma EnvScalarsStep(cli: Args, base: map<Flag, Given>, env: Env, aliases: map<Flag, seq<string>>,
                       flags: set<Flag>, flag: Flag)
    requires flag in aliases && flag !in flags
    ensures base + EnvScalars(cli, env, aliases, flags + {flag})
         == if FromEnv(cli, env, aliases, flag)
            then (base + EnvScalars(cli, env, aliases, flags))
                   [flag := Given(EnvFirst(env, aliases[flag]).value, EnvVariable)]
            else base + EnvScalars(cli, env, aliases, flags)
  {}

  method ApplyAliases(cli: Args, scalars: map<Flag, Given>, env: Env, aliases: map<Flag, seq<string>>)
    returns (out: map<Flag, Given>)
    ensures out == scalars + EnvScalars(cli, env, aliases, aliases.Keys)
  {
    out := scalars;
    var todo := aliases.Keys;
    ghost var done: set<Flag> := {};
    while todo != {}
      invariant done + todo == aliases.Keys && done !! todo
      invariant out == scalars + EnvScalars(cli, env, aliases, done)
      decreases todo
    {
      var flag :| flag in todo;
      EnvScalarsStep(cli, scalars, env, aliases, done, flag);
      if !CliSet(cli, flag) {
        var value := EnvFirst(env, aliases[flag]);
        if value.Some? {
          out := out[flag := Given(value.value, EnvVariable)];
        }
      }
      todo, done := todo - {flag}, done + {flag};
    }
  }

  /** `resolve_sbatch_env`: runs after the merge, over it. */
  method ResolveEnv(cli: Args, args: Args, env: Env, aliases: map<Flag, seq<string>>) returns (out: Args)
    ensures out == EnvLayered(cli, args, env, aliases)
  {
    var scalars := ApplyAliases(cli, args.scalars, env, aliases);
    out := args.(scalars := scalars);
    if cli.gres.None? {
      var gres := EnvFirst(env, GRES_ALIASES);
      if gres.Some? {
        out := out.(gres := Some(SplitCsv(gres.value)));
      }
    }
    if cli.nodelist.None? && cli.nodefile.None? {
      var nodelist := EnvFirst(env, NODELIST_ALIASES);
      if nodelist.Some? {
        out := out.(nodelist := nodelist, nodefile := None);
      }
    }
  }

  function Resolve(dir: seq<Event>, cli: seq<Event>, env: Env): Outcome<Args> {
    match (ParseWithEnv(cli, env), ParseWithEnv(dir, env))
    case (Ok(c), Ok(d)) => Ok(EnvLayered(c, Merged(c, d), env, ALIASES))
    case _ => Err
  }

  // ----- precedence: command line, then environment, then directive, then default

  function Value(args: Args, flag: Flag): Option<string> {
    if flag in args.scalars then Some(args.scalars[flag].value) else None
  }

  /** What the environment offers for an option. */
  function EnvValue(env: Env, aliases: map<Flag, seq<string>>, flag: Flag): Option<string> {
    if flag == Controller then ParserEnv(env, flag)
    else if flag in aliases then EnvFirst(env, aliases[flag])
    else None
  }

  function FirstOf(a: Option<string>, b: Option<string>): Option<string> {
    if a.Some? then a else b
  }

  lemma {:induction false} ParsedFromCommandLine(events: seq<Event>)
    requires Parse(events).Ok?
    ensures forall f :: f in Parse(events).value.scalars ==> Parse(events).value.scalars[f].source == CommandLine
  {
    if events != [] {
      ParsedFromCommandLine(events[..|events| - 1]);
    }
  }

  lemma {:induction false} LayeredValue(c: Args, d: Args, env: Env, aliases: map<Flag, seq<string>>, flag: Flag)
    ensures Value(EnvLayered(c, Merged(c, d), env, aliases), flag)
         == if FromEnv(c, env, aliases, flag) then EnvFirst(env, aliases[flag])
            else if flag in c.scalars then Some(c.scalars[flag].value)
            else if CliOnly(flag) then None
            else Value(d, flag)
  {}

  lemma ControllerHasNoAlias()
    ensures Controller !in ALIASES
  {}

  function ParserEnv(env: Env, flag: Flag): Option<string> {
    if flag == Controller && CONTROLLER_ENV in env then Some(env[CONTROLLER_ENV]) else None
  }

  lemma {:induction false} ParsedValue(events: seq<Event>, env: Env, flag: Flag)
    requires Parse(events).Ok?
    ensures var args := ParseWithEnv(events, env).value;
            && Value(args, flag) == FirstOf(Value(Parse(events).value, flag), ParserEnv(env, flag))
            && (CliSet(args, flag) <==> flag in Parse(events).value.scalars)
  {
    ParsedFromCommandLine(events);
  }

  lemma {:induction false} LayersInOrder(dir: seq<Event>, cli: seq<Event>, env: Env,
                                         aliases: map<Flag, seq<string>>, flag: Flag)
    requires Parse(dir).Ok? && Parse(cli).Ok? && Controller !in aliases
    ensures var c, d := ParseWithEnv(cli, env).value, ParseWithEnv(dir, env).value;
            Value(EnvLayered(c, Merged(c, d), env, aliases), flag)
            == FirstOf(Value(Parse(cli).value, flag),
                 FirstOf(EnvValue(env, aliases, flag), if CliOnly(flag) then None else Value(Parse(dir).value, flag)))
  {
    ParsedValue(cli, env, flag);
    ParsedValue(dir, env, flag);
    LayeredValue(ParseWithEnv(cli, env).value, ParseWithEnv(dir, env).value, env, aliases, flag);
  }

  /** Each option is what the command line gave, else what the environment gives, else what
      the directives gave, else its default. */
  lemma {:induction false} ScalarPrecedence(dir: seq<Event>, cli: seq<Event>, env: Env, flag: Flag)
    requires Parse(dir).Ok? && Parse(cli).Ok?
    ensures Resolve(dir, cli, env).Ok?
    ensures Value(Resolve(dir, cli, env).value, flag)
         == FirstOf(Value(Parse(cli).value, flag),
              FirstOf(EnvValue(env, ALIASES, flag),
                if CliOnly(flag) then None else Value(Parse(dir).value, flag)))
  {
    ControllerHasNoAlias();
    LayersInOrder(dir, cli, env, ALIASES, flag);
  }

  function GresChoice(dir: Args, cli: Args, env: Env): Option<seq<string>> {
    if cli.gres.Some? then cli.gres
    else if EnvFirst(env, GRES_ALIASES).Some? then Some(SplitCsv(EnvFirst(env, GRES_ALIASES).value))
    else dir.gres
  }

  lemma GresPrecedence(dir: seq<Event>, cli: seq<Event>, env: Env)
    requires Parse(dir).Ok? && Parse(cli).Ok?
    ensures Resolve(dir, cli, env).Ok?
    ensures Resolve(dir, cli, env).value.gres == GresChoice(Parse(dir).value, Parse(cli).value, env)
  {}

  /** The node choice made last in a list of options, in either spelling. */
  function LastNodes(events: seq<Event>): (r: Option<Event>)
    ensures r.Some? ==> r.value.Nodelist? || r.value.Nodefile?
    ensures r.None? ==> forall i :: 0 <= i < |events| ==> !events[i].Nodelist? && !events[i].Nodefile?
  {
    if events == [] then None
    else
      var last := events[|events| - 1];
      if last.Nodelist? || last.Nodefile? then Some(last) else LastNodes(events[..|events| - 1])
  }

  predicate ChoosesNodes(args: Args, choice: Option<Event>) {
    match choice
    case Some(Nodelist(value)) => args.nodelist == Some(value) && args.nodefile == None
    case Some(Nodefile(value)) => args.nodelist == None && args.nodefile == Some(value)
    case _ => args.nodelist == None && args.nodefile == None
  }

  lemma {:induction false} ParseChoosesLastNodes(events: seq<Event>)
    requires Parse(events).Ok?
    ensures ChoosesNodes(Parse(events).value, LastNodes(events))
  {
    if events != [] {
      ParseChoosesLastNodes(events[..|events| - 1]);
    }
  }

  function NodeChoice(dir: seq<Event>, cli: seq<Event>, env: Env): Option<Event> {
    var listed := EnvFirst(env, NODELIST_ALIASES);
    if LastNodes(cli).Some? then LastNodes(cli)
    else if listed.Some? then Some(Nodelist(listed.value))
    else LastNodes(dir)
  }

  /** At most one spelling of the node choice survives, and it is the last one of the
      highest layer that made the choice in either spelling. */
  lemma NodesPrecedence(dir: seq<Event>, cli: seq<Event>, env: Env)
    requires Parse(dir).Ok? && Parse(cli).Ok?
    ensures Resolve(dir, cli, env).Ok?
    ensures ChoosesNodes(Resolve(dir, cli, env).value, NodeChoice(dir, cli, env))
  {
    ParseChoosesLastNodes(cli);
    ParseChoosesLastNodes(dir);
  }

  // ----- the options, read off the events

  /** The value of the last `Set` of a flag. */
  function LastSet(events: seq<Event>, flag: Flag): (r: Option<string>)
    ensures r.None? ==> forall i :: 0 <= i < |events| ==> !(events[i].Set? && events[i].flag == flag)
    ensures r.Some? ==> Set(flag, r.value) in events
  {
    if events == [] then None
    else
      var last := events[|events| - 1];
      if last.Set? && last.flag == flag then Some(last.value) else LastSet(events[..|events| - 1], flag)
  }

  /** Whether the last `--requeue` or `--no-requeue` is `--requeue`. */
  function LastRequeue(events: seq<Event>): (r: Option<bool>)
    ensures r.None? <==> Requeue !in events && NoRequeue !in events
    ensures r == Some(true) ==> Requeue in events
    ensures r == Some(false) ==> NoRequeue in events
  {
    if events == [] then None
    else
      var init, last := events[..|events| - 1], events[|events| - 1];
      assert events == init + [last];
      if last == Requeue then Some(true) else if last == NoRequeue then Some(false) else LastRequeue(init)
  }

  function LastGres(events: seq<Event>): (r: Option<seq<string>>)
    ensures r.Some? ==> Gres(r.value) in events
    ensures r.None? ==> forall i :: 0 <= i < |events| ==> !events[i].Gres?
  {
    if events == [] then None
    else
      var last := events[|events| - 1];
      if last.Gres? then Some(last.items) else LastGres(events[..|events| - 1])
  }

  /** The values of the events that `pick` takes a value from, in order. */
  function Picked(events: seq<Event>, pick: Event -> Option<string>): seq<string> {
    if events == [] then []
    else
      var value := pick(events[|events| - 1]);
      Picked(events[..|events| - 1], pick) + (if value.Some? then [value.value] else [])
  }

  function LicenseOf(event: Event): Option<string> {
    if event.License? then Some(event.value) else None
  }

  function MountOf(event: Event): Option<string> {
    if event.ContainerMount? then Some(event.value) else None
  }

  function ContainerEnvOf(event: Event): Option<string> {
    if event.ContainerEnv? then Some(event.value) else None
  }

  lemma ApplySets(args: Args, event: Event, flag: Flag)
    requires Apply(args, event).Ok?
    ensures Value(Apply(args, event).value, flag)
         == if event.Set? && event.flag == flag then Some(event.value) else Value(args, flag)
  {}

  lemma {:induction false} ParsedSets(events: seq<Event>, flag: Flag)
    requires Parse(events).Ok?
    ensures Value(Parse(events).value, flag) == LastSet(events, flag)
  {
    if events != [] {
      var init, last := events[..|events| - 1], events[|events| - 1];
      ParsedSets(init, flag);
      ApplySets(Parse(init).value, last, flag);
    }
  }

  predicate Requeues(args: Args, choice: Option<bool>) {
    args.requeue == (choice == Some(true)) && args.noRequeue == (choice == Some(false))
  }

  lemma {:induction false} ParsedRequeue(events: seq<Event>)
    requires Parse(events).Ok?
    ensures var args := Parse(events).value;
            Requeues(args, LastRequeue(events))
  {
    if events != [] {
      ParsedRequeue(events[..|events| - 1]);
    }
  }

  lemma {:induction false} ParsedGres(events: seq<Event>)
    requires Parse(events).Ok?
    ensures Parse(events).value.gres == LastGres(events)
  {
    if events != [] {
      ParsedGres(events[..|events| - 1]);
    }
  }

  lemma {:induction false} ParsedLicenses(events: seq<Event>)
    requires Parse(events).Ok?
    ensures Parse(events).value.licenses == Picked(events, LicenseOf)
  {
    if events != [] {
      ParsedLicenses(events[..|events| - 1]);
    }
  }

  lemma {:induction false} ParsedMounts(events: seq<Event>)
    requires Parse(events).Ok?
    ensures Parse(events).value.containerMounts == Picked(events, MountOf)
  {
    if events != [] {
      ParsedMounts(events[..|events| - 1]);
    }
  }

  lemma {:induction false} ParsedContainerEnv(events: seq<Event>)
    requires Parse(events).Ok?
    ensures Parse(events).value.containerEnv == Picked(events, ContainerEnvOf)
  {
    if events != [] {
      ParsedContainerEnv(events[..|events| - 1]);
    }
  }

  /** No once-only option is given twice. */
  predicate OnceOnly(events: seq<Event>) {
    forall i, j :: 0 <= i < j < |events| && events[i].Set? && events[j].Set? && events[i].flag == events[j].flag ==>
      !events[j].flag.Wait? && !events[j].flag.Parsable? && !events[j].flag.Wrap?
  }

  lemma OnceOnlyStep(events: seq<Event>)
    requires events != []
    ensures var init, last := events[..|events| - 1], events[|events| - 1];
            OnceOnly(events) <==> OnceOnly(init) && !(last.Set? && GivenOnce(last.flag) && Gives(init, last.flag))
  {
    var n := |events| - 1;
    var init, last := events[..n], events[n];
    if last.Set? && GivenOnce(last.flag) && Gives(init, last.flag) {
      var i :| 0 <= i < |init| && init[i].Set? && init[i].flag == last.flag;
      assert events[i] == init[i];
    }
    if OnceOnly(events) {
      forall i, j | 0 <= i < j < |init| && init[i].Set? && init[j].Set? && init[i].flag == init[j].flag
        ensures !init[j].flag.Wait? && !init[j].flag.Parsable? && !init[j].flag.Wrap?
      {
        assert events[i] == init[i] && events[j] == init[j];
      }
    }
    if OnceOnly(init) && !(last.Set? && GivenOnce(last.flag) && Gives(init, last.flag)) {
      forall i, j | 0 <= i < j < |events| && events[i].Set? && events[j].Set? && events[i].flag == events[j].flag
        ensures !events[j].flag.Wait? && !events[j].flag.Parsable? && !events[j].flag.Wrap?
      {
        assert events[i] == init[i];
        assert j < n ==> events[j] == init[j];
      }
    }
  }

  lemma {:induction false} ParsesWhenOnceOnly(events: seq<Event>)
    ensures Parse(events).Ok? <==> OnceOnly(events)
  {
    if events != [] {
      ParsesWhenOnceOnly(events[..|events| - 1]);
      OnceOnlyStep(events);
      if Parse(events[..|events| - 1]).Ok? {
        GivesIffParsed(events[..|events| - 1]);
      }
    }
  }

  /** The value a flag resolves to: the last one on the command line, else the environment's,
      else the last one in the directives. */
  function Settled(dir: seq<Event>, cli: seq<Event>, env: Env, flag: Flag): Option<string> {
    FirstOf(LastSet(cli, flag),
      FirstOf(EnvValue(env, ALIASES, flag), if CliOnly(flag) then None else LastSet(dir, flag)))
  }

  function RequeueChoice(dir: seq<Event>, cli: seq<Event>): Option<bool> {
    if LastRequeue(cli).Some? then LastRequeue(cli) else LastRequeue(dir)
  }

  function GresSettled(dir: seq<Event>, cli: seq<Event>, env: Env): Option<seq<string>> {
    var listed := EnvFirst(env, GRES_ALIASES);
    if LastGres(cli).Some? then LastGres(cli)
    else if listed.Some? then Some(SplitCsv(listed.value))
    else LastGres(dir)
  }

  /** The accumulating lists: the directives' entries, then the command line's. */
  predicate Accumulates(args: Args, dir: seq<Event>, cli: seq<Event>) {
    && args.licenses == Picked(dir, LicenseOf) + Picked(cli, LicenseOf)
    && args.containerMounts == Picked(dir, MountOf) + Picked(cli, MountOf)
    && args.containerEnv == Picked(dir, ContainerEnvOf) + Picked(cli, ContainerEnvOf)
  }

  lemma ResolvesWhenOnceOnly(dir: seq<Event>, cli: seq<Event>, env: Env)
    ensures Resolve(dir, cli, env).Ok? <==> OnceOnly(dir) && OnceOnly(cli)
  {
    ParsesWhenOnceOnly(dir);
    ParsesWhenOnceOnly(cli);
  }

  lemma ResolvesTo(dir: seq<Event>, cli: seq<Event>, env: Env)
    requires Parse(dir).Ok? && Parse(cli).Ok?
    ensures Resolve(dir, cli, env).Ok?
    ensures var c, d, args := Parse(cli).value, Parse(dir).value, Resolve(dir, cli, env).value;
            && (c.requeue || c.noRequeue ==> args.requeue == c.requeue && args.noRequeue == c.noRequeue)
            && (!c.requeue && !c.noRequeue ==> args.requeue == d.requeue && args.noRequeue == d.noRequeue)
            && args.licenses == d.licenses + c.licenses && args.containerMounts == d.containerMounts + c.containerMounts
            && args.containerEnv == d.containerEnv + c.containerEnv
  {}

  lemma ScalarsSettle(dir: seq<Event>, cli: seq<Event>, env: Env, flag: Flag)
    requires Parse(dir).Ok? && Parse(cli).Ok?
    ensures Resolve(dir, cli, env).Ok?
    ensures Value(Resolve(dir, cli, env).value, flag) == Settled(dir, cli, env, flag)
  {
    ScalarPrecedence(dir, cli, env, flag);
    ParsedSets(dir, flag);
    ParsedSets(cli, flag);
  }

  lemma RequeuesOver(c: Args, onCli: Option<bool>, d: Args, inDir: Option<bool>, args: Args)
    requires Requeues(c, onCli) && Requeues(d, inDir)
    requires c.requeue || c.noRequeue ==> args.requeue == c.requeue && args.noRequeue == c.noRequeue
    requires !c.requeue && !c.noRequeue ==> args.requeue == d.requeue && args.noRequeue == d.noRequeue
    ensures Requeues(args, if onCli.Some? then onCli else inDir)
  {
    match onCli case None => case Some(true) => case Some(false) =>
  }

  lemma RequeueSettles(dir: seq<Event>, cli: seq<Event>, env: Env)
    requires Parse(dir).Ok? && Parse(cli).Ok?
    ensures Resolve(dir, cli, env).Ok? && Requeues(Resolve(dir, cli, env).value, RequeueChoice(dir, cli))
  {
    ResolvesTo(dir, cli, env);
    ParsedRequeue(dir);
    ParsedRequeue(cli);
    RequeuesOver(Parse(cli).value, LastRequeue(cli), Parse(dir).value, LastRequeue(dir),
                 Resolve(dir, cli, env).value);
  }

  lemma GresSettles(dir: seq<Event>, cli: seq<Event>, env: Env)
    requires Parse(dir).Ok? && Parse(cli).Ok?
    ensures Resolve(dir, cli, env).Ok? && Resolve(dir, cli, env).value.gres == GresSettled(dir, cli, env)
  {
    GresPrecedence(dir, cli, env);
    ParsedGres(dir);
    ParsedGres(cli);
  }

  lemma ListsSettle(dir: seq<Event>, cli: seq<Event>, env: Env)
    requires Parse(dir).Ok? && Parse(cli).Ok?
    ensures Resolve(dir, cli, env).Ok? && Accumulates(Resolve(dir, cli, env).value, dir, cli)
  {
    ResolvesTo(dir, cli, env);
    ParsedLicenses(dir);
    ParsedLicenses(cli);
    ParsedMounts(dir);
    ParsedMounts(cli);
    ParsedContainerEnv(dir);
    ParsedContainerEnv(cli);
  }

  /** `resolve_sbatch_args`: refused exactly when a once-only option is given twice in one
      list; otherwise every option comes from the highest layer that gives it, by its last
      event there, and the lists accumulate. */
  method ResolveSbatchArgs(dir: seq<Event>, cli: seq<Event>, env: Env) returns (r: Outcome<Args>)
    ensures r == Resolve(dir, cli, env)
    ensures r.Ok? <==> OnceOnly(dir) && OnceOnly(cli)
    ensures r.Ok? ==> forall flag :: Value(r.value, flag) == Settled(dir, cli, env, flag)
    ensures r.Ok? ==> ChoosesNodes(r.value, NodeChoice(dir, cli, env))
    ensures r.Ok? ==> Requeues(r.value, RequeueChoice(dir, cli))
    ensures r.Ok? ==> r.value.gres == GresSettled(dir, cli, env)
    ensures r.Ok? ==> Accumulates(r.value, dir, cli)
  {
    ResolvesWhenOnceOnly(dir, cli, env);
    var c, d := ParseWithEnv(cli, env), ParseWithEnv(dir, env);
    if c.Err? || d.Err? {
      return Err;
    }
    var merged := MergeResolved(c.value, d.value);
    var resolved := ResolveEnv(c.value, merged, env, ALIASES);
    r := Ok(resolved);
    assert r == Resolve(dir, cli, env);
    Settles(dir, cli, env);
  }

  lemma Settles(dir: seq<Event>, cli: seq<Event>, env: Env)
    requires Parse(dir).Ok? && Parse(cli).Ok?
    ensures Resolve(dir, cli, env).Ok?
    ensures var args := Resolve(dir, cli, env).value;
            && (forall flag :: Value(args, flag) == Settled(dir, cli, env, flag))
            && ChoosesNodes(args, NodeChoice(dir, cli, env)) && Requeues(args, RequeueChoice(dir, cli))
            && args.gres == GresSettled(dir, cli, env) && Accumulates(args, dir, cli)
  {
    RequeueSettles(dir, cli, env);
    forall flag ensures Value(Resolve(dir, cli, env).value, flag) == Settled(dir, cli, env, flag) {
      ScalarsSettle(dir, cli, env, flag);
    }
    NodesPrecedence(dir, cli, env);
    GresSettles(dir, cli, env);
    ListsSettle(dir, cli, env);
  }
}
