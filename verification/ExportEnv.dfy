/** `--export` (`export_env.rs`): the environment a job is given, from the submission
    environment and a list of tokens. */
module ExportEnv {
  import opened Text
  import opened KeyValue

  type Env = map<string, string>

  /** Scheduler-prefixed variables that hold credentials. */
  const CREDENTIALS: set<string> := {"SPUR_AUTH_TOKEN", "SPUR_REGISTRY_PASSWORD"}

  predicate IsSchedulerVar(name: string) {
    name !in CREDENTIALS && ("SLURM_" <= name || "SPUR_" <= name)
  }

  function SchedulerVars(source: Env): Env {
    Restricted(source, IsSchedulerVar)
  }

  predicate IsWord(s: string, word: string, lib: Library) {
    lib.EqIgnoreAsciiCase(s, word)
  }

  predicate IsExportAll(spec: string, lib: Library) {
    IsWord(Trim(spec), "ALL", lib)
  }

  /** What the tokens are laid over. */
  function Seed(tokens: seq<string>, source: Env, lib: Library): Env {
    if tokens != [] && IsWord(tokens[0], "ALL", lib) then source else SchedulerVars(source)
  }

  function Rest(tokens: seq<string>, lib: Library): seq<string> {
    if tokens != [] && (IsWord(tokens[0], "ALL", lib) || IsWord(tokens[0], "NONE", lib)) then tokens[1..] else tokens
  }

  /** What a token assigns: `VAR=value` as written, `VAR` from the source if it is there. */
  function Assigns(token: string, source: Env): Option<Pair> {
    match SplitOnce(token)
    case Some(pair) => Some(pair)
    case None => if token in source then Some(Pair(token, source[token])) else None
  }

  function Applied(env: Env, tokens: seq<string>, source: Env): Env {
    if tokens == [] then env
    else
      var before := Applied(env, tokens[..|tokens| - 1], source);
      match Assigns(tokens[|tokens| - 1], source)
      case Some(pair) => before[pair.key := pair.value]
      case None => before
  }

  function Exported(tokens: seq<string>, source: Env, lib: Library): Env {
    Applied(Seed(tokens, source, lib), Rest(tokens, lib), source)
  }

  function ExportedEnv(spec: string, source: Env, lib: Library): Env {
    if IsExportAll(spec, lib) then source else Exported(SplitCsv(spec), source, lib)
  }

  method ApplyTokens(seed: Env, tokens: seq<string>, source: Env) returns (env: Env)
    ensures env == Applied(seed, tokens, source)
  {
    env := seed;
    for i := 0 to |tokens|
      invariant env == Applied(seed, tokens[..i], source)
    {
      assert tokens[..i + 1][..i] == tokens[..i];
      match SplitOnce(tokens[i])
      case Some(pair) => env := env[pair.key := pair.value];
      case None =>
        if tokens[i] in source {
          env := env[tokens[i] := source[tokens[i]]];
        }
    }
    assert tokens[..|tokens|] == tokens;
  }

  method ResolveExportEnv(spec: string, source: Env, lib: Library) returns (env: Env)
    ensures env == ExportedEnv(spec, source, lib)
  {
    if IsExportAll(spec, lib) {
      return source;
    }
    var tokens := SplitCsv(spec);
    env := ApplyTokens(Seed(tokens, source, lib), Rest(tokens, lib), source);
  }

  // ----- what a variable ends up as

  predicate Sets(token: string, source: Env, name: string) {
    Assigns(token, source).Some? && Assigns(token, source).value.key == name
  }

  function Get(env: Env, name: string): Option<string> {
    if name in env then Some(env[name]) else None
  }

  /** A variable has the value of the last token that sets it, or else its seed value. */
  lemma {:induction false} LastTokenDecides(seed: Env, tokens: seq<string>, source: Env, name: string, k: nat)
    requires k <= |tokens| && forall j :: k <= j < |tokens| ==> !Sets(tokens[j], source, name)
    ensures k == 0 ==> Get(Applied(seed, tokens, source), name) == Get(seed, name)
    ensures k > 0 && Sets(tokens[k - 1], source, name) ==>
              Get(Applied(seed, tokens, source), name) == Some(Assigns(tokens[k - 1], source).value.value)
    decreases |tokens|
  {
    if k < |tokens| {
      LastTokenDecides(seed, tokens[..|tokens| - 1], source, name, k);
    }
  }

  // ----- a restricted export depends only on what it should

  predicate BeginsWithAll(tokens: seq<string>, lib: Library) {
    tokens != [] && IsWord(tokens[0], "ALL", lib)
  }

  /** The specification is the word `ALL` or begins with that token. */
  predicate KeepsAll(spec: string, lib: Library) {
    IsExportAll(spec, lib) || BeginsWithAll(SplitCsv(spec), lib)
  }

  /** The tokens laid over the seed. */
  function Laid(spec: string, lib: Library): seq<string> {
    Rest(SplitCsv(spec), lib)
  }

  predicate AgreeOn(a: Env, b: Env, name: string) {
    Get(a, name) == Get(b, name)
  }

  /** The variable is as in the source if all are, or if it is the scheduler's own, and absent otherwise. */
  predicate CarriedOver(env: Env, source: Env, name: string, all: bool) {
    Get(env, name) == if all || IsSchedulerVar(name) then Get(source, name) else None
  }

  lemma SeedHolds(tokens: seq<string>, source: Env, name: string, lib: Library)
    ensures CarriedOver(Seed(tokens, source, lib), source, name, BeginsWithAll(tokens, lib))
  {}

  predicate SetByNone(tokens: seq<string>, source: Env, name: string) {
    forall i :: 0 <= i < |tokens| ==> !Sets(tokens[i], source, name)
  }

  lemma UnsetByTokens(tokens: seq<string>, source: Env, name: string, lib: Library)
    requires SetByNone(Rest(tokens, lib), source, name)
    ensures CarriedOver(Exported(tokens, source, lib), source, name, BeginsWithAll(tokens, lib))
  {
    SeedHolds(tokens, source, name, lib);
    LastTokenDecides(Seed(tokens, source, lib), Rest(tokens, lib), source, name, 0);
  }

  lemma UnsetOver(all: bool, tokens: seq<string>, source: Env, name: string, lib: Library)
    requires SetByNone(Rest(tokens, lib), source, name)
    ensures CarriedOver(if all then source else Exported(tokens, source, lib), source, name,
                        all || BeginsWithAll(tokens, lib))
  {
    UnsetByTokens(tokens, source, name, lib);
  }

  /** A variable no token sets is carried over: all are, if the specification begins with `ALL`. */
  lemma UnsetVariables(spec: string, source: Env, name: string, lib: Library)
    requires SetByNone(Laid(spec, lib), source, name)
    ensures CarriedOver(ExportedEnv(spec, source, lib), source, name, KeepsAll(spec, lib))
  {
    UnsetOver(IsExportAll(spec, lib), SplitCsv(spec), source, name, lib);
  }

  /** A variable has the value given by the last token that sets it. The word `ALL` alone sets nothing. */
  lemma SetVariables(spec: string, source: Env, name: string, k: nat, lib: Library)
    requires var laid := Laid(spec, lib);
             && k < |laid| && Sets(laid[k], source, name)
             && forall j :: k < j < |laid| ==> !Sets(laid[j], source, name)
    ensures Get(ExportedEnv(spec, source, lib), name)
         == if IsExportAll(spec, lib) then Get(source, name) else Some(Assigns(Laid(spec, lib)[k], source).value.value)
  {
    LastTokenDecides(Seed(SplitCsv(spec), source, lib), Laid(spec, lib), source, name, k + 1);
  }

  /** What a token sets: `VAR=value` its variable, whatever the source holds; `VAR` the source's own value. */
  lemma TokenSets(variable: string, value: string, source: Env)
    requires '=' !in variable
    ensures Assigns(variable + ['='] + value, source) == Some(Pair(variable, value))
    ensures variable in source ==> Assigns(variable, source) == Some(Pair(variable, source[variable]))
    ensures variable !in source ==> Assigns(variable, source) == None
  {
    SplitOnceAt(variable, value);
  }

  lemma {:induction false} AppliedAgrees(seed: Env, tokens: seq<string>, a: Env, b: Env)
    requires forall i :: 0 <= i < |tokens| && '=' !in tokens[i] ==> AgreeOn(a, b, tokens[i])
    ensures Applied(seed, tokens, a) == Applied(seed, tokens, b)
  {
    if tokens != [] {
      AppliedAgrees(seed, tokens[..|tokens| - 1], a, b);
      var last := tokens[|tokens| - 1];
      assert '=' !in last ==> AgreeOn(a, b, last);
    }
  }

  /** The seed of a restricted export. */
  function Restricted(source: Env, keep: string -> bool): Env {
    map k | k in source && keep(k) :: source[k]
  }

  lemma RestrictedAgrees(a: Env, b: Env, keep: string -> bool)
    requires forall name :: keep(name) ==> AgreeOn(a, b, name)
    ensures Restricted(a, keep) == Restricted(b, keep)
  {
    forall name | keep(name) ensures name in a <==> name in b ensures name in a ==> a[name] == b[name] {
      assert AgreeOn(a, b, name);
    }
  }

  /** Two submission environments that agree on the scheduler's own variables, credentials
      excepted, and on the names listed bare give the job the same environment. */
  lemma RestrictedExport(spec: string, a: Env, b: Env, lib: Library)
    requires !KeepsAll(spec, lib)
    requires forall name :: IsSchedulerVar(name) ==> AgreeOn(a, b, name)
    requires var laid := Laid(spec, lib);
             forall i :: 0 <= i < |laid| && '=' !in laid[i] ==> AgreeOn(a, b, laid[i])
    ensures ExportedEnv(spec, a, lib) == ExportedEnv(spec, b, lib)
  {
    RestrictedAgrees(a, b, IsSchedulerVar);
    AppliedAgrees(SchedulerVars(a), Laid(spec, lib), a, b);
  }

  /** A restricted export carries a credential exactly when a token sets it. */
  lemma CredentialsAreNotCarried(spec: string, source: Env, credential: string, lib: Library)
    requires !KeepsAll(spec, lib) && credential in CREDENTIALS
    ensures var laid := Laid(spec, lib);
            credential in ExportedEnv(spec, source, lib)
            <==> exists i :: 0 <= i < |laid| && Sets(laid[i], source, credential)
  {
    assert Get(SchedulerVars(source), credential) == None;
    SetOnlyByTokens(SchedulerVars(source), Laid(spec, lib), source, credential);
  }

  /** What the seed lacks is there exactly when a token sets it. */
  lemma {:induction false} SetOnlyByTokens(seed: Env, tokens: seq<string>, source: Env, name: string)
    requires name !in seed
    ensures name in Applied(seed, tokens, source)
       <==> exists i :: 0 <= i < |tokens| && Sets(tokens[i], source, name)
  {
    if tokens != [] {
      var n := |tokens| - 1;
      SetOnlyByTokens(seed, tokens[..n], source, name);
      assert forall i :: 0 <= i < n ==> tokens[..n][i] == tokens[i];
    }
  }
}
