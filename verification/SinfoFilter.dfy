/** `sinfo -t` (`sinfo.rs`): a filter split between the controller, which knows only node
    states, and the client, which knows the overlays shown on idle nodes. */
module SinfoFilter {
  import opened Text
  import opened NodeInfo

  datatype OverlayFilter = WantReserved | WantMaint | WantPlanned

  /** Maintenance is a reservation too. */
  predicate Matches(want: OverlayFilter, overlay: Option<Overlay>) {
    match want
    case WantReserved => overlay.Some? && overlay.value.Reserved?
    case WantMaint => overlay == Some(Reserved(true))
    case WantPlanned => overlay == Some(Planned)
  }

  /** `base` holds wire states for the controller, `overlays` what is left to the client. */
  datatype StateFilter = StateFilter(base: seq<int>, overlays: seq<OverlayFilter>)

  predicate IsNamed(state: NodeState, name: string) {
    Short(state) == name || Display(state) == name
  }

  function StateFrom(name: string, i: nat): (r: Option<int>)
    requires i <= |ALL_STATES|
    ensures r.Some? ==> i <= r.value < |ALL_STATES| && IsNamed(ALL_STATES[r.value], name)
    ensures forall j :: i <= j < |ALL_STATES| && (r.Some? ==> j < r.value) ==> !IsNamed(ALL_STATES[j], name)
    decreases |ALL_STATES| - i
  {
    if i == |ALL_STATES| then None
    else if IsNamed(ALL_STATES[i], name) then Some(i)
    else StateFrom(name, i + 1)
  }

  /** The wire state a token names, in short or in full. */
  function StateOf(token: string, lib: Library): Option<int> {
    StateFrom(lib.lower(token), 0)
  }

  function OverlayOf(token: string, lib: Library): Option<OverlayFilter> {
    match lib.lower(token)
    case "resv" => Some(WantReserved)
    case "reserved" => Some(WantReserved)
    case "maint" => Some(WantMaint)
    case "plnd" => Some(WantPlanned)
    case "planned" => Some(WantPlanned)
    case _ => None
  }

  /** The overlay tokens; every other token is a state or an error. */
  lemma OverlayTokens(token: string, lib: Library)
    ensures OverlayOf(token, lib) == Some(WantReserved) <==> lib.lower(token) in {"resv", "reserved"}
    ensures OverlayOf(token, lib) == Some(WantMaint) <==> lib.lower(token) == "maint"
    ensures OverlayOf(token, lib) == Some(WantPlanned) <==> lib.lower(token) in {"plnd", "planned"}
  {}

  datatype Meaning = State(wire: int) | Label(want: OverlayFilter) | NotAState

  /** What each token means: a state if it names one, else an overlay. */
  function MeaningIn(lib: Library): string -> Meaning {
    (token: string) =>
      if StateOf(token, lib).Some? then State(StateOf(token, lib).value)
      else if OverlayOf(token, lib).Some? then Label(OverlayOf(token, lib).value)
      else NotAState
  }

  predicate AllKnown(tokens: seq<string>, meaning: string -> Meaning) {
    forall i :: 0 <= i < |tokens| ==> meaning(tokens[i]) != NotAState
  }

  function FilterOf(tokens: seq<string>, meaning: string -> Meaning): StateFilter {
    if tokens == [] then StateFilter([], [])
    else
      var f := FilterOf(tokens[..|tokens| - 1], meaning);
      match meaning(tokens[|tokens| - 1])
      case State(wire) => f.(base := f.base + [wire])
      case Label(want) => f.(overlays := f.overlays + [want])
      case NotAState => f
  }

  method ParseTokens(tokens: seq<string>, meaning: string -> Meaning) returns (r: Outcome<StateFilter>)
    ensures r == if AllKnown(tokens, meaning) then Ok(FilterOf(tokens, meaning)) else Err
  {
    var base, overlays := [], [];
    for i := 0 to |tokens|
      invariant AllKnown(tokens[..i], meaning)
      invariant StateFilter(base, overlays) == FilterOf(tokens[..i], meaning)
    {
      assert tokens[..i + 1][..i] == tokens[..i];
      match meaning(tokens[i])
      case State(wire) => base := base + [wire];
      case Label(want) => overlays := overlays + [want];
      case NotAState => return Err;
    }
    assert tokens[..|tokens|] == tokens;
    return Ok(StateFilter(base, overlays));
  }

  /** No filter at all: the option is missing, or is the word `all`. */
  predicate IsUnfiltered(arg: Option<string>, lib: Library) {
    arg.None? || lib.EqIgnoreAsciiCase(Trim(arg.value), "all")
  }

  function Tokens(arg: string): seq<string> {
    SplitCsv(Trim(arg))
  }

  method ParseFilter(arg: Option<string>, lib: Library) returns (r: Outcome<StateFilter>)
    ensures r == if IsUnfiltered(arg, lib) then Ok(StateFilter([], []))
                 else if Tokens(arg.value) != [] && AllKnown(Tokens(arg.value), MeaningIn(lib))
                 then Ok(FilterOf(Tokens(arg.value), MeaningIn(lib)))
                 else Err
  {
    if arg.None? || lib.EqIgnoreAsciiCase(Trim(arg.value), "all") {
      return Ok(StateFilter([], []));
    }
    if Tokens(arg.value) == [] {
      return Err;
    }
    r := ParseTokens(Tokens(arg.value), MeaningIn(lib));
  }

  /** The states sent to the controller. */
  function RequestStates(f: StateFilter): seq<int> {
    if f.overlays != [] && WIRE_IDLE !in f.base then f.base + [WIRE_IDLE] else f.base
  }

  /** The controller's side: an empty request returns every node. */
  predicate ServerReturns(request: seq<int>, node: Node) {
    request == [] || node.state in request
  }

  predicate Keeps(f: StateFilter, node: Node) {
    || f.overlays == []
    || node.state in f.base
    || AnyMatches(f.overlays, NodeOverlay(node))
  }

  // ----- the filter as the user means it

  predicate AsksFor(meaning: Meaning, node: Node) {
    match meaning
    case State(wire) => node.state == wire
    case Label(want) => Matches(want, NodeOverlay(node))
    case NotAState => false
  }

  /** The overlay tokens, in terms of what the controller reports of a node: only an idle node has one. */
  lemma LabelsAskFor(node: Node)
    ensures var held := node.state == 0 && (node.inReservation || node.activeReservation != "");
            && (AsksFor(Label(WantReserved), node) <==> held)
            && (AsksFor(Label(WantMaint), node) <==> held && node.reservationMaint)
            && (AsksFor(Label(WantPlanned), node) <==> node.state == 0 && !held && node.plannedJobId != 0)
  {}

  predicate AskedFor(tokens: seq<string>, meaning: string -> Meaning, node: Node) {
    exists i :: 0 <= i < |tokens| && AsksFor(meaning(tokens[i]), node)
  }

  predicate AnyMatches(wants: seq<OverlayFilter>, overlay: Option<Overlay>) {
    exists i :: 0 <= i < |wants| && Matches(wants[i], overlay)
  }

  lemma AnyMatchesSnoc(wants: seq<OverlayFilter>, want: OverlayFilter, overlay: Option<Overlay>)
    ensures AnyMatches(wants + [want], overlay) <==> AnyMatches(wants, overlay) || Matches(want, overlay)
  {
    assert (wants + [want])[|wants|] == want;
    assert forall i :: 0 <= i < |wants| ==> (wants + [want])[i] == wants[i];
  }

  lemma AskedForSnoc(before: seq<string>, token: string, meaning: string -> Meaning, node: Node)
    ensures AskedFor(before + [token], meaning, node)
       <==> AskedFor(before, meaning, node) || AsksFor(meaning(token), node)
  {
    assert (before + [token])[|before|] == token;
    assert forall i :: 0 <= i < |before| ==> (before + [token])[i] == before[i];
  }

  lemma {:induction false} FilterMeansTokens(tokens: seq<string>, meaning: string -> Meaning, node: Node)
    ensures var f := FilterOf(tokens, meaning);
            node.state in f.base || AnyMatches(f.overlays, NodeOverlay(node)) <==> AskedFor(tokens, meaning, node)
  {
    if tokens != [] {
      var before, last := tokens[..|tokens| - 1], tokens[|tokens| - 1];
      FilterMeansTokens(before, meaning, node);
      assert before + [last] == tokens;
      AskedForSnoc(before, last, meaning, node);
      if meaning(last).Label? {
        AnyMatchesSnoc(FilterOf(before, meaning).overlays, meaning(last).want, NodeOverlay(node));
      }
    }
  }

  /** For every accepted list of tokens, what the controller returns and the client keeps
      is exactly the nodes asked for, and the request is never the show-everything one. */
  lemma SplitFilterIsExact(tokens: seq<string>, meaning: string -> Meaning, node: Node)
    requires tokens != [] && AllKnown(tokens, meaning)
    ensures var f := FilterOf(tokens, meaning);
            && RequestStates(f) != []
            && (ServerReturns(RequestStates(f), node) && Keeps(f, node) <==> AskedFor(tokens, meaning, node))
  {
    FilterMeansTokens(tokens, meaning, node);
    var f := FilterOf(tokens, meaning);
    assert meaning(tokens[|tokens| - 1]) != NotAState;
    if AnyMatches(f.overlays, NodeOverlay(node)) {
      assert node.state == WIRE_IDLE;
    }
  }

  lemma UnfilteredShowsAll(node: Node)
    ensures var f := StateFilter([], []);
            RequestStates(f) == [] && ServerReturns(RequestStates(f), node) && Keeps(f, node)
  {}
}
