/** Node states and the display overlays on idle nodes (`spur_core::node`). */
module NodeInfo {
  import opened Text

  datatype NodeState = Idle | Allocated | Mixed | Down | Drain | Draining | Failing | Unknown | Suspended

  /** In wire order: a state's discriminant is its position. */
  const ALL_STATES: seq<NodeState> := [Idle, Allocated, Mixed, Down, Drain, Draining, Failing, Unknown, Suspended]

  const WIRE_IDLE := 0

  function FromWire(wire: int): Option<NodeState> {
    if 0 <= wire < |ALL_STATES| then Some(ALL_STATES[wire]) else None
  }

  function Short(state: NodeState): string {
    match state
    case Idle => "idle" case Allocated => "alloc" case Mixed => "mix" case Down => "down" case Drain => "drain"
    case Draining => "drng" case Failing => "err" case Unknown => "unk" case Suspended => "susp"
  }

  function Display(state: NodeState): string {
    match state
    case Idle => "idle" case Allocated => "allocated" case Mixed => "mixed" case Down => "down"
    case Drain => "drained" case Draining => "draining" case Failing => "error" case Unknown => "unknown"
    case Suspended => "suspended"
  }

  predicate IsUnavailable(state: NodeState) {
    state.Down? || state.Drain? || state.Draining? || state.Failing?
  }

  /** What the controller reports of a node, as far as the listings use it. */
  datatype Node = Node(
    name: string, state: int, partitions: seq<string>,
    inReservation: bool, activeReservation: string, reservationMaint: bool, plannedJobId: nat,
    reason: string, reasonUid: Option<nat>, reasonTime: Option<int>)

  datatype Overlay = Reserved(maint: bool) | Planned

  function NodeOverlay(node: Node): Option<Overlay> {
    if node.state != WIRE_IDLE then None
    else if node.inReservation || node.activeReservation != "" then Some(Reserved(node.reservationMaint))
    else if node.plannedJobId != 0 then Some(Planned)
    else None
  }

  /** The state label shown for a node. */
  function EffectiveState(node: Node): string {
    match NodeOverlay(node)
    case Some(Reserved(true)) => "maint"
    case Some(Reserved(false)) => "resv"
    case Some(Planned) => "plnd"
    case None => match FromWire(node.state) case Some(state) => Short(state) case None => "unk"
  }
}
