/** `sbatch --wait` (`sbatch.rs`): polling a job until it ends, over every sequence
    of controller replies. */
module WaitForJob {
  import opened Text

  /** Job states in wire order, so a state's discriminant is its position. */
  datatype JobState =
    | Pending | Running | Completing | Completed | Failed | Cancelled | Timeout | NodeFail
    | Preempted | Suspended | Deadline | OutOfMemory | Requeued

  const WIRE_STATES: seq<JobState> := [
    Pending, Running, Completing, Completed, Failed, Cancelled, Timeout, NodeFail,
    Preempted, Suspended, Deadline, OutOfMemory, Requeued]

  /** `JobState::try_from`: None for a discriminant this client does not know. */
  function FromWire(wire: int): Option<JobState> {
    if 0 <= wire < |WIRE_STATES| then Some(WIRE_STATES[wire]) else None
  }

  predicate IsTerminal(state: JobState) {
    || state.Completed? || state.Failed? || state.Cancelled? || state.Timeout?
    || state.NodeFail? || state.Deadline? || state.OutOfMemory?
  }

  datatype Code =
    | OK | CancelledCall | Unknown | InvalidArgument | DeadlineExceeded | NotFound | AlreadyExists
    | PermissionDenied | ResourceExhausted | FailedPrecondition | Aborted | OutOfRange
    | Unimplemented | Internal | Unavailable | DataLoss | Unauthenticated

  predicate IsTransient(code: Code) {
    code.Unavailable? || code.DeadlineExceeded? || code.Aborted? || code.Internal? || code.Unknown?
  }

  /** One answer to `GetJob`. */
  datatype Reply = Job(wireState: int, exitCode: int, requeue: bool) | Failure(code: Code)

  function State(reply: Reply): Option<JobState> {
    if reply.Job? then FromWire(reply.wireState) else None
  }

  function TerminalExitCode(state: JobState, exitCode: int): int {
    match state
    case Completed => exitCode
    case Failed => if exitCode < 1 then 1 else exitCode
    case _ => 1
  }

  /** Polls until the job is known to have ended. `exit` is None when the replies run
      out first; `polls` counts the replies read and `warnings` the warnings printed. */
  method Wait(replies: seq<Reply>) returns (exit: Option<int>, polls: nat, warnings: nat)
    ensures polls <= |replies|
    ensures forall i :: 0 <= i < polls - 1 ==> !Ends(replies, i)
    ensures exit.Some? ==> polls > 0 && Ends(replies, polls - 1) && exit.value == ExitOf(replies[polls - 1])
    ensures exit.None? ==> polls == |replies| && (polls > 0 ==> !Ends(replies, polls - 1))
    ensures warnings == if exists i :: 0 <= i < polls && Warns(replies[i]) then 1 else 0
    // success is reported for a job that completed with code 0, and for no other
    ensures exit.Some? ==> (exit.value == 0 <==> CompletedWith(replies[polls - 1], 0))
    // a completed job exits with its code, a failed one with its code or 1, anything else with 1
    ensures exit.Some? ==> exit.value == ReportedExit(replies[polls - 1])
    // ending on a failure that a requeue may undo takes an earlier one, with no sign of life in between
    ensures exit.Some? && MayRequeue(replies[polls - 1]) ==>
              exists j :: 0 <= j < polls - 1 && MayRequeue(replies[j]) && NoLife(replies, j, polls - 1)
    // two ends with no sign of life in between end the wait by the second
    ensures forall j, i :: 0 <= j < i < |replies| && Ended(replies[j]) && Ended(replies[i]) && NoLife(replies, j, i) ==>
              exit.Some? && polls <= i + 1
  {
    var warned, confirm := false, false;
    warnings := 0;
    polls := 0;
    while polls < |replies|
      invariant polls <= |replies|
      invariant forall i :: 0 <= i < polls ==> !Ends(replies, i)
      invariant confirm == Suspected(replies, polls)
      invariant warned == (exists i :: 0 <= i < polls && Warns(replies[i]))
      invariant warnings == if warned then 1 else 0
    {
      ghost var at := polls;
      SuspectedStep(replies, at);
      var reply := replies[polls];
      polls := polls + 1;
      match reply {
        case Job(wireState, exitCode, requeue) =>
          match FromWire(wireState) {
            case Some(state) =>
              if IsTerminal(state) {
                if !confirm && state != Completed && requeue {
                  confirm := true;
                } else {
                  WaitFacts(replies, Some(TerminalExitCode(state, exitCode)), polls);
                  return Some(TerminalExitCode(state, exitCode)), polls, warnings;
                }
              } else {
                confirm := false;
              }
            case None =>
              if !warned {
                warned, warnings := true, warnings + 1;
              }
          }
        case Failure(code) =>
          if IsTransient(code) {
            if !warned {
              warned, warnings := true, warnings + 1;
            }
          } else {
            WaitFacts(replies, Some(1), polls);
            return Some(1), polls, warnings;
          }
      }
    }
    WaitFacts(replies, None, polls);
    return None, polls, warnings;
  }

  // ----- the same decisions, read off the reply history

  predicate Ended(reply: Reply) {
    State(reply).Some? && IsTerminal(State(reply).value)
  }

  /** The job is alive again: a requeue went through. */
  predicate Alive(reply: Reply) {
    State(reply).Some? && !IsTerminal(State(reply).value)
  }

  /** An end that a requeue may still undo. */
  predicate MayRequeue(reply: Reply) {
    Ended(reply) && State(reply).value != Completed && reply.requeue
  }

  predicate Fatal(reply: Reply) {
    reply.Failure? && !IsTransient(reply.code)
  }

  /** A state this client does not know, or a call worth repeating. */
  predicate Warns(reply: Reply) {
    if reply.Job? then FromWire(reply.wireState).None? else IsTransient(reply.code)
  }

  predicate CompletedWith(reply: Reply, code: int) {
    State(reply) == Some(Completed) && reply.exitCode == code
  }

  /** No reply strictly between the two shows the job alive. */
  predicate NoLife(replies: seq<Reply>, j: nat, i: nat)
    requires i <= |replies|
  {
    forall k :: j < k < i ==> !Alive(replies[k])
  }

  /** Some earlier end may have been undone, and nothing since shows the job alive. */
  ghost predicate Suspected(replies: seq<Reply>, n: nat)
    requires n <= |replies|
  {
    exists j :: 0 <= j < n && MayRequeue(replies[j]) && NoLife(replies, j, n)
  }

  /** Reply `i` ends the wait, if none before it did. */
  ghost predicate Ends(replies: seq<Reply>, i: nat)
    requires i < |replies|
  {
    Fatal(replies[i]) || (Ended(replies[i]) && (!MayRequeue(replies[i]) || Suspected(replies, i)))
  }

  function ExitOf(reply: Reply): int {
    if Ended(reply) then TerminalExitCode(State(reply).value, reply.exitCode) else 1
  }

  /** The exit code of `sbatch --wait`, from the wire state and exit code of the last reply. */
  function ReportedExit(reply: Reply): int {
    if reply.Failure? || reply.wireState !in {3, 4} then 1
    else if reply.wireState == 4 && reply.exitCode <= 0 then 1
    else reply.exitCode
  }

  /** The wire states that end a job, and those that show it alive. */
  lemma WireStates(reply: Reply)
    ensures Ended(reply) <==> reply.Job? && reply.wireState in {3, 4, 5, 6, 7, 10, 11}
    ensures Alive(reply) <==> reply.Job? && reply.wireState in {0, 1, 2, 8, 9, 12}
    ensures MayRequeue(reply) <==> reply.Job? && reply.wireState in {4, 5, 6, 7, 10, 11} && reply.requeue
  {}

  lemma ExitIsReported(reply: Reply)
    requires Ended(reply) || Fatal(reply)
    ensures ExitOf(reply) == ReportedExit(reply)
  {
    WireStates(reply);
  }

  lemma SuspectedStep(replies: seq<Reply>, n: nat)
    requires n < |replies|
    ensures Suspected(replies, n + 1)
       <==> MayRequeue(replies[n]) || (Suspected(replies, n) && !Alive(replies[n]))
  {
    if MayRequeue(replies[n]) {
      assert NoLife(replies, n, n + 1);
    } else if Suspected(replies, n) && !Alive(replies[n]) {
      var j :| 0 <= j < n && MayRequeue(replies[j]) && NoLife(replies, j, n);
      assert NoLife(replies, j, n + 1);
    }
    if Suspected(replies, n + 1) && !MayRequeue(replies[n]) {
      var j :| 0 <= j < n + 1 && MayRequeue(replies[j]) && NoLife(replies, j, n + 1);
      assert NoLife(replies, j, n);
    }
  }

  // ----- what a caller of `sbatch --wait` can rely on

  lemma SecondEndStops(replies: seq<Reply>, j: nat, i: nat)
    requires j < i < |replies| && Ended(replies[j]) && Ended(replies[i]) && NoLife(replies, j, i)
    ensures Ends(replies, j) || Ends(replies, i)
  {
    if MayRequeue(replies[j]) {
      assert Suspected(replies, i);
    }
  }

  /** What follows from stopping at the first reply that ends the wait. */
  lemma WaitFacts(replies: seq<Reply>, exit: Option<int>, polls: nat)
    requires polls <= |replies| && forall i :: 0 <= i < polls - 1 ==> !Ends(replies, i)
    requires exit.Some? ==> polls > 0 && Ends(replies, polls - 1) && exit.value == ExitOf(replies[polls - 1])
    requires exit.None? ==> polls == |replies| && (polls > 0 ==> !Ends(replies, polls - 1))
    ensures exit.Some? ==> (exit.value == 0 <==> CompletedWith(replies[polls - 1], 0))
    ensures exit.Some? ==> exit.value == ReportedExit(replies[polls - 1])
    ensures exit.Some? && MayRequeue(replies[polls - 1]) ==>
              exists j :: 0 <= j < polls - 1 && MayRequeue(replies[j]) && NoLife(replies, j, polls - 1)
    ensures forall j, i :: 0 <= j < i < |replies| && Ended(replies[j]) && Ended(replies[i]) && NoLife(replies, j, i) ==>
              exit.Some? && polls <= i + 1
  {
    if exit.Some? {
      ExitIsReported(replies[polls - 1]);
    }
    forall j, i | 0 <= j < i < |replies| && Ended(replies[j]) && Ended(replies[i]) && NoLife(replies, j, i)
      ensures exit.Some? && polls <= i + 1
    {
      SecondEndStops(replies, j, i);
    }
  }
}
