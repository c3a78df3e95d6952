/** An interactive session (`interactive.rs`): the loop that joins the local terminal
    to the agent's stream, over every order in which its three sources may fire. */
module InteractiveSession {

  type Bytes = seq<bv8>

  datatype WindowSize = WindowSize(rows: nat, cols: nat)

  datatype InitSession = InitSession(jobId: nat, stepId: nat, overlap: bool, pty: bool, winsize: WindowSize,
                                     argv: seq<string>, user: string, nonInteractive: bool)

  /** Messages to the agent. */
  datatype Input = Init(session: InitSession) | Stdin(bytes: Bytes) | Resize(size: WindowSize)

  /** Messages from the agent; `written` says whether the local terminal took the bytes. */
  datatype Output = Data(bytes: Bytes, written: bool) | ExitStatus(code: int) | Blank | Closed | Broken

  datatype Read = Eof | Got(bytes: Bytes) | ReadFailed

  /** What may happen next. `HangUp` is the agent dropping its end of the input stream,
      after which a send is lost without an error. */
  datatype Event = FromAgent(output: Output) | FromStdin(read: Read) | WindowChanged(size: WindowSize) | HangUp

  datatype Result = Exit(code: int) | Error | StillOpen

  class Session {
    var stdinOpen: bool
    var sender: bool              // the sending half of the input stream is held
    var agentListens: bool
    var received: seq<Input>      // what the agent got, in order
    var screen: Bytes             // what the local terminal got

    /** `open_interactive_session`: the init message goes first. */
    constructor (init: InitSession)
      ensures stdinOpen && sender && agentListens && received == [Init(init)] && screen == []
    {
      stdinOpen, sender, agentListens := true, true, true;
      received, screen := [Init(init)], [];
    }

    method Send(input: Input)
      modifies this`received
      ensures received == old(received) + (if sender && agentListens then [input] else [])
    {
      if sender && agentListens {
        received := received + [input];
      }
    }

    /** One turn of the loop: the branch taken when `event` fires. Standard input and
        window changes are polled only while standard input is open. */
    method Turn(event: Event) returns (result: Result)
      requires sender == stdinOpen
      modifies this
      ensures result == Verdict(event)
      ensures sender == stdinOpen == (old(stdinOpen) && !EndsStdin(event))
      ensures agentListens == (old(agentListens) && event != HangUp)
      ensures received == old(received) + (if old(stdinOpen && agentListens) then InputOf(event) else [])
      ensures screen == old(screen) + ShownBy(event)
    {
      match event {
        case FromAgent(Data(bytes, written)) =>
          if !written {
            return Error;
          }
          screen := screen + bytes;
        case FromAgent(ExitStatus(code)) => return Exit(code);
        case FromAgent(Blank) =>
        case FromAgent(Closed) => return Error;
        case FromAgent(Broken) => return Error;
        case FromStdin(read) =>
          if stdinOpen {
            match read
            case Got(bytes) => Send(Stdin(bytes));
            case Eof => stdinOpen, sender := false, false;
            case ReadFailed => stdinOpen, sender := false, false;
          }
        case WindowChanged(size) =>
          if stdinOpen {
            Send(Resize(size));
          }
        case HangUp => agentListens := false;
      }
      return StillOpen;
    }

    /** `drive_interactive_session`. `taken` is how many events were consumed. */
    method Drive(events: seq<Event>) returns (result: Result, taken: nat)
      requires stdinOpen && sender && agentListens && screen == []
      modifies this
      ensures taken <= |events|
      ensures sender == stdinOpen == StdinOpen(events[..taken])
      ensures received == old(received) + Sent(events[..taken])
      ensures screen == Shown(events[..taken])
      ensures result == StillOpen ==> taken == |events| && Quiet(events, taken)
      ensures result != StillOpen ==> taken > 0 && Quiet(events, taken - 1) && EndsSession(events[taken - 1])
      // the exit code is that of the exit status, which nothing before it pre-empted
      ensures forall code :: result == Exit(code)
                <==> && taken > 0 && Quiet(events, taken - 1)
                     && events[taken - 1] == FromAgent(ExitStatus(code))
    {
      taken, result := 0, StillOpen;
      ghost var done: seq<Event> := [];
      while taken < |events| && result == StillOpen
        invariant taken <= |events| && done == events[..taken]
        invariant Reflects(old(received), done)
        invariant result == StillOpen ==> Quiet(events, taken)
        invariant taken > 0 ==> Quiet(events, taken - 1)
        invariant result == if taken == 0 then StillOpen else Verdict(events[taken - 1])
        decreases |events| - taken
      {
        HistoryStep(old(received), done, events[taken]);
        result := Turn(events[taken]);
        done := done + [events[taken]];
        taken := taken + 1;
      }
      ExitByStatus(events, taken, result);
    }

    /** The session is where the events `done` bring one that began by sending `begun`. */
    ghost predicate Reflects(begun: seq<Input>, done: seq<Event>)
      reads this
    {
      && sender == stdinOpen == StdinOpen(done) && agentListens == Listening(done)
      && received == begun + Sent(done) && screen == Shown(done)
    }
  }

  // ----- the same, read off the event history

  /** What an event by itself makes of the session. */
  function Verdict(event: Event): Result {
    match event
    case FromAgent(ExitStatus(code)) => Exit(code)
    case FromAgent(Closed) => Error
    case FromAgent(Broken) => Error
    case FromAgent(Data(_, written)) => if written then StillOpen else Error
    case _ => StillOpen
  }

  /** The agent reports an exit, ends or breaks its stream, or its bytes cannot be shown. */
  predicate EndsSession(event: Event) {
    && event.FromAgent?
    && match event.output
       case Data(_, written) => !written
       case ExitStatus(_) => true
       case Blank => false
       case Closed => true
       case Broken => true
  }

  /** None of the first `n` events ends the session. */
  predicate Quiet(events: seq<Event>, n: nat)
    requires n <= |events|
  {
    forall i :: 0 <= i < n ==> !EndsSession(events[i])
  }

  lemma ExitByStatus(events: seq<Event>, taken: nat, result: Result)
    requires taken <= |events| && (taken > 0 ==> Quiet(events, taken - 1))
    requires result == if taken == 0 then StillOpen else Verdict(events[taken - 1])
    ensures result != StillOpen ==> taken > 0 && EndsSession(events[taken - 1])
    ensures forall code :: result == Exit(code)
              <==> && taken > 0 && Quiet(events, taken - 1)
                   && events[taken - 1] == FromAgent(ExitStatus(code))
  {}

  predicate EndsStdin(event: Event) {
    event.FromStdin? && !event.read.Got?
  }

  predicate StdinOpen(events: seq<Event>) {
    forall i :: 0 <= i < |events| ==> !EndsStdin(events[i])
  }

  predicate Listening(events: seq<Event>) {
    HangUp !in events
  }

  function InputOf(event: Event): seq<Input> {
    match event
    case FromStdin(Got(bytes)) => [Stdin(bytes)]
    case WindowChanged(size) => [Resize(size)]
    case _ => []
  }

  /** What the agent gets after the init message. */
  function Sent(events: seq<Event>): seq<Input> {
    if events == [] then []
    else
      var before := events[..|events| - 1];
      Sent(before) + (if StdinOpen(before) && Listening(before) then InputOf(events[|events| - 1]) else [])
  }

  function ShownBy(event: Event): Bytes {
    match event
    case FromAgent(Data(bytes, true)) => bytes
    case _ => []
  }

  /** The bytes put on the terminal. */
  function Shown(events: seq<Event>): Bytes {
    if events == [] then [] else Shown(events[..|events| - 1]) + ShownBy(events[|events| - 1])
  }

  lemma HistoryStep(begun: seq<Input>, before: seq<Event>, event: Event)
    ensures StdinOpen(before + [event]) == (StdinOpen(before) && !EndsStdin(event))
    ensures Listening(before + [event]) == (Listening(before) && event != HangUp)
    ensures begun + Sent(before + [event])
         == begun + Sent(before) + (if StdinOpen(before) && Listening(before) then InputOf(event) else [])
    ensures Shown(before + [event]) == Shown(before) + ShownBy(event)
  {
    var events := before + [event];
    assert events[..|before|] == before && events[|before|] == event;
    if StdinOpen(events) {
      assert forall i :: 0 <= i < |before| ==> before[i] == events[i];
    }
  }

  // ----- what the two ends can rely on

  function Keystrokes(input: Input): Bytes {
    match input case Stdin(bytes) => bytes case _ => []
  }

  function Typed(inputs: seq<Input>): Bytes {
    if inputs == [] then [] else Typed(inputs[..|inputs| - 1]) + Keystrokes(inputs[|inputs| - 1])
  }

  function ReadBy(event: Event): Bytes {
    match event case FromStdin(Got(bytes)) => bytes case _ => []
  }

  /** The bytes read from standard input, in order. */
  function ReadBytes(events: seq<Event>): Bytes {
    if events == [] then [] else ReadBytes(events[..|events| - 1]) + ReadBy(events[|events| - 1])
  }

  function SizeSent(input: Input): seq<WindowSize> {
    match input case Resize(size) => [size] case _ => []
  }

  function Resized(inputs: seq<Input>): seq<WindowSize> {
    if inputs == [] then [] else Resized(inputs[..|inputs| - 1]) + SizeSent(inputs[|inputs| - 1])
  }

  function SizeTaken(event: Event): seq<WindowSize> {
    match event case WindowChanged(size) => [size] case _ => []
  }

  /** The window sizes, in order. */
  function Sizes(events: seq<Event>): seq<WindowSize> {
    if events == [] then [] else Sizes(events[..|events| - 1]) + SizeTaken(events[|events| - 1])
  }

  lemma TypedSnoc(inputs: seq<Input>, input: Input)
    ensures Typed(inputs + [input]) == Typed(inputs) + Keystrokes(input)
    ensures Resized(inputs + [input]) == Resized(inputs) + SizeSent(input)
  {
    assert (inputs + [input])[..|inputs|] == inputs;
  }

  /** `k` events happen before anything stops input: all of them, or up to the first
      end of standard input or hang-up. */
  function InputLimit(events: seq<Event>): (k: nat)
    ensures k <= |events| && StdinOpen(events[..k]) && Listening(events[..k])
    ensures k < |events| ==> EndsStdin(events[k]) || events[k] == HangUp
  {
    if events == [] then 0
    else
      var before := events[..|events| - 1];
      var k := InputLimit(before);
      assert before[..k] == events[..k];
      if k < |before| || EndsStdin(events[k]) || events[k] == HangUp then k
      else
        assert events[..|events|] == events;
        |events|
  }

  /** Nothing is sent once standard input has ended or the agent has hung up. */
  lemma {:induction false} NothingSentAfter(events: seq<Event>, k: nat)
    requires k < |events| && (EndsStdin(events[k]) || events[k] == HangUp)
    ensures Sent(events) == Sent(events[..k])
    decreases |events|
  {
    var before := events[..|events| - 1];
    assert before[..k] == events[..k];
    if k == |before| {
      assert InputOf(events[k]) == [];
    } else {
      NothingSentAfter(before, k);
      assert before[k] == events[k];
    }
  }

  lemma SentOne(inputs: seq<Input>, event: Event)
    ensures Typed(inputs + InputOf(event)) == Typed(inputs) + ReadBy(event)
    ensures Resized(inputs + InputOf(event)) == Resized(inputs) + SizeTaken(event)
  {
    match event
    case FromStdin(Got(bytes)) => TypedSnoc(inputs, Stdin(bytes));
    case WindowChanged(size) => TypedSnoc(inputs, Resize(size));
    case _ =>
      assert InputOf(event) == [] && inputs + [] == inputs;
  }

  lemma SentLast(events: seq<Event>)
    requires events != [] && StdinOpen(events) && Listening(events)
    ensures var before := events[..|events| - 1];
            && StdinOpen(before) && Listening(before)
            && Sent(events) == Sent(before) + InputOf(events[|events| - 1])
  {}

  lemma {:induction false} SentWhileOpen(events: seq<Event>)
    requires StdinOpen(events) && Listening(events)
    ensures Typed(Sent(events)) == ReadBytes(events) && Resized(Sent(events)) == Sizes(events)
  {
    if events != [] {
      var before, last := events[..|events| - 1], events[|events| - 1];
      SentLast(events);
      SentWhileOpen(before);
      SentOne(Sent(before), last);
    }
  }

  lemma {:induction false} NoInitSent(events: seq<Event>)
    ensures forall i :: 0 <= i < |Sent(events)| ==> !Sent(events)[i].Init?
  {
    if events != [] {
      NoInitSent(events[..|events| - 1]);
    }
  }

  /** The agent receives exactly the bytes read and the sizes taken before input stopped, each
      in order, and nothing else. */
  lemma KeystrokesArriveInOrder(events: seq<Event>)
    ensures Typed(Sent(events)) == ReadBytes(events[..InputLimit(events)])
    ensures Resized(Sent(events)) == Sizes(events[..InputLimit(events)])
    ensures forall i :: 0 <= i < |Sent(events)| ==> !Sent(events)[i].Init?
  {
    NoInitSent(events);
    var k := InputLimit(events);
    SentWhileOpen(events[..k]);
    if k < |events| {
      NothingSentAfter(events, k);
    } else {
      assert events[..k] == events;
    }
  }
}
