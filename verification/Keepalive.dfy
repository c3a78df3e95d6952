/** The keepalive of an interactive allocation (`interactive.rs`): failover across the
    configured controllers, and one warning per failure streak. */
module Keepalive {
  import opened Text

  // ----- the controllers to try

  predicate HasScheme(addr: string) {
    "http://" <= addr || "https://" <= addr
  }

  function NormalizeEndpoint(addr: string): string {
    if HasScheme(addr) then addr else "http://" + addr
  }

  function Normalized(parts: seq<string>): (r: seq<string>)
    ensures |r| <= |parts| && forall e :: e in r ==> HasScheme(e)
  {
    if parts == [] then []
    else
      var part := Trim(parts[0]);
      (if part == "" then [] else [NormalizeEndpoint(part)]) + Normalized(parts[1..])
  }

  /** `spur_client::parse_endpoints`. */
  function ParseEndpoints(raw: string): seq<string> {
    Normalized(Split(raw, ','))
  }

  function KeepaliveEndpoints(controller: string): (r: seq<string>)
    ensures |r| >= 1
  {
    var parsed := ParseEndpoints(controller);
    if parsed == [] then [controller] else parsed
  }

  lemma {:induction false} EmptyMeansBlank(parts: seq<string>)
    requires Normalized(parts) == []
    ensures forall part :: part in parts ==> Trim(part) == ""
  {
    if parts != [] {
      EmptyMeansBlank(parts[1..]);
    }
  }

  /** A list with any entry yields only dialable addresses; a blank one yields itself. */
  lemma EndpointsAreDialable(controller: string, part: string)
    requires part in Split(controller, ',') && Trim(part) != ""
    ensures forall e :: e in KeepaliveEndpoints(controller) ==> HasScheme(e)
  {
    if ParseEndpoints(controller) == [] {
      EmptyMeansBlank(Split(controller, ','));
    }
  }

  /** The entries of a list are dialled as they are, or over plain HTTP if they name no scheme, in order. */
  lemma {:induction false} NormalizedEntries(entries: seq<string>)
    requires forall k :: 0 <= k < |entries| ==> IsEntry(entries[k])
    ensures var r := Normalized(entries);
            && |r| == |entries|
            && forall k :: 0 <= k < |r| ==>
                 r[k] == if HasScheme(entries[k]) then entries[k] else "http://" + entries[k]
  {
    if entries != [] {
      assert IsEntry(entries[0]);
      NormalizedEntries(entries[1..]);
    }
  }

  lemma EndpointsInOrder(entries: seq<string>)
    requires entries != [] && forall k :: 0 <= k < |entries| ==> IsEntry(entries[k])
    ensures var r := KeepaliveEndpoints(Join(entries, ","));
            && |r| == |entries|
            && forall k :: 0 <= k < |r| ==>
                 r[k] == if HasScheme(entries[k]) then entries[k] else "http://" + entries[k]
  {
    assert NoneHolds(entries, ',') by {
      assert forall k :: 0 <= k < |entries| ==> IsEntry(entries[k]);
    }
    SplitJoinForward(entries, ',');
    NormalizedEntries(entries);
  }

  // ----- one keepalive

  datatype Ping = Accepted | Rejected(error: string)

  /** Dialling a controller: no channel in time, or a new client and its ping. */
  datatype Dial<+Client> = NoChannel | Channel(client: Client, ping: Ping)

  datatype Verdict = Alive | Failed(error: string)

  /** What the network answers during one keepalive: the held client's ping, then what
      dialling each endpoint would give, in configured order. */
  datatype Tick<+Client> = Tick(first: Ping, dials: seq<Dial<Client>>)

  predicate Serves<Client>(dial: Dial<Client>) {
    dial.Channel? && dial.ping.Accepted?
  }

  predicate AnyServes<Client>(dials: seq<Dial<Client>>) {
    exists k :: 0 <= k < |dials| && Serves(dials[k])
  }

  /** The first endpoint that both connects and answers. */
  function FirstServing<Client>(dials: seq<Dial<Client>>): (k: nat)
    requires AnyServes(dials)
    ensures k < |dials| && Serves(dials[k]) && forall j :: 0 <= j < k ==> !Serves(dials[j])
  {
    if Serves(dials[0]) then 0 else 1 + FirstServing(dials[1..])
  }

  /** The last ping error of a rebuilt client, or `first` if no client was rebuilt. */
  function LastError<Client>(dials: seq<Dial<Client>>, first: string): string {
    if dials == [] then first
    else
      var last := dials[|dials| - 1];
      if last.Channel? && last.ping.Rejected? then last.ping.error else LastError(dials[..|dials| - 1], first)
  }

  predicate PingRejected<Client>(dial: Dial<Client>) {
    dial.Channel? && dial.ping.Rejected?
  }

  /** The error reported is that of the last endpoint to connect and refuse, or the held client's. */
  lemma {:induction false} LastErrorDecides<Client>(dials: seq<Dial<Client>>, first: string, k: nat)
    requires k <= |dials| && forall j :: k <= j < |dials| ==> !PingRejected(dials[j])
    ensures k == 0 ==> LastError(dials, first) == first
    ensures k > 0 && PingRejected(dials[k - 1]) ==> LastError(dials, first) == dials[k - 1].ping.error
    decreases |dials|
  {
    if k < |dials| {
      LastErrorDecides(dials[..|dials| - 1], first, k);
    }
  }

  predicate Succeeds<Client>(tick: Tick<Client>) {
    tick.first.Accepted? || AnyServes(tick.dials)
  }

  class Task<Client> {
    const endpoints: seq<string>
    var client: Client
    var warned: bool
    var warnings: nat

    constructor (client: Client, controller: string)
      ensures this.client == client && endpoints == KeepaliveEndpoints(controller) && !warned && warnings == 0
    {
      this.client, endpoints := client, KeepaliveEndpoints(controller);
      warned, warnings := false, 0;
    }

    /** On success the held client is one whose ping was just accepted: the same one, or
        that of the first endpoint in configured order to connect and answer. On failure
        it is unchanged, every endpoint was dialled, and the last ping error is reported. */
    method Once(tick: Tick<Client>) returns (verdict: Verdict, dialled: seq<string>)
      requires |tick.dials| == |endpoints|
      modifies this`client
      ensures verdict.Alive? <==> Succeeds(tick)
      ensures tick.first.Accepted? ==> client == old(client) && dialled == []
      ensures tick.first.Rejected? && AnyServes(tick.dials) ==>
                var k := FirstServing(tick.dials);
                client == tick.dials[k].client && dialled == endpoints[..k + 1]
      ensures verdict.Failed? ==> client == old(client) && dialled == endpoints
                                  && verdict.error == LastError(tick.dials, tick.first.error)
    {
      dialled := [];
      if tick.first.Accepted? {
        return Alive, dialled;
      }
      var lastPingError: Option<string> := None;
      for k := 0 to |endpoints|
        invariant client == old(client) && dialled == endpoints[..k]
        invariant forall j :: 0 <= j < k ==> !Serves(tick.dials[j])
        invariant lastPingError.Or(tick.first.error) == LastError(tick.dials[..k], tick.first.error)
      {
        dialled := dialled + [endpoints[k]];
        assert tick.dials[..k + 1][..k] == tick.dials[..k];
        match tick.dials[k]
        case NoChannel =>
        case Channel(rebuilt, Accepted) =>
          client := rebuilt;
          assert FirstServing(tick.dials) == k;
          return Alive, dialled;
        case Channel(_, Rejected(error)) =>
          lastPingError := Some(error);
      }
      assert tick.dials[..|endpoints|] == tick.dials;
      return Failed(lastPingError.Or(tick.first.error)), dialled;
    }

    /** The keepalive loop over any run of ticks. The client held at the end is the one
        that answered last, and the warnings are one per maximal streak of failures. */
    method Run(ticks: seq<Tick<Client>>)
      requires !warned && warnings == 0
      requires forall i :: 0 <= i < |ticks| ==> |ticks[i].dials| == |endpoints|
      modifies this
      ensures warnings == |StreakStarts(ticks)|
      ensures client == Held(ticks, old(client))
    {
      for i := 0 to |ticks|
        invariant warned == (i > 0 && !Succeeds(ticks[i - 1]))
        invariant warnings == |StreakStarts(ticks[..i])|
        invariant client == Held(ticks[..i], old(client))
      {
        assert ticks[..i + 1][..i] == ticks[..i];
        StreakStartsStep(ticks[..i + 1]);
        var verdict, _ := Once(ticks[i]);
        match verdict
        case Alive => warned := false;
        case Failed(_) =>
          if !warned {
            warnings := warnings + 1;
            warned := true;
          }
      }
      assert ticks[..|ticks|] == ticks;
    }
  }

  /** A maximal streak of failures begins at tick `i`. */
  predicate StartsStreak<Client>(ticks: seq<Tick<Client>>, i: int) {
    0 <= i < |ticks| && !Succeeds(ticks[i]) && (i == 0 || Succeeds(ticks[i - 1]))
  }

  function StreakStarts<Client>(ticks: seq<Tick<Client>>): set<int> {
    set i | 0 <= i < |ticks| && StartsStreak(ticks, i)
  }

  lemma StreakStartsStep<Client>(ticks: seq<Tick<Client>>)
    requires ticks != []
    ensures var n := |ticks| - 1;
            |StreakStarts(ticks)| == |StreakStarts(ticks[..n])| + (if StartsStreak(ticks, n) then 1 else 0)
  {
    var n := |ticks| - 1;
    var before := ticks[..n];
    assert forall i :: 0 <= i < n ==> StartsStreak(ticks, i) == StartsStreak(before, i);
    assert StreakStarts(ticks) == StreakStarts(before) + (if StartsStreak(ticks, n) then {n} else {});
  }

  /** The held client is replaced at this tick. */
  predicate FailsOver<Client>(tick: Tick<Client>) {
    tick.first.Rejected? && AnyServes(tick.dials)
  }

  /** The client held after `ticks`, starting from `start`. */
  function Held<Client>(ticks: seq<Tick<Client>>, start: Client): Client {
    if ticks == [] then start
    else
      var last := ticks[|ticks| - 1];
      if FailsOver(last) then last.dials[FirstServing(last.dials)].client
      else Held(ticks[..|ticks| - 1], start)
  }

  /** Read forwards: the first client is held until a failover, and from then on the
      client that answered at the latest failover. */
  lemma {:induction false} HeldSinceFailover<Client>(ticks: seq<Tick<Client>>, start: Client, i: nat)
    requires i <= |ticks| && forall j :: i <= j < |ticks| ==> !FailsOver(ticks[j])
    ensures i == 0 ==> Held(ticks, start) == start
    ensures i > 0 && FailsOver(ticks[i - 1]) ==>
              Held(ticks, start) == ticks[i - 1].dials[FirstServing(ticks[i - 1].dials)].client
    decreases |ticks|
  {
    if i < |ticks| {
      HeldSinceFailover(ticks[..|ticks| - 1], start, i);
    }
  }
}
