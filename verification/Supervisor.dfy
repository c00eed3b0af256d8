/** One connection's resources, and the reconnect loop around it. */
module Supervisor {
  import opened Wire
  import opened Errors
  import opened Routing
  import opened Framers
  import Cidr
  import Fw = Forwarding

  const BASE_DELAY_MS: nat := 1000
  const MAX_DELAY_MS: nat := 60_000
  const MIN_SUSTAINED_MS: nat := 30_000
  const U32_MAX: nat := 0xFFFF_FFFF
  const U64_MAX: nat := 0xFFFF_FFFF_FFFF_FFFF

  // ---------------------------------------------------------------------------
  // Backoff
  // ---------------------------------------------------------------------------

  function Saturate(n: nat, max: nat): nat { if n > max then max else n }

  function BackoffBase(attempt: nat): nat {
    var factor := Saturate(Cidr.Pow2(attempt), U64_MAX);
    var scaled := Saturate(BASE_DELAY_MS * factor, U64_MAX);
    if scaled < MAX_DELAY_MS then scaled else MAX_DELAY_MS
  }

  type Jitter = j: real | 0.75 <= j < 1.25 witness 1.0

  function Jittered(base: nat, jitter: Jitter): nat {
    var scaled := base as real * jitter;
    scaled.Floor
  }

  function BackoffDelay(attempt: nat, jitter: Jitter): nat {
    Jittered(BackoffBase(attempt), jitter)
  }

  lemma Pow2From6(k: nat)
    ensures k >= 6 ==> Cidr.Pow2(k) >= 64
  {
    if k >= 6 {
      assert Cidr.Pow2(5) == 32 && Cidr.Pow2(6) == 64;
      Cidr.Pow2Monotone(6, k);
    }
  }

  /** One second doubled `k` times, but no more than a minute. */
  function Doubled(k: nat): nat {
    if BASE_DELAY_MS * Cidr.Pow2(k) < MAX_DELAY_MS then BASE_DELAY_MS * Cidr.Pow2(k) else MAX_DELAY_MS
  }

  /** Doubling from one second, capped at one minute; the saturating steps never show. */
  lemma BackoffDoublesToCap(k: nat)
    ensures BackoffBase(k) == Doubled(k)
    ensures k >= 6 ==> BackoffBase(k) == MAX_DELAY_MS
  {
    Pow2From6(k);
  }

  /** Within a quarter of the base either way. */
  lemma DelayWithinQuarter(k: nat, jitter: Jitter)
    ensures 3 * BackoffBase(k) <= 4 * BackoffDelay(k, jitter) <= 5 * BackoffBase(k)
  {
    BaseIsWhole(k);
    QuarterEitherWay(BackoffBase(k), jitter);
  }

  lemma QuarterEitherWay(base: nat, jitter: Jitter)
    requires base % 4 == 0
    ensures 3 * base <= 4 * Jittered(base, jitter) <= 5 * base
  {
    var low, high := 3 * (base / 4), 5 * (base / 4);
    ScaledBetween(base as real, jitter, low as real, high as real);
    FloorBetween(low, base as real * jitter, high);
    assert low <= Jittered(base, jitter) <= high;
  }

  lemma ScaledBetween(base: real, jitter: Jitter, low: real, high: real)
    requires base >= 0.0 && low == base * 0.75 && high == base * 1.25
    ensures low <= base * jitter <= high
  {
    NotNegative(base, jitter - 0.75);
    NotNegative(base, 1.25 - jitter);
    assert base * (1.25 - jitter) == high - base * jitter;
  }

  lemma NotNegative(a: real, b: real)
    requires a >= 0.0 && b >= 0.0
    ensures a * b >= 0.0
  {
  }

  lemma FloorBetween(low: int, x: real, high: int)
    requires low as real <= x <= high as real
    ensures low <= x.Floor <= high
  {
  }

  lemma {:induction false} BaseIsWhole(k: nat)
    ensures BackoffBase(k) % 4 == 0
  {
    BackoffDoublesToCap(k);
    assert BASE_DELAY_MS * Cidr.Pow2(k) == 4 * (250 * Cidr.Pow2(k));
  }

  // ---------------------------------------------------------------------------
  // The loop as a function of what happens
  // ---------------------------------------------------------------------------

  datatype Event = Connecting | Established | Reconnecting(delay: nat) | Disconnected | PermanentError

  /** How one connection went: whether it reached forwarding, and what it failed with. */
  datatype Attempt = Attempt(established: bool, failure: Option<VpnError>)

  /** One pass of the loop: where the shutdown signal was seen, how long the connection lasted. */
  datatype Round = Round(stopBefore: bool, attempt: Attempt, lastedMs: nat, stopAfter: bool, jitter: Jitter,
                         stopAsleep: bool)

  datatype Verdict = Running | Clean | GaveUp(error: VpnError)

  datatype Trace = Trace(events: seq<Event>, verdict: Verdict)

  predicate Sustained(r: Round) {
    r.attempt.established && r.lastedMs >= MIN_SUSTAINED_MS
  }

  /** The backoff step this failure waits for. */
  function StepFor(attempt: nat, r: Round): nat {
    if Sustained(r) then 0 else attempt
  }

  function Opening(a: Attempt): seq<Event> {
    if a.established then [Connecting, Established] else [Connecting]
  }

  function Supervise(attempt: nat, rounds: seq<Round>): Trace
    decreases |rounds|
  {
    if rounds == [] then Trace([], Running)
    else
      var r := rounds[0];
      if r.stopBefore then Trace([Disconnected], Clean)
      else if r.attempt.failure.None? then Trace(Opening(r.attempt) + [Disconnected], Clean)
      else if r.attempt.failure.value.IsPermanent() then
        Trace(Opening(r.attempt) + [PermanentError], GaveUp(r.attempt.failure.value))
      else if r.stopAfter then Trace(Opening(r.attempt) + [Disconnected], Clean)
      else
        var k := StepFor(attempt, r);
        var waiting := Opening(r.attempt) + [Reconnecting(BackoffDelay(k, r.jitter))];
        if r.stopAsleep then Trace(waiting + [Disconnected], Clean)
        else
          var later := Supervise(Saturate(k + 1, U32_MAX), rounds[1..]);
          Trace(waiting + later.events, later.verdict)
  }

  // ---------------------------------------------------------------------------
  // One connection
  // ---------------------------------------------------------------------------

  /** What the environment has in store for one connection. */
  datatype Plan = Plan(handshake: Option<VpnError>, openFault: Option<VpnError>, indexFault: Option<VpnError>,
                       wanted: seq<Route>, kind: Framer, prime: Bytes, wakes: seq<Fw.Wake>)

  /** An established tunnel never fails permanently, and only an established one ends well. */
  predicate Honest(a: Attempt) {
    if a.established then a.failure.Some? ==> !a.failure.value.IsPermanent() else a.failure.Some?
  }

  class EventChannel {
    var sent: seq<Event>

    constructor ()
      ensures sent == []
    {
      sent := [];
    }

    method Send(e: Event)
      modifies this
      ensures sent == old(sent) + [e]
    {
      sent := sent + [e];
    }
  }

  function ExitFailure(exit: Fw.Exit): Option<VpnError> {
    match exit case Stopped => None case Failed(e) => Some(e)
  }

  /** The plan's forwarding loop is left at some point. */
  predicate Ends(plan: Plan) {
    Fw.Run(plan.kind, plan.prime, plan.wakes).exit.Some?
  }

  /** The routes this connection puts into the table, for good or until one of them is refused. */
  function Added(plan: Plan, table: set<Route>, refuseAdd: set<Route>): seq<Route> {
    if plan.handshake.Some? || plan.openFault.Some? || plan.indexFault.Some? then []
    else Installable(table, refuseAdd, plan.wanted)
  }

  /** How the connection goes on a host with this table: the first thing that fails decides. */
  function AttemptOf(plan: Plan, table: set<Route>, refuseAdd: set<Route>): Attempt
    requires Ends(plan)
  {
    if plan.handshake.Some? then Attempt(false, plan.handshake)
    else if plan.openFault.Some? then Attempt(false, plan.openFault)
    else if plan.indexFault.Some? then Attempt(false, plan.indexFault)
    else if Added(plan, table, refuseAdd) != plan.wanted then Attempt(false, Some(VpnError.Routing))
    else Attempt(true, ExitFailure(Fw.Run(plan.kind, plan.prime, plan.wakes).exit.value))
  }

  /** The table it leaves: only added routes that the system refuses to delete stay. */
  function Left(plan: Plan, table: set<Route>, refuseAdd: set<Route>, refuseDelete: set<Route>): set<Route> {
    table + (AsSet(Added(plan, table, refuseAdd)) * refuseDelete)
  }

  /** A connection gets as far as forwarding if and only if nothing fails and its routes are new, accepted and distinct. */
  lemma EstablishedExactlyWhen(plan: Plan, table: set<Route>, refuseAdd: set<Route>)
    requires Ends(plan)
    ensures AttemptOf(plan, table, refuseAdd).established
       <==> && plan.handshake.None? && plan.openFault.None? && plan.indexFault.None?
            && AsSet(plan.wanted) !! (table + refuseAdd)
            && forall i, j :: 0 <= i < j < |plan.wanted| ==> plan.wanted[i] != plan.wanted[j]
  {
    InstallsExactlyWhen(table, refuseAdd, plan.wanted);
  }

  lemma AttemptIsHonest(plan: Plan, table: set<Route>, refuseAdd: set<Route>)
    requires Ends(plan)
    ensures Honest(AttemptOf(plan, table, refuseAdd))
  {
    ForwardingFailsTransiently(plan.kind, plan.prime, plan.wakes);
    var exit := Fw.Run(plan.kind, plan.prime, plan.wakes).exit.value;
    assert ExitFailure(exit).Some? ==> !ExitFailure(exit).value.IsPermanent();
  }

  /** Routes go in after the TUN is open; whichever step fails, the TUN is closed again behind the routes. */
  method RunPipeline(host: Host, plan: Plan, events: EventChannel, ghost before: set<Route>) returns (a: Attempt)
    requires !host.tunOpen && host.table == before && Consistent(host, before) && Ends(plan)
    modifies host, events
    ensures a == AttemptOf(plan.(handshake := None), before, host.refuseAdd)
    ensures host.table == Left(plan.(handshake := None), before, host.refuseAdd, host.refuseDelete)
    ensures events.sent == old(events.sent) + if a.established then [Established] else []
    ensures Consistent(host, before) && !host.tunOpen
  {
    assert AsSet([]) == {};
    if plan.openFault.Some? {
      return Attempt(false, plan.openFault);
    }
    OpenTun(host, before);
    if plan.indexFault.Some? {
      DropTun(host, before);
      return Attempt(false, plan.indexFault);
    }
    var guard := InstallRoutes(host, plan.wanted, before);
    if guard.Err? {
      DropTun(host, before);
      return Attempt(false, Some(guard.error));
    }
    events.Send(Established);
    var out := Fw.RunForwarding(plan.kind, plan.prime, plan.wakes, guard.value, before);
    a := Attempt(true, ExitFailure(out.exit.value));
  }

  method OpenTun(host: Host, ghost before: set<Route>)
    requires !host.tunOpen && host.table == before && Consistent(host, before)
    modifies host
    ensures host.tunOpen && host.table == before && Consistent(host, before)
  {
    ghost var log := host.log;
    host.OpenTun();
    ReplayMore(log, Opened);
    NeedsTunMore(log, Opened, host.refuseDelete);
  }

  method Connect(host: Host, plan: Plan, events: EventChannel, ghost before: set<Route>) returns (a: Attempt)
    requires !host.tunOpen && host.table == before && Consistent(host, before) && Ends(plan)
    modifies host, events
    ensures a == AttemptOf(plan, before, host.refuseAdd)
    ensures host.table == Left(plan, before, host.refuseAdd, host.refuseDelete)
    ensures events.sent == old(events.sent) + if a.established then [Established] else []
    ensures Consistent(host, before) && !host.tunOpen
  {
    if plan.handshake.Some? {
      assert AsSet([]) == {};
      return Attempt(false, plan.handshake);
    }
    a := RunPipeline(host, plan, events, before);
    assert plan.(handshake := None) == plan;
  }

  // ---------------------------------------------------------------------------
  // Forwarding never fails permanently
  // ---------------------------------------------------------------------------

  predicate Transient(s: Fw.Loop) {
    s.exit.Some? && s.exit.value.Failed? ==> !s.exit.value.error.IsPermanent()
  }

  lemma DecoderFailsTransiently(f: Framer, b: Bytes)
    ensures DecoderOf(f)(b).Malformed? ==> !DecoderOf(f)(b).error.IsPermanent()
  {
  }

  lemma {:induction false} DrainFailsTransiently(decode: Fw.Decoder, s: Fw.Loop, failAt: Option<nat>)
    requires Transient(s)
    requires forall b :: decode(b).Malformed? ==> !decode(b).error.IsPermanent()
    ensures Transient(Fw.DrainInbound(decode, s, failAt))
    decreases |s.inbound|
  {
    match decode(s.inbound)
    case NeedMore =>
    case Malformed(e) =>
    case Frame(event, n) =>
      if 0 < n <= |s.inbound| && !event.Disconnect? {
        if !Fw.Writes(event) {
          DrainFailsTransiently(decode, Fw.AfterFrame(s, event, n), failAt);
        } else if failAt != Some(0) {
          DrainFailsTransiently(decode, Fw.AfterFrame(s, event, n), Fw.OneLess(failAt));
        }
      }
  }

  lemma ReadFailsTransiently(f: Framer, s: Fw.Loop, failAt: Option<nat>)
    requires Transient(s)
    ensures Transient(Fw.DrainInbound(DecoderOf(f), s, failAt))
  {
    forall b
      ensures DecoderOf(f)(b).Malformed? ==> !DecoderOf(f)(b).error.IsPermanent()
    {
      DecoderFailsTransiently(f, b);
    }
    DrainFailsTransiently(DecoderOf(f), s, failAt);
  }

  lemma WakeFailsTransiently(f: Framer, s: Fw.Loop, w: Fw.Wake)
    requires Transient(s)
    ensures Transient(Fw.OnWake(f, s, w))
  {
    match w {
      case Shutdown(_) =>
      case Tick(_) =>
      case TunReady(_, _, _) =>
      case TlsRead(data, failAt) =>
        if data != [] {
          ReadFailsTransiently(f, s.(inbound := s.inbound + data), failAt);
        }
      case TlsBroke =>
    }
  }

  lemma {:induction false} ForwardingFailsTransiently(f: Framer, prime: Bytes, wakes: seq<Fw.Wake>)
    ensures Transient(Fw.Run(f, prime, wakes))
    decreases |wakes|
  {
    if wakes != [] {
      var front := wakes[..|wakes| - 1];
      ForwardingFailsTransiently(f, prime, front);
      if Fw.Run(f, prime, front).exit.None? {
        WakeFailsTransiently(f, Fw.Run(f, prime, front), wakes[|wakes| - 1]);
      }
    }
  }

  // ---------------------------------------------------------------------------
  // The loop itself
  // ---------------------------------------------------------------------------

  /** A plan for the connection and everything around it. */
  datatype Script = Script(plan: Plan, stopBefore: bool, lastedMs: nat, stopAfter: bool, jitter: Jitter, stopAsleep: bool)

  function RoundOf(s: Script, a: Attempt): Round {
    Round(s.stopBefore, a, s.lastedMs, s.stopAfter, s.jitter, s.stopAsleep)
  }

  /** The rounds these scripts come to, if none of them is the last; each connection finds the table the one before left. */
  function RoundsOf(scripts: seq<Script>, table: set<Route>, refuseAdd: set<Route>, refuseDelete: set<Route>): seq<Round>
    requires Playable(scripts)
  {
    if scripts == [] then []
    else
      var s := scripts[0];
      [RoundOf(s, AttemptOf(s.plan, table, refuseAdd))]
      + RoundsOf(scripts[1..], Left(s.plan, table, refuseAdd, refuseDelete), refuseAdd, refuseDelete)
  }

  /** The table when the loop has ended, or has run out of scripts. */
  function TableAfter(scripts: seq<Script>, table: set<Route>, refuseAdd: set<Route>, refuseDelete: set<Route>): set<Route>
    requires Playable(scripts)
  {
    if scripts == [] || scripts[0].stopBefore then table
    else
      var s := scripts[0];
      var left := Left(s.plan, table, refuseAdd, refuseDelete);
      if Retries(RoundOf(s, AttemptOf(s.plan, table, refuseAdd))) then TableAfter(scripts[1..], left, refuseAdd, refuseDelete)
      else left
  }

  lemma {:induction false} RoundsAreHonest(scripts: seq<Script>, table: set<Route>, refuseAdd: set<Route>,
                                           refuseDelete: set<Route>)
    requires Playable(scripts)
    ensures var rounds := RoundsOf(scripts, table, refuseAdd, refuseDelete);
      |rounds| == |scripts| && AllHonest(rounds)
    decreases |scripts|
  {
    if scripts != [] {
      AttemptIsHonest(scripts[0].plan, table, refuseAdd);
      RoundsAreHonest(scripts[1..], Left(scripts[0].plan, table, refuseAdd, refuseDelete), refuseAdd, refuseDelete);
    }
  }

  /** Each round is its own script's, on a table that has gained no more than routes the system refuses to delete. */
  lemma {:induction false} RoundIsItsScripts(scripts: seq<Script>, table: set<Route>, refuseAdd: set<Route>,
                                             refuseDelete: set<Route>, i: nat) returns (found: set<Route>)
    requires Playable(scripts) && i < |scripts|
    ensures |RoundsOf(scripts, table, refuseAdd, refuseDelete)| == |scripts|
    ensures table <= found <= table + refuseDelete
    ensures RoundsOf(scripts, table, refuseAdd, refuseDelete)[i]
         == RoundOf(scripts[i], AttemptOf(scripts[i].plan, found, refuseAdd))
    decreases i
  {
    RoundsAreHonest(scripts, table, refuseAdd, refuseDelete);
    if i == 0 {
      found := table;
    } else {
      var left := Left(scripts[0].plan, table, refuseAdd, refuseDelete);
      found := RoundIsItsScripts(scripts[1..], left, refuseAdd, refuseDelete, i - 1);
    }
  }

  /** Over any number of connections, only routes the system refuses to delete stay behind. */
  lemma {:induction false} TableOnlyKeeps(scripts: seq<Script>, table: set<Route>, refuseAdd: set<Route>,
                                          refuseDelete: set<Route>)
    requires Playable(scripts)
    ensures table <= TableAfter(scripts, table, refuseAdd, refuseDelete) <= table + refuseDelete
    decreases |scripts|
  {
    if scripts != [] {
      TableOnlyKeeps(scripts[1..], Left(scripts[0].plan, table, refuseAdd, refuseDelete), refuseAdd, refuseDelete);
    }
  }

  predicate AllHonest(rounds: seq<Round>) {
    forall r :: r in rounds ==> Honest(r.attempt)
  }

  predicate Playable(scripts: seq<Script>) {
    forall s :: s in scripts ==> Ends(s.plan)
  }

  /** This round ends in another try. */
  predicate Retries(r: Round) {
    && !r.stopBefore && !r.stopAfter && !r.stopAsleep
    && r.attempt.failure.Some? && !r.attempt.failure.value.IsPermanent()
  }

  predicate AllRetry(rounds: seq<Round>) {
    forall r :: r in rounds ==> Retries(r)
  }

  /** The counter after some rounds that all ended in another try. */
  function AttemptAfter(attempt: nat, rounds: seq<Round>): nat
    decreases |rounds|
  {
    if rounds == [] then attempt
    else AttemptAfter(Saturate(StepFor(attempt, rounds[0]) + 1, U32_MAX), rounds[1..])
  }

  function Behind(events: seq<Event>, later: Trace): Trace {
    Trace(events + later.events, later.verdict)
  }

  lemma BehindTwice(a: seq<Event>, b: seq<Event>, later: Trace)
    ensures Behind(a, Behind(b, later)) == Behind(a + b, later)
  {
    assert a + (b + later.events) == a + b + later.events;
  }

  function Waiting(attempt: nat, r: Round): seq<Event> {
    Opening(r.attempt) + [Reconnecting(BackoffDelay(StepFor(attempt, r), r.jitter))]
  }

  lemma RetryOnce(attempt: nat, r: Round, more: seq<Round>)
    requires Retries(r)
    ensures Supervise(attempt, [r] + more)
         == Behind(Waiting(attempt, r), Supervise(Saturate(StepFor(attempt, r) + 1, U32_MAX), more))
    ensures AttemptAfter(attempt, [r] + more) == AttemptAfter(Saturate(StepFor(attempt, r) + 1, U32_MAX), more)
  {
    assert ([r] + more)[1..] == more;
  }

  /** A run splits behind any number of retries. */
  lemma {:induction false} SuperviseSplits(attempt: nat, done: seq<Round>, more: seq<Round>)
    requires AllRetry(done)
    ensures Supervise(attempt, done + more)
         == Behind(Supervise(attempt, done).events, Supervise(AttemptAfter(attempt, done), more))
    ensures Supervise(attempt, done).verdict == Running
    ensures AttemptAfter(attempt, done + more) == AttemptAfter(AttemptAfter(attempt, done), more)
    decreases |done|
  {
    if done == [] {
      assert done + more == more;
      assert [] + Supervise(attempt, more).events == Supervise(attempt, more).events;
    } else {
      var r, rest := done[0], done[1..];
      var next := Saturate(StepFor(attempt, r) + 1, U32_MAX);
      assert Retries(r);
      assert done + more == [r] + (rest + more) && done == [r] + rest;
      RetryOnce(attempt, r, rest);
      RetryOnce(attempt, r, rest + more);
      SuperviseSplits(next, rest, more);
      BehindTwice(Waiting(attempt, r), Supervise(next, rest).events, Supervise(AttemptAfter(next, rest), more));
    }
  }

  /** What the loop does about one connection, once that is over. */
  function Aftermath(attempt: nat, r: Round): Trace {
    if r.attempt.failure.None? then Trace([Disconnected], Clean)
    else if r.attempt.failure.value.IsPermanent() then Trace([PermanentError], GaveUp(r.attempt.failure.value))
    else if r.stopAfter then Trace([Disconnected], Clean)
    else
      var wait := Reconnecting(BackoffDelay(StepFor(attempt, r), r.jitter));
      if r.stopAsleep then Trace([wait, Disconnected], Clean) else Trace([wait], Running)
  }

  /** One pass that has nothing behind it. */
  function LastRound(attempt: nat, r: Round): Trace {
    if r.stopBefore then Trace([Disconnected], Clean) else Behind(Opening(r.attempt), Aftermath(attempt, r))
  }

  lemma OneMoreRound(attempt: nat, done: seq<Round>, r: Round)
    requires AllRetry(done)
    ensures var now := AttemptAfter(attempt, done);
      && Supervise(attempt, done + [r]) == Behind(Supervise(attempt, done).events, LastRound(now, r))
      && AttemptAfter(attempt, done + [r]) == Saturate(StepFor(now, r) + 1, U32_MAX)
  {
    var now := AttemptAfter(attempt, done);
    SuperviseSplits(attempt, done, [r]);
    assert [r][1..] == [];
    if !r.stopBefore && r.attempt.failure.Some? && !r.attempt.failure.value.IsPermanent() && !r.stopAfter {
      var wait := Reconnecting(BackoffDelay(StepFor(now, r), r.jitter));
      assert Waiting(now, r) + [Disconnected] == Opening(r.attempt) + [wait, Disconnected];
      assert Waiting(now, r) + [] == Opening(r.attempt) + [wait];
    }
  }

  lemma FirstRound(attempt: nat, rounds: seq<Round>)
    requires rounds != []
    ensures var r := rounds[0];
      var here := LastRound(attempt, r);
      && (here.verdict.Running? <==> Retries(r))
      && Supervise(attempt, rounds)
           == if Retries(r) then Behind(here.events, Supervise(Saturate(StepFor(attempt, r) + 1, U32_MAX), rounds[1..])) else here
  {
    OneMoreRound(attempt, [], rounds[0]);
    var r := rounds[0];
    assert rounds == [r] + rounds[1..];
    if Retries(r) {
      RetryOnce(attempt, r, rounds[1..]);
      assert Waiting(attempt, r) == LastRound(attempt, r).events;
    }
  }

  /** The scripts from here on, with what has been reported so far in front. */
  ghost function Reported(sent: seq<Event>, attempt: nat, scripts: seq<Script>, table: set<Route>, refuseAdd: set<Route>,
                          refuseDelete: set<Route>): Trace
    requires Playable(scripts)
  {
    Behind(sent, Supervise(attempt, RoundsOf(scripts, table, refuseAdd, refuseDelete)))
  }

  lemma ReportedMore(sent: seq<Event>, attempt: nat, scripts: seq<Script>, table: set<Route>, refuseAdd: set<Route>,
                     refuseDelete: set<Route>)
    requires Playable(scripts) && scripts != []
    ensures var s := scripts[0];
      var r, left := RoundOf(s, AttemptOf(s.plan, table, refuseAdd)), Left(s.plan, table, refuseAdd, refuseDelete);
      var here := LastRound(attempt, r);
      Reported(sent, attempt, scripts, table, refuseAdd, refuseDelete)
      == if here.verdict.Running?
         then Reported(sent + here.events, Saturate(StepFor(attempt, r) + 1, U32_MAX), scripts[1..], left, refuseAdd,
                       refuseDelete)
         else Trace(sent + here.events, here.verdict)
  {
    var s := scripts[0];
    var r, left := RoundOf(s, AttemptOf(s.plan, table, refuseAdd)), Left(s.plan, table, refuseAdd, refuseDelete);
    var later := RoundsOf(scripts[1..], left, refuseAdd, refuseDelete);
    assert RoundsOf(scripts, table, refuseAdd, refuseDelete) == [r] + later;
    assert ([r] + later)[1..] == later;
    FirstRound(attempt, [r] + later);
    BehindTwice(sent, LastRound(attempt, r).events, Supervise(Saturate(StepFor(attempt, r) + 1, U32_MAX), later));
  }

  method Conclude(s: Script, a: Attempt, attempt: nat, events: EventChannel) returns (verdict: Verdict, attempt': nat)
    modifies events
    ensures events.sent == old(events.sent) + Aftermath(attempt, RoundOf(s, a)).events
    ensures verdict == Aftermath(attempt, RoundOf(s, a)).verdict
    ensures verdict.Running? ==> attempt' == Saturate(StepFor(attempt, RoundOf(s, a)) + 1, U32_MAX)
  {
    attempt' := attempt;
    if a.failure.None? {
      events.Send(Disconnected);
      return Clean, attempt';
    }
    if a.failure.value.IsPermanent() {
      events.Send(PermanentError);
      return GaveUp(a.failure.value), attempt';
    }
    if a.established && s.lastedMs >= MIN_SUSTAINED_MS {
      attempt' := 0;
    }
    if s.stopAfter {
      events.Send(Disconnected);
      return Clean, attempt';
    }
    events.Send(Reconnecting(BackoffDelay(attempt', s.jitter)));
    if s.stopAsleep {
      events.Send(Disconnected);
      return Clean, attempt';
    }
    return Running, Saturate(attempt' + 1, U32_MAX);
  }

  /**
   * The reconnect loop, each connection on a host that carries over the route
   * table of the one before. What it reports is `Supervise` of the rounds the
   * scripts come to, and the table only ever keeps routes the system refuses to
   * delete.
   */
  method RunSupervised(scripts: seq<Script>, table: set<Route>, refuseAdd: set<Route>, refuseDelete: set<Route>)
    returns (trace: Trace, table': set<Route>)
    requires Playable(scripts)
    ensures trace == Supervise(0, RoundsOf(scripts, table, refuseAdd, refuseDelete))
    ensures AllHonest(RoundsOf(scripts, table, refuseAdd, refuseDelete))
    ensures table' == TableAfter(scripts, table, refuseAdd, refuseDelete)
    ensures table <= table' <= table + refuseDelete
  {
    var events := new EventChannel();
    var attempt: nat := 0;
    table' := table;
    RoundsAreHonest(scripts, table, refuseAdd, refuseDelete);
    TableOnlyKeeps(scripts, table, refuseAdd, refuseDelete);
    ghost var all := Supervise(0, RoundsOf(scripts, table, refuseAdd, refuseDelete));
    ghost var last := TableAfter(scripts, table, refuseAdd, refuseDelete);
    assert scripts[0..] == scripts && [] + all.events == all.events;
    for i := 0 to |scripts|
      invariant Reported(events.sent, attempt, scripts[i..], table', refuseAdd, refuseDelete) == all
      invariant TableAfter(scripts[i..], table', refuseAdd, refuseDelete) == last
    {
      var s := scripts[i];
      assert scripts[i..][0] == s && scripts[i..][1..] == scripts[i + 1..];
      ReportedMore(events.sent, attempt, scripts[i..], table', refuseAdd, refuseDelete);
      var stop;
      stop, attempt, table' := OneRound(s, events, attempt, table', refuseAdd, refuseDelete);
      if !stop.Running? {
        return Trace(events.sent, stop), table';
      }
    }
    assert scripts[|scripts|..] == [] && events.sent + [] == events.sent;
    trace := Trace(events.sent, Running);
  }

  lemma RoundInParts(front: seq<Event>, attempt: nat, r: Round)
    requires !r.stopBefore
    ensures front + Opening(r.attempt) + Aftermath(attempt, r).events == front + LastRound(attempt, r).events
    ensures LastRound(attempt, r).verdict == Aftermath(attempt, r).verdict
  {
  }

  /** One pass through the loop. */
  method OneRound(s: Script, events: EventChannel, attempt: nat, table: set<Route>, refuseAdd: set<Route>,
                  refuseDelete: set<Route>)
    returns (verdict: Verdict, attempt': nat, table': set<Route>)
    requires Ends(s.plan)
    modifies events
    ensures var r := RoundOf(s, AttemptOf(s.plan, table, refuseAdd));
      && events.sent == old(events.sent) + LastRound(attempt, r).events && verdict == LastRound(attempt, r).verdict
      && (verdict.Running? ==> attempt' == Saturate(StepFor(attempt, r) + 1, U32_MAX))
    ensures table' == if s.stopBefore then table else Left(s.plan, table, refuseAdd, refuseDelete)
  {
    if s.stopBefore {
      events.Send(Disconnected);
      return Clean, attempt, table;
    }
    ghost var front := events.sent;
    events.Send(Connecting);
    var a;
    a, table' := ConnectOnce(s.plan, events, table, refuseAdd, refuseDelete);
    assert events.sent == front + Opening(a);
    verdict, attempt' := Conclude(s, a, attempt, events);
    RoundInParts(front, attempt, RoundOf(s, a));
  }

  method ConnectOnce(plan: Plan, events: EventChannel, table: set<Route>, refuseAdd: set<Route>, refuseDelete: set<Route>)
    returns (a: Attempt, table': set<Route>)
    requires Ends(plan)
    modifies events
    ensures a == AttemptOf(plan, table, refuseAdd) && table' == Left(plan, table, refuseAdd, refuseDelete)
    ensures events.sent == old(events.sent) + if a.established then [Established] else []
  {
    var host := new Host(table, refuseAdd, refuseDelete);
    a := Connect(host, plan, events, table);
    table' := host.table;
  }
}
