/** What every run of the reconnect loop reports, and how long it waits. */
module SupervisorRuns {
  import opened Wire
  import opened Errors
  import opened Supervisor
  import Cidr

  // ---------------------------------------------------------------------------
  // The order of events
  // ---------------------------------------------------------------------------

  /**
   * Tries that end in a retry, then the end: a clean stop, or a permanent error.
   * A permanent error never follows `Established`.
   */
  predicate Story(events: seq<Event>, verdict: Verdict)
    decreases |events|
  {
    if events == [] then verdict.Running?
    else if events[0].Disconnected? then |events| == 1 && verdict.Clean?
    else
      var up := |events| > 1 && events[1].Established?;
      var k := if up then 2 else 1;
      && events[0].Connecting? && |events| > k
      && match events[k]
         case Disconnected => |events| == k + 1 && verdict.Clean?
         case PermanentError => !up && |events| == k + 1 && verdict.GaveUp? && verdict.error.IsPermanent()
         case Reconnecting(_) => Story(events[k + 1..], verdict)
         case _ => false
  }

  lemma RetryThenStory(a: Attempt, wait: nat, later: Trace)
    requires Story(later.events, later.verdict)
    ensures Story(Opening(a) + [Reconnecting(wait)] + later.events, later.verdict)
  {
    var events := Opening(a) + [Reconnecting(wait)] + later.events;
    var k := |Opening(a)|;
    assert events[k + 1..] == later.events;
    assert events[0] == Connecting && events[k] == Reconnecting(wait);
    if a.established {
      assert events[1] == Established;
    }
  }

  lemma {:induction false} EveryRunTellsAStory(attempt: nat, rounds: seq<Round>)
    requires AllHonest(rounds)
    ensures var run := Supervise(attempt, rounds); Story(run.events, run.verdict)
    decreases |rounds|
  {
    if rounds != [] {
      var r, k := rounds[0], StepFor(attempt, rounds[0]);
      assert Honest(r.attempt);
      if Retries(r) {
        var later := Supervise(Saturate(k + 1, U32_MAX), rounds[1..]);
        EveryRunTellsAStory(Saturate(k + 1, U32_MAX), rounds[1..]);
        RetryThenStory(r.attempt, BackoffDelay(k, r.jitter), later);
      } else if r.stopAsleep && Retries(r.(stopAsleep := false)) {
        RetryThenStory(r.attempt, BackoffDelay(k, r.jitter), Trace([Disconnected], Clean));
      }
    }
  }

  /** A story ends well exactly when its last event is `Disconnected`, and badly exactly on a permanent error. */
  lemma {:induction false} TheEndTells(events: seq<Event>, verdict: Verdict)
    requires Story(events, verdict)
    ensures verdict.Clean? <==> events != [] && events[|events| - 1].Disconnected?
    ensures verdict.GaveUp? <==> events != [] && events[|events| - 1].PermanentError?
    decreases |events|
  {
    if events != [] && !events[0].Disconnected? {
      var k := if |events| > 1 && events[1].Established? then 2 else 1;
      if events[k].Reconnecting? {
        TheEndTells(events[k + 1..], verdict);
      }
    }
  }

  /** How many connections were begun. */
  function Tries(events: seq<Event>): nat {
    if events == [] then 0 else (if events[0].Connecting? then 1 else 0) + Tries(events[1..])
  }

  lemma {:induction false} TriesConcat(a: seq<Event>, b: seq<Event>)
    ensures Tries(a + b) == Tries(a) + Tries(b)
  {
    if a == [] {
      assert a + b == b;
    } else {
      assert (a + b)[1..] == a[1..] + b;
      TriesConcat(a[1..], b);
    }
  }

  lemma {:induction false} NoTriesLater(events: seq<Event>)
    requires Connecting !in events
    ensures Tries(events) == 0
  {
    if events != [] {
      NoTriesLater(events[1..]);
    }
  }

  lemma TriesOfRound(attempt: nat, r: Round)
    ensures Tries(LastRound(attempt, r).events) == if r.stopBefore then 0 else 1
  {
    var after := Aftermath(attempt, r).events;
    NoTriesLater(after);
    NoTriesLater(Opening(r.attempt)[1..]);
    TriesConcat(Opening(r.attempt), after);
    NoTriesLater([Disconnected]);
  }

  lemma {:induction false} TriesOfRetries(attempt: nat, rounds: seq<Round>)
    requires AllRetry(rounds)
    ensures Tries(Supervise(attempt, rounds).events) == |rounds|
    decreases |rounds|
  {
    if rounds != [] {
      var next := Saturate(StepFor(attempt, rounds[0]) + 1, U32_MAX);
      assert Retries(rounds[0]);
      FirstRound(attempt, rounds);
      TriesOfRound(attempt, rounds[0]);
      TriesOfRetries(next, rounds[1..]);
      TriesConcat(LastRound(attempt, rounds[0]).events, Supervise(next, rounds[1..]).events);
    }
  }

  lemma StopIsLast(attempt: nat, rounds: seq<Round>)
    requires rounds != [] && !Retries(rounds[0])
    ensures Supervise(attempt, rounds) == LastRound(attempt, rounds[0])
    ensures var r := rounds[0];
      LastRound(attempt, r).verdict == if !r.stopBefore && r.attempt.failure.Some? && r.attempt.failure.value.IsPermanent()
                                       then GaveUp(r.attempt.failure.value) else Clean
  {
    FirstRound(attempt, rounds);
  }

  lemma StopBehind(front: seq<Round>, back: seq<Round>)
    requires AllRetry(front) && back != [] && !Retries(back[0])
    ensures var run, last := Supervise(0, front + back), LastRound(AttemptAfter(0, front), back[0]);
      && run == Behind(Supervise(0, front).events, last)
      && Tries(run.events) == |front| + (if back[0].stopBefore then 0 else 1)
      && run.verdict == if !back[0].stopBefore && back[0].attempt.failure.Some? && back[0].attempt.failure.value.IsPermanent()
                        then GaveUp(back[0].attempt.failure.value) else Clean
  {
    var now := AttemptAfter(0, front);
    SuperviseSplits(0, front, back);
    StopIsLast(now, back);
    TriesOfRetries(0, front);
    TriesOfRound(now, back[0]);
    TriesConcat(Supervise(0, front).events, LastRound(now, back[0]).events);
  }

  /**
   * The loop ends in the first round that is not a retry, whatever would come
   * after it: cleanly on a shutdown, wherever it is seen, or a clean end of the
   * session, and with the error itself on a permanent one. A shutdown seen at the
   * top of the loop begins no further connection.
   */
  lemma EndsOnFirstStop(front: seq<Round>, r: Round, later: seq<Round>)
    requires AllRetry(front) && !Retries(r)
    ensures var run := Supervise(0, front + ([r] + later));
      && run == Supervise(0, front + [r])
      && Tries(run.events) == |front| + (if r.stopBefore then 0 else 1)
      && run.verdict == if !r.stopBefore && r.attempt.failure.Some? && r.attempt.failure.value.IsPermanent()
                        then GaveUp(r.attempt.failure.value) else Clean
  {
    assert ([r] + later)[0] == r;
    StopBehind(front, [r] + later);
    StopBehind(front, [r]);
  }

  // ---------------------------------------------------------------------------
  // The delays
  // ---------------------------------------------------------------------------

  function WaitIn(e: Event): seq<nat> {
    if e.Reconnecting? then [e.delay] else []
  }

  /** The announced waits, in order. */
  function Waits(events: seq<Event>): seq<nat> {
    if events == [] then []
    else WaitIn(events[0]) + Waits(events[1..])
  }

  lemma {:induction false} WaitsConcat(a: seq<Event>, b: seq<Event>)
    ensures Waits(a + b) == Waits(a) + Waits(b)
  {
    if a == [] {
      assert a + b == b;
    } else {
      assert (a + b)[1..] == a[1..] + b && (a + b)[0] == a[0];
      WaitsConcat(a[1..], b);
      assert WaitIn(a[0]) + (Waits(a[1..]) + Waits(b)) == WaitIn(a[0]) + Waits(a[1..]) + Waits(b);
    }
  }

  lemma OneWait(a: Attempt, wait: nat)
    ensures Waits(Opening(a) + [Reconnecting(wait)]) == [wait]
  {
    var events := Opening(a) + [Reconnecting(wait)];
    var last := [Reconnecting(wait)];
    assert last[1..] == [];
    assert Waits(last) == [wait];
    if a.established {
      assert events[1..] == [Established] + last && ([Established] + last)[1..] == last;
    } else {
      assert events[1..] == last;
    }
  }

  /** This round announces a wait. */
  predicate BacksOff(r: Round) {
    !r.stopBefore && !r.stopAfter && r.attempt.failure.Some? && !r.attempt.failure.value.IsPermanent()
  }

  /** Retries since the start, or since the last session that lasted. */
  function SinceReset(rounds: seq<Round>, i: nat): nat
    requires i < |rounds|
  {
    if Sustained(rounds[i]) then 0 else if i == 0 then 0 else SinceReset(rounds, i - 1) + 1
  }

  lemma {:induction false} CounterIsSinceReset(rounds: seq<Round>, i: nat)
    requires i < |rounds| && AllRetry(rounds[..i])
    ensures StepFor(AttemptAfter(0, rounds[..i]), rounds[i]) == Saturate(SinceReset(rounds, i), U32_MAX)
  {
    if i > 0 {
      assert rounds[..i] == rounds[..i - 1] + [rounds[i - 1]];
      CounterIsSinceReset(rounds, i - 1);
      OneMoreRound(0, rounds[..i - 1], rounds[i - 1]);
    }
  }

  lemma WaitsOfFirst(attempt: nat, rounds: seq<Round>)
    requires rounds != [] && Retries(rounds[0])
    ensures var r, step := rounds[0], StepFor(attempt, rounds[0]);
      Waits(Supervise(attempt, rounds).events)
      == [BackoffDelay(step, r.jitter)] + Waits(Supervise(Saturate(step + 1, U32_MAX), rounds[1..]).events)
  {
    var r, step := rounds[0], StepFor(attempt, rounds[0]);
    assert rounds == [r] + rounds[1..];
    RetryOnce(attempt, r, rounds[1..]);
    OneWait(r.attempt, BackoffDelay(step, r.jitter));
    WaitsConcat(Waiting(attempt, r), Supervise(Saturate(step + 1, U32_MAX), rounds[1..]).events);
  }

  lemma {:induction false} WaitsOfRetries(attempt: nat, rounds: seq<Round>)
    requires AllRetry(rounds)
    ensures |Waits(Supervise(attempt, rounds).events)| == |rounds|
    decreases |rounds|
  {
    if rounds != [] {
      var r, k := rounds[0], StepFor(attempt, rounds[0]);
      assert Retries(r);
      WaitsOfFirst(attempt, rounds);
      WaitsOfRetries(Saturate(k + 1, U32_MAX), rounds[1..]);
    }
  }

  lemma FirstWait(attempt: nat, rounds: seq<Round>)
    requires rounds != [] && BacksOff(rounds[0])
    ensures var waits := Waits(Supervise(attempt, rounds).events);
      waits != [] && waits[0] == BackoffDelay(StepFor(attempt, rounds[0]), rounds[0].jitter)
  {
    var r, k := rounds[0], StepFor(attempt, rounds[0]);
    OneWait(r.attempt, BackoffDelay(k, r.jitter));
    if r.stopAsleep {
      WaitsConcat(Waiting(attempt, r), [Disconnected]);
    } else {
      WaitsConcat(Waiting(attempt, r), Supervise(Saturate(k + 1, U32_MAX), rounds[1..]).events);
    }
  }

  /**
   * The i-th wait is the capped doubling of one second, as often as there were
   * retries since the start or since the last session that lasted, give or take a quarter.
   */
  lemma WaitsFollowSchedule(rounds: seq<Round>, i: nat)
    requires i < |rounds| && AllRetry(rounds[..i]) && BacksOff(rounds[i])
    ensures var waits := Waits(Supervise(0, rounds).events);
      var base := Doubled(SinceReset(rounds, i));
      && i < |waits| && waits[i] == Jittered(base, rounds[i].jitter)
      && 3 * base <= 4 * waits[i] <= 5 * base
  {
    var front, back := rounds[..i], rounds[i..];
    assert rounds == front + back;
    var k := SinceReset(rounds, i);
    SuperviseSplits(0, front, back);
    WaitsOfRetries(0, front);
    CounterIsSinceReset(rounds, i);
    FirstWait(AttemptAfter(0, front), back);
    WaitsConcat(Supervise(0, front).events, Supervise(AttemptAfter(0, front), back).events);
    BackoffDoublesToCap(k);
    BackoffDoublesToCap(Saturate(k, U32_MAX));
    DelayWithinQuarter(k, rounds[i].jitter);
  }

  // ---------------------------------------------------------------------------
  // A long outage
  // ---------------------------------------------------------------------------

  function Total(waits: seq<nat>): nat {
    if waits == [] then 0 else waits[0] + Total(waits[1..])
  }

  function StepUp(k: nat): nat { if k < 6 then k + 1 else 6 }

  /** The least that `n` waits can add up to, from step `k` on; steps past 6 are all alike. */
  function LeastWait(k: nat, n: nat): nat
    decreases n
  {
    if n == 0 then 0 else 3 * (BackoffBase(k) / 4) + LeastWait(StepUp(k), n - 1)
  }

  lemma {:induction false} CappedLeastWait(n: nat)
    ensures LeastWait(6, n) == 45_000 * n
  {
    BackoffDoublesToCap(6);
    if n > 0 {
      CappedLeastWait(n - 1);
    }
  }

  lemma FirstBases()
    ensures BackoffBase(0) == 1000 && BackoffBase(1) == 2000 && BackoffBase(2) == 4000
    ensures BackoffBase(3) == 8000 && BackoffBase(4) == 16000 && BackoffBase(5) == 32000
  {
    assert Cidr.Pow2(0) == 1 && Cidr.Pow2(1) == 2 && Cidr.Pow2(2) == 4;
    assert Cidr.Pow2(3) == 8 && Cidr.Pow2(4) == 16 && Cidr.Pow2(5) == 32;
  }

  lemma LeastWaitFromStart(n: nat)
    requires n >= 6
    ensures LeastWait(0, n) == 47_250 + 45_000 * (n - 6)
  {
    FirstBases();
    CappedLeastWait(n - 6);
    assert LeastWait(5, n - 5) == 24_000 + LeastWait(6, n - 6);
    assert LeastWait(4, n - 4) == 12_000 + LeastWait(5, n - 5);
    assert LeastWait(3, n - 3) == 6_000 + LeastWait(4, n - 4);
    assert LeastWait(2, n - 2) == 3_000 + LeastWait(3, n - 3);
    assert LeastWait(1, n - 1) == 1_500 + LeastWait(2, n - 2);
  }

  lemma {:induction false} BaseGrows(low: nat, high: nat)
    requires low <= high
    ensures BackoffBase(low) <= BackoffBase(high)
  {
    BackoffDoublesToCap(low);
    BackoffDoublesToCap(high);
    Cidr.Pow2Monotone(low, high);
  }

  lemma LeastOfFirst(k: nat, step: nat, jitter: Jitter)
    requires k <= step
    ensures BackoffDelay(step, jitter) >= 3 * (BackoffBase(k) / 4)
  {
    BaseGrows(k, step);
    DelayWithinQuarter(step, jitter);
  }

  lemma TotalOfFirst(attempt: nat, rounds: seq<Round>)
    requires rounds != [] && Retries(rounds[0])
    ensures var step := StepFor(attempt, rounds[0]);
      Total(Waits(Supervise(attempt, rounds).events))
      == BackoffDelay(step, rounds[0].jitter) + Total(Waits(Supervise(Saturate(step + 1, U32_MAX), rounds[1..]).events))
  {
    WaitsOfFirst(attempt, rounds);
    var step := StepFor(attempt, rounds[0]);
    var wait, later := BackoffDelay(step, rounds[0].jitter), Waits(Supervise(Saturate(step + 1, U32_MAX), rounds[1..]).events);
    assert ([wait] + later)[1..] == later;
  }

  lemma StepsUp(k: nat, step: nat, r: Round)
    requires k <= 6 && k <= step && !Sustained(r)
    ensures StepUp(k) <= StepFor(Saturate(step + 1, U32_MAX), r)
  {
  }

  lemma FirstAddsUp(attempt: nat, k: nat, rounds: seq<Round>)
    requires rounds != [] && Retries(rounds[0]) && k <= StepFor(attempt, rounds[0])
    requires var next := Saturate(StepFor(attempt, rounds[0]) + 1, U32_MAX);
      Total(Waits(Supervise(next, rounds[1..]).events)) >= LeastWait(StepUp(k), |rounds| - 1)
    ensures Total(Waits(Supervise(attempt, rounds).events)) >= LeastWait(k, |rounds|)
  {
    TotalOfFirst(attempt, rounds);
    LeastOfFirst(k, StepFor(attempt, rounds[0]), rounds[0].jitter);
  }

  lemma RestRetries(rounds: seq<Round>)
    requires rounds != [] && AllRetry(rounds) && forall i :: 0 < i < |rounds| ==> !Sustained(rounds[i])
    ensures Retries(rounds[0]) && AllRetry(rounds[1..])
    ensures forall i :: 0 <= i < |rounds| - 1 ==> !Sustained(rounds[1..][i])
  {
    assert forall r :: r in rounds[1..] ==> r in rounds;
  }

  lemma {:induction false} WaitsAddUp(attempt: nat, k: nat, rounds: seq<Round>)
    requires AllRetry(rounds) && k <= 6 && (rounds != [] ==> k <= StepFor(attempt, rounds[0]))
    requires forall i :: 0 < i < |rounds| ==> !Sustained(rounds[i])
    ensures Total(Waits(Supervise(attempt, rounds).events)) >= LeastWait(k, |rounds|)
    decreases |rounds|
  {
    if rounds != [] {
      var rest, step := rounds[1..], StepFor(attempt, rounds[0]);
      RestRetries(rounds);
      if rest != [] {
        StepsUp(k, step, rest[0]);
      }
      WaitsAddUp(Saturate(step + 1, U32_MAX), StepUp(k), rest);
      FirstAddsUp(attempt, k, rounds);
    }
  }

  /**
   * Six or more tries in a row without a session that lasted, from whatever point
   * of the schedule, wait at least 47.25 seconds and 45 more for each further try.
   */
  lemma LongOutageBacksOff(attempt: nat, rounds: seq<Round>)
    requires |rounds| >= 6 && AllRetry(rounds)
    requires forall i :: 0 < i < |rounds| ==> !Sustained(rounds[i])
    ensures Total(Waits(Supervise(attempt, rounds).events)) >= 47_250 + 45_000 * (|rounds| - 6)
  {
    WaitsAddUp(attempt, 0, rounds);
    LeastWaitFromStart(|rounds|);
  }
}
