/** The client side of Cristian's algorithm: the estimator, the damped adjustment of the
    client's clock, and the periodic sync cycle of `ClockClient`. Wall-clock readings and
    what the network delivered are parameters. */
module Client {
  import opened Wrappers
  import opened Numbers
  import opened Protocol

  /** Fraction of the estimated difference applied in one cycle. */
  const DefaultAdjustmentRate: real := 0.1

  /** Seconds between two sync cycles. */
  const SyncPeriod: real := 60.0

  /** The estimator's output: round trip, one-way delay, estimated true time. */
  datatype Estimate = Estimate(rtt: real, networkDelay: real, correctTime: real)

  /** Cristian's estimate from the send time `t0`, the authority's time `t1` and the receive
      time `t3`: the reply is taken to have spent half the round trip in transit. */
  function CristianEstimate(t0: real, t1: real, t3: real): (e: Estimate)
    ensures e.rtt == t3 - t0
    ensures e.networkDelay + e.networkDelay == e.rtt
    ensures e.correctTime - t1 == e.networkDelay
  {
    var rtt := t3 - t0;
    var networkDelay := rtt / 2.0;
    Estimate(rtt, networkDelay, t1 + networkDelay)
  }

  /** The worked example: sent at 100, authority says 105, received at 104. */
  lemma EstimateExample()
    ensures CristianEstimate(100.0, 105.0, 104.0) == Estimate(4.0, 2.0, 107.0)
  {
  }

  /** Why the estimate is good: the authority stamps its reply at true time
      `sendTrue + outbound`, and the client's raw clock runs at the true rate with a constant
      `skew`. The estimate is then off the true arrival time by half the delay asymmetry:
      exact when the two delays are equal, and never off by more than half the round trip. */
  lemma EstimateError(sendTrue: real, skew: real, outbound: real, inbound: real)
    requires outbound >= 0.0 && inbound >= 0.0
    ensures var e := CristianEstimate(sendTrue + skew, sendTrue + outbound,
                                      sendTrue + outbound + inbound + skew);
            var arrivalTrue := sendTrue + outbound + inbound;
            && e.correctTime - arrivalTrue == (outbound - inbound) / 2.0
            && -e.networkDelay <= e.correctTime - arrivalTrue <= e.networkDelay
            && (e.correctTime == arrivalTrue <==> outbound == inbound)
  {
  }

  /** The damped correction: the offset moves by `rate` times the difference between the
      estimated correct time and the local time `localTime` read before the adjustment. */
  function Adjusted(offset: real, rate: real, correctTime: real, localTime: real): real {
    offset + Adjustment(correctTime - localTime, rate)
  }

  /** The damped share of a measured difference that is applied to the offset. */
  function Adjustment(timeDifference: real, rate: real): real {
    timeDifference * rate
  }

  /** The convergence law of one adjustment, with the local time read at raw reading `raw`:
      the offset changes by exactly `rate` times the difference, and measured against the same
      raw reading only the fraction `1 - rate` of the difference remains. */
  lemma AdjustmentLaw(offset: real, rate: real, correctTime: real, raw: real)
    ensures Adjusted(offset, rate, correctTime, raw + offset) - offset == rate * (correctTime - (raw + offset))
    ensures correctTime - (raw + Adjusted(offset, rate, correctTime, raw + offset))
         == (1.0 - rate) * (correctTime - (raw + offset))
  {
    var d := correctTime - (raw + offset);
    assert correctTime - (raw + (offset + d * rate)) == d - d * rate;
  }

  function Abs(x: real): real {
    if x < 0.0 then -x else x
  }

  /** With a rate strictly between 0 and 1, a cycle strictly shrinks a non-zero difference
      and never flips its sign. */
  lemma DampingShrinksDifference(rate: real, difference: real)
    requires 0.0 < rate < 1.0 && difference != 0.0
    ensures Abs((1.0 - rate) * difference) < Abs(difference)
    ensures (difference > 0.0) == ((1.0 - rate) * difference > 0.0)
  {
    if difference > 0.0 {
      assert (1.0 - rate) * difference < difference;
    } else {
      assert (1.0 - rate) * difference > difference;
    }
  }

  /** Everything one cycle of the sync loop depends on. */
  datatype SyncCycle = SyncCycle(
    start: real,               // raw clock when the cycle began, stamped as the last sync time
    sentAt: Decimal,           // raw clock t0 just before the request was sent
    received: Option<string>,  // the reply text, or None when connect, send or receive failed
    receivedAt: real,          // raw clock t3 when the reply arrived
    rawNow: real)              // raw clock read for the local time just before the adjustment

  datatype SyncError = ConnectionFailure | MalformedReply

  /** What one cycle yields: the estimate, or why the cycle was abandoned. */
  function CycleOutcome(c: SyncCycle): Result<Estimate, SyncError> {
    match c.received
    case None => Failure(ConnectionFailure)
    case Some(reply) =>
      match ParseReply(reply)
      case None => Failure(MalformedReply)
      case Some((_, t1)) => Success(CristianEstimate(c.sentAt.Value(), t1, c.receivedAt))
  }

  /** A cycle fails to connect exactly when nothing was received, fails as malformed exactly
      when the reply does not parse, and otherwise measures the round trip from its send time. */
  lemma CycleOutcomeCases(c: SyncCycle)
    ensures CycleOutcome(c) == Failure(ConnectionFailure) <==> c.received.None?
    ensures CycleOutcome(c) == Failure(MalformedReply) <==> c.received.Some? && ParseReply(c.received.value).None?
    ensures CycleOutcome(c).Success? ==> CycleOutcome(c).value.rtt == c.receivedAt - c.sentAt.Value()
  {
  }

  /** The outcomes of a run of cycles, each at its cycle's position. */
  function Outcomes(cycles: seq<SyncCycle>): seq<Result<Estimate, SyncError>> {
    seq(|cycles|, i requires 0 <= i < |cycles| => CycleOutcome(cycles[i]))
  }

  /** Running one more cycle appends its outcome. */
  lemma OutcomesAppend(cycles: seq<SyncCycle>, i: nat)
    requires i < |cycles|
    ensures Outcomes(cycles[..i + 1]) == Outcomes(cycles[..i]) + [CycleOutcome(cycles[i])]
  {
    assert forall j :: 0 <= j < i ==> cycles[..i + 1][j] == cycles[..i][j];
  }

  /** A cycle whose reply parses uses the authority's time from it in the estimate. */
  lemma CycleOnReply(c: SyncCycle, echo: real, t1: real)
    requires c.received.Some? && ParseReply(c.received.value) == Some((echo, t1))
    ensures CycleOutcome(c) == Success(CristianEstimate(c.sentAt.Value(), t1, c.receivedAt))
  {
  }

  /** What a cycle leaves behind for the clock: its outcome, the raw reading `t3` its
      estimate refers to, and the later raw reading the local time was taken at before
      the adjustment. */
  datatype Step = Step(outcome: Result<Estimate, SyncError>, receivedAt: real, rawNow: real)

  function StepOf(c: SyncCycle): Step {
    Step(CycleOutcome(c), c.receivedAt, c.rawNow)
  }

  function StepsOf(cycles: seq<SyncCycle>): seq<Step> {
    seq(|cycles|, i requires 0 <= i < |cycles| => StepOf(cycles[i]))
  }

  /** The client's offset after one step: adjusted on success, untouched on failure. */
  function StepOffset(offset: real, rate: real, s: Step): real {
    match s.outcome
    case Success(e) => Adjusted(offset, rate, e.correctTime, s.rawNow + offset)
    case Failure(_) => offset
  }

  /** A failed step leaves the offset alone; a successful one moves it by exactly the rate
      times the gap between the estimated correct time and the local time before the step. */
  lemma StepOffsetLaw(offset: real, rate: real, s: Step)
    ensures s.outcome.Failure? ==> StepOffset(offset, rate, s) == offset
    ensures s.outcome.Success? ==>
      StepOffset(offset, rate, s) - offset == rate * (s.outcome.value.correctTime - (s.rawNow + offset))
  {
    if s.outcome.Success? {
      AdjustmentLaw(offset, rate, s.outcome.value.correctTime, s.rawNow);
    }
  }

  /** The client's offset after a run of steps, in order. */
  function OffsetAfterSteps(offset: real, rate: real, steps: seq<Step>): real
    decreases |steps|
  {
    if steps == [] then offset
    else StepOffset(OffsetAfterSteps(offset, rate, steps[..|steps| - 1]), rate, steps[|steps| - 1])
  }

  /** Running one more cycle applies one more step to the offset. */
  lemma StepsAppend(offset: real, rate: real, cycles: seq<SyncCycle>, i: nat)
    requires i < |cycles|
    ensures OffsetAfterSteps(offset, rate, StepsOf(cycles[..i + 1]))
         == StepOffset(OffsetAfterSteps(offset, rate, StepsOf(cycles[..i])), rate, StepOf(cycles[i]))
  {
    var steps := StepsOf(cycles[..i + 1]);
    assert steps[..i] == StepsOf(cycles[..i]);
  }

  /** How many of the steps produced an estimate. */
  function Successes(steps: seq<Step>): nat
    decreases |steps|
  {
    if steps == [] then 0
    else Successes(steps[..|steps| - 1]) + (if steps[|steps| - 1].outcome.Success? then 1 else 0)
  }

  /** The step's estimate, if any, is the true time at the receive instant `t3`, which is
      the raw clock there plus `trueOffset` (the client's raw clock is off the authority's
      by a constant), and the local time was read `lag` after `t3`. */
  predicate ConsistentWith(s: Step, trueOffset: real, lag: real) {
    s.outcome.Success? ==>
      s.outcome.value.correctTime == s.receivedAt + trueOffset && s.rawNow == s.receivedAt + lag
  }

  function Power(x: real, n: nat): real {
    if n == 0 then 1.0 else x * Power(x, n - 1)
  }

  /** Convergence over repeated cycles: when the estimates are exact at their receive
      instants and the local time is always read `lag` later, the offset heads for
      `trueOffset - lag`. Each successful cycle damps the remaining error once and each
      failed cycle leaves it alone, so the error is the starting one damped once per
      success (by `DampedIsPower`, times `(1 - rate)` to the number of successes). */
  lemma Converges(offset: real, rate: real, trueOffset: real, lag: real, steps: seq<Step>)
    requires forall i :: 0 <= i < |steps| ==> ConsistentWith(steps[i], trueOffset, lag)
    ensures (trueOffset - lag) - OffsetAfterSteps(offset, rate, steps)
         == Damped(Successes(steps), 1.0 - rate, (trueOffset - lag) - offset)
  {
    TracksError(offset, rate, trueOffset, lag, steps);
    ErrorAfterIsDamped((trueOffset - lag) - offset, rate, steps);
  }

  /** The point the offset settles at is `lag` short of the true offset: a consistent,
      successful step leaves `trueOffset - lag` where it is, and from the true offset itself
      it moves the offset away by `rate * lag`. */
  lemma SettlesShortByLag(rate: real, trueOffset: real, lag: real, s: Step)
    requires s.outcome.Success? && ConsistentWith(s, trueOffset, lag)
    ensures StepOffset(trueOffset - lag, rate, s) == trueOffset - lag
    ensures StepOffset(trueOffset, rate, s) == trueOffset - rate * lag
  {
    StepOffsetLaw(trueOffset - lag, rate, s);
    StepOffsetLaw(trueOffset, rate, s);
  }

  /** The gap left by the steps when it starts at `error`: a successful step damps it,
      a failed one keeps it. */
  function ErrorAfter(error: real, rate: real, steps: seq<Step>): real
    decreases |steps|
  {
    if steps == [] then error
    else if steps[|steps| - 1].outcome.Success? then Damp(1.0 - rate, ErrorAfter(error, rate, steps[..|steps| - 1]))
    else ErrorAfter(error, rate, steps[..|steps| - 1])
  }

  /** What is left of a gap after one damped adjustment. */
  function Damp(factor: real, error: real): real {
    factor * error
  }

  /** With estimates exact at their receive instants and the local time read `lag` later,
      the gap between `trueOffset - lag` and the client's offset evolves exactly as
      `ErrorAfter` says. */
  lemma {:induction false} TracksError(offset: real, rate: real, trueOffset: real, lag: real, steps: seq<Step>)
    requires forall i :: 0 <= i < |steps| ==> ConsistentWith(steps[i], trueOffset, lag)
    ensures (trueOffset - lag) - OffsetAfterSteps(offset, rate, steps)
         == ErrorAfter((trueOffset - lag) - offset, rate, steps)
    decreases |steps|
  {
    if steps != [] {
      var init, s := steps[..|steps| - 1], steps[|steps| - 1];
      assert forall i :: 0 <= i < |init| ==> init[i] == steps[i];
      TracksError(offset, rate, trueOffset, lag, init);
      if s.outcome.Success? {
        var before := OffsetAfterSteps(offset, rate, init);
        var target := trueOffset - lag;
        assert ConsistentWith(s, trueOffset, lag);
        assert s.outcome.value.correctTime == s.rawNow + target;
        assert OffsetAfterSteps(offset, rate, steps) == Adjusted(before, rate, s.rawNow + target, s.rawNow + before);
        AdjustTowardTarget(before, rate, s.rawNow, target);
      }
    }
  }

  /** A gap damped `k` times. */
  function Damped(k: nat, factor: real, error: real): real {
    if k == 0 then error else Damp(factor, Damped(k - 1, factor, error))
  }

  /** The gap after the steps is the starting gap damped once per successful step. */
  lemma {:induction false} ErrorAfterIsDamped(error: real, rate: real, steps: seq<Step>)
    ensures ErrorAfter(error, rate, steps) == Damped(Successes(steps), 1.0 - rate, error)
    decreases |steps|
  {
    if steps != [] {
      var init := steps[..|steps| - 1];
      ErrorAfterIsDamped(error, rate, init);
      if steps[|steps| - 1].outcome.Success? {
        assert Successes(steps) == Successes(init) + 1;
      } else {
        assert Successes(steps) == Successes(init);
      }
    }
  }

  /** Damping `k` times multiplies the gap by the factor to the power `k`. */
  lemma {:induction false} DampedIsPower(k: nat, factor: real, error: real)
    ensures Damped(k, factor, error) == Power(factor, k) * error
  {
    if k > 0 {
      DampedIsPower(k - 1, factor, error);
      ErrorStep(factor, k - 1, error, Damped(k - 1, factor, error), Damped(k, factor, error));
    }
  }

  /** A successful cycle whose estimate is the raw reading plus `target` damps the gap to `target`. */
  lemma AdjustTowardTarget(offset: real, rate: real, raw: real, target: real)
    ensures target - Adjusted(offset, rate, raw + target, raw + offset) == Damp(1.0 - rate, target - offset)
  {
    var d := target - offset;
    assert (raw + target) - (raw + offset) == d;
    assert Adjusted(offset, rate, raw + target, raw + offset) == offset + d * rate;
    assert target - (offset + d * rate) == d - d * rate;
  }

  lemma ErrorStep(x: real, k: nat, initial: real, before: real, after: real)
    requires before == Power(x, k) * initial && after == x * before
    ensures after == Power(x, k + 1) * initial
  {
    assert Power(x, k + 1) == x * Power(x, k);
  }

  /** The remaining error's factor strictly decreases with every successful cycle, and stays
      positive, when the rate is strictly between 0 and 1. */
  lemma {:induction false} ErrorFactorDecreases(rate: real, n: nat)
    requires 0.0 < rate < 1.0
    ensures 0.0 < Power(1.0 - rate, n + 1) < Power(1.0 - rate, n) <= 1.0
  {
    var x := 1.0 - rate;
    if n > 0 {
      ErrorFactorDecreases(rate, n - 1);
    }
    var p := Power(x, n);
    assert Power(x, n + 1) == x * p;
    assert 0.0 < x * p < p;
  }

  /** One client: its clock runs at raw time plus `offset`, and each sync cycle pulls the offset
      part of the way toward the authority's estimate. */
  class ClockClient {
    var clientId: int
    var offset: real
    var adjustmentRate: real
    var lastSyncTime: real

    constructor (clientId: int, initialOffset: real)
      ensures this.clientId == clientId && offset == initialOffset
      ensures adjustmentRate == DefaultAdjustmentRate && lastSyncTime == 0.0
    {
      this.clientId := clientId;
      offset := initialOffset;
      adjustmentRate := DefaultAdjustmentRate;
      lastSyncTime := 0.0;
    }

    /** The client's own (possibly wrong) time at raw clock reading `raw`. */
    function LocalTime(raw: real): (t: real)
      reads this
      ensures t - raw == offset
    {
      raw + offset
    }

    /** Seconds until the next sync, as displayed at raw time `now`: never negative, at most
      one period once the last sync lies in the past, and zero once a period has elapsed. */
    function TimeUntilNextSync(now: real): (r: real)
      reads this
      ensures r >= 0.0
      ensures now - lastSyncTime >= 0.0 ==> r <= SyncPeriod
      ensures now - lastSyncTime <= SyncPeriod ==> r + (now - lastSyncTime) == SyncPeriod
      ensures now - lastSyncTime >= SyncPeriod ==> r == 0.0
    {
      var timeSinceLastSync := now - lastSyncTime;
      if SyncPeriod - timeSinceLastSync > 0.0 then SyncPeriod - timeSinceLastSync else 0.0
    }

    /** One sync cycle. The last sync time is stamped first; a failure to connect, to receive
        or to parse abandons the cycle before the offset is touched. */
    method SyncStep(c: SyncCycle) returns (outcome: Result<Estimate, SyncError>)
      modifies this
      ensures outcome == CycleOutcome(c)
      ensures offset == StepOffset(old(offset), old(adjustmentRate), StepOf(c))
      ensures lastSyncTime == c.start
      ensures adjustmentRate == old(adjustmentRate) && clientId == old(clientId)
    {
      lastSyncTime := c.start;
      if c.received.None? {
        return Failure(ConnectionFailure);
      }
      var parsed := ParseReply(c.received.value);
      if parsed.None? {
        return Failure(MalformedReply);
      }
      var t1 := parsed.value.1;
      var rtt := c.receivedAt - c.sentAt.Value();
      var networkDelay := rtt / 2.0;
      var correctTime := t1 + networkDelay;
      var currentLocalTime := LocalTime(c.rawNow);
      var timeDifference := correctTime - currentLocalTime;
      var adjustment := Adjustment(timeDifference, adjustmentRate);
      CycleOnReply(c, parsed.value.0, t1);
      assert timeDifference == CycleOutcome(c).value.correctTime - (c.rawNow + offset);
      offset := offset + adjustment;
      outcome := Success(Estimate(rtt, networkDelay, correctTime));
    }

    /** The sync loop, run for the given cycles in order: a failed cycle is reported and the
        loop goes on with the next one. */
    method RunSyncLoop(cycles: seq<SyncCycle>) returns (outcomes: seq<Result<Estimate, SyncError>>)
      modifies this
      ensures outcomes == Outcomes(cycles)
      ensures offset == OffsetAfterSteps(old(offset), old(adjustmentRate), StepsOf(cycles))
      ensures lastSyncTime == if cycles == [] then old(lastSyncTime) else cycles[|cycles| - 1].start
      ensures adjustmentRate == old(adjustmentRate) && clientId == old(clientId)
    {
      outcomes := [];
      var i := 0;
      while i < |cycles|
        invariant 0 <= i <= |cycles|
        invariant outcomes == Outcomes(cycles[..i])
        invariant offset == OffsetAfterSteps(old(offset), old(adjustmentRate), StepsOf(cycles[..i]))
        invariant lastSyncTime == if i == 0 then old(lastSyncTime) else cycles[i - 1].start
        invariant adjustmentRate == old(adjustmentRate) && clientId == old(clientId)
      {
        ghost var before := offset;
        var outcome := SyncStep(cycles[i]);
        StepsAppend(old(offset), old(adjustmentRate), cycles, i);
        OutcomesAppend(cycles, i);
        outcomes := outcomes + [outcome];
        i := i + 1;
      }
      assert cycles[..i] == cycles;
    }
  }

  /** End to end: when the reply is the one the authority formats for the client's own request,
      the client's estimate uses exactly the authority's time (the echoed value is not used). */
  lemma ServedReplyEstimate(c: SyncCycle, serverTime: Decimal)
    requires c.received == Some(FormatReply(c.sentAt, serverTime))
    ensures CycleOutcome(c) == Success(CristianEstimate(c.sentAt.Value(), serverTime.Value(), c.receivedAt))
  {
    ReplyRoundTrip(c.sentAt, serverTime);
  }
}
