/** Retrying of storage operations, with an interval that doubles up to a maximum
    and a deadline after which errors are final. Times are in nanoseconds. */
module Retry {
  import opened Wrappers
  import opened ByteStrings

  const TWO_62: int := 0x4000_0000_0000_0000

  datatype Config = Config(initialInterval: Int64, maximumInterval: Int64, maximumDelay: Int64)

  datatype Error = Error(isInfrastructureError: bool, message: Bytes)

  // The schedule.

  /** The interval after one more retry. Doubling wraps around. */
  function NextInterval(interval: Int64, maximum: Int64): Int64 {
    var doubled := ToInt64(interval * 2);
    if doubled > maximum then maximum else doubled
  }

  /** The interval that is in force before retry `k`. */
  function Interval(c: Config, k: nat): Int64 {
    if k == 0 then c.initialInterval else NextInterval(Interval(c, k - 1), c.maximumInterval)
  }

  function Pow2(k: nat): (r: nat)
    ensures r > 0
  {
    if k == 0 then 1 else 2 * Pow2(k - 1)
  }

  function Min(a: int, b: int): int {
    if a < b then a else b
  }

  predicate Reasonable(c: Config) {
    0 < c.initialInterval <= c.maximumInterval < TWO_62
  }

  lemma NextIntervalDoubles(interval: Int64, maximum: Int64)
    requires 0 < interval <= maximum < TWO_62
    ensures NextInterval(interval, maximum) == Min(2 * interval, maximum)
  {
  }

  lemma {:induction false} IntervalIsPositive(c: Config, k: nat)
    requires Reasonable(c)
    ensures 0 < Interval(c, k) <= c.maximumInterval
  {
    if k > 0 {
      IntervalIsPositive(c, k - 1);
      NextIntervalDoubles(Interval(c, k - 1), c.maximumInterval);
    }
  }

  lemma PowersDouble(a: nat, k: nat)
    ensures a * Pow2(k + 1) == 2 * (a * Pow2(k))
  {
  }

  /** Exponential backoff, capped, and without overflow however often it doubles. */
  lemma {:induction false} IntervalIsCappedExponential(c: Config, k: nat)
    requires Reasonable(c)
    ensures Interval(c, k) == Min(c.initialInterval * Pow2(k), c.maximumInterval)
  {
    if k > 0 {
      hide NextInterval;
      IntervalIsCappedExponential(c, k - 1);
      IntervalIsPositive(c, k - 1);
      NextIntervalDoubles(Interval(c, k - 1), c.maximumInterval);
      PowersDouble(c.initialInterval, k - 1);
      hide Pow2;
    }
  }

  lemma {:induction false} IntervalGrows(c: Config, k: nat) returns (j: nat)
    requires 0 < c.initialInterval <= c.maximumInterval
    ensures j <= k && (TWO_62 <= Interval(c, j) || (j == k && Interval(c, k) >= Min(c.maximumInterval, c.initialInterval + k)))
  {
    if k == 0 {
      j := 0;
    } else {
      j := IntervalGrows(c, k - 1);
      if Interval(c, j) < TWO_62 {
        j := k;
      }
    }
  }

  /** Intervals stay positive forever if, and only if, the maximum is below 2^62. */
  lemma IntervalsStayPositive(c: Config)
    requires 0 < c.initialInterval <= c.maximumInterval
    ensures (forall k :: Interval(c, k) > 0) <==> c.maximumInterval < TWO_62
  {
    if c.maximumInterval < TWO_62 {
      forall k ensures Interval(c, k) > 0 {
        IntervalIsPositive(c, k);
      }
    } else {
      var j := IntervalGrows(c, TWO_62);
      assert Interval(c, j + 1) < 0;
    }
  }

  // The loop, given all that happens around it.

  /** One attempt: how long it takes, what it results in, the random number drawn
      in case of a retry, and whether the caller gives up before that. */
  datatype Event<V> = Event(duration: nat, result: Result<V, Error>, random: nat, cancelled: bool)

  datatype Attempt<V> = Attempt(start: int, end: int, result: Result<V, Error>)

  /** The attempts made, and what is returned, unless the loop is still going. */
  datatype Outcome<V> = Outcome(attempts: seq<Attempt<V>>, returned: Option<Result<V, Error>>)

  predicate Stops<V>(endTime: int, now: int, e: Event<V>)
    requires e.result.Failure?
  {
    !e.result.error.isInfrastructureError || now > endTime || e.cancelled
  }

  /** A random duration below an interval. */
  function RandomDuration(interval: Int64, random: nat): (r: nat)
    requires interval > 0
    ensures r < interval
  {
    random % interval
  }

  function Run<V>(c: Config, endTime: int, k: nat, now: int, events: seq<Event<V>>): Outcome<V>
    requires Reasonable(c)
    decreases events
  {
    if events == [] then Outcome([], None)
    else
      var e := events[0];
      var end := now + e.duration;
      var attempt := Attempt(now, end, e.result);
      if e.result.Success? || Stops(endTime, end, e) then Outcome([attempt], Some(e.result))
      else
        IntervalIsPositive(c, k);
        var rest := Run(c, endTime, k + 1, end + RandomDuration(Interval(c, k), e.random), events[1..]);
        Outcome([attempt] + rest.attempts, rest.returned)
  }

  // When the first attempt is followed by others, and by which.
  lemma RunUnfolds<V>(c: Config, endTime: int, k: nat, now: int, events: seq<Event<V>>) returns (goesOn: bool, next: int)
    requires Reasonable(c)
    ensures goesOn <==> events != [] && events[0].result.Failure? && !Stops(endTime, now + events[0].duration, events[0])
    ensures var o := Run(c, endTime, k, now, events);
            if events == [] then o == Outcome([], None)
            else
              var a := Attempt(now, now + events[0].duration, events[0].result);
              if goesOn then
                var rest := Run(c, endTime, k + 1, next, events[1..]);
                && a.end <= next < a.end + Interval(c, k)
                && o == Outcome([a] + rest.attempts, rest.returned)
              else o == Outcome([a], Some(a.result))
    ensures goesOn ==> Interval(c, k) > 0
                       && next == now + events[0].duration + RandomDuration(Interval(c, k), events[0].random)
  {
    next := now;
    goesOn := events != [] && events[0].result.Failure? && !Stops(endTime, now + events[0].duration, events[0]);
    if goesOn {
      IntervalIsPositive(c, k);
      next := now + events[0].duration + RandomDuration(Interval(c, k), events[0].random);
    }
  }

  /** An attempt after which there is another one. */
  ghost predicate IsRetried<V>(endTime: int, a: Attempt<V>, e: Event<V>) {
    a.result.Failure? && a.result == e.result && !Stops(endTime, a.end, e)
  }

  /** An attempt after which there is none. */
  ghost predicate IsFinal<V>(endTime: int, a: Attempt<V>, e: Event<V>) {
    a.result == e.result && (a.result.Failure? ==> Stops(endTime, a.end, e))
  }

  // All attempts but the last one are retried, and the last one is not.
  lemma {:induction false} EndsWithFinalAttempt<V>(c: Config, endTime: int, k: nat, now: int, events: seq<Event<V>>)
    requires Reasonable(c)
    ensures var o := Run(c, endTime, k, now, events);
            && |o.attempts| <= |events|
            && (forall i :: 0 <= i < |o.attempts| - 1 ==> IsRetried(endTime, o.attempts[i], events[i]))
            && match o.returned
               case None => |o.attempts| == |events| && (events != [] ==> IsRetried(endTime, o.attempts[|events| - 1], events[|events| - 1]))
               case Some(r) =>
                 && o.attempts != []
                 && var last := |o.attempts| - 1;
                 && r == o.attempts[last].result && IsFinal(endTime, o.attempts[last], events[last])
    decreases events
  {
    var goesOn, next := RunUnfolds(c, endTime, k, now, events);
    hide Run;
    if goesOn {
      EndsWithFinalAttempt(c, endTime, k + 1, next, events[1..]);
    }
  }

  /** What is returned is the result of the last attempt, so the first success or
      the error that ended the series. Every attempt before that failed with an
      infrastructure error, no later than the deadline, and was not cancelled. An
      error that ended the series was none of the infrastructure, came after the
      deadline, or was cancelled. */
  lemma ReturnsFirstSuccessOrLastError<V>(c: Config, endTime: int, now: int, events: seq<Event<V>>)
    requires Reasonable(c)
    ensures var o := Run(c, endTime, 0, now, events);
            && |o.attempts| <= |events|
            && (forall i :: 0 <= i < |o.attempts| ==> o.attempts[i].result == events[i].result)
            && (forall i :: 0 <= i < |o.attempts| - 1 || (i == |o.attempts| - 1 && 0 <= i && o.returned == None) ==>
                  var a := o.attempts[i];
                  && a.result.Failure? && a.result.error.isInfrastructureError
                  && a.end <= endTime && !events[i].cancelled)
            && (o.returned == None ==> |o.attempts| == |events|)
            && (o.returned.Some? ==>
                  && o.attempts != []
                  && var last := |o.attempts| - 1;
                  && o.returned.value == o.attempts[last].result
                  && (o.returned.value.Failure? ==>
                        || !o.returned.value.error.isInfrastructureError
                        || o.attempts[last].end > endTime
                        || events[last].cancelled))
  {
    EndsWithFinalAttempt(c, endTime, 0, now, events);
  }

  /** Before retry `i` the wait is shorter than the interval of the schedule. */
  lemma {:induction false} WaitsFollowSchedule<V>(c: Config, endTime: int, k: nat, now: int, events: seq<Event<V>>)
    requires Reasonable(c)
    ensures var attempts := Run(c, endTime, k, now, events).attempts;
            && (attempts != [] ==> attempts[0].start == now)
            && forall i :: 1 <= i < |attempts| ==> Waits(attempts[i - 1], attempts[i], Interval(c, k + i - 1))
    decreases events
  {
    var goesOn, next := RunUnfolds(c, endTime, k, now, events);
    hide Run, Interval;
    if goesOn {
      WaitsFollowSchedule(c, endTime, k + 1, next, events[1..]);
      var attempts := Run(c, endTime, k, now, events).attempts;
      var rest := Run(c, endTime, k + 1, next, events[1..]).attempts;
      forall i | 1 <= i < |attempts| ensures Waits(attempts[i - 1], attempts[i], Interval(c, k + i - 1)) {
        if i >= 2 {
          assert Waits(rest[i - 1 - 1], rest[i - 1], Interval(c, k + 1 + (i - 1) - 1));
        }
      }
    }
  }

  predicate Waits<V>(a: Attempt<V>, b: Attempt<V>, interval: Int64) {
    a.end <= b.start < a.end + interval
  }

  /** However long attempts take, no retry starts as late as the maximum interval
      after the deadline, and none waits longer than the capped exponential. */
  lemma RetriesStartInTime<V>(c: Config, start: int, events: seq<Event<V>>, i: nat)
    requires Reasonable(c)
    requires 1 <= i < |Run(c, start + c.maximumDelay, 0, start, events).attempts|
    ensures var attempts := Run(c, start + c.maximumDelay, 0, start, events).attempts;
            && attempts[i].start < start + c.maximumDelay + c.maximumInterval
            && attempts[i].start - attempts[i - 1].end < Min(c.initialInterval * Pow2(i - 1), c.maximumInterval)
  {
    hide Run, Pow2;
    var endTime := start + c.maximumDelay;
    var attempts := Run(c, endTime, 0, start, events).attempts;
    EndsWithFinalAttempt(c, endTime, 0, start, events);
    WaitsFollowSchedule(c, endTime, 0, start, events);
    IntervalIsCappedExponential(c, i - 1);
    assert IsRetried(endTime, attempts[i - 1], events[i - 1]);
    assert Waits(attempts[i - 1], attempts[i], Interval(c, 0 + i - 1));
  }

  // The code.

  /** The clock and the storage that operations run against. */
  class Environment<V(0)> {
    var now: int
    var events: seq<Event<V>>
    ghost var attempts: seq<Attempt<V>>

    constructor (now: int, events: seq<Event<V>>)
      ensures this.now == now && this.events == events && attempts == []
    {
      this.now, this.events, attempts := now, events, [];
    }

    /** One call into the underlying storage. */
    method FindMissing() returns (r: Result<V, Error>)
      requires events != []
      modifies this`now, this`attempts
      ensures r == events[0].result && now == old(now) + events[0].duration
      ensures attempts == old(attempts) + [Attempt(old(now), now, r)]
    {
      attempts := attempts + [Attempt(now, now + events[0].duration, events[0].result)];
      now := now + events[0].duration;
      r := events[0].result;
    }

    /** Wait for a timer. Returns false if the caller gave up. */
    method Sleep(duration: nat) returns (fired: bool)
      requires events != []
      modifies this`now, this`events
      ensures fired <==> !old(events)[0].cancelled
      ensures fired ==> now == old(now) + duration && events == old(events)[1..]
    {
      fired := !events[0].cancelled;
      if fired {
        now, events := now + duration, events[1..];
      }
    }
  }

  class RetryState {
    var endTime: int
    var interval: Int64

    constructor (endTime: int, interval: Int64)
      ensures this.endTime == endTime && this.interval == interval
    {
      this.endTime, this.interval := endTime, interval;
    }
  }

  class ErrorRetryingBlobAccess<V(0)> {
    const base: Environment<V>
    const config: Config

    constructor (base: Environment<V>, config: Config)
      ensures this.base == base && this.config == config
    {
      this.base, this.config := base, config;
    }

    method GetRetryState() returns (s: RetryState)
      ensures fresh(s) && s.endTime == base.now + config.maximumDelay && s.interval == config.initialInterval
    {
      s := new RetryState(base.now + config.maximumDelay, config.initialInterval);
    }

    /** Sleep if an error can be retried. Returns true if the caller has to stop. */
    method MaybeSleep(s: RetryState, err: Error) returns (stop: bool)
      requires base.events != [] && base.events[0].result == Failure(err) && s.interval > 0
      modifies base`now, base`events, s`interval
      ensures stop <==> !err.isInfrastructureError || old(base.now) > s.endTime || old(base.events)[0].cancelled
      ensures !stop ==>
                && base.events == old(base.events)[1..]
                && base.now == old(base.now) + RandomDuration(old(s.interval), old(base.events)[0].random)
                && s.interval == NextInterval(old(s.interval), config.maximumInterval)
    {
      if !err.isInfrastructureError || base.now > s.endTime {
        return true;
      }
      var randomInterval := RandomDuration(s.interval, base.events[0].random);
      var fired := base.Sleep(randomInterval);
      if !fired {
        return true;
      }
      s.interval := ToInt64(s.interval * 2);
      if s.interval > config.maximumInterval {
        s.interval := config.maximumInterval;
      }
      stop := false;
    }

    /** Repeat a call until it succeeds or may not be repeated any longer. Nothing
        is returned if what the environment has in store ends before that. */
    method FindMissing() returns (r: Option<Result<V, Error>>)
      requires Reasonable(config)
      modifies base
      ensures var o := Run(config, old(base.now) + config.maximumDelay, 0, old(base.now), old(base.events));
              r == o.returned && base.attempts == old(base.attempts) + o.attempts
    {
      hide Run;
      ghost var expected := Run(config, base.now + config.maximumDelay, 0, base.now, base.events);
      ghost var before := base.attempts;
      ghost var k := 0;
      var retryState := GetRetryState();
      while base.events != []
        invariant fresh(retryState) && retryState.endTime == old(base.now) + config.maximumDelay
        invariant retryState.interval == Interval(config, k)
        invariant var o := Run(config, retryState.endTime, k, base.now, base.events);
                  o.returned == expected.returned && base.attempts + o.attempts == before + expected.attempts
        decreases |base.events|
      {
        IntervalIsPositive(config, k);
        ghost var goesOn, next := RunUnfolds(config, retryState.endTime, k, base.now, base.events);
        var result := base.FindMissing();
        if result.Success? {
          return Some(result);
        }
        var stop := MaybeSleep(retryState, result.error);
        if stop {
          return Some(result);
        }
        k := k + 1;
      }
      ghost var goesOn, next := RunUnfolds(config, retryState.endTime, k, base.now, base.events);
      r := None;
    }
  }
}
