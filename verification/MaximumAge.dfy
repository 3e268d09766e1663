/** The age limit on state files: a file is only reloaded during the epoch in which
    the output path that it describes was first created. */
module MaximumAge {
  import opened Wrappers
  import opened ByteStrings
  import opened Messages

  // Points in time are nanoseconds since 1970.

  const NANOSECONDS := 1_000_000_000
  const MIN_SECONDS := -62_135_596_800
  const MAX_SECONDS := 253_402_300_799
  const MIN_TIME := MIN_SECONDS * NANOSECONDS
  const MAX_TIME := MAX_SECONDS * NANOSECONDS + NANOSECONDS - 1
  const MAX_DURATION: int := 0x7FFF_FFFF_FFFF_FFFF
  const MIN_DURATION: int := -0x8000_0000_0000_0000

  predicate IsValid(t: Timestamp) {
    MIN_SECONDS <= t.seconds <= MAX_SECONDS && 0 <= t.nanos < NANOSECONDS
  }

  function AsTime(t: Timestamp): int {
    t.seconds * NANOSECONDS + t.nanos
  }

  function FromTime(t: int): Timestamp
    requires MIN_TIME <= t <= MAX_TIME
  {
    Timestamp(t / NANOSECONDS, t % NANOSECONDS)
  }

  lemma TimeRoundTrip(t: int)
    requires MIN_TIME <= t <= MAX_TIME
    ensures IsValid(FromTime(t)) && AsTime(FromTime(t)) == t
  {
  }

  /** The distance to 1970, which a duration cannot hold for all points in time. */
  function SinceUnixEpoch(t: int): (d: int)
    ensures MIN_DURATION <= d <= MAX_DURATION
  {
    if t < MIN_DURATION then MIN_DURATION else if t > MAX_DURATION then MAX_DURATION else t
  }

  /** Integer division that rounds towards zero. */
  function Quotient(a: int, b: int): int
    requires b > 0
  {
    if a >= 0 then a / b else -((-a) / b)
  }

  type Age = a: int | 0 < a <= 0x7FFF_FFFF_FFFF_FFFF witness 1

  function TimeToEpoch(age: Age, t: int): int {
    Quotient(SinceUnixEpoch(t), age)
  }

  datatype ReadError = Unavailable | InvalidCreationTime | OutsideEpoch

  /** The outcome of reading a state file, and whether the reader was closed. */
  datatype Outcome = Outcome(result: Result<RootDirectory, ReadError>, closed: bool)

  function Read(age: Age, base: Option<RootDirectory>, now: int): Outcome {
    if base == None then Outcome(Failure(Unavailable), false)
    else
      var t := base.value.initialCreationTime;
      if t == None || !IsValid(t.value) then Outcome(Failure(InvalidCreationTime), true)
      else if TimeToEpoch(age, AsTime(t.value)) != TimeToEpoch(age, now) then Outcome(Failure(OutsideEpoch), true)
      else Outcome(Success(base.value), false)
  }

  /** The creation time of an output path at its first use after a restart. */
  function StartInitialBuild(read: Outcome, now: int): Timestamp
    requires MIN_TIME <= now <= MAX_TIME
  {
    match read.result
    case Failure(_) => FromTime(now)
    case Success(rootDirectory) =>
      if rootDirectory.contents == None || rootDirectory.initialCreationTime == None then FromTime(now)
      else rootDirectory.initialCreationTime.value
  }

  /** A state file is accepted exactly if it can be read, has a creation time between
      the years 1 and 9999, and that is of the current epoch. A file that was opened
      but is not accepted is closed again. */
  lemma AcceptsExactly(age: Age, base: Option<RootDirectory>, now: int)
    ensures var read := Read(age, base, now);
            && (read.result.Success? <==>
                && base.Some? && base.value.initialCreationTime.Some?
                && var t := base.value.initialCreationTime.value;
                && -62_135_596_800 <= t.seconds <= 253_402_300_799 && 0 <= t.nanos <= 999_999_999
                && TimeToEpoch(age, t.seconds * 1_000_000_000 + t.nanos) == TimeToEpoch(age, now))
            && (read.result.Success? ==> read.result.value == base.value)
            && (read.closed <==> base.Some? && read.result.Failure?)
  {
  }

  /** A state file that was saved with a valid creation time keeps that time if it
      is of the current epoch and has contents, and makes room for a new output path
      otherwise. */
  lemma CreationTimeOfSavedFile(age: Age, saved: int, contents: Option<Directory>, now: int)
    requires MIN_TIME <= saved <= MAX_TIME && MIN_TIME <= now <= MAX_TIME
    ensures var read := Read(age, Some(RootDirectory(Some(FromTime(saved)), contents)), now);
            && read.closed == read.result.Failure?
            && AsTime(StartInitialBuild(read, now)) ==
               if contents.Some? && TimeToEpoch(age, saved) == TimeToEpoch(age, now) then saved else now
  {
    TimeRoundTrip(saved);
    TimeRoundTrip(now);
  }

  // How far apart two points of the same epoch can be.

  lemma Multiples(x: int, y: int, b: int)
    requires b > 0 && x < y
    ensures x * b + b <= y * b
  {
    Products(x + 1, y, b);
    assert (x + 1) * b == x * b + b;
  }

  lemma Products(x: int, y: int, b: int)
    requires b > 0 && x <= y
    ensures x * b <= y * b
  {
  }

  lemma FloorBounds(a: nat, b: int)
    requires b > 0
    ensures (a / b) * b <= a < (a / b) * b + b
    ensures a / b == 0 <==> a < b
  {
    assert a == b * (a / b) + a % b;
    if a / b > 0 {
      Multiples(0, a / b, b);
    }
  }

  lemma QuotientBounds(a: int, b: int)
    requires b > 0
    ensures var q := Quotient(a, b);
            && (q > 0 ==> q * b <= a < q * b + b)
            && (q == 0 <==> -b < a < b)
            && (q < 0 ==> q * b - b < a <= q * b)
            && (a >= 0 ==> q >= 0) && (a <= 0 ==> q <= 0)
  {
    if a >= 0 {
      FloorBounds(a, b);
    } else {
      FloorBounds(-a, b);
      assert Quotient(a, b) * b == -(((-a) / b) * b);
    }
  }

  lemma QuotientIsMonotonic(a: int, a': int, b: int)
    requires b > 0 && a <= a'
    ensures Quotient(a, b) <= Quotient(a', b)
  {
    var q, q' := Quotient(a, b), Quotient(a', b);
    QuotientBounds(a, b);
    QuotientBounds(a', b);
    hide Quotient;
    if q > q' {
      Multiples(q', q, b);
    }
  }

  lemma EpochIsMonotonic(age: Age, t: int, t': int)
    requires t <= t'
    ensures TimeToEpoch(age, t) <= TimeToEpoch(age, t')
  {
    QuotientIsMonotonic(SinceUnixEpoch(t), SinceUnixEpoch(t'), age);
  }

  function EpochStart(age: Age, q: nat): nat {
    q * age
  }

  /** Since 1970, epochs are the intervals between multiples of the age limit. */
  lemma EpochsAreIntervals(age: Age, a: int, b: int)
    requires 0 <= a <= b <= MAX_DURATION
    ensures TimeToEpoch(age, a) == TimeToEpoch(age, b) <==>
            exists q: nat :: EpochStart(age, q) <= a && b < EpochStart(age, q + 1)
  {
    var qa, qb := Quotient(a, age), Quotient(b, age);
    QuotientBounds(a, age);
    QuotientBounds(b, age);
    if qa == qb {
      assert EpochStart(age, qa + 1) == qa * age + age;
      assert EpochStart(age, qa) <= a && b < EpochStart(age, qa + 1);
    }
    if q: nat :| EpochStart(age, q) <= a && b < EpochStart(age, q + 1) {
      assert EpochStart(age, q + 1) == q * age + age;
      InEpoch(age, a, q);
      InEpoch(age, b, q);
    }
  }

  lemma InEpoch(age: Age, t: int, q: nat)
    requires q * age <= t < q * age + age
    ensures Quotient(t, age) == q
  {
    var r := Quotient(t, age);
    QuotientBounds(t, age);
    if r < q {
      Multiples(r, q, age);
    } else if q < r {
      Multiples(q, r, age);
    }
  }

  /** Epochs that extend beyond what a duration can hold. */
  predicate Unbounded(age: Age, now: int) {
    TimeToEpoch(age, now) == TimeToEpoch(age, MAX_DURATION) || TimeToEpoch(age, now) == TimeToEpoch(age, MIN_DURATION)
  }

  function Distance(a: int, b: int): nat {
    if a < b then b - a else a - b
  }

  /** Whether everything that can be read at a moment is younger than the limit. */
  ghost predicate AgeIsBounded(age: Age, now: int) {
    forall t :: MIN_TIME <= t <= MAX_TIME && TimeToEpoch(age, t) == TimeToEpoch(age, now) ==> Distance(now, t) < age
  }

  lemma BoundedEpoch(age: Age, t: int)
    requires !Unbounded(age, t)
    ensures SinceUnixEpoch(t) == t
  {
  }

  lemma EpochIsNarrow(age: Age, now: int, t: int)
    requires !Unbounded(age, now) && TimeToEpoch(age, t) == TimeToEpoch(age, now)
    requires now == 0 || Distance(now, 0) >= age || (now > 0 && t >= 0)
    ensures Distance(now, t) < age
  {
    BoundedEpoch(age, now);
    BoundedEpoch(age, t);
    QuotientBounds(now, age);
    QuotientBounds(t, age);
  }

  /** The limit holds at a moment exactly if that lies outside the first epoch on
      either side of 1970, which are one and the same, and in an epoch of which
      durations can express the end. */
  lemma AgeBoundIsExact(age: Age, now: int)
    requires MIN_TIME <= now <= MAX_TIME
    ensures AgeIsBounded(age, now) <==> (now == 0 || Distance(now, 0) >= age) && !Unbounded(age, now)
  {
    if (now == 0 || Distance(now, 0) >= age) && !Unbounded(age, now) {
      forall t | MIN_TIME <= t <= MAX_TIME && TimeToEpoch(age, t) == TimeToEpoch(age, now)
        ensures Distance(now, t) < age
      {
        EpochIsNarrow(age, now, t);
      }
    } else {
      var t := TooOld(age, now);
      assert !(TimeToEpoch(age, t) == TimeToEpoch(age, now) ==> Distance(now, t) < age);
    }
  }

  /** A creation time that is accepted although it is too far away. */
  lemma TooOld(age: Age, now: int) returns (t: int)
    requires MIN_TIME <= now <= MAX_TIME
    requires !(now == 0 || Distance(now, 0) >= age) || Unbounded(age, now)
    ensures MIN_TIME <= t <= MAX_TIME && TimeToEpoch(age, t) == TimeToEpoch(age, now) && Distance(now, t) >= age
  {
    if Unbounded(age, now) {
      if TimeToEpoch(age, now) == TimeToEpoch(age, MAX_DURATION) {
        t := if now <= 2 * MAX_DURATION then MAX_TIME else MAX_DURATION;
      } else {
        t := if now >= 2 * MIN_DURATION then MIN_TIME else MIN_DURATION;
      }
    } else {
      t := if now > 0 then 1 - age else age - 1;
      QuotientBounds(t, age);
      QuotientBounds(now, age);
    }
  }

  /** From 1970 on, only the epoch of which durations cannot express the end is
      too long. */
  lemma AgeIsBoundedSince1970(age: Age, read: RootDirectory, now: int)
    ensures now >= 0 && Read(age, Some(read), now).result.Success? && !Unbounded(age, now) ==>
              var t := AsTime(read.initialCreationTime.value);
              t >= 0 ==> Distance(now, t) < age
  {
    if now >= 0 && Read(age, Some(read), now).result.Success? && !Unbounded(age, now)
       && AsTime(read.initialCreationTime.value) >= 0 {
      EpochIsNarrow(age, now, AsTime(read.initialCreationTime.value));
    }
  }

  // Sequences of builds, saves and restarts.

  type Instant = t: int | -62_135_596_800_000_000_000 <= t <= 253_402_300_799_999_999_999

  /** An output path over time: the creation time that it has in memory, its state
      file, and when it was last started without usable state. */
  datatype Life = Life(now: Instant, loaded: Option<Timestamp>, file: Option<RootDirectory>, lastFresh: Option<Timestamp>)

  datatype LifeEvent =
    | Start(readable: bool)
    | Save(contents: Directory)
    | Restart
    | Clean
    | Tick(now: Instant)

  /** State that a start takes over. */
  predicate IsRestored(read: Outcome) {
    && read.result.Success?
    && read.result.value.contents.Some?
    && read.result.value.initialCreationTime.Some?
  }

  function React(age: Age, l: Life, e: LifeEvent): Life {
    match e
    case Start(readable) =>
      if l.loaded.Some? then l
      else
        var read := Read(age, if readable then l.file else None, l.now);
        l.(loaded := Some(StartInitialBuild(read, l.now)),
           lastFresh := if IsRestored(read) then l.lastFresh else Some(FromTime(l.now)))
    case Save(contents) =>
      if l.loaded.Some? then l.(file := Some(RootDirectory(l.loaded, Some(contents)))) else l
    case Restart => l.(loaded := None)
    case Clean => l.(loaded := None, file := None)
    case Tick(now) => if l.now <= now then l.(now := now) else l
  }

  function ReactAll(age: Age, l: Life, events: seq<LifeEvent>): Life {
    if events == [] then l else React(age, ReactAll(age, l, events[..|events| - 1]), events[|events| - 1])
  }

  function NewLife(now: Instant): Life {
    Life(now, None, None, None)
  }

  /** A start that could have taken over the state file, but fails to read it. */
  predicate Misses(age: Age, l: Life, e: LifeEvent) {
    && e == Start(false)
    && l.loaded == None
    && IsRestored(Read(age, l.file, l.now))
    && l.file.value.initialCreationTime != Some(FromTime(l.now))
  }

  /** No event of a sequence misses a state file. */
  predicate Attentive(age: Age, l: Life, events: seq<LifeEvent>) {
    events == [] ||
    var n := |events| - 1;
    Attentive(age, l, events[..n]) && !Misses(age, ReactAll(age, l, events[..n]), events[n])
  }

  /** The creation time is that of the last start without usable state. */
  predicate IsOfLastFreshStart(l: Life) {
    l.loaded.Some? ==> l.loaded == l.lastFresh
  }

  /** And will be, whatever happens, as long as no further state file is missed. */
  ghost predicate StaysOfLastFreshStart(age: Age, l: Life) {
    forall events :: Attentive(age, l, events) ==> IsOfLastFreshStart(ReactAll(age, l, events))
  }

  predicate IsPast(t: Timestamp, now: Instant) {
    IsValid(t) && AsTime(t) <= now
  }

  /** What can be in a state file: nothing that was fresh more recently than the
      output path, unless its epoch is over. */
  predicate FileIsOld(age: Age, l: Life) {
    l.file.Some? ==>
      && l.file.value.contents.Some? && l.file.value.initialCreationTime.Some? && l.lastFresh.Some?
      && var t := l.file.value.initialCreationTime.value;
      && IsPast(t, l.now)
      && (Some(t) == l.lastFresh || TimeToEpoch(age, AsTime(t)) < TimeToEpoch(age, AsTime(l.lastFresh.value)))
  }

  predicate LifeInvariant(age: Age, l: Life) {
    && (l.lastFresh.Some? ==> IsPast(l.lastFresh.value, l.now))
    && IsOfLastFreshStart(l)
    && FileIsOld(age, l)
  }

  lemma FreshTime(now: Instant)
    ensures IsPast(FromTime(now), now) && AsTime(FromTime(now)) == now
  {
    TimeRoundTrip(now);
  }

  /** One event keeps the invariant exactly if it does not miss a state file. */
  lemma ReactKeepsInvariantExactly(age: Age, l: Life, e: LifeEvent)
    requires LifeInvariant(age, l)
    ensures LifeInvariant(age, React(age, l, e)) <==> !Misses(age, l, e)
  {
    hide TimeToEpoch, FromTime;
    FreshTime(l.now);
    if l.file.Some? {
      EpochIsMonotonic(age, AsTime(l.file.value.initialCreationTime.value), l.now);
      EpochIsMonotonic(age, AsTime(l.lastFresh.value), l.now);
    }
  }

  lemma {:induction false} AttentiveKeepsInvariant(age: Age, l: Life, events: seq<LifeEvent>)
    requires LifeInvariant(age, l) && Attentive(age, l, events)
    ensures LifeInvariant(age, ReactAll(age, l, events))
  {
    if events != [] {
      var n := |events| - 1;
      AttentiveKeepsInvariant(age, l, events[..n]);
      ReactKeepsInvariantExactly(age, ReactAll(age, l, events[..n]), events[n]);
    }
  }

  /** A missed state file comes back: after one more restart, an output path that
      starts at the same moment has the creation time from before. */
  lemma MissedFilesComeBack(age: Age, l: Life, e: LifeEvent)
    requires LifeInvariant(age, l) && Misses(age, l, e)
    ensures !StaysOfLastFreshStart(age, React(age, l, e))
  {
    var missed := React(age, l, e);
    var restarted := React(age, missed, Restart);
    var events := [Restart] + [Start(true)];
    assert events[..1] == [Restart] && [Restart][..0] == [];
    assert ReactAll(age, missed, []) == missed && ReactAll(age, missed, [Restart]) == restarted;
    assert Attentive(age, missed, []) && Attentive(age, missed, [Restart]) && Attentive(age, missed, events);
    assert ReactAll(age, missed, events) == React(age, restarted, Start(true));
  }

  /** The creation time of an output path stays that of the last start without
      usable state, throughout a run and whatever follows, if and only if no start
      of the run fails to read a state file that it could have taken over. */
  lemma CreationTimeIsKeptExactly(age: Age, now: Instant, events: seq<LifeEvent>)
    ensures (forall k :: 0 <= k <= |events| ==> StaysOfLastFreshStart(age, ReactAll(age, NewLife(now), events[..k])))
            <==> Attentive(age, NewLife(now), events)
  {
    hide Attentive, LifeInvariant, StaysOfLastFreshStart, React, Misses;
    LifeBegins(age, now);
    if Attentive(age, NewLife(now), events) {
      forall k | 0 <= k <= |events| ensures StaysOfLastFreshStart(age, ReactAll(age, NewLife(now), events[..k])) {
        PrefixIsAttentive(age, NewLife(now), events, k);
        AttentiveKeepsInvariant(age, NewLife(now), events[..k]);
        InvariantStays(age, ReactAll(age, NewLife(now), events[..k]));
      }
    } else {
      var k := FirstMiss(age, NewLife(now), events);
      AttentiveKeepsInvariant(age, NewLife(now), events[..k]);
      MissedFilesComeBack(age, ReactAll(age, NewLife(now), events[..k]), events[k]);
      assert events[..k + 1][..k] == events[..k];
      assert ReactAll(age, NewLife(now), events[..k + 1]) == React(age, ReactAll(age, NewLife(now), events[..k]), events[k]);
      assert !StaysOfLastFreshStart(age, ReactAll(age, NewLife(now), events[..k + 1]));
    }
  }

  lemma LifeBegins(age: Age, now: Instant)
    ensures LifeInvariant(age, NewLife(now))
  {
  }

  lemma InvariantStays(age: Age, l: Life)
    requires LifeInvariant(age, l)
    ensures StaysOfLastFreshStart(age, l)
  {
    forall events | Attentive(age, l, events) ensures IsOfLastFreshStart(ReactAll(age, l, events)) {
      AttentiveKeepsInvariant(age, l, events);
    }
  }

  lemma {:induction false} PrefixIsAttentive(age: Age, l: Life, events: seq<LifeEvent>, k: nat)
    requires Attentive(age, l, events) && k <= |events|
    ensures Attentive(age, l, events[..k])
  {
    if k == |events| {
      assert events[..k] == events;
    } else {
      PrefixIsAttentive(age, l, events[..|events| - 1], k);
      assert events[..|events| - 1][..k] == events[..k];
    }
  }

  lemma {:induction false} FirstMiss(age: Age, l: Life, events: seq<LifeEvent>) returns (k: nat)
    requires !Attentive(age, l, events)
    ensures k < |events| && Attentive(age, l, events[..k]) && Misses(age, ReactAll(age, l, events[..k]), events[k])
  {
    var n := |events| - 1;
    if Attentive(age, l, events[..n]) {
      k := n;
    } else {
      k := FirstMiss(age, l, events[..n]);
      assert events[..n][..k] == events[..k];
    }
  }

  /** After a Clean there is nothing to take over. */
  lemma CleanStartsAfresh(age: Age, l: Life, readable: bool)
    ensures var l' := React(age, React(age, l, Clean), Start(readable));
            l'.loaded == Some(FromTime(l.now)) && l'.lastFresh == Some(FromTime(l.now))
  {
  }

  /** An output path that is saved, missed once, and found again: its creation time
      is older than its last start without usable state. */
  lemma UnreadableFilesComeBack(age: Age, now: Instant, contents: Directory) returns (events: seq<LifeEvent>)
    requires now < MAX_TIME && TimeToEpoch(age, now) == TimeToEpoch(age, now + 1)
    ensures var l := ReactAll(age, NewLife(now), events);
            l.loaded == Some(FromTime(now)) && l.lastFresh == Some(FromTime(now + 1)) && l.loaded != l.lastFresh
  {
    hide TimeToEpoch, FromTime;
    FreshTime(now);
    FreshTime(now + 1);
    var l := NewLife(now);
    events := [];
    events := Then(age, l, events, Start(true));
    events := Then(age, l, events, Save(contents));
    events := Then(age, l, events, Restart);
    events := Then(age, l, events, Tick(now + 1));
    events := Then(age, l, events, Start(false));
    events := Then(age, l, events, Restart);
    events := Then(age, l, events, Start(true));
  }

  lemma Then(age: Age, l: Life, events: seq<LifeEvent>, e: LifeEvent) returns (events': seq<LifeEvent>)
    ensures ReactAll(age, l, events') == React(age, ReactAll(age, l, events), e)
  {
    events' := events + [e];
    assert events'[..|events|] == events;
  }

  /** What a start takes over is younger than the limit, at any time from 1970 until
      the last epoch that durations can express. */
  lemma RestoredStateIsYoung(age: Age, l: Life)
    requires LifeInvariant(age, l) && IsRestored(Read(age, l.file, l.now))
    requires l.now >= 0 && !Unbounded(age, l.now) && AsTime(l.file.value.initialCreationTime.value) >= 0
    ensures l.file.value.initialCreationTime == l.lastFresh
    ensures l.now - AsTime(l.lastFresh.value) < age
  {
    EpochIsMonotonic(age, AsTime(l.lastFresh.value), l.now);
    AgeIsBoundedSince1970(age, l.file.value, l.now);
  }
}
