/** How fast one key can be admitted, however many attempts are in flight at once. */
module ThrottleRate {
  import opened Wrappers
  import opened LoginThrottle

  /** One operation on the table, with the clock reading it was called with. The source
      takes the reading before it takes the lock, so readings need not reach the table
      in order. */
  datatype Event =
    | Begin(keys: seq<Key>, now: nat)
    | Fail(keys: seq<Key>, now: nat)
    | Succeed(keys: seq<Key>)
    | Cancel(keys: seq<Key>)

  predicate WellFormed(e: Event) {
    DistinctKeys(e.keys)
  }

  function Step(t: Table, e: Event): Table {
    match e
    case Begin(keys, now) => BeginTable(t, keys, now, true)
    case Fail(keys, now) => FailAll(t, keys, now)
    case Succeed(keys) => ClearAll(t, keys)
    case Cancel(keys) => ReleaseAll(t, keys)
  }

  function Run(t: Table, events: seq<Event>): Table
    decreases |events|
  {
    if events == [] then t else Run(Step(t, events[0]), events[1..])
  }

  predicate Admits(t: Table, e: Event) {
    e.Begin? && BeginWait(t, e.keys, e.now, true) == 0
  }

  /** The clock readings at which `k` was admitted, in order. */
  function Admissions(t: Table, events: seq<Event>, k: Key): seq<nat>
    decreases |events|
  {
    if events == [] then []
    else
      var rest := Admissions(Step(t, events[0]), events[1..], k);
      if Admits(t, events[0]) && k in events[0].keys then [events[0].now] + rest else rest
  }

  /** An operation that does not relieve `k`: no success or cancel on it, and no idle
      reset of it. */
  predicate Keeps(t: Table, e: Event, k: Key) {
    match e
    case Begin(keys, now) => k in t ==> !Idle(t[k], now)
    case Fail(keys, now) => true
    case Succeed(keys) => k !in keys
    case Cancel(keys) => k !in keys
  }

  predicate Calm(t: Table, events: seq<Event>, k: Key)
    decreases |events|
  {
    events == [] || (WellFormed(events[0]) && Keeps(t, events[0], k) && Calm(Step(t, events[0]), events[1..], k))
  }

  /** Whenever `k` is admitted while it is being delayed, the reading in its entry is not
      older than `last`, that of the admission before. */
  predicate Current(t: Table, events: seq<Event>, k: Key, last: nat)
    decreases |events|
  {
    events == []
    || (var e := events[0];
        if Admits(t, e) && k in e.keys then
          (k in t && Penalty(t[k]) > 0 ==> t[k].lastSeen >= last) && Current(Step(t, e), events[1..], k, e.now)
        else Current(Step(t, e), events[1..], k, last))
  }

  /** After `n` admissions of `k` at least `n` attempts count against it. */
  ghost predicate Charged(t: Table, k: Key, n: nat) {
    n > 0 ==> k in t && t[k].failures as int + t[k].inFlight as int >= Min(n, U32_MAX)
  }

  lemma PruneKeeps(t: Table, now: nat, k: Key)
    requires k in t ==> !Idle(t[k], now)
    ensures At(Prune(t, now), k) == At(t, k)
  {
  }

  /** Every operation keeps the charge and an admission adds one to it, whatever its
      reading; and none comes before the delay for the charge so far has passed since the
      reading in the entry. */
  lemma StepCharges(t: Table, e: Event, k: Key, n: nat)
    requires WellFormed(e) && Keeps(t, e, k) && Charged(t, k, n)
    ensures Charged(Step(t, e), k, if Admits(t, e) && k in e.keys then n + 1 else n)
    ensures Admits(t, e) && k in e.keys && Delay(n) > 0 ==> Penalty(t[k]) > 0 && e.now >= t[k].lastSeen + Delay(n)
  {
    match e
    case Begin(keys, now) =>
      PruneKeeps(t, now, k);
      var start := Prune(t, now);
      AdmitsIff(start, keys, now);
      ReserveAllAt(start, keys, now, k);
      if Admits(t, e) && k in keys && n > 0 {
        assert At(start, k) == Some(t[k]);
        assert Remaining(start[k], now) == 0;
        ChargedDelay(t[k], n);
      }
    case Fail(keys, now) =>
      FailAllAt(t, keys, now, k);
    case Succeed(keys) =>
      ClearAllAt(t, keys, k);
    case Cancel(keys) =>
      ReleaseAllAt(t, keys, k);
  }

  lemma ChargedDelay(e: Entry, n: nat)
    requires e.failures as int + e.inFlight as int >= Min(n, U32_MAX)
    ensures Penalty(e) >= Delay(n)
  {
    var count := SatAdd(e.failures, e.inFlight) as int;
    DelayGrows(Min(n, U32_MAX), count);
    DelayValues(n);
    DelayValues(U32_MAX);
  }

  /** Each admission that is delayed at all comes at least the delay for all admissions
      before it after the one before, starting from `n` of them with the last at `last`. */
  ghost predicate Spaced(times: seq<nat>, n: nat, last: nat) {
    forall j :: 0 <= j < |times| && Delay(n + j) > 0 ==> times[j] >= Due(times, n, last, j)
  }

  /** When admission `j` is due at the earliest. */
  function Due(times: seq<nat>, n: nat, last: nat, j: nat): nat
    requires j < |times|
  {
    Before(times, last, j) + Delay(n + j)
  }

  function Before(times: seq<nat>, last: nat, j: nat): nat
    requires j <= |times|
  {
    if j == 0 then last else times[j - 1]
  }

  lemma {:induction false} RunSpaced(t: Table, events: seq<Event>, k: Key, n: nat, last: nat)
    requires Calm(t, events, k) && Charged(t, k, n) && Current(t, events, k, last)
    ensures Spaced(Admissions(t, events, k), n, last)
    decreases |events|
  {
    if events != [] {
      var e := events[0];
      StepCharges(t, e, k, n);
      if Admits(t, e) && k in e.keys {
        RunSpaced(Step(t, e), events[1..], k, n + 1, e.now);
        SpacedCons(e.now, Admissions(Step(t, e), events[1..], k), n, last);
      } else {
        RunSpaced(Step(t, e), events[1..], k, n, last);
      }
    }
  }

  lemma SpacedCons(now: nat, rest: seq<nat>, n: nat, last: nat)
    requires Spaced(rest, n + 1, now)
    requires Delay(n) > 0 ==> now >= last + Delay(n)
    ensures Spaced([now] + rest, n, last)
  {
    var times := [now] + rest;
    forall j | 0 <= j < |times| && Delay(n + j) > 0
      ensures times[j] >= Due(times, n, last, j)
    {
      if j > 0 {
        BeforeCons(now, rest, last, j);
        assert n + 1 + (j - 1) == n + j;
        assert rest[j - 1] >= Due(rest, n + 1, now, j - 1);
      }
    }
  }

  lemma BeforeCons(now: nat, rest: seq<nat>, last: nat, j: nat)
    requires 0 < j <= |rest|
    ensures ([now] + rest)[j] == rest[j - 1] && Before([now] + rest, last, j) == Before(rest, now, j - 1)
  {
  }

  /** The rate bound: from any table, in a run that does not relieve `k` and whose
      admissions of it find a current reading, the n-th that is delayed comes at least the
      delay for n - 1 attempts after the one before it. */
  lemma AdmissionsSpaced(t: Table, events: seq<Event>, k: Key, n: nat)
    requires Calm(t, events, k) && Current(t, events, k, 0)
    requires 5 <= n <= |Admissions(t, events, k)|
    ensures Admissions(t, events, k)[n - 1] >= Admissions(t, events, k)[n - 2] + Delay(n - 1)
  {
    RunSpaced(t, events, k, 0, 0);
    var times := Admissions(t, events, k);
    assert Delay(n - 1) > 0 ==> times[n - 1] >= Due(times, 0, 0, n - 1);
    DelayGrows(4, n - 1);
    DelayValues(0);
  }

  /** What the delays add up to over `n` admissions. */
  function Span(n: nat): nat {
    if n <= 1 then 0 else Span(n - 1) + Delay(n - 1)
  }

  lemma {:induction false} SpanValue(n: nat)
    requires n >= 13
    ensures Span(n) == (511 + 300 * (n - 13)) * SECOND
  {
    DelayValues(n - 1);
    if n > 13 {
      SpanValue(n - 1);
    } else {
      assert Delay(0) == Delay(1) == Delay(2) == Delay(3) == 0;
      assert Span(4) == 0;
      assert Span(7) == 7 * SECOND;
      assert Span(10) == 63 * SECOND;
      assert Span(13) == 511 * SECOND;
    }
  }

  /** From the fourth admission on; the three before it are free. */
  lemma {:induction false} TotalSpan(t: Table, events: seq<Event>, k: Key, n: nat)
    requires Calm(t, events, k) && Current(t, events, k, 0)
    requires 4 <= n <= |Admissions(t, events, k)|
    ensures Admissions(t, events, k)[n - 1] >= Admissions(t, events, k)[3] + Span(n)
  {
    if n > 4 {
      TotalSpan(t, events, k, n - 1);
      AdmissionsSpaced(t, events, k, n);
    } else {
      assert Span(1) == 0 && Span(2) == 0 && Span(3) == 0 && Span(4) == 0;
    }
  }

  /** So guessing slows to one attempt in five minutes: from the fourth admission of a key
      to the n-th is at least 511 + 300 (n - 13) seconds, and from the first on when the
      first four have their readings in order. */
  lemma GuessingRate(t: Table, events: seq<Event>, k: Key, n: nat)
    requires Calm(t, events, k) && Current(t, events, k, 0)
    requires 13 <= n <= |Admissions(t, events, k)|
    ensures var times := Admissions(t, events, k);
            && times[n - 1] - times[3] >= (511 + 300 * (n - 13)) * SECOND
            && (times[0] <= times[3] ==> times[n - 1] - times[0] >= (511 + 300 * (n - 13)) * SECOND)
  {
    TotalSpan(t, events, k, n);
    SpanValue(n);
  }

  // ---------- Readings that arrive out of order ----------

  /** Every reading used on `k` is at least the one in its entry. */
  predicate ReadingsInOrder(t: Table, events: seq<Event>, k: Key)
    decreases |events|
  {
    events == []
    || (var e := events[0];
        ((e.Begin? || e.Fail?) && k in e.keys && k in t ==> t[k].lastSeen <= e.now)
        && ReadingsInOrder(Step(t, e), events[1..], k))
  }

  /** That is enough for every admission to find a current reading, but it is not needed: a
      stale failure does no harm when a later one precedes the next admission. */
  lemma {:induction false} InOrderIsCurrent(t: Table, events: seq<Event>, k: Key, last: nat)
    requires Calm(t, events, k) && ReadingsInOrder(t, events, k)
    requires k in t ==> t[k].lastSeen >= last
    requires k !in t ==> last == 0
    ensures Current(t, events, k, last)
    decreases |events|
  {
    if events != [] {
      var e := events[0];
      EntryFollows(t, e, k);
      InOrderIsCurrent(Step(t, e), events[1..], k, if Admits(t, e) && k in e.keys then e.now else last);
    }
  }

  /** What an operation makes of the reading in an entry. */
  lemma EntryFollows(t: Table, e: Event, k: Key)
    requires WellFormed(e) && Keeps(t, e, k)
    ensures var touched := k in e.keys && (Admits(t, e) || e.Fail?);
            At(Step(t, e), k).None? == (At(t, k).None? && !touched)
            && (At(Step(t, e), k).Some? ==> Step(t, e)[k].lastSeen == if touched then e.now else t[k].lastSeen)
  {
    match e
    case Begin(keys, now) =>
      PruneKeeps(t, now, k);
      ReserveAllAt(Prune(t, now), keys, now, k);
    case Fail(keys, now) =>
      FailAllAt(t, keys, now, k);
    case Succeed(keys) =>
      ClearAllAt(t, keys, k);
    case Cancel(keys) =>
      ReleaseAllAt(t, keys, k);
  }

  lemma {:induction false} AdmissionsAppend(t: Table, events: seq<Event>, e: Event, k: Key)
    ensures Admissions(t, events + [e], k) ==
            Admissions(t, events, k) + if Admits(Run(t, events), e) && k in e.keys then [e.now] else []
    decreases |events|
  {
    if events == [] {
      assert events + [e] == [e] && [e][1..] == [];
    } else {
      assert (events + [e])[0] == events[0] && (events + [e])[1..] == events[1..] + [e];
      AdmissionsAppend(Step(t, events[0]), events[1..], e, k);
    }
  }

  /** An attempt on `k` alone that is admitted next, and comes before the penalty has
      passed since the last admission. */
  ghost predicate EarlyNext(t: Table, events: seq<Event>, k: Key, now: nat)
    requires Admissions(t, events, k) != [] && k in Run(t, events)
  {
    var times, e := Admissions(t, events, k), Run(t, events)[k];
    && !Idle(e, now)
    && Admissions(t, events + [Begin([k], now)], k) == times + [now]
    && now < times[|times| - 1] + Penalty(e)
  }

  /** And there the bound ends: after any run that leaves a key delayed, its next admission
      can come early if and only if the reading in the entry is older than that of the last
      admission. */
  lemma NextCanBeEarlyIff(t: Table, events: seq<Event>, k: Key)
    requires Admissions(t, events, k) != [] && k in Run(t, events) && Penalty(Run(t, events)[k]) > 0
    ensures var times := Admissions(t, events, k);
            (exists now :: EarlyNext(t, events, k, now)) <==> Run(t, events)[k].lastSeen < times[|times| - 1]
  {
    var e, times := Run(t, events)[k], Admissions(t, events, k);
    var first := e.lastSeen + Penalty(e);
    forall now: nat
      ensures EarlyNext(t, events, k, now) <==> !Idle(e, now) && first <= now < times[|times| - 1] + Penalty(e)
    {
      EarlyNextIs(t, events, k, now);
    }
    assert !Idle(e, first);
    assert e.lastSeen < times[|times| - 1] ==> EarlyNext(t, events, k, first);
  }

  lemma EarlyNextIs(t: Table, events: seq<Event>, k: Key, now: nat)
    requires Admissions(t, events, k) != [] && k in Run(t, events) && Penalty(Run(t, events)[k]) > 0
    ensures var e, times := Run(t, events)[k], Admissions(t, events, k);
            EarlyNext(t, events, k, now) <==>
            !Idle(e, now) && e.lastSeen + Penalty(e) <= now < times[|times| - 1] + Penalty(e)
  {
    var times := Admissions(t, events, k);
    if !Idle(Run(t, events)[k], now) {
      AloneAdmitted(Run(t, events), k, now);
      AdmissionsAppend(t, events, Begin([k], now), k);
      Longer(times, now);
    }
  }

  lemma Longer(times: seq<nat>, now: nat)
    ensures times + [] != times + [now]
  {
    assert |times + []| != |times + [now]|;
  }

  lemma AloneAdmitted(t: Table, k: Key, now: nat)
    requires k in t && Penalty(t[k]) > 0 && !Idle(t[k], now)
    ensures Admits(t, Begin([k], now)) <==> now >= t[k].lastSeen + Penalty(t[k])
  {
    PruneKeeps(t, now, k);
    assert At(Prune(t, now), k) == Some(t[k]);
    AdmitsIff(Prune(t, now), [k], now);
    assert k in [k];
  }

  function EarlyRun(k: Key): seq<Event> {
    [Begin([k], 0), Begin([k], 0), Begin([k], 0), Begin([k], 0),
     Begin([k], SECOND), Fail([k], 0), Begin([k], 2 * SECOND)]
  }

  /** A reading taken before the lock and used after a later admission lets the following
      one come early: here after one second where two were due. The key is not relieved in
      this run; it is the current reading that is missing. */
  lemma StaleReadingBreaksRate(k: Key)
    ensures Admissions(map[], EarlyRun(k), k) == [0, 0, 0, 0, SECOND, 2 * SECOND]
    ensures 2 * SECOND < SECOND + Delay(5)
    ensures Calm(map[], EarlyRun(k), k) && !Current(map[], EarlyRun(k), k, 0)
  {
    DelayValues(0);
    FirstFour(EarlyRun(k), k);
    CalmWithinTtl(map[], EarlyRun(k), k);
    if Current(map[], EarlyRun(k), k, 0) {
      AdmissionsSpaced(map[], EarlyRun(k), k, 6);
    }
  }

  /** Nothing is idle before the clock has run as long as an entry lives. */
  lemma {:induction false} CalmWithinTtl(t: Table, events: seq<Event>, k: Key)
    requires forall i :: 0 <= i < |events| ==>
               (events[i].Begin? || events[i].Fail?) && DistinctKeys(events[i].keys) && events[i].now < ENTRY_TTL
    ensures Calm(t, events, k)
    decreases |events|
  {
    if events != [] {
      CalmWithinTtl(Step(t, events[0]), events[1..], k);
    }
  }

  /** The same events, known by position. */
  predicate IsEarlyRun(e: seq<Event>, k: Key) {
    && |e| == 7 && (forall i :: 0 <= i < 4 ==> e[i] == Begin([k], 0))
    && e[4] == Begin([k], SECOND) && e[5] == Fail([k], 0) && e[6] == Begin([k], 2 * SECOND)
  }

  lemma LastThree(e: seq<Event>, k: Key)
    requires IsEarlyRun(e, k)
    ensures Admissions(map[k := Entry(0, 4, 0)], e[4..], k) == [SECOND, 2 * SECOND]
  {
    DelayValues(0);
    AdmissionStep(map[k := Entry(0, 4, 0)], e, 4, k);
    FailStep(map[k := Entry(0, 5, SECOND)], e, 5, k);
    AdmissionStep(map[k := Entry(1, 4, 0)], e, 6, k);
    assert e[7..] == [];
  }

  /** One free admission before a continuation known to take `rest`. */
  lemma FreeAdmission(e: seq<Event>, k: Key, n: nat, rest: seq<nat>)
    requires IsEarlyRun(e, k) && 1 <= n <= 3
    requires Admissions(map[k := Entry(0, n + 1, 0)], e[n + 1..], k) == rest
    ensures Admissions(map[k := Entry(0, n, 0)], e[n..], k) == [0] + rest
  {
    AdmissionStep(map[k := Entry(0, n, 0)], e, n, k);
  }

  lemma FirstAdmission(e: seq<Event>, k: Key, rest: seq<nat>)
    requires IsEarlyRun(e, k)
    requires Admissions(map[k := Entry(0, 1, 0)], e[1..], k) == rest
    ensures Admissions(map[], e, k) == [0] + rest
  {
    AdmissionStep(map[], e, 0, k);
    assert e[0..] == e;
  }

  lemma FourFree(a: nat, b: nat, c: nat)
    ensures [a] + ([a] + ([a] + ([a] + [b, c]))) == [a, a, a, a, b, c]
  {
  }

  lemma FirstFour(e: seq<Event>, k: Key)
    requires IsEarlyRun(e, k)
    ensures Admissions(map[], e, k) == [0, 0, 0, 0, SECOND, 2 * SECOND]
  {
    var last := [SECOND, 2 * SECOND];
    LastThree(e, k);
    FreeAdmission(e, k, 3, last);
    FreeAdmission(e, k, 2, [0] + last);
    FreeAdmission(e, k, 1, [0] + ([0] + last));
    FirstAdmission(e, k, [0] + ([0] + ([0] + last)));
    FourFree(0, SECOND, 2 * SECOND);
  }

  /** The table after one admission of a lone key. */
  lemma LoneBegin(t: Table, now: nat, k: Key)
    requires t.Keys <= {k}
    requires k in t ==> Remaining(t[k], now) == 0 && !Idle(t[k], now)
    ensures BeginWait(t, [k], now, true) == 0
    ensures var e := if k in t then t[k] else Entry(0, 0, now);
            BeginTable(t, [k], now, true) == map[k := Entry(e.failures, SatAdd(e.inFlight, 1), now)]
  {
    LoneKey(t, k);
    assert Prune(t, now) == t;
    assert [k][1..] == [];
    assert Wait(t, [k], now) == 0;
    var e := if k in t then t[k] else Entry(0, 0, now);
    assert ReserveAll(t, [k], now) == ReserveKey(t, k, now) == map[k := Entry(e.failures, SatAdd(e.inFlight, 1), now)];
  }

  lemma AdmissionStep(t: Table, events: seq<Event>, i: nat, k: Key)
    requires i < |events| && events[i].Begin? && events[i].keys == [k] && t.Keys <= {k}
    requires k in t ==> Remaining(t[k], events[i].now) == 0 && !Idle(t[k], events[i].now)
    ensures var e := if k in t then t[k] else Entry(0, 0, events[i].now);
            Admissions(t, events[i..], k) ==
            [events[i].now] + Admissions(map[k := Entry(e.failures, SatAdd(e.inFlight, 1), events[i].now)], events[i + 1..], k)
  {
    LoneBegin(t, events[i].now, k);
    assert events[i..][0] == events[i] && events[i..][1..] == events[i + 1..];
  }

  lemma LoneKey(t: Table, k: Key)
    requires t.Keys <= {k}
    ensures |t| <= 1
  {
    if t.Keys == {} {
      assert |t.Keys| == 0;
    } else {
      assert t.Keys == {k};
      assert |t.Keys| == 1;
    }
  }

  lemma FailStep(t: Table, events: seq<Event>, i: nat, k: Key)
    requires i < |events| && events[i].Fail? && events[i].keys == [k] && t.Keys == {k}
    ensures Admissions(t, events[i..], k) ==
            Admissions(map[k := Entry(SatAdd(t[k].failures, 1), SatSub(t[k].inFlight, 1), events[i].now)], events[i + 1..], k)
  {
    var now := events[i].now;
    assert [k][1..] == [];
    assert FailAll(t, [k], now) == FailKey(t, k, now);
    assert events[i..][1..] == events[i + 1..];
    assert FailKey(t, k, now) == map[k := Entry(SatAdd(t[k].failures, 1), SatSub(t[k].inFlight, 1), now)];
  }
}
