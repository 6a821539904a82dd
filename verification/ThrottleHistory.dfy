/** What the table remembers of a key: exactly what happened to the key since it was last
    forgotten, and for how long a refusal holds. */
module ThrottleHistory {
  import opened Wrappers
  import opened LoginThrottle
  import opened ThrottleRate
  import ThrottlePruning

  /** A key with nothing in flight that was last heard of an hour ago or more. */
  predicate Stale(t: Table, k: Key, now: nat) {
    k in t && t[k].inFlight == 0 && now >= t[k].lastSeen + 3_600_000_000_000
  }

  /** The three ways a key's failures are forgotten: an attempt on it succeeds, an attempt
      on it is admitted when it is stale, or an attempt on any key finds it stale in a table
      of more than 1024 entries. Nothing else forgets; a cancelled attempt does not. */
  predicate Forgets(t: Table, e: Event, k: Key) {
    match e
    case Begin(keys, now) => Stale(t, k, now) && (|t| > 1024 || (k in keys && Admits(t, e)))
    case Succeed(keys) => k in keys
    case _ => false
  }

  /** What an event adds to the failures recorded on `k` since it was last forgotten, to the
      attempts on it admitted and not resolved since the last success, and to the reading of
      the last attempt on it that was admitted or failed. */
  function Failures(t: Table, e: Event, k: Key, n: nat): nat {
    if Forgets(t, e, k) then 0 else if e.Fail? && k in e.keys then n + 1 else n
  }

  function Attempts(t: Table, e: Event, k: Key, n: nat): nat {
    if k !in e.keys then n
    else if e.Begin? then (if Admits(t, e) && n < 4_294_967_295 then n + 1 else n)
    else if e.Succeed? || n == 0 then 0
    else n - 1
  }

  function Reading(t: Table, e: Event, k: Key, last: nat): nat {
    if k in e.keys && (e.Fail? || Admits(t, e)) then e.now else last
  }

  /** The same over a run. */
  function Tally(t: Table, events: seq<Event>, k: Key, n: nat): nat
    decreases |events|
  {
    if events == [] then n else Tally(Step(t, events[0]), events[1..], k, Failures(t, events[0], k, n))
  }

  function Unresolved(t: Table, events: seq<Event>, k: Key, n: nat): nat
    decreases |events|
  {
    if events == [] then n else Unresolved(Step(t, events[0]), events[1..], k, Attempts(t, events[0], k, n))
  }

  function Heard(t: Table, events: seq<Event>, k: Key, last: nat): nat
    decreases |events|
  {
    if events == [] then last else Heard(Step(t, events[0]), events[1..], k, Reading(t, events[0], k, last))
  }

  /** An entry made of a history; a key with neither failures nor attempts has none. */
  function Remembered(failures: nat, inFlight: nat, last: nat): Option<Entry>
    requires inFlight <= 4_294_967_295
  {
    if failures == 0 && inFlight == 0 then None
    else Some(Entry(if failures < 4_294_967_295 then failures else 4_294_967_295, inFlight, last))
  }

  lemma BeginRemembers(t: Table, e: Event, k: Key, n: nat, i: nat, last: nat)
    requires WellFormed(e) && e.Begin? && i <= U32_MAX && At(t, k) == Remembered(n, i, last)
    ensures Attempts(t, e, k, i) <= U32_MAX
    ensures At(Step(t, e), k) == Remembered(Failures(t, e, k, n), Attempts(t, e, k, i), Reading(t, e, k, last))
  {
    ReserveAllAt(Prune(t, e.now), e.keys, e.now, k);
  }

  lemma StepRemembers(t: Table, e: Event, k: Key, n: nat, i: nat, last: nat)
    requires WellFormed(e) && i <= U32_MAX && At(t, k) == Remembered(n, i, last)
    ensures Attempts(t, e, k, i) <= U32_MAX
    ensures At(Step(t, e), k) == Remembered(Failures(t, e, k, n), Attempts(t, e, k, i), Reading(t, e, k, last))
  {
    match e
    case Begin(_, _) =>
      BeginRemembers(t, e, k, n, i, last);
    case Fail(keys, now) =>
      FailAllAt(t, keys, now, k);
    case Succeed(keys) =>
      ClearAllAt(t, keys, k);
    case Cancel(keys) =>
      ReleaseAllAt(t, keys, k);
  }

  lemma {:induction false} RunRemembers(t: Table, events: seq<Event>, k: Key, n: nat, i: nat, last: nat)
    requires forall j :: 0 <= j < |events| ==> WellFormed(events[j])
    requires i <= U32_MAX && At(t, k) == Remembered(n, i, last)
    ensures Unresolved(t, events, k, i) <= U32_MAX
    ensures At(Run(t, events), k) == Remembered(Tally(t, events, k, n), Unresolved(t, events, k, i), Heard(t, events, k, last))
    decreases |events|
  {
    if events != [] {
      var e := events[0];
      StepRemembers(t, e, k, n, i, last);
      RunRemembers(Step(t, e), events[1..], k, Failures(t, e, k, n), Attempts(t, e, k, i), Reading(t, e, k, last));
    }
  }

  /** In every run from the empty table an entry is the history of its key: the failures
      since it was last forgotten, the attempts not resolved and the last reading; and a
      key that has neither failures nor such attempts has no entry. */
  lemma EntryIsHistory(events: seq<Event>, k: Key)
    requires forall j :: 0 <= j < |events| ==> WellFormed(events[j])
    ensures Unresolved(map[], events, k, 0) <= U32_MAX
    ensures At(Run(map[], events), k) ==
            Remembered(Tally(map[], events, k, 0), Unresolved(map[], events, k, 0), Heard(map[], events, k, 0))
  {
    RunRemembers(map[], events, k, 0, 0, 0);
  }

  /** The failures of a key and its attempts not resolved, in a run from the empty table. */
  function Charge(events: seq<Event>, k: Key): nat {
    Tally(map[], events, k, 0) + Unresolved(map[], events, k, 0)
  }

  /** So admission is decided by the history alone: every key must be free of charge, or its
      last reading as far back as the delay for the charge. */
  lemma AdmittedIff(events: seq<Event>, keys: seq<Key>, now: nat)
    requires forall j :: 0 <= j < |events| ==> WellFormed(events[j])
    ensures Admits(Run(map[], events), Begin(keys, now)) <==>
            forall k :: k in keys ==>
              Delay(Charge(events, k)) == 0 || now >= Heard(map[], events, k, 0) + Delay(Charge(events, k))
  {
    var t := Run(map[], events);
    ThrottlePruning.PrunedWait(t, keys, now);
    AdmitsIff(t, keys, now);
    forall k | k in keys
      ensures (k in t ==> Remaining(t[k], now) == 0) <==>
              Delay(Charge(events, k)) == 0 || now >= Heard(map[], events, k, 0) + Delay(Charge(events, k))
    {
      ChargeIsPenalty(events, k);
    }
  }

  lemma ChargeIsPenalty(events: seq<Event>, k: Key)
    requires forall j :: 0 <= j < |events| ==> WellFormed(events[j])
    ensures var t := Run(map[], events);
            if k in t then Penalty(t[k]) == Delay(Charge(events, k)) && t[k].lastSeen == Heard(map[], events, k, 0)
            else Charge(events, k) == 0
  {
    EntryIsHistory(events, k);
    var n, i := Tally(map[], events, k, 0), Unresolved(map[], events, k, 0);
    if n + i > 0 {
      var e := Remembered(n, i, Heard(map[], events, k, 0)).value;
      SaturatedDelay(SatAdd(e.failures, e.inFlight), n + i);
    }
  }

  lemma SaturatedDelay(count: nat, n: nat)
    requires count == n || (count >= 13 && n >= 13)
    ensures Delay(count) == Delay(n)
  {
    DelayValues(count);
    DelayValues(n);
  }

  /** A cancelled attempt changes no key's failures and no reading of an entry that has any. */
  lemma CancelForgetsNothing(t: Table, keys: seq<Key>, k: Key)
    requires DistinctKeys(keys)
    ensures var after := Step(t, Cancel(keys));
            && (k in t && t[k].failures > 0 ==>
                  k in after && after[k].failures == t[k].failures && after[k].lastSeen == t[k].lastSeen)
            && (k in after ==> k in t && after[k].failures == t[k].failures)
            && (k in t && k !in after ==> t[k].failures == 0 && t[k].inFlight <= 1)
  {
    ReleaseAllAt(t, keys, k);
  }

  // ---------- What a refusal says ----------

  lemma {:induction false} WaitLater(t: Table, keys: seq<Key>, now: nat, d: nat)
    ensures d < Wait(t, keys, now) ==> Wait(t, keys, now + d) > 0
    ensures (forall k :: k in keys && k in t ==> t[k].lastSeen <= now) ==>
              (Wait(t, keys, now + d) == 0 <==> d >= Wait(t, keys, now))
  {
    if keys != [] {
      WaitLater(t, keys[1..], now, d);
      assert keys[0] in keys && forall k :: k in keys[1..] ==> k in keys;
    }
  }

  /** A refusal says how long it holds: tried again before that the attempt is refused
      again, and at that moment or any later one it is admitted, unless an entry has a
      reading later than the refusal's own. */
  lemma RefusalHolds(t: Table, keys: seq<Key>, now: nat, d: nat)
    requires !Admits(t, Begin(keys, now))
    ensures var refused := Step(t, Begin(keys, now));
            var wait := BeginWait(t, keys, now, true);
            && (d < wait ==> !Admits(refused, Begin(keys, now + d)))
            && ((forall k :: k in keys && k in t ==> t[k].lastSeen <= now) ==>
                  (Admits(refused, Begin(keys, now + d)) <==> d >= wait))
  {
    var refused := Step(t, Begin(keys, now));
    ThrottlePruning.PrunedWait(refused, keys, now + d);
    WaitLater(refused, keys, now, d);
  }
}
