/** Dropping idle entries: when the pruned table answers every attempt as one that never
    drops any, and when it does not. */
module ThrottlePruning {
  import opened Wrappers
  import opened LoginThrottle

  /** An operation on the throttle; a resolution names an outstanding attempt by position.
      Readings are taken before the table is locked and need not arrive in order. */
  datatype Event =
    | Begin(keys: seq<Key>, now: nat)
    | Fail(attempt: nat, now: nat)
    | Succeed(attempt: nat)
    | Cancel(attempt: nat)

  /** A table, the attempts admitted and not resolved yet, and the latest clock reading. */
  datatype World = World(table: Table, outstanding: seq<seq<Key>>, clock: nat)

  const FRESH := World(map[], [], 0)

  function Without(s: seq<seq<Key>>, i: nat): seq<seq<Key>>
    requires i < |s|
  {
    s[..i] + s[i + 1..]
  }

  /** How many outstanding attempts hold a reservation on `k`. */
  function Holding(s: seq<seq<Key>>, k: Key): nat {
    if s == [] then 0 else (if k in s[0] then 1 else 0) + Holding(s[1..], k)
  }

  predicate Enabled(w: World, e: Event) {
    match e
    case Begin(keys, _) => DistinctKeys(keys)
    case _ => e.attempt < |w.outstanding|
  }

  function Later(clock: nat, now: nat): nat {
    if clock < now then now else clock
  }

  function Step(w: World, e: Event, prune: bool): World
    requires Enabled(w, e)
  {
    match e
    case Begin(keys, now) =>
      World(BeginTable(w.table, keys, now, prune),
            if BeginWait(w.table, keys, now, prune) == 0 then w.outstanding + [keys] else w.outstanding, Later(w.clock, now))
    case Fail(i, now) => World(FailAll(w.table, w.outstanding[i], now), Without(w.outstanding, i), Later(w.clock, now))
    case Succeed(i) => World(ClearAll(w.table, w.outstanding[i]), Without(w.outstanding, i), w.clock)
    case Cancel(i) => World(ReleaseAll(w.table, w.outstanding[i]), Without(w.outstanding, i), w.clock)
  }

  /** Every resolution in the run names an attempt that is outstanding then. */
  predicate Possible(w: World, events: seq<Event>, prune: bool)
    decreases |events|
  {
    events == [] || (Enabled(w, events[0]) && Possible(Step(w, events[0], prune), events[1..], prune))
  }

  function Run(w: World, events: seq<Event>, prune: bool): World
    requires Possible(w, events, prune)
    decreases |events|
  {
    if events == [] then w else Run(Step(w, events[0], prune), events[1..], prune)
  }

  /** The answers of a run: for each `begin`, the wait it reported, zero for admission. */
  function Answers(w: World, events: seq<Event>, prune: bool): seq<nat>
    requires Possible(w, events, prune)
    decreases |events|
  {
    if events == [] then []
    else
      var e := events[0];
      var rest := Answers(Step(w, e, prune), events[1..], prune);
      if e.Begin? then [BeginWait(w.table, e.keys, e.now, prune)] + rest else rest
  }

  /** What orderly runs are: readings arrive in order, no attempt succeeds while another on
      one of its keys is outstanding, and fewer than 2^32 are outstanding. */
  predicate Orderly(w: World, e: Event) {
    && Enabled(w, e) && InOrder(w, e)
    && (match e
        case Begin(_, _) => |w.outstanding| < U32_MAX
        case Succeed(i) => forall k :: k in w.outstanding[i] ==> Holding(w.outstanding, k) == 1
        case _ => true)
  }

  predicate InOrder(w: World, e: Event) {
    e.Begin? || e.Fail? ==> w.clock <= e.now
  }

  predicate OrderlyRun(w: World, events: seq<Event>, prune: bool)
    decreases |events|
  {
    events == [] || (Orderly(w, events[0]) && OrderlyRun(Step(w, events[0], prune), events[1..], prune))
  }

  // ---------- The invariant of the unpruned table ----------

  /** Every key's reservations are exactly its outstanding attempts, and no entry is from
      the future. */
  ghost predicate Exact(w: World) {
    && (forall i :: 0 <= i < |w.outstanding| ==> DistinctKeys(w.outstanding[i]))
    && |w.outstanding| <= U32_MAX
    && (forall k :: Holding(w.outstanding, k) == if k in w.table then w.table[k].inFlight else 0)
    && (forall k :: k in w.table ==> w.table[k].lastSeen <= w.clock)
  }

  lemma {:induction false} HoldingBound(s: seq<seq<Key>>, k: Key)
    ensures Holding(s, k) <= |s|
    ensures forall i :: 0 <= i < |s| && k in s[i] ==> Holding(s, k) > 0
  {
    if s != [] {
      HoldingBound(s[1..], k);
      forall i | 0 <= i < |s| && k in s[i]
        ensures Holding(s, k) > 0
      {
        if i > 0 {
          assert s[1..][i - 1] == s[i];
        }
      }
    }
  }

  lemma {:induction false} HoldingAppend(s: seq<seq<Key>>, keys: seq<Key>, k: Key)
    ensures Holding(s + [keys], k) == Holding(s, k) + if k in keys then 1 else 0
  {
    if s == [] {
      assert s + [keys] == [keys] && [keys][1..] == [];
    } else {
      assert (s + [keys])[1..] == s[1..] + [keys];
      HoldingAppend(s[1..], keys, k);
    }
  }

  lemma {:induction false} HoldingWithout(s: seq<seq<Key>>, i: nat, k: Key)
    requires i < |s|
    ensures Holding(Without(s, i), k) == Holding(s, k) - if k in s[i] then 1 else 0
  {
    if i == 0 {
      assert Without(s, i) == s[1..];
    } else {
      assert Without(s, i)[1..] == Without(s[1..], i - 1);
      assert Without(s, i)[0] == s[0] && s[1..][i - 1] == s[i];
      HoldingWithout(s[1..], i - 1, k);
    }
  }

  /** One key's entry after an operation on a table whose reservations are exact. */
  ghost predicate ExactAt(t: Table, held: int, clock: nat, k: Key) {
    && held == (if k in t then t[k].inFlight as int else 0)
    && (k in t ==> t[k].lastSeen <= clock)
  }

  lemma ExactFrom(w: World)
    requires forall i :: 0 <= i < |w.outstanding| ==> DistinctKeys(w.outstanding[i])
    requires |w.outstanding| <= U32_MAX
    requires forall k :: ExactAt(w.table, Holding(w.outstanding, k), w.clock, k)
    ensures Exact(w)
  {
    forall k
      ensures Holding(w.outstanding, k) == if k in w.table then w.table[k].inFlight else 0
      ensures k in w.table ==> w.table[k].lastSeen <= w.clock
    {
      assert ExactAt(w.table, Holding(w.outstanding, k), w.clock, k);
    }
  }

  lemma WithoutDistinct(s: seq<seq<Key>>, i: nat)
    requires i < |s| && forall j :: 0 <= j < |s| ==> DistinctKeys(s[j])
    ensures forall j :: 0 <= j < |Without(s, i)| ==> DistinctKeys(Without(s, i)[j])
  {
    var r := Without(s, i);
    assert forall j :: 0 <= j < |r| ==> r[j] == if j < i then s[j] else s[j + 1];
  }

  /** In-flight counts stay equal to the outstanding attempts, key by key, in a table that
      is not pruned. */
  lemma ExactKept(w: World, e: Event)
    requires Exact(w) && Orderly(w, e)
    ensures Exact(Step(w, e, false))
  {
    var next := Step(w, e, false);
    var now := next.clock;
    if !e.Begin? {
      WithoutDistinct(w.outstanding, e.attempt);
    }
    forall k
      ensures ExactAt(next.table, Holding(next.outstanding, k), next.clock, k)
    {
      HoldingBound(w.outstanding, k);
      match e
      case Begin(keys, _) =>
        HoldingAppend(w.outstanding, keys, k);
        ReserveAllAt(w.table, keys, now, k);
      case Fail(i, _) =>
        HoldingWithout(w.outstanding, i, k);
        assert DistinctKeys(w.outstanding[i]);
        FailAllAt(w.table, w.outstanding[i], now, k);
      case Succeed(i) =>
        HoldingWithout(w.outstanding, i, k);
        ClearAllAt(w.table, w.outstanding[i], k);
      case Cancel(i) =>
        HoldingWithout(w.outstanding, i, k);
        assert DistinctKeys(w.outstanding[i]);
        ReleaseAllAt(w.table, w.outstanding[i], k);
    }
    ExactFrom(next);
  }

  lemma {:induction false} ExactThroughout(w: World, events: seq<Event>)
    requires Exact(w) && OrderlyRun(w, events, false)
    ensures Possible(w, events, false) && Exact(Run(w, events, false))
    decreases |events|
  {
    if events != [] {
      ExactKept(w, events[0]);
      ExactThroughout(Step(w, events[0], false), events[1..]);
    }
  }

  // ---------- The pruned table beside it ----------

  /** The pruned table agrees on all it has, and lacks only entries with nothing in flight. */
  ghost predicate LessOf(p: Table, u: Table) {
    && (forall k :: k in p ==> k in u && p[k] == u[k])
    && (forall k :: k in u && k !in p ==> u[k].inFlight == 0)
  }

  ghost predicate Beside(p: World, u: World) {
    && LessOf(p.table, u.table) && p.outstanding == u.outstanding && p.clock == u.clock
    && (forall i :: 0 <= i < |u.outstanding| ==> DistinctKeys(u.outstanding[i]))
  }

  /** The pruned table has dropped the entry of a key that still has failures. */
  predicate Forgotten(p: Table, u: Table, k: Key) {
    k in u && k !in p && u[k].failures > 0
  }

  /** The attempt is refused, for at least this long. */
  predicate MadeToWait(t: Table, keys: seq<Key>, now: nat, atLeast: nat) {
    Wait(t, keys, now) > 0 && Wait(t, keys, now) >= atLeast
  }

  /** Where an operation does not touch what was forgotten. A failure must not be on a key
      with a forgotten entry; an attempt may, if that entry is idle at its reading or if
      another key makes it wait at least as long anyway. */
  ghost predicate Harmless(p: World, u: World, e: Event)
    requires Enabled(p, e)
  {
    match e
    case Begin(keys, now) =>
      forall k :: k in keys && Forgotten(p.table, u.table, k) ==>
        Idle(u.table[k], now) || MadeToWait(p.table, keys, now, Remaining(u.table[k], now))
    case Fail(i, now) => forall k :: k in p.outstanding[i] ==> !Forgotten(p.table, u.table, k)
    case _ => true
  }

  /** Both worlds answer this operation alike, and stay side by side. */
  ghost predicate SameAfter(p: World, u: World, e: Event)
    requires Enabled(p, e) && Enabled(u, e)
  {
    && (e.Begin? ==> BeginWait(p.table, e.keys, e.now, true) == BeginWait(u.table, e.keys, e.now, false))
    && Beside(Step(p, e, true), Step(u, e, false))
  }

  /** An idle entry imposes nothing: it outlived every delay long before. */
  lemma IdleIsFree(e: Entry, now: nat)
    requires Idle(e, now)
    ensures Remaining(e, now) == 0
  {
    assert Penalty(e) <= MAX_DELAY;
  }

  lemma {:induction false} WaitIsLongest(t: Table, keys: seq<Key>, now: nat)
    ensures forall k :: k in keys && k in t ==> Remaining(t[k], now) <= Wait(t, keys, now)
    ensures Wait(t, keys, now) > 0 ==> exists k :: k in keys && k in t && Remaining(t[k], now) == Wait(t, keys, now)
  {
    if keys != [] {
      WaitIsLongest(t, keys[1..], now);
      assert forall k :: k in keys <==> k == keys[0] || k in keys[1..];
    }
  }

  /** Waits of a table and of one with more in it: the same unless an extra entry imposes
      more. */
  lemma SameWaitIff(p: Table, u: Table, keys: seq<Key>, now: nat)
    requires LessOf(p, u)
    ensures Wait(p, keys, now) <= Wait(u, keys, now)
    ensures Wait(p, keys, now) == Wait(u, keys, now) <==>
            forall k :: k in keys && k in u && k !in p ==> Remaining(u[k], now) <= Wait(p, keys, now)
  {
    WaitIsLongest(p, keys, now);
    WaitIsLongest(u, keys, now);
  }

  /** Pruning at a reading changes no wait at it. */
  lemma PrunedWait(p: Table, keys: seq<Key>, now: nat)
    ensures LessOf(Prune(p, now), p) && Wait(Prune(p, now), keys, now) == Wait(p, keys, now)
  {
    SameWaitIff(Prune(p, now), p, keys, now);
    forall k | k in p && k !in Prune(p, now)
      ensures Remaining(p[k], now) == 0
    {
      IdleIsFree(p[k], now);
    }
  }

  /** A missing entry that was idle or had no failures is re-created as what it would have
      become. */
  lemma ReserveAlike(p: Table, u: Table, keys: seq<Key>, now: nat)
    requires LessOf(p, u) && DistinctKeys(keys)
    requires forall k :: k in keys && Forgotten(p, u, k) ==> Idle(u[k], now)
    ensures LessOf(ReserveAll(p, keys, now), ReserveAll(u, keys, now))
  {
    forall k
      ensures AlikeAt(ReserveAll(p, keys, now), ReserveAll(u, keys, now), k)
    {
      ReserveAllAt(p, keys, now, k);
      ReserveAllAt(u, keys, now, k);
    }
    LessOfAlike(ReserveAll(p, keys, now), ReserveAll(u, keys, now));
  }

  ghost predicate AlikeAt(p: Table, u: Table, k: Key) {
    At(p, k) == At(u, k) || (At(p, k).None? && u[k].inFlight == 0)
  }

  lemma LessOfAlike(p: Table, u: Table)
    requires forall k :: AlikeAt(p, u, k)
    ensures LessOf(p, u)
  {
    forall k
      ensures k in p ==> k in u && p[k] == u[k]
      ensures k in u && k !in p ==> u[k].inFlight == 0
    {
      assert AlikeAt(p, u, k);
    }
  }

  lemma BeginSame(p: World, u: World, e: Event)
    requires Beside(p, u) && e.Begin? && Enabled(u, e) && Harmless(p, u, e)
    ensures SameAfter(p, u, e)
  {
    var start := Prune(p.table, e.now);
    PrunedWait(p.table, e.keys, e.now);
    forall k | k in u.table && k !in start && k in e.keys
      ensures Remaining(u.table[k], e.now) <= Wait(start, e.keys, e.now)
    {
      if k in p.table || Idle(u.table[k], e.now) {
        IdleIsFree(u.table[k], e.now);
      } else if u.table[k].failures == 0 {
        assert Penalty(u.table[k]) == 0;
      }
    }
    SameWaitIff(start, u.table, e.keys, e.now);
    if Wait(start, e.keys, e.now) == 0 {
      ReserveAlike(start, u.table, e.keys, e.now);
    }
  }

  lemma BeginDiffers(p: World, u: World, e: Event)
    requires Beside(p, u) && e.Begin? && Enabled(u, e) && !Harmless(p, u, e)
    ensures !SameAfter(p, u, e)
    ensures BeginWait(p.table, e.keys, e.now, true) == BeginWait(u.table, e.keys, e.now, false) ==>
            BeginWait(u.table, e.keys, e.now, false) == 0
            && exists k :: k in e.keys && FewerAt(Step(p, e, true).table, Step(u, e, false).table, k, e.now)
  {
    var k :| k in e.keys && Forgotten(p.table, u.table, k) && !Idle(u.table[k], e.now)
             && !MadeToWait(p.table, e.keys, e.now, Remaining(u.table[k], e.now));
    var start := Prune(p.table, e.now);
    PrunedWait(p.table, e.keys, e.now);
    SameWaitIff(start, u.table, e.keys, e.now);
    if Wait(start, e.keys, e.now) == Wait(u.table, e.keys, e.now) {
      ReserveAllAt(start, e.keys, e.now, k);
      ReserveAllAt(u.table, e.keys, e.now, k);
      assert FewerAt(Step(p, e, true).table, Step(u, e, false).table, k, e.now);
    }
  }

  /** Both tables have an entry with this reading, but the pruned one counts one attempt
      and the other at least two. */
  ghost predicate FewerAt(p: Table, u: Table, k: Key, now: nat) {
    && k in p && p[k].lastSeen == now && SatAdd(p[k].failures, p[k].inFlight) == 1
    && k in u && u[k].lastSeen == now && SatAdd(u[k].failures, u[k].inFlight) >= 2
  }

  lemma FailDiffers(p: World, u: World, e: Event)
    requires Beside(p, u) && e.Fail? && Enabled(u, e) && !Harmless(p, u, e)
    ensures exists k :: k in u.outstanding[e.attempt] && FewerAt(Step(p, e, true).table, Step(u, e, false).table, k, e.now)
  {
    var keys := u.outstanding[e.attempt];
    var k :| k in keys && Forgotten(p.table, u.table, k);
    FailAllAt(p.table, keys, e.now, k);
    FailAllAt(u.table, keys, e.now, k);
    assert FewerAt(Step(p, e, true).table, Step(u, e, false).table, k, e.now);
  }

  lemma ResolveSame(p: World, u: World, e: Event)
    requires Beside(p, u) && !e.Begin? && Enabled(u, e) && Harmless(p, u, e)
    ensures SameAfter(p, u, e)
  {
    var keys := u.outstanding[e.attempt];
    var p', u' := Step(p, e, true), Step(u, e, false);
    WithoutDistinct(u.outstanding, e.attempt);
    forall k
      ensures AlikeAt(p'.table, u'.table, k)
    {
      match e
      case Fail(_, now) =>
        FailAllAt(p.table, keys, now, k);
        FailAllAt(u.table, keys, now, k);
      case Succeed(_) =>
        ClearAllAt(p.table, keys, k);
        ClearAllAt(u.table, keys, k);
      case Cancel(_) =>
        ReleaseAllAt(p.table, keys, k);
        ReleaseAllAt(u.table, keys, k);
    }
    LessOfAlike(p'.table, u'.table);
  }

  /** One operation, whatever its reading and whatever overlaps: the two worlds answer it
      alike and stay side by side if and only if it does not touch what was forgotten. */
  lemma SameAfterIff(p: World, u: World, e: Event)
    requires Beside(p, u) && Enabled(u, e)
    ensures SameAfter(p, u, e) <==> Harmless(p, u, e)
  {
    if Harmless(p, u, e) {
      if e.Begin? {
        BeginSame(p, u, e);
      } else {
        ResolveSame(p, u, e);
      }
    } else if e.Begin? {
      BeginDiffers(p, u, e);
    } else {
      FailDiffers(p, u, e);
    }
  }

  // ---------- Whole runs ----------

  ghost predicate Tracks(p: World, u: World, events: seq<Event>)
    decreases |events|
  {
    events == []
    || (Enabled(p, events[0]) && Enabled(u, events[0]) && SameAfter(p, u, events[0])
        && Tracks(Step(p, events[0], true), Step(u, events[0], false), events[1..]))
  }

  ghost predicate HarmlessRun(p: World, u: World, events: seq<Event>)
    decreases |events|
  {
    events == []
    || (Enabled(p, events[0]) && Enabled(u, events[0]) && Harmless(p, u, events[0])
        && HarmlessRun(Step(p, events[0], true), Step(u, events[0], false), events[1..]))
  }

  lemma {:induction false} TracksIffFrom(p: World, u: World, events: seq<Event>)
    requires Beside(p, u) && Possible(u, events, false)
    ensures Tracks(p, u, events) <==> HarmlessRun(p, u, events)
    decreases |events|
  {
    if events != [] {
      SameAfterIff(p, u, events[0]);
      if Harmless(p, u, events[0]) {
        TracksIffFrom(Step(p, events[0], true), Step(u, events[0], false), events[1..]);
      }
    }
  }

  /** For every run from an empty table: at every step both tables answer alike and the
      pruned one lacks only entries with nothing in flight, if and only if no step touches
      what was forgotten. */
  lemma TracksIff(events: seq<Event>)
    requires Possible(FRESH, events, false)
    ensures Tracks(FRESH, FRESH, events) <==> HarmlessRun(FRESH, FRESH, events)
  {
    TracksIffFrom(FRESH, FRESH, events);
  }

  /** Every answer of a run is the same with pruning as without. */
  ghost predicate AnswersAgree(p: World, u: World, events: seq<Event>) {
    Possible(p, events, true) && Possible(u, events, false) && Answers(p, events, true) == Answers(u, events, false)
  }

  lemma {:induction false} TrackedAgree(p: World, u: World, events: seq<Event>)
    requires Tracks(p, u, events)
    ensures AnswersAgree(p, u, events)
    decreases |events|
  {
    if events != [] {
      TrackedAgree(Step(p, events[0], true), Step(u, events[0], false), events[1..]);
    }
  }

  // ---------- Harm shows ----------

  /** Some attempts on one key, one after another at one reading. */
  function Tries(k: Key, now: nat, n: nat): seq<Event> {
    seq(n, _ => Begin([k], now))
  }

  /** One more attempt on a key whose entry has the same reading. */
  lemma OneTry(w: World, k: Key, now: nat, prune: bool)
    requires k in w.table && w.table[k].lastSeen == now
    ensures var count, e := SatAdd(w.table[k].failures, w.table[k].inFlight), Begin([k], now);
            && BeginWait(w.table, [k], now, prune) == Delay(count)
            && (Delay(count) == 0 ==>
                  At(Step(w, e, prune).table, k) == Some(Entry(w.table[k].failures, SatAdd(w.table[k].inFlight, 1), now)))
  {
    var start := if prune then Prune(w.table, now) else w.table;
    assert At(start, k) == Some(w.table[k]);
    assert [k][1..] == [] && Wait(start, [], now) == 0;
    assert Wait(start, [k], now) == Remaining(start[k], now) == Penalty(start[k]);
    ReserveAllAt(start, [k], now, k);
  }

  lemma TriesStep(k: Key, now: nat, n: nat)
    requires n > 0
    ensures Tries(k, now, n)[0] == Begin([k], now) && Tries(k, now, n)[1..] == Tries(k, now, n - 1)
  {
  }

  lemma {:induction false} TriesPossible(w: World, k: Key, now: nat, n: nat, prune: bool)
    ensures Possible(w, Tries(k, now, n), prune) && |Answers(w, Tries(k, now, n), prune)| == n
    decreases n
  {
    if n > 0 {
      TriesStep(k, now, n);
      TriesPossible(Step(w, Begin([k], now), prune), k, now, n - 1, prune);
    }
  }

  /** While the count stays free, every try is admitted. */
  lemma {:induction false} TriesFree(w: World, k: Key, now: nat, n: nat, prune: bool)
    requires k in w.table && w.table[k].lastSeen == now
    requires SatAdd(w.table[k].failures, w.table[k].inFlight) + n <= FREE_ATTEMPTS + 1
    ensures Possible(w, Tries(k, now, n), prune)
    ensures forall i :: 0 <= i < |Answers(w, Tries(k, now, n), prune)| ==> Answers(w, Tries(k, now, n), prune)[i] == 0
    decreases n
  {
    TriesPossible(w, k, now, n, prune);
    if n > 0 {
      TriesStep(k, now, n);
      OneTry(w, k, now, prune);
      TriesFree(Step(w, Begin([k], now), prune), k, now, n - 1, prune);
    }
  }

  /** Once it does not, one of them is made to wait. */
  lemma {:induction false} TriesBlocked(w: World, k: Key, now: nat, n: nat, prune: bool)
    requires k in w.table && w.table[k].lastSeen == now
    requires SatAdd(w.table[k].failures, w.table[k].inFlight) + n > FREE_ATTEMPTS + 1 && n > 0
    ensures Possible(w, Tries(k, now, n), prune)
    ensures exists i :: 0 <= i < |Answers(w, Tries(k, now, n), prune)| && Answers(w, Tries(k, now, n), prune)[i] > 0
    decreases n
  {
    TriesPossible(w, k, now, n, prune);
    TriesStep(k, now, n);
    OneTry(w, k, now, prune);
    var count := SatAdd(w.table[k].failures, w.table[k].inFlight);
    var answers := Answers(w, Tries(k, now, n), prune);
    if count > FREE_ATTEMPTS {
      DelayGrows(4, count);
      DelayValues(0);
      assert answers[0] > 0;
    } else {
      var next := Step(w, Begin([k], now), prune);
      TriesBlocked(next, k, now, n - 1, prune);
      var rest := Answers(next, Tries(k, now, n - 1), prune);
      var i :| 0 <= i < |rest| && rest[i] > 0;
      assert answers[i + 1] == rest[i];
    }
  }

  lemma FewerShows(p: World, u: World, k: Key, now: nat)
    requires FewerAt(p.table, u.table, k, now)
    ensures Possible(p, Tries(k, now, 3), true) && Possible(u, Tries(k, now, 3), false)
    ensures Answers(p, Tries(k, now, 3), true) != Answers(u, Tries(k, now, 3), false)
  {
    TriesPossible(p, k, now, 3, true);
    TriesPossible(u, k, now, 3, false);
    TriesFree(p, k, now, 3, true);
    TriesBlocked(u, k, now, 3, false);
  }

  /** A step that touches what was forgotten is answered differently, or within three more
      attempts on one key at the same reading something else is. */
  lemma HarmShows(p: World, u: World, e: Event)
    requires Beside(p, u) && Enabled(u, e) && !Harmless(p, u, e)
    ensures exists k :: !AnswersAgree(p, u, [e] + Tries(k, e.now, 3))
                        && Possible(p, [e] + Tries(k, e.now, 3), true) && Possible(u, [e] + Tries(k, e.now, 3), false)
  {
    var p', u' := Step(p, e, true), Step(u, e, false);
    if e.Begin? {
      BeginDiffers(p, u, e);
      if BeginWait(p.table, e.keys, e.now, true) != BeginWait(u.table, e.keys, e.now, false) {
        var k :| k in e.keys && Forgotten(p.table, u.table, k);
        StepThenTries(p, e, k, true);
        StepThenTries(u, e, k, false);
        FirstDiffers(BeginWait(p.table, e.keys, e.now, true), BeginWait(u.table, e.keys, e.now, false),
                     Answers(p', Tries(k, e.now, 3), true), Answers(u', Tries(k, e.now, 3), false));
      } else {
        var k :| k in e.keys && FewerAt(p'.table, u'.table, k, e.now);
        FewerShowsAfter(p, u, e, k);
      }
    } else {
      FailDiffers(p, u, e);
      var k :| k in u.outstanding[e.attempt] && FewerAt(p'.table, u'.table, k, e.now);
      FewerShowsAfter(p, u, e, k);
    }
  }

  lemma FirstDiffers(x: nat, y: nat, a: seq<nat>, b: seq<nat>)
    ensures x != y ==> [x] + a != [y] + b
    ensures a != b ==> [x] + a != [y] + b && [] + a != [] + b
  {
    assert ([x] + a)[0] == x && ([y] + b)[0] == y;
    assert ([x] + a)[1..] == a && ([y] + b)[1..] == b;
    assert [] + a == a && [] + b == b;
  }

  lemma StepThenTries(w: World, e: Event, k: Key, prune: bool)
    requires Enabled(w, e) && (e.Begin? || e.Fail?)
    ensures Possible(w, [e] + Tries(k, e.now, 3), prune) && Possible(Step(w, e, prune), Tries(k, e.now, 3), prune)
    ensures Answers(w, [e] + Tries(k, e.now, 3), prune) ==
            (if e.Begin? then [BeginWait(w.table, e.keys, e.now, prune)] else []) + Answers(Step(w, e, prune), Tries(k, e.now, 3), prune)
  {
    TriesPossible(Step(w, e, prune), k, e.now, 3, prune);
    assert ([e] + Tries(k, e.now, 3))[1..] == Tries(k, e.now, 3);
  }

  lemma FewerShowsAfter(p: World, u: World, e: Event, k: Key)
    requires Enabled(p, e) && Enabled(u, e) && (e.Begin? || e.Fail?)
    requires FewerAt(Step(p, e, true).table, Step(u, e, false).table, k, e.now)
    ensures Possible(p, [e] + Tries(k, e.now, 3), true) && Possible(u, [e] + Tries(k, e.now, 3), false)
    ensures Answers(p, [e] + Tries(k, e.now, 3), true) != Answers(u, [e] + Tries(k, e.now, 3), false)
  {
    StepThenTries(p, e, k, true);
    StepThenTries(u, e, k, false);
    FewerShows(Step(p, e, true), Step(u, e, false), k, e.now);
    var a, b := Answers(Step(p, e, true), Tries(k, e.now, 3), true), Answers(Step(u, e, false), Tries(k, e.now, 3), false);
    FirstDiffers(if e.Begin? then BeginWait(p.table, e.keys, e.now, true) else 0,
                 if e.Begin? then BeginWait(u.table, e.keys, e.now, false) else 0, a, b);
  }

  /** Attempts on `k` at the reading of operation `n`, made right after it, are answered
      differently with pruning and without, or something before them was. */
  ghost predicate CanTell(p: World, u: World, events: seq<Event>, n: nat, k: Key)
    requires n < |events|
  {
    && (events[n].Begin? || events[n].Fail?)
    && (var run := events[..n + 1] + Tries(k, events[n].now, 3);
        Possible(p, run, true) && Possible(u, run, false) && Answers(p, run, true) != Answers(u, run, false))
  }

  lemma {:induction false} RunHarmShows(p: World, u: World, events: seq<Event>)
    requires Beside(p, u) && Possible(u, events, false) && !HarmlessRun(p, u, events)
    ensures exists n: nat, k :: n < |events| && CanTell(p, u, events, n, k)
    decreases |events|
  {
    var e := events[0];
    if !Harmless(p, u, e) {
      HarmShows(p, u, e);
      var k :| Possible(p, [e] + Tries(k, e.now, 3), true) && Possible(u, [e] + Tries(k, e.now, 3), false)
               && !AnswersAgree(p, u, [e] + Tries(k, e.now, 3));
      assert events[..0 + 1] == [e];
      assert CanTell(p, u, events, 0, k);
    } else {
      SameAfterIff(p, u, e);
      RunHarmShows(Step(p, e, true), Step(u, e, false), events[1..]);
      var n: nat, k :| n < |events[1..]| && CanTell(Step(p, e, true), Step(u, e, false), events[1..], n, k);
      TellEarlier(p, u, events, n, k);
    }
  }

  lemma TellEarlier(p: World, u: World, events: seq<Event>, n: nat, k: Key)
    requires n + 1 < |events| && Enabled(p, events[0]) && Enabled(u, events[0])
    requires CanTell(Step(p, events[0], true), Step(u, events[0], false), events[1..], n, k)
    ensures CanTell(p, u, events, n + 1, k)
  {
    var e := events[0];
    var rest, run := events[1..][..n + 1] + Tries(k, events[n + 1].now, 3), events[..n + 2] + Tries(k, events[n + 1].now, 3);
    assert run == [e] + rest && run[1..] == rest;
    FirstDiffers(if e.Begin? then BeginWait(p.table, e.keys, e.now, true) else 0,
                 if e.Begin? then BeginWait(u.table, e.keys, e.now, false) else 0,
                 Answers(Step(p, e, true), rest, true), Answers(Step(u, e, false), rest, false));
    NothingFirst(Answers(Step(p, e, true), rest, true));
    NothingFirst(Answers(Step(u, e, false), rest, false));
  }

  lemma NothingFirst(a: seq<nat>)
    ensures [] + a == a
  {
  }

  // ---------- Readings in order ----------

  predicate InOrderRun(w: World, events: seq<Event>, prune: bool)
    decreases |events|
  {
    events == []
    || (Enabled(w, events[0]) && InOrder(w, events[0]) && InOrderRun(Step(w, events[0], prune), events[1..], prune))
  }

  /** What the pruned table lacks is idle. */
  ghost predicate IdleMissing(p: World, u: World) {
    forall k :: k in u.table && k !in p.table ==> Idle(u.table[k], u.clock)
  }

  lemma IdleKept(p: World, u: World, e: Event)
    requires Beside(p, u) && IdleMissing(p, u) && Enabled(u, e) && InOrder(u, e) && Harmless(p, u, e)
    ensures IdleMissing(Step(p, e, true), Step(u, e, false))
  {
    SameAfterIff(p, u, e);
    var p', u' := Step(p, e, true), Step(u, e, false);
    forall k | k in u'.table && k !in p'.table
      ensures Idle(u'.table[k], u'.clock)
    {
      match e
      case Begin(keys, now) =>
        ReserveAllAt(Prune(p.table, now), keys, now, k);
        ReserveAllAt(u.table, keys, now, k);
      case Fail(i, now) =>
        FailAllAt(p.table, p.outstanding[i], now, k);
        FailAllAt(u.table, u.outstanding[i], now, k);
      case Succeed(i) =>
        ClearAllAt(p.table, p.outstanding[i], k);
        ClearAllAt(u.table, u.outstanding[i], k);
      case Cancel(i) =>
        ReleaseAllAt(p.table, p.outstanding[i], k);
        ReleaseAllAt(u.table, u.outstanding[i], k);
    }
  }

  /** So with readings in order an attempt is always harmless. */
  lemma {:induction false} TriesHarmless(p: World, u: World, k: Key, now: nat, n: nat)
    requires Beside(p, u) && IdleMissing(p, u) && u.clock <= now
    ensures HarmlessRun(p, u, Tries(k, now, n))
    decreases n
  {
    if n > 0 {
      TriesStep(k, now, n);
      var e := Begin([k], now);
      assert Harmless(p, u, e);
      SameAfterIff(p, u, e);
      IdleKept(p, u, e);
      TriesHarmless(Step(p, e, true), Step(u, e, false), k, now, n - 1);
    }
  }

  lemma {:induction false} HarmlessThenTries(p: World, u: World, events: seq<Event>, n: nat, k: Key)
    requires Beside(p, u) && IdleMissing(p, u) && n < |events|
    requires HarmlessRun(p, u, events) && InOrderRun(u, events, false)
    requires events[n].Begin? || events[n].Fail?
    ensures HarmlessRun(p, u, events[..n + 1] + Tries(k, events[n].now, 3))
    ensures Possible(u, events[..n + 1] + Tries(k, events[n].now, 3), false)
    decreases |events|
  {
    var e := events[0];
    var tries := Tries(k, events[n].now, 3);
    var p', u' := Step(p, e, true), Step(u, e, false);
    SameAfterIff(p, u, e);
    IdleKept(p, u, e);
    var run := events[..n + 1] + tries;
    assert run[0] == e;
    if n == 0 {
      assert run[1..] == tries;
      TriesHarmless(p', u', k, e.now, 3);
      TriesPossible(u', k, e.now, 3, false);
    } else {
      assert run[1..] == events[1..][..n] + tries;
      HarmlessThenTries(p', u', events[1..], n - 1, k);
    }
  }

  lemma {:induction false} InOrderPossible(w: World, events: seq<Event>, prune: bool)
    requires InOrderRun(w, events, prune)
    ensures Possible(w, events, prune)
    decreases |events|
  {
    if events != [] {
      InOrderPossible(Step(w, events[0], prune), events[1..], prune);
    }
  }

  /** For every run whose readings are in order, whatever overlaps in it: pruning cannot be
      told by any answer of the run, nor by attempts made right after any step of it, if and
      only if no failure in it lands on a key whose entry was dropped with failures in it. */
  lemma PruningInvisibleIff(events: seq<Event>)
    requires InOrderRun(FRESH, events, false)
    ensures AnswersAgree(FRESH, FRESH, events) && (forall n: nat, k :: n < |events| ==> !CanTell(FRESH, FRESH, events, n, k))
            <==> HarmlessRun(FRESH, FRESH, events)
  {
    InOrderPossible(FRESH, events, false);
    if HarmlessRun(FRESH, FRESH, events) {
      TracksIff(events);
      TrackedAgree(FRESH, FRESH, events);
      forall n: nat, k | n < |events|
        ensures !CanTell(FRESH, FRESH, events, n, k)
      {
        if events[n].Begin? || events[n].Fail? {
          var run := events[..n + 1] + Tries(k, events[n].now, 3);
          HarmlessThenTries(FRESH, FRESH, events, n, k);
          TracksIff(run);
          TrackedAgree(FRESH, FRESH, run);
        }
      }
    } else {
      RunHarmShows(FRESH, FRESH, events);
    }
  }

  // ---------- Orderly runs ----------

  /** A key with an outstanding attempt is never dropped, so no failure is on a forgotten
      entry. */
  lemma {:induction false} OrderlyHarmless(p: World, u: World, events: seq<Event>)
    requires Beside(p, u) && IdleMissing(p, u) && Exact(u) && OrderlyRun(u, events, false)
    ensures HarmlessRun(p, u, events)
    decreases |events|
  {
    if events != [] {
      var e := events[0];
      assert Harmless(p, u, e) by {
        if e.Fail? {
          forall k | k in u.outstanding[e.attempt]
            ensures k in p.table
          {
            HoldingBound(u.outstanding, k);
          }
        }
      }
      SameAfterIff(p, u, e);
      IdleKept(p, u, e);
      ExactKept(u, e);
      OrderlyHarmless(Step(p, e, true), Step(u, e, false), events[1..]);
    }
  }

  lemma {:induction false} OrderlyInOrder(w: World, events: seq<Event>, prune: bool)
    requires OrderlyRun(w, events, prune)
    ensures InOrderRun(w, events, prune)
    decreases |events|
  {
    if events != [] {
      OrderlyInOrder(Step(w, events[0], prune), events[1..], prune);
    }
  }

  /** So in orderly runs pruning is invisible. */
  lemma PruningInvisible(events: seq<Event>)
    requires OrderlyRun(FRESH, events, false)
    ensures AnswersAgree(FRESH, FRESH, events)
    ensures forall n: nat, k :: n < |events| ==> !CanTell(FRESH, FRESH, events, n, k)
  {
    assert Exact(FRESH);
    OrderlyHarmless(FRESH, FRESH, events);
    OrderlyInOrder(FRESH, events, false);
    PruningInvisibleIff(events);
  }

  lemma {:induction false} TracksBeside(p: World, u: World, events: seq<Event>)
    requires Beside(p, u) && Tracks(p, u, events)
    ensures Possible(p, events, true) && Possible(u, events, false) && Beside(Run(p, events, true), Run(u, events, false))
    decreases |events|
  {
    if events != [] {
      TracksBeside(Step(p, events[0], true), Step(u, events[0], false), events[1..]);
    }
  }

  /** In every orderly run each entry of the pruned table counts in flight exactly the
      outstanding attempts on its key, and a key without an entry has none. */
  lemma InFlightExact(events: seq<Event>, k: Key)
    requires OrderlyRun(FRESH, events, false)
    ensures Possible(FRESH, events, true)
    ensures var w := Run(FRESH, events, true);
            Holding(w.outstanding, k) == if k in w.table then w.table[k].inFlight else 0
  {
    assert Exact(FRESH);
    OrderlyHarmless(FRESH, FRESH, events);
    OrderlyInOrder(FRESH, events, false);
    InOrderPossible(FRESH, events, false);
    TracksIff(events);
    TracksBeside(FRESH, FRESH, events);
    ExactThroughout(FRESH, events);
    assert Beside(Run(FRESH, events, true), Run(FRESH, events, false));
  }
}
