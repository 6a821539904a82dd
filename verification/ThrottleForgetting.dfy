/** Two runs from an empty table in which dropping idle entries shows: more than a thousand
    other users make the table prune, and what it drops is wanted after all. */
module ThrottleForgetting {
  import opened Wrappers
  import opened LoginThrottle
  import opened ThrottlePruning

  const VICTIM := Ip([203, 0, 113, 7])
  const NEWCOMER := Ip([203, 0, 113, 8])

  /** User names all of different lengths. */
  function Name(n: nat): string {
    seq(n, _ => 'x')
  }

  /** `n` users, one attempt each. */
  function Crowd(n: nat): seq<Event> {
    if n == 0 then [] else Crowd(n - 1) + [Begin([User(Name(n))], 0)]
  }

  function CrowdTable(n: nat): Table {
    if n == 0 then map[VICTIM := Entry(1, 0, 0)] else CrowdTable(n - 1)[User(Name(n)) := Entry(0, 1, 0)]
  }

  function CrowdKeys(n: nat): seq<seq<Key>> {
    if n == 0 then [] else CrowdKeys(n - 1) + [[User(Name(n))]]
  }

  /** The victim has failed once, `before` is outstanding, and so are `n` users. */
  function Crowded(before: seq<seq<Key>>, n: nat): World {
    World(CrowdTable(n), before + CrowdKeys(n), 0)
  }

  // ---------- Putting runs together ----------

  lemma {:induction false} RunAppend(w: World, a: seq<Event>, b: seq<Event>, prune: bool)
    requires Possible(w, a, prune) && Possible(Run(w, a, prune), b, prune)
    ensures Possible(w, a + b, prune) && Run(w, a + b, prune) == Run(Run(w, a, prune), b, prune)
    decreases |a|
  {
    if a == [] {
      assert a + b == b;
    } else {
      assert (a + b)[0] == a[0] && (a + b)[1..] == a[1..] + b;
      RunAppend(Step(w, a[0], prune), a[1..], b, prune);
    }
  }

  lemma {:induction false} AnswersAppend(w: World, a: seq<Event>, b: seq<Event>, prune: bool)
    requires Possible(w, a, prune) && Possible(Run(w, a, prune), b, prune)
    ensures Possible(w, a + b, prune)
    ensures Answers(w, a + b, prune) == Answers(w, a, prune) + Answers(Run(w, a, prune), b, prune)
    decreases |a|
  {
    if a == [] {
      assert a + b == b;
    } else {
      var more := a[1..];
      assert |more| == |a| - 1;
      var next, answer := FirstAnswer(w, a, b, prune);
      AnswersAppend(next, more, b, prune);
      Prepended(answer, Answers(next, more, prune), Answers(Run(w, a, prune), b, prune));
    }
  }

  lemma FirstAnswer(w: World, a: seq<Event>, b: seq<Event>, prune: bool) returns (next: World, answer: seq<nat>)
    requires a != [] && Possible(w, a, prune) && Possible(Run(w, a, prune), b, prune)
    ensures Possible(w, a + b, prune)
    ensures Possible(next, a[1..], prune) && Run(next, a[1..], prune) == Run(w, a, prune) && Possible(next, a[1..] + b, prune)
    ensures Answers(w, a, prune) == answer + Answers(next, a[1..], prune)
    ensures Answers(w, a + b, prune) == answer + Answers(next, a[1..] + b, prune)
  {
    RunAppend(w, a, b, prune);
    assert (a + b)[0] == a[0] && (a + b)[1..] == a[1..] + b;
    next := Step(w, a[0], prune);
    answer := if a[0].Begin? then [BeginWait(w.table, a[0].keys, a[0].now, prune)] else [];
    Prepended(answer, Answers(next, a[1..], prune), []);
    Prepended(answer, Answers(next, a[1..] + b, prune), []);
  }

  lemma Prepended(x: seq<nat>, a: seq<nat>, b: seq<nat>)
    ensures x + (a + b) == (x + a) + b
    ensures [] + a == a && [] + (a + b) == a + b
  {
  }

  function Begins(events: seq<Event>): nat {
    if events == [] then 0 else (if events[0].Begin? then 1 else 0) + Begins(events[1..])
  }

  lemma {:induction false} AnswersLength(w: World, events: seq<Event>, prune: bool)
    requires Possible(w, events, prune)
    ensures |Answers(w, events, prune)| == Begins(events)
    decreases |events|
  {
    if events != [] {
      AnswersLength(Step(w, events[0], prune), events[1..], prune);
    }
  }

  /** A difference at the end of a run is one of the run. */
  lemma DiffersAtEnd(events: seq<Event>, last: seq<Event>, p: World, u: World)
    requires Possible(FRESH, events, true) && Run(FRESH, events, true) == p
    requires Possible(FRESH, events, false) && Run(FRESH, events, false) == u
    requires Possible(p, last, true) && Possible(u, last, false) && Answers(p, last, true) != Answers(u, last, false)
    ensures Possible(FRESH, events + last, true) && Possible(FRESH, events + last, false)
    ensures Answers(FRESH, events + last, true) != Answers(FRESH, events + last, false)
  {
    AnswersAppend(FRESH, events, last, true);
    AnswersAppend(FRESH, events, last, false);
    AnswersLength(FRESH, events, true);
    AnswersLength(FRESH, events, false);
    SameLengthDiffer(Answers(FRESH, events, true), Answers(p, last, true), Answers(FRESH, events, false), Answers(u, last, false));
  }

  lemma SameLengthDiffer(a: seq<nat>, x: seq<nat>, b: seq<nat>, y: seq<nat>)
    requires |a| == |b| && x != y
    ensures a + x != b + y
  {
    assert (a + x)[|a|..] == x && (b + y)[|b|..] == y;
  }

  // ---------- The crowd ----------

  /** At the first reading nothing is idle, so nothing is dropped. */
  lemma FirstAttempt(w: World, k: Key, prune: bool)
    requires k !in w.table && w.clock == 0
    ensures BeginWait(w.table, [k], 0, prune) == 0
    ensures Step(w, Begin([k], 0), prune) == World(w.table[k := Entry(0, 1, 0)], w.outstanding + [[k]], 0)
  {
    assert Prune(w.table, 0) == w.table;
    assert [k][1..] == [] && Wait(w.table, [], 0) == 0;
    assert ReserveAll(w.table, [k], 0) == ReserveKey(w.table, k, 0);
  }

  lemma {:induction false} CrowdTableIs(n: nat)
    ensures |CrowdTable(n)| == n + 1 && VICTIM in CrowdTable(n) && CrowdTable(n)[VICTIM] == Entry(1, 0, 0)
    ensures forall k :: k in CrowdTable(n) && k != VICTIM ==> k.User? && |k.name| <= n && CrowdTable(n)[k] == Entry(0, 1, 0)
  {
    if n > 0 {
      CrowdTableIs(n - 1);
      assert |Name(n)| == n;
      assert User(Name(n)) !in CrowdTable(n - 1);
    }
  }

  lemma {:induction false} CrowdComes(before: seq<seq<Key>>, n: nat, prune: bool)
    ensures Possible(Crowded(before, 0), Crowd(n), prune)
    ensures Run(Crowded(before, 0), Crowd(n), prune) == Crowded(before, n)
  {
    if n > 0 {
      CrowdComes(before, n - 1, prune);
      OneMoreComes(before, n, prune);
      OneStep(Crowded(before, n - 1), Begin([User(Name(n))], 0), prune);
      RunAppend(Crowded(before, 0), Crowd(n - 1), [Begin([User(Name(n))], 0)], prune);
    }
  }

  lemma OneMoreComes(before: seq<seq<Key>>, n: nat, prune: bool)
    requires n > 0
    ensures Step(Crowded(before, n - 1), Begin([User(Name(n))], 0), prune) == Crowded(before, n)
  {
    CrowdTableIs(n - 1);
    assert |Name(n)| == n;
    FirstAttempt(Crowded(before, n - 1), User(Name(n)), prune);
    assert before + CrowdKeys(n - 1) + [[User(Name(n))]] == before + CrowdKeys(n);
  }

  lemma OneStep(w: World, e: Event, prune: bool)
    requires Enabled(w, e)
    ensures Possible(w, [e], prune) && Run(w, [e], prune) == Step(w, e, prune)
  {
    assert [e][1..] == [];
  }

  // ---------- The drop ----------

  const DROP := Begin([NEWCOMER], ENTRY_TTL)

  /** One attempt more, when everything idle has been for as long as an entry lives: the
      victim's entry is dropped from the pruned table, and nothing else. */
  lemma Dropped(before: seq<seq<Key>>, n: nat)
    requires n >= PRUNE_THRESHOLD
    ensures var w := Crowded(before, n);
            && Enabled(w, DROP)
            && (var p, u := Step(w, DROP, true), Step(w, DROP, false);
                && VICTIM !in p.table && At(u.table, VICTIM) == Some(Entry(1, 0, 0))
                && p.outstanding == u.outstanding == before + CrowdKeys(n) + [[NEWCOMER]])
  {
    CrowdTableIs(n);
    DroppedFrom(Crowded(before, n));
  }

  lemma DroppedFrom(w: World)
    requires |w.table| > PRUNE_THRESHOLD && NEWCOMER !in w.table
    requires At(w.table, VICTIM) == Some(Entry(1, 0, 0))
    ensures Enabled(w, DROP)
    ensures VICTIM !in Step(w, DROP, true).table && At(Step(w, DROP, false).table, VICTIM) == Some(Entry(1, 0, 0))
    ensures Step(w, DROP, true).outstanding == Step(w, DROP, false).outstanding == w.outstanding + [[NEWCOMER]]
  {
    assert Idle(w.table[VICTIM], ENTRY_TTL);
    AloneIsFree(w.table, NEWCOMER, ENTRY_TTL);
    AloneIsFree(Prune(w.table, ENTRY_TTL), NEWCOMER, ENTRY_TTL);
    assert VICTIM !in [NEWCOMER];
    ReserveAllAt(w.table, [NEWCOMER], ENTRY_TTL, VICTIM);
    ReserveAllAt(Prune(w.table, ENTRY_TTL), [NEWCOMER], ENTRY_TTL, VICTIM);
  }

  lemma AloneIsFree(t: Table, k: Key, now: nat)
    requires k !in t
    ensures Wait(t, [k], now) == 0
  {
    AdmitsIff(t, [k], now);
  }

  function Filling(opening: seq<Event>, n: nat): seq<Event> {
    opening + Crowd(n) + [DROP]
  }

  lemma Filled(opening: seq<Event>, before: seq<seq<Key>>, n: nat, prune: bool)
    requires n >= PRUNE_THRESHOLD
    requires Possible(FRESH, opening, prune) && Run(FRESH, opening, prune) == Crowded(before, 0)
    ensures Possible(FRESH, Filling(opening, n), prune)
    ensures Enabled(Crowded(before, n), DROP)
    ensures Run(FRESH, Filling(opening, n), prune) == Step(Crowded(before, n), DROP, prune)
  {
    CrowdComes(before, n, prune);
    RunAppend(FRESH, opening, Crowd(n), prune);
    Dropped(before, n);
    OneStep(Crowded(before, n), DROP, prune);
    RunAppend(FRESH, opening + Crowd(n), [DROP], prune);
  }

  /** After the drop, one more operation on the victim and three attempts on it. */
  lemma ForgettingShows(opening: seq<Event>, before: seq<seq<Key>>, n: nat, e: Event)
    requires n >= PRUNE_THRESHOLD
    requires forall prune :: Possible(FRESH, opening, prune) && Run(FRESH, opening, prune) == Crowded(before, 0)
    requires (e.Fail? && e.attempt < |before| && before[e.attempt] == [VICTIM]) || (e.Begin? && e.keys == [VICTIM] && e.now < ENTRY_TTL)
    ensures var run := Filling(opening, n) + ([e] + Tries(VICTIM, e.now, 3));
            Possible(FRESH, run, true) && Possible(FRESH, run, false) && Answers(FRESH, run, true) != Answers(FRESH, run, false)
  {
    Filled(opening, before, n, true);
    Filled(opening, before, n, false);
    Dropped(before, n);
    var p, u := Run(FRESH, Filling(opening, n), true), Run(FRESH, Filling(opening, n), false);
    VictimFewer(p, u, e);
    FewerShowsAfter(p, u, e, VICTIM);
    DiffersAtEnd(Filling(opening, n), [e] + Tries(VICTIM, e.now, 3), p, u);
  }

  lemma VictimFewer(p: World, u: World, e: Event)
    requires VICTIM !in p.table && At(u.table, VICTIM) == Some(Entry(1, 0, 0)) && p.outstanding == u.outstanding
    requires (e.Fail? && e.attempt < |p.outstanding| && p.outstanding[e.attempt] == [VICTIM])
             || (e.Begin? && e.keys == [VICTIM] && e.now < ENTRY_TTL)
    ensures Enabled(p, e) && Enabled(u, e)
    ensures FewerAt(Step(p, e, true).table, Step(u, e, false).table, VICTIM, e.now)
  {
    var keys := [VICTIM];
    assert VICTIM in keys;
    if e.Fail? {
      FailAllAt(p.table, keys, e.now, VICTIM);
      FailAllAt(u.table, keys, e.now, VICTIM);
    } else {
      var start := Prune(p.table, e.now);
      AdmitsIff(start, keys, e.now);
      AdmitsIff(u.table, keys, e.now);
      ReserveAllAt(start, keys, e.now, VICTIM);
      ReserveAllAt(u.table, keys, e.now, VICTIM);
    }
  }

  // ---------- Readings ----------

  /** Every reading in the run is this one. */
  predicate AllAt(events: seq<Event>, now: nat) {
    forall i :: 0 <= i < |events| && (events[i].Begin? || events[i].Fail?) ==> events[i].now == now
  }

  lemma {:induction false} AllAtInOrder(w: World, events: seq<Event>, now: nat, prune: bool)
    requires Possible(w, events, prune) && AllAt(events, now) && w.clock <= now
    ensures InOrderRun(w, events, prune)
    decreases |events|
  {
    if events != [] {
      AllAtInOrder(Step(w, events[0], prune), events[1..], now, prune);
    }
  }

  lemma {:induction false} CrowdAtZero(n: nat)
    ensures AllAt(Crowd(n), 0)
  {
    if n > 0 {
      CrowdAtZero(n - 1);
    }
  }

  lemma {:induction false} TwoReadings(w: World, early: seq<Event>, late: seq<Event>, now: nat, prune: bool)
    requires AllAt(early, 0) && AllAt(late, now) && w.clock == 0
    requires Possible(w, early + late, prune)
    ensures InOrderRun(w, early + late, prune)
    decreases |early|
  {
    if early == [] {
      assert early + late == late;
      AllAtInOrder(w, late, now, prune);
    } else {
      assert (early + late)[0] == early[0] && (early + late)[1..] == early[1..] + late;
      TwoReadings(Step(w, early[0], prune), early[1..], late, now, prune);
    }
  }

  // ---------- The two runs ----------

  /** Two attempts, one of which succeeds and so clears the other's reservation too; then a
      failure. The second attempt is still outstanding. */
  function Overlap(): seq<Event> {
    [Begin([VICTIM], 0), Begin([VICTIM], 0), Succeed(0), Begin([VICTIM], 0), Fail(1, 0)]
  }

  /** An attempt that fails. */
  function OneFailure(): seq<Event> {
    [Begin([VICTIM], 0), Fail(0, 0)]
  }

  lemma FailureOfLast(o: seq<seq<Key>>, prune: bool)
    ensures var w := World(map[VICTIM := Entry(0, 1, 0)], o + [[VICTIM]], 0);
            Enabled(w, Fail(|o|, 0)) && Step(w, Fail(|o|, 0), prune) == Crowded(o, 0)
  {
    var w := World(map[VICTIM := Entry(0, 1, 0)], o + [[VICTIM]], 0);
    assert [VICTIM][1..] == [];
    assert FailAll(w.table, [VICTIM], 0) == FailKey(w.table, VICTIM, 0) == map[VICTIM := Entry(1, 0, 0)];
    assert Without(w.outstanding, |o|) == o + CrowdKeys(0);
  }

  lemma BeginThenFail(o: seq<seq<Key>>, prune: bool)
    ensures var w, events := World(map[], o, 0), [Begin([VICTIM], 0), Fail(|o|, 0)];
            Possible(w, events, prune) && Run(w, events, prune) == Crowded(o, 0)
  {
    var w, events := World(map[], o, 0), [Begin([VICTIM], 0), Fail(|o|, 0)];
    FirstAttempt(w, VICTIM, prune);
    FailureOfLast(o, prune);
    assert events[1..] == [Fail(|o|, 0)];
    OneStep(Step(w, events[0], prune), Fail(|o|, 0), prune);
  }

  /** Two attempts and a success leave one attempt outstanding that the table does not
      count. */
  lemma SuccessLosesCount(prune: bool)
    ensures var events := [Begin([VICTIM], 0), Begin([VICTIM], 0), Succeed(0)];
            Possible(FRESH, events, prune) && Run(FRESH, events, prune) == World(map[], [[VICTIM]], 0)
  {
    var keys := [VICTIM];
    var events := [Begin(keys, 0), Begin(keys, 0), Succeed(0)];
    var w1 := World(map[VICTIM := Entry(0, 1, 0)], [keys], 0);
    var w2 := World(map[VICTIM := Entry(0, 2, 0)], [keys, keys], 0);
    FirstAttempt(FRESH, VICTIM, prune);
    assert [] + [keys] == [keys] && [keys] + [keys] == [keys, keys];
    OneTry(w1, VICTIM, 0, prune);
    SecondAttempt(w1, w2, prune);
    assert keys[1..] == [];
    assert ClearAll(w2.table, keys) == map[];
    assert Without(w2.outstanding, 0) == [keys];
    assert events[1..] == [Begin(keys, 0), Succeed(0)] && events[1..][1..] == [Succeed(0)];
    OneStep(w2, Succeed(0), prune);
  }

  lemma SecondAttempt(w1: World, w2: World, prune: bool)
    requires w1 == World(map[VICTIM := Entry(0, 1, 0)], [[VICTIM]], 0)
    requires w2 == World(map[VICTIM := Entry(0, 2, 0)], [[VICTIM], [VICTIM]], 0)
    ensures Step(w1, Begin([VICTIM], 0), prune) == w2
  {
    assert Prune(w1.table, 0) == w1.table;
    assert [VICTIM][1..] == [] && Wait(w1.table, [], 0) == 0;
    assert ReserveAll(w1.table, [VICTIM], 0) == ReserveKey(w1.table, VICTIM, 0) == w2.table;
    assert [[VICTIM]] + [[VICTIM]] == [[VICTIM], [VICTIM]];
  }

  lemma OverlapOpens(prune: bool)
    ensures Possible(FRESH, Overlap(), prune) && Run(FRESH, Overlap(), prune) == Crowded([[VICTIM]], 0)
  {
    SuccessLosesCount(prune);
    BeginThenFail([[VICTIM]], prune);
    var a, b := [Begin([VICTIM], 0), Begin([VICTIM], 0), Succeed(0)], [Begin([VICTIM], 0), Fail(1, 0)];
    RunAppend(FRESH, a, b, prune);
    assert Overlap() == a + b;
  }

  /** With all readings in order, and any crowd large enough to make the table prune: a
      success overlaps another attempt, whose key then fails once, is dropped, and fails
      again. The fourth of the attempts counted is made to wait without pruning and admitted
      with it. */
  lemma OverlapForgets(n: nat)
    requires n >= PRUNE_THRESHOLD
    ensures var run := Filling(Overlap(), n) + ([Fail(0, ENTRY_TTL)] + Tries(VICTIM, ENTRY_TTL, 3));
            && Possible(FRESH, run, true) && Possible(FRESH, run, false) && Answers(FRESH, run, true) != Answers(FRESH, run, false)
            && InOrderRun(FRESH, run, false)
  {
    OverlapOpens(true);
    OverlapOpens(false);
    assert forall prune :: Possible(FRESH, Overlap(), prune) && Run(FRESH, Overlap(), prune) == Crowded([[VICTIM]], 0);
    ForgettingShows(Overlap(), [[VICTIM]], n, Fail(0, ENTRY_TTL));
    OverlapInOrder(n);
  }

  lemma OverlapInOrder(n: nat)
    requires Possible(FRESH, Filling(Overlap(), n) + ([Fail(0, ENTRY_TTL)] + Tries(VICTIM, ENTRY_TTL, 3)), false)
    ensures InOrderRun(FRESH, Filling(Overlap(), n) + ([Fail(0, ENTRY_TTL)] + Tries(VICTIM, ENTRY_TTL, 3)), false)
  {
    var early, late := Overlap() + Crowd(n), [DROP, Fail(0, ENTRY_TTL)] + Tries(VICTIM, ENTRY_TTL, 3);
    CrowdAtZero(n);
    assert AllAt(Overlap(), 0);
    assert Filling(Overlap(), n) + ([Fail(0, ENTRY_TTL)] + Tries(VICTIM, ENTRY_TTL, 3)) == early + late;
    TwoReadings(FRESH, early, late, ENTRY_TTL, false);
  }

  /** With nothing overlapping, and any such crowd: a reading a nanosecond older than the one
      that dropped the entry finds it forgotten, though at that reading it was not idle yet. */
  lemma StaleReadingForgets(n: nat)
    requires n >= PRUNE_THRESHOLD
    ensures var now := ENTRY_TTL - 1;
            var run := Filling(OneFailure(), n) + ([Begin([VICTIM], now)] + Tries(VICTIM, now, 3));
            Possible(FRESH, run, true) && Possible(FRESH, run, false) && Answers(FRESH, run, true) != Answers(FRESH, run, false)
  {
    BeginThenFail([], true);
    BeginThenFail([], false);
    assert forall prune :: Possible(FRESH, OneFailure(), prune) && Run(FRESH, OneFailure(), prune) == Crowded([], 0);
    ForgettingShows(OneFailure(), [], n, Begin([VICTIM], ENTRY_TTL - 1));
  }
}
