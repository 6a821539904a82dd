/** When the Live Activity actor asks for a second activity beside one that is live. */
module LiveActivityDoubles {
  import opened Wrappers
  import opened LiveActivity

  /** An activity of the present generation that the system has and can update and nobody
      has ended. One that a stop has made obsolete is not, even while its owner is still to
      end it. */
  predicate Live(s: State, tag: nat) {
    && Granted(s, tag).Some? && s.requests[tag].generation == s.generation
    && Granted(s, tag).value !in s.ended && Granted(s, tag).value in s.system && Granted(s, tag).value in s.updatable
  }

  ghost predicate SomeLive(s: State) {
    exists tag :: Live(s, tag)
  }

  /** Another activity of the present generation was asked for after a live one. */
  ghost predicate Doubled(s: State) {
    exists a, b :: a < b && Live(s, a) && b in s.requests && s.requests[b].generation == s.generation
  }

  /** A call that resumes from waiting on an obsolete request and finds none in flight: it
      leaves the loop, and does not look for an activity again. */
  predicate FallsOut(s: State, l: Label) {
    && l.Resume? && l.c < |s.callers| && s.callers[l.c].Waiting?
    && s.callers[l.c].tag in s.requests && s.requests[s.callers[l.c].tag].Answered?
    && s.callers[l.c].generation != s.generation
    && Released(s.pending, s.callers[l.c].tag).None?
  }

  lemma {:induction false} UpdatableFound(system: seq<Id>, updatable: set<Id>, id: Id)
    requires id in system && id in updatable
    ensures FirstUpdatable(system, updatable).Some?
  {
    if system[0] !in updatable {
      UpdatableFound(system[1..], updatable, id);
    }
  }

  lemma StartFinds(s: State, c: nat)
    requires c < |s.callers| && UpdatableActivity(s).Some?
    ensures StartCall(s, c).nextTag == s.nextTag
  {
  }

  lemma WaiterAsks(s: State, c: nat)
    requires c < |s.callers| && s.callers[c].Waiting?
    ensures ResumeWaiter(s, c).nextTag > s.nextTag <==> FallsOut(s, Resume(c))
    ensures FallsOut(s, Resume(c)) ==> ResumeWaiter(s, c) == LoopTop(s.(pending := None), c, s.callers[c].waited)
  {
  }

  lemma OthersAskNothing(s: State, c: nat)
    requires c < |s.callers| && !s.callers[c].Waiting?
    ensures ResumeCall(s, c).nextTag == s.nextTag
  {
  }

  /** Beside a live activity a request is made exactly when a call falls out of the loop. */
  lemma SecondRequestIff(s: State, l: Label)
    requires Inv(s) && SomeLive(s)
    ensures Step(s, l).nextTag > s.nextTag <==> FallsOut(s, l)
  {
    var tag: nat :| Live(s, tag);
    UpdatableFound(s.system, s.updatable, Granted(s, tag).value);
    match l
    case Start(c) =>
      if c < |s.callers| {
        StartFinds(s, c);
      }
    case Update(c) =>
      if c < |s.callers| {
        StartFinds(s, c);
      }
    case Resume(c) =>
      if c < |s.callers| {
        if s.callers[c].Waiting? {
          WaiterAsks(s, c);
        } else {
          OthersAskNothing(s, c);
        }
      }
    case _ =>
  }

  lemma FallDoubles(s: State, l: Label)
    requires Inv(s) && SomeLive(s) && FallsOut(s, l)
    ensures Doubled(Step(s, l))
  {
    var tag: nat :| Live(s, tag);
    WaiterAsks(s, l.c);
    var n := LoopTop(s.(pending := None), l.c, s.callers[l.c].waited);
    assert Granted(n, tag) == Granted(s, tag);
    assert Live(n, tag) && tag < n.nextTag && n.nextTag in n.requests;
  }

  /** The system does not bring back an activity that it has reported as over. */
  predicate NoRevival(s: State, l: Label) {
    l.Report? && l.updatable ==> l.id in s.updatable
  }

  /** What a step does to requests and activities: it makes at most one request, in the
      present generation, or answers the one in flight, with an activity of its own. */
  ghost predicate Moves(s: State, n: State) {
    && s.generation <= n.generation && s.nextTag <= n.nextTag <= s.nextTag + 1
    && (forall t :: t in s.requests ==> t in n.requests && n.requests[t].generation == s.requests[t].generation)
    && (forall t :: t in s.requests && s.requests[t].Answered? ==> n.requests[t] == s.requests[t])
    && (forall t :: t in n.requests && t !in s.requests ==> t == n.nextTag > s.nextTag)
    && (n.nextTag > s.nextTag ==> n.generation == s.generation && forall t :: t in s.requests ==> n.requests[t] == s.requests[t])
    && s.ended <= n.ended
    && (forall id :: id in n.system ==> id in s.system || id == s.nextId)
    && (forall id :: id in n.updatable ==> id in s.updatable || id == s.nextId)
  }

  lemma LoopTopMoves(s: State, c: nat, waited: seq<nat>)
    requires Numbered(s) && c < |s.callers|
    ensures Moves(s, LoopTop(s, c, waited))
  {
  }

  lemma StartMoves(s: State, c: nat)
    requires Inv(s) && c < |s.callers|
    ensures Moves(s, StartCall(s, c))
  {
    if UpdatableActivity(s).None? {
      LoopTopMoves(s.(current := None), c, []);
    }
  }

  lemma WaiterMoves(s: State, c: nat)
    requires Inv(s) && c < |s.callers| && s.callers[c].Waiting?
    ensures Moves(s, ResumeWaiter(s, c))
  {
    var me := s.callers[c];
    if me.generation != s.generation {
      LoopTopMoves(s.(pending := Released(s.pending, me.tag)), c, me.waited);
    }
  }

  lemma OwnerMoves(s: State, c: nat)
    requires Inv(s) && c < |s.callers| && s.callers[c].Owning?
    ensures Moves(s, ResumeOwner(s, c))
  {
  }

  lemma StepMoves(s: State, l: Label)
    requires Inv(s) && NoRevival(s, l)
    ensures Moves(s, Step(s, l))
  {
    match l
    case Start(c) =>
      if c < |s.callers| {
        StartMoves(s, c);
      }
    case Update(c) =>
      if c < |s.callers| {
        StartMoves(s, c);
      }
    case Resume(c) =>
      if c < |s.callers| {
        ResumeMoves(s, c);
      }
    case Vanish(id) => OthersOf(s.system, id);
    case _ =>
  }

  lemma ResumeMoves(s: State, c: nat)
    requires Inv(s) && c < |s.callers|
    ensures Moves(s, ResumeCall(s, c))
  {
    match s.callers[c]
    case Waiting(_, _, _) => WaiterMoves(s, c);
    case Owning(_, _, _) => OwnerMoves(s, c);
    case _ =>
  }

  /** What is live after a step was live before it, unless the step granted it or began the
      generation. */
  lemma LiveBefore(s: State, n: State, tag: nat)
    requires Named(s) && Moves(s, n) && Live(n, tag)
    requires Granted(s, tag).Some? && s.generation == n.generation
    ensures Live(s, tag)
  {
  }

  /** A step leads to such a double exactly when a call falls out of the loop beside a live
      activity. */
  lemma DoubledStep(s: State, l: Label)
    requires Inv(s) && NoRevival(s, l) && !Doubled(s)
    ensures Doubled(Step(s, l)) <==> FallsOut(s, l) && SomeLive(s)
  {
    var n := Step(s, l);
    if Doubled(n) {
      var a: nat, b: nat :| a < b && Live(n, a) && b in n.requests && n.requests[b].generation == n.generation;
      StepKeepsInv(s, l);
      StepMoves(s, l);
      DoubleIsNew(s, n, a, b);
      SecondRequestIff(s, l);
    }
    if FallsOut(s, l) && SomeLive(s) {
      FallDoubles(s, l);
    }
  }

  lemma DoubleIsNew(s: State, n: State, a: nat, b: nat)
    requires Inv(s) && Numbered(n) && Moves(s, n) && !Doubled(s)
    requires a < b && Live(n, a) && b in n.requests && n.requests[b].generation == n.generation
    ensures n.nextTag > s.nextTag && Live(s, a)
  {
    if b in s.requests {
      assert a in s.requests && a != s.nextTag;
      assert s.requests[a].Answered?;
      LiveBefore(s, n, a);
    } else {
      assert a in s.requests && Granted(s, a) == Granted(n, a);
      LiveBefore(s, n, a);
    }
  }

  ghost predicate NeverRevives(s: State, labels: seq<Label>)
    decreases |labels|
  {
    labels == [] || (NoRevival(s, labels[0]) && NeverRevives(Step(s, labels[0]), labels[1..]))
  }

  /** Somewhere in the run there is such a double. */
  ghost predicate EverDoubled(s: State, labels: seq<Label>)
    decreases |labels|
  {
    Doubled(s) || (labels != [] && EverDoubled(Step(s, labels[0]), labels[1..]))
  }

  /** Somewhere in the run a call falls out of the loop beside a live activity. */
  ghost predicate EverFallsOut(s: State, labels: seq<Label>)
    decreases |labels|
  {
    labels != [] && ((FallsOut(s, labels[0]) && SomeLive(s)) || EverFallsOut(Step(s, labels[0]), labels[1..]))
  }

  lemma {:induction false} DoubledIffFrom(s: State, labels: seq<Label>)
    requires Inv(s) && !Doubled(s) && NeverRevives(s, labels)
    ensures EverDoubled(s, labels) <==> EverFallsOut(s, labels)
    decreases |labels|
  {
    if labels != [] {
      StepKeepsInv(s, labels[0]);
      DoubledStep(s, labels[0]);
      if !Doubled(Step(s, labels[0])) {
        DoubledIffFrom(Step(s, labels[0]), labels[1..]);
      }
    }
  }

  /** In every run, an activity is asked for beside a live one if and only if a call falls
      out of the loop beside a live one. */
  lemma SecondActivityIff(callers: nat, system: seq<Id>, updatable: set<Id>, nextId: Id, labels: seq<Label>)
    requires NeverRevives(Initial(callers, system, updatable, nextId), labels)
    ensures var s := Initial(callers, system, updatable, nextId); EverDoubled(s, labels) <==> EverFallsOut(s, labels)
  {
    RunKeepsInv(Initial(callers, system, updatable, nextId), []);
    DoubledIffFrom(Initial(callers, system, updatable, nextId), labels);
  }

  /** An activity of any generation that the system has and can update and that nobody has
      ended. */
  predicate Standing(s: State, tag: nat) {
    && Granted(s, tag).Some? && Granted(s, tag).value !in s.ended
    && Granted(s, tag).value in s.system && Granted(s, tag).value in s.updatable
  }

  predicate AtRest(s: State) {
    forall c :: 0 <= c < |s.callers| ==> s.callers[c].Idle?
  }

  /** Once every call has returned, two standing activities are such a double. */
  lemma TwoStanding(s: State, a: nat, b: nat)
    requires Inv(s) && AtRest(s) && a < b && Standing(s, a) && Standing(s, b)
    ensures Doubled(s)
  {
    assert a in s.kept && b in s.kept;
    assert !Disposed(s, Granted(s, a).value) && !Disposed(s, Granted(s, b).value);
    assert Live(s, a);
  }

  lemma {:induction false} LastDoubled(s: State, labels: seq<Label>)
    requires Doubled(Run(s, labels))
    ensures EverDoubled(s, labels)
    decreases |labels|
  {
    if labels != [] {
      LastDoubled(Step(s, labels[0]), labels[1..]);
    }
  }

  /** So when every call of a run has returned, at most one of the activities it asked for
      is standing, unless a call fell out of the loop beside a live one. */
  lemma OneActivity(callers: nat, system: seq<Id>, updatable: set<Id>, nextId: Id, labels: seq<Label>, a: nat, b: nat)
    requires var s := Initial(callers, system, updatable, nextId);
             && NeverRevives(s, labels) && !EverFallsOut(s, labels) && AtRest(Run(s, labels))
             && Standing(Run(s, labels), a) && Standing(Run(s, labels), b)
    ensures a == b
  {
    var s := Initial(callers, system, updatable, nextId);
    RunKeepsInv(s, labels);
    SecondActivityIff(callers, system, updatable, nextId, labels);
    if a != b {
      TwoStanding(Run(s, labels), if a < b then a else b, if a < b then b else a);
      LastDoubled(s, labels);
    }
  }

  /** Three starts and a stop, the last start resuming late. */
  function LateRun(): seq<Label> {
    Crossing() + Replacing() + Returning()
  }

  function Crossing(): seq<Label> {
    [Start(0), Start(1)] + [Start(2), Stop(3)] + [Answer(1, true), Resume(1)]
  }

  function Replacing(): seq<Label> {
    [Answer(2, true), Resume(1)] + [Resume(2), Answer(3, true)]
  }

  function Returning(): seq<Label> {
    [Resume(0), Resume(0)] + [Resume(2)]
  }

  /** The states of the run below, up to where the first activity is ended. */
  function At(current: Option<Id>, pending: Option<Pending>, nextTag: nat, generation: nat, requests: map<nat, Request>,
              system: seq<Id>, callers: seq<Caller>, kept: map<nat, bool>): State {
    State(current, pending, nextTag, generation, requests, system, set id | id in system, |system|, callers, {}, kept)
  }

  function Callers(a: Caller, b: Caller, c: Caller): seq<Caller> {
    [a, b, c, Idle]
  }

  lemma SetCallers(a: Caller, b: Caller, c: Caller, x: Caller)
    ensures Callers(a, b, c)[0 := x] == Callers(x, b, c)
    ensures Callers(a, b, c)[1 := x] == Callers(a, x, c)
    ensures Callers(a, b, c)[2 := x] == Callers(a, b, x)
    ensures Callers(a, b, c)[3 := Idle] == Callers(a, b, c)
  {
  }

  const FIRST := Owning(1, 0, [])
  const LATE := Waiting(1, 0, [1])

  lemma ThreeStarts()
    ensures Step(Step(Step(Initial(4, [], {}, 0), Start(0)), Start(1)), Start(2)) ==
            At(None, Some(Pending(1, 0)), 1, 0, map[1 := Running(0)], [], Callers(FIRST, LATE, LATE), map[])
  {
    var s0 := Initial(4, [], {}, 0);
    assert s0 == At(None, None, 0, 0, map[], [], Callers(Idle, Idle, Idle), map[]);
    SetCallers(Idle, Idle, Idle, FIRST);
    var s1 := At(None, Some(Pending(1, 0)), 1, 0, map[1 := Running(0)], [], Callers(FIRST, Idle, Idle), map[]);
    assert Step(s0, Start(0)) == s1;
    assert [] + [1] == [1];
    SetCallers(FIRST, Idle, Idle, LATE);
    var s2 := s1.(callers := Callers(FIRST, LATE, Idle));
    assert Step(s1, Start(1)) == s2;
    SetCallers(FIRST, LATE, Idle, LATE);
  }

  lemma StopThenAnswer(s: State)
    requires s == At(None, Some(Pending(1, 0)), 1, 0, map[1 := Running(0)], [], Callers(FIRST, LATE, LATE), map[])
    ensures Step(Step(s, Stop(3)), Answer(1, true)) ==
            At(None, Some(Pending(1, 0)), 1, 1, map[1 := Answered(0, Some(0))], [0], Callers(FIRST, LATE, LATE), map[])
  {
    SetCallers(FIRST, LATE, LATE, Idle);
    assert Step(s, Stop(3)) == s.(generation := 1);
    assert map[1 := Running(0)][1 := Answered(0, Some(0))] == map[1 := Answered(0, Some(0))];
    assert [] + [0] == [0];
    assert {} + {0} == (set id | id in [0]);
  }

  lemma FirstWaiterAsks(s: State)
    requires s == At(None, Some(Pending(1, 0)), 1, 1, map[1 := Answered(0, Some(0))], [0], Callers(FIRST, LATE, LATE), map[])
    ensures Step(s, Resume(1)) ==
            At(None, Some(Pending(2, 1)), 2, 1, map[1 := Answered(0, Some(0)), 2 := Running(1)], [0],
               Callers(FIRST, Owning(2, 1, [1]), LATE), map[])
  {
    SetCallers(FIRST, LATE, LATE, Owning(2, 1, [1]));
    assert map[1 := Answered(0, Some(0))][2 := Running(1)] == map[1 := Answered(0, Some(0)), 2 := Running(1)];
  }

  lemma SecondAnswer(s: State)
    requires s == At(None, Some(Pending(2, 1)), 2, 1, map[1 := Answered(0, Some(0)), 2 := Running(1)], [0],
                     Callers(FIRST, Owning(2, 1, [1]), LATE), map[])
    ensures Step(Step(s, Answer(2, true)), Resume(1)) ==
            At(Some(1), None, 2, 1, map[1 := Answered(0, Some(0)), 2 := Answered(1, Some(1))], [0, 1],
               Callers(FIRST, Idle, LATE), map[2 := true])
  {
    var n := At(None, Some(Pending(2, 1)), 2, 1, map[1 := Answered(0, Some(0)), 2 := Answered(1, Some(1))], [0, 1],
                Callers(FIRST, Owning(2, 1, [1]), LATE), map[]);
    assert s.requests[2 := Answered(1, Some(1))] == n.requests;
    assert [0] + [1] == [0, 1];
    assert s.updatable + {1} == n.updatable;
    assert Step(s, Answer(2, true)) == n;
    SetCallers(FIRST, Owning(2, 1, [1]), LATE, Idle);
    var empty: map<nat, bool> := map[];
    assert empty[2 := true] == map[2 := true];
  }

  lemma LateWaiterAsks(s: State)
    requires s == At(Some(1), None, 2, 1, map[1 := Answered(0, Some(0)), 2 := Answered(1, Some(1))], [0, 1],
                     Callers(FIRST, Idle, LATE), map[2 := true])
    ensures Step(Step(s, Resume(2)), Answer(3, true)) ==
            At(Some(1), Some(Pending(3, 1)), 3, 1, s.requests[3 := Answered(1, Some(2))], [0, 1, 2],
               Callers(FIRST, Idle, Owning(3, 1, [1])), map[2 := true])
  {
    SetCallers(FIRST, Idle, LATE, Owning(3, 1, [1]));
    var n := At(Some(1), Some(Pending(3, 1)), 3, 1, s.requests[3 := Running(1)], [0, 1],
                Callers(FIRST, Idle, Owning(3, 1, [1])), map[2 := true]);
    assert Step(s, Resume(2)) == n;
    assert n.requests[3 := Answered(1, Some(2))] == s.requests[3 := Answered(1, Some(2))];
    assert [0, 1] + [2] == [0, 1, 2];
    assert n.updatable + {2} == (set id | id in [0, 1, 2]);
  }

  /** The first owner ends its obsolete activity, and the last keeps its own. */
  lemma OwnersReturn(s: State, requests: map<nat, Request>)
    requires s == At(Some(1), Some(Pending(3, 1)), 3, 1, requests, [0, 1, 2],
                     Callers(FIRST, Idle, Owning(3, 1, [1])), map[2 := true])
    requires 1 in requests && requests[1] == Answered(0, Some(0)) && 3 in requests && requests[3] == Answered(1, Some(2))
    ensures Step(Step(Step(s, Resume(0)), Resume(0)), Resume(2)) ==
            s.(current := Some(2), pending := None, callers := Callers(Idle, Idle, Idle), ended := {0},
               kept := s.kept[1 := false][3 := true])
  {
    SetCallers(FIRST, Idle, Owning(3, 1, [1]), Ending([]));
    var n1 := s.(callers := Callers(Ending([]), Idle, Owning(3, 1, [1])), ended := {0}, kept := s.kept[1 := false]);
    assert [0][1..] == [] && {} + {0} == {0};
    assert Step(s, Resume(0)) == n1;
    SetCallers(Ending([]), Idle, Owning(3, 1, [1]), Idle);
    var n2 := n1.(callers := Callers(Idle, Idle, Owning(3, 1, [1])));
    assert Step(n1, Resume(0)) == n2;
    SetCallers(Idle, Idle, Owning(3, 1, [1]), Idle);
  }

  lemma {:induction false} RunAppend(s: State, a: seq<Label>, b: seq<Label>)
    ensures Run(s, a + b) == Run(Run(s, a), b)
    decreases |a|
  {
    if a == [] {
      assert a + b == b;
    } else {
      assert (a + b)[1..] == a[1..] + b;
      RunAppend(Step(s, a[0]), a[1..], b);
    }
  }

  lemma RunOne(s: State, l: Label)
    ensures Run(s, [l]) == Step(s, l)
  {
    assert [l][1..] == [];
  }

  lemma RunTwo(s: State, l: Label, m: Label)
    ensures Run(s, [l, m]) == Step(Step(s, l), m)
  {
    RunOne(Step(s, l), m);
    assert [l, m][1..] == [m];
  }

  function Crossed(): State {
    At(None, Some(Pending(2, 1)), 2, 1, map[1 := Answered(0, Some(0)), 2 := Running(1)], [0],
       Callers(FIRST, Owning(2, 1, [1]), LATE), map[])
  }

  const ANSWERS := map[1 := Answered(0, Some(0)), 2 := Answered(1, Some(1))][3 := Answered(1, Some(2))]

  function Replaced(): State {
    At(Some(1), Some(Pending(3, 1)), 3, 1, ANSWERS, [0, 1, 2], Callers(FIRST, Idle, Owning(3, 1, [1])), map[2 := true])
  }

  function Over(): State {
    Replaced().(current := Some(2), pending := None, callers := Callers(Idle, Idle, Idle), ended := {0},
                kept := map[2 := true][1 := false][3 := true])
  }

  lemma RunCrossing()
    ensures Run(Initial(4, [], {}, 0), Crossing()) == Crossed()
  {
    var s0 := Initial(4, [], {}, 0);
    ThreeStarts();
    var s2 := Step(Step(s0, Start(0)), Start(1));
    RunTwo(s0, Start(0), Start(1));
    StopThenAnswer(Step(s2, Start(2)));
    var s4 := Step(Step(s2, Start(2)), Stop(3));
    RunTwo(s2, Start(2), Stop(3));
    FirstWaiterAsks(Step(s4, Answer(1, true)));
    RunTwo(s4, Answer(1, true), Resume(1));
    RunAppend(s0, [Start(0), Start(1)], [Start(2), Stop(3)]);
    RunAppend(s0, [Start(0), Start(1)] + [Start(2), Stop(3)], [Answer(1, true), Resume(1)]);
  }

  lemma RunReplacing()
    ensures Run(Crossed(), Replacing()) == Replaced()
  {
    var s := Crossed();
    SecondAnswer(s);
    var s2 := Step(Step(s, Answer(2, true)), Resume(1));
    RunTwo(s, Answer(2, true), Resume(1));
    LateWaiterAsks(s2);
    RunTwo(s2, Resume(2), Answer(3, true));
    RunAppend(s, [Answer(2, true), Resume(1)], [Resume(2), Answer(3, true)]);
  }

  lemma RunReturning()
    ensures Run(Replaced(), Returning()) == Over()
  {
    var s := Replaced();
    OwnersReturn(s, ANSWERS);
    RunTwo(s, Resume(0), Resume(0));
    RunOne(Step(Step(s, Resume(0)), Resume(0)), Resume(2));
    RunAppend(s, [Resume(0), Resume(0)], [Resume(2)]);
  }

  /** So a run can end, with every call returned, in two activities that nobody has ended
      and only one of them in `current`: three starts wait on one request, a stop makes it
      obsolete, and the last start resumes after the second has already replaced it. */
  lemma TwoActivities()
    ensures var s := Run(Initial(4, [], {}, 0), LateRun());
            && AtRest(s) && Standing(s, 2) && Standing(s, 3)
            && Granted(s, 2) == Some(1) && Granted(s, 3) == Some(2) && s.current == Some(2) && s.ended == {0}
  {
    RunCrossing();
    RunReplacing();
    RunReturning();
    RunAppend(Initial(4, [], {}, 0), Crossing(), Replacing());
    RunAppend(Initial(4, [], {}, 0), Crossing() + Replacing(), Returning());
    OverIs(Over());
  }

  lemma OverIs(s: State)
    requires s == Over()
    ensures AtRest(s) && Standing(s, 2) && Standing(s, 3)
    ensures Granted(s, 2) == Some(1) && Granted(s, 3) == Some(2) && s.current == Some(2) && s.ended == {0}
  {
    assert s.requests[2] == Answered(1, Some(1)) && s.requests[3] == Answered(1, Some(2));
    assert s.callers == [Idle, Idle, Idle, Idle];
  }
}
