/** Which activities a call of the Live Activity actor ends: a start or update that finds an
    activity ends every other one the system lists, and a stop ends them all. */
module LiveActivityEnds {
  import opened Wrappers
  import opened LiveActivity

  /** A stretch of call `c` that looks for an activity to update: the first one of a start
      or update, or the one after waiting on a request of the present generation. */
  predicate Looks(s: State, l: Label, c: nat) {
    && c < |s.callers|
    && match l
       case Start(d) => d == c && s.callers[c].Idle?
       case Update(d) => d == c && s.callers[c].Idle?
       case Resume(d) =>
         && d == c && s.callers[c].Waiting? && s.callers[c].generation == s.generation
         && s.callers[c].tag in s.requests && s.requests[s.callers[c].tag].Answered?
       case _ => false
  }

  /** What the actor can see: the activities the system lists, and the one it keeps. */
  function Seen(s: State): set<Id> {
    (set id | id in s.system) + if s.current.Some? then {s.current.value} else {}
  }

  /** What a call has still to end. */
  function Duty(c: Caller): set<Id> {
    match c
    case Updating(duplicates) => set id | id in duplicates
    case Ending(rest) => set id | id in rest
    case _ => {}
  }

  /** The activity kept if it can be updated, else the first listed one that can. */
  ghost predicate Chosen(s: State, id: Id) {
    && id in s.updatable
    && if s.current.Some? && s.current.value in s.updatable then id == s.current.value
       else exists i :: 0 <= i < |s.system| && s.system[i] == id && forall j :: 0 <= j < i ==> s.system[j] !in s.updatable
  }

  lemma {:induction false} FirstIs(system: seq<Id>, updatable: set<Id>)
    ensures var first := FirstUpdatable(system, updatable);
            if first.None? then forall id :: id in system ==> id !in updatable
            else first.value in updatable
                 && exists i :: 0 <= i < |system| && system[i] == first.value && forall j :: 0 <= j < i ==> system[j] !in updatable
  {
    if system != [] && system[0] !in updatable {
      FirstIs(system[1..], updatable);
      var first := FirstUpdatable(system, updatable);
      if first.Some? {
        var rest := system[1..];
        var i :| 0 <= i < |rest| && rest[i] == first.value && forall j :: 0 <= j < i ==> rest[j] !in updatable;
        assert forall j :: 0 <= j < i + 1 ==> system[j] !in updatable by {
          assert forall j :: 0 < j < i + 1 ==> system[j] == rest[j - 1];
        }
        assert system[i + 1] == first.value;
      }
    }
  }

  lemma ChosenIs(s: State)
    ensures UpdatableActivity(s).None? <==> forall id :: id in Seen(s) ==> id !in s.updatable
    ensures UpdatableActivity(s).Some? ==> Chosen(s, UpdatableActivity(s).value)
  {
    FirstIs(s.system, s.updatable);
  }

  lemma ApplyDuty(s: State, c: nat, id: Id)
    requires c < |s.callers|
    ensures var n := Apply(s, c, id);
            && n.callers[c].Updating? && Duty(n.callers[c]) == (set x | x in s.system) - {id}
            && |n.callers[c].duplicates| <= |s.system|
            && n == s.(current := Some(id), callers := s.callers[c := n.callers[c]])
  {
    OthersOf(Tracked(s.(current := Some(id))), id);
    OthersShorter(s.system, id);
    if id !in s.system {
      OthersLast(s.system, id);
    }
  }

  lemma {:induction false} OthersShorter(list: seq<Id>, id: Id)
    ensures |Others(list, id)| <= |list|
  {
    if list != [] {
      OthersShorter(list[1..], id);
    }
  }

  lemma {:induction false} OthersLast(list: seq<Id>, id: Id)
    ensures Others(list + [id], id) == Others(list, id)
  {
    if list == [] {
      assert list + [id] == [id] && [id][1..] == [];
    } else {
      assert (list + [id])[1..] == list[1..] + [id];
      OthersLast(list[1..], id);
    }
  }

  /** A stretch that looks finds an activity exactly when it sees one that can be updated.
      It then keeps that one and has to end every other the system lists, and changes
      nothing else; what it kept before is dropped without being ended if the system neither
      lists it nor can update it. If it finds none, it keeps none and ends none: a start or
      update then waits for the request in flight or makes one, and a waiter returns. */
  lemma LookFinds(s: State, l: Label, c: nat)
    requires Looks(s, l, c)
    ensures var n := Step(s, l);
            if exists id :: id in Seen(s) && id in s.updatable then
              && n.current.Some? && Chosen(s, n.current.value)
              && n.callers[c].Updating? && |n.callers[c].duplicates| <= |s.system|
              && Duty(n.callers[c]) == (set id | id in s.system) - {n.current.value}
              && n == s.(current := n.current, callers := s.callers[c := n.callers[c]])
            else
              && n.current.None? && Duty(n.callers[c]) == {} && n.ended == s.ended
              && (if l.Resume? then n.callers[c].Idle?
                  else if s.pending.Some? then n.callers[c].Waiting? && n.requests == s.requests
                  else n.callers[c].Owning? && n.requests == s.requests[n.callers[c].tag := Running(s.generation)])
  {
    ChosenIs(s);
    var activity := UpdatableActivity(s);
    if activity.Some? {
      ApplyDuty(s, c, activity.value);
    }
  }

  /** A stop closes the generation, keeps nothing, and ends or has to end all it sees. */
  lemma StopDuty(s: State, c: nat)
    requires c < |s.callers| && s.callers[c].Idle?
    ensures var n := Step(s, Stop(c));
            && n.generation == s.generation + 1 && n.current.None?
            && s.ended <= n.ended && n.ended - s.ended <= Seen(s) && Duty(n.callers[c]) <= Seen(s)
            && Seen(s) <= n.ended + Duty(n.callers[c])
            && (n.callers[c].Ending? ==> |n.callers[c].rest| <= |s.system|)
            && (n.callers[c].Idle? || n.callers[c].Ending?)
  {
    var list := Tracked(s);
    assert forall id :: id in list <==> id in Seen(s);
    assert forall id :: id in list <==> list != [] && (id == list[0] || id in list[1..]);
  }

  // ---------- Until the call returns ----------

  /** Call `c` returns at some point of the run. */
  predicate Returns(s: State, labels: seq<Label>, c: nat)
    decreases |labels|
  {
    c < |s.callers| && (s.callers[c].Idle? || (labels != [] && Returns(Step(s, labels[0]), labels[1..], c)))
  }

  /** The activities that the stretches of call `c` end until it returns. */
  function EndedBy(s: State, labels: seq<Label>, c: nat): set<Id>
    decreases |labels|
  {
    if labels == [] || c >= |s.callers| || s.callers[c].Idle? then {}
    else
      var n := Step(s, labels[0]);
      (if labels[0] == Resume(c) then n.ended - s.ended else {}) + EndedBy(n, labels[1..], c)
  }

  /** How often call `c` is resumed. */
  function Turns(labels: seq<Label>, c: nat): nat {
    if labels == [] then 0 else (if labels[0] == Resume(c) then 1 else 0) + Turns(labels[1..], c)
  }

  /** A call that has nothing to do any more but to end activities. */
  predicate Working(c: Caller) {
    c.Updating? || c.Ending?
  }

  function Left(c: Caller): nat {
    match c
    case Updating(duplicates) => |duplicates| + 1
    case Ending(rest) => |rest| + 1
    case _ => 0
  }

  lemma ResumeOfAnother(s: State, d: nat, c: nat)
    requires c < |s.callers| && d < |s.callers| && d != c
    ensures |ResumeCall(s, d).callers| == |s.callers| && ResumeCall(s, d).callers[c] == s.callers[c]
    ensures s.ended <= ResumeCall(s, d).ended
  {
  }

  /** No stretch un-ends an activity, and one of another call leaves this call alone. */
  lemma StepOfAnother(s: State, l: Label, c: nat)
    requires c < |s.callers| && Working(s.callers[c]) && l != Resume(c)
    ensures c < |Step(s, l).callers| && Step(s, l).callers[c] == s.callers[c]
    ensures s.ended <= Step(s, l).ended
  {
    if l.Resume? && l.c < |s.callers| {
      ResumeOfAnother(s, l.c, c);
    }
  }

  lemma StepOfCall(s: State, c: nat)
    requires c < |s.callers| && Working(s.callers[c])
    ensures var n := Step(s, Resume(c));
            && c < |n.callers| && (n.callers[c].Idle? || n.callers[c].Ending?)
            && s.ended <= n.ended && n.ended - s.ended <= Duty(s.callers[c])
            && Duty(n.callers[c]) <= Duty(s.callers[c]) <= n.ended + Duty(n.callers[c])
            && Left(n.callers[c]) == Left(s.callers[c]) - 1
  {
    var list := if s.callers[c].Updating? then s.callers[c].duplicates else s.callers[c].rest;
    assert forall id :: id in list <==> list != [] && (id == list[0] || id in list[1..]);
  }

  lemma {:induction false} EndedStays(s: State, labels: seq<Label>)
    ensures s.ended <= Run(s, labels).ended
    decreases |labels|
  {
    if labels != [] {
      EndedStays(Step(s, labels[0]), labels[1..]);
    }
  }

  /** A call at work ends nothing but its duty, all of it by the time it returns, and it
      does return once it has been resumed often enough. */
  lemma {:induction false} DutyDone(s: State, labels: seq<Label>, c: nat)
    requires c < |s.callers| && Working(s.callers[c])
    ensures EndedBy(s, labels, c) <= Duty(s.callers[c])
    ensures Returns(s, labels, c) ==> Duty(s.callers[c]) <= Run(s, labels).ended
    ensures Turns(labels, c) >= Left(s.callers[c]) ==> Returns(s, labels, c)
    decreases |labels|
  {
    if labels != [] {
      var n := Step(s, labels[0]);
      if labels[0] == Resume(c) {
        StepOfCall(s, c);
      } else {
        StepOfAnother(s, labels[0], c);
      }
      EndedStays(n, labels[1..]);
      if Working(n.callers[c]) {
        DutyDone(n, labels[1..], c);
      }
    }
  }

  // ---------- What every run promises ----------

  /** In every interleaving: a start or update that found an activity and has returned has
      ended every other activity the system listed when it found it. It ends no activity
      but those, and not the one it found; and it returns once it has been resumed once for
      each of them and once more. */
  lemma CallEndsOthers(callers: nat, system: seq<Id>, updatable: set<Id>, nextId: Id, labels: seq<Label>, l: Label, c: nat, more: seq<Label>)
    requires var s := Run(Initial(callers, system, updatable, nextId), labels);
             Looks(s, l, c) && exists id :: id in Seen(s) && id in s.updatable
    ensures var s := Run(Initial(callers, system, updatable, nextId), labels);
            var n := Step(s, l);
            && n.current.Some? && Chosen(s, n.current.value)
            && EndedBy(n, more, c) <= (set id | id in s.system) - {n.current.value}
            && (Returns(n, more, c) ==> (set id | id in s.system) - {n.current.value} <= Run(n, more).ended)
            && (Turns(more, c) > |s.system| ==> Returns(n, more, c))
  {
    var s := Run(Initial(callers, system, updatable, nextId), labels);
    LookFinds(s, l, c);
    DutyDone(Step(s, l), more, c);
  }

  /** In every interleaving: a stop that has returned has ended every activity the system
      listed or the actor kept when it began, and nothing else. */
  lemma StopEndsAll(callers: nat, system: seq<Id>, updatable: set<Id>, nextId: Id, labels: seq<Label>, c: nat, more: seq<Label>)
    requires var s := Run(Initial(callers, system, updatable, nextId), labels);
             c < |s.callers| && s.callers[c].Idle?
    ensures var s := Run(Initial(callers, system, updatable, nextId), labels);
            var n := Step(s, Stop(c));
            && n.current.None? && (n.ended - s.ended) + EndedBy(n, more, c) <= Seen(s)
            && (Returns(n, more, c) ==> Seen(s) <= Run(n, more).ended)
            && (Turns(more, c) > |s.system| ==> Returns(n, more, c))
  {
    var s := Run(Initial(callers, system, updatable, nextId), labels);
    var n := Step(s, Stop(c));
    StopDuty(s, c);
    EndedStays(n, more);
    if Working(n.callers[c]) {
      DutyDone(n, more, c);
    }
  }
}
