/** The slots that bound how many killed children can be waiting to be reaped. */
module ChildSlots {
  const MAX_REAPING_CHILDREN := 4
  const POLL_MILLIS := 10
  const MAX_COMMAND_OUTPUT_BYTES := 1024 * 1024

  type Child = nat

  /** The children that have not exited yet, in the order they were retained. */
  function StillThere(children: seq<Child>, exited: set<Child>): (r: seq<Child>)
    ensures |r| <= |children|
    ensures forall c :: c in r <==> c in children && c !in exited
  {
    if children == [] then []
    else if children[0] in exited then StillThere(children[1..], exited)
    else [children[0]] + StillThere(children[1..], exited)
  }

  function Less(n: nat): nat {
    if n == 0 then 0 else n - 1
  }

  /** How a call that was admitted ended. */
  datatype Finish = NoFile | NoProcess | Exited(success: bool) | OverLimit | TimedOut | WaitFailed

  /** A child that was killed rather than seen to exit is kept to be reaped. */
  predicate Kills(f: Finish) {
    f.OverLimit? || f.TimedOut? || f.WaitFailed?
  }

  /** What one poll of a child finds. */
  datatype Poll = HasExited(success: bool) | StillRunning(outputBytes: nat) | CannotWait

  /** A poll after which the call waits on, unless its time is up. */
  predicate Goes(found: Poll) {
    found.StillRunning? && found.outputBytes < 1_048_576
  }

  predicate FinishedBy(f: Finish, last: Poll) {
    match f
    case Exited(success) => last == HasExited(success)
    case OverLimit => last.StillRunning? && last.outputBytes >= 1_048_576
    case TimedOut => Goes(last)
    case WaitFailed => last.CannotWait?
    case _ => false
  }

  lemma StillThereFrom(kept: seq<Child>, all: seq<Child>, i: nat, exited: set<Child>)
    requires i < |all|
    ensures kept + StillThere(all[i..], exited) ==
            (if all[i] in exited then kept else kept + [all[i]]) + StillThere(all[i + 1..], exited)
  {
    assert all[i..][0] == all[i] && all[i..][1..] == all[i + 1..];
  }

  class ChildReaper {
    var children: seq<Child>
    var reservedSlots: nat

    constructor ()
      ensures children == [] && reservedSlots == 0
    {
      children, reservedSlots := [], 0;
    }

    method Reap(exited: set<Child>)
      modifies this`children
      ensures children == StillThere(old(children), exited)
    {
      var kept := [];
      ghost var all := children;
      for i := 0 to |children|
        invariant children == all
        invariant kept + StillThere(all[i..], exited) == StillThere(all, exited)
      {
        StillThereFrom(kept, all, i, exited);
        if children[i] !in exited {
          kept := kept + [children[i]];
        }
      }
      assert all[|all|..] == [];
      children := kept;
    }

    method Reserve(exited: set<Child>) returns (ok: bool)
      modifies this
      ensures children == StillThere(old(children), exited)
      ensures ok <==> |children| + old(reservedSlots) < 4
      ensures reservedSlots == if ok then old(reservedSlots) + 1 else old(reservedSlots)
    {
      Reap(exited);
      if |children| + reservedSlots >= MAX_REAPING_CHILDREN {
        return false;
      }
      reservedSlots := reservedSlots + 1;
      ok := true;
    }

    method Release()
      modifies this`reservedSlots
      ensures reservedSlots == Less(old(reservedSlots))
    {
      reservedSlots := Less(reservedSlots);
    }

    method Retain(child: Child)
      modifies this
      ensures reservedSlots == Less(old(reservedSlots)) && children == old(children) + [child]
    {
      reservedSlots := Less(reservedSlots);
      children := children + [child];
    }

    /** One command from reservation to return, with nothing else running. It gives its slot
        back on every path, keeps the child exactly when it killed it, ends as its last poll
        says and at no earlier one, and within the timeout counted in polls. `elapsed` is the
        clock at the end, each wait being a poll interval and some delay. */
    method RunCommand(child: Child, exited: set<Child>, hasFile: bool, spawned: bool,
                      poll: nat -> Poll, extraDelay: nat -> nat, timeout: nat)
      returns (admitted: bool, finish: Finish, polls: nat, ghost elapsed: nat)
      modifies this
      ensures reservedSlots == old(reservedSlots)
      ensures admitted <==> |StillThere(old(children), exited)| + old(reservedSlots) < 4
      ensures children == StillThere(old(children), exited) + (if admitted && Kills(finish) then [child] else [])
      ensures polls <= timeout / POLL_MILLIS + 2
      ensures admitted ==> (finish.NoFile? <==> !hasFile) && (finish.NoProcess? <==> hasFile && !spawned)
      ensures admitted && hasFile && spawned ==> polls > 0 && FinishedBy(finish, poll(polls - 1))
      ensures forall k: nat :: k + 1 < polls ==> Goes(poll(k))
      ensures finish.TimedOut? ==> elapsed >= timeout
      ensures old(|children| + reservedSlots) <= 4 ==> |children| + reservedSlots <= 4
    {
      polls, finish, elapsed := 0, NoFile, 0;
      admitted := Reserve(exited);
      if !admitted {
        return;
      }
      if !hasFile {
        Release();
        return;
      }
      if !spawned {
        Release();
        finish := NoProcess;
        return;
      }
      var now := 0;
      while true
        invariant reservedSlots == old(reservedSlots) + 1 && children == StillThere(old(children), exited)
        invariant now >= polls * POLL_MILLIS
        invariant polls <= timeout / POLL_MILLIS + 1 && now == elapsed
        invariant forall k: nat :: k < polls ==> Goes(poll(k))
        decreases timeout - now
      {
        var found := poll(polls);
        polls := polls + 1;
        match found
        case HasExited(success) =>
          Release();
          finish := Exited(success);
          return;
        case StillRunning(bytes) =>
          if bytes >= MAX_COMMAND_OUTPUT_BYTES {
            Retain(child);
            finish := OverLimit;
            return;
          } else if now < timeout {
            now := now + POLL_MILLIS + extraDelay(polls);
            elapsed := now;
          } else {
            Retain(child);
            finish := TimedOut;
            return;
          }
        case CannotWait =>
          Retain(child);
          finish := WaitFailed;
          return;
      }
    }
  }

  // ---------- Any number of callers at once ----------

  /** Where a call has got to. Each arrow takes the reaper's lock once or not at all. */
  datatype Call = NotStarted | Refused | Reserved | HasFile | Running | Returned(retained: bool)

  /** The reaper and its callers; `givenBack` counts, call by call, how often it released
      or retained. */
  datatype State = State(children: seq<Child>, reserved: nat, calls: seq<Call>, givenBack: seq<nat>)

  datatype Event =
    | Begin(c: nat, exited: set<Child>)
    | OpenFile(c: nat, ok: bool)
    | Spawn(c: nat, ok: bool)
    | PollOnce(c: nat, found: Poll, pastDeadline: bool, child: Child)

  predicate InFlight(call: Call) {
    call.Reserved? || call.HasFile? || call.Running?
  }

  function Released(s: State, c: nat): State
    requires c < |s.calls| == |s.givenBack|
  {
    State(s.children, Less(s.reserved), s.calls[c := Returned(false)], s.givenBack[c := s.givenBack[c] + 1])
  }

  function Retained(s: State, c: nat, child: Child): State
    requires c < |s.calls| == |s.givenBack|
  {
    State(s.children + [child], Less(s.reserved), s.calls[c := Returned(true)], s.givenBack[c := s.givenBack[c] + 1])
  }

  function Step(s: State, e: Event): State
    requires |s.calls| == |s.givenBack|
    ensures |Step(s, e).calls| == |Step(s, e).givenBack| == |s.calls|
  {
    if e.c >= |s.calls| then s
    else
      match (e, s.calls[e.c])
      case (Begin(c, exited), NotStarted) =>
        var children := StillThere(s.children, exited);
        if |children| + s.reserved >= MAX_REAPING_CHILDREN then s.(children := children, calls := s.calls[c := Refused])
        else State(children, s.reserved + 1, s.calls[c := Reserved], s.givenBack)
      case (OpenFile(c, ok), Reserved) =>
        if ok then s.(calls := s.calls[c := HasFile]) else Released(s, c)
      case (Spawn(c, ok), HasFile) =>
        if ok then s.(calls := s.calls[c := Running]) else Released(s, c)
      case (PollOnce(c, found, pastDeadline, child), Running) =>
        (match found
         case HasExited(_) => Released(s, c)
         case CannotWait => Retained(s, c, child)
         case StillRunning(bytes) =>
           if bytes >= MAX_COMMAND_OUTPUT_BYTES || pastDeadline then Retained(s, c, child) else s)
      case _ => s
  }

  function Run(s: State, events: seq<Event>): State
    requires |s.calls| == |s.givenBack|
    decreases |events|
  {
    if events == [] then s else Run(Step(s, events[0]), events[1..])
  }

  function Initial(callers: nat): State {
    State([], 0, seq(callers, _ => NotStarted), seq(callers, _ => 0))
  }

  function Count(calls: seq<Call>): nat {
    if calls == [] then 0 else (if InFlight(calls[0]) then 1 else 0) + Count(calls[1..])
  }

  lemma {:induction false} CountUpdate(calls: seq<Call>, c: nat, call: Call)
    requires c < |calls|
    ensures Count(calls[c := call]) + (if InFlight(calls[c]) then 1 else 0) == Count(calls) + if InFlight(call) then 1 else 0
  {
    if c > 0 {
      assert calls[c := call][1..] == calls[1..][c - 1 := call];
      CountUpdate(calls[1..], c - 1, call);
    } else {
      assert calls[c := call][1..] == calls[1..];
    }
  }

  ghost predicate Inv(s: State) {
    && |s.calls| == |s.givenBack|
    && |s.children| + s.reserved <= MAX_REAPING_CHILDREN
    && s.reserved == Count(s.calls)
    && (forall c :: 0 <= c < |s.calls| ==> s.givenBack[c] == if s.calls[c].Returned? then 1 else 0)
  }

  /** A call that leaves a slot as it was, takes one, or gives its one back. */
  lemma MovedKeepsInv(s: State, n: State, c: nat, call: Call)
    requires Inv(s) && c < |s.calls| && n.calls == s.calls[c := call]
    requires |n.children| + n.reserved <= MAX_REAPING_CHILDREN
    requires !s.calls[c].Returned?
    requires n.reserved + (if InFlight(s.calls[c]) then 1 else 0) == s.reserved + (if InFlight(call) then 1 else 0)
    requires n.givenBack == s.givenBack[c := if call.Returned? then 1 else 0]
    ensures Inv(n)
  {
    CountUpdate(s.calls, c, call);
  }

  lemma BeginKeepsInv(s: State, c: nat, exited: set<Child>)
    requires Inv(s) && c < |s.calls| && s.calls[c].NotStarted?
    ensures Inv(Step(s, Begin(c, exited)))
  {
    var n := Step(s, Begin(c, exited));
    assert s.givenBack[c := 0] == s.givenBack;
    MovedKeepsInv(s, n, c, n.calls[c]);
  }

  lemma GoesOnKeepsInv(s: State, c: nat, call: Call)
    requires Inv(s) && c < |s.calls| && InFlight(s.calls[c]) && InFlight(call)
    ensures Inv(s.(calls := s.calls[c := call]))
  {
    assert s.givenBack[c := 0] == s.givenBack;
    MovedKeepsInv(s, s.(calls := s.calls[c := call]), c, call);
  }

  lemma ReturnKeepsInv(s: State, c: nat, child: Child)
    requires Inv(s) && c < |s.calls| && InFlight(s.calls[c])
    ensures Inv(Released(s, c)) && Inv(Retained(s, c, child))
  {
    SlotThere(s.calls, c);
    MovedKeepsInv(s, Released(s, c), c, Returned(false));
    MovedKeepsInv(s, Retained(s, c, child), c, Returned(true));
  }

  lemma StepKeepsInv(s: State, e: Event)
    requires Inv(s)
    ensures Inv(Step(s, e))
  {
    if e.c < |s.calls| {
      match (e, s.calls[e.c])
      case (Begin(c, exited), NotStarted) => BeginKeepsInv(s, c, exited);
      case (OpenFile(c, ok), Reserved) =>
        GoesOnKeepsInv(s, c, HasFile);
        ReturnKeepsInv(s, c, 0);
      case (Spawn(c, ok), HasFile) =>
        GoesOnKeepsInv(s, c, Running);
        ReturnKeepsInv(s, c, 0);
      case (PollOnce(c, _, _, child), Running) => ReturnKeepsInv(s, c, child);
      case _ =>
    }
  }

  lemma {:induction false} RunKeepsInv(s: State, events: seq<Event>)
    requires Inv(s)
    ensures Inv(Run(s, events))
    decreases |events|
  {
    if events != [] {
      StepKeepsInv(s, events[0]);
      RunKeepsInv(Step(s, events[0]), events[1..]);
    }
  }

  lemma {:induction false} NoneInFlight(calls: seq<Call>)
    requires forall c :: 0 <= c < |calls| ==> !InFlight(calls[c])
    ensures Count(calls) == 0
  {
    if calls != [] {
      NoneInFlight(calls[1..]);
    }
  }

  /** In every run of any number of concurrent callers: never more than four children and
      slots together, as many slots as calls in flight, and one slot back from each call
      that was admitted and has returned. */
  lemma SlotsBounded(callers: nat, events: seq<Event>)
    ensures var s := Run(Initial(callers), events);
            && |s.children| + s.reserved <= 4
            && s.reserved == Count(s.calls)
            && |s.calls| == |s.givenBack|
            && forall c :: 0 <= c < |s.calls| ==> s.givenBack[c] == if s.calls[c].Returned? then 1 else 0
  {
    NoneInFlight(Initial(callers).calls);
    RunKeepsInv(Initial(callers), events);
  }

  /** A call beside others is admitted, goes on and ends as one alone does: a slot is
      reserved exactly while children and slots are fewer than four, and the poll that ends
      a call gives its slot back and keeps its child exactly when the call killed it. */
  lemma StepAgrees(s: State, c: nat, exited: set<Child>, f: Finish, found: Poll, late: bool, child: Child)
    requires Inv(s) && c < |s.calls| && FinishedBy(f, found) && (f.TimedOut? ==> late)
    ensures s.calls[c].NotStarted? ==>
              var n := Step(s, Begin(c, exited));
              && n.children == StillThere(s.children, exited)
              && n.calls[c] == (if |StillThere(s.children, exited)| + s.reserved < 4 then Reserved else Refused)
    ensures s.calls[c].Running? ==>
              var n := Step(s, PollOnce(c, found, late, child));
              && n.calls == s.calls[c := Returned(Kills(f))] && n.reserved == s.reserved - 1
              && n.children == s.children + if Kills(f) then [child] else []
    ensures s.calls[c].Running? && Goes(found) ==> Step(s, PollOnce(c, found, false, child)) == s
  {
    if s.calls[c].Running? {
      SlotThere(s.calls, c);
      assert s.children + [] == s.children;
    }
  }

  /** The event kills a child and keeps it, or finds that it is gone. */
  predicate Keeps(s: State, e: Event, child: Child) {
    e.PollOnce? && e.c < |s.calls| && s.calls[e.c].Running? && e.child == child
    && (e.found.CannotWait? || (e.found.StillRunning? && (e.found.outputBytes >= 1_048_576 || e.pastDeadline)))
  }

  predicate Reaps(s: State, e: Event, child: Child) {
    e.Begin? && e.c < |s.calls| && s.calls[e.c].NotStarted? && child in e.exited
  }

  /** A child was killed in the run, or was waiting before it, and no call since has found
      it gone. */
  predicate Unreaped(s: State, events: seq<Event>, child: Child, waiting: bool)
    requires |s.calls| == |s.givenBack|
    decreases |events|
  {
    if events == [] then waiting
    else
      var e := events[0];
      Unreaped(Step(s, e), events[1..], child, if Keeps(s, e, child) then true else if Reaps(s, e, child) then false else waiting)
  }

  /** In every run the children kept are exactly those: none is lost and none stays after
      a call has found it gone. */
  lemma {:induction false} ChildrenAreUnreaped(s: State, events: seq<Event>, child: Child)
    requires |s.calls| == |s.givenBack|
    ensures child in Run(s, events).children <==> Unreaped(s, events, child, child in s.children)
    decreases |events|
  {
    if events != [] {
      ChildrenAreUnreaped(Step(s, events[0]), events[1..], child);
    }
  }

  /** So giving a slot back never finds none reserved: the saturating subtractions never
      saturate. */
  lemma {:induction false} SlotThere(calls: seq<Call>, c: nat)
    requires c < |calls| && InFlight(calls[c])
    ensures Count(calls) > 0
  {
    if c > 0 {
      SlotThere(calls[1..], c - 1);
    }
  }

  lemma NeverSaturates(s: State, e: Event)
    requires Inv(s) && e.c < |s.calls|
    requires Step(s, e).givenBack[e.c] > s.givenBack[e.c]
    ensures s.reserved > 0 && Step(s, e).reserved == s.reserved - 1
  {
    SlotThere(s.calls, e.c);
  }
}
