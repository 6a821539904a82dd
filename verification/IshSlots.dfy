/** Which session slot an open works on, and what lets another call take it. */
module IshSlots {
  import opened Wrappers
  import opened IshTables
  import opened IshMounts
  import opened IshMountsProofs
  import opened IshRuns

  /** The slot an open that has not returned has reserved. */
  function SlotOf(th: Thread): Option<nat> {
    match th.pc
    case OpenChild(slot) => Some(slot)
    case OpenPrepare(slot, _) => Some(slot)
    case OpenPublish(slot, _) => Some(slot)
    case OpenExec(slot, _) => Some(slot)
    case OpenFail(slot, _, _) => Some(slot)
    case OpenClose(slot, _) => Some(slot)
    case _ => if InAttach(th.pc) && th.frame.Opening? then Some(th.frame.slot) else None
  }

  /** An open between its reservation and the publication of its pid. */
  predicate Unpublished(th: Thread) {
    th.pc.OpenChild? || (InAttach(th.pc) && th.frame.Opening?) || th.pc.OpenPrepare? || th.pc.OpenPublish?
  }

  /** The pid of the child an open has made. */
  function PidOf(th: Thread): nat {
    match th.pc
    case OpenPrepare(_, pid) => pid
    case OpenPublish(_, pid) => pid
    case OpenExec(_, pid) => pid
    case OpenFail(_, pid, _) => pid
    case _ => if InAttach(th.pc) && th.frame.Opening? then th.frame.pid else 0
  }

  /** The slot is reserved for this open's profile, and has no pid until the open publishes
      its own. */
  predicate Holds(g: Shared, th: Thread) {
    SlotOf(th).Some? ==>
      var k := SlotOf(th).value;
      k < |g.sessions| && g.sessions[k].used && g.sessions[k].profile == th.profile
      && (Unpublished(th) ==> g.sessions[k] == Session(true, 0, th.profile))
      && (th.pc.OpenExec? ==> g.sessions[k] == Session(true, PidOf(th), th.profile))
  }

  /** Every open owns its slot, and no two have the same. */
  ghost predicate Owned(s: State) {
    && (forall u :: 0 <= u < |s.threads| ==> Holds(s.g, s.threads[u]))
    && (forall u, v :: 0 <= u < v < |s.threads| && SlotOf(s.threads[u]).Some? ==>
          SlotOf(s.threads[u]) != SlotOf(s.threads[v]))
  }

  /** The step frees the slot of an open of another thread that has not returned. */
  ghost predicate FreesOther(s: State, l: Label) {
    l.Advance? && exists u :: 0 <= u < |s.threads| && u != l.t && Freed(s.g, Step(s, l).g, s.threads[u])
  }

  predicate Freed(g: Shared, n: Shared, th: Thread) {
    SlotOf(th).Some? && SlotOf(th).value < |g.sessions| == |n.sessions|
    && g.sessions[SlotOf(th).value].used && !n.sessions[SlotOf(th).value].used
  }

  // ---------- One step ----------

  lemma AttachSlots(g: Shared, t: nat, th: Thread, c: Choice)
    requires InAttach(th.pc) && Holds(g, th)
    ensures var n := AttachStep(g, t, th, c);
            && n.g.sessions == g.sessions && Holds(n.g, Thread(th.profile, n.frame, n.pc))
            && (SlotOf(Thread(th.profile, n.frame, n.pc)).Some? ==> SlotOf(Thread(th.profile, n.frame, n.pc)) == SlotOf(th))
  {
  }

  /** What a step on sessions does to a slot of somebody else's open. */
  ghost predicate LeavesOrFrees(g: Shared, n: Shared, k: nat) {
    |n.sessions| == |g.sessions|
    && (k < |g.sessions| && g.sessions[k].used ==> n.sessions[k] == g.sessions[k] || !n.sessions[k].used)
  }

  lemma DetachSlots(g: Shared, t: nat, th: Thread, c: Choice, k: nat)
    requires InDetach(th.pc)
    ensures var n := DetachStep(g, t, th, c);
            LeavesOrFrees(g, n.g, k) && n.frame == th.frame && SlotOf(Thread(th.profile, n.frame, n.pc)).None?
  {
  }

  lemma OpenSlots(g: Shared, t: nat, th: Thread, c: Choice, k: nat)
    requires !InAttach(th.pc) && !InDetach(th.pc) && SlotOf(th) != Some(k)
    ensures var n := OpenStep(g, t, th, c);
            && LeavesOrFrees(g, n.g, k)
            && (k < |g.sessions| && g.sessions[k].used ==> SlotOf(Thread(th.profile, n.frame, n.pc)) != Some(k))
  {
  }

  lemma OpenHolds(g: Shared, t: nat, th: Thread, c: Choice)
    requires !InAttach(th.pc) && !InDetach(th.pc) && Holds(g, th)
    ensures var n := OpenStep(g, t, th, c); Holds(n.g, Thread(th.profile, n.frame, n.pc))
  {
  }

  lemma StepHolds(g: Shared, t: nat, th: Thread, c: Choice)
    requires Holds(g, th)
    ensures var n := ThreadStep(g, t, th, c); Holds(n.g, Thread(th.profile, n.frame, n.pc))
  {
    if InAttach(th.pc) {
      AttachSlots(g, t, th, c);
    } else if InDetach(th.pc) {
      DetachSlots(g, t, th, c, 0);
    } else {
      OpenHolds(g, t, th, c);
    }
  }

  lemma StepElsewhere(g: Shared, t: nat, th: Thread, c: Choice, k: nat)
    requires Holds(g, th) && SlotOf(th) != Some(k) && k < |g.sessions| && g.sessions[k].used
    ensures var n := ThreadStep(g, t, th, c);
            LeavesOrFrees(g, n.g, k) && SlotOf(Thread(th.profile, n.frame, n.pc)) != Some(k)
  {
    if InAttach(th.pc) {
      AttachSlots(g, t, th, c);
    } else if InDetach(th.pc) {
      DetachSlots(g, t, th, c, k);
    } else {
      OpenSlots(g, t, th, c, k);
    }
  }

  /** Another open keeps its slot through a step that does not free it, and loses it to one
      that does. */
  lemma OtherHolds(s: State, t: nat, c: Choice, u: nat)
    requires Owned(s) && t < |s.threads| && u < |s.threads| && t != u
    ensures Holds(Step(s, Advance(t, c)).g, s.threads[u]) <==> !Freed(s.g, Step(s, Advance(t, c)).g, s.threads[u])
    ensures SlotOf(s.threads[u]).Some? ==> SlotOf(Step(s, Advance(t, c)).threads[t]) != SlotOf(s.threads[u])
  {
    assert Holds(s.g, s.threads[u]) && Holds(s.g, s.threads[t]);
    if SlotOf(s.threads[u]).Some? {
      StepElsewhere(s.g, t, s.threads[t], c, SlotOf(s.threads[u]).value);
    }
  }

  /** A step keeps every open in possession of its slot if and only if it does not free the
      slot of another thread's. */
  lemma OwnedStepIff(s: State, l: Label)
    requires Owned(s)
    ensures Owned(Step(s, l)) <==> !FreesOther(s, l)
  {
    match l
    case SetBooted(b) =>
      assert forall u :: 0 <= u < |s.threads| ==> Holds(Step(s, l).g, s.threads[u]) == Holds(s.g, s.threads[u]);
    case Start(t, op, profile) => StartOwned(s, t, op, profile);
    case Advance(t, c) =>
      if t < |s.threads| {
        AdvanceOwned(s, t, c);
      } else {
        assert Step(s, l) == s;
        assert forall u :: 0 <= u < |s.threads| ==> !Freed(s.g, s.g, s.threads[u]);
      }
  }

  lemma StartOwned(s: State, t: nat, op: Op, profile: string)
    requires Owned(s)
    ensures Owned(Step(s, Start(t, op, profile)))
  {
    if t < |s.threads| && AtRest(s.threads[t].pc) {
      var n := Step(s, Start(t, op, profile));
      assert SlotOf(n.threads[t]).None?;
      assert forall u :: 0 <= u < |s.threads| && u != t ==> n.threads[u] == s.threads[u];
    }
  }

  lemma AdvanceOwned(s: State, t: nat, c: Choice)
    requires Owned(s) && t < |s.threads|
    ensures Owned(Step(s, Advance(t, c))) <==> !FreesOther(s, Advance(t, c))
  {
    var n := Step(s, Advance(t, c));
    assert Holds(s.g, s.threads[t]);
    StepHolds(s.g, t, s.threads[t], c);
    assert forall u :: 0 <= u < |s.threads| && u != t ==> n.threads[u] == s.threads[u];
    forall u | 0 <= u < |s.threads| && u != t
      ensures Holds(n.g, n.threads[u]) <==> !Freed(s.g, n.g, s.threads[u])
      ensures SlotOf(s.threads[u]).Some? ==> SlotOf(n.threads[t]) != SlotOf(s.threads[u])
    {
      OtherHolds(s, t, c, u);
    }
    ApartAfter(s, n, t);
  }

  lemma ApartAfter(s: State, n: State, t: nat)
    requires Owned(s) && t < |s.threads| == |n.threads|
    requires forall u :: 0 <= u < |s.threads| && u != t ==> n.threads[u] == s.threads[u]
    requires forall u :: 0 <= u < |s.threads| && u != t && SlotOf(s.threads[u]).Some? ==> SlotOf(n.threads[t]) != SlotOf(s.threads[u])
    ensures forall u, v :: 0 <= u < v < |n.threads| && SlotOf(n.threads[u]).Some? ==> SlotOf(n.threads[u]) != SlotOf(n.threads[v])
  {
  }

  // ---------- Whole runs ----------

  ghost predicate AlwaysOwned(s: State, labels: seq<Label>)
    decreases |labels|
  {
    Owned(s) && (labels != [] ==> AlwaysOwned(Step(s, labels[0]), labels[1..]))
  }

  ghost predicate EverFreesOther(s: State, labels: seq<Label>)
    decreases |labels|
  {
    labels != [] && (FreesOther(s, labels[0]) || EverFreesOther(Step(s, labels[0]), labels[1..]))
  }

  lemma {:induction false} AlwaysOwnedIffFrom(s: State, labels: seq<Label>)
    requires Owned(s)
    ensures AlwaysOwned(s, labels) <==> !EverFreesOther(s, labels)
    decreases |labels|
  {
    if labels != [] {
      OwnedStepIff(s, labels[0]);
      if Owned(Step(s, labels[0])) {
        AlwaysOwnedIffFrom(Step(s, labels[0]), labels[1..]);
      }
    }
  }

  /** In every run, every open owns its slot from the reservation until it returns, alone and
      without a pid but its own, if and only if no call ever frees the slot of another open
      that has not returned. */
  lemma AlwaysOwnedIff(threads: nat, labels: seq<Label>)
    ensures AlwaysOwned(Initial(threads), labels) <==> !EverFreesOther(Initial(threads), labels)
  {
    assert forall u :: 0 <= u < threads ==> SlotOf(Initial(threads).threads[u]).None?;
    AlwaysOwnedIffFrom(Initial(threads), labels);
  }

  lemma {:induction false} OwnedAtEnd(s: State, labels: seq<Label>)
    requires AlwaysOwned(s, labels)
    ensures Owned(Run(s, labels))
    decreases |labels|
  {
    if labels != [] {
      OwnedAtEnd(Step(s, labels[0]), labels[1..]);
    }
  }

  /** So in such runs a detach never marks a profile while an open of it has reserved a slot
      and not published its pid. */
  lemma MarksNoOpenInProgress(threads: nat, labels: seq<Label>, t: nat, u: nat)
    requires !EverFreesOther(Initial(threads), labels)
    requires var s := Run(Initial(threads), labels);
             t < |s.threads| && u < |s.threads| && s.threads[t].pc.DetachMark? && Unpublished(s.threads[u])
    ensures var s := Run(Initial(threads), labels); s.threads[u].profile != s.threads[t].profile
  {
    var s := Run(Initial(threads), labels);
    AlwaysOwnedIff(threads, labels);
    OwnedAtEnd(Initial(threads), labels);
    InitialInv(threads);
    RunKeepsInv(Initial(threads), labels);
    assert Facts(s.g, s.threads[t]) && Holds(s.g, s.threads[u]);
    var k := SlotOf(s.threads[u]).value;
    assert s.g.sessions[k] == Session(true, 0, s.threads[u].profile);
  }

  // ---------- What an open leaves in its slot ----------

  /** From its child on until it closes its slot, an open works with that child's pid. */
  lemma PidKept(g: Shared, t: nat, th: Thread, c: Choice)
    requires SlotOf(th).Some?
    ensures var n := ThreadStep(g, t, th, c);
            var next := Thread(th.profile, n.frame, n.pc);
            SlotOf(next).Some? && !n.pc.OpenClose? ==>
              PidOf(next) == if th.pc.OpenChild? && !n.pc.OpenFail? then c.pid else PidOf(th)
  {
    if InAttach(th.pc) {
      AttachPidKept(g, t, th, c);
    } else {
      OpenPidKept(g, t, th, c);
    }
  }

  lemma AttachPidKept(g: Shared, t: nat, th: Thread, c: Choice)
    requires InAttach(th.pc) && SlotOf(th).Some?
    ensures var n := AttachStep(g, t, th, c);
            SlotOf(Thread(th.profile, n.frame, n.pc)).Some? ==> PidOf(Thread(th.profile, n.frame, n.pc)) == PidOf(th)
  {
  }

  lemma OpenPidKept(g: Shared, t: nat, th: Thread, c: Choice)
    requires !InAttach(th.pc) && SlotOf(th).Some?
    ensures var n := OpenStep(g, t, th, c);
            var next := Thread(th.profile, n.frame, n.pc);
            SlotOf(next).Some? && !n.pc.OpenClose? ==>
              PidOf(next) == if th.pc.OpenChild? && !n.pc.OpenFail? then c.pid else PidOf(th)
  {
  }

  /** In such runs an open that succeeds leaves its profile and its child's pid in the slot
      it answers. One that fails once it has a child has that pid there when it closes the
      slot; it leaves the slot free and every other as it was. */
  lemma OpenEnds(threads: nat, labels: seq<Label>, t: nat, c: Choice)
    requires !EverFreesOther(Initial(threads), labels)
    requires var s := Run(Initial(threads), labels); t < |s.threads| && SlotOf(s.threads[t]).Some?
    ensures var s := Run(Initial(threads), labels);
            var th, n := s.threads[t], Step(s, Advance(t, c));
            var k := SlotOf(th).value;
            && k < |s.g.sessions| == |n.g.sessions|
            && (th.pc.OpenExec? && c.ok ==> n.threads[t].pc == Ended(k) && n.g.sessions[k] == Session(true, PidOf(th), th.profile))
            && (th.pc.OpenFail? && th.pc.pid != 0 && s.g.sLock.Free? && s.g.sessions[k].pid == 0 ==>
                  n.threads[t].pc == OpenClose(k, th.pc.err) && n.g.sessions[k] == Session(true, th.pc.pid, th.profile))
            && (th.pc.OpenClose? && s.g.sLock.Free? ==>
                  && n.threads[t].pc == Ended(th.pc.err) && !n.g.sessions[k].used
                  && forall j :: 0 <= j < |s.g.sessions| && j != k ==> n.g.sessions[j] == s.g.sessions[j])
  {
    var s := Run(Initial(threads), labels);
    AlwaysOwnedIff(threads, labels);
    OwnedAtEnd(Initial(threads), labels);
    assert Holds(s.g, s.threads[t]);
    LastStep(s, t, c);
    SessionsLength(s.g, t, s.threads[t], c);
  }

  lemma SessionsLength(g: Shared, t: nat, th: Thread, c: Choice)
    requires SlotOf(th).Some?
    ensures |ThreadStep(g, t, th, c).g.sessions| == |g.sessions|
  {
    if InAttach(th.pc) {
      AttachSessions(g, t, th, c);
    }
  }

  lemma AttachSessions(g: Shared, t: nat, th: Thread, c: Choice)
    requires InAttach(th.pc)
    ensures AttachStep(g, t, th, c).g.sessions == g.sessions
  {
  }

  lemma LastStep(s: State, t: nat, c: Choice)
    requires t < |s.threads| && SlotOf(s.threads[t]).Some? && Holds(s.g, s.threads[t])
    ensures var th, n := s.threads[t], Step(s, Advance(t, c));
            var k := SlotOf(th).value;
            && (th.pc.OpenExec? && c.ok ==> n.threads[t].pc == Ended(k) && n.g.sessions == s.g.sessions)
            && (th.pc.OpenFail? && th.pc.pid != 0 && s.g.sLock.Free? && s.g.sessions[k].pid == 0 ==>
                  n.threads[t].pc == OpenClose(k, th.pc.err) && n.g.sessions == s.g.sessions[k := Session(true, th.pc.pid, th.profile)])
            && (th.pc.OpenClose? && s.g.sLock.Free? ==>
                  n.threads[t].pc == Ended(th.pc.err) && n.g.sessions == s.g.sessions[k := s.g.sessions[k].(used := false)])
  {
  }

  // ---------- Who frees the slot of another open ----------

  /** No open of a profile that is being detached is still unpublished. */
  ghost predicate NoneMarked(s: State) {
    forall t, u :: 0 <= t < |s.threads| && 0 <= u < |s.threads| && Marked(s.threads[t].pc) && Unpublished(s.threads[u]) ==>
      s.threads[t].profile != s.threads[u].profile
  }

  lemma NewlyUnpublished(g: Shared, t: nat, th: Thread, c: Choice)
    requires Facts(g, th)
    ensures var n := ThreadStep(g, t, th, c);
            Unpublished(Thread(th.profile, n.frame, n.pc)) ==> Unpublished(th) || (th.pc.OpenReserve? && th.profile !in g.detaching)
  {
    if InAttach(th.pc) {
      AttachStaysFramed(g, t, th, c);
    } else if InDetach(th.pc) {
      DetachSlots(g, t, th, c, 0);
    } else {
      OpenBegins(g, t, th, c);
    }
  }

  lemma AttachStaysFramed(g: Shared, t: nat, th: Thread, c: Choice)
    requires InAttach(th.pc)
    ensures var n := AttachStep(g, t, th, c);
            n.frame == th.frame && (n.frame.Direct? ==> !Unpublished(Thread(th.profile, n.frame, n.pc)))
  {
  }

  lemma OpenBegins(g: Shared, t: nat, th: Thread, c: Choice)
    requires !InAttach(th.pc) && !InDetach(th.pc)
    ensures var n := OpenStep(g, t, th, c);
            Unpublished(Thread(th.profile, n.frame, n.pc)) ==> Unpublished(th) || (th.pc.OpenReserve? && th.profile !in g.detaching)
  {
  }

  lemma NoneMarkedKept(s: State, t: nat, c: Choice)
    requires Inv(s) && Owned(s) && NoneMarked(s) && t < |s.threads|
    ensures NoneMarked(Step(s, Advance(t, c)))
  {
    var n := Step(s, Advance(t, c));
    var th := s.threads[t];
    assert Facts(s.g, th);
    NewlyUnpublished(s.g, t, th, c);
    forall v, u | 0 <= v < |n.threads| && 0 <= u < |n.threads| && Marked(n.threads[v].pc) && Unpublished(n.threads[u])
      ensures n.threads[v].profile != n.threads[u].profile
    {
      assert v != t ==> n.threads[v] == s.threads[v];
      assert u != t ==> n.threads[u] == s.threads[u];
      assert Facts(s.g, s.threads[v]);
      if v == t && !Marked(th.pc) {
        NewlyMarked(s.g, t, th, c);
        if u != t {
          NoBareUnpublished(s, t, u);
        }
      }
    }
  }

  lemma NoBareUnpublished(s: State, t: nat, u: nat)
    requires Owned(s) && t < |s.threads| && u < |s.threads| && Unpublished(s.threads[u])
    requires !HasBare(s.g.sessions, s.threads[t].profile)
    ensures s.threads[u].profile != s.threads[t].profile
  {
    assert Holds(s.g, s.threads[u]);
    assert s.g.sessions[SlotOf(s.threads[u]).value] == Session(true, 0, s.threads[u].profile);
  }

  lemma {:induction false} NoneMarkedAtEnd(s: State, labels: seq<Label>)
    requires Inv(s) && AlwaysOwned(s, labels) && NoneMarked(s)
    ensures NoneMarked(Run(s, labels))
    decreases |labels|
  {
    if labels != [] {
      var l := labels[0];
      var n := OneStepOn(s, l);
      NoneMarkedAtEnd(n, labels[1..]);
    }
  }

  lemma OneStepOn(s: State, l: Label) returns (n: State)
    requires Inv(s) && Owned(s) && NoneMarked(s)
    ensures n == Step(s, l) && Inv(n) && NoneMarked(n)
  {
    n := Step(s, l);
    StepKeepsInv(s, l);
    if l.Advance? && l.t < |s.threads| {
      NoneMarkedKept(s, l.t, l.c);
    } else if l.Start? {
      StartNoneMarked(s, l.t, l.op, l.profile);
    }
  }

  lemma StartNoneMarked(s: State, t: nat, op: Op, profile: string)
    requires NoneMarked(s)
    ensures NoneMarked(Step(s, Start(t, op, profile)))
  {
    if t < |s.threads| && AtRest(s.threads[t].pc) {
      var n := Step(s, Start(t, op, profile));
      assert forall u :: 0 <= u < |s.threads| && u != t ==> n.threads[u] == s.threads[u];
      assert !Marked(n.threads[t].pc) && !Unpublished(n.threads[t]);
    }
  }

  /** Which steps free a slot at all. */
  lemma FreesByClosing(g: Shared, t: nat, th: Thread, c: Choice, k: nat)
    requires k < |g.sessions| && g.sessions[k].used
    ensures var n := ThreadStep(g, t, th, c).g;
            k < |n.sessions| && !n.sessions[k].used ==>
              || th.pc.CloseAny?
              || (th.pc.DetachClose? && g.sessions[k].profile == th.profile)
              || (th.pc.OpenClose? && SlotOf(th) == Some(k))
  {
    if InDetach(th.pc) {
      DetachCloses(g, t, th, c, k);
    } else if !InAttach(th.pc) {
      OpenCloses(g, t, th, c, k);
    }
  }

  lemma DetachCloses(g: Shared, t: nat, th: Thread, c: Choice, k: nat)
    requires k < |g.sessions| && g.sessions[k].used && InDetach(th.pc)
    ensures var n := DetachStep(g, t, th, c).g;
            k < |n.sessions| && !n.sessions[k].used ==> th.pc.DetachClose? && g.sessions[k].profile == th.profile
  {
  }

  lemma OpenCloses(g: Shared, t: nat, th: Thread, c: Choice, k: nat)
    requires k < |g.sessions| && g.sessions[k].used && !InAttach(th.pc) && !InDetach(th.pc)
    ensures var n := OpenStep(g, t, th, c).g;
            k < |n.sessions| && !n.sessions[k].used ==> th.pc.CloseAny? || (th.pc.OpenClose? && SlotOf(th) == Some(k))
  {
  }

  /** The first step of a run to free the slot of an open that has not returned is a close
      that was called with its number, or the sweep of a detach; and of an open that has not
      published its pid, the former. */
  lemma FreedByClose(threads: nat, labels: seq<Label>, t: nat, c: Choice, u: nat)
    requires !EverFreesOther(Initial(threads), labels)
    requires var s := Run(Initial(threads), labels);
             && t < |s.threads| && u < |s.threads| && t != u
             && Freed(s.g, Step(s, Advance(t, c)).g, s.threads[u])
    ensures var s := Run(Initial(threads), labels);
            s.threads[t].pc.CloseAny? || (s.threads[t].pc.DetachClose? && !Unpublished(s.threads[u]))
  {
    var s0 := Initial(threads);
    assert forall v :: 0 <= v < threads ==> s0.threads[v].pc.Idle?;
    AlwaysOwnedIff(threads, labels);
    OwnedAtEnd(s0, labels);
    InitialInv(threads);
    NoneMarkedAtEnd(s0, labels);
    var s := Run(s0, labels);
    assert Holds(s.g, s.threads[u]);
    FreesByClosing(s.g, t, s.threads[t], c, SlotOf(s.threads[u]).value);
  }

  /** A close of a slot by its number answers 0, and frees that slot and touches no other. */
  lemma CloseFrees(s: State, t: nat, c: Choice)
    requires Tables(s.g) && t < |s.threads| && s.threads[t].pc.CloseAny? && s.g.sLock.Free?
    ensures var k, n := s.threads[t].pc.slot, Step(s, Advance(t, c));
            && n.threads[t].pc == Ended(0) && |n.g.sessions| == 8
            && (k < 8 ==> n.g.sessions[k] == s.g.sessions[k].(used := false))
            && (forall j :: 0 <= j < 8 && j != k ==> n.g.sessions[j] == s.g.sessions[j])
  {
  }

  // ---------- A run in which an open loses its slot ----------

  function Three(g: Shared, a: Thread, b: Thread, c: Thread): State {
    State(g, [a, b, c])
  }

  function InSlot(it: Session): Shared {
    Booted().(sessions := Booted().sessions[0 := it])
  }

  const NOBODY := Thread("", Direct, Idle)

  /** One open reserves slot 0, a close of that number frees it, another open reserves it,
      and the first goes on and publishes its pid in it. */
  function LostSlotRun(p: string, q: string): seq<Label> {
    [SetBooted(true)] + ([Start(0, Open, p)] + ([Advance(0, GO)] + ([Advance(0, GO)] + ([Start(2, Close(0), "")] + ([Advance(2, GO)]
    + ([Start(1, Open, q)] + ([Advance(1, GO)] + ([Advance(1, GO)] + ([Advance(0, GO)] + (Steps(14) + (Steps(3) + [])))))))))))
  }

  lemma SetThree(a: Thread, b: Thread, c: Thread, x: Thread)
    ensures [a, b, c][0 := x] == [x, b, c] && [a, b, c][1 := x] == [a, x, c] && [a, b, c][2 := x] == [a, b, x]
    ensures [a, b, c] == [a] + [b, c]
  {
  }

  lemma StepThree(g: Shared, a: Thread, b: Thread, c: Thread, t: nat)
    requires t < 3
    ensures var th := [a, b, c][t];
            var n := ThreadStep(g, t, th, GO);
            var x := Thread(th.profile, n.frame, n.pc);
            Step(Three(g, a, b, c), Advance(t, GO)) ==
            if t == 0 then Three(n.g, x, b, c) else if t == 1 then Three(n.g, a, x, c) else Three(n.g, a, b, x)
  {
    var th := [a, b, c][t];
    var n := ThreadStep(g, t, th, GO);
    SetThree(a, b, c, Thread(th.profile, n.frame, n.pc));
  }

  lemma StartThree(g: Shared, a: Thread, b: Thread, c: Thread, t: nat, op: Op, p: string)
    requires t < 3 && AtRest([a, b, c][t].pc)
    ensures var x := Thread(p, Direct, Entry(op));
            Step(Three(g, a, b, c), Start(t, op, p)) ==
            if t == 0 then Three(g, x, b, c) else if t == 1 then Three(g, a, x, c) else Three(g, a, b, x)
  {
    SetThree(a, b, c, Thread(p, Direct, Entry(op)));
  }

  /** An open that finds slot 0 free, on a machine on which nothing else is going on. */
  lemma Reserves(it: Session, t: nat, p: string)
    requires CheckProfile(p) == 0 && !it.used
    ensures ThreadStep(InSlot(it), t, Thread(p, Direct, OpenEnter), GO) == After(InSlot(it), Direct, OpenReserve)
    ensures ThreadStep(InSlot(it), t, Thread(p, Direct, OpenReserve), GO) ==
            After(InSlot(Session(true, 0, p)), Direct, OpenChild(0))
  {
    BootedIs();
    assert FreeSession(InSlot(it).sessions) == 0;
    assert InSlot(it).sessions[0 := Session(true, 0, p)] == InSlot(Session(true, 0, p)).sessions;
  }

  lemma ClosesZero(p: string)
    ensures ThreadStep(InSlot(Session(true, 0, p)), 2, Thread("", Direct, CloseAny(0)), GO) ==
            After(InSlot(Session(false, 0, p)), Direct, Ended(0))
  {
    BootedIs();
    assert SessionClosed(InSlot(Session(true, 0, p)).sessions, 0, None) == InSlot(Session(false, 0, p)).sessions;
  }

  lemma FreshSlot()
    ensures Step(Initial(3), SetBooted(true)) == Three(InSlot(Session(false, 0, "")), NOBODY, NOBODY, NOBODY)
  {
    BootedIs();
    assert Initial(3).threads == [NOBODY, NOBODY, NOBODY];
    assert InSlot(Session(false, 0, "")).sessions == Booted().sessions;
  }

  /** Both opens have taken slot 0, and the first has a child. */
  function Contested(p: string, q: string): State {
    Three(InSlot(Session(true, 0, q)), Thread(p, Opening(0, 1), AttachEnter), Thread(q, Direct, OpenChild(0)),
          Thread("", Direct, Ended(0)))
  }

  lemma FirstOpens(p: string, rest: seq<Label>)
    requires CheckProfile(p) == 0
    ensures Run(Initial(3), [SetBooted(true)] + ([Start(0, Open, p)] + ([Advance(0, GO)] + ([Advance(0, GO)] + rest)))) ==
            Run(Three(InSlot(Session(true, 0, p)), Thread(p, Direct, OpenChild(0)), NOBODY, NOBODY), rest)
  {
    var g, a := InSlot(Session(false, 0, "")), Thread(p, Direct, OpenEnter);
    FreshSlot();
    RunLabel(Initial(3), SetBooted(true), [Start(0, Open, p)] + ([Advance(0, GO)] + ([Advance(0, GO)] + rest)));
    StartThree(g, NOBODY, NOBODY, NOBODY, 0, Open, p);
    RunLabel(Three(g, NOBODY, NOBODY, NOBODY), Start(0, Open, p), [Advance(0, GO)] + ([Advance(0, GO)] + rest));
    Reserves(Session(false, 0, ""), 0, p);
    StepThree(g, a, NOBODY, NOBODY, 0);
    RunLabel(Three(g, a, NOBODY, NOBODY), Advance(0, GO), [Advance(0, GO)] + rest);
    StepThree(g, a.(pc := OpenReserve), NOBODY, NOBODY, 0);
    RunLabel(Three(g, a.(pc := OpenReserve), NOBODY, NOBODY), Advance(0, GO), rest);
  }

  lemma SlotClosed(p: string, rest: seq<Label>)
    ensures var a := Thread(p, Direct, OpenChild(0));
            Run(Three(InSlot(Session(true, 0, p)), a, NOBODY, NOBODY), [Start(2, Close(0), "")] + ([Advance(2, GO)] + rest)) ==
            Run(Three(InSlot(Session(false, 0, p)), a, NOBODY, Thread("", Direct, Ended(0))), rest)
  {
    var g, a := InSlot(Session(true, 0, p)), Thread(p, Direct, OpenChild(0));
    StartThree(g, a, NOBODY, NOBODY, 2, Close(0), "");
    RunLabel(Three(g, a, NOBODY, NOBODY), Start(2, Close(0), ""), [Advance(2, GO)] + rest);
    ClosesZero(p);
    StepThree(g, a, NOBODY, Thread("", Direct, CloseAny(0)), 2);
    RunLabel(Three(g, a, NOBODY, Thread("", Direct, CloseAny(0))), Advance(2, GO), rest);
  }

  lemma SecondOpens(p: string, q: string, rest: seq<Label>)
    requires CheckProfile(q) == 0
    ensures var a, d := Thread(p, Direct, OpenChild(0)), Thread("", Direct, Ended(0));
            Run(Three(InSlot(Session(false, 0, p)), a, NOBODY, d), [Start(1, Open, q)] + ([Advance(1, GO)] + ([Advance(1, GO)] + rest))) ==
            Run(Three(InSlot(Session(true, 0, q)), a, Thread(q, Direct, OpenChild(0)), d), rest)
  {
    var g, a, d := InSlot(Session(false, 0, p)), Thread(p, Direct, OpenChild(0)), Thread("", Direct, Ended(0));
    var b := Thread(q, Direct, OpenEnter);
    StartThree(g, a, NOBODY, d, 1, Open, q);
    RunLabel(Three(g, a, NOBODY, d), Start(1, Open, q), [Advance(1, GO)] + ([Advance(1, GO)] + rest));
    Reserves(Session(false, 0, p), 1, q);
    StepThree(g, a, b, d, 1);
    RunLabel(Three(g, a, b, d), Advance(1, GO), [Advance(1, GO)] + rest);
    StepThree(g, a, b.(pc := OpenReserve), d, 1);
    RunLabel(Three(g, a, b.(pc := OpenReserve), d), Advance(1, GO), rest);
  }

  lemma ChildMade(p: string, q: string, rest: seq<Label>)
    ensures Run(Three(InSlot(Session(true, 0, q)), Thread(p, Direct, OpenChild(0)), Thread(q, Direct, OpenChild(0)),
                      Thread("", Direct, Ended(0))), [Advance(0, GO)] + rest) ==
            Run(Contested(p, q), rest)
  {
    var g, a := InSlot(Session(true, 0, q)), Thread(p, Direct, OpenChild(0));
    var b, d := Thread(q, Direct, OpenChild(0)), Thread("", Direct, Ended(0));
    StepThree(g, a, b, d, 0);
    RunLabel(Three(g, a, b, d), Advance(0, GO), rest);
  }

  function First(p: string, q: string): Who {
    Who(p, Opening(0, 1), [Thread(q, Direct, OpenChild(0)), Thread("", Direct, Ended(0))])
  }

  lemma FirstPublishes(g: Shared, w: Who)
    requires g.sLock.Free? && |g.sessions| == MAX_SESSIONS && w.frame == Opening(0, 1)
    ensures Going(Alone(g, w, AttachDone(0)), 3) ==
            Alone(g.(sessions := g.sessions[0 := g.sessions[0].(pid := 1)]), w, OpenExec(0, 1))
  {
    Goes(g, w, AttachDone(0), g, OpenPrepare(0, 1), 2);
    Goes(g, w, OpenPrepare(0, 1), g, OpenPublish(0, 1), 1);
    Goes(g, w, OpenPublish(0, 1), g.(sessions := g.sessions[0 := g.sessions[0].(pid := 1)]), OpenExec(0, 1), 0);
  }

  lemma FirstAttaches(p: string, q: string)
    requires CheckProfile(p) == 0
    ensures var g := Recorded(InSlot(Session(true, 0, q)), p, 0);
            && Contested(p, q) == Alone(InSlot(Session(true, 0, q)), First(p, q), AttachEnter)
            && Going(Contested(p, q), 14) == Alone(g, First(p, q), AttachDone(0))
            && g.sLock.Free? && |g.sessions| == MAX_SESSIONS
  {
    BootedIs();
    SetThree(Thread(p, Opening(0, 1), AttachEnter), Thread(q, Direct, OpenChild(0)), Thread("", Direct, Ended(0)), NOBODY);
    AttachGoes(InSlot(Session(true, 0, q)), First(p, q));
  }

  /** So a close of its number between an open's reservation and its publication can leave
      another open, which has no pid of its own yet, with a session that has one: a detach
      of its profile finds no session without a pid, and would go on. */
  lemma OpenLosesSlot(p: string, q: string)
    requires CheckProfile(p) == 0 && CheckProfile(q) == 0
    ensures var s := Run(Initial(3), LostSlotRun(p, q));
            && |s.threads| == 3 && |s.g.sessions| == MAX_SESSIONS
            && s.threads[1] == Thread(q, Direct, OpenChild(0)) && Unpublished(s.threads[1])
            && s.g.sessions[0] == Session(true, 1, q) && !HasBare(s.g.sessions, q)
  {
    var last := Steps(14) + (Steps(3) + []);
    FirstOpens(p, [Start(2, Close(0), "")] + ([Advance(2, GO)]
    + ([Start(1, Open, q)] + ([Advance(1, GO)] + ([Advance(1, GO)] + ([Advance(0, GO)] + last))))));
    SlotClosed(p, [Start(1, Open, q)] + ([Advance(1, GO)] + ([Advance(1, GO)] + ([Advance(0, GO)] + last))));
    SecondOpens(p, q, [Advance(0, GO)] + last);
    ChildMade(p, q, last);
    RunSteps(Contested(p, q), 14, Steps(3) + []);
    FirstAttaches(p, q);
    var g := Recorded(InSlot(Session(true, 0, q)), p, 0);
    RunSteps(Alone(g, First(p, q), AttachDone(0)), 3, []);
    FirstPublishes(g, First(p, q));
    LostIs(p, q);
  }

  lemma LostIs(p: string, q: string)
    ensures var g := Recorded(InSlot(Session(true, 0, q)), p, 0);
            var s := Alone(g.(sessions := g.sessions[0 := g.sessions[0].(pid := 1)]), First(p, q), OpenExec(0, 1));
            && |s.threads| == 3 && |s.g.sessions| == MAX_SESSIONS
            && s.threads[1] == Thread(q, Direct, OpenChild(0)) && s.g.sessions[0] == Session(true, 1, q)
            && !HasBare(s.g.sessions, q)
  {
    BootedIs();
  }
}
