/** What a whole call of attach, detach, open or close answers, whatever other threads do
    while it runs: success, or the first thing that refuses it. */
module IshAnswers {
  import opened Wrappers
  import opened IshTables
  import opened IshMounts
  import opened IshMountsProofs
  import opened IshSlots

  /** A point of the thread's profile that carries a mount the kernel will not give up. */
  predicate PointHeld(g: Shared, p: string, i: nat, c: Choice) {
    i < 3 && Depth(g.depths, Mount(p, PointAt(i))) > 0 && c.busy
  }

  /** What refuses a call at the point it has come to, or 0: a machine that is not booted,
      a bad name, a mark, a full table, a mount that is held, a session without a pid, or
      the kernel. A detach needs no booted machine; what asks the sessions waits until
      nobody has them. */
  function Refusal(g: Shared, th: Thread, c: Choice): int {
    var p := th.profile;
    match th.pc
    case AttachEnter => if !g.booted then -57 else CheckProfile(p)
    case OpenEnter => if !g.booted then -57 else CheckProfile(p)
    case DetachEnter => if !g.booted then 0 else CheckProfile(p)
    case AttachCheck => if p in g.detaching then -16 else 0
    case AttachLook => if p !in g.attached && "" !in g.attached then -24 else 0
    case AttachSweep(_, i, _) => if PointHeld(g, p, i, c) then -16 else 0
    case AttachProc(_) => if c.ok then 0 else c.code
    case AttachDev(_) => if c.ok then 0 else c.code
    case AttachPts(_) => if c.ok then 0 else c.code
    case DetachScan => if HasBare(g.sessions, p) then -16 else 0
    case DetachMark => if p in g.detaching then -16 else if "" !in g.detaching then -24 else 0
    case DetachSweep(i, _) => if PointHeld(g, p, i, c) then -16 else 0
    case OpenReserve =>
      if !g.sLock.Free? then 0
      else if p in g.detaching then -16
      else if forall k :: 0 <= k < |g.sessions| ==> g.sessions[k].used then -24
      else 0
    case OpenChild(_) => if c.ok && c.pid > 0 then 0 else c.code
    case OpenPrepare(_, _) => if c.ok then 0 else c.code
    case OpenExec(_, _) => if c.ok then 0 else c.code
    case _ => 0
  }

  /** The error a call is bound to answer, once something has refused it. */
  function Doom(pc: Pc): int {
    match pc
    case AttachSweep(_, _, err) => err
    case AttachUndo(_, err) => err
    case AttachDone(answer) => answer
    case DetachSweep(_, err) => err
    case DetachForget(err) => err
    case DetachClear(err) => err
    case OpenFail(_, _, err) => err
    case OpenClose(_, err) => err
    case Ended(answer) => if answer < 0 then answer else 0
    case _ => 0
  }

  predicate Sound(pc: Pc) {
    Doom(pc) <= 0 && (pc.OpenFail? || pc.OpenClose? || pc.AttachUndo? ==> Doom(pc) < 0)
  }

  /** The thread is at work on such a call. */
  predicate Of(th: Thread, op: Op) {
    match op
    case Attach => InAttach(th.pc) && th.frame.Direct?
    case Detach => InDetach(th.pc)
    case Open => th.pc.OpenEnter? || th.pc.OpenReserve? || SlotOf(th).Some?
    case Close(_) => th.pc.CloseAny?
  }

  // ---------- One step ----------

  /** After a step the call has ended with what dooms it, or with success, or goes on. */
  ghost predicate GoesOn(g: Shared, th: Thread, c: Choice, n: After, op: Op) {
    var next := Thread(th.profile, n.frame, n.pc);
    var doom := if Doom(th.pc) != 0 then Doom(th.pc) else Refusal(g, th, c);
    && Sound(n.pc) && Doom(n.pc) == doom
    && (if n.pc.Ended? then
          doom == 0 ==> n.pc.answer == if op.Open? && SlotOf(th).Some? then SlotOf(th).value else 0
        else Of(next, op))
  }

  predicate Mounts(pc: Pc) {
    pc.AttachSweep? || pc.AttachProc? || pc.AttachDev? || pc.AttachPts? || pc.AttachUndo? || pc.AttachRecord?
  }

  lemma AttachMountGoesOn(g: Shared, t: nat, th: Thread, c: Choice, op: Op)
    requires Facts(g, th) && Mounts(th.pc) && Of(th, op) && Sound(th.pc)
    ensures GoesOn(g, th, c, AttachStep(g, t, th, c), op)
  {
  }

  lemma AttachGoesOn(g: Shared, t: nat, th: Thread, c: Choice, op: Op)
    requires InAttach(th.pc) && !Mounts(th.pc) && Of(th, op) && Sound(th.pc)
    ensures GoesOn(g, th, c, AttachStep(g, t, th, c), op)
  {
  }

  lemma DetachGoesOn(g: Shared, t: nat, th: Thread, c: Choice, op: Op)
    requires Facts(g, th) && InDetach(th.pc) && Of(th, op) && Sound(th.pc)
    ensures GoesOn(g, th, c, DetachStep(g, t, th, c), op)
  {
  }

  lemma OpenGoesOn(g: Shared, t: nat, th: Thread, c: Choice, op: Op)
    requires !InAttach(th.pc) && !InDetach(th.pc) && Of(th, op) && Sound(th.pc)
    ensures GoesOn(g, th, c, OpenStep(g, t, th, c), op)
  {
  }

  lemma StepGoesOn(g: Shared, t: nat, th: Thread, c: Choice, op: Op)
    requires Facts(g, th) && Of(th, op) && Sound(th.pc)
    ensures GoesOn(g, th, c, ThreadStep(g, t, th, c), op)
  {
    if Mounts(th.pc) {
      AttachMountGoesOn(g, t, th, c, op);
    } else if InAttach(th.pc) {
      AttachGoesOn(g, t, th, c, op);
    } else if InDetach(th.pc) {
      DetachGoesOn(g, t, th, c, op);
    } else {
      OpenGoesOn(g, t, th, c, op);
    }
  }

  /** An open keeps the slot it has reserved, the first that was free, until it returns. */
  lemma SlotKept(g: Shared, t: nat, th: Thread, c: Choice)
    requires Of(th, Open) && SlotOf(Thread(th.profile, ThreadStep(g, t, th, c).frame, ThreadStep(g, t, th, c).pc)).Some?
    ensures var n := ThreadStep(g, t, th, c);
            SlotOf(Thread(th.profile, n.frame, n.pc)) == if th.pc.OpenReserve? then Some(FreeSession(g.sessions)) else SlotOf(th)
  {
    if InAttach(th.pc) {
      AttachSlotKept(g, t, th, c);
    } else {
      OpenSlotKept(g, t, th, c);
    }
  }

  lemma AttachSlotKept(g: Shared, t: nat, th: Thread, c: Choice)
    requires InAttach(th.pc) && SlotOf(Thread(th.profile, AttachStep(g, t, th, c).frame, AttachStep(g, t, th, c).pc)).Some?
    ensures var n := AttachStep(g, t, th, c); SlotOf(Thread(th.profile, n.frame, n.pc)) == SlotOf(th)
  {
  }

  lemma OpenSlotKept(g: Shared, t: nat, th: Thread, c: Choice)
    requires Of(th, Open) && !InAttach(th.pc) && SlotOf(Thread(th.profile, OpenStep(g, t, th, c).frame, OpenStep(g, t, th, c).pc)).Some?
    ensures var n := OpenStep(g, t, th, c);
            SlotOf(Thread(th.profile, n.frame, n.pc)) == if th.pc.OpenReserve? then Some(FreeSession(g.sessions)) else SlotOf(th)
  {
  }

  // ---------- Whole calls ----------

  /** The first refusal that the call of thread `t` meets in a run, or 0. */
  function FirstRefusal(s: State, labels: seq<Label>, t: nat): int
    decreases |labels|
  {
    if labels == [] || t >= |s.threads| then 0
    else
      var met := if labels[0].Advance? && labels[0].t == t then Refusal(s.g, s.threads[t], labels[0].c) else 0;
      if met != 0 then met else FirstRefusal(Step(s, labels[0]), labels[1..], t)
  }

  /** The slot that an open of thread `t` reserves in a run, the first one free when it has
      the sessions; `slot` if it has reserved one before. */
  function Reserved(s: State, labels: seq<Label>, t: nat, slot: nat): nat
    decreases |labels|
  {
    if labels == [] || t >= |s.threads| then slot
    else
      var now := if labels[0].Advance? && labels[0].t == t && s.threads[t].pc.OpenReserve? then FreeSession(s.g.sessions) else slot;
      Reserved(Step(s, labels[0]), labels[1..], t, now)
  }

  ghost predicate NotRestarted(labels: seq<Label>, t: nat) {
    forall i :: 0 <= i < |labels| ==> !(labels[i].Start? && labels[i].t == t)
  }

  lemma OtherStep(s: State, l: Label, t: nat)
    requires t < |s.threads| && !(l.Start? && l.t == t) && !(l.Advance? && l.t == t)
    ensures t < |Step(s, l).threads| && Step(s, l).threads[t] == s.threads[t]
  {
  }

  lemma {:induction false} EndedStays(s: State, labels: seq<Label>, t: nat, slot: nat)
    requires t < |s.threads| && s.threads[t].pc.Ended? && NotRestarted(labels, t)
    ensures t < |Run(s, labels).threads| && Run(s, labels).threads[t] == s.threads[t]
    ensures FirstRefusal(s, labels, t) == 0 && Reserved(s, labels, t, slot) == slot
    decreases |labels|
  {
    if labels != [] {
      if !(labels[0].Advance? && labels[0].t == t) {
        OtherStep(s, labels[0], t);
      }
      EndedStays(Step(s, labels[0]), labels[1..], t, slot);
    }
  }

  ghost predicate Outcome(n: Thread, op: Op, refusal: int, slot: nat) {
    if n.pc.Ended? then
      refusal <= 0 && n.pc.answer == if refusal < 0 then refusal else if op.Open? then slot else 0
    else Of(n, op) && Sound(n.pc) && Doom(n.pc) == refusal && (SlotOf(n).Some? && op.Open? ==> SlotOf(n).value == slot)
  }

  ghost predicate AnswersFirst(s: State, labels: seq<Label>, t: nat, op: Op, slot: nat)
    requires t < |s.threads|
  {
    var first := if Doom(s.threads[t].pc) != 0 then Doom(s.threads[t].pc) else FirstRefusal(s, labels, t);
    var n := Run(s, labels);
    t < |n.threads| && Outcome(n.threads[t], op, first, Reserved(s, labels, t, slot))
  }

  lemma {:induction false} CallGoesOn(s: State, labels: seq<Label>, t: nat, op: Op, slot: nat)
    requires Inv(s) && t < |s.threads| && NotRestarted(labels, t)
    requires Outcome(s.threads[t], op, Doom(s.threads[t].pc), slot)
    ensures AnswersFirst(s, labels, t, op, slot)
    decreases |labels|, 1
  {
    if s.threads[t].pc.Ended? {
      EndedStays(s, labels, t, slot);
    } else if labels != [] {
      if labels[0].Advance? && labels[0].t == t {
        OwnGoesOn(s, labels, t, op, slot);
      } else {
        StepKeepsInv(s, labels[0]);
        OtherStep(s, labels[0], t);
        CallGoesOn(Step(s, labels[0]), labels[1..], t, op, slot);
      }
    }
  }

  lemma {:induction false} OwnGoesOn(s: State, labels: seq<Label>, t: nat, op: Op, slot: nat)
    requires Inv(s) && t < |s.threads| && NotRestarted(labels, t)
    requires Outcome(s.threads[t], op, Doom(s.threads[t].pc), slot) && !s.threads[t].pc.Ended?
    requires labels != [] && labels[0].Advance? && labels[0].t == t
    ensures AnswersFirst(s, labels, t, op, slot)
    decreases |labels|, 0
  {
    var c := labels[0].c;
    StepKeepsInv(s, labels[0]);
    OwnStep(s, t, c, op, slot);
    CallGoesOn(Step(s, labels[0]), labels[1..], t, op, if s.threads[t].pc.OpenReserve? then FreeSession(s.g.sessions) else slot);
  }

  lemma OwnStep(s: State, t: nat, c: Choice, op: Op, slot: nat)
    requires Inv(s) && t < |s.threads|
    requires Outcome(s.threads[t], op, Doom(s.threads[t].pc), slot) && !s.threads[t].pc.Ended?
    ensures var th := s.threads[t];
            var next := Step(s, Advance(t, c)).threads[t];
            var now := if th.pc.OpenReserve? then FreeSession(s.g.sessions) else slot;
            && Doom(next.pc) == (if Doom(th.pc) != 0 then Doom(th.pc) else Refusal(s.g, th, c))
            && Outcome(next, op, Doom(next.pc), now)
  {
    var th := s.threads[t];
    assert Facts(s.g, th);
    StepGoesOn(s.g, t, th, c, op);
    var next := Step(s, Advance(t, c)).threads[t];
    if op.Open? && SlotOf(next).Some? {
      SlotKept(s.g, t, th, c);
    }
  }

  /** In every run, whatever other threads and the kernel do in between: a call answers the
      first refusal it meets. If it meets none it answers 0, or, if it is an open, the slot
      it reserved; so it answers below 0 if and only if something refused it. */
  lemma CallAnswers(threads: nat, before: seq<Label>, t: nat, op: Op, profile: string, labels: seq<Label>)
    requires var s := Run(Initial(threads), before); t < |s.threads| && AtRest(s.threads[t].pc)
    requires NotRestarted(labels, t)
    ensures var s := Step(Run(Initial(threads), before), Start(t, op, profile));
            var n := Run(s, labels);
            var refusal := FirstRefusal(s, labels, t);
            && t < |n.threads|
            && (n.threads[t].pc.Ended? ==>
                  && n.threads[t].pc.answer ==
                     (if refusal != 0 then refusal else if op.Open? then Reserved(s, labels, t, 0) else 0)
                  && (n.threads[t].pc.answer < 0 <==> refusal != 0))
  {
    var s := Step(Run(Initial(threads), before), Start(t, op, profile));
    InitialInv(threads);
    RunKeepsInv(Initial(threads), before);
    StepKeepsInv(Run(Initial(threads), before), Start(t, op, profile));
    assert s.threads[t] == Thread(profile, Direct, Entry(op));
    CallGoesOn(s, labels, t, op, 0);
  }

  // ---------- What a call leaves alone ----------

  /** The points of an attach or detach at which it changes no mount and no table. */
  predicate Looking(pc: Pc) {
    (InAttach(pc) && !Mounts(pc)) || pc.DetachEnter? || pc.DetachWantS? || pc.DetachScan? || pc.DetachWantA? || pc.DetachWantA2?
  }

  lemma OnlyLocks(g: Shared, t: nat, th: Thread, c: Choice)
    requires Looking(th.pc)
    ensures var n := ThreadStep(g, t, th, c).g; n == g.(sLock := n.sLock, aLock := n.aLock)
  {
  }

  /** In every run, an attach that finds its profile recorded answers 0, and does nothing
      but give the attached table back: no mount and no table changes. */
  lemma RecordedAttaches(threads: nat, labels: seq<Label>, t: nat, c: Choice)
    requires var s := Run(Initial(threads), labels);
             t < |s.threads| && s.threads[t].pc.AttachLook? && s.threads[t].profile in s.g.attached
    ensures var s := Run(Initial(threads), labels);
            var n := Step(s, Advance(t, c));
            && n.threads[t].pc == AttachDone(0) && n.g == s.g.(aLock := Free)
  {
    LooksOnce(Run(Initial(threads), labels), t, c);
  }

  lemma LooksOnce(s: State, t: nat, c: Choice)
    requires t < |s.threads| && s.threads[t].pc.AttachLook? && s.threads[t].profile in s.g.attached
    ensures Step(s, Advance(t, c)).threads[t].pc == AttachDone(0) && Step(s, Advance(t, c)).g == s.g.(aLock := Free)
  {
  }

  // ---------- Sweeps ----------

  /** How far a sweep over the three points of a profile has come: the one at the start of
      an attach, the one that rolls it back, or that of a detach. */
  function SweepAt(pc: Pc): Option<nat> {
    match pc
    case AttachSweep(_, i, _) => Some(i)
    case AttachUndo(i, _) => Some(i)
    case DetachSweep(i, _) => Some(i)
    case _ => None
  }

  /** The point, if any, that a step finds held. */
  function HeldNow(g: Shared, th: Thread, c: Choice): set<Point> {
    var at := SweepAt(th.pc);
    if at.Some? && PointHeld(g, th.profile, at.value, c) then {PointAt(at.value)} else {}
  }

  /** The points that were held when their turn came. */
  function HeldPoints(s: State, labels: seq<Label>, t: nat): set<Point>
    decreases |labels|
  {
    if labels == [] || t >= |s.threads| then {}
    else
      (if labels[0].Advance? && labels[0].t == t then HeldNow(s.g, s.threads[t], labels[0].c) else {})
      + HeldPoints(Step(s, labels[0]), labels[1..], t)
  }

  /** The thread sweeps all through the run, so it is one sweep. */
  ghost predicate Sweeping(s: State, labels: seq<Label>, t: nat)
    decreases |labels|
  {
    && t < |s.threads| && SweepAt(s.threads[t].pc).Some?
    && (labels != [] ==> Sweeping(Step(s, labels[0]), labels[1..], t))
  }

  function PointDepth(s: State, p: string, k: nat): nat
    requires k < 3
  {
    Depth(s.g.depths, Mount(p, PointAt(k)))
  }

  lemma SweepsOne(s: State, t: nat, c: Choice)
    requires Inv(s) && t < |s.threads| && SweepAt(s.threads[t].pc).Some?
    requires SweepAt(Step(s, Advance(t, c)).threads[t].pc).Some?
    ensures var th, n := s.threads[t], Step(s, Advance(t, c));
            var i := SweepAt(th.pc).value;
            && i < 3 && SweepAt(n.threads[t].pc) == Some(i + 1) && n.threads[t].profile == th.profile
            && (forall k: nat :: k < 3 && k != i ==> PointDepth(n, th.profile, k) == PointDepth(s, th.profile, k))
            && (PointDepth(n, th.profile, i) > 0 <==> PointHeld(s.g, th.profile, i, c))
  {
    var th := s.threads[t];
    assert Facts(s.g, th);
    SweepsPoint(s.g, t, th, c);
  }

  lemma SweepsPoint(g: Shared, t: nat, th: Thread, c: Choice)
    requires NoStacking(g.depths) && SweepAt(th.pc).Some? && SweepAt(th.pc).value <= 3
    ensures var n := ThreadStep(g, t, th, c);
            var i := SweepAt(th.pc).value;
            if i < 3 then
              && SweepAt(n.pc) == Some(i + 1)
              && n.g.depths == Unmounted(g.depths, Mount(th.profile, PointAt(i)), c.busy)
              && (Depth(n.g.depths, Mount(th.profile, PointAt(i))) > 0 <==> PointHeld(g, th.profile, i, c))
            else SweepAt(n.pc).None?
  {
    if SweepAt(th.pc).value < 3 {
      assert Depth(g.depths, Mount(th.profile, PointAt(SweepAt(th.pc).value))) <= 1;
    }
  }

  /** Nobody else mounts or unmounts anything while a thread sweeps. */
  lemma OthersMountNothing(s: State, l: Label, t: nat)
    requires Inv(s) && t < |s.threads| && HoldsA(s.threads[t].pc) && !(l.Advance? && l.t == t)
    ensures Step(s, l).g.depths == s.g.depths && t < |Step(s, l).threads| && Step(s, l).threads[t] == s.threads[t]
  {
    if l.Advance? && l.t < |s.threads| {
      ThreadStepShared(s, l.t, l.c);
    }
  }

  lemma {:induction false} SweepFrom(s: State, labels: seq<Label>, t: nat)
    requires Inv(s) && Sweeping(s, labels, t)
    ensures var n := Run(s, labels);
            t < |n.threads| && SweepAt(n.threads[t].pc).Some? && n.threads[t].profile == s.threads[t].profile
    ensures var n := Run(s, labels);
            var i, j, p := SweepAt(s.threads[t].pc).value, SweepAt(n.threads[t].pc).value, s.threads[t].profile;
            && i <= j <= 3
            && (forall k: nat :: k < 3 && (k < i || j <= k) ==>
                  PointDepth(n, p, k) == PointDepth(s, p, k) && PointAt(k) !in HeldPoints(s, labels, t))
            && (forall k: nat :: i <= k < j ==> (PointDepth(n, p, k) > 0 <==> PointAt(k) in HeldPoints(s, labels, t)))
    decreases |labels|
  {
    assert Facts(s.g, s.threads[t]);
    if labels != [] {
      var l := labels[0];
      StepKeepsInv(s, l);
      SweepFrom(Step(s, l), labels[1..], t);
      if l.Advance? && l.t == t {
        SweepsOne(s, t, l.c);
      } else {
        OthersMountNothing(s, l, t);
      }
    }
  }

  /** In every interleaving, of the sweep of an attach, of its rollback and of a detach: when
      the sweep is done, a point of the profile carries a mount if and only if the kernel
      would not give it up when its turn came. */
  lemma SweptIff(threads: nat, before: seq<Label>, labels: seq<Label>, t: nat, q: Point)
    requires var s := Run(Initial(threads), before); Sweeping(s, labels, t) && SweepAt(s.threads[t].pc) == Some(0)
    requires var n := Run(Run(Initial(threads), before), labels);
             t < |n.threads| && SweepAt(n.threads[t].pc) == Some(3)
    ensures var s := Run(Initial(threads), before);
            Depth(Run(s, labels).g.depths, Mount(s.threads[t].profile, q)) > 0 <==> q in HeldPoints(s, labels, t)
  {
    InitialInv(threads);
    RunKeepsInv(Initial(threads), before);
    var s := Run(Initial(threads), before);
    SweepFrom(s, labels, t);
    var k := Order(q);
    assert PointAt(k) == q;
    assert PointDepth(Run(s, labels), s.threads[t].profile, k) > 0 <==> PointAt(k) in HeldPoints(s, labels, t);
  }
}
