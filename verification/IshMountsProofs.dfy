/** What every step of the attach, detach and open protocol keeps. */
module IshMountsProofs {
  import opened IshTables
  import opened IshMounts

  // ---------- How a step of one thread bears on the rest ----------

  /** A lock changes hands only from free to the stepping thread and back. */
  predicate LockMove(before: Lock, after: Lock, t: nat, held: bool, holds: bool) {
    || (after == before && held == holds)
    || (before.Free? && after == HeldBy(t) && holds)
    || (before == HeldBy(t) && after.Free? && !holds)
  }

  predicate LockAgrees(g: Shared, t: nat, pc: Pc) {
    (HoldsS(pc) <==> g.sLock == HeldBy(t)) && (HoldsA(pc) <==> g.aLock == HeldBy(t))
  }

  predicate LocksMove(g: Shared, t: nat, th: Thread, n: After) {
    && LockMove(g.sLock, n.g.sLock, t, HoldsS(th.pc), HoldsS(n.pc))
    && LockMove(g.aLock, n.g.aLock, t, HoldsA(th.pc), HoldsA(n.pc))
  }

  lemma AttachLocks(g: Shared, t: nat, th: Thread, c: Choice)
    requires LockAgrees(g, t, th.pc)
    ensures LocksMove(g, t, th, AttachStep(g, t, th, c))
  {
  }

  lemma DetachLocks(g: Shared, t: nat, th: Thread, c: Choice)
    requires LockAgrees(g, t, th.pc)
    ensures LocksMove(g, t, th, DetachStep(g, t, th, c))
  {
  }

  /** An open takes its locks for a single step, so it changes no lock and holds none. */
  lemma OpenLocks(g: Shared, t: nat, th: Thread, c: Choice)
    requires LockAgrees(g, t, th.pc)
    ensures LocksMove(g, t, th, OpenStep(g, t, th, c))
  {
    OpenLeavesLocks(g, t, th, c);
    OpenHoldsNone(g, t, th, c);
  }

  lemma OpenLeavesLocks(g: Shared, t: nat, th: Thread, c: Choice)
    ensures OpenStep(g, t, th, c).g.sLock == g.sLock && OpenStep(g, t, th, c).g.aLock == g.aLock
  {
  }

  lemma OpenHoldsNone(g: Shared, t: nat, th: Thread, c: Choice)
    ensures var pc := OpenStep(g, t, th, c).pc; pc == th.pc || (!HoldsS(pc) && !HoldsA(pc))
    ensures OpenStep(g, t, th, c).pc == th.pc || (!HoldsS(th.pc) && !HoldsA(th.pc))
  {
  }

  /** Sessions change under their lock, and a slot is newly used only for a profile that
      is not being detached. */
  ghost predicate SessionsMove(g: Shared, n: Shared) {
    && |n.sessions| == |g.sessions|
    && (n.sessions == g.sessions || g.sLock.Free?)
    && (forall k :: 0 <= k < |g.sessions| && n.sessions[k].used ==>
          (g.sessions[k].used && g.sessions[k].profile == n.sessions[k].profile) || n.sessions[k].profile !in g.detaching)
  }

  predicate Mounting(pc: Pc) {
    HoldsA(pc) && !pc.DetachMark?
  }

  /** Attached names and mounts change under their lock, and only for the stepping
      thread's profile. */
  ghost predicate MountsMove(g: Shared, n: Shared, th: Thread) {
    var p := th.profile;
    && (n.attached == g.attached || Mounting(th.pc))
    && (n.depths == g.depths || Mounting(th.pc))
    && (forall q :: q != p && q != "" ==> (q in n.attached <==> q in g.attached))
    && (forall m: Mount :: m.profile != p ==> (m in n.removed <==> m in g.removed))
    && (forall m: Mount :: m.profile != p ==> Depth(n.depths, m) == Depth(g.depths, m))
  }

  /** A mark is set by a detach that holds both locks and cleared by the one that set it. */
  ghost predicate MarksMove(g: Shared, n: Shared, th: Thread) {
    var p := th.profile;
    && (forall q :: q != p && q != "" ==> (q in n.detaching <==> q in g.detaching))
    && (p in n.detaching && p !in g.detaching && p != "" ==> th.pc.DetachMark?)
    && (p in g.detaching && p !in n.detaching && p != "" ==> th.pc.DetachClear?)
  }

  lemma AttachShared(g: Shared, t: nat, th: Thread, c: Choice)
    requires Facts(g, th) && Tables(g) && InAttach(th.pc)
    ensures var n := AttachStep(g, t, th, c).g; SessionsMove(g, n) && MountsMove(g, n, th) && MarksMove(g, n, th)
  {
    if th.pc.AttachRecord? {
      AddedAt(g.attached, th.pc.slot, th.profile);
    }
  }

  lemma AddedAt(table: seq<string>, slot: nat, name: string)
    requires EmptySlot(table, slot)
    ensures forall q :: q != name && q != "" ==> (q in table[slot := name] <==> q in table)
    ensures name in table[slot := name]
    ensures DistinctNames(table) && name !in table ==> DistinctNames(table[slot := name])
  {
    var r := table[slot := name];
    assert r[slot] == name;
    forall q | q != name && q != "" && q in table
      ensures q in r
    {
      var k :| 0 <= k < |table| && table[k] == q;
      assert r[k] == q;
    }
  }

  lemma DetachShared(g: Shared, t: nat, th: Thread, c: Choice)
    requires Facts(g, th) && Tables(g) && InDetach(th.pc)
    ensures var n := DetachStep(g, t, th, c).g; SessionsMove(g, n) && MountsMove(g, n, th) && MarksMove(g, n, th)
  {
    var p := th.profile;
    match th.pc
    case DetachMark =>
      if Marking(g.detaching, p) == 0 {
        AddedMembers(g.detaching, p);
      }
    case DetachForget(_) => RemovedMembers(g.attached, p);
    case DetachClear(_) => RemovedMembers(g.detaching, p);
    case _ =>
  }

  lemma OpenShared(g: Shared, t: nat, th: Thread, c: Choice)
    requires Facts(g, th) && Tables(g)
    ensures var n := OpenStep(g, t, th, c).g; SessionsMove(g, n) && MountsMove(g, n, th) && MarksMove(g, n, th)
  {
    OpenTouchesSessions(g, t, th, c);
    OpenSessionsMove(g, t, th, c);
  }

  lemma OpenTouchesSessions(g: Shared, t: nat, th: Thread, c: Choice)
    ensures var n := OpenStep(g, t, th, c).g; n == g.(sessions := n.sessions)
  {
  }

  lemma OpenSessionsMove(g: Shared, t: nat, th: Thread, c: Choice)
    ensures SessionsMove(g, OpenStep(g, t, th, c).g)
  {
  }

  lemma TablesKept(g: Shared, t: nat, th: Thread, c: Choice)
    requires Facts(g, th) && Tables(g)
    ensures Tables(ThreadStep(g, t, th, c).g)
  {
    if InAttach(th.pc) {
      AttachTables(g, t, th, c);
    } else if InDetach(th.pc) {
      DetachTables(g, t, th, c);
    } else {
      OpenTables(g, t, th, c);
    }
  }

  lemma AttachTables(g: Shared, t: nat, th: Thread, c: Choice)
    requires Facts(g, th) && Tables(g) && InAttach(th.pc)
    ensures Tables(AttachStep(g, t, th, c).g)
  {
    if th.pc.AttachRecord? {
      AddedAt(g.attached, th.pc.slot, th.profile);
    }
  }

  lemma DetachTables(g: Shared, t: nat, th: Thread, c: Choice)
    requires Facts(g, th) && Tables(g) && InDetach(th.pc)
    ensures Tables(DetachStep(g, t, th, c).g)
  {
    var p := th.profile;
    match th.pc
    case DetachMark =>
      if Marking(g.detaching, p) == 0 {
        AddedAt(g.detaching, IndexOf(g.detaching, ""), p);
      }
    case DetachForget(_) => RemovedMembers(g.attached, p);
    case DetachClear(_) => RemovedMembers(g.detaching, p);
    case _ =>
  }

  lemma OpenTables(g: Shared, t: nat, th: Thread, c: Choice)
    requires Facts(g, th) && Tables(g)
    ensures Tables(OpenStep(g, t, th, c).g)
  {
  }

  lemma StackingKept(g: Shared, t: nat, th: Thread, c: Choice)
    requires Facts(g, th) && NoStacking(g.depths)
    ensures NoStacking(ThreadStep(g, t, th, c).g.depths)
  {
    var n := ThreadStep(g, t, th, c).g.depths;
    forall m: Mount
      ensures Depth(n, m) <= 1
    {
      assert Depth(g.depths, m) <= 1;
    }
  }

  /** The stepping thread's own facts. */
  lemma AttachOwn(g: Shared, t: nat, th: Thread, c: Choice)
    requires Facts(g, th) && Tables(g) && NoStacking(g.depths) && InAttach(th.pc)
    ensures var n := AttachStep(g, t, th, c); Facts(n.g, Thread(th.profile, n.frame, n.pc))
  {
    if th.pc.AttachSweep? && th.pc.i == 3 && th.pc.err == 0 {
      AllSwept(g.depths, th.profile);
    }
  }

  lemma AllSwept(d: Depths, p: string)
    requires SweptTo(d, p, 3)
    ensures Stack(d, p, 0, 0, 0)
  {
    assert PointAt(0) == DevPts && PointAt(1) == Dev && PointAt(2) == Proc;
  }

  lemma DetachSweepOwn(g: Shared, t: nat, th: Thread, c: Choice)
    requires Facts(g, th) && NoStacking(g.depths) && th.pc.DetachSweep?
    ensures var n := DetachStep(g, t, th, c); Facts(n.g, Thread(th.profile, n.frame, n.pc))
  {
    if th.pc.i == 3 && th.pc.err == 0 {
      AllSwept(g.depths, th.profile);
    }
  }

  lemma DetachMarkOwn(g: Shared, t: nat, th: Thread, c: Choice)
    requires Facts(g, th) && Tables(g) && th.pc.DetachMark?
    ensures var n := DetachStep(g, t, th, c); Facts(n.g, Thread(th.profile, n.frame, n.pc))
  {
    if Marking(g.detaching, th.profile) == 0 {
      AddedMembers(g.detaching, th.profile);
    }
  }

  lemma DetachForgetOwn(g: Shared, t: nat, th: Thread, c: Choice)
    requires Facts(g, th) && Tables(g) && th.pc.DetachForget?
    ensures var n := DetachStep(g, t, th, c); Facts(n.g, Thread(th.profile, n.frame, n.pc))
  {
    RemovedMembers(g.attached, th.profile);
  }

  lemma DetachOwn(g: Shared, t: nat, th: Thread, c: Choice)
    requires Facts(g, th) && Tables(g) && InDetach(th.pc)
    requires !th.pc.DetachSweep? && !th.pc.DetachMark? && !th.pc.DetachForget?
    ensures var n := DetachStep(g, t, th, c); Facts(n.g, Thread(th.profile, n.frame, n.pc))
  {
  }

  /** The steps of an open that touch nothing shared. */
  predicate Apart(pc: Pc) {
    pc.OpenEnter? || pc.OpenChild? || pc.OpenPrepare? || pc.OpenExec?
  }

  lemma OpenApartOwn(g: Shared, t: nat, th: Thread, c: Choice)
    requires Facts(g, th) && Apart(th.pc)
    ensures var n := OpenStep(g, t, th, c); Facts(n.g, Thread(th.profile, n.frame, n.pc))
  {
  }

  lemma OpenReserveOwn(g: Shared, t: nat, th: Thread, c: Choice)
    requires Facts(g, th) && Tables(g) && th.pc.OpenReserve?
    ensures var n := OpenStep(g, t, th, c); Facts(n.g, Thread(th.profile, n.frame, n.pc))
  {
  }

  lemma OpenPublishOwn(g: Shared, t: nat, th: Thread, c: Choice)
    requires Facts(g, th) && (th.pc.OpenPublish? || th.pc.OpenFail?)
    ensures var n := OpenStep(g, t, th, c); Facts(n.g, Thread(th.profile, n.frame, n.pc))
  {
  }

  lemma OpenOwn(g: Shared, t: nat, th: Thread, c: Choice)
    requires Facts(g, th) && Tables(g) && !InAttach(th.pc) && !InDetach(th.pc)
    ensures var n := OpenStep(g, t, th, c); Facts(n.g, Thread(th.profile, n.frame, n.pc))
  {
    if Apart(th.pc) {
      OpenApartOwn(g, t, th, c);
    } else if th.pc.OpenReserve? {
      OpenReserveOwn(g, t, th, c);
    } else if th.pc.OpenPublish? || th.pc.OpenFail? {
      OpenPublishOwn(g, t, th, c);
    }
  }

  // ---------- The other threads ----------

  /** Whoever changes mounts or names of a profile that is marked is the detach that
      marked it. */
  lemma MarkedAlone(s: State, t: nat, u: nat)
    requires Inv(s) && t < |s.threads| && u < |s.threads| && u != t
    requires Mounting(s.threads[t].pc) && Marked(s.threads[u].pc)
    ensures s.threads[t].profile != s.threads[u].profile
  {
    assert Facts(s.g, s.threads[t]) && Facts(s.g, s.threads[u]);
    if Marked(s.threads[t].pc) {
      OwnersApart(s, t, u);
    }
  }

  lemma OwnersApart(s: State, t: nat, u: nat)
    requires Owners(s) && t < |s.threads| && u < |s.threads| && u != t
    requires Marked(s.threads[t].pc) && Marked(s.threads[u].pc)
    ensures s.threads[t].profile != s.threads[u].profile
  {
  }

  /** What thread `u` knows survives a step of thread `t`. */
  lemma OthersKept(s: State, n: Shared, t: nat, u: nat)
    requires Inv(s) && t < |s.threads| && u < |s.threads| && u != t
    requires SessionsMove(s.g, n) && MountsMove(s.g, n, s.threads[t]) && MarksMove(s.g, n, s.threads[t])
    ensures Facts(n, s.threads[u])
  {
    var me, it := s.threads[t], s.threads[u];
    var p := it.profile;
    assert Facts(s.g, me) && Facts(s.g, it);
    if Mounting(me.pc) {
      assert s.g.aLock == HeldBy(t) && !HoldsA(it.pc);
      if Marked(it.pc) {
        MarkedAlone(s, t, u);
      }
    }
    SessionFacts(s, n, t, u);
    MarkFacts(s, n, t, u);
  }

  lemma SessionFacts(s: State, n: Shared, t: nat, u: nat)
    requires Inv(s) && t < |s.threads| && u < |s.threads| && u != t
    requires SessionsMove(s.g, n)
    ensures var it := s.threads[u];
            && (it.pc.DetachWantA? || it.pc.DetachMark? ==> n.sessions == s.g.sessions)
            && (Marked(it.pc) ==> forall i: nat :: ClosedTo(s.g.sessions, it.profile, i) ==> ClosedTo(n.sessions, it.profile, i))
  {
    assert Facts(s.g, s.threads[u]);
  }

  lemma MarkFacts(s: State, n: Shared, t: nat, u: nat)
    requires Inv(s) && t < |s.threads| && u < |s.threads| && u != t
    requires MarksMove(s.g, n, s.threads[t])
    ensures PastCheck(s.threads[u].pc) ==> s.threads[u].profile !in n.detaching
    ensures Marked(s.threads[u].pc) ==> s.threads[u].profile in n.detaching
  {
    var me, it := s.threads[t], s.threads[u];
    assert Facts(s.g, me) && Facts(s.g, it);
    if Marked(it.pc) && me.pc.DetachClear? {
      OwnersApart(s, t, u);
    }
    if PastCheck(it.pc) && me.pc.DetachMark? {
      assert s.g.aLock == HeldBy(t) && s.g.sLock == HeldBy(t);
    }
  }

  // ---------- The whole state ----------

  lemma ThreadStepShared(s: State, t: nat, c: Choice)
    requires Inv(s) && t < |s.threads|
    ensures var th := s.threads[t];
            var n := ThreadStep(s.g, t, th, c);
            && SessionsMove(s.g, n.g) && MountsMove(s.g, n.g, th) && MarksMove(s.g, n.g, th)
            && Facts(n.g, Thread(th.profile, n.frame, n.pc))
            && LocksMove(s.g, t, th, n)
  {
    var th := s.threads[t];
    assert Facts(s.g, th);
    if InAttach(th.pc) {
      AttachShared(s.g, t, th, c);
      AttachOwn(s.g, t, th, c);
      AttachLocks(s.g, t, th, c);
    } else if InDetach(th.pc) {
      DetachShared(s.g, t, th, c);
      DetachLocks(s.g, t, th, c);
      if th.pc.DetachSweep? {
        DetachSweepOwn(s.g, t, th, c);
      } else if th.pc.DetachMark? {
        DetachMarkOwn(s.g, t, th, c);
      } else if th.pc.DetachForget? {
        DetachForgetOwn(s.g, t, th, c);
      } else {
        DetachOwn(s.g, t, th, c);
      }
    } else {
      OpenShared(s.g, t, th, c);
      OpenOwn(s.g, t, th, c);
      OpenLocks(s.g, t, th, c);
    }
  }

  lemma LocksFollow(s: State, n: After, t: nat)
    requires t < |s.threads| && Locks(s)
    requires LocksMove(s.g, t, s.threads[t], n)
    ensures Locks(State(n.g, s.threads[t := Thread(s.threads[t].profile, n.frame, n.pc)]))
  {
  }

  /** A thread newly marked was not excluded by another mark of the same profile. */
  lemma OwnersFollow(s: State, t: nat, c: Choice)
    requires Inv(s) && t < |s.threads|
    ensures Owners(Step(s, Advance(t, c)))
  {
    var th := s.threads[t];
    var n := ThreadStep(s.g, t, th, c);
    assert Facts(s.g, th);
    forall u | 0 <= u < |s.threads| && u != t && Marked(s.threads[u].pc) && Marked(n.pc)
      ensures s.threads[u].profile != th.profile
    {
      assert Facts(s.g, s.threads[u]);
      if Marked(th.pc) {
        OwnersApart(s, t, u);
      } else {
        NewlyMarked(s.g, t, th, c);
      }
    }
  }

  lemma NewlyMarked(g: Shared, t: nat, th: Thread, c: Choice)
    requires !Marked(th.pc) && Marked(ThreadStep(g, t, th, c).pc)
    ensures th.pc.DetachMark? && Marking(g.detaching, th.profile) == 0
  {
  }

  lemma InMountsOf(p: string, q: Point)
    ensures Mount(p, q) in MountsOf(p)
  {
    match q
    case DevPts =>
    case Dev =>
    case Proc =>
  }

  /** What a step does to its own profile, when that stays recorded. */
  lemma AttachOwnWhole(g: Shared, t: nat, th: Thread, c: Choice)
    requires Facts(g, th) && InAttach(th.pc) && WholeBut(g, th.profile)
    ensures WholeBut(AttachStep(g, t, th, c).g, th.profile)
  {
    if th.pc.AttachRecord? && th.pc.slot < |g.attached| {
      forall q: Point
        ensures Mount(th.profile, q) in MountsOf(th.profile)
      {
        InMountsOf(th.profile, q);
      }
    }
  }

  lemma SweepOwnWhole(g: Shared, t: nat, th: Thread, c: Choice)
    requires th.pc.DetachSweep? && NoStacking(g.depths) && WholeBut(g, th.profile)
    ensures WholeBut(DetachStep(g, t, th, c).g, th.profile)
  {
    if th.pc.i < 3 {
      var m := Mount(th.profile, PointAt(th.pc.i));
      assert Depth(g.depths, m) <= 1;
    }
  }

  lemma DetachOwnWhole(g: Shared, t: nat, th: Thread, c: Choice)
    requires Facts(g, th) && Tables(g) && InDetach(th.pc) && !th.pc.DetachSweep? && WholeBut(g, th.profile)
    ensures WholeBut(DetachStep(g, t, th, c).g, th.profile)
  {
    if th.pc.DetachForget? {
      RemovedMembers(g.attached, th.profile);
    }
  }

  lemma OpenOwnWhole(g: Shared, t: nat, th: Thread, c: Choice)
    requires WholeBut(g, th.profile)
    ensures WholeBut(OpenStep(g, t, th, c).g, th.profile)
  {
  }

  lemma OwnProfileWhole(g: Shared, t: nat, th: Thread, c: Choice)
    requires Facts(g, th) && Tables(g) && NoStacking(g.depths) && WholeBut(g, th.profile)
    ensures WholeBut(ThreadStep(g, t, th, c).g, th.profile)
  {
    if InAttach(th.pc) {
      AttachOwnWhole(g, t, th, c);
    } else if th.pc.DetachSweep? {
      SweepOwnWhole(g, t, th, c);
    } else if InDetach(th.pc) {
      DetachOwnWhole(g, t, th, c);
    } else {
      OpenOwnWhole(g, t, th, c);
    }
  }

  lemma WholeFollows(s: State, t: nat, c: Choice)
    requires Inv(s) && t < |s.threads|
    ensures forall p :: WholeBut(Step(s, Advance(t, c)).g, p)
  {
    var th := s.threads[t];
    var n := ThreadStep(s.g, t, th, c);
    assert Facts(s.g, th);
    ThreadStepShared(s, t, c);
    forall p
      ensures WholeBut(n.g, p)
    {
      assert WholeBut(s.g, p);
      if p == th.profile {
        OwnProfileWhole(s.g, t, th, c);
      } else {
        WholeElsewhere(s.g, n.g, th, p);
      }
    }
  }

  lemma WholeElsewhere(g: Shared, n: Shared, th: Thread, p: string)
    requires MountsMove(g, n, th) && WholeBut(g, p) && p != th.profile
    ensures WholeBut(n, p)
  {
    if p != "" && p in n.attached {
      forall q: Point
        ensures Depth(n.depths, Mount(p, q)) == if Mount(p, q) in n.removed then 0 else 1
      {
        assert Depth(n.depths, Mount(p, q)) == Depth(g.depths, Mount(p, q));
        assert Mount(p, q) in n.removed <==> Mount(p, q) in g.removed;
      }
    }
  }

  lemma AdvanceKeepsInv(s: State, t: nat, c: Choice)
    requires Inv(s) && t < |s.threads|
    ensures Inv(Step(s, Advance(t, c)))
  {
    var th := s.threads[t];
    var n := ThreadStep(s.g, t, th, c);
    var next := Step(s, Advance(t, c));
    assert Facts(s.g, th);
    ThreadStepShared(s, t, c);
    TablesKept(s.g, t, th, c);
    StackingKept(s.g, t, th, c);
    LocksFollow(s, n, t);
    OwnersFollow(s, t, c);
    WholeFollows(s, t, c);
    forall u | 0 <= u < |s.threads|
      ensures Facts(next.g, next.threads[u])
    {
      if u != t {
        OthersKept(s, n.g, t, u);
      }
    }
  }

  /** Starting a call at rest changes no fact: the first point of a call assumes nothing. */
  lemma StartedFacts(s: State, t: nat, op: Op, profile: string)
    requires Inv(s) && t < |s.threads| && AtRest(s.threads[t].pc)
    ensures Facts(s.g, Thread(profile, Direct, Entry(op)))
    ensures var pc := Entry(op); !HoldsS(pc) && !HoldsA(pc) && !Marked(pc)
  {
  }

  lemma StartKeepsInv(s: State, t: nat, op: Op, profile: string)
    requires Inv(s) && t < |s.threads| && AtRest(s.threads[t].pc)
    ensures Inv(Step(s, Start(t, op, profile)))
  {
    var next := Step(s, Start(t, op, profile));
    StartedFacts(s, t, op, profile);
    assert forall u :: 0 <= u < |s.threads| && u != t ==> next.threads[u] == s.threads[u];
    assert Locks(next);
    assert Owners(next);
  }

  lemma StepKeepsInv(s: State, l: Label)
    requires Inv(s)
    ensures Inv(Step(s, l))
  {
    match l
    case SetBooted(b) =>
      var next := Step(s, l);
      forall u | 0 <= u < |s.threads|
        ensures Facts(next.g, next.threads[u])
      {
        assert Facts(s.g, s.threads[u]);
      }
      forall p
        ensures WholeBut(next.g, p)
      {
        assert WholeBut(s.g, p);
      }
    case Start(t, op, profile) =>
      if t < |s.threads| && AtRest(s.threads[t].pc) {
        StartKeepsInv(s, t, op, profile);
      }
    case Advance(t, c) =>
      if t < |s.threads| {
        AdvanceKeepsInv(s, t, c);
      }
  }

  lemma InitialInv(threads: nat)
    ensures Inv(Initial(threads))
  {
  }

  /** Every state of every run of any number of threads satisfies the invariant. */
  lemma {:induction false} RunKeepsInv(s: State, labels: seq<Label>)
    requires Inv(s)
    ensures Inv(Run(s, labels))
    decreases |labels|
  {
    if labels != [] {
      StepKeepsInv(s, labels[0]);
      RunKeepsInv(Step(s, labels[0]), labels[1..]);
    }
  }
}
