/** What the attach, detach and open protocol promises its callers. */
module IshMountsTheorems {
  import opened IshTables
  import opened IshMounts
  import opened IshMountsProofs

  // ---------- Safety over whole runs ----------

  /** In every interleaving of any number of threads, failures and half-done rollbacks
      included, no point of any profile carries two mounts and no name is recorded twice. */
  lemma NeverStacked(threads: nat, labels: seq<Label>)
    ensures var s := Run(Initial(threads), labels);
            && NoStacking(s.g.depths) && DistinctNames(s.g.attached) && DistinctNames(s.g.detaching)
  {
    InitialInv(threads);
    RunKeepsInv(Initial(threads), labels);
  }

  /** A recorded profile has at each point the one mount its attach put there, whatever the
      run, except exactly those that detaches have taken down since: so all three of its
      filesystems are mounted if and only if no detach, at work now or one that could not
      finish, has taken any of them. */
  lemma RecordedIsWholeIff(threads: nat, labels: seq<Label>, p: string)
    requires p != "" && p in Run(Initial(threads), labels).g.attached
    ensures var g := Run(Initial(threads), labels).g;
            && (forall q: Point :: Depth(g.depths, Mount(p, q)) == if Mount(p, q) in g.removed then 0 else 1)
            && (Stack(g.depths, p, 1, 1, 1) <==> g.removed * MountsOf(p) == {})
  {
    InitialInv(threads);
    RunKeepsInv(Initial(threads), labels);
    var g := Run(Initial(threads), labels).g;
    assert WholeBut(g, p);
    if Stack(g.depths, p, 1, 1, 1) {
      assert forall m :: m in MountsOf(p) ==> m !in g.removed;
    } else {
      WholeUnless(g, p);
    }
  }

  lemma WholeUnless(g: Shared, p: string)
    requires !Stack(g.depths, p, 1, 1, 1)
    requires forall q: Point :: Depth(g.depths, Mount(p, q)) == if Mount(p, q) in g.removed then 0 else 1
    ensures g.removed * MountsOf(p) != {}
  {
    var q: Point :| Mount(p, q) in g.removed;
    InMountsOf(p, q);
    assert Mount(p, q) in g.removed * MountsOf(p);
  }

  // ---------- What an answer of 0 means ----------

  /** An attach that answers 0 leaves its profile recorded, and whole: always when it
      mounted it itself, and when it found it recorded if and only if no detach that could
      not finish has taken any of it down. */
  lemma AttachAnswersZero(s: State, t: nat, c: Choice)
    requires Inv(s) && t < |s.threads| && InAttach(s.threads[t].pc)
    requires ThreadStep(s.g, t, s.threads[t], c).pc == AttachDone(0) && !s.threads[t].pc.AttachDone?
    ensures var p, n := s.threads[t].profile, Step(s, Advance(t, c)).g;
            && p in n.attached
            && (s.threads[t].pc.AttachRecord? ==> Stack(n.depths, p, 1, 1, 1))
            && (Stack(n.depths, p, 1, 1, 1) <==> n.removed * MountsOf(p) == {})
  {
    var th := s.threads[t];
    var n := Step(s, Advance(t, c)).g;
    assert Facts(s.g, th);
    AdvanceKeepsInv(s, t, c);
    ZeroFrom(s.g, t, th, c);
    if th.pc.AttachRecord? {
      AddedAt(s.g.attached, th.pc.slot, th.profile);
    }
    assert WholeBut(n, th.profile);
    if Stack(n.depths, th.profile, 1, 1, 1) {
      assert forall m :: m in MountsOf(th.profile) ==> m !in n.removed;
    } else {
      WholeUnless(n, th.profile);
    }
  }

  lemma ZeroFrom(g: Shared, t: nat, th: Thread, c: Choice)
    requires Facts(g, th) && InAttach(th.pc) && !th.pc.AttachDone? && ThreadStep(g, t, th, c).pc == AttachDone(0)
    ensures th.profile != ""
    ensures th.pc.AttachRecord? || (th.pc.AttachLook? && th.profile in g.attached)
  {
  }

  /** A detach on a booted machine that answers 0 leaves nothing mounted and the name
      gone, at the moment it answers. */
  lemma DetachAnswersZero(s: State, t: nat, c: Choice)
    requires Inv(s) && t < |s.threads| && InDetach(s.threads[t].pc)
    requires ThreadStep(s.g, t, s.threads[t], c).pc == Ended(0)
    requires !(s.threads[t].pc.DetachEnter? && !s.g.booted)
    ensures var p, n := s.threads[t].profile, Step(s, Advance(t, c)).g;
            Stack(n.depths, p, 0, 0, 0) && p !in n.attached && p !in n.detaching
  {
    var th := s.threads[t];
    assert Facts(s.g, th);
    EndedZeroFrom(s.g, t, th, c);
    RemovedMembers(s.g.detaching, th.profile);
  }

  /** A detach that comes as far as unmounting fails if and only if something of its profile
      is then still mounted: in every run, whatever other threads do in between, and whatever
      it and they were refused before. */
  lemma DetachFailsIff(threads: nat, labels: seq<Label>, t: nat, c: Choice)
    requires var s := Run(Initial(threads), labels);
             t < |s.threads| && s.threads[t].pc.DetachClear? && s.g.sLock.Free?
    ensures var s := Run(Initial(threads), labels);
            var n := Step(s, Advance(t, c));
            && n.threads[t].pc == Ended(s.threads[t].pc.err) && n.threads[t].pc.answer <= 0
            && (n.threads[t].pc.answer < 0 <==> !Stack(n.g.depths, s.threads[t].profile, 0, 0, 0))
  {
    InitialInv(threads);
    RunKeepsInv(Initial(threads), labels);
    var s := Run(Initial(threads), labels);
    assert Facts(s.g, s.threads[t]);
    ClearStep(s, t, c);
  }

  lemma ClearStep(s: State, t: nat, c: Choice)
    requires t < |s.threads| && s.threads[t].pc.DetachClear? && s.g.sLock.Free?
    ensures var n := Step(s, Advance(t, c)); n.threads[t].pc == Ended(s.threads[t].pc.err) && n.g.depths == s.g.depths
  {
  }

  /** And at that point a profile that was recorded stays so if and only if something of it
      is still mounted; so it is recorded in pieces if and only if some of its mounts stayed
      and some did not. */
  lemma DetachLeavesPiecesIff(threads: nat, labels: seq<Label>, t: nat, c: Choice)
    requires var s := Run(Initial(threads), labels);
             t < |s.threads| && s.threads[t].pc.DetachForget? && s.threads[t].profile in s.g.attached
    ensures var s := Run(Initial(threads), labels);
            var p, n := s.threads[t].profile, Step(s, Advance(t, c)).g;
            && n.depths == s.g.depths
            && (p in n.attached <==> !Stack(n.depths, p, 0, 0, 0))
            && (p in n.attached && !Stack(n.depths, p, 1, 1, 1) <==> !Stack(n.depths, p, 0, 0, 0) && !Stack(n.depths, p, 1, 1, 1))
  {
    InitialInv(threads);
    RunKeepsInv(Initial(threads), labels);
    var s := Run(Initial(threads), labels);
    assert Facts(s.g, s.threads[t]);
    ForgetStep(s, t, c);
  }

  lemma ForgetStep(s: State, t: nat, c: Choice)
    requires t < |s.threads| && s.threads[t].pc.DetachForget? && DistinctNames(s.g.attached)
    requires s.threads[t].profile in s.g.attached && s.threads[t].profile != ""
    ensures var n := Step(s, Advance(t, c)).g;
            n.depths == s.g.depths && (s.threads[t].profile in n.attached <==> s.threads[t].pc.err != 0)
  {
    RemovedMembers(s.g.attached, s.threads[t].profile);
  }

  lemma EndedZeroFrom(g: Shared, t: nat, th: Thread, c: Choice)
    requires Facts(g, th) && InDetach(th.pc) && ThreadStep(g, t, th, c).pc == Ended(0)
    requires !(th.pc.DetachEnter? && !g.booted)
    ensures th.pc == DetachClear(0)
  {
  }

  // ---------- The detaching mark ----------

  /** A detach sets its mark only when no session of the profile is reserved without a
      pid. */
  lemma MarkNeedsNoBareSession(s: State, t: nat, c: Choice)
    requires Inv(s) && t < |s.threads|
    requires !Marked(s.threads[t].pc) && Marked(ThreadStep(s.g, t, s.threads[t], c).pc)
    ensures !HasBare(s.g.sessions, s.threads[t].profile)
    ensures s.threads[t].profile !in s.g.detaching && s.threads[t].profile in Step(s, Advance(t, c)).g.detaching
  {
    var th := s.threads[t];
    assert Facts(s.g, th);
    NewlyMarked(s.g, t, th, c);
    AdvanceKeepsInv(s, t, c);
    assert Facts(Step(s, Advance(t, c)).g, Step(s, Advance(t, c)).threads[t]);
  }

  /** What one thread's step can do to a profile that another thread's detach has marked. */
  ghost predicate LeavesAlone(g: Shared, n: Shared, p: string) {
    && (forall point :: Depth(n.depths, Mount(p, point)) == Depth(g.depths, Mount(p, point)))
    && (p in n.attached <==> p in g.attached)
    && p in n.detaching
    && |n.sessions| == |g.sessions|
    && (forall k :: 0 <= k < |g.sessions| && n.sessions[k].used && n.sessions[k].profile == p ==>
          g.sessions[k].used && g.sessions[k].profile == p)
  }

  lemma MovesLeaveAlone(g: Shared, n: Shared, th: Thread, p: string)
    requires p in g.detaching && p != "" && p in n.detaching
    requires SessionsMove(g, n) && MountsMove(g, n, th)
    requires Mounting(th.pc) ==> th.profile != p
    ensures LeavesAlone(g, n, p)
  {
  }

  /** While a detach has its profile marked, no step of any other thread mounts anything
      of it, reserves a session for it, or records or forgets it. */
  lemma MarkExcludes(s: State, t: nat, u: nat, c: Choice)
    requires Inv(s) && t < |s.threads| && u < |s.threads| && u != t && Marked(s.threads[t].pc)
    ensures LeavesAlone(s.g, Step(s, Advance(u, c)).g, s.threads[t].profile)
  {
    var n := Step(s, Advance(u, c));
    assert Facts(s.g, s.threads[t]);
    ThreadStepShared(s, u, c);
    MarkFacts(s, n.g, u, t);
    if Mounting(s.threads[u].pc) {
      MarkedAlone(s, u, t);
    }
    MovesLeaveAlone(s.g, n.g, s.threads[u], s.threads[t].profile);
  }

  /** So when a detach unmounts, no session slot in use belongs to its profile. */
  lemma NoSessionsWhenUnmounting(threads: nat, labels: seq<Label>, t: nat, k: nat)
    requires t < |Run(Initial(threads), labels).threads| && k < MAX_SESSIONS
    requires Run(Initial(threads), labels).threads[t].pc.DetachSweep?
    ensures var s := Run(Initial(threads), labels);
            |s.g.sessions| == MAX_SESSIONS && !(s.g.sessions[k].used && s.g.sessions[k].profile == s.threads[t].profile)
  {
    InitialInv(threads);
    RunKeepsInv(Initial(threads), labels);
    var s := Run(Initial(threads), labels);
    assert Facts(s.g, s.threads[t]);
  }

  // ---------- Progress ----------

  /** How many steps of its own a thread can still need. */
  function Rank(pc: Pc): int {
    match pc
    case Idle => 0
    case Ended(_) => 0
    case OpenEnter => 43
    case OpenReserve => 42
    case OpenChild(_) => 41
    case AttachEnter => 40
    case AttachWantS => 39
    case AttachCheck => 38
    case AttachWantA => 37
    case AttachBoth => 36
    case AttachLook => 35
    case AttachSweep(_, i, _) => 34 - i
    case AttachProc(_) => 30
    case AttachDev(_) => 29
    case AttachPts(_) => 28
    case AttachRecord(_) => 27
    case AttachUndo(i, _) => 26 - i
    case AttachDone(_) => 22
    case OpenPrepare(_, _) => 21
    case OpenPublish(_, _) => 20
    case OpenExec(_, _) => 19
    case OpenFail(_, _, _) => 18
    case OpenClose(_, _) => 17
    case DetachEnter => 35
    case DetachWantS => 34
    case DetachScan => 33
    case DetachWantA => 32
    case DetachMark => 31
    case DetachClose(i) => 30 - i
    case DetachWantA2 => 21
    case DetachSweep(i, _) => 20 - i
    case DetachForget(_) => 16
    case DetachClear(_) => 15
    case CloseAny(_) => 1
  }

  lemma RankBounds(g: Shared, th: Thread)
    requires Facts(g, th)
    ensures 0 <= Rank(th.pc) <= 43
    ensures Rank(th.pc) == 0 <==> AtRest(th.pc)
  {
  }

  /** A step waits for a lock or brings its call closer to its end. */
  lemma StepDescends(g: Shared, t: nat, th: Thread, c: Choice)
    requires Facts(g, th) && Tables(g)
    ensures ThreadStep(g, t, th, c) == Stay(g, th) || Rank(ThreadStep(g, t, th, c).pc) < Rank(th.pc)
  {
    if InAttach(th.pc) {
      AttachDescends(g, t, th, c);
    } else if InDetach(th.pc) {
      DetachDescends(g, t, th, c);
    } else {
      OpenDescends(g, t, th, c);
    }
  }

  lemma AttachDescends(g: Shared, t: nat, th: Thread, c: Choice)
    requires Facts(g, th) && InAttach(th.pc)
    ensures AttachStep(g, t, th, c) == Stay(g, th) || Rank(AttachStep(g, t, th, c).pc) < Rank(th.pc)
  {
  }

  lemma DetachDescends(g: Shared, t: nat, th: Thread, c: Choice)
    requires Facts(g, th) && Tables(g) && InDetach(th.pc)
    ensures DetachStep(g, t, th, c) == Stay(g, th) || Rank(DetachStep(g, t, th, c).pc) < Rank(th.pc)
  {
  }

  lemma OpenDescends(g: Shared, t: nat, th: Thread, c: Choice)
    requires !InAttach(th.pc) && !InDetach(th.pc)
    ensures OpenStep(g, t, th, c) == Stay(g, th) || Rank(OpenStep(g, t, th, c).pc) < Rank(th.pc)
  {
  }

  /** A thread that needs no lock, or finds the one it needs free, moves. */
  lemma Moves(g: Shared, t: nat, th: Thread, c: Choice)
    requires Facts(g, th) && Tables(g) && !AtRest(th.pc)
    requires HoldsA(th.pc) || (g.aLock.Free? && (HoldsS(th.pc) || g.sLock.Free?))
    ensures ThreadStep(g, t, th, c) != Stay(g, th)
  {
    if InAttach(th.pc) {
      AttachMoves(g, t, th, c);
    } else if InDetach(th.pc) {
      DetachMoves(g, t, th, c);
    }
  }

  lemma AttachMoves(g: Shared, t: nat, th: Thread, c: Choice)
    requires Facts(g, th) && InAttach(th.pc)
    requires HoldsA(th.pc) || (g.aLock.Free? && (HoldsS(th.pc) || g.sLock.Free?))
    ensures AttachStep(g, t, th, c).pc != th.pc
  {
  }

  lemma DetachMoves(g: Shared, t: nat, th: Thread, c: Choice)
    requires Facts(g, th) && InDetach(th.pc)
    requires HoldsA(th.pc) || (g.aLock.Free? && (HoldsS(th.pc) || g.sLock.Free?))
    ensures DetachStep(g, t, th, c).pc != th.pc
  {
  }

  /** No deadlock: as long as any call is in progress, some thread can move, whatever the
      kernel answers it. */
  lemma NoDeadlock(s: State, busy: nat) returns (t: nat)
    requires Inv(s) && busy < |s.threads| && !AtRest(s.threads[busy].pc)
    ensures t < |s.threads| && !AtRest(s.threads[t].pc)
    ensures forall c :: ThreadStep(s.g, t, s.threads[t], c) != Stay(s.g, s.threads[t])
  {
    t := if s.g.aLock.HeldBy? then s.g.aLock.thread else if s.g.sLock.HeldBy? then s.g.sLock.thread else busy;
    assert Facts(s.g, s.threads[t]);
    forall c
      ensures ThreadStep(s.g, t, s.threads[t], c) != Stay(s.g, s.threads[t])
    {
      Moves(s.g, t, s.threads[t], c);
    }
  }

  function Work(threads: seq<Thread>): int {
    if threads == [] then 0 else Rank(threads[0].pc) + Work(threads[1..])
  }

  lemma {:induction false} WorkAfter(threads: seq<Thread>, t: nat, th: Thread)
    requires t < |threads|
    ensures Work(threads[t := th]) == Work(threads) - Rank(threads[t].pc) + Rank(th.pc)
  {
    var r := threads[t := th];
    if t == 0 {
      assert r[1..] == threads[1..];
    } else {
      assert r[1..] == threads[1..][t - 1 := th];
      WorkAfter(threads[1..], t - 1, th);
    }
  }

  lemma {:induction false} WorkPositive(g: Shared, threads: seq<Thread>)
    requires forall t :: 0 <= t < |threads| ==> Facts(g, threads[t])
    ensures Work(threads) >= 0
  {
    if threads != [] {
      RankBounds(g, threads[0]);
      WorkPositive(g, threads[1..]);
    }
  }

  /** From every reachable state, with any answers from the kernel, the calls in progress
      can all be run to their end. */
  lemma {:induction false} CallsComplete(s: State, c: Choice) returns (labels: seq<Label>)
    requires Inv(s)
    ensures |Run(s, labels).threads| == |s.threads|
    ensures forall t :: 0 <= t < |s.threads| ==> AtRest(Run(s, labels).threads[t].pc)
    ensures |labels| <= Work(s.threads)
    decreases Work(s.threads)
  {
    WorkPositive(s.g, s.threads);
    if busy :| 0 <= busy < |s.threads| && !AtRest(s.threads[busy].pc) {
      var t := NoDeadlock(s, busy);
      var th := s.threads[t];
      var n := ThreadStep(s.g, t, th, c);
      assert Facts(s.g, th);
      StepDescends(s.g, t, th, c);
      WorkAfter(s.threads, t, Thread(th.profile, n.frame, n.pc));
      AdvanceKeepsInv(s, t, c);
      var next := Step(s, Advance(t, c));
      WorkPositive(next.g, next.threads);
      var rest := CallsComplete(next, c);
      labels := [Advance(t, c)] + rest;
      assert labels[1..] == rest;
    } else {
      labels := [];
    }
  }
}
