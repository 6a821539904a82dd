/** Detaches that cannot finish: when one leaves a recorded profile in pieces, and a run in
    which one does. */
module IshPieces {
  import opened IshTables
  import opened IshMounts
  import opened IshMountsProofs
  import opened IshRuns

  function Many(held: bool): nat {
    if held then 1 else 0
  }

  /** One point of a detach's sweep. */
  lemma SweepStep(s: State, t: nat, c: Choice)
    requires t < |s.threads| && s.threads[t].pc.DetachSweep? && s.threads[t].pc.i < 3
    ensures var th, n := s.threads[t], Step(s, Advance(t, c));
            var m := Mount(th.profile, PointAt(th.pc.i));
            && |n.threads| == |s.threads| && n.g.attached == s.g.attached
            && n.g.depths == Unmounted(s.g.depths, m, c.busy)
            && n.threads[t] == Thread(th.profile, th.frame,
                                      DetachSweep(th.pc.i + 1, Swept(th.pc.err, UnmountCode(s.g.depths, m, c.busy))))
  {
  }

  /** The end of the sweep, and the decision about the name. */
  lemma SweepEnd(s: State, t: nat, c: Choice, d: Choice)
    requires t < |s.threads| && s.threads[t].pc.DetachSweep? && s.threads[t].pc.i == 3
    requires DistinctNames(s.g.attached) && s.threads[t].profile in s.g.attached && s.threads[t].profile != ""
    ensures var n := Step(Step(s, Advance(t, c)), Advance(t, d)).g;
            n.depths == s.g.depths && (s.threads[t].profile in n.attached <==> s.threads[t].pc.err != 0)
  {
    RemovedMembers(s.g.attached, s.threads[t].profile);
  }

  lemma RunTwo(s: State, a: Label, b: Label, rest: seq<Label>)
    ensures Run(s, [a, b] + rest) == Run(Step(Step(s, a), b), rest)
  {
    assert ([a, b] + rest)[1..] == [b] + rest && ([b] + rest)[1..] == rest;
  }

  function SweepLabels(t: nat, c0: Choice, c1: Choice, c2: Choice, c3: Choice): seq<Label> {
    [Advance(t, c0), Advance(t, c1)] + ([Advance(t, c2), Advance(t, c3)] + [Advance(t, c3)])
  }

  lemma RunSweep(s: State, t: nat, c0: Choice, c1: Choice, c2: Choice, c3: Choice)
    ensures Run(s, SweepLabels(t, c0, c1, c2, c3)) ==
            Step(Step(Step(Step(Step(s, Advance(t, c0)), Advance(t, c1)), Advance(t, c2)), Advance(t, c3)), Advance(t, c3))
  {
    RunTwo(s, Advance(t, c0), Advance(t, c1), [Advance(t, c2), Advance(t, c3)] + [Advance(t, c3)]);
    var s2 := Step(Step(s, Advance(t, c0)), Advance(t, c1));
    RunTwo(s2, Advance(t, c2), Advance(t, c3), [Advance(t, c3)]);
    assert [Advance(t, c3)][1..] == [];
  }

  /** A thread in a sweep of `p`, with these many mounts on the points. */
  ghost predicate Sweeps(s: State, t: nat, p: string, i: nat, err: int, pts: nat, dev: nat, proc: nat) {
    && t < |s.threads| && s.threads[t].profile == p && s.threads[t].pc == DetachSweep(i, err)
    && Stack(s.g.depths, p, pts, dev, proc)
  }

  lemma SweepPts(s: State, t: nat, p: string, c: Choice)
    requires Sweeps(s, t, p, 0, 0, 1, 1, 1)
    ensures var n := Step(s, Advance(t, c));
            Sweeps(n, t, p, 1, if c.busy then EBUSY else 0, Many(c.busy), 1, 1) && n.g.attached == s.g.attached
  {
    SweepStep(s, t, c);
  }

  lemma SweepDev(s: State, t: nat, p: string, err: int, pts: nat, c: Choice)
    requires Sweeps(s, t, p, 1, err, pts, 1, 1)
    ensures var n := Step(s, Advance(t, c));
            Sweeps(n, t, p, 2, if c.busy && err == 0 then EBUSY else err, pts, Many(c.busy), 1) && n.g.attached == s.g.attached
  {
    SweepStep(s, t, c);
  }

  lemma SweepProc(s: State, t: nat, p: string, err: int, pts: nat, dev: nat, c: Choice)
    requires Sweeps(s, t, p, 2, err, pts, dev, 1)
    ensures var n := Step(s, Advance(t, c));
            Sweeps(n, t, p, 3, if c.busy && err == 0 then EBUSY else err, pts, dev, Many(c.busy)) && n.g.attached == s.g.attached
  {
    SweepStep(s, t, c);
  }

  lemma SweepLast(s: State, t: nat, p: string, err: int, pts: nat, dev: nat, proc: nat, c: Choice)
    requires Sweeps(s, t, p, 3, err, pts, dev, proc) && DistinctNames(s.g.attached) && p in s.g.attached && p != ""
    ensures var n := Step(Step(s, Advance(t, c)), Advance(t, c)).g;
            Stack(n.depths, p, pts, dev, proc) && (p in n.attached <==> err != 0)
  {
    SweepEnd(s, t, c, c);
  }

  /** A detach that begins to unmount a whole profile, and is not overtaken, leaves mounted
      exactly the points that are held when it comes to them, whatever the kernel answers; the
      name stays if and only if one was; and so it leaves the profile recorded in pieces if and
      only if some points are held and some are not. */
  lemma DetachInPiecesIff(s: State, t: nat, c0: Choice, c1: Choice, c2: Choice, c3: Choice)
    requires t < |s.threads| && s.threads[t].pc == DetachSweep(0, 0) && DistinctNames(s.g.attached)
    requires var p := s.threads[t].profile; p != "" && p in s.g.attached && Stack(s.g.depths, p, 1, 1, 1)
    ensures var p, n := s.threads[t].profile, Run(s, SweepLabels(t, c0, c1, c2, c3)).g;
            && Stack(n.depths, p, Many(c0.busy), Many(c1.busy), Many(c2.busy))
            && (p in n.attached <==> c0.busy || c1.busy || c2.busy)
            && (p in n.attached && !Stack(n.depths, p, 1, 1, 1) <==>
                (c0.busy || c1.busy || c2.busy) && !(c0.busy && c1.busy && c2.busy))
  {
    var p := s.threads[t].profile;
    RunSweep(s, t, c0, c1, c2, c3);
    SweepPts(s, t, p, c0);
    var s1 := Step(s, Advance(t, c0));
    var e1 := if c0.busy then EBUSY else 0;
    SweepDev(s1, t, p, e1, Many(c0.busy), c1);
    var s2 := Step(s1, Advance(t, c1));
    var e2 := if c1.busy && e1 == 0 then EBUSY else e1;
    SweepProc(s2, t, p, e2, Many(c0.busy), Many(c1.busy), c2);
    var s3 := Step(s2, Advance(t, c2));
    var e3 := if c2.busy && e2 == 0 then EBUSY else e2;
    SweepLast(s3, t, p, e3, Many(c0.busy), Many(c1.busy), Many(c2.busy), c3);
  }

  // ---------- A run that does it ----------

  const HELD := Choice(true, -1, true, 1)

  lemma DetachEntering(g: Shared, w: Who, n: nat)
    requires Quiet(g) && CheckProfile(w.profile) == 0
    ensures Going(Alone(g, w, DetachEnter), n + 2) == Going(Alone(g.(sLock := HeldBy(0)), w, DetachScan), n)
  {
    DetachLetIn(g, w);
    Goes(g, w, DetachEnter, g, DetachWantS, n + 1);
    Goes(g, w, DetachWantS, g.(sLock := HeldBy(0)), DetachScan, n);
  }

  lemma DetachLetIn(g: Shared, w: Who)
    requires Quiet(g) && CheckProfile(w.profile) == 0
    ensures ThreadStep(g, 0, Thread(w.profile, w.frame, DetachEnter), GO) == After(g, w.frame, DetachWantS)
    ensures ThreadStep(g, 0, Thread(w.profile, w.frame, DetachWantS), GO) == After(g.(sLock := HeldBy(0)), w.frame, DetachScan)
  {
  }

  lemma DetachMarks(g: Shared, w: Who)
    requires Marking(g.detaching, w.profile) == 0
    ensures ThreadStep(g, 0, Thread(w.profile, w.frame, DetachMark), GO) ==
            After(g.(detaching := Added(g.detaching, w.profile), aLock := Free, sLock := Free), w.frame, DetachClose(0))
  {
  }

  lemma DetachScans(g: Shared, w: Who)
    requires !HasBare(g.sessions, w.profile) && g.aLock.Free?
    ensures ThreadStep(g, 0, Thread(w.profile, w.frame, DetachScan), GO) == After(g, w.frame, DetachWantA)
    ensures ThreadStep(g, 0, Thread(w.profile, w.frame, DetachWantA), GO) == After(g.(aLock := HeldBy(0)), w.frame, DetachMark)
  {
  }

  lemma DetachMarking(g: Shared, w: Who)
    requires Quiet(g) && CheckProfile(w.profile) == 0 && !HasBare(g.sessions, w.profile) && Marking(g.detaching, w.profile) == 0
    ensures Going(Alone(g, w, DetachEnter), 5) == Alone(g.(detaching := Added(g.detaching, w.profile)), w, DetachClose(0))
  {
    DetachEntering(g, w, 3);
    var g1 := g.(sLock := HeldBy(0));
    var g2 := g1.(aLock := HeldBy(0));
    DetachScans(g1, w);
    DetachMarks(g2, w);
    Goes(g1, w, DetachScan, g1, DetachWantA, 2);
    Goes(g1, w, DetachWantA, g2, DetachMark, 1);
    Goes(g2, w, DetachMark, g.(detaching := Added(g.detaching, w.profile)), DetachClose(0), 0);
  }

  lemma DetachCloses(g: Shared, w: Who, i: nat)
    requires g.sLock.Free? && i <= |g.sessions| && (i < |g.sessions| ==> !g.sessions[i].used)
    ensures ThreadStep(g, 0, Thread(w.profile, w.frame, DetachClose(i)), GO) ==
            After(g, w.frame, if i < |g.sessions| then DetachClose(i + 1) else DetachWantA2)
  {
  }

  lemma {:induction false} DetachClosing(g: Shared, w: Who, i: nat)
    requires g.sLock.Free? && |g.sessions| == MAX_SESSIONS && i <= MAX_SESSIONS
    requires forall k :: 0 <= k < |g.sessions| ==> !g.sessions[k].used
    ensures Going(Alone(g, w, DetachClose(i)), MAX_SESSIONS - i + 1) == Alone(g, w, DetachWantA2)
    decreases MAX_SESSIONS - i
  {
    DetachCloses(g, w, i);
    if i < MAX_SESSIONS {
      Goes(g, w, DetachClose(i), g, DetachClose(i + 1), MAX_SESSIONS - i);
      DetachClosing(g, w, i + 1);
    } else {
      Goes(g, w, DetachClose(i), g, DetachWantA2, 0);
    }
  }

  /** An attach that succeeds, and a detach that finds `/dev` alone held. */
  function PiecesRun(p: string): seq<Label> {
    [SetBooted(true)] + ([Start(0, Attach, p)] + (Steps(15) + ([Start(0, Detach, p)] + (Steps(15) + Sweeping()))))
  }

  function Sweeping(): seq<Label> {
    SweepLabels(0, GO, HELD, GO, GO)
  }

  function Only(p: string): Who {
    Who(p, Direct, [])
  }

  lemma StartOnly(g: Shared, q: string, pc: Pc, op: Op, p: string)
    requires AtRest(pc)
    ensures Step(Alone(g, Only(q), pc), Start(0, op, p)) == Alone(g, Only(p), Entry(op))
  {
    assert Alone(g, Only(q), pc).threads[0 := Thread(p, Direct, Entry(op))] == Alone(g, Only(p), Entry(op)).threads;
  }

  lemma BootOnly()
    ensures Step(Initial(1), SetBooted(true)) == Alone(Booted(), Only(""), Idle)
  {
    assert Initial(1).threads == [Thread("", Direct, Idle)] + [];
  }

  lemma AttachWhole(p: string)
    requires CheckProfile(p) == 0
    ensures Going(Alone(Booted(), Only(p), AttachEnter), 15) == Alone(Recorded(Booted(), p, 0), Only(p), Ended(0))
  {
    BootedIs();
    AttachGoes(Booted(), Only(p));
    var g := Recorded(Booted(), p, 0);
    Goes(g, Only(p), AttachDone(0), g, Ended(0), 0);
    GoingOn(Alone(Booted(), Only(p), AttachEnter), 14, 1);
  }

  lemma RecordedIs(p: string)
    requires CheckProfile(p) == 0
    ensures var g := Recorded(Booted(), p, 0);
            && Quiet(g) && p in g.attached && Stack(g.depths, p, 1, 1, 1)
            && !HasBare(g.sessions, p) && Marking(g.detaching, p) == 0
            && (forall k :: 0 <= k < |g.sessions| ==> !g.sessions[k].used)
  {
    var g, b := Recorded(Booted(), p, 0), Booted();
    BootedIs();
    assert g.attached[0] == p;
    assert forall k :: 0 < k < |g.attached| ==> g.attached[k] == "";
    assert b.detaching[0] == "";
  }

  lemma DetachToSweep(g: Shared, w: Who)
    requires Quiet(g) && CheckProfile(w.profile) == 0 && !HasBare(g.sessions, w.profile) && Marking(g.detaching, w.profile) == 0
    requires forall k :: 0 <= k < |g.sessions| ==> !g.sessions[k].used
    ensures Going(Alone(g, w, DetachEnter), 15) ==
            Alone(g.(detaching := Added(g.detaching, w.profile), aLock := HeldBy(0)), w, DetachSweep(0, 0))
  {
    var marked := g.(detaching := Added(g.detaching, w.profile));
    DetachMarking(g, w);
    DetachClosing(marked, w, 0);
    Goes(marked, w, DetachWantA2, marked.(aLock := HeldBy(0)), DetachSweep(0, 0), 0);
    GoingOn(Alone(g, w, DetachEnter), 5, 10);
    GoingOn(Alone(marked, w, DetachClose(0)), 9, 1);
  }

  /** So a run of a single thread from the start leaves a profile recorded with only `/dev`
      mounted. */
  lemma DetachLeavesPieces(p: string)
    requires CheckProfile(p) == 0
    ensures var g := Run(Initial(1), PiecesRun(p)).g; p in g.attached && Stack(g.depths, p, 0, 1, 0)
  {
    var rest := [Start(0, Detach, p)] + (Steps(15) + Sweeping());
    BootOnly();
    RunLabel(Initial(1), SetBooted(true), [Start(0, Attach, p)] + (Steps(15) + rest));
    StartOnly(Booted(), "", Idle, Attach, p);
    RunLabel(Alone(Booted(), Only(""), Idle), Start(0, Attach, p), Steps(15) + rest);
    RunSteps(Alone(Booted(), Only(p), AttachEnter), 15, rest);
    AttachWhole(p);
    var g := Recorded(Booted(), p, 0);
    StartOnly(g, p, Ended(0), Detach, p);
    RunLabel(Alone(g, Only(p), Ended(0)), Start(0, Detach, p), Steps(15) + Sweeping());
    RunSteps(Alone(g, Only(p), DetachEnter), 15, Sweeping());
    RecordedIs(p);
    DetachToSweep(g, Only(p));
    DetachInPiecesIff(Alone(g.(detaching := Added(g.detaching, p), aLock := HeldBy(0)), Only(p), DetachSweep(0, 0)), 0, GO, HELD, GO, GO);
  }
}
