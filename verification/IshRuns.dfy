/** Single threads running through attaches, in which the kernel refuses nothing: what the
    runs below are put together from. */
module IshRuns {
  import opened IshTables
  import opened IshMounts

  const GO := Choice(true, -1, false, 1)

  /** The profile and the frame of the running thread, the first, and the other threads. */
  datatype Who = Who(profile: string, frame: Frame, rest: seq<Thread>)

  function Alone(g: Shared, w: Who, pc: Pc): State {
    State(g, [Thread(w.profile, w.frame, pc)] + w.rest)
  }

  /** What one thread comes to in so many steps in which the kernel refuses nothing. */
  function Going(s: State, n: nat): State {
    Iterate(x => Step(x, Advance(0, GO)), s, n)
  }

  function Iterate(f: State -> State, s: State, n: nat): State
    decreases n, s
  {
    if n == 0 then s else Iterate(f, f(s), n - 1)
  }

  lemma {:induction false} IterateOn(f: State -> State, s: State, m: nat, n: nat)
    ensures Iterate(f, s, m + n) == Iterate(f, Iterate(f, s, m), n)
    decreases m
  {
    if m > 0 {
      IterateOn(f, f(s), m - 1, n);
    }
  }

  function Steps(n: nat): seq<Label> {
    if n == 0 then [] else [Advance(0, GO)] + Steps(n - 1)
  }

  lemma RunLabel(s: State, l: Label, rest: seq<Label>)
    ensures Run(s, [l] + rest) == Run(Step(s, l), rest)
  {
    assert ([l] + rest)[1..] == rest;
  }

  /** For any way of running that begins with the first label. */
  lemma {:induction false} IterateSteps(run: (State, seq<Label>) -> State, f: State -> State, s: State, n: nat, rest: seq<Label>)
    requires forall x, more :: run(x, [Advance(0, GO)] + more) == run(f(x), more)
    ensures run(s, Steps(n) + rest) == run(Iterate(f, s, n), rest)
    decreases n
  {
    if n == 0 {
      assert Steps(0) + rest == rest;
    } else {
      StepsFirst(n, rest);
      IterateSteps(run, f, f(s), n - 1, rest);
    }
  }

  lemma RunSteps(s: State, n: nat, rest: seq<Label>)
    ensures Run(s, Steps(n) + rest) == Run(Going(s, n), rest)
  {
    var run: (State, seq<Label>) -> State := (x, more) => Run(x, more);
    var f: State -> State := x => Step(x, Advance(0, GO));
    forall x, more
      ensures run(x, [Advance(0, GO)] + more) == run(f(x), more)
    {
      RunLabel(x, Advance(0, GO), more);
    }
    IterateSteps(run, f, s, n, rest);
  }

  lemma StepsFirst(n: nat, rest: seq<Label>)
    requires n > 0
    ensures Steps(n) + rest == [Advance(0, GO)] + (Steps(n - 1) + rest)
  {
  }

  lemma OneStep(g: Shared, w: Who, pc: Pc, c: Choice)
    ensures var n := ThreadStep(g, 0, Thread(w.profile, w.frame, pc), c);
            Step(Alone(g, w, pc), Advance(0, c)) == Alone(n.g, w.(frame := n.frame), n.pc)
  {
    var s, n := Alone(g, w, pc), ThreadStep(g, 0, Thread(w.profile, w.frame, pc), c);
    assert s.threads[0 := Thread(w.profile, n.frame, n.pc)] == Alone(n.g, w.(frame := n.frame), n.pc).threads;
  }

  lemma Goes(g: Shared, w: Who, pc: Pc, g': Shared, pc': Pc, n: nat)
    requires ThreadStep(g, 0, Thread(w.profile, w.frame, pc), GO) == After(g', w.frame, pc')
    ensures Going(Alone(g, w, pc), n + 1) == Going(Alone(g', w, pc'), n)
  {
    OneStep(g, w, pc, GO);
  }

  lemma GoingOn(s: State, m: nat, n: nat)
    ensures Going(s, m + n) == Going(Going(s, m), n)
  {
    IterateOn(x => Step(x, Advance(0, GO)), s, m, n);
  }

  /** A booted machine with nobody at work. */
  ghost predicate Quiet(g: Shared) {
    g.booted && Tables(g) && g.sLock.Free? && g.aLock.Free?
  }

  lemma AttachLocking(g: Shared, w: Who)
    requires Quiet(g) && CheckProfile(w.profile) == 0 && w.profile !in g.detaching
    ensures Going(Alone(g, w, AttachEnter), 5) == Alone(g.(aLock := HeldBy(0)), w, AttachLook)
  {
    Goes(g, w, AttachEnter, g, AttachWantS, 4);
    var g1 := g.(sLock := HeldBy(0));
    Goes(g, w, AttachWantS, g1, AttachCheck, 3);
    Goes(g1, w, AttachCheck, g1, AttachWantA, 2);
    var g2 := g1.(aLock := HeldBy(0));
    Goes(g1, w, AttachWantA, g2, AttachBoth, 1);
    Goes(g2, w, AttachBoth, g.(aLock := HeldBy(0)), AttachLook, 0);
  }

  lemma AttachClearing(g: Shared, w: Who)
    requires g.aLock == HeldBy(0) && w.profile !in g.attached && IndexOf(g.attached, "") < |g.attached| && Stack(g.depths, w.profile, 0, 0, 0)
    ensures Going(Alone(g, w, AttachLook), 5) == Alone(g, w, AttachProc(IndexOf(g.attached, "")))
  {
    var slot := IndexOf(g.attached, "");
    Goes(g, w, AttachLook, g, AttachSweep(slot, 0, 0), 4);
    Goes(g, w, AttachSweep(slot, 0, 0), g, AttachSweep(slot, 1, 0), 3);
    Goes(g, w, AttachSweep(slot, 1, 0), g, AttachSweep(slot, 2, 0), 2);
    Goes(g, w, AttachSweep(slot, 2, 0), g, AttachSweep(slot, 3, 0), 1);
    Goes(g, w, AttachSweep(slot, 3, 0), g, AttachProc(slot), 0);
  }

  function AllMounted(d: Depths, p: string): Depths {
    Mounted(Mounted(Mounted(d, Mount(p, Proc)), Mount(p, Dev)), Mount(p, DevPts))
  }

  function Recorded(g: Shared, p: string, slot: nat): Shared
    requires slot < |g.attached|
  {
    g.(depths := AllMounted(g.depths, p), attached := g.attached[slot := p], removed := g.removed - MountsOf(p), aLock := Free)
  }

  lemma MountTwo(g: Shared, w: Who, slot: nat, n: nat)
    ensures var d := Mounted(Mounted(g.depths, Mount(w.profile, Proc)), Mount(w.profile, Dev));
            Going(Alone(g, w, AttachProc(slot)), n + 2) == Going(Alone(g.(depths := d), w, AttachPts(slot)), n)
  {
    var d := Mounted(g.depths, Mount(w.profile, Proc));
    Goes(g, w, AttachProc(slot), g.(depths := d), AttachDev(slot), n + 1);
    Goes(g.(depths := d), w, AttachDev(slot), g.(depths := Mounted(d, Mount(w.profile, Dev))), AttachPts(slot), n);
  }

  lemma AttachMounting(g: Shared, w: Who, slot: nat)
    requires g.aLock == HeldBy(0) && slot < |g.attached|
    ensures Going(Alone(g, w, AttachProc(slot)), 4) == Alone(Recorded(g, w.profile, slot), w, AttachDone(0))
  {
    var d := Mounted(Mounted(g.depths, Mount(w.profile, Proc)), Mount(w.profile, Dev));
    var g3 := g.(depths := AllMounted(g.depths, w.profile));
    MountTwo(g, w, slot, 2);
    Goes(g.(depths := d), w, AttachPts(slot), g3, AttachRecord(slot), 1);
    Goes(g3, w, AttachRecord(slot), Recorded(g, w.profile, slot), AttachDone(0), 0);
  }

  /** An attach that mounts its profile, up to where it answers. */
  lemma AttachGoes(g: Shared, w: Who)
    requires Quiet(g) && CheckProfile(w.profile) == 0 && w.profile !in g.detaching && w.profile !in g.attached
    requires IndexOf(g.attached, "") < |g.attached| && Stack(g.depths, w.profile, 0, 0, 0)
    ensures Going(Alone(g, w, AttachEnter), 14) == Alone(Recorded(g, w.profile, IndexOf(g.attached, "")), w, AttachDone(0))
  {
    AttachLocking(g, w);
    var held := g.(aLock := HeldBy(0));
    AttachClearing(held, w);
    AttachMounting(held, w, IndexOf(g.attached, ""));
    GoingOn(Alone(g, w, AttachEnter), 5, 9);
    GoingOn(Alone(held, w, AttachLook), 5, 4);
    assert Recorded(held, w.profile, IndexOf(g.attached, "")) == Recorded(g, w.profile, IndexOf(g.attached, ""));
  }

  /** The machine as it is booted, and nothing more. */
  function Booted(): Shared {
    Initial(0).g.(booted := true)
  }

  lemma BootedIs()
    ensures Quiet(Booted()) && IndexOf(Booted().attached, "") == 0 && |Booted().attached| == MAX_PROFILES
    ensures forall p :: p != "" ==> p !in Booted().detaching && p !in Booted().attached
    ensures forall p :: Stack(Booted().depths, p, 0, 0, 0)
    ensures forall k :: 0 <= k < MAX_SESSIONS ==> Booted().sessions[k] == Session(false, 0, "")
  {
    assert Booted().attached[0] == "";
  }
}
