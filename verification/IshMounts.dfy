/** Attach, detach and open over any number of threads, as an interleaving of steps.

    A step is what happens between two points where another thread can be seen to run:
    taking one of the two locks, one kernel call, or a whole critical section that does
    not block. A step that needs a lock another thread holds does nothing. */
module IshMounts {
  import opened Wrappers
  import opened IshTables

  datatype Lock = Free | HeldBy(thread: nat)

  /** What called attach: the application, or an open that has reserved this slot and
      made a child with this pid. */
  datatype Frame = Direct | Opening(slot: nat, pid: nat)

  datatype Pc =
    | Idle
    | Ended(answer: int)
    // sbm_ish_attach
    | AttachEnter
    | AttachWantS
    | AttachCheck
    | AttachWantA
    | AttachBoth
    | AttachLook
    | AttachSweep(slot: nat, i: nat, err: int)
    | AttachProc(slot: nat)
    | AttachDev(slot: nat)
    | AttachPts(slot: nat)
    | AttachUndo(i: nat, err: int)
    | AttachRecord(slot: nat)
    | AttachDone(answer: int)
    // sbm_ish_detach
    | DetachEnter
    | DetachWantS
    | DetachScan
    | DetachWantA
    | DetachMark
    | DetachClose(i: nat)
    | DetachWantA2
    | DetachSweep(i: nat, err: int)
    | DetachForget(err: int)
    | DetachClear(err: int)
    // sbm_ish_open
    | OpenEnter
    | OpenReserve
    | OpenChild(slot: nat)
    | OpenPrepare(slot: nat, pid: nat)
    | OpenPublish(slot: nat, pid: nat)
    | OpenExec(slot: nat, pid: nat)
    | OpenFail(slot: nat, pid: nat, err: int)
    | OpenClose(slot: nat, err: int)
    // sbm_ish_close
    | CloseAny(slot: nat)

  datatype Thread = Thread(profile: string, frame: Frame, pc: Pc)

  /** What the threads share. `removed` is a history of ours, not of the program: the mounts
      that detaches have taken down since their profile was recorded. */
  datatype Shared = Shared(
    booted: bool,
    sessions: seq<Session>,
    attached: seq<string>,
    detaching: seq<string>,
    depths: Depths,
    sLock: Lock,
    aLock: Lock,
    removed: set<Mount>)

  datatype State = State(g: Shared, threads: seq<Thread>)

  /** Where one step of a thread leaves the shared state and the thread. */
  datatype After = After(g: Shared, frame: Frame, pc: Pc)

  type ErrorCode = n: int | n < 0 witness -1

  /** What the kernel decides in one step. */
  datatype Choice = Choice(ok: bool, code: ErrorCode, busy: bool, pid: nat)

  datatype Op = Attach | Detach | Open | Close(slot: nat)

  datatype Label =
    | Start(t: nat, op: Op, profile: string)
    | Advance(t: nat, c: Choice)
    | SetBooted(booted: bool)

  function To(g: Shared, th: Thread, pc: Pc): After {
    After(g, th.frame, pc)
  }

  /** A step that needs a lock another thread holds. */
  function Stay(g: Shared, th: Thread): After {
    After(g, th.frame, th.pc)
  }

  /** Sweeping records the first real failure and goes on. */
  function Swept(err: int, one: int): int {
    if one < 0 && one != EINVAL && err == 0 then one else err
  }

  function MountsOf(p: string): set<Mount> {
    {Mount(p, DevPts), Mount(p, Dev), Mount(p, Proc)}
  }

  /** The mounts taken down, with this one if it goes. */
  function Taken(removed: set<Mount>, d: Depths, m: Mount, busy: bool): set<Mount> {
    if UnmountCode(d, m, busy) == 0 then removed + {m} else removed
  }

  function AttachStep(g: Shared, t: nat, th: Thread, c: Choice): After {
    var p := th.profile;
    match th.pc
    case AttachEnter =>
      if !g.booted then To(g, th, AttachDone(ENOTCONN))
      else if CheckProfile(p) < 0 then To(g, th, AttachDone(CheckProfile(p)))
      else To(g, th, AttachWantS)
    case AttachWantS =>
      if g.sLock.Free? then To(g.(sLock := HeldBy(t)), th, AttachCheck) else Stay(g, th)
    case AttachCheck =>
      if p in g.detaching then To(g.(sLock := Free), th, AttachDone(EBUSY)) else To(g, th, AttachWantA)
    case AttachWantA =>
      if g.aLock.Free? then To(g.(aLock := HeldBy(t)), th, AttachBoth) else Stay(g, th)
    case AttachBoth => To(g.(sLock := Free), th, AttachLook)
    case AttachLook =>
      var slot := IndexOf(g.attached, "");
      if p in g.attached then To(g.(aLock := Free), th, AttachDone(0))
      else if slot == |g.attached| then To(g.(aLock := Free), th, AttachDone(EMFILE))
      else To(g, th, AttachSweep(slot, 0, 0))
    case AttachSweep(slot, i, err) =>
      if i < 3 then
        var m := Mount(p, PointAt(i));
        To(g.(depths := Unmounted(g.depths, m, c.busy)), th, AttachSweep(slot, i + 1, Swept(err, UnmountCode(g.depths, m, c.busy))))
      else if err < 0 then To(g.(aLock := Free), th, AttachDone(err))
      else To(g, th, AttachProc(slot))
    case AttachProc(slot) =>
      if c.ok then To(g.(depths := Mounted(g.depths, Mount(p, Proc))), th, AttachDev(slot))
      else To(g, th, AttachUndo(0, c.code))
    case AttachDev(slot) =>
      if c.ok then To(g.(depths := Mounted(g.depths, Mount(p, Dev))), th, AttachPts(slot))
      else To(g, th, AttachUndo(0, c.code))
    case AttachPts(slot) =>
      if c.ok then To(g.(depths := Mounted(g.depths, Mount(p, DevPts))), th, AttachRecord(slot))
      else To(g, th, AttachUndo(0, c.code))
    case AttachUndo(i, err) =>
      if i < 3 then
        To(g.(depths := Unmounted(g.depths, Mount(p, PointAt(i)), c.busy)), th, AttachUndo(i + 1, err))
      else To(g.(aLock := Free), th, AttachDone(err))
    case AttachRecord(slot) =>
      if slot < |g.attached| then
        To(g.(attached := g.attached[slot := p], removed := g.removed - MountsOf(p), aLock := Free), th, AttachDone(0))
      else Stay(g, th)
    case AttachDone(answer) =>
      (match th.frame
       case Direct => To(g, th, Ended(answer))
       case Opening(slot, pid) =>
         if answer < 0 then To(g, th, OpenFail(slot, pid, answer)) else To(g, th, OpenPrepare(slot, pid)))
    case _ => Stay(g, th)
  }

  function DetachStep(g: Shared, t: nat, th: Thread, c: Choice): After {
    var p := th.profile;
    match th.pc
    case DetachEnter =>
      if !g.booted then To(g, th, Ended(0))
      else if CheckProfile(p) < 0 then To(g, th, Ended(CheckProfile(p)))
      else To(g, th, DetachWantS)
    case DetachWantS =>
      if g.sLock.Free? then To(g.(sLock := HeldBy(t)), th, DetachScan) else Stay(g, th)
    case DetachScan =>
      if HasBare(g.sessions, p) then To(g.(sLock := Free), th, Ended(EBUSY)) else To(g, th, DetachWantA)
    case DetachWantA =>
      if g.aLock.Free? then To(g.(aLock := HeldBy(t)), th, DetachMark) else Stay(g, th)
    case DetachMark =>
      var marking := Marking(g.detaching, p);
      if marking < 0 then To(g.(aLock := Free, sLock := Free), th, Ended(marking))
      else To(g.(detaching := Added(g.detaching, p), aLock := Free, sLock := Free), th, DetachClose(0))
    case DetachClose(i) =>
      if i >= |g.sessions| then To(g, th, DetachWantA2)
      else if g.sLock.Free? then To(g.(sessions := SessionClosed(g.sessions, i, Some(p))), th, DetachClose(i + 1))
      else Stay(g, th)
    case DetachWantA2 =>
      if g.aLock.Free? then To(g.(aLock := HeldBy(t)), th, DetachSweep(0, 0)) else Stay(g, th)
    case DetachSweep(i, err) =>
      if i < 3 then
        var m := Mount(p, PointAt(i));
        To(g.(depths := Unmounted(g.depths, m, c.busy), removed := Taken(g.removed, g.depths, m, c.busy)), th,
           DetachSweep(i + 1, Swept(err, UnmountCode(g.depths, m, c.busy))))
      else To(g, th, DetachForget(err))
    case DetachForget(err) =>
      if err == 0 then To(g.(attached := Removed(g.attached, p), aLock := Free), th, DetachClear(err))
      else To(g.(aLock := Free), th, DetachClear(err))
    case DetachClear(err) =>
      if g.sLock.Free? then To(g.(detaching := Removed(g.detaching, p)), th, Ended(err)) else Stay(g, th)
    case _ => Stay(g, th)
  }

  function OpenStep(g: Shared, t: nat, th: Thread, c: Choice): After {
    var p := th.profile;
    match th.pc
    case OpenEnter =>
      if !g.booted then To(g, th, Ended(ENOTCONN))
      else if CheckProfile(p) < 0 then To(g, th, Ended(CheckProfile(p)))
      else To(g, th, OpenReserve)
    case OpenReserve =>
      var slot := FreeSession(g.sessions);
      if !g.sLock.Free? then Stay(g, th)
      else if p in g.detaching then To(g, th, Ended(EBUSY))
      else if slot == |g.sessions| then To(g, th, Ended(EMFILE))
      else To(g.(sessions := g.sessions[slot := Session(true, 0, p)]), th, OpenChild(slot))
    case OpenChild(slot) =>
      // The child's pid, or 0 when none could be made.
      if c.ok && c.pid > 0 then
        After(g, Opening(slot, c.pid), AttachEnter)
      else To(g, th, OpenFail(slot, 0, c.code))
    case OpenPrepare(slot, pid) =>
      if c.ok then To(g, th, OpenPublish(slot, pid)) else To(g, th, OpenFail(slot, pid, c.code))
    case OpenPublish(slot, pid) =>
      if g.sLock.Free? && slot < |g.sessions| then
        To(g.(sessions := g.sessions[slot := g.sessions[slot].(pid := pid)]), th, OpenExec(slot, pid))
      else Stay(g, th)
    case OpenExec(slot, pid) =>
      if c.ok then To(g, th, Ended(slot)) else To(g, th, OpenFail(slot, pid, c.code))
    case OpenFail(slot, pid, err) =>
      if pid == 0 then To(g, th, OpenClose(slot, err))
      else if g.sLock.Free? && slot < |g.sessions| then
        var it := g.sessions[slot];
        var published := if it.used && it.pid == 0 && it.profile == p then g.sessions[slot := it.(pid := pid)] else g.sessions;
        To(g.(sessions := published), th, OpenClose(slot, err))
      else Stay(g, th)
    case OpenClose(slot, err) =>
      if g.sLock.Free? && slot < |g.sessions| then To(g.(sessions := SessionClosed(g.sessions, slot, Some(p))), th, Ended(err)) else Stay(g, th)
    case CloseAny(slot) =>
      if slot >= |g.sessions| then To(g, th, Ended(0))
      else if g.sLock.Free? then To(g.(sessions := SessionClosed(g.sessions, slot, None)), th, Ended(0))
      else Stay(g, th)
    case _ => Stay(g, th)
  }

  predicate InAttach(pc: Pc) {
    pc.AttachEnter? || pc.AttachWantS? || pc.AttachCheck? || pc.AttachWantA? || pc.AttachBoth? || pc.AttachLook? ||
    pc.AttachSweep? || pc.AttachProc? || pc.AttachDev? || pc.AttachPts? || pc.AttachUndo? || pc.AttachRecord? || pc.AttachDone?
  }

  predicate InDetach(pc: Pc) {
    pc.DetachEnter? || pc.DetachWantS? || pc.DetachScan? || pc.DetachWantA? || pc.DetachMark? || pc.DetachClose? ||
    pc.DetachWantA2? || pc.DetachSweep? || pc.DetachForget? || pc.DetachClear?
  }

  predicate AtRest(pc: Pc) {
    pc.Idle? || pc.Ended?
  }

  function Entry(op: Op): Pc {
    match op
    case Attach => AttachEnter
    case Detach => DetachEnter
    case Open => OpenEnter
    case Close(slot) => CloseAny(slot)
  }

  function ThreadStep(g: Shared, t: nat, th: Thread, c: Choice): After {
    if InAttach(th.pc) then AttachStep(g, t, th, c)
    else if InDetach(th.pc) then DetachStep(g, t, th, c)
    else OpenStep(g, t, th, c)
  }

  function Step(s: State, l: Label): State {
    match l
    case SetBooted(b) => s.(g := s.g.(booted := b))
    case Start(t, op, profile) =>
      if t < |s.threads| && AtRest(s.threads[t].pc) then
        s.(threads := s.threads[t := Thread(profile, Direct, Entry(op))])
      else s
    case Advance(t, c) =>
      if t < |s.threads| then
        var th := s.threads[t];
        var after := ThreadStep(s.g, t, th, c);
        State(after.g, s.threads[t := Thread(th.profile, after.frame, after.pc)])
      else s
  }

  function Run(s: State, labels: seq<Label>): State
    decreases |labels|
  {
    if labels == [] then s else Run(Step(s, labels[0]), labels[1..])
  }

  function Initial(threads: nat): State {
    State(
      Shared(false, seq(MAX_SESSIONS, _ => Session(false, 0, "")),
             seq(MAX_PROFILES, _ => ""), seq(MAX_PROFILES, _ => ""), map[], Free, Free, {}),
      seq(threads, _ => Thread("", Direct, Idle)))
  }

  // ---------- The invariant ----------

  predicate HoldsS(pc: Pc) {
    pc.AttachCheck? || pc.AttachWantA? || pc.AttachBoth? || pc.DetachScan? || pc.DetachWantA? || pc.DetachMark?
  }

  predicate HoldsA(pc: Pc) {
    pc.AttachBoth? || pc.AttachLook? || pc.AttachSweep? || pc.AttachProc? || pc.AttachDev? || pc.AttachPts? ||
    pc.AttachUndo? || pc.AttachRecord? || pc.DetachMark? || pc.DetachSweep? || pc.DetachForget?
  }

  /** An attach past its look at the marks and not finished: the part that may mount. */
  predicate PastCheck(pc: Pc) {
    pc.AttachWantA? || pc.AttachBoth? || pc.AttachLook? || pc.AttachSweep? || pc.AttachProc? || pc.AttachDev? ||
    pc.AttachPts? || pc.AttachUndo? || pc.AttachRecord?
  }

  /** A detach between marking its profile and clearing the mark. */
  predicate Marked(pc: Pc) {
    pc.DetachClose? || pc.DetachWantA2? || pc.DetachSweep? || pc.DetachForget? || pc.DetachClear?
  }

  /** A thread that has passed the check of its profile's name. */
  predicate Named(pc: Pc) {
    HoldsS(pc) || HoldsA(pc) || Marked(pc) || pc.AttachWantS? || pc.DetachWantS?
  }

  predicate Stack(d: Depths, p: string, pts: nat, dev: nat, proc: nat) {
    Depth(d, Mount(p, DevPts)) == pts && Depth(d, Mount(p, Dev)) == dev && Depth(d, Mount(p, Proc)) == proc
  }

  ghost predicate SweptTo(d: Depths, p: string, i: nat) {
    i <= 3 && forall k :: 0 <= k < i ==> Depth(d, Mount(p, PointAt(k))) == 0
  }

  ghost predicate ClosedTo(sessions: seq<Session>, p: string, i: nat) {
    forall k :: 0 <= k < i && k < |sessions| ==> !(sessions[k].used && sessions[k].profile == p)
  }

  ghost predicate EmptySlot(table: seq<string>, slot: nat) {
    slot < |table| && table[slot] == ""
  }

  /** What is true of a thread at each point of its program. */
  ghost predicate Facts(g: Shared, th: Thread) {
    var p := th.profile;
    && (Named(th.pc) ==> p != "")
    && (PastCheck(th.pc) ==> p !in g.detaching)
    && (Marked(th.pc) ==> p in g.detaching)
    && (match th.pc
        case AttachSweep(slot, i, err) =>
          && EmptySlot(g.attached, slot) && p !in g.attached && i <= 3
          && err <= 0 && (err == 0 ==> SweptTo(g.depths, p, i))
        case AttachProc(slot) => EmptySlot(g.attached, slot) && p !in g.attached && Stack(g.depths, p, 0, 0, 0)
        case AttachDev(slot) => EmptySlot(g.attached, slot) && p !in g.attached && Stack(g.depths, p, 0, 0, 1)
        case AttachPts(slot) => EmptySlot(g.attached, slot) && p !in g.attached && Stack(g.depths, p, 0, 1, 1)
        case AttachRecord(slot) => EmptySlot(g.attached, slot) && p !in g.attached && Stack(g.depths, p, 1, 1, 1)
        case AttachUndo(i, err) => p !in g.attached && i <= 3 && err < 0
        case DetachWantA => !HasBare(g.sessions, p)
        case DetachMark => !HasBare(g.sessions, p)
        case DetachClose(i) => i <= MAX_SESSIONS && ClosedTo(g.sessions, p, i)
        case DetachWantA2 => ClosedTo(g.sessions, p, MAX_SESSIONS)
        case DetachSweep(i, err) =>
          && ClosedTo(g.sessions, p, MAX_SESSIONS) && i <= 3
          && err <= 0 && (err == 0 <==> SweptTo(g.depths, p, i))
        case DetachForget(err) =>
          && ClosedTo(g.sessions, p, MAX_SESSIONS) && err <= 0 && (err == 0 <==> Stack(g.depths, p, 0, 0, 0))
        case DetachClear(err) =>
          && ClosedTo(g.sessions, p, MAX_SESSIONS) && err <= 0
          && (err == 0 <==> Stack(g.depths, p, 0, 0, 0)) && (err == 0 ==> p !in g.attached)
        case OpenChild(slot) => slot < MAX_SESSIONS
        case OpenPrepare(slot, _) => slot < MAX_SESSIONS
        case OpenPublish(slot, _) => slot < MAX_SESSIONS
        case OpenExec(slot, _) => slot < MAX_SESSIONS
        case OpenFail(slot, _, _) => slot < MAX_SESSIONS
        case OpenClose(slot, _) => slot < MAX_SESSIONS
        case _ => true)
    && (InAttach(th.pc) && th.frame.Opening? ==> th.frame.slot < MAX_SESSIONS)
  }

  ghost predicate Tables(g: Shared) {
    && |g.sessions| == MAX_SESSIONS && |g.attached| == MAX_PROFILES && |g.detaching| == MAX_PROFILES
    && DistinctNames(g.attached) && DistinctNames(g.detaching)
  }

  /** No point ever carries two mounts. */
  ghost predicate NoStacking(d: Depths) {
    forall m :: Depth(d, m) <= 1
  }

  ghost predicate Locks(s: State) {
    && (forall t :: 0 <= t < |s.threads| ==> (HoldsS(s.threads[t].pc) <==> s.g.sLock == HeldBy(t)))
    && (forall t :: 0 <= t < |s.threads| ==> (HoldsA(s.threads[t].pc) <==> s.g.aLock == HeldBy(t)))
    && (s.g.sLock.HeldBy? ==> s.g.sLock.thread < |s.threads|)
    && (s.g.aLock.HeldBy? ==> s.g.aLock.thread < |s.threads|)
  }

  /** One detach a profile at a time. */
  ghost predicate Owners(s: State) {
    forall t, u :: 0 <= t < u < |s.threads| && Marked(s.threads[t].pc) && Marked(s.threads[u].pc) ==>
      s.threads[t].profile != s.threads[u].profile
  }

  /** A recorded profile has at each point the mount an attach put there, unless a detach
      has taken that one down since. */
  ghost predicate WholeBut(g: Shared, p: string) {
    p != "" && p in g.attached ==>
      forall q: Point :: Depth(g.depths, Mount(p, q)) == if Mount(p, q) in g.removed then 0 else 1
  }

  ghost predicate Inv(s: State) {
    && Tables(s.g) && NoStacking(s.g.depths) && Locks(s) && Owners(s)
    && (forall t :: 0 <= t < |s.threads| ==> Facts(s.g, s.threads[t]))
    && (forall p :: WholeBut(s.g, p))
  }
}
