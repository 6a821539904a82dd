/** What a failed attach leaves mounted. */
module IshRollback {
  import opened Wrappers
  import opened IshTables
  import opened IshMounts
  import opened IshMountsProofs
  import opened IshAnswers

  /** The points among the first `i` that carry a mount are just the ones that were held. */
  ghost predicate SweptBut(d: Depths, p: string, i: nat, held: set<Point>) {
    && i <= 3
    && (forall k: nat :: k < i ==> (Depth(d, Mount(p, PointAt(k))) > 0 <==> PointAt(k) in held))
    && (forall k: nat :: i <= k < 3 ==> PointAt(k) !in held)
  }

  /** An attach at work on its mounts; `held` are the points that were held so far. */
  ghost predicate Kept(d: Depths, th: Thread, held: set<Point>) {
    match th.pc
    case AttachSweep(_, i, err) => SweptBut(d, th.profile, i, held) && (err == 0 ==> held == {})
    case AttachUndo(i, _) => SweptBut(d, th.profile, i, held)
    case _ => held == {}
  }

  lemma SweepKeeps(g: Shared, t: nat, th: Thread, c: Choice, held: set<Point>)
    requires NoStacking(g.depths) && Facts(g, th) && (th.pc.AttachSweep? || th.pc.AttachUndo?) && th.pc.i < 3
    requires Kept(g.depths, th, held)
    ensures var n := ThreadStep(g, t, th, c); Kept(n.g.depths, Thread(th.profile, n.frame, n.pc), held + HeldNow(g, th, c))
  {
    SweepsPoint(g, t, th, c);
    var i, p, d := th.pc.i, th.profile, ThreadStep(g, t, th, c).g.depths;
    forall k: nat | k < 3
      ensures PointAt(k) == PointAt(i) <==> k == i
      ensures k != i ==> Depth(d, Mount(p, PointAt(k))) == Depth(g.depths, Mount(p, PointAt(k)))
    {
      assert Order(PointAt(k)) == k && Order(PointAt(i)) == i;
    }
  }

  lemma MountKeeps(g: Shared, t: nat, th: Thread, c: Choice, held: set<Point>)
    requires Facts(g, th) && Mounts(th.pc) && (SweepAt(th.pc).Some? ==> SweepAt(th.pc).value == 3)
    requires Kept(g.depths, th, held) && Mounts(ThreadStep(g, t, th, c).pc)
    ensures HeldNow(g, th, c) == {}
    ensures var n := ThreadStep(g, t, th, c); Kept(n.g.depths, Thread(th.profile, n.frame, n.pc), held)
  {
  }

  lemma OwnKeeps(s: State, t: nat, c: Choice, held: set<Point>)
    requires Inv(s) && t < |s.threads| && Mounts(s.threads[t].pc) && Kept(s.g.depths, s.threads[t], held)
    requires Mounts(Step(s, Advance(t, c)).threads[t].pc)
    ensures var n := Step(s, Advance(t, c)); Kept(n.g.depths, n.threads[t], held + HeldNow(s.g, s.threads[t], c))
  {
    var th := s.threads[t];
    assert Facts(s.g, th);
    if (th.pc.AttachSweep? || th.pc.AttachUndo?) && th.pc.i < 3 {
      SweepKeeps(s.g, t, th, c, held);
    } else {
      MountKeeps(s.g, t, th, c, held);
      assert held + {} == held;
    }
  }

  /** The attach is at work on its mounts all through the run. */
  ghost predicate StaysMounting(s: State, labels: seq<Label>, t: nat)
    decreases |labels|
  {
    && t < |s.threads| && Mounts(s.threads[t].pc)
    && (labels != [] ==> StaysMounting(Step(s, labels[0]), labels[1..], t))
  }

  lemma {:induction false} RunKeeps(s: State, labels: seq<Label>, t: nat, held: set<Point>)
    requires Inv(s) && StaysMounting(s, labels, t) && Kept(s.g.depths, s.threads[t], held)
    ensures var n := Run(s, labels);
            && Inv(n) && t < |n.threads| && Mounts(n.threads[t].pc) && n.threads[t].profile == s.threads[t].profile
            && Kept(n.g.depths, n.threads[t], held + HeldPoints(s, labels, t))
    decreases |labels|
  {
    if labels == [] {
      assert held + {} == held;
    } else {
      var l := labels[0];
      StepKeepsInv(s, l);
      var now := NowHeld(s, l, t, held);
      RunKeeps(Step(s, l), labels[1..], t, held + now);
      Regrouped(held, now, HeldPoints(Step(s, l), labels[1..], t));
    }
  }

  lemma Regrouped(a: set<Point>, b: set<Point>, c: set<Point>)
    ensures a + (b + c) == (a + b) + c
  {
  }

  lemma NowHeld(s: State, l: Label, t: nat, held: set<Point>) returns (now: set<Point>)
    requires Inv(s) && t < |s.threads| && Mounts(s.threads[t].pc) && Kept(s.g.depths, s.threads[t], held)
    requires t < |Step(s, l).threads| && Mounts(Step(s, l).threads[t].pc)
    ensures now == if l.Advance? && l.t == t then HeldNow(s.g, s.threads[t], l.c) else {}
    ensures var n := Step(s, l); Kept(n.g.depths, n.threads[t], held + now) && n.threads[t].profile == s.threads[t].profile
  {
    if l.Advance? && l.t == t {
      OwnKeeps(s, t, l.c, held);
      now := HeldNow(s.g, s.threads[t], l.c);
    } else {
      OthersMountNothing(s, l, t);
      now := {};
      assert held + now == held;
    }
  }

  /** In every run, whatever other threads do in between: an attach that has begun to clear
      or to mount and answers an error leaves a point of its profile mounted if and only if
      the kernel would not give that point up when it was asked to. */
  lemma FailedAttachIff(threads: nat, before: seq<Label>, labels: seq<Label>, t: nat, c: Choice, q: Point)
    requires var s := Run(Initial(threads), before);
             StaysMounting(s, labels, t) && s.threads[t].pc.AttachSweep? && s.threads[t].pc.i == 0 == s.threads[t].pc.err
    requires var n := Run(Run(Initial(threads), before), labels);
             t < |n.threads| && Step(n, Advance(t, c)).threads[t].pc.AttachDone? && Step(n, Advance(t, c)).threads[t].pc.answer < 0
    ensures var s := Run(Initial(threads), before);
            Depth(Step(Run(s, labels), Advance(t, c)).g.depths, Mount(s.threads[t].profile, q)) > 0 <==> q in HeldPoints(s, labels, t)
  {
    InitialInv(threads);
    RunKeepsInv(Initial(threads), before);
    var s := Run(Initial(threads), before);
    RunKeeps(s, labels, t, {});
    var n := Run(s, labels);
    assert {} + HeldPoints(s, labels, t) == HeldPoints(s, labels, t);
    assert Facts(n.g, n.threads[t]);
    GivesUp(n.g, t, n.threads[t], c, HeldPoints(s, labels, t), q);
  }

  lemma GivesUp(g: Shared, t: nat, th: Thread, c: Choice, held: set<Point>, q: Point)
    requires Facts(g, th) && Mounts(th.pc) && Kept(g.depths, th, held)
    requires ThreadStep(g, t, th, c).pc.AttachDone? && ThreadStep(g, t, th, c).pc.answer < 0
    ensures Depth(ThreadStep(g, t, th, c).g.depths, Mount(th.profile, q)) > 0 <==> q in held
  {
    assert PointAt(Order(q)) == q;
  }
}
