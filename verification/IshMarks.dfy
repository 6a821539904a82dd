/** That a mark is never left behind: a profile is marked as long as a detach of it is at
    work, and no longer. */
module IshMarks {
  import opened IshTables
  import opened IshMounts
  import opened IshMountsProofs

  /** A detach that has marked this profile and not ended is at work. */
  ghost predicate BeingDetached(s: State, p: string) {
    exists t :: 0 <= t < |s.threads| && Marked(s.threads[t].pc) && s.threads[t].profile == p
  }

  ghost predicate NoMarkLeft(s: State) {
    forall p :: p != "" && p in s.g.detaching ==> BeingDetached(s, p)
  }

  /** A detach that ends after marking takes its mark away, whatever it answers; and a mark
      that is set is that of a detach that goes on. */
  lemma OwnMark(g: Shared, t: nat, th: Thread, c: Choice)
    requires Facts(g, th) && Tables(g)
    ensures var n := ThreadStep(g, t, th, c);
            && (Marked(th.pc) && !Marked(n.pc) ==> th.profile !in n.g.detaching)
            && (th.pc.DetachMark? && th.profile !in g.detaching && th.profile in n.g.detaching ==> Marked(n.pc))
  {
    if th.pc.DetachClear? {
      RemovedMembers(g.detaching, th.profile);
    }
  }

  lemma AdvanceLeavesNone(s: State, t: nat, c: Choice)
    requires Inv(s) && NoMarkLeft(s) && t < |s.threads|
    ensures NoMarkLeft(Step(s, Advance(t, c)))
  {
    var th, n := s.threads[t], Step(s, Advance(t, c));
    assert Facts(s.g, th);
    ThreadStepShared(s, t, c);
    OwnMark(s.g, t, th, c);
    assert forall u :: 0 <= u < |s.threads| && u != t ==> n.threads[u] == s.threads[u];
    forall p | p != "" && p in n.g.detaching
      ensures BeingDetached(n, p)
    {
      if p in s.g.detaching {
        var u :| 0 <= u < |s.threads| && Marked(s.threads[u].pc) && s.threads[u].profile == p;
        assert Marked(n.threads[u].pc) && n.threads[u].profile == p;
      } else {
        assert Marked(n.threads[t].pc) && n.threads[t].profile == p;
      }
    }
  }

  lemma StepLeavesNone(s: State, l: Label)
    requires Inv(s) && NoMarkLeft(s)
    ensures NoMarkLeft(Step(s, l))
  {
    if l.Advance? && l.t < |s.threads| {
      AdvanceLeavesNone(s, l.t, l.c);
    } else {
      forall p | p != "" && p in s.g.detaching
        ensures BeingDetached(Step(s, l), p)
      {
        var u :| 0 <= u < |s.threads| && Marked(s.threads[u].pc) && s.threads[u].profile == p;
        assert Step(s, l).threads[u] == s.threads[u];
      }
    }
  }

  lemma {:induction false} RunLeavesNone(s: State, labels: seq<Label>)
    requires Inv(s) && NoMarkLeft(s)
    ensures NoMarkLeft(Run(s, labels))
    decreases |labels|
  {
    if labels != [] {
      StepKeepsInv(s, labels[0]);
      StepLeavesNone(s, labels[0]);
      RunLeavesNone(Step(s, labels[0]), labels[1..]);
    }
  }

  /** In every run a profile is marked if and only if a detach of it is at work between its
      marking and its end, be that an answer of 0 or an error. */
  lemma MarkedIffDetaching(threads: nat, labels: seq<Label>, p: string)
    requires p != ""
    ensures var s := Run(Initial(threads), labels); p in s.g.detaching <==> BeingDetached(s, p)
  {
    InitialInv(threads);
    RunKeepsInv(Initial(threads), labels);
    RunLeavesNone(Initial(threads), labels);
    var s := Run(Initial(threads), labels);
    if t :| 0 <= t < |s.threads| && Marked(s.threads[t].pc) && s.threads[t].profile == p {
      assert Facts(s.g, s.threads[t]);
    }
  }
}
