/** The Live Activity actor: start, update and stop as an interleaving of the stretches
    between their awaits. An actor runs one stretch at a time, and any call that waits can
    be overtaken by any other before it goes on. */
module LiveActivity {
  import opened Wrappers

  type Id = nat

  /** A request for an activity: made in a generation, and answered by the system at some
      later time with an activity or with none. */
  datatype Request = Running(generation: nat) | Answered(generation: nat, activity: Option<Id>)

  datatype Pending = Pending(tag: nat, generation: nat)

  /** Where a call waits. `waited` are the tags it has waited on so far, the last of them
      the one it waits on now. */
  datatype Caller =
    | Idle
    | Waiting(tag: nat, generation: nat, waited: seq<nat>)
    | Owning(tag: nat, mine: nat, waited: seq<nat>)
    | Updating(duplicates: seq<Id>)
    | Ending(rest: seq<Id>)

  /** `system` lists the activities the system has; `updatable` are those it reports as
      active or stale. The last two fields are a history of ours: the activities `end` was
      called on, and for each request whose owner has gone on whether its activity was
      kept in `current`. */
  datatype State = State(
    current: Option<Id>,
    pending: Option<Pending>,
    nextTag: nat,
    generation: nat,
    requests: map<nat, Request>,
    system: seq<Id>,
    updatable: set<Id>,
    nextId: Id,
    callers: seq<Caller>,
    ended: set<Id>,
    kept: map<nat, bool>)

  datatype Label =
    | Start(c: nat)
    | Update(c: nat)
    | Stop(c: nat)
    | Resume(c: nat)
    | Answer(tag: nat, granted: bool)
    | Vanish(id: Id)
    | Report(id: Id, updatable: bool)

  function FirstUpdatable(system: seq<Id>, updatable: set<Id>): Option<Id> {
    if system == [] then None
    else if system[0] in updatable then Some(system[0])
    else FirstUpdatable(system[1..], updatable)
  }

  /** The activity to update: the one we keep, or else the first the system has. */
  function UpdatableActivity(s: State): Option<Id> {
    if s.current.Some? && s.current.value in s.updatable then s.current else FirstUpdatable(s.system, s.updatable)
  }

  function Tracked(s: State): seq<Id> {
    if s.current.Some? && s.current.value !in s.system then s.system + [s.current.value] else s.system
  }

  function Others(list: seq<Id>, id: Id): seq<Id> {
    if list == [] then []
    else if list[0] == id then Others(list[1..], id)
    else [list[0]] + Others(list[1..], id)
  }

  function Put(s: State, c: nat, caller: Caller): State
    requires c < |s.callers|
  {
    s.(callers := s.callers[c := caller])
  }

  /** `end` on the first of a list, and what the call does when that returns. */
  function EndNext(s: State, c: nat, list: seq<Id>): State
    requires c < |s.callers|
  {
    if list == [] then Put(s, c, Idle)
    else Put(s, c, Ending(list[1..])).(ended := s.ended + {list[0]})
  }

  function Apply(s: State, c: nat, id: Id): State
    requires c < |s.callers|
  {
    var keeping := s.(current := Some(id));
    Put(keeping, c, Updating(Others(Tracked(keeping), id)))
  }

  /** The top of the loop in `start`: wait for the request in flight, or make one. */
  function LoopTop(s: State, c: nat, waited: seq<nat>): State
    requires c < |s.callers|
  {
    match s.pending
    case Some(inFlight) => Put(s, c, Waiting(inFlight.tag, inFlight.generation, waited + [inFlight.tag]))
    case None =>
      var tag := s.nextTag + 1;
      Put(s, c, Owning(tag, s.generation, waited)).(
        nextTag := tag,
        requests := s.requests[tag := Running(s.generation)],
        pending := Some(Pending(tag, s.generation)))
  }

  function StartCall(s: State, c: nat): State
    requires c < |s.callers|
  {
    var activity := UpdatableActivity(s);
    if activity.Some? then Apply(s, c, activity.value) else LoopTop(s.(current := None), c, [])
  }

  function StopCall(s: State, c: nat): State
    requires c < |s.callers|
  {
    EndNext(s.(generation := s.generation + 1, current := None), c, Tracked(s))
  }

  function Released(pending: Option<Pending>, tag: nat): Option<Pending> {
    if pending.Some? && pending.value.tag == tag then None else pending
  }

  function ResumeWaiter(s: State, c: nat): State
    requires c < |s.callers| && s.callers[c].Waiting?
  {
    var me := s.callers[c];
    if me.tag !in s.requests || s.requests[me.tag].Running? then s
    else if me.generation != s.generation then
      LoopTop(s.(pending := Released(s.pending, me.tag)), c, me.waited)
    else
      var activity := UpdatableActivity(s);
      if activity.Some? then Apply(s, c, activity.value) else Put(s.(current := None), c, Idle)
  }

  function ResumeOwner(s: State, c: nat): State
    requires c < |s.callers| && s.callers[c].Owning?
  {
    var me := s.callers[c];
    if me.tag !in s.requests || s.requests[me.tag].Running? then s
    else
      var activity := s.requests[me.tag].activity;
      var released := s.(pending := Released(s.pending, me.tag));
      if me.mine != s.generation then
        EndNext(released.(kept := s.kept[me.tag := false]), c, if activity.Some? then [activity.value] else [])
      else Put(released.(current := activity, kept := s.kept[me.tag := true]), c, Idle)
  }

  function ResumeCall(s: State, c: nat): State
    requires c < |s.callers|
  {
    match s.callers[c]
    case Idle => s
    case Waiting(_, _, _) => ResumeWaiter(s, c)
    case Owning(_, _, _) => ResumeOwner(s, c)
    case Updating(duplicates) => EndNext(s, c, duplicates)
    case Ending(rest) => EndNext(s, c, rest)
  }

  function Step(s: State, l: Label): State {
    match l
    case Start(c) => if c < |s.callers| && s.callers[c].Idle? then StartCall(s, c) else s
    case Update(c) =>
      // `update` with nothing to update is a `start`, which looks again and finds nothing.
      if c < |s.callers| && s.callers[c].Idle? then StartCall(s, c) else s
    case Stop(c) => if c < |s.callers| && s.callers[c].Idle? then StopCall(s, c) else s
    case Resume(c) => if c < |s.callers| then ResumeCall(s, c) else s
    case Answer(tag, granted) =>
      if tag !in s.requests || s.requests[tag].Answered? then s
      else if granted then
        s.(requests := s.requests[tag := Answered(s.requests[tag].generation, Some(s.nextId))],
           system := s.system + [s.nextId], updatable := s.updatable + {s.nextId}, nextId := s.nextId + 1)
      else s.(requests := s.requests[tag := Answered(s.requests[tag].generation, None)])
    case Vanish(id) => s.(system := Others(s.system, id))
    case Report(id, updatable) => s.(updatable := if updatable then s.updatable + {id} else s.updatable - {id})
  }

  function Run(s: State, labels: seq<Label>): State
    decreases |labels|
  {
    if labels == [] then s else Run(Step(s, labels[0]), labels[1..])
  }

  /** Any number of callers, and whatever a previous run of the app left behind. */
  function Initial(callers: nat, system: seq<Id>, updatable: set<Id>, nextId: Id): State {
    State(None, None, 0, 0, map[], system, updatable, nextId, seq(callers, _ => Idle), {}, map[])
  }

  // ---------- The invariant ----------

  ghost predicate Increasing(tags: seq<nat>) {
    forall i, j :: 0 <= i < j < |tags| ==> tags[i] < tags[j]
  }

  /** What is true of one caller. */
  ghost predicate CallerOk(s: State, c: Caller) {
    match c
    case Waiting(tag, generation, waited) =>
      && tag in s.requests && s.requests[tag].generation == generation
      && waited != [] && waited[|waited| - 1] == tag && Increasing(waited)
    case Owning(tag, mine, waited) =>
      && tag in s.requests && s.requests[tag].generation == mine && tag !in s.kept
      && Increasing(waited) && (waited != [] ==> waited[|waited| - 1] < tag)
    case _ => true
  }

  /** Requests are numbered without gaps, and belong to a generation that has begun. */
  ghost predicate Numbered(s: State) {
    && (forall tag :: tag in s.requests <==> 1 <= tag <= s.nextTag)
    && (forall tag :: tag in s.requests ==> s.requests[tag].generation <= s.generation)
    && (forall tag :: tag in s.kept ==> tag in s.requests && s.requests[tag].Answered?)
  }

  /** At most one request is unanswered, and it is the one in `pending`. */
  ghost predicate OneInFlight(s: State) {
    && (s.pending.Some? ==> s.nextTag in s.requests && s.pending.value == Pending(s.nextTag, s.requests[s.nextTag].generation))
    && (forall tag :: tag in s.requests && s.requests[tag].Running? ==> s.pending.Some? && s.pending.value.tag == tag)
  }

  ghost predicate Owned(s: State, tag: nat) {
    exists c :: 0 <= c < |s.callers| && s.callers[c].Owning? && s.callers[c].tag == tag
  }

  /** Every request has its one owner until that owner has gone on. */
  ghost predicate Owners(s: State) {
    && (forall c, d :: 0 <= c < d < |s.callers| && s.callers[c].Owning? && s.callers[d].Owning? ==>
          s.callers[c].tag != s.callers[d].tag)
    && (forall tag :: tag in s.requests && tag !in s.kept ==> Owned(s, tag))
  }

  /** An activity that has been ended, or will be by a call at work, or that the system
      no longer has. */
  ghost predicate Disposed(s: State, id: Id) {
    || id in s.ended
    || id !in s.system
    || exists c :: 0 <= c < |s.callers| && s.callers[c].Ending? && id in s.callers[c].rest
  }

  /** The activity a request was answered with. */
  function Granted(s: State, tag: nat): Option<Id> {
    if tag in s.requests && s.requests[tag].Answered? then s.requests[tag].activity else None
  }

  /** An activity whose owner went on without keeping it has been ended, and one from a
      generation that a stop has closed is disposed of once its owner has gone on. */
  ghost predicate Tidy(s: State) {
    forall tag :: tag in s.kept && Granted(s, tag).Some? ==>
      && (!s.kept[tag] ==> Granted(s, tag).value in s.ended)
      && (s.requests[tag].generation < s.generation ==> Disposed(s, Granted(s, tag).value))
  }

  /** Activities have names of their own. */
  ghost predicate Named(s: State) {
    forall tag :: Granted(s, tag).Some? ==> Granted(s, tag).value < s.nextId
  }

  ghost predicate Inv(s: State) {
    && Numbered(s) && OneInFlight(s) && Owners(s) && Named(s) && Tidy(s)
    && (forall c :: 0 <= c < |s.callers| ==> CallerOk(s, s.callers[c]))
  }

  // ---------- Steps that leave requests alone ----------

  /** Nothing about requests changes, nothing is un-ended, and the stepping call is not
      at a request it owns, before or after. */
  ghost predicate Quiet(s: State, n: State, c: nat) {
    && c < |s.callers| == |n.callers|
    && n.callers == s.callers[c := n.callers[c]]
    && !s.callers[c].Owning? && !n.callers[c].Owning?
    && n.requests == s.requests && n.pending == s.pending && n.nextTag == s.nextTag
    && n.kept == s.kept && n.nextId == s.nextId && s.generation <= n.generation
    && s.ended <= n.ended && (forall id :: id in n.system ==> id in s.system)
    && CallerOk(s, n.callers[c])
    && (s.callers[c].Ending? ==>
          forall id :: id in s.callers[c].rest ==> id in n.ended || (n.callers[c].Ending? && id in n.callers[c].rest))
    && (s.generation < n.generation ==> forall id :: id in s.system ==> id in n.ended || (n.callers[c].Ending? && id in n.callers[c].rest))
  }

  lemma QuietDisposed(s: State, n: State, c: nat, id: Id)
    requires Quiet(s, n, c)
    requires Disposed(s, id) || s.generation < n.generation
    ensures Disposed(n, id)
  {
    if id in s.ended || id !in n.system {
    } else if s.generation < n.generation && id in s.system {
    } else {
      var d :| 0 <= d < |s.callers| && s.callers[d].Ending? && id in s.callers[d].rest;
      if d != c {
        assert n.callers[d] == s.callers[d];
      }
    }
  }

  lemma QuietKeepsInv(s: State, n: State, c: nat)
    requires Inv(s) && Quiet(s, n, c)
    ensures Inv(n)
  {
    assert forall d :: 0 <= d < |s.callers| && d != c ==> n.callers[d] == s.callers[d];
    forall tag | tag in s.requests && tag !in s.kept
      ensures Owned(n, tag)
    {
      var d :| 0 <= d < |s.callers| && s.callers[d].Owning? && s.callers[d].tag == tag;
      assert n.callers[d] == s.callers[d];
    }
    forall tag | tag in n.kept && Granted(n, tag).Some? && n.requests[tag].generation < n.generation
      ensures Disposed(n, Granted(n, tag).value)
    {
      assert Granted(s, tag) == Granted(n, tag);
      QuietDisposed(s, n, c, Granted(s, tag).value);
    }
    assert forall tag :: Granted(n, tag) == Granted(s, tag);
    forall d | 0 <= d < |n.callers|
      ensures CallerOk(n, n.callers[d])
    {
      if d != c {
        assert CallerOk(s, s.callers[d]);
      }
    }
  }

  lemma {:induction false} OthersOf(list: seq<Id>, id: Id)
    ensures forall x :: x in Others(list, id) <==> x in list && x != id
  {
    if list != [] {
      OthersOf(list[1..], id);
      assert forall x :: x in list <==> x == list[0] || x in list[1..];
    }
  }

  /** The caller's next place after `end` calls on a list. */
  lemma EndNextQuiet(s: State, c: nat, list: seq<Id>)
    requires c < |s.callers| && !s.callers[c].Owning?
    requires s.callers[c].Ending? ==> forall id :: id in s.callers[c].rest ==> id in list
    ensures Quiet(s, EndNext(s, c, list), c)
  {
    assert forall id :: id in list <==> list != [] && (id == list[0] || id in list[1..]);
  }

  lemma StopQuiet(s: State, c: nat)
    requires c < |s.callers| && s.callers[c].Idle?
    ensures Quiet(s, StopCall(s, c), c)
  {
    var list := Tracked(s);
    assert forall id :: id in list <==> list != [] && (id == list[0] || id in list[1..]);
  }

  lemma ApplyQuiet(s: State, c: nat, id: Id)
    requires c < |s.callers| && !s.callers[c].Owning? && !s.callers[c].Ending?
    ensures Quiet(s, Apply(s, c, id), c)
  {
  }

  // ---------- Steps on requests ----------

  /** A call at the top of the loop: it has waited on no request newer than the pending
      one, and not on that one either. */
  lemma LoopTopKeepsInv(s: State, c: nat, waited: seq<nat>)
    requires Inv(s) && c < |s.callers| && !s.callers[c].Owning? && !s.callers[c].Ending?
    requires Increasing(waited)
    requires waited != [] ==> waited[|waited| - 1] <= s.nextTag
    requires waited != [] && s.pending.Some? ==> waited[|waited| - 1] < s.nextTag
    ensures Inv(LoopTop(s, c, waited))
  {
    var n := LoopTop(s, c, waited);
    if s.pending.Some? {
      assert Increasing(waited + [s.nextTag]);
      QuietKeepsInv(s, n, c);
    } else {
      IssueKeepsInv(s, n, c, waited);
    }
  }

  lemma IssueKeepsInv(s: State, n: State, c: nat, waited: seq<nat>)
    requires Inv(s) && c < |s.callers| && !s.callers[c].Owning? && !s.callers[c].Ending?
    requires Increasing(waited) && (waited != [] ==> waited[|waited| - 1] <= s.nextTag)
    requires s.pending.None? && n == LoopTop(s, c, waited)
    ensures Inv(n)
  {
    IssueNumbered(s, n, c, waited);
    IssueOwned(s, n, c, waited);
    IssueCallers(s, n, c, waited);
    IssueKeepsTidy(s, n, c, waited);
  }

  lemma IssueNumbered(s: State, n: State, c: nat, waited: seq<nat>)
    requires Inv(s) && c < |s.callers|
    requires s.pending.None? && n == LoopTop(s, c, waited)
    ensures Numbered(n) && OneInFlight(n) && Named(n)
  {
    assert forall t :: t != s.nextTag + 1 ==> Granted(n, t) == Granted(s, t);
  }

  lemma IssueCallers(s: State, n: State, c: nat, waited: seq<nat>)
    requires Inv(s) && c < |s.callers|
    requires Increasing(waited) && (waited != [] ==> waited[|waited| - 1] <= s.nextTag)
    requires s.pending.None? && n == LoopTop(s, c, waited)
    ensures forall d :: 0 <= d < |n.callers| ==> CallerOk(n, n.callers[d])
    ensures forall d, e :: 0 <= d < e < |n.callers| && n.callers[d].Owning? && n.callers[e].Owning? ==>
              n.callers[d].tag != n.callers[e].tag
  {
    assert forall d :: 0 <= d < |s.callers| && d != c ==> n.callers[d] == s.callers[d];
    forall d | 0 <= d < |n.callers|
      ensures CallerOk(n, n.callers[d])
    {
      if d != c {
        assert CallerOk(s, s.callers[d]);
      }
    }
    forall d, e | 0 <= d < e < |n.callers| && n.callers[d].Owning? && n.callers[e].Owning?
      ensures n.callers[d].tag != n.callers[e].tag
    {
      assert d != c ==> CallerOk(s, s.callers[d]);
      assert e != c ==> CallerOk(s, s.callers[e]);
    }
  }

  lemma IssueKeepsTidy(s: State, n: State, c: nat, waited: seq<nat>)
    requires Inv(s) && c < |s.callers| && !s.callers[c].Ending?
    requires s.pending.None? && n == LoopTop(s, c, waited)
    ensures Tidy(n)
  {
    assert forall d :: 0 <= d < |s.callers| && d != c ==> n.callers[d] == s.callers[d];
    assert forall t :: t != s.nextTag + 1 ==> Granted(n, t) == Granted(s, t);
    forall id | Disposed(s, id)
      ensures Disposed(n, id)
    {
      if id !in s.ended && id in s.system {
        var d :| 0 <= d < |s.callers| && s.callers[d].Ending? && id in s.callers[d].rest;
        assert n.callers[d] == s.callers[d];
      }
    }
  }

  lemma IssueOwned(s: State, n: State, c: nat, waited: seq<nat>)
    requires Inv(s) && c < |s.callers| && !s.callers[c].Owning?
    requires s.pending.None? && n == LoopTop(s, c, waited)
    ensures forall t :: t in n.requests && t !in n.kept ==> Owned(n, t)
  {
    var tag := s.nextTag + 1;
    assert n.callers[c] == Owning(tag, s.generation, waited);
    forall t | t in n.requests && t !in n.kept
      ensures Owned(n, t)
    {
      if t != tag {
        assert Owned(s, t);
        var d :| 0 <= d < |s.callers| && s.callers[d].Owning? && s.callers[d].tag == t;
        assert n.callers[d] == s.callers[d];
      }
    }
  }

  /** A slot is only ever cleared of a request that has been answered. */
  lemma ReleaseKeepsInv(s: State, tag: nat)
    requires Inv(s) && tag in s.requests && s.requests[tag].Answered?
    ensures Inv(s.(pending := Released(s.pending, tag)))
  {
    var n := s.(pending := Released(s.pending, tag));
    assert forall t :: Granted(n, t) == Granted(s, t);
    assert forall t :: Owned(s, t) ==> Owned(n, t);
    assert forall id :: Disposed(s, id) ==> Disposed(n, id);
    assert forall d :: 0 <= d < |s.callers| && CallerOk(s, s.callers[d]) ==> CallerOk(n, s.callers[d]);
  }

  lemma WaiterKeepsInv(s: State, c: nat)
    requires Inv(s) && c < |s.callers| && s.callers[c].Waiting?
    ensures Inv(ResumeWaiter(s, c))
  {
    var me := s.callers[c];
    assert CallerOk(s, me);
    if s.requests[me.tag].Answered? {
      if me.generation != s.generation {
        ReleaseKeepsInv(s, me.tag);
        LoopTopKeepsInv(s.(pending := Released(s.pending, me.tag)), c, me.waited);
      } else {
        var activity := UpdatableActivity(s);
        if activity.Some? {
          ApplyQuiet(s, c, activity.value);
        }
        QuietKeepsInv(s, ResumeWaiter(s, c), c);
      }
    }
  }

  /** The owner goes on: its activity is kept, or ended there and then. */
  lemma OwnerKeepsInv(s: State, c: nat)
    requires Inv(s) && c < |s.callers| && s.callers[c].Owning?
    ensures Inv(ResumeOwner(s, c))
  {
    var me := s.callers[c];
    assert CallerOk(s, me);
    if s.requests[me.tag].Answered? {
      ReleaseKeepsInv(s, me.tag);
      OwnerGoesOn(s.(pending := Released(s.pending, me.tag)), ResumeOwner(s, c), c);
    }
  }

  ghost predicate OwnerAnswered(s: State, c: nat) {
    && c < |s.callers| && s.callers[c].Owning?
    && s.callers[c].tag in s.requests && s.requests[s.callers[c].tag].Answered?
    && Released(s.pending, s.callers[c].tag) == s.pending
  }

  lemma OwnerGoesOn(s: State, n: State, c: nat)
    requires Inv(s) && OwnerAnswered(s, c) && n == ResumeOwner(s, c)
    ensures Inv(n)
  {
    OwnerLeaves(s, n, c);
    OwnersGoOn(s, n, c);
    NumbersKept(s, n, c);
    OwnerLeavesTidy(s, n, c);
  }

  /** What the owner's going on leaves alone, and what it marks. */
  ghost predicate Left(s: State, n: State, c: nat)
    requires OwnerAnswered(s, c)
  {
    && |n.callers| == |s.callers| && !n.callers[c].Owning? && !n.callers[c].Waiting?
    && (forall d :: 0 <= d < |s.callers| && d != c ==> n.callers[d] == s.callers[d])
    && n.requests == s.requests && n.kept.Keys == s.kept.Keys + {s.callers[c].tag}
    && n.pending == s.pending && n.nextTag == s.nextTag && n.generation == s.generation && n.nextId == s.nextId
  }

  lemma OwnerLeaves(s: State, n: State, c: nat)
    requires OwnerAnswered(s, c) && n == ResumeOwner(s, c)
    ensures Left(s, n, c)
  {
  }

  lemma NumbersKept(s: State, n: State, c: nat)
    requires Inv(s) && OwnerAnswered(s, c) && Left(s, n, c)
    ensures Numbered(n) && OneInFlight(n) && Named(n)
  {
    assert forall t :: Granted(n, t) == Granted(s, t);
  }

  lemma OwnersGoOn(s: State, n: State, c: nat)
    requires Inv(s) && OwnerAnswered(s, c) && Left(s, n, c)
    ensures Owners(n) && forall d :: 0 <= d < |n.callers| ==> CallerOk(n, n.callers[d])
  {
    forall t | t in n.requests && t !in n.kept
      ensures Owned(n, t)
    {
      assert Owned(s, t);
      var d :| 0 <= d < |s.callers| && s.callers[d].Owning? && s.callers[d].tag == t;
      assert n.callers[d] == s.callers[d];
    }
    forall d | 0 <= d < |n.callers|
      ensures CallerOk(n, n.callers[d])
    {
      if d != c {
        assert CallerOk(s, s.callers[d]);
      }
    }
  }

  lemma OwnerLeavesTidy(s: State, n: State, c: nat)
    requires Inv(s) && OwnerAnswered(s, c) && n == ResumeOwner(s, c)
    ensures Tidy(n)
  {
    assert CallerOk(s, s.callers[c]);
    assert forall d :: 0 <= d < |s.callers| && d != c ==> n.callers[d] == s.callers[d];
    assert n.requests == s.requests && forall t :: Granted(n, t) == Granted(s, t);
    forall id | Disposed(s, id)
      ensures Disposed(n, id)
    {
      if id !in s.ended && id in s.system {
        var d :| 0 <= d < |s.callers| && s.callers[d].Ending? && id in s.callers[d].rest;
        assert n.callers[d] == s.callers[d];
      }
    }
  }

  lemma AnswerKeepsInv(s: State, tag: nat, granted: bool)
    requires Inv(s)
    ensures Inv(Step(s, Answer(tag, granted)))
  {
    if tag in s.requests && s.requests[tag].Running? {
      AnswerKeepsTidy(s, tag, granted);
      AnswerNumbered(s, tag, granted);
      AnswerOwners(s, tag, granted);
    }
  }

  lemma AnswerNumbered(s: State, tag: nat, granted: bool)
    requires Inv(s) && tag in s.requests && s.requests[tag].Running?
    ensures Numbered(Step(s, Answer(tag, granted))) && OneInFlight(Step(s, Answer(tag, granted)))
  {
    var n := Step(s, Answer(tag, granted));
    assert forall t :: t in s.requests ==> n.requests[t].generation == s.requests[t].generation;
  }

  lemma AnswerOwners(s: State, tag: nat, granted: bool)
    requires Inv(s) && tag in s.requests && s.requests[tag].Running?
    ensures var n := Step(s, Answer(tag, granted));
            Owners(n) && forall d :: 0 <= d < |n.callers| ==> CallerOk(n, n.callers[d])
  {
    var n := Step(s, Answer(tag, granted));
    assert forall t :: Owned(s, t) ==> Owned(n, t);
    forall d | 0 <= d < |n.callers|
      ensures CallerOk(n, n.callers[d])
    {
      assert CallerOk(s, s.callers[d]);
    }
  }

  lemma AnswerKeepsTidy(s: State, tag: nat, granted: bool)
    requires Inv(s) && tag in s.requests && s.requests[tag].Running?
    ensures Tidy(Step(s, Answer(tag, granted))) && Named(Step(s, Answer(tag, granted)))
  {
    var n := Step(s, Answer(tag, granted));
    assert forall t :: t != tag ==> Granted(n, t) == Granted(s, t);
    assert tag !in s.kept;
    forall t | t in n.kept && Granted(n, t).Some? && n.requests[t].generation < n.generation
      ensures Disposed(n, Granted(n, t).value)
    {
      var id := Granted(s, t).value;
      assert Disposed(s, id);
      if id !in s.ended && id in s.system {
        var c :| 0 <= c < |s.callers| && s.callers[c].Ending? && id in s.callers[c].rest;
        assert n.callers[c] == s.callers[c];
      }
    }
  }

  /** Whatever the system reports or drops. */
  lemma OutsideKeepsInv(s: State, system: seq<Id>, updatable: set<Id>)
    requires Inv(s) && forall id :: id in system ==> id in s.system
    ensures Inv(s.(system := system, updatable := updatable))
  {
    var n := s.(system := system, updatable := updatable);
    assert forall t :: Granted(n, t) == Granted(s, t);
    assert forall t :: Owned(s, t) ==> Owned(n, t);
    assert forall id :: Disposed(s, id) ==> Disposed(n, id);
    forall d | 0 <= d < |n.callers|
      ensures CallerOk(n, n.callers[d])
    {
      assert CallerOk(s, s.callers[d]);
    }
  }

  lemma CurrentKeepsInv(s: State, current: Option<Id>)
    requires Inv(s)
    ensures Inv(s.(current := current))
  {
    var n := s.(current := current);
    assert forall t :: Granted(n, t) == Granted(s, t);
    assert forall t :: Owned(s, t) ==> Owned(n, t);
    assert forall id :: Disposed(s, id) ==> Disposed(n, id);
    forall d | 0 <= d < |n.callers|
      ensures CallerOk(n, n.callers[d])
    {
      assert CallerOk(s, s.callers[d]);
    }
  }

  lemma StartKeepsInv(s: State, c: nat)
    requires Inv(s) && c < |s.callers| && s.callers[c].Idle?
    ensures Inv(StartCall(s, c))
  {
    var activity := UpdatableActivity(s);
    if activity.Some? {
      ApplyQuiet(s, c, activity.value);
      QuietKeepsInv(s, StartCall(s, c), c);
    } else {
      CurrentKeepsInv(s, None);
      LoopTopKeepsInv(s.(current := None), c, []);
    }
  }

  lemma ResumeKeepsInv(s: State, c: nat)
    requires Inv(s) && c < |s.callers|
    ensures Inv(ResumeCall(s, c))
  {
    match s.callers[c]
    case Idle =>
    case Waiting(_, _, _) => WaiterKeepsInv(s, c);
    case Owning(_, _, _) => OwnerKeepsInv(s, c);
    case Updating(duplicates) =>
      EndNextQuiet(s, c, duplicates);
      QuietKeepsInv(s, EndNext(s, c, duplicates), c);
    case Ending(rest) =>
      EndNextQuiet(s, c, rest);
      QuietKeepsInv(s, EndNext(s, c, rest), c);
  }

  lemma StepKeepsInv(s: State, l: Label)
    requires Inv(s)
    ensures Inv(Step(s, l))
  {
    match l
    case Start(c) => if c < |s.callers| && s.callers[c].Idle? { StartKeepsInv(s, c); }
    case Update(c) => if c < |s.callers| && s.callers[c].Idle? { StartKeepsInv(s, c); }
    case Stop(c) =>
      if c < |s.callers| && s.callers[c].Idle? {
        StopQuiet(s, c);
        QuietKeepsInv(s, StopCall(s, c), c);
      }
    case Resume(c) => if c < |s.callers| { ResumeKeepsInv(s, c); }
    case Answer(tag, granted) => AnswerKeepsInv(s, tag, granted);
    case Vanish(id) =>
      OthersOf(s.system, id);
      OutsideKeepsInv(s, Others(s.system, id), s.updatable);
    case Report(id, updatable) =>
      OutsideKeepsInv(s, s.system, if updatable then s.updatable + {id} else s.updatable - {id});
  }

  lemma {:induction false} RunKeepsInv(s: State, labels: seq<Label>)
    requires Inv(s)
    ensures Inv(Run(s, labels))
    decreases |labels|
  {
    if labels != [] {
      StepKeepsInv(s, labels[0]);
      RunKeepsInv(Step(s, labels[0]), labels[1..]);
    }
  }

  // ---------- What every run promises ----------

  /** At most one request is unanswered at any moment, and it is the pending one. */
  lemma OneRequestInFlight(callers: nat, system: seq<Id>, updatable: set<Id>, nextId: Id, labels: seq<Label>)
    ensures var s := Run(Initial(callers, system, updatable, nextId), labels);
            forall a, b :: a in s.requests && b in s.requests && s.requests[a].Running? && s.requests[b].Running? ==>
              a == b && s.pending.Some? && s.pending.value.tag == a
  {
    RunKeepsInv(Initial(callers, system, updatable, nextId), labels);
  }

  /** No call ever waits twice on the same request: the tags it waits on increase, and so
      does the tag of the request it makes at last. */
  lemma NeverWaitsTwice(callers: nat, system: seq<Id>, updatable: set<Id>, nextId: Id, labels: seq<Label>, c: nat)
    requires c < |Run(Initial(callers, system, updatable, nextId), labels).callers|
    ensures match Run(Initial(callers, system, updatable, nextId), labels).callers[c]
            case Waiting(tag, _, waited) => Increasing(waited) && waited != [] && waited[|waited| - 1] == tag
            case Owning(tag, _, waited) => Increasing(waited + [tag])
            case _ => true
  {
    RunKeepsInv(Initial(callers, system, updatable, nextId), labels);
    var s := Run(Initial(callers, system, updatable, nextId), labels);
    assert CallerOk(s, s.callers[c]);
  }

  /** Nothing a request returned is lost: it waits for its owner, or was kept in `current`
      by it, or has been ended. */
  lemma NothingLost(callers: nat, system: seq<Id>, updatable: set<Id>, nextId: Id, labels: seq<Label>, tag: nat)
    requires Granted(Run(Initial(callers, system, updatable, nextId), labels), tag).Some?
    ensures var s := Run(Initial(callers, system, updatable, nextId), labels);
            || Owned(s, tag)
            || (tag in s.kept && s.kept[tag])
            || Granted(s, tag).value in s.ended
  {
    RunKeepsInv(Initial(callers, system, updatable, nextId), labels);
  }

  /** The step that keeps an activity is its owner's, in the generation that asked for it,
      and it puts it in `current`, or nothing when it was refused one; in any other
      generation that step ends it and leaves `current` alone. */
  lemma OwnerKeepsOrEnds(s: State, c: nat)
    requires Inv(s) && c < |s.callers| && s.callers[c].Owning? && s.requests[s.callers[c].tag].Answered?
    ensures var granted, n := Granted(s, s.callers[c].tag), Step(s, Resume(c));
            if s.requests[s.callers[c].tag].generation == s.generation then n.current == granted && n.ended == s.ended
            else n.current == s.current && n.ended == s.ended + if granted.Some? then {granted.value} else {}
  {
    assert CallerOk(s, s.callers[c]);
  }

  /** After a stop, when every call has returned, each activity requested before it has
      been ended or is no longer the system's, however its request and the stop crossed. */
  lemma StopLeavesNothing(callers: nat, system: seq<Id>, updatable: set<Id>, nextId: Id, labels: seq<Label>, tag: nat)
    requires var s := Run(Initial(callers, system, updatable, nextId), labels);
             && (forall c :: 0 <= c < |s.callers| ==> s.callers[c].Idle?)
             && tag in s.requests && s.requests[tag].generation < s.generation
             && Granted(s, tag).Some?
    ensures var s := Run(Initial(callers, system, updatable, nextId), labels);
            Granted(s, tag).value in s.ended || Granted(s, tag).value !in s.system
  {
    RunKeepsInv(Initial(callers, system, updatable, nextId), labels);
    var s := Run(Initial(callers, system, updatable, nextId), labels);
    assert tag in s.kept;
    assert Disposed(s, Granted(s, tag).value);
  }
}
