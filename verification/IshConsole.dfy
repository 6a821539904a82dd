/** A session's output: a ring of bytes that drops the oldest rather than block the guest. */
module IshConsole {
  import opened Wrappers

  const CAPACITY := 256 * 1024

  /** One slot of the ring always stays empty, which is how full is told from empty. */
  const LIMIT := CAPACITY - 1

  /** The last `n` bytes. */
  function KeepLast(s: seq<byte>, n: nat): seq<byte> {
    if |s| <= n then s else s[|s| - n..]
  }

  lemma Assoc(a: seq<byte>, b: seq<byte>, c: seq<byte>)
    ensures (a + b) + c == a + (b + c)
  {
  }

  lemma Front(a: seq<byte>, b: seq<byte>)
    ensures (a + b)[..|a|] == a
  {
  }

  lemma Rejoined(s: seq<byte>, k: nat)
    requires k <= |s|
    ensures s[..k] + s[k..] == s
  {
  }

  lemma KeepLastOfEnd(a: seq<byte>, b: seq<byte>, n: nat)
    requires |b| >= n
    ensures KeepLast(a + b, n) == KeepLast(b, n)
  {
    assert KeepLast(a + b, n) == (a + b)[|a| + |b| - n..];
    assert (a + b)[|a| + |b| - n..] == b[|b| - n..];
  }

  lemma KeepLastAppend(s: seq<byte>, t: seq<byte>, n: nat)
    ensures KeepLast(KeepLast(s, n) + t, n) == KeepLast(s + t, n)
  {
    if |s| > n {
      var k := |s| - n;
      Rejoined(s, k);
      Assoc(s[..k], s[k..], t);
      KeepLastOfEnd(s[..k], s[k..] + t, n);
    }
  }

  lemma OneByteMore(s: seq<byte>, t: seq<byte>, i: nat, n: nat)
    requires i < |t|
    ensures KeepLast(KeepLast(s + t[..i], n) + [t[i]], n) == KeepLast(s + t[..i + 1], n)
  {
    KeepLastAppend(s + t[..i], [t[i]], n);
    assert t[..i + 1] == t[..i] + [t[i]];
    Assoc(s, t[..i], [t[i]]);
  }

  lemma NoBytesYet(s: seq<byte>, t: seq<byte>, n: nat)
    requires |s| <= n
    ensures KeepLast(s + t[..0], n) == s
  {
    assert s + t[..0] == s;
  }

  lemma AllBytes(t: seq<byte>)
    ensures t[..|t|] == t
  {
  }

  /** The bytes from `tail` up to `head`, round the end of the ring. */
  function Between(d: seq<byte>, tail: nat, head: nat): (s: seq<byte>)
    requires |d| == CAPACITY && tail < CAPACITY && head < CAPACITY
    ensures |s| == if tail <= head then head - tail else head + CAPACITY - tail
  {
    if tail <= head then d[tail..head] else d[tail..] + d[..head]
  }

  function After(i: nat): nat {
    (i + 1) % CAPACITY
  }

  lemma AfterIs(i: nat)
    requires i < CAPACITY
    ensures After(i) == if i + 1 < CAPACITY then i + 1 else 0
  {
  }

  lemma SlicePut(d: seq<byte>, i: nat, j: nat, b: byte)
    requires i <= j < |d|
    ensures d[j := b][i..j + 1] == d[i..j] + [b]
  {
  }

  lemma ElsewherePut(d: seq<byte>, i: nat, j: nat, b: byte)
    requires j < i <= |d|
    ensures d[j := b][i..] == d[i..]
  {
  }

  /** A byte put at the head joins the end, while the ring is not full. */
  lemma PutWhenRoom(d: seq<byte>, tail: nat, head: nat, b: byte)
    requires |d| == CAPACITY && tail < CAPACITY && head < CAPACITY && After(head) != tail
    ensures Between(d[head := b], tail, After(head)) == Between(d, tail, head) + [b]
  {
    AfterIs(head);
    if tail <= head {
      SlicePut(d, tail, head, b);
      if head + 1 == CAPACITY {
        WholeSlice(d[head := b], tail);
      }
    } else {
      SlicePut(d, 0, head, b);
      ElsewherePut(d, tail, head, b);
      Assoc(d[tail..], d[..head], [b]);
    }
  }

  lemma WholeSlice(d: seq<byte>, i: nat)
    requires i <= |d|
    ensures d[i..|d|] == d[i..] && d[i..] + d[..0] == d[i..]
  {
  }

  lemma SliceHead(d: seq<byte>, i: nat, j: nat)
    requires i < j <= |d|
    ensures d[i..j] == [d[i]] + d[i + 1..j]
  {
  }

  /** Moving the tail on drops the oldest byte. */
  lemma DropOldest(d: seq<byte>, tail: nat, head: nat)
    requires |d| == CAPACITY && tail < CAPACITY && head < CAPACITY && tail != head
    ensures Between(d, tail, head) == [d[tail]] + Between(d, After(tail), head)
  {
    AfterIs(tail);
    if tail < head {
      SliceHead(d, tail, head);
    } else {
      SliceHead(d, tail, |d|);
      WholeSlice(d, tail);
      WholeSlice(d, tail + 1);
      if tail + 1 < CAPACITY {
        Assoc([d[tail]], d[tail + 1..], d[..head]);
      } else {
        LastAlone(d);
      }
    }
  }

  lemma LastAlone(d: seq<byte>)
    requires d != []
    ensures d[|d| - 1..] == [d[|d| - 1]]
  {
  }

  class Console {
    const data: array<byte>
    var head: nat
    var tail: nat
    var used: bool
    var exitCode: int
    ghost var history: History
    ghost var opens: nat

    ghost predicate Shaped()
      reads this
    {
      data.Length == CAPACITY && head < CAPACITY && tail < CAPACITY
    }

    /** What has been written and not read yet, oldest first. */
    ghost function Contents(): (s: seq<byte>)
      requires Shaped()
      reads this, data
      ensures |s| <= LIMIT
      ensures s == [] <==> head == tail
    {
      Between(data[..], tail, head)
    }

    /** The ring holds what its history says, and that history is faithful to what was
        written. */
    ghost predicate Valid()
      reads this, data
    {
      Shaped() && Contents() == history.kept && Faithful(history)
    }

    /** The state an open leaves a slot in. */
    constructor ()
      ensures Valid() && fresh(data) && Value() == Slot(EMPTY, true, -1, 1)
    {
      data := new byte[CAPACITY](_ => 0);
      head, tail, used, exitCode, history, opens := 0, 0, true, -1, EMPTY, 1;
    }

    method PutByte(b: byte)
      requires Shaped()
      modifies this`head, this`tail, data
      ensures Shaped()
      ensures Contents() == KeepLast(old(Contents()) + [b], LIMIT)
    {
      ghost var before := Contents();
      ghost var d := data[..];
      var next := (head + 1) % CAPACITY;
      if next == tail {
        DropOldest(d, tail, head);
        tail := (tail + 1) % CAPACITY;
      }
      PutWhenRoom(d, tail, head, b);
      data[head] := b;
      head := next;
      assert data[..] == d[old(head) := b];
      assert |before| == LIMIT ==> (before + [b])[1..] == before[1..] + [b];
    }

    /** The driver's write. It never blocks and never fails; what does not fit pushes the
        oldest bytes out. */
    method Write(bytes: seq<byte>)
      requires Valid()
      modifies this`head, this`tail, this`history, data
      ensures Valid()
      ensures Contents() == KeepLast(old(Contents()) + bytes, LIMIT)
      ensures history == Apply(old(history), Put(bytes))
    {
      ghost var before := Contents();
      NoBytesYet(before, bytes, LIMIT);
      for i := 0 to |bytes|
        invariant Shaped() && Contents() == KeepLast(before + bytes[..i], LIMIT)
        invariant history == old(history)
      {
        OneByteMore(before, bytes, i, LIMIT);
        PutByte(bytes[i]);
      }
      AllBytes(bytes);
      PutKeepsFaithful(history, bytes);
      history := Apply(history, Put(bytes));
    }

    method TakeByte() returns (b: byte)
      requires Shaped() && head != tail
      modifies this`tail
      ensures Shaped() && old(Contents()) == [b] + Contents()
    {
      DropOldest(data[..], tail, head);
      b := data[tail];
      tail := (tail + 1) % CAPACITY;
    }

    /** What a read does once it has the lock and has waited: takes up to `length` of the
        oldest bytes. It answers -1 exactly when there were none and the process has
        exited. */
    method Drain(length: nat) returns (r: int, out: seq<byte>)
      requires Valid() && length > 0
      modifies this`tail, this`history
      ensures Valid()
      ensures history == Apply(old(history), Take(length))
      ensures out == old(Contents())[..Min(length, |old(Contents())|)]
      ensures r == -1 <==> old(Contents()) == [] && exitCode >= 0
      ensures r != -1 ==> r == |out|
    {
      out := [];
      ghost var all := Contents();
      while |out| < length && tail != head
        invariant Shaped() && |out| <= length
        invariant all == out + Contents()
        invariant history == old(history)
        decreases |all| - |out|
      {
        var b := TakeByte();
        Assoc(out, [b], Contents());
        out := out + [b];
      }
      Front(out, Contents());
      TakeKeepsFaithful(history, length);
      history := Apply(history, Take(length));
      r := if |out| == 0 && exitCode >= 0 then -1 else |out|;
    }

    /** Whether a read has to wait for output before it drains. */
    predicate WaitsFor(timeout: int)
      reads this
    {
      used && head == tail && exitCode < 0 && timeout > 0
    }

    /** What is known of the slot; `opens` counts the sessions it has had. */
    ghost function Value(): Slot
      reads this
    {
      Slot(history, used, exitCode, opens)
    }

    /** A read. If it has to wait, other calls run in the meantime, and afterwards it goes
        on with whatever they have made of the slot, without another look at whether it is
        still in use. Of the slot it goes on with, it answers -1 only once its process has
        exited and everything retained was read. */
    method Read(length: int, timeout: int, meanwhile: seq<Event>) returns (r: int, out: seq<byte>)
      requires Valid()
      modifies this, data
      ensures Valid()
      ensures length <= 0 ==> r == EINVAL && out == [] && Value() == old(Value())
      ensures length > 0 && !old(used) ==> r == -1 && out == [] && Value() == old(Value())
      ensures length > 0 && old(used) ==>
                var s := if old(Contents() == [] && exitCode < 0) && timeout > 0 then During(old(Value()), meanwhile) else old(Value());
                && Value() == s.(history := Apply(s.history, Take(length)))
                && out == s.history.kept[..Min(length, |s.history.kept|)]
                && (r == -1 <==> s.history.kept == [] && s.exitCode >= 0) && (r != -1 ==> r == |out|)
    {
      if length <= 0 {
        return EINVAL, [];
      }
      if !used {
        return -1, [];
      }
      if WaitsFor(timeout) {
        Wait(meanwhile);
      }
      r, out := Drain(length);
    }

    /** The timed wait, which gives the lock up. */
    method Wait(meanwhile: seq<Event>)
      requires Valid()
      modifies this, data
      ensures Valid() && Value() == During(old(Value()), meanwhile)
    {
      for i := 0 to |meanwhile|
        invariant Valid() && During(Value(), meanwhile[i..]) == During(old(Value()), meanwhile)
      {
        assert meanwhile[i..][0] == meanwhile[i] && meanwhile[i..][1..] == meanwhile[i + 1..];
        match meanwhile[i]
        case Arrives(bytes) =>
          if used {
            Write(bytes);
          }
        case Reads(length) =>
          if used && length > 0 {
            var _, _ := Drain(length);
          }
        case Ends(code) =>
          if used {
            Exited(code);
          }
        case Closes => Close();
        case Reopens =>
          if !used {
            Reopen();
          }
      }
    }

    method Close()
      requires Valid()
      modifies this`used
      ensures Valid() && !used
    {
      used := false;
    }

    /** An open that finds the slot free starts it over. */
    method Reopen()
      requires Valid()
      modifies this
      ensures Valid() && Value() == Slot(EMPTY, true, -1, old(opens) + 1)
    {
      head, tail, used, exitCode, history, opens := 0, 0, true, -1, EMPTY, opens + 1;
    }

    /** The guest's process has ended, with this wait status. */
    method Exited(code: nat)
      requires Valid()
      modifies this`exitCode
      ensures Valid() && exitCode == ExitStatus(code) && exitCode >= 0
    {
      exitCode := ExitStatus(code);
    }
  }

  const EINVAL := -22

  /** What other calls can do to a slot while a read of it waits. */
  datatype Event = Arrives(bytes: seq<byte>) | Reads(length: nat) | Ends(code: nat) | Closes | Reopens

  datatype Slot = Slot(history: History, used: bool, exitCode: int, opens: nat)

  /** Output for a closed slot is dropped, and so is the end of its process; another read of
      the slot takes from it what there is then. */
  function Happens(s: Slot, e: Event): Slot {
    match e
    case Arrives(bytes) => if s.used then s.(history := Apply(s.history, Put(bytes))) else s
    case Reads(length) => if s.used && length > 0 then s.(history := Apply(s.history, Take(length))) else s
    case Ends(code) => if s.used then s.(exitCode := ExitStatus(code)) else s
    case Closes => s.(used := false)
    case Reopens => if s.used then s else Slot(EMPTY, true, -1, s.opens + 1)
  }

  function During(s: Slot, events: seq<Event>): Slot
    decreases |events|
  {
    if events == [] then s else During(Happens(s, events[0]), events[1..])
  }

  /** A read that waits goes on with its own session unless that is closed meanwhile: with
      what it had written, more perhaps, and its exit if it has ended. */
  lemma {:induction false} SameSession(s: Slot, events: seq<Event>)
    requires s.used && forall i :: 0 <= i < |events| ==> !events[i].Closes?
    ensures var n := During(s, events);
            && n.used && n.opens == s.opens && s.history.written <= n.history.written && (s.exitCode >= 0 ==> n.exitCode >= 0)
    decreases |events|
  {
    if events != [] {
      SameSession(Happens(s, events[0]), events[1..]);
    }
  }

  ghost predicate Reopened(events: seq<Event>) {
    exists j :: 0 <= j < |events| && events[j].Reopens?
  }

  ghost predicate ClosedThenReopened(events: seq<Event>) {
    exists i, j :: 0 <= i < j < |events| && events[i].Closes? && events[j].Reopens?
  }

  lemma {:induction false} FreeSlotTaken(s: Slot, events: seq<Event>)
    ensures During(s, events).opens >= s.opens
    ensures !s.used ==> (During(s, events).opens > s.opens <==> Reopened(events))
    decreases |events|
  {
    if events != [] {
      FreeSlotTaken(Happens(s, events[0]), events[1..]);
      ReopenedFirst(events);
    }
  }

  lemma ReopenedFirst(events: seq<Event>)
    requires events != []
    ensures Reopened(events) <==> events[0].Reopens? || Reopened(events[1..])
    ensures ClosedThenReopened(events) <==> (events[0].Closes? && Reopened(events[1..])) || ClosedThenReopened(events[1..])
  {
    var rest := events[1..];
    assert forall i :: 0 <= i < |rest| ==> rest[i] == events[i + 1];
    if Reopened(events) {
      var j :| 0 <= j < |events| && events[j].Reopens?;
      assert j > 0 ==> rest[j - 1].Reopens?;
    }
    if ClosedThenReopened(events) {
      var i, j :| 0 <= i < j < |events| && events[i].Closes? && events[j].Reopens?;
      assert rest[j - 1].Reopens? && (i > 0 ==> rest[i - 1].Closes?);
    }
  }

  /** A read of a slot in use goes on with another session if and only if its own is closed
      and the slot taken again while it waits. */
  lemma {:induction false} ReusedSlotIff(s: Slot, events: seq<Event>)
    requires s.used
    ensures During(s, events).opens != s.opens <==> ClosedThenReopened(events)
    decreases |events|
  {
    if events != [] {
      ReopenedFirst(events);
      if events[0].Closes? {
        FreeSlotTaken(Happens(s, events[0]), events[1..]);
        ReopenedAfter(events[1..]);
      } else {
        ReusedSlotIff(Happens(s, events[0]), events[1..]);
      }
    }
  }

  lemma ReopenedAfter(events: seq<Event>)
    ensures ClosedThenReopened(events) ==> Reopened(events)
  {
  }

  /** It then answers with the new session's output. */
  lemma ReusedSlotIsRead(s: Slot, bytes: seq<byte>)
    requires s.used
    ensures During(s, [Closes, Reopens, Arrives(bytes)]) == Slot(Apply(EMPTY, Put(bytes)), true, -1, s.opens + 1)
  {
    var rest: seq<Event> := [Reopens, Arrives(bytes)];
    var taken := Slot(EMPTY, true, -1, s.opens + 1);
    assert [Closes, Reopens, Arrives(bytes)][1..] == rest && rest[1..] == [Arrives(bytes)] && [Arrives(bytes)][1..] == [];
    assert During(s, [Closes, Reopens, Arrives(bytes)]) == During(s.(used := false), rest);
    assert During(s.(used := false), rest) == During(taken, [Arrives(bytes)]);
  }

  /** The exit status of a raw wait word: 128 and the signal for a death by signal. */
  function ExitStatus(code: nat): (status: int)
    ensures status >= 0
  {
    if code % 128 != 0 then 128 + code % 128 else code / 256
  }

  /** A death by signal is never taken for success, and a normal exit keeps its code. */
  lemma ExitStatusTellsSignals(status: nat, signal: nat, core: bool)
    requires status < 256 && 0 < signal < 128
    ensures ExitStatus(status * 256) == status
    ensures ExitStatus(signal + if core then 128 else 0) == 128 + signal
  {
    assert (status * 256) % 128 == 0;
    assert (signal + 128) % 128 == signal;
  }

  // ---------- Any sequence of writes and reads ----------

  datatype Op = Put(bytes: seq<byte>) | Take(length: nat)

  /** The buffer beside everything ever written; `start` is how many bytes have left it,
      read or dropped, and `returned` what each read returned and where it began. */
  datatype History = History(kept: seq<byte>, written: seq<byte>, start: nat, returned: seq<(nat, seq<byte>)>)

  const EMPTY := History([], [], 0, [])

  function Min(a: nat, b: nat): nat {
    if a < b then a else b
  }

  function Apply(h: History, op: Op): History {
    match op
    case Put(bytes) =>
      var kept := KeepLast(h.kept + bytes, LIMIT);
      History(kept, h.written + bytes, h.start + (|h.kept| + |bytes| - |kept|), h.returned)
    case Take(length) =>
      var n := Min(length, |h.kept|);
      History(h.kept[n..], h.written, h.start + n, h.returned + [(h.start, h.kept[..n])])
  }

  function ApplyAll(h: History, ops: seq<Op>): History
    decreases |ops|
  {
    if ops == [] then h else ApplyAll(Apply(h, ops[0]), ops[1..])
  }

  function End(read: (nat, seq<byte>)): nat {
    read.0 + |read.1|
  }

  /** The buffer is a suffix of what was written, never over the limit, and every read so
      far returned a stretch of it, each after the one before. */
  ghost predicate Faithful(h: History) {
    && h.start <= |h.written| && h.kept == h.written[h.start..] && |h.kept| <= LIMIT
    && (forall i :: 0 <= i < |h.returned| ==>
          End(h.returned[i]) <= h.start && h.returned[i].1 == h.written[h.returned[i].0..End(h.returned[i])])
    && (forall i, j :: 0 <= i < j < |h.returned| ==> End(h.returned[i]) <= h.returned[j].0)
  }

  lemma PutKeepsFaithful(h: History, bytes: seq<byte>)
    requires Faithful(h)
    ensures Faithful(Apply(h, Put(bytes)))
    ensures Apply(h, Put(bytes)).start ==
            if |h.written| + |bytes| - h.start <= 262_143 then h.start else |h.written| + |bytes| - 262_143
  {
    var n := Apply(h, Put(bytes));
    assert h.kept + bytes == (h.written + bytes)[h.start..];
    assert n.kept == n.written[n.start..];
    forall i | 0 <= i < |h.returned|
      ensures h.returned[i].1 == n.written[h.returned[i].0..End(h.returned[i])]
    {
      assert End(h.returned[i]) <= |h.written|;
      assert n.written[h.returned[i].0..End(h.returned[i])] == h.written[h.returned[i].0..End(h.returned[i])];
    }
  }

  lemma TakeKeepsFaithful(h: History, length: nat)
    requires Faithful(h)
    ensures Faithful(Apply(h, Take(length)))
  {
    var n := Apply(h, Take(length));
    var k := Min(length, |h.kept|);
    assert h.kept[..k] == h.written[h.start..h.start + k];
    assert n.kept == n.written[n.start..];
    forall i | 0 <= i < |n.returned|
      ensures End(n.returned[i]) <= n.start && n.returned[i].1 == n.written[n.returned[i].0..End(n.returned[i])]
    {
      if i < |h.returned| {
        assert n.returned[i] == h.returned[i];
      }
    }
    forall i, j | 0 <= i < j < |n.returned|
      ensures End(n.returned[i]) <= n.returned[j].0
    {
      assert n.returned[i] == h.returned[i];
      if j < |h.returned| {
        assert n.returned[j] == h.returned[j];
      }
    }
  }

  lemma {:induction false} RunFaithful(h: History, ops: seq<Op>)
    requires Faithful(h)
    ensures Faithful(ApplyAll(h, ops))
    decreases |ops|
  {
    if ops != [] {
      match ops[0] {
        case Put(bytes) => PutKeepsFaithful(h, bytes);
        case Take(length) => TakeKeepsFaithful(h, length);
      }
      RunFaithful(Apply(h, ops[0]), ops[1..]);
    }
  }

  /** Whatever is written and read in whatever order, reads return stretches of the output
      in order and without overlap, and what is left is its end, at most the limit. */
  lemma OutputInOrder(ops: seq<Op>)
    ensures Faithful(ApplyAll(EMPTY, ops))
  {
    RunFaithful(EMPTY, ops);
  }

  function Joined(returned: seq<(nat, seq<byte>)>): seq<byte> {
    if returned == [] then [] else Joined(returned[..|returned| - 1]) + returned[|returned| - 1].1
  }

  /** Every write of the run fits beside what is waiting. */
  predicate Fits(h: History, ops: seq<Op>)
    decreases |ops|
  {
    ops == [] || ((ops[0].Put? ==> |h.kept| + |ops[0].bytes| <= LIMIT) && Fits(Apply(h, ops[0]), ops[1..]))
  }

  lemma TakeLosesNothing(h: History, length: nat)
    requires Joined(h.returned) + h.kept == h.written
    ensures var n := Apply(h, Take(length)); Joined(n.returned) + n.kept == n.written
  {
    var k, n := Min(length, |h.kept|), Apply(h, Take(length));
    assert n.returned[..|n.returned| - 1] == h.returned;
    Assoc(Joined(h.returned), h.kept[..k], h.kept[k..]);
    Rejoined(h.kept, k);
  }

  /** Nothing is dropped unless the limit is exceeded: while every write fits, the reads
      and what is left are together everything that was written. */
  lemma {:induction false} NothingLost(h: History, ops: seq<Op>)
    requires Joined(h.returned) + h.kept == h.written && Fits(h, ops)
    ensures var n := ApplyAll(h, ops); Joined(n.returned) + n.kept == n.written
    decreases |ops|
  {
    if ops != [] {
      var n := Apply(h, ops[0]);
      match ops[0] {
        case Put(bytes) => Assoc(Joined(h.returned), h.kept, bytes);
        case Take(length) => TakeLosesNothing(h, length);
      }
      NothingLost(n, ops[1..]);
    }
  }
}
