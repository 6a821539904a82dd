/** The fixed tables of the iSH bridge and the helpers that search and change them. */
module IshTables {
  import opened Wrappers

  const MAX_SESSIONS := 8
  const MAX_PROFILES := 8
  const PROFILE_BYTES := 64

  // Negative, as every entry point answers them.
  const EBUSY := -16
  const EINVAL := -22
  const EMFILE := -24
  const ENOTCONN := -57
  const ENAMETOOLONG := -63

  /** Where a profile's filesystems go, innermost first. */
  datatype Point = DevPts | Dev | Proc

  function PointAt(i: nat): Point
    requires i < 3
  {
    if i == 0 then DevPts else if i == 1 then Dev else Proc
  }

  function Order(p: Point): nat {
    match p case DevPts => 0 case Dev => 1 case Proc => 2
  }

  /** A sweep comes to the innermost point first: `/dev/pts` is inside `/dev`. */
  lemma InnermostFirst(p: Point)
    ensures PointAt(Order(p)) == p && PointAt(0) == DevPts && PointAt(1) == Dev && PointAt(2) == Proc
  {
  }

  datatype Mount = Mount(profile: string, point: Point)

  /** How many mounts are stacked on each point. */
  type Depths = map<Mount, nat>

  function Depth(d: Depths, m: Mount): nat {
    if m in d then d[m] else 0
  }

  datatype Session = Session(used: bool, pid: nat, profile: string)

  /** 0 for a name that is one component below the machine root and fits its table. */
  function CheckProfile(profile: string): (r: int)
    ensures r == 0 <==> 0 < |profile| < 64 && '/' !in profile && profile != "." && profile != ".."
    ensures r != 0 ==> r == if |profile| >= 64 && '/' !in profile then -63 else -22
  {
    if profile == "" || '/' in profile || profile == "." || profile == ".." then EINVAL
    else if |profile| >= PROFILE_BYTES then ENAMETOOLONG
    else 0
  }

  /** The first position of a name, or the length. The empty name marks a free slot. */
  function IndexOf(table: seq<string>, name: string): (i: nat)
    ensures i <= |table|
    ensures i < |table| ==> table[i] == name
    ensures forall k :: 0 <= k < i ==> table[k] != name
    ensures i == |table| <==> name !in table
  {
    if table == [] then 0 else if table[0] == name then 0 else 1 + IndexOf(table[1..], name)
  }

  /** The table with a name put in its first free slot. */
  function Added(table: seq<string>, name: string): (r: seq<string>)
    ensures |r| == |table|
  {
    var i := IndexOf(table, "");
    if i < |table| then table[i := name] else table
  }

  /** The table with the first occurrence of a name freed. */
  function Removed(table: seq<string>, name: string): (r: seq<string>)
    ensures |r| == |table|
  {
    var i := IndexOf(table, name);
    if i < |table| then table[i := ""] else table
  }

  /** 0 when `name` can be marked, else why not. */
  function Marking(table: seq<string>, name: string): int {
    if name in table then EBUSY else if "" !in table then EMFILE else 0
  }

  /** A point that carries nothing answers EINVAL, one that is held EBUSY. */
  function UnmountCode(d: Depths, m: Mount, busy: bool): int {
    if Depth(d, m) == 0 then EINVAL else if busy then EBUSY else 0
  }

  function Unmounted(d: Depths, m: Mount, busy: bool): Depths {
    if UnmountCode(d, m, busy) == 0 then d[m := Depth(d, m) - 1] else d
  }

  /** A point that carries a mount and will not give it up. */
  predicate Held(d: Depths, m: Mount, busy: Mount -> bool) {
    Depth(d, m) > 0 && busy(m)
  }

  function DepthAfter(d: Depths, m: Mount, busy: Mount -> bool): nat {
    if Depth(d, m) > 0 && !busy(m) then Depth(d, m) - 1 else Depth(d, m)
  }

  /** `do_mount` stacks without asking. */
  function Mounted(d: Depths, m: Mount): Depths {
    d[m := Depth(d, m) + 1]
  }

  function FreeSession(sessions: seq<Session>): (i: nat)
    ensures i <= |sessions|
    ensures i < |sessions| ==> !sessions[i].used
    ensures forall k :: 0 <= k < i ==> sessions[k].used
  {
    if sessions == [] then 0 else if !sessions[0].used then 0 else 1 + FreeSession(sessions[1..])
  }

  /** A session of this profile that an open has reserved and not given a pid yet. */
  predicate HasBare(sessions: seq<Session>, profile: string) {
    exists i :: 0 <= i < |sessions| && sessions[i].used && sessions[i].pid == 0 && sessions[i].profile == profile
  }

  /** Whether closing slot `i` on behalf of a profile, or of none in particular, ends the
      session in it. */
  predicate Ends(sessions: seq<Session>, i: nat, profile: Option<string>)
    requires i < |sessions|
  {
    sessions[i].used && (profile.None? || sessions[i].profile == profile.value)
  }

  /** `sessions` with slot `i` given up, if closing it ends the session in it. */
  function SessionClosed(sessions: seq<Session>, i: nat, profile: Option<string>): (r: seq<Session>)
    requires i < |sessions|
    ensures |r| == |sessions|
  {
    if Ends(sessions, i, profile) then sessions[i := sessions[i].(used := false)] else sessions
  }

  /** A name goes in once and comes out whole: nothing else moves. */
  lemma AddedMembers(table: seq<string>, name: string)
    requires name != "" && Marking(table, name) == 0
    ensures forall n :: n != "" ==> (n in Added(table, name) <==> n == name || n in table)
  {
    var i := IndexOf(table, "");
    var r := Added(table, name);
    assert r[i] == name;
    forall n | n != "" && n in table
      ensures n in r
    {
      var k :| 0 <= k < |table| && table[k] == n;
      assert r[k] == n;
    }
  }

  ghost predicate DistinctNames(table: seq<string>) {
    forall i, j :: 0 <= i < j < |table| && table[i] != "" ==> table[i] != table[j]
  }

  lemma RemovedMembers(table: seq<string>, name: string)
    requires name != "" && DistinctNames(table)
    ensures forall n :: n != "" ==> (n in Removed(table, name) <==> n != name && n in table)
    ensures DistinctNames(Removed(table, name))
  {
    var i := IndexOf(table, name);
    var r := Removed(table, name);
    forall n | n != "" && n in table && n != name
      ensures n in r
    {
      var k :| 0 <= k < |table| && table[k] == n;
      assert r[k] == n;
    }
    if i < |table| {
      forall k | 0 <= k < |r|
        ensures r[k] != name
      {
        if k < i {
        } else if k > i {
          assert table[i] != table[k];
        }
      }
    }
  }

  /** The globals of the bridge, changed in place. The kernel's answers come from `busy`,
      which says whether a mount is held at the moment it is asked about. */
  class Machine {
    const attached: array<string>
    const detaching: array<string>
    const sessions: array<Session>
    var depths: Depths

    ghost predicate Valid()
      reads this
    {
      && attached.Length == MAX_PROFILES && detaching.Length == MAX_PROFILES && sessions.Length == MAX_SESSIONS
      && attached != detaching
    }

    constructor ()
      ensures Valid() && fresh(attached) && fresh(detaching) && fresh(sessions)
      ensures attached.Length == 8 && detaching.Length == 8 && sessions.Length == 8
      ensures forall i :: 0 <= i < MAX_PROFILES ==> attached[i] == "" && detaching[i] == ""
      ensures forall i :: 0 <= i < MAX_SESSIONS ==> !sessions[i].used
      ensures depths == map[]
    {
      attached := new string[MAX_PROFILES](_ => "");
      detaching := new string[MAX_PROFILES](_ => "");
      sessions := new Session[MAX_SESSIONS](_ => Session(false, 0, ""));
      depths := map[];
    }

    method IsAttached(profile: string) returns (r: bool)
      requires Valid()
      ensures r <==> profile in attached[..]
    {
      for i := 0 to MAX_PROFILES
        invariant profile !in attached[..i]
      {
        if attached[i] == profile {
          return true;
        }
      }
      assert attached[..MAX_PROFILES] == attached[..];
      r := false;
    }

    method IsDetaching(profile: string) returns (r: bool)
      requires Valid()
      ensures r <==> profile in detaching[..]
    {
      for i := 0 to MAX_PROFILES
        invariant profile !in detaching[..i]
      {
        if detaching[i] == profile {
          return true;
        }
      }
      assert detaching[..MAX_PROFILES] == detaching[..];
      r := false;
    }

    method MarkDetaching(profile: string) returns (r: int)
      requires Valid()
      modifies detaching
      ensures r == Marking(old(detaching[..]), profile)
      ensures detaching[..] == if r == 0 then Added(old(detaching[..]), profile) else old(detaching[..])
    {
      var already := IsDetaching(profile);
      if already {
        return EBUSY;
      }
      for i := 0 to MAX_PROFILES
        invariant detaching[..] == old(detaching[..])
        invariant forall k :: 0 <= k < i ==> detaching[k] != ""
      {
        if detaching[i] != "" {
          continue;
        }
        FirstAt(detaching[..], "", i);
        detaching[i] := profile;
        assert detaching[..] == old(detaching[..])[i := profile];
        return 0;
      }
      r := EMFILE;
    }

    method ClearDetaching(profile: string)
      requires Valid()
      modifies detaching
      ensures detaching[..] == Removed(old(detaching[..]), profile)
    {
      for i := 0 to MAX_PROFILES
        invariant detaching[..] == old(detaching[..])
        invariant forall k :: 0 <= k < i ==> detaching[k] != profile
      {
        if detaching[i] != profile {
          continue;
        }
        FirstAt(detaching[..], profile, i);
        detaching[i] := "";
        assert detaching[..] == old(detaching[..])[i := ""];
        return;
      }
      assert profile !in detaching[..];
    }

    /** The end of a detach that unmounted everything. */
    method ForgetAttached(profile: string)
      requires Valid()
      modifies attached
      ensures attached[..] == Removed(old(attached[..]), profile)
    {
      for i := 0 to MAX_PROFILES
        invariant attached[..] == old(attached[..])
        invariant forall k :: 0 <= k < i ==> attached[k] != profile
      {
        if attached[i] == profile {
          FirstAt(attached[..], profile, i);
          attached[i] := "";
          assert attached[..] == old(attached[..])[i := ""];
          return;
        }
      }
      assert profile !in attached[..];
    }

    /** Takes one profile's filesystems down, going on past a point that will not go:
        one mount off each point that has any and is not held, and nothing else. It
        answers 0 exactly when none of them was held. */
    method UnmountProfile(profile: string, busy: Mount -> bool) returns (err: int)
      requires Valid()
      modifies this`depths
      ensures err == if exists m: Mount :: m.profile == profile && Held(old(depths), m, busy) then EBUSY else 0
      ensures forall m: Mount ::
                Depth(depths, m) == if m.profile == profile then DepthAfter(old(depths), m, busy) else Depth(old(depths), m)
    {
      err := 0;
      for i := 0 to 3
        invariant err == if exists m: Mount :: m.profile == profile && Order(m.point) < i && Held(old(depths), m, busy) then EBUSY else 0
        invariant forall m: Mount ::
                    Depth(depths, m) == if m.profile == profile && Order(m.point) < i then DepthAfter(old(depths), m, busy) else Depth(old(depths), m)
      {
        var m := Mount(profile, PointAt(i));
        assert Order(m.point) == i;
        assert forall p: Point :: Order(p) == i <==> p == m.point;
        var one := UnmountCode(depths, m, busy(m));
        depths := Unmounted(depths, m, busy(m));
        if one < 0 && one != EINVAL {
          assert Held(old(depths), m, busy);
          if err == 0 {
            err := one;
          }
        }
      }
    }

    /** The reservation at the start of an open. */
    method ReserveSession(profile: string) returns (r: int)
      requires Valid()
      modifies sessions
      ensures r == if profile in detaching[..] then EBUSY
                   else if FreeSession(old(sessions[..])) == MAX_SESSIONS then EMFILE
                   else FreeSession(old(sessions[..]))
      ensures sessions[..] == if r >= 0 then old(sessions[..])[r := Session(true, 0, profile)] else old(sessions[..])
    {
      var blocked := IsDetaching(profile);
      if blocked {
        return EBUSY;
      }
      for i := 0 to MAX_SESSIONS
        invariant sessions[..] == old(sessions[..])
        invariant forall k :: 0 <= k < i ==> sessions[k].used
      {
        if !sessions[i].used {
          sessions[i] := Session(true, 0, profile);
          assert sessions[..] == old(sessions[..])[i := Session(true, 0, profile)];
          assert FreeSession(old(sessions[..])) == i;
          return i;
        }
      }
      r := EMFILE;
    }

    /** Ends one session, if it is this profile's or no profile is given, and answers the
        pid it had. */
    method CloseSession(i: nat, profile: Option<string>) returns (pid: nat)
      requires Valid() && i < MAX_SESSIONS
      modifies sessions
      ensures sessions[..] == SessionClosed(old(sessions[..]), i, profile)
      ensures pid == if Ends(old(sessions[..]), i, profile) then old(sessions[i]).pid else 0
    {
      var mine := sessions[i].used && (profile.None? || sessions[i].profile == profile.value);
      pid := if mine then sessions[i].pid else 0;
      if mine {
        sessions[i] := sessions[i].(used := false);
        assert sessions[..] == SessionClosed(old(sessions[..]), i, profile);
      }
    }

    /** The scan before a detach. */
    method AnyBare(profile: string) returns (r: bool)
      requires Valid()
      ensures r <==> HasBare(sessions[..], profile)
    {
      for i := 0 to MAX_SESSIONS
        invariant forall k :: 0 <= k < i ==> !(sessions[k].used && sessions[k].pid == 0 && sessions[k].profile == profile)
      {
        if sessions[i].used && sessions[i].pid == 0 && sessions[i].profile == profile {
          assert sessions[..][i] == sessions[i];
          return true;
        }
      }
      r := false;
    }
  }

  lemma FirstAt(table: seq<string>, name: string, i: nat)
    requires i < |table| && table[i] == name
    requires forall k :: 0 <= k < i ==> table[k] != name
    ensures IndexOf(table, name) == i
  {
  }
}
