/** The login throttle: a table of counters, one for each address and one for each user
    name, that a password verification must pass before it is admitted. Times are
    nanoseconds of a monotonic clock. */
module LoginThrottle {
  import opened Wrappers

  const SECOND := 1_000_000_000
  const FREE_ATTEMPTS := 3
  const BASE_DELAY := SECOND
  const MAX_DELAY := 300 * SECOND
  const ENTRY_TTL := 3600 * SECOND
  const PRUNE_THRESHOLD := 1024
  const U32_MAX := 0xFFFF_FFFF

  type u32 = n: int | 0 <= n <= U32_MAX

  datatype Key = Ip(address: seq<byte>) | User(name: string)

  datatype Entry = Entry(failures: u32, inFlight: u32, lastSeen: nat)

  type Table = map<Key, Entry>

  function SatAdd(a: u32, b: u32): u32 {
    if a as int + b as int > U32_MAX then U32_MAX else a as int + b as int
  }

  function SatSub(a: u32, b: u32): u32 {
    if a < b then 0 else a - b
  }

  function Pow2(k: nat): nat {
    if k == 0 then 1 else 2 * Pow2(k - 1)
  }

  function Min(a: int, b: int): int {
    if a < b then a else b
  }

  /** The delay that a count of failures, resolved or presumed, calls for. */
  function Delay(count: nat): nat {
    if count <= FREE_ATTEMPTS then 0
    else Min(BASE_DELAY * Pow2(Min(count - FREE_ATTEMPTS - 1, 20)), MAX_DELAY)
  }

  function Penalty(e: Entry): nat {
    Delay(SatAdd(e.failures, e.inFlight))
  }

  /** `saturating_duration_since`. */
  function Since(now: nat, then_: nat): nat {
    if now < then_ then 0 else now - then_
  }

  /** What is left of an entry's penalty. */
  function Remaining(e: Entry, now: nat): nat {
    if Penalty(e) <= Since(now, e.lastSeen) then 0 else Penalty(e) - Since(now, e.lastSeen)
  }

  predicate Idle(e: Entry, now: nat) {
    e.inFlight == 0 && Since(now, e.lastSeen) >= ENTRY_TTL
  }

  /** The keys of an attempt: its address, if known, and its name in lower case. */
  function Keys(ip: Option<seq<byte>>, username: string, lower: string -> string): (keys: seq<Key>)
    ensures |keys| <= 2 && forall i, j :: 0 <= i < j < |keys| ==> keys[i] != keys[j]
    ensures forall a :: Ip(a) in keys <==> ip == Some(a)
    ensures forall name :: User(name) in keys <==> username != "" && name == lower(username)
  {
    (if ip.Some? then [Ip(ip.value)] else []) + (if username != "" then [User(lower(username))] else [])
  }

  // ---------- What the operations do to the table ----------

  function Prune(t: Table, now: nat): Table {
    if |t| > PRUNE_THRESHOLD then map k | k in t && !Idle(t[k], now) :: t[k] else t
  }

  /** The longest wait any of the keys still imposes; zero admits. */
  function Wait(t: Table, keys: seq<Key>, now: nat): nat {
    if keys == [] then 0
    else
      var rest := Wait(t, keys[1..], now);
      var mine := if keys[0] in t then Remaining(t[keys[0]], now) else 0;
      if mine > rest then mine else rest
  }

  function ReserveKey(t: Table, k: Key, now: nat): Table {
    var e := if k in t then t[k] else Entry(0, 0, now);
    var failures := if Idle(e, now) then 0 else e.failures;
    t[k := Entry(failures, SatAdd(e.inFlight, 1), now)]
  }

  function FailKey(t: Table, k: Key, now: nat): Table {
    var e := if k in t then t[k] else Entry(0, 0, now);
    t[k := Entry(SatAdd(e.failures, 1), SatSub(e.inFlight, 1), now)]
  }

  function ClearKey(t: Table, k: Key): Table {
    t - {k}
  }

  function ReleaseKey(t: Table, k: Key): Table {
    if k !in t then t
    else
      var e := t[k].(inFlight := SatSub(t[k].inFlight, 1));
      if e.failures == 0 && e.inFlight == 0 then t - {k} else t[k := e]
  }

  function ReserveAll(t: Table, keys: seq<Key>, now: nat): Table
    decreases |keys|
  {
    if keys == [] then t else ReserveAll(ReserveKey(t, keys[0], now), keys[1..], now)
  }

  function FailAll(t: Table, keys: seq<Key>, now: nat): Table
    decreases |keys|
  {
    if keys == [] then t else FailAll(FailKey(t, keys[0], now), keys[1..], now)
  }

  function ClearAll(t: Table, keys: seq<Key>): Table
    decreases |keys|
  {
    if keys == [] then t else ClearAll(ClearKey(t, keys[0]), keys[1..])
  }

  function ReleaseAll(t: Table, keys: seq<Key>): Table
    decreases |keys|
  {
    if keys == [] then t else ReleaseAll(ReleaseKey(t, keys[0]), keys[1..])
  }

  /** The table after a `begin`, with or without pruning first. */
  function BeginTable(t: Table, keys: seq<Key>, now: nat, prune: bool): Table {
    var start := if prune then Prune(t, now) else t;
    if Wait(start, keys, now) > 0 then start else ReserveAll(start, keys, now)
  }

  function BeginWait(t: Table, keys: seq<Key>, now: nat, prune: bool): nat {
    Wait(if prune then Prune(t, now) else t, keys, now)
  }

  class Throttle {
    var entries: Table

    constructor ()
      ensures entries == map[]
    {
      entries := map[];
    }

    /** Admits and reserves one verification, or says how long to wait. */
    method Begin(keys: seq<Key>, now: nat) returns (r: Result<seq<Key>, nat>)
      modifies this
      ensures entries == BeginTable(old(entries), keys, now, true)
      ensures r == var wait := BeginWait(old(entries), keys, now, true); if wait > 0 then Err(wait) else Ok(keys)
    {
      if |entries| > PRUNE_THRESHOLD {
        entries := map k | k in entries && (entries[k].inFlight > 0 || Since(now, entries[k].lastSeen) < ENTRY_TTL) :: entries[k];
      }
      assert entries == Prune(old(entries), now);
      ghost var start := entries;
      var wait := 0;
      for i := |keys| downto 0
        invariant entries == start && wait == Wait(start, keys[i..], now)
      {
        assert keys[i..][1..] == keys[i + 1..];
        if keys[i] in entries {
          var remaining := Remaining(entries[keys[i]], now);
          if remaining > wait {
            wait := remaining;
          }
        }
      }
      assert keys[0..] == keys;
      if wait > 0 {
        return Err(wait);
      }
      for i := 0 to |keys|
        invariant ReserveAll(entries, keys[i..], now) == ReserveAll(start, keys, now)
      {
        assert keys[i..][1..] == keys[i + 1..];
        var e := if keys[i] in entries then entries[keys[i]] else Entry(0, 0, now);
        if e.inFlight == 0 && Since(now, e.lastSeen) >= ENTRY_TTL {
          e := e.(failures := 0);
        }
        entries := entries[keys[i] := Entry(e.failures, SatAdd(e.inFlight, 1), now)];
      }
      r := Ok(keys);
    }

    method RecordFailure(keys: seq<Key>, now: nat)
      modifies this
      ensures entries == FailAll(old(entries), keys, now)
    {
      for i := 0 to |keys|
        invariant FailAll(entries, keys[i..], now) == FailAll(old(entries), keys, now)
      {
        assert keys[i..][1..] == keys[i + 1..];
        var e := if keys[i] in entries then entries[keys[i]] else Entry(0, 0, now);
        entries := entries[keys[i] := Entry(SatAdd(e.failures, 1), SatSub(e.inFlight, 1), now)];
      }
    }

    method RecordSuccess(keys: seq<Key>)
      modifies this
      ensures entries == ClearAll(old(entries), keys)
    {
      for i := 0 to |keys|
        invariant ClearAll(entries, keys[i..]) == ClearAll(old(entries), keys)
      {
        assert keys[i..][1..] == keys[i + 1..];
        entries := entries - {keys[i]};
      }
    }

    /** Also what dropping an unresolved attempt does. */
    method Cancel(keys: seq<Key>)
      modifies this
      ensures entries == ReleaseAll(old(entries), keys)
    {
      for i := 0 to |keys|
        invariant ReleaseAll(entries, keys[i..]) == ReleaseAll(old(entries), keys)
      {
        assert keys[i..][1..] == keys[i + 1..];
        if keys[i] in entries {
          var e := entries[keys[i]].(inFlight := SatSub(entries[keys[i]].inFlight, 1));
          if e.failures == 0 && e.inFlight == 0 {
            entries := entries - {keys[i]};
          } else {
            entries := entries[keys[i] := e];
          }
        }
      }
    }
  }

  // ---------- Key by key ----------

  predicate DistinctKeys(keys: seq<Key>) {
    forall i, j :: 0 <= i < j < |keys| ==> keys[i] != keys[j]
  }

  function At(t: Table, k: Key): Option<Entry> {
    if k in t then Some(t[k]) else None
  }

  /** A single-key operation leaves every other key as it was, so an operation on a list
      of distinct keys acts on each of them once and on nothing else. */
  lemma {:induction false} ReserveAllAt(t: Table, keys: seq<Key>, now: nat, k: Key)
    requires DistinctKeys(keys)
    ensures At(ReserveAll(t, keys, now), k) == if k in keys then At(ReserveKey(t, k, now), k) else At(t, k)
    decreases |keys|
  {
    if keys != [] {
      ReserveAllAt(ReserveKey(t, keys[0], now), keys[1..], now, k);
      assert keys[0] !in keys[1..];
    }
  }

  lemma {:induction false} FailAllAt(t: Table, keys: seq<Key>, now: nat, k: Key)
    requires DistinctKeys(keys)
    ensures At(FailAll(t, keys, now), k) == if k in keys then At(FailKey(t, k, now), k) else At(t, k)
    decreases |keys|
  {
    if keys != [] {
      FailAllAt(FailKey(t, keys[0], now), keys[1..], now, k);
      assert keys[0] !in keys[1..];
    }
  }

  lemma {:induction false} ClearAllAt(t: Table, keys: seq<Key>, k: Key)
    ensures At(ClearAll(t, keys), k) == if k in keys then None else At(t, k)
    decreases |keys|
  {
    if keys != [] {
      ClearAllAt(ClearKey(t, keys[0]), keys[1..], k);
    }
  }

  lemma {:induction false} ReleaseAllAt(t: Table, keys: seq<Key>, k: Key)
    requires DistinctKeys(keys)
    ensures At(ReleaseAll(t, keys), k) == if k in keys then At(ReleaseKey(t, k), k) else At(t, k)
    decreases |keys|
  {
    if keys != [] {
      ReleaseAllAt(ReleaseKey(t, keys[0]), keys[1..], k);
      assert keys[0] !in keys[1..];
    }
  }

  /** Admission is unanimous: no key may still impose a wait. */
  lemma {:induction false} AdmitsIff(t: Table, keys: seq<Key>, now: nat)
    ensures Wait(t, keys, now) == 0 <==> forall k :: k in keys && k in t ==> Remaining(t[k], now) == 0
  {
    if keys != [] {
      AdmitsIff(t, keys[1..], now);
      assert forall k :: k in keys <==> k == keys[0] || k in keys[1..];
    }
  }

  // ---------- Delays ----------

  lemma {:induction false} Pow2Grows(m: nat, n: nat)
    requires m <= n
    ensures 1 <= Pow2(m) <= Pow2(n)
  {
    if m < n {
      Pow2Grows(m, n - 1);
    } else if m > 0 {
      Pow2Grows(m - 1, m - 1);
    }
  }

  lemma DelayGrows(m: nat, n: nat)
    requires m <= n
    ensures Delay(m) <= Delay(n)
  {
    if m > FREE_ATTEMPTS {
      Pow2Grows(Min(m - FREE_ATTEMPTS - 1, 20), Min(n - FREE_ATTEMPTS - 1, 20));
    }
  }

  lemma DelayValues(n: nat)
    ensures n <= 3 ==> Delay(n) == 0
    ensures Delay(4) == 1 * SECOND && Delay(5) == 2 * SECOND && Delay(6) == 4 * SECOND
    ensures Delay(7) == 8 * SECOND && Delay(8) == 16 * SECOND && Delay(9) == 32 * SECOND
    ensures Delay(10) == 64 * SECOND && Delay(11) == 128 * SECOND && Delay(12) == 256 * SECOND
    ensures n >= 13 ==> Delay(n) == 300 * SECOND
  {
    assert Pow2(0) == 1 && Pow2(1) == 2 && Pow2(2) == 4 && Pow2(3) == 8 && Pow2(4) == 16;
    assert Pow2(5) == 32 && Pow2(6) == 64 && Pow2(7) == 128 && Pow2(8) == 256 && Pow2(9) == 512;
    if n >= 13 {
      Pow2Grows(9, Min(n - FREE_ATTEMPTS - 1, 20));
    }
  }
}
