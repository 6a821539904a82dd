/** Keeping the database under its size cap by dropping the oldest rows. */
module SizeCap {
  const MIN_AUDIT_ROWS := 100
  const U64_MAX := 0xFFFF_FFFF_FFFF_FFFF

  const SIZE_CAPPED_TABLES := [
    "system_metrics", "network_totals", "component_metrics", "rule_executions", "performance_metrics",
    "alerts", "enhanced_alerts", "config_audit_log", "access_log"]

  /** A table: the timestamp of each row id. */
  type Table = map<nat, int>

  type Database = map<string, Table>

  predicate Audit(name: string) {
    name == "config_audit_log" || name == "access_log"
  }

  function Floor(name: string): nat {
    if Audit(name) then MIN_AUDIT_ROWS else 0
  }

  /** How many rows one trim of a table of `count` deletes. */
  function TrimCount(count: nat, keep: nat): nat {
    var tenth := count / 10 + 1;
    var spare := if count > keep then count - keep else 0;
    if tenth < spare then tenth else spare
  }

  /** Some of a table's rows, every row dropped being at least as old as every row kept. */
  ghost predicate NewestOf(kept: Table, all: Table) {
    && (forall id :: id in kept ==> id in all && kept[id] == all[id])
    && (forall old_, new_ :: old_ in all && old_ !in kept && new_ in kept ==> all[old_] <= all[new_])
  }

  lemma NewestTransitive(a: Table, b: Table, c: Table)
    requires NewestOf(b, a) && NewestOf(c, b)
    ensures NewestOf(c, a)
  {
  }

  lemma SizeAfterRemove(t: Table, id: nat)
    requires id in t
    ensures |t - {id}| == |t| - 1
  {
    assert (t - {id}).Keys == t.Keys - {id};
  }

  lemma SubTableSize(kept: Table, all: Table)
    requires forall id :: id in kept ==> id in all && kept[id] == all[id]
    ensures |kept| <= |all|
    ensures |kept| == |all| ==> kept == all
    decreases |all|
  {
    if id :| id in all && id !in kept {
      SizeAfterRemove(all, id);
      SubTableSize(kept, all - {id});
    } else {
      assert kept.Keys == all.Keys;
      assert kept == all;
    }
  }

  /** Every table holds the newest of its rows, and no audit table has gone below its
      floor, or below what it started with. */
  ghost predicate Trimmed(now: Database, before: Database, names: seq<string>) {
    && now.Keys == before.Keys
    && (forall name :: name in now ==> NewestOf(now[name], before[name]))
    && (forall name :: name in now ==> |now[name]| >= if |before[name]| < Floor(name) then |before[name]| else Floor(name))
    && (forall name :: name in now && name !in names ==> now[name] == before[name])
  }

  function Rows(db: Database, names: seq<string>): nat {
    if names == [] then 0 else (if names[0] in db then |db[names[0]]| else 0) + Rows(db, names[1..])
  }

  lemma {:induction false} RowsElsewhere(a: Database, b: Database, names: seq<string>)
    requires forall n :: n in names ==> (n in a <==> n in b) && (n in a ==> a[n] == b[n])
    ensures Rows(a, names) == Rows(b, names)
  {
    if names != [] {
      assert names[0] in names;
      RowsElsewhere(a, b, names[1..]);
    }
  }

  /** Changing one table changes the total by as much. */
  lemma {:induction false} RowsUpdate(db: Database, names: seq<string>, name: string, t: Table)
    requires name in names && name in db
    requires forall i, j :: 0 <= i < j < |names| ==> names[i] != names[j]
    ensures Rows(db[name := t], names) == Rows(db, names) - |db[name]| + |t|
  {
    if names[0] == name {
      RowsElsewhere(db, db[name := t], names[1..]);
    } else {
      RowsUpdate(db, names[1..], name, t);
    }
  }

  lemma TablesDistinct()
    ensures forall i, j :: 0 <= i < j < |SIZE_CAPPED_TABLES| ==> SIZE_CAPPED_TABLES[i] != SIZE_CAPPED_TABLES[j]
  {
    assert |"system_metrics"| == 14 && |"network_totals"| == 14 && "system_metrics"[0] == 's' && "network_totals"[0] == 'n';
    assert |"component_metrics"| == 17 && |"rule_executions"| == 15 && |"performance_metrics"| == 19;
    assert |"alerts"| == 6 && |"enhanced_alerts"| == 15 && |"config_audit_log"| == 16 && |"access_log"| == 10;
    assert "rule_executions"[0] == 'r' && "enhanced_alerts"[0] == 'e';
  }

  /** The service, over a database whose live size is some function of its rows; nothing
      is assumed of that function, not even that fewer rows are smaller. */
  class Cleanup {
    const size: Database -> nat
    const maxDbSizeMb: nat
    var tables: Database

    constructor (size: Database -> nat, maxDbSizeMb: nat, tables: Database)
      ensures this.size == size && this.maxDbSizeMb == maxDbSizeMb && this.tables == tables
    {
      this.size, this.maxDbSizeMb, this.tables := size, maxDbSizeMb, tables;
    }

    /** The cap in bytes, 0 for none; a cap beyond 64 bits is the largest there is. */
    function MaxBytes(): (cap: nat)
      ensures cap == 0 <==> maxDbSizeMb == 0
      ensures cap <= 0xFFFF_FFFF_FFFF_FFFF && (cap < 0xFFFF_FFFF_FFFF_FFFF ==> cap == maxDbSizeMb * 1_048_576)
      ensures maxDbSizeMb * 1_048_576 <= 0xFFFF_FFFF_FFFF_FFFF ==> cap == maxDbSizeMb * 1_048_576
    {
      if maxDbSizeMb * 1024 * 1024 > U64_MAX then U64_MAX else maxDbSizeMb * 1024 * 1024
    }

    /** One trim: the oldest rows of one table, by timestamp. It takes a tenth of the table and
        one row more, unless that would go below the floor: then it takes what is above it. */
    method TrimOldest(name: string, keep: nat) returns (deleted: nat)
      requires name in tables
      modifies this
      ensures deleted <= |old(tables)[name]| / 10 + 1
      ensures |old(tables)[name]| - deleted >= if |old(tables)[name]| < keep then |old(tables)[name]| else keep
      ensures deleted < |old(tables)[name]| / 10 + 1 ==> |old(tables)[name]| <= keep + deleted
      ensures name in tables && tables == old(tables)[name := tables[name]]
      ensures NewestOf(tables[name], old(tables)[name])
      ensures |tables[name]| == |old(tables)[name]| - deleted
    {
      var t := tables[name];
      var n := TrimCount(|t|, keep);
      deleted := 0;
      while deleted < n
        invariant deleted <= n && |t| == |old(tables)[name]| - deleted && tables == old(tables)
        invariant NewestOf(t, old(tables)[name])
      {
        var oldest := OldestRow(t);
        SizeAfterRemove(t, oldest);
        t := t - {oldest};
        deleted := deleted + 1;
      }
      tables := tables[name := t];
    }

    /** A row no other is older than: what `ORDER BY timestamp` puts first. */
    method OldestRow(t: Table) returns (id: nat)
      requires t != map[]
      ensures id in t && forall other :: other in t ==> t[id] <= t[other]
    {
      id :| id in t;
      var rest := t.Keys - {id};
      while rest != {}
        invariant id in t && rest <= t.Keys
        invariant forall other :: other in t && other !in rest ==> t[id] <= t[other]
        decreases rest
      {
        var other :| other in rest;
        rest := rest - {other};
        if t[other] < t[id] {
          id := other;
        }
      }
    }

    /** One table's turn in a pass. */
    method TrimTable(names: seq<string>, i: nat) returns (n: nat)
      requires i < |names| && names[i] in tables
      requires forall i, j :: 0 <= i < j < |names| ==> names[i] != names[j]
      modifies this
      ensures Trimmed(tables, old(tables), names)
      ensures names[i] in tables && tables == old(tables)[names[i] := tables[names[i]]]
      ensures |tables[names[i]]| == |old(tables)[names[i]]| - n && n <= |old(tables)[names[i]]| / 10 + 1
      ensures n + Rows(tables, names) == Rows(old(tables), names)
      ensures n == 0 ==> tables == old(tables) && |tables[names[i]]| <= Floor(names[i])
    {
      var name := names[i];
      n := TrimOldest(name, Floor(name));
      RowsUpdate(old(tables), names, name, tables[name]);
      if n == 0 {
        SubTableSize(tables[name], old(tables)[name]);
        assert tables == old(tables);
      }
    }

    /** One pass over the tables, stopping as soon as the size is within the cap. `last` is
        the database before the last trim that deleted anything. */
    method TrimRound(names: seq<string>, maxBytes: nat) returns (deleted: nat, ghost last: Database)
      requires forall i :: 0 <= i < |names| ==> names[i] in tables
      requires forall i, j :: 0 <= i < j < |names| ==> names[i] != names[j]
      requires size(tables) > maxBytes
      modifies this
      ensures Trimmed(tables, old(tables), names)
      ensures deleted + Rows(tables, names) == Rows(old(tables), names)
      ensures deleted == 0 ==> tables == old(tables)
      ensures deleted == 0 ==> forall i :: 0 <= i < |names| ==> |tables[names[i]]| <= Floor(names[i])
      ensures deleted > 0 ==> LastTrim(last, tables, names, maxBytes)
    {
      deleted, last := 0, tables;
      TrimmedRefl(tables, names);
      for i := 0 to |names|
        invariant Trimmed(tables, old(tables), names)
        invariant deleted + Rows(tables, names) == Rows(old(tables), names)
        invariant deleted == 0 ==> tables == old(tables)
        invariant deleted == 0 ==> forall k :: 0 <= k < i ==> |tables[names[k]]| <= Floor(names[k])
        invariant deleted > 0 ==> LastTrim(last, tables, names, maxBytes)
        invariant size(tables) > maxBytes
      {
        ghost var before := tables;
        var n := TrimTable(names, i);
        TrimmedComposes(old(tables), before, tables, names);
        if n > 0 {
          last := before;
          assert TrimOf(last, tables, names[i]);
        }
        deleted := deleted + n;
        if size(tables) <= maxBytes {
          break;
        }
      }
    }

    /** `now` is `last` with one table trimmed by at most a tenth and one row, and `last` was
        over the cap. */
    ghost predicate LastTrim(last: Database, now: Database, names: seq<string>, maxBytes: nat) {
      && size(last) > maxBytes
      && exists i :: 0 <= i < |names| && TrimOf(last, now, names[i])
    }

    ghost predicate TrimOf(last: Database, now: Database, name: string) {
      && name in last && name in now && now == last[name := now[name]]
      && |now[name]| < |last[name]| <= |now[name]| + |last[name]| / 10 + 1
    }

    /** Trims until the size is within the cap or nothing is left to trim. It ends for
        every database. What it returns is what it removed, what is left is the newest of
        each table, and it goes no further than it must: before the last trim that deleted
        anything, which took at most a tenth of one table and one row, the size was over the
        cap. The two audit tables keep their last 100 rows, or as many as they had. */
    method EnforceDbSizeLimit() returns (total: nat, ghost last: Database)
      requires forall i :: 0 <= i < |SIZE_CAPPED_TABLES| ==> SIZE_CAPPED_TABLES[i] in tables
      modifies this
      ensures Trimmed(tables, old(tables), SIZE_CAPPED_TABLES)
      ensures total + Rows(tables, SIZE_CAPPED_TABLES) == Rows(old(tables), SIZE_CAPPED_TABLES)
      ensures MaxBytes() == 0 || size(old(tables)) <= MaxBytes() ==> total == 0 && tables == old(tables)
      ensures MaxBytes() > 0 && size(tables) > MaxBytes() ==>
                forall i :: 0 <= i < |SIZE_CAPPED_TABLES| ==>
                  |tables[SIZE_CAPPED_TABLES[i]]| <= if Audit(SIZE_CAPPED_TABLES[i]) then 100 else 0
      ensures forall name :: name in tables && Audit(name) ==>
                |tables[name]| >= if |old(tables)[name]| < 100 then |old(tables)[name]| else 100
      ensures total > 0 ==> LastTrim(last, tables, SIZE_CAPPED_TABLES, MaxBytes())
    {
      total, last := 0, tables;
      var names := SIZE_CAPPED_TABLES;
      TablesDistinct();
      TrimmedRefl(tables, names);
      var maxBytes := MaxBytes();
      if maxBytes == 0 {
        return;
      }
      while true
        invariant Trimmed(tables, old(tables), names)
        invariant total + Rows(tables, names) == Rows(old(tables), names)
        invariant size(old(tables)) <= maxBytes ==> tables == old(tables) && total == 0
        invariant total > 0 ==> LastTrim(last, tables, names, maxBytes)
        decreases Rows(tables, names)
      {
        if size(tables) <= maxBytes {
          break;
        }
        ghost var before := tables;
        ghost var mark;
        var deletedRound;
        deletedRound, mark := TrimRound(names, maxBytes);
        TrimmedComposes(old(tables), before, tables, names);
        total := total + deletedRound;
        if deletedRound == 0 {
          break;
        }
        last := mark;
      }
    }
  }

  lemma TrimmedRefl(db: Database, names: seq<string>)
    ensures Trimmed(db, db, names)
  {
  }

  lemma TrimmedComposes(a: Database, b: Database, c: Database, names: seq<string>)
    requires Trimmed(b, a, names) && Trimmed(c, b, names)
    ensures Trimmed(c, a, names)
  {
    forall name | name in c
      ensures NewestOf(c[name], a[name])
    {
      NewestTransitive(a[name], b[name], c[name]);
    }
  }
}
