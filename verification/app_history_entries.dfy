/**
 * The AppHistoryEntries table as a value: its rows, the id the next insert
 * receives, the invariants every row keeps, point lookup on the
 * (package, process) pair, and the effect of the two single-row updates
 * (a usage event and the installed flag).
 */
module AppHistoryEntries {
  import opened Wrappers

  /** One row of the table; `installed` is the 0/1 column read as a boolean. */
  datatype Entry = Entry(
    id: int,
    packageName: string,
    process: string,
    installed: bool,
    count: int,
    lastAccess: int,
    decayScore: real,
    lastUpdate: int)

  /**
   * The rows of the table, and the id AUTOINCREMENT hands to the next
   * inserted row (always larger than every id ever handed out).
   */
  datatype Table = Table(rows: seq<Entry>, nextId: int)

  predicate HasKey(e: Entry, packageName: string, process: string)
  {
    e.packageName == packageName && e.process == process
  }

  /** No two rows share a (package, process) pair. */
  ghost predicate UniqueKeys(rows: seq<Entry>)
  {
    forall i, j :: 0 <= i < |rows| && 0 <= j < |rows| && i != j ==>
      !HasKey(rows[j], rows[i].packageName, rows[i].process)
  }

  /** No two rows share an id. */
  ghost predicate UniqueIds(rows: seq<Entry>)
  {
    forall i, j :: 0 <= i < |rows| && 0 <= j < |rows| && i != j ==> rows[i].id != rows[j].id
  }

  /** The invariant of the table between any two operations. */
  ghost predicate WellFormed(t: Table)
  {
    && UniqueKeys(t.rows)
    && UniqueIds(t.rows)
    && forall e :: e in t.rows ==> e.id < t.nextId && e.count >= 1 && e.decayScore > 0.0
  }

  /** The rows a WHERE clause `keep` selects, each as often as it occurs in the table. */
  function Select(rows: seq<Entry>, keep: Entry -> bool): (r: seq<Entry>)
    ensures forall e :: e in r ==> keep(e)
    ensures forall e :: multiset(r)[e] == if keep(e) then multiset(rows)[e] else 0
  {
    if rows == [] then []
    else
      assert rows == [rows[0]] + rows[1..];
      (if keep(rows[0]) then [rows[0]] else []) + Select(rows[1..], keep)
  }

  /**
   * findByPackageAndProcess: the first row the query on the pair returns,
   * or None (the source's null) when there is none.
   */
  function FindByPackageAndProcess(rows: seq<Entry>, packageName: string, process: string): (r: Option<Entry>)
    ensures r.Some? ==> r.value in rows && HasKey(r.value, packageName, process)
    ensures r.None? <==> forall e :: e in rows ==> !HasKey(e, packageName, process)
  {
    var matches := Select(rows, e => HasKey(e, packageName, process));
    if matches == [] then
      assert forall e :: e in rows && HasKey(e, packageName, process) ==> multiset(matches)[e] > 0;
      None
    else
      assert matches[0] in matches && multiset(matches)[matches[0]] > 0;
      Some(matches[0])
  }

  /** When pairs are unique, the lookup finds exactly the row holding the pair. */
  lemma FindByPackageAndProcessUnique(rows: seq<Entry>, e: Entry)
    requires UniqueKeys(rows)
    requires e in rows
    ensures FindByPackageAndProcess(rows, e.packageName, e.process) == Some(e)
  {
    var r := FindByPackageAndProcess(rows, e.packageName, e.process);
    var i :| 0 <= i < |rows| && rows[i] == e;
    var j :| 0 <= j < |rows| && rows[j] == r.value;
    if i != j {
      assert !HasKey(rows[j], rows[i].packageName, rows[i].process);
    }
  }

  /** The row insertNewAppHistoryEntry writes for a first usage at time `now`. */
  function NewEntry(id: int, packageName: string, process: string, now: int): (e: Entry)
    ensures HasKey(e, packageName, process) && e.id == id
    ensures e.installed && e.count == 1 && e.decayScore == 1.0
    ensures e.lastAccess == now && e.lastUpdate == now
  {
    Entry(id, packageName, process, true, 1, now, 1.0, now)
  }

  /** A row after one more usage at time `now`. */
  function Bumped(e: Entry, now: int): Entry
  {
    e.(count := e.count + 1, lastAccess := now, decayScore := e.decayScore + 1.0, installed := true)
  }

  /** The UPDATE of incrementAndUpdate: every row WHERE package = ? AND process = ? is bumped. */
  function IncrementWhere(rows: seq<Entry>, packageName: string, process: string, now: int): (r: seq<Entry>)
    ensures |r| == |rows|
    ensures forall k :: 0 <= k < |r| ==>
      && r[k].id == rows[k].id
      && r[k].packageName == rows[k].packageName && r[k].process == rows[k].process
      && r[k].lastUpdate == rows[k].lastUpdate
      && (HasKey(rows[k], packageName, process) ==>
            && r[k].count == rows[k].count + 1 && r[k].decayScore == rows[k].decayScore + 1.0
            && r[k].lastAccess == now && r[k].installed)
      && (!HasKey(rows[k], packageName, process) ==> r[k] == rows[k])
  {
    seq(|rows|, k requires 0 <= k < |rows| =>
      if HasKey(rows[k], packageName, process) then Bumped(rows[k], now) else rows[k])
  }

  /** incrementAndUpdate: insert a fresh row for an unseen pair, otherwise update the existing one. */
  function RecordUsage(t: Table, packageName: string, process: string, now: int): (r: Table)
    ensures |t.rows| <= |r.rows| <= |t.rows| + 1
    ensures exists e :: e in r.rows && HasKey(e, packageName, process) && e.installed && e.lastAccess == now
  {
    match FindByPackageAndProcess(t.rows, packageName, process)
    case None =>
      var e := NewEntry(t.nextId, packageName, process, now);
      var r := Table(t.rows + [e], t.nextId + 1);
      assert r.rows[|t.rows|] == e;
      r
    case Some(found) =>
      var r := Table(IncrementWhere(t.rows, packageName, process, now), t.nextId);
      var k :| 0 <= k < |t.rows| && t.rows[k] == found;
      assert r.rows[k] in r.rows;
      r
  }

  /** A usage event for an unseen pair appends exactly one row and changes no other. */
  lemma RecordUsageInserts(t: Table, packageName: string, process: string, now: int)
    requires forall e :: e in t.rows ==> !HasKey(e, packageName, process)
    ensures var r := RecordUsage(t, packageName, process, now);
      && |r.rows| == |t.rows| + 1
      && r.rows[..|t.rows|] == t.rows
      && r.nextId == t.nextId + 1
      && var e := r.rows[|t.rows|];
      && e.id == t.nextId && e.packageName == packageName && e.process == process
      && e.installed && e.count == 1 && e.decayScore == 1.0
      && e.lastAccess == now && e.lastUpdate == now
  {
  }

  /**
   * A usage event for a pair held by row i adds no row: row i gets one more
   * use, the new access time and the installed flag, keeping its id and
   * lastUpdate, and every other row is unchanged.
   */
  lemma RecordUsageUpdates(t: Table, i: int, now: int)
    requires UniqueKeys(t.rows)
    requires 0 <= i < |t.rows|
    ensures var before := t.rows[i];
      var r := RecordUsage(t, before.packageName, before.process, now);
      && |r.rows| == |t.rows|
      && r.nextId == t.nextId
      && r.rows[i].id == before.id
      && r.rows[i].packageName == before.packageName && r.rows[i].process == before.process
      && r.rows[i].count == before.count + 1
      && r.rows[i].decayScore == before.decayScore + 1.0
      && r.rows[i].lastAccess == now
      && r.rows[i].installed
      && r.rows[i].lastUpdate == before.lastUpdate
      && forall k :: 0 <= k < |t.rows| && k != i ==> r.rows[k] == t.rows[k]
  {
    var e := t.rows[i];
    FindByPackageAndProcessUnique(t.rows, e);
    forall k | 0 <= k < |t.rows| && k != i
      ensures !HasKey(t.rows[k], e.packageName, e.process)
    {
      assert !HasKey(t.rows[k], t.rows[i].packageName, t.rows[i].process);
    }
  }

  /** Two usage events for one pair on an empty table: one row, used twice, last used at the second time. */
  lemma RecordUsageTwice(packageName: string, process: string, t0: int, t1: int)
    ensures var r := RecordUsage(RecordUsage(Table([], 1), packageName, process, t0), packageName, process, t1);
      && |r.rows| == 1
      && r.rows[0].count == 2 && r.rows[0].decayScore == 2.0
      && r.rows[0].lastAccess == t1 && r.rows[0].lastUpdate == t0
      && r.rows[0].installed
  {
    var first := RecordUsage(Table([], 1), packageName, process, t0);
    RecordUsageInserts(Table([], 1), packageName, process, t0);
    RecordUsageUpdates(first, 0, t1);
  }

  /** Usage events keep every row in place and never lower a count; counts rise by at most one. */
  lemma RecordUsageCountMonotone(t: Table, packageName: string, process: string, now: int)
    ensures var r := RecordUsage(t, packageName, process, now);
      && |r.rows| >= |t.rows|
      && forall k :: 0 <= k < |t.rows| ==>
           && r.rows[k].id == t.rows[k].id
           && t.rows[k].count <= r.rows[k].count <= t.rows[k].count + 1
  {
  }

  /** Appending the row of an unseen pair with the next id keeps the invariant. */
  lemma InsertWellFormed(t: Table, packageName: string, process: string, now: int)
    requires WellFormed(t)
    requires forall e :: e in t.rows ==> !HasKey(e, packageName, process)
    ensures WellFormed(Table(t.rows + [NewEntry(t.nextId, packageName, process, now)], t.nextId + 1))
  {
    var rows := t.rows + [NewEntry(t.nextId, packageName, process, now)];
    forall i, j | 0 <= i < |rows| && 0 <= j < |rows| && i != j
      ensures !HasKey(rows[j], rows[i].packageName, rows[i].process)
      ensures rows[i].id != rows[j].id
    {
      if i < |t.rows| && j < |t.rows| {
        assert rows[i] == t.rows[i] && rows[j] == t.rows[j];
      } else if i < |t.rows| {
        assert rows[i] in t.rows;
      } else {
        assert rows[j] in t.rows;
      }
    }
  }

  /** Bumping the rows of a pair keeps the invariant. */
  lemma IncrementWellFormed(t: Table, packageName: string, process: string, now: int)
    requires WellFormed(t)
    ensures WellFormed(Table(IncrementWhere(t.rows, packageName, process, now), t.nextId))
  {
    var rows := IncrementWhere(t.rows, packageName, process, now);
    forall i, j | 0 <= i < |rows| && 0 <= j < |rows| && i != j
      ensures !HasKey(rows[j], rows[i].packageName, rows[i].process)
      ensures rows[i].id != rows[j].id
    {
      assert !HasKey(t.rows[j], t.rows[i].packageName, t.rows[i].process);
    }
    forall e | e in rows
      ensures e.id < t.nextId && e.count >= 1 && e.decayScore > 0.0
    {
      var k :| 0 <= k < |rows| && rows[k] == e;
      assert t.rows[k] in t.rows;
    }
  }

  /** Lookup before insert keeps pairs and ids unique, counts at least 1 and scores positive. */
  lemma RecordUsageWellFormed(t: Table, packageName: string, process: string, now: int)
    requires WellFormed(t)
    ensures WellFormed(RecordUsage(t, packageName, process, now))
  {
    match FindByPackageAndProcess(t.rows, packageName, process)
    case None => InsertWellFormed(t, packageName, process, now);
    case Some(_) => IncrementWellFormed(t, packageName, process, now);
  }

  /** The UPDATE of setInstalled: every row WHERE _id = id gets the flag. */
  function SetInstalledWhere(rows: seq<Entry>, id: int, flag: bool): (r: seq<Entry>)
    ensures |r| == |rows|
    ensures forall k :: 0 <= k < |r| ==>
      && r[k].(installed := rows[k].installed) == rows[k]
      && r[k].installed == (if rows[k].id == id then flag else rows[k].installed)
  {
    seq(|rows|, k requires 0 <= k < |rows| =>
      if rows[k].id == id then rows[k].(installed := flag) else rows[k])
  }

  /** setInstalled changes the installed flag of the row with that id and nothing else. */
  lemma SetInstalledOnlyFlag(rows: seq<Entry>, i: int, flag: bool)
    requires UniqueIds(rows)
    requires 0 <= i < |rows|
    ensures SetInstalledWhere(rows, rows[i].id, flag) == rows[i := rows[i].(installed := flag)]
  {
    var r := SetInstalledWhere(rows, rows[i].id, flag);
    forall k | 0 <= k < |rows| && k != i
      ensures r[k] == rows[k]
    {
      assert rows[k].id != rows[i].id;
    }
  }

  /** setInstalled on an id no row has leaves the table as it was. */
  lemma SetInstalledMissingId(rows: seq<Entry>, id: int, flag: bool)
    requires forall e :: e in rows ==> e.id != id
    ensures SetInstalledWhere(rows, id, flag) == rows
  {
    var r := SetInstalledWhere(rows, id, flag);
    forall k | 0 <= k < |rows|
      ensures r[k] == rows[k]
    {
      assert rows[k] in rows;
    }
  }

  /** Flipping the installed flag keeps the table's invariant. */
  lemma SetInstalledWellFormed(t: Table, id: int, flag: bool)
    requires WellFormed(t)
    ensures WellFormed(Table(SetInstalledWhere(t.rows, id, flag), t.nextId))
  {
    var r := SetInstalledWhere(t.rows, id, flag);
    forall i, j | 0 <= i < |r| && 0 <= j < |r| && i != j
      ensures !HasKey(r[j], r[i].packageName, r[i].process)
      ensures r[i].id != r[j].id
    {
      assert !HasKey(t.rows[j], t.rows[i].packageName, t.rows[i].process);
    }
    forall e | e in r
      ensures e.id < t.nextId && e.count >= 1 && e.decayScore > 0.0
    {
      var k :| 0 <= k < |r| && r[k] == e;
      assert t.rows[k] in t.rows;
    }
  }
}
