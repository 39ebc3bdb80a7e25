/**
 * AppHistoryDbHelper: the object that owns the AppHistoryEntries table and
 * changes it in place. The time of a call is its `now` parameter, and
 * Math.exp its `exp` parameter.
 */
module AppHistoryDb {
  import opened Wrappers
  import opened AppHistoryEntries
  import opened DecayEngine

  class AppHistoryDbHelper {
    /** The rows of the table. */
    var rows: seq<Entry>
    /** The id the next inserted row receives. */
    var nextId: int

    ghost function State(): Table
      reads this
    {
      Table(rows, nextId)
    }

    ghost predicate Valid()
      reads this
    {
      WellFormed(State())
    }

    /** The first creation of the database (onCreate): an empty table; AUTOINCREMENT ids start at 1. */
    constructor ()
      ensures Valid()
      ensures rows == [] && nextId == 1
    {
      rows := [];
      nextId := 1;
    }

    /** Opening the database file over the rows and id counter earlier runs saved. */
    constructor Open(t: Table)
      requires WellFormed(t)
      ensures Valid()
      ensures State() == t
    {
      rows := t.rows;
      nextId := t.nextId;
    }

    /** insertNewAppHistoryEntry: append the row of a first usage; its only caller checked the pair is absent. */
    method InsertNewAppHistoryEntry(packageName: string, process: string, now: int)
      requires Valid()
      requires FindByPackageAndProcess(rows, packageName, process).None?
      modifies this
      ensures Valid()
      ensures rows == old(rows) + [NewEntry(old(nextId), packageName, process, now)]
      ensures nextId == old(nextId) + 1
    {
      RecordUsageWellFormed(State(), packageName, process, now);
      rows := rows + [NewEntry(nextId, packageName, process, now)];
      nextId := nextId + 1;
    }

    /**
     * incrementAndUpdate: look the pair up, insert a fresh row when it is
     * absent, otherwise bump the existing row.
     */
    method IncrementAndUpdate(packageName: string, process: string, now: int)
      requires Valid()
      modifies this
      ensures Valid()
      ensures State() == RecordUsage(old(State()), packageName, process, now)
      ensures |rows| == |old(rows)| + (if old(FindByPackageAndProcess(rows, packageName, process)).None? then 1 else 0)
      ensures forall k :: 0 <= k < |old(rows)| ==> old(rows)[k].count <= rows[k].count
    {
      RecordUsageCountMonotone(State(), packageName, process, now);
      var existingEntry := FindByPackageAndProcess(rows, packageName, process);
      if existingEntry.None? {
        InsertNewAppHistoryEntry(packageName, process, now);
        return;
      }
      RecordUsageWellFormed(State(), packageName, process, now);
      rows := IncrementWhere(rows, packageName, process, now);
    }

    /** setInstalled: set the installed flag of the row with that id; an unknown id changes nothing. */
    method SetInstalled(id: int, flag: bool)
      requires Valid()
      modifies this
      ensures Valid()
      ensures rows == SetInstalledWhere(old(rows), id, flag)
      ensures nextId == old(nextId)
    {
      SetInstalledWellFormed(State(), id, flag);
      rows := SetInstalledWhere(rows, id, flag);
    }

    /** findAllAppHistoryEntries: every row, in whatever order the unordered scan yields (here, table order). */
    method FindAllAppHistoryEntries() returns (all: seq<Entry>)
      ensures multiset(all) == multiset(rows)
    {
      all := [];
      var i := 0;
      while i < |rows|
        invariant 0 <= i <= |rows|
        invariant all == rows[..i]
      {
        all := all + [rows[i]];
        i := i + 1;
      }
      assert rows[..i] == rows;
    }

    /**
     * updateAllDecayScores: snapshot the table, then inside one transaction
     * fade every row's score to `now`. The writes go to the transaction's
     * buffer `tx`, which replaces the table only when every update succeeded.
     * `failAt` is the position in the snapshot at which the storage layer
     * fails, if it does; the transaction is then rolled back.
     */
    method UpdateAllDecayScores(now: int, exp: real -> real, failAt: Option<nat>) returns (committed: bool)
      requires Valid()
      requires forall x :: exp(x) > 0.0
      modifies this
      ensures Valid()
      ensures nextId == old(nextId)
      ensures committed <==> (failAt.None? || failAt.value >= |old(rows)|)
      ensures committed ==> rows == DecayAll(old(rows), now, exp)
      ensures !committed ==> rows == old(rows)
    {
      var entries := FindAllAppHistoryEntries();
      assert |entries| == |multiset(entries)| == |rows|;
      ghost var rows0 := rows;
      var tx := rows;
      var i := 0;
      while i < |entries|
        invariant 0 <= i <= |entries|
        invariant rows == rows0 && nextId == old(nextId)
        invariant failAt.Some? ==> failAt.value >= i
        invariant PartlyDecayed(tx, rows0, entries[..i], now, exp)
      {
        if failAt == Some(i) {
          committed := false;
          return;
        }
        assert entries[i] in rows0 by {
          assert multiset(entries)[entries[i]] > 0;
        }
        UpdateDecayScoreStep(tx, rows0, entries[..i], entries[i], now, exp);
        assert entries[..i + 1] == entries[..i] + [entries[i]];
        tx := UpdateDecayScore(tx, entries[i], now, exp);
        i := i + 1;
      }
      assert entries[..i] == entries;
      forall e | e in rows0 ensures e in entries[..i] {
        assert multiset(rows0)[e] > 0;
      }
      FullyDecayed(tx, rows0, entries[..i], now, exp);
      DecayAllWellFormed(State(), now, exp);
      rows := tx;
      committed := true;
    }
  }
}
