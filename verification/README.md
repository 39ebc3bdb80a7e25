# AppTracker usage history, modelled in Dafny

AppTracker keeps one row per (package, process) pair of an Android
application in a table named AppHistoryEntries. Each row holds an id, the
package and process names, an installed flag, a usage count, the time of
the last access, a decay score and the time that score was last
recomputed. `AppHistoryDbHelper` runs five operations on that table:

- recording a usage: look the pair up, insert a fresh row or bump the one found;
- point lookup by pair, and setting the installed flag by id;
- the ranked listing: installed rows whose package is not on a fixed ignore list,
  ordered descending by last access, count or decay score, and cut to one LIMIT/OFFSET page;
- the bulk decay pass: inside one transaction, every row's score is multiplied by
  `exp((now - lastUpdate) / -DECAY_CONST)` and its lastUpdate is set to `now`.

The model replaces the SQLite table with a class `AppHistoryDb.AppHistoryDbHelper`
whose fields are the rows (`seq<Entry>`) and the next AUTOINCREMENT id. The
queries are functions over the rows. The clock is a `now` parameter and
`Math.exp` is an `exp: real -> real` parameter.

Modules:
- `Wrappers`: `Option`, standing for a result that may be null.
- `AppHistoryEntries`: the row and table values; the invariant (unique pairs,
  unique ids, count at least 1, positive score); lookup; and the effects of a
  usage event and of the installed flag update.
- `RankedListing`: the ignore list, the sort keys, sorting, SQLite's LIMIT/OFFSET
  and the listing.
- `DecayEngine`: the decay formula, the full recomputation and the per-row
  update the bulk pass issues.
- `AppHistoryDb`: the class and its methods that change the table.

Two behaviours of the code are kept as written:
- The code never rejects a duplicate insert: the table has no uniqueness
  constraint. Uniqueness comes only from the lookup done before the insert.
  `InsertNewAppHistoryEntry` therefore requires the pair to be absent, which
  its only caller has checked.
- `setInstalled` on an id that no row has is not a fault in the code: the
  UPDATE matches no row and nothing changes (`SetInstalledMissingId`).

## Model

| member | source | states |
|---|---|---|
| AppHistoryEntries.Select | src/com/nolanlawson/apptracker/db/AppHistoryDbHelper.java:182-191 | a WHERE clause keeps exactly the rows satisfying it, each as often as it occurs in the table |
| AppHistoryEntries.FindByPackageAndProcess | src/com/nolanlawson/apptracker/db/AppHistoryDbHelper.java:178-198 | the result is a row of the table holding the pair, and it is None exactly when no row holds the pair |
| AppHistoryEntries.FindByPackageAndProcessUnique | src/com/nolanlawson/apptracker/db/AppHistoryDbHelper.java:145-152 | with unique pairs, the lookup returns the one row holding the pair |
| AppHistoryEntries.NewEntry | src/com/nolanlawson/apptracker/db/AppHistoryDbHelper.java:278-290 | the inserted row holds the pair and the given id, is installed, has count 1, score 1, and lastAccess = lastUpdate = now |
| AppHistoryEntries.IncrementWhere | src/com/nolanlawson/apptracker/db/AppHistoryDbHelper.java:156-174 | the UPDATE keeps every row's id, pair and lastUpdate and the number of rows; a row holding the pair gets count+1, score+1, lastAccess = now and installed; every other row is unchanged |
| AppHistoryEntries.RecordUsage | src/com/nolanlawson/apptracker/db/AppHistoryDbHelper.java:141-176 | after a usage the table has the same or one more row, and some row holds the pair, installed, last accessed now |
| AppHistoryEntries.RecordUsageInserts | src/com/nolanlawson/apptracker/db/AppHistoryDbHelper.java:278-290 | a usage of an unseen pair appends exactly one row (id = next id, installed, count 1, score 1, lastAccess = lastUpdate = now), keeps all other rows and advances the next id |
| AppHistoryEntries.RecordUsageUpdates | src/com/nolanlawson/apptracker/db/AppHistoryDbHelper.java:154-174 | a usage of a known pair adds no row; that row gets count+1, score+1, lastAccess = now and installed, keeps its id, pair and lastUpdate; every other row is unchanged |
| AppHistoryEntries.RecordUsageTwice | src/com/nolanlawson/apptracker/db/AppHistoryDbHelper.java:141-176 | two usages of one pair on an empty table leave one row with count 2, score 2, lastAccess the second time |
| AppHistoryEntries.RecordUsageCountMonotone | src/com/nolanlawson/apptracker/db/AppHistoryDbHelper.java:156-162 | a usage keeps every row's id and position and never lowers a count; each count rises by at most one |
| AppHistoryEntries.RecordUsageWellFormed | src/com/nolanlawson/apptracker/db/AppHistoryDbHelper.java:141-176 | lookup-before-insert keeps pairs and ids unique, counts at least 1 and scores positive |
| AppHistoryEntries.InsertWellFormed | src/com/nolanlawson/apptracker/db/AppHistoryDbHelper.java:145-152 | appending the row of an unseen pair with the next id keeps the invariant |
| AppHistoryEntries.IncrementWellFormed | src/com/nolanlawson/apptracker/db/AppHistoryDbHelper.java:154-174 | the usage UPDATE keeps the invariant |
| AppHistoryEntries.SetInstalledWhere | src/com/nolanlawson/apptracker/db/AppHistoryDbHelper.java:200-210 | the flag UPDATE keeps the number of rows and every field but installed; installed becomes the flag exactly on rows with that id |
| AppHistoryEntries.SetInstalledOnlyFlag | src/com/nolanlawson/apptracker/db/AppHistoryDbHelper.java:200-210 | with unique ids, setting the flag of id changes only the installed field of that row |
| AppHistoryEntries.SetInstalledMissingId | src/com/nolanlawson/apptracker/db/AppHistoryDbHelper.java:206-208 | setting the flag of an id no row has leaves the table unchanged |
| AppHistoryEntries.SetInstalledWellFormed | src/com/nolanlawson/apptracker/db/AppHistoryDbHelper.java:200-210 | setting the flag keeps the table invariant |
| RankedListing.SortKey | src/com/nolanlawson/apptracker/db/AppHistoryDbHelper.java:224-234 | definition: the ordering column of createOrderByClause's switch (lastAccess, count or decayScore); the order it puts on the listing is stated by ListingFollowsOrderBy |
| RankedListing.Listable | src/com/nolanlawson/apptracker/db/AppHistoryDbHelper.java:95-96 | definition: the WHERE clause of the listing (installed, package not on the ignore list); what it admits is stated by FindInstalledAppHistoryEntries and ListingComplete |
| RankedListing.Sort | src/com/nolanlawson/apptracker/db/AppHistoryDbHelper.java:222-236 | the ORDER BY ... desc yields a permutation of its input that is non-increasing in the chosen key |
| RankedListing.Window | src/com/nolanlawson/apptracker/db/AppHistoryDbHelper.java:98 | LIMIT/OFFSET as SQLite reads them: at most limit rows (no bound when negative), starting at the offset (0 when negative), consecutive rows of the input |
| RankedListing.WindowsTile | src/com/nolanlawson/apptracker/db/AppHistoryDbHelper.java:98 | consecutive pages concatenate to the page covering both |
| RankedListing.FindInstalledAppHistoryEntries | src/com/nolanlawson/apptracker/db/AppHistoryDbHelper.java:87-108 | every listed row is an installed row of the table outside the ignore list; at most limit rows; adjacent rows non-increasing in the key; the result is the LIMIT/OFFSET page of some descending ranking of all listable rows |
| RankedListing.ListingFollowsOrderBy | src/com/nolanlawson/apptracker/db/AppHistoryDbHelper.java:222-236 | adjacent listed rows are non-increasing in lastAccess for Recent, count for MostUsed, decayScore for TimeDecay |
| RankedListing.ListingComplete | src/com/nolanlawson/apptracker/db/AppHistoryDbHelper.java:93-98 | with no limit and no offset, every installed, non-ignored row is listed |
| DecayEngine.DecayPositive | src/com/nolanlawson/apptracker/db/AppHistoryDbHelper.java:263 | a positive score stays positive after any elapsed time, given exp is positive |
| DecayEngine.DecayComposes | src/com/nolanlawson/apptracker/db/AppHistoryDbHelper.java:263 | given exp(a+b) = exp(a)·exp(b), fading t0→t1 then t1→t2 equals fading t0→t2 |
| DecayEngine.DecayAllStampsEveryRow | src/com/nolanlawson/apptracker/db/AppHistoryDbHelper.java:253-276 | a full recomputation sets every lastUpdate to now and every score to its faded value, and leaves all other fields alone |
| DecayEngine.DecayAllWellFormed | src/com/nolanlawson/apptracker/db/AppHistoryDbHelper.java:114-134 | a full recomputation keeps the table invariant, including positive scores |
| DecayEngine.DecayAllTwice | src/com/nolanlawson/apptracker/db/AppHistoryDbHelper.java:114-134 | two passes at t1 then t2 leave the same table as one pass at t2 |
| DecayEngine.UpdateDecayScoreStep | src/com/nolanlawson/apptracker/db/AppHistoryDbHelper.java:253-276 | an update by the id of a snapshot row fades that row and touches no other row |
| DecayEngine.FullyDecayed | src/com/nolanlawson/apptracker/db/AppHistoryDbHelper.java:125-128 | once every snapshot row has been updated, the buffer equals the full recomputation |
| DecayEngine.Decay | src/com/nolanlawson/apptracker/db/AppHistoryDbHelper.java:263 | a decayed score is positive exactly when the old one is, whenever the exponential factor is positive |
| DecayEngine.DecayAll | src/com/nolanlawson/apptracker/db/AppHistoryDbHelper.java:114-134 | a full recomputation keeps the number of rows and every id, and stamps every row with lastUpdate = now |
| DecayEngine.UpdateDecayScore | src/com/nolanlawson/apptracker/db/AppHistoryDbHelper.java:253-276 | the update by a snapshot's id keeps the number of rows and every id; the matching row gets the score faded from the snapshot's own score and lastUpdate, and lastUpdate = now, with every other field kept; other rows are unchanged |
| AppHistoryDb.AppHistoryDbHelper.constructor | src/com/nolanlawson/apptracker/db/AppHistoryDbHelper.java:61-77 | the first creation of the database file leaves an empty table whose first id is 1, satisfying the invariant |
| AppHistoryDb.AppHistoryDbHelper.Open | src/com/nolanlawson/apptracker/db/AppHistoryDbHelper.java:55-57 | opening the database over a saved table that satisfies the invariant gives a helper holding exactly that table |
| AppHistoryDb.AppHistoryDbHelper.InsertNewAppHistoryEntry | src/com/nolanlawson/apptracker/db/AppHistoryDbHelper.java:278-290 | appends the first-usage row with the next id and keeps the invariant |
| AppHistoryDb.AppHistoryDbHelper.IncrementAndUpdate | src/com/nolanlawson/apptracker/db/AppHistoryDbHelper.java:141-176 | the new table is RecordUsage of the old one; it keeps the invariant; it grows by one row exactly when the pair was absent; no count decreases |
| AppHistoryDb.AppHistoryDbHelper.SetInstalled | src/com/nolanlawson/apptracker/db/AppHistoryDbHelper.java:200-210 | the new rows are the old ones with the flag set where the id matches; the next id is unchanged; the invariant is kept |
| AppHistoryDb.AppHistoryDbHelper.FindAllAppHistoryEntries | src/com/nolanlawson/apptracker/db/AppHistoryDbHelper.java:211-221 | returns every row of the table exactly as often as it occurs, in some order |
| AppHistoryDb.AppHistoryDbHelper.UpdateAllDecayScores | src/com/nolanlawson/apptracker/db/AppHistoryDbHelper.java:114-134 | commits exactly when no row update fails; a commit leaves DecayAll of the old table; a failure leaves the table unchanged; the invariant is kept |

## Left out

- Database lifecycle: the schema DDL in `onCreate`, the empty `onUpgrade` and the Context. The table is a field of the class. The class stands for the database file over its whole life: the unnamed constructor is its first creation, and `Open` is any later open over the rows saved before.
- SQL text: the statements, the quoted ignore list and the bound arguments. The model has the effect of each statement, not its text.
- Cursor decoding in `fromCursor`: reading the columns of each row. A cursor row is an `Entry`.
- `Math.exp` and double arithmetic: the exponential is the `exp` parameter, and scores are exact reals. Neither rounding nor a double underflowing to 0.0 is modelled. Positivity of `exp` is a requirement of the decay pass.
- `System.currentTimeMillis()`: the time is the `now` parameter. So the invariant that lastUpdate never exceeds the current time is not modelled, and nothing requires time to move forward.
- Logging through `UtilLogger`.
- The transaction primitive itself: only its all-or-nothing effect is modelled. Writes go to a buffer that replaces the table on commit. A storage failure is the `failAt` parameter. It is only modelled at a row update, and surfaces as `committed == false` instead of an exception.
- Concurrent readers and per-statement atomicity: the model is sequential.
- Java `int`/`long` widths: count, ids and timestamps are unbounded integers, so 32-bit wrap-around of count after 2^31 usages is not modelled.
- Tie order among rows with equal sort keys: SQL leaves it open. `FindInstalledAppHistoryEntries` states only that the page comes from some descending ranking; `Sort` is one such ranking.
