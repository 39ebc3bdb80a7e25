/**
 * findInstalledAppHistoryEntries: the installed rows outside the ignore
 * list, ordered descending on the column the sort type names, cut to one
 * LIMIT/OFFSET page.
 */
module RankedListing {
  import opened AppHistoryEntries

  /** The three orderings of the listing. */
  datatype SortType = Recent | MostUsed | TimeDecay

  /** Packages never listed: launchers, the tracker itself, phone, browser, messaging. */
  const AppsToIgnore: seq<string> := [
    "com.android.launcher",
    "com.android.launcher2",
    "com.nolanlawson.apptracker",
    "com.android.contacts",
    "com.android.phone",
    "com.android.browser",
    "com.android.mms"]

  /** createOrderByClause: the value of the column the listing orders on, descending. */
  function SortKey(sortType: SortType, e: Entry): real
  {
    match sortType
    case Recent => e.lastAccess as real
    case MostUsed => e.count as real
    case TimeDecay => e.decayScore
  }

  /** The WHERE clause of the listing. */
  predicate Listable(e: Entry)
  {
    e.packageName !in AppsToIgnore && e.installed
  }

  /** Non-increasing in the sort key, over every pair of positions. */
  ghost predicate Descending(s: seq<Entry>, sortType: SortType)
  {
    forall i, j :: 0 <= i < j < |s| ==> SortKey(sortType, s[i]) >= SortKey(sortType, s[j])
  }

  /** A row whose key is at least every key of a descending sequence may head it. */
  lemma PrependDescending(h: Entry, t: seq<Entry>, sortType: SortType)
    requires Descending(t, sortType)
    requires forall e :: e in t ==> SortKey(sortType, h) >= SortKey(sortType, e)
    ensures Descending([h] + t, sortType)
  {
    var s := [h] + t;
    forall i, j | 0 <= i < j < |s| ensures SortKey(sortType, s[i]) >= SortKey(sortType, s[j]) {
      if i == 0 {
        assert s[j] == t[j - 1] && t[j - 1] in t;
      } else {
        assert s[i] == t[i - 1] && s[j] == t[j - 1];
      }
    }
  }

  /** Puts `x` into a descending sequence, before every row whose key is not larger. */
  function Insert(x: Entry, s: seq<Entry>, sortType: SortType): (r: seq<Entry>)
    requires Descending(s, sortType)
    ensures Descending(r, sortType)
    ensures multiset(r) == multiset(s) + multiset{x}
  {
    if s == [] then [x]
    else if SortKey(sortType, x) >= SortKey(sortType, s[0]) then
      PrependDescending(x, s, sortType);
      [x] + s
    else
      var tail := Insert(x, s[1..], sortType);
      assert s == [s[0]] + s[1..];
      assert forall e :: e in tail ==> SortKey(sortType, s[0]) >= SortKey(sortType, e) by {
        forall e | e in tail ensures SortKey(sortType, s[0]) >= SortKey(sortType, e) {
          assert multiset(tail)[e] > 0;
          if e != x {
            var j :| 0 <= j < |s[1..]| && s[1..][j] == e;
            assert s[j + 1] == e;
          }
        }
      }
      PrependDescending(s[0], tail, sortType);
      [s[0]] + tail
  }

  /** The ORDER BY of the listing: a descending arrangement of the same rows. */
  function Sort(s: seq<Entry>, sortType: SortType): (r: seq<Entry>)
    ensures Descending(r, sortType)
    ensures multiset(r) == multiset(s)
  {
    if s == [] then []
    else
      assert s == [s[0]] + s[1..];
      Insert(s[0], Sort(s[1..], sortType), sortType)
  }

  /** The first row a page starts at: OFFSET, where a negative offset counts as 0. */
  function PageStart(n: nat, offset: int): (start: nat)
    ensures start <= n
  {
    if offset <= 0 then 0 else if offset >= n then n else offset
  }

  /**
   * LIMIT `limit` OFFSET `offset` as SQLite reads them: a negative limit
   * means no bound, a negative offset means no rows skipped.
   */
  function Window(s: seq<Entry>, limit: int, offset: int): (r: seq<Entry>)
    ensures limit >= 0 ==> |r| <= limit
    ensures var start := PageStart(|s|, offset);
      && |r| == (if limit < 0 || start + limit > |s| then |s| - start else limit)
      && forall k :: 0 <= k < |r| ==> r[k] == s[start + k]
  {
    var start := PageStart(|s|, offset);
    var end := if limit < 0 || start + limit > |s| then |s| else start + limit;
    s[start..end]
  }

  /** Consecutive pages tile the listing: page [o, o+n) followed by page [o+n, o+n+m) is page [o, o+n+m). */
  lemma WindowsTile(s: seq<Entry>, n: nat, m: nat, o: nat)
    ensures Window(s, n, o) + Window(s, m, o + n) == Window(s, n + m, o)
  {
    var a, b, c := Window(s, n, o), Window(s, m, o + n), Window(s, n + m, o);
    assert |a + b| == |c|;
    forall k | 0 <= k < |c| ensures (a + b)[k] == c[k] {
      if k >= |a| {
        assert (a + b)[k] == b[k - |a|];
      }
    }
  }

  /** A full ranking of the table: every listable row once per occurrence, in descending key order. */
  ghost predicate IsRanking(ranking: seq<Entry>, rows: seq<Entry>, sortType: SortType)
  {
    multiset(ranking) == multiset(Select(rows, Listable)) && Descending(ranking, sortType)
  }

  /**
   * findInstalledAppHistoryEntries: only installed, non-ignored rows of the
   * table, at most `limit` of them, non-increasing in the sort key, and
   * exactly one page of a ranking of all listable rows.
   */
  function FindInstalledAppHistoryEntries(rows: seq<Entry>, sortType: SortType, limit: int, offset: int): (r: seq<Entry>)
    ensures forall e :: e in r ==> e in rows && e.installed && e.packageName !in AppsToIgnore
    ensures limit >= 0 ==> |r| <= limit
    ensures forall k :: 0 <= k < |r| - 1 ==> SortKey(sortType, r[k]) >= SortKey(sortType, r[k + 1])
    ensures exists ranking :: IsRanking(ranking, rows, sortType) && r == Window(ranking, limit, offset)
  {
    var listable := Select(rows, Listable);
    assert forall e :: e in listable ==> e.installed && e.packageName !in AppsToIgnore;
    var ranking := Sort(listable, sortType);
    var r := Window(ranking, limit, offset);
    assert forall e :: e in r ==> e in ranking;
    assert forall e :: e in ranking ==> multiset(ranking)[e] > 0;
    r
  }

  /** The order of the listing is the column createOrderByClause names, for each sort type. */
  lemma ListingFollowsOrderBy(rows: seq<Entry>, sortType: SortType, limit: int, offset: int)
    ensures var r := FindInstalledAppHistoryEntries(rows, sortType, limit, offset);
      forall k :: 0 <= k < |r| - 1 ==>
        && (sortType == Recent ==> r[k].lastAccess >= r[k + 1].lastAccess)
        && (sortType == MostUsed ==> r[k].count >= r[k + 1].count)
        && (sortType == TimeDecay ==> r[k].decayScore >= r[k + 1].decayScore)
  {
    var r := FindInstalledAppHistoryEntries(rows, sortType, limit, offset);
    forall k | 0 <= k < |r| - 1
      ensures SortKey(sortType, r[k]) >= SortKey(sortType, r[k + 1])
    {
    }
  }

  /** With no limit and no offset, every listable row of the table is listed. */
  lemma ListingComplete(rows: seq<Entry>, sortType: SortType, limit: int, offset: int)
    requires limit < 0 && offset <= 0
    ensures var r := FindInstalledAppHistoryEntries(rows, sortType, limit, offset);
      forall e :: e in rows && Listable(e) ==> e in r
  {
    var r := FindInstalledAppHistoryEntries(rows, sortType, limit, offset);
    var ranking :| IsRanking(ranking, rows, sortType) && r == Window(ranking, limit, offset);
    assert r == ranking;
    forall e | e in rows && Listable(e) ensures e in r {
      assert multiset(rows)[e] > 0;
      assert multiset(r)[e] > 0;
    }
  }
}
