/**
 * The exponential fading of decay scores. `exp` stands for the platform's
 * exponential function (Math.exp), which the model receives as a parameter
 * instead of computing.
 */
module DecayEngine {
  import opened AppHistoryEntries

  /** DECAY_CONST: seven days in milliseconds, the time over which a score shrinks by a factor e. */
  const DECAY_CONST: int := 7 * 24 * 60 * 60 * 1000

  /** The score `score` becomes after `elapsed` milliseconds: score * exp(elapsed / -DECAY_CONST). */
  function Decay(score: real, elapsed: int, exp: real -> real): (r: real)
    ensures exp(elapsed as real / -(DECAY_CONST as real)) > 0.0 ==> (r > 0.0 <==> score > 0.0)
  {
    score * exp(elapsed as real / -(DECAY_CONST as real))
  }

  /** `exp` turns sums into products at a and b. */
  ghost predicate AddsToProduct(exp: real -> real, a: real, b: real)
  {
    exp(a + b) == exp(a) * exp(b)
  }

  /** A positive score stays positive under any elapsed time, since exp is positive. */
  lemma DecayPositive(score: real, elapsed: int, exp: real -> real)
    requires score > 0.0
    requires forall x :: exp(x) > 0.0
    ensures Decay(score, elapsed, exp) > 0.0
  {
    var f := exp(elapsed as real / -(DECAY_CONST as real));
    assert f > 0.0;
    assert score * f > 0.0;
  }

  /**
   * Fading from t0 to t1 and then from t1 to t2 is one fading from t0 to t2:
   * repeated recomputations do not compound.
   */
  lemma DecayComposes(score: real, t0: int, t1: int, t2: int, exp: real -> real)
    requires forall a, b :: AddsToProduct(exp, a, b)
    ensures Decay(Decay(score, t1 - t0, exp), t2 - t1, exp) == Decay(score, t2 - t0, exp)
  {
    var k := -(DECAY_CONST as real);
    var a, b := (t1 - t0) as real / k, (t2 - t1) as real / k;
    assert a + b == (t2 - t0) as real / k;
    assert AddsToProduct(exp, a, b);
    calc {
      Decay(Decay(score, t1 - t0, exp), t2 - t1, exp);
      (score * exp(a)) * exp(b);
      score * (exp(a) * exp(b));
      score * exp(a + b);
    }
  }

  /** A row after recomputation at `now`: faded score, lastUpdate stamped with `now`. */
  function DecayedRow(e: Entry, now: int, exp: real -> real): Entry
  {
    e.(decayScore := Decay(e.decayScore, now - e.lastUpdate, exp), lastUpdate := now)
  }

  /** The whole table after one complete recomputation at `now`. */
  function DecayAll(rows: seq<Entry>, now: int, exp: real -> real): (r: seq<Entry>)
    ensures |r| == |rows|
    ensures forall k :: 0 <= k < |r| ==> r[k].lastUpdate == now && r[k].id == rows[k].id
  {
    seq(|rows|, k requires 0 <= k < |rows| => DecayedRow(rows[k], now, exp))
  }

  /**
   * updateDecayScore: the UPDATE WHERE _id = snapshot.id that stores the
   * score faded from the snapshot's own score and lastUpdate.
   */
  function UpdateDecayScore(rows: seq<Entry>, snapshot: Entry, now: int, exp: real -> real): (r: seq<Entry>)
    ensures |r| == |rows|
    ensures forall k :: 0 <= k < |r| ==> r[k].id == rows[k].id
    ensures forall k :: 0 <= k < |r| ==> rows[k].id != snapshot.id ==> r[k] == rows[k]
    ensures forall k :: 0 <= k < |r| ==> rows[k].id == snapshot.id ==>
      && r[k].decayScore == Decay(snapshot.decayScore, now - snapshot.lastUpdate, exp)
      && r[k].lastUpdate == now
      && r[k].(decayScore := rows[k].decayScore, lastUpdate := rows[k].lastUpdate) == rows[k]
  {
    seq(|rows|, k requires 0 <= k < |rows| =>
      if rows[k].id == snapshot.id
      then rows[k].(decayScore := Decay(snapshot.decayScore, now - snapshot.lastUpdate, exp), lastUpdate := now)
      else rows[k])
  }

  /**
   * A recomputation stamps every row with the same `now`, fades its own
   * score over its own elapsed time, and leaves id, package, process,
   * installed, count and lastAccess alone.
   */
  lemma DecayAllStampsEveryRow(rows: seq<Entry>, now: int, exp: real -> real)
    ensures var r := DecayAll(rows, now, exp);
      && |r| == |rows|
      && forall k :: 0 <= k < |r| ==>
           && r[k].lastUpdate == now
           && r[k].decayScore == Decay(rows[k].decayScore, now - rows[k].lastUpdate, exp)
           && r[k].(decayScore := rows[k].decayScore, lastUpdate := rows[k].lastUpdate) == rows[k]
  {
  }

  /** A recomputation keeps the table's invariant, scores staying positive. */
  lemma DecayAllWellFormed(t: Table, now: int, exp: real -> real)
    requires WellFormed(t)
    requires forall x :: exp(x) > 0.0
    ensures WellFormed(Table(DecayAll(t.rows, now, exp), t.nextId))
  {
    var r := DecayAll(t.rows, now, exp);
    forall i, j | 0 <= i < |r| && 0 <= j < |r| && i != j
      ensures !HasKey(r[j], r[i].packageName, r[i].process)
      ensures r[i].id != r[j].id
    {
      assert !HasKey(t.rows[j], t.rows[i].packageName, t.rows[i].process);
    }
    forall e | e in r
      ensures e.id < t.nextId && e.count >= 1 && e.decayScore > 0.0
    {
      var k :| 0 <= k < |r| && r[k] == e;
      assert t.rows[k] in t.rows;
      DecayPositive(t.rows[k].decayScore, now - t.rows[k].lastUpdate, exp);
    }
  }

  /** Two recomputations, at t1 and then at t2, leave the table one recomputation at t2 would. */
  lemma DecayAllTwice(rows: seq<Entry>, t1: int, t2: int, exp: real -> real)
    requires forall a, b :: AddsToProduct(exp, a, b)
    ensures DecayAll(DecayAll(rows, t1, exp), t2, exp) == DecayAll(rows, t2, exp)
  {
    var once, twice := DecayAll(rows, t2, exp), DecayAll(DecayAll(rows, t1, exp), t2, exp);
    forall k | 0 <= k < |rows| ensures twice[k] == once[k] {
      DecayComposes(rows[k].decayScore, rows[k].lastUpdate, t1, t2, exp);
    }
  }

  /** Rows `tx` partway through a recomputation: the rows of `rows0` found in `done` are faded, the rest untouched. */
  ghost predicate PartlyDecayed(tx: seq<Entry>, rows0: seq<Entry>, done: seq<Entry>, now: int, exp: real -> real)
  {
    && |tx| == |rows0|
    && forall k :: 0 <= k < |tx| ==>
         tx[k] == if rows0[k] in done then DecayedRow(rows0[k], now, exp) else rows0[k]
  }

  /** One updateDecayScore for a row of the snapshot moves that row, and only that row, to its faded value. */
  lemma UpdateDecayScoreStep(tx: seq<Entry>, rows0: seq<Entry>, done: seq<Entry>, e: Entry, now: int, exp: real -> real)
    requires UniqueIds(rows0)
    requires e in rows0
    requires PartlyDecayed(tx, rows0, done, now, exp)
    ensures PartlyDecayed(UpdateDecayScore(tx, e, now, exp), rows0, done + [e], now, exp)
  {
    var tx' := UpdateDecayScore(tx, e, now, exp);
    var i :| 0 <= i < |rows0| && rows0[i] == e;
    forall k | 0 <= k < |tx'|
      ensures tx'[k] == if rows0[k] in done + [e] then DecayedRow(rows0[k], now, exp) else rows0[k]
    {
      assert tx[k].id == rows0[k].id;
      if k != i {
        assert rows0[k].id != e.id;
        assert rows0[k] in done + [e] <==> rows0[k] in done;
      }
    }
  }

  /** Once every row of `rows0` has been processed, the buffer is the full recomputation. */
  lemma FullyDecayed(tx: seq<Entry>, rows0: seq<Entry>, done: seq<Entry>, now: int, exp: real -> real)
    requires PartlyDecayed(tx, rows0, done, now, exp)
    requires forall e :: e in rows0 ==> e in done
    ensures tx == DecayAll(rows0, now, exp)
  {
    forall k | 0 <= k < |tx| ensures tx[k] == DecayAll(rows0, now, exp)[k] {
      assert rows0[k] in rows0;
    }
  }
}
