/**
 * What `update_records` and `delete_records` do to the table, one
 * iteration at a time and over a whole call, as functions of the table and
 * of the random draws. The table is a sequence of rows; a row's position is
 * its index label, since every concatenation re-indexes the table from 0.
 */
module Mutations {

  import opened Clock
  import opened Records
  import opened RowFactory

  /**
   * `df[df['isDeleted'] == False].index`: the positions of the live rows,
   * in table order. Rows whose flag is True or missing are not among them.
   */
  function LiveIndices(rows: seq<Record>): (c: seq<nat>)
    ensures forall k :: 0 <= k < |c| ==> c[k] < |rows| && IsLive(rows[c[k]])
    ensures forall i :: 0 <= i < |rows| && IsLive(rows[i]) ==> i in c
  {
    if rows == [] then []
    else
      var n := |rows| - 1;
      LiveIndices(rows[..n]) + (if IsLive(rows[n]) then [n] else [])
  }

  /** The candidates come in table order, each position at most once. */
  lemma {:induction false} LiveIndicesInOrder(rows: seq<Record>)
    ensures forall k, l :: 0 <= k < l < |LiveIndices(rows)| ==> LiveIndices(rows)[k] < LiveIndices(rows)[l]
  {
    if rows != [] {
      var n := |rows| - 1;
      var prefix := LiveIndices(rows[..n]);
      LiveIndicesInOrder(rows[..n]);
      var c := LiveIndices(rows);
      assert c == prefix + (if IsLive(rows[n]) then [n] else []);
      forall k, l | 0 <= k < l < |c|
        ensures c[k] < c[l]
      {
        assert c[k] == prefix[k] && prefix[k] < |rows[..n]|;
        if l < |prefix| {
          assert c[l] == prefix[l];
        } else {
          assert c[l] == n;
        }
      }
    }
  }

  /** The set of live positions, for counting. */
  function LiveSet(rows: seq<Record>): set<nat>
  {
    set i: nat | i < |rows| && IsLive(rows[i])
  }

  /** The candidate list is empty exactly when no row is live. */
  lemma LiveIndicesEmpty(rows: seq<Record>)
    ensures LiveIndices(rows) == [] <==> LiveSet(rows) == {}
  {
    var c := LiveIndices(rows);
    if LiveSet(rows) != {} {
      var i :| i in LiveSet(rows);
      assert i in c;
    }
    if c != [] {
      assert c[0] in LiveSet(rows);
    }
  }

  /**
   * `np.random.choice(candidates.index)`: the drawn position `pick`,
   * reduced to the number of candidates, selects a live row.
   */
  function Pick(rows: seq<Record>, pick: nat): (i: nat)
    requires LiveIndices(rows) != []
    ensures i < |rows| && IsLive(rows[i])
  {
    var c := LiveIndices(rows);
    c[pick % |c|]
  }

  /** Every live row can be the one selected, so the model drops none of the generator's choices. */
  lemma PickReachesEveryLiveRow(rows: seq<Record>, i: nat)
    requires i < |rows| && IsLive(rows[i])
    ensures LiveIndices(rows) != []
    ensures exists pick: nat :: Pick(rows, pick) == i
  {
    var c := LiveIndices(rows);
    assert i in c;
    var k :| 0 <= k < |c| && c[k] == i;
    ModOfSmall(k, |c|);
    assert Pick(rows, k) == i;
  }

  /** Helper: a position below the candidate count is its own remainder. */
  lemma ModOfSmall(k: int, n: int)
    requires 0 <= k < n
    ensures k % n == k
  {
  }

  // ---------------------------------------------------------------------
  // update_records

  /**
   * The draws of one iteration of `update_records`: the candidate
   * position, the column, the new `StorageLocationID` (used only when that
   * column was chosen), the new label (used otherwise) and the offset of the
   * new `Modified`.
   */
  datatype UpdateDraw = UpdateDraw(pick: nat, column: Column, newLocation: int, newLabel: string, modified: Offset)

  predicate ValidUpdateDraw(d: UpdateDraw)
  {
    1000 <= d.newLocation < 9999 && d.newLabel in UpdateLabels
      && ValidOffset(d.modified.minute, d.modified.second)
  }

  /** `new_value`: a location number for `StorageLocationID`, one of the six labels for the other three. */
  function NewValue(d: UpdateDraw): (v: Cell)
    requires ValidUpdateDraw(d)
    ensures UpdateValue(d.column, v)
  {
    if d.column == StorageLocationID then Int(d.newLocation) else Str(d.newLabel)
  }

  /** One iteration of `update_records` at the hour starting at `now`; `UpdateOneEffect` states what it does. */
  function UpdateOne(rows: seq<Record>, d: UpdateDraw, now: int): (r: seq<Record>)
    requires ValidUpdateDraw(d)
    ensures |r| == |rows|
  {
    if LiveIndices(rows) == [] then rows
    else
      var i := Pick(rows, d.pick);
      rows[i := UpdateRow(rows[i], d, now)]
  }

  /**
   * The two cell writes of an update on the row it selected: the chosen
   * column gets a value an update may write and `Modified` an instant of
   * the hour; nothing else in the row changes.
   */
  function UpdateRow(row: Record, d: UpdateDraw, now: int): (r: Record)
    requires ValidUpdateDraw(d)
    ensures SameExcept(row, r, d.column)
    ensures UpdateValue(d.column, Get(r, d.column))
    ensures InHour(r.modified, now)
  {
    Set(row, d.column, NewValue(d)).(modified := WithinHour(now, d.modified.minute, d.modified.second))
  }

  /**
   * With no live row one update iteration leaves the table unchanged (the
   * loop breaks). Otherwise exactly the selected live row changes, and in
   * it only the chosen column, to a value an update may write, and
   * `Modified`, to an instant of the hour; every flag stays as it was.
   */
  lemma UpdateOneEffect(rows: seq<Record>, d: UpdateDraw, now: int)
    requires ValidUpdateDraw(d)
    ensures var r := UpdateOne(rows, d, now);
      && (LiveIndices(rows) == [] ==> r == rows)
      && (LiveIndices(rows) != [] ==>
            var i := Pick(rows, d.pick);
            && (forall j :: 0 <= j < |rows| && j != i ==> r[j] == rows[j])
            && SameExcept(rows[i], r[i], d.column)
            && UpdateValue(d.column, Get(r[i], d.column))
            && InHour(r[i].modified, now))
  {
    if LiveIndices(rows) != [] {
      var i := Pick(rows, d.pick);
      assert UpdateOne(rows, d, now) == rows[i := UpdateRow(rows[i], d, now)];
    }
  }

  /** `update_records(df, len(draws), now)`: the iterations in order; `ApplyUpdatesUpdatedDuring` states what they do. */
  function ApplyUpdates(rows: seq<Record>, draws: seq<UpdateDraw>, now: int): (r: seq<Record>)
    requires forall k :: 0 <= k < |draws| ==> ValidUpdateDraw(draws[k])
    ensures |r| == |rows|
    decreases |draws|, 1
  {
    if draws == [] then rows
    else ApplyUpdatesNonEmpty(rows, draws, now)
  }

  /**
   * The case of `ApplyUpdates` with at least one draw: the first
   * iteration, then the rest. A separate function, so that a proof that
   * mentions `ApplyUpdates` sees one iteration only when it asks for it.
   */
  function ApplyUpdatesNonEmpty(rows: seq<Record>, draws: seq<UpdateDraw>, now: int): (r: seq<Record>)
    requires forall k :: 0 <= k < |draws| ==> ValidUpdateDraw(draws[k])
    requires draws != []
    ensures |r| == |rows|
    decreases |draws|, 0
  {
    ApplyUpdates(UpdateOne(rows, draws[0], now), draws[1..], now)
  }

  /**
   * After any number of update iterations at the hour starting at `now`,
   * each row stands in the `UpdatedDuring` relation to itself before: only
   * live rows changed, and only in the updatable columns and `Modified`.
   */
  lemma {:induction false} ApplyUpdatesUpdatedDuring(rows: seq<Record>, draws: seq<UpdateDraw>, now: int)
    requires forall k :: 0 <= k < |draws| ==> ValidUpdateDraw(draws[k])
    ensures var r := ApplyUpdates(rows, draws, now);
      forall j :: 0 <= j < |rows| ==> UpdatedDuring(rows[j], r[j], now)
    decreases |draws|
  {
    var r := ApplyUpdates(rows, draws, now);
    if draws == [] {
      forall j | 0 <= j < |rows| ensures UpdatedDuring(rows[j], r[j], now) {
      }
    } else {
      var next := UpdateOne(rows, draws[0], now);
      assert r == ApplyUpdatesNonEmpty(rows, draws, now);
      UpdateOneUpdatedDuring(rows, draws[0], now);
      ApplyUpdatesUpdatedDuring(next, draws[1..], now);
      forall j | 0 <= j < |rows| ensures UpdatedDuring(rows[j], r[j], now) {
        UpdatedDuringTransitive(rows[j], next[j], r[j], now);
      }
    }
  }

  /** Each row after one update iteration stands in the `UpdatedDuring` relation to itself before. */
  lemma UpdateOneUpdatedDuring(rows: seq<Record>, d: UpdateDraw, now: int)
    requires ValidUpdateDraw(d)
    ensures forall j :: 0 <= j < |rows| ==> UpdatedDuring(rows[j], UpdateOne(rows, d, now)[j], now)
  {
    var r := UpdateOne(rows, d, now);
    UpdateOneEffect(rows, d, now);
    if LiveIndices(rows) != [] {
      var i := Pick(rows, d.pick);
      assert forall c :: c != d.column ==> Get(r[i], c) == Get(rows[i], c);
    }
  }

  /** Updates never change a flag, so they never change which rows are live. */
  lemma ApplyUpdatesKeepsLiveness(rows: seq<Record>, draws: seq<UpdateDraw>, now: int)
    requires forall k :: 0 <= k < |draws| ==> ValidUpdateDraw(draws[k])
    ensures LiveSet(ApplyUpdates(rows, draws, now)) == LiveSet(rows)
    ensures LiveIndices(ApplyUpdates(rows, draws, now)) == LiveIndices(rows)
  {
    var r := ApplyUpdates(rows, draws, now);
    ApplyUpdatesUpdatedDuring(rows, draws, now);
    assert forall j :: 0 <= j < |rows| ==> IsLive(r[j]) == IsLive(rows[j]);
    SameLivenessSameCandidates(rows, r);
  }

  /** Two tables whose rows agree on liveness have the same candidate list. */
  lemma {:induction false} SameLivenessSameCandidates(a: seq<Record>, b: seq<Record>)
    requires |a| == |b|
    requires forall j :: 0 <= j < |a| ==> IsLive(a[j]) == IsLive(b[j])
    ensures LiveIndices(a) == LiveIndices(b)
    decreases |a|
  {
    if a != [] {
      SameLivenessSameCandidates(a[..|a| - 1], b[..|b| - 1]);
    }
  }

  /** With no live row, `update_records` changes nothing, whatever it draws. */
  lemma {:induction false} ApplyUpdatesNoLive(rows: seq<Record>, draws: seq<UpdateDraw>, now: int)
    requires forall k :: 0 <= k < |draws| ==> ValidUpdateDraw(draws[k])
    requires LiveIndices(rows) == []
    ensures ApplyUpdates(rows, draws, now) == rows
    decreases |draws|
  {
    if draws != [] {
      ApplyUpdatesNoLive(rows, draws[1..], now);
    }
  }

  // ---------------------------------------------------------------------
  // delete_records

  /** One iteration of `delete_records`, drawing candidate position `pick`; `DeleteOneEffect` states what it does. */
  function DeleteOne(rows: seq<Record>, pick: nat): (r: seq<Record>)
    ensures |r| == |rows|
  {
    if LiveIndices(rows) == [] then rows
    else
      var i := Pick(rows, pick);
      rows[i := rows[i].(isDeleted := Deleted)]
  }

  /**
   * With no live row one delete iteration leaves the table unchanged.
   * Otherwise only the flag of the selected live row changes, from False
   * to True, and no other column of any row changes.
   */
  lemma DeleteOneEffect(rows: seq<Record>, pick: nat)
    ensures var r := DeleteOne(rows, pick);
      && (LiveIndices(rows) == [] ==> r == rows)
      && (forall j :: 0 <= j < |rows| ==> SameButFlag(rows[j], r[j]))
      && (forall j :: 0 <= j < |rows| && r[j].isDeleted != rows[j].isDeleted ==>
            LiveIndices(rows) != [] && j == Pick(rows, pick) && IsLive(rows[j]) && r[j].isDeleted == Deleted)
  {
    var r := DeleteOne(rows, pick);
    if LiveIndices(rows) != [] {
      var i := Pick(rows, pick);
      assert r == rows[i := rows[i].(isDeleted := Deleted)];
      forall j | 0 <= j < |rows|
        ensures SameButFlag(rows[j], r[j])
      {
        if j == i {
          assert r[j] == rows[i].(isDeleted := Deleted);
        } else {
          assert r[j] == rows[j];
        }
      }
    }
  }

  /** A delete iteration that finds a live row removes exactly the selected row from the live set. */
  lemma DeleteOneLiveSet(rows: seq<Record>, pick: nat)
    requires LiveIndices(rows) != []
    ensures LiveSet(DeleteOne(rows, pick)) == LiveSet(rows) - {Pick(rows, pick)}
  {
    var i := Pick(rows, pick);
    var r := DeleteOne(rows, pick);
    assert r == rows[i := rows[i].(isDeleted := Deleted)];
    forall j: nat
      ensures j in LiveSet(r) <==> j in LiveSet(rows) - {i}
    {
      if j < |rows| && j != i {
        assert r[j] == rows[j];
      }
    }
  }

  /** `min(a, b)` */
  function Min(a: int, b: int): int
  {
    if a <= b then a else b
  }

  /** `delete_records(df, len(picks))`: the iterations in order; `ApplyDeletesEffect` states what they do. */
  function ApplyDeletes(rows: seq<Record>, picks: seq<nat>): (r: seq<Record>)
    ensures |r| == |rows|
    decreases |picks|, 1
  {
    if picks == [] then rows
    else ApplyDeletesNonEmpty(rows, picks)
  }

  /**
   * The case of `ApplyDeletes` with at least one pick: the first iteration,
   * then the rest. A separate function, so that a proof that mentions
   * `ApplyDeletes` sees one iteration only when it asks for it.
   */
  function ApplyDeletesNonEmpty(rows: seq<Record>, picks: seq<nat>): (r: seq<Record>)
    requires picks != []
    ensures |r| == |rows|
    decreases |picks|, 0
  {
    ApplyDeletes(DeleteOne(rows, picks[0]), picks[1..])
  }

  /**
   * `delete_records(df, len(picks))` only shrinks the live set, by exactly
   * `min(len(picks), live count)` rows; a flag only ever goes from False to
   * True; no other column of any row changes.
   */
  lemma {:induction false} ApplyDeletesEffect(rows: seq<Record>, picks: seq<nat>)
    ensures var r := ApplyDeletes(rows, picks);
      && LiveSet(r) <= LiveSet(rows)
      && |LiveSet(r)| == |LiveSet(rows)| - Min(|picks|, |LiveSet(rows)|)
      && forall j :: 0 <= j < |rows| ==> SameButFlag(rows[j], r[j]) && FlagStep(rows[j].isDeleted, r[j].isDeleted)
    decreases |picks|
  {
    var r := ApplyDeletes(rows, picks);
    if picks == [] {
      forall j | 0 <= j < |rows| ensures SameButFlag(rows[j], r[j]) {
      }
    } else {
      var next := DeleteOne(rows, picks[0]);
      DeleteOneEffect(rows, picks[0]);
      DeleteOneShrinks(rows, picks[0]);
      ApplyDeletesEffect(next, picks[1..]);
    }
  }

  /** One delete iteration removes exactly one row from a non-empty live set, and none from an empty one. */
  lemma DeleteOneShrinks(rows: seq<Record>, pick: nat)
    ensures LiveSet(DeleteOne(rows, pick)) <= LiveSet(rows)
    ensures |LiveSet(DeleteOne(rows, pick))| == |LiveSet(rows)| - Min(1, |LiveSet(rows)|)
  {
    var next := DeleteOne(rows, pick);
    LiveIndicesEmpty(rows);
    if LiveIndices(rows) != [] {
      var i := Pick(rows, pick);
      DeleteOneLiveSet(rows, pick);
      assert LiveSet(rows) == LiveSet(next) + {i};
    }
  }

  /** With no live row, `delete_records` changes nothing, whatever it draws. */
  lemma {:induction false} ApplyDeletesNoLive(rows: seq<Record>, picks: seq<nat>)
    requires LiveIndices(rows) == []
    ensures ApplyDeletes(rows, picks) == rows
    decreases |picks|
  {
    if picks != [] {
      ApplyDeletesNoLive(rows, picks[1..]);
    }
  }

  /** A row deleted once is never selected again: a True flag stays True through any number of deletes. */
  lemma NeverDeletedTwice(rows: seq<Record>, picks: seq<nat>, j: nat)
    requires j < |rows| && rows[j].isDeleted == Deleted
    ensures ApplyDeletes(rows, picks)[j] == rows[j]
  {
    var r := ApplyDeletes(rows, picks);
    ApplyDeletesEffect(rows, picks);
    assert SameButFlag(rows[j], r[j]) && FlagStep(rows[j].isDeleted, r[j].isDeleted);
  }
}
