/**
 * The simulator as the script runs it: the table, `next_id` and
 * `current_datetime` are fields that the loops update in place. Each
 * method is proved against the function of `Mutations` or `Scheduler` that
 * specifies it, so everything proved about those functions holds of the
 * fields after the call.
 */
module Simulation {

  import opened Clock
  import opened Records
  import opened RowFactory
  import opened Mutations
  import opened Scheduler

  /** The script's three variables. */
  class Simulator {
    var df: seq<Record>
    var nextId: int
    var currentDatetime: int

    /** The variables as a value, for the specification functions. */
    function State(): SimState
      reads this
    {
      SimState(df, nextId, currentDatetime)
    }

    /** Loading the table and `next_id = df['ID'].max() + 1`. */
    constructor(input: seq<Record>, start: int)
      requires |input| > 0
      ensures State() == Initial(input, start)
    {
      df := input;
      nextId := MaxId(input) + 1;
      currentDatetime := start;
    }

    /**
     * `update_records(df, num_updates, current_datetime)`: the table becomes
     * `ApplyUpdates` of the old table, whose properties are proved in
     * `Mutations`; the other two variables do not change.
     */
    method UpdateRecords(numUpdates: nat, draws: seq<UpdateDraw>)
      requires |draws| == numUpdates
      requires forall k :: 0 <= k < |draws| ==> ValidUpdateDraw(draws[k])
      modifies this
      ensures df == ApplyUpdates(old(df), draws, currentDatetime)
      ensures nextId == old(nextId) && currentDatetime == old(currentDatetime)
    {
      var now := currentDatetime;
      ghost var target := ApplyUpdates(df, draws, now);
      var i := 0;
      while i < numUpdates
        invariant 0 <= i <= numUpdates
        invariant ApplyUpdates(df, draws[i..], now) == target
        invariant nextId == old(nextId) && currentDatetime == now
      {
        var candidates := LiveIndices(df);
        if candidates == [] {
          ApplyUpdatesNoLive(df, draws[i..], now);
          break;
        }
        var d := draws[i];
        var idx := candidates[d.pick % |candidates|];
        ghost var before := df;
        df := df[idx := Set(df[idx], d.column, NewValue(d))];
        df := df[idx := df[idx].(modified := WithinHour(now, d.modified.minute, d.modified.second))];
        UpdateIteration(before, draws, i, now, df);
        i := i + 1;
      }
    }

    /**
     * `delete_records(df, num_deletes)`: the table becomes `ApplyDeletes`
     * of the old table; the other two variables do not change.
     */
    method DeleteRecords(numDeletes: nat, picks: seq<nat>)
      requires |picks| == numDeletes
      modifies this
      ensures df == ApplyDeletes(old(df), picks)
      ensures nextId == old(nextId) && currentDatetime == old(currentDatetime)
    {
      var i := 0;
      while i < numDeletes
        invariant 0 <= i <= numDeletes
        invariant ApplyDeletes(df, picks[i..]) == ApplyDeletes(old(df), picks)
        invariant nextId == old(nextId) && currentDatetime == old(currentDatetime)
      {
        var candidates := LiveIndices(df);
        if candidates == [] {
          ApplyDeletesNoLive(df, picks[i..]);
          break;
        }
        var idx := candidates[picks[i] % |candidates|];
        ghost var before := df;
        df := df[idx := df[idx].(isDeleted := Deleted)];
        DeleteIteration(before, picks, i, df);
        i := i + 1;
      }
    }

    /**
     * The body of the inner loop for iteration `step`, whose index within
     * its day is `hour`: draw the counts, create and append, update, delete,
     * advance the clock. The variables become `HourStep` of their old values.
     */
    method SimulateHour(step: nat, hour: nat, rng: Rng)
      requires ValidRng(rng)
      modifies this
      ensures State() == HourStep(old(State()), step, hour, rng)
    {
      var counts := HourCounts(rng, step, hour);
      var newRecords := CreateRecords(counts.creations, nextId, currentDatetime, RecordDraws(rng, step, counts.creations));
      df := df + newRecords;
      nextId := nextId + counts.creations;
      UpdateRecords(counts.updates, UpdateDraws(rng, step, counts.updates));
      DeleteRecords(counts.deletes, DeletePicks(rng, step, counts.deletes));
      currentDatetime := currentDatetime + SecondsPerHour;
    }

    /**
     * The nested loops over `num_days` days of 24 hours. The loop runs
     * exactly `NumDays * 24` iterations, the variables end as `Steps` of
     * their starting values, and the clock has advanced exactly that many
     * hours.
     */
    method Run(rng: Rng)
      requires ValidRng(rng)
      modifies this
      ensures State() == Steps(old(State()), NumDays * TotalHours, rng)
      ensures currentDatetime == old(currentDatetime) + NumDays * TotalHours * SecondsPerHour
    {
      ghost var s0 := State();
      var step := 0;
      for day := 0 to NumDays
        invariant step == day * TotalHours
        invariant State() == Steps(s0, step, rng)
      {
        for hour := 0 to TotalHours
          invariant step == day * TotalHours + hour
          invariant State() == Steps(s0, step, rng)
        {
          StepIndexHour(day, hour);
          ghost var before := State();
          SimulateHour(step, hour, rng);
          StepsNext(s0, step, hour, rng, before, State());
          assert State() == Steps(s0, step + 1, rng);
          step := step + 1;
        }
        NextDay(day);
      }
      StepsClock(s0, NumDays * TotalHours, rng);
    }
  }

  /**
   * The two cell writes of one iteration of `update_records` on the
   * selected live row are `UpdateOne`, so the remaining work after them is
   * the rest of the draws.
   */
  lemma UpdateIteration(rows: seq<Record>, draws: seq<UpdateDraw>, i: nat, now: int, after: seq<Record>)
    requires forall k :: 0 <= k < |draws| ==> ValidUpdateDraw(draws[k])
    requires i < |draws| && LiveIndices(rows) != []
    requires var d, idx := draws[i], Pick(rows, draws[i].pick);
      after == rows[idx := Set(rows[idx], d.column, NewValue(d))][idx := Set(rows[idx], d.column, NewValue(d)).(modified := WithinHour(now, d.modified.minute, d.modified.second))]
    ensures ApplyUpdates(after, draws[i + 1..], now) == ApplyUpdates(rows, draws[i..], now)
  {
    assert after[Pick(rows, draws[i].pick)] == UpdateRow(rows[Pick(rows, draws[i].pick)], draws[i], now);
    assert after == UpdateOne(rows, draws[i], now);
    assert draws[i..][1..] == draws[i + 1..];
  }

  /** The cell write of one iteration of `delete_records` is `DeleteOne`. */
  lemma DeleteIteration(rows: seq<Record>, picks: seq<nat>, i: nat, after: seq<Record>)
    requires i < |picks| && LiveIndices(rows) != []
    requires var idx := Pick(rows, picks[i]);
      after == rows[idx := rows[idx].(isDeleted := Deleted)]
    ensures ApplyDeletes(after, picks[i + 1..]) == ApplyDeletes(rows, picks[i..])
  {
    assert after == DeleteOne(rows, picks[i]);
    assert picks[i..][1..] == picks[i + 1..];
  }

  /**
   * The whole script on an input table whose rows carry no `isDeleted`
   * value, as the file the generator writes: the rows of the input come
   * out exactly as they went in, at their positions; rows are only
   * appended, with consecutive IDs from the largest input ID plus one; and
   * the IDs of the output are distinct when those of the input are.
   */
  method RunScript(input: seq<Record>, rng: Rng) returns (output: seq<Record>)
    requires |input| > 0 && ValidRng(rng)
    requires forall i :: 0 <= i < |input| ==> input[i].isDeleted == Unset
    ensures |input| <= |output| && output[..|input|] == input
    ensures forall k :: |input| <= k < |output| ==> output[k].id == MaxId(input) + 1 + (k - |input|)
    ensures (forall i, j :: 0 <= i < j < |input| ==> input[i].id != input[j].id) ==>
              forall i, j :: 0 <= i < j < |output| ==> output[i].id != output[j].id
  {
    var sim := new Simulator(input, StartDatetime);
    sim.Run(rng);
    output := sim.df;
    ghost var s0 := Initial(input, StartDatetime);
    var n := NumDays * TotalHours;
    StepsGrow(s0, n, rng);
    forall i | 0 <= i < |input|
      ensures output[i] == input[i]
    {
      NotLiveRowsFrozen(s0, n, rng, i);
    }
    if forall i, j :: 0 <= i < j < |input| ==> input[i].id != input[j].id {
      StepsKeepIdsUnique(s0, n, rng);
    }
  }
}
