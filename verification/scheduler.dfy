/**
 * The hour-by-hour scheduler as a specification: which rates an hour
 * uses, how a normal sample becomes a count, what one simulated hour does
 * to the state (table, next ID, clock) and what a run of hours does.
 */
module Scheduler {

  import opened Clock
  import opened Records
  import opened RowFactory
  import opened Mutations

  /** The script's parameters. */
  const NumDays: nat := 10
  const ActiveHours: nat := 16
  const InactiveHours: nat := 8
  const TotalHours: nat := ActiveHours + InactiveHours
  /** 2024-06-10 00:00 */
  const StartDatetime: int := 1717977600

  /** The parameters of an `np.random.normal(mean, stddev)` call. */
  datatype Normal = Normal(mean: int, stddev: int)

  /** The three distributions an hour draws its counts from. */
  datatype HourlyRates = HourlyRates(creations: Normal, updates: Normal, deletes: Normal)

  const InactiveRates: HourlyRates := HourlyRates(Normal(70, 20), Normal(30, 5), Normal(10, 5))
  const ActiveRates: HourlyRates := HourlyRates(Normal(350, 65), Normal(80, 20), Normal(30, 15))

  /** An hour uses the inactive rates exactly when its index within the day is below 8. */
  function RatesFor(hour: nat): (r: HourlyRates)
    ensures r == InactiveRates <==> hour < InactiveHours
    ensures r == ActiveRates <==> hour >= InactiveHours
  {
    if hour < InactiveHours then InactiveRates else ActiveRates
  }

  /** Python's `int()` on a float: truncation toward zero. */
  function Trunc(x: real): (n: int)
    ensures 0.0 <= x ==> 0 <= n && n as real <= x < n as real + 1.0
    ensures x < 0.0 ==> n <= 0 && n as real - 1.0 < x <= n as real
  {
    if 0.0 <= x then x.Floor else -((-x).Floor)
  }

  /**
   * `max(0, int(sample))`: never negative; zero for every sample below 1
   * (a negative sample included); otherwise the whole part of the sample.
   */
  function Count(sample: real): (n: nat)
    ensures sample < 1.0 ==> n == 0
    ensures 1.0 <= sample ==> 1 <= n && n as real <= sample < n as real + 1.0
  {
    var t := Trunc(sample);
    if t < 0 then 0 else t
  }

  /** The three normal samples of one hour. */
  datatype Samples = Samples(creations: real, updates: real, deletes: real)

  /** The counts one hour uses. */
  datatype Counts = Counts(creations: nat, updates: nat, deletes: nat)

  /**
   * Every random draw of a run, given by where it is made: the normal
   * samples of step `s` from the given rates, the draws of the i-th row
   * created in step `s`, of the j-th update and of the j-th delete of
   * step `s`.
   */
  datatype Rng = Rng(
    normal: (nat, HourlyRates) -> Samples,
    record: (nat, nat) -> RecordDraw,
    update: (nat, nat) -> UpdateDraw,
    delete: (nat, nat) -> nat)

  /** The generator respects the bounds of every call the script makes. */
  ghost predicate ValidRng(rng: Rng)
  {
    && (forall s: nat, i: nat :: ValidRecordDraw(rng.record(s, i)))
    && (forall s: nat, j: nat :: ValidUpdateDraw(rng.update(s, j)))
  }

  /** The counts of step `step`, whose index within its day is `hour`. */
  function HourCounts(rng: Rng, step: nat, hour: nat): Counts
  {
    var samples := rng.normal(step, RatesFor(hour));
    Counts(Count(samples.creations), Count(samples.updates), Count(samples.deletes))
  }

  /** The draws of the `n` rows created in step `step`, in order. */
  function RecordDraws(rng: Rng, step: nat, n: nat): (ds: seq<RecordDraw>)
    requires ValidRng(rng)
    ensures |ds| == n && forall k :: 0 <= k < n ==> ValidRecordDraw(ds[k])
  {
    seq(n, i requires 0 <= i < n => rng.record(step, i))
  }

  /** The draws of the `n` update iterations of step `step`, in order. */
  function UpdateDraws(rng: Rng, step: nat, n: nat): (ds: seq<UpdateDraw>)
    requires ValidRng(rng)
    ensures |ds| == n && forall k :: 0 <= k < n ==> ValidUpdateDraw(ds[k])
  {
    seq(n, j requires 0 <= j < n => rng.update(step, j))
  }

  /** The picks of the `n` delete iterations of step `step`, in order. */
  function DeletePicks(rng: Rng, step: nat, n: nat): (ps: seq<nat>)
    ensures |ps| == n
  {
    seq<nat>(n, j requires 0 <= j < n => rng.delete(step, j))
  }

  /** The script's three variables between two hours. */
  datatype SimState = SimState(df: seq<Record>, nextId: int, now: int)

  /** `next_id = df['ID'].max() + 1` needs the largest input ID. */
  function MaxId(rows: seq<Record>): (m: int)
    requires |rows| > 0
    ensures forall i :: 0 <= i < |rows| ==> rows[i].id <= m
    ensures exists i :: 0 <= i < |rows| && rows[i].id == m
  {
    if |rows| == 1 then rows[0].id
    else
      var m := MaxId(rows[1..]);
      assert forall i :: 1 <= i < |rows| ==> rows[i] == rows[1..][i - 1];
      if rows[0].id < m then m else rows[0].id
  }

  /** The state before the first hour. */
  function Initial(input: seq<Record>, start: int): (s: SimState)
    requires |input| > 0
    ensures s.df == input && s.now == start
    ensures forall i :: 0 <= i < |input| ==> input[i].id < s.nextId
  {
    SimState(input, MaxId(input) + 1, start)
  }

  /** The rows `create_records` returns in step `step` from state `s`. */
  function CreatedRows(s: SimState, step: nat, hour: nat, rng: Rng): (rows: seq<Record>)
    requires ValidRng(rng)
    ensures |rows| == HourCounts(rng, step, hour).creations
  {
    NewRows(s.nextId, s.now, RecordDraws(rng, step, HourCounts(rng, step, hour).creations))
  }

  /**
   * One iteration of the inner loop at step `step`, whose index within its
   * day is `hour`: create and append, update, delete, then advance the
   * clock. `HourStepGrows` and `HourStepEvolves` state what it does.
   */
  function HourStep(s: SimState, step: nat, hour: nat, rng: Rng): SimState
    requires ValidRng(rng)
  {
    var c := HourCounts(rng, step, hour);
    var appended := s.df + CreatedRows(s, step, hour, rng);
    var updated := ApplyUpdates(appended, UpdateDraws(rng, step, c.updates), s.now);
    var deleted := ApplyDeletes(updated, DeletePicks(rng, step, c.deletes));
    SimState(deleted, s.nextId + c.creations, s.now + SecondsPerHour)
  }

  /** `HourStep` spelled out, for proofs that reason about its parts one at a time. */
  lemma HourStepTable(s: SimState, step: nat, hour: nat, rng: Rng)
    requires ValidRng(rng)
    ensures var c := HourCounts(rng, step, hour);
      HourStep(s, step, hour, rng).df
        == ApplyDeletes(ApplyUpdates(s.df + CreatedRows(s, step, hour, rng), UpdateDraws(rng, step, c.updates), s.now), DeletePicks(rng, step, c.deletes))
  {
  }

  /**
   * `n` iterations of a loop whose body maps the state and the index of the
   * iteration to the next state.
   */
  function Iterate(s0: SimState, n: nat, body: (SimState, nat) --> SimState): SimState
    requires forall s, k :: body.requires(s, k)
    decreases n, 1
  {
    if n == 0 then s0 else LastIteration(s0, n, body)
  }

  /**
   * The last of `n > 0` iterations: the body applied to the state after the
   * first `n - 1`. A separate function, so that a proof that mentions
   * `Iterate` sees one iteration only when it asks for it.
   */
  function LastIteration(s0: SimState, n: nat, body: (SimState, nat) --> SimState): SimState
    requires forall s, k :: body.requires(s, k)
    requires n > 0
    decreases n, 0
  {
    body(Iterate(s0, n - 1, body), n - 1)
  }

  /** One more iteration applies the body once more. */
  lemma IterateNext(s0: SimState, n: nat, body: (SimState, nat) --> SimState)
    requires forall s, k :: body.requires(s, k)
    ensures Iterate(s0, n + 1, body) == body(Iterate(s0, n, body), n)
  {
    assert Iterate(s0, n + 1, body) == LastIteration(s0, n + 1, body);
  }

  /**
   * Induction over the iterations: a relation that holds from every state
   * to itself, composes, and holds from the state before each iteration to
   * the state after it, holds from the first state to the last.
   */
  lemma {:induction false} IterateKeeps(s0: SimState, n: nat, body: (SimState, nat) --> SimState, rel: (SimState, SimState) -> bool)
    requires forall s, k :: body.requires(s, k)
    requires forall s :: rel(s, s)
    requires forall a, b, c :: rel(a, b) && rel(b, c) ==> rel(a, c)
    requires forall s, k :: rel(s, body(s, k))
    ensures rel(s0, Iterate(s0, n, body))
    decreases n
  {
    if n > 0 {
      var prev := Iterate(s0, n - 1, body);
      IterateKeeps(s0, n - 1, body, rel);
      assert rel(prev, body(prev, n - 1));
    }
  }

  /** A loop whose every iteration advances the clock one hour advances it `n` hours in `n` iterations. */
  lemma {:induction false} IterateClock(s0: SimState, n: nat, body: (SimState, nat) --> SimState)
    requires forall s, k :: body.requires(s, k)
    requires forall s, k :: body(s, k).now == s.now + SecondsPerHour
    ensures Iterate(s0, n, body).now == s0.now + n * SecondsPerHour
    decreases n
  {
    if n > 0 {
      IterateClock(s0, n - 1, body);
    }
  }

  /** The body of the nested loops: iteration `k` runs hour `k % 24` of its day. */
  function HourBody(rng: Rng): (SimState, nat) --> SimState
  {
    (s: SimState, k: nat) requires ValidRng(rng) => HourStep(s, k, k % TotalHours, rng)
  }

  /** The first `n` iterations of the nested loops; the iteration with index k is hour `k % 24` of day `k / 24`. */
  function Steps(s0: SimState, n: nat, rng: Rng): SimState
    requires ValidRng(rng)
  {
    Iterate(s0, n, HourBody(rng))
  }

  /** Iteration `day * 24 + hour` of the flattened loop is hour `hour` of day `day`. */
  lemma StepIndexHour(day: nat, hour: nat)
    requires hour < TotalHours
    ensures (day * TotalHours + hour) % TotalHours == hour
    ensures (day * TotalHours + hour) / TotalHours == day
  {
  }

  /** The first iteration of day `day + 1` follows the last one of day `day`. */
  lemma NextDay(day: nat)
    ensures day * TotalHours + TotalHours == (day + 1) * TotalHours
  {
  }

  /** The state after iteration `n`, at hour `n % 24`, is the state after `n + 1` iterations. */
  lemma StepsNext(s0: SimState, n: nat, hour: nat, rng: Rng, before: SimState, after: SimState)
    requires ValidRng(rng) && hour == n % TotalHours
    requires before == Steps(s0, n, rng) && after == HourStep(before, n, hour, rng)
    ensures after == Steps(s0, n + 1, rng)
  {
    IterateNext(s0, n, HourBody(rng));
    assert HourBody(rng)(before, n) == after;
  }

  /** After `n` iterations the clock has advanced exactly `n` hours. */
  lemma StepsClock(s0: SimState, n: nat, rng: Rng)
    requires ValidRng(rng)
    ensures Steps(s0, n, rng).now == s0.now + n * SecondsPerHour
  {
    forall s, k: nat ensures HourBody(rng)(s, k).now == s.now + SecondsPerHour {
      HourStepGrows(s, k, k % TotalHours, rng);
    }
    IterateClock(s0, n, HourBody(rng));
  }

  /**
   * Between `s` and `s'` rows were only appended: `next_id` grew by exactly
   * as many rows as were appended; the rows of `s` keep their positions and
   * IDs; the appended rows carry consecutive IDs from `s.nextId` on.
   */
  predicate Grows(s: SimState, s': SimState)
  {
    && |s.df| <= |s'.df| && s'.nextId - s.nextId == |s'.df| - |s.df|
    && (forall i :: 0 <= i < |s.df| ==> s'.df[i].id == s.df[i].id)
    && (forall k :: |s.df| <= k < |s'.df| ==> s'.df[k].id == s.nextId + (k - |s.df|))
  }

  lemma GrowsTransitive(s1: SimState, s2: SimState, s3: SimState)
    requires Grows(s1, s2) && Grows(s2, s3)
    ensures Grows(s1, s3)
  {
    forall k | |s1.df| <= k < |s3.df|
      ensures s3.df[k].id == s1.nextId + (k - |s1.df|)
    {
      if k < |s2.df| {
        assert s3.df[k].id == s2.df[k].id;
      }
    }
  }

  /**
   * One hour moves the clock by exactly one hour and appends exactly the
   * rows it created, with consecutive IDs from the old `next_id`, which
   * grows by their number; the rows already there keep their positions
   * and IDs.
   */
  lemma HourStepGrows(s: SimState, step: nat, hour: nat, rng: Rng)
    requires ValidRng(rng)
    ensures var s' := HourStep(s, step, hour, rng);
      && Grows(s, s') && s'.now == s.now + SecondsPerHour
      && |s'.df| == |s.df| + HourCounts(rng, step, hour).creations
  {
    var c := HourCounts(rng, step, hour);
    var created := CreatedRows(s, step, hour, rng);
    var draws, picks := UpdateDraws(rng, step, c.updates), DeletePicks(rng, step, c.deletes);
    HourStepTable(s, step, hour, rng);
    AppendUpdateDeleteIds(s.df, created, draws, picks, s.now, s.nextId);
  }

  /**
   * Appending rows with consecutive IDs from `nextId`, then updating and
   * deleting, keeps every ID at its position.
   */
  lemma AppendUpdateDeleteIds(rows: seq<Record>, created: seq<Record>, draws: seq<UpdateDraw>, picks: seq<nat>, now: int, nextId: int)
    requires forall k :: 0 <= k < |draws| ==> ValidUpdateDraw(draws[k])
    requires forall k :: 0 <= k < |created| ==> created[k].id == nextId + k
    ensures var r := ApplyDeletes(ApplyUpdates(rows + created, draws, now), picks);
      && |r| == |rows| + |created|
      && (forall i :: 0 <= i < |rows| ==> r[i].id == rows[i].id)
      && (forall k :: |rows| <= k < |r| ==> r[k].id == nextId + (k - |rows|))
  {
    var appended := rows + created;
    ApplyUpdatesUpdatedDuring(appended, draws, now);
    ApplyDeletesEffect(ApplyUpdates(appended, draws, now), picks);
    assert forall i :: 0 <= i < |rows| ==> appended[i] == rows[i];
    assert forall k :: |rows| <= k < |appended| ==> appended[k] == created[k - |rows|];
  }

  /** Over any number of iterations rows are only appended, with consecutive fresh IDs. */
  lemma StepsGrow(s0: SimState, n: nat, rng: Rng)
    requires ValidRng(rng)
    ensures Grows(s0, Steps(s0, n, rng))
  {
    forall a, b, c | Grows(a, b) && Grows(b, c) ensures Grows(a, c) {
      GrowsTransitive(a, b, c);
    }
    forall s, k: nat ensures Grows(s, HourBody(rng)(s, k)) {
      HourStepGrows(s, k, k % TotalHours, rng);
    }
    IterateKeeps(s0, n, HourBody(rng), (a, b) => Grows(a, b));
  }

  // ---------------------------------------------------------------------
  // Properties of rows across hours

  /**
   * What the hours between `from` and `to` can have done to one row: its
   * ID, the columns written only at creation, `Created`, `Day` and `Hour`
   * are as they were; its flag stayed or went from False to True; a row
   * that was not live is unchanged; `Modified` is unchanged or lies in the
   * window; each updatable column is unchanged or holds a value an update
   * writes.
   */
  predicate Evolved(a: Record, b: Record, from: int, to: int)
  {
    && a.id == b.id && a.attributes == b.attributes && a.created == b.created
    && a.day == b.day && a.hour == b.hour
    && FlagStep(a.isDeleted, b.isDeleted)
    && (!IsLive(a) ==> b == a)
    && (b.modified == a.modified || from <= b.modified < to)
    && ColumnsKeptOrUpdated(a, b)
  }

  lemma EvolvedTransitive(a: Record, b: Record, c: Record, from: int, mid: int, to: int)
    requires from <= mid <= to
    requires Evolved(a, b, from, mid) && Evolved(b, c, mid, to)
    ensures Evolved(a, c, from, to)
  {
  }

  /** Updates then deletes in one hour: the row evolved within that hour. */
  lemma UpdateThenDeleteEvolved(a: Record, m: Record, b: Record, now: int)
    requires UpdatedDuring(a, m, now)
    requires SameButFlag(m, b) && FlagStep(m.isDeleted, b.isDeleted)
    ensures Evolved(a, b, now, now + SecondsPerHour)
  {
  }

  /**
   * Appending rows, then the updates and the deletes of the hour starting
   * at `now`: every row, old or appended, has `Evolved` within that hour.
   */
  lemma AppendUpdateDeleteEvolves(rows: seq<Record>, created: seq<Record>, draws: seq<UpdateDraw>, picks: seq<nat>, now: int)
    requires forall k :: 0 <= k < |draws| ==> ValidUpdateDraw(draws[k])
    ensures var r := ApplyDeletes(ApplyUpdates(rows + created, draws, now), picks);
      && |r| == |rows| + |created|
      && (forall i :: 0 <= i < |rows| ==> Evolved(rows[i], r[i], now, now + SecondsPerHour))
      && (forall k :: |rows| <= k < |r| ==> Evolved(created[k - |rows|], r[k], now, now + SecondsPerHour))
  {
    var appended := rows + created;
    var updated := ApplyUpdates(appended, draws, now);
    var deleted := ApplyDeletes(updated, picks);
    ApplyUpdatesUpdatedDuring(appended, draws, now);
    ApplyDeletesEffect(updated, picks);
    forall j | 0 <= j < |appended|
      ensures Evolved(appended[j], deleted[j], now, now + SecondsPerHour)
    {
      UpdateThenDeleteEvolved(appended[j], updated[j], deleted[j], now);
    }
    assert forall i :: 0 <= i < |rows| ==> appended[i] == rows[i];
    assert forall k :: |rows| <= k < |appended| ==> appended[k] == created[k - |rows|];
  }

  /** One hour leaves every row that was already there `Evolved` within that hour. */
  lemma HourStepEvolves(s: SimState, step: nat, hour: nat, rng: Rng)
    requires ValidRng(rng)
    ensures var s' := HourStep(s, step, hour, rng);
      && |s.df| <= |s'.df|
      && (forall i :: 0 <= i < |s.df| ==> Evolved(s.df[i], s'.df[i], s.now, s.now + SecondsPerHour))
  {
    var c := HourCounts(rng, step, hour);
    var created := CreatedRows(s, step, hour, rng);
    var draws, picks := UpdateDraws(rng, step, c.updates), DeletePicks(rng, step, c.deletes);
    HourStepTable(s, step, hour, rng);
    AppendUpdateDeleteEvolves(s.df, created, draws, picks, s.now);
  }

  /**
   * Every row appended in one hour is `Evolved` within that hour from the
   * row `create_records` built for it from that hour's draws.
   */
  lemma HourStepCreatedEvolve(s: SimState, step: nat, hour: nat, rng: Rng)
    requires ValidRng(rng)
    ensures forall k :: |s.df| <= k < |HourStep(s, step, hour, rng).df| ==>
      Evolved(CreatedRows(s, step, hour, rng)[k - |s.df|], HourStep(s, step, hour, rng).df[k], s.now, s.now + SecondsPerHour)
  {
    var c := HourCounts(rng, step, hour);
    var created := CreatedRows(s, step, hour, rng);
    var draws, picks := UpdateDraws(rng, step, c.updates), DeletePicks(rng, step, c.deletes);
    HourStepTable(s, step, hour, rng);
    AppendUpdateDeleteEvolves(s.df, created, draws, picks, s.now);
  }

  /**
   * Every row of `s` has `Evolved` into the row at the same position of
   * `s'` within the span from `s.now` to `s'.now`.
   */
  predicate RowsEvolved(s: SimState, s': SimState)
  {
    && s.now <= s'.now && |s.df| <= |s'.df|
    && forall i :: 0 <= i < |s.df| ==> Evolved(s.df[i], s'.df[i], s.now, s'.now)
  }

  lemma RowsEvolvedReflexive(s: SimState)
    ensures RowsEvolved(s, s)
  {
    forall i | 0 <= i < |s.df|
      ensures Evolved(s.df[i], s.df[i], s.now, s.now)
    {
    }
  }

  lemma RowsEvolvedTransitive(s1: SimState, s2: SimState, s3: SimState)
    requires RowsEvolved(s1, s2) && RowsEvolved(s2, s3)
    ensures RowsEvolved(s1, s3)
  {
    forall i | 0 <= i < |s1.df|
      ensures Evolved(s1.df[i], s3.df[i], s1.now, s3.now)
    {
      EvolvedTransitive(s1.df[i], s2.df[i], s3.df[i], s1.now, s2.now, s3.now);
    }
  }

  /** `HourStepEvolves` for the rows already in the table, as a relation between the two states. */
  lemma HourStepRowsEvolved(s: SimState, step: nat, hour: nat, rng: Rng, s': SimState)
    requires ValidRng(rng) && s' == HourStep(s, step, hour, rng)
    ensures RowsEvolved(s, s')
  {
    HourStepEvolves(s, step, hour, rng);
    HourStepGrows(s, step, hour, rng);
  }

  /** Over any number of hours every row present at the start has `Evolved` within that span. */
  lemma StepsEvolve(s0: SimState, n: nat, rng: Rng)
    requires ValidRng(rng)
    ensures RowsEvolved(s0, Steps(s0, n, rng))
  {
    forall s | true ensures RowsEvolved(s, s) {
      RowsEvolvedReflexive(s);
    }
    forall a, b, c | RowsEvolved(a, b) && RowsEvolved(b, c) ensures RowsEvolved(a, c) {
      RowsEvolvedTransitive(a, b, c);
    }
    forall s, k: nat ensures RowsEvolved(s, HourBody(rng)(s, k)) {
      HourStepRowsEvolved(s, k, k % TotalHours, rng, HourBody(rng)(s, k));
    }
    IterateKeeps(s0, n, HourBody(rng), (a, b) => RowsEvolved(a, b));
  }

  /**
   * A row that is not live when the run starts is never touched: this
   * covers every row read from the input file, whose flag is missing, and
   * every row already deleted.
   */
  lemma NotLiveRowsFrozen(s0: SimState, n: nat, rng: Rng, i: nat)
    requires ValidRng(rng)
    requires i < |s0.df| && !IsLive(s0.df[i])
    ensures i < |Steps(s0, n, rng).df| && Steps(s0, n, rng).df[i] == s0.df[i]
  {
    StepsEvolve(s0, n, rng);
  }

  /**
   * IDs stay unique: if the starting rows have distinct IDs, all below
   * `next_id`, the rows after any number of hours have distinct IDs.
   */
  lemma StepsKeepIdsUnique(s0: SimState, n: nat, rng: Rng)
    requires ValidRng(rng)
    requires forall i, j :: 0 <= i < j < |s0.df| ==> s0.df[i].id != s0.df[j].id
    requires forall i :: 0 <= i < |s0.df| ==> s0.df[i].id < s0.nextId
    ensures var s := Steps(s0, n, rng);
      forall i, j :: 0 <= i < j < |s.df| ==> s.df[i].id != s.df[j].id
  {
    StepsGrow(s0, n, rng);
  }

  /** `Day`/`Hour` of the run: when it starts at midnight, step k runs at hour k mod 24 of day k / 24, the hour the scheduler classified. */
  lemma StepClockMatchesHourIndex(s0: SimState, k: nat, rng: Rng)
    requires ValidRng(rng)
    requires s0.now % SecondsPerDay == 0
    ensures HourOf(Steps(s0, k, rng).now) == k % TotalHours
    ensures DayOf(Steps(s0, k, rng).now) == DayOf(s0.now) + k / TotalHours
    ensures HourAligned(Steps(s0, k, rng).now)
  {
    HourOfStep(s0.now, k);
    StepsClock(s0, k, rng);
    var t := Steps(s0, k, rng).now;
    var q := s0.now / SecondsPerDay;
    assert t == (q * 24 + k) * SecondsPerHour;
    HourDivUnique(t, q * 24 + k, 0);
  }

  // ---------------------------------------------------------------------
  // Counting live rows

  /** The positions `lo` up to, not including, `hi`. */
  function Range(lo: nat, hi: nat): (r: set<nat>)
    ensures forall i :: i in r <==> lo <= i < hi
    ensures lo <= hi ==> |r| == hi - lo
    decreases hi
  {
    if hi <= lo then {} else Range(lo, hi - 1) + {hi - 1}
  }

  /** Appending live rows adds exactly their positions to the live set. */
  lemma AppendLive(rows: seq<Record>, created: seq<Record>)
    requires forall k :: 0 <= k < |created| ==> IsLive(created[k])
    ensures |LiveSet(rows + created)| == |LiveSet(rows)| + |created|
  {
    var all := rows + created;
    assert LiveSet(all) == LiveSet(rows) + Range(|rows|, |all|) by {
      forall i | i in LiveSet(all) ensures i in LiveSet(rows) + Range(|rows|, |all|) {
        if i < |rows| {
          assert all[i] == rows[i];
        }
      }
      forall i | i in LiveSet(rows) + Range(|rows|, |all|) ensures i in LiveSet(all) {
        if i < |rows| {
          assert all[i] == rows[i];
        } else {
          assert all[i] == created[i - |rows|];
        }
      }
    }
    assert LiveSet(rows) * Range(|rows|, |all|) == {};
  }

  /**
   * The live set of one hour: it grows by exactly the rows created and,
   * since updates never change a flag, shrinks by exactly
   * `min(num_deletes, live rows after creation)`.
   */
  lemma HourStepLiveCount(s: SimState, step: nat, hour: nat, rng: Rng)
    requires ValidRng(rng)
    ensures var c := HourCounts(rng, step, hour);
      var live := |LiveSet(s.df)| + c.creations;
      |LiveSet(HourStep(s, step, hour, rng).df)| == live - Min(c.deletes, live)
  {
    var c := HourCounts(rng, step, hour);
    var created := CreatedRows(s, step, hour, rng);
    var appended := s.df + created;
    var updates := UpdateDraws(rng, step, c.updates);
    AppendLive(s.df, created);
    ApplyUpdatesKeepsLiveness(appended, updates, s.now);
    ApplyDeletesEffect(ApplyUpdates(appended, updates, s.now), DeletePicks(rng, step, c.deletes));
  }

  /**
   * With zero creations, updates and deletes drawn for every hour, the
   * table after any number of hours is the table before.
   */
  lemma IdleRunKeepsTable(s0: SimState, n: nat, rng: Rng)
    requires ValidRng(rng)
    requires forall s: nat, r: HourlyRates :: Count(rng.normal(s, r).creations) == 0
    requires forall s: nat, r: HourlyRates :: Count(rng.normal(s, r).updates) == 0
    requires forall s: nat, r: HourlyRates :: Count(rng.normal(s, r).deletes) == 0
    ensures Steps(s0, n, rng).df == s0.df
    ensures Steps(s0, n, rng).nextId == s0.nextId
  {
    forall s, k: nat ensures HourBody(rng)(s, k).df == s.df && HourBody(rng)(s, k).nextId == s.nextId {
      var c := HourCounts(rng, k, k % TotalHours);
      assert c == Counts(0, 0, 0);
      assert s.df + CreatedRows(s, k, k % TotalHours, rng) == s.df;
    }
    IterateKeeps(s0, n, HourBody(rng), (a: SimState, b: SimState) => a.df == b.df && a.nextId == b.nextId);
  }
}
