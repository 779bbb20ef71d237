# Hourly logistics activity simulator, modelled in Dafny

`queryBatchData.py` loads a table of logistics records. It then replays ten
days of warehouse activity on the table, hour by hour. Each simulated hour:

- draws how many records to create, update and delete, using a quiet rate
  for hours 0-7 of the day and a busy rate for hours 8-23;
- appends freshly created records whose IDs continue from `next_id`;
- overwrites one column of randomly chosen live records and stamps their
  `Modified`;
- soft-deletes randomly chosen live records by setting `isDeleted` to True;
- advances `current_datetime` by one hour.

This project models that simulator and proves the contracts it keeps.

The modules follow the script's parts:

- `Clock` (`clock.dfy`): timestamps as whole seconds, and
  `random_timestamp_within_hour`.
- `Records` (`records.dfy`): a row of the table and the value domains of
  its cells. The `isDeleted` flag is three-valued: missing, False or True.
  Rows read from the input file have it missing, so they are never
  candidates for update or delete.
- `RowFactory` (`row_factory.dfy`): `create_records`, as a method with its
  loop, proved against the function `NewRows`.
- `Mutations` (`mutations.dfy`): one iteration and a whole call of
  `update_records` and `delete_records`, as functions of the table and the
  random draws, with their properties.
- `Scheduler` (`scheduler.dfy`): the rates, the counts, one simulated hour
  (`HourStep`) and a run of hours (`Steps`), with the properties that hold
  across hours.
- `Simulation` (`simulation.dfy`): the class `Simulator`, whose fields are
  the script's variables `df`, `next_id` and `current_datetime`.
  - Its methods carry the script's loops and update the fields in place.
  - Each method is proved to leave the fields equal to the specification
    function of its step, so every lemma about those functions holds of the
    running program.
  - `RunScript` runs the whole script on an input table read from the
    generator's file.

Every random draw is an input. The `Rng` value gives, for each step:

- the three normal samples;
- the draws of each created row;
- the draws of each update;
- the pick of each delete.

`ValidRng` states that each draw lies in the bounds of the generator call
that makes it. The properties therefore hold for every outcome of the
generator. `np.random.choice(candidates.index)` becomes a drawn natural
number taken modulo the number of candidates. `PickReachesEveryLiveRow`
shows that no live row is out of reach of this choice.

Behaviours of the code that the model keeps as written, though a reader
might expect otherwise:

- an update does not rewrite `Day` or `Hour`;
- a delete does not touch `Modified`;
- a new record's `Created` may be later than its `Modified`
  (`CreatedMayFollowModified`);
- rows of the input file are never live, since their flag is missing after
  the concatenation (`NotLiveRowsFrozen`);
- counts truncate toward zero before they are clamped at zero, rather than
  being rounded.

## Model

| member | source | states |
|---|---|---|
| Clock.WithinHour | queryBatchData.py:17-20 | the timestamp lies in the hour that opens at the base, at most 59 min 59 s after it |
| Clock.WithinHourReachesEveryInstant | queryBatchData.py:17-20 | every instant of the hour comes from exactly one minute/second draw |
| Clock.HourOf | queryBatchData.py:58 | `current_datetime.hour` lies in 0..23 |
| Clock.SameBucket | queryBatchData.py:54-58 | a timestamp drawn inside an hour that starts on a whole hour has the same date and hour of day as the hour's start |
| Clock.HourOfStep | queryBatchData.py:93-119 | starting at midnight with one hour per step, step k falls at hour k mod 24 of day k / 24 |
| Records.Set | queryBatchData.py:75 | `df.loc[idx, col] = v` writes `v` into column `col` and changes no other cell of the row |
| Records.UpdatedDuringTransitive | queryBatchData.py:66-76 | successive updates within one hour compose into the same relation |
| RowFactory.NewRecord | queryBatchData.py:27-59 | the built row carries the given ID and `isDeleted` False |
| RowFactory.NewRecordFresh | queryBatchData.py:28-59 | every integer column is in its `randint` range, every label is one of its list, Weight/Volume are in their scaled ranges, each historical date is in its window after 2020-01-01, `Created` and `Modified` are in the current hour, `isDeleted` is False, and `Day`/`Hour` are the current date and hour |
| RowFactory.NewRows | queryBatchData.py:24-61 | one row per draw, IDs consecutive from `start_id`, every row live |
| RowFactory.NewRowsAt | queryBatchData.py:26-60 | row k is the record built from draw k with ID `start_id + k`, and it is a fresh row of the hour |
| RowFactory.CreateRecords | queryBatchData.py:24-61 | the loop returns exactly `NewRows`: n records in order, and none when n = 0 |
| RowFactory.NewRecordBucket | queryBatchData.py:54-58 | when the hour starts on a whole hour, a new row's `Day`/`Hour` describe both its `Created` and its `Modified` |
| RowFactory.CreatedMayFollowModified | queryBatchData.py:54-55 | for every hour, some valid draw gives a row with `Created` later than `Modified` |
| Mutations.LiveIndices | queryBatchData.py:68 | the candidates are exactly the rows whose flag is False |
| Mutations.LiveIndicesInOrder | queryBatchData.py:68 | the candidates come in table order, each at most once |
| Mutations.LiveIndicesEmpty | queryBatchData.py:68-70 | the candidate list is empty exactly when no row is live |
| Mutations.Pick | queryBatchData.py:71 | the chosen index is a live row of the table |
| Mutations.PickReachesEveryLiveRow | queryBatchData.py:71 | every live row is chosen by some draw |
| Mutations.NewValue | queryBatchData.py:73-74 | a number in [1000, 9999) for `StorageLocationID`, one of the six labels for the other three columns |
| Mutations.UpdateRow | queryBatchData.py:75-76 | in the chosen row only the chosen column changes, to an allowed value, plus `Modified`, which lands in the current hour |
| Mutations.UpdateOneEffect | queryBatchData.py:66-76 | with no live row nothing changes; otherwise exactly the chosen live row changes, only in the chosen column and `Modified`, and every flag is kept |
| Mutations.UpdateOneUpdatedDuring | queryBatchData.py:66-76 | after one iteration every row stands in the updated-during-this-hour relation to itself before |
| Mutations.ApplyUpdatesUpdatedDuring | queryBatchData.py:65-76 | after the whole call only live rows have changed, only in the four updatable columns (to allowed values) and in `Modified` (inside the hour); IDs, other columns, flags, `Day`/`Hour` are kept |
| Mutations.ApplyUpdatesKeepsLiveness | queryBatchData.py:65-76 | updates never change which rows are live |
| Mutations.SameLivenessSameCandidates | queryBatchData.py:68 | two tables that agree row by row on liveness have the same candidates |
| Mutations.ApplyUpdatesNoLive | queryBatchData.py:68-70 | with no live row `update_records` changes nothing |
| Mutations.DeleteOneEffect | queryBatchData.py:82-87 | with no live row nothing changes; otherwise only the chosen live row's flag changes, from False to True, and no other cell of any row |
| Mutations.DeleteOneLiveSet | queryBatchData.py:86-87 | a delete that finds a live row removes exactly the chosen row from the live set |
| Mutations.DeleteOneShrinks | queryBatchData.py:82-87 | one iteration removes exactly one row from a non-empty live set and none from an empty one |
| Mutations.ApplyDeletesEffect | queryBatchData.py:80-87 | the live set only shrinks, by exactly min(num_deletes, live count); flags only go from False to True; nothing else changes |
| Mutations.ApplyDeletesNoLive | queryBatchData.py:83-85 | with no live row `delete_records` changes nothing |
| Mutations.NeverDeletedTwice | queryBatchData.py:83-87 | a row already deleted is never touched again |
| Scheduler.RatesFor | queryBatchData.py:95-104 | an hour uses the inactive rates exactly when its index within the day is below 8, the active rates otherwise |
| Scheduler.Trunc | queryBatchData.py:97 | `int()` truncates toward zero |
| Scheduler.Count | queryBatchData.py:97-104 | `max(0, int(sample))` is never negative, is zero for every sample below 1, and otherwise is the whole part of the sample |
| Scheduler.MaxId | queryBatchData.py:92 | the largest ID of the table |
| Scheduler.Initial | queryBatchData.py:91-92 | the run starts with the input table and the start time, and `next_id` is above every input ID |
| Scheduler.CreatedRows | queryBatchData.py:107 | an hour creates exactly the drawn number of rows |
| Scheduler.StepIndexHour | queryBatchData.py:93-94 | iteration `day * 24 + hour` of the nested loops is hour `hour` of day `day` |
| Scheduler.StepsNext | queryBatchData.py:93-119 | one more pass of the inner loop body is one more step of the run |
| Scheduler.StepsClock | queryBatchData.py:119 | after n steps the clock has advanced exactly n hours |
| Scheduler.HourStepGrows | queryBatchData.py:106-119 | one hour appends exactly the created rows at the end, with IDs consecutive from `next_id`; `next_id` grows by `num_creations`; old rows keep their positions and IDs; the clock moves one hour |
| Scheduler.AppendUpdateDeleteIds | queryBatchData.py:107-116 | appending, updating and deleting keeps every ID at its position |
| Scheduler.StepsGrow | queryBatchData.py:92-119 | over any number of hours rows are only appended, with consecutive IDs from the starting `next_id` |
| Scheduler.UpdateThenDeleteEvolved | queryBatchData.py:113-116 | the updates then the deletes of an hour leave a row evolved within that hour |
| Scheduler.AppendUpdateDeleteEvolves | queryBatchData.py:107-116 | after one hour every row, old or appended, has evolved within that hour |
| Scheduler.HourStepEvolves | queryBatchData.py:106-119 | each old row keeps its ID, creation-time columns, `Created`, `Day`/`Hour`; its flag stays or goes False to True; a non-live row is unchanged; `Modified` is kept or lies in the hour; each updatable column is kept or holds an allowed value |
| Scheduler.HourStepCreatedEvolve | queryBatchData.py:106-116 | each appended row has evolved within the hour from the record built for it |
| Scheduler.StepsEvolve | queryBatchData.py:91-119 | over any number of hours every starting row has evolved within the span of the run |
| Scheduler.NotLiveRowsFrozen | queryBatchData.py:93-119 | a row that is not live at the start, such as every row of the input file, is never changed |
| Scheduler.StepsKeepIdsUnique | queryBatchData.py:92-110 | if the starting IDs are distinct and below `next_id`, the IDs stay distinct over any number of hours |
| Scheduler.StepClockMatchesHourIndex | queryBatchData.py:93-119 | starting at midnight, the clock at step k is on a whole hour, at hour k mod 24 of the start day plus k / 24 |
| Scheduler.AppendLive | queryBatchData.py:109 | appending live rows adds exactly their number to the live count |
| Scheduler.HourStepLiveCount | queryBatchData.py:106-116 | one hour's live count is the old count plus the creations, minus min(num_deletes, that sum) |
| Scheduler.IdleRunKeepsTable | queryBatchData.py:93-119 | with zero counts drawn for every hour, the table and `next_id` never change |
| Simulation.Simulator.constructor | queryBatchData.py:91-92 | the variables start as the initial state, with `next_id` = max ID + 1 |
| Simulation.Simulator.UpdateRecords | queryBatchData.py:65-76 | the loop, including its early exit, leaves the table equal to `ApplyUpdates` of the old table |
| Simulation.Simulator.DeleteRecords | queryBatchData.py:80-87 | the loop, including its early exit, leaves the table equal to `ApplyDeletes` of the old table |
| Simulation.Simulator.SimulateHour | queryBatchData.py:95-119 | the body of the inner loop takes the variables to `HourStep` of their old values |
| Simulation.Simulator.Run | queryBatchData.py:91-119 | the nested loops perform exactly `num_days * 24` steps, end in `Steps` of the start state, and advance the clock exactly that many hours |
| Simulation.UpdateIteration | queryBatchData.py:66-76 | the two cell writes of one update iteration are one step of `ApplyUpdates` |
| Simulation.DeleteIteration | queryBatchData.py:81-87 | the cell write of one delete iteration is one step of `ApplyDeletes` |
| Simulation.RunScript | queryBatchData.py:91-119 | on an input without `isDeleted` values, the input rows come out unchanged at their positions; new rows are appended with IDs consecutive from the largest input ID plus one; output IDs are distinct when input IDs are |

## Left out

- Reading and writing the CSV files, and `print(df.head())`, are I/O and
  are left out. The model starts from an input table and ends with the
  final table.
- Sampling is not modelled: the normal samples of the counts and every
  `randint`, `random` and `choice` draw are inputs. The probabilities that
  `choice` gives its labels are not modelled, only the set of possible
  outcomes.
- `Weight` and `Volume` are exact reals, the `random()` draw times 1000 or
  10; floating-point rounding is not modelled. The normal samples are also
  exact reals.
- Calendar arithmetic is not modelled: dates are whole seconds since
  1970-01-01 without time zone, `Day` is the day number and `Hour` the
  hour of the day. pandas dtype coercion of columns is not modelled either.
- The `KeyError` raised when an update or delete runs before any hour has
  created a row (the input has no `isDeleted` column) is not modelled: the
  table is assumed to have every column, and input rows have the flag
  missing.
- Simulation.Simulator.constructor: requires a non-empty input table. On an
  empty table `df['ID'].max()` is NaN, and the run that follows is not
  modelled.
- Simulation.RunScript: requires an input whose rows have no `isDeleted`
  value, as in the file the generator writes. For other inputs,
  `Simulator.Run` and the `Scheduler` lemmas give the properties.
- The generator `syntheticDataGen.py` is not part of this model. It only
  describes the columns of the input table.
