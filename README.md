# Mystery House analytics, modelled in Dafny

The back end of the Mystery House game stores one row per completed puzzle in
the `puzzle_logs` table and serves three endpoints over it:

- `POST /log` validates a completion event and computes its duration in whole
  seconds. It numbers the attempt as one more than the rows the
  (session, puzzle) pair already has, and appends the row, all or nothing.
- `GET /analytics` returns the number of distinct sessions. It also returns one
  summary per puzzle, ascending by puzzle id: completions, the truncated mean
  duration and the largest attempt number.
- `GET /analytics/time-by-attempt` groups the rows by puzzle and attempt
  number and averages each group's durations. A loop then gathers the groups
  into a map from puzzle id to a list of (attempt number, truncated mean).

The model has six modules:

- `Wrappers` holds the `Option` type.
- `Arith` holds truncating division, sum, minimum, maximum and the truncated
  mean, with its bounds.
- `Order` holds a generic strict total order, sorted insertion, the sorted
  distinct keys of a list (what `GROUP BY … ORDER BY` yields) and the
  lexicographic order on strings.
- `PuzzleLog` holds the table row and two attempt-number invariants.
  - `PairsContiguous`: each (session, puzzle) pair holds exactly the
    attempts 1..k, k being its row count, in any row order.
  - `WellNumbered`: every row's attempt number is one plus the number of
    earlier rows of its pair. This is stronger, because it also fixes the
    order; it implies `PairsContiguous`, and the converse fails.
  Ingestion keeps both invariants. The analytics results assume only the
  weaker one.
- `Analytics` models the two read endpoints. `get_analytics` becomes pure
  functions and lemmas. `time_by_attempt` becomes two methods: one runs the
  grouped query, and the other runs the loop that builds the map.
- `Ingestion` models `POST /log`. `Ingest` is a specification function of the
  old table. The class `PuzzleTable` holds the table as a field `rows`, and
  its method `LogPuzzle` does what the route does, step by step. Its
  postcondition ties the new table to `Ingest`, and the lemmas about `Ingest`
  carry the properties.

The model makes these choices:

- A timestamp is an integer number of microseconds. A duration is the
  difference divided by 1 000 000 and truncated toward zero, since `int()`
  truncates `total_seconds()` (taken as exact; see "## Left out").
- The SQL `avg` followed by `int()` is taken as the exact mean truncated toward zero (see "## Left out" for where the decimal rounding can differ).
- The ISO-8601 parser, including the `"Z"` removal, is a parameter
  `parse: string -> Option<int>`. It gives `None` where the parser raises.
- Whether the commit succeeds is a boolean parameter.
- Rows of the table are a sequence in insertion order.
- Puzzle ids are ordered lexicographically by character code.

## Model

| member | source | states |
|---|---|---|
| Arith.TruncDiv | routes/analytics_routes.py:32 | The quotient truncated toward zero: for a non-negative dividend it is the floor, and for a negative one the ceiling, of the exact quotient. |
| Arith.MaxOf | routes/analytics_routes.py:24 | The result is an element of the list and no element exceeds it. |
| Arith.MinOf | routes/analytics_routes.py:23 | The result is an element of the list and no element is below it. |
| Arith.Mean | routes/analytics_routes.py:32 | `int(avg(...))`: the sum divided by the count, truncated toward zero. Its properties are stated by `Arith.MeanBounds`. |
| Arith.MeanBounds | routes/analytics_routes.py:23 | The truncated mean times the count brackets the sum within one count, rounding toward zero. It also lies between the least and the greatest value. |
| Order.Insert | routes/analytics_routes.py:25 | Inserting into a strictly sorted list keeps it strictly sorted. It adds exactly the new key, and the list grows only if the key was absent. |
| Order.SortedKeys | routes/analytics_routes.py:25 | The keys of the rows, each once, strictly ascending, and no other key. |
| Order.StrLessIsStrictTotal | routes/analytics_routes.py:25 | The lexicographic order on puzzle ids is irreflexive, transitive and total. |
| PuzzleLog.CountPair | routes/log_routes.py:28-31 | The `filter_by(session_id, puzzle_id).count()` query: the number of rows of one pair. Its behaviour under append is stated by `PuzzleLog.AppendCountPair`. |
| PuzzleLog.PairAttempts | routes/log_routes.py:28-32 | A number is a pair's attempt exactly when some row of that pair carries it. |
| PuzzleLog.AppendCountPair | routes/log_routes.py:28-32 | Appending a row adds one to its own pair's count and leaves every other pair's count alone. |
| PuzzleLog.AppendWellNumbered | routes/log_routes.py:28-47 | A well-numbered table stays well numbered after an append exactly when the new row carries one plus its pair's count. |
| PuzzleLog.WellNumbered | routes/log_routes.py:28-32 | The numbering that sequential ingestion produces: each row is one plus the earlier rows of its pair. It is kept by `PuzzleLog.AppendWellNumbered` and `Ingestion.IngestWellNumbered`. |
| PuzzleLog.WellNumberedPairAttempts | routes/log_routes.py:28-32 | In a well-numbered table each pair's attempt numbers are exactly 1..k, k being its row count. |
| PuzzleLog.PairsContiguous | routes/log_routes.py:28-32 | The order-free invariant: each pair's attempt numbers are exactly 1..k, k being its row count. It is kept by `PuzzleLog.AppendPairsContiguous` and `Ingestion.IngestKeepsPairsContiguous`. |
| PuzzleLog.WellNumberedContiguous | routes/log_routes.py:28-32 | A well-numbered table has contiguous pairs. |
| PuzzleLog.AppendPairAttempts | routes/log_routes.py:35-47 | Appending a row adds its attempt number to its own pair's attempt set and to no other pair's. |
| PuzzleLog.AppendPairsContiguous | routes/log_routes.py:28-47 | Appending a row numbered one past its pair's count keeps every pair contiguous. |
| PuzzleLog.ContiguousNotWellNumbered | routes/log_routes.py:28-32 | A pair stored as attempt 2 and then attempt 1 is contiguous but not well numbered, so the order-free invariant is strictly weaker. |
| Analytics.TotalSessions | routes/analytics_routes.py:15-17 | `count(distinct session_id)`: the size of the set of session ids. Its properties are stated by `Analytics.TotalSessionsBounds` and `Analytics.TotalSessionsOrderInvariant`. |
| Analytics.TotalSessionsBounds | routes/analytics_routes.py:15-17 | The distinct-session count is at most the row count, and at least 1 when there is a row. |
| Analytics.TotalSessionsOrderInvariant | routes/analytics_routes.py:15-17 | Any permutation of the rows gives the same distinct-session count. |
| Analytics.SortedPuzzleIds | routes/analytics_routes.py:20-25 | The observed puzzle ids, each once, strictly ascending, with as many entries as there are distinct ids. |
| Analytics.RowsOf | routes/analytics_routes.py:20-25 | A puzzle's group holds exactly that puzzle's rows, each with its multiplicity in the table. It is non-empty exactly when the puzzle was observed. |
| Analytics.Summarize | routes/analytics_routes.py:29-34 | One entry of `puzzles`: the puzzle's row count, the truncated mean duration and the largest attempt number of its rows. Its properties are stated by `Analytics.SummaryFacts`. |
| Analytics.SummaryFacts | routes/analytics_routes.py:22-33 | Completions is the row count of the puzzle, at least 1. The mean lies between some row's duration and another's. The max attempt number bounds every row of the puzzle and is some row's. |
| Analytics.Summaries | routes/analytics_routes.py:28-36 | The list comprehension over the grouped rows: one summary per given id, in the given order. Its properties are stated by `Analytics.GetAnalytics` and `Analytics.CompletionsSumToRowCount`. |
| Analytics.GetAnalytics | routes/analytics_routes.py:12-42 | The total is the number of distinct session ids. There is one summary per observed puzzle and none for unobserved ones (both directions), strictly ascending by id, each the summary of its own rows. |
| Analytics.CompletionsCover | routes/analytics_routes.py:22 | The completions of summaries of distinct puzzles add up to the rows of those puzzles. |
| Analytics.CompletionsSumToRowCount | routes/analytics_routes.py:28-36 | The completions over all returned summaries add up to the number of rows. |
| Analytics.PairLessIsStrictTotal | routes/analytics_routes.py:57-58 | The order by (puzzle id, attempt number) is a strict total order. |
| Analytics.SortedGroupKeys | routes/analytics_routes.py:53-58 | The observed (puzzle, attempt) pairs, each once, strictly ascending. |
| Analytics.RowsOfGroup | routes/analytics_routes.py:53-58 | A (puzzle, attempt) group holds exactly the rows with that key, each with its multiplicity. It is non-empty exactly when the pair was observed. |
| Analytics.GroupMean | routes/analytics_routes.py:56 | The average of one group's durations, truncated toward zero. Its bounds are stated by `Analytics.GroupMeanBounds`. |
| Analytics.GroupMeanBounds | routes/analytics_routes.py:56 | A group's truncated mean lies between the durations of two of its rows. |
| Analytics.Averages | routes/analytics_routes.py:53-58 | One result row per given key, in the given order, each carrying that group's truncated mean. |
| Analytics.GroupedAverages | routes/analytics_routes.py:53-58 | The grouped query returns one row per observed (puzzle, attempt) pair and no other (both directions). Its rows are ascending by puzzle and then attempt, each carrying its group's truncated mean. |
| Analytics.Entries | routes/analytics_routes.py:61-68 | The list that the loop builds for one puzzle: that puzzle's result rows in order, as (attempt, average) entries. Its properties are stated by `Analytics.EntriesMembers` and `Analytics.EntriesAscending`. |
| Analytics.EntriesMembers | routes/analytics_routes.py:61-68 | A puzzle's list holds exactly the statistics of that puzzle's result rows. |
| Analytics.EntriesAscending | routes/analytics_routes.py:61-68 | Over result rows sorted by (puzzle, attempt), each puzzle's list ascends strictly by attempt number. |
| Analytics.GroupByPuzzle | routes/analytics_routes.py:61-68 | The loop leaves a non-empty list for each puzzle with a result row, holding that puzzle's rows in order. Every other puzzle has no entry. |
| Analytics.GroupedByAppend | routes/analytics_routes.py:62-68 | One loop step appends the row to its puzzle's list, creating the list on the puzzle's first row, and keeps the loop invariant. |
| Analytics.TimeByAttempt | routes/analytics_routes.py:50-71 | The keys are exactly the observed puzzles, and every list is non-empty and strictly ascending. A list has an entry for an attempt number exactly when that (puzzle, attempt) pair was observed. Each average is its group's truncated mean. When every (session, puzzle) pair holds the attempts 1..k, a list is exactly attempts 1..m, m being the max_attempts_by_any_session of get_analytics. |
| Analytics.GroupedStatsKeys | routes/analytics_routes.py:61-68 | The map built from the grouped query has exactly the observed puzzles as keys. |
| Analytics.GroupedStatsEntries | routes/analytics_routes.py:61-68 | Each list ascends and carries exactly the observed attempt numbers of its puzzle, each with its group's mean. |
| Analytics.GroupedStatsContiguous | routes/analytics_routes.py:57-68 | When every pair holds the attempts 1..k, each list is 1, 2, …, max_attempts_by_any_session. |
| Analytics.PuzzlesOfGroups | routes/analytics_routes.py:53-58 | A puzzle is observed exactly when one of its (puzzle, attempt) groups is. |
| Analytics.KeysFromAttempts | routes/analytics_routes.py:63-64 | A puzzle gets a key exactly when some group of it was observed. |
| Analytics.EntryAttempts | routes/analytics_routes.py:65-66 | A puzzle's list carries exactly the attempt numbers that the result rows name for it. |
| Analytics.EntryAverages | routes/analytics_routes.py:67 | Each list entry carries its group's truncated mean. |
| Analytics.AttemptsPositive | routes/log_routes.py:32 | When every pair holds the attempts 1..k, every attempt number is at least 1. |
| Analytics.ContiguousAttempts | routes/analytics_routes.py:57-58 | When every pair holds the attempts 1..k, a puzzle's observed attempt numbers are exactly 1..m, m its largest. |
| Analytics.AscendingRange | routes/analytics_routes.py:61-68 | A strictly ascending list whose attempt numbers are exactly 1..m is 1, 2, …, m. |
| Ingestion.DurationSeconds | routes/log_routes.py:22 | The whole seconds from start to end, truncated toward zero, for either order of the timestamps. |
| Ingestion.DurationAntisymmetric | routes/log_routes.py:22 | Swapping the timestamps negates the duration. |
| Ingestion.NegativeDurationPossible | routes/log_routes.py:22 | An end 2.5 s before the start is stored as -2: nothing orders the timestamps. |
| Ingestion.HasRequiredFields | routes/log_routes.py:14-16 | The body is present, non-empty and names all four required fields. The 400 answer it decides is stated by `Ingestion.IngestOutcome`. |
| Ingestion.DeviceTypeOf | routes/log_routes.py:25 | The supplied device type, or "unknown" when the field is absent. |
| Ingestion.NextAttemptNumber | routes/log_routes.py:32 | One plus the pair's existing row count, so at least 1. |
| Ingestion.NextAttemptFresh | routes/log_routes.py:28-32 | When every pair holds the attempts 1..k, the next attempt number exceeds every stored attempt of the pair and is unused. |
| Ingestion.NewRow | routes/log_routes.py:35-43 | The row built from the body: the ids, the parsed times, their duration, the next attempt number and the device type. |
| Ingestion.StatusCode | routes/log_routes.py:16 | The HTTP status of each outcome: 200, 400 or 500. |
| Ingestion.Ingest | routes/log_routes.py:10-55 | The functional model of `log_puzzle`: the new table and the response for one request. Its properties are stated by `Ingestion.IngestOutcome`, `Ingestion.IngestWellNumbered` and `Ingestion.IngestKeepsPairsContiguous`. |
| Ingestion.IngestOutcome | routes/log_routes.py:11-55 | The status is 400, 200 or 500 as follows. 400 exactly when the body or a required field is missing. 200 exactly when both timestamps parse and the commit succeeds. Otherwise the table is unchanged. An accepted request appends one row with the body's ids, the parsed times, their duration, the supplied or "unknown" device, and one plus the pair's count as attempt number, which the response reports. |
| Ingestion.IngestWellNumbered | routes/log_routes.py:28-47 | Every request keeps a well-numbered table well numbered. |
| Ingestion.IngestKeepsPairsContiguous | routes/log_routes.py:28-47 | If every pair holds the attempts 1..k before a request, the same holds after it. |
| Ingestion.LoggedAttemptsContiguous | routes/log_routes.py:28-47 | On a table whose pairs hold the attempts 1..k, after an accepted request the pair's stored attempt numbers are exactly 1 up to the reported number, so k grows by one. |
| Ingestion.ReplayWellNumbered | routes/log_routes.py:28-47 | Serving requests one at a time from a well-numbered (for example empty) table keeps it well numbered. |
| Ingestion.ReplayPairsContiguous | routes/log_routes.py:28-47 | Serving requests one at a time keeps every pair holding exactly the attempts 1..k. |
| Ingestion.ReplayExtends | routes/log_routes.py:35-47 | Serving requests never changes or removes a stored row, and adds at most one row per request. |
| Ingestion.PuzzleTable.constructor | models/puzzle_log.py:3-13 | The table starts empty and well numbered. |
| Ingestion.PuzzleTable.LogPuzzle | routes/log_routes.py:10-55 | The new table and the response are those of Ingest on the old table. 400 means a missing field and 200 means an accepted request, and failures leave the table unchanged. On success exactly one row is appended after the unchanged old rows, and its attempt number is the one reported. Both numbering invariants are kept. |

## Left out

- HTTP, Flask and JSON encoding are not modelled. A request body is a map from field names to strings or absent. JSON `null` fields and non-string values, which would make `.replace` raise, are not modelled.
- The database session is not modelled: queries are functions of the table, and the commit is a boolean parameter.
  - The `duration_seconds` and `attempt_number` columns are 32-bit integers, and the model's integers are unbounded. The commit parameter absorbs the failure of a value beyond 2^31 - 1, which the real database answers with 500. The exception paths of the two read endpoints (500 on a database error) are not modelled.
- ISO-8601 parsing and the `"Z"` removal are a parameter. Time zones and the calendar are not modelled.
  - The parameter parses one string at a time, so it cannot express a step that depends on both timestamps. Example: one timestamp carries an offset and the other is naive after the "Z" is removed. Both parse, and then `end - start` raises, giving a 500.
- Floating point is not modelled. `total_seconds()` returns a double, microseconds divided by 10^6 and rounded. The model takes it as the exact quotient, which can differ for spans beyond about 9·10^9 seconds. The database `avg(integer)` returns a decimal rounded to about 16 significant digits. The model takes it as the exact mean, so `int(avg)` can differ when the exact mean lies within that rounding unit below an integer.
- SQL collation is not modelled: puzzle ids are ordered by character code.
- Concurrency is not modelled. Two simultaneous requests for the same pair can both count the same existing rows; the model serves requests one at a time.
- Ingestion.ReplayWellNumbered: assumes the table was well numbered before the first request, for example empty. Rows inserted by other means are not covered.
- Analytics.TimeByAttempt: the returned Dafny map has no key order. Python's dict keeps insertion order, ascending by puzzle id. That order is stated for the query rows (`GroupedAverages`) rather than for the map.
- The `id` primary key column is not modelled: no core operation reads it.
- The feedback routes, the application factory, the configuration and the database setup script are not part of this model. That includes `setup_db.py`, whose table has no `device_type` column.
- The funnel, first-try and improvement metrics are not part of this model.
