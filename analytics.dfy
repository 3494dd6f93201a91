/**
 * The two analytics endpoints: overall statistics (`get_analytics`) and the
 * mean time per puzzle and attempt number (`time_by_attempt`), computed over
 * a snapshot of the `puzzle_logs` table.
 */
module Analytics {
  import opened Arith
  import opened Order
  import opened PuzzleLog

  datatype PuzzleSummary = PuzzleSummary(
    puzzleId: string,
    completions: nat,
    avgDurationSeconds: int,
    maxAttemptsByAnySession: int)

  datatype OverallStats = OverallStats(totalSessions: nat, puzzles: seq<PuzzleSummary>)

  // ---------------------------------------------------------------------------
  // count(distinct session_id)

  function SessionIds(log: seq<Row>): set<string>
  {
    set r | r in log :: r.sessionId
  }

  function TotalSessions(log: seq<Row>): nat
  {
    |SessionIds(log)|
  }

  /** There are at most as many distinct sessions as rows, and at least one when there is a row. */
  lemma {:induction false} TotalSessionsBounds(log: seq<Row>)
    ensures TotalSessions(log) <= |log|
    ensures log != [] ==> TotalSessions(log) >= 1
  {
    if log != [] {
      var n := |log| - 1;
      assert log == log[..n] + [log[n]];
      assert SessionIds(log) == SessionIds(log[..n]) + {log[n].sessionId};
      TotalSessionsBounds(log[..n]);
    }
  }

  /** The distinct-session count does not depend on the order of the rows. */
  lemma TotalSessionsOrderInvariant(a: seq<Row>, b: seq<Row>)
    requires multiset(a) == multiset(b)
    ensures TotalSessions(a) == TotalSessions(b)
  {
    forall r ensures r in a <==> r in b {
      assert r in a <==> r in multiset(a);
      assert r in b <==> r in multiset(b);
    }
    assert SessionIds(a) == SessionIds(b);
  }

  // ---------------------------------------------------------------------------
  // GROUP BY puzzle_id ORDER BY puzzle_id

  function PuzzleIds(log: seq<Row>): set<string>
  {
    set r | r in log :: r.puzzleId
  }

  function PuzzleKey(r: Row): string
  {
    r.puzzleId
  }

  /** The observed puzzle ids, each once, in ascending order. */
  function SortedPuzzleIds(log: seq<Row>): (ks: seq<string>)
    ensures Sorted(ks, StrLess)
    ensures forall p :: p in ks <==> p in PuzzleIds(log)
    ensures |ks| == |PuzzleIds(log)|
  {
    StrLessIsStrictTotal();
    var ks := SortedKeys(log, PuzzleKey, StrLess);
    assert Elements(ks) == PuzzleIds(log);
    SortedCard(ks, StrLess);
    ks
  }

  /** The rows of one puzzle, in table order: exactly the log's rows for that puzzle, with their multiplicities. */
  function RowsOf(log: seq<Row>, p: string): (rs: seq<Row>)
    ensures forall r :: r in rs <==> r in log && r.puzzleId == p
    ensures forall r: Row :: r.puzzleId == p ==> multiset(rs)[r] == multiset(log)[r]
    ensures |rs| > 0 <==> p in PuzzleIds(log)
  {
    if log == [] then []
    else
      var n := |log| - 1;
      assert log == log[..n] + [log[n]];
      assert PuzzleIds(log) == PuzzleIds(log[..n]) + {log[n].puzzleId};
      var rs := RowsOf(log[..n], p);
      if log[n].puzzleId == p then rs + [log[n]] else rs
  }

  /** Some row of the list has the given duration; used to locate the shortest and the longest row. */
  lemma DurationWitness(rows: seq<Row>, d: int)
    requires d in Durations(rows)
    ensures exists r :: r in rows && r.durationSeconds == d
  {
    var k :| 0 <= k < |rows| && Durations(rows)[k] == d;
    assert rows[k] in rows;
  }

  lemma AttemptWitness(rows: seq<Row>, a: int)
    requires a in AttemptNumbers(rows)
    ensures exists r :: r in rows && r.attemptNumber == a
  {
    var k :| 0 <= k < |rows| && AttemptNumbers(rows)[k] == a;
    assert rows[k] in rows;
  }

  lemma AttemptsListed(rows: seq<Row>)
    ensures forall r :: r in rows ==> r.attemptNumber in AttemptNumbers(rows)
  {
    forall r | r in rows ensures r.attemptNumber in AttemptNumbers(rows) {
      var k :| 0 <= k < |rows| && rows[k] == r;
      assert AttemptNumbers(rows)[k] == r.attemptNumber;
    }
  }

  /** One entry of the `puzzles` list: count, truncated mean duration and greatest attempt number of a puzzle's rows. */
  function Summarize(log: seq<Row>, p: string): PuzzleSummary
    requires p in PuzzleIds(log)
  {
    var rs := RowsOf(log, p);
    PuzzleSummary(p, |rs|, Mean(Durations(rs)), MaxOf(AttemptNumbers(rs)))
  }

  /**
   * The summary of an observed puzzle counts its rows (at least one), its mean
   * duration lies between its shortest and its longest row, and its maximum
   * attempt number bounds every row of the puzzle and is some row's.
   */
  lemma SummaryFacts(log: seq<Row>, p: string)
    requires p in PuzzleIds(log)
    ensures Summarize(log, p).puzzleId == p
    ensures Summarize(log, p).completions == |RowsOf(log, p)| >= 1
    ensures exists r :: r in log && r.puzzleId == p && r.durationSeconds <= Summarize(log, p).avgDurationSeconds
    ensures exists r :: r in log && r.puzzleId == p && Summarize(log, p).avgDurationSeconds <= r.durationSeconds
    ensures forall r :: r in log && r.puzzleId == p ==> r.attemptNumber <= Summarize(log, p).maxAttemptsByAnySession
    ensures exists r :: r in log && r.puzzleId == p && r.attemptNumber == Summarize(log, p).maxAttemptsByAnySession
  {
    var rs := RowsOf(log, p);
    var ds, as_ := Durations(rs), AttemptNumbers(rs);
    MeanBounds(ds);
    DurationWitness(rs, MinOf(ds));
    DurationWitness(rs, MaxOf(ds));
    AttemptWitness(rs, MaxOf(as_));
    AttemptsListed(rs);
  }

  /** The summaries of the given observed puzzles, in the given order. */
  function Summaries(log: seq<Row>, ks: seq<string>): seq<PuzzleSummary>
    requires forall k :: k in ks ==> k in PuzzleIds(log)
  {
    seq(|ks|, i requires 0 <= i < |ks| => Summarize(log, ks[i]))
  }

  /** A list whose ids are those of ks names exactly the ids that ks holds. */
  lemma IdsCovered(ks: seq<string>, ps: seq<PuzzleSummary>, ids: set<string>)
    requires |ps| == |ks| && forall i :: 0 <= i < |ks| ==> ps[i].puzzleId == ks[i]
    requires forall p :: p in ks <==> p in ids
    requires Sorted(ks, StrLess)
    ensures forall p :: p in ids <==> exists i :: 0 <= i < |ps| && ps[i].puzzleId == p
    ensures forall i, j :: 0 <= i < j < |ps| ==> StrLess(ps[i].puzzleId, ps[j].puzzleId)
  {
    forall p | p in ids ensures exists i :: 0 <= i < |ps| && ps[i].puzzleId == p {
      var i :| 0 <= i < |ks| && ks[i] == p;
      assert ps[i].puzzleId == p;
    }
  }

  /**
   * Overall statistics: the number of distinct sessions, and exactly one
   * summary per observed puzzle, strictly ascending by puzzle id.
   */
  function GetAnalytics(log: seq<Row>): (stats: OverallStats)
    ensures stats.totalSessions == |set r | r in log :: r.sessionId|
    ensures |stats.puzzles| == |PuzzleIds(log)|
    ensures forall i, j :: 0 <= i < j < |stats.puzzles| ==> StrLess(stats.puzzles[i].puzzleId, stats.puzzles[j].puzzleId)
    ensures forall p :: p in PuzzleIds(log) <==> exists i :: 0 <= i < |stats.puzzles| && stats.puzzles[i].puzzleId == p
    ensures forall i :: 0 <= i < |stats.puzzles| ==>
      stats.puzzles[i].puzzleId in PuzzleIds(log) && stats.puzzles[i] == Summarize(log, stats.puzzles[i].puzzleId)
  {
    var ks := SortedPuzzleIds(log);
    var ps := Summaries(log, ks);
    IdsCovered(ks, ps, PuzzleIds(log));
    OverallStats(TotalSessions(log), ps)
  }

  // ---------------------------------------------------------------------------
  // The completions of all puzzles add up to the number of rows.

  function TotalCompletions(ps: seq<PuzzleSummary>): int
  {
    if ps == [] then 0 else ps[0].completions + TotalCompletions(ps[1..])
  }

  /** The number of rows whose puzzle is in ids. */
  function CountIn(log: seq<Row>, ids: set<string>): nat
  {
    if log == [] then 0
    else CountIn(log[..|log| - 1], ids) + (if log[|log| - 1].puzzleId in ids then 1 else 0)
  }

  lemma {:induction false} CountInAdd(log: seq<Row>, ids: set<string>, p: string)
    requires p !in ids
    ensures CountIn(log, ids + {p}) == CountIn(log, ids) + |RowsOf(log, p)|
  {
    if log != [] {
      CountInAdd(log[..|log| - 1], ids, p);
    }
  }

  lemma {:induction false} CountInNone(log: seq<Row>)
    ensures CountIn(log, {}) == 0
  {
    if log != [] {
      CountInNone(log[..|log| - 1]);
    }
  }

  lemma {:induction false} CountInAll(log: seq<Row>, ids: set<string>)
    requires PuzzleIds(log) <= ids
    ensures CountIn(log, ids) == |log|
  {
    if log != [] {
      var n := |log| - 1;
      assert log == log[..n] + [log[n]];
      assert log[n] in log;
      assert PuzzleIds(log[..n]) <= PuzzleIds(log);
      CountInAll(log[..n], ids);
    }
  }

  /** Summaries whose completions count the rows of distinct puzzles add up to the rows of those puzzles. */
  lemma {:induction false} CompletionsCover(log: seq<Row>, ks: seq<string>, ps: seq<PuzzleSummary>)
    requires |ps| == |ks| && forall i :: 0 <= i < |ks| ==> ps[i].completions == |RowsOf(log, ks[i])|
    requires forall i, j :: 0 <= i < j < |ks| ==> ks[i] != ks[j]
    ensures TotalCompletions(ps) == CountIn(log, Elements(ks))
  {
    if ks == [] {
      assert Elements(ks) == {};
      CountInNone(log);
    } else {
      var rest, qs := ks[1..], ps[1..];
      ElementsUncons(ks);
      assert forall i :: 0 <= i < |rest| ==> qs[i] == ps[i + 1] && rest[i] == ks[i + 1];
      CompletionsCover(log, rest, qs);
      CountInAdd(log, Elements(rest), ks[0]);
    }
  }

  /** Every row is counted in exactly one puzzle's completions. */
  lemma CompletionsSumToRowCount(log: seq<Row>)
    ensures TotalCompletions(GetAnalytics(log).puzzles) == |log|
  {
    var ks := SortedPuzzleIds(log);
    var ps := Summaries(log, ks);
    assert GetAnalytics(log).puzzles == ps;
    forall i, j | 0 <= i < j < |ks| ensures ks[i] != ks[j] {
      StrLessIrreflexive(ks[i]);
    }
    forall i | 0 <= i < |ks| ensures ps[i].completions == |RowsOf(log, ks[i])| {
      assert ps[i] == Summarize(log, ks[i]);
    }
    CompletionsCover(log, ks, ps);
    ElementsExactly(ks, PuzzleIds(log));
    CountInAll(log, PuzzleIds(log));
  }

  // ---------------------------------------------------------------------------
  // time_by_attempt: GROUP BY puzzle_id, attempt_number ORDER BY puzzle_id, attempt_number

  /** One result row of the grouped query. */
  datatype GroupAverage = GroupAverage(puzzleId: string, attemptNumber: int, avgDuration: int)

  /** One element of a puzzle's list in the returned map. */
  datatype AttemptStat = AttemptStat(attemptNumber: int, avgDurationSeconds: int)

  /** Order by puzzle id, then by attempt number. */
  predicate PairLess(a: (string, int), b: (string, int))
  {
    StrLess(a.0, b.0) || (a.0 == b.0 && a.1 < b.1)
  }

  lemma PairLessIsStrictTotal()
    ensures StrictTotalOrder(PairLess)
  {
    forall a: (string, int) ensures !PairLess(a, a) {
      StrLessIrreflexive(a.0);
    }
    forall a: (string, int), b: (string, int), c: (string, int) | PairLess(a, b) && PairLess(b, c)
      ensures PairLess(a, c)
    {
      if StrLess(a.0, b.0) && StrLess(b.0, c.0) {
        StrLessTransitive(a.0, b.0, c.0);
      }
    }
    forall a: (string, int), b: (string, int) ensures a == b || PairLess(a, b) || PairLess(b, a) {
      StrLessTotal(a.0, b.0);
    }
  }

  function GroupKey(r: Row): (string, int)
  {
    (r.puzzleId, r.attemptNumber)
  }

  /** The observed (puzzle, attempt number) pairs. */
  function GroupKeys(log: seq<Row>): set<(string, int)>
  {
    set r | r in log :: GroupKey(r)
  }

  function SortedGroupKeys(log: seq<Row>): (ks: seq<(string, int)>)
    ensures Sorted(ks, PairLess)
    ensures forall k :: k in ks <==> k in GroupKeys(log)
  {
    PairLessIsStrictTotal();
    var ks := SortedKeys(log, GroupKey, PairLess);
    assert Elements(ks) == GroupKeys(log);
    ks
  }

  /** The rows of one (puzzle, attempt number) group, in table order, with their multiplicities. */
  function RowsOfGroup(log: seq<Row>, p: string, a: int): (rs: seq<Row>)
    ensures forall r :: r in rs <==> r in log && GroupKey(r) == (p, a)
    ensures forall r: Row :: GroupKey(r) == (p, a) ==> multiset(rs)[r] == multiset(log)[r]
    ensures |rs| > 0 <==> (p, a) in GroupKeys(log)
  {
    if log == [] then []
    else
      var n := |log| - 1;
      assert log == log[..n] + [log[n]];
      assert GroupKeys(log) == GroupKeys(log[..n]) + {GroupKey(log[n])};
      var rs := RowsOfGroup(log[..n], p, a);
      if GroupKey(log[n]) == (p, a) then rs + [log[n]] else rs
  }

  /** The truncated mean duration of an observed group. */
  function GroupMean(log: seq<Row>, p: string, a: int): int
    requires (p, a) in GroupKeys(log)
  {
    Mean(Durations(RowsOfGroup(log, p, a)))
  }

  /** A group's truncated mean lies between the durations of its shortest and its longest row. */
  lemma GroupMeanBounds(log: seq<Row>, p: string, a: int)
    requires (p, a) in GroupKeys(log)
    ensures exists r :: r in log && GroupKey(r) == (p, a) && r.durationSeconds <= GroupMean(log, p, a)
    ensures exists r :: r in log && GroupKey(r) == (p, a) && GroupMean(log, p, a) <= r.durationSeconds
  {
    var rs := RowsOfGroup(log, p, a);
    var ds := Durations(rs);
    MeanBounds(ds);
    DurationWitness(rs, MinOf(ds));
    DurationWitness(rs, MaxOf(ds));
  }

  function KeyOf(g: GroupAverage): (string, int)
  {
    (g.puzzleId, g.attemptNumber)
  }

  predicate GroupSorted(rs: seq<GroupAverage>)
  {
    forall i, j :: 0 <= i < j < |rs| ==> PairLess(KeyOf(rs[i]), KeyOf(rs[j]))
  }

  function Averages(log: seq<Row>, ks: seq<(string, int)>): (rs: seq<GroupAverage>)
    requires forall k :: k in ks ==> k in GroupKeys(log)
    ensures |rs| == |ks|
    ensures forall i :: 0 <= i < |ks| ==> rs[i] == GroupAverage(ks[i].0, ks[i].1, GroupMean(log, ks[i].0, ks[i].1))
  {
    if ks == [] then [] else [GroupAverage(ks[0].0, ks[0].1, GroupMean(log, ks[0].0, ks[0].1))] + Averages(log, ks[1..])
  }

  /** Result rows keyed like ks are sorted like ks and name exactly the keys that ks holds. */
  lemma KeysCovered(ks: seq<(string, int)>, rs: seq<GroupAverage>, keys: set<(string, int)>)
    requires |rs| == |ks| && forall i :: 0 <= i < |ks| ==> KeyOf(rs[i]) == ks[i]
    requires forall k :: k in ks <==> k in keys
    requires Sorted(ks, PairLess)
    ensures GroupSorted(rs)
    ensures forall k :: k in keys <==> exists i :: 0 <= i < |rs| && KeyOf(rs[i]) == k
  {
    forall k | k in keys ensures exists i :: 0 <= i < |rs| && KeyOf(rs[i]) == k {
      var i :| 0 <= i < |ks| && ks[i] == k;
      assert KeyOf(rs[i]) == k;
    }
  }

  /**
   * The result of the grouped query: one row per observed (puzzle, attempt
   * number) pair, ascending by puzzle and then attempt, each carrying its
   * group's truncated mean duration. The query itself returns the exact
   * mean and the loop truncates it when building an entry; the model
   * truncates here instead, which gives the same entries.
   */
  function GroupedAverages(log: seq<Row>): (rs: seq<GroupAverage>)
    ensures GroupSorted(rs)
    ensures forall k :: k in GroupKeys(log) <==> exists i :: 0 <= i < |rs| && KeyOf(rs[i]) == k
    ensures forall i :: 0 <= i < |rs| ==>
      KeyOf(rs[i]) in GroupKeys(log) && rs[i].avgDuration == GroupMean(log, rs[i].puzzleId, rs[i].attemptNumber)
  {
    var ks := SortedGroupKeys(log);
    var rs := Averages(log, ks);
    KeysCovered(ks, rs, GroupKeys(log));
    rs
  }

  function StatOf(g: GroupAverage): AttemptStat
  {
    AttemptStat(g.attemptNumber, g.avgDuration)
  }

  predicate AscendingAttempts(es: seq<AttemptStat>)
  {
    forall i, j :: 0 <= i < j < |es| ==> es[i].attemptNumber < es[j].attemptNumber
  }

  predicate HasAttempt(es: seq<AttemptStat>, a: int)
  {
    exists j :: 0 <= j < |es| && es[j].attemptNumber == a
  }

  /**
   * The list that the loop of time_by_attempt accumulates for puzzle p over
   * the result rows rs: the rows of p in order, as attempt statistics.
   */
  function Entries(rs: seq<GroupAverage>, p: string): seq<AttemptStat>
  {
    if rs == [] then []
    else
      var n := |rs| - 1;
      var es := Entries(rs[..n], p);
      if rs[n].puzzleId == p then es + [StatOf(rs[n])] else es
  }

  /** The entries for p are the statistics of exactly the result rows of p. */
  lemma {:induction false} EntriesMembers(rs: seq<GroupAverage>, p: string)
    ensures forall e :: e in Entries(rs, p) <==> exists k :: 0 <= k < |rs| && rs[k].puzzleId == p && e == StatOf(rs[k])
  {
    if rs != [] {
      var n := |rs| - 1;
      EntriesMembers(rs[..n], p);
      assert forall k :: 0 <= k < n ==> rs[..n][k] == rs[k];
    }
  }

  /** Over result rows sorted by (puzzle, attempt), the entries of one puzzle ascend strictly by attempt. */
  lemma {:induction false} EntriesAscending(rs: seq<GroupAverage>, p: string)
    requires GroupSorted(rs)
    ensures AscendingAttempts(Entries(rs, p))
  {
    if rs != [] {
      var n := |rs| - 1;
      var init, last := rs[..n], rs[n];
      assert forall k :: 0 <= k < n ==> init[k] == rs[k];
      EntriesAscending(init, p);
      var es := Entries(init, p);
      if last.puzzleId == p {
        EntriesMembers(init, p);
        StrLessIrreflexive(p);
        forall i | 0 <= i < |es| ensures es[i].attemptNumber < last.attemptNumber {
          assert es[i] in es;
          var k :| 0 <= k < n && init[k].puzzleId == p && es[i] == StatOf(init[k]);
          assert PairLess(KeyOf(rs[k]), KeyOf(rs[n]));
        }
      }
    }
  }

  /** The lists that the loop of time_by_attempt has built from the result rows rs. */
  ghost predicate GroupedBy(rs: seq<GroupAverage>, stats: map<string, seq<AttemptStat>>)
  {
    (forall q :: q in stats ==> stats[q] == Entries(rs, q) && stats[q] != []) &&
    (forall q :: q !in stats ==> Entries(rs, q) == [])
  }

  /**
   * time_by_attempt: a map from each observed puzzle to its list of
   * (attempt number, truncated mean duration) entries. Every list is
   * non-empty and strictly ascending by attempt number, holds one entry per
   * attempt number observed for the puzzle, and each entry's average is the
   * truncated mean of exactly the rows of that puzzle and attempt number. When
   * every (session, puzzle) pair holds the attempts 1..k, a puzzle's list is
   * exactly the attempts 1..m, m being the puzzle's max_attempts_by_any_session
   * from get_analytics.
   */
  method TimeByAttempt(log: seq<Row>) returns (stats: map<string, seq<AttemptStat>>)
    ensures stats.Keys == PuzzleIds(log)
    ensures forall p :: p in stats ==> stats[p] != [] && AscendingAttempts(stats[p])
    ensures forall p, a :: p in stats ==> (HasAttempt(stats[p], a) <==> (p, a) in GroupKeys(log))
    ensures forall p, e :: p in stats && e in stats[p] ==>
      (p, e.attemptNumber) in GroupKeys(log) && e.avgDurationSeconds == GroupMean(log, p, e.attemptNumber)
    ensures PairsContiguous(log) ==> forall p :: p in stats ==>
      |stats[p]| == Summarize(log, p).maxAttemptsByAnySession &&
      forall j :: 0 <= j < |stats[p]| ==> stats[p][j].attemptNumber == j + 1
  {
    var results := GroupedAverages(log);
    stats := GroupByPuzzle(results);
    GroupedStatsKeys(log, stats);
    GroupedStatsEntries(log, stats);
    GroupedStatsContiguous(log, stats);
  }

  lemma PrefixStep<T>(s: seq<T>, i: int)
    requires 0 <= i < |s|
    ensures s[..i + 1] == s[..i] + [s[i]]
  {
  }

  /**
   * The loop of time_by_attempt: each result row, in order, is appended to
   * the list of its puzzle, the list being created on the puzzle's first row.
   */
  method GroupByPuzzle(results: seq<GroupAverage>) returns (stats: map<string, seq<AttemptStat>>)
    ensures GroupedBy(results, stats)
  {
    stats := map[];
    var i := 0;
    while i < |results|
      invariant 0 <= i <= |results|
      invariant GroupedBy(results[..i], stats)
    {
      var g := results[i];
      ghost var before := stats;
      if g.puzzleId !in stats {
        stats := stats[g.puzzleId := []];
      }
      stats := stats[g.puzzleId := stats[g.puzzleId] + [StatOf(g)]];
      GroupedByAppend(results[..i], g, before, stats);
      PrefixStep(results, i);
      i := i + 1;
    }
    assert results[..i] == results;
  }

  /** Appending a result row to the list of its puzzle keeps the lists those of the rows seen so far. */
  lemma GroupedByAppend(rs: seq<GroupAverage>, g: GroupAverage, stats: map<string, seq<AttemptStat>>, stats': map<string, seq<AttemptStat>>)
    requires GroupedBy(rs, stats)
    requires stats' == stats[g.puzzleId := (if g.puzzleId in stats then stats[g.puzzleId] else []) + [StatOf(g)]]
    ensures GroupedBy(rs + [g], stats')
  {
    assert (rs + [g])[..|rs|] == rs;
  }

  /** The puzzles with a list are exactly the observed puzzles. */
  lemma GroupedStatsKeys(log: seq<Row>, stats: map<string, seq<AttemptStat>>)
    requires GroupedBy(GroupedAverages(log), stats)
    ensures stats.Keys == PuzzleIds(log)
  {
    var rs := GroupedAverages(log);
    forall p {
      EntryAttempts(rs, GroupKeys(log), p);
    }
    PuzzlesOfGroups(log);
    KeysFromAttempts(rs, GroupKeys(log), PuzzleIds(log), stats);
  }

  /** Each list ascends, carries exactly the observed attempts, and each entry the mean of its group. */
  lemma GroupedStatsEntries(log: seq<Row>, stats: map<string, seq<AttemptStat>>)
    requires GroupedBy(GroupedAverages(log), stats)
    ensures forall p :: p in stats ==> AscendingAttempts(stats[p])
    ensures forall p, a :: p in stats ==> (HasAttempt(stats[p], a) <==> (p, a) in GroupKeys(log))
    ensures forall p, e :: p in stats && e in stats[p] ==>
      (p, e.attemptNumber) in GroupKeys(log) && e.avgDurationSeconds == GroupMean(log, p, e.attemptNumber)
  {
    var rs := GroupedAverages(log);
    forall p | p in stats
      ensures AscendingAttempts(stats[p])
      ensures forall a :: HasAttempt(stats[p], a) <==> (p, a) in GroupKeys(log)
      ensures forall e :: e in stats[p] ==>
        (p, e.attemptNumber) in GroupKeys(log) && e.avgDurationSeconds == GroupMean(log, p, e.attemptNumber)
    {
      EntriesAscending(rs, p);
      EntryAttempts(rs, GroupKeys(log), p);
      EntryAverages(log, rs, p);
    }
  }

  /**
   * When every (session, puzzle) pair holds the attempts 1..k, each list holds
   * the attempts 1, 2, ..., max_attempts_by_any_session.
   */
  lemma GroupedStatsContiguous(log: seq<Row>, stats: map<string, seq<AttemptStat>>)
    requires stats.Keys == PuzzleIds(log)
    requires forall p :: p in stats ==> AscendingAttempts(stats[p])
    requires forall p, a :: p in stats ==> (HasAttempt(stats[p], a) <==> (p, a) in GroupKeys(log))
    ensures PairsContiguous(log) ==> forall p :: p in stats ==>
      |stats[p]| == Summarize(log, p).maxAttemptsByAnySession &&
      forall j :: 0 <= j < |stats[p]| ==> stats[p][j].attemptNumber == j + 1
  {
    if PairsContiguous(log) {
      forall p | p in stats
        ensures |stats[p]| == Summarize(log, p).maxAttemptsByAnySession
        ensures forall j :: 0 <= j < |stats[p]| ==> stats[p][j].attemptNumber == j + 1
      {
        SummaryFacts(log, p);
        var m := Summarize(log, p).maxAttemptsByAnySession;
        ContiguousAttempts(log, p, m);
        AscendingRange(stats[p], m);
      }
    }
  }

  /** A puzzle is observed exactly when some (puzzle, attempt) group of it is. */
  lemma PuzzlesOfGroups(log: seq<Row>)
    ensures forall p :: p in PuzzleIds(log) <==> exists a :: (p, a) in GroupKeys(log)
  {
    forall p | p in PuzzleIds(log) ensures exists a :: (p, a) in GroupKeys(log) {
      var r :| r in log && r.puzzleId == p;
      assert GroupKey(r) in GroupKeys(log);
    }
  }

  /** The puzzles with a non-empty list are those with an observed group. */
  lemma KeysFromAttempts(rs: seq<GroupAverage>, keys: set<(string, int)>, ids: set<string>, stats: map<string, seq<AttemptStat>>)
    requires GroupedBy(rs, stats)
    requires forall p, a :: HasAttempt(Entries(rs, p), a) <==> (p, a) in keys
    requires forall p :: p in ids <==> exists a :: (p, a) in keys
    ensures stats.Keys == ids
  {
    forall p ensures p in stats <==> p in ids {
      if p in stats {
        assert HasAttempt(Entries(rs, p), stats[p][0].attemptNumber);
      }
      if p in ids {
        var a :| (p, a) in keys;
        assert HasAttempt(Entries(rs, p), a);
      }
    }
  }

  /** The entries of p carry exactly the attempt numbers of the keys of p that the rows name. */
  lemma EntryAttempts(rs: seq<GroupAverage>, keys: set<(string, int)>, p: string)
    requires forall k :: k in keys <==> exists i :: 0 <= i < |rs| && KeyOf(rs[i]) == k
    ensures forall a :: HasAttempt(Entries(rs, p), a) <==> (p, a) in keys
  {
    var es := Entries(rs, p);
    EntriesMembers(rs, p);
    forall a ensures HasAttempt(es, a) <==> (p, a) in keys {
      if HasAttempt(es, a) {
        var j :| 0 <= j < |es| && es[j].attemptNumber == a;
        assert es[j] in es;
      }
      if (p, a) in keys {
        var k :| 0 <= k < |rs| && KeyOf(rs[k]) == (p, a);
        assert StatOf(rs[k]) in es;
        var j :| 0 <= j < |es| && es[j] == StatOf(rs[k]);
      }
    }
  }

  /** Each entry of p carries the mean of its group when each result row does. */
  lemma EntryAverages(log: seq<Row>, rs: seq<GroupAverage>, p: string)
    requires forall i :: 0 <= i < |rs| ==>
      KeyOf(rs[i]) in GroupKeys(log) && rs[i].avgDuration == GroupMean(log, rs[i].puzzleId, rs[i].attemptNumber)
    ensures forall e :: e in Entries(rs, p) ==>
      (p, e.attemptNumber) in GroupKeys(log) && e.avgDurationSeconds == GroupMean(log, p, e.attemptNumber)
  {
    EntriesMembers(rs, p);
  }

  /** When every pair holds the attempts 1..k, every row's attempt number is at least 1. */
  lemma AttemptsPositive(log: seq<Row>, r: Row)
    requires PairsContiguous(log) && r in log
    ensures r.attemptNumber >= 1
  {
    var j :| 0 <= j < |log| && log[j] == r;
    assert r.attemptNumber in PairAttempts(log, r.sessionId, r.puzzleId);
  }

  /**
   * When every pair holds the attempts 1..k, the attempt numbers observed for
   * a puzzle are exactly 1..m, where m is the largest attempt number among its rows.
   */
  lemma ContiguousAttempts(log: seq<Row>, p: string, m: int)
    requires PairsContiguous(log)
    requires exists r :: r in log && r.puzzleId == p && r.attemptNumber == m
    requires forall r :: r in log && r.puzzleId == p ==> r.attemptNumber <= m
    ensures m >= 1
    ensures forall a :: (p, a) in GroupKeys(log) <==> 1 <= a <= m
  {
    var top :| top in log && top.puzzleId == p && top.attemptNumber == m;
    AttemptsPositive(log, top);
    var t :| 0 <= t < |log| && log[t] == top;
    assert m in PairAttempts(log, top.sessionId, p);
    forall a ensures (p, a) in GroupKeys(log) <==> 1 <= a <= m {
      if (p, a) in GroupKeys(log) {
        var r :| r in log && GroupKey(r) == (p, a);
        AttemptsPositive(log, r);
      }
      if 1 <= a <= m {
        assert a in PairAttempts(log, top.sessionId, p);
        var j :| 0 <= j < |log| && log[j].sessionId == top.sessionId && log[j].puzzleId == p && log[j].attemptNumber == a;
        assert log[j] in log && GroupKey(log[j]) == (p, a);
      }
    }
  }

  /** A strictly ascending list whose attempt numbers are exactly 1..m is the list 1, 2, ..., m. */
  lemma AscendingRange(es: seq<AttemptStat>, m: int)
    requires AscendingAttempts(es) && m >= 0
    requires forall a :: HasAttempt(es, a) <==> 1 <= a <= m
    ensures |es| == m
    ensures forall j :: 0 <= j < |es| ==> es[j].attemptNumber == j + 1
  {
    forall j | 0 <= j < |es| ensures es[j].attemptNumber == j + 1 {
      AscendingRangeAt(es, m, j);
    }
    if |es| > 0 {
      assert HasAttempt(es, es[|es| - 1].attemptNumber);
    }
    if m > 0 {
      assert HasAttempt(es, m);
    }
  }

  lemma {:induction false} AscendingRangeAt(es: seq<AttemptStat>, m: int, i: int)
    requires AscendingAttempts(es)
    requires forall a :: HasAttempt(es, a) <==> 1 <= a <= m
    requires 0 <= i < |es|
    ensures es[i].attemptNumber == i + 1
    decreases i
  {
    assert HasAttempt(es, es[i].attemptNumber);
    if i == 0 {
      assert HasAttempt(es, 1);
    } else {
      AscendingRangeAt(es, m, i - 1);
      assert HasAttempt(es, i + 1);
      var j :| 0 <= j < |es| && es[j].attemptNumber == i + 1;
    }
  }
}
