/**
 * The `puzzle_logs` table: one row per logged puzzle attempt, and the
 * numbering invariant that sequential ingestion keeps on it.
 */
module PuzzleLog {

  /**
   * One attempt record. Timestamps are already parsed, as microseconds;
   * durationSeconds is derived once at ingestion and stored.
   */
  datatype Row = Row(
    sessionId: string,
    puzzleId: string,
    startTime: int,
    endTime: int,
    durationSeconds: int,
    attemptNumber: int,
    deviceType: string)

  function Durations(rows: seq<Row>): seq<int>
  {
    seq(|rows|, i requires 0 <= i < |rows| => rows[i].durationSeconds)
  }

  function AttemptNumbers(rows: seq<Row>): seq<int>
  {
    seq(|rows|, i requires 0 <= i < |rows| => rows[i].attemptNumber)
  }

  /** Number of rows logged for one (session, puzzle) pair. */
  function CountPair(rows: seq<Row>, s: string, p: string): nat
  {
    if rows == [] then 0
    else
      var last := rows[|rows| - 1];
      CountPair(rows[..|rows| - 1], s, p) + (if last.sessionId == s && last.puzzleId == p then 1 else 0)
  }

  /** The attempt numbers recorded for one (session, puzzle) pair. */
  function PairAttempts(rows: seq<Row>, s: string, p: string): (as_: set<int>)
    ensures forall a :: a in as_ <==>
      exists i :: 0 <= i < |rows| && rows[i].sessionId == s && rows[i].puzzleId == p && rows[i].attemptNumber == a
  {
    if rows == [] then {}
    else
      var n := |rows| - 1;
      var last := rows[n];
      assert forall i :: 0 <= i < n ==> rows[..n][i] == rows[i];
      PairAttempts(rows[..n], s, p) + (if last.sessionId == s && last.puzzleId == p then {last.attemptNumber} else {})
  }

  /**
   * Every row carries 1 + the number of earlier rows of its own
   * (session, puzzle) pair: the numbering that sequential ingestion produces.
   */
  predicate WellNumbered(rows: seq<Row>)
  {
    forall i :: 0 <= i < |rows| ==>
      rows[i].attemptNumber == 1 + CountPair(rows[..i], rows[i].sessionId, rows[i].puzzleId)
  }

  /** Appending a row adds one to its own pair's count and leaves every other pair's count alone. */
  lemma AppendCountPair(rows: seq<Row>, r: Row, s: string, p: string)
    ensures CountPair(rows + [r], s, p)
         == CountPair(rows, s, p) + (if r.sessionId == s && r.puzzleId == p then 1 else 0)
  {
    assert (rows + [r])[..|rows|] == rows;
  }

  /** A row may be appended to a well-numbered table exactly when it carries the next attempt number of its pair. */
  lemma AppendWellNumbered(rows: seq<Row>, r: Row)
    requires WellNumbered(rows)
    ensures WellNumbered(rows + [r]) <==> r.attemptNumber == 1 + CountPair(rows, r.sessionId, r.puzzleId)
  {
    var rows' := rows + [r];
    assert rows'[..|rows|] == rows;
    forall i | 0 <= i < |rows| ensures rows'[..i] == rows[..i] && rows'[i] == rows[i] {
    }
  }

  /** Every prefix of a well-numbered table is well numbered. */
  lemma WellNumberedPrefix(rows: seq<Row>, n: nat)
    requires WellNumbered(rows) && n <= |rows|
    ensures WellNumbered(rows[..n])
  {
    forall i | 0 <= i < n ensures rows[..n][..i] == rows[..i] {
    }
  }

  /** In a well-numbered table each (session, puzzle) pair holds exactly the attempt numbers 1..k, k its row count. */
  lemma {:induction false} WellNumberedPairAttempts(rows: seq<Row>, s: string, p: string)
    requires WellNumbered(rows)
    ensures forall a :: a in PairAttempts(rows, s, p) <==> 1 <= a <= CountPair(rows, s, p)
  {
    if rows != [] {
      var n := |rows| - 1;
      var init, last := rows[..n], rows[n];
      assert rows == init + [last];
      WellNumberedPrefix(rows, n);
      WellNumberedPairAttempts(init, s, p);
      if last.sessionId == s && last.puzzleId == p {
        assert last.attemptNumber == CountPair(init, s, p) + 1;
      }
    }
  }

  /**
   * Each (session, puzzle) pair holds exactly the attempt numbers 1..k, k its
   * row count, whatever the order of its rows.
   */
  ghost predicate PairsContiguous(rows: seq<Row>)
  {
    forall s, p, a :: a in PairAttempts(rows, s, p) <==> 1 <= a <= CountPair(rows, s, p)
  }

  /** The order-based numbering implies the order-free one. */
  lemma WellNumberedContiguous(rows: seq<Row>)
    requires WellNumbered(rows)
    ensures PairsContiguous(rows)
  {
    forall s, p {
      WellNumberedPairAttempts(rows, s, p);
    }
  }

  /** Appending a row adds its attempt number to its own pair and to no other. */
  lemma AppendPairAttempts(rows: seq<Row>, r: Row, s: string, p: string)
    ensures PairAttempts(rows + [r], s, p)
         == PairAttempts(rows, s, p) + (if r.sessionId == s && r.puzzleId == p then {r.attemptNumber} else {})
  {
    assert (rows + [r])[..|rows|] == rows;
  }

  /** Appending a row numbered one past its pair's count keeps every pair contiguous. */
  lemma AppendPairsContiguous(rows: seq<Row>, r: Row)
    requires PairsContiguous(rows)
    requires r.attemptNumber == 1 + CountPair(rows, r.sessionId, r.puzzleId)
    ensures PairsContiguous(rows + [r])
  {
    forall s, p ensures forall a :: a in PairAttempts(rows + [r], s, p) <==> 1 <= a <= CountPair(rows + [r], s, p) {
      AppendPairAttempts(rows, r, s, p);
      AppendCountPair(rows, r, s, p);
    }
  }

  /** Two rows of one pair: that pair holds both attempt numbers and counts two, every other pair holds nothing. */
  lemma TwoRowsOfOnePair(x: Row, y: Row, s: string, p: string)
    requires x.sessionId == y.sessionId && x.puzzleId == y.puzzleId
    ensures x.sessionId == s && x.puzzleId == p ==>
      PairAttempts([x, y], s, p) == {x.attemptNumber, y.attemptNumber} && CountPair([x, y], s, p) == 2
    ensures !(x.sessionId == s && x.puzzleId == p) ==>
      PairAttempts([x, y], s, p) == {} && CountPair([x, y], s, p) == 0
  {
    assert [x, y] == [x] + [y] && [x] == [] + [x];
    AppendPairAttempts([x], y, s, p);
    AppendPairAttempts([], x, s, p);
    AppendCountPair([x], y, s, p);
    AppendCountPair([], x, s, p);
  }

  /** Contiguity ignores row order, so it is strictly weaker: attempt 2 stored before attempt 1. */
  lemma ContiguousNotWellNumbered()
    ensures var rows := [Row("s", "p", 0, 0, 0, 2, "unknown"), Row("s", "p", 0, 0, 0, 1, "unknown")];
      PairsContiguous(rows) && !WellNumbered(rows)
  {
    var r2, r1 := Row("s", "p", 0, 0, 0, 2, "unknown"), Row("s", "p", 0, 0, 0, 1, "unknown");
    var rows := [r2, r1];
    forall s, p ensures forall a :: a in PairAttempts(rows, s, p) <==> 1 <= a <= CountPair(rows, s, p) {
      TwoRowsOfOnePair(r2, r1, s, p);
    }
    assert rows[..0] == [];
    assert rows[0].attemptNumber != 1 + CountPair(rows[..0], "s", "p");
  }
}
