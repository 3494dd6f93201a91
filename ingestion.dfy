/**
 * The ingestion endpoint `POST /log`: validate the request body, compute the
 * duration and the next attempt number of the (session, puzzle) pair, and
 * append one row to the `puzzle_logs` table, all or nothing.
 *
 * A timestamp is an integer count of microseconds; the ISO-8601 parser is a
 * parameter `parse` that yields None where the real parser raises. Whether the
 * database commit succeeds is a parameter too.
 */
module Ingestion {
  import opened Wrappers
  import opened Arith
  import opened PuzzleLog

  const MicrosPerSecond := 1_000_000

  const RequiredFields: set<string> := {"session_id", "puzzle_id", "start_time", "end_time"}

  const DefaultDeviceType := "unknown"

  /**
   * A JSON request body whose values are strings; None when the body is JSON
   * null. A request with no JSON body at all is refused by the framework
   * before the handler runs, which is not part of this model.
   */
  type Body = Option<map<string, string>>

  /** The three responses of the endpoint: 200 with the attempt number, 400, and 500 after a rollback. */
  datatype Outcome = Logged(attemptNumber: int) | MissingFields | Failure

  function StatusCode(o: Outcome): int
  {
    match o
    case Logged(_) => 200
    case MissingFields => 400
    case Failure => 500
  }

  /** A body is accepted when it is present, non-empty and names every required field. */
  predicate HasRequiredFields(body: Body)
  {
    body.Some? && body.value != map[] && RequiredFields <= body.value.Keys
  }

  /**
   * Whole seconds from start to end, truncated toward zero as Python's `int`
   * truncates `total_seconds()`; negative when end precedes start.
   */
  function DurationSeconds(start: int, end: int): (d: int)
    ensures start <= end ==> 0 <= d && d * MicrosPerSecond <= end - start < (d + 1) * MicrosPerSecond
    ensures end < start ==> d <= 0 && (d - 1) * MicrosPerSecond < end - start <= d * MicrosPerSecond
  {
    TruncDiv(end - start, MicrosPerSecond)
  }

  /** Swapping the two timestamps negates the duration: truncation toward zero is symmetric. */
  lemma DurationAntisymmetric(start: int, end: int)
    ensures DurationSeconds(end, start) == -DurationSeconds(start, end)
  {
    if start != end {
      var x := if start < end then end - start else start - end;
      assert TruncDiv(-x, MicrosPerSecond) == -TruncDiv(x, MicrosPerSecond);
    }
  }

  /** Nothing orders the timestamps: an end two and a half seconds before the start gives -2. */
  lemma NegativeDurationPossible()
    ensures DurationSeconds(2_500_000, 0) == -2
  {
  }

  function DeviceTypeOf(data: map<string, string>): string
  {
    if "device_type" in data then data["device_type"] else DefaultDeviceType
  }

  /** One more than the number of rows the pair already has, so always at least 1. */
  function NextAttemptNumber(rows: seq<Row>, s: string, p: string): (n: int)
    ensures n >= 1
  {
    CountPair(rows, s, p) + 1
  }

  /**
   * When every pair holds the attempts 1..k, the next attempt number of a pair
   * exceeds every attempt number already stored for the pair and was not yet used.
   */
  lemma NextAttemptFresh(rows: seq<Row>, s: string, p: string)
    requires PairsContiguous(rows)
    ensures forall a :: a in PairAttempts(rows, s, p) ==> a < NextAttemptNumber(rows, s, p)
    ensures NextAttemptNumber(rows, s, p) !in PairAttempts(rows, s, p)
  {
  }

  /** The row that an accepted body with parsed timestamps start and end adds to the table. */
  function NewRow(rows: seq<Row>, data: map<string, string>, start: int, end: int): Row
    requires RequiredFields <= data.Keys
  {
    var s, p := data["session_id"], data["puzzle_id"];
    Row(s, p, start, end, DurationSeconds(start, end), NextAttemptNumber(rows, s, p), DeviceTypeOf(data))
  }

  /** The table and the response after one request against the table rows. */
  function Ingest(rows: seq<Row>, body: Body, parse: string -> Option<int>, commitSucceeds: bool): (seq<Row>, Outcome)
  {
    if !HasRequiredFields(body) then (rows, MissingFields)
    else
      var data := body.value;
      var start, end := parse(data["start_time"]), parse(data["end_time"]);
      if start.None? || end.None? || !commitSucceeds then (rows, Failure)
      else
        var row := NewRow(rows, data, start.value, end.value);
        (rows + [row], Logged(row.attemptNumber))
  }

  /** The request was accepted, both timestamps parsed and the commit went through. */
  predicate Accepted(body: Body, parse: string -> Option<int>, commitSucceeds: bool)
  {
    HasRequiredFields(body) && parse(body.value["start_time"]).Some? && parse(body.value["end_time"]).Some? && commitSucceeds
  }

  /**
   * A request is answered 400 exactly when a field is missing and 200 exactly
   * when it is accepted; otherwise the table is left as it was. An accepted
   * request appends one row carrying the body's fields, the parsed
   * timestamps, their duration and the next attempt number of the pair, and
   * the response reports that number.
   */
  lemma IngestOutcome(rows: seq<Row>, body: Body, parse: string -> Option<int>, commitSucceeds: bool)
    ensures Ingest(rows, body, parse, commitSucceeds).1 == MissingFields <==> !HasRequiredFields(body)
    ensures StatusCode(Ingest(rows, body, parse, commitSucceeds).1)
         == if !HasRequiredFields(body) then 400 else if Accepted(body, parse, commitSucceeds) then 200 else 500
    ensures Ingest(rows, body, parse, commitSucceeds).1.Logged? <==> Accepted(body, parse, commitSucceeds)
    ensures !Accepted(body, parse, commitSucceeds) ==> Ingest(rows, body, parse, commitSucceeds).0 == rows
    ensures Accepted(body, parse, commitSucceeds) ==>
      var (rows', outcome) := Ingest(rows, body, parse, commitSucceeds);
      var data := body.value;
      var r := rows'[|rows|];
      |rows'| == |rows| + 1 && rows'[..|rows|] == rows &&
      r.sessionId == data["session_id"] && r.puzzleId == data["puzzle_id"] &&
      Some(r.startTime) == parse(data["start_time"]) && Some(r.endTime) == parse(data["end_time"]) &&
      r.durationSeconds == DurationSeconds(r.startTime, r.endTime) &&
      r.deviceType == (if "device_type" in data then data["device_type"] else DefaultDeviceType) &&
      r.attemptNumber == outcome.attemptNumber == 1 + CountPair(rows, r.sessionId, r.puzzleId)
  {
    if Accepted(body, parse, commitSucceeds) {
      var rows' := Ingest(rows, body, parse, commitSucceeds).0;
      assert rows'[..|rows|] == rows;
    }
  }

  /** Every request keeps the table well numbered. */
  lemma IngestWellNumbered(rows: seq<Row>, body: Body, parse: string -> Option<int>, commitSucceeds: bool)
    requires WellNumbered(rows)
    ensures WellNumbered(Ingest(rows, body, parse, commitSucceeds).0)
  {
    if Accepted(body, parse, commitSucceeds) {
      var data := body.value;
      var row := NewRow(rows, data, parse(data["start_time"]).value, parse(data["end_time"]).value);
      AppendWellNumbered(rows, row);
    }
  }

  /**
   * If every (session, puzzle) pair holds the attempts 1..k before a request,
   * the same holds after it: the row appended is numbered one past its pair's count.
   */
  lemma IngestKeepsPairsContiguous(rows: seq<Row>, body: Body, parse: string -> Option<int>, commitSucceeds: bool)
    requires PairsContiguous(rows)
    ensures PairsContiguous(Ingest(rows, body, parse, commitSucceeds).0)
  {
    if Accepted(body, parse, commitSucceeds) {
      var data := body.value;
      var row := NewRow(rows, data, parse(data["start_time"]).value, parse(data["end_time"]).value);
      AppendPairsContiguous(rows, row);
    }
  }

  /**
   * After an accepted request, on a table whose pairs hold the attempts 1..k,
   * the pair's stored attempt numbers are exactly 1 up to the number just reported.
   */
  lemma LoggedAttemptsContiguous(rows: seq<Row>, body: Body, parse: string -> Option<int>, commitSucceeds: bool)
    requires PairsContiguous(rows) && Accepted(body, parse, commitSucceeds)
    ensures var (rows', outcome) := Ingest(rows, body, parse, commitSucceeds);
      var s, p := body.value["session_id"], body.value["puzzle_id"];
      forall a :: a in PairAttempts(rows', s, p) <==> 1 <= a <= outcome.attemptNumber
  {
    var (rows', outcome) := Ingest(rows, body, parse, commitSucceeds);
    var s, p := body.value["session_id"], body.value["puzzle_id"];
    IngestKeepsPairsContiguous(rows, body, parse, commitSucceeds);
    AppendCountPair(rows, rows'[|rows|], s, p);
    assert rows' == rows + [rows'[|rows|]];
  }

  /** One request as the endpoint sees it: its body and whether its commit will succeed. */
  datatype Request = Request(body: Body, commitSucceeds: bool)

  /** The table after the requests have been served one after another. */
  function Replay(rows: seq<Row>, reqs: seq<Request>, parse: string -> Option<int>): seq<Row>
    decreases |reqs|
  {
    if reqs == [] then rows
    else Replay(Ingest(rows, reqs[0].body, parse, reqs[0].commitSucceeds).0, reqs[1..], parse)
  }

  /** A table built by serving requests one at a time from a well-numbered (e.g. empty) table stays well numbered. */
  lemma {:induction false} ReplayWellNumbered(rows: seq<Row>, reqs: seq<Request>, parse: string -> Option<int>)
    requires WellNumbered(rows)
    ensures WellNumbered(Replay(rows, reqs, parse))
    decreases |reqs|
  {
    if reqs != [] {
      IngestWellNumbered(rows, reqs[0].body, parse, reqs[0].commitSucceeds);
      ReplayWellNumbered(Ingest(rows, reqs[0].body, parse, reqs[0].commitSucceeds).0, reqs[1..], parse);
    }
  }

  /** Serving requests one at a time keeps every pair holding exactly the attempts 1..k. */
  lemma {:induction false} ReplayPairsContiguous(rows: seq<Row>, reqs: seq<Request>, parse: string -> Option<int>)
    requires PairsContiguous(rows)
    ensures PairsContiguous(Replay(rows, reqs, parse))
    decreases |reqs|
  {
    if reqs != [] {
      IngestKeepsPairsContiguous(rows, reqs[0].body, parse, reqs[0].commitSucceeds);
      ReplayPairsContiguous(Ingest(rows, reqs[0].body, parse, reqs[0].commitSucceeds).0, reqs[1..], parse);
    }
  }

  /** Serving requests never removes or changes a stored row: the old table is a prefix of the new one. */
  lemma {:induction false} ReplayExtends(rows: seq<Row>, reqs: seq<Request>, parse: string -> Option<int>)
    ensures |rows| <= |Replay(rows, reqs, parse)| <= |rows| + |reqs|
    ensures Replay(rows, reqs, parse)[..|rows|] == rows
    decreases |reqs|
  {
    if reqs != [] {
      var next := Ingest(rows, reqs[0].body, parse, reqs[0].commitSucceeds).0;
      IngestOutcome(rows, reqs[0].body, parse, reqs[0].commitSucceeds);
      ReplayExtends(next, reqs[1..], parse);
      var final := Replay(next, reqs[1..], parse);
      assert final[..|rows|] == final[..|next|][..|rows|];
    }
  }

  /** The `puzzle_logs` table, updated in place by the endpoint. */
  class PuzzleTable {
    var rows: seq<Row>

    /** The attempt-number invariant that serving requests one at a time keeps. */
    ghost predicate Valid()
      reads this
    {
      WellNumbered(rows)
    }

    constructor()
      ensures rows == [] && Valid()
    {
      rows := [];
    }

    /**
     * `POST /log`. A missing body or field gives MissingFields, a timestamp
     * that does not parse or a failed commit gives Failure, and neither
     * changes the table; otherwise one row with the next attempt number of
     * its pair is appended and that number is reported.
     */
    method LogPuzzle(body: Body, parse: string -> Option<int>, commitSucceeds: bool) returns (outcome: Outcome)
      modifies this
      ensures (rows, outcome) == Ingest(old(rows), body, parse, commitSucceeds)
      ensures outcome == MissingFields <==> !HasRequiredFields(body)
      ensures outcome.Logged? <==> Accepted(body, parse, commitSucceeds)
      ensures !outcome.Logged? ==> rows == old(rows)
      ensures outcome.Logged? ==>
        |rows| == |old(rows)| + 1 && rows[..|old(rows)|] == old(rows) &&
        rows[|old(rows)|].attemptNumber == outcome.attemptNumber ==
          1 + CountPair(old(rows), rows[|old(rows)|].sessionId, rows[|old(rows)|].puzzleId)
      ensures old(Valid()) ==> Valid()
      ensures old(PairsContiguous(rows)) ==> PairsContiguous(rows)
    {
      IngestOutcome(rows, body, parse, commitSucceeds);
      if old(Valid()) {
        IngestWellNumbered(rows, body, parse, commitSucceeds);
      }
      if old(PairsContiguous(rows)) {
        IngestKeepsPairsContiguous(rows, body, parse, commitSucceeds);
      }
      if !HasRequiredFields(body) {
        return MissingFields;
      }
      var data := body.value;
      var start := parse(data["start_time"]);
      if start.None? {
        return Failure;
      }
      var end := parse(data["end_time"]);
      if end.None? {
        return Failure;
      }
      var duration := DurationSeconds(start.value, end.value);
      var deviceType := DeviceTypeOf(data);
      var existing := CountPair(rows, data["session_id"], data["puzzle_id"]);
      var attemptNumber := existing + 1;
      var row := Row(data["session_id"], data["puzzle_id"], start.value, end.value, duration, attemptNumber, deviceType);
      var pending := rows + [row];
      if !commitSucceeds {
        return Failure;
      }
      rows := pending;
      outcome := Logged(attemptNumber);
    }
  }
}
