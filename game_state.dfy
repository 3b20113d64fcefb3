/** app/api/game-state/route.ts: reading the quiz phase (creating the first
    row on demand) and the admin's phase changes, each logged for undo. */
module GameStateRoute {
  import opened Db
  import Auth

  /** The row `.order('created_at', desc).limit(1).single()` returns: one with
      the greatest created_at (on a tie, the one inserted last). */
  function NewestIndex(rows: seq<GameStateRecord>): (i: nat)
    requires rows != []
    ensures i < |rows|
    ensures forall j :: 0 <= j < |rows| ==> rows[j].created_at <= rows[i].created_at
  {
    if |rows| == 1 then 0
    else
      var k := NewestIndex(rows[..|rows| - 1]);
      if rows[|rows| - 1].created_at >= rows[k].created_at then |rows| - 1 else k
  }

  function Current(rows: seq<GameStateRecord>): (r: Option<GameStateRecord>)
    ensures r.Some? <==> rows != []
    ensures r.Some? ==> r.value in rows && forall row :: row in rows ==> row.created_at <= r.value.created_at
  {
    if rows == [] then None else Some(rows[NewestIndex(rows)])
  }

  /** The row GET creates when the table is empty. */
  function InitialRow(id: Id, now: Time): (r: GameStateRecord)
    ensures r.current_state == Waiting && r.current_question_number == Some(0)
    ensures r.current_question_id.None? && r.answers_closed_at.None? && r.results_shown_at.None?
  {
    GameStateRecord(id, Waiting, None, Some(0), None, None, now, now)
  }

  /** GET: the current row; an empty table gets its first row. A failed read
      (other than "no row") or a failed insert is a 500. */
  method Get(db: Database, now: Time, readFails: bool, insertFails: bool) returns (r: Response)
    modifies db`gameStates, db`nextId
    ensures old(db.Valid()) ==> db.Valid()
    ensures readFails ==> r == Fail(500, BackendFailure) && db.gameStates == old(db.gameStates)
    ensures !readFails && old(db.gameStates) != [] ==>
      r == Ok(StateRow(Current(old(db.gameStates)).value)) && db.gameStates == old(db.gameStates)
    ensures !readFails && old(db.gameStates) == [] && insertFails ==>
      r == Fail(500, BackendFailure) && db.gameStates == []
    ensures !readFails && old(db.gameStates) == [] && !insertFails ==>
      db.gameStates == [InitialRow(old(db.nextId), now)] && r == Ok(StateRow(InitialRow(old(db.nextId), now)))
  {
    if readFails {
      return Fail(500, BackendFailure);
    }
    var current := Current(db.gameStates);
    if current.Some? {
      return Ok(StateRow(current.value));
    }
    if insertFails {
      return Fail(500, BackendFailure);
    }
    var id := db.FreshId();
    var row := InitialRow(id, now);
    db.gameStates := db.gameStates + [row];
    r := Ok(StateRow(row));
  }

  /** The update PUT applies to the current row: the new phase and updated_at;
      question id and number only when the body carries them (null counts);
      both timestamps cleared when answers open, both set when results show. */
  function Updated(row: GameStateRecord, change: StateChange, now: Time): (r: GameStateRecord)
    ensures r.id == row.id && r.created_at == row.created_at
    ensures r.current_state == change.current_state && r.updated_at == now
    ensures r.current_question_id == Apply(change.current_question_id, row.current_question_id)
    ensures r.current_question_number == Apply(change.current_question_number, row.current_question_number)
    ensures change.current_state == AcceptingAnswers ==> r.answers_closed_at.None? && r.results_shown_at.None?
    ensures change.current_state == ShowingResults ==> r.answers_closed_at == Some(now) && r.results_shown_at == Some(now)
    ensures change.current_state !in {AcceptingAnswers, ShowingResults} ==>
      r.answers_closed_at == row.answers_closed_at && r.results_shown_at == row.results_shown_at
  {
    var base := row.(
      current_state := change.current_state,
      updated_at := now,
      current_question_id := Apply(change.current_question_id, row.current_question_id),
      current_question_number := Apply(change.current_question_number, row.current_question_number));
    match change.current_state
    case AcceptingAnswers => base.(answers_closed_at := None, results_shown_at := None)
    case ShowingResults => base.(answers_closed_at := Some(now), results_shown_at := Some(now))
    case _ => base
  }

  function ActionType(p: Phase): (r: string)
    ensures |r| > 16 && r[..16] == "change_state_to_" && r[16..] == PhaseName(p)
  {
    "change_state_to_" + PhaseName(p)
  }

  /** The log entry PUT writes before it updates. */
  function LogEntry(id: Id, previous: Option<GameStateRecord>, change: StateChange, now: Time): (a: AdminAction)
    ensures a.id == id && !a.undone && a.previous_state == previous && a.new_state == change
  {
    AdminAction(id, ActionType(change.current_state), previous, change, now, false)
  }

  /** PUT: admin only. Logs the change with the current row as the snapshot
      (a failed log is only reported), then updates the current row. The read
      of the current row is not checked: when it fails the snapshot is null,
      and then, as with no row at all, the handler fails after logging. */
  method Put(db: Database, adminCookie: Option<string>, change: StateChange, now: Time,
             currentFails: bool, logFails: bool, updateFails: bool) returns (r: Response)
    modifies db`gameStates, db`adminActions, db`nextId
    ensures old(db.Valid()) ==> db.Valid()
    ensures !Auth.IsAdmin(adminCookie) ==>
      r == Fail(401, AdminRequired) &&
      db.gameStates == old(db.gameStates) && db.adminActions == old(db.adminActions)
    ensures Auth.IsAdmin(adminCookie) ==>
      db.adminActions == old(db.adminActions) +
        (if logFails then [] else [LogEntry(old(db.nextId), Current(Read(old(db.gameStates), currentFails)), change, now)])
    ensures Auth.IsAdmin(adminCookie) && (old(db.gameStates) == [] || currentFails || updateFails) ==>
      r == Fail(500, BackendFailure) && db.gameStates == old(db.gameStates)
    ensures Auth.IsAdmin(adminCookie) && old(db.gameStates) != [] && !currentFails && !updateFails ==>
      var i := NewestIndex(old(db.gameStates));
      var row := Updated(old(db.gameStates)[i], change, now);
      db.gameStates == old(db.gameStates)[i := row] &&
      r == Ok(StateUpdated(row, if logFails then None else Some(old(db.nextId))))
  {
    if !Auth.IsAdmin(adminCookie) {
      return Fail(401, AdminRequired);
    }
    var current := Current(Read(db.gameStates, currentFails));
    var actionId: Option<Id> := None;
    if !logFails {
      var id := db.FreshId();
      db.adminActions := db.adminActions + [LogEntry(id, current, change, now)];
      actionId := Some(id);
    }
    if current.None? || updateFails {
      return Fail(500, BackendFailure);
    }
    var i := NewestIndex(db.gameStates);
    var row := Updated(db.gameStates[i], change, now);
    db.gameStates := db.gameStates[i := row];
    r := Ok(StateUpdated(row, actionId));
  }

  /** Opening answers and then showing results leaves both timestamps at the
      moment results were shown, whatever they were before. */
  lemma ResultsAfterAnswering(row: GameStateRecord, q: StateChange, s: StateChange, t1: Time, t2: Time)
    requires q.current_state == AcceptingAnswers && s.current_state == ShowingResults
    ensures var after := Updated(Updated(row, q, t1), s, t2);
      after.answers_closed_at == Some(t2) && after.results_shown_at == Some(t2) &&
      after.current_state == ShowingResults && after.id == row.id
  {
  }

  /** Updating never moves the row that counts as current. */
  lemma {:induction false} UpdateKeepsNewest(rows: seq<GameStateRecord>, change: StateChange, now: Time)
    requires rows != []
    ensures var i := NewestIndex(rows);
      Current(rows[i := Updated(rows[i], change, now)]) == Some(Updated(rows[i], change, now))
  {
    var i := NewestIndex(rows);
    var rows' := rows[i := Updated(rows[i], change, now)];
    NewestIndexCreatedAt(rows, rows');
  }

  /** NewestIndex depends only on the created_at column. */
  lemma {:induction false} NewestIndexCreatedAt(rows: seq<GameStateRecord>, rows': seq<GameStateRecord>)
    requires rows != [] && |rows'| == |rows|
    requires forall j :: 0 <= j < |rows| ==> rows'[j].created_at == rows[j].created_at
    ensures NewestIndex(rows') == NewestIndex(rows)
  {
    if |rows| > 1 {
      var n := |rows| - 1;
      NewestIndexCreatedAt(rows[..n], rows'[..n]);
    }
  }
}
