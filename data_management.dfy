/** app/api/data-management/route.ts: the admin's "start over" that clears
    the answers, the sessions and the nicknames and puts the quiz back to
    waiting, and the table counts shown beside it. */
module DataManagement {
  import opened Db
  import Auth
  import GameStateRoute

  /** `update({ nickname: null })` on every user. */
  function ClearNicknames(users: seq<User>): (r: seq<User>)
    ensures |r| == |users|
    ensures forall i :: 0 <= i < |r| ==> r[i] == users[i].(nickname := None)
  {
    if users == [] then [] else [users[0].(nickname := None)] + ClearNicknames(users[1..])
  }

  /** The row every game_state row is reset to; id, created_at and updated_at stay. */
  function ResetRow(row: GameStateRecord): (r: GameStateRecord)
    ensures r.id == row.id && r.created_at == row.created_at && r.updated_at == row.updated_at
    ensures r.current_state == Waiting && r.current_question_id.None? && r.current_question_number == Some(0)
    ensures r.answers_closed_at.None? && r.results_shown_at.None?
  {
    row.(current_state := Waiting, current_question_id := None, current_question_number := Some(0),
         answers_closed_at := None, results_shown_at := None)
  }

  function ResetRows(rows: seq<GameStateRecord>): (r: seq<GameStateRecord>)
    ensures |r| == |rows|
    ensures forall i :: 0 <= i < |r| ==> r[i] == ResetRow(rows[i])
  {
    if rows == [] then [] else [ResetRow(rows[0])] + ResetRows(rows[1..])
  }

  /** Whether step k of the reset went through, when step failingStep (1 to
      4) is the one that fails, or none does (0 or above 4). */
  predicate Done(failingStep: nat, k: nat)
    ensures Done(0, k)
    ensures k >= 1 && Done(failingStep, k) ==> Done(failingStep, k - 1)
    ensures failingStep == k && k >= 1 ==> !Done(failingStep, k)
  {
    failingStep == 0 || failingStep > k
  }

  /** DELETE: admin only, and only with confirm=true. Then, in order and
      without rollback: delete all answers, delete all sessions, clear all
      nicknames, reset every game_state row. The first failing step answers
      500 and leaves the earlier steps applied. */
  method Delete(db: Database, adminCookie: Option<string>, confirm: bool, failingStep: nat) returns (r: Response)
    modifies db`answers, db`sessions, db`users, db`gameStates
    ensures old(db.Valid()) ==> db.Valid()
    ensures !Auth.IsAdmin(adminCookie) ==> r == Fail(401, AdminRequired)
    ensures Auth.IsAdmin(adminCookie) && !confirm ==> r == Fail(400, ConfirmRequired)
    ensures !(Auth.IsAdmin(adminCookie) && confirm) ==>
      db.answers == old(db.answers) && db.sessions == old(db.sessions) &&
      db.users == old(db.users) && db.gameStates == old(db.gameStates)
    ensures Auth.IsAdmin(adminCookie) && confirm ==>
      db.answers == (if Done(failingStep, 1) then [] else old(db.answers)) &&
      db.sessions == (if Done(failingStep, 2) then [] else old(db.sessions)) &&
      db.users == (if Done(failingStep, 3) then ClearNicknames(old(db.users)) else old(db.users)) &&
      db.gameStates == (if Done(failingStep, 4) then ResetRows(old(db.gameStates)) else old(db.gameStates)) &&
      r == (if Done(failingStep, 4) then Ok(Reset) else Fail(500, BackendFailure))
  {
    if !Auth.IsAdmin(adminCookie) {
      return Fail(401, AdminRequired);
    }
    if !confirm {
      return Fail(400, ConfirmRequired);
    }
    if failingStep == 1 {
      return Fail(500, BackendFailure);
    }
    db.answers := [];
    if failingStep == 2 {
      return Fail(500, BackendFailure);
    }
    db.sessions := [];
    if failingStep == 3 {
      return Fail(500, BackendFailure);
    }
    db.users := ClearNicknames(db.users);
    if failingStep == 4 {
      return Fail(500, BackendFailure);
    }
    db.gameStates := ResetRows(db.gameStates);
    r := Ok(Reset);
  }

  /** After a full reset the quiz reads as waiting at question 0, and no
      session cookie finds a participant any more. */
  lemma ResetIsAFreshStart(rows: seq<GameStateRecord>, users: seq<User>, cookie: Option<string>)
    requires rows != []
    ensures var current := GameStateRoute.Current(ResetRows(rows)).value;
      current.current_state == Waiting && current.current_question_number == Some(0) &&
      current.answers_closed_at.None? && current.results_shown_at.None?
    ensures Auth.SessionUser([], ClearNicknames(users), cookie).None?
  {
    assert Auth.SessionsWithToken([], "") == [];
  }

  /** Clearing nicknames changes nothing else about a user. */
  lemma ClearKeepsProfiles(users: seq<User>)
    ensures forall i :: 0 <= i < |users| ==>
      var u := ClearNicknames(users)[i];
      u.id == users[i].id && u.qr_code == users[i].qr_code && u.name == users[i].name &&
      u.group_type == users[i].group_type && u.seat_number == users[i].seat_number && u.nickname.None?
  {
  }

  datatype Table = UsersTable | QuestionsTable | AnswersTable | SessionsTable

  /** `count || 0`: a count query that fails reports 0. */
  function CountOr(n: nat, t: Table, failed: set<Table>): (r: nat)
    ensures r <= n
    ensures t in failed ==> r == 0
    ensures t !in failed ==> r == n
  {
    if t in failed then 0 else n
  }

  /** GET: admin only; the four row counts, each 0 when its query fails. */
  function Get(adminCookie: Option<string>, db: Database, failed: set<Table>): (r: Response)
    reads db
    ensures !Auth.IsAdmin(adminCookie) ==> r == Fail(401, AdminRequired)
    ensures Auth.IsAdmin(adminCookie) ==> r.status == 200 && r.body.TableCounts?
    ensures Auth.IsAdmin(adminCookie) && failed == {} ==>
      r.body == TableCounts(|db.users|, |db.questions|, |db.answers|, |db.sessions|)
    ensures Auth.IsAdmin(adminCookie) ==>
      r.body.participantCount <= |db.users| && r.body.questionCount <= |db.questions| &&
      r.body.answerCount <= |db.answers| && r.body.sessionCount <= |db.sessions|
  {
    if !Auth.IsAdmin(adminCookie) then Fail(401, AdminRequired)
    else Ok(TableCounts(CountOr(|db.users|, UsersTable, failed), CountOr(|db.questions|, QuestionsTable, failed),
                        CountOr(|db.answers|, AnswersTable, failed), CountOr(|db.sessions|, SessionsTable, failed)))
  }
}
