/** app/api/admin-actions/undo/route.ts and app/api/admin-actions/last/route.ts:
    the log of phase changes and taking the last one back. */
module AdminActions {
  import opened Db
  import Auth
  import GameStateRoute

  function ActionsWithId(actions: seq<AdminAction>, id: Id): (r: seq<AdminAction>)
    ensures |r| <= |actions|
    ensures forall a :: a in r <==> a in actions && a.id == id
  {
    if actions == [] then []
    else
      var rest := ActionsWithId(actions[1..], id);
      assert forall a :: a in actions <==> a == actions[0] || a in actions[1..];
      if actions[0].id == id then [actions[0]] + rest else rest
  }

  /** Primary keys of the log are distinct. */
  predicate UniqueIds(actions: seq<AdminAction>)
  {
    forall i, j :: 0 <= i < j < |actions| ==> actions[i].id != actions[j].id
  }

  /** The current row with the five phase fields copied back from a snapshot. */
  function Restored(row: GameStateRecord, snapshot: GameStateRecord, now: Time): (r: GameStateRecord)
    ensures r.id == row.id && r.created_at == row.created_at && r.updated_at == now
    ensures r.current_state == snapshot.current_state
    ensures r.current_question_id == snapshot.current_question_id
    ensures r.current_question_number == snapshot.current_question_number
    ensures r.answers_closed_at == snapshot.answers_closed_at
    ensures r.results_shown_at == snapshot.results_shown_at
  {
    row.(current_state := snapshot.current_state,
         current_question_id := snapshot.current_question_id,
         current_question_number := snapshot.current_question_number,
         answers_closed_at := snapshot.answers_closed_at,
         results_shown_at := snapshot.results_shown_at,
         updated_at := now)
  }

  /** `update({undone: true}).eq('id', id)`. */
  function MarkUndone(actions: seq<AdminAction>, id: Id): (r: seq<AdminAction>)
    ensures |r| == |actions|
    ensures forall i :: 0 <= i < |r| ==>
      r[i] == if actions[i].id == id then actions[i].(undone := true) else actions[i]
  {
    if actions == [] then []
    else
      var a := actions[0];
      [if a.id == id then a.(undone := true) else a] + MarkUndone(actions[1..], id)
  }

  /** POST undo: admin only; the action must be fetched and not be undone
      yet (a failed fetch is a 404 like a missing action). When both a
      snapshot and a current row are read, the snapshot's phase fields are
      written back (a failure there is a 500 and the action stays live); the
      current-row read is not checked, so when it fails the restore is
      skipped. Then the action is marked undone, a failure of which is only
      reported. */
  method Undo(db: Database, adminCookie: Option<string>, actionId: Option<Id>, now: Time,
              fetchFails: bool, currentFails: bool, restoreFails: bool, markFails: bool) returns (r: Response)
    modifies db`gameStates, db`adminActions
    ensures old(db.Valid()) ==> db.Valid()
    ensures !Auth.IsAdmin(adminCookie) ==> r == Fail(401, AdminRequired)
    ensures Auth.IsAdmin(adminCookie) && actionId.None? ==> r == Fail(400, MissingField)
    ensures Auth.IsAdmin(adminCookie) && actionId.Some? ==>
      var found := Single(ActionsWithId(Read(old(db.adminActions), fetchFails), actionId.value));
      (found.None? ==> r == Fail(404, NotFound)) &&
      (found.Some? && found.value.undone ==> r == Fail(400, AlreadyUndone))
    ensures r.status != 200 ==> db.adminActions == old(db.adminActions)
    ensures r.status != 200 ==> db.gameStates == old(db.gameStates)
    ensures r.status == 200 ==>
      Auth.IsAdmin(adminCookie) && actionId.Some? &&
      var found := Single(ActionsWithId(Read(old(db.adminActions), fetchFails), actionId.value));
      found.Some? && !found.value.undone && r == Ok(Success) &&
      db.adminActions == (if markFails then old(db.adminActions) else MarkUndone(old(db.adminActions), actionId.value)) &&
      db.gameStates ==
        (if found.value.previous_state.Some? && Read(old(db.gameStates), currentFails) != [] then
           var i := GameStateRoute.NewestIndex(old(db.gameStates));
           old(db.gameStates)[i := Restored(old(db.gameStates)[i], found.value.previous_state.value, now)]
         else old(db.gameStates))
    ensures Auth.IsAdmin(adminCookie) && actionId.Some? ==>
      var found := Single(ActionsWithId(Read(old(db.adminActions), fetchFails), actionId.value));
      found.Some? && !found.value.undone ==>
        (r.status == 200 <==>
         !(restoreFails && found.value.previous_state.Some? && Read(old(db.gameStates), currentFails) != []))
  {
    if !Auth.IsAdmin(adminCookie) {
      return Fail(401, AdminRequired);
    }
    if actionId.None? {
      return Fail(400, MissingField);
    }
    var found := Single(ActionsWithId(Read(db.adminActions, fetchFails), actionId.value));
    if found.None? {
      return Fail(404, NotFound);
    }
    if found.value.undone {
      return Fail(400, AlreadyUndone);
    }
    r := Revert(db, found.value, now, currentFails, restoreFails, markFails);
  }

  /** The two writes of an undo: the snapshot's phase fields back onto the
      current row when that row was read (500 and no change when the write
      fails), then the mark, whose failure is only reported. */
  method Revert(db: Database, action: AdminAction, now: Time, currentFails: bool, restoreFails: bool, markFails: bool)
      returns (r: Response)
    modifies db`gameStates, db`adminActions
    ensures old(db.Valid()) ==> db.Valid()
    ensures var restores := action.previous_state.Some? && Read(old(db.gameStates), currentFails) != [];
      (restores && restoreFails ==>
        r == Fail(500, BackendFailure) &&
        db.adminActions == old(db.adminActions) && db.gameStates == old(db.gameStates)) &&
      (!(restores && restoreFails) ==>
        r == Ok(Success) &&
        db.adminActions == (if markFails then old(db.adminActions) else MarkUndone(old(db.adminActions), action.id)) &&
        db.gameStates ==
          (if restores then
             var i := GameStateRoute.NewestIndex(old(db.gameStates));
             old(db.gameStates)[i := Restored(old(db.gameStates)[i], action.previous_state.value, now)]
           else old(db.gameStates)))
  {
    var current := GameStateRoute.Current(Read(db.gameStates, currentFails));
    if action.previous_state.Some? && current.Some? {
      if restoreFails {
        return Fail(500, BackendFailure);
      }
      var i := GameStateRoute.NewestIndex(db.gameStates);
      var row := Restored(db.gameStates[i], action.previous_state.value, now);
      if db.Valid() {
        RestoreKeepsIds(db.gameStates, i, row, db.nextId);
      }
      db.gameStates := db.gameStates[i := row];
    }
    if !markFails {
      if db.Valid() {
        MarkKeepsIds(db.adminActions, action.id, db.nextId);
      }
      db.adminActions := MarkUndone(db.adminActions, action.id);
    }
    r := Ok(Success);
  }

  /** Writing a row back under its own id keeps every id below a bound. */
  lemma RestoreKeepsIds(rows: seq<GameStateRecord>, i: nat, row: GameStateRecord, bound: nat)
    requires i < |rows| && row.id == rows[i].id
    requires forall g :: g in rows ==> g.id < bound
    ensures forall g :: g in rows[i := row] ==> g.id < bound
  {
    forall g | g in rows[i := row]
      ensures g.id < bound
    {
      var k :| 0 <= k < |rows| && rows[i := row][k] == g;
      assert rows[k] in rows;
    }
  }

  /** Marking actions undone changes no id. */
  lemma MarkKeepsIds(actions: seq<AdminAction>, id: Id, bound: nat)
    requires forall a :: a in actions ==> a.id < bound
    ensures forall a :: a in MarkUndone(actions, id) ==> a.id < bound
  {
    var marked := MarkUndone(actions, id);
    forall a | a in marked
      ensures a.id < bound
    {
      var k :| 0 <= k < |marked| && marked[k] == a;
      assert actions[k] in actions;
    }
  }

  /** What `.eq('undone', false).order('performed_at', desc).limit(1).single()`
      finds: a live action with the latest performed_at (on a tie, the one
      logged last), or none when every action is undone. */
  function LatestLive(actions: seq<AdminAction>): (r: Option<AdminAction>)
    ensures r.None? <==> forall a :: a in actions ==> a.undone
    ensures r.Some? ==> r.value in actions && !r.value.undone
    ensures r.Some? ==> forall a :: a in actions && !a.undone ==> a.performed_at <= r.value.performed_at
  {
    if actions == [] then None
    else
      var n := |actions| - 1;
      var init := actions[..n];
      var last := actions[n];
      assert actions == init + [last];
      var best := LatestLive(init);
      if last.undone then best
      else if best.None? || best.value.performed_at <= last.performed_at then Some(last)
      else best
  }

  /** GET last: admin only; a failed query (other than "no row") is a 500. */
  function Last(adminCookie: Option<string>, actions: seq<AdminAction>, queryFails: bool): (r: Response)
    ensures !Auth.IsAdmin(adminCookie) ==> r == Fail(401, AdminRequired)
    ensures Auth.IsAdmin(adminCookie) && queryFails ==> r == Fail(500, BackendFailure)
    ensures Auth.IsAdmin(adminCookie) && !queryFails ==> r == Ok(LastAction(LatestLive(actions)))
  {
    if !Auth.IsAdmin(adminCookie) then Fail(401, AdminRequired)
    else if queryFails then Fail(500, BackendFailure)
    else Ok(LastAction(LatestLive(actions)))
  }

  /** With distinct ids, the id of an action that is in the log finds exactly that action. */
  lemma {:induction false} FindsOwnAction(actions: seq<AdminAction>, a: AdminAction)
    requires UniqueIds(actions) && a in actions
    ensures ActionsWithId(actions, a.id) == [a]
  {
    if actions[0] == a {
      assert forall b :: b in actions[1..] ==> b.id != a.id;
      NoneWithId(actions[1..], a.id);
    } else {
      assert a.id != actions[0].id by {
        var k :| 0 <= k < |actions| && actions[k] == a;
        assert k != 0;
      }
      FindsOwnAction(actions[1..], a);
    }
  }

  lemma NoneWithId(actions: seq<AdminAction>, id: Id)
    requires forall b :: b in actions ==> b.id != id
    ensures ActionsWithId(actions, id) == []
  {
    if ActionsWithId(actions, id) != [] {
      assert ActionsWithId(actions, id)[0] in ActionsWithId(actions, id);
    }
  }

  /** The action GET last offers can always be undone by POST undo: it is
      found by its id and is not undone. */
  lemma LastIsUndoable(actions: seq<AdminAction>)
    requires UniqueIds(actions)
    requires LatestLive(actions).Some?
    ensures var a := LatestLive(actions).value;
      Single(ActionsWithId(actions, a.id)) == Some(a) && !a.undone
  {
    FindsOwnAction(actions, LatestLive(actions).value);
  }

  /** Undoing a phase change puts the phase fields back exactly; only
      updated_at moves. */
  lemma UndoRestoresPhase(row: GameStateRecord, change: StateChange, t1: Time, t2: Time)
    ensures Restored(GameStateRoute.Updated(row, change, t1), row, t2) == row.(updated_at := t2)
  {
  }

  /** A freshly numbered entry appended to the log is found by its id. */
  lemma AppendedIsFound(actions: seq<AdminAction>, entry: AdminAction, nextId: Id)
    requires UniqueIds(actions)
    requires forall a :: a in actions ==> a.id < nextId
    requires entry.id == nextId
    ensures UniqueIds(actions + [entry])
    ensures Single(ActionsWithId(actions + [entry], entry.id)) == Some(entry)
  {
    var all := actions + [entry];
    forall i, j | 0 <= i < j < |all|
      ensures all[i].id != all[j].id
    {
      if j == |actions| {
        assert all[i] in actions;
      }
    }
    FindsOwnAction(all, entry);
  }

  /** After marking, the action's id finds it undone. */
  lemma MarkedIsFound(actions: seq<AdminAction>, a: AdminAction)
    requires UniqueIds(actions) && a in actions
    ensures Single(ActionsWithId(MarkUndone(actions, a.id), a.id)) == Some(a.(undone := true))
  {
    var marked := MarkUndone(actions, a.id);
    assert UniqueIds(marked) by {
      assert forall k :: 0 <= k < |marked| ==> marked[k].id == actions[k].id;
    }
    var k :| 0 <= k < |actions| && actions[k] == a;
    assert marked[k] == a.(undone := true);
    FindsOwnAction(marked, a.(undone := true));
  }

  /** Restoring the snapshot a PUT took, onto the row that PUT updated, gives
      back the row as it was but for updated_at. */
  lemma PutThenRestore(rows: seq<GameStateRecord>, change: StateChange, t1: Time, t2: Time)
    requires rows != []
    ensures var i := GameStateRoute.NewestIndex(rows);
      var rows' := rows[i := GameStateRoute.Updated(rows[i], change, t1)];
      GameStateRoute.NewestIndex(rows') == i &&
      rows'[i := Restored(rows'[i], rows[i], t2)] == rows[i := rows[i].(updated_at := t2)]
  {
    var i := GameStateRoute.NewestIndex(rows);
    var rows' := rows[i := GameStateRoute.Updated(rows[i], change, t1)];
    GameStateRoute.NewestIndexCreatedAt(rows, rows');
    UndoRestoresPhase(rows[i], change, t1, t2);
  }

  /** Undoing a live action twice: the first restores its snapshot (when there
      is one) and succeeds, the second is refused. */
  method UndoTwice(db: Database, adminCookie: Option<string>, a: AdminAction, now: Time)
      returns (undo: Response, again: Response)
    requires Auth.IsAdmin(adminCookie)
    requires UniqueIds(db.adminActions) && a in db.adminActions && !a.undone
    modifies db`gameStates, db`adminActions
    ensures old(db.Valid()) ==> db.Valid()
    ensures undo == Ok(Success) && again == Fail(400, AlreadyUndone)
    ensures db.adminActions == MarkUndone(old(db.adminActions), a.id)
    ensures db.gameStates ==
      (if a.previous_state.Some? && old(db.gameStates) != [] then
         var i := GameStateRoute.NewestIndex(old(db.gameStates));
         old(db.gameStates)[i := Restored(old(db.gameStates)[i], a.previous_state.value, now)]
       else old(db.gameStates))
  {
    FindsOwnAction(db.adminActions, a);
    MarkedIsFound(db.adminActions, a);
    undo := Undo(db, adminCookie, Some(a.id), now, false, false, false, false);
    again := Undo(db, adminCookie, Some(a.id), now, false, false, false, false);
  }

  /** A PUT followed by undoing the action it logged restores the current
      row, and a second undo of the same action is refused. */
  method PutThenUndo(db: Database, adminCookie: Option<string>, change: StateChange, t1: Time, t2: Time)
      returns (put: Response, undo: Response, again: Response)
    requires Auth.IsAdmin(adminCookie)
    requires db.gameStates != []
    requires UniqueIds(db.adminActions)
    requires forall a :: a in db.adminActions ==> a.id < db.nextId
    modifies db`gameStates, db`adminActions, db`nextId
    ensures old(db.Valid()) ==> db.Valid()
    ensures put == Ok(StateUpdated(GameStateRoute.Updated(old(db.gameStates)[GameStateRoute.NewestIndex(old(db.gameStates))], change, t1), Some(old(db.nextId))))
    ensures undo == Ok(Success) && again == Fail(400, AlreadyUndone)
    ensures var i := GameStateRoute.NewestIndex(old(db.gameStates));
      db.gameStates == old(db.gameStates)[i := old(db.gameStates)[i].(updated_at := t2)]
  {
    ghost var rows := db.gameStates;
    ghost var i := GameStateRoute.NewestIndex(rows);
    ghost var log := db.adminActions;
    var entry := GameStateRoute.LogEntry(db.nextId, GameStateRoute.Current(db.gameStates), change, t1);
    AppendedIsFound(log, entry, db.nextId);
    put := GameStateRoute.Put(db, adminCookie, change, t1, false, false, false);
    assert db.adminActions == log + [entry];
    PutThenRestore(rows, change, t1, t2);
    assert entry.previous_state == Some(rows[i]);
    undo, again := UndoTwice(db, adminCookie, entry, t2);
  }
}
