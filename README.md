# Wedding quiz: a verified model of the live-quiz engine

This project models, in Dafny, the server and browser logic of a live wedding
quiz. Guests log in with a four-character code, set a nickname and answer the
questions the admin puts up. The admin steps the quiz through its phases
(waiting, showing a question, accepting answers, showing results, finished),
can take back the last phase change, and watches a scoreboard.

The model covers the following:

- The Next.js route handlers under `app/api`, written as methods on a
  `Database` object whose tables are sequences. The tables are users,
  questions, choices, answers, game_state, admin_actions and user_sessions.
  Handlers that only read are functions over those tables.
- The session helpers in `lib/auth.ts` and the page guard in `middleware.ts`.
- The pure logic of the admin and participant pages: the question form, the
  dashboard's local phase machine, the quiz countdown and its answer payload,
  the participant's score summary, and the results page with its CSV export.

Every response is a `Response(status, body)` value. Cookies are optional
strings. The clock, the random draws and the failure of every database
query, update and storage call are parameters. Module `Db` holds the shared rows (after `types/database.ts`).
`Queries` models the `.eq` filters, and `Sorting` models the database
orderings and `Array.prototype.sort`. The other modules follow the source
files one to one.

Each route and page file gets a contract that states its status codes in the
order the handler checks them, and the new state of every table it touches.
The lemmas beside them prove what the quiz relies on:

- a phase change followed by its undo restores the phase;
- a leaderboard row and the ranking agree with the per-user totals;
- ranks share ties;
- a nickname rule rejects in a fixed order;
- the CSV export reads back;
- the dashboard never reaches the phase that enables its close button.

## Model

| member | source | states |
|---|---|---|
| Db.Single | lib/auth.ts:13-17 | `.single()` returns a row exactly when one row matched, and then it is that row |
| Db.Database.constructor | types/database.ts:1-70 | every table starts empty, so every stored id lies below the id counter |
| Db.Database.FreshId | types/database.ts:2 | hands out the id counter and advances it by one; while every stored row id lies below the counter (the `Valid` invariant, which every handler method preserves), the id handed out is held by no row in any table and the invariant survives |
| Db.Read | app/api/answers/route.ts:28-33 | a failed read yields no rows, a successful one the whole table |
| Queries.ChoicesWithId | app/api/answers/route.ts:46-50 | exactly the choices with that id, and none when no stored choice has it, and no row more often than the table holds it |
| Queries.ChoicesOf | app/api/stats/answers/route.ts:33-36 | exactly the choices belonging to the question, never more rows than the table has, and no row more often than the table holds it |
| Queries.QuestionsWithId | app/api/questions/route.ts:14-21 | exactly the questions with that id, and none when no stored question has it, and no row more often than the table holds it |
| Queries.QuestionsWithNumber | app/api/questions/route.ts:32-39 | exactly the questions with that question_number, and no row more often than the table holds it |
| Queries.ChoiceById | app/api/answers/route.ts:46-50 | a returned choice is a stored choice with the requested id; no choice comes back when no stored choice has the id |
| Queries.QuestionById | app/api/answers/route.ts:55-59 | a returned question is a stored question with the requested id; no question comes back when no stored question has the id |
| Queries.ChoiceIdSelectsOne | app/api/answers/route.ts:46-50 | with distinct choice ids, filtering on a stored choice's id yields that choice alone |
| Queries.ChoiceFound | app/api/answers/route.ts:46-50 | with distinct choice ids, `.single()` on a stored choice's id returns that choice |
| Queries.ChoicePrefix | app/api/answers/route.ts:46-50 | under distinct ids the rows before a position stay distinct and none shares that position's id |
| Queries.QuestionIdSelectsOne | app/api/answers/route.ts:55-59 | with distinct question ids, filtering on a stored question's id yields that question alone |
| Queries.QuestionFound | app/api/answers/route.ts:55-59 | with distinct question ids, `.single()` on a stored question's id returns that question |
| Queries.QuestionPrefix | app/api/answers/route.ts:55-59 | under distinct ids the rows before a position stay distinct and none shares that position's id |
| Queries.AnswersOf | app/api/answers/route.ts:28-33 | exactly the answers by that user to that question, and no row more often than the table holds it |
| Queries.UserAnswers | app/api/answers/route.ts:160-163 | exactly the answers by that user, never more rows than the table has, and no row more often than the table holds it |
| Queries.AnswersTo | app/api/answers/route.ts:111-114 | exactly the answers to that question, never more rows than the table has, and no row more often than the table holds it |
| Queries.UsersWithQr | app/api/auth/participant/route.ts:19-23 | exactly the users holding that QR code |
| Queries.OthersWithNickname | app/api/user/nickname/route.ts:49-54 | exactly the users with that nickname and a different QR code |
| Queries.UserWithId | app/api/participants/route.ts:155-160 | exactly the users with that id |
| Queries.UserFiltersKeepRows | app/api/auth/participant/route.ts:19-23 | the QR-code, nickname and id filters on users return no row more often than the table holds it |
| Auth.SessionsWithToken | lib/auth.ts:13-16 | exactly the sessions holding that token |
| Auth.UserById | lib/auth.ts:13-28 | the joined user is the stored user with the session's user_id, and is absent only when no user has that id |
| Sorting.Insert | app/api/answers/route.ts:164 | inserting one element adds exactly that element |
| Sorting.InsertSorted | app/api/answers/route.ts:164 | inserting into an ascending list keeps it ascending |
| Sorting.InsertBound | app/api/answers/route.ts:164 | after an insertion no key is below the smaller of the new key and the old first key |
| Sorting.SinkInto | app/api/stats/leaderboard/route.ts:69 | one insertion step extends the sorted prefix by one cell, keeps the array's elements and leaves the cells after it as they were |
| Ranking.CountAbove | app/api/stats/ranking/route.ts:71-83 | the count of users scoring above a value is at most the number of users |
| Ranking.CountAboveConcat | app/api/stats/ranking/route.ts:71-83 | counts over two lists add up |
| Ranking.CountAboveEvery | app/api/stats/ranking/route.ts:71-83 | when everyone scores above the value, everyone is counted |
| Ranking.CountAboveNone | app/api/stats/ranking/route.ts:71-83 | when nobody scores above the value, the count is 0 |
| Auth.AdminValueIgnored | lib/auth.ts:31-38 | any non-empty `admin_session` value passes as admin; a missing or empty cookie never does |
| Auth.IsAdmin | lib/auth.ts:31-38 | the admin test passes exactly when the `admin_session` cookie is present and non-empty, the same test as the participant token |
| Auth.Token | lib/auth.ts:5-9 | a token exists exactly when the `participant_session` cookie is present and non-empty, and it is the cookie's value |
| Auth.FindSession | lib/auth.ts:13-21 | a session is found only for a token, is a stored session with that token, and is found exactly when one session holds it |
| Auth.SessionUser | lib/auth.ts:13-28 | the returned user is a stored user whose id is the found session's user_id |
| Auth.Touch | lib/auth.ts:23-26 | the sessions holding the token get last_active = now; every other session is unchanged |
| Auth.AfterLookup | lib/auth.ts:13-26 | the lookup keeps every session in place and changes at most its last_active; with no session found, the table is unchanged |
| Auth.CurrentUser | lib/auth.ts:13-21 | a failed session read gives no user whatever the cookie; a successful one gives the user of the session found |
| Auth.SessionsAfter | lib/auth.ts:13-26 | same length, at most last_active changes, unchanged when the read or the touch fails, and otherwise the lookup's update |
| Auth.GetCurrentUser | lib/auth.ts:4-29 | returns the user of the single session holding the cookie's token, or none when the session read fails; touches the sessions table only after a successful read that found a session, and a failed touch changes nothing |
| Auth.LookupTouchesOnlyTheCaller | lib/auth.ts:23-26 | after a successful lookup the caller's sessions carry last_active = now and no session with another token changed |
| GameStateRoute.NewestIndex | app/api/game-state/route.ts:9-14 | picks a row whose created_at is the greatest in the table |
| GameStateRoute.Current | app/api/game-state/route.ts:9-14 | the current row exists exactly when the table is non-empty, is a stored row, and no row was created later |
| GameStateRoute.InitialRow | app/api/game-state/route.ts:24-33 | the row created on demand is in the waiting phase at question 0, with no question id and no timestamps |
| GameStateRoute.Get | app/api/game-state/route.ts:5-52 | a failed read is a 500 with nothing written; a non-empty table returns its current row; an empty table gets one initial row, or a 500 when that insert fails |
| GameStateRoute.Updated | app/api/game-state/route.ts:95-114 | the new phase and updated_at are set; question id and number change only when the body carries them; opening answers clears both timestamps, showing results sets both to now, other phases keep them; id and created_at stay |
| GameStateRoute.LogEntry | app/api/game-state/route.ts:81-93 | the log entry is live and records the current row as its snapshot and the requested change |
| GameStateRoute.ActionType | app/api/game-state/route.ts:84 | the action type is `change_state_to_` followed by the requested phase's name |
| GameStateRoute.Put | app/api/game-state/route.ts:54-141 | without the admin cookie: 401 and nothing written; otherwise the change is logged with the current row as snapshot, or no snapshot when the unchecked read of the current row fails (unless logging fails); then the current row alone is updated, or a 500 with the rows unchanged when there is no row, the read failed or the update fails |
| GameStateRoute.ResultsAfterAnswering | app/api/game-state/route.ts:108-114 | opening answers and then showing results leaves both timestamps at the moment results were shown |
| GameStateRoute.UpdateKeepsNewest | app/api/game-state/route.ts:116-128 | after an update the updated row is still the current one |
| GameStateRoute.NewestIndexCreatedAt | app/api/game-state/route.ts:9-14 | which row is current depends only on the created_at column |
| AdminActions.ActionsWithId | app/api/admin-actions/undo/route.ts:27-31 | exactly the logged actions with the given id |
| AdminActions.Restored | app/api/admin-actions/undo/route.ts:54-65 | the five phase fields come from the snapshot and updated_at is now; id and created_at are the current row's |
| AdminActions.MarkUndone | app/api/admin-actions/undo/route.ts:76-79 | the actions with the id become undone; every other action is unchanged |
| AdminActions.Undo | app/api/admin-actions/undo/route.ts:5-93 | 401 without admin, 400 without an id, 404 unless the fetch succeeds and exactly one action has the id, 400 if it is already undone, and nothing changes on any of these; on success the snapshot is written back when there is one and the read of the current row succeeds and finds one, and the action is marked undone unless marking fails; a failed restore is the only other refusal |
| AdminActions.Revert | app/api/admin-actions/undo/route.ts:47-85 | with a snapshot and a current row that the read returns, a failed restore is a 500 with nothing changed; otherwise the snapshot's phase fields are written onto the newest row in that case only (a failed read skips the restore), the action is marked undone unless marking fails, and the answer is success |
| AdminActions.RestoreKeepsIds | app/api/admin-actions/undo/route.ts:55-65 | writing the snapshot onto a row keeps every game state id below the counter |
| AdminActions.MarkKeepsIds | app/api/admin-actions/undo/route.ts:76-79 | marking an action undone keeps every action id below the counter |
| AdminActions.LatestLive | app/api/admin-actions/last/route.ts:18-24 | none exactly when every action is undone; otherwise a live action with no later live action |
| AdminActions.Last | app/api/admin-actions/last/route.ts:5-42 | 401 without admin, 500 on a failed query, otherwise the latest live action or null |
| AdminActions.FindsOwnAction | app/api/admin-actions/undo/route.ts:27-31 | with distinct ids, a logged action's id finds exactly that action |
| AdminActions.LastIsUndoable | app/api/admin-actions/last/route.ts:18-24 | the action GET last offers is found by undo's id lookup and is live, so undo accepts it |
| AdminActions.UndoRestoresPhase | app/api/admin-actions/undo/route.ts:54-65 | restoring a PUT's snapshot onto the row it updated gives back the old row except for updated_at |
| AdminActions.AppendedIsFound | app/api/game-state/route.ts:81-93 | a log entry with a fresh id keeps the ids distinct and is found by its id |
| AdminActions.MarkedIsFound | app/api/admin-actions/undo/route.ts:76-79 | after marking, the action's id finds it undone |
| AdminActions.PutThenRestore | app/api/admin-actions/undo/route.ts:47-74 | after a PUT the same row is current, and restoring the snapshot gives back the table as it was except for updated_at |
| AdminActions.UndoTwice | app/api/admin-actions/undo/route.ts:40-85 | undoing a live action first succeeds and restores its snapshot; undoing it again is a 400 |
| AdminActions.PutThenUndo | app/api/admin-actions/undo/route.ts:5-93 | a PUT and then an undo of the entry it logged give back the game-state table (only updated_at moves); a second undo is refused |
| Answers.AwardedPoints | app/api/answers/route.ts:55-61 | a correct answer earns the question's points, or 10 when the question is missing or its points are 0 |
| Answers.Score | app/api/answers/route.ts:42-63 | correct exactly when a choice id is given and that choice exists and is correct; correct answers earn AwardedPoints, others 0 |
| Answers.StoredChoiceScores | app/api/answers/route.ts:45-62 | with distinct ids, picking a stored choice of a stored question scores (true, the question's points, or 10 when they are 0) when the choice is correct and (false, 0) otherwise |
| Answers.UnknownChoiceScoresZero | app/api/answers/route.ts:45-52 | a choice id that no stored choice has scores (false, 0) |
| Answers.MissingQuestionAwardsTen | app/api/answers/route.ts:52-61 | a correct stored choice whose question the lookup does not find earns 10 |
| Answers.ForeignChoiceScores | app/api/answers/route.ts:45-53 | a correct choice belonging to another question still scores as correct |
| Answers.AnswersOfAppend | app/api/answers/route.ts:65-77 | storing an answer adds it to that user's answers to that question and to no other |
| Answers.AppendKeepsOneAnswerEach | app/api/answers/route.ts:28-40 | when the guard found no earlier answer, storing the new one keeps at most one answer per participant and question |
| Answers.GuardSeesEarlierAnswer | app/api/answers/route.ts:28-40 | with at most one answer each, the duplicate guard fires exactly when the participant already answered that question |
| Answers.Submit | app/api/answers/route.ts:5-99 | 401 without a user (also when the session read fails), 400 without a question id, 400 when the guard (whose failed read counts as no earlier answer) finds an earlier answer, 500 when the insert fails, and no answer is stored on any of these; on success exactly one answer is appended with the next id, the caller, the request's fields, now and the score of the choice and question lookups (a failed lookup reads as no row), and the response carries that score; one answer per participant and question is kept when the guard's read succeeded |
| Answers.Record | app/api/answers/route.ts:65-85 | a failed insert is a 500 with nothing stored; otherwise the answer with the next id, the caller, the request's fields, the score and now is appended and the response carries the score |
| Answers.InsertAnswer | app/api/answers/route.ts:65-77 | the row is appended to the answers, and the id invariant holds when its id lies below the counter |
| Answers.NewestFirst | app/api/answers/route.ts:160-164 | the answers ordered by descending answered_at, and the same answers |
| Answers.Get | app/api/answers/route.ts:101-182 | count mode returns the question's answer count; otherwise 401 without a user (also when the session read fails), the caller's single answer to the question (or null), or all their answers newest first |
| Answers.NewestAnswer | app/api/answers/latest/route.ts:19-33 | none exactly when there is no answer; otherwise a stored answer with no later one |
| Answers.LatestHeadsHistory | app/api/answers/latest/route.ts:19-33 | the latest answer is as recent as the first entry of the history |
| Answers.InDisplayOrder | app/api/answers/latest/route.ts:51-55 | the choices ordered by ascending display_order, and the same choices |
| Answers.FirstCorrect | app/api/answers/latest/route.ts:66 | none exactly when no choice is correct; otherwise the id of the first correct choice |
| Answers.GetLatest | app/api/answers/latest/route.ts:5-86 | 401 without a user (also when the session read fails), 500 on failed queries, null without answers; otherwise four fields of the newest answer, four columns of its question (absent when none has its id), that question's choices in display order and the first correct one |
| Answers.Embedded | app/api/answers/latest/route.ts:21-29 | the embedded question is the header of a stored question with the answer's id, and absent when none has it |
| Answers.EmbedsStoredQuestion | app/api/answers/latest/route.ts:21-29 | with distinct question ids, the embedded question of a stored question's id is that question's header |
| Answers.PickViewSeesFourFields | app/api/answers/latest/route.ts:68-74 | two answers give the same body exactly when they agree on is_correct, points_earned, selected_choice_id and answered_at, so the body shows nothing else of the row |
| Answers.HeaderViewSeesFourColumns | app/api/answers/latest/route.ts:21-29 | two questions embed alike exactly when they agree on number, text, type and image url |
| Scores.CorrectCount | app/api/stats/leaderboard/route.ts:40-52 | the number of the user's correct answers never exceeds the answers |
| Scores.CorrectPoints | app/api/stats/leaderboard/route.ts:44-56 | a single answer scores only when it is the user's own and correct |
| Scores.OtherAnswersAddNothing | app/api/stats/leaderboard/route.ts:40-52 | an incorrect answer, or another user's, changes neither of u's totals |
| Scores.NoCorrectAnswersScoreZero | app/api/stats/leaderboard/route.ts:40-52 | a user with no correct answers has total 0 and count 0 |
| Scores.NoAnswersScoreZero | app/api/stats/leaderboard/route.ts:44-56 | a user with no answers in the table has total 0 and count 0 |
| Scores.NonNegativePoints | app/api/stats/leaderboard/route.ts:40-52 | when no stored points are negative, no total is negative |
| Sorting.SortBy | app/api/answers/route.ts:160-164 | the result is in ascending key order and holds the same elements |
| Sorting.SortDescending | app/api/stats/leaderboard/route.ts:68-69 | sorts the array in place into non-increasing key order, keeping the same elements |
| Sorting.Swap | app/api/stats/leaderboard/route.ts:69 | exchanges two cells and keeps the array's elements |
| Leaderboard.LimitValue | app/api/stats/leaderboard/route.ts:7 | a missing `limit` parameter means 10 |
| Leaderboard.SliceEnd | app/api/stats/leaderboard/route.ts:72 | the number of rows `slice(0, limit)` keeps: at most the length, counting from the back for a negative limit |
| Leaderboard.Entries | app/api/stats/leaderboard/route.ts:59-66 | one entry per user, in table order, carrying that user's correct points and count |
| Leaderboard.Entry | app/api/stats/leaderboard/route.ts:59-66 | the row carries the user's id, name, nickname and group, a correct count no larger than the answers, and 0/0 for a user without answers |
| Leaderboard.Lookup | app/api/stats/leaderboard/route.ts:59-66 | the row carries the user's profile fields, the folded totals when the map has the user, and 0/0 otherwise, the `or 0` default |
| Leaderboard.RankingHasEveryRow | app/api/stats/leaderboard/route.ts:68-69 | sorting the leaderboard neither drops nor adds a user's row |
| Leaderboard.TallyAnswers | app/api/stats/leaderboard/route.ts:41-56 | the folded map holds each user's correct points and correct count; a user without an entry has 0 and 0 |
| Leaderboard.Get | app/api/stats/leaderboard/route.ts:4-80 | 500 when a table cannot be read; otherwise the first `limit` rows of a ranking of every user's row by total_score, highest first |
| Leaderboard.CutKeepsTheBest | app/api/stats/leaderboard/route.ts:72 | no row cut off by the limit scores more than a row that is kept |
| Ranking.ScoredUsers | app/api/stats/ranking/route.ts:40-43 | one entry per user carrying their correct points |
| Ranking.CountAbovePermutation | app/api/stats/ranking/route.ts:40-43 | the number of users scoring above a value does not depend on their order |
| Ranking.CountAboveMember | app/api/stats/ranking/route.ts:71-83 | nobody has every participant scoring above them |
| Ranking.RunStart | app/api/stats/ranking/route.ts:71-83 | in a list sorted highest first, the entry starting a run of equal scores has exactly its index many entries above it |
| Ranking.MinScore | app/api/stats/ranking/route.ts:71-83 | the lowest score in the list, and some entry carries it |
| Ranking.SortedLastIsLowest | app/api/stats/ranking/route.ts:40-43 | the last entry of the sorted list carries the lowest score |
| Ranking.ScoreMap | app/api/stats/ranking/route.ts:28-37 | the folded map gives each user their correct points, 0 for a user without an entry |
| Ranking.Get | app/api/stats/ranking/route.ts:5-89 | 401 without the `user_id` cookie, 404 when a table cannot be read; otherwise the caller's total, and rank 1 + the number of participants scoring strictly more for a listed caller or a zero score; an unlisted caller with points gets the rank the loop ends on |
| Ranking.RankLoop | app/api/stats/ranking/route.ts:67-83 | the loop stops at the caller's first entry with rank 1 + the number of entries scoring more, or runs off the end with the rank of the last score |
| Ranking.CountAboveRemove | app/api/stats/ranking/route.ts:51 | removing one entry lowers the count of higher scores by one exactly when that entry scores higher |
| Ranking.RemoveFromMultiset | app/api/stats/ranking/route.ts:40-43 | the entries left after removing one are the original entries less that one |
| Ranking.CountAboveSplit | app/api/stats/ranking/route.ts:51 | the count over a list is the count over its two halves |
| Ranking.SortByScore | app/api/stats/ranking/route.ts:40-43 | the list of participants with their totals comes back ordered highest score first and holds exactly one entry per participant |
| Ranking.ZeroScoreRank | app/api/stats/ranking/route.ts:49-65 | for a caller with no points, the scorers counted in the sorted list are the participants with positive totals, and a listed caller is not among them |
| Ranking.FoundRank | app/api/stats/ranking/route.ts:67-88 | the entry the loop stops at carries the caller's total, the caller is a listed participant, and fewer than all participants score more |
| Ranking.NotFoundRank | app/api/stats/ranking/route.ts:67-88 | when the loop finds no entry for the caller, the caller is not a participant and the rank is that of the lowest total |
| AnswerStats.Picked | app/api/stats/answers/route.ts:49 | how many answers picked the choice; never more than the answers |
| AnswerStats.Percentage | app/api/stats/answers/route.ts:50 | 0 with no answers; otherwise the share count/total times 100 |
| AnswerStats.PercentageBounds | app/api/stats/answers/route.ts:50 | a share lies between 0 and 100 and is 100 when every answer picked the choice |
| AnswerStats.Stats | app/api/stats/answers/route.ts:46-57 | one stat per choice, in order, with the choice's id, text, pick count and share of all the question's answers |
| AnswerStats.Get | app/api/stats/answers/route.ts:4-70 | 400 without a question id, 500 when a table cannot be read, otherwise the stats of that question's choices and the number of its answers |
| AnswerStats.AtMostOneMatch | app/api/stats/answers/route.ts:48-49 | with distinct choice ids an answer counts for at most one choice |
| AnswerStats.SumCountsStep | app/api/stats/answers/route.ts:48-49 | one more answer raises the summed counts by the number of choices it picked |
| AnswerStats.CountsWithinTotal | app/api/stats/answers/route.ts:47-49 | the per-choice counts add up to at most the total, since an answer without a choice or with a foreign one counts only in the total |
| AnswerStats.ZeroCounts | app/api/stats/answers/route.ts:47-49 | with no answers every count is 0 |
| ActiveSessions.ActiveCount | app/api/stats/participants/route.ts:8-11 | the number of sessions seen within the window, never more than the sessions |
| ActiveSessions.IsActive | app/api/stats/participants/route.ts:8-11 | a session seen at or after now counts as active |
| ActiveSessions.ActiveCountIsWindowSize | app/api/stats/participants/route.ts:8-11 | the count is the size of the set of sessions seen within the window |
| ActiveSessions.Get | app/api/stats/participants/route.ts:4-29 | 500 when the query fails, otherwise the count of active sessions |
| ActiveSessions.WindowInclusive | app/api/stats/participants/route.ts:11 | a session last seen exactly five minutes ago counts; one a millisecond older does not |
| ActiveSessions.SomeActiveCounts | app/api/stats/participants/route.ts:8-11 | one active session makes the count at least 1 |
| ActiveSessions.LookedUpIsActive | app/api/stats/participants/route.ts:8-11 | a participant whose request has just been authenticated is counted as active |
| DataManagement.ClearNicknames | app/api/data-management/route.ts:64-68 | every user's nickname becomes null, the users stay in order |
| DataManagement.ResetRow | app/api/data-management/route.ts:80-90 | the row is back at waiting, question 0, with no question id and no timestamps; id and creation time stay |
| DataManagement.ResetRows | app/api/data-management/route.ts:80-90 | every game_state row is reset |
| DataManagement.Delete | app/api/data-management/route.ts:7-111 | 401 without admin and 400 without confirm=true, with nothing changed; otherwise answers, sessions, nicknames and game state are cleared in that order, and the first failing step is a 500 that keeps the earlier steps applied |
| DataManagement.Done | app/api/data-management/route.ts:32-90 | with no failing step every step runs; a step runs only if the one before it did; the failing step itself does not take effect |
| DataManagement.ResetIsAFreshStart | app/api/data-management/route.ts:32-90 | after a full reset the current row reads waiting at question 0, and no session cookie finds a participant |
| DataManagement.ClearKeepsProfiles | app/api/data-management/route.ts:64-68 | clearing nicknames changes nothing else about a user |
| DataManagement.Get | app/api/data-management/route.ts:114-152 | 401 without admin; otherwise the four table sizes, a failed count reporting 0 |
| DataManagement.CountOr | app/api/data-management/route.ts:127-144 | a count is the table's size, or 0 when its query failed |
| BulkDelete.Reported | app/api/participants/bulk-delete/route.ts:55 | the delete's count when it is non-zero, else the number of users read just before |
| BulkDelete.Delete | app/api/participants/bulk-delete/route.ts:5-64 | 401 without admin and 500 on a failed read; success with nothing removed when there are no users; otherwise every user is deleted and their number reported, or a 500 with nothing changed when the delete fails |
| BulkDelete.ReportsWhatWasFetched | app/api/participants/bulk-delete/route.ts:40-55 | the delete asks for no count, so the message gives the number of users read just before |
| Questions.WithChoices | app/api/questions/route.ts:16-19 | the question with exactly its own choices embedded |
| Questions.Attach | app/api/questions/route.ts:52-56 | every listed question carries its own choices |
| Questions.Matching | app/api/questions/route.ts:13-39 | an id read matches the questions with that id; a number read matches the questions with that number |
| Questions.Get | app/api/questions/route.ts:5-74 | a single read is 200 exactly when one question matches (else 404) and returns it with its choices; the list read is a 500 on failure, otherwise every question once, by ascending question_number, each with its own choices |
| Questions.FoundIsAsked | app/api/questions/route.ts:13-48 | a question a single read returns is stored and has the id or number that was asked for |
| Questions.StoredPoints | app/api/questions/route.ts:106 | the given points, or 10 when points are missing or 0 |
| Questions.NewQuestion | app/api/questions/route.ts:99-108 | the stored question has the id, number and type asked for, the default time limit, non-zero points and no explanation |
| Questions.InsertsChoices | app/api/questions/route.ts:118 | choice rows are inserted only for a multiple-choice question with a non-empty list, never for a free-text one |
| Questions.ChoiceRows | app/api/questions/route.ts:119-124 | one row per submitted choice, in order, linked to the new question, with its text, is_correct defaulting to false, and display_order = position + 1 |
| Questions.Post | app/api/questions/route.ts:76-143 | 401 without admin and 500 when the insert fails, with nothing stored; otherwise the question is appended, its choice rows follow for a non-empty multiple-choice list unless that insert fails, and the question is returned |
| Questions.DisplayOrderContiguous | app/api/questions/route.ts:119-124 | a created question's display orders are 1..n, increasing in table order |
| Questions.NewChoicesBelongToNewQuestion | app/api/questions/route.ts:118-128 | creating a question adds no choice to any other question |
| Questions.ChoicesOfAppend | app/api/questions/route.ts:126-128 | appending rows of other questions leaves a question's choices unchanged |
| Nickname.TrimStart | app/api/user/nickname/route.ts:22 | drops exactly the leading white space: the result is a suffix that does not start with white space, and everything dropped is white space |
| Nickname.TrimEnd | app/api/user/nickname/route.ts:22 | drops exactly the trailing white space |
| Nickname.Trim | app/api/user/nickname/route.ts:22 | the trimmed text is no longer than the input and neither starts nor ends with white space |
| Nickname.IsSpace | app/api/user/nickname/route.ts:22 | no white-space character is one of the listed emoji |
| Nickname.TrimEmptyIffAllSpace | app/api/user/nickname/route.ts:22 | `trim()` gives the empty string exactly when every character is white space |
| Nickname.Utf16Length | app/api/user/nickname/route.ts:30 | `length` counts UTF-16 units: between one and two per code point |
| Nickname.IsEmoji | app/api/user/nickname/route.ts:38 | characters below U+2600 and kana and kanji (U+3040 to U+9FFF) are never counted as emoji |
| Nickname.HasEmoji | app/api/user/nickname/route.ts:38-39 | the regular expression matches exactly when one of the text's characters is a listed emoji |
| Nickname.Validate | app/api/user/nickname/route.ts:21-44 | accepted exactly when present, not blank, at most 20 UTF-16 units and free of the listed emoji; each refusal reason holds exactly when its check is the first to fail |
| Nickname.SetNickname | app/api/user/nickname/route.ts:67-70 | the nickname changes on the rows with the qr code and on no other row |
| Nickname.UpdateByQr | app/api/user/nickname/route.ts:67-88 | the update stands only when exactly one row has the qr code and returns that row updated; no row is a 404, several rows or a failure a 500, with nothing changed |
| Nickname.SetNicknameKeepsIds | app/api/user/nickname/route.ts:67-75 | changing a nickname keeps every user id below the counter |
| Nickname.Put | app/api/user/nickname/route.ts:5-101 | 401 without a participant (also when the session read fails); a failed check is a 400 with its reason; exactly one other holder of the name is a 400 when the duplicate probe's read succeeds, and a failed probe is read as no holder; otherwise the caller's row takes the untrimmed nickname, or 500 with nothing changed; only the lookup touches sessions |
| Nickname.Delete | app/api/user/nickname/route.ts:104-151 | 401 without a participant (also when the session read fails); otherwise the caller's nickname becomes null, or 500 with nothing changed |
| Nickname.CallerHasRow | app/api/user/nickname/route.ts:82-88 | an authenticated caller always has a row with their qr code, so the update cannot find no row |
| Nickname.AtMostOneOther | app/api/user/nickname/route.ts:49-54 | with unique qr codes and nicknames, at most one other participant holds a name, so the duplicate check sees every conflict |
| Nickname.NoOtherHolder | app/api/user/nickname/route.ts:49-54 | when nobody holds the name, the duplicate check finds nobody |
| Nickname.PutKeepsNicknamesUnique | app/api/user/nickname/route.ts:48-72 | a nickname change that passes the duplicate check keeps nicknames unique |
| Nickname.FailedProbeBreaksUniqueness | app/api/user/nickname/route.ts:49-61 | because the probe's error is not read, a failed probe lets a name another participant holds through, and the update then leaves two holders |
| Nickname.TwoHoldersSlipThrough | app/api/user/nickname/route.ts:49-61 | when two other participants already hold a name, `maybeSingle` finds no single row and the check lets the name through |
| Nickname.BlankExample | app/api/user/nickname/route.ts:22 | a name of an ASCII space and an ideographic space is refused as blank |
| Nickname.EmojiExample | app/api/user/nickname/route.ts:38-44 | a name containing U+2600 is refused as an emoji |
| Nickname.SpacedExample | app/api/user/nickname/route.ts:21-44 | a name with a leading space is accepted |
| Nickname.PrefixStaysUnique | app/api/user/nickname/route.ts:49-61 | any prefix of a list with unique codes and unique nicknames keeps both uniquenesses |
| Nickname.LastHolderIsAlone | app/api/user/nickname/route.ts:49-61 | when codes and nicknames are unique, the duplicate probe finds no other holder of the last user's nickname among the users before it |
| Participants.Attempt | app/api/participants/route.ts:47-51 | a drawn code has four characters, each the alphabet character of its roll |
| Participants.FirstFreeIsDrawn | app/api/participants/route.ts:45-63 | a code the generator returns is one the probe calls free, and was drawn by a probed attempt within the 100 |
| Participants.FirstFreeNone | app/api/participants/route.ts:45-66 | the generator gives up exactly when every remaining attempt collided or its probe failed |
| Participants.AttemptInAlphabet | app/api/participants/route.ts:43-51 | every drawn code is four characters from A-Z and 0-9 |
| Participants.GenerateUniqueQrCode | app/api/participants/route.ts:42-67 | the retry loop returns the first attempt the probe calls free, or none after 100 attempts |
| Participants.DrawCode | app/api/participants/route.ts:47-51 | the inner loop builds exactly the attempt's four characters |
| Participants.AtMostOneWithQr | app/api/participants/route.ts:54-58 | with unique codes at most one user holds a code |
| Participants.NoneWithQr | app/api/participants/route.ts:54-58 | when nobody holds a code, the probe finds nobody |
| Participants.FreeCodeIsNew | app/api/participants/route.ts:54-63 | with unique codes, a code the probe calls free is held by nobody |
| Participants.DoublyHeldCodeIsReused | app/api/participants/route.ts:54-63 | a code already held twice is called free again, since `.single()` fails on several rows too |
| Participants.OrNull | app/api/participants/route.ts:102-104 | an empty or missing optional field is stored as null, any other value as given |
| Participants.Post | app/api/participants/route.ts:69-125 | 401 without admin, 400 without a name or group, 500 when no free code is found or the insert fails, with nothing stored; otherwise exactly one new user with the drawn code |
| Participants.PostKeepsCodesUnique | app/api/participants/route.ts:93-107 | a created participant keeps login codes unique |
| Participants.Edited | app/api/participants/route.ts:149-158 | the five editable fields take the body's values where given; id, code, nickname and creation time stay |
| Participants.EditWhere | app/api/participants/route.ts:149-158 | only the rows with the id are edited |
| Participants.Put | app/api/participants/route.ts:127-178 | 401 without admin, 400 without an id, 500 unless exactly one row has the id, with nothing changed; otherwise that row is edited and returned |
| Participants.WithoutId | app/api/participants/route.ts:202-205 | exactly the users with another id remain |
| Participants.Delete | app/api/participants/route.ts:180-223 | 401 without admin, 400 without an id, 500 on failure, with nothing changed; otherwise that user's rows go and the call succeeds whether or not one existed |
| Participants.DeleteAbsentIsNoop | app/api/participants/route.ts:202-205 | deleting an id nobody holds changes nothing |
| Participants.Get | app/api/participants/route.ts:5-39 | 401 without admin, 500 on failure, otherwise every user once, by ascending created_at |
| Participants.Letter | app/api/participants/route.ts:43-50 | each roll gives an upper-case letter or a digit |
| Participants.LetterIsCharAt | app/api/participants/route.ts:43-50 | roll r picks the r-th character of the 36-character alphabet |
| Participants.FirstFreeStep | app/api/participants/route.ts:45-63 | one attempt of the retry loop returns its code when the probe reports "no row", and otherwise leaves the outcome to the next attempt |
| Participants.Free | app/api/participants/route.ts:54-63 | the probe calls a code free exactly when `.single()` finds no single holder, and always when nobody holds it |
| Participants.FirstFree | app/api/participants/route.ts:45-66 | a returned code is one the probe called free; after the 100th attempt no code comes back |
| Participants.NewUser | app/api/participants/route.ts:95-105 | the new row has the id, the drawn code, now, the given name and group, and no nickname |
| AuthRoutes.ParticipantLogin | app/api/auth/participant/route.ts:6-77 | 400 without a code, 401 unless the users read succeeds and exactly one user has the code, 500 when the session cannot be stored, with no session added; otherwise one new session for that user, last active now, a cookie with its token expiring a day later, a body holding the user's five profile fields (never the QR code), and the profile flag set exactly when the user has no nickname |
| AuthRoutes.LoginViewSeesOnlyProfile | app/api/auth/participant/route.ts:59-67 | two users look the same in the login body exactly when their id, name, nickname, group and seat agree, so the QR code never reaches it |
| AuthRoutes.TokenAppended | app/api/auth/participant/route.ts:35-41 | a session with a fresh token is the only one holding it |
| AuthRoutes.LoginThenLookup | app/api/auth/participant/route.ts:32-57 | with a fresh token the new cookie finds the participant who logged in |
| AuthRoutes.UserFound | app/api/auth/participant/route.ts:35-41 | a user whose id is unique is found by that id |
| AuthRoutes.WithoutToken | app/api/auth/participant/route.ts:85-88 | exactly the sessions with another token remain |
| AuthRoutes.ParticipantLogout | app/api/auth/participant/route.ts:79-93 | always succeeds and clears the cookie; with a token, that token's sessions are deleted unless the delete fails |
| AuthRoutes.LogoutEndsSession | app/api/auth/participant/route.ts:79-93 | after logout the old cookie finds nobody |
| AuthRoutes.NoTokenLeft | app/api/auth/participant/route.ts:85-88 | when no session has the token, the lookup finds none |
| AuthRoutes.AdminLogin | app/api/auth/admin/route.ts:5-51 | 400 without a password, 500 when the server has none set, 401 on a mismatch, and no cookie on any of these; success exactly when the passwords match, with an admin cookie that expires after seven days |
| AuthRoutes.AdminLoginGrantsAdmin | app/api/auth/admin/route.ts:32-41 | the cookie a successful login sets passes the admin check |
| AuthRoutes.AdminLogout | app/api/auth/admin/route.ts:53-56 | succeeds and clears the admin cookie |
| Middleware.Guard | middleware.ts:2-24 | a dashboard path without the admin cookie goes to /admin; otherwise a participant page without the participant cookie goes to /participant; everything else passes |
| Middleware.NoRedirectLoop | middleware.ts:2-24 | the redirect targets are not guarded, so following a redirect passes |
| Middleware.EmptyCookiePasses | middleware.ts:5-21 | a cookie with an empty value passes the guard, although the admin check refuses it |
| Middleware.Matched | middleware.ts:27-34 | every path the matcher hands over falls under one of the guard's prefix tests |
| Middleware.UnderBaseStartsWith | middleware.ts:27-34 | a path under a matcher base starts with that base |
| Middleware.Serve | middleware.ts:2-34 | a path outside the matcher is served untouched; a path inside gets the guard's verdict, so /admin redirection happens exactly for matched dashboard paths without the admin cookie |
| Middleware.MatcherNarrowsPrefix | middleware.ts:6-34 | /admin/dashboardX passes the prefix test but never reaches the middleware, so it is served without the cookie; /admin/dashboard/settings is redirected |
| Upload.LastSegment | app/api/upload/route.ts:47 | the text after the last separator: a suffix holding no separator, preceded by one whenever it is shorter than the input |
| Upload.NoSeparator | app/api/upload/route.ts:47 | a name without the separator is its own last segment |
| Upload.SegmentAfter | app/api/upload/route.ts:142-143 | after a text ending in the separator, the last segment is whatever follows, when that holds no separator |
| Upload.Decimal | app/api/upload/route.ts:48 | `Date.now()` prints as a non-empty string of digits |
| Upload.FileName | app/api/upload/route.ts:47-48 | the name is as long as the kind, the time, the random part and the extension plus the two underscores and the dot, and the extension follows the dot |
| Upload.Post | app/api/upload/route.ts:5-118 | 401 without admin, then 400 without a file, then 400 for a type outside the five image types, then 400 above 5 MiB; success exactly when the checks pass and the storage took the file (possibly after creating the bucket), naming it under quiz-images/ as type_time_random.ext |
| Upload.SizeBoundary | app/api/upload/route.ts:37 | exactly 5 MiB is accepted; one byte more is refused |
| Upload.Delete | app/api/upload/route.ts:121-167 | 401 without admin and 400 without a url, removing nothing; otherwise the object named by the url's last segment under quiz-images/ is removed, and the answer is a 500 when that fails |
| Upload.DeleteFindsUpload | app/api/upload/route.ts:47-49 | removing by an uploaded file's URL removes that very object, as long as its name parts hold no '/' |
| Upload.FileNameAvoidsSlash | app/api/upload/route.ts:47-48 | a generated file name has no '/' when the kind, the random part and the uploaded name have none |
| Upload.UrlNamesFile | app/api/upload/route.ts:142-143 | the last '/'-segment of a public URL ending in the folder and a file name is that file name |
| QuestionForm.Blank | app/admin/questions/page.tsx:35-49 | a fresh form: the given number, empty texts, multiple choice, 10 points and four empty incorrect choices |
| QuestionForm.AddChoice | app/admin/questions/page.tsx:74-79 | appends one empty incorrect choice and keeps the others |
| QuestionForm.RemoveChoice | app/admin/questions/page.tsx:81-86 | drops exactly the choice at the index, keeping the order; an index outside the list changes nothing |
| QuestionForm.ChangeText | app/admin/questions/page.tsx:88-99 | only the text of the chosen choice changes |
| QuestionForm.ChangeCorrect | app/admin/questions/page.tsx:88-99 | the chosen choice takes the value; marking it correct clears every other choice, unmarking it leaves the others alone; texts never change |
| QuestionForm.UpdatersKeepOneCorrect | app/admin/questions/page.tsx:74-99 | every choice handler keeps at most one choice correct, and marking one correct leaves exactly that one |
| QuestionForm.OfferedRemoveKeepsTwo | app/admin/questions/page.tsx:307 | the remove control is offered only above two choices, so it never leaves fewer than two |
| QuestionForm.NonBlank | app/admin/questions/page.tsx:110 | exactly the choices whose text is not blank |
| QuestionForm.PrefixKeepsOneCorrect | app/admin/questions/page.tsx:110 | a prefix of a list with at most one correct choice has at most one too |
| QuestionForm.AppendKeepsOneCorrect | app/admin/questions/page.tsx:110 | adding a choice keeps at most one correct when it is incorrect or the rest has none |
| QuestionForm.NonBlankKeepsOneCorrect | app/admin/questions/page.tsx:110 | filtering out blank choices keeps at most one correct |
| QuestionForm.Validate | app/admin/questions/page.tsx:101-119 | submit is refused for blank question text first; then, for multiple choice, for fewer than two non-blank choices; then for no correct non-blank choice; and accepted exactly when none of these holds |
| QuestionForm.FreeTextNeedsOnlyText | app/admin/questions/page.tsx:104-119 | a free-text question is accepted exactly when its text is not blank |
| QuestionForm.Payload | app/admin/questions/page.tsx:127-132 | the body carries the form's own fields; no choices for free text; for multiple choice the non-blank choices, in order, with their correctness |
| QuestionForm.SubmittedFormStoresOneCorrect | app/admin/questions/page.tsx:101-132 | an accepted multiple-choice form made through the handlers stores at least two choice rows, none blank, exactly one correct |
| QuestionForm.MaxNumber | app/admin/questions/page.tsx:63 | the greatest of the numbers, and one of them |
| QuestionForm.Numbers | app/admin/questions/page.tsx:63 | the question numbers of the loaded list, in order |
| QuestionForm.AfterLoad | app/admin/questions/page.tsx:55-72 | an empty list leaves the form; otherwise every loaded number is below the form's number and one is exactly one below it |
| QuestionForm.AfterSubmit | app/admin/questions/page.tsx:135-152 | after a successful submit the form is blank again at the next question number |
| QuestionForm.LastCorrectIsAlone | app/admin/questions/page.tsx:88-99 | when the last choice is marked correct and at most one is, no choice before it is marked correct |
| Dashboard.Panel.constructor | app/admin/dashboard/page.tsx:6-7 | the panel opens waiting at question 0 |
| Dashboard.Panel.StartQuiz | app/admin/dashboard/page.tsx:10-13 | showing the question, at question 1 |
| Dashboard.Panel.NextQuestion | app/admin/dashboard/page.tsx:15-18 | showing the question, one question further on |
| Dashboard.Panel.CloseAnswers | app/admin/dashboard/page.tsx:20-22 | showing results, the question unchanged |
| Dashboard.Panel.ShowResults | app/admin/dashboard/page.tsx:24-26 | showing results, the question unchanged |
| Dashboard.Panel.Click | app/admin/dashboard/page.tsx:10-94 | a click moves the panel exactly as the reference step says, keeps a coherent panel coherent, and never lowers the question number; a disabled button changes nothing |
| Dashboard.Step | app/admin/dashboard/page.tsx:64-94 | a disabled button leaves the state; start goes to question 1, next one further, close and results show results at the same question; each button is enabled in the phases its `disabled` attribute allows |
| Dashboard.Enabled | app/admin/dashboard/page.tsx:64-94 | while waiting only the start button is enabled; at the end only the results button is |
| Dashboard.Run | app/admin/dashboard/page.tsx:10-94 | clicking only buttons disabled in the current phase changes nothing |
| Dashboard.OnlyThreePhases | app/admin/dashboard/page.tsx:10-26 | whatever is clicked, the panel stays coherent, the number never falls, and accepting answers and finished are never reached, so the close button is never enabled |
| Dashboard.InitialIsCoherent | app/admin/dashboard/page.tsx:80-86 | from the opening state no sequence of clicks ever enables the close button |
| QuizPage.Tick | app/participant/quiz/page.tsx:55-61 | one second of the countdown: down by one, and never below 0 |
| QuizPage.Countdown | app/participant/quiz/page.tsx:51-65 | after at least one second the counter is never negative, and it never rises above a non-negative start |
| QuizPage.CountdownIsClamped | app/participant/quiz/page.tsx:51-65 | after n seconds the countdown shows its start minus n, or 0 once that is reached |
| QuizPage.CountdownStaysAtZero | app/participant/quiz/page.tsx:55-61 | once the countdown reaches 0 it stays there |
| QuizPage.RouteFor | app/participant/quiz/page.tsx:67-73 | showing results sends the participant to the results page, waiting to the waiting page, any other phase keeps them |
| QuizPage.Check | app/participant/quiz/page.tsx:117-125 | a multiple-choice question without a selection and a free-text question with blank text are refused, each with its own message; everything else passes |
| QuizPage.Payload | app/participant/quiz/page.tsx:136-140 | the posted answer names the question; it carries the selected choice exactly for multiple choice and the text exactly for free text |
| QuizPage.Screen.constructor | app/participant/quiz/page.tsx:29-36 | the screen opens with no question, no phase, no selection, empty text, 30 seconds and no message |
| QuizPage.Screen.RestartTimer | app/participant/quiz/page.tsx:51-53 | when the countdown runs, it restarts at the question's time limit; otherwise it is left alone |
| QuizPage.Screen.TickTimer | app/participant/quiz/page.tsx:54-62 | the counter takes one countdown step |
| QuizPage.Screen.TimerRuns | app/participant/quiz/page.tsx:51-53 | the countdown runs only while answers are accepted and the question is unanswered |
| QuizPage.Screen.SubmitShown | app/participant/quiz/page.tsx:179-311 | the submit button shows only for an unanswered question with time left, and never while the question is only being shown |
| QuizPage.Screen.SubmitDisabled | app/participant/quiz/page.tsx:300-304 | the button is disabled while submitting; when it is enabled the input passes the check |
| QuizPage.Screen.ReceiveOwnAnswer | app/participant/quiz/page.tsx:100-112 | the question becomes answered exactly when the server returns an existing answer, and stays answered |
| QuizPage.Screen.HandleSubmit | app/participant/quiz/page.tsx:114-157 | without a question nothing happens; a failed check shows its message and sends nothing; otherwise the payload is sent, 200 marks the question answered, a refusal shows the server's reason, a thrown request shows the send error, and the screen is no longer submitting |
| QuizPage.TimeUpHidesSubmit | app/participant/quiz/page.tsx:295-311 | when time is up the submit button is not shown |
| QuizPage.EnabledSubmitSends | app/participant/quiz/page.tsx:300-304 | an enabled submit passes the checks and sends either just the choice or just the text, and the server scores a free-text answer as incorrect with 0 points |
| ParticipantResults.Summarize | app/participant/results/page.tsx:48-53 | the summary counts every returned answer, never more correct ones than answers, and all of them are correct exactly when every answer is |
| ParticipantResults.Points | app/participant/results/page.tsx:48 | an answer adds its points, and a null `points_earned` adds 0 |
| ParticipantResults.Hit | app/participant/results/page.tsx:49 | an answer counts 1 exactly when it is correct, 0 otherwise |
| ParticipantResults.Sum | app/participant/results/page.tsx:48-49 | a sum of non-negative terms is non-negative |
| ParticipantResults.HitsBounded | app/participant/results/page.tsx:49 | the correct count lies between 0 and the number of answers, and reaches it exactly when every answer is correct |
| ParticipantResults.SumConcat | app/participant/results/page.tsx:48 | a sum over two lists is the sum of the sums |
| ParticipantResults.SumPermutation | app/participant/results/page.tsx:48-49 | the sums do not depend on the order the answers come in |
| ParticipantResults.SumAppend | app/participant/results/page.tsx:48 | one more answer adds its own term |
| ParticipantResults.OwnAnswersGiveServerTotals | app/participant/results/page.tsx:48-49 | over a participant's own answers, the page's sums equal the server's correct points and correct count, when stored points are consistent |
| ParticipantResults.SummaryMatchesLeaderboard | app/participant/results/page.tsx:42-53 | the summary of the newest-first list the page receives shows the participant's leaderboard total, correct count and number of answers |
| ParticipantResults.RoundPercent | app/participant/results/page.tsx:113 | 0 without answers; otherwise the share times 100 rounded to the nearest integer, halves up |
| ParticipantResults.PercentBounds | app/participant/results/page.tsx:113 | the percentage lies between 0 and 100, is 100 when all are correct and 0 when none is |
| ParticipantResults.MultiplyMonotone | app/participant/results/page.tsx:113 | multiplying by a non-negative number keeps the order |
| ParticipantResults.RouteFor | app/participant/results/page.tsx:34-40 | showing a question or accepting answers sends the participant to the quiz, waiting to the waiting page, results and finished keep them |
| ParticipantResults.PerfectIffAllCorrect | app/participant/results/page.tsx:138-156 | at the end the perfect banner shows exactly when every returned answer is correct, which includes a participant with no answers |
| ParticipantResults.PerfectShown | app/participant/results/page.tsx:138-156 | the perfect banner only shows in the finished phase |
| ParticipantResults.RankCardShown | app/participant/results/page.tsx:119-125 | the rank card is hidden while the rank is null or 0 |
| ParticipantResults.HundredPercentShortOfPerfect | app/participant/results/page.tsx:113-150 | 199 of 200 correct shows 100 % and no perfect banner |
| ParticipantResults.RankCardNeverShown | app/participant/results/page.tsx:119-125 | the rank state starts null (line 23) and no handler sets it, so the rank card never shows |
| AdminResults.Split | app/admin/results/page.tsx:113-116 | splitting any text yields at least one piece |
| AdminResults.SplitPrefix | app/admin/results/page.tsx:113-116 | a leading piece free of the separator becomes the first piece of the split |
| AdminResults.SplitJoin | app/admin/results/page.tsx:113-116 | a `join` of pieces free of the separator splits back into exactly those pieces |
| AdminResults.OccurrencesConcat | app/admin/results/page.tsx:113-116 | the separators in two concatenated texts add up |
| AdminResults.ContainsOccurs | app/admin/results/page.tsx:106 | a text containing a character has at least one occurrence of it |
| AdminResults.SplitCount | app/admin/results/page.tsx:113-116 | a split gives one more piece than the text has separators |
| AdminResults.JoinOccurrences | app/admin/results/page.tsx:115 | a joined row holds one separator between each two cells plus any inside a cell |
| AdminResults.JoinAvoids | app/admin/results/page.tsx:113-116 | joining cells free of a character other than the separator adds no such character |
| AdminResults.Join | app/admin/results/page.tsx:113-116 | one piece joins to itself; two or more pieces contain the separator |
| AdminResults.IntString | app/admin/results/page.tsx:108-109 | a printed integer consists only of digits and a minus sign |
| AdminResults.GroupLabel | app/admin/results/page.tsx:80-90 | each of the six group types prints as its Japanese label, any other value prints as itself |
| AdminResults.LabelsDistinct | app/admin/results/page.tsx:81-88 | the six group types get six different labels |
| AdminResults.RankEmoji | app/admin/results/page.tsx:92-99 | a medal is shown exactly for ranks 1, 2 and 3 |
| AdminResults.EntryField | app/api/stats/leaderboard/route.ts:59-65 | a leaderboard entry has only the six keys the route builds; any other key reads as undefined |
| AdminResults.Cell | app/admin/results/page.tsx:103-111 | a cell prints empty exactly when the value is missing or empty |
| AdminResults.RowAsWritten | app/admin/results/page.tsx:103-111 | as written, the row has one cell per header, and its nickname, group, score and count cells agree with the corrected row |
| AdminResults.AsWrittenRowLosesColumns | app/admin/results/page.tsx:103-111 | as written, every exported row has empty rank, name and question-count cells, so each line starts with two commas |
| AdminResults.Row | app/admin/results/page.tsx:102-111 | the corrected row has one cell per header: rank, name, nickname or empty, group label, score, correct count, question count |
| AdminResults.Lines | app/admin/results/page.tsx:115 | one line per leaderboard entry, in leaderboard order, with rank equal to position plus one |
| AdminResults.Download | app/admin/results/page.tsx:118 | the download is the CSV text preceded by a byte order mark |
| AdminResults.Csv | app/admin/results/page.tsx:113-116 | without entries the export is the header line alone; with entries it has a line break |
| AdminResults.RowAvoids | app/admin/results/page.tsx:103-111 | a row's cells are free of a non-digit character that the entry's texts avoid |
| AdminResults.HeadersAvoid | app/admin/results/page.tsx:102 | the headers contain no comma and no line break |
| AdminResults.CsvRoundTrip | app/admin/results/page.tsx:101-116 | when names, nicknames and labels avoid commas and line breaks, the export reads back as the header line plus each entry's seven cells in order |
| AdminResults.CommaShiftsColumns | app/admin/results/page.tsx:113-116 | there is no quoting, so a comma in a nickname gives that line more cells than there are headers |
| AdminResults.NumberField | app/api/stats/answers/route.ts:59-62 | the answer-stats body has no numeric key other than `total` |
| AdminResults.CorrectPicks | app/admin/results/page.tsx:54-66 | answers on correct choices never exceed the answers counted over all choices |
| AdminResults.CorrectAnswerCount | app/admin/results/page.tsx:54-66 | the answers whose choice is a correct one, never more than the answers |
| AdminResults.CorrectPicksStep | app/api/stats/answers/route.ts:46-57 | one more answer raises the correct choices' summed counts by its matches when its choice is correct, and not otherwise |
| AdminResults.CorrectPicksNone | app/api/stats/answers/route.ts:46-57 | with no answers the correct choices' counts sum to 0 |
| AdminResults.MatchesMember | app/api/stats/answers/route.ts:49 | a stored choice's id matches at least one choice |
| AdminResults.CorrectPicksCountCorrectAnswers | app/admin/results/page.tsx:54-66 | with distinct choice ids, the counts of the correct choices add up to the number of answers on a correct choice |
| AdminResults.ResultsAsWritten | app/admin/results/page.tsx:54-71 | the page's table has one line per question, ordered by question number, each built from the keys the page reads |
| AdminResults.ResultAsWritten | app/admin/results/page.tsx:59-67 | as written, a question keeps its number and text and shows 0 correct out of 0 answers and 0%, whatever the stats body holds |
| AdminResults.Results | app/admin/results/page.tsx:54-71 | the corrected table has one line per question, ordered by question number, each built from the returned stats |
| AdminResults.Result | app/admin/results/page.tsx:59-67 | corrected, a question keeps its number and text; a failed stats body shows zeros; otherwise its total is the body's total, its correct count at most the summed choice counts, and 0% without answers |
| AdminResults.AccuracyAlwaysZero | app/admin/results/page.tsx:59-66 | as written, every question shows 0 correct out of 0 answers and 0%, whatever was answered |
| AdminResults.OneCorrectAnswerShowsZero | app/admin/results/page.tsx:59-66 | one correct answer to a one-question quiz shows 0% as written and 100% when corrected |
| AdminResults.CorrectedAccuracyIsShare | app/admin/results/page.tsx:54-66 | corrected, a question counts all of its answers, its correct count is the number of those answers whose choice is a correct one, no more than all of them, and its percentage is their rounded share, between 0 and 100 |
| AdminResults.OneAnswerStats | app/api/stats/answers/route.ts:47-62 | one answer picking the one correct choice gives that choice a count of 1 and 100 % out of a total of 1 |

## Left out

- Supabase, PostgREST and Next.js plumbing are modelled by their outcomes only.
  A query failure is a boolean parameter, and `response.ok` is status 200.
  The "match every row" filters of the reset and the bulk delete are taken to
  select every row.
- A read whose error the source does not look at is modelled by what the
  handler then sees: `data` is null, so the read counts as no rows
  (`Db.Read`). This covers the duplicate-answer guard, the choice and
  question lookups of `app/api/answers/route.ts` and the nickname duplicate
  probe. It also covers the read of the current row in the game-state PUT,
  the undo route's fetch of the action and its read of the current row, and
  the users read of the participant login. The `last_active` update of
  `getCurrentUser` is unchecked too: when it fails, the sessions table is
  left as it was and the user is still returned. The database's error
  itself is not modelled.
- Randomness is a parameter. This covers the login code draws, session tokens
  and the upload's random name part. The clock is a `now` parameter in
  milliseconds, and the admin password's environment value is a parameter.
- Realtime channels (`lib/supabase/realtime.ts`) and the pages' 2-second
  polling timers are event delivery, not logic. Each poll is modelled as one
  call of the routing function.
- `app/api/participants/qr-codes/route.ts` and `app/api/user/me/route.ts` are not part
  of this model. They wrap a QR library and a plain lookup.
- The storage upload, the bucket-creation retry and `getPublicUrl` come in as
  a `StorageOutcome` parameter.
- Upload.Post: answers with the storage path where the source answers with
  the public URL built from it, since the URL comes from the storage service.
  `Upload.DeleteFindsUpload` relates that URL's shape to the path.
- Sorting.SortDescending: states sortedness and the same elements, not the
  stability of `Array.prototype.sort`. So `Leaderboard.Get` does not fix
  which of several tied entries are kept by the limit.
- Floating point is not modelled. `Math.round` of a percentage is exact round
  half up on integers (`ParticipantResults.RoundPercent`), and the answer-stats
  percentage is an exact `real`.
- Concurrency is not modelled: requests run one at a time. The check-then-insert
  races behind the duplicate-answer, duplicate-code and duplicate-nickname
  guards are therefore not represented.
- Row ids are natural numbers handed out by `Database.FreshId` in place of
  UUIDs. Foreign-key cascades are not modelled, so deleting a user leaves
  their answers and sessions in their tables.
- Nickname.Put: when the update by qr_code matches several rows, the model
  answers 500 and leaves the users table unchanged. It assumes the
  database does not keep an update whose `maybeSingle` reports an error.
- QuestionForm.Payload: the question number and points fields are `int`.
  In the page, `parseInt` of an emptied number field gives NaN, which
  `JSON.stringify` sends as null; that value is not modelled.
- Questions.Post: the database default for `time_limit_seconds` is a
  parameter, because the schema that sets it is not part of this model.
- `AdminResults.GroupLabel` looks up only the six group keys; JavaScript
  prototype keys such as "constructor" are not modelled.
- Rendering-only parts of the pages are not modelled. On the dashboard these
  include the participant counter, which is never updated, and the UNDO
  button, which is not wired to the API. Also left out are the results
  table's medal column, which reads the same missing `rank` key as the CSV
  export, loading spinners, and the message texts.
- The date in the CSV file name comes from the clock and is not modelled.
- Error message texts are a `Reason` value. Status codes are kept exactly.
- The ranking route reads a `user_id` cookie that no route in the repository
  sets. The model keeps that behaviour: the cookie is an optional parameter.
- Cookie lifetimes (24 hours for a participant, 7 days for the admin) are
  modelled as an expiry time on the cookie that is set. Browser expiry itself
  is not modelled: `lib/auth.ts` and `middleware.ts` only test whether the
  cookie is present.

## Findings

| source | as written | input that shows it | evidently intended | confidence | as-written member | corrected member |
|---|---|---|---|---|---|---|
| app/admin/results/page.tsx:103-111 | each CSV row reads `entry.rank`, `entry.user_name` and `entry.total_questions`, but the entries from app/api/stats/leaderboard/route.ts:59-65 carry `user_id`, `name`, `nickname`, `group_type`, `total_score` and `correct_count` only | any leaderboard entry: its line starts with two empty cells and ends with an empty one | rank = position in the leaderboard + 1, the entry's `name`, and the quiz's question count | not executed | AdminResults.AsWrittenRowLosesColumns | AdminResults.CsvRoundTrip |
| app/admin/results/page.tsx:59-66 | per-question accuracy reads `correct_count` and `total_count` from /api/stats/answers, which answers `{stats, total}` (app/api/stats/answers/route.ts:59-62) | one participant answering a one-question quiz with its correct choice: the page shows 0 correct of 0 and 0% | the answers on correct choices out of `total` | not executed | AdminResults.OneCorrectAnswerShowsZero | AdminResults.CorrectedAccuracyIsShare |
