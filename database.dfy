/** The quiz's tables and the shape of every HTTP response, after
    types/database.ts. Timestamps are milliseconds since the epoch, row ids
    are natural numbers handed out by the database. */
module Db {

  datatype Option<+T> = None | Some(value: T)

  /** A field of a JSON request body: left out (`undefined`) or given. */
  datatype Update<+T> = Keep | Set(value: T)

  function ValueOr<T>(o: Option<T>, default: T): T
  {
    match o
    case Some(v) => v
    case None => default
  }

  /** A text field JavaScript treats as false: absent, null or empty. */
  predicate Falsy(s: Option<string>)
  {
    s.None? || s.value == ""
  }

  function Apply<T>(u: Update<T>, current: T): T
  {
    match u
    case Set(v) => v
    case Keep => current
  }

  type Id = nat
  type Time = nat

  datatype Phase = Waiting | ShowingQuestion | AcceptingAnswers | ShowingResults | Finished

  function PhaseName(p: Phase): string
  {
    match p
    case Waiting => "waiting"
    case ShowingQuestion => "showing_question"
    case AcceptingAnswers => "accepting_answers"
    case ShowingResults => "showing_results"
    case Finished => "finished"
  }

  datatype QuestionType = MultipleChoice | FreeText

  datatype User = User(
    id: Id,
    qr_code: string,
    name: string,
    nickname: Option<string>,
    group_type: string,
    seat_number: Option<string>,
    message: Option<string>,
    message_image_url: Option<string>,
    created_at: Time)

  /** The user fields the participant login answers with. */
  datatype LoginUser = LoginUser(
    id: Id,
    name: string,
    nickname: Option<string>,
    group_type: string,
    seat_number: Option<string>)

  datatype Question = Question(
    id: Id,
    question_number: int,
    question_text: string,
    question_type: QuestionType,
    image_url: Option<string>,
    time_limit_seconds: int,
    points: int,
    explanation_text: Option<string>,
    explanation_image_url: Option<string>)

  datatype Choice = Choice(
    id: Id,
    question_id: Id,
    choice_text: string,
    is_correct: bool,
    display_order: int)

  datatype Answer = Answer(
    id: Id,
    user_id: Option<Id>,
    question_id: Id,
    choice_id: Option<Id>,
    answer_text: Option<string>,
    is_correct: bool,
    points_earned: Option<int>,
    answered_at: Time)

  datatype GameStateRecord = GameStateRecord(
    id: Id,
    current_state: Phase,
    current_question_id: Option<Id>,
    current_question_number: Option<int>,
    answers_closed_at: Option<Time>,
    results_shown_at: Option<Time>,
    created_at: Time,
    updated_at: Time)

  /** The body of `PUT /api/game-state`. */
  datatype StateChange = StateChange(
    current_state: Phase,
    current_question_id: Update<Option<Id>>,
    current_question_number: Update<Option<int>>)

  datatype AdminAction = AdminAction(
    id: Id,
    action_type: string,
    previous_state: Option<GameStateRecord>,
    new_state: StateChange,
    performed_at: Time,
    undone: bool)

  datatype UserSession = UserSession(
    id: Id,
    user_id: Id,
    session_token: string,
    last_active: Time)

  /** Rows of the aggregate endpoints. */
  datatype LeaderboardEntry = LeaderboardEntry(
    user_id: Id,
    name: string,
    nickname: Option<string>,
    group_type: string,
    total_score: int,
    correct_count: nat)

  datatype ChoiceStat = ChoiceStat(choice_id: Id, choice_text: string, count: nat, percentage: real)

  datatype QuestionWithChoices = QuestionWithChoices(question: Question, choices: seq<Choice>)

  /** The `answer` object of the latest-answer response: four of the row's
      fields, with `choice_id` sent as `selected_choice_id`. */
  datatype LatestPick = LatestPick(
    is_correct: bool,
    points_earned: Option<int>,
    selected_choice_id: Option<Id>,
    answered_at: Time)

  /** The question columns embedded in the latest-answer response. */
  datatype QuestionHeader = QuestionHeader(
    question_number: int,
    question_text: string,
    question_type: QuestionType,
    image_url: Option<string>)

  datatype LatestAnswer = LatestAnswer(
    answer: LatestPick,
    question: Option<QuestionHeader>,
    choices: seq<Choice>,
    correct_choice_id: Option<Id>)

  /** Why a request was refused; stands for the message text of the error body. */
  datatype Reason =
    | AdminRequired
    | AuthRequired
    | InvalidCredentials
    | MissingField
    | ConfirmRequired
    | AlreadyAnswered
    | AlreadyUndone
    | NotFound
    | NicknameBlank
    | NicknameTooLong
    | NicknameEmoji
    | NicknameTaken
    | FileMissing
    | FileType
    | FileTooLarge
    | ServerConfig
    | BackendFailure

  datatype Body =
    | Failure(reason: Reason)
    | Success
    | StateRow(row: GameStateRecord)
    | StateUpdated(updated: GameStateRecord, admin_action_id: Option<Id>)
    | LastAction(action: Option<AdminAction>)
    | Scored(is_correct: bool, points_earned: int)
    | Count(count: nat)
    | OwnAnswer(answer: Option<Answer>)
    | OwnAnswers(answers: seq<Answer>)
    | Latest(latest: Option<LatestAnswer>)
    | Leaderboard(entries: seq<LeaderboardEntry>)
    | Rank(rank: int, totalScore: int)
    | ChoiceStats(stats: seq<ChoiceStat>, total: nat)
    | TableCounts(participantCount: nat, questionCount: nat, answerCount: nat, sessionCount: nat)
    | OneQuestion(q: QuestionWithChoices)
    | Questions(qs: seq<QuestionWithChoices>)
    | CreatedQuestion(created: Question)
    | Participant(user: User)
    | Participants(users: seq<User>)
    | NicknameSet(nicknamed: User)
    | LoggedIn(loggedIn: LoginUser, shouldSetupProfile: bool)
    | Removed(count: nat)
    | NothingToRemove
    | Reset
    | Uploaded(path: string, fileName: string, size: nat, mime: string)

  /** The one cookie a response sets or clears, if any. */
  datatype CookieOp =
    | NoCookie
    | SetCookie(cookieName: string, cookieValue: string, expires: Time)
    | ClearCookie(clearedName: string)

  datatype Response = Response(status: nat, body: Body, cookie: CookieOp)

  function Ok(b: Body): Response
  {
    Response(200, b, NoCookie)
  }

  function Fail(status: nat, why: Reason): Response
  {
    Response(status, Failure(why), NoCookie)
  }

  /** PostgREST's `.single()`: the row when exactly one matched, else none
      (the PGRST116 error covers both "no row" and "several rows"). */
  function Single<T>(rows: seq<T>): (r: Option<T>)
    ensures r.Some? <==> |rows| == 1
    ensures r.Some? ==> r.value == rows[0]
  {
    if |rows| == 1 then Some(rows[0]) else None
  }

  /** A table as a read sees it: a failed read whose error the handler does
      not look at yields no data, which the route cannot tell from no
      matching row. */
  function Read<T>(rows: seq<T>, fails: bool): (r: seq<T>)
    ensures fails ==> r == []
    ensures !fails ==> r == rows
  {
    if fails then [] else rows
  }

  /** The in-memory database: one sequence per table, in insertion order, and
      the source of fresh row ids. */
  class Database {
    var users: seq<User>
    var questions: seq<Question>
    var choices: seq<Choice>
    var answers: seq<Answer>
    var gameStates: seq<GameStateRecord>
    var adminActions: seq<AdminAction>
    var sessions: seq<UserSession>
    var nextId: Id

    constructor ()
      ensures users == [] && questions == [] && choices == [] && answers == []
      ensures gameStates == [] && adminActions == [] && sessions == [] && nextId == 0
      ensures Valid()
    {
      users, questions, choices, answers := [], [], [], [];
      gameStates, adminActions, sessions := [], [], [];
      nextId := 0;
    }

    /** Every stored row id lies below the counter. */
    ghost predicate Valid()
      reads this
    {
      (forall u :: u in users ==> u.id < nextId) &&
      (forall q :: q in questions ==> q.id < nextId) &&
      (forall c :: c in choices ==> c.id < nextId) &&
      (forall a :: a in answers ==> a.id < nextId) &&
      (forall g :: g in gameStates ==> g.id < nextId) &&
      (forall a :: a in adminActions ==> a.id < nextId) &&
      (forall x :: x in sessions ==> x.id < nextId)
    }

    /** No stored row of any table holds the id. */
    ghost predicate Unused(id: Id)
      reads this
    {
      (forall u :: u in users ==> u.id != id) &&
      (forall q :: q in questions ==> q.id != id) &&
      (forall c :: c in choices ==> c.id != id) &&
      (forall a :: a in answers ==> a.id != id) &&
      (forall g :: g in gameStates ==> g.id != id) &&
      (forall a :: a in adminActions ==> a.id != id) &&
      (forall x :: x in sessions ==> x.id != id)
    }

    /** Hands out the counter and advances it; while every stored id lies
        below the counter, the id handed out is held by no row. */
    method FreshId() returns (id: Id)
      modifies this`nextId
      ensures id == old(nextId) && nextId == id + 1
      ensures old(Valid()) ==> Valid() && Unused(id)
    {
      id := nextId;
      nextId := nextId + 1;
    }
  }
}
