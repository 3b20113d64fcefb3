/** app/api/answers/route.ts and app/api/answers/latest/route.ts: submitting
    an answer (duplicate guard, scoring, insert), reading one's own answers,
    the per-question count and the latest answer with its correct choice. */
module Answers {
  import opened Db
  import opened Queries
  import Auth
  import Sorting

  /** The JSON body of POST /api/answers; a missing field is None. */
  datatype AnswerRequest = AnswerRequest(question_id: Option<Id>, choice_id: Option<Id>, answer_text: Option<string>)

  /** `question?.points || 10`: a missing question or a zero score falls back to 10. */
  function AwardedPoints(q: Option<Question>): (p: int)
    ensures q.Some? && q.value.points != 0 ==> p == q.value.points
    ensures q.None? || q.value.points == 0 ==> p == 10
  {
    if q.Some? && q.value.points != 0 then q.value.points else 10
  }

  /** The scoring of POST: correct exactly when a choice id is given and the
      one choice with that id is marked correct; a correct answer earns the
      question's points, anything else earns 0. */
  function Score(choices: seq<Choice>, questions: seq<Question>, questionId: Id, choiceId: Option<Id>): (r: (bool, int))
    ensures r.0 <==> choiceId.Some? && ChoiceById(choices, choiceId.value).Some? && ChoiceById(choices, choiceId.value).value.is_correct
    ensures r.0 ==> r.1 == AwardedPoints(QuestionById(questions, questionId))
    ensures !r.0 ==> r.1 == 0
  {
    if choiceId.None? then (false, 0)
    else
      var choice := ChoiceById(choices, choiceId.value);
      if choice.Some? && choice.value.is_correct then (true, AwardedPoints(QuestionById(questions, questionId)))
      else (false, 0)
  }

  /** With primary keys distinct, a stored choice scores by its own flag: a
      correct one earns the stored question's points (10 when those are 0),
      an incorrect one earns 0. */
  lemma StoredChoiceScores(choices: seq<Choice>, questions: seq<Question>, c: Choice, q: Question)
    requires DistinctChoiceIds(choices) && c in choices
    requires DistinctQuestionIds(questions) && q in questions
    ensures Score(choices, questions, q.id, Some(c.id)) ==
      if c.is_correct then (true, if q.points != 0 then q.points else 10) else (false, 0)
  {
    ChoiceFound(choices, c);
    QuestionFound(questions, q);
  }

  /** An id no choice carries, or a choice table the lookup could not read,
      scores as incorrect with 0 points. */
  lemma UnknownChoiceScoresZero(choices: seq<Choice>, questions: seq<Question>, questionId: Id, choiceId: Id)
    requires forall c :: c in choices ==> c.id != choiceId
    ensures Score(choices, questions, questionId, Some(choiceId)) == (false, 0)
  {
  }

  /** A correct answer to a question the lookup does not find earns 10. */
  lemma MissingQuestionAwardsTen(choices: seq<Choice>, questions: seq<Question>, c: Choice, questionId: Id)
    requires DistinctChoiceIds(choices) && c in choices && c.is_correct
    requires forall q :: q in questions ==> q.id != questionId
    ensures Score(choices, questions, questionId, Some(c.id)) == (true, 10)
  {
    ChoiceFound(choices, c);
  }

  /** The choice is looked up by its id alone: a correct choice of another
      question scores as correct. */
  lemma ForeignChoiceScores()
    ensures var other := Choice(7, 2, "yes", true, 1);
      var q := Question(1, 1, "?", MultipleChoice, None, 30, 20, None, None);
      other.question_id != q.id && Score([other], [q], q.id, Some(other.id)) == (true, 20)
  {
    var other := Choice(7, 2, "yes", true, 1);
    assert ChoicesWithId([other], 7) == [other] by {
      assert [other][..0] == [];
    }
    var q := Question(1, 1, "?", MultipleChoice, None, 30, 20, None, None);
    assert QuestionsWithId([q], 1) == [q] by {
      assert [q][..0] == [];
    }
  }

  /** No participant holds two answers to one question. */
  ghost predicate OneAnswerEach(answers: seq<Answer>)
  {
    forall u, q :: |AnswersOf(answers, u, q)| <= 1
  }

  /** Every stored answer carries its points, and only correct answers carry
      any. */
  predicate WellScored(answers: seq<Answer>)
  {
    forall a :: a in answers ==> a.points_earned.Some? && (!a.is_correct ==> a.points_earned.value == 0)
  }

  lemma AnswersOfAppend(answers: seq<Answer>, a: Answer, u: Id, q: Id)
    ensures AnswersOf(answers + [a], u, q) ==
      AnswersOf(answers, u, q) + (if a.user_id == Some(u) && a.question_id == q then [a] else [])
  {
    assert (answers + [a])[..|answers|] == answers;
  }

  /** The duplicate guard keeps OneAnswerEach: an answer is only appended
      when `.single()` found no earlier one. */
  lemma AppendKeepsOneAnswerEach(answers: seq<Answer>, a: Answer)
    requires OneAnswerEach(answers)
    requires a.user_id.Some?
    requires Single(AnswersOf(answers, a.user_id.value, a.question_id)).None?
    ensures OneAnswerEach(answers + [a])
  {
    forall u, q
      ensures |AnswersOf(answers + [a], u, q)| <= 1
    {
      AnswersOfAppend(answers, a, u, q);
    }
  }

  /** Under OneAnswerEach the `.single()` guard sees an earlier answer exactly
      when there is one. */
  lemma GuardSeesEarlierAnswer(answers: seq<Answer>, u: Id, q: Id)
    requires OneAnswerEach(answers)
    ensures Single(AnswersOf(answers, u, q)).Some? <==>
      exists a :: a in answers && a.user_id == Some(u) && a.question_id == q
  {
    var found := AnswersOf(answers, u, q);
    assert |found| <= 1;
    if |found| == 1 {
      assert found[0] in found;
    }
  }

  /** POST: 401 without a user, 400 without a question id, 400 when the user
      already answered it; otherwise the scored answer is appended (500 if
      the insert fails) and the score is echoed. The route reads no error of
      its three selects: a failed duplicate guard (`guardFails`) finds no
      earlier answer, a failed choice lookup (`choiceFails`) scores the
      answer incorrect, a failed question lookup (`questionFails`) awards 10. */
  method Submit(db: Database, cookie: Option<string>, req: AnswerRequest, now: Time, lookupFails: bool, touchFails: bool,
                guardFails: bool, choiceFails: bool, questionFails: bool, insertFails: bool)
      returns (r: Response)
    modifies db`sessions, db`answers, db`nextId
    ensures old(db.Valid()) ==> db.Valid()
    ensures db.sessions == Auth.SessionsAfter(old(db.sessions), cookie, now, lookupFails, touchFails)
    ensures var user := Auth.CurrentUser(old(db.sessions), db.users, cookie, lookupFails);
      (user.None? ==> r == Fail(401, AuthRequired) && db.answers == old(db.answers)) &&
      (user.Some? && req.question_id.None? ==> r == Fail(400, MissingField) && db.answers == old(db.answers)) &&
      (user.Some? && req.question_id.Some? ==>
        var earlier := Single(AnswersOf(Read(old(db.answers), guardFails), user.value.id, req.question_id.value));
        (earlier.Some? ==> r == Fail(400, AlreadyAnswered) && db.answers == old(db.answers)) &&
        (earlier.None? && insertFails ==> r == Fail(500, BackendFailure) && db.answers == old(db.answers)) &&
        (earlier.None? && !insertFails ==>
          var score := Score(Read(db.choices, choiceFails), Read(db.questions, questionFails), req.question_id.value, req.choice_id);
          r == Ok(Scored(score.0, score.1)) &&
          db.answers == old(db.answers) + [Answer(old(db.nextId), Some(user.value.id), req.question_id.value,
                                                  req.choice_id, req.answer_text, score.0, Some(score.1), now)]))
    ensures OneAnswerEach(old(db.answers)) && !guardFails ==> OneAnswerEach(db.answers)
    ensures WellScored(old(db.answers)) ==> WellScored(db.answers)
  {
    var user := Auth.GetCurrentUser(db, cookie, now, lookupFails, touchFails);
    if user.None? {
      return Fail(401, AuthRequired);
    }
    if req.question_id.None? {
      return Fail(400, MissingField);
    }
    var questionId := req.question_id.value;
    var existing := Single(AnswersOf(Read(db.answers, guardFails), user.value.id, questionId));
    if existing.Some? {
      return Fail(400, AlreadyAnswered);
    }
    var score := Score(Read(db.choices, choiceFails), Read(db.questions, questionFails), questionId, req.choice_id);
    if OneAnswerEach(db.answers) && !guardFails {
      AppendKeepsOneAnswerEach(db.answers, Answer(db.nextId, Some(user.value.id), questionId, req.choice_id,
                                                  req.answer_text, score.0, Some(score.1), now));
    }
    r := Record(db, user.value.id, questionId, req, score, now, insertFails);
  }

  /** The insert of a scored answer under a fresh id: 500 and no change when
      it fails, otherwise the row is appended and the score echoed. */
  method Record(db: Database, userId: Id, questionId: Id, req: AnswerRequest, score: (bool, int), now: Time,
                insertFails: bool) returns (r: Response)
    modifies db`answers, db`nextId
    ensures old(db.Valid()) ==> db.Valid()
    ensures insertFails ==> r == Fail(500, BackendFailure) && db.answers == old(db.answers)
    ensures !insertFails ==>
      r == Ok(Scored(score.0, score.1)) &&
      db.answers == old(db.answers) + [Answer(old(db.nextId), Some(userId), questionId, req.choice_id,
                                              req.answer_text, score.0, Some(score.1), now)]
  {
    if insertFails {
      return Fail(500, BackendFailure);
    }
    var id := db.FreshId();
    InsertAnswer(db, Answer(id, Some(userId), questionId, req.choice_id, req.answer_text, score.0, Some(score.1), now));
    r := Ok(Scored(score.0, score.1));
  }

  /** `.insert(...)` on answers: the row is appended, and an id below the
      counter keeps every stored id below it. */
  method InsertAnswer(db: Database, a: Answer)
    modifies db`answers
    ensures db.answers == old(db.answers) + [a]
    ensures old(db.Valid()) && a.id < db.nextId ==> db.Valid()
  {
    db.answers := db.answers + [a];
  }

  function NegAnsweredAt(a: Answer): int
  {
    0 - a.answered_at as int
  }

  /** `.order('answered_at', { ascending: false })`. */
  function NewestFirst(answers: seq<Answer>): (r: seq<Answer>)
    ensures forall i, j :: 0 <= i < j < |r| ==> r[i].answered_at >= r[j].answered_at
    ensures multiset(r) == multiset(answers)
  {
    var r := Sorting.SortBy(answers, NegAnsweredAt);
    assert forall i, j :: 0 <= i < j < |r| ==> NegAnsweredAt(r[i]) <= NegAnsweredAt(r[j]);
    r
  }

  /** GET: with count=true and a question id, that question's answer count
      and no authentication; otherwise the caller's answer to the question
      (or null), or all their answers newest first. */
  method Get(db: Database, cookie: Option<string>, questionId: Option<Id>, countOnly: bool, now: Time, lookupFails: bool, touchFails: bool,
             queryFails: bool) returns (r: Response)
    modifies db`sessions
    ensures old(db.Valid()) ==> db.Valid()
    ensures countOnly && questionId.Some? ==>
      db.sessions == old(db.sessions) &&
      r == if queryFails then Fail(500, BackendFailure) else Ok(Count(|AnswersTo(db.answers, questionId.value)|))
    ensures !(countOnly && questionId.Some?) ==>
      db.sessions == Auth.SessionsAfter(old(db.sessions), cookie, now, lookupFails, touchFails) &&
      var user := Auth.CurrentUser(old(db.sessions), db.users, cookie, lookupFails);
      (user.None? ==> r == Fail(401, AuthRequired)) &&
      (user.Some? && queryFails ==> r == Fail(500, BackendFailure)) &&
      (user.Some? && !queryFails && questionId.Some? ==>
        r == Ok(OwnAnswer(Single(AnswersOf(db.answers, user.value.id, questionId.value))))) &&
      (user.Some? && !queryFails && questionId.None? ==>
        r == Ok(OwnAnswers(NewestFirst(UserAnswers(db.answers, user.value.id)))))
  {
    if countOnly && questionId.Some? {
      if queryFails {
        return Fail(500, BackendFailure);
      }
      return Ok(Count(|AnswersTo(db.answers, questionId.value)|));
    }
    var user := Auth.GetCurrentUser(db, cookie, now, lookupFails, touchFails);
    if user.None? {
      return Fail(401, AuthRequired);
    }
    if queryFails {
      return Fail(500, BackendFailure);
    }
    if questionId.Some? {
      r := Ok(OwnAnswer(Single(AnswersOf(db.answers, user.value.id, questionId.value))));
    } else {
      r := Ok(OwnAnswers(NewestFirst(UserAnswers(db.answers, user.value.id))));
    }
  }

  /** The answer `.order('answered_at', desc).limit(1).single()` picks: one with
      the greatest answered_at (on a tie, the one stored last). */
  function NewestAnswer(answers: seq<Answer>): (r: Option<Answer>)
    ensures r.None? <==> answers == []
    ensures r.Some? ==> r.value in answers && forall a :: a in answers ==> a.answered_at <= r.value.answered_at
  {
    if answers == [] then None
    else
      var n := |answers| - 1;
      assert answers == answers[..n] + [answers[n]];
      var best := NewestAnswer(answers[..n]);
      if best.None? || best.value.answered_at <= answers[n].answered_at then Some(answers[n]) else best
  }

  /** The latest answer is as recent as the head of the history GET returns. */
  lemma LatestHeadsHistory(answers: seq<Answer>)
    requires answers != []
    ensures NewestFirst(answers) != [] &&
      NewestAnswer(answers).value.answered_at == NewestFirst(answers)[0].answered_at
  {
    var h := NewestFirst(answers);
    assert |h| == |answers| by {
      assert |multiset(h)| == |multiset(answers)|;
    }
    var latest := NewestAnswer(answers).value;
    assert h[0] in multiset(answers);
    assert latest in multiset(h);
    var k :| 0 <= k < |h| && h[k] == latest;
    assert k == 0 || h[0].answered_at >= h[k].answered_at;
  }

  function DisplayOrder(c: Choice): int
  {
    c.display_order
  }

  /** `.order('display_order', { ascending: true })`. */
  function InDisplayOrder(choices: seq<Choice>): (r: seq<Choice>)
    ensures forall i, j :: 0 <= i < j < |r| ==> r[i].display_order <= r[j].display_order
    ensures multiset(r) == multiset(choices)
  {
    var r := Sorting.SortBy(choices, DisplayOrder);
    assert forall i, j :: 0 <= i < j < |r| ==> DisplayOrder(r[i]) <= DisplayOrder(r[j]);
    r
  }

  /** `choices.find(c => c.is_correct)?.id`: the first correct choice. */
  function FirstCorrect(choices: seq<Choice>): (r: Option<Id>)
    ensures r.None? <==> forall c :: c in choices ==> !c.is_correct
    ensures r.Some? ==> exists i :: 0 <= i < |choices| && choices[i].id == r.value && choices[i].is_correct &&
                                   (forall j :: 0 <= j < i ==> !choices[j].is_correct)
  {
    if choices == [] then None
    else if choices[0].is_correct then Some(choices[0].id)
    else
      var rest := FirstCorrect(choices[1..]);
      assert forall c :: c in choices ==> c == choices[0] || c in choices[1..];
      if rest.Some? then
        ghost var i :| 0 <= i < |choices[1..]| && choices[1..][i].id == rest.value && choices[1..][i].is_correct &&
                       (forall j :: 0 <= j < i ==> !choices[1..][j].is_correct);
        assert choices[i + 1] == choices[1..][i];
        rest
      else rest
  }

  /** The `answer` object of the latest-answer response. */
  function PickView(a: Answer): LatestPick
  {
    LatestPick(a.is_correct, a.points_earned, a.choice_id, a.answered_at)
  }

  /** The columns of the `questions:question_id (...)` embed. */
  function HeaderView(q: Question): QuestionHeader
  {
    QuestionHeader(q.question_number, q.question_text, q.question_type, q.image_url)
  }

  /** The embedded question of an answer: the header of the question row the
      foreign key names, or null. */
  function Embedded(questions: seq<Question>, id: Id): (h: Option<QuestionHeader>)
    ensures h.Some? ==> exists q :: q in questions && q.id == id && h.value == HeaderView(q)
    ensures (forall q :: q in questions ==> q.id != id) ==> h.None?
  {
    var q := QuestionById(questions, id);
    if q.Some? then Some(HeaderView(q.value)) else None
  }

  /** With distinct question ids the embed finds the answer's stored question. */
  lemma EmbedsStoredQuestion(questions: seq<Question>, q: Question)
    requires DistinctQuestionIds(questions) && q in questions
    ensures Embedded(questions, q.id) == Some(HeaderView(q))
  {
    QuestionFound(questions, q);
  }

  /** Two answers give the same `answer` object exactly when they agree on
      whether they are correct, the points, the picked choice and the time:
      the row's id, its user and its free text never reach the response. */
  lemma PickViewSeesFourFields(a: Answer, b: Answer)
    ensures PickView(a) == PickView(b) <==>
      a.is_correct == b.is_correct && a.points_earned == b.points_earned &&
      a.choice_id == b.choice_id && a.answered_at == b.answered_at
  {
  }

  /** Two questions embed the same way exactly when number, text, type and
      image agree: id, points, time limit and explanation are not sent. */
  lemma HeaderViewSeesFourColumns(q: Question, w: Question)
    ensures HeaderView(q) == HeaderView(w) <==>
      q.question_number == w.question_number && q.question_text == w.question_text &&
      q.question_type == w.question_type && q.image_url == w.image_url
  {
  }

  /** GET latest: 401 without a user; null when they have not answered; else
      four fields of their newest answer, four columns of its question, the
      question's choices in display order and the first correct one. */
  method GetLatest(db: Database, cookie: Option<string>, now: Time, lookupFails: bool, touchFails: bool, answerQueryFails: bool, choicesFail: bool)
      returns (r: Response)
    modifies db`sessions
    ensures old(db.Valid()) ==> db.Valid()
    ensures db.sessions == Auth.SessionsAfter(old(db.sessions), cookie, now, lookupFails, touchFails)
    ensures var user := Auth.CurrentUser(old(db.sessions), db.users, cookie, lookupFails);
      (user.None? ==> r == Fail(401, AuthRequired)) &&
      (user.Some? && answerQueryFails ==> r == Fail(500, BackendFailure)) &&
      (user.Some? && !answerQueryFails ==>
        var latest := NewestAnswer(UserAnswers(db.answers, user.value.id));
        (latest.None? ==> r == Ok(Latest(None))) &&
        (latest.Some? && choicesFail ==> r == Fail(500, BackendFailure)) &&
        (latest.Some? && !choicesFail ==>
          var a := latest.value;
          var cs := InDisplayOrder(ChoicesOf(db.choices, a.question_id));
          r == Ok(Latest(Some(LatestAnswer(PickView(a), Embedded(db.questions, a.question_id), cs, FirstCorrect(cs)))))))
  {
    var user := Auth.GetCurrentUser(db, cookie, now, lookupFails, touchFails);
    if user.None? {
      return Fail(401, AuthRequired);
    }
    if answerQueryFails {
      return Fail(500, BackendFailure);
    }
    var latest := NewestAnswer(UserAnswers(db.answers, user.value.id));
    if latest.None? {
      return Ok(Latest(None));
    }
    if choicesFail {
      return Fail(500, BackendFailure);
    }
    var a := latest.value;
    var cs := InDisplayOrder(ChoicesOf(db.choices, a.question_id));
    r := Ok(Latest(Some(LatestAnswer(PickView(a), Embedded(db.questions, a.question_id), cs, FirstCorrect(cs)))));
  }
}
