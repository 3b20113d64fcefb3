/** The `.eq(column, value)` filters the routes run, one per column used.
    Each returns exactly the matching rows, none more often than the table
    holds it (stated for the user filters by `UserFiltersKeepRows`). The
    rows come back in table order, which no contract states. They recurse
    on the last row so that a row appended to a table extends the filtered
    sequence by that row or by nothing. */
module Queries {
  import opened Db

  function ChoicesWithId(choices: seq<Choice>, id: Id): (r: seq<Choice>)
    ensures forall c :: c in r <==> c in choices && c.id == id
    ensures (forall c :: c in choices ==> c.id != id) ==> r == []
    ensures multiset(r) <= multiset(choices)
  {
    if choices == [] then []
    else
      var n := |choices| - 1;
      assert choices == choices[..n] + [choices[n]];
      ChoicesWithId(choices[..n], id) + (if choices[n].id == id then [choices[n]] else [])
  }

  /** `.eq('question_id', q)` on choices. */
  function ChoicesOf(choices: seq<Choice>, questionId: Id): (r: seq<Choice>)
    ensures |r| <= |choices|
    ensures forall c :: c in r <==> c in choices && c.question_id == questionId
    ensures multiset(r) <= multiset(choices)
  {
    if choices == [] then []
    else
      var n := |choices| - 1;
      assert choices == choices[..n] + [choices[n]];
      ChoicesOf(choices[..n], questionId) + (if choices[n].question_id == questionId then [choices[n]] else [])
  }

  function QuestionsWithId(questions: seq<Question>, id: Id): (r: seq<Question>)
    ensures forall q :: q in r <==> q in questions && q.id == id
    ensures (forall q :: q in questions ==> q.id != id) ==> r == []
    ensures multiset(r) <= multiset(questions)
  {
    if questions == [] then []
    else
      var n := |questions| - 1;
      assert questions == questions[..n] + [questions[n]];
      QuestionsWithId(questions[..n], id) + (if questions[n].id == id then [questions[n]] else [])
  }

  function QuestionsWithNumber(questions: seq<Question>, number: int): (r: seq<Question>)
    ensures forall q :: q in r <==> q in questions && q.question_number == number
    ensures multiset(r) <= multiset(questions)
  {
    if questions == [] then []
    else
      var n := |questions| - 1;
      assert questions == questions[..n] + [questions[n]];
      QuestionsWithNumber(questions[..n], number) + (if questions[n].question_number == number then [questions[n]] else [])
  }

  /** Primary keys: no two choice rows share an id. */
  predicate DistinctChoiceIds(choices: seq<Choice>)
  {
    forall i, j :: 0 <= i < j < |choices| ==> choices[i].id != choices[j].id
  }

  /** Primary keys: no two question rows share an id. */
  predicate DistinctQuestionIds(questions: seq<Question>)
  {
    forall i, j :: 0 <= i < j < |questions| ==> questions[i].id != questions[j].id
  }

  /** The row with the primary key, if exactly one holds it. */
  function ChoiceById(choices: seq<Choice>, id: Id): (r: Option<Choice>)
    ensures r.Some? ==> r.value in choices && r.value.id == id
    ensures (forall c :: c in choices ==> c.id != id) ==> r.None?
  {
    var found := Single(ChoicesWithId(choices, id));
    assert found.Some? ==> found.value in ChoicesWithId(choices, id);
    found
  }

  function QuestionById(questions: seq<Question>, id: Id): (r: Option<Question>)
    ensures r.Some? ==> r.value in questions && r.value.id == id
    ensures (forall q :: q in questions ==> q.id != id) ==> r.None?
  {
    var found := Single(QuestionsWithId(questions, id));
    assert found.Some? ==> found.value in QuestionsWithId(questions, id);
    found
  }

  /** Under distinct ids, the id of a stored choice filters out exactly that choice. */
  lemma {:induction false} ChoiceIdSelectsOne(choices: seq<Choice>, c: Choice)
    requires DistinctChoiceIds(choices) && c in choices
    ensures ChoicesWithId(choices, c.id) == [c]
  {
    var n := |choices| - 1;
    var front := choices[..n];
    ChoicePrefix(choices, n);
    assert choices == front + [choices[n]];
    if choices[n] == c {
      assert ChoicesWithId(front, c.id) == [];
    } else {
      assert c in front;
      ChoiceIdSelectsOne(front, c);
    }
  }

  /** Under distinct ids, the rows before position n are distinct and none shares the id at n. */
  lemma ChoicePrefix(choices: seq<Choice>, n: nat)
    requires DistinctChoiceIds(choices) && n < |choices|
    ensures DistinctChoiceIds(choices[..n])
    ensures forall d :: d in choices[..n] ==> d.id != choices[n].id
  {
    var front := choices[..n];
    forall i, j | 0 <= i < j < |front|
      ensures front[i].id != front[j].id
    {
      assert front[i] == choices[i] && front[j] == choices[j];
    }
    forall d | d in front
      ensures d.id != choices[n].id
    {
      var i :| 0 <= i < n && front[i] == d;
      assert choices[i] == d;
    }
  }

  /** Under distinct ids, a stored choice is found by its id. */
  lemma ChoiceFound(choices: seq<Choice>, c: Choice)
    requires DistinctChoiceIds(choices) && c in choices
    ensures ChoiceById(choices, c.id) == Some(c)
  {
    ChoiceIdSelectsOne(choices, c);
  }

  /** Under distinct ids, the id of a stored question filters out exactly that question. */
  lemma {:induction false} QuestionIdSelectsOne(questions: seq<Question>, q: Question)
    requires DistinctQuestionIds(questions) && q in questions
    ensures QuestionsWithId(questions, q.id) == [q]
  {
    var n := |questions| - 1;
    var front := questions[..n];
    QuestionPrefix(questions, n);
    assert questions == front + [questions[n]];
    if questions[n] == q {
      assert QuestionsWithId(front, q.id) == [];
    } else {
      assert q in front;
      QuestionIdSelectsOne(front, q);
    }
  }

  /** Under distinct ids, the rows before position n are distinct and none shares the id at n. */
  lemma QuestionPrefix(questions: seq<Question>, n: nat)
    requires DistinctQuestionIds(questions) && n < |questions|
    ensures DistinctQuestionIds(questions[..n])
    ensures forall d :: d in questions[..n] ==> d.id != questions[n].id
  {
    var front := questions[..n];
    forall i, j | 0 <= i < j < |front|
      ensures front[i].id != front[j].id
    {
      assert front[i] == questions[i] && front[j] == questions[j];
    }
    forall d | d in front
      ensures d.id != questions[n].id
    {
      var i :| 0 <= i < n && front[i] == d;
      assert questions[i] == d;
    }
  }

  /** Under distinct ids, a stored question is found by its id. */
  lemma QuestionFound(questions: seq<Question>, q: Question)
    requires DistinctQuestionIds(questions) && q in questions
    ensures QuestionById(questions, q.id) == Some(q)
  {
    QuestionIdSelectsOne(questions, q);
  }

  /** `.eq('user_id', u).eq('question_id', q)` on answers. */
  function AnswersOf(answers: seq<Answer>, userId: Id, questionId: Id): (r: seq<Answer>)
    ensures forall a :: a in r <==> a in answers && a.user_id == Some(userId) && a.question_id == questionId
    ensures multiset(r) <= multiset(answers)
  {
    if answers == [] then []
    else
      var n := |answers| - 1;
      assert answers == answers[..n] + [answers[n]];
      var a := answers[n];
      AnswersOf(answers[..n], userId, questionId) +
        (if a.user_id == Some(userId) && a.question_id == questionId then [a] else [])
  }

  /** `.eq('user_id', u)` on answers. */
  function UserAnswers(answers: seq<Answer>, userId: Id): (r: seq<Answer>)
    ensures |r| <= |answers|
    ensures forall a :: a in r <==> a in answers && a.user_id == Some(userId)
    ensures multiset(r) <= multiset(answers)
  {
    if answers == [] then []
    else
      var n := |answers| - 1;
      assert answers == answers[..n] + [answers[n]];
      UserAnswers(answers[..n], userId) + (if answers[n].user_id == Some(userId) then [answers[n]] else [])
  }

  /** `.eq('question_id', q)` on answers. */
  function AnswersTo(answers: seq<Answer>, questionId: Id): (r: seq<Answer>)
    ensures |r| <= |answers|
    ensures forall a :: a in r <==> a in answers && a.question_id == questionId
    ensures multiset(r) <= multiset(answers)
  {
    if answers == [] then []
    else
      var n := |answers| - 1;
      assert answers == answers[..n] + [answers[n]];
      AnswersTo(answers[..n], questionId) + (if answers[n].question_id == questionId then [answers[n]] else [])
  }

  function UsersWithQr(users: seq<User>, qr: string): (r: seq<User>)
    ensures |r| <= |users|
    ensures forall u :: u in r <==> u in users && u.qr_code == qr
  {
    if users == [] then []
    else
      var n := |users| - 1;
      assert users == users[..n] + [users[n]];
      UsersWithQr(users[..n], qr) + (if users[n].qr_code == qr then [users[n]] else [])
  }

  /** `.eq('nickname', nick).neq('qr_code', qr)`: another participant holding the name. */
  function OthersWithNickname(users: seq<User>, nickname: string, qr: string): (r: seq<User>)
    ensures forall u :: u in r <==> u in users && u.nickname == Some(nickname) && u.qr_code != qr
  {
    if users == [] then []
    else
      var n := |users| - 1;
      assert users == users[..n] + [users[n]];
      var u := users[n];
      OthersWithNickname(users[..n], nickname, qr) + (if u.nickname == Some(nickname) && u.qr_code != qr then [u] else [])
  }

  function UserWithId(users: seq<User>, id: Id): (r: seq<User>)
    ensures |r| <= |users|
    ensures forall u :: u in r <==> u in users && u.id == id
  {
    if users == [] then []
    else
      var n := |users| - 1;
      assert users == users[..n] + [users[n]];
      UserWithId(users[..n], id) + (if users[n].id == id then [users[n]] else [])
  }

  /** The three filters on users return each row at most as often as the
      table holds it. Kept out of their contracts, which every login and
      nickname check carries. */
  lemma {:induction false} UserFiltersKeepRows(users: seq<User>, qr: string, nickname: string, id: Id)
    ensures multiset(UsersWithQr(users, qr)) <= multiset(users)
    ensures multiset(OthersWithNickname(users, nickname, qr)) <= multiset(users)
    ensures multiset(UserWithId(users, id)) <= multiset(users)
  {
    if users != [] {
      var n := |users| - 1;
      var init, last := users[..n], users[n];
      assert users == init + [last];
      assert multiset(users) == multiset(init) + multiset{last};
      UserFiltersKeepRows(init, qr, nickname, id);
      assert UsersWithQr(users, qr) == UsersWithQr(init, qr) + (if last.qr_code == qr then [last] else []);
      assert OthersWithNickname(users, nickname, qr) ==
        OthersWithNickname(init, nickname, qr) + (if last.nickname == Some(nickname) && last.qr_code != qr then [last] else []);
      assert UserWithId(users, id) == UserWithId(init, id) + (if last.id == id then [last] else []);
    }
  }
}
