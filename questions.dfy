/** app/api/questions/route.ts: reading questions with their choices, and the
    admin's creation of a question followed by its choice rows. */
module Questions {
  import opened Db
  import opened Queries
  import Auth
  import Sorting
  import Answers

  /** A question with its embedded `choices (*)`. */
  function WithChoices(q: Question, choices: seq<Choice>): (r: QuestionWithChoices)
    ensures r.question == q
    ensures forall c :: c in r.choices <==> c in choices && c.question_id == q.id
  {
    QuestionWithChoices(q, ChoicesOf(choices, q.id))
  }

  function Attach(qs: seq<Question>, choices: seq<Choice>): (r: seq<QuestionWithChoices>)
    ensures |r| == |qs|
    ensures forall i :: 0 <= i < |qs| ==> r[i] == WithChoices(qs[i], choices)
  {
    seq(|qs|, i requires 0 <= i < |qs| => WithChoices(qs[i], choices))
  }

  function Unwrap(qs: seq<QuestionWithChoices>): (r: seq<Question>)
    ensures |r| == |qs|
    ensures forall i :: 0 <= i < |qs| ==> r[i] == qs[i].question
  {
    seq(|qs|, i requires 0 <= i < |qs| => qs[i].question)
  }

  function QuestionNumber(q: Question): int
  {
    q.question_number
  }

  /** `parseInt(number)`: a number, or NaN for text that does not start with one. */
  datatype NumberParam = Parsed(n: int) | NotANumber

  /** Which of the three reads the query string asks for: `id` wins over
      `number`, and with neither the whole list is read. */
  datatype QuestionQuery = ById(id: Id) | ByNumber(number: NumberParam) | All

  /** The rows `.eq(...)` selects for a single-question read. */
  function Matching(query: QuestionQuery, questions: seq<Question>): (r: seq<Question>)
    requires !query.All?
    ensures query.ById? ==> forall q :: q in r <==> q in questions && q.id == query.id
    ensures query.ByNumber? && query.number.Parsed? ==>
      forall q :: q in r <==> q in questions && q.question_number == query.number.n
  {
    match query
    case ById(id) => QuestionsWithId(questions, id)
    case ByNumber(Parsed(n)) => QuestionsWithNumber(questions, n)
    // `.eq('question_number', NaN)` is a query PostgreSQL rejects
    case ByNumber(NotANumber) => []
  }

  /** GET. A single read answers 404 unless exactly one question matches (a
      failing query and a NaN number included); the list read answers 500 on
      failure and otherwise every question, by question_number ascending,
      each with its own choices. */
  function Get(query: QuestionQuery, questions: seq<Question>, choices: seq<Choice>, queryFails: bool): (r: Response)
    ensures !query.All? ==>
      (r.status == 200 <==> !queryFails && |Matching(query, questions)| == 1) &&
      (r.status != 200 ==> r == Fail(404, NotFound)) &&
      (r.status == 200 ==> r == Ok(OneQuestion(WithChoices(Matching(query, questions)[0], choices))))
    ensures query.All? && queryFails ==> r == Fail(500, BackendFailure)
    ensures query.All? && !queryFails ==>
      r.status == 200 && r.body.Questions? &&
      var listed := Unwrap(r.body.qs);
      multiset(listed) == multiset(questions) &&
      Sorting.SortedBy(listed, QuestionNumber) &&
      forall i :: 0 <= i < |r.body.qs| ==> r.body.qs[i] == WithChoices(listed[i], choices)
  {
    if query.All? then
      if queryFails then Fail(500, BackendFailure)
      else
        var sorted := Sorting.SortBy(questions, QuestionNumber);
        var qs := Attach(sorted, choices);
        assert Unwrap(qs) == sorted;
        Ok(Questions(qs))
    else
      var found := Single(Matching(query, questions));
      if queryFails || found.None? then Fail(404, NotFound)
      else Ok(OneQuestion(WithChoices(found.value, choices)))
  }

  /** A found question is one of the table's, with the asked-for key. */
  lemma FoundIsAsked(query: QuestionQuery, questions: seq<Question>, choices: seq<Choice>, queryFails: bool)
    requires !query.All?
    requires Get(query, questions, choices, queryFails).status == 200
    ensures var q := Get(query, questions, choices, queryFails).body.q.question;
      q in questions &&
      (query.ById? ==> q.id == query.id) &&
      (query.ByNumber? ==> query.number.Parsed? && q.question_number == query.number.n)
  {
    var m := Matching(query, questions);
    assert m[0] in m;
  }

  datatype ChoiceInput = ChoiceInput(text: string, is_correct: Option<bool>)

  /** The fields POST reads from its body; explanation fields are not among them. */
  datatype QuestionInput = QuestionInput(
    question_number: int,
    question_text: string,
    question_type: QuestionType,
    image_url: Option<string>,
    points: Option<int>,
    choices: Option<seq<ChoiceInput>>)

  /** `points || 10`. */
  function StoredPoints(points: Option<int>): (p: int)
    ensures points.Some? && points.value != 0 ==> p == points.value
    ensures points.None? || points.value == 0 ==> p == 10
  {
    if points.Some? && points.value != 0 then points.value else 10
  }

  /** The stored question; time_limit_seconds takes the column's default. */
  function NewQuestion(id: Id, input: QuestionInput, timeLimitDefault: int): (q: Question)
    ensures q.id == id && q.question_number == input.question_number && q.question_type == input.question_type
    ensures q.time_limit_seconds == timeLimitDefault && q.points != 0
    ensures q.explanation_text.None? && q.explanation_image_url.None?
  {
    Question(id, input.question_number, input.question_text, input.question_type, input.image_url,
             timeLimitDefault, StoredPoints(input.points), None, None)
  }

  /** The `choices.map((choice, index) => ...)` rows, with ids from firstId on. */
  function ChoiceRows(questionId: Id, inputs: seq<ChoiceInput>, firstId: Id): (r: seq<Choice>)
    ensures |r| == |inputs|
    ensures forall i :: 0 <= i < |r| ==>
      r[i].id == firstId + i && r[i].question_id == questionId &&
      r[i].choice_text == inputs[i].text && r[i].is_correct == ValueOr(inputs[i].is_correct, false) &&
      r[i].display_order == i + 1
  {
    seq(|inputs|, i requires 0 <= i < |inputs| =>
      Choice(firstId + i, questionId, inputs[i].text, ValueOr(inputs[i].is_correct, false), i + 1))
  }

  /** Whether POST inserts choice rows at all. */
  predicate InsertsChoices(input: QuestionInput)
    ensures input.question_type == FreeText ==> !InsertsChoices(input)
    ensures InsertsChoices(input) ==> input.choices.Some? && input.choices.value != []
  {
    input.question_type == MultipleChoice && input.choices.Some? && |input.choices.value| > 0
  }

  /** POST: admin only. The question is inserted (500 when that fails); then,
      for a non-empty multiple-choice list, its choice rows in one insert
      whose failure is ignored; the response is the question either way. */
  method Post(db: Database, adminCookie: Option<string>, input: QuestionInput, timeLimitDefault: int,
              questionFails: bool, choicesFail: bool) returns (r: Response)
    modifies db`questions, db`choices, db`nextId
    ensures old(db.Valid()) ==> db.Valid()
    ensures !Auth.IsAdmin(adminCookie) ==> r == Fail(401, AdminRequired)
    ensures Auth.IsAdmin(adminCookie) && questionFails ==> r == Fail(500, BackendFailure)
    ensures !Auth.IsAdmin(adminCookie) || questionFails ==>
      db.questions == old(db.questions) && db.choices == old(db.choices) && db.nextId == old(db.nextId)
    ensures Auth.IsAdmin(adminCookie) && !questionFails ==>
      var q := NewQuestion(old(db.nextId), input, timeLimitDefault);
      r == Ok(CreatedQuestion(q)) &&
      db.questions == old(db.questions) + [q] &&
      db.choices == old(db.choices) +
        (if InsertsChoices(input) && !choicesFail then ChoiceRows(q.id, input.choices.value, q.id + 1) else [])
    ensures db.nextId >= old(db.nextId)
  {
    if !Auth.IsAdmin(adminCookie) {
      return Fail(401, AdminRequired);
    }
    if questionFails {
      return Fail(500, BackendFailure);
    }
    var id := db.FreshId();
    var q := NewQuestion(id, input, timeLimitDefault);
    db.questions := db.questions + [q];
    if InsertsChoices(input) && !choicesFail {
      var rows := ChoiceRows(q.id, input.choices.value, db.nextId);
      db.choices := db.choices + rows;
      db.nextId := db.nextId + |rows|;
    }
    r := Ok(CreatedQuestion(q));
  }

  /** The display orders of a created question's choices are exactly 1..n,
      and their order in the table is their display order. */
  lemma DisplayOrderContiguous(questionId: Id, inputs: seq<ChoiceInput>, firstId: Id)
    ensures var rows := ChoiceRows(questionId, inputs, firstId);
      (forall c :: c in rows ==> 1 <= c.display_order <= |inputs|) &&
      (forall i, j :: 0 <= i < j < |rows| ==> rows[i].display_order < rows[j].display_order) &&
      Sorting.SortedBy(rows, Answers.DisplayOrder)
  {
  }

  /** A created question's choices read back in order through the embedded
      `choices (*)` of a later GET: the insert adds no choice to any other
      question. */
  lemma NewChoicesBelongToNewQuestion(old_choices: seq<Choice>, q: Question, inputs: seq<ChoiceInput>, other: Id)
    requires other != q.id
    ensures ChoicesOf(old_choices + ChoiceRows(q.id, inputs, q.id + 1), other) == ChoicesOf(old_choices, other)
  {
    ChoicesOfAppend(old_choices, ChoiceRows(q.id, inputs, q.id + 1), other);
  }

  lemma {:induction false} ChoicesOfAppend(a: seq<Choice>, b: seq<Choice>, other: Id)
    requires forall c :: c in b ==> c.question_id != other
    ensures ChoicesOf(a + b, other) == ChoicesOf(a, other)
  {
    if b != [] {
      var n := |b| - 1;
      assert a + b == (a + b[..n]) + [b[n]];
      assert b[n] in b;
      assert (a + b)[..|a + b| - 1] == a + b[..n];
      ChoicesOfAppend(a, b[..n], other);
      calc {
        ChoicesOf(a + b, other);
        ChoicesOf(a + b[..n], other);
        ChoicesOf(a, other);
      }
    } else {
      assert a + b == a;
    }
  }
}
