/** app/participant/quiz/page.tsx: the participant's question screen, its
    countdown, where a phase change sends the participant, and the answer it
    posts to POST /api/answers. */
module QuizPage {
  import opened Db
  import Nickname
  import Answers

  /** One second of the countdown: `prev <= 1 ? 0 : prev - 1`. */
  function Tick(prev: int): (r: int)
    ensures r >= 0
    ensures prev >= 1 ==> r == prev - 1
    ensures prev <= 1 ==> r == 0
  {
    if prev <= 1 then 0 else prev - 1
  }

  /** The value after n seconds. */
  function Countdown(start: int, n: nat): (r: int)
    ensures n >= 1 ==> r >= 0
    ensures start >= 0 ==> r <= start
  {
    if n == 0 then start else Tick(Countdown(start, n - 1))
  }

  /** After n >= 1 seconds the counter shows max(start - n, 0), and once it
      reaches 0 it stays there. */
  lemma {:induction false} CountdownIsClamped(start: int, n: nat)
    requires n >= 1
    ensures Countdown(start, n) == if start - n > 0 then start - n else 0
  {
    if n > 1 {
      CountdownIsClamped(start, n - 1);
    }
  }

  lemma CountdownStaysAtZero(start: int, n: nat, m: nat)
    requires n >= 1 && start <= n
    ensures Countdown(start, n + m) == 0
  {
    CountdownIsClamped(start, n + m);
  }

  /** Where a polled phase sends the participant. */
  datatype Route = Stay | ToResults | ToWaiting

  function RouteFor(p: Phase): (r: Route)
    ensures r == ToResults <==> p == ShowingResults
    ensures r == ToWaiting <==> p == Waiting
  {
    if p == ShowingResults then ToResults else if p == Waiting then ToWaiting else Stay
  }

  /** The message the page shows. */
  datatype Notice = NoNotice | SelectAChoice | EnterAnAnswer | Refused(reason: Reason) | SendFailed | SendError

  /** The submit checks, also used for the button's disabled state. */
  function Check(qtype: QuestionType, selected: Option<Id>, text: string): (n: Notice)
    ensures n == SelectAChoice <==> qtype == MultipleChoice && selected.None?
    ensures n == EnterAnAnswer <==> qtype == FreeText && Nickname.AllSpace(text)
    ensures n == NoNotice <==>
      (qtype == MultipleChoice ==> selected.Some?) && (qtype == FreeText ==> !Nickname.AllSpace(text))
  {
    if qtype == MultipleChoice && selected.None? then SelectAChoice
    else if qtype == FreeText && Nickname.AllSpace(text) then EnterAnAnswer
    else NoNotice
  }

  /** The JSON body: the choice for multiple choice, the text for free text. */
  function Payload(q: QuestionWithChoices, selected: Option<Id>, text: string): (p: Answers.AnswerRequest)
    ensures p.question_id == Some(q.question.id)
    ensures p.choice_id.Some? <==> q.question.question_type == MultipleChoice && selected.Some?
    ensures p.choice_id.Some? ==> p.choice_id == selected
    ensures p.answer_text.Some? <==> q.question.question_type == FreeText
    ensures p.answer_text.Some? ==> p.answer_text.value == text
  {
    Answers.AnswerRequest(
      Some(q.question.id),
      if q.question.question_type == MultipleChoice then selected else None,
      if q.question.question_type == FreeText then Some(text) else None)
  }

  class Screen {
    var question: Option<QuestionWithChoices>
    var phase: Option<Phase>
    var selectedChoice: Option<Id>
    var freeTextAnswer: string
    var isSubmitting: bool
    var hasAnswered: bool
    var timeLeft: int
    var error: Notice

    constructor ()
      ensures question.None? && phase.None? && selectedChoice.None? && freeTextAnswer == ""
      ensures !isSubmitting && !hasAnswered && timeLeft == 30 && error == NoNotice
    {
      question := None;
      phase := None;
      selectedChoice := None;
      freeTextAnswer := "";
      isSubmitting := false;
      hasAnswered := false;
      timeLeft := 30;
      error := NoNotice;
    }

    /** Whether the countdown effect runs. */
    predicate TimerRuns()
      reads this
      ensures TimerRuns() ==> phase == Some(AcceptingAnswers) && !hasAnswered
    {
      question.Some? && !hasAnswered && phase == Some(AcceptingAnswers)
    }

    /** The countdown effect starting: it restarts at the question's limit. */
    method RestartTimer()
      modifies this`timeLeft
      ensures TimerRuns() ==> timeLeft == question.value.question.time_limit_seconds
      ensures !TimerRuns() ==> timeLeft == old(timeLeft)
    {
      if TimerRuns() {
        timeLeft := question.value.question.time_limit_seconds;
      }
    }

    /** One interval callback of a running countdown. */
    method TickTimer()
      modifies this`timeLeft
      ensures timeLeft == Tick(old(timeLeft))
    {
      if timeLeft <= 1 {
        timeLeft := 0;
      } else {
        timeLeft := timeLeft - 1;
      }
    }

    /** `checkIfAnswered`: an existing answer to the question marks it answered. */
    method ReceiveOwnAnswer(r: Response)
      modifies this`hasAnswered
      ensures hasAnswered == (old(hasAnswered) || (r.status == 200 && r.body.OwnAnswer? && r.body.answer.Some?))
    {
      if r.status == 200 && r.body.OwnAnswer? && r.body.answer.Some? {
        hasAnswered := true;
      }
    }

    /** Whether the submit button is rendered at all. */
    predicate SubmitShown()
      reads this
      ensures SubmitShown() ==> question.Some? && !hasAnswered && timeLeft != 0
      ensures phase == Some(ShowingQuestion) ==> !SubmitShown()
    {
      question.Some? && phase.Some? && phase.value != ShowingQuestion && !hasAnswered && timeLeft != 0
    }

    predicate SubmitDisabled()
      reads this
      requires question.Some?
      ensures isSubmitting ==> SubmitDisabled()
      ensures !SubmitDisabled() ==> Check(question.value.question.question_type, selectedChoice, freeTextAnswer) == NoNotice
    {
      isSubmitting || Check(question.value.question.question_type, selectedChoice, freeTextAnswer) != NoNotice
    }

    /** `handleSubmit`. Without a question nothing happens; a failed check
        sets its message and sends nothing; otherwise the payload is sent, and
        `response` (None when the request throws) decides: 200 marks the
        question answered, anything else shows the server's reason. */
    method HandleSubmit(response: Option<Response>) returns (sent: Option<Answers.AnswerRequest>)
      modifies this`isSubmitting, this`error, this`hasAnswered
      ensures question.None? ==> sent.None? && error == old(error) && hasAnswered == old(hasAnswered)
      ensures question.Some? ==>
        var n := Check(question.value.question.question_type, selectedChoice, freeTextAnswer);
        (n != NoNotice ==> sent.None? && error == n && hasAnswered == old(hasAnswered)) &&
        (n == NoNotice ==> sent == Some(Payload(question.value, selectedChoice, freeTextAnswer)))
      ensures sent.Some? ==>
        (hasAnswered <==> old(hasAnswered) || (response.Some? && response.value.status == 200)) &&
        error == (if response.None? then SendError
                  else if response.value.status == 200 then NoNotice
                  else if response.value.body.Failure? then Refused(response.value.body.reason)
                  else SendFailed)
      ensures hasAnswered ==> old(hasAnswered) || sent.Some?
      ensures sent.Some? ==> !isSubmitting
      ensures sent.None? ==> isSubmitting == old(isSubmitting)
    {
      sent := None;
      if question.None? {
        return;
      }
      var n := Check(question.value.question.question_type, selectedChoice, freeTextAnswer);
      if n != NoNotice {
        error := n;
        return;
      }
      isSubmitting := true;
      error := NoNotice;
      sent := Some(Payload(question.value, selectedChoice, freeTextAnswer));
      if response.None? {
        error := SendError;
      } else if response.value.status != 200 {
        error := if response.value.body.Failure? then Refused(response.value.body.reason) else SendFailed;
      } else {
        hasAnswered := true;
      }
      isSubmitting := false;
    }
  }

  /** A countdown that runs out hides the submit button. */
  lemma TimeUpHidesSubmit(s: Screen)
    requires s.timeLeft == 0
    ensures !s.SubmitShown()
  {
  }

  /** An enabled submit button passes the checks, so its click sends an
      answer; for multiple choice that answer names the selected choice and
      carries no text, for free text it carries the text and no choice, so
      the server scores a free-text answer as incorrect. */
  lemma EnabledSubmitSends(q: QuestionWithChoices, selected: Option<Id>, text: string,
                           choices: seq<Choice>, questions: seq<Question>)
    requires Check(q.question.question_type, selected, text) == NoNotice
    ensures var p := Payload(q, selected, text);
      (q.question.question_type == MultipleChoice ==> p.choice_id == selected && selected.Some? && p.answer_text.None?) &&
      (q.question.question_type == FreeText ==>
        p.choice_id.None? && p.answer_text == Some(text) &&
        Answers.Score(choices, questions, q.question.id, p.choice_id) == (false, 0))
  {
  }
}
