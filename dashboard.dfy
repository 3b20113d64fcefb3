/** app/admin/dashboard/page.tsx: the dashboard's own phase and question
    counter, which its four buttons change locally without calling the API. */
module Dashboard {
  import opened Db

  /** Which of the four buttons is enabled in a phase. */
  predicate StartEnabled(p: Phase)   { p == Waiting }
  predicate NextEnabled(p: Phase)    { p != Waiting && p != Finished }
  predicate CloseEnabled(p: Phase)   { p == AcceptingAnswers }
  predicate ResultsEnabled(p: Phase) { p != Waiting }

  /** The phases the page's own handlers can produce. */
  predicate Reachable(p: Phase)
  {
    p == Waiting || p == ShowingQuestion || p == ShowingResults
  }

  /** Waiting shows question 0; once started the counter is at least 1. */
  predicate Coherent(p: Phase, question: int)
  {
    Reachable(p) && (p == Waiting <==> question == 0) && question >= 0
  }

  class Panel {
    var gameState: Phase
    var currentQuestion: int

    predicate Valid()
      reads this
    {
      Coherent(gameState, currentQuestion)
    }

    constructor ()
      ensures gameState == Waiting && currentQuestion == 0
      ensures Valid()
    {
      gameState := Waiting;
      currentQuestion := 0;
    }

    /** `startQuiz`. */
    method StartQuiz()
      modifies this
      ensures gameState == ShowingQuestion && currentQuestion == 1
    {
      gameState := ShowingQuestion;
      currentQuestion := 1;
    }

    /** `nextQuestion`. */
    method NextQuestion()
      modifies this
      ensures gameState == ShowingQuestion && currentQuestion == old(currentQuestion) + 1
    {
      currentQuestion := currentQuestion + 1;
      gameState := ShowingQuestion;
    }

    /** `closeAnswers`. */
    method CloseAnswers()
      modifies this
      ensures gameState == ShowingResults && currentQuestion == old(currentQuestion)
    {
      gameState := ShowingResults;
    }

    /** `showResults`. */
    method ShowResults()
      modifies this
      ensures gameState == ShowingResults && currentQuestion == old(currentQuestion)
    {
      gameState := ShowingResults;
    }

    /** A click on an enabled button keeps the panel coherent and never lowers
        the counter; a disabled button does nothing. */
    method Click(b: Button)
      modifies this
      ensures old(Valid()) ==> Valid()
      ensures (gameState, currentQuestion) == Step(old(gameState), old(currentQuestion), b)
      ensures old(Valid()) ==> currentQuestion >= old(currentQuestion)
      ensures !Enabled(b, old(gameState)) ==> gameState == old(gameState) && currentQuestion == old(currentQuestion)
    {
      if !Enabled(b, gameState) {
        return;
      }
      match b
      case Start => StartQuiz();
      case Next => NextQuestion();
      case Close => CloseAnswers();
      case Results => ShowResults();
    }
  }

  datatype Button = Start | Next | Close | Results

  predicate Enabled(b: Button, p: Phase)
    ensures p == Waiting ==> (Enabled(b, p) <==> b == Start)
    ensures p == Finished ==> (Enabled(b, p) <==> b == Results)
  {
    match b
    case Start => StartEnabled(p)
    case Next => NextEnabled(p)
    case Close => CloseEnabled(p)
    case Results => ResultsEnabled(p)
  }

  /** The phase after a click, as a function: the reference the class is
      checked against. */
  function Step(p: Phase, q: int, b: Button): (r: (Phase, int))
    ensures !Enabled(b, p) ==> r == (p, q)
    ensures Enabled(b, p) && b == Start ==> r == (ShowingQuestion, 1)
    ensures Enabled(b, p) && b == Next ==> r == (ShowingQuestion, q + 1)
    ensures Enabled(b, p) && (b == Close || b == Results) ==> r == (ShowingResults, q)
  {
    if !Enabled(b, p) then (p, q)
    else match b
      case Start => (ShowingQuestion, 1)
      case Next => (ShowingQuestion, q + 1)
      case Close => (ShowingResults, q)
      case Results => (ShowingResults, q)
  }

  /** The state after a sequence of clicks from the given one. */
  function Run(p: Phase, q: int, clicks: seq<Button>): (r: (Phase, int))
    ensures (forall i :: 0 <= i < |clicks| ==> !Enabled(clicks[i], p)) ==> r == (p, q)
    decreases |clicks|
  {
    if clicks == [] then (p, q)
    else
      var s := Step(p, q, clicks[0]);
      assert forall i :: 0 <= i < |clicks| - 1 ==> clicks[1..][i] == clicks[i + 1];
      Run(s.0, s.1, clicks[1..])
  }

  /** From the initial state, whatever is clicked: accepting_answers and
      finished are never reached, so the close button is never enabled; the
      counter never falls below where it was. */
  lemma {:induction false} OnlyThreePhases(p: Phase, q: int, clicks: seq<Button>)
    requires Coherent(p, q)
    ensures var r := Run(p, q, clicks);
      Coherent(r.0, r.1) && r.1 >= q &&
      r.0 != AcceptingAnswers && r.0 != Finished && !CloseEnabled(r.0)
    decreases |clicks|
  {
    if clicks != [] {
      var s := Step(p, q, clicks[0]);
      OnlyThreePhases(s.0, s.1, clicks[1..]);
    }
  }

  /** The initial panel is coherent, so the lemma covers every session. */
  lemma InitialIsCoherent()
    ensures Coherent(Waiting, 0)
    ensures forall clicks: seq<Button> :: !CloseEnabled(Run(Waiting, 0, clicks).0)
  {
    forall clicks: seq<Button>
      ensures !CloseEnabled(Run(Waiting, 0, clicks).0)
    {
      OnlyThreePhases(Waiting, 0, clicks);
    }
  }
}
