/** app/api/stats/answers/route.ts: how many answers picked each choice of a
    question, and the share of each among all the question's answers. */
module AnswerStats {
  import opened Db
  import opened Queries

  /** `answers.filter(a => a.choice_id === id).length`. */
  function Picked(answers: seq<Answer>, choiceId: Id): (n: nat)
    ensures n <= |answers|
  {
    if answers == [] then 0
    else
      var k := |answers| - 1;
      Picked(answers[..k], choiceId) + (if answers[k].choice_id == Some(choiceId) then 1 else 0)
  }

  /** `total > 0 ? (count / total) * 100 : 0`, in exact arithmetic. */
  function Percentage(count: nat, total: nat): (p: real)
    ensures total == 0 ==> p == 0.0
    ensures total > 0 ==> p * total as real == count as real * 100.0
  {
    if total > 0 then (count as real / total as real) * 100.0 else 0.0
  }

  lemma PercentageBounds(count: nat, total: nat)
    requires count <= total
    ensures 0.0 <= Percentage(count, total) <= 100.0
    ensures total > 0 && count == total ==> Percentage(count, total) == 100.0
  {
    if total > 0 {
      var p := Percentage(count, total);
      assert p * total as real <= 100.0 * total as real;
      if count == total {
        assert count as real / total as real == 1.0;
      }
    }
  }

  /** One stat per choice, in the order the choices came. */
  function Stats(choices: seq<Choice>, answers: seq<Answer>): (r: seq<ChoiceStat>)
    ensures |r| == |choices|
    ensures forall i :: 0 <= i < |r| ==>
      r[i].choice_id == choices[i].id && r[i].choice_text == choices[i].choice_text &&
      r[i].count == Picked(answers, choices[i].id) &&
      r[i].percentage == Percentage(r[i].count, |answers|)
  {
    seq(|choices|, i requires 0 <= i < |choices| =>
      var count := Picked(answers, choices[i].id);
      ChoiceStat(choices[i].id, choices[i].choice_text, count, Percentage(count, |answers|)))
  }

  /** GET: 400 without a question id, 500 when either table cannot be read;
      otherwise the stats of the question's choices over its answers. */
  function Get(questionId: Option<Id>, answers: seq<Answer>, choices: seq<Choice>,
               answersFail: bool, choicesFail: bool): (r: Response)
    ensures questionId.None? ==> r == Fail(400, MissingField)
    ensures questionId.Some? && (answersFail || choicesFail) ==> r == Fail(500, BackendFailure)
    ensures questionId.Some? && !answersFail && !choicesFail ==>
      var mine := AnswersTo(answers, questionId.value);
      r == Ok(ChoiceStats(Stats(ChoicesOf(choices, questionId.value), mine), |mine|))
  {
    if questionId.None? then Fail(400, MissingField)
    else if answersFail || choicesFail then Fail(500, BackendFailure)
    else
      var mine := AnswersTo(answers, questionId.value);
      Ok(ChoiceStats(Stats(ChoicesOf(choices, questionId.value), mine), |mine|))
  }

  function SumCounts(stats: seq<ChoiceStat>): nat
  {
    if stats == [] then 0 else stats[0].count + SumCounts(stats[1..])
  }

  /** How many of the choices carry the id an answer picked. */
  function Matches(choices: seq<Choice>, picked: Option<Id>): nat
  {
    if choices == [] then 0
    else (if picked == Some(choices[0].id) then 1 else 0) + Matches(choices[1..], picked)
  }

  lemma {:induction false} AtMostOneMatch(choices: seq<Choice>, picked: Option<Id>)
    requires DistinctChoiceIds(choices)
    ensures Matches(choices, picked) <= 1
  {
    if choices != [] {
      AtMostOneMatch(choices[1..], picked);
      if picked == Some(choices[0].id) {
        NoMatch(choices[1..], picked);
      }
    }
  }

  lemma {:induction false} NoMatch(choices: seq<Choice>, picked: Option<Id>)
    requires forall c :: c in choices ==> picked != Some(c.id)
    ensures Matches(choices, picked) == 0
  {
    if choices != [] {
      NoMatch(choices[1..], picked);
    }
  }

  /** Adding one answer raises the summed counts by the number of choices it
      matches. */
  lemma {:induction false} SumCountsStep(choices: seq<Choice>, answers: seq<Answer>, a: Answer)
    ensures SumCounts(Stats(choices, answers + [a])) ==
      SumCounts(Stats(choices, answers)) + Matches(choices, a.choice_id)
  {
    assert (answers + [a])[..|answers|] == answers;
    if choices != [] {
      SumCountsStep(choices[1..], answers, a);
      assert Stats(choices, answers + [a])[1..] == Stats(choices[1..], answers + [a]);
      assert Stats(choices, answers)[1..] == Stats(choices[1..], answers);
    }
  }

  /** With distinct choice ids the per-choice counts add up to at most the
      total: an answer with no choice or a foreign one counts only in the total. */
  lemma {:induction false} CountsWithinTotal(choices: seq<Choice>, answers: seq<Answer>)
    requires DistinctChoiceIds(choices)
    ensures SumCounts(Stats(choices, answers)) <= |answers|
  {
    if answers == [] {
      ZeroCounts(choices);
    } else {
      var k := |answers| - 1;
      assert answers == answers[..k] + [answers[k]];
      CountsWithinTotal(choices, answers[..k]);
      SumCountsStep(choices, answers[..k], answers[k]);
      AtMostOneMatch(choices, answers[k].choice_id);
    }
  }

  lemma {:induction false} ZeroCounts(choices: seq<Choice>)
    ensures SumCounts(Stats(choices, [])) == 0
  {
    if choices != [] {
      ZeroCounts(choices[1..]);
      assert Stats(choices, [])[1..] == Stats(choices[1..], []);
    }
  }
}
