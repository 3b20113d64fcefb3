/** The per-participant totals both app/api/stats/leaderboard/route.ts and
    app/api/stats/ranking/route.ts compute from the answers table: only
    correct answers count, a null points_earned counts as 0, answers with
    no user are skipped. */
module Scores {
  import opened Db

  /** Sum of `points_earned || 0` over the user's correct answers. */
  function CorrectPoints(answers: seq<Answer>, u: Id): (p: int)
    ensures |answers| == 1 && p != 0 ==> answers[0].user_id == Some(u) && answers[0].is_correct
  {
    if answers == [] then 0
    else
      var n := |answers| - 1;
      var a := answers[n];
      CorrectPoints(answers[..n], u) +
        (if a.user_id == Some(u) && a.is_correct then ValueOr(a.points_earned, 0) else 0)
  }

  /** Number of the user's correct answers. */
  function CorrectCount(answers: seq<Answer>, u: Id): (c: nat)
    ensures c <= |answers|
  {
    if answers == [] then 0
    else
      var n := |answers| - 1;
      var a := answers[n];
      CorrectCount(answers[..n], u) + (if a.user_id == Some(u) && a.is_correct then 1 else 0)
  }

  lemma PrefixStep(answers: seq<Answer>, i: nat)
    requires i < |answers|
    ensures answers[..i + 1][..i] == answers[..i]
    ensures answers[..i + 1][i] == answers[i]
  {
  }

  /** An incorrect answer, or one by nobody or by someone else, changes
      neither total of u. */
  lemma OtherAnswersAddNothing(answers: seq<Answer>, a: Answer, u: Id)
    requires !a.is_correct || a.user_id != Some(u)
    ensures CorrectPoints(answers + [a], u) == CorrectPoints(answers, u)
    ensures CorrectCount(answers + [a], u) == CorrectCount(answers, u)
  {
    assert (answers + [a])[..|answers|] == answers;
  }

  /** A user without correct answers has total 0 and count 0. */
  lemma {:induction false} NoCorrectAnswersScoreZero(answers: seq<Answer>, u: Id)
    requires forall a :: a in answers && a.user_id == Some(u) ==> !a.is_correct
    ensures CorrectPoints(answers, u) == 0 && CorrectCount(answers, u) == 0
  {
    if answers != [] {
      var n := |answers| - 1;
      assert forall a :: a in answers[..n] ==> a in answers;
      NoCorrectAnswersScoreZero(answers[..n], u);
    }
  }

  /** A user with no answers at all has total 0 and count 0. */
  lemma NoAnswersScoreZero(answers: seq<Answer>, u: Id)
    ensures (forall a :: a in answers ==> a.user_id != Some(u)) ==>
      CorrectPoints(answers, u) == 0 && CorrectCount(answers, u) == 0
  {
    if forall a :: a in answers ==> a.user_id != Some(u) {
      NoCorrectAnswersScoreZero(answers, u);
    }
  }

  /** Stored points never negative means totals never negative. */
  lemma {:induction false} NonNegativePoints(answers: seq<Answer>, u: Id)
    requires forall a :: a in answers ==> ValueOr(a.points_earned, 0) >= 0
    ensures CorrectPoints(answers, u) >= 0
  {
    if answers != [] {
      var n := |answers| - 1;
      assert forall a :: a in answers[..n] ==> a in answers;
      NonNegativePoints(answers[..n], u);
    }
  }
}
