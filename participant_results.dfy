/** app/participant/results/page.tsx: the participant's own score summary,
    computed in the browser from GET /api/answers, and where a phase change
    sends them. */
module ParticipantResults {
  import opened Db
  import Queries
  import Answers
  import Scores

  /** `answer.points_earned` in a numeric sum: a null adds 0. */
  function Points(a: Answer): (p: int)
    ensures a.points_earned.None? ==> p == 0
    ensures a.points_earned.Some? ==> p == a.points_earned.value
  {
    ValueOr(a.points_earned, 0)
  }

  function Hit(a: Answer): (h: int)
    ensures 0 <= h <= 1 && (h == 1 <==> a.is_correct)
  {
    if a.is_correct then 1 else 0
  }

  function Sum(s: seq<Answer>, f: Answer -> int): (r: int)
    ensures (forall i :: 0 <= i < |s| ==> f(s[i]) >= 0) ==> r >= 0
  {
    if s == [] then 0 else Sum(s[..|s| - 1], f) + f(s[|s| - 1])
  }

  datatype Summary = Summary(totalScore: int, correctCount: nat, totalQuestions: nat)

  /** `reduce` over points, `filter(is_correct).length`, and `length`. */
  function Summarize(answers: seq<Answer>): (r: Summary)
    ensures r.totalQuestions == |answers| && r.correctCount <= r.totalQuestions
    ensures r.correctCount == r.totalQuestions <==> forall i :: 0 <= i < |answers| ==> answers[i].is_correct
  {
    HitsBounded(answers);
    Summary(Sum(answers, Points), Sum(answers, Hit), |answers|)
  }

  lemma {:induction false} HitsBounded(s: seq<Answer>)
    ensures 0 <= Sum(s, Hit) <= |s|
    ensures Sum(s, Hit) == |s| <==> forall i :: 0 <= i < |s| ==> s[i].is_correct
  {
    if s != [] {
      var n := |s| - 1;
      HitsBounded(s[..n]);
      if Sum(s, Hit) == |s| {
        forall i | 0 <= i < |s|
          ensures s[i].is_correct
        {
          if i < n {
            assert s[..n][i] == s[i];
          }
        }
      }
      if forall i :: 0 <= i < |s| ==> s[i].is_correct {
        assert forall i :: 0 <= i < n ==> s[..n][i].is_correct;
      }
    }
  }

  lemma {:induction false} SumConcat(a: seq<Answer>, b: seq<Answer>, f: Answer -> int)
    ensures Sum(a + b, f) == Sum(a, f) + Sum(b, f)
  {
    if b == [] {
      assert a + b == a;
    } else {
      var n := |b| - 1;
      assert (a + b)[..|a + b| - 1] == a + b[..n];
      SumConcat(a, b[..n], f);
    }
  }

  /** A sum does not depend on the order of its terms. */
  lemma {:induction false} SumPermutation(s: seq<Answer>, t: seq<Answer>, f: Answer -> int)
    requires multiset(s) == multiset(t)
    ensures Sum(s, f) == Sum(t, f)
    decreases |s|
  {
    if s == [] {
      assert |t| == |multiset(t)| == 0;
    } else {
      var n := |s| - 1;
      var x := s[n];
      assert s == s[..n] + [x];
      assert x in multiset(t);
      var j :| 0 <= j < |t| && t[j] == x;
      assert t == t[..j] + [x] + t[j + 1..];
      var rest := t[..j] + t[j + 1..];
      assert multiset(rest) == multiset(t) - multiset{x};
      assert multiset(s[..n]) == multiset(s) - multiset{x};
      SumPermutation(s[..n], rest, f);
      SumConcat(t[..j] + [x], t[j + 1..], f);
      SumConcat(t[..j], [x], f);
      SumConcat(t[..j], t[j + 1..], f);
      assert Sum([x], f) == f(x) by {
        assert [x][..0] == [];
      }
    }
  }

  lemma SumAppend(s: seq<Answer>, a: Answer, f: Answer -> int)
    ensures Sum(s + [a], f) == Sum(s, f) + f(a)
  {
    assert (s + [a])[..|s|] == s;
  }

  /** Summed over a participant's own answers, the page's total and correct
      count agree with the server's totals for that participant, provided
      every stored answer carries its points and only correct ones carry any. */
  lemma {:induction false} OwnAnswersGiveServerTotals(answers: seq<Answer>, u: Id)
    requires Answers.WellScored(answers)
    ensures Sum(Queries.UserAnswers(answers, u), Points) == Scores.CorrectPoints(answers, u)
    ensures Sum(Queries.UserAnswers(answers, u), Hit) == Scores.CorrectCount(answers, u)
  {
    if answers != [] {
      var n := |answers| - 1;
      var a := answers[n];
      var front := answers[..n];
      assert Answers.WellScored(front) by {
        assert forall b :: b in front ==> b in answers;
      }
      OwnAnswersGiveServerTotals(front, u);
      var own := Queries.UserAnswers(front, u);
      if a.user_id == Some(u) {
        assert Queries.UserAnswers(answers, u) == own + [a];
        SumAppend(own, a, Points);
        SumAppend(own, a, Hit);
        assert a in answers;
        assert Points(a) == (if a.is_correct then ValueOr(a.points_earned, 0) else 0);
      } else {
        assert Queries.UserAnswers(answers, u) == own + [];
        assert own + [] == own;
      }
    }
  }

  /** The summary the page shows for the list GET /api/answers returns, the
      caller's answers newest first: its score is the leaderboard's total. */
  lemma SummaryMatchesLeaderboard(answers: seq<Answer>, u: Id)
    requires Answers.WellScored(answers)
    ensures var s := Summarize(Answers.NewestFirst(Queries.UserAnswers(answers, u)));
      s.totalScore == Scores.CorrectPoints(answers, u) &&
      s.correctCount == Scores.CorrectCount(answers, u) &&
      s.totalQuestions == |Queries.UserAnswers(answers, u)|
  {
    var own := Queries.UserAnswers(answers, u);
    var listed := Answers.NewestFirst(own);
    OwnAnswersGiveServerTotals(answers, u);
    SumPermutation(listed, own, Points);
    SumPermutation(listed, own, Hit);
    assert |listed| == |multiset(listed)| == |multiset(own)| == |own|;
  }

  /** `Math.round(correct / total * 100)` on exact values (round half up),
      and 0 with no answers. */
  function RoundPercent(correct: nat, total: nat): (r: int)
    ensures total == 0 ==> r == 0
    ensures total > 0 ==> 2 * total * r <= 200 * correct + total < 2 * total * (r + 1)
  {
    if total == 0 then 0 else (200 * correct + total) / (2 * total)
  }

  lemma PercentBounds(correct: nat, total: nat)
    requires correct <= total
    ensures 0 <= RoundPercent(correct, total) <= 100
    ensures total > 0 && correct == total ==> RoundPercent(correct, total) == 100
    ensures correct == 0 ==> RoundPercent(correct, total) == 0
  {
    var r := RoundPercent(correct, total);
    if total > 0 {
      if r > 100 {
        assert 2 * total * r >= 2 * total * 101 by {
          MultiplyMonotone(2 * total, 101, r);
        }
        assert false;
      }
      if r < 0 {
        assert 2 * total * (r + 1) <= 0 by {
          MultiplyMonotone(2 * total, r + 1, 0);
        }
        assert false;
      }
      if correct == total && r != 100 {
        MultiplyMonotone(2 * total, r + 1, 100);
        assert false;
      }
      if correct == 0 && r != 0 {
        MultiplyMonotone(2 * total, 1, r);
        assert false;
      }
    }
  }

  lemma MultiplyMonotone(k: nat, a: int, b: int)
    requires a <= b
    ensures k * a <= k * b
  {
  }

  /** Where a polled phase sends the participant. */
  datatype Route = Stay | ToQuiz | ToWaiting

  function RouteFor(p: Phase): (r: Route)
    ensures r == ToQuiz <==> p == AcceptingAnswers || p == ShowingQuestion
    ensures r == ToWaiting <==> p == Waiting
  {
    if p == AcceptingAnswers || p == ShowingQuestion then ToQuiz else if p == Waiting then ToWaiting else Stay
  }

  /** The banner shown when the quiz has finished and every answer was correct. */
  predicate PerfectShown(p: Option<Phase>, s: Summary)
    ensures PerfectShown(p, s) ==> p == Some(Finished)
  {
    p == Some(Finished) && s.correctCount == s.totalQuestions
  }

  /** At the end the banner shows exactly when every returned answer is
      correct, which a participant with no answers satisfies. */
  lemma PerfectIffAllCorrect(answers: seq<Answer>)
    ensures PerfectShown(Some(Finished), Summarize(answers)) <==>
      forall i :: 0 <= i < |answers| ==> answers[i].is_correct
    ensures PerfectShown(Some(Finished), Summarize([]))
  {
  }

  /** The percentage card and the banner use different tests: 199 of 200
      correct rounds to 100 while the banner stays hidden. */
  lemma HundredPercentShortOfPerfect(score: int)
    ensures RoundPercent(199, 200) == 100
    ensures !PerfectShown(Some(Finished), Summary(score, 199, 200))
  {
  }

  /** The page's rank state: initialised to null, and no handler sets it. */
  const Rank: Option<int> := None

  /** `{rank && ...}`: the card needs a truthy rank. */
  predicate RankCardShown(rank: Option<int>)
    ensures rank.None? || rank == Some(0) ==> !RankCardShown(rank)
  {
    rank.Some? && rank.value != 0
  }

  lemma RankCardNeverShown()
    ensures !RankCardShown(Rank)
  {
  }
}
