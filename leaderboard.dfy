/** app/api/stats/leaderboard/route.ts: per-user totals folded into a map,
    one entry per user, sorted by score descending, cut to the limit. */
module Leaderboard {
  import opened Db
  import opened Scores
  import Sorting

  /** The `limit` query parameter after `parseInt(param || '10')`. */
  datatype LimitParam = Missing | Number(n: int) | NotANumber

  function LimitValue(p: LimitParam): (n: int)
    ensures p.Missing? ==> n == 10
  {
    match p
    case Missing => 10
    case Number(n) => n
    // slice(0, NaN) takes nothing
    case NotANumber => 0
  }

  /** The length `slice(0, end)` keeps of a sequence of length len: a
      negative end counts from the back. */
  function SliceEnd(len: nat, end: int): (k: nat)
    ensures k <= len
    ensures end >= 0 ==> k == if end <= len then end else len
    ensures end < 0 ==> k == if len + end >= 0 then len + end else 0
  {
    if end >= 0 then (if end <= len then end else len)
    else if len + end >= 0 then len + end
    else 0
  }

  datatype Totals = Totals(total_score: int, correct_count: nat)

  /** The leaderboard row of one user: their totals, 0/0 without answers. */
  function Entry(u: User, answers: seq<Answer>): (e: LeaderboardEntry)
    ensures e.user_id == u.id && e.name == u.name && e.nickname == u.nickname && e.group_type == u.group_type
    ensures e.correct_count <= |answers|
    ensures (forall a :: a in answers ==> a.user_id != Some(u.id)) ==> e.total_score == 0 && e.correct_count == 0
  {
    NoAnswersScoreZero(answers, u.id);
    LeaderboardEntry(u.id, u.name, u.nickname, u.group_type, CorrectPoints(answers, u.id), CorrectCount(answers, u.id))
  }

  /** Every user's row, in table order, before sorting. */
  function Entries(users: seq<User>, answers: seq<Answer>): (r: seq<LeaderboardEntry>)
    ensures |r| == |users|
    ensures forall i :: 0 <= i < |users| ==> r[i] == Entry(users[i], answers)
  {
    seq(|users|, i requires 0 <= i < |users| => Entry(users[i], answers))
  }

  /** full orders the rows of entries by total_score, highest first. */
  predicate IsRanking(full: seq<LeaderboardEntry>, entries: seq<LeaderboardEntry>)
  {
    |full| == |entries| && multiset(full) == multiset(entries) &&
    forall i, j :: 0 <= i < j < |full| ==> full[i].total_score >= full[j].total_score
  }

  /** A ranking holds every row exactly as often as the table has it. */
  lemma RankingHasEveryRow(full: seq<LeaderboardEntry>, entries: seq<LeaderboardEntry>)
    requires IsRanking(full, entries)
    ensures forall x :: x in entries <==> x in full
  {
    forall x
      ensures x in entries <==> x in full
    {
      assert x in entries <==> x in multiset(entries);
      assert x in full <==> x in multiset(full);
    }
  }

  function TotalScore(e: LeaderboardEntry): int
  {
    e.total_score
  }

  /** The `answers.forEach` fold: every answer with a user gets that user an
      entry (an incorrect one too); a correct one adds its points and one to
      the count. */
  method TallyAnswers(answers: seq<Answer>) returns (m: map<Id, Totals>)
    ensures forall u :: u in m ==> m[u] == Totals(CorrectPoints(answers, u), CorrectCount(answers, u))
    ensures forall u :: u !in m ==> CorrectPoints(answers, u) == 0 && CorrectCount(answers, u) == 0
  {
    m := map[];
    var i := 0;
    while i < |answers|
      invariant 0 <= i <= |answers|
      invariant forall u :: u in m ==> m[u] == Totals(CorrectPoints(answers[..i], u), CorrectCount(answers[..i], u))
      invariant forall u :: u !in m ==> CorrectPoints(answers[..i], u) == 0 && CorrectCount(answers[..i], u) == 0
    {
      var a := answers[i];
      PrefixStep(answers, i);
      if a.user_id.Some? {
        var score := if a.user_id.value in m then m[a.user_id.value] else Totals(0, 0);
        if a.is_correct {
          score := Totals(score.total_score + ValueOr(a.points_earned, 0), score.correct_count + 1);
        }
        m := m[a.user_id.value := score];
      }
      i := i + 1;
    }
    assert answers[..i] == answers;
  }

  /** `userScores.get(user.id)?.total_score || 0` and the same for the count. */
  function Lookup(m: map<Id, Totals>, u: User): (e: LeaderboardEntry)
    ensures e.user_id == u.id && e.name == u.name && e.nickname == u.nickname && e.group_type == u.group_type
    ensures u.id !in m ==> e.total_score == 0 && e.correct_count == 0
    ensures u.id in m ==> e.total_score == m[u.id].total_score && e.correct_count == m[u.id].correct_count
  {
    var t := if u.id in m then m[u.id] else Totals(0, 0);
    LeaderboardEntry(u.id, u.name, u.nickname, u.group_type, t.total_score, t.correct_count)
  }

  /** GET: 500 when either table cannot be read; otherwise the first
      SliceEnd(|users|, limit) rows of a ranking of every user's row by
      total_score, highest first. */
  method Get(users: seq<User>, answers: seq<Answer>, limit: LimitParam, usersFail: bool, answersFail: bool)
      returns (r: Response)
    ensures usersFail || answersFail ==> r == Fail(500, BackendFailure)
    ensures !usersFail && !answersFail ==>
      r.status == 200 && r.body.Leaderboard? &&
      var e := r.body.entries;
      |e| == SliceEnd(|users|, LimitValue(limit)) &&
      (forall i, j :: 0 <= i < j < |e| ==> e[i].total_score >= e[j].total_score) &&
      exists full :: IsRanking(full, Entries(users, answers)) && e == full[..|e|]
  {
    if usersFail || answersFail {
      return Fail(500, BackendFailure);
    }
    var m := TallyAnswers(answers);
    var board := new LeaderboardEntry[|users|](i requires 0 <= i < |users| => Lookup(m, users[i]));
    assert board[..] == Entries(users, answers);
    Sorting.SortDescending(board, TotalScore);
    var full := board[..];
    assert |full| == |users| by {
      assert |multiset(full)| == |multiset(Entries(users, answers))|;
    }
    assert IsRanking(full, Entries(users, answers));
    var k := SliceEnd(board.Length, LimitValue(limit));
    r := Ok(Leaderboard(full[..k]));
  }

  /** A row left out by the limit scores no more than any row kept. */
  lemma {:induction false} CutKeepsTheBest(full: seq<LeaderboardEntry>, k: nat)
    requires k <= |full|
    requires forall i, j :: 0 <= i < j < |full| ==> full[i].total_score >= full[j].total_score
    ensures forall x, y :: x in full[..k] && y in full[k..] ==> x.total_score >= y.total_score
  {
    forall x, y | x in full[..k] && y in full[k..]
      ensures x.total_score >= y.total_score
    {
      var i :| 0 <= i < k && full[..k][i] == x;
      var j :| 0 <= j < |full| - k && full[k..][j] == y;
      assert full[i] == x && full[k + j] == y;
    }
  }
}
