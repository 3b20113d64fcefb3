/** app/api/stats/ranking/route.ts: the caller's rank among all participants,
    ties sharing a rank ("1224"), with a separate branch for a zero score. */
module Ranking {
  import opened Db
  import opened Scores
  import Sorting

  datatype ScoredUser = ScoredUser(id: Id, score: int)

  /** `allUsers.map(user => ({ id, score }))` before sorting. */
  function ScoredUsers(users: seq<User>, answers: seq<Answer>): (r: seq<ScoredUser>)
    ensures |r| == |users|
    ensures forall i :: 0 <= i < |users| ==> r[i] == ScoredUser(users[i].id, CorrectPoints(answers, users[i].id))
  {
    seq(|users|, i requires 0 <= i < |users| => ScoredUser(users[i].id, CorrectPoints(answers, users[i].id)))
  }

  /** How many entries score strictly more than v. */
  function CountAbove(s: seq<ScoredUser>, v: int): (c: nat)
    ensures c <= |s|
  {
    if s == [] then 0
    else (if s[0].score > v then 1 else 0) + CountAbove(s[1..], v)
  }

  lemma {:induction false} CountAboveConcat(a: seq<ScoredUser>, b: seq<ScoredUser>, v: int)
    ensures CountAbove(a + b, v) == CountAbove(a, v) + CountAbove(b, v)
  {
    if a == [] {
      assert a + b == b;
    } else {
      assert (a + b)[1..] == a[1..] + b;
      CountAboveConcat(a[1..], b, v);
    }
  }

  /** Taking one entry out of a list lowers the count by that entry's share. */
  lemma CountAboveRemove(b: seq<ScoredUser>, i: nat, v: int)
    requires i < |b|
    ensures CountAbove(b, v) == CountAbove(b[..i] + b[i + 1..], v) + (if b[i].score > v then 1 else 0)
  {
    assert b == b[..i] + [b[i]] + b[i + 1..];
    CountAboveConcat(b[..i] + [b[i]], b[i + 1..], v);
    CountAboveConcat(b[..i], [b[i]], v);
    CountAboveConcat(b[..i], b[i + 1..], v);
  }

  lemma RemoveFromMultiset(b: seq<ScoredUser>, i: nat)
    requires i < |b|
    ensures multiset(b[..i] + b[i + 1..]) == multiset(b) - multiset{b[i]}
  {
    assert b == b[..i] + [b[i]] + b[i + 1..];
  }

  /** The count depends only on which entries there are, not on their order. */
  lemma {:induction false} CountAbovePermutation(a: seq<ScoredUser>, b: seq<ScoredUser>, v: int)
    requires multiset(a) == multiset(b)
    ensures CountAbove(a, v) == CountAbove(b, v)
  {
    if a == [] {
      assert |b| == |multiset(b)| == 0;
    } else {
      var x := a[0];
      assert x in multiset(b);
      var i :| 0 <= i < |b| && b[i] == x;
      var rest := b[..i] + b[i + 1..];
      assert a == [x] + a[1..];
      assert multiset(a[1..]) == multiset(a) - multiset{x};
      RemoveFromMultiset(b, i);
      CountAbovePermutation(a[1..], rest, v);
      CountAboveRemove(b, i, v);
    }
  }

  /** Nobody scores strictly more than their own score. */
  lemma {:induction false} CountAboveMember(s: seq<ScoredUser>, x: ScoredUser)
    requires x in s
    ensures CountAbove(s, x.score) < |s|
  {
    if s[0] != x {
      CountAboveMember(s[1..], x);
    }
  }

  predicate SortedDesc(s: seq<ScoredUser>)
  {
    forall i, j :: 0 <= i < j < |s| ==> s[i].score >= s[j].score
  }

  lemma {:induction false} CountAboveEvery(s: seq<ScoredUser>, v: int)
    requires forall i :: 0 <= i < |s| ==> s[i].score > v
    ensures CountAbove(s, v) == |s|
  {
    if s != [] {
      CountAboveEvery(s[1..], v);
    }
  }

  lemma {:induction false} CountAboveNone(s: seq<ScoredUser>, v: int)
    requires forall i :: 0 <= i < |s| ==> s[i].score <= v
    ensures CountAbove(s, v) == 0
  {
    if s != [] {
      CountAboveNone(s[1..], v);
    }
  }

  /** In a list sorted highest first, the entry that starts a run of equal
      scores has exactly its index many entries above it. */
  lemma RunStart(s: seq<ScoredUser>, k: nat)
    requires SortedDesc(s) && k < |s|
    requires k == 0 || s[k - 1].score > s[k].score
    ensures CountAbove(s, s[k].score) == k
  {
    var v := s[k].score;
    var above, rest := s[..k], s[k..];
    forall i | 0 <= i < |above|
      ensures above[i].score > v
    {
      assert above[i] == s[i];
      assert s[i].score >= s[k - 1].score;
    }
    forall i | 0 <= i < |rest|
      ensures rest[i].score <= v
    {
      assert rest[i] == s[k + i];
    }
    CountAboveSplit(s, k, v);
    CountAboveEvery(above, v);
    CountAboveNone(rest, v);
  }

  lemma CountAboveSplit(s: seq<ScoredUser>, k: nat, v: int)
    requires k <= |s|
    ensures CountAbove(s, v) == CountAbove(s[..k], v) + CountAbove(s[k..], v)
  {
    assert s == s[..k] + s[k..];
    CountAboveConcat(s[..k], s[k..], v);
  }

  function MinScore(s: seq<ScoredUser>): (m: int)
    requires s != []
    ensures forall x :: x in s ==> m <= x.score
    ensures exists i :: 0 <= i < |s| && s[i].score == m
  {
    if |s| == 1 then s[0].score
    else
      var rest := MinScore(s[1..]);
      assert forall x :: x in s ==> x == s[0] || x in s[1..];
      assert exists i :: 1 <= i < |s| && s[i].score == rest by {
        var j :| 0 <= j < |s[1..]| && s[1..][j].score == rest;
        assert s[j + 1] == s[1..][j];
      }
      if s[0].score <= rest then s[0].score else rest
  }

  /** The last entry of a sorted arrangement carries the lowest score. */
  lemma SortedLastIsLowest(s: seq<ScoredUser>, t: seq<ScoredUser>)
    requires SortedDesc(s) && s != [] && multiset(s) == multiset(t)
    ensures t != [] && s[|s| - 1].score == MinScore(t)
  {
    var last := s[|s| - 1];
    assert last in multiset(t);
    var j :| 0 <= j < |t| && t[j].score == MinScore(t);
    assert t[j] in multiset(s);
  }

  function ScoreOf(m: map<Id, int>, id: Id): int
  {
    if id in m then m[id] else 0
  }

  /** The `allAnswers.forEach` fold: a correct answer adds its points to its
      user's entry; incorrect ones create no entry. */
  method ScoreMap(answers: seq<Answer>) returns (m: map<Id, int>)
    ensures forall u :: ScoreOf(m, u) == CorrectPoints(answers, u)
  {
    m := map[];
    var i := 0;
    while i < |answers|
      invariant 0 <= i <= |answers|
      invariant forall u :: ScoreOf(m, u) == CorrectPoints(answers[..i], u)
    {
      var a := answers[i];
      PrefixStep(answers, i);
      if a.user_id.Some? {
        var current := ScoreOf(m, a.user_id.value);
        if a.is_correct {
          m := m[a.user_id.value := current + ValueOr(a.points_earned, 0)];
        }
      }
      i := i + 1;
    }
    assert answers[..i] == answers;
  }

  function Score(u: ScoredUser): int
  {
    u.score
  }

  /** GET: 401 without a `user_id` cookie, 404 when a table cannot be read.
      A zero score ranks just below everyone who scored; otherwise the loop
      over the sorted list gives the rank of the first entry of the caller's
      score. Either way a listed caller gets 1 + the number of participants
      with a strictly higher score. */
  method Get(users: seq<User>, answers: seq<Answer>, userIdCookie: Option<Id>, usersFail: bool, answersFail: bool)
      returns (r: Response)
    ensures userIdCookie.None? ==> r == Fail(401, AuthRequired)
    ensures userIdCookie.Some? && (usersFail || answersFail) ==> r == Fail(404, NotFound)
    ensures userIdCookie.Some? && !usersFail && !answersFail ==>
      var uid := userIdCookie.value;
      var score := CorrectPoints(answers, uid);
      var all := ScoredUsers(users, answers);
      var listed := exists i :: 0 <= i < |users| && users[i].id == uid;
      r.status == 200 && r.body.Rank? && r.body.totalScore == score &&
      ((score == 0 || listed) ==> r.body.rank == 1 + CountAbove(all, score)) &&
      (listed ==> 1 <= r.body.rank <= |users|) &&
      (score != 0 && !listed ==> r.body.rank == if users == [] then 1 else 1 + CountAbove(all, MinScore(all)))
  {
    if userIdCookie.None? {
      return Fail(401, AuthRequired);
    }
    if usersFail || answersFail {
      return Fail(404, NotFound);
    }
    var uid := userIdCookie.value;
    var m := ScoreMap(answers);
    var sortedUsers := SortByScore(users, m, answers);
    var userScore := ScoreOf(m, uid);
    if userScore == 0 {
      ZeroScoreRank(users, answers, uid, sortedUsers);
      var withScore := CountAbove(sortedUsers, 0);
      if withScore == 0 {
        return Ok(Rank(1, 0));
      }
      return Ok(Rank(withScore + 1, 0));
    }
    var currentRank, at := RankLoop(sortedUsers, uid);
    if at < |sortedUsers| {
      FoundRank(users, answers, uid, sortedUsers, at);
    } else {
      NotFoundRank(users, answers, uid, sortedUsers);
    }
    r := Ok(Rank(currentRank, userScore));
  }

  /** `allUsers.map(...)` sorted in place by score, highest first. */
  method SortByScore(users: seq<User>, m: map<Id, int>, answers: seq<Answer>) returns (s: seq<ScoredUser>)
    requires forall u :: ScoreOf(m, u) == CorrectPoints(answers, u)
    ensures SortedDesc(s) && multiset(s) == multiset(ScoredUsers(users, answers))
  {
    var sorted := new ScoredUser[|users|](i requires 0 <= i < |users| => ScoredUser(users[i].id, ScoreOf(m, users[i].id)));
    assert sorted[..] == ScoredUsers(users, answers);
    Sorting.SortDescending(sorted, Score);
    s := sorted[..];
  }

  /** The zero-score branch counts, over the sorted list, the participants
      who scored; a listed caller is not among them. */
  lemma ZeroScoreRank(users: seq<User>, answers: seq<Answer>, uid: Id, s: seq<ScoredUser>)
    requires multiset(s) == multiset(ScoredUsers(users, answers))
    requires CorrectPoints(answers, uid) == 0
    ensures CountAbove(s, 0) == CountAbove(ScoredUsers(users, answers), 0)
    ensures (exists i :: 0 <= i < |users| && users[i].id == uid) ==> CountAbove(s, 0) < |users|
  {
    var all := ScoredUsers(users, answers);
    CountAbovePermutation(s, all, 0);
    if i :| 0 <= i < |users| && users[i].id == uid {
      CountAboveMember(all, all[i]);
    }
  }

  /** Where the loop stops at the caller: that entry carries the caller's
      total, and fewer than all participants score more. */
  lemma FoundRank(users: seq<User>, answers: seq<Answer>, uid: Id, s: seq<ScoredUser>, at: nat)
    requires multiset(s) == multiset(ScoredUsers(users, answers))
    requires at < |s| && s[at].id == uid
    ensures s[at].score == CorrectPoints(answers, uid)
    ensures exists i :: 0 <= i < |users| && users[i].id == uid
    ensures CountAbove(s, s[at].score) == CountAbove(ScoredUsers(users, answers), s[at].score)
    ensures CountAbove(s, s[at].score) < |users|
  {
    var all := ScoredUsers(users, answers);
    assert s[at] in multiset(all);
    var j :| 0 <= j < |all| && all[j] == s[at];
    assert users[j].id == uid;
    CountAboveMember(s, s[at]);
    CountAbovePermutation(s, all, s[at].score);
    assert |s| == |multiset(s)| == |multiset(all)| == |users|;
  }

  /** When the loop runs off the end the caller is not listed, and the rank
      it ends on is that of the lowest score. */
  lemma NotFoundRank(users: seq<User>, answers: seq<Answer>, uid: Id, s: seq<ScoredUser>)
    requires multiset(s) == multiset(ScoredUsers(users, answers)) && SortedDesc(s)
    requires forall j :: 0 <= j < |s| ==> s[j].id != uid
    ensures !exists i :: 0 <= i < |users| && users[i].id == uid
    ensures |s| == |users|
    ensures s != [] ==> CountAbove(s, s[|s| - 1].score) == CountAbove(ScoredUsers(users, answers), MinScore(ScoredUsers(users, answers)))
  {
    var all := ScoredUsers(users, answers);
    forall i | 0 <= i < |users|
      ensures users[i].id != uid
    {
      assert all[i] in multiset(s);
    }
    assert |s| == |multiset(s)| == |multiset(all)| == |users|;
    if s != [] {
      SortedLastIsLowest(s, all);
      CountAbovePermutation(s, all, s[|s| - 1].score);
    }
  }

  /** The tie-aware loop: `currentRank` moves to the running position only
      when the score changes, and the loop stops at the caller. It ends at
      the caller's first entry (`at`), or after the list when the caller is
      not in it. */
  method RankLoop(sortedUsers: seq<ScoredUser>, uid: Id) returns (currentRank: int, at: nat)
    requires SortedDesc(sortedUsers)
    ensures at <= |sortedUsers|
    ensures forall j :: 0 <= j < at ==> sortedUsers[j].id != uid
    ensures at < |sortedUsers| ==>
      sortedUsers[at].id == uid && currentRank == 1 + CountAbove(sortedUsers, sortedUsers[at].score)
    ensures at == |sortedUsers| ==>
      currentRank == if at == 0 then 1 else 1 + CountAbove(sortedUsers, sortedUsers[at - 1].score)
  {
    var rank := 1;
    currentRank := 1;
    var lastScore := -1;
    var k := 0;
    while k < |sortedUsers|
      invariant 0 <= k <= |sortedUsers|
      invariant rank == k + 1
      invariant lastScore == if k == 0 then -1 else sortedUsers[k - 1].score
      invariant currentRank == if k == 0 then 1 else 1 + CountAbove(sortedUsers, sortedUsers[k - 1].score)
      invariant forall j :: 0 <= j < k ==> sortedUsers[j].id != uid
    {
      if sortedUsers[k].score != lastScore {
        currentRank := rank;
        RunStart(sortedUsers, k);
      } else if k == 0 {
        RunStart(sortedUsers, 0);
      }
      if sortedUsers[k].id == uid {
        break;
      }
      lastScore := sortedUsers[k].score;
      rank := rank + 1;
      k := k + 1;
    }
    at := k;
  }
}
