/** app/api/stats/participants/route.ts: the number of participants seen in
    the last five minutes, counted over user_sessions without authentication. */
module ActiveSessions {
  import opened Db
  import Auth

  /** Five minutes in milliseconds. */
  const Window: nat := 5 * 60 * 1000

  predicate IsActive(s: UserSession, now: Time)
    ensures s.last_active as int >= now as int ==> IsActive(s, now)
  {
    s.last_active as int >= now as int - Window
  }

  /** `.gte('last_active', now - 5 min)` with `count: 'exact'`. */
  function ActiveCount(sessions: seq<UserSession>, now: Time): (n: nat)
    ensures n <= |sessions|
  {
    if sessions == [] then 0
    else
      var k := |sessions| - 1;
      ActiveCount(sessions[..k], now) + (if IsActive(sessions[k], now) then 1 else 0)
  }

  /** The count is the number of sessions in the window. */
  lemma {:induction false} ActiveCountIsWindowSize(sessions: seq<UserSession>, now: Time)
    ensures ActiveCount(sessions, now) == |set i | 0 <= i < |sessions| && IsActive(sessions[i], now)|
  {
    if sessions != [] {
      var k := |sessions| - 1;
      var front := sessions[..k];
      ActiveCountIsWindowSize(front, now);
      var before := set i | 0 <= i < k && IsActive(front[i], now);
      var all := set i | 0 <= i < |sessions| && IsActive(sessions[i], now);
      assert before == set i | 0 <= i < k && IsActive(sessions[i], now) by {
        forall i | 0 <= i < k
          ensures front[i] == sessions[i]
        {
        }
      }
      if IsActive(sessions[k], now) {
        assert all == before + {k};
        assert k !in before;
      } else {
        assert all == before;
      }
    }
  }

  /** GET: the active count (null reported as 0), or 500 when the query fails. */
  function Get(sessions: seq<UserSession>, now: Time, queryFails: bool): (r: Response)
    ensures queryFails ==> r == Fail(500, BackendFailure)
    ensures !queryFails ==> r == Ok(Count(ActiveCount(sessions, now)))
  {
    if queryFails then Fail(500, BackendFailure) else Ok(Count(ActiveCount(sessions, now)))
  }

  /** The window includes its boundary: a session last seen exactly five
      minutes ago counts, one a millisecond older does not. */
  lemma WindowInclusive(s: UserSession, now: Time)
    requires now >= Window + 1
    ensures IsActive(s.(last_active := now - Window), now)
    ensures !IsActive(s.(last_active := now - Window - 1), now)
  {
  }

  lemma {:induction false} SomeActiveCounts(sessions: seq<UserSession>, i: nat, now: Time)
    requires i < |sessions| && IsActive(sessions[i], now)
    ensures ActiveCount(sessions, now) >= 1
  {
    var k := |sessions| - 1;
    if i < k {
      assert sessions[..k][i] == sessions[i];
      SomeActiveCounts(sessions[..k], i, now);
    }
  }

  /** A participant whose request just went through getCurrentUser is
      counted as active at that moment. */
  lemma LookedUpIsActive(sessions: seq<UserSession>, cookie: Option<string>, now: Time)
    requires Auth.FindSession(sessions, cookie).Some?
    ensures ActiveCount(Auth.AfterLookup(sessions, cookie, now), now) >= 1
  {
    var s := Auth.FindSession(sessions, cookie).value;
    var i :| 0 <= i < |sessions| && sessions[i] == s;
    var after := Auth.AfterLookup(sessions, cookie, now);
    assert after[i].last_active == now;
    SomeActiveCounts(after, i, now);
  }
}
