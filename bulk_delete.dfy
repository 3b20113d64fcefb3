/** app/api/participants/bulk-delete/route.ts: the admin removes every
    participant at once. */
module BulkDelete {
  import opened Db
  import Auth

  /** `count || users.length`: the delete's count, or the number fetched
      when the count is missing or 0. */
  function Reported(count: Option<nat>, fetched: nat): (n: nat)
    ensures count.Some? && count.value != 0 ==> n == count.value
    ensures count.None? || count.value == 0 ==> n == fetched
  {
    if count.Some? && count.value != 0 then count.value else fetched
  }

  /** DELETE: admin only; 500 when the users cannot be read; success without
      change when there are none; otherwise all users are deleted (500 when
      that fails) and their number is reported. */
  method Delete(db: Database, adminCookie: Option<string>, fetchFails: bool, deleteFails: bool, count: Option<nat>)
      returns (r: Response)
    modifies db`users
    ensures old(db.Valid()) ==> db.Valid()
    ensures !Auth.IsAdmin(adminCookie) ==> r == Fail(401, AdminRequired)
    ensures Auth.IsAdmin(adminCookie) && fetchFails ==> r == Fail(500, BackendFailure)
    ensures Auth.IsAdmin(adminCookie) && !fetchFails && old(db.users) == [] ==> r == Ok(NothingToRemove)
    ensures Auth.IsAdmin(adminCookie) && !fetchFails && old(db.users) != [] && deleteFails ==>
      r == Fail(500, BackendFailure)
    ensures r.status != 200 || r.body.NothingToRemove? ==> db.users == old(db.users)
    ensures Auth.IsAdmin(adminCookie) && !fetchFails && old(db.users) != [] && !deleteFails ==>
      r == Ok(Removed(Reported(count, |old(db.users)|))) && db.users == []
  {
    if !Auth.IsAdmin(adminCookie) {
      return Fail(401, AdminRequired);
    }
    if fetchFails {
      return Fail(500, BackendFailure);
    }
    var fetched := db.users;
    if |fetched| == 0 {
      return Ok(NothingToRemove);
    }
    if deleteFails {
      return Fail(500, BackendFailure);
    }
    db.users := [];
    r := Ok(Removed(Reported(count, |fetched|)));
  }

  /** The delete is not asked for a count, so the number reported is the
      number of participants read just before. */
  lemma ReportsWhatWasFetched(fetched: nat)
    requires fetched > 0
    ensures Reported(None, fetched) == fetched && Reported(Some(0), fetched) == fetched
  {
  }
}
