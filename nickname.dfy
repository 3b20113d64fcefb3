/** app/api/user/nickname/route.ts: a participant sets or clears their own
    nickname. Strings are sequences of Unicode code points; JavaScript's
    `length` counts UTF-16 code units, so a code point above U+FFFF counts 2. */
module Nickname {
  import opened Db
  import opened Queries
  import Auth

  /** ECMAScript's WhiteSpace and LineTerminator code points, what `trim` removes. */
  predicate IsSpace(c: char)
    ensures IsSpace(c) ==> !IsEmoji(c)
  {
    var v := c as int;
    (0x09 <= v <= 0x0D) || v == 0x20 || v == 0xA0 || v == 0x1680 || (0x2000 <= v <= 0x200A) ||
    v == 0x2028 || v == 0x2029 || v == 0x202F || v == 0x205F || v == 0x3000 || v == 0xFEFF
  }

  function TrimStart(s: string): (r: string)
    ensures |r| <= |s| && r == s[|s| - |r|..]
    ensures r != [] ==> !IsSpace(r[0])
    ensures forall i :: 0 <= i < |s| - |r| ==> IsSpace(s[i])
  {
    if s != [] && IsSpace(s[0]) then TrimStart(s[1..]) else s
  }

  function TrimEnd(s: string): (r: string)
    ensures |r| <= |s| && r == s[..|r|]
    ensures r != [] ==> !IsSpace(r[|r| - 1])
    ensures forall i :: |r| <= i < |s| ==> IsSpace(s[i])
  {
    if s != [] && IsSpace(s[|s| - 1]) then TrimEnd(s[..|s| - 1]) else s
  }

  /** `s.trim()`. */
  function Trim(s: string): (r: string)
    ensures |r| <= |s|
    ensures r != [] ==> !IsSpace(r[0]) && !IsSpace(r[|r| - 1])
  {
    TrimEnd(TrimStart(s))
  }

  predicate AllSpace(s: string)
  {
    forall i :: 0 <= i < |s| ==> IsSpace(s[i])
  }

  /** `s.trim() === ''` exactly when every character of s is white space. */
  lemma TrimEmptyIffAllSpace(s: string)
    ensures Trim(s) == "" <==> AllSpace(s)
  {
    var t := TrimStart(s);
    if Trim(s) == "" {
      assert |t| == 0;
    }
  }

  /** The UTF-16 length of s: `s.length` in JavaScript. */
  function Utf16Length(s: string): (n: nat)
    ensures |s| <= n <= 2 * |s|
  {
    if s == [] then 0
    else (if s[0] as int >= 0x1_0000 then 2 else 1) + Utf16Length(s[1..])
  }

  /** The code point ranges of the route's emoji pattern. */
  predicate IsEmoji(c: char)
    ensures 0x3040 <= c as int <= 0x9FFF ==> !IsEmoji(c)
    ensures c as int < 0x2600 ==> !IsEmoji(c)
  {
    var v := c as int;
    (0x1F600 <= v <= 0x1F64F) || (0x1F300 <= v <= 0x1F5FF) || (0x1F680 <= v <= 0x1F6FF) ||
    (0x1F1E0 <= v <= 0x1F1FF) || (0x2600 <= v <= 0x26FF) || (0x2700 <= v <= 0x27BF)
  }

  predicate HasEmoji(s: string)
    ensures HasEmoji(s) <==> exists c :: c in s && IsEmoji(c)
  {
    exists i :: 0 <= i < |s| && IsEmoji(s[i])
  }

  const MaxLength: nat := 20

  /** The body's checks in their order; the first one failed decides. */
  function Validate(nickname: Option<string>): (r: Option<Reason>)
    ensures r.None? <==>
      nickname.Some? && !AllSpace(nickname.value) && Utf16Length(nickname.value) <= MaxLength && !HasEmoji(nickname.value)
    ensures r == Some(NicknameBlank) <==> nickname.None? || AllSpace(nickname.value)
    ensures r == Some(NicknameTooLong) <==>
      nickname.Some? && !AllSpace(nickname.value) && Utf16Length(nickname.value) > MaxLength
    ensures r == Some(NicknameEmoji) <==>
      nickname.Some? && !AllSpace(nickname.value) && Utf16Length(nickname.value) <= MaxLength && HasEmoji(nickname.value)
  {
    if Falsy(nickname) then
      Some(NicknameBlank)
    else
      TrimEmptyIffAllSpace(nickname.value);
      if Trim(nickname.value) == "" then Some(NicknameBlank)
      else if Utf16Length(nickname.value) > MaxLength then Some(NicknameTooLong)
      else if HasEmoji(nickname.value) then Some(NicknameEmoji)
      else None
  }

  /** `.update({ nickname }).eq('qr_code', qr)`. */
  function SetNickname(users: seq<User>, qr: string, nickname: Option<string>): (r: seq<User>)
    ensures |r| == |users|
    ensures forall i :: 0 <= i < |r| ==>
      r[i] == if users[i].qr_code == qr then users[i].(nickname := nickname) else users[i]
  {
    if users == [] then []
    else
      var u := users[0];
      [if u.qr_code == qr then u.(nickname := nickname) else u] + SetNickname(users[1..], qr, nickname)
  }

  /** The `.select().maybeSingle()` after an update by qr_code: no row gives
      404, several give an error (500, and the update does not stand). */
  method UpdateByQr(db: Database, qr: string, nickname: Option<string>, updateFails: bool) returns (r: Response)
    modifies db`users
    ensures old(db.Valid()) ==> db.Valid()
    ensures var holders := UsersWithQr(old(db.users), qr);
      (updateFails || |holders| > 1 ==> r == Fail(500, BackendFailure) && db.users == old(db.users)) &&
      (!updateFails && holders == [] ==> r == Fail(404, NotFound) && db.users == old(db.users)) &&
      (!updateFails && |holders| == 1 ==>
        r == Ok(NicknameSet(holders[0].(nickname := nickname))) && db.users == SetNickname(old(db.users), qr, nickname))
  {
    var holders := UsersWithQr(db.users, qr);
    if updateFails || |holders| > 1 {
      return Fail(500, BackendFailure);
    }
    if holders == [] {
      return Fail(404, NotFound);
    }
    if db.Valid() {
      SetNicknameKeepsIds(db.users, qr, nickname, db.nextId);
    }
    db.users := SetNickname(db.users, qr, nickname);
    r := Ok(NicknameSet(holders[0].(nickname := nickname)));
  }

  /** The update changes no row's id, so ids that stayed below a bound still do. */
  lemma SetNicknameKeepsIds(users: seq<User>, qr: string, nickname: Option<string>, bound: nat)
    requires forall u :: u in users ==> u.id < bound
    ensures forall u :: u in SetNickname(users, qr, nickname) ==> u.id < bound
  {
    var after := SetNickname(users, qr, nickname);
    forall u | u in after
      ensures u.id < bound
    {
      var i :| 0 <= i < |after| && after[i] == u;
      assert users[i] in users;
    }
  }

  /** PUT: 401 without a participant; then the checks of Validate; then 400
      when `maybeSingle` finds exactly one other participant (another
      qr_code) with the nickname; then the update of the caller's row, with
      the submitted string stored untrimmed. The probe's error is not read:
      when it fails (`probeFails`) it yields no data and the update goes ahead. */
  method Put(db: Database, cookie: Option<string>, nickname: Option<string>, now: Time, lookupFails: bool, touchFails: bool,
             probeFails: bool, updateFails: bool)
      returns (r: Response)
    modifies db`sessions, db`users
    ensures old(db.Valid()) ==> db.Valid()
    ensures db.sessions == Auth.SessionsAfter(old(db.sessions), cookie, now, lookupFails, touchFails)
    ensures var user := Auth.CurrentUser(old(db.sessions), old(db.users), cookie, lookupFails);
      (user.None? ==> r == Fail(401, AuthRequired) && db.users == old(db.users)) &&
      (user.Some? && Validate(nickname).Some? ==> r == Fail(400, Validate(nickname).value) && db.users == old(db.users)) &&
      (user.Some? && Validate(nickname).None? && !probeFails &&
       |OthersWithNickname(old(db.users), nickname.value, user.value.qr_code)| == 1 ==>
        r == Fail(400, NicknameTaken) && db.users == old(db.users))
    ensures var user := Auth.CurrentUser(old(db.sessions), old(db.users), cookie, lookupFails);
      user.Some? && Validate(nickname).None? &&
      (probeFails || |OthersWithNickname(old(db.users), nickname.value, user.value.qr_code)| != 1) ==>
      var holders := UsersWithQr(old(db.users), user.value.qr_code);
      (updateFails || |holders| > 1 ==> r == Fail(500, BackendFailure) && db.users == old(db.users)) &&
      (!updateFails && |holders| == 1 ==>
        r == Ok(NicknameSet(holders[0].(nickname := nickname))) &&
        db.users == SetNickname(old(db.users), user.value.qr_code, nickname))
  {
    var user := Auth.GetCurrentUser(db, cookie, now, lookupFails, touchFails);
    if user.None? {
      return Fail(401, AuthRequired);
    }
    var invalid := Validate(nickname);
    if invalid.Some? {
      return Fail(400, invalid.value);
    }
    var existing := if probeFails then None else Single(OthersWithNickname(db.users, nickname.value, user.value.qr_code));
    if existing.Some? {
      return Fail(400, NicknameTaken);
    }
    r := UpdateByQr(db, user.value.qr_code, nickname, updateFails);
  }

  /** DELETE: 401 without a participant, otherwise the caller's nickname
      becomes null (404 when no row has their qr_code). */
  method Delete(db: Database, cookie: Option<string>, now: Time, lookupFails: bool, touchFails: bool, updateFails: bool) returns (r: Response)
    modifies db`sessions, db`users
    ensures old(db.Valid()) ==> db.Valid()
    ensures db.sessions == Auth.SessionsAfter(old(db.sessions), cookie, now, lookupFails, touchFails)
    ensures var user := Auth.CurrentUser(old(db.sessions), old(db.users), cookie, lookupFails);
      (user.None? ==> r == Fail(401, AuthRequired) && db.users == old(db.users)) &&
      (user.Some? ==>
        var holders := UsersWithQr(old(db.users), user.value.qr_code);
        (updateFails || |holders| > 1 ==> r == Fail(500, BackendFailure) && db.users == old(db.users)) &&
        (!updateFails && |holders| == 1 ==>
          r == Ok(NicknameSet(holders[0].(nickname := None))) &&
          db.users == SetNickname(old(db.users), user.value.qr_code, None)))
  {
    var user := Auth.GetCurrentUser(db, cookie, now, lookupFails, touchFails);
    if user.None? {
      return Fail(401, AuthRequired);
    }
    r := UpdateByQr(db, user.value.qr_code, None, updateFails);
  }

  /** The caller always has a row with their qr_code, so the 404 branch is
      not reached through a found session. */
  lemma {:induction false} CallerHasRow(sessions: seq<UserSession>, users: seq<User>, cookie: Option<string>)
    requires Auth.SessionUser(sessions, users, cookie).Some?
    ensures UsersWithQr(users, Auth.SessionUser(sessions, users, cookie).value.qr_code) != []
  {
    var u := Auth.SessionUser(sessions, users, cookie).value;
    assert u in UsersWithQr(users, u.qr_code);
  }

  /** Qr codes identify users: two rows never share one. */
  predicate UniqueQr(users: seq<User>)
  {
    forall i, j :: 0 <= i < j < |users| ==> users[i].qr_code != users[j].qr_code
  }

  /** No nickname is held under two different qr codes. */
  predicate UniqueNicknames(users: seq<User>)
  {
    forall i, j ::
      (0 <= i < |users| && 0 <= j < |users| && users[i].nickname.Some? && users[i].nickname == users[j].nickname) ==>
      users[i].qr_code == users[j].qr_code
  }

  /** With unique qr codes and nicknames there is at most one other holder,
      so the duplicate check's `maybeSingle` sees every conflict. */
  lemma {:induction false} AtMostOneOther(users: seq<User>, nickname: string, qr: string)
    requires UniqueQr(users) && UniqueNicknames(users)
    ensures |OthersWithNickname(users, nickname, qr)| <= 1
  {
    if users != [] {
      var n := |users| - 1;
      var prefix := users[..n];
      PrefixStaysUnique(users, n);
      AtMostOneOther(prefix, nickname, qr);
      var u := users[n];
      if u.nickname == Some(nickname) && u.qr_code != qr {
        LastHolderIsAlone(users, nickname, qr);
        assert users == prefix + [u];
      }
    }
  }

  lemma PrefixStaysUnique(users: seq<User>, n: nat)
    requires n <= |users| && UniqueQr(users) && UniqueNicknames(users)
    ensures UniqueQr(users[..n]) && UniqueNicknames(users[..n])
  {
  }

  /** With unique codes and nicknames, nobody before the last user holds
      the last user's nickname. */
  lemma LastHolderIsAlone(users: seq<User>, nickname: string, qr: string)
    requires users != [] && UniqueQr(users) && UniqueNicknames(users)
    requires users[|users| - 1].nickname == Some(nickname)
    ensures OthersWithNickname(users[..|users| - 1], nickname, qr) == []
  {
    var n := |users| - 1;
    var prefix := users[..n];
    forall k | 0 <= k < n
      ensures prefix[k].nickname != Some(nickname)
    {
      assert prefix[k] == users[k];
      assert users[k].qr_code != users[n].qr_code;
    }
    NoOtherHolder(prefix, nickname, qr);
  }

  lemma {:induction false} NoOtherHolder(users: seq<User>, nickname: string, qr: string)
    requires forall k :: 0 <= k < |users| ==> users[k].nickname != Some(nickname)
    ensures OthersWithNickname(users, nickname, qr) == []
  {
    if users != [] {
      NoOtherHolder(users[..|users| - 1], nickname, qr);
    }
  }

  /** An accepted PUT keeps nicknames unique. */
  lemma PutKeepsNicknamesUnique(users: seq<User>, nickname: string, qr: string)
    requires UniqueQr(users) && UniqueNicknames(users)
    requires |OthersWithNickname(users, nickname, qr)| != 1
    ensures UniqueNicknames(SetNickname(users, qr, Some(nickname)))
  {
    AtMostOneOther(users, nickname, qr);
    var others := OthersWithNickname(users, nickname, qr);
    assert others == [];
    var after := SetNickname(users, qr, Some(nickname));
    forall i, j | 0 <= i < |after| && 0 <= j < |after| && after[i].nickname.Some? && after[i].nickname == after[j].nickname
      ensures after[i].qr_code == after[j].qr_code
    {
    }
  }

  /** A failed probe lets a taken name through: the update then gives the
      caller a nickname another participant already holds. */
  lemma FailedProbeBreaksUniqueness(other: User, caller: User, nickname: string)
    requires other.nickname == Some(nickname) && other.qr_code != caller.qr_code
    ensures !UniqueNicknames(SetNickname([other, caller], caller.qr_code, Some(nickname)))
  {
    var after := SetNickname([other, caller], caller.qr_code, Some(nickname));
    assert after[0] == other && after[1] == caller.(nickname := Some(nickname));
  }

  /** With two other holders the check lets the name through: `maybeSingle`
      reports several rows as an error, which the route does not read. */
  lemma TwoHoldersSlipThrough(a: User, b: User, nickname: string, qr: string)
    requires a.nickname == Some(nickname) && b.nickname == Some(nickname)
    requires a.qr_code != qr && b.qr_code != qr
    ensures Single(OthersWithNickname([a, b], nickname, qr)).None?
  {
    assert [a, b][..1] == [a] && [a][..0] == [];
    assert OthersWithNickname([a], nickname, qr) == [a];
    assert OthersWithNickname([a, b], nickname, qr) == [a, b];
  }

  lemma BlankExample()
    ensures Validate(Some(" \U{3000}")) == Some(NicknameBlank)
  {
  }

  lemma EmojiExample()
    ensures Validate(Some("a\U{2600}")) == Some(NicknameEmoji)
  {
    assert IsEmoji("a\U{2600}"[1]);
  }

  /** Surrounding spaces are allowed and kept. */
  lemma SpacedExample()
    ensures Validate(Some(" a")).None?
  {
    assert !IsSpace(" a"[1]);
  }
}
