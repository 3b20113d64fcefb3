/** app/api/participants/route.ts: the admin's list of participants, their
    creation with a freshly drawn four-character login code, their edit and
    their removal. */
module Participants {
  import opened Db
  import opened Queries
  import Auth
  import Sorting
  import Nickname

  const Alphabet: string := "ABCDEFGHIJKLMNOPQRSTUVWXYZ0123456789"
  const CodeLength: nat := 4
  const MaxRetries: nat := 100

  /** `Math.floor(Math.random() * characters.length)`. */
  type Roll = r: int | 0 <= r < 36

  /** `characters.charAt(r)`: the letters A to Z, then the digits. */
  function Letter(r: Roll): (c: char)
    ensures ('A' <= c <= 'Z') || ('0' <= c <= '9')
  {
    if r < 26 then ('A' as int + r) as char else ('0' as int + (r - 26)) as char
  }

  /** Letter picks the r-th character of the alphabet. */
  lemma LetterIsCharAt(r: Roll)
    ensures Letter(r) == Alphabet[r]
  {
  }

  /** The code of attempt i, from the four rolls draw(i, 0) .. draw(i, 3). */
  function Attempt(draw: (nat, nat) -> Roll, i: nat): (code: string)
    ensures |code| == CodeLength
    ensures forall k :: 0 <= k < |code| ==> code[k] == Letter(draw(i, k))
  {
    [Letter(draw(i, 0)), Letter(draw(i, 1)), Letter(draw(i, 2)), Letter(draw(i, 3))]
  }

  /** The uniqueness probe: `.single()` reports PGRST116 unless exactly one
      user holds the code, and PGRST116 means "free". */
  predicate Free(users: seq<User>, code: string)
    ensures Free(users, code) <==> Single(UsersWithQr(users, code)).None?
    ensures (forall u :: u in users ==> u.qr_code != code) ==> Free(users, code)
  {
    var holders := UsersWithQr(users, code);
    assert holders != [] ==> holders[0] in holders;
    |holders| != 1
  }

  /** The code the retry loop returns from attempt i on, or none when every
      remaining attempt collides or its probe fails otherwise. */
  function FirstFree(users: seq<User>, draw: (nat, nat) -> Roll, probeFails: nat -> bool, i: nat): (r: Option<string>)
    ensures r.Some? ==> Free(users, r.value)
    ensures i >= MaxRetries ==> r.None?
    decreases MaxRetries - i
  {
    if i >= MaxRetries then None
    else if !probeFails(i) && Free(users, Attempt(draw, i)) then Some(Attempt(draw, i))
    else FirstFree(users, draw, probeFails, i + 1)
  }

  /** One round of the retry loop, with `free` the probe's verdict on attempt i. */
  lemma FirstFreeStep(users: seq<User>, draw: (nat, nat) -> Roll, probeFails: nat -> bool, i: nat, free: bool)
    requires i < MaxRetries && free == Single(UsersWithQr(users, Attempt(draw, i))).None?
    ensures !probeFails(i) && free ==> FirstFree(users, draw, probeFails, i) == Some(Attempt(draw, i))
    ensures !(!probeFails(i) && free) ==> FirstFree(users, draw, probeFails, i) == FirstFree(users, draw, probeFails, i + 1)
  {
  }

  /** A returned code is free and was drawn by one of the attempts. */
  lemma {:induction false} FirstFreeIsDrawn(users: seq<User>, draw: (nat, nat) -> Roll, probeFails: nat -> bool, i: nat)
    decreases MaxRetries - i
    requires FirstFree(users, draw, probeFails, i).Some?
    ensures var code := FirstFree(users, draw, probeFails, i).value;
      Free(users, code) && exists k :: i <= k < MaxRetries && !probeFails(k) && code == Attempt(draw, k)
  {
    if probeFails(i) || !Free(users, Attempt(draw, i)) {
      FirstFreeIsDrawn(users, draw, probeFails, i + 1);
    }
  }

  /** The generator gives up exactly when every attempt from i on collided
      or failed to probe. */
  lemma {:induction false} FirstFreeNone(users: seq<User>, draw: (nat, nat) -> Roll, probeFails: nat -> bool, i: nat)
    decreases MaxRetries - i
    ensures FirstFree(users, draw, probeFails, i).None? <==>
      forall k :: i <= k < MaxRetries ==> probeFails(k) || !Free(users, Attempt(draw, k))
  {
    if i < MaxRetries {
      FirstFreeNone(users, draw, probeFails, i + 1);
    }
  }

  /** Every code drawn is four characters of the alphabet. */
  lemma AttemptInAlphabet(draw: (nat, nat) -> Roll, i: nat)
    ensures var code := Attempt(draw, i);
      |code| == CodeLength && forall c :: c in code ==> c in Alphabet
  {
    var code := Attempt(draw, i);
    forall c | c in code
      ensures c in Alphabet
    {
      var k :| 0 <= k < |code| && code[k] == c;
      assert c == Letter(draw(i, k));
      LetterIsCharAt(draw(i, k));
    }
  }

  /** generateUniqueQRCode: up to 100 attempts, each building a code one
      character at a time and probing the users table; none means it throws. */
  method GenerateUniqueQrCode(db: Database, draw: (nat, nat) -> Roll, probeFails: nat -> bool) returns (code: Option<string>)
    ensures code == FirstFree(db.users, draw, probeFails, 0)
  {
    var users := db.users;
    var i := 0;
    while i < MaxRetries
      invariant 0 <= i <= MaxRetries
      invariant FirstFree(users, draw, probeFails, i) == FirstFree(users, draw, probeFails, 0)
    {
      var qrCode := DrawCode(draw, i);
      var probe := Single(UsersWithQr(users, qrCode));
      FirstFreeStep(users, draw, probeFails, i, probe.None?);
      if !probeFails(i) && probe.None? {
        return Some(qrCode);
      }
      i := i + 1;
    }
    code := None;
  }

  /** The inner loop: `qrCode += characters[randomIndex]`, four times. */
  method DrawCode(draw: (nat, nat) -> Roll, i: nat) returns (qrCode: string)
    ensures qrCode == Attempt(draw, i)
  {
    qrCode := "";
    var j := 0;
    while j < CodeLength
      invariant 0 <= j <= CodeLength
      invariant |qrCode| == j
      invariant forall k :: 0 <= k < j ==> qrCode[k] == Letter(draw(i, k))
    {
      qrCode := qrCode + [Letter(draw(i, j))];
      j := j + 1;
    }
  }

  lemma {:induction false} AtMostOneWithQr(users: seq<User>, qr: string)
    requires Nickname.UniqueQr(users)
    ensures |UsersWithQr(users, qr)| <= 1
  {
    if users != [] {
      var n := |users| - 1;
      var prefix := users[..n];
      assert Nickname.UniqueQr(prefix);
      AtMostOneWithQr(prefix, qr);
      if users[n].qr_code == qr {
        forall k | 0 <= k < n
          ensures prefix[k].qr_code != qr
        {
          assert prefix[k] == users[k];
        }
        NoneWithQr(prefix, qr);
      }
    }
  }

  lemma {:induction false} NoneWithQr(users: seq<User>, qr: string)
    requires forall k :: 0 <= k < |users| ==> users[k].qr_code != qr
    ensures UsersWithQr(users, qr) == []
  {
    if users != [] {
      NoneWithQr(users[..|users| - 1], qr);
    }
  }

  /** While codes are unique, a code the probe calls free is held by nobody. */
  lemma FreeCodeIsNew(users: seq<User>, code: string)
    requires Nickname.UniqueQr(users) && Free(users, code)
    ensures forall u :: u in users ==> u.qr_code != code
  {
    AtMostOneWithQr(users, code);
  }

  /** With two holders of a code already, the probe calls it free again. */
  lemma DoublyHeldCodeIsReused(a: User, b: User)
    requires a.qr_code == b.qr_code
    ensures Free([a, b], a.qr_code)
  {
    assert [a, b][..1] == [a] && [a][..0] == [];
    assert UsersWithQr([a, b], a.qr_code) == [a, b];
  }

  /** `value || null` for an optional text field. */
  function OrNull(s: Option<string>): (r: Option<string>)
    ensures r.Some? <==> s.Some? && s.value != ""
    ensures r.Some? ==> r == s
  {
    if s.Some? && s.value != "" then s else None
  }

  datatype NewParticipant = NewParticipant(
    name: Option<string>,
    group_type: Option<string>,
    seat_number: Option<string>,
    message: Option<string>,
    message_image_url: Option<string>)

  /** The inserted row; no nickname, created_at set by the database. */
  function NewUser(id: Id, code: string, input: NewParticipant, now: Time): (u: User)
    requires !Falsy(input.name) && !Falsy(input.group_type)
    ensures u.id == id && u.qr_code == code && u.created_at == now
    ensures u.name == input.name.value && u.group_type == input.group_type.value
    ensures Falsy(u.nickname)
  {
    User(id, code, input.name.value, None, input.group_type.value,
         OrNull(input.seat_number), OrNull(input.message), OrNull(input.message_image_url), now)
  }

  /** POST: admin only; 400 without a name or a group; 500 when no free code
      is found in 100 attempts or the insert fails; otherwise one new user. */
  method Post(db: Database, adminCookie: Option<string>, input: NewParticipant,
              draw: (nat, nat) -> Roll, probeFails: nat -> bool, now: Time, insertFails: bool) returns (r: Response)
    modifies db`users, db`nextId
    ensures old(db.Valid()) ==> db.Valid()
    ensures !Auth.IsAdmin(adminCookie) ==> r == Fail(401, AdminRequired)
    ensures Auth.IsAdmin(adminCookie) && (Falsy(input.name) || Falsy(input.group_type)) ==> r == Fail(400, MissingField)
    ensures r.status != 200 ==> db.users == old(db.users) && db.nextId == old(db.nextId)
    ensures Auth.IsAdmin(adminCookie) && !Falsy(input.name) && !Falsy(input.group_type) ==>
      var code := FirstFree(old(db.users), draw, probeFails, 0);
      (code.None? || insertFails ==> r == Fail(500, BackendFailure)) &&
      (code.Some? && !insertFails ==>
        var u := NewUser(old(db.nextId), code.value, input, now);
        r == Ok(Participant(u)) && db.users == old(db.users) + [u])
  {
    if !Auth.IsAdmin(adminCookie) {
      return Fail(401, AdminRequired);
    }
    if Falsy(input.name) || Falsy(input.group_type) {
      return Fail(400, MissingField);
    }
    var code := GenerateUniqueQrCode(db, draw, probeFails);
    if code.None? || insertFails {
      return Fail(500, BackendFailure);
    }
    var id := db.FreshId();
    var u := NewUser(id, code.value, input, now);
    db.users := db.users + [u];
    r := Ok(Participant(u));
  }

  /** A created participant keeps login codes unique. */
  lemma PostKeepsCodesUnique(users: seq<User>, u: User, draw: (nat, nat) -> Roll, probeFails: nat -> bool)
    requires Nickname.UniqueQr(users)
    requires FirstFree(users, draw, probeFails, 0) == Some(u.qr_code)
    ensures Nickname.UniqueQr(users + [u])
  {
    FirstFreeIsDrawn(users, draw, probeFails, 0);
    FreeCodeIsNew(users, u.qr_code);
    var after := users + [u];
    forall i, j | 0 <= i < j < |after|
      ensures after[i].qr_code != after[j].qr_code
    {
      if j == |users| {
        assert after[i] in users;
      }
    }
  }

  /** The body of PUT: a left-out field keeps its value. */
  datatype ParticipantEdit = ParticipantEdit(
    id: Option<Id>,
    name: Update<string>,
    group_type: Update<string>,
    seat_number: Update<Option<string>>,
    message: Update<Option<string>>,
    message_image_url: Update<Option<string>>)

  function Edited(u: User, e: ParticipantEdit): (r: User)
    ensures r.id == u.id && r.qr_code == u.qr_code && r.nickname == u.nickname && r.created_at == u.created_at
    ensures r.name == Apply(e.name, u.name) && r.group_type == Apply(e.group_type, u.group_type)
    ensures r.seat_number == Apply(e.seat_number, u.seat_number) && r.message == Apply(e.message, u.message)
    ensures r.message_image_url == Apply(e.message_image_url, u.message_image_url)
  {
    u.(name := Apply(e.name, u.name), group_type := Apply(e.group_type, u.group_type),
       seat_number := Apply(e.seat_number, u.seat_number), message := Apply(e.message, u.message),
       message_image_url := Apply(e.message_image_url, u.message_image_url))
  }

  function EditWhere(users: seq<User>, id: Id, e: ParticipantEdit): (r: seq<User>)
    ensures |r| == |users|
    ensures forall i :: 0 <= i < |r| ==> r[i] == if users[i].id == id then Edited(users[i], e) else users[i]
  {
    if users == [] then []
    else [if users[0].id == id then Edited(users[0], e) else users[0]] + EditWhere(users[1..], id, e)
  }

  /** PUT: admin only; 400 without an id; the edit of that user, answered by
      `.single()` (500 when no row has the id or the update fails). */
  method Put(db: Database, adminCookie: Option<string>, e: ParticipantEdit, updateFails: bool) returns (r: Response)
    modifies db`users
    ensures old(db.Valid()) ==> db.Valid()
    ensures !Auth.IsAdmin(adminCookie) ==> r == Fail(401, AdminRequired)
    ensures Auth.IsAdmin(adminCookie) && e.id.None? ==> r == Fail(400, MissingField)
    ensures r.status != 200 ==> db.users == old(db.users)
    ensures Auth.IsAdmin(adminCookie) && e.id.Some? ==>
      var rows := UserWithId(old(db.users), e.id.value);
      (updateFails || |rows| != 1 ==> r == Fail(500, BackendFailure)) &&
      (!updateFails && |rows| == 1 ==>
        r == Ok(Participant(Edited(rows[0], e))) && db.users == EditWhere(old(db.users), e.id.value, e))
  {
    if !Auth.IsAdmin(adminCookie) {
      return Fail(401, AdminRequired);
    }
    if e.id.None? {
      return Fail(400, MissingField);
    }
    var rows := UserWithId(db.users, e.id.value);
    if updateFails || |rows| != 1 {
      return Fail(500, BackendFailure);
    }
    db.users := EditWhere(db.users, e.id.value, e);
    r := Ok(Participant(Edited(rows[0], e)));
  }

  /** `.delete().eq('id', id)`. */
  function WithoutId(users: seq<User>, id: Id): (r: seq<User>)
    ensures |r| <= |users|
    ensures forall u :: u in r <==> u in users && u.id != id
  {
    if users == [] then []
    else
      var n := |users| - 1;
      assert users == users[..n] + [users[n]];
      WithoutId(users[..n], id) + (if users[n].id != id then [users[n]] else [])
  }

  /** DELETE: admin only; 400 without an id; otherwise that user's rows go
      and the call succeeds whether or not one existed. */
  method Delete(db: Database, adminCookie: Option<string>, id: Option<Id>, deleteFails: bool) returns (r: Response)
    modifies db`users
    ensures old(db.Valid()) ==> db.Valid()
    ensures !Auth.IsAdmin(adminCookie) ==> r == Fail(401, AdminRequired)
    ensures Auth.IsAdmin(adminCookie) && id.None? ==> r == Fail(400, MissingField)
    ensures Auth.IsAdmin(adminCookie) && id.Some? && deleteFails ==> r == Fail(500, BackendFailure)
    ensures r.status != 200 ==> db.users == old(db.users)
    ensures Auth.IsAdmin(adminCookie) && id.Some? && !deleteFails ==>
      r == Ok(Success) && db.users == WithoutId(old(db.users), id.value)
  {
    if !Auth.IsAdmin(adminCookie) {
      return Fail(401, AdminRequired);
    }
    if id.None? {
      return Fail(400, MissingField);
    }
    if deleteFails {
      return Fail(500, BackendFailure);
    }
    db.users := WithoutId(db.users, id.value);
    r := Ok(Success);
  }

  /** Deleting an id nobody holds changes nothing. */
  lemma {:induction false} DeleteAbsentIsNoop(users: seq<User>, id: Id)
    requires forall u :: u in users ==> u.id != id
    ensures WithoutId(users, id) == users
  {
    if users != [] {
      var n := |users| - 1;
      var front := users[..n];
      assert users == front + [users[n]];
      DeleteAbsentIsNoop(front, id);
    }
  }

  function CreatedAt(u: User): int
  {
    u.created_at
  }

  /** GET: admin only; all users by created_at ascending. */
  function Get(adminCookie: Option<string>, users: seq<User>, queryFails: bool): (r: Response)
    ensures !Auth.IsAdmin(adminCookie) ==> r == Fail(401, AdminRequired)
    ensures Auth.IsAdmin(adminCookie) && queryFails ==> r == Fail(500, BackendFailure)
    ensures Auth.IsAdmin(adminCookie) && !queryFails ==>
      r.status == 200 && r.body.Participants? &&
      multiset(r.body.users) == multiset(users) && Sorting.SortedBy(r.body.users, CreatedAt)
  {
    if !Auth.IsAdmin(adminCookie) then Fail(401, AdminRequired)
    else if queryFails then Fail(500, BackendFailure)
    else Ok(Participants(Sorting.SortBy(users, CreatedAt)))
  }
}
