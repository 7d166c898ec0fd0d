/** The account endpoint: PATCH changes the caller's password or email, DELETE
    removes the caller's user row; both first check the current password. */
module Account {
  import opened Base
  import opened Store
  import Js

  /** The JSON body fields the handler reads. */
  datatype AccountBody = AccountBody(currentPassword: Option<string>, newPassword: Option<string>, newEmail: Option<string>)

  /** `ServerError` is the 500 answer `Server error: <message>` of anything
      thrown, whose message comes from the library that threw. */
  datatype AccountReply = Done(message: string) | Error(error: string) | ServerError

  /** A character of the class `[^\s@]`. */
  predicate Plain(c: char) {
    !Js.IsSpace(c) && c != '@'
  }

  /** The length of the longest prefix of `s` made of `[^\s@]` characters. */
  function PlainPrefix(s: string): (n: nat)
    ensures n <= |s|
    ensures forall k :: 0 <= k < n ==> Plain(s[k])
    ensures n < |s| ==> !Plain(s[n])
  {
    if s != [] && Plain(s[0]) then 1 + PlainPrefix(s[1..]) else 0
  }

  /** `/^[^\s@]+@[^\s@]+\.[^\s@]+$/.test(s)`. The first `[^\s@]+` can only stop at
      the `@`; the rest consists of `[^\s@]` characters with a `.` somewhere
      that leaves characters on both sides of it. */
  predicate EmailAccepted(s: string) {
    var n := PlainPrefix(s);
    && 0 < n < |s| && s[n] == '@'
    && (forall k :: n < k < |s| ==> Plain(s[k]))
    && exists j :: n + 1 < j < |s| - 1 && s[j] == '.'
  }

  /** An address in plain words: no whitespace, exactly one `@` with something
      before it, and a `.` after it that is neither the first nor the last
      character of the part after the `@`. */
  ghost predicate EmailShape(s: string) {
    && (forall k :: 0 <= k < |s| ==> !Js.IsSpace(s[k]))
    && exists i :: (0 < i < |s| && s[i] == '@'
      && (forall k :: 0 <= k < |s| && s[k] == '@' ==> k == i)
      && exists j :: i + 1 < j < |s| - 1 && s[j] == '.')
  }

  /** The pattern accepts exactly the addresses of that shape. */
  lemma EmailAcceptedIff(s: string)
    ensures EmailAccepted(s) <==> EmailShape(s)
  {
    var n := PlainPrefix(s);
    if EmailAccepted(s) {
      assert forall k :: 0 <= k < |s| && k != n ==> Plain(s[k]);
      assert forall k :: 0 <= k < |s| ==> !Js.IsSpace(s[k]);
    }
    if EmailShape(s) {
      var i :| (0 < i < |s| && s[i] == '@'
        && (forall k :: 0 <= k < |s| && s[k] == '@' ==> k == i)
        && exists j :: i + 1 < j < |s| - 1 && s[j] == '.');
      assert forall k :: 0 <= k < |s| && k != i ==> Plain(s[k]);
      assert n == i;
    }
  }

  /** The current password is right for the token's `id` claim: that row exists
      and the password matches its hash. A token without an `id` matches no row. */
  predicate PasswordOk(users: seq<User>, id: Option<nat>, password: string, matches: (string, string) -> bool) {
    && id.Some?
    && FindUser(users, id.value).Some?
    && matches(password, users[FindUser(users, id.value).value].password)
  }

  /** `UPDATE users SET password = $1 WHERE id = $2`. */
  function SetPassword(users: seq<User>, id: nat, hashed: string): (r: seq<User>)
    ensures |r| == |users|
    ensures forall i :: 0 <= i < |users| ==>
      r[i] == if users[i].id == id then users[i].(password := hashed) else users[i]
  {
    if users == [] then []
    else [if users[0].id == id then users[0].(password := hashed) else users[0]] + SetPassword(users[1..], id, hashed)
  }

  /** `UPDATE users SET email = $1 WHERE id = $2`. */
  function SetEmail(users: seq<User>, id: nat, email: string): (r: seq<User>)
    ensures |r| == |users|
    ensures forall i :: 0 <= i < |users| ==>
      r[i] == if users[i].id == id then users[i].(email := Some(email)) else users[i]
  {
    if users == [] then []
    else [if users[0].id == id then users[0].(email := Some(email)) else users[0]] + SetEmail(users[1..], id, email)
  }

  /** Changing a password or an email keeps the tables consistent. */
  lemma SetPasswordKeepsConsistent(users: seq<User>, messages: seq<Message>, id: nat, hashed: string,
                                   nextUserId: nat, nextMessageId: nat)
    requires Consistent(users, messages, nextUserId, nextMessageId)
    ensures Consistent(SetPassword(users, id, hashed), messages, nextUserId, nextMessageId)
  {
    SameKeysKeepConsistent(users, SetPassword(users, id, hashed), messages, nextUserId, nextMessageId);
  }

  lemma SetEmailKeepsConsistent(users: seq<User>, messages: seq<Message>, id: nat, email: string,
                                nextUserId: nat, nextMessageId: nat)
    requires Consistent(users, messages, nextUserId, nextMessageId)
    ensures Consistent(SetEmail(users, id, email), messages, nextUserId, nextMessageId)
  {
    SameKeysKeepConsistent(users, SetEmail(users, id, email), messages, nextUserId, nextMessageId);
  }

  /** After a password change the new password is the right one, as long as the
      stored hash matches it. */
  lemma NewPasswordTakesEffect(users: seq<User>, id: nat, newPassword: string, hashed: string,
                               matches: (string, string) -> bool)
    requires FindUser(users, id).Some? && matches(newPassword, hashed)
    ensures PasswordOk(SetPassword(users, id, hashed), Some(id), newPassword, matches)
  {
    var r := SetPassword(users, id, hashed);
    var k := FindUser(users, id).value;
    assert r[k] in r && r[k].id == id;
    var k' := FindUser(r, id).value;
    assert r[k'].id == users[k'].id;
  }

  /** Whether `messages.author_id` still references the user: such a user row
      cannot be deleted, as the foreign key has no `ON DELETE CASCADE`. */
  predicate Authored(messages: seq<Message>, id: nat) {
    exists m :: m in messages && m.authorId == id
  }

  /** `DELETE FROM users WHERE id = $1` on the row at position `k`. */
  function Removed(users: seq<User>, k: nat): (r: seq<User>)
    requires k < |users|
    ensures |r| == |users| - 1
  {
    users[..k] + users[k + 1..]
  }

  /** The rows left after a removal, in their order: the ones before `k` and
      the ones after it. */
  lemma RemovedRows(users: seq<User>, k: nat)
    requires k < |users|
    ensures forall i :: 0 <= i < |users| - 1 ==> Removed(users, k)[i] == users[if i < k then i else i + 1]
  {
  }

  /** With distinct ids, removing the row at `k` removes exactly the rows with its id. */
  lemma RemovedMembers(users: seq<User>, k: nat)
    requires k < |users|
    requires forall i, j :: 0 <= i < j < |users| ==> users[i].id < users[j].id
    ensures forall u :: u in Removed(users, k) <==> u in users && u.id != users[k].id
  {
    var r := Removed(users, k);
    RemovedRows(users, k);
    forall u | u in users && u.id != users[k].id ensures u in r {
      var i :| 0 <= i < |users| && users[i] == u;
      if i < k { assert r[i] == u; } else { assert r[i - 1] == u; }
    }
    forall u | u in r ensures u in users && u.id != users[k].id {
      var i :| 0 <= i < |r| && r[i] == u;
      assert users[if i < k then i else i + 1] == u;
    }
  }

  /** On consistent tables, removing the row of a user with no messages keeps
      the tables consistent. */
  lemma RemovedKeepsConsistent(users: seq<User>, messages: seq<Message>, k: nat, nextUserId: nat, nextMessageId: nat)
    requires Consistent(users, messages, nextUserId, nextMessageId)
    requires k < |users| && !Authored(messages, users[k].id)
    ensures Consistent(Removed(users, k), messages, nextUserId, nextMessageId)
  {
    var r := Removed(users, k);
    RemovedRows(users, k);
    RemovedMembers(users, k);
    forall i, j | 0 <= i < j < |r| ensures r[i].id < r[j].id && r[i].username != r[j].username {
      assert r[i] == users[if i < k then i else i + 1];
      assert r[j] == users[if j < k then j else j + 1];
    }
    forall m | m in messages ensures HasUser(r, m.authorId) {
      var u :| u in users && u.id == m.authorId;
      assert u in r;
    }
  }

  /** PATCH for a verified caller. `hashed` is what `bcrypt.hash` returns for the
      new password and `matches` stands for `bcrypt.compare`. A new password,
      when given, wins over a new email. */
  method UpdateAccount(db: Database, claims: Claims, body: AccountBody, hashed: string, matches: (string, string) -> bool)
    returns (status: nat, reply: AccountReply)
    requires db.Valid()
    modifies db
    ensures db.Valid()
    ensures db.messages == old(db.messages) && db.history == old(db.history)
    ensures db.nextUserId == old(db.nextUserId) && db.nextMessageId == old(db.nextMessageId)
    ensures !Present(body.currentPassword) ==>
      status == 400 && reply == Error("Current password is required") && unchanged(db)
    ensures Present(body.currentPassword) && !PasswordOk(old(db.users), claims.id, body.currentPassword.value, matches) ==>
      status == 401 && reply == Error("Incorrect current password") && unchanged(db)
    ensures Present(body.currentPassword) && PasswordOk(old(db.users), claims.id, body.currentPassword.value, matches) ==>
      && (Present(body.newPassword) && |body.newPassword.value| < 6 ==>
            status == 400 && reply == Error("New password must be at least 6 characters") && unchanged(db))
      && (Present(body.newPassword) && |body.newPassword.value| >= 6 ==>
            && status == 200 && reply == Done("Password updated successfully")
            && db.users == SetPassword(old(db.users), claims.id.value, hashed))
      && (!Present(body.newPassword) && Present(body.newEmail) && !EmailAccepted(body.newEmail.value) ==>
            status == 400 && reply == Error("Invalid email format") && unchanged(db))
      && (!Present(body.newPassword) && Present(body.newEmail) && EmailAccepted(body.newEmail.value) ==>
            && status == 200 && reply == Done("Email updated successfully")
            && db.users == SetEmail(old(db.users), claims.id.value, body.newEmail.value))
      && (!Present(body.newPassword) && !Present(body.newEmail) ==>
            status == 400 && reply == Error("No valid update provided") && unchanged(db))
  {
    if !Present(body.currentPassword) {
      return 400, Error("Current password is required");
    }
    if !PasswordOk(db.users, claims.id, body.currentPassword.value, matches) {
      return 401, Error("Incorrect current password");
    }
    var id := claims.id.value;
    if Present(body.newPassword) {
      if |body.newPassword.value| < 6 {
        return 400, Error("New password must be at least 6 characters");
      }
      SetPasswordKeepsConsistent(db.users, db.messages, id, hashed, db.nextUserId, db.nextMessageId);
      db.users := SetPassword(db.users, id, hashed);
      return 200, Done("Password updated successfully");
    }
    if Present(body.newEmail) {
      if !EmailAccepted(body.newEmail.value) {
        return 400, Error("Invalid email format");
      }
      SetEmailKeepsConsistent(db.users, db.messages, id, body.newEmail.value, db.nextUserId, db.nextMessageId);
      db.users := SetEmail(db.users, id, body.newEmail.value);
      return 200, Done("Email updated successfully");
    }
    return 400, Error("No valid update provided");
  }

  /** DELETE for a verified caller. The statement fails on the foreign key of
      `messages.author_id` when the caller still has messages. */
  method DeleteAccount(db: Database, claims: Claims, body: AccountBody, matches: (string, string) -> bool)
    returns (status: nat, reply: AccountReply)
    requires db.Valid()
    modifies db
    ensures db.Valid()
    ensures db.messages == old(db.messages) && db.history == old(db.history)
    ensures db.nextUserId == old(db.nextUserId) && db.nextMessageId == old(db.nextMessageId)
    ensures !Present(body.currentPassword) ==>
      status == 400 && reply == Error("Current password is required") && unchanged(db)
    ensures Present(body.currentPassword) && !PasswordOk(old(db.users), claims.id, body.currentPassword.value, matches) ==>
      status == 401 && reply == Error("Incorrect current password") && unchanged(db)
    ensures Present(body.currentPassword) && PasswordOk(old(db.users), claims.id, body.currentPassword.value, matches) ==>
      && (Authored(old(db.messages), claims.id.value) ==> status == 500 && reply == ServerError && unchanged(db))
      && (!Authored(old(db.messages), claims.id.value) ==>
            && status == 200 && reply == Done("Account deleted successfully")
            && db.users == Removed(old(db.users), FindUser(old(db.users), claims.id.value).value))
  {
    if !Present(body.currentPassword) {
      return 400, Error("Current password is required");
    }
    if !PasswordOk(db.users, claims.id, body.currentPassword.value, matches) {
      return 401, Error("Incorrect current password");
    }
    var id := claims.id.value;
    if Authored(db.messages, id) {
      return 500, ServerError;
    }
    var k := FindUser(db.users, id).value;
    RemovedKeepsConsistent(db.users, db.messages, k, db.nextUserId, db.nextMessageId);
    db.users := Removed(db.users, k);
    return 200, Done("Account deleted successfully");
  }

  /** The whole handler. The token is verified before the method is looked at,
      and a token the library rejects throws into the catch-all 500. */
  method Handle(db: Database, verb: Verb, authorization: Option<string>, verify: Verifier, body: AccountBody,
                hashed: string, matches: (string, string) -> bool)
    returns (status: nat, reply: AccountReply)
    requires db.Valid()
    modifies db
    ensures db.Valid()
    ensures db.messages == old(db.messages) && db.history == old(db.history)
    ensures Authenticate(authorization, verify).NoToken? ==>
      status == 401 && reply == Error("No token provided") && unchanged(db)
    ensures Authenticate(authorization, verify).InvalidToken? ==> status == 500 && reply == ServerError && unchanged(db)
    ensures Authenticate(authorization, verify).Verified? && verb != Patch && verb != Delete ==>
      status == 405 && reply == Error("Method not allowed") && unchanged(db)
    ensures status == 200 ==> Present(body.currentPassword)
    ensures old(db.users) != db.users ==> status == 200
  {
    var auth := Authenticate(authorization, verify);
    if auth.NoToken? {
      return 401, Error("No token provided");
    }
    if auth.InvalidToken? {
      return 500, ServerError;
    }
    if verb == Patch {
      status, reply := UpdateAccount(db, auth.claims, body, hashed, matches);
    } else if verb == Delete {
      status, reply := DeleteAccount(db, auth.claims, body, matches);
    } else {
      status, reply := 405, Error("Method not allowed");
    }
  }
}
