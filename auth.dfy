/** The registration and login endpoint: a POST whose JSON body names an
    `action` (`register` or `login`), a `username` and a `password`, answered
    with a signed token and the user's id and name. */
module Authentication {
  import opened Base
  import opened Store

  /** The three body fields the handler reads. */
  datatype AuthBody = AuthBody(action: Option<string>, username: Option<string>, password: Option<string>)

  /** The request body as read from the stream: nothing at all, text that is not
      JSON, or a JSON object. */
  datatype RawBody = Empty | Malformed | Json(fields: AuthBody)

  datatype AuthReply = NoContent | Error(error: string) | Session(token: string, id: nat, username: string)

  /** The lengths registration demands: a username of at least 3 characters and
      a password of at least 6. */
  predicate LengthsOk(username: string, password: string) {
    |username| >= 3 && |password| >= 6
  }

  /** All three fields are present and non-empty. */
  predicate Complete(f: AuthBody) {
    Present(f.action) && Present(f.username) && Present(f.password)
  }

  /** The row a login authenticates as: the row with that username, provided the
      password matches its stored hash. With unique usernames there is one only
      when some row has the name and a matching hash. */
  function LoginRow(users: seq<User>, username: string, password: string, matches: (string, string) -> bool): (k: Option<nat>)
    ensures k.Some? ==> k.value < |users| && users[k.value].username == username && matches(password, users[k.value].password)
    ensures (forall i, j :: 0 <= i < j < |users| ==> users[i].username != users[j].username) ==>
      (k.None? <==> forall i :: 0 <= i < |users| && users[i].username == username ==> !matches(password, users[i].password))
  {
    match FindUserByName(users, username)
    case None =>
      assert forall i :: 0 <= i < |users| ==> users[i] in users;
      None
    case Some(k) => if matches(password, users[k].password) then Some(k) else None
  }

  /** The users table after registering `username`: the new row takes the next
      serial id and the hashed password, and `last_active` is then set on it. */
  function Registered(users: seq<User>, id: nat, username: string, hashed: string, now: int): seq<User> {
    Touch(users + [User(id, username, hashed, None, None)], Some(id), now)
  }

  /** A user who has just registered can log in with the same password, as
      long as the stored hash matches it; the login finds the new row. */
  lemma RegisteredCanLogIn(users: seq<User>, nextUserId: nat,
                           username: string, password: string, hashed: string, now: int, matches: (string, string) -> bool)
    requires forall v :: v in users ==> v.id < nextUserId
    requires forall v :: v in users ==> v.username != username
    requires matches(password, hashed)
    ensures LoginRow(Registered(users, nextUserId, username, hashed, now), username, password, matches) == Some(|users|)
    ensures Registered(users, nextUserId, username, hashed, now)[|users|].id == nextUserId
  {
    var u := User(nextUserId, username, hashed, None, None);
    TouchNewest(users, u, now);
    var r := Registered(users, nextUserId, username, hashed, now);
    FindUserByNameAppended(users, u.(lastActive := Some(now)));
  }

  /** Registration of a caller whose three fields are all present. */
  method Register(db: Database, username: string, password: string, hashed: string, sign: Claims -> string, now: int)
    returns (status: nat, reply: AuthReply)
    requires db.Valid()
    modifies db
    ensures db.Valid()
    ensures db.messages == old(db.messages) && db.history == old(db.history) && db.nextMessageId == old(db.nextMessageId)
    ensures !LengthsOk(username, password) ==>
      status == 400 && reply == Error("Invalid username or password length") && unchanged(db)
    ensures LengthsOk(username, password) && FindUserByName(old(db.users), username).Some? ==>
      status == 400 && reply == Error("Username already taken") && unchanged(db)
    ensures LengthsOk(username, password) && FindUserByName(old(db.users), username).None? ==>
      && status == 201
      && db.users == old(db.users) + [User(old(db.nextUserId), username, hashed, None, Some(now))]
      && db.users == Registered(old(db.users), old(db.nextUserId), username, hashed, now)
      && db.nextUserId == old(db.nextUserId) + 1
      && reply == Session(sign(IssuedClaims(old(db.nextUserId))), old(db.nextUserId), username)
  {
    if !LengthsOk(username, password) {
      return 400, Error("Invalid username or password length");
    }
    if FindUserByName(db.users, username).Some? {
      return 400, Error("Username already taken");
    }
    var id := db.nextUserId;
    var row := User(id, username, hashed, None, None);
    AddUserKeepsConsistent(db.users, db.messages, row, id, db.nextMessageId);
    db.users, db.nextUserId := db.users + [row], id + 1;
    var token := sign(IssuedClaims(id));
    TouchKeepsConsistent(db.users, db.messages, Some(id), now, db.nextUserId, db.nextMessageId);
    TouchNewest(old(db.users), row, now);
    db.users := Touch(db.users, Some(id), now);
    status, reply := 201, Session(token, id, username);
  }

  /** Login of a caller whose three fields are all present. An unknown username
      and a wrong password get the same answer. */
  method LogIn(db: Database, username: string, password: string, matches: (string, string) -> bool,
               sign: Claims -> string, now: int)
    returns (status: nat, reply: AuthReply)
    requires db.Valid()
    modifies db
    ensures db.Valid()
    ensures db.messages == old(db.messages) && db.history == old(db.history)
    ensures db.nextMessageId == old(db.nextMessageId) && db.nextUserId == old(db.nextUserId)
    ensures LoginRow(old(db.users), username, password, matches).None? ==>
      status == 401 && reply == Error("Invalid username or password") && unchanged(db)
    ensures LoginRow(old(db.users), username, password, matches).Some? ==>
      var id := old(db.users)[LoginRow(old(db.users), username, password, matches).value].id;
      && status == 200
      && db.users == Touch(old(db.users), Some(id), now)
      && reply == Session(sign(IssuedClaims(id)), id, username)
  {
    var found := LoginRow(db.users, username, password, matches);
    if found.None? {
      return 401, Error("Invalid username or password");
    }
    var id := db.users[found.value].id;
    var token := sign(IssuedClaims(id));
    TouchKeepsConsistent(db.users, db.messages, Some(id), now, db.nextUserId, db.nextMessageId);
    db.users := Touch(db.users, Some(id), now);
    status, reply := 200, Session(token, id, username);
  }

  /** The handler. `hashed` is what `bcrypt.hash` returns for the given password,
      `matches` stands for `bcrypt.compare` and `sign` for `jwt.sign`. */
  method Handle(db: Database, verb: Verb, raw: RawBody, hashed: string, matches: (string, string) -> bool,
                sign: Claims -> string, now: int)
    returns (status: nat, reply: AuthReply)
    requires db.Valid()
    modifies db
    ensures db.Valid()
    ensures db.messages == old(db.messages) && db.history == old(db.history) && db.nextMessageId == old(db.nextMessageId)
    ensures verb == Options ==> status == 200 && reply == NoContent && unchanged(db)
    ensures verb != Options && verb != Post ==> status == 405 && reply == NoContent && unchanged(db)
    ensures verb == Post && raw.Malformed? ==> status == 400 && reply == NoContent && unchanged(db)
    ensures verb == Post && (raw.Empty? || (raw.Json? && !Complete(raw.fields))) ==>
      status == 400 && reply == Error("Missing fields") && unchanged(db)
    ensures verb == Post && raw.Json? && Complete(raw.fields) && raw.fields.action.value !in {"register", "login"} ==>
      status == 400 && reply == Error("Invalid action") && unchanged(db)
    ensures verb == Post && raw.Json? && Complete(raw.fields) && raw.fields.action == Some("register") ==>
      var u, p := raw.fields.username.value, raw.fields.password.value;
      && (!LengthsOk(u, p) ==> status == 400 && reply == Error("Invalid username or password length") && unchanged(db))
      && (LengthsOk(u, p) && FindUserByName(old(db.users), u).Some? ==>
            status == 400 && reply == Error("Username already taken") && unchanged(db))
      && (LengthsOk(u, p) && FindUserByName(old(db.users), u).None? ==>
            status == 201 && db.users == Registered(old(db.users), old(db.nextUserId), u, hashed, now))
    ensures verb == Post && raw.Json? && Complete(raw.fields) && raw.fields.action == Some("login") ==>
      var u, p := raw.fields.username.value, raw.fields.password.value;
      && (LoginRow(old(db.users), u, p, matches).None? ==>
            status == 401 && reply == Error("Invalid username or password") && unchanged(db))
      && (LoginRow(old(db.users), u, p, matches).Some? ==>
            status == 200 && db.users == Touch(old(db.users), Some(old(db.users)[LoginRow(old(db.users), u, p, matches).value].id), now))
    ensures status == 201 ==> verb == Post && raw.Json? && raw.fields.action == Some("register")
    ensures status == 200 && verb != Options ==> verb == Post && raw.Json? && raw.fields.action == Some("login")
  {
    if verb == Options {
      return 200, NoContent;
    }
    if verb != Post {
      return 405, NoContent;
    }
    if raw.Malformed? {
      return 400, NoContent;
    }
    var f := if raw.Empty? then AuthBody(None, None, None) else raw.fields;
    if !Complete(f) {
      return 400, Error("Missing fields");
    }
    var action, username, password := f.action.value, f.username.value, f.password.value;
    if action == "register" {
      status, reply := Register(db, username, password, hashed, sign, now);
    } else if action == "login" {
      status, reply := LogIn(db, username, password, matches, sign, now);
    } else {
      status, reply := 400, Error("Invalid action");
    }
  }
}
