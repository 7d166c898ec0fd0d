/** The heartbeat endpoint: a POST that marks the caller as active now. */
module Heartbeat {
  import opened Base
  import opened Store
  import Js
  import ClearChat

  datatype BeatReply = NoContent | Success | Error(error: string)

  /** `auth.substring(7)`: everything after the `Bearer ` prefix, spaces included. */
  function PrefixToken(h: string): (t: string)
    requires Js.StartsWith(h, "Bearer ")
    ensures h == "Bearer " + t
  {
    h[7..]
  }

  /** For a header `Bearer <token>` with a token of no spaces, dropping the
      prefix and taking the second space-separated field agree; with anything
      after a further space they differ. */
  lemma TokenReadingsAgree(token: string, rest: string)
    requires ' ' !in token
    ensures PrefixToken("Bearer " + token) == token
    ensures ClearChat.HeaderToken("Bearer " + token) == token
    ensures ClearChat.HeaderToken("Bearer " + token + " " + rest) == token
    ensures PrefixToken("Bearer " + token + " " + rest) == token + " " + rest
  {
    var h := "Bearer " + token;
    assert h[..7] == "Bearer ";
    assert h[7..] == token;
    Js.SplitWithoutSeparator(token, ' ');
    var g := "Bearer " + token + " " + rest;
    assert g[..7] == "Bearer ";
    assert g[7..] == token + [' '] + rest;
    Js.SplitAtFirst(token, ' ', rest);
  }

  /** The handler: only `decoded.userId`'s row gets `last_active` set to now. */
  method Handle(db: Database, verb: Verb, authorization: Option<string>, verify: Verifier, now: int)
    returns (status: nat, reply: BeatReply)
    requires db.Valid()
    modifies db
    ensures db.Valid()
    ensures db.messages == old(db.messages) && db.history == old(db.history)
    ensures db.nextUserId == old(db.nextUserId) && db.nextMessageId == old(db.nextMessageId)
    ensures verb == Options ==> status == 200 && reply == NoContent && unchanged(db)
    ensures verb != Options && verb != Post ==> status == 405 && reply == NoContent && unchanged(db)
    ensures verb == Post && (authorization.None? || !Js.StartsWith(authorization.value, "Bearer ")) ==>
      status == 401 && reply == Error("Unauthorized") && unchanged(db)
    ensures verb == Post && authorization.Some? && Js.StartsWith(authorization.value, "Bearer ") ==>
      var claims := verify(PrefixToken(authorization.value));
      && (claims.None? ==> status == 401 && reply == Error("Invalid token") && unchanged(db))
      && (claims.Some? ==>
            status == 200 && reply == Success && db.users == Touch(old(db.users), claims.value.userId, now))
  {
    if verb == Options {
      return 200, NoContent;
    }
    if verb != Post {
      return 405, NoContent;
    }
    if authorization.None? || !Js.StartsWith(authorization.value, "Bearer ") {
      return 401, Error("Unauthorized");
    }
    var claims := verify(PrefixToken(authorization.value));
    if claims.None? {
      return 401, Error("Invalid token");
    }
    TouchKeepsConsistent(db.users, db.messages, claims.value.userId, now, db.nextUserId, db.nextMessageId);
    db.users := Touch(db.users, claims.value.userId, now);
    return 200, Success;
  }

  /** A heartbeat refreshes the caller's row and leaves every other row as it was. */
  lemma TouchOnlyCaller(users: seq<User>, id: nat, now: int)
    requires forall i, j :: 0 <= i < j < |users| ==> users[i].id < users[j].id
    ensures forall u :: u in users && u.id != id ==> u in Touch(users, Some(id), now)
    ensures forall u :: u in Touch(users, Some(id), now) && u.id == id ==> u.lastActive == Some(now)
    ensures forall u :: u in Touch(users, Some(id), now) ==>
      (u in users || exists v :: v in users && v.id == id && u == v.(lastActive := Some(now)))
  {
    var r := Touch(users, Some(id), now);
    forall u | u in users && u.id != id ensures u in r {
      var i :| 0 <= i < |users| && users[i] == u;
      assert r[i] == u;
    }
    forall u | u in r ensures u in users || exists v :: v in users && v.id == id && u == v.(lastActive := Some(now)) {
      var i :| 0 <= i < |r| && r[i] == u;
      assert users[i] in users;
    }
  }
}
