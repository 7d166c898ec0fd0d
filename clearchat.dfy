/** The clear-chat endpoint: a DELETE meant to remove every message written by
    the user named in the caller's token. As written its query names a column
    the schema lacks (`Handle`); `HandleCorrected` is the handler it means. */
module ClearChat {
  import opened Base
  import opened Store
  import Js

  datatype ClearReply = Cleared(message: string) | Error(error: string)

  /** `authHeader.split(' ')[1]` for a header that starts with `Bearer `: the
      text after the prefix up to the next space, possibly empty. */
  function HeaderToken(h: string): (t: string)
    requires Js.StartsWith(h, "Bearer ")
    ensures t == Js.Split(h[7..], ' ')[0]
    ensures ' ' !in t
  {
    assert h == "Bearer" + [' '] + h[7..];
    Js.SplitAtFirst("Bearer", ' ', h[7..]);
    Js.Split(h, ' ')[1]
  }

  /** The message was written by the user named `name`. The query's `author`
      column is read as the username of the row's author. */
  predicate WrittenBy(users: seq<User>, m: Message, name: Option<string>) {
    name.Some? && UsernameOf(users, m.authorId) == name
  }

  /** `DELETE FROM messages WHERE author = $1`: the messages that remain, in
      their order. A token without a username matches no message. */
  function Remaining(users: seq<User>, messages: seq<Message>, name: Option<string>): (r: seq<Message>)
    ensures |r| <= |messages|
    ensures forall m :: m in r <==> m in messages && !WrittenBy(users, m, name)
    ensures name.None? ==> r == messages
  {
    if messages == [] then []
    else
      assert forall m :: m in messages ==> m == messages[0] || m in messages[1..];
      (if WrittenBy(users, messages[0], name) then [] else [messages[0]]) + Remaining(users, messages[1..], name)
  }

  /** Clearing rows none of which the user wrote removes nothing. */
  lemma {:induction false} RemainingOfOthers(users: seq<User>, messages: seq<Message>, name: Option<string>)
    requires forall m :: m in messages ==> !WrittenBy(users, m, name)
    ensures Remaining(users, messages, name) == messages
  {
    if messages != [] {
      assert messages[0] in messages;
      RemainingOfOthers(users, messages[1..], name);
      assert messages == [messages[0]] + messages[1..];
    }
  }

  /** Clearing a second time removes nothing more. */
  lemma RemainingIdempotent(users: seq<User>, messages: seq<Message>, name: Option<string>)
    ensures Remaining(users, Remaining(users, messages, name), name) == Remaining(users, messages, name)
  {
    RemainingOfOthers(users, Remaining(users, messages, name), name);
  }

  /** Clearing keeps the remaining rows in insertion order: they are a
      subsequence, so ids still increase. */
  lemma {:induction false} RemainingKeepsOrder(users: seq<User>, messages: seq<Message>, name: Option<string>)
    requires IdsIncreasing(messages)
    ensures IdsIncreasing(Remaining(users, messages, name))
  {
    if messages != [] {
      var tail := messages[1..];
      assert IdsIncreasing(tail) by {
        forall i, j | 0 <= i < j < |tail| ensures tail[i].id < tail[j].id {
          assert tail[i] == messages[i + 1] && tail[j] == messages[j + 1];
        }
      }
      RemainingKeepsOrder(users, tail, name);
      var rest := Remaining(users, tail, name);
      forall x | x in rest ensures messages[0].id < x.id {
        var k :| 0 <= k < |tail| && tail[k] == x;
        assert messages[k + 1] == x;
      }
      if !WrittenBy(users, messages[0], name) {
        IncreasingCons(messages[0], rest);
      }
      assert Remaining(users, messages, name) == (if WrittenBy(users, messages[0], name) then [] else [messages[0]]) + rest;
    }
  }

  /** A message with a smaller id than every one of an ascending run can lead it. */
  lemma IncreasingCons(m: Message, rest: seq<Message>)
    requires IdsIncreasing(rest)
    requires forall x :: x in rest ==> m.id < x.id
    ensures IdsIncreasing([m] + rest)
  {
    var all := [m] + rest;
    forall i, j | 0 <= i < j < |all| ensures all[i].id < all[j].id {
      assert all[j] == rest[j - 1];
      if i > 0 {
        assert all[i] == rest[i - 1];
      } else {
        assert all[j] in rest;
      }
    }
  }

  /** A remaining message that replies to a deleted one: the foreign key on
      `parent_message_id` makes the whole statement fail. */
  predicate Orphans(users: seq<User>, messages: seq<Message>, name: Option<string>) {
    exists m, p :: (m in messages && p in messages && !WrittenBy(users, m, name) && WrittenBy(users, p, name)
      && m.parentId == Some(p.id as int))
  }

  /** When no remaining message replies to a deleted one the tables stay consistent. */
  lemma RemainingKeepsConsistent(users: seq<User>, messages: seq<Message>, name: Option<string>,
                                 nextUserId: nat, nextMessageId: nat)
    requires Consistent(users, messages, nextUserId, nextMessageId)
    requires !Orphans(users, messages, name)
    ensures Consistent(users, Remaining(users, messages, name), nextUserId, nextMessageId)
  {
    var r := Remaining(users, messages, name);
    RemainingKeepsOrder(users, messages, name);
    forall m | m in r && m.parentId.Some? ensures HasMessage(r, m.parentId.value) {
      var p :| p in messages && p.id == m.parentId.value;
      assert !WrittenBy(users, p, name) ==> p in r;
    }
  }

  /** The handler as written. The header must start with `Bearer `; the token
      is its second space-separated field; the username is the token's
      `username` claim. The DELETE filters on a column `author` that the
      migrated `messages` table does not have, so the database refuses the
      statement whatever the username, and every verified request is answered
      500 with the tables untouched. */
  method Handle(db: Database, verb: Verb, authorization: Option<string>, verify: Verifier)
    returns (status: nat, reply: ClearReply)
    requires db.Valid()
    modifies db
    ensures db.Valid() && unchanged(db)
    ensures verb != Delete ==> status == 405 && reply == Error("Method not allowed")
    ensures verb == Delete && (authorization.None? || !Js.StartsWith(authorization.value, "Bearer ")) ==>
      status == 401 && reply == Error("Unauthorized")
    ensures verb == Delete && authorization.Some? && Js.StartsWith(authorization.value, "Bearer ") ==>
      var claims := verify(HeaderToken(authorization.value));
      && (claims.None? ==> status == 401 && reply == Error("Invalid token"))
      && (claims.Some? ==> status == 500 && reply == Error("Internal server error"))
  {
    if verb != Delete {
      return 405, Error("Method not allowed");
    }
    if authorization.None? || !Js.StartsWith(authorization.value, "Bearer ") {
      return 401, Error("Unauthorized");
    }
    var claims := verify(HeaderToken(authorization.value));
    if claims.None? {
      return 401, Error("Invalid token");
    }
    // `column "author" does not exist`: the statement fails before any row is read.
    return 500, Error("Internal server error");
  }

  /** The handler with the filter the query evidently means, on the author's
      username (`Remaining`). A remaining reply to a deleted message makes the
      foreign key refuse the statement. */
  method HandleCorrected(db: Database, verb: Verb, authorization: Option<string>, verify: Verifier)
    returns (status: nat, reply: ClearReply)
    requires db.Valid()
    modifies db
    ensures db.Valid()
    ensures db.users == old(db.users) && db.history == old(db.history)
    ensures db.nextUserId == old(db.nextUserId) && db.nextMessageId == old(db.nextMessageId)
    ensures verb != Delete ==> status == 405 && reply == Error("Method not allowed") && unchanged(db)
    ensures verb == Delete && (authorization.None? || !Js.StartsWith(authorization.value, "Bearer ")) ==>
      status == 401 && reply == Error("Unauthorized") && unchanged(db)
    ensures verb == Delete && authorization.Some? && Js.StartsWith(authorization.value, "Bearer ") ==>
      var claims := verify(HeaderToken(authorization.value));
      && (claims.None? ==> status == 401 && reply == Error("Invalid token") && unchanged(db))
      && (claims.Some? && Orphans(old(db.users), old(db.messages), claims.value.username) ==>
            status == 500 && reply == Error("Internal server error") && unchanged(db))
      && (claims.Some? && !Orphans(old(db.users), old(db.messages), claims.value.username) ==>
            && status == 200 && reply == Cleared("Chat cleared successfully")
            && db.messages == Remaining(old(db.users), old(db.messages), claims.value.username))
  {
    if verb != Delete {
      return 405, Error("Method not allowed");
    }
    if authorization.None? || !Js.StartsWith(authorization.value, "Bearer ") {
      return 401, Error("Unauthorized");
    }
    var claims := verify(HeaderToken(authorization.value));
    if claims.None? {
      return 401, Error("Invalid token");
    }
    var name := claims.value.username;
    if Orphans(db.users, db.messages, name) {
      return 500, Error("Internal server error");
    }
    RemainingKeepsConsistent(db.users, db.messages, name, db.nextUserId, db.nextMessageId);
    db.messages := Remaining(db.users, db.messages, name);
    return 200, Cleared("Chat cleared successfully");
  }
}
