/** The messages endpoint: GET lists every message with its author and edit
    history, POST creates a message, PATCH edits one. POST and PATCH sit behind
    the token check; every other method is refused with 405. */
module Messages {
  import opened Base
  import opened Store
  import Sorting

  /** The JSON body fields the handler reads. */
  datatype MessageBody = MessageBody(text: Option<string>, parentMessageId: Option<int>)

  datatype Reply = Rows(rows: seq<Hydrated>) | Row(row: Hydrated) | Failure(error: string)

  function CreatedAt(h: Hydrated): int {
    h.message.createdAt
  }

  /** The inner join of messages with their authors, each row completed with its
      edit history. A message whose author row is missing has no row. */
  function Joined(users: seq<User>, messages: seq<Message>, history: seq<EditEntry>): (rows: seq<Hydrated>)
    ensures forall r :: r in rows ==>
      && r.message in messages
      && UsernameOf(users, r.message.authorId) == Some(r.author)
      && r.editHistory == HistoryOf(history, r.message.id)
    ensures forall m :: m in messages && HasUser(users, m.authorId) ==>
      exists r :: r in rows && r.message == m
    ensures (forall m :: m in messages ==> HasUser(users, m.authorId)) ==> |rows| == |messages|
  {
    if messages == [] then []
    else
      var m := messages[0];
      var rest := Joined(users, messages[1..], history);
      assert forall x :: x in messages ==> x == m || x in messages[1..];
      match UsernameOf(users, m.authorId)
      case None => rest
      case Some(name) => [Hydrated(m, name, HistoryOf(history, m.id))] + rest
  }

  /** The GET query: the joined rows ordered by `created_at`. */
  function Listing(users: seq<User>, messages: seq<Message>, history: seq<EditEntry>): (rows: seq<Hydrated>)
    ensures Sorting.SortedBy(rows, CreatedAt)
    ensures multiset(rows) == multiset(Joined(users, messages, history))
  {
    Sorting.SortBy(Joined(users, messages, history), CreatedAt)
  }

  /** On consistent tables GET returns one row per message, carrying the
      message, its author's username and its history, and nothing else. */
  lemma {:induction false} ListingIsComplete(users: seq<User>, messages: seq<Message>, history: seq<EditEntry>,
                                             nextUserId: nat, nextMessageId: nat)
    requires Consistent(users, messages, nextUserId, nextMessageId)
    ensures |Listing(users, messages, history)| == |messages|
    ensures forall m :: m in messages ==>
      exists r :: (r in Listing(users, messages, history) && r.message == m
        && UsernameOf(users, m.authorId) == Some(r.author) && r.editHistory == HistoryOf(history, m.id))
    ensures forall r :: r in Listing(users, messages, history) ==> r.message in messages
  {
    var j := Joined(users, messages, history);
    var l := Listing(users, messages, history);
    assert |l| == |multiset(l)| == |multiset(j)| == |j|;
    forall r | r in l ensures r in j {
      assert r in multiset(l);
    }
    forall m | m in messages
      ensures exists r :: (r in l && r.message == m
        && UsernameOf(users, m.authorId) == Some(r.author) && r.editHistory == HistoryOf(history, m.id))
    {
      var r :| r in j && r.message == m;
      assert r in multiset(j);
      assert r in l;
    }
  }

  /** `parent_message_id || null`: an absent or zero parent is stored as NULL. */
  function ParentColumn(p: Option<int>): (q: Option<int>)
    ensures q.Some? <==> p.Some? && p.value != 0
    ensures q.Some? ==> q == p
  {
    if p.Some? && p.value != 0 then p else None
  }

  /** Whether the INSERT of a new message satisfies the table's constraints:
      `author_id` is NOT NULL and references a user, and a parent references a
      message. The token's `id` claim is what the handler passes as author. */
  predicate Insertable(users: seq<User>, messages: seq<Message>, claims: Claims, parent: Option<int>) {
    && claims.id.Some?
    && HasUser(users, claims.id.value)
    && (parent.Some? ==> HasMessage(messages, parent.value))
  }

  /** POST: create a message from a verified caller. */
  method Create(db: Database, claims: Claims, body: MessageBody, now: int) returns (status: nat, reply: Reply)
    requires db.Valid()
    modifies db
    ensures db.Valid()
    ensures db.users == old(db.users) && db.history == old(db.history) && db.nextUserId == old(db.nextUserId)
    ensures !Present(body.text) ==> status == 400 && reply == Failure("Text is required") && unchanged(db)
    ensures Present(body.text) && !Insertable(old(db.users), old(db.messages), claims, ParentColumn(body.parentMessageId)) ==>
      && status == 500 && reply == Failure("Server error")
      && db.messages == old(db.messages) && db.nextMessageId == old(db.nextMessageId) + 1
    ensures Present(body.text) && Insertable(old(db.users), old(db.messages), claims, ParentColumn(body.parentMessageId)) ==>
      var m := Message(old(db.nextMessageId), claims.id.value, body.text.value, now, None, ParentColumn(body.parentMessageId));
      && status == 201
      && db.messages == old(db.messages) + [m]
      && db.nextMessageId == old(db.nextMessageId) + 1
      && UsernameOf(db.users, claims.id.value).Some?
      && reply == Row(Hydrated(m, UsernameOf(db.users, claims.id.value).value, []))
  {
    if !Present(body.text) {
      return 400, Failure("Text is required");
    }
    var parent := ParentColumn(body.parentMessageId);
    var id := db.nextMessageId;
    // The serial sequence hands out a value even when the INSERT then fails.
    db.nextMessageId := db.nextMessageId + 1;
    if !Insertable(db.users, db.messages, claims, parent) {
      return 500, Failure("Server error");
    }
    var m := Message(id, claims.id.value, body.text.value, now, None, parent);
    AppendKeepsConsistent(db.users, db.messages, m, db.nextUserId, id);
    db.messages := db.messages + [m];
    var author := UsernameOf(db.users, claims.id.value).value;
    status, reply := 201, Row(Hydrated(m, author, []));
  }

  /** The first write of an edit: archive the message's current text. */
  function Archive(history: seq<EditEntry>, m: Message, now: int): seq<EditEntry> {
    history + [EditEntry(m.id, m.text, now)]
  }

  /** The second write of an edit: overwrite the text and `last_edited_at`. */
  function Update(messages: seq<Message>, k: nat, text: string, now: int): (r: seq<Message>)
    requires k < |messages|
    ensures |r| == |messages|
  {
    messages[k := messages[k].(text := text, lastEditedAt := Some(now))]
  }

  /** Archiving adds exactly one history item, holding the pre-edit text, to the
      edited message and none to any other message. */
  lemma ArchiveAddsOneItem(history: seq<EditEntry>, m: Message, now: int, id: nat)
    ensures id == m.id ==> HistoryOf(Archive(history, m, now), id) == HistoryOf(history, id) + [HistoryItem(m.text, now)]
    ensures id != m.id ==> HistoryOf(Archive(history, m, now), id) == HistoryOf(history, id)
  {
    HistoryOfAppend(history, EditEntry(m.id, m.text, now), id);
  }

  /** An update changes nothing but the edited row's text and edit time: ids,
      authors, creation times and parents all stay, so the constraints hold. */
  lemma UpdateKeepsRows(users: seq<User>, messages: seq<Message>, k: nat, text: string, now: int,
                        nextUserId: nat, nextMessageId: nat)
    requires k < |messages|
    requires Consistent(users, messages, nextUserId, nextMessageId)
    ensures Consistent(users, Update(messages, k, text, now), nextUserId, nextMessageId)
    ensures forall i :: 0 <= i < |messages| && i != k ==> Update(messages, k, text, now)[i] == messages[i]
    ensures var e := Update(messages, k, text, now)[k];
      e.id == messages[k].id && e.authorId == messages[k].authorId && e.createdAt == messages[k].createdAt
      && e.parentId == messages[k].parentId && e.text == text && e.lastEditedAt == Some(now)
  {
    var r := Update(messages, k, text, now);
    forall m | m in r ensures HasUser(users, m.authorId) && (m.parentId.Some? ==> HasMessage(r, m.parentId.value)) {
      var i :| 0 <= i < |r| && r[i] == m;
      assert messages[i] in messages;
      if m.parentId.Some? {
        var p :| p in messages && p.id == m.parentId.value;
        var j :| 0 <= j < |messages| && messages[j] == p;
        assert r[j].id == p.id;
      }
    }
    forall m | m in r ensures 0 < m.id < nextMessageId {
      var i :| 0 <= i < |r| && r[i] == m;
      assert messages[i] in messages;
    }
  }

  /** Two successive edits of one message leave two more items in its history:
      the original text, stamped with the first edit's time, and the first edit's
      text, stamped with the second's; the message then holds the second text. */
  lemma {:induction false} TwoEditsKeepBothTexts(messages: seq<Message>, history: seq<EditEntry>, k: nat,
                                                 first: string, second: string, t1: int, t2: int)
    requires k < |messages|
    ensures
      var id := messages[k].id;
      var h1 := Archive(history, messages[k], t1);
      var m1 := Update(messages, k, first, t1);
      var h2 := Archive(h1, m1[k], t2);
      var m2 := Update(m1, k, second, t2);
      && HistoryOf(h2, id) == HistoryOf(history, id) + [HistoryItem(messages[k].text, t1), HistoryItem(first, t2)]
      && |HistoryOf(h2, id)| == |HistoryOf(history, id)| + 2
      && m2[k].text == second && m2[k].lastEditedAt == Some(t2)
  {
    var id := messages[k].id;
    var h1 := Archive(history, messages[k], t1);
    var m1 := Update(messages, k, first, t1);
    ArchiveAddsOneItem(history, messages[k], t1, id);
    ArchiveAddsOneItem(h1, m1[k], t2, id);
  }

  /** PATCH: edit the message `id` on behalf of a verified caller. The archive
      and the update are two statements with no transaction around them:
      `updateFault` stands for the second one failing, which leaves the archived
      entry in place. */
  method Edit(db: Database, claims: Claims, id: PathId, text: Option<string>, now: int, updateFault: bool)
    returns (status: nat, reply: Reply)
    requires db.Valid()
    modifies db
    ensures db.Valid()
    ensures db.users == old(db.users) && db.nextUserId == old(db.nextUserId) && db.nextMessageId == old(db.nextMessageId)
    ensures id.NoId? ==> status == 400 && reply == Failure("Message ID is required") && unchanged(db)
    ensures !id.NoId? && !Present(text) ==> status == 400 && reply == Failure("Text is required") && unchanged(db)
    ensures id.NotInteger? && Present(text) ==> status == 500 && reply == Failure("Server error") && unchanged(db)
    ensures id.IntegerId? && Present(text) && !HasMessage(old(db.messages), id.value) ==>
      status == 404 && reply == Failure("Message not found") && unchanged(db)
    ensures id.IntegerId? && Present(text) && FindMessage(old(db.messages), id.value).Some? ==>
      var k := FindMessage(old(db.messages), id.value).value;
      var m := old(db.messages)[k];
      && (claims.id != Some(m.authorId) ==>
            status == 403 && reply == Failure("Unauthorized to edit this message") && unchanged(db))
      && (claims.id == Some(m.authorId) ==>
            && db.history == Archive(old(db.history), m, now)
            && (updateFault ==> status == 500 && reply == Failure("Server error") && db.messages == old(db.messages))
            && (!updateFault ==>
                  && status == 200
                  && db.messages == Update(old(db.messages), k, text.value, now)
                  && UsernameOf(db.users, m.authorId).Some?
                  && reply == Row(Hydrated(db.messages[k], UsernameOf(db.users, m.authorId).value,
                                           HistoryOf(db.history, m.id)))))
  {
    if id.NoId? {
      return 400, Failure("Message ID is required");
    }
    if !Present(text) {
      return 400, Failure("Text is required");
    }
    if id.NotInteger? {
      // The row lookup throws, and the catch answers 500.
      return 500, Failure("Server error");
    }
    var found := FindMessage(db.messages, id.value);
    if found.None? {
      return 404, Failure("Message not found");
    }
    var k := found.value;
    var m := db.messages[k];
    if claims.id != Some(m.authorId) {
      return 403, Failure("Unauthorized to edit this message");
    }
    db.history := Archive(db.history, m, now);
    if updateFault {
      return 500, Failure("Server error");
    }
    UpdateKeepsRows(db.users, db.messages, k, text.value, now, db.nextUserId, db.nextMessageId);
    db.messages := Update(db.messages, k, text.value, now);
    assert db.messages[k].authorId == m.authorId;
    var author := UsernameOf(db.users, m.authorId).value;
    status, reply := 200, Row(Hydrated(db.messages[k], author, HistoryOf(db.history, m.id)));
  }

  /** The whole handler: the token check for POST and PATCH, then the method. */
  method Handle(db: Database, verb: Verb, authorization: Option<string>, verify: Verifier,
                body: MessageBody, idParam: PathId, now: int, updateFault: bool)
    returns (status: nat, reply: Reply)
    requires db.Valid()
    modifies db
    ensures db.Valid()
    ensures (verb == Post || verb == Patch) && !Authenticate(authorization, verify).Verified? ==>
      && status == 401 && reply == Failure(AuthError(Authenticate(authorization, verify)))
      && unchanged(db)
    ensures verb == Get ==>
      status == 200 && reply == Rows(Listing(db.users, db.messages, db.history)) && unchanged(db)
    ensures verb !in {Get, Post, Patch} ==> status == 405 && reply == Failure("Method not allowed") && unchanged(db)
    ensures status == 201 ==> verb == Post && |db.messages| == |old(db.messages)| + 1
    ensures status in {400, 403, 404} ==> unchanged(db)
  {
    var claims := Claims(None, None, None);
    if verb == Post || verb == Patch {
      var auth := Authenticate(authorization, verify);
      if !auth.Verified? {
        return 401, Failure(AuthError(auth));
      }
      claims := auth.claims;
    }
    if verb == Get {
      status, reply := 200, Rows(Listing(db.users, db.messages, db.history));
    } else if verb == Post {
      status, reply := Create(db, claims, body, now);
    } else if verb == Patch {
      status, reply := Edit(db, claims, idParam, body.text, now, updateFault);
    } else {
      status, reply := 405, Failure("Method not allowed");
    }
  }
}
