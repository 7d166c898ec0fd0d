/** How the browser and the server fit together: the client mirror fed by the
    stream's ticks, reconnection at the client's cursor, the client checks
    against the server's, and what the tokens the server issues let a client do. */
module Protocol {
  import opened Base
  import opened Store
  import Js
  import Sse
  import Client
  import Messages
  import Authentication
  import Account
  import ClearChat
  import Settings

  /** The chat items the client appends for a run of stream events. */
  function Items(evs: seq<Sse.Event>): (items: seq<Client.ChatItem>)
    ensures |items| == |evs| && forall i :: 0 <= i < |evs| ==> items[i] == Client.FromEvent(evs[i])
  {
    if evs == [] then [] else [Client.FromEvent(evs[0])] + Items(evs[1..])
  }

  lemma ItemsAppend(evs: seq<Sse.Event>, ev: Sse.Event)
    ensures Items(evs + [ev]) == Items(evs) + [Client.FromEvent(ev)]
  {
  }

  /** The mirror after `onmessage` has handled each event in turn. */
  function ReceiveAll(m: Client.Mirror, evs: seq<Sse.Event>): Client.Mirror
    decreases |evs|
  {
    if evs == [] then m else Client.Receive(ReceiveAll(m, evs[..|evs| - 1]), evs[|evs| - 1])
  }

  ghost predicate Ascending(evs: seq<Sse.Event>) {
    forall i, j :: 0 <= i < j < |evs| ==> evs[i].id < evs[j].id
  }

  /** The mirror holds the starting items followed by the events, and its
      cursor is the last event's id. */
  ghost predicate AllAppended(m: Client.Mirror, now: Client.Mirror, evs: seq<Sse.Event>) {
    && now.items == m.items + Items(evs)
    && now.lastId == if evs == [] then m.lastId else evs[|evs| - 1].id
  }

  lemma ReceiveOneMore(m: Client.Mirror, before: Client.Mirror, evs: seq<Sse.Event>, ev: Sse.Event)
    requires AllAppended(m, before, evs) && ev.id > before.lastId
    ensures AllAppended(m, Client.Receive(before, ev), evs + [ev])
  {
    ItemsAppend(evs, ev);
  }

  /** Events in ascending id order, all above the cursor, are each appended
      once, in order, and the cursor ends at the last of them. */
  lemma ReceiveAscending(m: Client.Mirror, evs: seq<Sse.Event>)
    requires Ascending(evs)
    requires forall i :: 0 <= i < |evs| ==> evs[i].id > m.lastId
    ensures ReceiveAll(m, evs).items == m.items + Items(evs)
    ensures ReceiveAll(m, evs).lastId == if evs == [] then m.lastId else evs[|evs| - 1].id
  {
    ReceiveAllAppended(m, evs);
  }

  lemma {:induction false} ReceiveAllAppended(m: Client.Mirror, evs: seq<Sse.Event>)
    requires Ascending(evs)
    requires forall i :: 0 <= i < |evs| ==> evs[i].id > m.lastId
    ensures AllAppended(m, ReceiveAll(m, evs), evs)
    decreases |evs|
  {
    if evs != [] {
      var n := |evs| - 1;
      var init, ev := evs[..n], evs[n];
      assert evs == init + [ev];
      AscendingLast(init, ev, m.lastId);
      ReceiveAllAppended(m, init);
      ReceiveOneMore(m, ReceiveAll(m, init), init, ev);
    }
  }

  /** Events at or below the cursor change nothing: a stream that restarts at an
      older cursor, as an automatic reconnect does, adds no duplicate. */
  lemma {:induction false} ReplayIgnored(m: Client.Mirror, evs: seq<Sse.Event>)
    requires forall i :: 0 <= i < |evs| ==> evs[i].id <= m.lastId
    ensures ReceiveAll(m, evs) == m
    decreases |evs|
  {
    if evs != [] {
      ReplayIgnored(m, evs[..|evs| - 1]);
    }
  }

  /** Receiving the same ascending run twice leaves the mirror as receiving it once. */
  lemma ReceiveTwiceIsOnce(m: Client.Mirror, evs: seq<Sse.Event>)
    requires Ascending(evs)
    requires forall i :: 0 <= i < |evs| ==> evs[i].id > m.lastId
    ensures ReceiveAll(ReceiveAll(m, evs), evs) == ReceiveAll(m, evs)
  {
    ReceiveAscending(m, evs);
    ReplayIgnored(ReceiveAll(m, evs), evs);
  }

  /** Events carrying the ids of rows in ascending id order, all above the
      cursor, are ascending and above the cursor, and the last of them carries
      the id the cursor advances to. */
  lemma EventsOfRows(evs: seq<Sse.Event>, d: seq<Message>, cursor: int)
    requires Sse.EventIds(evs) == Sse.Ids(d)
    requires IdsIncreasing(d)
    requires forall m :: m in d ==> m.id > cursor
    ensures Ascending(evs)
    ensures forall i :: 0 <= i < |evs| ==> evs[i].id > cursor
    ensures Sse.Advance(cursor, d) == if evs == [] then cursor else evs[|evs| - 1].id
  {
    assert |evs| == |d|;
    forall i | 0 <= i < |evs| ensures evs[i].id == d[i].id && evs[i].id > cursor {
      assert Sse.EventIds(evs)[i] == Sse.Ids(d)[i];
      assert d[i] in d;
    }
    forall i, j | 0 <= i < j < |evs| ensures evs[i].id < evs[j].id {
      assert d[i].id < d[j].id;
    }
  }

  /** The events of one tick are in ascending id order, all above the cursor,
      and the last of them carries the id the cursor advances to. */
  lemma TickEvents(users: seq<User>, messages: seq<Message>, cursor: int, userId: Option<nat>)
    requires IdsIncreasing(messages)
    requires forall x :: x in messages ==> HasUser(users, x.authorId)
    ensures var d := Sse.Delta(messages, cursor, userId);
      var evs := Sse.Rows(users, d);
      && Ascending(evs)
      && (forall i :: 0 <= i < |evs| ==> evs[i].id > cursor)
      && Sse.Advance(cursor, d) == if evs == [] then cursor else evs[|evs| - 1].id
  {
    var d := Sse.Delta(messages, cursor, userId);
    Sse.DeltaMembers(messages, cursor, userId);
    Sse.DeltaIncreasing(messages, cursor, userId);
    forall x | x in d ensures HasUser(users, x.authorId) && x.id > cursor {
      assert x in messages && Sse.Foreign(x, cursor, userId);
    }
    Sse.RowsKeepIds(users, d);
    EventsOfRows(Sse.Rows(users, d), d, cursor);
  }

  /** One tick seen from both ends: when the client's cursor is the
      connection's, the client appends exactly the tick's events, in order, and
      its cursor moves where the connection's does. */
  lemma TickReachesMirror(users: seq<User>, messages: seq<Message>, userId: Option<nat>, m: Client.Mirror)
    requires IdsIncreasing(messages)
    requires forall x :: x in messages ==> HasUser(users, x.authorId)
    ensures var d := Sse.Delta(messages, m.lastId, userId);
      && ReceiveAll(m, Sse.Rows(users, d)).items == m.items + Items(Sse.Rows(users, d))
      && ReceiveAll(m, Sse.Rows(users, d)).lastId == Sse.Advance(m.lastId, d)
  {
    TickEvents(users, messages, m.lastId, userId);
    ReceiveAscending(m, Sse.Rows(users, Sse.Delta(messages, m.lastId, userId)));
  }

  /** A client that (re)connects after any history subscribes at its cursor,
      and the server's stream starts from exactly that cursor; after logout the
      cursor is 0, and so is the server's. */
  lemma ReconnectResumesAtCursor(chatState: Client.Mirror, token: Option<string>)
    ensures Sse.SinceId(Some(Client.Subscription(Client.TokenParam(token), Js.NatToString(chatState.lastId)).sinceId))
      == chatState.lastId
    ensures Sse.SinceId(Some(Js.NatToString(0))) == 0
  {
    Sse.SinceIdOfCursor(chatState.lastId);
    Sse.SinceIdOfCursor(0);
  }

  /** A registration the client lets through passes the server's field and
      length checks with the trimmed values it sends. */
  lemma RegisterCheckMeetsServer(username: string, password: string)
    requires Client.RegisterCheck(username, password) == Client.Proceed
    ensures Authentication.Complete(Authentication.AuthBody(Some("register"), Some(Js.Trim(username)), Some(Js.Trim(password))))
    ensures Authentication.LengthsOk(Js.Trim(username), Js.Trim(password))
  {
  }

  /** A token as login and registration issue it carries only `userId`, while
      the message, account and clear-chat handlers read `id` or `username`: with
      such a token a POST never satisfies the NOT NULL author, an edit never
      comes from the author, no current password is ever right, and clearing
      the chat deletes nothing. The stream and the heartbeat read `userId`. */
  lemma IssuedTokenClaims(users: seq<User>, messages: seq<Message>, userId: nat, parent: Option<int>,
                          password: string, matches: (string, string) -> bool)
    ensures !Messages.Insertable(users, messages, IssuedClaims(userId), parent)
    ensures forall m :: m in messages ==> IssuedClaims(userId).id != Some(m.authorId)
    ensures !Account.PasswordOk(users, IssuedClaims(userId).id, password, matches)
    ensures ClearChat.Remaining(users, messages, IssuedClaims(userId).username) == messages
    ensures IssuedClaims(userId).userId == Some(userId)
  {
  }

  /** One thing that happens to the client mirror: a stream event, or a
      successful send of the user's own message. */
  datatype Step = Deliver(ev: Sse.Event) | Send(row: Hydrated)

  /** The stream events among the steps, in order. */
  function Delivered(steps: seq<Step>): (evs: seq<Sse.Event>)
    ensures |evs| <= |steps|
    decreases |steps|
  {
    if steps == [] then []
    else
      var init := Delivered(steps[..|steps| - 1]);
      match steps[|steps| - 1]
      case Deliver(ev) => init + [ev]
      case Send(_) => init
  }

  /** The items written by someone else, in order. */
  function Others(items: seq<Client.ChatItem>): seq<Client.ChatItem>
    decreases |items|
  {
    if items == [] then []
    else Others(items[..|items| - 1]) + (if items[|items| - 1].isOwn then [] else [items[|items| - 1]])
  }

  lemma OthersAppend(items: seq<Client.ChatItem>, x: Client.ChatItem)
    ensures Others(items + [x]) == Others(items) + (if x.isOwn then [] else [x])
  {
    assert (items + [x])[..|items|] == items;
  }

  /** The mirror after the steps, with `sendMessage` as the source writes it. */
  function RunAsWritten(m: Client.Mirror, steps: seq<Step>): Client.Mirror
    decreases |steps|
  {
    if steps == [] then m
    else
      var before := RunAsWritten(m, steps[..|steps| - 1]);
      match steps[|steps| - 1]
      case Deliver(ev) => Client.Receive(before, ev)
      case Send(h) => Client.Sent(before, h)
  }

  /** The mirror after the steps, with the cursor left alone by sends. */
  function Run(m: Client.Mirror, steps: seq<Step>): Client.Mirror
    decreases |steps|
  {
    if steps == [] then m
    else
      var before := Run(m, steps[..|steps| - 1]);
      match steps[|steps| - 1]
      case Deliver(ev) => Client.Receive(before, ev)
      case Send(h) => Client.SentKeepingCursor(before, h)
  }

  /** As written, a send whose id overtakes a stream message not yet delivered
      makes the client drop that message: once the user's own message `h` has
      moved the cursor to its id, someone else's event `ev` with an id between
      the old cursor and `h`'s is ignored, while the corrected client keeps it.
      From cursor 5, sending message 7 and then receiving 6 is one such run. */
  lemma SendOvertakesStream(m: Client.Mirror, h: Hydrated, ev: Sse.Event)
    requires m.lastId < ev.id <= h.message.id
    ensures Delivered([Send(h), Deliver(ev)]) == [ev]
    ensures Others(RunAsWritten(m, [Send(h), Deliver(ev)]).items) == Others(m.items)
    ensures RunAsWritten(m, [Send(h), Deliver(ev)]).lastId == h.message.id
    ensures Others(Run(m, [Send(h), Deliver(ev)]).items) == Others(m.items) + [Client.FromEvent(ev)]
    ensures Run(m, [Send(h), Deliver(ev)]).lastId == ev.id
  {
    var steps := [Send(h), Deliver(ev)];
    var own := Client.FromRow(h, true);
    assert steps[..1] == [Send(h)];
    assert [Send(h)][..0] == [];
    assert Delivered([Send(h)]) == [];
    assert RunAsWritten(m, [Send(h)]) == Client.Mirror(m.items + [own], h.message.id);
    assert RunAsWritten(m, steps) == Client.Mirror(m.items + [own], h.message.id);
    assert Run(m, [Send(h)]) == Client.Mirror(m.items + [own], m.lastId);
    assert Run(m, steps) == Client.Mirror(m.items + [own] + [Client.FromEvent(ev)], ev.id);
    OthersAppend(m.items, own);
    OthersAppend(m.items + [own], Client.FromEvent(ev));
  }

  /** The invariant of a run: the items written by others are the starting
      ones followed by the delivered events, and the cursor is the last
      delivered id. */
  ghost predicate Kept(m: Client.Mirror, now: Client.Mirror, d: seq<Sse.Event>) {
    && Others(now.items) == Others(m.items) + Items(d)
    && now.lastId == if d == [] then m.lastId else d[|d| - 1].id
  }

  /** Dropping the last of an ascending run above a cursor leaves an ascending
      run above it, and the last event is above the rest. */
  lemma AscendingLast(d: seq<Sse.Event>, ev: Sse.Event, cursor: int)
    requires Ascending(d + [ev])
    requires forall i :: 0 <= i < |d + [ev]| ==> (d + [ev])[i].id > cursor
    ensures Ascending(d) && forall i :: 0 <= i < |d| ==> d[i].id > cursor
    ensures ev.id > if d == [] then cursor else d[|d| - 1].id
  {
    var all := d + [ev];
    assert forall i :: 0 <= i < |d| ==> d[i] == all[i];
    assert all[|d|] == ev;
  }

  /** A stream event above the cursor keeps the invariant. */
  lemma DeliverKeeps(m: Client.Mirror, before: Client.Mirror, d: seq<Sse.Event>, ev: Sse.Event)
    requires Kept(m, before, d)
    requires ev.id > before.lastId
    ensures Kept(m, Client.Receive(before, ev), d + [ev])
  {
    OthersAppend(before.items, Client.FromEvent(ev));
    ItemsAppend(d, ev);
  }

  /** A send keeps the invariant. */
  lemma SendKeeps(m: Client.Mirror, before: Client.Mirror, d: seq<Sse.Event>, h: Hydrated)
    requires Kept(m, before, d)
    ensures Kept(m, Client.SentKeepingCursor(before, h), d)
  {
    OthersAppend(before.items, Client.FromRow(h, true));
  }

  /** With sends leaving the cursor alone, nothing from the stream is lost:
      when the stream's events come in ascending id order above the starting
      cursor, whatever the user sends in between, the client holds exactly the
      starting items written by others followed by every delivered event, and
      its cursor is the last delivered id. */
  lemma RunKeepsEveryEvent(m: Client.Mirror, steps: seq<Step>)
    requires Ascending(Delivered(steps))
    requires forall i :: 0 <= i < |Delivered(steps)| ==> Delivered(steps)[i].id > m.lastId
    ensures Others(Run(m, steps).items) == Others(m.items) + Items(Delivered(steps))
    ensures Run(m, steps).lastId ==
      if Delivered(steps) == [] then m.lastId else Delivered(steps)[|Delivered(steps)| - 1].id
  {
    RunKept(m, steps);
  }

  lemma {:induction false} RunKept(m: Client.Mirror, steps: seq<Step>)
    requires Ascending(Delivered(steps))
    requires forall i :: 0 <= i < |Delivered(steps)| ==> Delivered(steps)[i].id > m.lastId
    ensures Kept(m, Run(m, steps), Delivered(steps))
    decreases |steps|
  {
    if steps != [] {
      var n := |steps| - 1;
      var init := steps[..n];
      var before := Run(m, init);
      var d := Delivered(init);
      match steps[n]
      case Deliver(ev) =>
        assert Delivered(steps) == d + [ev];
        AscendingLast(d, ev, m.lastId);
        RunKept(m, init);
        assert Run(m, steps) == Client.Receive(before, ev);
        DeliverKeeps(m, before, d, ev);
      case Send(h) =>
        assert Delivered(steps) == d;
        RunKept(m, init);
        assert Run(m, steps) == Client.SentKeepingCursor(before, h);
        SendKeeps(m, before, d, h);
    }
  }

  /** The email form as written: even with the right password and a valid
      address the server finds no `newEmail` and answers 400. */
  method ChangeEmailAsWritten(db: Database, claims: Claims, newEmail: string, password: string,
                              hashed: string, matches: (string, string) -> bool)
    returns (status: nat, reply: Account.AccountReply)
    requires db.Valid()
    requires password != [] && Account.PasswordOk(db.users, claims.id, password, matches)
    modifies db
    ensures status == 400 && reply == Account.Error("No valid update provided")
    ensures unchanged(db)
  {
    status, reply := Account.UpdateAccount(db, claims, Settings.EmailRequest(newEmail, password), hashed, matches);
  }

  /** The email form with the address sent as `newEmail`: with the right
      password a valid address is stored on the caller's row, and an invalid one
      is refused with 400. */
  method ChangeEmailCorrected(db: Database, claims: Claims, newEmail: string, password: string,
                              hashed: string, matches: (string, string) -> bool)
    returns (status: nat, reply: Account.AccountReply)
    requires db.Valid()
    requires newEmail != [] && password != [] && Account.PasswordOk(db.users, claims.id, password, matches)
    modifies db
    ensures Account.EmailAccepted(newEmail) ==>
      && status == 200 && reply == Account.Done("Email updated successfully")
      && db.users == Account.SetEmail(old(db.users), claims.id.value, newEmail)
    ensures !Account.EmailAccepted(newEmail) ==>
      status == 400 && reply == Account.Error("Invalid email format") && unchanged(db)
  {
    status, reply := Account.UpdateAccount(db, claims, Settings.EmailRequestCorrected(newEmail, password), hashed, matches);
  }
}
