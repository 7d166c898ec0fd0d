/** The server-sent-events endpoint: after the handshake, each connection keeps
    a cursor (`currentSince`); every tick of the message timer writes one `data:`
    event per stored message above the cursor written by someone else, in
    ascending id order, and moves the cursor to the last id written. */
module Sse {
  import opened Base
  import opened Store
  import Js

  /** `parseInt(url.searchParams.get('since_id')) || 0`. A missing parameter
      reads as `null`, which `parseInt` turns into NaN; NaN and 0 are both
      falsy, so each of them gives the cursor 0. */
  function SinceId(param: Option<string>): (c: int)
    ensures param.None? ==> c == 0
    ensures param.Some? ==> c == (if Js.ParseInt(param.value).Int? then Js.ParseInt(param.value).value else 0)
  {
    match param
    case None => 0
    case Some(text) =>
      match Js.ParseInt(text)
      case NaN => 0
      case Int(v) => v
  }

  /** The cursor a client sends as `lastMessageId.toString()` is the cursor the
      server starts from. */
  lemma SinceIdOfCursor(n: nat)
    ensures SinceId(Some(Js.NatToString(n))) == n
  {
    Js.ParseIntOfNumeral(n, []);
    assert Js.NatToString(n) + [] == Js.NatToString(n);
  }

  /** What the handler answers before the stream starts. */
  datatype Handshake = Answer(status: nat) | Stream(userId: Option<nat>, since: int)

  /** OPTIONS is answered 200, any other method but GET 405, a missing or
      invalid `token` parameter 401; otherwise the stream opens for the token's
      `userId` claim at the cursor `since_id` gives. */
  function Open(verb: Verb, token: Option<string>, sinceParam: Option<string>, verify: Verifier): (h: Handshake)
    ensures verb == Options <==> h == Answer(200)
    ensures h == Answer(405) <==> verb != Options && verb != Get
    ensures h == Answer(401) <==> verb == Get && (!Present(token) || verify(token.value).None?)
    ensures h.Stream? ==>
      (Present(token) && verify(token.value).Some?
       && h.userId == verify(token.value).value.userId && h.since == SinceId(sinceParam))
  {
    if verb == Options then Answer(200)
    else if verb != Get then Answer(405)
    else if !Present(token) then Answer(401)
    else match verify(token.value)
      case None => Answer(401)
      case Some(c) => Stream(c.userId, SinceId(sinceParam))
  }

  /** The WHERE clause of the tick query. Comparing with a missing user id is
      SQL NULL, which selects nothing. */
  predicate Foreign(m: Message, cursor: int, userId: Option<nat>) {
    m.id > cursor && userId.Some? && m.authorId != userId.value
  }

  /** The messages one tick selects, in table order, which is id order. */
  function Delta(messages: seq<Message>, cursor: int, userId: Option<nat>): (d: seq<Message>)
    ensures |d| <= |messages|
  {
    if messages == [] then []
    else
      var rest := Delta(messages[1..], cursor, userId);
      if Foreign(messages[0], cursor, userId) then [messages[0]] + rest else rest
  }

  /** A tick selects exactly the stored rows above the cursor written by
      someone else. */
  lemma {:induction false} DeltaMembers(messages: seq<Message>, cursor: int, userId: Option<nat>)
    ensures forall m :: m in Delta(messages, cursor, userId) <==> m in messages && Foreign(m, cursor, userId)
  {
    if messages != [] {
      DeltaMembers(messages[1..], cursor, userId);
      assert forall x :: x in messages <==> x == messages[0] || x in messages[1..];
    }
  }

  /** A tick over a table in id order writes in id order. */
  lemma {:induction false} DeltaIncreasing(messages: seq<Message>, cursor: int, userId: Option<nat>)
    requires IdsIncreasing(messages)
    ensures IdsIncreasing(Delta(messages, cursor, userId))
  {
    if messages != [] {
      var rest := Delta(messages[1..], cursor, userId);
      DeltaIncreasing(messages[1..], cursor, userId);
      DeltaMembers(messages[1..], cursor, userId);
      if Foreign(messages[0], cursor, userId) {
        forall x | x in rest ensures messages[0].id < x.id {
          var i :| 0 <= i < |messages[1..]| && messages[1..][i] == x;
          assert messages[i + 1] == x;
        }
        var d := [messages[0]] + rest;
        forall i, j | 0 <= i < j < |d| ensures d[i].id < d[j].id {
          assert d[j] == rest[j - 1];
          assert rest[j - 1] in rest;
          if i > 0 {
            assert d[i] == rest[i - 1];
          }
        }
      }
    }
  }

  /** When no row qualifies the tick writes nothing. */
  lemma {:induction false} DeltaEmpty(messages: seq<Message>, cursor: int, userId: Option<nat>)
    requires forall m :: m in messages ==> !Foreign(m, cursor, userId)
    ensures Delta(messages, cursor, userId) == []
  {
    if messages != [] {
      assert messages[0] in messages;
      assert forall x :: x in messages[1..] ==> x in messages;
      DeltaEmpty(messages[1..], cursor, userId);
    }
  }

  function Ids(ms: seq<Message>): (ids: seq<nat>)
    ensures |ids| == |ms| && forall i :: 0 <= i < |ms| ==> ids[i] == ms[i].id
  {
    if ms == [] then [] else [ms[0].id] + Ids(ms[1..])
  }

  /** After a tick the cursor is the last id written, or unchanged when none was. */
  function Advance(cursor: int, d: seq<Message>): int {
    if d == [] then cursor else d[|d| - 1].id
  }

  /** The payload of one `data:` event: the columns the tick query selects. */
  datatype Event = Event(id: nat, text: string, createdAt: int, author: string)

  /** The frames written to the response. */
  datatype Frame = Opening | Data(event: Event) | KeepAlive

  /** The tick query's join with `users`: one event per selected message whose
      author row exists. */
  function Rows(users: seq<User>, d: seq<Message>): (evs: seq<Event>)
    ensures |evs| <= |d|
  {
    if d == [] then []
    else
      var rest := Rows(users, d[1..]);
      match UsernameOf(users, d[0].authorId)
      case None => rest
      case Some(name) => [Event(d[0].id, d[0].text, d[0].createdAt, name)] + rest
  }

  function Frames(evs: seq<Event>): (fs: seq<Frame>)
    ensures |fs| == |evs| && forall i :: 0 <= i < |evs| ==> fs[i] == Data(evs[i])
  {
    if evs == [] then [] else [Data(evs[0])] + Frames(evs[1..])
  }

  /** The ids of the `data:` events among the frames, in the order written. */
  function DataIds(fs: seq<Frame>): seq<nat> {
    if fs == [] then []
    else
      var last := fs[|fs| - 1];
      DataIds(fs[..|fs| - 1]) + (if last.Data? then [last.event.id] else [])
  }

  lemma DataIdsAppend(fs: seq<Frame>, f: Frame)
    ensures DataIds(fs + [f]) == DataIds(fs) + (if f.Data? then [f.event.id] else [])
  {
    assert (fs + [f])[..|fs|] == fs;
  }

  /** One tick split over a concatenation of tables. */
  lemma {:induction false} DeltaAppend(a: seq<Message>, b: seq<Message>, cursor: int, userId: Option<nat>)
    ensures Delta(a + b, cursor, userId) == Delta(a, cursor, userId) + Delta(b, cursor, userId)
  {
    if a == [] {
      assert a + b == b;
    } else {
      assert (a + b)[1..] == a[1..] + b;
      assert (a + b)[0] == a[0];
      DeltaAppend(a[1..], b, cursor, userId);
    }
  }

  /** The ids a tick selects depend only on the ids and authors of the rows, so
      an edit between two ticks changes none of them. */
  lemma {:induction false} DeltaIdsFollowKeys(s: seq<Message>, t: seq<Message>, cursor: int, userId: Option<nat>)
    requires |s| == |t|
    requires forall i :: 0 <= i < |s| ==> s[i].id == t[i].id && s[i].authorId == t[i].authorId
    ensures Ids(Delta(s, cursor, userId)) == Ids(Delta(t, cursor, userId))
  {
    if s != [] {
      DeltaIdsFollowKeys(s[1..], t[1..], cursor, userId);
      if Foreign(s[0], cursor, userId) {
        assert Delta(s, cursor, userId) == [s[0]] + Delta(s[1..], cursor, userId);
        assert Delta(t, cursor, userId) == [t[0]] + Delta(t[1..], cursor, userId);
        assert Ids([s[0]] + Delta(s[1..], cursor, userId)) == [s[0].id] + Ids(Delta(s[1..], cursor, userId));
        assert Ids([t[0]] + Delta(t[1..], cursor, userId)) == [t[0].id] + Ids(Delta(t[1..], cursor, userId));
      }
    }
  }

  /** Rows whose ids all exceed both cursors are selected alike from either. */
  lemma {:induction false} DeltaAboveBoth(q: seq<Message>, c: int, c': int, userId: Option<nat>)
    requires forall m :: m in q ==> m.id > c && m.id > c'
    ensures Delta(q, c, userId) == Delta(q, c', userId)
  {
    if q != [] {
      assert forall m :: m in q[1..] ==> m in q;
      DeltaAboveBoth(q[1..], c, c', userId);
    }
  }

  /** After a tick nothing above the new cursor is left to select from the same
      table. */
  lemma DeltaExhausted(s: seq<Message>, cursor: int, userId: Option<nat>)
    requires IdsIncreasing(s)
    ensures Delta(s, Advance(cursor, Delta(s, cursor, userId)), userId) == []
  {
    var d := Delta(s, cursor, userId);
    var c' := Advance(cursor, d);
    DeltaIncreasing(s, cursor, userId);
    DeltaMembers(s, cursor, userId);
    forall m | m in s ensures !Foreign(m, c', userId) {
      if d != [] {
        var last := d[|d| - 1];
        assert last in d;
        assert forall k :: 0 <= k < |d| ==> d[k].id <= last.id;
        assert Foreign(m, c', userId) ==> m in d;
      }
    }
    DeltaEmpty(s, c', userId);
  }

  /** `s2` extends `s1`: its first `|s1|` rows have the same ids and authors
      (rows appended, texts edited). */
  ghost predicate Extends(s1: seq<Message>, s2: seq<Message>) {
    |s1| <= |s2| && forall i :: 0 <= i < |s1| ==> s2[i].id == s1[i].id && s2[i].authorId == s1[i].authorId
  }

  lemma ExtendsIncreasing(s1: seq<Message>, s2: seq<Message>)
    requires IdsIncreasing(s2) && Extends(s1, s2)
    ensures IdsIncreasing(s1)
  {
    forall i, j | 0 <= i < j < |s1| ensures s1[i].id < s1[j].id {
      assert s2[i].id < s2[j].id;
    }
  }

  /** A tick over `s2` selects the ids a tick over `s1` would, then the ids
      among the rows beyond. */
  lemma SplitDelta(s1: seq<Message>, s2: seq<Message>, cursor: int, userId: Option<nat>)
    requires Extends(s1, s2)
    ensures Ids(Delta(s2, cursor, userId)) == Ids(Delta(s1, cursor, userId)) + Ids(Delta(s2[|s1|..], cursor, userId))
  {
    var p, q := s2[..|s1|], s2[|s1|..];
    assert s2 == p + q;
    DeltaAppend(p, q, cursor, userId);
    DeltaIdsFollowKeys(p, s1, cursor, userId);
    IdsOfConcat(Delta(p, cursor, userId), Delta(q, cursor, userId));
  }

  /** Rows beyond `s1` lie above every id `s1` holds. */
  lemma BeyondIsAbove(s1: seq<Message>, s2: seq<Message>, k: nat)
    requires IdsIncreasing(s2) && Extends(s1, s2) && k < |s1|
    ensures forall m :: m in s2[|s1|..] ==> m.id > s1[k].id
  {
    forall m | m in s2[|s1|..] ensures m.id > s1[k].id {
      var j :| 0 <= j < |s2[|s1|..]| && s2[|s1|..][j] == m;
      assert s2[|s1| + j] == m;
      assert s2[k].id < s2[|s1| + j].id;
    }
  }

  /** Two ticks, with messages created and edited in between, write the same ids
      as one tick over the later table would: no id is skipped and none is
      written twice. `s1` is the table at the first tick and `s2` the table at
      the second, which extends it: rows arrive in id order, as they do when
      inserts commit one after another. */
  lemma TwoTicksAreOne(s1: seq<Message>, s2: seq<Message>, cursor: int, userId: Option<nat>)
    requires IdsIncreasing(s2) && Extends(s1, s2)
    ensures
      var d1 := Delta(s1, cursor, userId);
      Ids(d1) + Ids(Delta(s2, Advance(cursor, d1), userId)) == Ids(Delta(s2, cursor, userId))
  {
    var d1 := Delta(s1, cursor, userId);
    var c' := Advance(cursor, d1);
    var q := s2[|s1|..];
    ExtendsIncreasing(s1, s2);
    SplitDelta(s1, s2, cursor, userId);
    SplitDelta(s1, s2, c', userId);
    DeltaExhausted(s1, cursor, userId);
    NewRowsSameDelta(s1, s2, cursor, userId);
    assert Ids(Delta(s1, c', userId)) == [];
    assert Ids(Delta(s2, c', userId)) == Ids(Delta(q, cursor, userId));
  }

  /** The rows created after the first tick are selected alike from either cursor. */
  lemma NewRowsSameDelta(s1: seq<Message>, s2: seq<Message>, cursor: int, userId: Option<nat>)
    requires IdsIncreasing(s2) && Extends(s1, s2)
    ensures Delta(s2[|s1|..], cursor, userId) == Delta(s2[|s1|..], Advance(cursor, Delta(s1, cursor, userId)), userId)
  {
    var d1 := Delta(s1, cursor, userId);
    if d1 != [] {
      DeltaMembers(s1, cursor, userId);
      var last := d1[|d1| - 1];
      assert last in d1;
      var k :| 0 <= k < |s1| && s1[k] == last;
      BeyondIsAbove(s1, s2, k);
      DeltaAboveBoth(s2[|s1|..], cursor, Advance(cursor, d1), userId);
    }
  }

  /** Appending one tick's rows keeps the delivered ids strictly increasing. */
  lemma ExtendDelivered(before: seq<Message>, d: seq<Message>, cursor: int)
    requires IdsIncreasing(before) && IdsIncreasing(d)
    requires before != [] ==> cursor == before[|before| - 1].id
    requires forall m :: m in d ==> m.id > cursor
    ensures IdsIncreasing(before + d)
  {
    var all := before + d;
    forall x, y | 0 <= x < y < |all| ensures all[x].id < all[y].id {
      if y >= |before| {
        assert all[y] == d[y - |before|];
        assert all[y] in d;
        if x < |before| {
          assert all[x] == before[x];
          assert before[x].id <= before[|before| - 1].id;
        } else {
          assert all[x] == d[x - |before|];
        }
      }
    }
  }

  function EventIds(evs: seq<Event>): (ids: seq<nat>)
    ensures |ids| == |evs| && forall i :: 0 <= i < |evs| ==> ids[i] == evs[i].id
  {
    if evs == [] then [] else [evs[0].id] + EventIds(evs[1..])
  }

  lemma FramesAppend(evs: seq<Event>, e: Event)
    ensures Frames(evs + [e]) == Frames(evs) + [Data(e)]
  {
  }

  /** The `data:` ids of frames written for some events are those events' ids. */
  lemma {:induction false} DataIdsOfFrames(fs: seq<Frame>, evs: seq<Event>)
    ensures DataIds(fs + Frames(evs)) == DataIds(fs) + EventIds(evs)
    decreases |evs|
  {
    if evs == [] {
      assert fs + Frames(evs) == fs;
    } else {
      var n := |evs| - 1;
      FramesAppend(evs[..n], evs[n]);
      assert evs == evs[..n] + [evs[n]];
      assert fs + Frames(evs) == (fs + Frames(evs[..n])) + [Data(evs[n])];
      DataIdsAppend(fs + Frames(evs[..n]), Data(evs[n]));
      DataIdsOfFrames(fs, evs[..n]);
      assert EventIds(evs) == EventIds(evs[..n]) + [evs[n].id];
      calc {
        DataIds(fs + Frames(evs));
        DataIds(fs + Frames(evs[..n])) + [evs[n].id];
        (DataIds(fs) + EventIds(evs[..n])) + [evs[n].id];
        DataIds(fs) + (EventIds(evs[..n]) + [evs[n].id]);
      }
    }
  }

  /** When every selected author exists, the join keeps every selected id. */
  lemma {:induction false} RowsKeepIds(users: seq<User>, d: seq<Message>)
    requires forall m :: m in d ==> HasUser(users, m.authorId)
    ensures EventIds(Rows(users, d)) == Ids(d)
  {
    if d != [] {
      assert d[0] in d;
      assert forall x :: x in d[1..] ==> x in d;
      RowsKeepIds(users, d[1..]);
      assert UsernameOf(users, d[0].authorId).Some?;
    }
  }

  /** Rows a tick selects above the cursor are above the starting cursor too. */
  lemma ExtendForeign(before: seq<Message>, d: seq<Message>, since: int, cursor: int, userId: Option<nat>)
    requires since <= cursor
    requires forall m :: m in before ==> Foreign(m, since, userId)
    requires forall m :: m in d ==> Foreign(m, cursor, userId)
    ensures forall m :: m in before + d ==> Foreign(m, since, userId)
  {
  }

  lemma IdsOfConcat(a: seq<Message>, b: seq<Message>)
    ensures Ids(a + b) == Ids(a) + Ids(b)
  {
  }

  /** The stream's invariant: the `data:` events written so far are the
      delivered rows, their ids strictly increase, the last of them is the
      cursor, and each was above the starting cursor and written by someone
      other than the connection's user. */
  ghost predicate StreamInv(userId: Option<nat>, since: int, cursor: int, output: seq<Frame>, delivered: seq<Message>) {
    && since <= cursor
    && DataIds(output) == Ids(delivered)
    && IdsIncreasing(delivered)
    && (delivered != [] ==> cursor == delivered[|delivered| - 1].id)
    && (forall m :: m in delivered ==> Foreign(m, since, userId))
  }

  /** A tick keeps the invariant. */
  lemma TickKeepsInv(userId: Option<nat>, since: int, cursor: int, output: seq<Frame>, delivered: seq<Message>,
                     users: seq<User>, messages: seq<Message>,
                     cursor': int, output': seq<Frame>, delivered': seq<Message>)
    requires StreamInv(userId, since, cursor, output, delivered)
    requires IdsIncreasing(messages) && forall m :: m in messages ==> HasUser(users, m.authorId)
    requires cursor' == Advance(cursor, Delta(messages, cursor, userId))
    requires output' == output + Frames(Rows(users, Delta(messages, cursor, userId)))
    requires delivered' == delivered + Delta(messages, cursor, userId)
    ensures StreamInv(userId, since, cursor', output', delivered')
  {
    var d := Delta(messages, cursor, userId);
    DeltaMembers(messages, cursor, userId);
    RowsKeepIds(users, d);
    DataIdsOfFrames(output, Rows(users, d));
    IdsOfConcat(delivered, d);
    DeltaIncreasing(messages, cursor, userId);
    ExtendDelivered(delivered, d, cursor);
    ExtendForeign(delivered, d, since, cursor, userId);
    if d != [] {
      assert d[|d| - 1] in d;
      assert (delivered + d)[|delivered + d| - 1] == d[|d| - 1];
    } else {
      assert delivered + d == delivered;
    }
  }

  /** What a tick's handler relies on about the rows it selects. */
  lemma TickFacts(users: seq<User>, messages: seq<Message>, cursor: int, userId: Option<nat>, bound: int)
    requires forall m :: m in messages ==> HasUser(users, m.authorId) && m.id < bound
    ensures
      var d := Delta(messages, cursor, userId);
      var rows := Rows(users, d);
      && (rows == [] <==> d == [])
      && (rows != [] ==> rows[|rows| - 1].id == d[|d| - 1].id)
      && cursor <= Advance(cursor, d)
      && (cursor < bound ==> Advance(cursor, d) < bound)
  {
    var d := Delta(messages, cursor, userId);
    var rows := Rows(users, d);
    DeltaMembers(messages, cursor, userId);
    RowsKeepIds(users, d);
    assert |rows| == |EventIds(rows)| == |Ids(d)| == |d|;
    if d != [] {
      assert d[|d| - 1] in d;
      assert EventIds(rows)[|rows| - 1] == Ids(d)[|d| - 1];
    }
  }

  /** One open event stream. `userId` and `since` are fixed at the handshake;
      `cursor` is the handler's `currentSince`; `output` is everything written to
      the response; `delivered` is the message rows behind the `data:` events. */
  class Connection {
    const userId: Option<nat>
    const since: int
    var cursor: int
    var output: seq<Frame>
    var messageTimer: bool
    var heartbeatTimer: bool
    var ended: bool
    ghost var delivered: seq<Message>

    /** The connection keeps the stream's invariant. */
    ghost predicate Valid()
      reads this
    {
      StreamInv(userId, since, cursor, output, delivered)
    }

    /** `res.writeHead(200, ...)` and `res.write('\n')`, then both timers start. */
    constructor (userId: Option<nat>, since: int)
      ensures Valid()
      ensures this.userId == userId && this.since == since && cursor == since
      ensures output == [Opening] && delivered == []
      ensures messageTimer && heartbeatTimer && !ended
    {
      this.userId := userId;
      this.since := since;
      cursor := since;
      output := [Opening];
      delivered := [];
      messageTimer, heartbeatTimer, ended := true, true, false;
      new;
      assert DataIds(output) == [] == Ids(delivered);
    }

    /** One firing of the one-second timer. `queryOk` is false when the query
        throws: the error is logged and nothing else happens. */
    method Tick(db: Database, queryOk: bool)
      requires Valid() && messageTimer
      requires IdsIncreasing(db.messages)
      requires forall m :: m in db.messages ==> HasUser(db.users, m.authorId) && m.id < db.nextMessageId
      modifies this
      ensures Valid()
      ensures messageTimer == old(messageTimer) && heartbeatTimer == old(heartbeatTimer) && ended == old(ended)
      ensures !queryOk ==> cursor == old(cursor) && output == old(output) && delivered == old(delivered)
      ensures queryOk ==>
        var d := Delta(db.messages, old(cursor), userId);
        && output == old(output) + Frames(Rows(db.users, d))
        && delivered == old(delivered) + d
        && cursor == Advance(old(cursor), d)
    {
      if !queryOk {
        return;
      }
      var d := Delta(db.messages, cursor, userId);
      var rows := Rows(db.users, d);
      TickFacts(db.users, db.messages, cursor, userId, db.nextMessageId);
      Deliver(d, rows);
      TickKeepsInv(userId, since, old(cursor), old(output), old(delivered), db.users, db.messages,
                   cursor, output, delivered);
    }

    /** The rest of the tick once the query has answered: one `data:` frame
        per row, in order, then the cursor moves to the last row's id. `d` is
        the selected messages behind the rows. */
    method Deliver(ghost d: seq<Message>, rows: seq<Event>)
      requires rows == [] <==> d == []
      requires rows != [] ==> rows[|rows| - 1].id == d[|d| - 1].id
      modifies this
      ensures output == old(output) + Frames(rows)
      ensures delivered == old(delivered) + d
      ensures cursor == Advance(old(cursor), d)
      ensures messageTimer == old(messageTimer) && heartbeatTimer == old(heartbeatTimer) && ended == old(ended)
    {
      var i := 0;
      while i < |rows|
        invariant 0 <= i <= |rows|
        invariant output == old(output) + Frames(rows[..i])
        invariant cursor == old(cursor) && delivered == old(delivered)
        invariant messageTimer == old(messageTimer) && heartbeatTimer == old(heartbeatTimer) && ended == old(ended)
      {
        FramesAppend(rows[..i], rows[i]);
        assert rows[..i + 1] == rows[..i] + [rows[i]];
        output := output + [Data(rows[i])];
        i := i + 1;
      }
      assert rows[..i] == rows;
      if |rows| > 0 {
        cursor := rows[|rows| - 1].id;
      }
      delivered := delivered + d;
    }

    /** One firing of the fifteen-second timer: a `: heartbeat` comment. */
    method Beat()
      requires Valid() && heartbeatTimer
      modifies this
      ensures Valid()
      ensures output == old(output) + [KeepAlive]
      ensures cursor == old(cursor) && delivered == old(delivered)
      ensures messageTimer == old(messageTimer) && heartbeatTimer == old(heartbeatTimer) && ended == old(ended)
    {
      DataIdsAppend(output, KeepAlive);
      output := output + [KeepAlive];
    }

    /** The `close` and `error` listeners: clear both intervals and end the
        response. Either event runs the same three statements. */
    method Teardown()
      requires Valid()
      modifies this
      ensures Valid()
      ensures !messageTimer && !heartbeatTimer && ended
      ensures cursor == old(cursor) && output == old(output) && delivered == old(delivered)
    {
      messageTimer := false;
      heartbeatTimer := false;
      ended := true;
    }
  }

  /** The handler: the handshake, then a fresh connection for a stream. */
  method Connect(verb: Verb, token: Option<string>, sinceParam: Option<string>, verify: Verifier)
    returns (status: nat, conn: Connection?)
    ensures Open(verb, token, sinceParam, verify).Answer? ==>
      status == Open(verb, token, sinceParam, verify).status && conn == null
    ensures Open(verb, token, sinceParam, verify).Stream? ==>
      && status == 200 && conn != null && fresh(conn) && conn.Valid()
      && conn.userId == Open(verb, token, sinceParam, verify).userId
      && conn.cursor == conn.since == Open(verb, token, sinceParam, verify).since
      && conn.output == [Opening] && conn.delivered == []
      && conn.messageTimer && conn.heartbeatTimer && !conn.ended
  {
    match Open(verb, token, sinceParam, verify)
    case Answer(code) =>
      status, conn := code, null;
    case Stream(userId, since) =>
      conn := new Connection(userId, since);
      status := 200;
  }
}
