/** The three tables the handlers share, held in memory: `users`, `messages` and
    `edit_history`, with the columns of the migrated schema, and the lookups the
    handlers' queries perform on them. */
module Store {
  import opened Base

  /** A row of `users`. `password` holds the bcrypt hash; `lastActive` is the
      nullable `last_active` timestamp in milliseconds. */
  datatype User = User(id: nat, username: string, password: string, email: Option<string>, lastActive: Option<int>)

  /** A row of `messages`: `id`, `author_id`, `text`, `created_at`,
      `last_edited_at` and `parent_message_id`. */
  datatype Message = Message(id: nat, authorId: nat, text: string, createdAt: int, lastEditedAt: Option<int>, parentId: Option<int>)

  /** A row of `edit_history`: the text a message had before one edit. */
  datatype EditEntry = EditEntry(messageId: nat, oldText: string, editedAt: int)

  /** One element of a message's `edit_history` JSON array. */
  datatype HistoryItem = HistoryItem(oldText: string, editedAt: int)

  /** A message row as the API returns it: the row, its author's username and
      its edit history. */
  datatype Hydrated = Hydrated(message: Message, author: string, editHistory: seq<HistoryItem>)

  ghost predicate IdsIncreasing(ms: seq<Message>) {
    forall i, j :: 0 <= i < j < |ms| ==> ms[i].id < ms[j].id
  }

  predicate HasMessage(ms: seq<Message>, id: int) {
    exists m :: m in ms && m.id == id
  }

  predicate HasUser(users: seq<User>, id: nat) {
    exists u :: u in users && u.id == id
  }

  /** `SELECT * FROM messages WHERE id = $1`: the position of the row, if any. */
  function FindMessage(ms: seq<Message>, id: int): (k: Option<nat>)
    ensures k.Some? ==> k.value < |ms| && ms[k.value].id == id
    ensures k.None? <==> !HasMessage(ms, id)
  {
    if ms == [] then None
    else if ms[0].id == id then Some(0)
    else
      match FindMessage(ms[1..], id)
      case None =>
        assert forall m :: m in ms ==> m == ms[0] || m in ms[1..];
        None
      case Some(k) => Some(k + 1)
  }

  /** `SELECT ... FROM users WHERE id = $1`: the position of the row, if any. */
  function FindUser(users: seq<User>, id: nat): (k: Option<nat>)
    ensures k.Some? ==> k.value < |users| && users[k.value].id == id
    ensures k.None? <==> !HasUser(users, id)
  {
    if users == [] then None
    else if users[0].id == id then Some(0)
    else
      match FindUser(users[1..], id)
      case None =>
        assert forall u :: u in users ==> u == users[0] || u in users[1..];
        None
      case Some(k) => Some(k + 1)
  }

  /** `SELECT ... FROM users WHERE username = $1`: the position of the row, if any. */
  function FindUserByName(users: seq<User>, name: string): (k: Option<nat>)
    ensures k.Some? ==> k.value < |users| && users[k.value].username == name
    ensures k.None? <==> forall u :: u in users ==> u.username != name
  {
    if users == [] then None
    else if users[0].username == name then Some(0)
    else
      match FindUserByName(users[1..], name)
      case None =>
        assert forall u :: u in users ==> u == users[0] || u in users[1..];
        None
      case Some(k) => Some(k + 1)
  }

  /** A row appended under a username no other row has is the one a lookup by that name finds. */
  lemma {:induction false} FindUserByNameAppended(users: seq<User>, u: User)
    requires forall v :: v in users ==> v.username != u.username
    ensures FindUserByName(users + [u], u.username) == Some(|users|)
  {
    if users != [] {
      assert users[0] in users;
      assert (users + [u])[1..] == users[1..] + [u];
      forall v | v in users[1..] ensures v.username != u.username {
        assert v in users;
      }
      FindUserByNameAppended(users[1..], u);
    }
  }

  /** The username `JOIN users u ON m.author_id = u.id` attaches to a message. */
  function UsernameOf(users: seq<User>, id: nat): (name: Option<string>)
    ensures name.Some? <==> HasUser(users, id)
    ensures name.Some? ==> exists u :: u in users && u.id == id && u.username == name.value
  {
    match FindUser(users, id)
    case None => None
    case Some(k) => Some(users[k].username)
  }

  /** The JSON objects `json_agg` builds from the `edit_history` rows of one
      message. The aggregate has no `ORDER BY`, so only membership and count are
      promised; table order is one of the orders the database may return. */
  function HistoryOf(history: seq<EditEntry>, id: nat): (items: seq<HistoryItem>)
    ensures forall x :: x in items <==> exists e :: e in history && e.messageId == id && x == HistoryItem(e.oldText, e.editedAt)
    ensures |items| == |EntriesOf(history, id)| && |items| <= |history|
  {
    if history == [] then
      assert EntriesOf(history, id) == {};
      []
    else
      var init := history[..|history| - 1];
      var e := history[|history| - 1];
      assert history == init + [e];
      EntriesOfLast(history, id);
      HistoryOf(init, id) + (if e.messageId == id then [HistoryItem(e.oldText, e.editedAt)] else [])
  }

  /** The positions of the `edit_history` rows that belong to message `id`. */
  ghost function EntriesOf(history: seq<EditEntry>, id: nat): set<nat> {
    set i: nat | i < |history| && history[i].messageId == id
  }

  /** The last row's position joins the positions of the rows before it
      exactly when it belongs to the message. */
  lemma EntriesOfLast(history: seq<EditEntry>, id: nat)
    requires history != []
    ensures var n := |history| - 1;
      |EntriesOf(history, id)| == |EntriesOf(history[..n], id)| + (if history[n].messageId == id then 1 else 0)
  {
    var n := |history| - 1;
    var before, all := EntriesOf(history[..n], id), EntriesOf(history, id);
    var last: set<nat> := if history[n].messageId == id then {n} else {};
    forall i: nat ensures i in all <==> i in before + last {
      if i < n {
        assert history[..n][i] == history[i];
      }
    }
    assert all == before + last;
    assert before !! last;
  }

  /** Appending one `edit_history` row adds one item to that message's history
      and none to any other message's. */
  lemma HistoryOfAppend(history: seq<EditEntry>, e: EditEntry, id: nat)
    ensures HistoryOf(history + [e], id) ==
      HistoryOf(history, id) + (if e.messageId == id then [HistoryItem(e.oldText, e.editedAt)] else [])
  {
    assert (history + [e])[..|history|] == history;
  }

  /** `UPDATE users SET last_active = NOW() WHERE id = $1`; no row matches a
      missing id. */
  function Touch(users: seq<User>, id: Option<nat>, now: int): (r: seq<User>)
    ensures |r| == |users|
    ensures forall i :: 0 <= i < |users| ==>
      r[i] == if id == Some(users[i].id) then users[i].(lastActive := Some(now)) else users[i]
  {
    if users == [] then []
    else
      [if id == Some(users[0].id) then users[0].(lastActive := Some(now)) else users[0]]
      + Touch(users[1..], id, now)
  }

  /** The constraints the tables keep: serial ids in insertion order, unique
      usernames, and the foreign keys `messages.author_id REFERENCES users(id)`
      and `messages.parent_message_id REFERENCES messages(id)`. */
  ghost predicate Consistent(users: seq<User>, messages: seq<Message>, nextUserId: nat, nextMessageId: nat) {
    && 0 < nextUserId && 0 < nextMessageId
    && IdsIncreasing(messages)
    && (forall m :: m in messages ==> 0 < m.id < nextMessageId)
    && (forall i, j :: 0 <= i < j < |users| ==> users[i].id < users[j].id)
    && (forall i, j :: 0 <= i < j < |users| ==> users[i].username != users[j].username)
    && (forall u :: u in users ==> 0 < u.id < nextUserId)
    && (forall m :: m in messages ==> HasUser(users, m.authorId))
    && (forall m :: m in messages && m.parentId.Some? ==> HasMessage(messages, m.parentId.value))
  }

  /** Appending a row that takes the next serial id and satisfies both foreign
      keys keeps the tables consistent. */
  lemma AppendKeepsConsistent(users: seq<User>, messages: seq<Message>, m: Message, nextUserId: nat, nextMessageId: nat)
    requires Consistent(users, messages, nextUserId, nextMessageId)
    requires m.id == nextMessageId && HasUser(users, m.authorId)
    requires m.parentId.Some? ==> HasMessage(messages, m.parentId.value)
    ensures Consistent(users, messages + [m], nextUserId, nextMessageId + 1)
  {
    var r := messages + [m];
    forall x | x in r && x.parentId.Some? ensures HasMessage(r, x.parentId.value) {
      var p :| p in messages && p.id == x.parentId.value;
      assert p in r;
    }
    forall x | x in r ensures 0 < x.id < nextMessageId + 1 && HasUser(users, x.authorId) {
      if x != m { assert x in messages; }
    }
  }

  /** Inserting a user row that takes the next serial id and a username no row
      has keeps the tables consistent. */
  lemma AddUserKeepsConsistent(users: seq<User>, messages: seq<Message>, u: User, nextUserId: nat, nextMessageId: nat)
    requires Consistent(users, messages, nextUserId, nextMessageId)
    requires u.id == nextUserId && forall v :: v in users ==> v.username != u.username
    ensures Consistent(users + [u], messages, nextUserId + 1, nextMessageId)
  {
    var r := users + [u];
    forall m | m in messages ensures HasUser(r, m.authorId) {
      var v :| v in users && v.id == m.authorId;
      assert v in r;
    }
    forall i, j | 0 <= i < j < |r| ensures r[i].username != r[j].username && r[i].id < r[j].id {
      if j == |users| { assert r[i] in users; }
    }
  }

  /** Rewriting user rows in place, keeping every id and username, keeps the
      tables consistent: the other columns of `users` take part in no constraint. */
  lemma SameKeysKeepConsistent(users: seq<User>, r: seq<User>, messages: seq<Message>, nextUserId: nat, nextMessageId: nat)
    requires Consistent(users, messages, nextUserId, nextMessageId)
    requires |r| == |users|
    requires forall i :: 0 <= i < |r| ==> r[i].id == users[i].id && r[i].username == users[i].username
    ensures Consistent(r, messages, nextUserId, nextMessageId)
  {
    forall m | m in messages ensures HasUser(r, m.authorId) {
      var v :| v in users && v.id == m.authorId;
      var i :| 0 <= i < |users| && users[i] == v;
      assert r[i] in r;
    }
    forall v | v in r ensures 0 < v.id < nextUserId {
      var i :| 0 <= i < |r| && r[i] == v;
      assert users[i] in users;
    }
  }

  /** Refreshing `last_active` changes no id and no username, so the tables stay consistent. */
  lemma TouchKeepsConsistent(users: seq<User>, messages: seq<Message>, id: Option<nat>, now: int, nextUserId: nat, nextMessageId: nat)
    requires Consistent(users, messages, nextUserId, nextMessageId)
    ensures Consistent(Touch(users, id, now), messages, nextUserId, nextMessageId)
  {
    SameKeysKeepConsistent(users, Touch(users, id, now), messages, nextUserId, nextMessageId);
  }

  /** Refreshing the row just inserted, whose id is above every other, touches that row only. */
  lemma TouchNewest(users: seq<User>, u: User, now: int)
    requires forall v :: v in users ==> v.id < u.id
    ensures Touch(users + [u], Some(u.id), now) == users + [u.(lastActive := Some(now))]
  {
    var r := Touch(users + [u], Some(u.id), now);
    forall i | 0 <= i < |users| ensures r[i] == users[i] {
      assert (users + [u])[i] == users[i] && users[i] in users;
    }
  }

  /** The database: the tables and the next values of their `SERIAL` sequences. */
  class Database {
    var users: seq<User>
    var messages: seq<Message>
    var history: seq<EditEntry>
    var nextUserId: nat
    var nextMessageId: nat

    ghost predicate Valid()
      reads this
    {
      Consistent(users, messages, nextUserId, nextMessageId)
    }

    constructor ()
      ensures Valid()
      ensures users == [] && messages == [] && history == []
      ensures nextUserId == 1 && nextMessageId == 1
    {
      users, messages, history := [], [], [];
      nextUserId, nextMessageId := 1, 1;
    }
  }
}
