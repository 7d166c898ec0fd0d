/** The older Express server: `PATCH /api/messages/:id` behind a bearer-token
    check, and `GET /api/messages` ordered by `timestamp`. Its `messages` table
    has the columns `id`, `username`, `content` and `timestamp`. */
module Legacy {
  import opened Base
  import opened Store
  import Sorting

  datatype LegacyMessage = LegacyMessage(id: nat, username: string, content: string, timestamp: int)

  /** A result row: `m.*`, `m.username AS author` and the `edit_history` aggregate. */
  datatype LegacyRow = LegacyRow(message: LegacyMessage, author: string, editHistory: seq<HistoryItem>)

  datatype LegacyReply = One(row: LegacyRow) | All(rows: seq<LegacyRow>) | Problem(error: string)

  ghost predicate IdsDistinct(ms: seq<LegacyMessage>) {
    forall i, j :: 0 <= i < j < |ms| ==> ms[i].id != ms[j].id
  }

  /** `SELECT * FROM messages WHERE id = $1`: the row with that id, if any. */
  function Find(ms: seq<LegacyMessage>, id: int): (k: Option<nat>)
    ensures k.Some? ==> k.value < |ms| && ms[k.value].id == id
    ensures k.None? <==> forall i :: 0 <= i < |ms| ==> ms[i].id != id
  {
    if ms == [] then None
    else if ms[0].id == id then Some(0)
    else
      match Find(ms[1..], id)
      case None => None
      case Some(k) => Some(k + 1)
  }

  function RowOf(m: LegacyMessage, history: seq<EditEntry>): LegacyRow {
    LegacyRow(m, m.username, HistoryOf(history, m.id))
  }

  function Timestamp(r: LegacyRow): int {
    r.message.timestamp
  }

  function Rows(ms: seq<LegacyMessage>, history: seq<EditEntry>): (rows: seq<LegacyRow>)
    ensures |rows| == |ms| && forall i :: 0 <= i < |ms| ==> rows[i] == RowOf(ms[i], history)
  {
    if ms == [] then [] else [RowOf(ms[0], history)] + Rows(ms[1..], history)
  }

  /** The GET query: every message with its history, ordered by `timestamp`. */
  function Listing(ms: seq<LegacyMessage>, history: seq<EditEntry>): (rows: seq<LegacyRow>)
    ensures Sorting.SortedBy(rows, Timestamp)
    ensures multiset(rows) == multiset(Rows(ms, history))
    ensures |rows| == |ms|
  {
    Sorting.SortBy(Rows(ms, history), Timestamp)
  }

  /** The UPDATE of an edit: new `content`, and `timestamp` reset to now. */
  function Reset(ms: seq<LegacyMessage>, k: nat, content: string, now: int): (r: seq<LegacyMessage>)
    requires k < |ms|
    ensures |r| == |ms|
  {
    ms[k := ms[k].(content := content, timestamp := now)]
  }

  lemma ResetKeepsIds(ms: seq<LegacyMessage>, k: nat, content: string, now: int)
    requires k < |ms| && IdsDistinct(ms)
    ensures IdsDistinct(Reset(ms, k, content, now))
    ensures forall i :: 0 <= i < |ms| ==> Reset(ms, k, content, now)[i].id == ms[i].id
    ensures forall i :: 0 <= i < |ms| && i != k ==> Reset(ms, k, content, now)[i] == ms[i]
  {
  }

  /** Because GET orders by `timestamp` and an edit resets it, an edited
      message is listed after every message whose timestamp is earlier than the
      edit time, wherever it stood before. */
  lemma EditedSortsAfterEarlier(ms: seq<LegacyMessage>, history: seq<EditEntry>, k: nat, content: string, now: int,
                                i: nat, j: nat)
    requires k < |ms| && IdsDistinct(ms)
    requires i < |ms| && j < |ms|
    requires Listing(Reset(ms, k, content, now), history)[i].message.id == ms[k].id
    requires Listing(Reset(ms, k, content, now), history)[j].message.timestamp < now
    ensures j < i
  {
    var r := Reset(ms, k, content, now);
    var rows := Listing(r, history);
    ResetKeepsIds(ms, k, content, now);
    assert rows[i] in multiset(Rows(r, history));
    var p :| 0 <= p < |r| && Rows(r, history)[p] == rows[i];
    assert r[p].id == r[k].id;
    assert p == k;
    Sorting.SmallerKeyFirst(rows, Timestamp, j, i);
  }

  /** The legacy tables. */
  class LegacyDatabase {
    var messages: seq<LegacyMessage>
    var history: seq<EditEntry>

    /** `id` is the primary key. */
    ghost predicate Valid()
      reads this
    {
      IdsDistinct(messages)
    }

    constructor ()
      ensures Valid() && messages == [] && history == []
    {
      messages, history := [], [];
    }
  }

  /** `PATCH /api/messages/:id`. `id` is the path parameter when it reads as an
      integer in the 32-bit range of the `id` column, negative ones included,
      and None when it does not, which makes the query throw. The caller's
      name is the token's `username` claim. */
  method Patch(db: LegacyDatabase, authorization: Option<string>, verify: Verifier,
               id: Option<int>, content: Option<string>, now: int)
    returns (status: nat, reply: LegacyReply)
    requires db.Valid()
    modifies db
    ensures db.Valid()
    ensures !Authenticate(authorization, verify).Verified? ==>
      status == 401 && reply == Problem(AuthError(Authenticate(authorization, verify))) && unchanged(db)
    ensures Authenticate(authorization, verify).Verified? && !Present(content) ==>
      status == 400 && reply == Problem("Content is required") && unchanged(db)
    ensures Authenticate(authorization, verify).Verified? && Present(content) && id.None? ==>
      status == 500 && reply == Problem("Server error while editing message") && unchanged(db)
    ensures Authenticate(authorization, verify).Verified? && Present(content) && id.Some? ==>
      var claims := Authenticate(authorization, verify).claims;
      match Find(old(db.messages), id.value)
      case None => status == 404 && reply == Problem("Message not found") && unchanged(db)
      case Some(k) =>
        var m := old(db.messages)[k];
        && (claims.username != Some(m.username) ==>
              status == 403 && reply == Problem("Unauthorized to edit this message") && unchanged(db))
        && (claims.username == Some(m.username) ==>
              && db.history == old(db.history) + [EditEntry(m.id, m.content, now)]
              && db.messages == Reset(old(db.messages), k, content.value, now)
              && status == 200
              && reply == One(RowOf(db.messages[k], db.history)))
  {
    var auth := Authenticate(authorization, verify);
    if !auth.Verified? {
      return 401, Problem(AuthError(auth));
    }
    if !Present(content) {
      return 400, Problem("Content is required");
    }
    if id.None? {
      return 500, Problem("Server error while editing message");
    }
    var found := Find(db.messages, id.value);
    if found.None? {
      return 404, Problem("Message not found");
    }
    var k := found.value;
    var m := db.messages[k];
    if auth.claims.username != Some(m.username) {
      return 403, Problem("Unauthorized to edit this message");
    }
    db.history := db.history + [EditEntry(m.id, m.content, now)];
    ResetKeepsIds(db.messages, k, content.value, now);
    db.messages := Reset(db.messages, k, content.value, now);
    status, reply := 200, One(RowOf(db.messages[k], db.history));
  }

  /** `GET /api/messages`. */
  method List(db: LegacyDatabase) returns (status: nat, reply: LegacyReply)
    ensures status == 200 && reply == All(Listing(db.messages, db.history))
  {
    status, reply := 200, All(Listing(db.messages, db.history));
  }
}
