/** The browser client `NestChat`: its mirror of the conversation (`messages`
    and the cursor `lastMessageId`), the event-stream subscription built from
    that cursor, and the pure helpers for form checks and display text. */
module Client {
  import opened Base
  import Js
  import Store
  import Sse

  /** A message as the client keeps it: the fields it reads, plus `isOwn`. */
  datatype ChatItem = ChatItem(id: nat, author: string, text: string, createdAt: int, isOwn: bool)

  /** The signed-in user as the auth endpoint returns it. */
  datatype CurrentUser = CurrentUser(id: nat, username: string)

  /** The client's mirror: the `messages` array and `lastMessageId`. */
  datatype Mirror = Mirror(items: seq<ChatItem>, lastId: nat)

  /** The open `EventSource`: the `token` and `since_id` query parameters. */
  datatype Subscription = Subscription(token: string, sinceId: string)

  /** `Math.max(...ids)` of a non-empty list. */
  function MaxId(ids: seq<nat>): (m: nat)
    requires ids != []
    ensures forall i :: 0 <= i < |ids| ==> ids[i] <= m
    ensures exists i :: 0 <= i < |ids| && ids[i] == m
  {
    if |ids| == 1 then ids[0]
    else
      var rest := MaxId(ids[1..]);
      assert forall i :: 1 <= i < |ids| ==> ids[i] == ids[1..][i - 1];
      if ids[0] >= rest then ids[0] else rest
  }

  function RowIds(rows: seq<Store.Hydrated>): (ids: seq<nat>)
    ensures |ids| == |rows| && forall i :: 0 <= i < |rows| ==> ids[i] == rows[i].message.id
  {
    if rows == [] then [] else [rows[0].message.id] + RowIds(rows[1..])
  }

  /** `data.length ? Math.max(...data.map(m => m.id)) : 0`. */
  function LastId(rows: seq<Store.Hydrated>): (n: nat)
    ensures rows == [] ==> n == 0
    ensures forall i :: 0 <= i < |rows| ==> rows[i].message.id <= n
    ensures rows != [] ==> exists i :: 0 <= i < |rows| && rows[i].message.id == n
  {
    if rows == [] then 0 else MaxId(RowIds(rows))
  }

  /** `m.author === this.currentUser?.username`: false when nobody is signed in. */
  predicate IsOwn(author: string, user: Option<CurrentUser>) {
    user.Some? && author == user.value.username
  }

  function FromRow(h: Store.Hydrated, own: bool): ChatItem {
    ChatItem(h.message.id, h.author, h.message.text, h.message.createdAt, own)
  }

  /** The mirror `fetchMessages` builds from the listing. */
  function Fetched(rows: seq<Store.Hydrated>, user: Option<CurrentUser>): (m: Mirror)
    ensures |m.items| == |rows|
    ensures forall i :: 0 <= i < |rows| ==>
      m.items[i].id == rows[i].message.id && m.items[i].text == rows[i].message.text
      && m.items[i].author == rows[i].author
      && (m.items[i].isOwn <==> IsOwn(rows[i].author, user))
    ensures m.lastId == LastId(rows)
  {
    Mirror(seq(|rows|, i requires 0 <= i < |rows| => FromRow(rows[i], IsOwn(rows[i].author, user))), LastId(rows))
  }

  function FromEvent(ev: Sse.Event): ChatItem {
    ChatItem(ev.id, ev.author, ev.text, ev.createdAt, false)
  }

  /** `es.onmessage`: an event at or below the cursor is ignored; any other is
      appended as someone else's and becomes the cursor. */
  function Receive(m: Mirror, ev: Sse.Event): (r: Mirror)
    ensures ev.id <= m.lastId ==> r == m
    ensures ev.id > m.lastId ==> r.items == m.items + [FromEvent(ev)] && r.lastId == ev.id
    ensures m.lastId <= r.lastId
  {
    if ev.id <= m.lastId then m else Mirror(m.items + [FromEvent(ev)], ev.id)
  }

  /** The success path of `sendMessage` as written: the returned row is
      appended as the user's own and its id becomes the cursor. */
  function Sent(m: Mirror, h: Store.Hydrated): (r: Mirror)
    ensures r.items == m.items + [FromRow(h, true)] && r.lastId == h.message.id
  {
    Mirror(m.items + [FromRow(h, true)], h.message.id)
  }

  /** `sendMessage` with the cursor left alone: the stream never carries the
      user's own messages, so only stream events need to move it. */
  function SentKeepingCursor(m: Mirror, h: Store.Hydrated): (r: Mirror)
    ensures r.items == m.items + [FromRow(h, true)] && r.lastId == m.lastId
  {
    Mirror(m.items + [FromRow(h, true)], m.lastId)
  }

  /** `url.searchParams.set('token', this.token)` writes `null` for a missing token. */
  function TokenParam(token: Option<string>): string {
    if token.Some? then token.value else "null"
  }

  /** The outcome of a client-side form check: a toast text, or go ahead. */
  datatype Check = Reject(message: string) | Proceed

  /** `handleLogin`'s check on the trimmed fields. */
  function LoginCheck(username: string, password: string): (c: Check)
    ensures c == Proceed <==> Js.Trim(username) != [] && Js.Trim(password) != []
  {
    if Js.Trim(username) == [] || Js.Trim(password) == [] then Reject("Please fill in all fields")
    else Proceed
  }

  /** `handleRegister`'s checks on the trimmed fields, in order. */
  function RegisterCheck(username: string, password: string): (c: Check)
    ensures c == Proceed <==>
      (Js.Trim(username) != [] && Js.Trim(password) != []
       && |Js.Trim(username)| >= 3 && |Js.Trim(password)| >= 6)
    ensures Js.Trim(username) == [] || Js.Trim(password) == [] ==> c == Reject("Please fill in all fields")
    ensures Js.Trim(username) != [] && Js.Trim(password) != [] && |Js.Trim(username)| < 3 ==>
      c == Reject("Username must be at least 3 characters")
  {
    var u, p := Js.Trim(username), Js.Trim(password);
    if u == [] || p == [] then Reject("Please fill in all fields")
    else if |u| < 3 then Reject("Username must be at least 3 characters")
    else if |p| < 6 then Reject("Password must be at least 6 characters")
    else Proceed
  }

  /** The colour `updateCharCount` picks for the counter. */
  datatype Colour = Muted | Warning | Error

  /** `updateCharCount` as written: the `> 450` test comes first. */
  function CharCountColour(length: nat): Colour {
    if length > 450 then Warning
    else if length > 480 then Error
    else Muted
  }

  /** Above 450 characters the counter is the warning colour, otherwise muted;
      the error colour is never chosen. */
  lemma CharCountNeverError(length: nat)
    ensures CharCountColour(length) == Warning <==> length > 450
    ensures CharCountColour(length) == Muted <==> length <= 450
    ensures CharCountColour(length) != Error
  {
  }

  /** The thresholds with the stricter test first. */
  function CharCountColourCorrected(length: nat): (c: Colour)
    ensures c == Error <==> length > 480
    ensures c == Warning <==> 450 < length <= 480
    ensures c == Muted <==> length <= 450
  {
    if length > 480 then Error
    else if length > 450 then Warning
    else Muted
  }

  /** `Math.floor((now - lastActive) / 60000)`; a missing `last_active` is
      `new Date(null)`, the epoch. */
  function DiffMinutes(now: int, lastActive: Option<int>): (d: int)
    ensures var t := if lastActive.Some? then lastActive.value else 0;
      d * 60000 <= now - t < d * 60000 + 60000
  {
    var t := if lastActive.Some? then lastActive.value else 0;
    (now - t) / 60000
  }

  /** The status line under a user's name in the online list. */
  function StatusText(diffMinutes: int): (s: string)
    ensures s != [] && (diffMinutes > 0 ==> Js.IsDigit(s[0]))
    ensures s == "Online" <==> diffMinutes <= 0
  {
    if diffMinutes <= 0 then "Online"
    else
      var n: nat := if diffMinutes < 60 then diffMinutes else diffMinutes / 60;
      var digits := Js.NatToString(n);
      var r := digits + (if diffMinutes < 60 then "m ago" else "h ago");
      assert r[0] == digits[0];
      r
  }

  /** The number at the front of a status line is the elapsed minutes below
      an hour and the whole hours from an hour on; it is written as `toString`
      writes it, digits only, and the five-character unit follows directly. */
  lemma StatusTextReadsBack(diffMinutes: int)
    requires diffMinutes > 0
    ensures Js.ParseInt(StatusText(diffMinutes)) == Js.Int(if diffMinutes < 60 then diffMinutes else diffMinutes / 60)
    ensures var n: nat := if diffMinutes < 60 then diffMinutes else diffMinutes / 60;
      && |StatusText(diffMinutes)| == |Js.NatToString(n)| + 5
      && forall i :: 0 <= i < |Js.NatToString(n)| ==> Js.IsDigit(StatusText(diffMinutes)[i])
    ensures diffMinutes < 60 ==> StatusText(diffMinutes)[|StatusText(diffMinutes)| - 5..] == "m ago"
    ensures diffMinutes >= 60 ==> StatusText(diffMinutes)[|StatusText(diffMinutes)| - 5..] == "h ago"
  {
    if diffMinutes < 60 {
      Js.ParseIntOfNumeral(diffMinutes, "m ago");
    } else {
      Js.ParseIntOfNumeral(diffMinutes / 60, "h ago");
    }
  }

  /** The first character of each word, `''` for an empty word. */
  function Firsts(words: seq<string>): (r: string)
    ensures |r| <= |words|
  {
    if words == [] then []
    else (if words[0] == [] then [] else [words[0][0]]) + Firsts(words[1..])
  }

  /** `getInitials`: split at spaces, take each word's first character, join,
      upper-case, keep the first two. */
  function Initials(name: string): (r: string)
    ensures |r| <= 2
  {
    var all := Js.Upper(Firsts(Js.Split(name, ' ')));
    if |all| <= 2 then all else all[..2]
  }

  /** A name of two space-separated words gives the upper-cased first letter
      of each. */
  lemma InitialsOfTwoWords(first: string, last: string)
    requires first != [] && last != []
    requires ' ' !in first && ' ' !in last
    ensures Initials(first + " " + last) == [Js.UpperChar(first[0]), Js.UpperChar(last[0])]
  {
    Js.SplitAtFirst(first, ' ', last);
    Js.SplitWithoutSeparator(last, ' ');
    assert first + " " + last == first + [' '] + last;
    assert Js.Split(first + " " + last, ' ') == [first, last];
    assert Firsts([first, last]) == [first[0], last[0]];
  }

  /** A one-word name gives its upper-cased first letter. */
  lemma InitialsOfOneWord(word: string)
    requires word != [] && ' ' !in word
    ensures Initials(word) == [Js.UpperChar(word[0])]
  {
    Js.SplitWithoutSeparator(word, ' ');
    assert Firsts([word]) == [word[0]];
  }

  /** The client object. `stream` is the open `EventSource`, if any;
      `polling` stands for the two intervals `startRealTimeUpdates` starts. */
  class NestChat {
    var currentUser: Option<CurrentUser>
    var token: Option<string>
    var messages: seq<ChatItem>
    var lastMessageId: nat
    var stream: Option<Subscription>
    var polling: bool

    function View(): Mirror
      reads this
    {
      Mirror(messages, lastMessageId)
    }

    constructor ()
      ensures currentUser == None && token == None && messages == [] && lastMessageId == 0
      ensures stream == None && !polling
    {
      currentUser, token, messages, lastMessageId := None, None, [], 0;
      stream, polling := None, false;
    }

    /** `handleLogin`/`handleRegister` after a successful answer. */
    method SignedIn(user: CurrentUser, issued: string)
      modifies this
      ensures currentUser == Some(user) && token == Some(issued)
      ensures View() == old(View()) && stream == old(stream) && polling == old(polling)
    {
      currentUser, token := Some(user), Some(issued);
    }

    /** `fetchMessages`; `response` is None when the answer is not ok. */
    method FetchMessages(response: Option<seq<Store.Hydrated>>)
      modifies this
      ensures response.None? ==> View() == old(View())
      ensures response.Some? ==> View() == Fetched(response.value, currentUser)
      ensures currentUser == old(currentUser) && token == old(token)
      ensures stream == old(stream) && polling == old(polling)
    {
      if response.None? {
        return;
      }
      var m := Fetched(response.value, currentUser);
      messages := m.items;
      lastMessageId := m.lastId;
    }

    /** `connectSSE`: any open stream is replaced by one subscribed at the
        current cursor. */
    method ConnectSSE()
      modifies this
      ensures stream == Some(Subscription(TokenParam(token), Js.NatToString(lastMessageId)))
      ensures View() == old(View()) && currentUser == old(currentUser) && token == old(token)
      ensures polling == old(polling)
    {
      stream := Some(Subscription(TokenParam(token), Js.NatToString(lastMessageId)));
    }

    /** `es.onmessage` for one event. */
    method OnMessage(ev: Sse.Event)
      modifies this
      ensures View() == Receive(old(View()), ev)
      ensures currentUser == old(currentUser) && token == old(token)
      ensures stream == old(stream) && polling == old(polling)
    {
      if ev.id <= lastMessageId {
        return;
      }
      lastMessageId := ev.id;
      messages := messages + [FromEvent(ev)];
    }

    /** `sendMessage`. `request` is the body text sent, None when nothing is
        sent; `response` is the created row, None when the request fails. The
        returned message is appended as the user's own and its id becomes the
        cursor (`Sent`); `Protocol.SendOvertakesStream` shows what that costs. */
    method SendMessage(input: string, response: Option<Store.Hydrated>) returns (request: Option<string>)
      modifies this
      ensures Js.Trim(input) == [] || currentUser.None? ==> request == None && View() == old(View())
      ensures Js.Trim(input) != [] && currentUser.Some? ==> request == Some(Js.Trim(input))
      ensures request.Some? && response.None? ==> View() == old(View())
      ensures request.Some? && response.Some? ==> View() == Sent(old(View()), response.value)
      ensures currentUser == old(currentUser) && token == old(token)
      ensures stream == old(stream) && polling == old(polling)
    {
      var text := Js.Trim(input);
      if text == [] || currentUser.None? {
        return None;
      }
      request := Some(text);
      if response.None? {
        return;
      }
      messages := messages + [FromRow(response.value, true)];
      lastMessageId := response.value.message.id;
    }

    /** `startRealTimeUpdates`. */
    method StartRealTimeUpdates()
      modifies this
      ensures polling
      ensures View() == old(View()) && currentUser == old(currentUser) && token == old(token)
      ensures stream == old(stream)
    {
      polling := true;
    }

    /** `logout`; `confirmed` is the answer to the confirmation dialog. */
    method Logout(confirmed: bool)
      modifies this
      ensures !confirmed ==>
        View() == old(View()) && currentUser == old(currentUser) && token == old(token)
        && stream == old(stream) && polling == old(polling)
      ensures confirmed ==>
        currentUser == None && token == None && View() == Mirror([], 0) && stream == None && !polling
    {
      if !confirmed {
        return;
      }
      stream := None;
      polling := false;
      currentUser, token := None, None;
      messages, lastMessageId := [], 0;
    }
  }
}
