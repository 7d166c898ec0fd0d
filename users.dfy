/** The presence endpoint: a GET listing the users active in the last five
    minutes, most recently active first. */
module Presence {
  import opened Base
  import opened Store
  import Sorting

  /** One row of the answer: only the username and `last_active`. */
  datatype Seen = Seen(username: string, lastActive: int)

  datatype PresenceReply = NoContent | Listed(rows: seq<Seen>)

  /** The presence window: five minutes, in milliseconds. */
  const Window: int := 5 * 60 * 1000

  /** `last_active > NOW() - INTERVAL '5 minutes'`; a NULL `last_active` is not. */
  predicate Recent(u: User, now: int) {
    u.lastActive.Some? && u.lastActive.value > now - Window
  }

  /** The selected rows, projected, in table order. */
  function Selected(users: seq<User>, now: int): (r: seq<Seen>)
    ensures forall s :: s in r <==> exists u :: u in users && Recent(u, now) && s == Seen(u.username, u.lastActive.value)
    ensures |r| <= |users|
  {
    if users == [] then []
    else
      var u := users[0];
      assert forall v :: v in users ==> v == u || v in users[1..];
      (if Recent(u, now) then [Seen(u.username, u.lastActive.value)] else []) + Selected(users[1..], now)
  }

  function Recency(s: Seen): int {
    -s.lastActive
  }

  /** `ORDER BY last_active DESC` of the selected rows. */
  function Online(users: seq<User>, now: int): (r: seq<Seen>)
    ensures forall i, j :: 0 <= i < j < |r| ==> r[i].lastActive >= r[j].lastActive
    ensures multiset(r) == multiset(Selected(users, now))
  {
    var sorted := Sorting.SortBy(Selected(users, now), Recency);
    assert forall i, j :: 0 <= i < j < |sorted| ==> Recency(sorted[i]) <= Recency(sorted[j]);
    sorted
  }

  /** The answer holds exactly the users active within the window, each as its
      username and time, and only those. */
  lemma OnlineMembers(users: seq<User>, now: int, s: Seen)
    ensures s in Online(users, now) <==>
      exists u :: u in users && u.lastActive.Some? && u.lastActive.value > now - 300000
        && s == Seen(u.username, u.lastActive.value)
  {
    var r := Online(users, now);
    assert s in r <==> s in multiset(r);
    assert s in Selected(users, now) <==> s in multiset(Selected(users, now));
  }

  /** The handler; it only reads the users table. */
  function Handle(verb: Verb, users: seq<User>, now: int): (answer: (nat, PresenceReply))
    ensures verb == Options ==> answer == (200, NoContent)
    ensures verb != Options && verb != Get ==> answer == (405, NoContent)
    ensures verb == Get ==> answer.0 == 200 && answer.1.Listed? && answer.1.rows == Online(users, now)
  {
    if verb == Options then (200, NoContent)
    else if verb != Get then (405, NoContent)
    else (200, Listed(Online(users, now)))
  }
}
