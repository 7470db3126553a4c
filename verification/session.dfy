/** Session teardown (src/App.js:37-64 and 165-173): `cleanup` releases the
    subscription and timer handles that are held, empties the held messages and the
    roster, and deletes the caller's presence document when given a user id.
    The handles are modelled by whether they are held. */
module Session {
  import opened Wrappers
  import Feed
  import Presence

  /** The outside effects of a call, in the order they are issued. */
  datatype Effect =
    | UnsubscribeMessages
    | UnsubscribeOnlineUsers
    | ClearHeartbeat
    | DeletePresence(uid: string)

  datatype ClientState = ClientState(
    messagesSub: bool,
    onlineUsersSub: bool,
    heartbeat: bool,
    messages: seq<Feed.Message>,
    onlineUsers: seq<Presence.PresenceRecord>)

  /** No handle held and nothing shown. */
  predicate Released(st: ClientState)
  {
    !st.messagesSub && !st.onlineUsersSub && !st.heartbeat && st.messages == [] && st.onlineUsers == []
  }

  datatype CleanupResult = CleanupResult(effects: seq<Effect>, after: ClientState)

  /** `if (userId)`: an absent or empty id is falsy. */
  predicate Truthy(userId: Option<string>)
  {
    userId.Some? && userId.value != ""
  }

  /** Position of an effect kind in the cleanup sequence. */
  function Rank(e: Effect): nat
  {
    match e
    case UnsubscribeMessages => 0
    case UnsubscribeOnlineUsers => 1
    case ClearHeartbeat => 2
    case DeletePresence(_) => 3
  }

  /** Each effect kind at most once, in the order messages, roster, timer, delete. */
  predicate RankOrdered(effects: seq<Effect>)
  {
    forall i, j | 0 <= i < j < |effects| :: Rank(effects[i]) < Rank(effects[j])
  }

  /** `if (handle) { release }` ahead of the effects that follow. */
  function IssueIf(held: bool, e: Effect, rest: seq<Effect>): (r: seq<Effect>)
    requires RankOrdered(rest)
    requires forall x | x in rest :: Rank(e) < Rank(x)
    ensures RankOrdered(r)
    ensures forall x :: x in r <==> (held && x == e) || x in rest
    ensures forall x | x in r :: Rank(e) <= Rank(x)
  {
    if held then [e] + rest else rest
  }

  /** `cleanup(userId)`. A failed delete is logged and swallowed, so its
      outcome changes nothing here. */
  function Cleanup(st: ClientState, userId: Option<string>): (r: CleanupResult)
    ensures Released(r.after)
    ensures UnsubscribeMessages in r.effects <==> st.messagesSub
    ensures UnsubscribeOnlineUsers in r.effects <==> st.onlineUsersSub
    ensures ClearHeartbeat in r.effects <==> st.heartbeat
    ensures forall u :: DeletePresence(u) in r.effects <==> Truthy(userId) && u == userId.value
    ensures RankOrdered(r.effects)
  {
    var delete := if Truthy(userId) then [DeletePresence(userId.value)] else [];
    var timer := IssueIf(st.heartbeat, ClearHeartbeat, delete);
    var roster := IssueIf(st.onlineUsersSub, UnsubscribeOnlineUsers, timer);
    var effects := IssueIf(st.messagesSub, UnsubscribeMessages, roster);
    CleanupResult(effects, ClientState(false, false, false, [], []))
  }

  /** Cleaning up a released client without a user id does nothing. */
  lemma CleanupIdempotent(st: ClientState, userId: Option<string>)
    ensures var once := Cleanup(st, userId).after;
      Cleanup(once, None) == CleanupResult([], once)
  {
  }

  /** `handleLogout`: `cleanup(uid)`, then the sign-out notification runs
      `cleanup(user?.uid)` with no user, so there is no id the second time.
      The effects of both calls, in order, still hold each effect at most
      once: the presence document is deleted once, or not at all for an
      empty id. */
  function Logout(st: ClientState, uid: string): (r: CleanupResult)
    ensures Released(r.after)
    ensures UnsubscribeMessages in r.effects <==> st.messagesSub
    ensures UnsubscribeOnlineUsers in r.effects <==> st.onlineUsersSub
    ensures ClearHeartbeat in r.effects <==> st.heartbeat
    ensures forall u :: DeletePresence(u) in r.effects <==> u == uid && uid != ""
    ensures RankOrdered(r.effects)
  {
    var first := Cleanup(st, Some(uid));
    var second := Cleanup(first.after, None);
    assert second.effects == [];
    CleanupResult(first.effects + second.effects, second.after)
  }
}
