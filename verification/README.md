# Chat client core: presence roster and message-feed paging

This project is a Dafny model of the small amount of original logic in the
chat client's main component, `src/App.js`. Everything else in the
application is rendering or calls into a hosted document store and
authentication service. The model covers:

- **Presence** (`presence.dfy`): each document of the `onlineUsers`
  collection gets an effective status. It is `Active` when the seconds since
  `lastActive` are below a threshold. A document without `lastActive` counts
  as 9999 seconds old. The listener set up at sign-in uses 10 s and keeps
  the snapshot's order. The listener that follows the `user` state uses 30 s
  and then sorts: active users first, then by e-mail.
- **Message feed** (`feed.dfy`): the collection is a sequence in query order
  (`createdAt` descending, document id descending on ties). The live
  listener replaces the held page with the newest 30 messages and puts the
  cursor on the last one. `loadMoreMessages` does nothing without a cursor.
  Otherwise it fetches up to 30 messages strictly after the cursor, appends
  them, and moves the cursor to the last one fetched, or clears it when none
  came back. The loading flag is raised while the query is pending and
  lowered afterwards, whether the query succeeds or fails.
- **Sending** (`composer.dfy`): text that JavaScript's `trim()` reduces to
  nothing is ignored. Otherwise one message is written with the text as
  typed, and the input is cleared once the write resolves.
- **Rendering order** (`display.dfy`): held messages are shown sorted by
  the whole seconds of their creation time; within a second the held order
  is kept (see Findings).
- **Teardown** (`session.dfy`): `cleanup` releases only the handles that
  are held, empties the held messages and the roster, and deletes the
  caller's presence document only for a non-empty user id. On logout it runs twice:
  `handleLogout` calls it with the user's id, and the sign-out it triggers
  makes the authentication listener call it again without one.
- Shared pieces: `Option` (`wrappers.dfy`), code-point string comparison
  (`lex.dfy`), and a stable insertion sort by a comparator (`sorting.dfy`).
  The sort models `Array.prototype.sort`, which is stable since ES2019.

Time, the clock reading, the store's contents and whether a store call
fails are all parameters. Times are integer milliseconds or `(seconds,
nanos)` timestamps. The source's fractional-second comparison
`(now - lastActive) / 1000 < T` is compared as `now - lastActive < T * 1000`,
and `Presence.Classify` proves the two agree for every input.

In these respects the model follows the code as written:

- Both presence thresholds (10 s and 30 s) are kept, as the code has both.
- E-mails are not compared case-insensitively: the code uses `localeCompare`,
  which the model approximates by code-point order (see Left out).
- No in-flight guard exists inside `loadMoreMessages`. Only the disabled
  button prevents a second call, so `Feed.LoadMore` has no precondition
  about it.
- Fetched batches are appended without dropping ids already held.
- `cleanup` deletes the presence document again whenever it is given an id.
  It runs only once per logout because the second call, from the sign-out
  notification, has no id (`Session.Logout`).
- Render order compares whole seconds only (see Findings).

## Model

| member | source | states |
|---|---|---|
| Lex.Compare | src/App.js:273 | three-way string comparison; it returns zero exactly when the two strings are equal |
| Sorting.SortBy | src/App.js:271-276 | sorting with a comparator yields a permutation of the input of the same length |
| Sorting.SortBySorted | src/App.js:271-276 | with a comparator that is a total preorder, the sorted result is in comparator order |
| Sorting.SortByStable | src/App.js:271-276 | the sort is stable: the elements tying with any given element come out in the order they went in |
| Sorting.SortByOfSorted | src/App.js:327-328 | an already ordered array comes back unchanged: the sort only moves elements past ones they must follow |
| Sorting.SortByAppend | src/App.js:327-328 | sorting a concatenation equals the stable merge of the two sorted parts, ties taken from the first part |
| Presence.Classify | src/App.js:257-266 | status is Active iff the source's elapsed seconds (ms difference / 1000, or 9999 without lastActive) are below the threshold; without lastActive and with any threshold up to 9999 it is Inactive |
| Presence.ClassifyRecord | src/App.js:262-267 | the result equals the input record in id and every stored field; only status is replaced, by the effective status |
| Presence.ClassifyAll | src/App.js:255-268 | one classified record per document, at the same position, each keeping all fields but status |
| Presence.RosterLeIsTotalPreorder | src/App.js:271-276 | the roster comparator is total and transitive, so the sort's order is well defined |
| Presence.SortRoster | src/App.js:270-276 | permutation of its input; no inactive entry precedes an active one; entries of equal status are in e-mail order |
| Presence.SignInRoster | src/App.js:127-143 | the sign-in listener keeps the snapshot's order and marks a record Active iff it was active within the last 10 s |
| Presence.SortedRoster | src/App.js:254-279 | the 30 s listener's roster is a permutation of the classified snapshot, active entries first, then e-mail order |
| Presence.SortedRosterEntries | src/App.js:254-278 | every roster entry is a snapshot document with only its status recomputed, and every document appears |
| Presence.ActiveEarlier | src/App.js:258-266 | a record active at some instant was active at every earlier instant |
| Presence.SignInActiveImpliesRosterActive | src/App.js:130-138 | every record active for the 10 s listener is active for the 30 s one; one 20 s old is inactive for the first and active for the second |
| Presence.RosterExample | src/App.js:271-276 | active b@x, active a@x, inactive c@x sort as a@x, b@x, c@x |
| Feed.PrecedesTransitive | src/App.js:223-226 | the feed's query order is transitive |
| Feed.StartAfter | src/App.js:226 | a message is in the result iff it is stored and comes strictly after the cursor in query order |
| Feed.StartAfterIsSuffix | src/App.js:223-228 | on a collection in query order, startAfter yields a suffix, and every message before it is not after the cursor |
| Feed.StartAfterStored | src/App.js:226 | starting after a stored message yields exactly the messages that follow it |
| Feed.FetchOlder | src/App.js:223-230 | at most 30 messages, each stored and strictly after the cursor |
| Feed.FetchOlderIsNextRun | src/App.js:223-230 | a fetch is the contiguous run of up to 30 messages right after the cursor, with no message skipped |
| Feed.LatestPage | src/App.js:110-114 | the live page is the newest min(30, n) messages of the collection |
| Feed.SubscribedHoldsFirstPage | src/App.js:118-124 | the first live delivery holds the newest min(30, n) messages, with the cursor on the last of them unless the collection is empty |
| Feed.OnSnapshot | src/App.js:118-124 | a delivered page replaces everything held, older pages included; the cursor is its last message, or absent for an empty page |
| Feed.SnapshotDropsLoadedPages | src/App.js:118-124 | after any number of loads, the next live delivery leaves only the newest page, with the cursor on its last message |
| Feed.LoadMore | src/App.js:218-248 | no cursor: no query and no state change; otherwise one query from the cursor, flag raised while pending and lowered after; failure keeps page and cursor; success appends at most 30 messages after the cursor to the unchanged old prefix, and the cursor moves to the batch's last message or clears on an empty batch |
| Feed.LoadFromPrefix | src/App.js:236-242 | holding the first m stored messages with the cursor on the m-th, one load holds the first min(m+30, n) and clears the cursor only when m = n |
| Feed.LoadsPageThrough | src/App.js:218-248 | after k loads from the live page the feed holds the newest min(30(k+1), n) messages; the cursor is present iff 30k < n |
| Feed.SixtyFiveMessages | src/App.js:238-242 | 65 messages: live page 30, then loads bring 30, 5 and nothing, and the third load clears the cursor |
| Feed.ExhaustedStaysExhausted | src/App.js:219 | once the cursor is cleared, any number of further loads changes nothing |
| Composer.TrimEmptyIffWhitespace | src/App.js:176 | trim() yields the empty string exactly for text made only of whitespace and line terminators, the empty text included |
| Composer.SendMessage | src/App.js:175-184 | no write iff the text is blank; then the input is kept; otherwise exactly one write with the untrimmed text, the clock reading and the user's e-mail and photo, and the input is cleared iff the write succeeds and otherwise keeps the text exactly as typed |
| Composer.BlankInputsAreIgnored | src/App.js:176 | three spaces, space-tab-newline and the empty text produce no write and keep the input |
| Composer.TextIsStoredUntrimmed | src/App.js:177-183 | " hi " is stored with its spaces and the input is cleared |
| Display.RenderOrderBySeconds | src/App.js:327-328 | as written: a permutation of the held messages with whole seconds non-decreasing |
| Display.RenderOrder | src/App.js:327-328 | as intended: a permutation in which no message is rendered after a later one |
| Display.SameSecondRendersNewestFirst | src/App.js:328 | two messages in one second, held newest first, render newest first as written and oldest first as intended |
| Display.SameSecondKeepsHeldOrder | src/App.js:327-328 | as written, the messages sharing any message's second are rendered in the order in which they are held |
| Display.OrdersAgreeAcrossSeconds | src/App.js:328 | when no two held messages share a second, the as-written and intended orders coincide |
| Display.RenderExample | src/App.js:327-328 | messages created at seconds 3, 1, 2 render as 1, 2, 3, both as written and as intended |
| Display.RerenderChangesNothing | src/App.js:327-328 | sorting the already rendered order again, as each render does in place, leaves it unchanged |
| Display.RenderAfterAppend | src/App.js:327-328 | once loads have appended a batch to the array that an earlier render sorted in place, the render gives what sorting the messages in fetch order gives |
| Session.Cleanup | src/App.js:37-64 | a release effect for exactly the held handles, in the order messages, roster, timer; a delete for exactly a non-empty id, last; afterwards nothing is held and the held messages and the roster are empty |
| Session.CleanupIdempotent | src/App.js:37-64 | a second cleanup without an id has no effects and leaves the state as it is |
| Session.Logout | src/App.js:165-173 | across the logout call and the second cleanup that the sign-out triggers in the authentication listener (src/App.js:149), a release effect is issued exactly for each held handle and each effect at most once; the presence document is deleted once, or never for an empty id; afterwards nothing is held |

## Left out

- Rendering, JSX, React hooks and the batching of `useState` updates. These are UI framework behaviour.
- Stale closures: the auth listener is registered once (src/App.js:66-163), so its `cleanup` sees the handles held at mount. `Session.Cleanup` releases the handles it is given.
- Both presence listeners store their handle in the same state slot (src/App.js:147 and 281), and which one lands last depends on timing. Usually `setUser` (src/App.js:72) runs the `[user]` effect first, which stores the 30 s handle (src/App.js:281); the auth callback is still awaiting the store (src/App.js:78-96), and only afterwards stores the 10 s handle over it (src/App.js:147). `ClientState` has a single roster handle, so this is not modelled.
- The sign-in presence upsert (src/App.js:74-97), a store write driven by the authentication notification, and the 5-second heartbeat (src/App.js:100-107), a store write driven by a timer.
- The interleaving of the two presence listeners. Each is modelled alone, with its own threshold.
- A live snapshot arriving while a load is pending. `Feed.LoadMore` appends to the messages held when it is called; the source's functional update appends to whatever is held when the query resolves.
- Session.Logout: one presence subscription is never released. Only the last handle stored is kept, so `cleanup` cannot release the listener whose handle was overwritten, usually the 30 s one. It keeps running after logout; `cleanup`'s own presence delete (src/App.js:59) triggers it, and it can refill the roster right after `setOnlineUsers([])` (src/App.js:54). The `[user]` effect (src/App.js:250-283) returns no teardown, so each sign-in adds another 30 s listener. `ClientState` holds one roster handle, so the model cannot show the leak; its `Released` state is what `cleanup` promises for the handles it holds.
- Presence.ClassifyAll: one clock reading serves the whole snapshot. The source reads the clock once per record, which differs by the time spent mapping.
- Lex.Compare: compares strings by code point, not by locale collation as `localeCompare` does.
- Presence.SortRoster: orders e-mails by code point, an approximation of `localeCompare`'s locale collation. Records without an e-mail are not modelled: `a.email.localeCompare(b.email)` (src/App.js:273) throws when `a` has none, and compares against the string "undefined" when only `b` has none.
- The in-place mutation of `messages` by `.sort` during rendering (src/App.js:327-328). The model renders a sorted copy; `Display.RerenderChangesNothing` shows that sorting it again leaves it as it is. `Display.RenderAfterAppend` shows that sorting the rendered order with a batch appended gives the same result as sorting the unsorted messages with the batch appended, so the copy renders as the in-place array does; the cursor does not depend on the held order.
- Session.Cleanup: the source resets only the held messages and the roster (src/App.js:53-54). The feed's cursor and loading flag are not reset, so they survive logout until the next live delivery; they are not part of `ClientState`, and the model promises nothing about them across a logout.
- Composer.SendMessage: a rejected write is modelled only by its effect on the input box. The rejection itself propagates out of the handler and is not modelled.
- Store calls are not modelled as an SDK: the collection is a sequence, and a failed query is a flag. The outcome of the presence delete is ignored because the source logs and swallows any failure.
- Scroll tracking and auto-scroll (src/App.js:187-209), date formatting (src/App.js:350), avatar fallbacks, `src/Sidebar.js` and `src/Auth.js`. These are DOM measurement and rendering.

## Findings

| source | as written | input that shows it | evidently intended | confidence | as-written member | corrected member |
|---|---|---|---|---|---|---|
| src/App.js:328 | the render comparator subtracts `createdAt.seconds` only, and the stable sort keeps the held newest-first order within a second | two messages created at 10.7 s and 10.2 s, held newest first as the feed query returns them | messages rendered ascending by full creation time | not executed; high that the order is reversed within a second, given a stable sort and millisecond timestamps | Display.RenderOrderBySeconds, Display.SameSecondKeepsHeldOrder, Display.SameSecondRendersNewestFirst | Display.RenderOrder |
