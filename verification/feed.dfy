/** The message feed: a live page of the newest messages plus older pages
    fetched on demand, with the last message held as the continuation cursor
    (src/App.js:110-124 and 218-248). The message collection is modelled as a
    sequence in the order the feed queries it: `createdAt` descending, with the
    document id (descending) breaking ties, as the store does for an
    `orderBy` followed by `startAfter` on a document. */
module Feed {
  import opened Wrappers
  import Lex

  /** Both queries of the feed use `limit(30)`. */
  const PageSize := 30

  /** A stored time: whole seconds and the nanoseconds within that second. */
  datatype Timestamp = Timestamp(seconds: int, nanos: int)

  predicate TsLt(a: Timestamp, b: Timestamp)
  {
    a.seconds < b.seconds || (a.seconds == b.seconds && a.nanos < b.nanos)
  }

  datatype Message = Message(
    id: string,
    text: string,
    createdAt: Timestamp,
    email: string,
    avatar: Option<string>)

  /** `a` comes before `b` in the feed's query order: `b` is older, or equally
      old with a smaller document id. */
  predicate Precedes(a: Message, b: Message)
  {
    || TsLt(b.createdAt, a.createdAt)
    || (b.createdAt == a.createdAt && Lex.Lt(b.id, a.id))
  }

  lemma PrecedesTransitive(a: Message, b: Message, c: Message)
    requires Precedes(a, b) && Precedes(b, c)
    ensures Precedes(a, c)
  {
    if a.createdAt == b.createdAt == c.createdAt {
      Lex.LtTransitive(c.id, b.id, a.id);
    }
  }

  /** The collection in query order: every message precedes all later ones.
      Document ids are unique, so no two messages tie. */
  predicate Descending(store: seq<Message>)
  {
    forall i, j | 0 <= i < j < |store| :: Precedes(store[i], store[j])
  }

  function Min(a: int, b: int): int
  {
    if a <= b then a else b
  }

  /** The first `n` elements, or all of them when there are fewer. */
  function Take<T>(s: seq<T>, n: nat): (r: seq<T>)
    ensures |r| == Min(n, |s|)
    ensures r == s[..|r|]
  {
    if n <= |s| then s[..n] else s
  }

  /** `startAfter(cursor)`: the messages of the collection that come strictly
      after the cursor in query order. The cursor need not be stored. */
  function StartAfter(store: seq<Message>, cursor: Message): (r: seq<Message>)
    ensures |r| <= |store|
    ensures forall m :: m in r <==> m in store && Precedes(cursor, m)
  {
    if |store| == 0 then []
    else if Precedes(cursor, store[0]) then [store[0]] + StartAfter(store[1..], cursor)
    else StartAfter(store[1..], cursor)
  }

  /** On a collection in query order, `startAfter` yields a suffix: the
      messages before position `j` are not after the cursor and all from `j`
      on are. */
  lemma {:induction false} StartAfterIsSuffix(store: seq<Message>, cursor: Message) returns (j: nat)
    requires Descending(store)
    ensures j <= |store|
    ensures StartAfter(store, cursor) == store[j..]
    ensures forall i | 0 <= i < j :: !Precedes(cursor, store[i])
  {
    if |store| == 0 {
      return 0;
    }
    var j' := StartAfterIsSuffix(store[1..], cursor);
    if Precedes(cursor, store[0]) {
      if j' > 0 {
        PrecedesTransitive(cursor, store[0], store[1]);
        assert false;
      }
      j := 0;
    } else {
      j := j' + 1;
      forall i | 0 <= i < j
        ensures !Precedes(cursor, store[i])
      {
        if i > 0 {
          assert store[i] == store[1..][i - 1];
        }
      }
    }
  }

  lemma PrecedesIrreflexive(a: Message)
    ensures !Precedes(a, a)
  {
  }

  /** When every message is after the cursor, `startAfter` keeps them all. */
  lemma {:induction false} StartAfterAll(s: seq<Message>, cursor: Message)
    requires forall i | 0 <= i < |s| :: Precedes(cursor, s[i])
    ensures StartAfter(s, cursor) == s
  {
    if |s| > 0 {
      StartAfterAll(s[1..], cursor);
    }
  }

  /** At a stored message, `startAfter` yields exactly what follows it. */
  lemma {:induction false} StartAfterStored(store: seq<Message>, k: nat)
    requires Descending(store)
    requires k < |store|
    ensures StartAfter(store, store[k]) == store[k + 1..]
  {
    PrecedesIrreflexive(store[k]);
    if k == 0 {
      StartAfterAll(store[1..], store[0]);
    } else {
      if Precedes(store[k], store[0]) {
        PrecedesTransitive(store[0], store[k], store[0]);
      }
      StartAfterStored(store[1..], k - 1);
    }
  }

  /** The query of `loadMoreMessages` (src/App.js:223-230): at most one page
      of messages strictly after the cursor. */
  function FetchOlder(store: seq<Message>, cursor: Message): (batch: seq<Message>)
    ensures |batch| <= PageSize
    ensures forall m | m in batch :: m in store && Precedes(cursor, m)
  {
    var after := StartAfter(store, cursor);
    var batch := Take(after, PageSize);
    assert forall m | m in batch :: m in after;
    batch
  }

  /** On a collection in query order, a fetch skips nothing: it is a
      contiguous run of the collection that starts right after the last
      message not after the cursor, and it stops short of a full page only at
      the end of the collection. */
  lemma FetchOlderIsNextRun(store: seq<Message>, cursor: Message) returns (j: nat)
    requires Descending(store)
    ensures j <= |store|
    ensures FetchOlder(store, cursor) == store[j..Min(j + PageSize, |store|)]
    ensures forall i | 0 <= i < j :: !Precedes(cursor, store[i])
    ensures forall i | j <= i < |store| :: Precedes(cursor, store[i])
  {
    j := StartAfterIsSuffix(store, cursor);
    forall i | j <= i < |store|
      ensures Precedes(cursor, store[i])
    {
      assert store[i] in store[j..];
    }
  }

  /** The live query (src/App.js:110-114): the newest page of messages. */
  function LatestPage(store: seq<Message>): (page: seq<Message>)
    ensures |page| == Min(PageSize, |store|)
    ensures page == store[..|page|]
  {
    Take(store, PageSize)
  }

  /** The feed as the component holds it: `messages`, `lastVisible` (the
      cursor) and `isLoadingMore`. */
  datatype FeedState = FeedState(messages: seq<Message>, cursor: Option<Message>, isLoadingMore: bool)

  const Initial := FeedState([], None, false)

  /** The last element of a page, as `docs[docs.length - 1]`: absent
      (`undefined`, which the component treats like null) for an empty page. */
  function LastOf(page: seq<Message>): (c: Option<Message>)
    ensures c.None? <==> |page| == 0
    ensures c.Some? ==> c.value == page[|page| - 1]
  {
    if |page| == 0 then None else Some(page[|page| - 1])
  }

  /** The live listener (src/App.js:118-124): the delivered page replaces
      whatever was held, older pages included, and the cursor moves to the
      page's last message. */
  function OnSnapshot(st: FeedState, page: seq<Message>): (st': FeedState)
    ensures st'.messages == page
    ensures st'.cursor == LastOf(page)
    ensures st'.isLoadingMore == st.isLoadingMore
  {
    FeedState(page, LastOf(page), st.isLoadingMore)
  }

  /** One call of `loadMoreMessages`: the cursor the query used (None when no
      query was made), the state while the query is pending, and the state
      once it has settled. */
  datatype LoadStep = LoadStep(query: Option<Message>, during: FeedState, after: FeedState)

  /** `loadMoreMessages` (src/App.js:218-248) against the collection `store`;
      `fetchFails` stands for a rejected query. */
  function LoadMore(st: FeedState, store: seq<Message>, fetchFails: bool): (step: LoadStep)
    // no cursor: nothing happens at all
    ensures st.cursor.None? ==> step == LoadStep(None, st, st)
    // otherwise one query from the cursor, with the flag raised while it is pending
    ensures st.cursor.Some? ==>
      && step.query == st.cursor
      && step.during == st.(isLoadingMore := true)
      && !step.after.isLoadingMore
    // a failed query leaves the page and the cursor as they were
    ensures st.cursor.Some? && fetchFails ==>
      step.after.messages == st.messages && step.after.cursor == st.cursor
    // a successful one appends a batch of at most one page, all after the cursor
    ensures st.cursor.Some? && !fetchFails ==>
      && |st.messages| <= |step.after.messages| <= |st.messages| + PageSize
      && step.after.messages[..|st.messages|] == st.messages
      && (forall m | m in step.after.messages[|st.messages|..] :: m in store && Precedes(st.cursor.value, m))
      && step.after.cursor == LastOf(step.after.messages[|st.messages|..])
    // the batch is what the query from the cursor returns
    ensures st.cursor.Some? && !fetchFails ==>
      step.after.messages == st.messages + FetchOlder(store, st.cursor.value)
  {
    match st.cursor
    case None => LoadStep(None, st, st)
    case Some(c) =>
      var during := st.(isLoadingMore := true);
      if fetchFails then
        LoadStep(Some(c), during, st.(isLoadingMore := false))
      else
        var batch := FetchOlder(store, c);
        var after := FeedState(st.messages + batch, LastOf(batch), false);
        assert after.messages[|st.messages|..] == batch;
        LoadStep(Some(c), during, after)
  }

  /** The feed once the live listener has delivered its first page. */
  function Subscribed(store: seq<Message>): FeedState
  {
    OnSnapshot(Initial, LatestPage(store))
  }

  /** `k` successful calls of `loadMoreMessages` in a row. */
  function LoadRepeatedly(st: FeedState, store: seq<Message>, k: nat): FeedState
  {
    if k == 0 then st
    else LoadMore(LoadRepeatedly(st, store, k - 1), store, false).after
  }

  /** A successful load from a cursor appends the fetched batch and moves the
      cursor to its last message. */
  lemma LoadMoreSucceeds(st: FeedState, store: seq<Message>, c: Message)
    requires st.cursor == Some(c)
    ensures LoadMore(st, store, false).after
         == FeedState(st.messages + FetchOlder(store, c), LastOf(FetchOlder(store, c)), false)
  {
  }

  /** One successful load from a state holding the first `m` messages of the
      collection, with the cursor on the last of them, brings the next run of
      up to 30 and clears the cursor only when nothing was left. */
  lemma LoadFromPrefix(st: FeedState, store: seq<Message>, m: nat, e: nat)
    requires Descending(store)
    requires 0 < m <= |store|
    requires e == Min(m + PageSize, |store|)
    requires st.messages == store[..m] && st.cursor == Some(store[m - 1])
    ensures LoadMore(st, store, false).after.messages == store[..e]
    ensures LoadMore(st, store, false).after.cursor == (if m < |store| then Some(store[e - 1]) else None)
    ensures !LoadMore(st, store, false).after.isLoadingMore
  {
    StartAfterStored(store, m - 1);
    var batch := FetchOlder(store, store[m - 1]);
    assert batch == Take(store[m..], PageSize);
    TakeOfSuffix(store, m, e);
    LoadMoreSucceeds(st, store, store[m - 1]);
    PrefixThenRun(store, m, e);
  }

  lemma TakeOfSuffix(store: seq<Message>, m: nat, e: nat)
    requires m <= |store| && e == Min(m + PageSize, |store|)
    ensures Take(store[m..], PageSize) == store[m..e]
    ensures LastOf(store[m..e]) == (if m < |store| then Some(store[e - 1]) else None)
  {
  }

  lemma PrefixThenRun(store: seq<Message>, m: nat, e: nat)
    requires m <= e <= |store|
    ensures store[..m] + store[m..e] == store[..e]
  {
  }

  /** The invariant of repeated loads: the feed holds the first `m` stored
      messages, the cursor sits on the last of them unless it was cleared,
      and nothing is pending. */
  predicate PagedTo(st: FeedState, store: seq<Message>, m: nat, cursorHeld: bool)
  {
    && m <= |store|
    && st.messages == store[..m]
    && (cursorHeld ==> m > 0)
    && st.cursor == (if cursorHeld then Some(store[m - 1]) else None)
    && !st.isLoadingMore
  }

  lemma {:induction false} LoadsPageThroughStep(prev: FeedState, store: seq<Message>, k: nat)
    requires Descending(store)
    requires PagedTo(prev, store, Min(PageSize * (k + 1), |store|), PageSize * k < |store|)
    ensures PagedTo(LoadMore(prev, store, false).after, store,
                    Min(PageSize * (k + 2), |store|), PageSize * (k + 1) < |store|)
  {
    var m := Min(PageSize * (k + 1), |store|);
    if prev.cursor.Some? {
      LoadFromPrefix(prev, store, m, Min(PageSize * (k + 2), |store|));
    }
  }

  /** The live listener's first delivery holds the newest page, with the
      cursor on its last message unless the collection is empty. */
  lemma SubscribedHoldsFirstPage(store: seq<Message>)
    ensures PagedTo(Subscribed(store), store, Min(PageSize, |store|), 0 < |store|)
  {
    var page := LatestPage(store);
    assert Subscribed(store) == FeedState(page, LastOf(page), false);
  }

  /** Repeated loads on a fixed collection of `n` messages page through it in
      order: after `k` loads the feed holds the newest `30 * (k + 1)` (or all
      `n`), and the cursor is cleared exactly when `30 * k` reaches `n`. So the
      "load older" control disappears after ceil(n / 30) loads. */
  lemma {:induction false} LoadsPageThrough(store: seq<Message>, k: nat)
    requires Descending(store)
    ensures PagedTo(LoadRepeatedly(Subscribed(store), store, k), store,
                    Min(PageSize * (k + 1), |store|), PageSize * k < |store|)
  {
    if k == 0 {
      SubscribedHoldsFirstPage(store);
    } else {
      LoadsPageThrough(store, k - 1);
      var prev := LoadRepeatedly(Subscribed(store), store, k - 1);
      LoadsPageThroughStep(prev, store, k - 1);
      assert LoadRepeatedly(Subscribed(store), store, k) == LoadMore(prev, store, false).after;
      assert PageSize * (k - 1 + 2) == PageSize * (k + 1) && PageSize * (k - 1 + 1) == PageSize * k;
    }
  }

  /** 65 messages: the live page holds 30, then loads bring 30, 5 and
      nothing, and the last load clears the cursor. */
  lemma SixtyFiveMessages(store: seq<Message>)
    requires Descending(store) && |store| == 65
    ensures |Subscribed(store).messages| == 30
    ensures |LoadRepeatedly(Subscribed(store), store, 1).messages| == 60
    ensures |LoadRepeatedly(Subscribed(store), store, 2).messages| == 65
    ensures LoadRepeatedly(Subscribed(store), store, 2).cursor.Some?
    ensures LoadRepeatedly(Subscribed(store), store, 3).messages == store
    ensures LoadRepeatedly(Subscribed(store), store, 3).cursor.None?
  {
    LoadsPageThrough(store, 0);
    LoadsPageThrough(store, 1);
    LoadsPageThrough(store, 2);
    LoadsPageThrough(store, 3);
  }

  /** Whatever older pages were loaded, the next live delivery (say, after a
      new message is posted) leaves only the newest page and puts the cursor
      back on its last message. */
  lemma SnapshotDropsLoadedPages(store: seq<Message>, k: nat, store': seq<Message>)
    requires Descending(store)
    ensures OnSnapshot(LoadRepeatedly(Subscribed(store), store, k), LatestPage(store')) == Subscribed(store')
  {
    LoadsPageThrough(store, k);
  }

  /** Once the cursor is cleared, further loads change nothing. */
  lemma ExhaustedStaysExhausted(st: FeedState, store: seq<Message>, k: nat)
    requires st.cursor.None?
    ensures LoadRepeatedly(st, store, k) == st
  {
  }
}
