/** The order in which the feed is rendered (src/App.js:327-328): the held
    messages, sorted ascending by creation time. The source's comparator looks
    at whole seconds only; `RenderOrderBySeconds` models it as written and
    `RenderOrder` the chronological order it evidently means (README,
    "Findings"). */
module Display {
  import opened Wrappers
  import Feed
  import Sorting

  /** The comparator as written: `a.createdAt.seconds - b.createdAt.seconds`. */
  function SecondsCompare(a: Feed.Message, b: Feed.Message): int
  {
    a.createdAt.seconds - b.createdAt.seconds
  }

  predicate SecondsLe(a: Feed.Message, b: Feed.Message)
  {
    SecondsCompare(a, b) <= 0
  }

  /** Creation-time order including the sub-second part. */
  predicate ChronoLe(a: Feed.Message, b: Feed.Message)
  {
    !Feed.TsLt(b.createdAt, a.createdAt)
  }

  /** Render order as written: a permutation with whole seconds non-decreasing;
      messages within one second keep the order in which they are held. */
  function RenderOrderBySeconds(messages: seq<Feed.Message>): (r: seq<Feed.Message>)
    ensures multiset(r) == multiset(messages)
    ensures forall i, j | 0 <= i < j < |r| :: r[i].createdAt.seconds <= r[j].createdAt.seconds
  {
    Sorting.SortBySorted(messages, SecondsLe);
    var r := Sorting.SortBy(messages, SecondsLe);
    assert forall i, j | 0 <= i < j < |r| :: SecondsLe(r[i], r[j]);
    r
  }

  /** Render order as intended: a permutation in which no message is shown
      after a later one. */
  function RenderOrder(messages: seq<Feed.Message>): (r: seq<Feed.Message>)
    ensures multiset(r) == multiset(messages)
    ensures forall i, j | 0 <= i < j < |r| :: !Feed.TsLt(r[j].createdAt, r[i].createdAt)
  {
    Sorting.SortBySorted(messages, ChronoLe);
    var r := Sorting.SortBy(messages, ChronoLe);
    assert forall i, j | 0 <= i < j < |r| :: ChronoLe(r[i], r[j]);
    r
  }

  /** Two messages sent within the same second, held newest first as the
      feed holds them, are rendered newest first by the comparator as written
      and oldest first by the intended order. */
  lemma SameSecondRendersNewestFirst(newer: Feed.Message, older: Feed.Message)
    requires newer == Feed.Message("b", "second", Feed.Timestamp(10, 700_000_000), "x@y", None)
    requires older == Feed.Message("a", "first", Feed.Timestamp(10, 200_000_000), "x@y", None)
    ensures Feed.Descending([newer, older])
    ensures Feed.TsLt(older.createdAt, newer.createdAt)
    ensures RenderOrderBySeconds([newer, older]) == [newer, older]
    ensures RenderOrder([newer, older]) == [older, newer]
  {
    Sorting.SortTwoInOrder(newer, older, SecondsLe);
    Sorting.SortTwoSwapped(newer, older, ChronoLe);
  }

  /** As written, messages created within the same second as `e` are
      rendered in the order in which they are held. The feed holds them
      newest first, so within a second they are rendered newest first. */
  lemma SameSecondKeepsHeldOrder(messages: seq<Feed.Message>, e: Feed.Message)
    ensures Sorting.TiesWith(RenderOrderBySeconds(messages), e, SecondsLe)
         == Sorting.TiesWith(messages, e, SecondsLe)
    ensures forall m | m in Sorting.TiesWith(messages, e, SecondsLe) :: m.createdAt.seconds == e.createdAt.seconds
  {
    Sorting.SortByStable(messages, e, SecondsLe);
  }

  /** When no two held messages share a second, the comparator as written and
      the intended order render the same sequence. */
  lemma OrdersAgreeAcrossSeconds(messages: seq<Feed.Message>)
    requires forall x, y | x in messages && y in messages && x != y :: x.createdAt.seconds != y.createdAt.seconds
    ensures RenderOrderBySeconds(messages) == RenderOrder(messages)
  {
    Sorting.SortByCongruent(messages, SecondsLe, ChronoLe);
  }

  /** Messages created at seconds 3, 1 and 2 render as 1, 2, 3. */
  lemma RenderExample(m1: Feed.Message, m2: Feed.Message, m3: Feed.Message)
    requires m1.createdAt == Feed.Timestamp(1, 0)
    requires m2.createdAt == Feed.Timestamp(2, 0)
    requires m3.createdAt == Feed.Timestamp(3, 0)
    ensures RenderOrder([m3, m1, m2]) == [m1, m2, m3]
    ensures RenderOrderBySeconds([m3, m1, m2]) == [m1, m2, m3]
  {
    Sorting.SortThreeHeadLast(m3, m1, m2, ChronoLe);
    Sorting.SortThreeHeadLast(m3, m1, m2, SecondsLe);
  }

  /** The source sorts the held array in place on every render. Sorting what
      an earlier render already sorted changes nothing, so repeated renders
      show the same order. */
  lemma RerenderChangesNothing(messages: seq<Feed.Message>)
    ensures RenderOrderBySeconds(RenderOrderBySeconds(messages)) == RenderOrderBySeconds(messages)
  {
    Sorting.SortByIdempotent(messages, SecondsLe);
  }

  /** The held array stays sorted in place between renders while loads
      append to it. Sorting that array gives what sorting the messages in
      the order they were fetched gives. */
  lemma RenderAfterAppend(held: seq<Feed.Message>, batch: seq<Feed.Message>)
    ensures RenderOrderBySeconds(RenderOrderBySeconds(held) + batch) == RenderOrderBySeconds(held + batch)
  {
    Sorting.SortBySorted(held, SecondsLe);
    Sorting.ResortAfterAppend(held, batch, SecondsLe);
  }
}
