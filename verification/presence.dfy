/** Presence: each document of the `onlineUsers` collection gets an effective
    status computed on the client from how long ago its `lastActive` time was,
    and the roster shown in the sidebar is ordered active-first, then by e-mail
    (src/App.js:127-143 and 254-279). Times are integer milliseconds; the clock
    reading is a parameter. */
module Presence {
  import opened Wrappers
  import Lex
  import Sorting

  datatype Status = Active | Inactive

  /** A presence document as a listener sees it: the document id followed by
      the stored fields. `lastActiveMs` is None when the field is absent. */
  datatype PresenceRecord = PresenceRecord(
    id: string,
    uid: string,
    email: string,
    avatar: Option<string>,
    lastActiveMs: Option<int>,
    status: Status)

  /** Seconds of inactivity assumed for a record without `lastActive`. */
  const MissingElapsedSec := 9999

  /** Threshold of the listener set up at sign-in (src/App.js:138). */
  const SignInThresholdSec := 10

  /** Threshold of the listener that follows the `user` state (src/App.js:266). */
  const RosterThresholdSec := 30

  /** The source's own measure of inactivity: the millisecond difference of
      two dates divided by 1000, or 9999 when there is no `lastActive`. */
  function ElapsedSeconds(lastActiveMs: Option<int>, nowMs: int): real
  {
    match lastActiveMs
    case Some(t) => (nowMs - t) as real / 1000.0
    case None => MissingElapsedSec as real
  }

  lemma MillisecondsAgreeWithSeconds(elapsedMs: int, thresholdSec: int)
    ensures elapsedMs < thresholdSec * 1000 <==> elapsedMs as real / 1000.0 < thresholdSec as real
  {
    var x := elapsedMs as real / 1000.0;
    assert x * 1000.0 == elapsedMs as real;
    assert (thresholdSec * 1000) as real == thresholdSec as real * 1000.0;
  }

  /** Effective status, compared in whole milliseconds instead of the
      source's fractional seconds. */
  function Classify(lastActiveMs: Option<int>, nowMs: int, thresholdSec: int): (s: Status)
    ensures s == Active <==> ElapsedSeconds(lastActiveMs, nowMs) < thresholdSec as real
    ensures lastActiveMs.None? && thresholdSec <= MissingElapsedSec ==> s == Inactive
  {
    match lastActiveMs
    case Some(t) =>
      MillisecondsAgreeWithSeconds(nowMs - t, thresholdSec);
      if nowMs - t < thresholdSec * 1000 then Active else Inactive
    case None =>
      if MissingElapsedSec < thresholdSec then Active else Inactive
  }

  /** Classifies one record: the `id` and stored fields are kept, and only
      `status` is replaced by the effective status. */
  function ClassifyRecord(d: PresenceRecord, nowMs: int, thresholdSec: int): (r: PresenceRecord)
    ensures r.(status := d.status) == d
    ensures r.status == Active <==> ElapsedSeconds(d.lastActiveMs, nowMs) < thresholdSec as real
  {
    d.(status := Classify(d.lastActiveMs, nowMs, thresholdSec))
  }

  /** Classifies every record of a snapshot, keeping the snapshot's order. */
  function ClassifyAll(docs: seq<PresenceRecord>, nowMs: int, thresholdSec: int): (r: seq<PresenceRecord>)
    ensures |r| == |docs|
    ensures forall i | 0 <= i < |r| ::
      && r[i].(status := docs[i].status) == docs[i]
      && (r[i].status == Active <==> ElapsedSeconds(docs[i].lastActiveMs, nowMs) < thresholdSec as real)
  {
    seq(|docs|, i requires 0 <= i < |docs| => ClassifyRecord(docs[i], nowMs, thresholdSec))
  }

  /** The roster comparator: records of equal status compare by e-mail,
      otherwise the active one comes first. */
  function RosterCompare(a: PresenceRecord, b: PresenceRecord): int
  {
    if a.status == b.status then Lex.Compare(a.email, b.email)
    else if a.status == Active then -1
    else 1
  }

  /** `a` may stay in front of `b`: the comparator does not ask to swap them. */
  predicate RosterLe(a: PresenceRecord, b: PresenceRecord)
  {
    RosterCompare(a, b) <= 0
  }

  lemma RosterLeIsTotalPreorder()
    ensures Sorting.TotalPreorder(RosterLe)
  {
    forall a, b
      ensures RosterLe(a, b) || RosterLe(b, a)
    {
      Lex.LeTotal(a.email, b.email);
    }
    forall a, b, c | RosterLe(a, b) && RosterLe(b, c)
      ensures RosterLe(a, c)
    {
      if a.status == b.status == c.status {
        Lex.LeTransitive(a.email, b.email, c.email);
      }
    }
  }

  /** The roster sort: a permutation of its input in which no inactive
      record precedes an active one, and records of equal status are in
      e-mail order. */
  function SortRoster(entries: seq<PresenceRecord>): (r: seq<PresenceRecord>)
    ensures multiset(r) == multiset(entries)
    ensures forall i, j | 0 <= i < j < |r| :: r[i].status == Active || r[j].status == Inactive
    ensures forall i, j | 0 <= i < j < |r| && r[i].status == r[j].status :: Lex.Le(r[i].email, r[j].email)
  {
    RosterLeIsTotalPreorder();
    Sorting.SortBySorted(entries, RosterLe);
    var r := Sorting.SortBy(entries, RosterLe);
    assert forall i, j | 0 <= i < j < |r| :: RosterLe(r[i], r[j]);
    r
  }

  /** The listener registered at sign-in: classification with a 10-second
      threshold and no sorting, so the roster keeps the snapshot's order. */
  function SignInRoster(docs: seq<PresenceRecord>, nowMs: int): (r: seq<PresenceRecord>)
    ensures |r| == |docs|
    ensures forall i | 0 <= i < |r| ::
      && r[i].(status := docs[i].status) == docs[i]
      && (r[i].status == Active <==> ElapsedSeconds(docs[i].lastActiveMs, nowMs) < SignInThresholdSec as real)
  {
    ClassifyAll(docs, nowMs, SignInThresholdSec)
  }

  /** The listener that follows the signed-in user: classification with a
      30-second threshold, then the roster sort. */
  function SortedRoster(docs: seq<PresenceRecord>, nowMs: int): (r: seq<PresenceRecord>)
    ensures multiset(r) == multiset(ClassifyAll(docs, nowMs, RosterThresholdSec))
    ensures forall i, j | 0 <= i < j < |r| :: r[i].status == Active || r[j].status == Inactive
    ensures forall i, j | 0 <= i < j < |r| && r[i].status == r[j].status :: Lex.Le(r[i].email, r[j].email)
  {
    SortRoster(ClassifyAll(docs, nowMs, RosterThresholdSec))
  }

  /** Every entry of the sorted roster is some document of the snapshot with
      only its status recomputed, and every document appears. */
  lemma SortedRosterEntries(docs: seq<PresenceRecord>, nowMs: int)
    ensures forall e | e in SortedRoster(docs, nowMs) ::
      exists i | 0 <= i < |docs| :: e == ClassifyRecord(docs[i], nowMs, RosterThresholdSec)
    ensures forall i | 0 <= i < |docs| ::
      ClassifyRecord(docs[i], nowMs, RosterThresholdSec) in SortedRoster(docs, nowMs)
  {
    var c := ClassifyAll(docs, nowMs, RosterThresholdSec);
    var r := SortedRoster(docs, nowMs);
    forall e | e in r
      ensures exists i | 0 <= i < |docs| :: e == ClassifyRecord(docs[i], nowMs, RosterThresholdSec)
    {
      assert e in multiset(r);
      assert e in c;
      var i :| 0 <= i < |c| && c[i] == e;
    }
    forall i | 0 <= i < |docs|
      ensures ClassifyRecord(docs[i], nowMs, RosterThresholdSec) in r
    {
      assert c[i] in multiset(c);
    }
  }

  /** Staleness only grows with time: a record active at some instant was
      active at every earlier instant. */
  lemma ActiveEarlier(lastActiveMs: Option<int>, earlierMs: int, laterMs: int, thresholdSec: int)
    requires earlierMs <= laterMs
    requires Classify(lastActiveMs, laterMs, thresholdSec) == Active
    ensures Classify(lastActiveMs, earlierMs, thresholdSec) == Active
  {
  }

  /** A record the 10-second listener shows as active, the 30-second listener
      shows as active too; the converse fails for 10 to 30 seconds of inactivity. */
  lemma SignInActiveImpliesRosterActive(d: PresenceRecord, nowMs: int)
    ensures Classify(d.lastActiveMs, nowMs, SignInThresholdSec) == Active ==>
            Classify(d.lastActiveMs, nowMs, RosterThresholdSec) == Active
    ensures d.lastActiveMs == Some(nowMs - 20_000) ==>
            Classify(d.lastActiveMs, nowMs, SignInThresholdSec) == Inactive &&
            Classify(d.lastActiveMs, nowMs, RosterThresholdSec) == Active
  {
  }

  /** The roster example: two active users and one inactive one come out as
      a@x, b@x, c@x. */
  lemma RosterExample(a: PresenceRecord, b: PresenceRecord, c: PresenceRecord)
    requires a.status == Active && a.email == "a@x"
    requires b.status == Active && b.email == "b@x"
    requires c.status == Inactive && c.email == "c@x"
    ensures SortRoster([b, a, c]) == [a, b, c]
  {
    assert Lex.Compare(b.email, a.email) == 1 by {
      assert b.email[0] == 'b' && a.email[0] == 'a';
    }
    Sorting.SortThree(b, a, c, RosterLe);
  }

}
