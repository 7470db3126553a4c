/** A stable sort by a caller-supplied "may come before" relation, the way
    `Array.prototype.sort(cmp)` orders an array: `le(a, b)` holds exactly when
    `cmp(a, b) <= 0`, and elements the comparator calls equal keep their
    original relative order (the sort is stable since ES2019). */
module Sorting {

  /** `le` is a total preorder: any two elements are comparable, and the
      relation is transitive. Ties (both `le(a, b)` and `le(b, a)`) are allowed. */
  ghost predicate TotalPreorder<T(!new)>(le: (T, T) -> bool)
  {
    && (forall a, b :: le(a, b) || le(b, a))
    && (forall a, b, c :: le(a, b) && le(b, c) ==> le(a, c))
  }

  predicate SortedBy<T>(s: seq<T>, le: (T, T) -> bool)
  {
    forall i, j | 0 <= i < j < |s| :: le(s[i], s[j])
  }

  /** Places `x` in front of the first element it may precede. */
  function Insert<T>(x: T, s: seq<T>, le: (T, T) -> bool): (r: seq<T>)
    ensures |r| == |s| + 1
    ensures multiset(r) == multiset(s) + multiset{x}
  {
    if |s| == 0 then [x]
    else if le(x, s[0]) then [x] + s
    else
      var rest := Insert(x, s[1..], le);
      assert s == [s[0]] + s[1..];
      assert multiset(s) == multiset{s[0]} + multiset(s[1..]);
      [s[0]] + rest
  }

  /** Insertion sort: each element is inserted in front of the sorted rest,
      so of two tied elements the earlier one stays first. */
  function SortBy<T>(s: seq<T>, le: (T, T) -> bool): (r: seq<T>)
    ensures |r| == |s|
    ensures multiset(r) == multiset(s)
  {
    if |s| == 0 then []
    else
      var rest := SortBy(s[1..], le);
      assert s == [s[0]] + s[1..];
      assert multiset(s) == multiset{s[0]} + multiset(s[1..]);
      Insert(s[0], rest, le)
  }

  lemma {:induction false} InsertSorted<T(!new)>(x: T, s: seq<T>, le: (T, T) -> bool)
    requires TotalPreorder(le)
    requires SortedBy(s, le)
    ensures SortedBy(Insert(x, s, le), le)
  {
    if |s| > 0 && !le(x, s[0]) {
      var rest := Insert(x, s[1..], le);
      InsertSorted(x, s[1..], le);
      assert le(s[0], x);
      forall k | 0 <= k < |rest|
        ensures le(s[0], rest[k])
      {
        assert rest[k] in multiset(rest);
        assert rest[k] in multiset(s[1..]) + multiset{x};
        if rest[k] != x {
          assert rest[k] in s[1..];
        }
      }
    }
  }

  /** The output of SortBy is ordered by `le` whenever `le` is a total preorder. */
  lemma {:induction false} SortBySorted<T(!new)>(s: seq<T>, le: (T, T) -> bool)
    requires TotalPreorder(le)
    ensures SortedBy(SortBy(s, le), le)
  {
    if |s| > 0 {
      SortBySorted(s[1..], le);
      InsertSorted(s[0], SortBy(s[1..], le), le);
    }
  }

  /** Sorting what is already in order changes nothing: the sort moves an
      element only past elements it must follow. */
  lemma {:induction false} SortByOfSorted<T>(s: seq<T>, le: (T, T) -> bool)
    requires SortedBy(s, le)
    ensures SortBy(s, le) == s
  {
    if |s| > 0 {
      SortByOfSorted(s[1..], le);
      assert s == [s[0]] + s[1..];
    }
  }

  /** Sorting twice is the same as sorting once. */
  lemma SortByIdempotent<T(!new)>(s: seq<T>, le: (T, T) -> bool)
    requires TotalPreorder(le)
    ensures SortBy(SortBy(s, le), le) == SortBy(s, le)
  {
    SortBySorted(s, le);
    SortByOfSorted(SortBy(s, le), le);
  }

  /** Two relations that agree on every pair drawn from `s` sort `s` the same
      way, even where neither is a preorder. */
  lemma {:induction false} SortByCongruent<T>(s: seq<T>, le1: (T, T) -> bool, le2: (T, T) -> bool)
    requires forall x, y | x in s && y in s :: le1(x, y) == le2(x, y)
    ensures SortBy(s, le1) == SortBy(s, le2)
  {
    if |s| > 0 {
      SortByCongruent(s[1..], le1, le2);
      var rest := SortBy(s[1..], le1);
      forall y | y in rest
        ensures y in s
      {
        assert y in multiset(rest);
        assert y in s[1..];
      }
      InsertCongruent(s[0], SortBy(s[1..], le1), le1, le2);
    }
  }

  lemma {:induction false} InsertCongruent<T>(x: T, s: seq<T>, le1: (T, T) -> bool, le2: (T, T) -> bool)
    requires forall y | y in s :: le1(x, y) == le2(x, y)
    ensures Insert(x, s, le1) == Insert(x, s, le2)
  {
    if |s| > 0 && !le1(x, s[0]) {
      InsertCongruent(x, s[1..], le1, le2);
    }
  }

  /** `a` and `b` tie: the comparator orders neither before the other. */
  predicate Tied<T>(a: T, b: T, le: (T, T) -> bool)
  {
    le(a, b) && le(b, a)
  }

  /** The elements of `s` that tie with `e`, in their order in `s`. */
  function TiesWith<T>(s: seq<T>, e: T, le: (T, T) -> bool): (r: seq<T>)
    ensures |r| <= |s|
    ensures forall x | x in r :: x in s && Tied(x, e, le)
  {
    if |s| == 0 then []
    else (if Tied(s[0], e, le) then [s[0]] else []) + TiesWith(s[1..], e, le)
  }

  lemma TiesWithCons<T>(x: T, s: seq<T>, e: T, le: (T, T) -> bool)
    ensures TiesWith([x] + s, e, le) == (if Tied(x, e, le) then [x] else []) + TiesWith(s, e, le)
  {
    assert ([x] + s)[1..] == s;
  }

  /** Inserting `x` places it ahead of every element it ties with. */
  lemma {:induction false} InsertKeepsTies<T(!new)>(x: T, t: seq<T>, e: T, le: (T, T) -> bool)
    requires TotalPreorder(le)
    ensures TiesWith(Insert(x, t, le), e, le) == (if Tied(x, e, le) then [x] else []) + TiesWith(t, e, le)
  {
    if |t| == 0 {
      TiesWithCons(x, [], e, le);
    } else if le(x, t[0]) {
      TiesWithCons(x, t, e, le);
    } else {
      var rest := Insert(x, t[1..], le);
      assert Insert(x, t, le) == [t[0]] + rest;
      InsertKeepsTies(x, t[1..], e, le);
      TiesWithCons(t[0], rest, e, le);
      TiesWithCons(t[0], t[1..], e, le);
      assert [t[0]] + t[1..] == t;
      TiesOnBothSides(x, t[0], e, le);
      EmptySidesCommute(if Tied(t[0], e, le) then [t[0]] else [],
                        if Tied(x, e, le) then [x] else [], TiesWith(t[1..], e, le));
    }
  }

  /** Of two sequences at most one of which is non-empty, either may go first. */
  lemma EmptySidesCommute<T>(p: seq<T>, q: seq<T>, r: seq<T>)
    requires |p| == 0 || |q| == 0
    ensures p + (q + r) == q + (p + r)
  {
    if |p| == 0 {
      assert p + (q + r) == q + r == q + (p + r);
    } else {
      assert q + (p + r) == p + r == p + (q + r);
    }
  }

  /** An element the comparator puts strictly after `y` cannot tie with
      what `y` ties with. */
  lemma TiesOnBothSides<T(!new)>(x: T, y: T, e: T, le: (T, T) -> bool)
    requires TotalPreorder(le)
    requires !le(x, y)
    ensures !(Tied(x, e, le) && Tied(y, e, le))
  {
  }

  /** The sort is stable: the elements tying with any `e` come out in the
      order they went in. */
  lemma {:induction false} SortByStable<T(!new)>(s: seq<T>, e: T, le: (T, T) -> bool)
    requires TotalPreorder(le)
    ensures TiesWith(SortBy(s, le), e, le) == TiesWith(s, e, le)
  {
    if |s| > 0 {
      SortByStable(s[1..], e, le);
      InsertKeepsTies(s[0], SortBy(s[1..], le), e, le);
      TiesWithCons(s[0], s[1..], e, le);
      assert [s[0]] + s[1..] == s;
    }
  }

  /** Stable merge of two sequences: on a tie the element of `u` comes first. */
  function Merge<T>(u: seq<T>, t: seq<T>, le: (T, T) -> bool): (r: seq<T>)
    ensures |r| == |u| + |t|
    decreases |u| + |t|
  {
    if |u| == 0 then t
    else if |t| == 0 then u
    else if le(u[0], t[0]) then [u[0]] + Merge(u[1..], t, le)
    else [t[0]] + Merge(u, t[1..], le)
  }

  /** Inserting into a sequence of one element or none. */
  lemma {:induction false} InsertIntoMergeOfEmpty<T(!new)>(x: T, t: seq<T>, le: (T, T) -> bool)
    ensures Insert(x, Merge([], t, le), le) == Merge([x], t, le)
  {
    if |t| > 0 && !le(x, t[0]) {
      InsertIntoMergeOfEmpty(x, t[1..], le);
    }
  }

  /** The first element after inserting `x` into a non-empty sequence. */
  lemma InsertHead<T>(x: T, u: seq<T>, le: (T, T) -> bool)
    requires |u| > 0
    ensures Insert(x, u, le)[0] == if le(x, u[0]) then x else u[0]
  {
  }

  /** Inserting into a merge is merging after inserting into the first side. */
  lemma {:induction false} InsertMerge<T(!new)>(x: T, u: seq<T>, t: seq<T>, le: (T, T) -> bool)
    requires TotalPreorder(le)
    requires SortedBy(u, le) && SortedBy(t, le)
    ensures Insert(x, Merge(u, t, le), le) == Merge(Insert(x, u, le), t, le)
    decreases |u| + |t|
  {
    if |u| == 0 {
      InsertIntoMergeOfEmpty(x, t, le);
    } else if |t| == 0 {
    } else if le(u[0], t[0]) {
      if !le(x, u[0]) {
        InsertMerge(x, u[1..], t, le);
      }
    } else if le(x, t[0]) {
      assert le(x, u[0]);
    } else {
      InsertMerge(x, u, t[1..], le);
      InsertHead(x, u, le);
    }
  }

  /** Sorting a concatenation merges the sorted halves. */
  lemma {:induction false} SortByAppend<T(!new)>(a: seq<T>, b: seq<T>, le: (T, T) -> bool)
    requires TotalPreorder(le)
    ensures SortBy(a + b, le) == Merge(SortBy(a, le), SortBy(b, le), le)
  {
    if |a| == 0 {
      assert a + b == b;
    } else {
      assert (a + b)[1..] == a[1..] + b;
      SortByAppend(a[1..], b, le);
      SortBySorted(a[1..], le);
      SortBySorted(b, le);
      InsertMerge(a[0], SortBy(a[1..], le), SortBy(b, le), le);
    }
  }

  /** Sorting an already sorted prefix again, with more elements appended,
      gives what sorting the unsorted prefix with them gives. */
  lemma ResortAfterAppend<T(!new)>(a: seq<T>, b: seq<T>, le: (T, T) -> bool)
    requires TotalPreorder(le)
    ensures SortBy(SortBy(a, le) + b, le) == SortBy(a + b, le)
  {
    SortByAppend(SortBy(a, le), b, le);
    SortByIdempotent(a, le);
    SortByAppend(a, b, le);
  }

  // Small sorts worked out step by step, used by the concrete examples of
  // the roster order and the render order.

  /** Sorting a sequence inserts its head into its sorted tail. */
  lemma SortByCons<T>(x: T, rest: seq<T>, le: (T, T) -> bool)
    ensures SortBy([x] + rest, le) == Insert(x, SortBy(rest, le), le)
  {
    assert ([x] + rest)[1..] == rest;
  }

  lemma SortTwoInOrder<T>(y: T, z: T, le: (T, T) -> bool)
    requires le(y, z)
    ensures SortBy([y, z], le) == [y, z]
  {
    SortByCons(z, [], le);
    SortByCons(y, [z], le);
    assert [z] + [] == [z] && [y] + [z] == [y, z];
  }

  lemma SortTwoSwapped<T>(y: T, z: T, le: (T, T) -> bool)
    requires !le(y, z)
    ensures SortBy([y, z], le) == [z, y]
  {
    SortByCons(z, [], le);
    SortByCons(y, [z], le);
    assert [z] + [] == [z] && [y] + [z] == [y, z];
    assert [z][1..] == [];
  }

  lemma InsertPastFirst<T>(x: T, y: T, z: T, le: (T, T) -> bool)
    requires !le(x, y) && le(x, z)
    ensures Insert(x, [y, z], le) == [y, x, z]
  {
    assert [y, z][1..] == [z];
  }

  lemma InsertPastBoth<T>(x: T, y: T, z: T, le: (T, T) -> bool)
    requires !le(x, y) && !le(x, z)
    ensures Insert(x, [y, z], le) == [y, z, x]
  {
    assert [y, z][1..] == [z];
    assert [z][1..] == [];
    assert Insert(x, [z], le) == [z] + Insert(x, [], le) == [z, x];
  }

  /** Three elements where only the first two are out of order. */
  lemma SortThree<T>(x: T, y: T, z: T, le: (T, T) -> bool)
    requires le(y, z) && le(x, z) && !le(x, y)
    ensures SortBy([x, y, z], le) == [y, x, z]
  {
    SortByCons(x, [y, z], le);
    assert [x] + [y, z] == [x, y, z];
    SortTwoInOrder(y, z, le);
    InsertPastFirst(x, y, z, le);
  }

  /** Three elements where the first belongs last. */
  lemma SortThreeHeadLast<T>(x: T, y: T, z: T, le: (T, T) -> bool)
    requires le(y, z) && !le(x, z) && !le(x, y)
    ensures SortBy([x, y, z], le) == [y, z, x]
  {
    SortByCons(x, [y, z], le);
    assert [x] + [y, z] == [x, y, z];
    SortTwoInOrder(y, z, le);
    InsertPastBoth(x, y, z, le);
  }
}
