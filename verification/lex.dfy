/** Lexicographic comparison of strings by code point, returned in the shape
    of a JavaScript comparator result (negative, zero, positive). The roster
    sort compares e-mails with `localeCompare`; this order stands in for it
    (see README, "Left out"). It also orders document ids, which the
    document store compares as plain strings. */
module Lex {

  function Compare(a: string, b: string): (c: int)
    ensures -1 <= c <= 1
    ensures c == 0 <==> a == b
  {
    if |a| == 0 && |b| == 0 then 0
    else if |a| == 0 then -1
    else if |b| == 0 then 1
    else if a[0] < b[0] then -1
    else if b[0] < a[0] then 1
    else
      var c := Compare(a[1..], b[1..]);
      assert c == 0 ==> a == [a[0]] + a[1..] == [b[0]] + b[1..] == b;
      c
  }

  predicate Le(a: string, b: string)
  {
    Compare(a, b) <= 0
  }

  predicate Lt(a: string, b: string)
  {
    Compare(a, b) < 0
  }

  /** Swapping the operands negates the comparison. */
  lemma {:induction false} CompareAntisymmetric(a: string, b: string)
    ensures Compare(a, b) == -Compare(b, a)
  {
    if |a| > 0 && |b| > 0 && a[0] == b[0] {
      CompareAntisymmetric(a[1..], b[1..]);
    }
  }

  lemma {:induction false} LeTransitive(a: string, b: string, c: string)
    requires Le(a, b) && Le(b, c)
    ensures Le(a, c)
  {
    if |a| > 0 && |b| > 0 && |c| > 0 && a[0] == b[0] == c[0] {
      LeTransitive(a[1..], b[1..], c[1..]);
    }
  }

  lemma LtTransitive(a: string, b: string, c: string)
    requires Lt(a, b) && Lt(b, c)
    ensures Lt(a, c)
  {
    LeTransitive(a, b, c);
    if a == c {
      CompareAntisymmetric(a, b);
    }
  }

  /** Any two strings are comparable. */
  lemma LeTotal(a: string, b: string)
    ensures Le(a, b) || Le(b, a)
  {
    CompareAntisymmetric(a, b);
  }
}
