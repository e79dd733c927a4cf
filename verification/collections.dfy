/**
 Sequence helpers shared by the service model: an optional value, the
 "no duplicates" predicate, order-preserving de-duplication (what
 `Array.from(new Set(xs))` computes) and the subsequence relation.
 */
module Collections {

  datatype Option<+T> = None | Some(value: T)

  /** No element occurs twice. */
  predicate NoDup<T(==)>(s: seq<T>) {
    forall i, j :: 0 <= i < j < |s| ==> s[i] != s[j]
  }

  /** `a` is `b` with some elements left out, order kept. */
  predicate IsSubsequence<T(==)>(a: seq<T>, b: seq<T>)
    decreases |b|
  {
    if a == [] then true
    else if b == [] then false
    else if a[0] == b[0] then IsSubsequence(a[1..], b[1..])
    else IsSubsequence(a, b[1..])
  }

  /** Every element of `s` exactly once: the model of
      `Array.from(new Set(xs))`. The body keeps first occurrences in order,
      but the contract promises only the elements and no duplicates, which is
      all its callers rely on. */
  function Dedup<T(==,!new)>(s: seq<T>): (r: seq<T>)
    ensures NoDup(r)
    ensures forall x :: x in r <==> x in s
    ensures |r| <= |s|
    decreases |s|
  {
    if s == [] then []
    else
      var front := Dedup(s[..|s| - 1]);
      var last := s[|s| - 1];
      assert s == s[..|s| - 1] + [last];
      if last in front then front else front + [last]
  }

  /** The elements of `a` that also occur in `b`, in `a`'s order and with
      `a`'s repetitions: the model of `a.filter((c) => b.includes(c))`. */
  function KeepIn<T(==,!new)>(a: seq<T>, b: seq<T>): (r: seq<T>)
    ensures forall x :: x in r <==> x in a && x in b
    ensures forall x :: multiset(r)[x] == if x in b then multiset(a)[x] else 0
    ensures IsSubsequence(r, a)
    decreases |a|
  {
    if a == [] then []
    else
      assert a == [a[0]] + a[1..];
      if a[0] in b then [a[0]] + KeepIn(a[1..], b)
      else KeepIn(a[1..], b)
  }

  /** Filtering by a list that holds every element changes nothing. */
  lemma {:induction false} KeepInAll<T(!new)>(a: seq<T>, b: seq<T>)
    requires forall x :: x in a ==> x in b
    ensures KeepIn(a, b) == a
    decreases |a|
  {
    if a != [] {
      KeepInAll(a[1..], b);
    }
  }

  /** Neighbours that are all equal make the ends of the stretch equal. */
  lemma {:induction false} ConstantRun<T>(xs: seq<T>, i: nat, j: nat)
    requires i <= j < |xs|
    requires forall y :: i <= y < j ==> xs[y] == xs[y + 1]
    ensures xs[i] == xs[j]
    decreases j - i
  {
    if i < j {
      ConstantRun(xs, i + 1, j);
    }
  }
}
