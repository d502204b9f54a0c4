/** Order-preserving selection over a sequence: what a `WHERE` scan returns
    from a table read in its stored order. */
module Sequences {

  /** `r` is obtained from `s` by deleting elements, keeping the order of the rest. */
  predicate IsSubsequence<T(==)>(r: seq<T>, s: seq<T>)
    decreases |s|
  {
    if r == [] then true
    else if s == [] then false
    else if r[0] == s[0] then IsSubsequence(r[1..], s[1..])
    else IsSubsequence(r, s[1..])
  }

  /** The elements of `s` that satisfy `p`, in the order of `s`, each as
      often as it occurs in `s`. */
  function Filter<T(==,!new)>(s: seq<T>, p: T -> bool): (r: seq<T>)
    ensures IsSubsequence(r, s)
    ensures forall x :: multiset(r)[x] == if p(x) then multiset(s)[x] else 0
    ensures forall x :: x in r <==> x in s && p(x)
    ensures |r| <= |s|
  {
    if s == [] then []
    else
      assert s == [s[0]] + s[1..];
      var rest := Filter(s[1..], p);
      if p(s[0]) then
        assert ([s[0]] + rest)[1..] == rest;
        [s[0]] + rest
      else
        assert rest != [] ==> p(rest[0]) && rest[0] != s[0];
        rest
  }

  /** A subsequence never holds an element more often than the whole. */
  lemma {:induction false} SubsequenceMultiset<T>(r: seq<T>, s: seq<T>)
    requires IsSubsequence(r, s)
    ensures multiset(r) <= multiset(s)
    decreases |s|
  {
    if r != [] {
      assert s == [s[0]] + s[1..];
      if r[0] == s[0] {
        SubsequenceMultiset(r[1..], s[1..]);
        assert r == [r[0]] + r[1..];
      } else {
        SubsequenceMultiset(r, s[1..]);
      }
    }
  }

  /** Being an order-preserving subsequence that holds exactly the elements
      satisfying `p`, with their multiplicities, determines the result:
      it is `Filter(s, p)`. */
  lemma {:induction false} FilterUnique<T(!new)>(s: seq<T>, p: T -> bool, r: seq<T>)
    requires IsSubsequence(r, s)
    requires forall x :: multiset(r)[x] == if p(x) then multiset(s)[x] else 0
    ensures r == Filter(s, p)
    decreases |s|
  {
    if s == [] {
      assert r == [];
    } else {
      var a, t := s[0], s[1..];
      assert s == [a] + t;
      if r == [] {
        assert !p(a) by { assert multiset(s)[a] > 0; }
        FilterUnique(t, p, r);
      } else if r[0] == a {
        assert r == [a] + r[1..];
        assert p(a) by { assert multiset(r)[a] > 0; }
        FilterUnique(t, p, r[1..]);
      } else {
        SubsequenceMultiset(r, t);
        assert !p(a) by {
          assert multiset(r)[a] <= multiset(t)[a] < multiset(s)[a];
        }
        FilterUnique(t, p, r);
      }
    }
  }

  /** Filtering by two predicates that agree everywhere gives the same result. */
  lemma FilterCongruent<T(!new)>(s: seq<T>, p: T -> bool, q: T -> bool)
    requires forall x :: p(x) == q(x)
    ensures Filter(s, p) == Filter(s, q)
  {
    FilterUnique(s, q, Filter(s, p));
  }
}
