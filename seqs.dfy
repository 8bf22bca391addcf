/** `Array.prototype.filter` over immutable sequences, with the facts the
    resolver's pipeline relies on: a filtered list is an order-preserving
    subsequence, filtering twice is filtering once by the conjunction, and
    filtering respects permutations. */
module Seqs {

  /** The predicate that accepts everything. */
  function AcceptAll<T(!new)>(): T -> bool
  {
    _ => true
  }

  /** The conjunction of two predicates. */
  function Both<T(!new)>(p: T -> bool, q: T -> bool): T -> bool
  {
    x => p(x) && q(x)
  }

  /** `s.filter(p)`: the elements of `s` that satisfy `p`, in their order. */
  function Keep<T(!new)>(s: seq<T>, p: T -> bool): (r: seq<T>)
    ensures |r| <= |s|
  {
    if s == [] then []
    else if p(s[0]) then [s[0]] + Keep(s[1..], p)
    else Keep(s[1..], p)
  }

  /** An element is kept exactly when it occurs and passes. */
  lemma {:induction false} KeepMembers<T(!new)>(s: seq<T>, p: T -> bool, x: T)
    ensures x in Keep(s, p) <==> x in s && p(x)
  {
    if s != [] {
      KeepMembers(s[1..], p, x);
      assert s == [s[0]] + s[1..];
    }
  }

  /** `r` is obtained from `s` by deleting elements, keeping the order of the rest. */
  ghost predicate IsSubsequence<T(!new)>(r: seq<T>, s: seq<T>)
    decreases |s|
  {
    r == [] || (s != [] && ((r[0] == s[0] && IsSubsequence(r[1..], s[1..])) || IsSubsequence(r, s[1..])))
  }

  lemma {:induction false} KeepIsSubsequence<T(!new)>(s: seq<T>, p: T -> bool)
    ensures IsSubsequence(Keep(s, p), s)
  {
    if s != [] {
      KeepIsSubsequence(s[1..], p);
    }
  }

  lemma {:induction false} PrefixIsSubsequence<T(!new)>(r: seq<T>, s: seq<T>, k: nat)
    requires IsSubsequence(r, s)
    requires k <= |r|
    ensures IsSubsequence(r[..k], s)
    decreases |s|
  {
    if k > 0 {
      if r[0] == s[0] && IsSubsequence(r[1..], s[1..]) {
        PrefixIsSubsequence(r[1..], s[1..], k - 1);
        assert r[..k][1..] == r[1..][..k - 1];
      } else {
        PrefixIsSubsequence(r, s[1..], k);
      }
    }
  }

  /** Filtering keeps every occurrence of an accepted element and no
      occurrence of a rejected one. */
  lemma {:induction false} KeepMultiplicity<T(!new)>(s: seq<T>, p: T -> bool, x: T)
    ensures multiset(Keep(s, p))[x] == if p(x) then multiset(s)[x] else 0
  {
    if s != [] {
      KeepMultiplicity(s[1..], p, x);
      assert s == [s[0]] + s[1..];
    }
  }

  /** Filtering two arrangements of the same elements gives two arrangements
      of the same elements. */
  lemma KeepRespectsPermutation<T(!new)>(s: seq<T>, t: seq<T>, p: T -> bool)
    requires multiset(s) == multiset(t)
    ensures multiset(Keep(s, p)) == multiset(Keep(t, p))
    ensures |Keep(s, p)| == |Keep(t, p)|
  {
    forall x
      ensures multiset(Keep(s, p))[x] == multiset(Keep(t, p))[x]
    {
      KeepMultiplicity(s, p, x);
      KeepMultiplicity(t, p, x);
    }
    assert multiset(Keep(s, p)) == multiset(Keep(t, p));
    calc {
      |Keep(s, p)|;
      |multiset(Keep(s, p))|;
      |multiset(Keep(t, p))|;
      |Keep(t, p)|;
    }
  }

  /** Two filter passes in a row are one pass by the conjunction. */
  lemma {:induction false} KeepTwice<T(!new)>(s: seq<T>, p: T -> bool, q: T -> bool)
    ensures Keep(Keep(s, p), q) == Keep(s, Both(p, q))
  {
    if s != [] {
      KeepTwice(s[1..], p, q);
      if p(s[0]) {
        var k := Keep(s, p);
        assert k[0] == s[0] && k[1..] == Keep(s[1..], p);
      }
    }
  }

  /** Filtering depends only on the values of the predicate. */
  lemma {:induction false} KeepSamePredicate<T(!new)>(s: seq<T>, p: T -> bool, q: T -> bool)
    requires forall x :: x in s ==> p(x) == q(x)
    ensures Keep(s, p) == Keep(s, q)
  {
    if s != [] {
      KeepSamePredicate(s[1..], p, q);
    }
  }

  /** A filter that every element passes is the identity. */
  lemma {:induction false} KeepAllPass<T(!new)>(s: seq<T>, p: T -> bool)
    requires forall x :: x in s ==> p(x)
    ensures Keep(s, p) == s
  {
    if s != [] {
      KeepAllPass(s[1..], p);
    }
  }

  /** Filtering a suffix decides its first element and filters the rest. */
  lemma KeepFrom<T(!new)>(s: seq<T>, p: T -> bool, k: nat)
    requires k < |s|
    ensures Keep(s[k..], p) == (if p(s[k]) then [s[k]] else []) + Keep(s[k + 1..], p)
  {
    assert s[k..][0] == s[k] && s[k..][1..] == s[k + 1..];
  }
}
