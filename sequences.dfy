/** Generic order-preserving filtering of sequences, the one list
    transformation every task-list operation is built from (JavaScript's
    `Array.prototype.filter`), with its properties proved once. */
module Sequences {

  /** The elements of `s` that satisfy `p`, in their original order. */
  function Filter<T>(s: seq<T>, p: T -> bool): (r: seq<T>)
    ensures |r| <= |s|
    ensures forall x :: x in r ==> x in s && p(x)
  {
    if s == [] then []
    else if p(s[0]) then [s[0]] + Filter(s[1..], p)
    else Filter(s[1..], p)
  }

  /** The negation of a predicate. */
  function Not<T>(p: T -> bool): T -> bool {
    x => !p(x)
  }

  /** `a` is obtained from `b` by deleting some elements, keeping the order
      of the rest. */
  ghost predicate IsSubsequence<T>(a: seq<T>, b: seq<T>)
    decreases |b|
  {
    if a == [] then true
    else if b == [] then false
    else (a[0] == b[0] && IsSubsequence(a[1..], b[1..])) || IsSubsequence(a, b[1..])
  }

  /** The indices of `s` whose elements satisfy `p`: an independent
      reference for "how many elements satisfy `p`". */
  ghost function Matching<T>(s: seq<T>, p: T -> bool): set<nat> {
    set i: nat | i < |s| && p(s[i])
  }

  lemma {:induction false} FilterIsSubsequence<T>(s: seq<T>, p: T -> bool)
    ensures IsSubsequence(Filter(s, p), s)
  {
    if s != [] {
      FilterIsSubsequence(s[1..], p);
      var rest := Filter(s[1..], p);
      if p(s[0]) {
        assert Filter(s, p) == [s[0]] + rest;
        assert ([s[0]] + rest)[1..] == rest;
      } else if rest != [] {
        assert Filter(s, p) == rest;
      }
    }
  }

  /** An element occurs in the result as often as in `s` when it satisfies
      `p`, and not at all otherwise: nothing is lost, duplicated or invented. */
  lemma {:induction false} FilterMultiplicity<T>(s: seq<T>, p: T -> bool, x: T)
    ensures multiset(Filter(s, p))[x] == if p(x) then multiset(s)[x] else 0
  {
    if s != [] {
      FilterMultiplicity(s[1..], p, x);
      assert s == [s[0]] + s[1..];
      assert multiset(s) == multiset([s[0]]) + multiset(s[1..]);
      if p(s[0]) {
        assert multiset(Filter(s, p)) == multiset([s[0]]) + multiset(Filter(s[1..], p));
      }
    }
  }

  /** Membership in the result, both directions. */
  lemma FilterMembership<T>(s: seq<T>, p: T -> bool, x: T)
    ensures x in Filter(s, p) <==> x in s && p(x)
  {
    FilterMultiplicity(s, p, x);
    assert x in Filter(s, p) <==> x in multiset(Filter(s, p));
    assert x in s <==> x in multiset(s);
  }

  /** Filtering keeps the whole sequence exactly when every element
      satisfies the predicate. */
  lemma {:induction false} FilterKeepsAll<T>(s: seq<T>, p: T -> bool)
    ensures Filter(s, p) == s <==> forall i :: 0 <= i < |s| ==> p(s[i])
  {
    if s != [] {
      FilterKeepsAll(s[1..], p);
      if !p(s[0]) {
        assert |Filter(s, p)| < |s|;
      } else {
        assert s == [s[0]] + s[1..];
        forall i | 1 <= i < |s| ensures s[i] == s[1..][i - 1] { }
      }
    }
  }

  /** Filtering by a predicate no element satisfies gives the empty sequence. */
  lemma {:induction false} FilterKeepsNone<T>(s: seq<T>, p: T -> bool)
    ensures Filter(s, p) == [] <==> forall i :: 0 <= i < |s| ==> !p(s[i])
  {
    if s != [] {
      FilterKeepsNone(s[1..], p);
      if p(s[0]) {
        assert Filter(s, p)[0] == s[0];
      } else {
        forall i | 1 <= i < |s| ensures s[i] == s[1..][i - 1] { }
      }
    }
  }

  /** Filtering a second time by the same predicate changes nothing. */
  lemma FilterIdempotent<T>(s: seq<T>, p: T -> bool)
    ensures Filter(Filter(s, p), p) == Filter(s, p)
  {
    var r := Filter(s, p);
    forall i | 0 <= i < |r| ensures p(r[i]) {
      assert r[i] in r;
    }
    FilterKeepsAll(r, p);
  }

  /** Filtering distributes over concatenation. */
  lemma {:induction false} FilterConcat<T>(a: seq<T>, b: seq<T>, p: T -> bool)
    ensures Filter(a + b, p) == Filter(a, p) + Filter(b, p)
  {
    if a != [] {
      FilterConcat(a[1..], b, p);
      assert (a + b)[0] == a[0];
      assert (a + b)[1..] == a[1..] + b;
    } else {
      assert a + b == b;
    }
  }

  /** Every element is kept either by `p` or by its negation. */
  lemma {:induction false} FilterSplit<T>(s: seq<T>, p: T -> bool)
    ensures |Filter(s, p)| + |Filter(s, Not(p))| == |s|
  {
    if s != [] {
      FilterSplit(s[1..], p);
    }
  }

  /** The length of the result is the number of indices whose element
      satisfies `p`. */
  lemma {:induction false} FilterLengthCountsMatches<T>(s: seq<T>, p: T -> bool)
    ensures |Filter(s, p)| == |Matching(s, p)|
  {
    if s != [] {
      FilterLengthCountsMatches(s[1..], p);
      var tail := Matching(s[1..], p);
      var shifted := set i: nat | i in tail :: i + 1;
      ShiftedCardinality(tail);
      var head: set<nat> := if p(s[0]) then {0} else {};
      MatchingSplit(s, p);
      assert head !! shifted;
      assert |Matching(s, p)| == |head| + |shifted|;
    }
  }

  /** The matching indices of a non-empty sequence: possibly 0, and the
      matching indices of its tail, each one further on. */
  lemma MatchingSplit<T>(s: seq<T>, p: T -> bool)
    requires s != []
    ensures Matching(s, p) == (if p(s[0]) then {0} else {}) + set i: nat | i in Matching(s[1..], p) :: i + 1
  {
    var tail := Matching(s[1..], p);
    var shifted := set i: nat | i in tail :: i + 1;
    var head: set<nat> := if p(s[0]) then {0} else {};
    forall i: nat | i in Matching(s, p) ensures i in head + shifted {
      if i > 0 {
        assert s[i] == s[1..][i - 1];
        assert (i - 1) in tail;
      }
    }
    forall i: nat | i in shifted ensures i in Matching(s, p) {
      var j: nat :| j in tail && i == j + 1;
      assert s[1..][j] == s[i];
    }
  }

  /** Cutting out position `k` of a sequence is keeping its head and cutting
      out position `k - 1` of its tail. */
  lemma ConsCut<T>(s: seq<T>, k: int)
    requires 1 <= k < |s|
    ensures [s[0]] + (s[1..][..k - 1] + s[1..][k..]) == s[..k] + s[k + 1..]
  {
    assert s[1..][..k - 1] == s[1..k];
    assert s[1..][k..] == s[k + 1..];
    assert s[..k] == [s[0]] + s[1..k];
  }

  /** Adding one to every element of a set of naturals keeps its size. */
  lemma {:induction false} ShiftedCardinality(a: set<nat>)
    ensures |set i: nat | i in a :: i + 1| == |a|
    decreases |a|
  {
    if a != {} {
      var x :| x in a;
      var rest := a - {x};
      ShiftedCardinality(rest);
      var sa := set i: nat | i in a :: i + 1;
      var sr := set i: nat | i in rest :: i + 1;
      assert sa == sr + {x + 1} by {
        forall i: nat | i in sa ensures i in sr + {x + 1} {
          var j: nat :| j in a && i == j + 1;
          if j != x { assert j in rest; }
        }
      }
      assert x + 1 !in sr;
    }
  }
}
