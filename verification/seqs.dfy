/** Small facts about sequences shared by the graph and the server models. */
module Seqs {

  /** Positions listed in strictly increasing order. */
  predicate Increasing(ps: seq<nat>) {
    forall a, b :: 0 <= a < b < |ps| ==> ps[a] < ps[b]
  }

  /** No element occurs twice. */
  predicate Distinct<T(==)>(s: seq<T>) {
    forall i, j :: 0 <= i < j < |s| ==> s[i] != s[j]
  }

  /** The elements of every group, group after group (JavaScript's `flat()`). */
  function Flatten<T(!new)>(groups: seq<seq<T>>): (r: seq<T>)
    ensures forall x :: x in r <==> exists k :: 0 <= k < |groups| && x in groups[k]
    ensures |groups| == 0 ==> r == []
  {
    if |groups| == 0 then []
    else
      var rest := Flatten(groups[1..]);
      assert forall k :: 1 <= k < |groups| ==> groups[k] == groups[1..][k - 1];
      groups[0] + rest
  }

  /** `s` with every occurrence of `x` taken out, order kept. */
  function Without<T(==,!new)>(s: seq<T>, x: T): (r: seq<T>)
    ensures forall y :: y in r <==> y in s && y != x
    ensures |r| <= |s|
  {
    if |s| == 0 then []
    else if s[0] == x then Without(s[1..], x)
    else [s[0]] + Without(s[1..], x)
  }

  /** `a` is `b` with some elements left out and the rest in their order
      (matched greedily from the back). */
  predicate IsSubsequence<T(==)>(a: seq<T>, b: seq<T>)
    decreases |b|
  {
    if |a| == 0 then true
    else if |b| == 0 then false
    else if a[|a| - 1] == b[|b| - 1] then IsSubsequence(a[..|a| - 1], b[..|b| - 1])
    else IsSubsequence(a, b[..|b| - 1])
  }

  /** A subsequence stays one when the longer sequence grows at the end. */
  lemma {:induction false} SubsequenceExtend<T>(a: seq<T>, b: seq<T>, x: T)
    requires IsSubsequence(a, b)
    ensures IsSubsequence(a, b + [x])
    decreases |b|, 1
  {
    assert (b + [x])[..|b + [x]| - 1] == b;
    if |a| > 0 && a[|a| - 1] == x {
      SubsequenceDropLast(a, b);
    }
  }

  /** Appending the same element to both sides keeps a subsequence one. */
  lemma SubsequenceSnoc<T>(a: seq<T>, b: seq<T>, x: T)
    requires IsSubsequence(a, b)
    ensures IsSubsequence(a + [x], b + [x])
  {
    assert (a + [x])[..|a|] == a;
    assert (b + [x])[..|b|] == b;
  }

  /** Growing the longer sequence by one element, and the shorter one by the
      same element or not at all, keeps a subsequence one. */
  lemma SubsequenceStep<T>(a: seq<T>, b: seq<T>, x: T, take: bool, a': seq<T>, b': seq<T>)
    requires IsSubsequence(a, b)
    requires a' == (if take then a + [x] else a) && b' == b + [x]
    ensures IsSubsequence(a', b')
  {
    if take {
      SubsequenceSnoc(a, b, x);
    } else {
      SubsequenceExtend(a, b, x);
    }
  }

  /** A subsequence holds no element more often than the sequence does. */
  lemma {:induction false} SubsequenceMultiset<T>(a: seq<T>, b: seq<T>)
    requires IsSubsequence(a, b)
    ensures multiset(a) <= multiset(b)
    decreases |b|
  {
    if |a| > 0 {
      var b' := b[..|b| - 1];
      assert b == b' + [b[|b| - 1]];
      if a[|a| - 1] == b[|b| - 1] {
        SubsequenceMultiset(a[..|a| - 1], b');
        assert a == a[..|a| - 1] + [a[|a| - 1]];
      } else {
        SubsequenceMultiset(a, b');
      }
    }
  }

  /** Dropping the last element of a subsequence leaves a subsequence. */
  lemma {:induction false} SubsequenceDropLast<T>(a: seq<T>, b: seq<T>)
    requires |a| > 0 && IsSubsequence(a, b)
    ensures IsSubsequence(a[..|a| - 1], b)
    decreases |b|, 0
  {
    var b' := b[..|b| - 1];
    assert b == b' + [b[|b| - 1]];
    if a[|a| - 1] == b[|b| - 1] {
      SubsequenceExtend(a[..|a| - 1], b', b[|b| - 1]);
    } else {
      SubsequenceDropLast(a, b');
      SubsequenceExtend(a[..|a| - 1], b', b[|b| - 1]);
    }
  }

  /** Peels the last element off `s` and, when `keep` holds of it, off `x`,
      the subsequence of `s` holding every kept element as often as `s` does
      and nothing else. What remains is that subsequence of the shorter `s`. */
  lemma {:induction false} KeptSubsequenceStep<T>(s: seq<T>, x: seq<T>, keep: T -> bool) returns (x': seq<T>)
    requires |s| > 0 && IsSubsequence(x, s)
    requires forall y :: multiset(x)[y] == if keep(y) then multiset(s)[y] else 0
    ensures IsSubsequence(x', s[..|s| - 1])
    ensures forall y :: multiset(x')[y] == if keep(y) then multiset(s[..|s| - 1])[y] else 0
    ensures x == if keep(s[|s| - 1]) then x' + [s[|s| - 1]] else x'
  {
    var front := s[..|s| - 1];
    var last := s[|s| - 1];
    assert s == front + [last];
    assert multiset(s) == multiset(front) + multiset{last};
    if |x| > 0 && x[|x| - 1] == last {
      x' := x[..|x| - 1];
      assert x == x' + [last];
      assert multiset(x) == multiset(x') + multiset{last};
      assert keep(last) by {
        assert multiset(x)[last] > 0;
      }
    } else {
      x' := x;
      assert IsSubsequence(x, front);
      SubsequenceMultiset(x, front);
      assert !keep(last) by {
        assert multiset(x)[last] <= multiset(front)[last] < multiset(s)[last];
      }
    }
  }

  /** The subsequence of `s` that holds every element satisfying `keep` as
      often as `s` does, and no other element, is unique. */
  lemma {:induction false} KeptSubsequenceIsUnique<T>(s: seq<T>, a: seq<T>, b: seq<T>, keep: T -> bool)
    requires IsSubsequence(a, s) && IsSubsequence(b, s)
    requires forall y :: multiset(a)[y] == if keep(y) then multiset(s)[y] else 0
    requires forall y :: multiset(b)[y] == if keep(y) then multiset(s)[y] else 0
    ensures a == b
    decreases |s|
  {
    if |s| == 0 {
      assert |a| == 0 && |b| == 0;
    } else {
      var a' := KeptSubsequenceStep(s, a, keep);
      var b' := KeptSubsequenceStep(s, b, keep);
      KeptSubsequenceIsUnique(s[..|s| - 1], a', b', keep);
    }
  }

  /** A repetition-free sequence drawn from a finite set is no longer than the set. */
  lemma {:induction false} DistinctWithin<T>(s: seq<T>, universe: set<T>)
    requires Distinct(s)
    requires forall x :: x in s ==> x in universe
    ensures |s| <= |universe|
  {
    if |s| > 0 {
      var rest := universe - {s[0]};
      assert forall x :: x in s[1..] ==> x in rest by {
        forall x | x in s[1..]
          ensures x in rest
        {
          var k :| 1 <= k < |s| && s[k] == x;
        }
      }
      DistinctWithin(s[1..], rest);
    }
  }
}
