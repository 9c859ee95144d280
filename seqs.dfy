/** Sequence combinators with the meaning of JavaScript's Array.prototype.map
    and Array.prototype.filter (on arrays without holes), and the facts about
    them that the task reducer and its views rely on. */
module Seqs {

  /** `s.map(f)`: one result per element, same order. */
  function Map<T, U>(s: seq<T>, f: T -> U): (r: seq<U>)
    ensures |r| == |s|
    ensures forall i :: 0 <= i < |s| ==> r[i] == f(s[i])
  {
    if s == [] then [] else [f(s[0])] + Map(s[1..], f)
  }

  /** `s.filter(p)`: the elements satisfying `p`, in their original order. */
  function Filter<T(==)>(s: seq<T>, p: T -> bool): (r: seq<T>)
    ensures |r| <= |s|
    ensures forall x :: x in r ==> x in s && p(x)
  {
    if s == [] then [] else (if p(s[0]) then [s[0]] else []) + Filter(s[1..], p)
  }

  /** `idx` lists, in strictly increasing order, positions of `b` that spell out `a`. */
  ghost predicate Embeds<T>(a: seq<T>, b: seq<T>, idx: seq<int>)
  {
    && |idx| == |a|
    && (forall k :: 0 <= k < |idx| ==> 0 <= idx[k] < |b| && a[k] == b[idx[k]])
    && (forall j, k :: 0 <= j < k < |idx| ==> idx[j] < idx[k])
  }

  /** `a` is obtained from `b` by dropping elements, keeping the order of the rest. */
  ghost predicate IsSubsequence<T>(a: seq<T>, b: seq<T>)
  {
    exists idx :: Embeds(a, b, idx)
  }

  /** Adding one to every position. */
  function Shift(idx: seq<int>): (r: seq<int>)
    ensures |r| == |idx|
    ensures forall k :: 0 <= k < |idx| ==> r[k] == idx[k] + 1
    ensures forall i :: i in r <==> i - 1 in idx
  {
    var r := Map(idx, (i: int) => i + 1);
    assert forall i :: i in r ==> i - 1 in idx by {
      forall i | i in r ensures i - 1 in idx {
        var k :| 0 <= k < |r| && r[k] == i;
        assert idx[k] == i - 1;
      }
    }
    assert forall i :: i - 1 in idx ==> i in r by {
      forall i | i - 1 in idx ensures i in r {
        var k :| 0 <= k < |idx| && idx[k] == i - 1;
        assert r[k] == i;
      }
    }
    r
  }

  /** The positions of `s` whose element `Filter` keeps. */
  function FilterPositions<T>(s: seq<T>, p: T -> bool): seq<int>
  {
    if s == [] then []
    else (if p(s[0]) then [0] else []) + Shift(FilterPositions(s[1..], p))
  }

  /** Each listed position is in range and holds the element `Filter` put there. */
  lemma {:induction false} FilterPositionsSpell<T>(s: seq<T>, p: T -> bool)
    ensures |FilterPositions(s, p)| == |Filter(s, p)|
    ensures forall k :: 0 <= k < |FilterPositions(s, p)| ==>
      0 <= FilterPositions(s, p)[k] < |s| && Filter(s, p)[k] == s[FilterPositions(s, p)[k]]
  {
    if s != [] {
      var tail := s[1..];
      FilterPositionsSpell(tail, p);
      var rest := FilterPositions(tail, p);
      var head := if p(s[0]) then [0] else [];
      var idx := FilterPositions(s, p);
      var r := Filter(s, p);
      assert idx == head + Shift(rest);
      assert r == (if p(s[0]) then [s[0]] else []) + Filter(tail, p);
      forall k | 0 <= k < |idx|
        ensures 0 <= idx[k] < |s| && r[k] == s[idx[k]]
      {
        if k >= |head| {
          assert idx[k] == rest[k - |head|] + 1;
          assert r[k] == Filter(tail, p)[k - |head|];
        }
      }
    }
  }

  /** The listed positions are non-negative and strictly increasing. */
  lemma {:induction false} FilterPositionsIncreasing<T>(s: seq<T>, p: T -> bool)
    ensures forall k :: 0 <= k < |FilterPositions(s, p)| ==> 0 <= FilterPositions(s, p)[k]
    ensures forall j, k :: 0 <= j < k < |FilterPositions(s, p)| ==>
      FilterPositions(s, p)[j] < FilterPositions(s, p)[k]
  {
    if s != [] {
      FilterPositionsIncreasing(s[1..], p);
      var rest := FilterPositions(s[1..], p);
      var head := if p(s[0]) then [0] else [];
      var idx := FilterPositions(s, p);
      assert idx == head + Shift(rest);
      forall j, k | 0 <= j < k < |idx|
        ensures idx[j] < idx[k]
      {
        assert idx[k] == rest[k - |head|] + 1;
        if j >= |head| {
          assert idx[j] == rest[j - |head|] + 1;
        }
      }
    }
  }

  /** A position is listed exactly when its element satisfies `p`. */
  lemma {:induction false} FilterPositionsExact<T>(s: seq<T>, p: T -> bool)
    ensures forall i :: 0 <= i < |s| ==> (i in FilterPositions(s, p) <==> p(s[i]))
  {
    if s != [] {
      var tail := s[1..];
      FilterPositionsExact(tail, p);
      FilterPositionsIncreasing(tail, p);
      var rest := FilterPositions(tail, p);
      var head := if p(s[0]) then [0] else [];
      var idx := FilterPositions(s, p);
      assert idx == head + Shift(rest);
      forall i | 0 <= i < |s|
        ensures i in idx <==> p(s[i])
      {
        if i == 0 {
          assert -1 !in rest;
        } else {
          assert tail[i - 1] == s[i];
        }
      }
    }
  }

  /** Filter keeps exactly the positions whose element satisfies `p`, in order:
      an independent, position-based description of `Filter`. */
  lemma FilterKeepsExactly<T>(s: seq<T>, p: T -> bool)
    ensures Embeds(Filter(s, p), s, FilterPositions(s, p))
    ensures forall i :: 0 <= i < |s| ==> (i in FilterPositions(s, p) <==> p(s[i]))
  {
    FilterPositionsSpell(s, p);
    FilterPositionsIncreasing(s, p);
    FilterPositionsExact(s, p);
  }

  /** The result of a filter is a subsequence of its input. */
  lemma FilterIsSubsequence<T>(s: seq<T>, p: T -> bool)
    ensures IsSubsequence(Filter(s, p), s)
  {
    FilterKeepsExactly(s, p);
  }

  /** Filter keeps every copy of an element satisfying `p` and no copy of any other. */
  lemma {:induction false} FilterMultiset<T>(s: seq<T>, p: T -> bool)
    ensures forall x :: multiset(Filter(s, p))[x] == if p(x) then multiset(s)[x] else 0
  {
    if s != [] {
      FilterMultiset(s[1..], p);
      assert s == [s[0]] + s[1..];
      assert multiset(s) == multiset([s[0]]) + multiset(s[1..]);
    }
  }

  /** Filtering distributes over concatenation. */
  lemma {:induction false} FilterAppend<T>(a: seq<T>, b: seq<T>, p: T -> bool)
    ensures Filter(a + b, p) == Filter(a, p) + Filter(b, p)
  {
    if a != [] {
      assert (a + b)[1..] == a[1..] + b;
      FilterAppend(a[1..], b, p);
    } else {
      assert a + b == b;
    }
  }

  /** When every element satisfies `p`, filtering changes nothing. */
  lemma {:induction false} FilterKeepsAll<T>(s: seq<T>, p: T -> bool)
    requires forall i :: 0 <= i < |s| ==> p(s[i])
    ensures Filter(s, p) == s
  {
    if s != [] {
      FilterKeepsAll(s[1..], p);
    }
  }

  /** When no element satisfies `p`, the filter is empty. */
  lemma {:induction false} FilterKeepsNone<T>(s: seq<T>, p: T -> bool)
    requires forall i :: 0 <= i < |s| ==> !p(s[i])
    ensures Filter(s, p) == []
  {
    if s != [] {
      FilterKeepsNone(s[1..], p);
    }
  }

  /** Filtering twice with the same predicate is filtering once. */
  lemma FilterIdempotent<T>(s: seq<T>, p: T -> bool)
    ensures Filter(Filter(s, p), p) == Filter(s, p)
  {
    var r := Filter(s, p);
    assert forall i :: 0 <= i < |r| ==> r[i] in r;
    FilterKeepsAll(r, p);
  }

  /** Two predicates that agree on the elements of `s` filter it alike. */
  lemma {:induction false} FilterAgreeing<T>(s: seq<T>, p: T -> bool, q: T -> bool)
    requires forall i :: 0 <= i < |s| ==> p(s[i]) == q(s[i])
    ensures Filter(s, p) == Filter(s, q)
  {
    if s != [] {
      FilterAgreeing(s[1..], p, q);
    }
  }

  /** Filtering by a predicate and by its negation splits the length. */
  lemma {:induction false} FilterComplementLength<T>(s: seq<T>, p: T -> bool, q: T -> bool)
    requires forall i :: 0 <= i < |s| ==> q(s[i]) == !p(s[i])
    ensures |Filter(s, p)| + |Filter(s, q)| == |s|
  {
    if s != [] {
      FilterComplementLength(s[1..], p, q);
    }
  }

  /** Two sequences that agree position by position on `p` keep equally many elements. */
  lemma {:induction false} FilterLengthPointwise<T>(s: seq<T>, t: seq<T>, p: T -> bool)
    requires |s| == |t|
    requires forall i :: 0 <= i < |s| ==> p(s[i]) == p(t[i])
    ensures |Filter(s, p)| == |Filter(t, p)|
  {
    if s != [] {
      FilterLengthPointwise(s[1..], t[1..], p);
    }
  }

  /** When exactly the element at position `k` fails `p`, the filter drops just that element. */
  lemma {:induction false} FilterDropsOne<T>(s: seq<T>, k: nat, p: T -> bool)
    requires k < |s|
    requires !p(s[k])
    requires forall j :: 0 <= j < |s| && j != k ==> p(s[j])
    ensures Filter(s, p) == s[..k] + s[k + 1..]
  {
    var tail := s[1..];
    if k == 0 {
      FilterKeepsAll(tail, p);
    } else {
      assert forall j :: 0 <= j < |tail| && j != k - 1 ==> p(tail[j]) by {
        forall j | 0 <= j < |tail| && j != k - 1 ensures p(tail[j]) {
          assert tail[j] == s[j + 1];
        }
      }
      FilterDropsOne(tail, k - 1, p);
      assert [s[0]] + tail[..k - 1] == s[..k];
      assert tail[k..] == s[k + 1..];
    }
  }

  /** Removing an element other than the last keeps the last element last. */
  lemma RemoveAtKeepsLast<T>(s: seq<T>, k: nat)
    requires k < |s| - 1
    ensures |s[..k] + s[k + 1..]| == |s| - 1
    ensures (s[..k] + s[k + 1..])[|s| - 2] == s[|s| - 1]
  {
  }
}
