/** `Array.prototype.filter` and `Array.prototype.map` on sequences, and what
    it means for one sequence to be the filter of another. */
module Seqs {

  /** `s.filter(p)`: the elements of `s` that satisfy `p`, in their order. */
  function Filter<T>(s: seq<T>, p: T -> bool): (r: seq<T>)
    ensures |r| <= |s|
  {
    if s == [] then [] else (if p(s[0]) then [s[0]] else []) + Filter(s[1..], p)
  }

  /** `s.map(f)`. */
  function Map<T, U>(s: seq<T>, f: T -> U): (r: seq<U>)
    ensures |r| == |s|
    ensures forall i :: 0 <= i < |s| ==> r[i] == f(s[i])
  {
    if s == [] then [] else [f(s[0])] + Map(s[1..], f)
  }

  ghost predicate Increasing(idx: seq<int>) {
    forall k, l :: 0 <= k < l < |idx| ==> idx[k] < idx[l]
  }

  /** `r` lists the elements of `s` at the positions `idx`. */
  ghost predicate Picks<T>(r: seq<T>, s: seq<T>, idx: seq<int>) {
    |idx| == |r| && forall k :: 0 <= k < |idx| ==> 0 <= idx[k] < |s| && r[k] == s[idx[k]]
  }

  /** The positions of `s` whose element satisfies `p` are exactly `idx`. */
  ghost predicate SelectsExactly<T>(s: seq<T>, p: T -> bool, idx: seq<int>) {
    forall i :: 0 <= i < |s| ==> (p(s[i]) <==> i in idx)
  }

  /** Reference meaning of a filter: `r` is the order-preserving subsequence of
      `s` made of every position whose element satisfies `p`, and of no other. */
  ghost predicate IsFilter<T>(r: seq<T>, s: seq<T>, p: T -> bool) {
    exists idx :: Increasing(idx) && Picks(r, s, idx) && SelectsExactly(s, p, idx)
  }

  /** Every position moved one place to the right. */
  function Shift(idx: seq<int>): seq<int> {
    seq(|idx|, k requires 0 <= k < |idx| => idx[k] + 1)
  }

  /** `Filter` computes exactly the subsequence that `IsFilter` describes. */
  lemma FilterIsFilter<T>(s: seq<T>, p: T -> bool)
    ensures IsFilter(Filter(s, p), s, p)
  {
    var idx := FilterIndices(s, p);
  }

  /** The positions `Filter` keeps, built alongside it. */
  lemma {:induction false} FilterIndices<T>(s: seq<T>, p: T -> bool) returns (idx: seq<int>)
    ensures Increasing(idx) && Picks(Filter(s, p), s, idx) && SelectsExactly(s, p, idx)
  {
    if s == [] {
      idx := [];
    } else {
      var rest := Filter(s[1..], p);
      var idx' := FilterIndices(s[1..], p);
      ShiftPicks(rest, s, idx');
      ShiftIncreasing(s, rest, idx');
      if p(s[0]) {
        assert Filter(s, p) == [s[0]] + rest;
        idx := [0] + Shift(idx');
        PicksCons(s[0], rest, s, 0, Shift(idx'));
        ConsSelects(s, p, rest, idx');
      } else {
        assert Filter(s, p) == rest;
        idx := Shift(idx');
        ShiftSelects(s, p, rest, idx');
      }
    }
  }

  /** Positions into `s[1..]` shifted by one are the same elements' positions in `s`. */
  lemma ShiftPicks<T>(r: seq<T>, s: seq<T>, idx: seq<int>)
    requires s != [] && Picks(r, s[1..], idx)
    ensures Picks(r, s, Shift(idx))
  {
    forall j | 0 <= j < |r|
      ensures 0 <= Shift(idx)[j] < |s| && r[j] == s[Shift(idx)[j]]
    {
      assert r[j] == s[1..][idx[j]];
    }
  }

  lemma ShiftIncreasing<T>(s: seq<T>, r: seq<T>, idx: seq<int>)
    requires s != [] && Increasing(idx) && Picks(r, s[1..], idx)
    ensures Increasing(Shift(idx)) && Increasing([0] + Shift(idx))
  {
    forall k | 0 <= k < |idx|
      ensures idx[k] >= 0
    {
    }
  }

  lemma PicksCons<T>(x: T, rest: seq<T>, s: seq<T>, i: int, sh: seq<int>)
    requires 0 <= i < |s| && s[i] == x && Picks(rest, s, sh)
    ensures Picks([x] + rest, s, [i] + sh)
  {
  }

  /** When the first element fails the test, the selected positions are those of the rest, shifted. */
  lemma ShiftSelects<T>(s: seq<T>, p: T -> bool, r: seq<T>, idx': seq<int>)
    requires s != [] && !p(s[0]) && Picks(r, s[1..], idx') && SelectsExactly(s[1..], p, idx')
    ensures SelectsExactly(s, p, Shift(idx'))
  {
    forall i | 0 <= i < |s|
      ensures p(s[i]) <==> i in Shift(idx')
    {
      ShiftMember(s, r, idx', i);
    }
  }

  /** When the first element passes, position 0 joins the shifted positions of the rest. */
  lemma ConsSelects<T>(s: seq<T>, p: T -> bool, r: seq<T>, idx': seq<int>)
    requires s != [] && p(s[0]) && Picks(r, s[1..], idx') && SelectsExactly(s[1..], p, idx')
    ensures SelectsExactly(s, p, [0] + Shift(idx'))
  {
    forall i | 0 <= i < |s|
      ensures p(s[i]) <==> i in [0] + Shift(idx')
    {
      ShiftMember(s, r, idx', i);
    }
  }

  lemma ShiftMember<T>(s: seq<T>, r: seq<T>, idx': seq<int>, i: int)
    requires s != [] && Picks(r, s[1..], idx') && 0 <= i < |s|
    ensures i in Shift(idx') <==> i > 0 && i - 1 in idx'
    ensures i > 0 ==> s[i] == s[1..][i - 1]
  {
    var sh := Shift(idx');
    if i in sh {
      var k :| 0 <= k < |sh| && sh[k] == i;
      assert idx'[k] == i - 1;
    }
    if i > 0 && i - 1 in idx' {
      var k :| 0 <= k < |idx'| && idx'[k] == i - 1;
      assert sh[k] == i;
    }
  }

  /** A strictly increasing sequence has as many distinct elements as positions. */
  lemma {:induction false} IncreasingCard(a: seq<int>)
    requires Increasing(a)
    ensures |set x | x in a| == |a|
  {
    if a != [] {
      IncreasingCard(a[1..]);
      assert (set x | x in a) == {a[0]} + (set x | x in a[1..]);
      assert a[0] !in (set x | x in a[1..]);
    }
  }

  lemma {:induction false} IncreasingUnique(a: seq<int>, b: seq<int>)
    requires Increasing(a) && Increasing(b)
    requires forall x :: x in a <==> x in b
    ensures a == b
  {
    IncreasingCard(a);
    IncreasingCard(b);
    assert (set x | x in a) == (set x | x in b);
    if |a| > 0 {
      HeadsEqual(a, b);
      TailsSameMembers(a, b);
      IncreasingUnique(a[1..], b[1..]);
      assert a == [a[0]] + a[1..];
      assert b == [b[0]] + b[1..];
    }
  }

  /** Both heads are the least element of the common set. */
  lemma HeadsEqual(a: seq<int>, b: seq<int>)
    requires Increasing(a) && Increasing(b) && a != [] && b != []
    requires forall x :: x in a <==> x in b
    ensures a[0] == b[0]
  {
    assert a[0] in a && b[0] in b;
    HeadLeast(b, a[0]);
    HeadLeast(a, b[0]);
  }

  lemma HeadLeast(a: seq<int>, x: int)
    requires Increasing(a) && x in a
    ensures a[0] <= x
  {
    var k :| 0 <= k < |a| && a[k] == x;
    if k > 0 {
      assert a[0] < a[k];
    }
  }

  lemma TailsSameMembers(a: seq<int>, b: seq<int>)
    requires Increasing(a) && Increasing(b) && a != [] && b != [] && a[0] == b[0]
    requires forall x :: x in a <==> x in b
    ensures forall x :: x in a[1..] <==> x in b[1..]
  {
    forall x | x in a[1..]
      ensures x in b[1..]
    {
      TailMember(a, b, x);
    }
    forall x | x in b[1..]
      ensures x in a[1..]
    {
      TailMember(b, a, x);
    }
  }

  lemma TailMember(a: seq<int>, b: seq<int>, x: int)
    requires Increasing(a) && Increasing(b) && a != [] && b != [] && a[0] == b[0]
    requires forall y :: y in a ==> y in b
    requires x in a[1..]
    ensures x in b[1..]
  {
    var i :| 0 <= i < |a[1..]| && a[1..][i] == x;
    assert a[i + 1] == x && a[0] < a[i + 1];
    assert x in a;
    var j :| 0 <= j < |b| && b[j] == x;
    assert b[1..][j - 1] == x;
  }

  /** `IsFilter` determines its subsequence: there is only one filter of `s` by `p`. */
  lemma IsFilterUnique<T>(r1: seq<T>, r2: seq<T>, s: seq<T>, p: T -> bool)
    requires IsFilter(r1, s, p) && IsFilter(r2, s, p)
    ensures r1 == r2
  {
    var a :| Increasing(a) && Picks(r1, s, a) && SelectsExactly(s, p, a);
    var b :| Increasing(b) && Picks(r2, s, b) && SelectsExactly(s, p, b);
    forall x
      ensures x in a <==> x in b
    {
      SelectedIndex(s, p, r1, a, x);
      SelectedIndex(s, p, r2, b, x);
    }
    IncreasingUnique(a, b);
    assert |r1| == |r2|;
    forall k | 0 <= k < |r1|
      ensures r1[k] == r2[k]
    {
    }
  }

  lemma SelectedIndex<T>(s: seq<T>, p: T -> bool, r: seq<T>, idx: seq<int>, x: int)
    requires Picks(r, s, idx) && SelectsExactly(s, p, idx)
    ensures x in idx <==> 0 <= x < |s| && p(s[x])
  {
    if x in idx {
      var k :| 0 <= k < |idx| && idx[k] == x;
    }
  }

  /** Filtering distributes over concatenation. */
  lemma {:induction false} FilterAppend<T>(a: seq<T>, b: seq<T>, p: T -> bool)
    ensures Filter(a + b, p) == Filter(a, p) + Filter(b, p)
  {
    if a != [] {
      assert (a + b)[1..] == a[1..] + b;
      FilterAppend(a[1..], b, p);
    } else {
      assert a + b == b;
    }
  }

  /** Filtering by `q` and then by a stronger `p` is filtering by `p` alone. */
  lemma {:induction false} FilterNarrow<T>(s: seq<T>, p: T -> bool, q: T -> bool)
    requires forall x :: p(x) ==> q(x)
    ensures Filter(Filter(s, q), p) == Filter(s, p)
  {
    if s != [] {
      FilterNarrow(s[1..], p, q);
      var head := if q(s[0]) then [s[0]] else [];
      FilterAppend(head, Filter(s[1..], q), p);
    }
  }

  /** Filtering twice is filtering once by the conjunction. */
  lemma {:induction false} FilterTwice<T>(s: seq<T>, p: T -> bool, q: T -> bool, both: T -> bool)
    requires forall x :: both(x) == (p(x) && q(x))
    ensures Filter(Filter(s, p), q) == Filter(s, both)
  {
    if s != [] {
      FilterTwice(s[1..], p, q, both);
      var head := if p(s[0]) then [s[0]] else [];
      FilterAppend(head, Filter(s[1..], p), q);
    }
  }

  lemma {:induction false} MapAppend<T, U>(a: seq<T>, b: seq<T>, f: T -> U)
    ensures Map(a + b, f) == Map(a, f) + Map(b, f)
  {
    if a != [] {
      assert (a + b)[1..] == a[1..] + b;
      MapAppend(a[1..], b, f);
    } else {
      assert a + b == b;
    }
  }

  /** An element is kept by a filter exactly when it occurs in the input and satisfies the test. */
  lemma {:induction false} FilterMembership<T>(s: seq<T>, p: T -> bool, x: T)
    ensures x in Filter(s, p) <==> x in s && p(x)
  {
    if s != [] {
      FilterMembership(s[1..], p, x);
      assert s == [s[0]] + s[1..];
    }
  }

  /** A filter keeps one element per position that passes the test: its
      length is the number of such positions. */
  lemma FilterLength<T>(s: seq<T>, p: T -> bool, passing: set<int>)
    requires forall i :: i in passing <==> 0 <= i < |s| && p(s[i])
    ensures |Filter(s, p)| == |passing|
  {
    FilterIsFilter(s, p);
    var idx :| Increasing(idx) && Picks(Filter(s, p), s, idx) && SelectsExactly(s, p, idx);
    IncreasingCard(idx);
    SelectedSet(s, p, Filter(s, p), idx, passing);
  }

  lemma SelectedSet<T>(s: seq<T>, p: T -> bool, r: seq<T>, idx: seq<int>, passing: set<int>)
    requires Picks(r, s, idx) && SelectsExactly(s, p, idx)
    requires forall i :: i in passing <==> 0 <= i < |s| && p(s[i])
    ensures (set x | x in idx) == passing
  {
    forall x | x in idx
      ensures x in passing
    {
      var k :| 0 <= k < |idx| && idx[k] == x;
      assert 0 <= x < |s| && p(s[x]);
    }
    forall x | x in passing
      ensures x in idx
    {
      assert 0 <= x < |s| && p(s[x]);
    }
  }
}
