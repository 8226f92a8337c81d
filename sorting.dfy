/** `Array.prototype.sort` with a comparator. ECMAScript requires the sort
    to be stable; this model fixes one stable algorithm, insertion from the
    right, and states sortedness and permutation for it. A comparator
    `cmp` is represented by `leq(a, b) := cmp(a, b) <= 0`. */
module Sorting {
  import Seqs

  /** A comparator consistent in the sense ECMAScript asks for: every two
      elements are comparable and the order is transitive. */
  ghost predicate TotalPreorder<T(!new)>(leq: (T, T) -> bool) {
    (forall a, b :: leq(a, b) || leq(b, a)) &&
    (forall a, b, c :: leq(a, b) && leq(b, c) ==> leq(a, c))
  }

  predicate SortedBy<T>(s: seq<T>, leq: (T, T) -> bool) {
    forall i, j :: 0 <= i < j < |s| ==> leq(s[i], s[j])
  }

  /** Inserts `x` into `s` from the right: it moves left past every element
      that is not `leq` it, so it lands after its equals. */
  function InsertR<T>(x: T, s: seq<T>, leq: (T, T) -> bool): (r: seq<T>)
    ensures |r| == |s| + 1
  {
    if |s| == 0 || leq(s[|s| - 1], x) then s + [x]
    else InsertR(x, s[..|s| - 1], leq) + [s[|s| - 1]]
  }

  /** The stable sort: each element, taken left to right, is inserted into
      the sorted prefix before it. */
  function Sort<T>(s: seq<T>, leq: (T, T) -> bool): (r: seq<T>)
    ensures |r| == |s|
  {
    if |s| == 0 then []
    else InsertR(s[|s| - 1], Sort(s[..|s| - 1], leq), leq)
  }

  /** Insertion adds exactly the inserted element. */
  lemma {:induction false} InsertRPermutation<T>(x: T, s: seq<T>, leq: (T, T) -> bool)
    ensures multiset(InsertR(x, s, leq)) == multiset(s) + multiset{x}
  {
    if |s| > 0 && !leq(s[|s| - 1], x) {
      var p := s[..|s| - 1];
      assert s == p + [s[|s| - 1]];
      InsertRPermutation(x, p, leq);
    }
  }

  /** The sort is a permutation of its input. */
  lemma {:induction false} SortPermutation<T>(s: seq<T>, leq: (T, T) -> bool)
    ensures multiset(Sort(s, leq)) == multiset(s)
  {
    if |s| > 0 {
      var p := s[..|s| - 1];
      assert s == p + [s[|s| - 1]];
      SortPermutation(p, leq);
      InsertRPermutation(s[|s| - 1], Sort(p, leq), leq);
    }
  }

  /** The sort neither adds nor loses elements. */
  lemma SortMembers<T>(s: seq<T>, leq: (T, T) -> bool)
    ensures forall x :: x in Sort(s, leq) <==> x in s
  {
    SortPermutation(s, leq);
    forall x ensures x in Sort(s, leq) <==> x in s {
      assert x in Sort(s, leq) <==> x in multiset(Sort(s, leq));
      assert x in s <==> x in multiset(s);
    }
  }

  /** Inserting into a sorted sequence keeps it sorted. */
  lemma {:induction false} InsertRSorted<T(!new)>(x: T, s: seq<T>, leq: (T, T) -> bool)
    requires TotalPreorder(leq)
    requires SortedBy(s, leq)
    ensures SortedBy(InsertR(x, s, leq), leq)
  {
    if |s| > 0 && !leq(s[|s| - 1], x) {
      var p := s[..|s| - 1];
      var y := s[|s| - 1];
      InsertRSorted(x, p, leq);
      var q := InsertR(x, p, leq);
      InsertRPermutation(x, p, leq);
      assert leq(x, y);
      forall k | 0 <= k < |q| ensures leq(q[k], y) {
        assert q[k] in multiset(q);
        assert q[k] in multiset(p) + multiset{x};
        if q[k] != x {
          assert q[k] in p;
        }
      }
    }
  }

  /** The sort produces a sorted permutation of its input. */
  lemma {:induction false} SortSorted<T(!new)>(s: seq<T>, leq: (T, T) -> bool)
    requires TotalPreorder(leq)
    ensures SortedBy(Sort(s, leq), leq)
  {
    if |s| > 0 {
      SortSorted(s[..|s| - 1], leq);
      InsertRSorted(s[|s| - 1], Sort(s[..|s| - 1], leq), leq);
    }
  }

  /** The elements that `leq` puts in the same place as `z`. */
  function EquivTo<T>(leq: (T, T) -> bool, z: T): T -> bool {
    (y: T) => leq(y, z) && leq(z, y)
  }

  /** Insertion puts `x` after every element that `p` keeps, when all of
      those are `leq` it, and otherwise among different ones only. */
  lemma {:induction false} InsertRFilter<T(!new)>(x: T, s: seq<T>, leq: (T, T) -> bool, p: T -> bool)
    requires p(x) ==> forall y :: p(y) ==> leq(y, x)
    ensures Seqs.Filter(InsertR(x, s, leq), p) == Seqs.Filter(s, p) + (if p(x) then [x] else [])
  {
    Seqs.FilterSingleton(x, p);
    if |s| == 0 || leq(s[|s| - 1], x) {
      Seqs.FilterConcat(s, [x], p);
    } else {
      var front := s[..|s| - 1];
      var y := s[|s| - 1];
      var q := InsertR(x, front, leq);
      assert InsertR(x, s, leq) == q + [y];
      assert s == front + [y];
      assert p(x) ==> !p(y);
      InsertRFilter(x, front, leq, p);
      Seqs.FilterSingleton(y, p);
      Seqs.FilterConcat(q, [y], p);
      Seqs.FilterConcat(front, [y], p);
      SwapEmpty(Seqs.Filter(front, p), if p(x) then [x] else [], Seqs.Filter([y], p));
    }
  }

  /** Two appended parts commute when one of them is empty. */
  lemma SwapEmpty<T>(f: seq<T>, a: seq<T>, b: seq<T>)
    requires a == [] || b == []
    ensures (f + a) + b == (f + b) + a
  {
    if a == [] {
      assert f + a == f && (f + b) + a == f + b;
    } else {
      assert f + b == f && (f + a) + b == f + a;
    }
  }

  /** The sort is stable: the elements equivalent to any `z` come out in the
      order they went in. */
  lemma {:induction false} SortStable<T(!new)>(s: seq<T>, leq: (T, T) -> bool, z: T)
    requires TotalPreorder(leq)
    ensures Seqs.Filter(Sort(s, leq), EquivTo(leq, z)) == Seqs.Filter(s, EquivTo(leq, z))
  {
    if |s| > 0 {
      var front := s[..|s| - 1];
      var x := s[|s| - 1];
      var p := EquivTo(leq, z);
      assert s == front + [x];
      assert [x][1..] == [];
      SortStable(front, leq, z);
      InsertRFilter(x, Sort(front, leq), leq, p);
      Seqs.FilterConcat(front, [x], p);
    }
  }

  /** A sorted sequence stays sorted when elements are dropped from it. */
  lemma {:induction false} FilterSorted<T(!new)>(s: seq<T>, p: T -> bool, leq: (T, T) -> bool)
    requires SortedBy(s, leq)
    ensures SortedBy(Seqs.Filter(s, p), leq)
  {
    if |s| > 0 {
      FilterSorted(s[1..], p, leq);
      var f := Seqs.Filter(s[1..], p);
      forall k | 0 <= k < |f| ensures leq(s[0], f[k]) {
        assert f[k] in s[1..];
      }
    }
  }

  /** Where `x` lands: after `s[..j]` when every later element is not `leq`
      it and the one before is. */
  lemma {:induction false} InsertRAt<T>(x: T, s: seq<T>, j: nat, leq: (T, T) -> bool)
    requires j <= |s|
    requires j == 0 || leq(s[j - 1], x)
    requires forall k :: j <= k < |s| ==> !leq(s[k], x)
    ensures InsertR(x, s, leq) == s[..j] + [x] + s[j..]
  {
    if j < |s| {
      var front := s[..|s| - 1];
      assert front[..j] == s[..j];
      assert j == 0 || front[j - 1] == s[j - 1];
      InsertRAt(x, front, j, leq);
      assert s[j..] == front[j..] + [s[|s| - 1]];
    } else {
      assert s[..j] == s && s[j..] == [];
    }
  }

  /** One step of the in-place sort: `a[i]` is shifted left into the
      prefix `a[..i]` past every element that is not `leq` it. */
  method InsertInPlace<T>(a: array<T>, i: nat, leq: (T, T) -> bool)
    requires i < a.Length
    modifies a
    ensures a[..i + 1] == InsertR(old(a[i]), old(a[..i]), leq)
    ensures a[i + 1..] == old(a[i + 1..])
  {
    var x := a[i];
    ghost var sorted := a[..i];
    var j := ShiftPast(a, i, x, leq);
    InsertRAt(x, sorted, j, leq);
    a[j] := x;
    Placed(a[..i + 1], sorted, x, j);
  }

  /** The shifting loop of the in-place step: every element of `a[..i]`
      that is not `leq` `x`, from the right, moves one place right; the
      result is where `x` belongs. */
  method ShiftPast<T>(a: array<T>, i: nat, x: T, leq: (T, T) -> bool) returns (j: nat)
    requires i < a.Length
    modifies a
    ensures j <= i
    ensures j == 0 || leq(old(a[j - 1]), x)
    ensures forall k :: j <= k < i ==> !leq(old(a[k]), x)
    ensures forall k :: 0 <= k < j ==> a[k] == old(a[k])
    ensures forall k :: j < k <= i ==> a[k] == old(a[k - 1])
    ensures forall k :: i < k < a.Length ==> a[k] == old(a[k])
  {
    j := i;
    while j > 0 && !leq(a[j - 1], x)
      invariant 0 <= j <= i
      invariant forall k :: 0 <= k < j ==> a[k] == old(a[k])
      invariant forall k :: j < k <= i ==> a[k] == old(a[k - 1])
      invariant forall k :: i < k < a.Length ==> a[k] == old(a[k])
      invariant forall k :: j <= k < i ==> !leq(old(a[k]), x)
    {
      a[j] := a[j - 1];
      j := j - 1;
    }
  }

  /** The prefix after the shifts: the elements before `j`, then `x`, then
      the shifted ones. */
  lemma Placed<T>(b: seq<T>, sorted: seq<T>, x: T, j: nat)
    requires j <= |sorted| && |b| == |sorted| + 1
    requires forall k :: 0 <= k < j ==> b[k] == sorted[k]
    requires b[j] == x
    requires forall k :: j < k < |b| ==> b[k] == sorted[k - 1]
    ensures b == sorted[..j] + [x] + sorted[j..]
  {
    var r := sorted[..j] + [x] + sorted[j..];
    assert forall k :: 0 <= k < |b| ==> b[k] == r[k];
  }

  /** The sort, done in place on an array as the engine does it. */
  method SortInPlace<T>(a: array<T>, leq: (T, T) -> bool)
    modifies a
    ensures a[..] == Sort(old(a[..]), leq)
  {
    ghost var orig := a[..];
    var i := 0;
    while i < a.Length
      invariant 0 <= i <= a.Length
      invariant a[..i] == Sort(orig[..i], leq)
      invariant a[i..] == orig[i..]
    {
      assert orig[..i + 1] == orig[..i] + [orig[i]];
      assert orig[..i + 1][..i] == orig[..i];
      InsertInPlace(a, i, leq);
      i := i + 1;
    }
    assert orig[..a.Length] == orig;
  }
}
