/** Generic sequence operations that stand for JavaScript's `filter`,
    `includes`, `findIndex` and `[...new Set(xs)]`, with the facts the rest
    of the model needs about them. */
module Seqs {

  /** `s.filter(p)`: the elements of `s` satisfying `p`, in order. */
  function Filter<T(!new)>(s: seq<T>, p: T -> bool): (r: seq<T>)
    ensures |r| <= |s|
    ensures forall x :: x in r <==> x in s && p(x)
    ensures forall i :: 0 <= i < |r| ==> p(r[i])
  {
    if |s| == 0 then []
    else if p(s[0]) then [s[0]] + Filter(s[1..], p)
    else Filter(s[1..], p)
  }

  /** `a` is `b` with some elements left out and the rest in their order. */
  predicate IsSubseq<T(==)>(a: seq<T>, b: seq<T>)
    decreases |b|
  {
    |a| <= |b| &&
    (|a| == 0 || (a[0] == b[0] && IsSubseq(a[1..], b[1..])) || IsSubseq(a, b[1..]))
  }

  /** Every sequence is a subsequence of itself. */
  lemma {:induction false} SubseqRefl<T>(s: seq<T>)
    ensures IsSubseq(s, s)
  {
    if |s| > 0 {
      SubseqRefl(s[1..]);
    }
  }

  /** Filtering keeps the relative order of what it keeps. */
  lemma {:induction false} FilterOrdered<T(!new)>(s: seq<T>, p: T -> bool)
    ensures IsSubseq(Filter(s, p), s)
  {
    if |s| > 0 {
      FilterOrdered(s[1..], p);
      if p(s[0]) {
        assert Filter(s, p)[1..] == Filter(s[1..], p);
      }
    }
  }

  /** `s.findIndex(x => key(x) === k)`: the first index whose key is `k`,
      and -1 when no element has it. */
  function FirstIndex<T, K(==)>(s: seq<T>, key: T -> K, k: K): (r: int)
    ensures -1 <= r < |s|
    ensures r >= 0 ==> key(s[r]) == k && forall j :: 0 <= j < r ==> key(s[j]) != k
    ensures r == -1 ==> forall j :: 0 <= j < |s| ==> key(s[j]) != k
  {
    if |s| == 0 then -1
    else if key(s[0]) == k then 0
    else
      var j := FirstIndex(s[1..], key, k);
      if j == -1 then -1 else j + 1
  }

  /** The number of elements of `s` satisfying `p` (`s.filter(p).length`). */
  function Count<T(!new)>(s: seq<T>, p: T -> bool): (n: nat)
    ensures n <= |s|
  {
    |Filter(s, p)|
  }

  predicate NoDup<T(==)>(s: seq<T>) {
    forall i, j :: 0 <= i < j < |s| ==> s[i] != s[j]
  }

  /** Filtering distributes over concatenation. */
  lemma {:induction false} FilterConcat<T(!new)>(a: seq<T>, b: seq<T>, p: T -> bool)
    ensures Filter(a + b, p) == Filter(a, p) + Filter(b, p)
  {
    if |a| > 0 {
      assert (a + b)[1..] == a[1..] + b;
      FilterConcat(a[1..], b, p);
    } else {
      assert a + b == b;
    }
  }

  /** Filtering keeps every occurrence of a satisfying element and drops
      every occurrence of the others. */
  lemma {:induction false} FilterMultiset<T(!new)>(s: seq<T>, p: T -> bool)
    ensures forall x :: multiset(Filter(s, p))[x] == if p(x) then multiset(s)[x] else 0
  {
    if |s| > 0 {
      FilterMultiset(s[1..], p);
      assert s == [s[0]] + s[1..];
    }
  }

  lemma FilterSubMultiset<T(!new)>(s: seq<T>, p: T -> bool)
    ensures multiset(Filter(s, p)) <= multiset(s)
  {
    FilterMultiset(s, p);
  }

  /** Filters whose predicates agree on the elements agree. */
  lemma {:induction false} FilterExt<T(!new)>(s: seq<T>, p: T -> bool, q: T -> bool)
    requires forall x :: x in s ==> p(x) == q(x)
    ensures Filter(s, p) == Filter(s, q)
  {
    if |s| > 0 {
      assert forall x :: x in s[1..] ==> x in s;
      FilterExt(s[1..], p, q);
    }
  }

  /** A filter that every element passes changes nothing. */
  lemma {:induction false} FilterAll<T(!new)>(s: seq<T>, p: T -> bool)
    requires forall x :: x in s ==> p(x)
    ensures Filter(s, p) == s
  {
    if |s| > 0 {
      assert p(s[0]) by {
        assert s[0] in s;
      }
      forall x | x in s[1..] ensures p(x) {
        assert x in s;
      }
      FilterAll(s[1..], p);
      assert s == [s[0]] + s[1..];
    }
  }

  /** Filtering one element keeps it or drops it. */
  lemma FilterSingleton<T(!new)>(x: T, p: T -> bool)
    ensures Filter([x], p) == if p(x) then [x] else []
  {
    assert [x][1..] == [];
  }

  /** A filter that no element passes leaves nothing. */
  lemma {:induction false} FilterNone<T(!new)>(s: seq<T>, p: T -> bool)
    requires forall x :: x in s ==> !p(x)
    ensures Filter(s, p) == []
  {
    if |s| > 0 {
      assert forall x :: x in s[1..] ==> x in s;
      FilterNone(s[1..], p);
    }
  }

  /** Two filters with complementary predicates split a sequence: their
      lengths add up and their elements together are those of `s`. */
  lemma {:induction false} FilterPartition<T(!new)>(s: seq<T>, p: T -> bool, q: T -> bool)
    requires forall x :: q(x) == !p(x)
    ensures |Filter(s, p)| + |Filter(s, q)| == |s|
    ensures multiset(Filter(s, p)) + multiset(Filter(s, q)) == multiset(s)
  {
    if |s| > 0 {
      FilterPartition(s[1..], p, q);
      assert s == [s[0]] + s[1..];
    }
  }

  /** Filtering with `p` and then `q` keeps a sequence sorted in the same
      relative order: the result is a subsequence. */
  lemma {:induction false} FilterFilter<T(!new)>(s: seq<T>, p: T -> bool, q: T -> bool, pq: T -> bool)
    requires forall x :: pq(x) == (p(x) && q(x))
    ensures Filter(Filter(s, p), q) == Filter(s, pq)
  {
    if |s| > 0 {
      FilterFilter(s[1..], p, q, pq);
    }
  }

  /** Filtering keeps distinct elements distinct. */
  lemma {:induction false} FilterNoDup<T(!new)>(s: seq<T>, p: T -> bool)
    requires NoDup(s)
    ensures NoDup(Filter(s, p))
  {
    if |s| > 0 {
      assert forall k :: 0 <= k < |s| - 1 ==> s[1..][k] == s[k + 1] != s[0];
      assert s[0] !in s[1..];
      FilterNoDup(s[1..], p);
    }
  }

  /** A sequence without duplicates counts every element at most once. */
  lemma {:induction false} NoDupMultiset<T>(s: seq<T>)
    requires NoDup(s)
    ensures forall x :: multiset(s)[x] <= 1
  {
    if |s| > 0 {
      assert forall k :: 0 <= k < |s| - 1 ==> s[1..][k] == s[k + 1] != s[0];
      assert s[0] !in s[1..];
      NoDupMultiset(s[1..]);
      assert s == [s[0]] + s[1..];
    }
  }

  /** A sequence that counts every element at most once has no duplicates. */
  lemma {:induction false} MultisetNoDup<T>(s: seq<T>)
    requires forall x :: multiset(s)[x] <= 1
    ensures NoDup(s)
  {
    if |s| > 0 {
      var t := s[1..];
      assert s == [s[0]] + t;
      assert multiset(s) == multiset{s[0]} + multiset(t);
      assert multiset(s)[s[0]] <= 1;
      assert s[0] !in multiset(t);
      forall x ensures multiset(t)[x] <= 1 {
        assert multiset(t)[x] <= multiset(s)[x];
      }
      MultisetNoDup(t);
      forall i, j | 0 <= i < j < |s| ensures s[i] != s[j] {
        assert s[j] == t[j - 1] && s[j] in t;
        if i > 0 {
          assert s[i] == t[i - 1];
        }
      }
    }
  }

  /** Appending distinct elements absent from a sequence without duplicates
      keeps it without duplicates. */
  lemma NoDupAppend<T>(a: seq<T>, b: seq<T>)
    requires NoDup(a) && NoDup(b)
    requires forall k :: 0 <= k < |b| ==> b[k] !in a
    ensures NoDup(a + b)
  {
    var r := a + b;
    forall i, j | 0 <= i < j < |r| ensures r[i] != r[j] {
      if j >= |a| {
        assert r[j] == b[j - |a|];
        if i >= |a| {
          assert r[i] == b[i - |a|];
        } else {
          assert r[i] in a;
        }
      }
    }
  }

  /** Having no duplicates survives a permutation. */
  lemma NoDupPermutation<T>(a: seq<T>, b: seq<T>)
    requires NoDup(a) && multiset(a) == multiset(b)
    ensures NoDup(b)
  {
    NoDupMultiset(a);
    MultisetNoDup(b);
  }

  /** `sel.includes(x) ? sel.filter(y => y !== x) : [...sel, x]`: the
      selection toggle shared by the transfer and purge pages. */
  function Toggle<T(==,!new)>(sel: seq<T>, x: T): (r: seq<T>)
    ensures x in r <==> x !in sel
    ensures forall y :: y != x ==> (y in r <==> y in sel)
  {
    if x in sel then Filter(sel, y => y != x) else sel + [x]
  }

  /** Toggling twice restores membership of every element, and restores the
      selection exactly when the element was not selected to begin with. */
  lemma ToggleTwice<T(!new)>(sel: seq<T>, x: T)
    ensures forall y :: y in Toggle(Toggle(sel, x), x) <==> y in sel
    ensures x !in sel ==> Toggle(Toggle(sel, x), x) == sel
  {
    if x !in sel {
      FilterConcat(sel, [x], y => y != x);
      FilterAll(sel, y => y != x);
    }
  }

  /** Some element of `d` has key `k` (`d.some(y => key(y) === k)`). */
  predicate HasKey<T, K(==)>(d: seq<T>, k: K, key: T -> K) {
    exists j :: 0 <= j < |d| && key(d[j]) == k
  }

  /** Keeps, for every key, the first element of `s` that has it, in the order
      of first occurrence (`xs.filter((v, i) => i === xs.findIndex(k(v)))`). */
  function DedupBy<T(!new), K(==)>(s: seq<T>, key: T -> K): (r: seq<T>)
    ensures forall i, j :: 0 <= i < j < |r| ==> key(r[i]) != key(r[j])
    ensures forall y :: y in r ==> y in s
    ensures forall i :: 0 <= i < |s| ==> HasKey(r, key(s[i]), key)
  {
    if |s| == 0 then []
    else
      var d := DedupBy(s[..|s| - 1], key);
      var x := s[|s| - 1];
      assert forall i :: 0 <= i < |s| - 1 ==> s[i] == s[..|s| - 1][i];
      if HasKey(d, key(x), key) then d
      else
        assert forall i :: 0 <= i < |s| - 1 ==> HasKey(d + [x], key(s[i]), key) by {
          forall i | 0 <= i < |s| - 1 ensures HasKey(d + [x], key(s[i]), key) {
            assert HasKey(d, key(s[..|s| - 1][i]), key);
            var j :| 0 <= j < |d| && key(d[j]) == key(s[i]);
            assert (d + [x])[j] == d[j];
          }
        }
        assert HasKey(d + [x], key(x), key) by { assert (d + [x])[|d|] == x; }
        d + [x]
  }

  /** Dedup grows one element at a time: a new element is kept exactly when
      its key is new. */
  lemma DedupBySnoc<T(!new), K>(s: seq<T>, x: T, key: T -> K)
    ensures DedupBy(s + [x], key) ==
            if HasKey(DedupBy(s, key), key(x), key) then DedupBy(s, key) else DedupBy(s, key) + [x]
  {
    assert (s + [x])[..|s|] == s;
  }

  /** `[...new Set(xs)]`: the distinct elements in order of first occurrence. */
  function Dedup<T(==,!new)>(s: seq<T>): (r: seq<T>)
    ensures NoDup(r)
    ensures forall x :: x in r <==> x in s
    ensures |s| > 0 ==> |r| > 0 && r[0] == s[0]
  {
    var key := (x: T) => x;
    assert |s| > 0 ==> |DedupBy(s, key)| > 0 && DedupBy(s, key)[0] == s[0] by {
      if |s| > 0 {
        DedupByHead(s, key);
      }
    }
    DedupBy(s, key)
  }

  /** The first element is always kept, and kept first. */
  lemma {:induction false} DedupByHead<T(!new), K>(s: seq<T>, key: T -> K)
    requires |s| > 0
    ensures |DedupBy(s, key)| > 0 && DedupBy(s, key)[0] == s[0]
  {
    if |s| > 1 {
      DedupByHead(s[..|s| - 1], key);
      assert s[..|s| - 1][0] == s[0];
    } else {
      assert s[..0] == [];
    }
  }

  /** The element dedup keeps for a key is the first element of `s` with that
      key: no earlier element shares it. */
  lemma {:induction false} DedupByFirst<T(!new), K>(s: seq<T>, key: T -> K, i: nat)
    requires i < |s|
    requires forall k :: 0 <= k < i ==> key(s[k]) != key(s[i])
    ensures s[i] in DedupBy(s, key)
  {
    var n := |s| - 1;
    var d := DedupBy(s[..n], key);
    if i < n {
      assert forall k :: 0 <= k <= i ==> s[..n][k] == s[k];
      DedupByFirst(s[..n], key, i);
      assert s[i] in d;
      assert DedupBy(s, key) == d || DedupBy(s, key) == d + [s[n]];
    } else {
      assert !HasKey(d, key(s[i]), key) by {
        forall j | 0 <= j < |d| ensures key(d[j]) != key(s[i]) {
          assert d[j] in s[..n];
        }
      }
      assert DedupBy(s, key) == d + [s[n]];
    }
  }

  /** Dedup changes nothing when the keys are already distinct. */
  lemma {:induction false} DedupByUnique<T(!new), K>(s: seq<T>, key: T -> K)
    requires forall i, j :: 0 <= i < j < |s| ==> key(s[i]) != key(s[j])
    ensures DedupBy(s, key) == s
  {
    if |s| > 0 {
      var n := |s| - 1;
      var p := s[..n];
      DedupByUnique(p, key);
      assert !HasKey(p, key(s[n]), key) by {
        forall j | 0 <= j < |p| ensures key(p[j]) != key(s[n]) {
          assert p[j] == s[j];
        }
      }
      assert s == p + [s[n]];
    }
  }
}
