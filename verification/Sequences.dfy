/** Facts about sequences that the ring, the protocol and the hint store share. */
module Sequences {

  ghost predicate Distinct<T>(s: seq<T>) {
    forall i, j :: 0 <= i < j < |s| ==> s[i] != s[j]
  }

  ghost function Elements<T>(s: seq<T>): set<T> {
    set x | x in s
  }

  /** Each member of `keys` exactly once: an order in which a Go map can be ranged over. */
  ghost predicate IsOrderOf<T>(order: seq<T>, keys: set<T>) {
    && Distinct(order)
    && (forall x :: x in order ==> x in keys)
    && (forall x :: x in keys ==> x in order)
  }

  /** `s` without the members of `gone`, in the old order. */
  function Without<T(==)>(s: seq<T>, gone: set<T>): seq<T> {
    if s == [] then []
    else
      var last := s[|s| - 1];
      Without(s[..|s| - 1], gone) + (if last in gone then [] else [last])
  }

  lemma {:induction false} WithoutMembers<T>(s: seq<T>, gone: set<T>)
    ensures forall x :: x in Without(s, gone) ==> x in s && x !in gone
    ensures forall x :: x in s && x !in gone ==> x in Without(s, gone)
    ensures |Without(s, gone)| <= |s|
  {
    if s != [] {
      WithoutMembers(s[..|s| - 1], gone);
    }
  }

  lemma {:induction false} WithoutConcat<T>(a: seq<T>, b: seq<T>, gone: set<T>)
    ensures Without(a + b, gone) == Without(a, gone) + Without(b, gone)
  {
    if b == [] {
      assert a + b == a;
    } else {
      var b' := b[..|b| - 1];
      assert (a + b)[..|a + b| - 1] == a + b';
      WithoutConcat(a, b', gone);
    }
  }

  lemma {:induction false} WithoutNone<T>(s: seq<T>, gone: set<T>)
    requires forall x :: x in s ==> x !in gone
    ensures Without(s, gone) == s
  {
    if s != [] {
      WithoutNone(s[..|s| - 1], gone);
    }
  }

  /** Filtering in front of an element, spelled out. */
  lemma WithoutSnoc<T>(s: seq<T>, x: T, gone: set<T>)
    ensures Without(s + [x], gone) == Without(s, gone) + (if x in gone then [] else [x])
  {
  }

  lemma {:induction false} WithoutTwice<T>(s: seq<T>, a: set<T>, b: set<T>)
    ensures Without(Without(s, a), b) == Without(s, a + b)
  {
    if s != [] {
      var front, last := s[..|s| - 1], s[|s| - 1];
      assert s == front + [last];
      WithoutTwice(front, a, b);
      WithoutSnoc(front, last, a);
      WithoutSnoc(front, last, a + b);
      if last !in a {
        WithoutSnoc(Without(front, a), last, b);
      } else {
        assert Without(s, a) == Without(front, a);
      }
    }
  }

  lemma WithoutMiddle<T>(a: seq<T>, x: T, b: seq<T>)
    requires x !in a && x !in b
    ensures Without(a + [x] + b, {x}) == a + b
  {
    WithoutConcat(a + [x], b, {x});
    WithoutSnoc(a, x, {x});
    WithoutNone(a, {x});
    WithoutNone(b, {x});
    assert a + [] == a;
  }

  /** `s` with position `k` taken out. */
  function Cut<T>(s: seq<T>, k: nat): (r: seq<T>)
    requires k < |s|
    ensures |r| == |s| - 1
    ensures forall m :: 0 <= m < |r| ==> r[m] == if m < k then s[m] else s[m + 1]
  {
    s[..k] + s[k + 1..]
  }

  /** Taking one element out of a sequence that holds it once. */
  lemma WithoutOne<T>(s: seq<T>, k: nat)
    requires k < |s| && forall m :: 0 <= m < |s| && m != k ==> s[m] != s[k]
    ensures Without(s, {s[k]}) == Cut(s, k)
  {
    var a, x, b := s[..k], s[k], s[k + 1..];
    assert x !in a && x !in b;
    assert s == a + [x] + b;
    WithoutMiddle(a, x, b);
  }

  /** `s` with `x` put in at position `k`. */
  function Splice<T>(s: seq<T>, k: nat, x: T): (r: seq<T>)
    requires k <= |s|
    ensures |r| == |s| + 1
    ensures forall m :: 0 <= m < |r| ==> r[m] == if m < k then s[m] else if m == k then x else s[m - 1]
  {
    s[..k] + [x] + s[k..]
  }

  lemma SpliceMembers<T>(s: seq<T>, k: nat, x: T)
    requires k <= |s|
    ensures x in Splice(s, k, x)
    ensures forall y :: y in s ==> y in Splice(s, k, x)
    ensures forall y :: y in Splice(s, k, x) ==> y in s || y == x
  {
  }

  /** Splicing in an element that the filter drops anyway changes nothing. */
  lemma WithoutSplice<T>(s: seq<T>, k: nat, x: T, gone: set<T>)
    requires k <= |s| && x in gone
    ensures Without(Splice(s, k, x), gone) == Without(s, gone)
  {
    var a, b := s[..k], s[k..];
    assert s == a + b;
    WithoutConcat(a + [x], b, gone);
    WithoutSnoc(a, x, gone);
    assert Without(a, gone) + [] == Without(a, gone);
    WithoutConcat(a, b, gone);
  }

  lemma {:induction false} WithoutStranger<T>(s: seq<T>, x: T, gone: set<T>)
    requires x !in s
    ensures Without(s, gone + {x}) == Without(s, gone)
  {
    if s != [] {
      WithoutStranger(s[..|s| - 1], x, gone);
    }
  }

  /** Splicing in a new element and dropping it again with earlier ones. */
  lemma WithoutSpliceNew<T>(s: seq<T>, k: nat, x: T, ls: seq<T>)
    requires k <= |s| && x !in s
    ensures Without(Splice(s, k, x), Elements(ls + [x])) == Without(s, Elements(ls))
  {
    assert Elements(ls + [x]) == Elements(ls) + {x};
    WithoutSplice(s, k, x, Elements(ls) + {x});
    WithoutStranger(s, x, Elements(ls));
  }

  lemma {:induction false} DistinctWithout<T>(s: seq<T>, gone: set<T>)
    requires Distinct(s)
    ensures Distinct(Without(s, gone))
  {
    if s != [] {
      DistinctWithout(s[..|s| - 1], gone);
      WithoutMembers(s[..|s| - 1], gone);
    }
  }

  lemma ElementsSnoc<T>(s: seq<T>, x: T)
    ensures Elements(s + [x]) == Elements(s) + {x}
  {
  }

  lemma {:induction false} DistinctSize<T>(s: seq<T>)
    requires Distinct(s)
    ensures |Elements(s)| == |s|
  {
    if s != [] {
      var front, last := s[..|s| - 1], s[|s| - 1];
      assert last !in front && s == front + [last];
      DistinctSize(front);
      ElementsSnoc(front, last);
    }
  }

  lemma SubsetSize<T>(a: set<T>, b: set<T>)
    requires a <= b
    ensures |a| <= |b|
    ensures |a| == |b| ==> a == b
  {
    var d := b - a;
    assert b == a + d;
  }

  /** Where `x` first stands in `s`. */
  function IndexOf<T(==)>(s: seq<T>, x: T): (k: nat)
    requires x in s
    ensures k < |s| && s[k] == x
    ensures forall j :: 0 <= j < k ==> s[j] != x
  {
    if s[0] == x then 0 else 1 + IndexOf(s[1..], x)
  }

  /** The element clockwise before `x`: the last one precedes the first. */
  function Predecessor<T(==)>(s: seq<T>, x: T): T
    requires x in s
  {
    var k := IndexOf(s, x);
    if k == 0 then s[|s| - 1] else s[k - 1]
  }

  /** `idx` lists the members of `s`, each once, in increasing order. */
  ghost predicate Increasing(idx: seq<nat>, s: set<nat>) {
    && (forall j, k :: 0 <= j < k < |idx| ==> idx[j] < idx[k])
    && (forall i :: i in idx <==> i in s)
  }

  lemma IncreasingSnoc(idx: seq<nat>, s: set<nat>, n: nat)
    requires Increasing(idx, s) && forall i :: i in s ==> i < n
    ensures Increasing(idx + [n], s + {n})
  {
    forall k | 0 <= k < |idx| ensures idx[k] < n {
      assert idx[k] in idx;
    }
  }

  /** The element in front of the k-th, and the last one in front of the first. */
  lemma PredecessorAt<T>(s: seq<T>, k: nat)
    requires Distinct(s) && k < |s|
    ensures Predecessor(s, s[k]) == if k == 0 then s[|s| - 1] else s[k - 1]
  {
    IndexIs(s, k);
  }

  lemma IndexIs<T>(s: seq<T>, k: nat)
    requires Distinct(s) && k < |s|
    ensures IndexOf(s, s[k]) == k
  {
  }
}
