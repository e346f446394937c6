/** Joins, exactly: which keys an AddNode disturbs, and which moves its notices leave out. */
module Joins {
  import opened Naming
  import opened Sequences
  import opened RingSpec
  import opened Routing
  import opened History
  import opened Disruption

  // ---------- where the new virtual nodes end up ----------

  /** The i-th new virtual node ends up behind the k-th old one: its hash is higher; or it ties with
      the head's, and nothing added before it has displaced the head. */
  predicate GoesBehind(s: seq<VNode>, k: nat, ls: seq<VNode>, i: nat)
    requires k < |s| && i < |ls|
  {
    || s[k].hash < ls[i].hash
    || (k == 0 && ls[i].hash == s[0].hash && forall j :: 0 <= j < i ==> s[0].hash <= ls[j].hash)
  }

  ghost function Behind(s: seq<VNode>, k: nat, ls: seq<VNode>): set<VNode>
    requires k < |s|
  {
    set i | 0 <= i < |ls| && GoesBehind(s, k, ls, i) :: ls[i]
  }

  lemma BehindSnoc(s: seq<VNode>, k: nat, front: seq<VNode>, v: VNode)
    requires k < |s|
    ensures Behind(s, k, front + [v])
            == Behind(s, k, front) + if GoesBehind(s, k, front + [v], |front|) then {v} else {}
  {
    var ls := front + [v];
    forall i | 0 <= i < |front| ensures GoesBehind(s, k, ls, i) <==> GoesBehind(s, k, front, i) {
      assert forall j :: 0 <= j <= i ==> ls[j] == front[j];
    }
    assert ls[|front|] == v;
    forall x | x in Behind(s, k, front) ensures x in Behind(s, k, ls) {
      var i :| 0 <= i < |front| && GoesBehind(s, k, front, i) && front[i] == x;
      assert ls[i] == x && GoesBehind(s, k, ls, i);
    }
  }

  /** The new list, cut at an old node. */
  ghost predicate SplitAt(s: seq<VNode>, k: nat, ls: seq<VNode>, news: set<VNode>, f: seq<VNode>, b: seq<VNode>)
    requires k < |s|
  {
    && InsertAll(s, ls) == f + [s[k]] + b
    && Without(f, news) == s[..k] && Without(b, news) == s[k + 1..]
    && (forall v :: v in news ==> (v in b <==> v in Behind(s, k, ls)))
    && (forall v :: v in f && v in news ==> v in ls)
  }

  lemma Position(t: seq<VNode>, f: seq<VNode>, o: VNode, b: seq<VNode>, v: VNode)
    requires Sorted(t) && t == f + [o] + b
    ensures InsertPosition(t, v.hash) > |f| <==> o.hash < v.hash || (f == [] && v.hash == o.hash)
  {
    assert t[|f|] == o;
  }

  lemma {:induction false} SplitFound(s: seq<VNode>, k: nat, ls: seq<VNode>, news: set<VNode>)
    returns (f: seq<VNode>, b: seq<VNode>)
    requires Sorted(s) && k < |s|
    requires (forall v :: v in ls ==> v in news) && (forall v :: v in s ==> v !in news)
    ensures SplitAt(s, k, ls, news, f, b)
    ensures f == [] <==> k == 0 && forall v :: v in ls ==> s[0].hash <= v.hash
  {
    if ls == [] {
      f, b := s[..k], s[k + 1..];
      WithoutNone(f, news);
      WithoutNone(b, news);
      assert s == f + [s[k]] + b;
    } else {
      var front, v := ls[..|ls| - 1], ls[|ls| - 1];
      assert ls == front + [v];
      f, b := SplitFound(s, k, front, news);
      var t := InsertAll(s, front);
      InsertAllSorted(s, front);
      Position(t, f, s[k], b, v);
      BehindSnoc(s, k, front, v);
      f, b := SplitStep(s, k, front, v, news, f, b);
    }
  }

  lemma SplitStep(s: seq<VNode>, k: nat, front: seq<VNode>, v: VNode, news: set<VNode>, f: seq<VNode>, b: seq<VNode>)
    returns (f': seq<VNode>, b': seq<VNode>)
    requires k < |s| && v in news && SplitAt(s, k, front, news, f, b)
    requires Sorted(InsertAll(s, front))
    requires f == [] <==> k == 0 && forall v :: v in front ==> s[0].hash <= v.hash
    ensures SplitAt(s, k, front + [v], news, f', b')
    ensures f' == [] <==> f == [] && s[0].hash <= v.hash
  {
    var t := InsertAll(s, front);
    var p := InsertPosition(t, v.hash);
    assert (front + [v])[..|front|] == front;
    assert InsertAll(s, front + [v]) == Splice(t, p, v);
    Position(t, f, s[k], b, v);
    BehindSnoc(s, k, front, v);
    if p <= |f| {
      b' := b;
      f' := InFront(t, f, s[k], b, p, v, news);
    } else {
      f' := f;
      b' := InBack(t, f, s[k], b, p, v, news);
    }
  }

  lemma InFront(t: seq<VNode>, f: seq<VNode>, o: VNode, b: seq<VNode>, p: nat, v: VNode, news: set<VNode>)
    returns (f': seq<VNode>)
    requires t == f + [o] + b && p <= |f| && v in news
    ensures Splice(t, p, v) == f' + [o] + b && f' != [] && Without(f', news) == Without(f, news)
    ensures forall x :: x in f' <==> x in f || x == v
  {
    f' := Splice(f, p, v);
    WithoutSplice(f, p, v, news);
    SpliceMembers(f, p, v);
  }

  lemma InBack(t: seq<VNode>, f: seq<VNode>, o: VNode, b: seq<VNode>, p: nat, v: VNode, news: set<VNode>)
    returns (b': seq<VNode>)
    requires t == f + [o] + b && |f| < p <= |t| && v in news
    ensures Splice(t, p, v) == f + [o] + b' && Without(b', news) == Without(b, news)
    ensures forall x :: x in b' <==> x in b || x == v
  {
    b' := Splice(b, p - |f| - 1, v);
    WithoutSplice(b, p - |f| - 1, v, news);
    SpliceMembers(b, p - |f| - 1, v);
  }

  // ---------- which keys a join disturbs ----------

  /** `ls` are new virtual nodes for the list `s`. */
  ghost predicate Joining(s: seq<VNode>, ls: seq<VNode>) {
    s != [] && Sorted(s) && Distinct(s) && Distinct(ls) && forall v :: v in ls ==> v !in s
  }

  lemma JoiningExtends(s: seq<VNode>, ls: seq<VNode>)
    requires Joining(s, ls)
    ensures Extends(s, InsertAll(s, ls), Elements(ls))
    ensures InsertAll(s, ls) != [] && forall v :: v in InsertAll(s, ls) <==> v in s || v in ls
  {
    InsertAllSorted(s, ls);
    InsertAllDistinct(s, ls);
    InsertAllMembers(s, ls);
    WithoutInsertAll(s, ls, Elements(ls));
    WithoutNone(s, Elements(ls));
  }

  /** The new virtual nodes strictly between the tail and the key. */
  ghost function Short(s: seq<VNode>, ls: seq<VNode>, h: nat): set<VNode>
    requires s != []
  {
    set v | v in ls && s[|s| - 1].hash < v.hash < h
  }

  /** The new virtual nodes at or beyond the key. */
  ghost function Beyond(ls: seq<VNode>, h: nat): set<VNode> {
    set v | v in ls && h <= v.hash
  }

  /** The key is above the tail's hash, the search answers one node early, and what the join puts behind
      the tail makes it answer with the tail: something at or beyond the key and nothing short of
      it, or exactly one node short of it and nothing beyond. */
  ghost predicate Disturbing(s: seq<VNode>, ls: seq<VNode>, h: nat)
    requires s != []
  {
    && |s| >= 2 && s[|s| - 1].hash < h
    && ((Beyond(ls, h) != {} && Short(s, ls, h) == {}) || (Beyond(ls, h) == {} && |Short(s, ls, h)| == 1))
  }

  lemma BoundIs(t: seq<VNode>, h: nat, k: nat)
    requires k <= |t| && (forall i :: 0 <= i < k ==> t[i].hash < h) && (k < |t| ==> h <= t[k].hash)
    ensures LowerBound(t, h) == k
  {
  }

  lemma BoundBehind(f: seq<VNode>, o: VNode, b: seq<VNode>, h: nat)
    requires Sorted(f + [o] + b) && o.hash < h
    ensures LowerBound(f + [o] + b, h) == |f| + 1 + LowerBound(b, h)
  {
    var t, k := f + [o] + b, |f| + 1 + LowerBound(b, h);
    assert t[|f|] == o;
    forall i | 0 <= i < k ensures t[i].hash < h {
      if i > |f| {
        assert t[i] == b[i - |f| - 1];
      } else {
        assert t[i].hash <= t[|f|].hash;
      }
    }
    BoundIs(t, h, k);
  }

  /** What the list looks like around the old tail. */
  ghost predicate AroundTail(s: seq<VNode>, ls: seq<VNode>, f: seq<VNode>, b: seq<VNode>)
    requires s != []
  {
    var n := |s| - 1;
    && InsertAll(s, ls) == f + [s[n]] + b && Sorted(f + [s[n]] + b) && Distinct(b)
    && (forall v :: v in b <==> v in Behind(s, n, ls))
    && Without(f, Elements(ls)) == s[..n]
  }

  lemma PartOfDistinct(f: seq<VNode>, o: VNode, b: seq<VNode>)
    requires Distinct(f + [o] + b)
    ensures Distinct(b)
  {
    var t := f + [o] + b;
    assert forall i :: 0 <= i < |b| ==> b[i] == t[|f| + 1 + i];
  }

  lemma NoneLeft(b: seq<VNode>, news: set<VNode>)
    requires Without(b, news) == []
    ensures forall v :: v in b ==> v in news
  {
    WithoutMembers(b, news);
  }

  lemma BehindAreNew(s: seq<VNode>, k: nat, ls: seq<VNode>)
    requires k < |s|
    ensures Behind(s, k, ls) <= Elements(ls)
  {
  }

  lemma TailFound(s: seq<VNode>, ls: seq<VNode>) returns (f: seq<VNode>, b: seq<VNode>)
    requires Joining(s, ls)
    ensures AroundTail(s, ls, f, b)
  {
    JoiningExtends(s, ls);
    f, b := SplitFound(s, |s| - 1, ls, Elements(ls));
    SplitIsAroundTail(s, ls, f, b);
  }

  lemma SplitIsAroundTail(s: seq<VNode>, ls: seq<VNode>, f: seq<VNode>, b: seq<VNode>)
    requires s != [] && SplitAt(s, |s| - 1, ls, Elements(ls), f, b)
    requires Sorted(InsertAll(s, ls)) && Distinct(InsertAll(s, ls))
    ensures AroundTail(s, ls, f, b)
  {
    PartOfDistinct(f, s[|s| - 1], b);
    NoneLeft(b, Elements(ls));
    BehindAreNew(s, |s| - 1, ls);
  }

  lemma LastOfFront(f: seq<VNode>, news: set<VNode>, front: seq<VNode>)
    requires Without(f, news) == front && front != []
    ensures f != [] && (f[|f| - 1] in news || f[|f| - 1] == front[|front| - 1])
  {
  }

  lemma BehindInner(s: seq<VNode>, k: nat, ls: seq<VNode>, v: VNode)
    requires 0 < k < |s|
    ensures v in Behind(s, k, ls) <==> v in ls && s[k].hash < v.hash
  {
    if v in ls && s[k].hash < v.hash {
      assert GoesBehind(s, k, ls, IndexOf(ls, v));
    }
  }

  lemma PartSorted(f: seq<VNode>, o: VNode, b: seq<VNode>)
    requires Sorted(f + [o] + b)
    ensures Sorted(b)
  {
    var t := f + [o] + b;
    assert forall i :: 0 <= i < |b| ==> b[i] == t[|f| + 1 + i];
  }

  /** In a sorted list all are below `h`, or none is. */
  lemma BoundAtEnds(b: seq<VNode>, h: nat)
    requires Sorted(b)
    ensures LowerBound(b, h) == |b| <==> forall v :: v in b ==> v.hash < h
    ensures LowerBound(b, h) == 0 <==> forall v :: v in b ==> h <= v.hash
  {
    var m := LowerBound(b, h);
    if m < |b| {
      assert b[m] in b;
    }
    if m > 0 {
      assert b[0] in b;
    }
  }

  lemma TailMembers(s: seq<VNode>, ls: seq<VNode>, f: seq<VNode>, b: seq<VNode>)
    requires |s| >= 2 && AroundTail(s, ls, f, b)
    ensures forall v :: v in b <==> v in ls && s[|s| - 1].hash < v.hash
  {
    forall v: VNode ensures v in b <==> (v in ls && s[|s| - 1].hash < v.hash) {
      BehindInner(s, |s| - 1, ls, v);
    }
  }

  lemma BeyondTail(s: seq<VNode>, ls: seq<VNode>, b: seq<VNode>, h: nat)
    requires s != [] && s[|s| - 1].hash < h && Sorted(b) && Distinct(b)
    requires forall v :: v in b <==> v in ls && s[|s| - 1].hash < v.hash
    ensures Beyond(ls, h) == {} <==> LowerBound(b, h) == |b|
    ensures Short(s, ls, h) == {} <==> LowerBound(b, h) == 0
    ensures Beyond(ls, h) == {} ==> |Short(s, ls, h)| == |b|
  {
    BoundAtEnds(b, h);
    var short, beyond := Short(s, ls, h), Beyond(ls, h);
    assert forall v :: v in short <==> v in b && v.hash < h;
    assert forall v :: v in beyond <==> v in b && h <= v.hash;
    if beyond == {} {
      DistinctSize(b);
      assert short == Elements(b);
    }
  }

  /** The coordinator moves to a node that did not join exactly under this condition. */
  lemma DisturbsIff(s: seq<VNode>, ls: seq<VNode>, h: nat)
    requires Joining(s, ls)
    ensures InsertAll(s, ls) != []
    ensures !StaysOrMovesToNew(s, InsertAll(s, ls), Elements(ls), h) <==> Disturbing(s, ls, h)
  {
    JoiningExtends(s, ls);
    if Undisturbed(s, h) {
      UndisturbedStays(s, InsertAll(s, ls), Elements(ls), h);
    } else {
      var f, b := TailFound(s, ls);
      PartSorted(f, s[|s| - 1], b);
      TailMembers(s, ls, f, b);
      BeyondTail(s, ls, b, h);
      CoordinatorAboveTail(s, ls, f, b, h);
    }
  }

  /** Above the old tail the key is coordinated by the tail itself, by a new node behind it, or,
      if there is none, by whatever stands in front of the tail. */
  lemma CoordinatorAboveTail(s: seq<VNode>, ls: seq<VNode>, f: seq<VNode>, b: seq<VNode>, h: nat)
    requires |s| >= 2 && s[|s| - 1].hash < h && Joining(s, ls) && AroundTail(s, ls, f, b)
    ensures Coordinator(s, h) == s[|s| - 2] && InsertAll(s, ls) != [] && f != []
    ensures var m, c' := LowerBound(b, h), Coordinator(InsertAll(s, ls), h);
            if b == [] then c' == f[|f| - 1] && (c' in Elements(ls) || c' == s[|s| - 2])
            else if m == 0 || (m == 1 && |b| == 1) then c' == s[|s| - 1] && c' !in Elements(ls) && c' != s[|s| - 2]
            else c' in b && c' in Elements(ls)
  {
    var n, m := |s| - 1, LowerBound(b, h);
    SearchFindsArc(s, h, n - 1);
    LastOfFront(f, Elements(ls), s[..n]);
    NewCoordinator(f, s[n], b, h);
    BehindAreNew(s, n, ls);
    assert s[n] in s && s[n] != s[n - 1];
  }

  /** The search above `o` on a list cut at `o`. */
  lemma NewCoordinator(f: seq<VNode>, o: VNode, b: seq<VNode>, h: nat)
    requires Sorted(f + [o] + b) && o.hash < h && f != []
    ensures var m, c := LowerBound(b, h), Coordinator(f + [o] + b, h);
            if b == [] then c == f[|f| - 1]
            else if m == 0 || (m == 1 && |b| == 1) then c == o
            else c == b[if m == |b| then m - 2 else m - 1]
  {
    BoundBehind(f, o, b, h);
  }

  // ---------- which moves go unannounced ----------

  /** The coordinator changes, and nobody right behind the old one takes keys from `h` or below on. */
  ghost predicate Unannounced(s: seq<VNode>, s': seq<VNode>, news: set<VNode>, h: nat)
    requires s != [] && s' != []
  {
    Coordinator(s', h) != Coordinator(s, h) && !Covered(s, s', news, h)
  }

  /** The tail coordinates the key because no old hash is below it; something joins behind the tail,
      and all of that beyond the key. */
  ghost predicate WrapMissed(s: seq<VNode>, ls: seq<VNode>, h: nat)
    requires s != []
  {
    && h <= s[0].hash && Behind(s, |s| - 1, ls) != {}
    && forall v :: v in Behind(s, |s| - 1, ls) ==> h < v.hash
  }

  /** The key is above the tail's hash; something joins behind the tail, but nothing between the tail
      and the node in front of it. */
  ghost predicate TailMissed(s: seq<VNode>, ls: seq<VNode>, h: nat)
    requires s != []
  {
    && |s| >= 2 && s[|s| - 1].hash < h && Behind(s, |s| - 1, ls) != {}
    && Behind(s, |s| - 2, ls) <= Behind(s, |s| - 1, ls)
  }

  lemma Follower(t: seq<VNode>, f: seq<VNode>, o: VNode, b: seq<VNode>, v: VNode)
    requires t == f + [o] + b && Distinct(t) && v in t
    ensures Predecessor(t, v) == o <==> v == if b == [] then t[0] else b[0]
  {
    var q := IndexOf(t, v);
    assert t[|f|] == o;
    assert b != [] ==> t[|f| + 1] == b[0];
    if v == if b == [] then t[0] else b[0] {
      IndexIs(t, if b == [] then 0 else |f| + 1);
    }
  }

  /** So a move is covered exactly if the node right behind the old coordinator is a new one that
      takes keys from `h` or below on. */
  lemma CoveredByFollower(s: seq<VNode>, s': seq<VNode>, news: set<VNode>, h: nat, f: seq<VNode>, o: VNode, b: seq<VNode>)
    requires s != [] && s' == f + [o] + b && Distinct(s') && Coordinator(s, h) == o
    ensures var v := if b == [] then s'[0] else b[0];
            Covered(s, s', news, h) <==> v in news && v.hash <= h
  {
    var v := if b == [] then s'[0] else b[0];
    assert b != [] ==> s'[|f| + 1] == b[0];
    assert v in s';
    Follower(s', f, o, b, v);
    if Covered(s, s', news, h) {
      var u :| u in news && u in s' && Predecessor(s', u) == o && u.hash <= h;
      Follower(s', f, o, b, u);
    }
  }

  lemma WrapMissedIff(s: seq<VNode>, ls: seq<VNode>, h: nat)
    requires Joining(s, ls) && h <= s[0].hash
    ensures InsertAll(s, ls) != []
    ensures Unannounced(s, InsertAll(s, ls), Elements(ls), h) <==> WrapMissed(s, ls, h)
  {
    var f, b := TailFound(s, ls);
    var t, o, news := InsertAll(s, ls), s[|s| - 1], Elements(ls);
    JoiningExtends(s, ls);
    SearchFindsArc(s, h, |s| - 1);
    CoveredByFollower(s, t, news, h, f, o, b);
    WrapCoordinator(t, f, o, b, h);
    if b == [] {
      WrapNothingBehind(s, ls, h, f);
    } else {
      PartSorted(f, o, b);
      FirstDecides(b, h);
      BehindAreNew(s, |s| - 1, ls);
      assert b[0] in b;
    }
  }

  lemma FirstDecides(b: seq<VNode>, h: nat)
    requires b != [] && Sorted(b)
    ensures h < b[0].hash <==> forall v :: v in b ==> h < v.hash
  {
    forall v | v in b ensures b[0].hash <= v.hash {
      assert v == b[IndexOf(b, v)];
    }
  }

  lemma WrapNothingBehind(s: seq<VNode>, ls: seq<VNode>, h: nat, f: seq<VNode>)
    requires Joining(s, ls) && h <= s[0].hash && AroundTail(s, ls, f, [])
    ensures InsertAll(s, ls) != []
    ensures Coordinator(InsertAll(s, ls), h) != s[|s| - 1] ==>
              InsertAll(s, ls)[0] in Elements(ls) && InsertAll(s, ls)[0].hash <= h
    ensures Behind(s, |s| - 1, ls) == {}
  {
    var t := InsertAll(s, ls);
    JoiningExtends(s, ls);
    WrapCoordinator(t, f, s[|s| - 1], [], h);
    assert t[0] in t;
    if t[0] in s {
      OldNotBelow(s, t[0], h);
    }
    var none: seq<VNode> := [];
    assert forall v :: v in Behind(s, |s| - 1, ls) ==> v in none;
  }

  lemma OldNotBelow(s: seq<VNode>, v: VNode, h: nat)
    requires s != [] && Sorted(s) && h <= s[0].hash && v in s
    ensures h <= v.hash
  {
    assert v == s[IndexOf(s, v)];
  }

  lemma WrapCoordinator(t: seq<VNode>, f: seq<VNode>, o: VNode, b: seq<VNode>, h: nat)
    requires t == f + [o] + b && Sorted(t) && Distinct(t) && h <= o.hash
    ensures b != [] ==> Coordinator(t, h) != o
    ensures b == [] && Coordinator(t, h) != o ==> t[0].hash < h
  {
    assert t[|f|] == o;
  }

  /** Above the tail: what stands between the old coordinator and the tail, and behind the tail. */
  ghost predicate AroundLastTwo(s: seq<VNode>, ls: seq<VNode>, f: seq<VNode>, g: seq<VNode>)
    requires |s| >= 2
  {
    && InsertAll(s, ls) == f + [s[|s| - 2]] + g && s[|s| - 1] in g
    && (forall v :: v in Elements(ls) ==> (v in g <==> v in Behind(s, |s| - 2, ls)))
    && (g[0] in Elements(ls) || g[0] == s[|s| - 1])
  }

  lemma LastTwoFound(s: seq<VNode>, ls: seq<VNode>) returns (f: seq<VNode>, g: seq<VNode>)
    requires Joining(s, ls) && |s| >= 2
    ensures AroundLastTwo(s, ls, f, g)
  {
    f, g := SplitFound(s, |s| - 2, ls, Elements(ls));
    assert s[|s| - 2 + 1..] == [s[|s| - 1]];
    OneLeft(g, Elements(ls), s[|s| - 1]);
  }

  lemma OneLeft(g: seq<VNode>, news: set<VNode>, x: VNode)
    requires Without(g, news) == [x]
    ensures x in g && (g[0] in news || g[0] == x)
  {
    WithoutMembers(g, news);
    assert x in Without(g, news);
    assert g[0] in g;
  }

  /** Two cuts of one list, at the old coordinator and at the tail. */
  lemma CutsMeet(t: seq<VNode>, f: seq<VNode>, o: VNode, g: seq<VNode>, f': seq<VNode>, o': VNode, b: seq<VNode>)
    requires t == f + [o] + g && t == f' + [o'] + b && Distinct(t) && o' in g
    ensures g[0] == o' ==> g[1..] == b && f' == f + [o]
    ensures g[0] != o' ==> g[0] !in b
  {
    var k := IndexOf(g, o');
    assert t[|f| + 1 + k] == g[k] && t[|f'|] == o';
    assert |f'| == |f| + 1 + k;
    if g[0] == o' {
      assert f + [o] == t[..|f'|] && f' == t[..|f'|];
      assert g[1..] == t[|f'| + 1..] && b == t[|f'| + 1..];
    } else {
      forall j | 0 <= j < |b| ensures b[j] != g[0] {
        assert t[|f'| + 1 + j] == b[j] && t[|f| + 1] == g[0];
      }
    }
  }

  lemma FrontNotAbove(t: seq<VNode>, f: seq<VNode>, o: VNode, g: seq<VNode>, v: VNode)
    requires t == f + [o] + g && Sorted(t) && v in g
    ensures g[0].hash <= v.hash
  {
    assert t[|f| + 1] == g[0] && t[|f| + 1 + IndexOf(g, v)] == v;
  }

  lemma NothingBetween(s: seq<VNode>, ls: seq<VNode>, g: seq<VNode>, b: seq<VNode>)
    requires Joining(s, ls) && |s| >= 2 && g != [] && g[0] == s[|s| - 1] && g[1..] == b
    requires forall v :: v in Elements(ls) ==> (v in g <==> v in Behind(s, |s| - 2, ls))
    requires forall v :: v in b <==> v in Behind(s, |s| - 1, ls)
    ensures Behind(s, |s| - 2, ls) <= Behind(s, |s| - 1, ls)
  {
    BehindAreNew(s, |s| - 2, ls);
    assert s[|s| - 1] in s;
    var two := Behind(s, |s| - 2, ls);
    forall v | v in two ensures v in b {
      assert v in Elements(ls) && v in g && v != g[0];
      assert v == g[1..][IndexOf(g, v) - 1];
    }
    assert forall v :: v in two ==> v in b;
  }

  lemma TailMissedIff(s: seq<VNode>, ls: seq<VNode>, h: nat)
    requires Joining(s, ls) && |s| >= 2 && s[|s| - 1].hash < h
    ensures InsertAll(s, ls) != []
    ensures Unannounced(s, InsertAll(s, ls), Elements(ls), h) <==> TailMissed(s, ls, h)
  {
    var f, b := TailFound(s, ls);
    var f2, g := LastTwoFound(s, ls);
    var t, o, tail, news := InsertAll(s, ls), s[|s| - 2], s[|s| - 1], Elements(ls);
    JoiningExtends(s, ls);
    CoordinatorAboveTail(s, ls, f, b, h);
    CoveredByFollower(s, t, news, h, f2, o, g);
    CutsMeet(t, f2, o, g, f, tail, b);
    FrontNotAbove(t, f2, o, g, tail);
    SomeBehind(s, ls, f, b);
    assert o in s && tail in s;
    if g[0] == tail {
      NothingBetween(s, ls, g, b);
    }
  }

  lemma SomeBehind(s: seq<VNode>, ls: seq<VNode>, f: seq<VNode>, b: seq<VNode>)
    requires s != [] && AroundTail(s, ls, f, b)
    ensures b == [] <==> Behind(s, |s| - 1, ls) == {}
  {
    if b != [] {
      assert b[0] in b;
    }
  }

  lemma UnannouncedIff(s: seq<VNode>, ls: seq<VNode>, h: nat)
    requires Joining(s, ls)
    ensures InsertAll(s, ls) != []
    ensures Unannounced(s, InsertAll(s, ls), Elements(ls), h) <==> WrapMissed(s, ls, h) || TailMissed(s, ls, h)
  {
    JoiningExtends(s, ls);
    assert s[0].hash <= s[|s| - 1].hash;
    if h <= s[0].hash {
      WrapMissedIff(s, ls, h);
    } else if Undisturbed(s, h) {
      if Coordinator(InsertAll(s, ls), h) != Coordinator(s, h) {
        AnnouncedIsCovered(s, InsertAll(s, ls), Elements(ls), h);
      }
    } else {
      TailMissedIff(s, ls, h);
    }
  }

  // ---------- the same about AddNode ----------

  lemma FreshJoining(cfg: Config, r: RingState, name: string, id: UInt64)
    requires WellFormed(cfg, r) && r.vs != [] && name !in r.nodeMap
    ensures Joining(r.vs, VNodesOf(cfg, name, id))
  {
    FreshVNodes(cfg, r, name, id);
    VNodesOfOwner(cfg, name, id);
  }

  /** A join of a fresh name takes a key to a virtual node that is neither its old coordinator nor one
      of the newcomer's exactly if the key is above the tail's hash and the newcomer's hashes fall
      so that the tail now answers. */
  lemma JoinDisturbsIff(cfg: Config, r: RingState, name: string, id: UInt64, key: string)
    requires WellFormed(cfg, r) && r.vs != [] && name !in r.nodeMap
    ensures var s, s', ls, h := r.vs, AddNode(cfg, r, name, id).vs, VNodesOf(cfg, name, id), cfg.hash(key);
            && s' != []
            && (Coordinator(s', h) != Coordinator(s, h) && Coordinator(s', h) !in ls <==>
                && |s| >= 2 && s[|s| - 1].hash < h
                && ((Beyond(ls, h) != {} && Short(s, ls, h) == {})
                    || (Beyond(ls, h) == {} && |Short(s, ls, h)| == 1)))
  {
    FreshJoining(cfg, r, name, id);
    DisturbsIff(r.vs, VNodesOf(cfg, name, id), cfg.hash(key));
  }

  /** No returned notice tells the key's old coordinator to hand the key over. */
  ghost predicate NoNoticeFor(notices: seq<Notice>, c: VNode, h: nat) {
    forall n :: n in notices ==> n.target != c || h < n.newNode.hash
  }

  /** A join of a fresh name and id changes a key's coordinator without a notice that applies to the
      key exactly if the key is at most the head's hash and all that joins behind the tail is beyond
      the key, or the key is above the tail's hash and the newcomer has nodes behind the tail and
      none between the tail and the node in front of it. */
  lemma JoinUnannouncedIff(cfg: Config, r: RingState, name: string, id: UInt64, key: string)
    requires WellFormed(cfg, r) && r.vs != [] && name !in r.nodeMap && id !in Ids(r.vs)
    ensures var s, s', ls, h := r.vs, AddNode(cfg, r, name, id).vs, VNodesOf(cfg, name, id), cfg.hash(key);
            && s' != [] && (forall v :: v in ls ==> v in s')
            && (Coordinator(s', h) != Coordinator(s, h) && NoNoticeFor(Notices(s', ls), Coordinator(s, h), h)
                <==> WrapMissed(s, ls, h) || TailMissed(s, ls, h))
  {
    var s, s', ls, h := r.vs, AddNode(cfg, r, name, id).vs, VNodesOf(cfg, name, id), cfg.hash(key);
    FreshJoining(cfg, r, name, id);
    JoiningExtends(s, ls);
    VNodesOfOwner(cfg, name, id);
    UnannouncedIff(s, ls, h);
    NoticedIffCovered(s, s', ls, id, h);
  }

  lemma NoticedIffCovered(s: seq<VNode>, s': seq<VNode>, ls: seq<VNode>, id: UInt64, h: nat)
    requires s != [] && id !in Ids(s) && forall v :: v in ls ==> v in s' && v.id == id
    ensures NoNoticeFor(Notices(s', ls), Coordinator(s, h), h) <==> !Covered(s, s', Elements(ls), h)
  {
    if Covered(s, s', Elements(ls), h) {
      CoveredIsNoticed(s, s', ls, Elements(ls), id, h);
    }
    forall n | n in Notices(s', ls) && n.target == Coordinator(s, h) && n.newNode.hash <= h
      ensures Covered(s, s', Elements(ls), h)
    {
      NoticeListedIff(s', ls, n);
    }
  }

  /** With one virtual node per name: whatever newcomer's hash is at or beyond a key above the tail's
      moves the key to the old tail, which did not join, and no notice says so. */
  lemma SingleNodeDisturbs(cfg: Config, r: RingState, name: string, id: UInt64, key: string)
    requires WellFormed(cfg, r) && |r.vs| >= 2 && name !in r.nodeMap && id !in Ids(r.vs)
    requires cfg.numVirtualNodes == 1
    requires r.vs[|r.vs| - 1].hash < cfg.hash(key) <= cfg.hash(VirtualName(name, 0))
    ensures var s, s', ls, h := r.vs, AddNode(cfg, r, name, id).vs, VNodesOf(cfg, name, id), cfg.hash(key);
            && s' != [] && (forall v :: v in ls ==> v in s')
            && Coordinator(s', h) != Coordinator(s, h) && Coordinator(s', h) !in ls
            && NoNoticeFor(Notices(s', ls), Coordinator(s, h), h)
  {
    var v := MakeVNode(cfg, name, 0, id);
    assert VNodesOf(cfg, name, id) == [v];
    OneBeyondTail(r.vs, v, cfg.hash(key));
    JoinDisturbsIff(cfg, r, name, id, key);
    JoinUnannouncedIff(cfg, r, name, id, key);
  }

  lemma OneBeyondTail(s: seq<VNode>, v: VNode, h: nat)
    requires |s| >= 2 && s[|s| - 1].hash < h <= v.hash && Sorted(s)
    ensures Disturbing(s, [v], h) && TailMissed(s, [v], h)
  {
    var n := |s| - 1;
    assert v in Beyond([v], h);
    assert GoesBehind(s, n, [v], 0);
    assert [v][0] in Behind(s, n, [v]);
    BehindAreNew(s, n - 1, [v]);
  }
}
