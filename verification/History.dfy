/** Laws over whole histories of the ring: the invariant survives every run of fresh-name
    additions and removals, and the list depends on the membership alone. */
module History {
  import opened Naming
  import opened Sequences
  import opened RingSpec
  import opened Routing

  datatype RingOp =
    | Add(name: string, id: UInt64)
    | Remove(name: string)

  function Apply(cfg: Config, r: RingState, op: RingOp): RingState {
    match op
    case Add(name, id) => AddNode(cfg, r, name, id)
    case Remove(name) => RemoveNode(r, name)
  }

  function Run(cfg: Config, ops: seq<RingOp>): RingState {
    if ops == [] then EMPTY_RING else Apply(cfg, Run(cfg, ops[..|ops| - 1]), ops[|ops| - 1])
  }

  /** Every addition uses a name that is not registered at that moment. */
  ghost predicate FreshNames(cfg: Config, ops: seq<RingOp>) {
    ops == []
    || (FreshNames(cfg, ops[..|ops| - 1])
        && (ops[|ops| - 1].Add? ==> ops[|ops| - 1].name !in Run(cfg, ops[..|ops| - 1]).nodeMap))
  }

  lemma {:induction false} RunWellFormed(cfg: Config, ops: seq<RingOp>)
    requires FreshNames(cfg, ops)
    ensures WellFormed(cfg, Run(cfg, ops))
  {
    if ops == [] {
      EmptyWellFormed(cfg);
    } else {
      var front, last := ops[..|ops| - 1], ops[|ops| - 1];
      RunWellFormed(cfg, front);
      match last
      case Add(name, id) => AddNodeWellFormed(cfg, Run(cfg, front), name, id);
      case Remove(name) => RemoveNodeWellFormed(cfg, Run(cfg, front), name);
    }
  }

  /** Freshness is exactly what the invariant needs: adding a registered name again leaves the
      old virtual nodes on the list, twice or without an owner. */
  lemma AddKeepsWellFormedIffFresh(cfg: Config, r: RingState, name: string, id: UInt64)
    requires WellFormed(cfg, r) && cfg.numVirtualNodes > 0
    ensures WellFormed(cfg, AddNode(cfg, r, name, id)) <==> name !in r.nodeMap
  {
    if name !in r.nodeMap {
      AddNodeWellFormed(cfg, r, name, id);
    } else {
      var ls, ls0 := VNodesOf(cfg, name, id), VNodesOf(cfg, name, r.nodeMap[name].id);
      var r' := AddNode(cfg, r, name, id);
      InsertAllMembers(r.vs, ls);
      VNodesOfOwner(cfg, name, id);
      VNodesOfOwner(cfg, name, r.nodeMap[name].id);
      assert ls0[0] in ls0 && Owned(cfg, r.nodeMap, ls0[0]) && ls0[0] in r.vs;
      if WellFormed(cfg, r') {
        assert Owned(cfg, r'.nodeMap, ls0[0]);
        assert ls0[0].id == id;
        forall v | v in ls ensures v in r.vs {
          assert Owned(cfg, r.nodeMap, v);
        }
        assert Elements(r'.vs) == Elements(r.vs);
        DistinctSize(r'.vs);
        DistinctSize(r.vs);
      }
    }
  }

  // ---------- canonical form ----------

  /** No two different virtual names on the list collide. */
  ghost predicate HashesApart(vs: seq<VNode>) {
    forall v, w :: v in vs && w in vs && v.hash == w.hash ==> v.vname == w.vname
  }

  ghost predicate OneNodePerHash(s: seq<VNode>) {
    forall i, j :: 0 <= i < j < |s| ==> s[i].hash != s[j].hash
  }

  lemma SameLast(a: seq<VNode>, b: seq<VNode>)
    requires Sorted(a) && Sorted(b) && a != [] && b != []
    requires forall v :: v in a <==> v in b
    requires OneNodePerHash(a)
    ensures a[|a| - 1] == b[|b| - 1]
  {
    var x, y := a[|a| - 1], b[|b| - 1];
    assert x in b && y in a;
    assert x.hash == b[IndexOf(b, x)].hash <= y.hash;
    assert y.hash == a[IndexOf(a, y)].hash <= x.hash;
  }

  lemma SameFronts(a: seq<VNode>, b: seq<VNode>, x: VNode)
    requires x !in a && x !in b
    requires forall v :: v in a + [x] <==> v in b + [x]
    ensures forall v :: v in a <==> v in b
  {
    forall v ensures v in a <==> v in b {
      assert v in a + [x] <==> v in a || v == x;
      assert v in b + [x] <==> v in b || v == x;
    }
  }

  lemma SameSize(a: seq<VNode>, b: seq<VNode>)
    requires Distinct(a) && Distinct(b)
    requires forall v :: v in a <==> v in b
    ensures |a| == |b|
  {
    DistinctSize(a);
    DistinctSize(b);
    assert Elements(a) == Elements(b);
  }

  lemma {:induction false} SortedUnique(a: seq<VNode>, b: seq<VNode>)
    requires Sorted(a) && Sorted(b) && Distinct(a) && Distinct(b)
    requires forall v :: v in a <==> v in b
    requires OneNodePerHash(a)
    ensures a == b
  {
    SameSize(a, b);
    if a != [] {
      var a', x := a[..|a| - 1], a[|a| - 1];
      var b' := b[..|b| - 1];
      SameLast(a, b);
      assert a == a' + [x] && b == b' + [x];
      SameFronts(a', b', x);
      SortedUnique(a', b');
    }
  }

  /** A virtual node without the id, which differs from ring to ring. */
  function Strip(v: VNode): VNode {
    VNode(v.vname, 0, v.hash)
  }

  function StripAll(vs: seq<VNode>): (r: seq<VNode>)
    ensures |r| == |vs|
  {
    seq(|vs|, i requires 0 <= i < |vs| => Strip(vs[i]))
  }

  /** On a well-formed ring a virtual name determines the virtual node. */
  lemma NameDetermines(cfg: Config, r: RingState, v: VNode, w: VNode)
    requires WellFormed(cfg, r) && v in r.vs && w in r.vs && v.vname == w.vname
    ensures v == w
  {
  }

  lemma StripFacts(cfg: Config, r: RingState)
    requires WellFormed(cfg, r)
    ensures Sorted(StripAll(r.vs)) && Distinct(StripAll(r.vs))
    ensures forall x :: x in StripAll(r.vs) <==>
              exists name :: name in r.nodeMap && x in StripAll(VNodesOf(cfg, name, 0))
  {
    var ss := StripAll(r.vs);
    forall i, j | 0 <= i < j < |ss| ensures ss[i] != ss[j] {
      if ss[i] == ss[j] {
        NameDetermines(cfg, r, r.vs[i], r.vs[j]);
      }
    }
    forall x ensures x in ss <==> exists name :: name in r.nodeMap && x in StripAll(VNodesOf(cfg, name, 0)) {
      StripMember(cfg, r, x);
    }
  }

  lemma StripMember(cfg: Config, r: RingState, x: VNode)
    requires WellFormed(cfg, r)
    ensures x in StripAll(r.vs) <==>
              exists name :: name in r.nodeMap && x in StripAll(VNodesOf(cfg, name, 0))
  {
    if x in StripAll(r.vs) {
      var k := IndexOf(StripAll(r.vs), x);
      var v := r.vs[k];
      assert Owned(cfg, r.nodeMap, v);
      var name := OwnerName(v.vname);
      var i := IndexOf(VNodesOf(cfg, name, r.nodeMap[name].id), v);
      assert StripAll(VNodesOf(cfg, name, 0))[i] == x;
    }
    if name :| name in r.nodeMap && x in StripAll(VNodesOf(cfg, name, 0)) {
      var i := IndexOf(StripAll(VNodesOf(cfg, name, 0)), x);
      var ls := VNodesOf(cfg, name, r.nodeMap[name].id);
      VNodesOfOwner(cfg, name, r.nodeMap[name].id);
      assert ls[i] in ls && Owned(cfg, r.nodeMap, ls[i]);
      var k := IndexOf(r.vs, ls[i]);
      assert StripAll(r.vs)[k] == x;
    }
  }

  /** Two well-formed rings over the same names list the same virtual names with the same
      hashes in the same order, whatever ids they give and however they came about. */
  lemma SameNamesSameOrder(cfg: Config, r: RingState, r': RingState)
    requires WellFormed(cfg, r) && WellFormed(cfg, r')
    requires r.nodeMap.Keys == r'.nodeMap.Keys && HashesApart(r.vs)
    ensures |r.vs| == |r'.vs|
    ensures forall i :: 0 <= i < |r.vs| ==> r.vs[i].vname == r'.vs[i].vname && r.vs[i].hash == r'.vs[i].hash
  {
    var a, b := StripAll(r.vs), StripAll(r'.vs);
    StripFacts(cfg, r);
    StripFacts(cfg, r');
    forall i, j | 0 <= i < j < |a| ensures a[i].hash != a[j].hash {
      assert r.vs[i] in r.vs && r.vs[j] in r.vs && a[i] != a[j];
    }
    assert forall x :: x in a <==> x in b;
    SortedUnique(a, b);
    forall i | 0 <= i < |r.vs|
      ensures r.vs[i].vname == r'.vs[i].vname && r.vs[i].hash == r'.vs[i].hash
    {
      assert a[i] == b[i];
    }
  }

  lemma SameMembersSameRing(cfg: Config, r: RingState, r': RingState)
    requires WellFormed(cfg, r) && WellFormed(cfg, r')
    requires IdsByName(r.nodeMap) == IdsByName(r'.nodeMap) && HashesApart(r.vs)
    ensures r == r'
  {
    assert r.nodeMap.Keys == IdsByName(r.nodeMap).Keys;
    assert r'.nodeMap.Keys == IdsByName(r'.nodeMap).Keys;
    SameNamesSameOrder(cfg, r, r');
    forall name | name in r.nodeMap ensures r.nodeMap[name] == r'.nodeMap[name] {
      assert IdsByName(r.nodeMap)[name] == IdsByName(r'.nodeMap)[name];
    }
    forall i | 0 <= i < |r.vs| ensures r.vs[i] == r'.vs[i] {
      assert r.vs[i] in r.vs && r'.vs[i] in r'.vs;
      assert Owned(cfg, r.nodeMap, r.vs[i]) && Owned(cfg, r'.nodeMap, r'.vs[i]);
      var name := OwnerName(r.vs[i].vname);
      VNodesOfOwner(cfg, name, r.nodeMap[name].id);
    }
  }

  /** Canonical form: two histories that end in the same membership end in the same ring, so
      long as the final members' virtual names do not collide. What collided on the way and
      has left again does not matter. */
  lemma CanonicalForm(cfg: Config, h: seq<RingOp>, h': seq<RingOp>)
    requires FreshNames(cfg, h) && FreshNames(cfg, h')
    requires IdsByName(Run(cfg, h).nodeMap) == IdsByName(Run(cfg, h').nodeMap)
    requires HashesApart(Run(cfg, h).vs)
    ensures Run(cfg, h) == Run(cfg, h')
  {
    RunWellFormed(cfg, h);
    RunWellFormed(cfg, h');
    SameMembersSameRing(cfg, Run(cfg, h), Run(cfg, h'));
  }

  /** With a collision the order of arrival shows: when every name hashes alike, the two orders of
      adding any two nodes leave different lists for the same membership. */
  lemma CollisionRemembersHistory(cfg: Config, m: string, i: UInt64, n: string, j: UInt64)
    requires cfg.numVirtualNodes == 1 && forall s :: cfg.hash(s) == 0
    requires m != n && i != j
    ensures IdsByName(Run(cfg, [Add(m, i), Add(n, j)]).nodeMap) == IdsByName(Run(cfg, [Add(n, j), Add(m, i)]).nodeMap)
    ensures Run(cfg, [Add(m, i), Add(n, j)]).vs != Run(cfg, [Add(n, j), Add(m, i)]).vs
  {
    var ids: map<string, UInt64> := map[m := i][n := j];
    assert ids == map[n := j][m := i];
    RunOfTwo(cfg, m, i, n, j);
    RunOfTwo(cfg, n, j, m, i);
  }

  lemma RunOfTwo(cfg: Config, m: string, i: UInt64, n: string, j: UInt64)
    requires cfg.numVirtualNodes == 1 && forall s :: cfg.hash(s) == 0
    ensures |Run(cfg, [Add(m, i), Add(n, j)]).vs| == 2
    ensures Run(cfg, [Add(m, i), Add(n, j)]).vs[0].id == i && Run(cfg, [Add(m, i), Add(n, j)]).vs[1].id == j
    ensures IdsByName(Run(cfg, [Add(m, i), Add(n, j)]).nodeMap) == map[m := i][n := j]
  {
    var one, two := [Add(m, i)], [Add(m, i), Add(n, j)];
    assert one[..|one| - 1] == [] && two[..|two| - 1] == one;
    assert Run(cfg, []) == EMPTY_RING;
    assert Run(cfg, two) == AddNode(cfg, AddNode(cfg, EMPTY_RING, m, i), n, j);
    TwoAdded(cfg, m, i, n, j);
  }

  lemma TwoAdded(cfg: Config, m: string, i: UInt64, n: string, j: UInt64)
    requires cfg.numVirtualNodes == 1 && forall s :: cfg.hash(s) == 0
    ensures var vs := AddNode(cfg, AddNode(cfg, EMPTY_RING, m, i), n, j).vs;
            |vs| == 2 && vs[0].id == i && vs[1].id == j
  {
    var v, w := MakeVNode(cfg, m, 0, i), MakeVNode(cfg, n, 0, j);
    assert VNodesOf(cfg, m, i) == [v] && VNodesOf(cfg, n, j) == [w];
    InsertAllOne([], v);
    InsertAllOne([v], w);
    var r := AddNode(cfg, EMPTY_RING, m, i);
    assert r.vs == [v];
    assert AddNode(cfg, r, n, j).vs == Insert([v], w);
    assert Insert([v], w) == [v, w];
  }

  lemma InsertAllOne(s: seq<VNode>, v: VNode)
    ensures InsertAll(s, [v]) == Insert(s, v)
  {
  }

  // ---------- coordinator search, exactly ----------

  /** The arc of hashes the k-th virtual node coordinates, as the code cuts the circle. */
  predicate InArc(s: seq<VNode>, k: nat, h: nat)
    requires k < |s|
  {
    || |s| == 1
    || (k == |s| - 1 && h <= s[0].hash)
    || (k < |s| - 1 && s[k].hash < h <= s[k + 1].hash)
    || (k == |s| - 2 && s[|s| - 1].hash < h)
  }

  /** The arcs partition all hashes and the search finds the arc a hash lies in. */
  lemma SearchFindsArc(s: seq<VNode>, h: nat, k: nat)
    requires Sorted(s) && k < |s|
    ensures SearchIndex(s, h) == k <==> InArc(s, k, h)
  {
  }

  /** Where the test suite expects a key: one step back from the insertion point of the hash
      in the sorted list, the tail at either end. */
  function ExpectedIndex(s: seq<VNode>, h: nat): (k: nat)
    requires s != []
    ensures k < |s|
  {
    var j := LowerBound(s, h);
    if j == |s| || j == 0 then |s| - 1 else j - 1
  }

  /** The search meets that expectation exactly up to the tail's hash; beyond it a list of two
      or more is answered one node early. */
  lemma SearchMeetsExpectationIff(s: seq<VNode>, h: nat)
    requires Sorted(s) && s != []
    ensures SearchIndex(s, h) == ExpectedIndex(s, h) <==> |s| == 1 || h <= s[|s| - 1].hash
  {
  }
}
