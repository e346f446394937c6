/** Laws of the pointer ring, carried over from the value level: what whole runs of the methods
    keep, what one call undoes, and what the returned notices say. */
module HeapLaws {
  import opened Naming
  import opened Sequences
  import opened RingSpec
  import opened History
  import opened RingHeap
  import Disruption

  /** On a well-formed ring no two virtual nodes carry the same virtual name. */
  lemma NamesUnique(cfg: Config, r: RingState, spine: seq<VirtualNode>, p: nat)
    requires WellFormed(cfg, r) && r.vs == Values(spine) && p < |spine|
    ensures forall m :: 0 <= m < |spine| && m != p ==> spine[m].VirtualName != spine[p].VirtualName
  {
    forall m | 0 <= m < |spine| && m != p ensures spine[m].VirtualName != spine[p].VirtualName {
      var v, w := r.vs[m], r.vs[p];
      assert v in r.vs && w in r.vs;
      if v.vname == w.vname {
        assert Owned(cfg, r.nodeMap, v) && Owned(cfg, r.nodeMap, w);
        var name := OwnerName(v.vname);
        VNodesOfOwner(cfg, name, r.nodeMap[name].id);
        var i, j := IndexOf(VNodesOf(cfg, name, r.nodeMap[name].id), v), IndexOf(VNodesOf(cfg, name, r.nodeMap[name].id), w);
        VirtualNameInjective(name, i, name, j);
      }
    }
  }

  /** The name cut out of the target's virtual name is the one AddNode was called with. */
  lemma OwnerOnRing(cfg: Config, nodeMap: map<string, HeapInfo>, spine: seq<VirtualNode>, p: nat)
    requires InfoValid(nodeMap, spine) && WellFormed(cfg, AbsOf(spine, nodeMap)) && p < |spine|
    ensures LastUnderscore(spine[p].VirtualName) >= 0
    ensures OwnerName(spine[p].VirtualName) in nodeMap
    ensures spine[p] in nodeMap[OwnerName(spine[p].VirtualName)].VirtualNodes
  {
    var r := AbsOf(spine, nodeMap);
    var v := r.vs[p];
    assert v in r.vs && Owned(cfg, r.nodeMap, v);
    var name := OwnerName(v.vname);
    var ls := nodeMap[name].VirtualNodes;
    assert Values(ls) == VNodesOf(cfg, name, r.nodeMap[name].id);
    ValueMembership(spine, ls, spine[p]);
  }

  /** The name map's entries divide the list among them: every node on the list stands in the
      entry of exactly one name. */
  ghost predicate Partitioned(nodeMap: map<string, HeapInfo>, spine: seq<VirtualNode>) {
    && (forall v :: v in spine ==> exists name :: name in nodeMap && v in nodeMap[name].VirtualNodes)
    && (forall m, n, v :: m in nodeMap && n in nodeMap && v in nodeMap[m].VirtualNodes && v in nodeMap[n].VirtualNodes ==> m == n)
    && (forall name, v :: name in nodeMap && v in nodeMap[name].VirtualNodes ==> v in spine)
  }

  lemma WellFormedPartitions(cfg: Config, nodeMap: map<string, HeapInfo>, spine: seq<VirtualNode>)
    requires InfoValid(nodeMap, spine) && WellFormed(cfg, AbsOf(spine, nodeMap))
    ensures Partitioned(nodeMap, spine)
  {
    forall v | v in spine ensures exists name :: name in nodeMap && v in nodeMap[name].VirtualNodes {
      OwnerOnRing(cfg, nodeMap, spine, IndexOf(spine, v));
    }
    forall name, v | name in nodeMap && v in nodeMap[name].VirtualNodes ensures v in spine {
      assert v in Elements(nodeMap[name].VirtualNodes);
    }
    forall m, n, v | m in nodeMap && n in nodeMap && v in nodeMap[m].VirtualNodes && v in nodeMap[n].VirtualNodes
      ensures m == n
    {
      assert v in Elements(nodeMap[m].VirtualNodes) && v in Elements(nodeMap[n].VirtualNodes);
    }
  }

  method ApplyOp(ring: Ring, op: RingOp)
    requires ring.Valid() && WellFormed(ring.cfg, ring.Abs())
    modifies ring, ring.Nodes, ring.Nodes.Spine
    ensures ring.Valid() && ring.Abs() == Apply(ring.cfg, old(ring.Abs()), op)
    ensures forall v :: v in ring.Nodes.Spine ==> v in old(ring.Nodes.Spine) || fresh(v)
  {
    match op
    case Add(name, id) =>
      var _, ls := ring.AddNode(name, id);
      GrownMembers(old(ring.Nodes.Spine), ls, ring.Nodes.Spine);
    case Remove(name) =>
      if name in ring.NodeMap {
        WithoutMembers(ring.Nodes.Spine, Elements(ring.NodeMap[name].VirtualNodes));
      }
      ring.RemoveNode(name);
  }

  /** Every run of fresh-name additions and of removals, made by the methods on the heap, keeps the
      list linked both ways and sorted, counts it right, divides it among the names, and ends in
      the ring that the history determines. */
  method Replay(cfg: Config, ops: seq<RingOp>) returns (ring: Ring)
    requires FreshNames(cfg, ops)
    ensures fresh(ring) && ring.cfg == cfg && ring.Valid()
    ensures ring.Abs() == Run(cfg, ops) && WellFormed(cfg, ring.Abs())
    ensures Partitioned(ring.NodeMap, ring.Nodes.Spine)
    ensures ring.Nodes.Length == |Run(cfg, ops).vs|
  {
    ring := new Ring(cfg);
    EmptyWellFormed(cfg);
    for i := 0 to |ops|
      invariant fresh(ring) && fresh(ring.Nodes) && ring.cfg == cfg && ring.Valid()
      invariant ring.Abs() == Run(cfg, ops[..i]) && WellFormed(cfg, ring.Abs())
      invariant forall v :: v in ring.Nodes.Spine ==> fresh(v)
    {
      assert ops[..i + 1][..i] == ops[..i];
      FreshPrefix(cfg, ops, i + 1);
      RunWellFormed(cfg, ops[..i + 1]);
      assert forall m :: 0 <= m < |ring.Nodes.Spine| ==> ring.Nodes.Spine[m] in ring.Nodes.Spine;
      ApplyOp(ring, ops[i]);
    }
    assert ops[..|ops|] == ops;
    WellFormedPartitions(cfg, ring.NodeMap, ring.Nodes.Spine);
  }

  lemma {:induction false} FreshPrefix(cfg: Config, ops: seq<RingOp>, n: nat)
    requires n <= |ops| && FreshNames(cfg, ops)
    ensures FreshNames(cfg, ops[..n])
  {
    if n == |ops| {
      assert ops[..n] == ops;
    } else {
      assert ops[..|ops| - 1][..n] == ops[..n];
      FreshPrefix(cfg, ops[..|ops| - 1], n);
    }
  }

  lemma MapRestored(m: map<string, HeapInfo>, name: string, info: HeapInfo)
    requires name !in m
    ensures m[name := info] - {name} == m
  {
  }

  /** AddNode's effect on the list and the map alone. */
  method AddFreshNodes(ring: Ring, name: string, id: UInt64) returns (ghost ls: seq<VirtualNode>)
    requires ring.Valid()
    modifies ring, ring.Nodes, ring.Nodes.Spine
    ensures ring.Valid() && Grown(old(ring.Nodes.Spine), ls, ring.Nodes.Spine)
    ensures ring.NodeMap == old(ring.NodeMap)[name := HeapInfo(id, ls)]
    ensures forall v :: v in ring.Nodes.Spine ==> v in old(ring.Nodes.Spine) || fresh(v)
  {
    var _, added := ring.AddNode(name, id);
    ls := added;
    GrownMembers(old(ring.Nodes.Spine), ls, ring.Nodes.Spine);
  }

  /** On the heap, too, removing a freshly added name restores the very same list of nodes, the
      length and the name map, on any ring, sorted or not, whatever the hash ties. */
  method AddThenRemove(ring: Ring, name: string, id: UInt64)
    requires ring.Valid() && name !in ring.NodeMap
    modifies ring, ring.Nodes, ring.Nodes.Spine
    ensures ring.Valid()
    ensures ring.Nodes.Spine == old(ring.Nodes.Spine) && ring.Nodes.Length == old(ring.Nodes.Length)
    ensures ring.Nodes.Head == old(ring.Nodes.Head) && ring.NodeMap == old(ring.NodeMap)
  {
    ghost var ls := AddFreshNodes(ring, name, id);
    assert forall m :: 0 <= m < |ring.Nodes.Spine| ==> ring.Nodes.Spine[m] in ring.Nodes.Spine;
    MapRestored(old(ring.NodeMap), name, HeapInfo(id, ls));
    ring.RemoveNode(name);
  }

  // ---------- notices ----------

  function NoticeValues(ns: seq<ReallocationNotice>): seq<Disruption.Notice> {
    seq(|ns|, i requires 0 <= i < |ns| => Disruption.Notice(ValueOf(ns[i].TargetNode), ValueOf(ns[i].NewNode)))
  }

  lemma PredecessorValue(spine: seq<VirtualNode>, v: VirtualNode)
    requires Distinct(Values(spine)) && v in spine
    ensures ValueOf(v) in Values(spine)
    ensures ValueOf(Predecessor(spine, v)) == Predecessor(Values(spine), ValueOf(v))
  {
  }

  lemma ValuesListed(spine: seq<VirtualNode>, ls: seq<VirtualNode>)
    requires Elements(ls) <= Elements(spine)
    ensures forall v :: v in Values(ls) ==> v in Values(spine)
  {
    forall v | v in Values(ls) ensures v in Values(spine) {
      var w := ls[IndexOf(Values(ls), v)];
      assert w in Elements(ls);
      assert Values(spine)[IndexOf(spine, w)] == v;
    }
  }

  lemma {:induction false} NoticesRefineOn(spine: seq<VirtualNode>, ls: seq<VirtualNode>)
    requires Distinct(Values(spine)) && Elements(ls) <= Elements(spine)
    requires forall v :: v in Values(ls) ==> v in Values(spine)
    ensures NoticeValues(NoticesOf(spine, ls)) == Disruption.Notices(Values(spine), Values(ls))
  {
    if ls != [] {
      var front, last := ls[..|ls| - 1], ls[|ls| - 1];
      assert last in Elements(ls);
      assert Values(ls)[..|ls| - 1] == Values(front);
      PredecessorValue(spine, last);
      NoticesRefineOn(spine, front);
    }
  }

  /** The notices AddNode returns are, as values, those of the specification. */
  lemma NoticesRefine(spine: seq<VirtualNode>, ls: seq<VirtualNode>)
    requires Distinct(Values(spine)) && Elements(ls) <= Elements(spine)
    ensures forall v :: v in Values(ls) ==> v in Values(spine)
    ensures NoticeValues(NoticesOf(spine, ls)) == Disruption.Notices(Values(spine), Values(ls))
  {
    ValuesListed(spine, ls);
    NoticesRefineOn(spine, ls);
  }
}
