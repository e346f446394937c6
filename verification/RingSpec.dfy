/** The consistent-hashing ring as values: the specification that the pointer
    structure in RingHeap refines, and the laws every history of the ring obeys.
    A hash function is a parameter of the configuration, so every law below holds
    for every hash function. */
module RingSpec {
  import opened Naming
  import opened Sequences

  datatype Config = Config(hash: string -> nat, numVirtualNodes: nat, replicationFactor: int)

  datatype VNode = VNode(vname: string, id: UInt64, hash: nat)

  datatype NodeInfo = NodeInfo(id: UInt64, vnodes: seq<VNode>)

  datatype RingState = RingState(vs: seq<VNode>, nodeMap: map<string, NodeInfo>)

  const EMPTY_RING := RingState([], map[])

  // ---------- sorted insertion ----------

  ghost predicate Sorted(s: seq<VNode>) {
    forall i, j :: 0 <= i < j < |s| ==> s[i].hash <= s[j].hash
  }

  /** How many leading virtual nodes have a hash strictly below `h`, up to the first that has not. */
  function LowerBound(s: seq<VNode>, h: nat): (k: nat)
    ensures k <= |s|
    ensures forall i :: 0 <= i < k ==> s[i].hash < h
    ensures k < |s| ==> h <= s[k].hash
  {
    if s == [] || h <= s[0].hash then 0 else 1 + LowerBound(s[1..], h)
  }

  /** Before the first hash that is not smaller, except that a tie with the head goes behind it. */
  function InsertPosition(s: seq<VNode>, h: nat): (k: nat)
    ensures k <= |s|
  {
    var k := LowerBound(s, h);
    if k == 0 && s != [] && s[0].hash == h then 1 else k
  }

  function Insert(s: seq<VNode>, v: VNode): (r: seq<VNode>)
    ensures |r| == |s| + 1
  {
    Splice(s, InsertPosition(s, v.hash), v)
  }

  function InsertAll(s: seq<VNode>, ls: seq<VNode>): (r: seq<VNode>)
    ensures |r| == |s| + |ls|
  {
    if ls == [] then s else Insert(InsertAll(s, ls[..|ls| - 1]), ls[|ls| - 1])
  }

  // ---------- operations ----------

  function MakeVNode(cfg: Config, name: string, i: nat, id: UInt64): VNode {
    VNode(VirtualName(name, i), id, cfg.hash(VirtualName(name, i)))
  }

  function VNodesOf(cfg: Config, name: string, id: UInt64): (ls: seq<VNode>)
    ensures |ls| == cfg.numVirtualNodes
  {
    seq(cfg.numVirtualNodes, i requires 0 <= i => MakeVNode(cfg, name, i, id))
  }

  function AddNode(cfg: Config, r: RingState, name: string, id: UInt64): RingState {
    var ls := VNodesOf(cfg, name, id);
    RingState(InsertAll(r.vs, ls), r.nodeMap[name := NodeInfo(id, ls)])
  }

  function RemoveNode(r: RingState, name: string): RingState {
    if name !in r.nodeMap then r
    else RingState(Without(r.vs, set v | v in r.nodeMap[name].vnodes), r.nodeMap - {name})
  }

  /** Which id each registered name has. */
  function IdsByName(nodeMap: map<string, NodeInfo>): map<string, UInt64> {
    map name | name in nodeMap :: nodeMap[name].id
  }

  // ---------- the invariant ----------

  ghost predicate Owned(cfg: Config, nodeMap: map<string, NodeInfo>, v: VNode) {
    && LastUnderscore(v.vname) >= 0
    && OwnerName(v.vname) in nodeMap
    && v in VNodesOf(cfg, OwnerName(v.vname), nodeMap[OwnerName(v.vname)].id)
  }

  /** The list is sorted, holds every registered name's virtual nodes exactly once and
      nothing else, and the name map lists them. */
  ghost predicate WellFormed(cfg: Config, r: RingState) {
    && Sorted(r.vs)
    && Distinct(r.vs)
    && (forall v :: v in r.vs <==> Owned(cfg, r.nodeMap, v))
    && (forall name :: name in r.nodeMap ==>
          r.nodeMap[name].vnodes == VNodesOf(cfg, name, r.nodeMap[name].id))
  }

  // ---------- insertion lemmas ----------

  lemma InsertSorted(s: seq<VNode>, v: VNode)
    requires Sorted(s)
    ensures Sorted(Insert(s, v))
  {
    var k := InsertPosition(s, v.hash);
    assert forall i :: 0 <= i < k ==> s[i].hash <= v.hash;
    assert forall i :: k <= i < |s| ==> v.hash <= s[i].hash;
    SpliceSorted(s, k, v);
  }

  lemma SpliceSorted(s: seq<VNode>, k: nat, v: VNode)
    requires Sorted(s) && k <= |s|
    requires forall i :: 0 <= i < k ==> s[i].hash <= v.hash
    requires forall i :: k <= i < |s| ==> v.hash <= s[i].hash
    ensures Sorted(Splice(s, k, v))
  {
  }

  lemma InsertDistinct(s: seq<VNode>, v: VNode)
    requires Distinct(s) && v !in s
    ensures Distinct(Insert(s, v))
  {
  }

  lemma {:induction false} InsertAllMembers(s: seq<VNode>, ls: seq<VNode>)
    ensures forall x :: x in InsertAll(s, ls) <==> x in s || x in ls
  {
    if ls != [] {
      var front, last := ls[..|ls| - 1], ls[|ls| - 1];
      InsertAllMembers(s, front);
      SpliceMembers(InsertAll(s, front), InsertPosition(InsertAll(s, front), last.hash), last);
      assert ls == front + [last];
    }
  }

  lemma {:induction false} InsertAllSorted(s: seq<VNode>, ls: seq<VNode>)
    requires Sorted(s)
    ensures Sorted(InsertAll(s, ls))
  {
    if ls != [] {
      InsertAllSorted(s, ls[..|ls| - 1]);
      InsertSorted(InsertAll(s, ls[..|ls| - 1]), ls[|ls| - 1]);
    }
  }

  lemma {:induction false} InsertAllDistinct(s: seq<VNode>, ls: seq<VNode>)
    requires Distinct(s) && Distinct(ls)
    requires forall v :: v in ls ==> v !in s
    ensures Distinct(InsertAll(s, ls))
  {
    if ls != [] {
      var front, last := ls[..|ls| - 1], ls[|ls| - 1];
      InsertAllDistinct(s, front);
      InsertAllMembers(s, front);
      assert last !in front;
      InsertDistinct(InsertAll(s, front), last);
    }
  }

  /** Inserting disturbs nothing: whatever is kept of the old list keeps its order. */
  lemma {:induction false} WithoutInsertAll(s: seq<VNode>, ls: seq<VNode>, gone: set<VNode>)
    requires forall v :: v in ls ==> v in gone
    ensures Without(InsertAll(s, ls), gone) == Without(s, gone)
  {
    if ls != [] {
      var t, v := InsertAll(s, ls[..|ls| - 1]), ls[|ls| - 1];
      WithoutInsertAll(s, ls[..|ls| - 1], gone);
      WithoutSplice(t, InsertPosition(t, v.hash), v, gone);
    }
  }

  lemma {:induction false} SortedWithout(s: seq<VNode>, gone: set<VNode>)
    requires Sorted(s)
    ensures Sorted(Without(s, gone))
  {
    if s != [] {
      var front := s[..|s| - 1];
      SortedWithout(front, gone);
      WithoutMembers(front, gone);
      forall x | x in Without(front, gone) ensures x.hash <= s[|s| - 1].hash {
        assert x in front;
      }
    }
  }

  // ---------- the invariant is kept ----------

  lemma VNodesOfOwner(cfg: Config, name: string, id: UInt64)
    ensures Distinct(VNodesOf(cfg, name, id))
    ensures forall v :: v in VNodesOf(cfg, name, id) ==>
              LastUnderscore(v.vname) >= 0 && OwnerName(v.vname) == name && v.id == id
  {
    var ls := VNodesOf(cfg, name, id);
    forall i | 0 <= i < |ls|
      ensures LastUnderscore(ls[i].vname) >= 0 && OwnerName(ls[i].vname) == name
    {
      OwnerOfVirtualName(name, i);
    }
    forall i, j | 0 <= i < j < |ls| ensures ls[i] != ls[j] {
      if ls[i] == ls[j] {
        VirtualNameInjective(name, i, name, j);
      }
    }
  }

  lemma FreshVNodes(cfg: Config, r: RingState, name: string, id: UInt64)
    requires WellFormed(cfg, r) && name !in r.nodeMap
    ensures forall v :: v in VNodesOf(cfg, name, id) ==> v !in r.vs
  {
    VNodesOfOwner(cfg, name, id);
  }

  lemma EmptyWellFormed(cfg: Config)
    ensures WellFormed(cfg, EMPTY_RING)
  {
  }

  lemma AddNodeWellFormed(cfg: Config, r: RingState, name: string, id: UInt64)
    requires WellFormed(cfg, r) && name !in r.nodeMap
    ensures WellFormed(cfg, AddNode(cfg, r, name, id))
  {
    var ls := VNodesOf(cfg, name, id);
    var r' := AddNode(cfg, r, name, id);
    FreshVNodes(cfg, r, name, id);
    VNodesOfOwner(cfg, name, id);
    InsertAllSorted(r.vs, ls);
    InsertAllDistinct(r.vs, ls);
    InsertAllMembers(r.vs, ls);
    forall v ensures v in r'.vs <==> Owned(cfg, r'.nodeMap, v) {
      assert Owned(cfg, r'.nodeMap, v) <==> Owned(cfg, r.nodeMap, v) || v in ls;
    }
  }

  lemma RemoveNodeWellFormed(cfg: Config, r: RingState, name: string)
    requires WellFormed(cfg, r)
    ensures WellFormed(cfg, RemoveNode(r, name))
  {
    if name in r.nodeMap {
      var ls := r.nodeMap[name].vnodes;
      var gone := set v | v in ls;
      var r' := RemoveNode(r, name);
      VNodesOfOwner(cfg, name, r.nodeMap[name].id);
      SortedWithout(r.vs, gone);
      DistinctWithout(r.vs, gone);
      WithoutMembers(r.vs, gone);
      forall v ensures v in r'.vs <==> Owned(cfg, r'.nodeMap, v) {
        assert Owned(cfg, r'.nodeMap, v) <==> Owned(cfg, r.nodeMap, v) && v !in ls;
      }
    }
  }

  /** Removing a freshly added node restores the ring exactly, whatever positions and
      hash ties its virtual nodes fell into. */
  lemma RemoveUndoesAdd(cfg: Config, r: RingState, name: string, id: UInt64)
    requires WellFormed(cfg, r) && name !in r.nodeMap
    ensures RemoveNode(AddNode(cfg, r, name, id), name) == r
  {
    var ls := VNodesOf(cfg, name, id);
    var gone := set v | v in ls;
    FreshVNodes(cfg, r, name, id);
    WithoutInsertAll(r.vs, ls, gone);
    WithoutNone(r.vs, gone);
    assert RemoveNode(AddNode(cfg, r, name, id), name).nodeMap == r.nodeMap;
  }
}
