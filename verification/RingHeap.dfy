/** The ring as the program keeps it: virtual nodes linked both ways from a head, a
    length counter, and a map from names to nodes. Every method is proved against the
    value-level functions of RingSpec and Routing. */
module RingHeap {
  import opened Naming
  import opened Sequences
  import opened RingSpec
  import opened Routing
  import opened Preference
  import opened Backup

  class VirtualNode {
    const VirtualName: string
    const NodeId: UInt64
    const Hash: nat
    var Next: VirtualNode?
    var Prev: VirtualNode?

    constructor (cfg: Config, name: string, id: UInt64)
      ensures VirtualName == name && NodeId == id && Hash == cfg.hash(name)
      ensures Next == null && Prev == null
    {
      VirtualName, NodeId, Hash := name, id, cfg.hash(name);
      Next, Prev := null, null;
    }
  }

  function ValueOf(v: VirtualNode): VNode {
    VNode(v.VirtualName, v.NodeId, v.Hash)
  }

  ghost function Values(s: seq<VirtualNode>): (r: seq<VNode>)
    ensures |r| == |s|
    ensures forall i :: 0 <= i < |s| ==> r[i] == ValueOf(s[i])
  {
    seq(|s|, i requires 0 <= i < |s| => ValueOf(s[i]))
  }

  /** `Next` and `Prev` are inverse to each other and follow the order of `s`. */
  ghost predicate Linked(s: seq<VirtualNode>)
    reads s
  {
    && (forall i {:trigger s[i].Prev} :: 0 <= i < |s| ==> s[i].Prev == if i == 0 then null else s[i - 1])
    && (forall i {:trigger s[i].Next} :: 0 <= i < |s| ==> s[i].Next == if i == |s| - 1 then null else s[i + 1])
  }

  /** A list linked this way is acyclic: no node stands at two positions. */
  lemma {:induction false} LinkedApart(s: seq<VirtualNode>, i: nat, j: nat)
    requires Linked(s) && i < j < |s|
    ensures s[i] != s[j]
  {
    if s[i] == s[j] {
      assert s[i].Prev == s[j].Prev;
      if i > 0 {
        LinkedApart(s, i - 1, j - 1);
      }
    }
  }

  lemma LinkedOnce(s: seq<VirtualNode>, j: nat)
    requires Linked(s) && j < |s|
    ensures forall m :: 0 <= m < |s| && m != j ==> s[m] != s[j]
  {
    forall m | 0 <= m < |s| && m != j ensures s[m] != s[j] {
      if m < j {
        LinkedApart(s, m, j);
      } else {
        LinkedApart(s, j, m);
      }
    }
  }

  class DoublyLinkedList {
    var Length: int
    var Head: VirtualNode?
    ghost var Spine: seq<VirtualNode>

    ghost predicate Valid()
      reads this, Spine
    {
      Length == |Spine| && Chain()
    }

    ghost predicate Chain()
      reads this, Spine
    {
      && Head == (if Spine == [] then null else Spine[0])
      && Linked(Spine)
    }

    constructor ()
      ensures Valid() && Spine == []
    {
      Length, Head, Spine := 0, null, [];
    }

    /** The first node whose hash is not below `h`, or the tail. */
    method Seek(h: nat) returns (node: VirtualNode, ghost j: nat)
      requires Chain() && Spine != []
      ensures j < |Spine| && node == Spine[j]
      ensures var k := LowerBound(Values(Spine), h);
              j == if k == |Spine| then |Spine| - 1 else k
    {
      ghost var hs := Values(Spine);
      node, j := Head, 0;
      while node.Next != null
        invariant j < |Spine| && node == Spine[j]
        invariant forall m :: 0 <= m < j ==> hs[m].hash < h
        decreases |Spine| - j
      {
        if node.Hash < h {
          node := node.Next;
          j := j + 1;
        } else {
          break;
        }
      }
    }

    method LinkFirst(vNode: VirtualNode)
      requires Chain() && Spine == [] && vNode.Next == null && vNode.Prev == null
      modifies this`Head, this`Spine
      ensures Chain() && Spine == Splice(old(Spine), 0, vNode)
    {
      Head := vNode;
      Spine := Splice(Spine, 0, vNode);
    }

    method LinkHead(vNode: VirtualNode, cmpNode: VirtualNode)
      requires Chain() && vNode !in Spine && vNode.Next == null && vNode.Prev == null
      requires cmpNode == Head
      modifies this`Head, this`Spine, cmpNode, vNode
      ensures Chain() && Spine == Splice(old(Spine), 0, vNode)
    {
      LinkedOnce(Spine, 0);
      Head := vNode;
      cmpNode.Prev := vNode;
      vNode.Next := cmpNode;
      Spine := Splice(Spine, 0, vNode);
    }

    method LinkAfter(vNode: VirtualNode, cmpNode: VirtualNode, ghost j: nat)
      requires Chain() && vNode !in Spine && vNode.Next == null && vNode.Prev == null
      requires j < |Spine| && cmpNode == Spine[j]
      modifies this`Spine, Spine, vNode
      ensures Chain() && Spine == Splice(old(Spine), j + 1, vNode)
    {
      LinkedOnce(Spine, j);
      if j + 1 < |Spine| {
        LinkedOnce(Spine, j + 1);
      }
      vNode.Prev := cmpNode;
      vNode.Next := cmpNode.Next;
      if cmpNode.Next != null {
        cmpNode.Next.Prev := vNode;
      }
      cmpNode.Next := vNode;
      Spine := Splice(Spine, j + 1, vNode);
    }

    method LinkBefore(vNode: VirtualNode, cmpNode: VirtualNode, ghost j: nat)
      requires Chain() && vNode !in Spine && vNode.Next == null && vNode.Prev == null
      requires 0 < j < |Spine| && cmpNode == Spine[j]
      modifies this`Spine, Spine, vNode
      ensures Chain() && Spine == Splice(old(Spine), j, vNode)
    {
      LinkedOnce(Spine, j);
      LinkedOnce(Spine, j - 1);
      var prevNode := cmpNode.Prev;
      cmpNode.Prev := vNode;
      prevNode.Next := vNode;
      vNode.Next := cmpNode;
      vNode.Prev := prevNode;
      Spine := Splice(Spine, j, vNode);
    }

    /** Puts a new virtual node into the list, as the body of AddNode's first loop does. */
    method Insert(vNode: VirtualNode)
      requires Valid() && vNode !in Spine && vNode.Next == null && vNode.Prev == null
      modifies this, Spine, vNode
      ensures Valid()
      ensures Spine == Splice(old(Spine), InsertPosition(Values(old(Spine)), vNode.Hash), vNode)
    {
      Length := Length + 1;
      if Length == 1 {
        LinkFirst(vNode);
      } else {
        var cmpNode, j := Seek(vNode.Hash);
        ghost var k := InsertPosition(Values(Spine), vNode.Hash);
        LinkedOnce(Spine, 0);
        if cmpNode == Head {
          if vNode.Hash < cmpNode.Hash {
            assert k == 0;
            LinkHead(vNode, cmpNode);
          } else {
            assert k == j + 1;
            LinkAfter(vNode, cmpNode, j);
          }
        } else {
          if !(cmpNode.Hash < vNode.Hash) {
            assert k == j;
            LinkBefore(vNode, cmpNode, j);
          } else {
            assert k == j + 1;
            LinkAfter(vNode, cmpNode, j);
          }
        }
      }
    }

    /** Takes a node out of the list, as the body of RemoveNode's loop does. */
    method Unlink(vNode: VirtualNode)
      requires Valid() && vNode in Spine
      modifies this, Spine
      ensures Valid()
      ensures Spine == Without(old(Spine), {vNode})
    {
      ghost var k := IndexOf(Spine, vNode);
      LinkedOnce(Spine, k);
      WithoutOne(Spine, k);
      if k > 0 {
        LinkedOnce(Spine, k - 1);
      }
      if k + 1 < |Spine| {
        LinkedOnce(Spine, k + 1);
      }
      if vNode.Prev != null {
        vNode.Prev.Next := vNode.Next;
      } else if vNode == Head {
        Head := vNode.Next;
      }
      if vNode.Next != null {
        vNode.Next.Prev := vNode.Prev;
      }
      Spine := Cut(Spine, k);
      Length := Length - 1;
    }

    /** Follows `Next` to the tail. */
    method TailFrom(node: VirtualNode) returns (tail: VirtualNode)
      requires Valid() && node in Spine
      ensures Spine != [] && tail == Spine[|Spine| - 1]
    {
      tail := node;
      ghost var j := IndexOf(Spine, node);
      while tail.Next != null
        invariant j < |Spine| && tail == Spine[j]
        decreases |Spine| - j
      {
        tail := tail.Next;
        j := j + 1;
      }
    }

    /** Links a node behind the tail, as the import's second loop does. */
    method Append(prev: VirtualNode?, curr: VirtualNode)
      requires Valid() && curr !in Spine && curr.Next == null && curr.Prev == null
      requires prev == if Spine == [] then null else Spine[|Spine| - 1]
      modifies this, Spine, curr
      ensures Valid() && Spine == old(Spine) + [curr]
    {
      if prev != null {
        LinkedOnce(Spine, |Spine| - 1);
        prev.Next := curr;
        curr.Prev := prev;
      }
      if Head == null {
        Head := curr;
      }
      Spine := Spine + [curr];
      Length := Length + 1;
    }

    /** One step clockwise. */
    method Clockwise(node: VirtualNode, ghost k: nat) returns (next: VirtualNode)
      requires Valid() && k < |Spine| && node == Spine[k]
      ensures next == if k == |Spine| - 1 then Spine[0] else Spine[k + 1]
    {
      if node.Next == null {
        next := Head;
      } else {
        next := node.Next;
      }
    }
  }

  lemma ValuesSplice(s: seq<VirtualNode>, v: VirtualNode)
    ensures Values(Splice(s, InsertPosition(Values(s), v.Hash), v)) == RingSpec.Insert(Values(s), ValueOf(v))
  {
  }

  datatype HeapInfo = HeapInfo(NodeId: UInt64, VirtualNodes: seq<VirtualNode>)

  datatype ReallocationNotice = ReallocationNotice(TargetNode: VirtualNode, NewNode: VirtualNode)

  /** Every name's virtual nodes are on the list, and no two entries share one. */
  ghost predicate InfoValid(nodeMap: map<string, HeapInfo>, spine: seq<VirtualNode>) {
    && (forall name :: name in nodeMap ==> Distinct(nodeMap[name].VirtualNodes))
    && (forall name :: name in nodeMap ==> Elements(nodeMap[name].VirtualNodes) <= Elements(spine))
    && (forall m, n :: m in nodeMap && n in nodeMap && m != n ==>
          Elements(nodeMap[m].VirtualNodes) !! Elements(nodeMap[n].VirtualNodes))
  }

  ghost function InfoValue(info: HeapInfo): NodeInfo {
    NodeInfo(info.NodeId, Values(info.VirtualNodes))
  }

  ghost function AbsOf(spine: seq<VirtualNode>, nodeMap: map<string, HeapInfo>): RingState {
    RingState(Values(spine), map name | name in nodeMap :: InfoValue(nodeMap[name]))
  }

  class Ring {
    const cfg: Config
    const Nodes: DoublyLinkedList
    var NodeMap: map<string, HeapInfo>

    ghost predicate Valid()
      reads this, Nodes, Nodes.Spine
    {
      Nodes.Valid() && InfoValid(NodeMap, Nodes.Spine)
    }

    ghost function Abs(): RingState
      reads this, Nodes
    {
      AbsOf(Nodes.Spine, NodeMap)
    }

    constructor (cfg: Config)
      ensures Valid() && this.cfg == cfg && fresh(Nodes)
      ensures Nodes.Spine == [] && NodeMap == map[] && Abs() == EMPTY_RING
    {
      this.cfg := cfg;
      Nodes := new DoublyLinkedList();
      NodeMap := map[];
    }

    method LinkVirtualNode(name: string, i: nat, id: UInt64) returns (vNode: VirtualNode)
      requires Nodes.Valid()
      modifies Nodes, Nodes.Spine
      ensures Nodes.Valid() && fresh(vNode) && vNode !in old(Nodes.Spine)
      ensures ValueOf(vNode) == MakeVNode(cfg, name, i, id)
      ensures Nodes.Spine == Splice(old(Nodes.Spine), InsertPosition(Values(old(Nodes.Spine)), vNode.Hash), vNode)
      ensures forall v :: v in Nodes.Spine ==> v in old(Nodes.Spine) || v == vNode
    {
      vNode := new VirtualNode(cfg, VirtualName(name, i), id);
      Nodes.Insert(vNode);
      SpliceMembers(old(Nodes.Spine), InsertPosition(Values(old(Nodes.Spine)), vNode.Hash), vNode);
    }

    /** First half of AddNode: creates and links the virtual nodes one after the other. */
    method LinkVirtualNodes(name: string, id: UInt64) returns (ls: seq<VirtualNode>)
      requires Nodes.Valid()
      modifies Nodes, Nodes.Spine
      ensures Nodes.Valid() && Grown(old(Nodes.Spine), ls, Nodes.Spine)
      ensures forall v :: v in ls ==> fresh(v)
      ensures Values(ls) == VNodesOf(cfg, name, id) && Numbered(cfg, name, id, ls)
      ensures Values(Nodes.Spine) == InsertAll(old(Values(Nodes.Spine)), VNodesOf(cfg, name, id))
    {
      ghost var before := Nodes.Spine;
      ghost var all := VNodesOf(cfg, name, id);
      ls := [];
      GrownStart(before);
      for i := 0 to cfg.numVirtualNodes
        invariant Nodes.Valid() && Grown(before, ls, Nodes.Spine)
        invariant forall v :: v in Nodes.Spine ==> v in before || fresh(v)
        invariant Values(ls) == all[..i]
        invariant Values(Nodes.Spine) == InsertAll(Values(before), all[..i])
      {
        ghost var s := Nodes.Spine;
        assert forall m :: 0 <= m < |s| ==> s[m] in s;
        var vNode := LinkVirtualNode(name, i, id);
        GrownStep(before, ls, s, InsertPosition(Values(s), vNode.Hash), vNode);
        ValuesStep(before, ls, s, vNode, all, i);
        ls := ls + [vNode];
      }
      assert all[..cfg.numVirtualNodes] == all;
      GrownMembers(before, ls, Nodes.Spine);
      AreNumbered(cfg, name, id, ls);
    }

    /** Second half of AddNode: who has to hand keys over to each new virtual node. */
    method CollectNotices(ls: seq<VirtualNode>) returns (reAlloc: seq<ReallocationNotice>)
      requires Nodes.Valid() && (ls != [] ==> |Nodes.Spine| >= 2)
      requires Elements(ls) <= Elements(Nodes.Spine)
      ensures reAlloc == NoticesOf(Nodes.Spine, ls) && Notified(Nodes.Spine, ls, reAlloc)
    {
      reAlloc := [];
      for i := 0 to |ls|
        invariant reAlloc == NoticesOf(Nodes.Spine, ls[..i])
      {
        var vNode := ls[i];
        assert vNode in Elements(ls);
        assert ls[..i + 1][..i] == ls[..i];
        var target;
        if vNode.Prev == null {
          target := Nodes.TailFrom(vNode.Next);
        } else {
          target := vNode.Prev;
        }
        assert target == Predecessor(Nodes.Spine, vNode);
        if target.NodeId != vNode.NodeId {
          reAlloc := reAlloc + [ReallocationNotice(target, vNode)];
        }
      }
      assert ls[..|ls|] == ls;
      NoticesAreNotified(Nodes.Spine, ls);
    }

    method AddNode(name: string, id: UInt64) returns (reAlloc: seq<ReallocationNotice>, ghost ls: seq<VirtualNode>)
      requires Valid()
      modifies this, Nodes, Nodes.Spine
      ensures Valid()
      ensures forall v :: v in ls ==> fresh(v)
      ensures Grown(old(Nodes.Spine), ls, Nodes.Spine) && Numbered(cfg, name, id, ls)
      ensures NodeMap == old(NodeMap)[name := HeapInfo(id, ls)]
      ensures reAlloc == if old(Nodes.Spine) == [] then [] else NoticesOf(Nodes.Spine, ls)
      ensures old(Nodes.Spine) != [] ==> Notified(Nodes.Spine, ls, reAlloc)
      ensures Abs() == RingSpec.AddNode(cfg, old(Abs()), name, id)
    {
      var isEmptyBefore := Nodes.Length == 0;
      var vnodes := LinkVirtualNodes(name, id);
      ls := vnodes;
      GrownMembers(old(Nodes.Spine), ls, Nodes.Spine);
      InfoAdded(NodeMap, old(Nodes.Spine), ls, Nodes.Spine, name, id);
      AbsAdded(cfg, NodeMap, old(Nodes.Spine), ls, Nodes.Spine, name, id);
      NodeMap := NodeMap[name := HeapInfo(id, vnodes)];
      if isEmptyBefore {
        reAlloc := [];
      } else {
        reAlloc := CollectNotices(vnodes);
      }
    }

    /** RemoveNode's loop: unlinks the given nodes one after the other. */
    method UnlinkAll(ls: seq<VirtualNode>)
      requires Nodes.Valid() && Distinct(ls) && Elements(ls) <= Elements(Nodes.Spine)
      modifies Nodes, Nodes.Spine
      ensures Nodes.Valid()
      ensures Nodes.Spine == Without(old(Nodes.Spine), Elements(ls))
    {
      ghost var before := Nodes.Spine;
      WithoutNone(before, {});
      assert Elements(ls[..0]) == {};
      for i := 0 to |ls|
        invariant Nodes.Valid() && Nodes.Spine == Without(before, Elements(ls[..i]))
      {
        UnlinkStep(before, ls, i);
        assert forall m :: 0 <= m < |Nodes.Spine| ==> Nodes.Spine[m] in old(Nodes.Spine);
        Nodes.Unlink(ls[i]);
      }
      assert ls[..|ls|] == ls;
    }

    method RemoveNode(name: string)
      requires Valid()
      modifies this, Nodes, Nodes.Spine
      ensures Valid()
      ensures Nodes.Spine == SpineWithout(old(Nodes.Spine), old(NodeMap), name)
      ensures NodeMap == old(NodeMap) - {name}
      ensures Distinct(old(Values(Nodes.Spine))) ==> Abs() == RingSpec.RemoveNode(old(Abs()), name)
    {
      if name in NodeMap {
        InfoRemoved(NodeMap, Nodes.Spine, name);
        if Distinct(Values(Nodes.Spine)) {
          AbsRemoved(NodeMap, Nodes.Spine, name);
        }
        UnlinkAll(NodeMap[name].VirtualNodes);
        NodeMap := NodeMap - {name};
      } else {
        assert NodeMap - {name} == NodeMap;
      }
    }

    method SearchKey(key: string) returns (node: VirtualNode)
      requires Nodes.Valid() && Nodes.Spine != []
      ensures node == Nodes.Spine[SearchIndex(Values(Nodes.Spine), cfg.hash(key))]
    {
      var hashedKey := cfg.hash(key);
      ghost var j;
      node, j := Nodes.Seek(hashedKey);
      if node.Prev == null {
        node := Nodes.TailFrom(node);
      } else {
        node := node.Prev;
      }
    }

    /** The preference list. The `i--; continue` retry of the source is the branch that
        steps the counter back; what shrinks is the part of the lap not yet walked. */
    method GetPreferenceList(key: string) returns (prefList: seq<VirtualNode>)
      requires Valid() && Nodes.Spine != [] && EnoughIds(cfg, Abs())
      ensures Values(prefList) == PreferenceList(cfg, Abs(), key)
      ensures exists offs :: MetClockwise(Values(Nodes.Spine), SearchIndex(Values(Nodes.Spine), cfg.hash(key)),
                                          Values(prefList), offs)
      ensures |prefList| == if |NodeMap| <= 1 || cfg.replicationFactor <= 1 then 1
                            else if |NodeMap| <= cfg.replicationFactor then |NodeMap|
                            else cfg.replicationFactor
      ensures Elements(prefList) <= Elements(Nodes.Spine)
    {
      var node := SearchKey(key);
      ghost var start := SearchIndex(Values(Nodes.Spine), cfg.hash(key));
      ghost var t := 0;
      prefList := [node];
      LapStart(Nodes.Spine, start);
      var wanted := cfg.replicationFactor;
      if |NodeMap| < cfg.replicationFactor {
        wanted := |NodeMap|;
      }
      AbsSize(cfg, Nodes.Spine, NodeMap, wanted);
      var i := 0;
      while i < wanted - 1
        invariant 0 <= i && (i == 0 || i < wanted) && |prefList| == i + 1
        invariant Walked(Nodes.Spine, start, t, node, prefList)
        decreases |Nodes.Spine| - t
      {
        ghost var k := LapNotOver(Nodes.Spine, start, t, node, prefList, wanted);
        node := Nodes.Clockwise(node, k);
        LapStep(Nodes.Spine, start, t, prefList, node);
        t := t + 1;
        var hit := HasId(prefList, node.NodeId);
        if hit {
          i := i - 1;
        } else {
          prefList := prefList + [node];
        }
        i := i + 1;
      }
      LapDone(cfg, AbsOf(Nodes.Spine, NodeMap), key, Nodes.Spine, t, node, prefList);
      SameSize(Nodes.Spine, NodeMap);
      PreferenceLength(cfg, AbsOf(Nodes.Spine, NodeMap), key);
      ghost var offs := PreferenceListIsFirstOccurrences(cfg, AbsOf(Nodes.Spine, NodeMap), key);
    }

    method HasId(nodes: seq<VirtualNode>, id: UInt64) returns (hit: bool)
      ensures hit <==> id in Ids(Values(nodes))
      ensures hit <==> exists k :: 0 <= k < |nodes| && nodes[k].NodeId == id
    {
      hit := false;
      for m := 0 to |nodes|
        invariant !hit && forall k :: 0 <= k < m ==> nodes[k].NodeId != id
      {
        if id == nodes[m].NodeId {
          assert Values(nodes)[m] in Values(nodes);
          hit := true;
          break;
        }
      }
    }

    method IsNodeResponsibleForKey(key: string, id: UInt64) returns (responsible: bool)
      requires Valid() && Nodes.Spine != [] && EnoughIds(cfg, Abs())
      ensures responsible <==> IsResponsible(cfg, Abs(), key, id)
      ensures var p := PreferenceList(cfg, Abs(), key);
              responsible <==> exists i :: 0 <= i < |p| && p[i].id == id
    {
      var prefList := GetPreferenceList(key);
      ResponsibleIff(cfg, Abs(), key, id);
      responsible := HasId(prefList, id);
    }

    /** First loop of BackupRing, over the name map in whatever order it is ranged over. */
    method PrintNameMap() returns (text: string, ghost order: seq<string>)
      ensures IsOrderOf(order, NodeMap.Keys)
      ensures text == PrintNames(order, IdsByName(Abs().nodeMap))
    {
      ghost var ids := IdsByName(Abs().nodeMap);
      text, order := "", [];
      var todo := NodeMap.Keys;
      while todo != {}
        invariant todo <= NodeMap.Keys && IsOrderOf(order, NodeMap.Keys - todo)
        invariant text == PrintNames(order, ids)
      {
        var name :| name in todo;
        text := text + EntryLine(name, NodeMap[name].NodeId);
        assert (order + [name])[..|order|] == order;
        todo, order := todo - {name}, order + [name];
      }
      assert NodeMap.Keys - todo == NodeMap.Keys;
    }

    /** Second loop of BackupRing, along the list, with the tail's line printed behind it. */
    method PrintNodes() returns (text: string)
      requires Nodes.Valid() && Nodes.Spine != []
      ensures text == PrintList(Values(Nodes.Spine))
    {
      ghost var vs := Values(Nodes.Spine);
      var node := Nodes.Head;
      ghost var j := 0;
      text := "";
      while node.Next != null
        invariant j < |Nodes.Spine| && node == Nodes.Spine[j]
        invariant text == PrintList(vs[..j])
        decreases |Nodes.Spine| - j
      {
        text := text + EntryLine(node.VirtualName, node.NodeId);
        PrintListSnoc(vs, j);
        node := node.Next;
        j := j + 1;
      }
      text := text + EntryLine(node.VirtualName, node.NodeId);
      PrintListSnoc(vs, j);
      assert vs[..j + 1] == vs;
    }

    method BackupRing() returns (text: string, ghost order: seq<string>)
      requires Valid() && Nodes.Spine != []
      ensures IsOrderOf(order, NodeMap.Keys)
      ensures text == BackupText(order, Abs())
    {
      text, order := PrintNameMap();
      var list := PrintNodes();
      text := text + "\n" + list;
    }

    /** First loop of the import: names and ids up to the empty line. The append of the source
        goes to a copy of the map entry, so every entry keeps an empty list of virtual nodes. */
    static method ImportNames(cfg: Config, lines: seq<string>) returns (status: ImportStatus, ring: Ring, i: nat)
      ensures fresh(ring) && fresh(ring.Nodes) && ring.cfg == cfg && ring.Valid() && ring.Nodes.Spine == []
      ensures i <= |lines|
      ensures status == ImportOk ==> ReadNames(cfg, lines, map[]) == ReadList(cfg, lines[i..], ring.Abs())
      ensures status == ImportError ==> ReadNames(cfg, lines, map[]) == ParseFailed
      ensures status == ImportPanic ==> ReadNames(cfg, lines, map[]) == Panicked
    {
      ring := new Ring(cfg);
      i := 0;
      while i < |lines|
        invariant i <= |lines| && ring.Nodes.Valid() && ring.Nodes.Spine == []
        invariant AllEmpty(ring.NodeMap)
        invariant ReadNames(cfg, lines, map[]) == ReadNames(cfg, lines[i..], AbsOf([], ring.NodeMap).nodeMap)
      {
        var line := lines[i];
        assert lines[i..][0] == line && lines[i..][1..] == lines[i + 1..];
        i := i + 1;
        if line == "" {
          return ImportOk, ring, i;
        }
        match ParseEntry(line) {
          case BadNumber => return ImportError, ring, i;
          case NoComma => return ImportPanic, ring, i;
          case Entry(name, id) =>
            EmptyEntryAdded(ring.NodeMap, name, id);
            ring.NodeMap := ring.NodeMap[name := HeapInfo(id, [])];
        }
      }
      status := ImportOk;
    }

    /** Second loop of the import: links the virtual nodes in file order. */
    method ImportNodes(lines: seq<string>, from: nat) returns (status: ImportStatus)
      requires Valid() && Nodes.Spine == [] && from <= |lines|
      modifies Nodes
      ensures Valid()
      ensures match ReadList(cfg, lines[from..], old(Abs()))
              case Imported(r) => status == ImportOk && Abs() == r
              case ParseFailed => status == ImportError
              case Panicked => status == ImportPanic
    {
      ghost var goal := ReadList(cfg, lines[from..], Abs());
      var i := from;
      var prev: VirtualNode? := null;
      while i < |lines|
        invariant i <= |lines| && Nodes.Valid() && InfoValid(NodeMap, Nodes.Spine)
        invariant forall m :: 0 <= m < |Nodes.Spine| ==> fresh(Nodes.Spine[m])
        invariant prev == if Nodes.Spine == [] then null else Nodes.Spine[|Nodes.Spine| - 1]
        invariant goal == ReadList(cfg, lines[i..], AbsOf(Nodes.Spine, NodeMap))
      {
        assert lines[i..][0] == lines[i] && lines[i..][1..] == lines[i + 1..];
        match ParseEntry(lines[i]) {
          case BadNumber => return ImportError;
          case NoComma => return ImportPanic;
          case Entry(vname, id) =>
            prev := LinkEntry(prev, vname, id);
            i := i + 1;
        }
      }
      status := ImportOk;
    }

    /** One line of the second section: a new virtual node behind the last one read. */
    method LinkEntry(prev: VirtualNode?, vname: string, id: UInt64) returns (curr: VirtualNode)
      requires Nodes.Valid() && InfoValid(NodeMap, Nodes.Spine)
      requires prev == if Nodes.Spine == [] then null else Nodes.Spine[|Nodes.Spine| - 1]
      modifies Nodes, Nodes.Spine
      ensures Nodes.Valid() && InfoValid(NodeMap, Nodes.Spine)
      ensures fresh(curr) && Nodes.Spine == old(Nodes.Spine) + [curr]
      ensures AbsOf(Nodes.Spine, NodeMap)
              == var before := old(AbsOf(Nodes.Spine, NodeMap));
                 before.(vs := before.vs + [VNode(vname, id, cfg.hash(vname))])
    {
      curr := new VirtualNode(cfg, vname, id);
      ListedNodeAdded(Nodes.Spine, NodeMap, curr);
      Nodes.Append(prev, curr);
    }

    /** Rebuilds a ring from a backup. */
    static method ImportRing(cfg: Config, text: string) returns (status: ImportStatus, ring: Ring)
      ensures fresh(ring) && ring.cfg == cfg && ring.Valid()
      ensures match ImportText(cfg, text)
              case Imported(r) => status == ImportOk && ring.Abs() == r
              case ParseFailed => status == ImportError
              case Panicked => status == ImportPanic
    {
      var i;
      var lines := Lines(text);
      status, ring, i := ImportNames(cfg, lines);
      if status == ImportOk {
        status := ring.ImportNodes(lines, i);
      }
    }
  }

  /** The list without the virtual nodes of the entry called `name`, if there is one. */
  ghost function SpineWithout(spine: seq<VirtualNode>, nodeMap: map<string, HeapInfo>, name: string): seq<VirtualNode> {
    if name in nodeMap then Without(spine, Elements(nodeMap[name].VirtualNodes)) else spine
  }

  datatype ImportStatus = ImportOk | ImportError | ImportPanic

  ghost predicate AllEmpty(nodeMap: map<string, HeapInfo>) {
    forall name :: name in nodeMap ==> nodeMap[name].VirtualNodes == []
  }

  lemma EmptyEntryAdded(nodeMap: map<string, HeapInfo>, name: string, id: UInt64)
    ensures AbsOf([], nodeMap[name := HeapInfo(id, [])]).nodeMap
            == AbsOf([], nodeMap).nodeMap[name := NodeInfo(id, [])]
  {
  }

  lemma ListedNodeAdded(spine: seq<VirtualNode>, nodeMap: map<string, HeapInfo>, v: VirtualNode)
    ensures AbsOf(spine + [v], nodeMap)
            == AbsOf(spine, nodeMap).(vs := AbsOf(spine, nodeMap).vs + [ValueOf(v)])
    ensures InfoValid(nodeMap, spine) ==> InfoValid(nodeMap, spine + [v])
  {
  }

  lemma PrintListSnoc(vs: seq<VNode>, j: nat)
    requires j < |vs|
    ensures PrintList(vs[..j + 1]) == PrintList(vs[..j]) + EntryLine(vs[j].vname, vs[j].id)
  {
    assert vs[..j + 1][..j] == vs[..j];
  }

  lemma InfoAdded(nodeMap: map<string, HeapInfo>, before: seq<VirtualNode>, ls: seq<VirtualNode>,
                  spine: seq<VirtualNode>, name: string, id: UInt64)
    requires InfoValid(nodeMap, before) && Grown(before, ls, spine)
    ensures InfoValid(nodeMap[name := HeapInfo(id, ls)], spine)
  {
    WithoutMembers(spine, Elements(ls));
    assert Elements(before) <= Elements(spine) && Elements(before) !! Elements(ls);
  }

  lemma AbsAdded(cfg: Config, nodeMap: map<string, HeapInfo>, before: seq<VirtualNode>, ls: seq<VirtualNode>,
                 spine: seq<VirtualNode>, name: string, id: UInt64)
    requires Values(ls) == VNodesOf(cfg, name, id)
    requires Values(spine) == InsertAll(Values(before), VNodesOf(cfg, name, id))
    ensures AbsOf(spine, nodeMap[name := HeapInfo(id, ls)])
            == RingSpec.AddNode(cfg, AbsOf(before, nodeMap), name, id)
  {
  }

  lemma UnlinkStep(before: seq<VirtualNode>, ls: seq<VirtualNode>, i: nat)
    requires Distinct(ls) && Elements(ls) <= Elements(before) && i < |ls|
    ensures ls[i] in Without(before, Elements(ls[..i]))
    ensures forall v :: v in Without(before, Elements(ls[..i])) ==> v in before
    ensures Without(Without(before, Elements(ls[..i])), {ls[i]}) == Without(before, Elements(ls[..i + 1]))
  {
    assert ls[i] in Elements(ls);
    WithoutMembers(before, Elements(ls[..i]));
    WithoutTwice(before, Elements(ls[..i]), {ls[i]});
    assert Elements(ls[..i + 1]) == Elements(ls[..i]) + {ls[i]};
  }

  lemma {:induction false} ValuesWithout(s: seq<VirtualNode>, gone: set<VirtualNode>, goneValues: set<VNode>)
    requires forall v :: v in s ==> (v in gone <==> ValueOf(v) in goneValues)
    ensures Values(Without(s, gone)) == Without(Values(s), goneValues)
  {
    if s != [] {
      var front, last := s[..|s| - 1], s[|s| - 1];
      assert Values(s)[..|s| - 1] == Values(front);
      ValuesWithout(front, gone, goneValues);
    }
  }

  lemma InfoRemoved(nodeMap: map<string, HeapInfo>, spine: seq<VirtualNode>, name: string)
    requires InfoValid(nodeMap, spine) && name in nodeMap
    ensures InfoValid(nodeMap - {name}, Without(spine, Elements(nodeMap[name].VirtualNodes)))
  {
    var ls := nodeMap[name].VirtualNodes;
    WithoutMembers(spine, Elements(ls));
    assert Elements(Without(spine, Elements(ls))) == Elements(spine) - Elements(ls);
  }

  lemma AbsRemoved(nodeMap: map<string, HeapInfo>, spine: seq<VirtualNode>, name: string)
    requires InfoValid(nodeMap, spine) && name in nodeMap && Distinct(Values(spine))
    ensures AbsOf(Without(spine, Elements(nodeMap[name].VirtualNodes)), nodeMap - {name})
            == RingSpec.RemoveNode(AbsOf(spine, nodeMap), name)
  {
    var ls := nodeMap[name].VirtualNodes;
    var gone := set v | v in Values(ls);
    forall v | v in spine ensures v in Elements(ls) <==> ValueOf(v) in gone {
      ValueMembership(spine, ls, v);
    }
    ValuesWithout(spine, Elements(ls), gone);
    InfoValuesRemoved(nodeMap, name);
  }

  lemma InfoValuesRemoved(nodeMap: map<string, HeapInfo>, name: string)
    ensures AbsOf([], nodeMap - {name}).nodeMap == AbsOf([], nodeMap).nodeMap - {name}
  {
  }

  /** Where values are distinct, a node is recognised by its value. */
  lemma ValueMembership(spine: seq<VirtualNode>, ls: seq<VirtualNode>, v: VirtualNode)
    requires Distinct(Values(spine)) && Elements(ls) <= Elements(spine) && v in spine
    ensures v in ls <==> ValueOf(v) in Values(ls)
  {
    if ValueOf(v) in Values(ls) {
      var k := IndexOf(Values(ls), ValueOf(v));
      assert ls[k] in Elements(ls);
      var a, b := IndexOf(spine, v), IndexOf(spine, ls[k]);
      assert Values(spine)[a] == Values(spine)[b];
    }
    if v in ls {
      assert Values(ls)[IndexOf(ls, v)] == ValueOf(v);
    }
  }

  lemma AbsSize(cfg: Config, spine: seq<VirtualNode>, nodeMap: map<string, HeapInfo>, wanted: int)
    requires wanted == Wanted(cfg, |nodeMap|) && EnoughIds(cfg, AbsOf(spine, nodeMap))
    ensures wanted <= |Ids(Values(spine))|
    ensures PreferenceSize(cfg, AbsOf(spine, nodeMap)) == if wanted < 1 then 1 else wanted
  {
    assert AbsOf(spine, nodeMap).nodeMap.Keys == nodeMap.Keys;
  }

  lemma SameSize(spine: seq<VirtualNode>, nodeMap: map<string, HeapInfo>)
    ensures |AbsOf(spine, nodeMap).nodeMap| == |nodeMap|
  {
    assert AbsOf(spine, nodeMap).nodeMap.Keys == nodeMap.Keys;
  }

  // ---------- one lap around the list ----------

  lemma ValuesRotate(s: seq<VirtualNode>, start: nat)
    requires start <= |s|
    ensures Values(Rotate(s, start)) == Rotate(Values(s), start)
  {
  }

  /** After `t` steps clockwise from `start` the walk stands at `node` and has collected `prefList`. */
  ghost predicate Walked(s: seq<VirtualNode>, start: nat, t: nat, node: VirtualNode, prefList: seq<VirtualNode>) {
    && start < |s| && t < |s|
    && node == Rotate(s, start)[t]
    && Values(prefList) == Dedup(Values(Rotate(s, start)[..t + 1]))
    && Elements(prefList) <= Elements(s)
  }

  lemma LapStart(s: seq<VirtualNode>, start: nat)
    requires start < |s|
    ensures Walked(s, start, 0, s[start], [s[start]])
  {
  }

  /** While the loop still waits for an entry, there is a node of the lap left to visit. */
  lemma LapNotOver(s: seq<VirtualNode>, start: nat, t: nat, node: VirtualNode, prefList: seq<VirtualNode>, wanted: int)
    returns (k: nat)
    requires Walked(s, start, t, node, prefList)
    requires |prefList| < wanted <= |Ids(Values(s))|
    ensures t + 1 < |s|
    ensures k < |s| && node == s[k]
    ensures Rotate(s, start)[t + 1] == if k == |s| - 1 then s[0] else s[k + 1]
  {
    k := if start + t < |s| then start + t else start + t - |s|;
    if t + 1 == |s| {
      assert Rotate(s, start)[..t + 1] == Rotate(s, start);
      ValuesRotate(s, start);
      RotateElements(Values(s), start);
      DedupIds(Rotate(Values(s), start));
    }
  }

  lemma LapStep(s: seq<VirtualNode>, start: nat, t: nat, prefList: seq<VirtualNode>, v: VirtualNode)
    requires start < |s| && t + 1 < |s| && v == Rotate(s, start)[t + 1]
    requires Walked(s, start, t, Rotate(s, start)[t], prefList)
    ensures Walked(s, start, t + 1, v, if v.NodeId in Ids(Values(prefList)) then prefList else prefList + [v])
  {
    var rot := Rotate(s, start);
    var longer := Values(rot[..t + 2]);
    assert longer[..t + 1] == Values(rot[..t + 1]);
    assert longer[t + 1] == ValueOf(v);
    assert Values(prefList + [v]) == Values(prefList) + [ValueOf(v)];
    assert v in s;
    assert Elements(prefList + [v]) == Elements(prefList) + {v};
  }

  lemma LapDone(cfg: Config, r: RingState, key: string, s: seq<VirtualNode>, t: nat, node: VirtualNode,
                prefList: seq<VirtualNode>)
    requires r.vs == Values(s) && s != [] && EnoughIds(cfg, r)
    requires Walked(s, SearchIndex(r.vs, cfg.hash(key)), t, node, prefList)
    requires |prefList| == PreferenceSize(cfg, r)
    ensures Values(prefList) == PreferenceList(cfg, r, key)
  {
    var start := SearchIndex(r.vs, cfg.hash(key));
    ValuesRotate(s, start);
    var rot := Values(Rotate(s, start));
    assert rot[..t + 1] == Values(Rotate(s, start)[..t + 1]);
    DedupPrefix(rot, t + 1);
  }

  lemma GrownMembers(before: seq<VirtualNode>, ls: seq<VirtualNode>, spine: seq<VirtualNode>)
    requires Grown(before, ls, spine)
    ensures forall v :: v in before ==> v in spine
    ensures forall v :: v in ls ==> v in spine && v !in before
    ensures forall v :: v in spine ==> v in before || v in ls
    ensures ls != [] && before != [] ==> |spine| >= 2
  {
    WithoutMembers(spine, Elements(ls));
    forall v | v in ls ensures v in spine && v !in before {
      assert v in Elements(ls);
      assert v in Elements(spine);
    }
    if ls != [] && before != [] {
      assert ls[0] in spine && before[0] in spine;
      assert IndexOf(spine, ls[0]) != IndexOf(spine, before[0]);
    }
  }

  ghost function NoticesOf(spine: seq<VirtualNode>, ls: seq<VirtualNode>): seq<ReallocationNotice>
    requires Elements(ls) <= Elements(spine)
  {
    if ls == [] then []
    else
      var last := ls[|ls| - 1];
      assert last in Elements(ls);
      var target := Predecessor(spine, last);
      NoticesOf(spine, ls[..|ls| - 1])
      + if target.NodeId == last.NodeId then [] else [ReallocationNotice(target, last)]
  }

  /** The positions of the new nodes that take over from another id: the node in front of them, the tail
      in front of the head, is not the newcomer's own. */
  ghost function TakingOver(spine: seq<VirtualNode>, ls: seq<VirtualNode>): set<nat> {
    set i: nat | i < |ls| && ls[i] in spine && Predecessor(spine, ls[i]).NodeId != ls[i].NodeId
  }

  /** The notices name, in order and once each, exactly the new nodes that take over, with the nodes in
      front of them. */
  ghost predicate Notified(spine: seq<VirtualNode>, ls: seq<VirtualNode>, ns: seq<ReallocationNotice>) {
    exists idx :: Increasing(idx, TakingOver(spine, ls)) && NotifiedAt(spine, ls, ns, idx)
  }

  ghost predicate NotifiedAt(spine: seq<VirtualNode>, ls: seq<VirtualNode>, ns: seq<ReallocationNotice>,
                             idx: seq<nat>)
  {
    && |ns| == |idx|
    && forall k :: 0 <= k < |idx| ==>
         && idx[k] < |ls| && ls[idx[k]] in spine
         && ns[k].NewNode == ls[idx[k]] && ns[k].TargetNode == Predecessor(spine, ls[idx[k]])
  }

  lemma TakingOverSnoc(spine: seq<VirtualNode>, ls: seq<VirtualNode>, v: VirtualNode)
    requires v in spine
    ensures TakingOver(spine, ls + [v])
            == TakingOver(spine, ls) + if Predecessor(spine, v).NodeId != v.NodeId then {|ls|} else {}
  {
    assert forall i :: 0 <= i < |ls| ==> (ls + [v])[i] == ls[i];
  }

  lemma {:induction false} NoticePositions(spine: seq<VirtualNode>, ls: seq<VirtualNode>) returns (idx: seq<nat>)
    requires Elements(ls) <= Elements(spine)
    ensures Increasing(idx, TakingOver(spine, ls)) && NotifiedAt(spine, ls, NoticesOf(spine, ls), idx)
  {
    idx := [];
    if ls != [] {
      var front, last := ls[..|ls| - 1], ls[|ls| - 1];
      assert last in Elements(ls) && ls == front + [last];
      idx := NoticePositions(spine, front);
      TakingOverSnoc(spine, front, last);
      if Predecessor(spine, last).NodeId != last.NodeId {
        IncreasingSnoc(idx, TakingOver(spine, front), |front|);
        idx := idx + [|front|];
      }
    }
  }

  lemma NoticesAreNotified(spine: seq<VirtualNode>, ls: seq<VirtualNode>)
    requires Elements(ls) <= Elements(spine)
    ensures Notified(spine, ls, NoticesOf(spine, ls))
  {
    var idx := NoticePositions(spine, ls);
  }

  /** One node for each index from 0, named after it and placed by the hash of that name. */
  ghost predicate Numbered(cfg: Config, name: string, id: UInt64, ls: seq<VirtualNode>) {
    && |ls| == cfg.numVirtualNodes
    && forall i :: 0 <= i < |ls| ==>
         && ls[i].VirtualName == VirtualName(name, i) && ls[i].NodeId == id
         && ls[i].Hash == cfg.hash(VirtualName(name, i))
  }

  lemma AreNumbered(cfg: Config, name: string, id: UInt64, ls: seq<VirtualNode>)
    requires Values(ls) == VNodesOf(cfg, name, id)
    ensures Numbered(cfg, name, id, ls)
  {
    assert forall i :: 0 <= i < |ls| ==> ValueOf(ls[i]) == VNodesOf(cfg, name, id)[i];
  }

  /** `spine` is `before` with the new nodes `ls` linked in somewhere. */
  ghost predicate Grown(before: seq<VirtualNode>, ls: seq<VirtualNode>, spine: seq<VirtualNode>) {
    && Distinct(ls)
    && Elements(ls) <= Elements(spine)
    && Without(spine, Elements(ls)) == before
  }

  lemma GrownStart(before: seq<VirtualNode>)
    ensures Grown(before, [], before)
  {
    assert Elements<VirtualNode>([]) == {};
    WithoutNone(before, {});
  }

  lemma GrownStep(before: seq<VirtualNode>, ls: seq<VirtualNode>, s: seq<VirtualNode>, k: nat, v: VirtualNode)
    requires Grown(before, ls, s) && v !in s && k <= |s|
    ensures Grown(before, ls + [v], Splice(s, k, v))
  {
    SpliceMembers(s, k, v);
    WithoutSpliceNew(s, k, v, ls);
    assert v !in ls by {
      assert v in ls ==> v in Elements(ls);
    }
    forall x | x in Elements(ls + [v]) ensures x in Elements(Splice(s, k, v)) {
      assert x in Elements(ls) || x == v;
    }
  }

  lemma ValuesStep(before: seq<VirtualNode>, ls: seq<VirtualNode>, s: seq<VirtualNode>, v: VirtualNode,
                   all: seq<VNode>, i: nat)
    requires i < |all| && ValueOf(v) == all[i]
    requires Values(ls) == all[..i] && Values(s) == InsertAll(Values(before), all[..i])
    ensures Values(ls + [v]) == all[..i + 1]
    ensures Values(Splice(s, InsertPosition(Values(s), v.Hash), v)) == InsertAll(Values(before), all[..i + 1])
  {
    assert all[..i + 1] == all[..i] + [all[i]];
    assert all[..i + 1][..|all[..i + 1]| - 1] == all[..i];
    ValuesSplice(s, v);
  }
}
