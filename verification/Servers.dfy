/** The membership handlers of the manager and of a node, each working in place on the ring
    its process owns, and proved to take the steps of the Membership protocol. */
module Servers {
  import opened Naming
  import opened Sequences
  import opened RingSpec
  import opened Routing
  import opened RingHeap
  import opened Membership

  /** Whether an id stands in the name map: the loop both sides use as a duplicate check. */
  method FindId(ring: Ring, id: UInt64) returns (exist: bool)
    requires ring.Valid()
    ensures exist <==> KnowsId(ring.Abs(), id)
  {
    exist := false;
    var todo := ring.NodeMap.Keys;
    while todo != {}
      invariant todo <= ring.NodeMap.Keys
      invariant !exist && forall name :: name in ring.NodeMap.Keys - todo ==> ring.NodeMap[name].NodeId != id
    {
      var name :| name in todo;
      if ring.NodeMap[name].NodeId == id {
        exist := true;
        assert ring.Abs().nodeMap[name].id == id;
        break;
      }
      todo := todo - {name};
    }
    assert !exist ==> forall name :: name in ring.Abs().nodeMap ==> ring.Abs().nodeMap[name].id != id;
  }

  /** The ids a range over the name map yields, with the order it took. */
  method RangeIds(ring: Ring) returns (ids: seq<UInt64>, ghost order: seq<string>)
    requires ring.Valid()
    ensures IsOrderOf(order, ring.Abs().nodeMap.Keys)
    ensures ids == IdsInOrder(ring.Abs(), order)
  {
    ids, order := [], [];
    var todo := ring.NodeMap.Keys;
    while todo != {}
      invariant todo <= ring.NodeMap.Keys && IsOrderOf(order, ring.NodeMap.Keys - todo)
      invariant |ids| == |order|
      invariant forall i :: 0 <= i < |ids| ==> order[i] in ring.NodeMap && ids[i] == ring.NodeMap[order[i]].NodeId
    {
      var name :| name in todo;
      ids := ids + [ring.NodeMap[name].NodeId];
      todo, order := todo - {name}, order + [name];
    }
    assert ring.NodeMap.Keys - todo == ring.Abs().nodeMap.Keys;
    assert forall i :: 0 <= i < |ids| ==> ids[i] == ring.Abs().nodeMap[order[i]].id;
  }

  class NodeManager {
    const RingList: Ring

    constructor (cfg: Config)
      ensures RingList.Valid() && RingList.cfg == cfg && RingList.Abs() == EMPTY_RING
      ensures fresh(RingList) && fresh(RingList.Nodes)
    {
      RingList := new Ring(cfg);
    }

    /** `posted` lists the nodes told of the newcomer, in the order they were told; the reply to
        the newcomer is the same list. */
    method AddNodeReq(port: UInt64) returns (accepted: bool, posted: seq<UInt64>, ghost order: seq<string>)
      requires RingList.Valid()
      modifies RingList, RingList.Nodes, RingList.Nodes.Spine
      ensures RingList.Valid()
      ensures accepted <==> !KnowsId(old(RingList.Abs()), port)
      ensures !accepted ==> posted == [] && RingList.Abs() == old(RingList.Abs())
      ensures accepted ==>
                && IsOrderOf(order, old(RingList.Abs()).nodeMap.Keys)
                && posted == IdsInOrder(old(RingList.Abs()), order)
                && RingList.Abs() == AddNode(RingList.cfg, old(RingList.Abs()), Decimal(port), port)
    {
      var exist := FindId(RingList, port);
      accepted, posted, order := !exist, [], [];
      if !exist {
        posted, order := RangeIds(RingList);
        var _, _ := RingList.AddNode(Decimal(port), port);
      }
    }

    /** `posted` lists the remaining nodes told of the leave. */
    method DelNodeReq(port: UInt64) returns (accepted: bool, posted: seq<UInt64>, ghost order: seq<string>)
      requires RingList.Valid()
      modifies RingList, RingList.Nodes, RingList.Nodes.Spine
      ensures RingList.Valid()
      ensures accepted <==> KnowsId(old(RingList.Abs()), port)
      ensures !accepted ==> posted == [] && RingList.Abs() == old(RingList.Abs())
      ensures RingList.Nodes.Spine == if !accepted then old(RingList.Nodes.Spine)
                                      else SpineWithout(old(RingList.Nodes.Spine), old(RingList.NodeMap), Decimal(port))
      ensures RingList.NodeMap == if accepted then old(RingList.NodeMap) - {Decimal(port)} else old(RingList.NodeMap)
      ensures accepted && Distinct(old(RingList.Abs()).vs) ==>
                RingList.Abs() == RemoveNode(old(RingList.Abs()), Decimal(port))
      ensures accepted ==>
                && IsOrderOf(order, RingList.Abs().nodeMap.Keys)
                && posted == if RingList.Abs().vs == [] then [] else IdsInOrder(RingList.Abs(), order)
    {
      var exist := FindId(RingList, port);
      accepted, posted := exist, [];
      if exist {
        RingList.RemoveNode(Decimal(port));
        posted, order := RangeIds(RingList);
        if RingList.Nodes.Length < 1 {
          posted := [];
        }
      } else {
        order := [];
      }
    }

    /** The id handed to the client; None stands for the "Missing key" reply. */
    method GetKey(key: string) returns (node: Option<UInt64>)
      requires RingList.Valid() && RingList.Nodes.Spine != [] && EnoughIds(RingList.cfg, RingList.Abs())
      ensures node == if key == "" then None
                      else Some(PreferenceList(RingList.cfg, RingList.Abs(), key)[0].id)
    {
      if key == "" {
        return None;
      }
      var response := RingList.GetPreferenceList(key);
      assert Values(response)[0].id == response[0].NodeId;
      node := Some(response[0].NodeId);
    }
  }

  class NodesServer {
    const nodeId: UInt64
    const internalAddr: UInt64
    const ring: Ring

    /** `importRing` without a backup file: a new ring holding just this node. */
    constructor (cfg: Config, port: UInt64)
      ensures nodeId == port && internalAddr == GrpcPort(port) && ring.cfg == cfg && ring.Valid()
      ensures ring.Abs() == JoinerRing(cfg, port, [])
      ensures fresh(ring) && fresh(ring.Nodes) && forall v :: v in ring.Nodes.Spine ==> fresh(v)
    {
      var r := new Ring(cfg);
      var _, ls := r.AddNode(Decimal(port), GrpcPort(port));
      GrownMembers([], ls, r.Nodes.Spine);
      nodeId, internalAddr, ring := port, GrpcPort(port), r;
    }

    method Learn(port: UInt64)
      requires ring.Valid()
      modifies ring, ring.Nodes, ring.Nodes.Spine
      ensures ring.Valid() && ring.Abs() == AddNode(ring.cfg, old(ring.Abs()), Decimal(port), GrpcPort(port))
      ensures forall v :: v in ring.Nodes.Spine ==> v in old(ring.Nodes.Spine) || fresh(v)
    {
      var _, ls := ring.AddNode(Decimal(port), GrpcPort(port));
      GrownMembers(old(ring.Nodes.Spine), ls, ring.Nodes.Spine);
    }

    /** `registerNode`: adds every node of the manager's reply. */
    method RegisterNode(others: seq<UInt64>)
      requires ring.Valid() && ring.Abs() == JoinerRing(ring.cfg, nodeId, [])
      modifies ring, ring.Nodes, ring.Nodes.Spine
      ensures ring.Valid() && ring.Abs() == JoinerRing(ring.cfg, nodeId, others)
    {
      for i := 0 to |others|
        invariant ring.Valid() && ring.Abs() == JoinerRing(ring.cfg, nodeId, others[..i])
        invariant forall v :: v in ring.Nodes.Spine ==> v in old(ring.Nodes.Spine) || fresh(v)
      {
        assert others[..i + 1][..i] == others[..i];
        assert forall m :: 0 <= m < |ring.Nodes.Spine| ==> ring.Nodes.Spine[m] in ring.Nodes.Spine;
        Learn(others[i]);
      }
      assert others[..|others|] == others;
    }

    /** Looks at the first entry the map is ranged from, and at no other. */
    method UpdateAddNode(port: UInt64) returns (ok: bool, ghost pick: string)
      requires ring.Valid()
      modifies ring, ring.Nodes, ring.Nodes.Spine
      ensures ring.Valid()
      ensures old(ring.Abs()).nodeMap != map[] ==> pick in old(ring.Abs()).nodeMap
      ensures ok <==> old(ring.Abs()).nodeMap == map[] || old(ring.Abs()).nodeMap[pick].id != GrpcPort(port)
      ensures ring.Abs() == NodeAdd(ring.cfg, old(ring.Abs()), port, pick)
      ensures !ok ==> ring.Nodes.Spine == old(ring.Nodes.Spine) && ring.NodeMap == old(ring.NodeMap)
      ensures ok ==> ring.Abs() == AddNode(ring.cfg, old(ring.Abs()), Decimal(port), GrpcPort(port))
    {
      var exist := false;
      var grpcAddress := GrpcPort(port);
      pick := "";
      if ring.NodeMap.Keys != {} {
        var name :| name in ring.NodeMap.Keys;
        pick := name;
        assert ring.Abs().nodeMap[name].id == ring.NodeMap[name].NodeId;
        if ring.NodeMap[name].NodeId == grpcAddress {
          exist := true;
        }
      }
      assert ring.Abs().nodeMap.Keys == ring.NodeMap.Keys;
      ok := !exist;
      if !exist {
        var _, _ := ring.AddNode(Decimal(port), grpcAddress);
      }
    }

    method UpdateDelNode(port: UInt64) returns (ok: bool)
      requires ring.Valid()
      modifies ring, ring.Nodes, ring.Nodes.Spine
      ensures ring.Valid()
      ensures ok <==> KnowsId(old(ring.Abs()), GrpcPort(port))
      ensures ring.Nodes.Spine == if !ok then old(ring.Nodes.Spine)
                                  else SpineWithout(old(ring.Nodes.Spine), old(ring.NodeMap), Decimal(port))
      ensures ring.NodeMap == if ok then old(ring.NodeMap) - {Decimal(port)} else old(ring.NodeMap)
      ensures Distinct(old(ring.Abs()).vs) ==> ring.Abs() == NodeDel(old(ring.Abs()), port)
    {
      ok := FindId(ring, GrpcPort(port));
      if ok {
        ring.RemoveNode(Decimal(port));
      }
    }

    /** The check in front of doPut and doGet. */
    method HandlesKey(key: string) returns (handles: bool)
      requires ring.Valid() && ring.Nodes.Spine != [] && EnoughIds(ring.cfg, ring.Abs())
      ensures handles <==> IsResponsible(ring.cfg, ring.Abs(), key, internalAddr)
      ensures var p := PreferenceList(ring.cfg, ring.Abs(), key);
              handles <==> exists i :: 0 <= i < |p| && p[i].id == internalAddr
    {
      handles := ring.IsNodeResponsibleForKey(key, internalAddr);
    }
  }
}
