/** Ring membership as a protocol: the manager and every node keep rings of their own, the
    nodes with ids shifted to their gRPC ports, and change them in different orders. */
module Membership {
  import opened Naming
  import opened Sequences
  import opened RingSpec
  import opened Routing
  import opened History
  import opened Preference

  /** `port - 3000` in 64-bit arithmetic. */
  function GrpcPort(port: UInt64): (g: UInt64)
    ensures port >= 3000 ==> g == port - 3000
    ensures (g + 3000) % TWO_TO_THE_64 == port
  {
    (port + TWO_TO_THE_64 - 3000) % TWO_TO_THE_64
  }

  lemma GrpcPortInjective(p: UInt64, q: UInt64)
    requires GrpcPort(p) == GrpcPort(q)
    ensures p == q
  {
  }

  ghost predicate KnowsId(r: RingState, id: UInt64) {
    exists name :: name in r.nodeMap && r.nodeMap[name].id == id
  }

  // ---------- what one process does ----------

  /** Node side of a join. The duplicate check looks at one entry of the name map only:
      `pick`, the first the map happens to be ranged from. */
  function NodeAdd(cfg: Config, r: RingState, port: UInt64, pick: string): RingState
    requires r.nodeMap != map[] ==> pick in r.nodeMap
  {
    if r.nodeMap != map[] && r.nodeMap[pick].id == GrpcPort(port) then r
    else AddNode(cfg, r, Decimal(port), GrpcPort(port))
  }

  /** Node side of a leave. */
  ghost function NodeDel(r: RingState, port: UInt64): RingState {
    if KnowsId(r, GrpcPort(port)) then RemoveNode(r, Decimal(port)) else r
  }

  /** The ring a joining node builds: itself first, then the nodes the manager names. */
  function JoinerRing(cfg: Config, port: UInt64, others: seq<UInt64>): RingState {
    if others == [] then AddNode(cfg, EMPTY_RING, Decimal(port), GrpcPort(port))
    else
      var q := others[|others| - 1];
      AddNode(cfg, JoinerRing(cfg, port, others[..|others| - 1]), Decimal(q), GrpcPort(q))
  }

  // ---------- the whole system ----------

  datatype Cluster = Cluster(manager: RingState, nodes: map<UInt64, RingState>)

  const START := Cluster(EMPTY_RING, map[])

  /** `order` is the order in which the manager ranges over its name map; `picks` says which
      entry each node looks at first. */
  datatype Event =
    | Join(port: UInt64, order: seq<string>, picks: map<UInt64, string>)
    | Leave(port: UInt64, order: seq<string>)

  function IdsInOrder(r: RingState, order: seq<string>): (ids: seq<UInt64>)
    requires forall name :: name in order ==> name in r.nodeMap
    ensures |ids| == |order|
  {
    seq(|order|, i requires 0 <= i < |order| => r.nodeMap[order[i]].id)
  }

  ghost predicate Possible(c: Cluster, e: Event) {
    match e
    case Join(port, order, picks) =>
      && IsOrderOf(order, c.manager.nodeMap.Keys)
      && forall q :: q in c.nodes && c.nodes[q].nodeMap != map[] ==>
           q in picks && picks[q] in c.nodes[q].nodeMap
    case Leave(port, order) =>
      IsOrderOf(order, RemoveNode(c.manager, Decimal(port)).nodeMap.Keys)
  }

  /** Posts a join to the given nodes one after the other. */
  ghost function BroadcastAdd(cfg: Config, nodes: map<UInt64, RingState>, targets: seq<UInt64>, port: UInt64,
                              picks: map<UInt64, string>): map<UInt64, RingState>
  {
    if targets == [] then nodes
    else
      var sofar := BroadcastAdd(cfg, nodes, targets[..|targets| - 1], port, picks);
      var q := targets[|targets| - 1];
      if q in sofar && (sofar[q].nodeMap != map[] ==> q in picks && picks[q] in sofar[q].nodeMap)
      then sofar[q := NodeAdd(cfg, sofar[q], port, if q in picks then picks[q] else "")]
      else sofar
  }

  /** Posts a leave to the given nodes one after the other. */
  ghost function BroadcastDel(nodes: map<UInt64, RingState>, targets: seq<UInt64>, port: UInt64): map<UInt64, RingState>
  {
    if targets == [] then nodes
    else
      var sofar := BroadcastDel(nodes, targets[..|targets| - 1], port);
      var q := targets[|targets| - 1];
      if q in sofar then sofar[q := NodeDel(sofar[q], port)] else sofar
  }

  ghost function Step(cfg: Config, c: Cluster, e: Event): Cluster
    requires Possible(c, e)
  {
    match e
    case Join(port, order, picks) =>
      if KnowsId(c.manager, port) then c
      else
        var posted := IdsInOrder(c.manager, order);
        var nodes := BroadcastAdd(cfg, c.nodes, posted, port, picks);
        Cluster(AddNode(cfg, c.manager, Decimal(port), port), nodes[port := JoinerRing(cfg, port, posted)])
    case Leave(port, order) =>
      if !KnowsId(c.manager, port) then c
      else
        var manager := RemoveNode(c.manager, Decimal(port));
        // a manager whose list is empty tells nobody
        Cluster(manager, if manager.vs == [] then c.nodes
                         else BroadcastDel(c.nodes, IdsInOrder(manager, order), port))
  }

  ghost predicate PossibleRun(cfg: Config, c: Cluster, es: seq<Event>)
    decreases |es|
  {
    es == [] || (Possible(c, es[0]) && PossibleRun(cfg, Step(cfg, c, es[0]), es[1..]))
  }

  ghost function RunFrom(cfg: Config, c: Cluster, es: seq<Event>): Cluster
    requires PossibleRun(cfg, c, es)
    decreases |es|
  {
    if es == [] then c else RunFrom(cfg, Step(cfg, c, es[0]), es[1..])
  }

  // ---------- the invariant ----------

  /** A node's ring knows the manager's names, each id shifted. */
  ghost predicate Tracks(cfg: Config, manager: RingState, r: RingState) {
    && WellFormed(cfg, r)
    && r.nodeMap.Keys == manager.nodeMap.Keys
    && forall name :: name in manager.nodeMap ==> r.nodeMap[name].id == GrpcPort(manager.nodeMap[name].id)
  }

  ghost predicate Reached(cfg: Config, manager: RingState, nodes: map<UInt64, RingState>, port: UInt64) {
    port in nodes && Tracks(cfg, manager, nodes[port])
  }

  ghost predicate NamedByPort(r: RingState) {
    forall name :: name in r.nodeMap ==> name == Decimal(r.nodeMap[name].id)
  }

  ghost predicate Agree(cfg: Config, c: Cluster) {
    && WellFormed(cfg, c.manager)
    && NamedByPort(c.manager)
    && forall name :: name in c.manager.nodeMap ==>
         Reached(cfg, c.manager, c.nodes, c.manager.nodeMap[name].id)
  }

  lemma NameOfPort(r: RingState, port: UInt64)
    requires NamedByPort(r)
    ensures KnowsId(r, port) <==> Decimal(port) in r.nodeMap
    ensures Decimal(port) in r.nodeMap ==> r.nodeMap[Decimal(port)].id == port
  {
    if Decimal(port) in r.nodeMap {
      DecimalInjective(port, r.nodeMap[Decimal(port)].id);
    }
  }

  /** Seen from a node, too, an id is known exactly when its name is. */
  lemma NameOfGrpcPort(cfg: Config, manager: RingState, r: RingState, port: UInt64)
    requires NamedByPort(manager) && Tracks(cfg, manager, r)
    ensures KnowsId(r, GrpcPort(port)) <==> Decimal(port) in manager.nodeMap
  {
    NameOfPort(manager, port);
    if Decimal(port) in manager.nodeMap {
      assert Decimal(port) in r.nodeMap;
    }
    if name :| name in r.nodeMap && r.nodeMap[name].id == GrpcPort(port) {
      GrpcPortInjective(manager.nodeMap[name].id, port);
    }
  }

  // ---------- joins ----------

  lemma NodeAddTracks(cfg: Config, manager: RingState, r: RingState, port: UInt64, pick: string)
    requires NamedByPort(manager) && Tracks(cfg, manager, r) && Decimal(port) !in manager.nodeMap
    requires r.nodeMap != map[] ==> pick in r.nodeMap
    ensures Tracks(cfg, AddNode(cfg, manager, Decimal(port), port), NodeAdd(cfg, r, port, pick))
  {
    NameOfGrpcPort(cfg, manager, r, port);
    AddNodeWellFormed(cfg, r, Decimal(port), GrpcPort(port));
  }

  function NamesOf(ports: seq<UInt64>): set<string> {
    set q | q in ports :: Decimal(q)
  }

  /** What the joining node's ring looks like after adding itself and some of the others. */
  ghost predicate JoinerHas(cfg: Config, r: RingState, port: UInt64, others: seq<UInt64>) {
    && WellFormed(cfg, r)
    && r.nodeMap.Keys == NamesOf(others) + {Decimal(port)}
    && r.nodeMap[Decimal(port)].id == GrpcPort(port)
    && forall q :: q in others ==> Decimal(q) in r.nodeMap && r.nodeMap[Decimal(q)].id == GrpcPort(q)
  }

  lemma {:induction false} JoinerBuilds(cfg: Config, port: UInt64, others: seq<UInt64>)
    requires Distinct(others) && port !in others
    ensures JoinerHas(cfg, JoinerRing(cfg, port, others), port, others)
  {
    if others == [] {
      EmptyWellFormed(cfg);
      AddNodeWellFormed(cfg, EMPTY_RING, Decimal(port), GrpcPort(port));
      assert NamesOf(others) == {};
    } else {
      var front, q := others[..|others| - 1], others[|others| - 1];
      assert others == front + [q];
      JoinerBuilds(cfg, port, front);
      JoinerAdds(cfg, JoinerRing(cfg, port, front), port, front, q);
    }
  }

  lemma NameIsNew(port: UInt64, front: seq<UInt64>, q: UInt64)
    requires q != port && q !in front
    ensures Decimal(q) !in NamesOf(front) + {Decimal(port)}
    ensures NamesOf(front + [q]) == NamesOf(front) + {Decimal(q)}
  {
    forall p | Decimal(p) == Decimal(q) ensures p == q {
      DecimalInjective(p, q);
    }
    assert forall p :: p in front + [q] <==> p in front || p == q;
  }

  lemma JoinerAdds(cfg: Config, r: RingState, port: UInt64, front: seq<UInt64>, q: UInt64)
    requires JoinerHas(cfg, r, port, front) && q != port && q !in front
    ensures JoinerHas(cfg, AddNode(cfg, r, Decimal(q), GrpcPort(q)), port, front + [q])
  {
    NameIsNew(port, front, q);
    AddNodeWellFormed(cfg, r, Decimal(q), GrpcPort(q));
  }

  lemma JoinerTracks(cfg: Config, manager: RingState, order: seq<string>, port: UInt64)
    requires NamedByPort(manager) && IsOrderOf(order, manager.nodeMap.Keys) && !KnowsId(manager, port)
    ensures Tracks(cfg, AddNode(cfg, manager, Decimal(port), port), JoinerRing(cfg, port, IdsInOrder(manager, order)))
  {
    var others := IdsInOrder(manager, order);
    var manager' := AddNode(cfg, manager, Decimal(port), port);
    NamesInOrder(manager, order);
    OrderedIds(manager, order);
    forall i | 0 <= i < |others| ensures others[i] != port {
      assert order[i] in manager.nodeMap;
    }
    JoinerBuilds(cfg, port, others);
    assert manager'.nodeMap.Keys == NamesOf(others) + {Decimal(port)};
    var r := JoinerRing(cfg, port, others);
    forall name | name in manager'.nodeMap ensures r.nodeMap[name].id == GrpcPort(manager'.nodeMap[name].id) {
      if name != Decimal(port) {
        assert manager.nodeMap[name].id in others;
      }
    }
  }

  lemma NamesInOrder(r: RingState, order: seq<string>)
    requires NamedByPort(r) && IsOrderOf(order, r.nodeMap.Keys)
    ensures NamesOf(IdsInOrder(r, order)) == r.nodeMap.Keys
  {
    var ids := IdsInOrder(r, order);
    forall name | name in r.nodeMap ensures name in NamesOf(ids) {
      assert ids[IndexOf(order, name)] == r.nodeMap[name].id;
    }
    forall name | name in NamesOf(ids) ensures name in r.nodeMap {
      var q :| q in ids && name == Decimal(q);
      assert order[IndexOf(ids, q)] in r.nodeMap;
    }
  }

  lemma OrderedIds(r: RingState, order: seq<string>)
    requires NamedByPort(r) && IsOrderOf(order, r.nodeMap.Keys)
    ensures Distinct(IdsInOrder(r, order))
    ensures forall i :: 0 <= i < |order| ==> order[i] == Decimal(IdsInOrder(r, order)[i])
    ensures forall name :: name in r.nodeMap ==> r.nodeMap[name].id in IdsInOrder(r, order)
  {
  }

  lemma {:induction false} BroadcastAddAt(cfg: Config, nodes: map<UInt64, RingState>, targets: seq<UInt64>, port: UInt64,
                                          picks: map<UInt64, string>, q: UInt64)
    requires Distinct(targets) && q in nodes
    requires nodes[q].nodeMap != map[] ==> q in picks && picks[q] in nodes[q].nodeMap
    ensures var after := BroadcastAdd(cfg, nodes, targets, port, picks);
            q in after && after[q] == if q in targets then NodeAdd(cfg, nodes[q], port, if q in picks then picks[q] else "")
                                      else nodes[q]
  {
    if targets != [] {
      var front, last := targets[..|targets| - 1], targets[|targets| - 1];
      assert targets == front + [last];
      BroadcastAddAt(cfg, nodes, front, port, picks, q);
    }
  }

  /** A node that was registered before the join follows it. */
  lemma JoinReaches(cfg: Config, c: Cluster, port: UInt64, order: seq<string>, picks: map<UInt64, string>, name: string)
    requires Agree(cfg, c) && Possible(c, Join(port, order, picks)) && !KnowsId(c.manager, port)
    requires name in c.manager.nodeMap
    ensures var q := c.manager.nodeMap[name].id;
            var nodes := BroadcastAdd(cfg, c.nodes, IdsInOrder(c.manager, order), port, picks);
            q in nodes && Tracks(cfg, AddNode(cfg, c.manager, Decimal(port), port), nodes[q])
  {
    var q := c.manager.nodeMap[name].id;
    NameOfPort(c.manager, port);
    OrderedIds(c.manager, order);
    BroadcastAddAt(cfg, c.nodes, IdsInOrder(c.manager, order), port, picks, q);
    NodeAddTracks(cfg, c.manager, c.nodes[q], port, if q in picks then picks[q] else "");
  }

  lemma JoinedIsReached(cfg: Config, c: Cluster, port: UInt64, order: seq<string>, picks: map<UInt64, string>, name: string)
    requires Agree(cfg, c) && Possible(c, Join(port, order, picks)) && !KnowsId(c.manager, port)
    requires name in AddNode(cfg, c.manager, Decimal(port), port).nodeMap
    ensures var c' := Step(cfg, c, Join(port, order, picks));
            Reached(cfg, c'.manager, c'.nodes, c'.manager.nodeMap[name].id)
  {
    NameOfPort(c.manager, port);
    if name == Decimal(port) {
      JoinerTracks(cfg, c.manager, order, port);
    } else {
      JoinReaches(cfg, c, port, order, picks, name);
      assert c.manager.nodeMap[name].id != port;
    }
  }

  lemma JoinAgrees(cfg: Config, c: Cluster, port: UInt64, order: seq<string>, picks: map<UInt64, string>)
    requires Agree(cfg, c) && Possible(c, Join(port, order, picks))
    ensures Agree(cfg, Step(cfg, c, Join(port, order, picks)))
  {
    if !KnowsId(c.manager, port) {
      var c' := Step(cfg, c, Join(port, order, picks));
      NameOfPort(c.manager, port);
      AddNodeWellFormed(cfg, c.manager, Decimal(port), port);
      assert NamedByPort(c'.manager);
      forall name | name in c'.manager.nodeMap
        ensures Reached(cfg, c'.manager, c'.nodes, c'.manager.nodeMap[name].id)
      {
        JoinedIsReached(cfg, c, port, order, picks, name);
      }
    }
  }

  // ---------- leaves ----------

  lemma NodeDelTracks(cfg: Config, manager: RingState, r: RingState, port: UInt64)
    requires NamedByPort(manager) && Tracks(cfg, manager, r)
    ensures Tracks(cfg, RemoveNode(manager, Decimal(port)), NodeDel(r, port))
  {
    NameOfGrpcPort(cfg, manager, r, port);
    RemoveNodeWellFormed(cfg, r, Decimal(port));
  }

  lemma {:induction false} BroadcastDelAt(nodes: map<UInt64, RingState>, targets: seq<UInt64>, port: UInt64, q: UInt64)
    requires Distinct(targets) && q in nodes
    ensures var after := BroadcastDel(nodes, targets, port);
            q in after && after[q] == if q in targets then NodeDel(nodes[q], port) else nodes[q]
  {
    if targets != [] {
      var front, last := targets[..|targets| - 1], targets[|targets| - 1];
      assert targets == front + [last];
      BroadcastDelAt(nodes, front, port, q);
    }
  }

  lemma NonEmptyList(cfg: Config, r: RingState, name: string)
    requires WellFormed(cfg, r) && cfg.numVirtualNodes > 0 && name in r.nodeMap
    ensures r.vs != []
  {
    var ls := VNodesOf(cfg, name, r.nodeMap[name].id);
    VNodesOfOwner(cfg, name, r.nodeMap[name].id);
    assert ls[0] in ls && Owned(cfg, r.nodeMap, ls[0]);
  }

  lemma LeaveAgrees(cfg: Config, c: Cluster, port: UInt64, order: seq<string>)
    requires Agree(cfg, c) && Possible(c, Leave(port, order)) && cfg.numVirtualNodes > 0
    ensures Agree(cfg, Step(cfg, c, Leave(port, order)))
  {
    if KnowsId(c.manager, port) {
      var c' := Step(cfg, c, Leave(port, order));
      RemoveNodeWellFormed(cfg, c.manager, Decimal(port));
      OrderedIds(c'.manager, order);
      forall name | name in c'.manager.nodeMap
        ensures Reached(cfg, c'.manager, c'.nodes, c'.manager.nodeMap[name].id)
      {
        var q := c.manager.nodeMap[name].id;
        NonEmptyList(cfg, c'.manager, name);
        BroadcastDelAt(c.nodes, IdsInOrder(c'.manager, order), port, q);
        NodeDelTracks(cfg, c.manager, c.nodes[q], port);
      }
    }
  }

  // ---------- every run ----------

  lemma {:induction false} RunAgrees(cfg: Config, c: Cluster, es: seq<Event>)
    requires Agree(cfg, c) && PossibleRun(cfg, c, es) && cfg.numVirtualNodes > 0
    ensures Agree(cfg, RunFrom(cfg, c, es))
    decreases |es|
  {
    if es != [] {
      match es[0] {
        case Join(port, order, picks) => JoinAgrees(cfg, c, port, order, picks);
        case Leave(port, order) => LeaveAgrees(cfg, c, port, order);
      }
      RunAgrees(cfg, Step(cfg, c, es[0]), es[1..]);
    }
  }

  /** The cluster is in this state after some run. */
  ghost predicate Reachable(cfg: Config, c: Cluster) {
    exists es :: PossibleRun(cfg, START, es) && RunFrom(cfg, START, es) == c
  }

  lemma ReachableAgrees(cfg: Config, c: Cluster)
    requires Reachable(cfg, c) && cfg.numVirtualNodes > 0
    ensures Agree(cfg, c)
  {
    var es :| PossibleRun(cfg, START, es) && RunFrom(cfg, START, es) == c;
    EmptyWellFormed(cfg);
    RunAgrees(cfg, START, es);
  }

  function ShiftIds(vs: seq<VNode>): (r: seq<VNode>)
    ensures |r| == |vs|
  {
    seq(|vs|, i requires 0 <= i < |vs| => vs[i].(id := GrpcPort(vs[i].id)))
  }

  lemma TracksShifted(cfg: Config, manager: RingState, r: RingState)
    requires WellFormed(cfg, manager) && Tracks(cfg, manager, r) && HashesApart(manager.vs)
    ensures r.vs == ShiftIds(manager.vs)
  {
    SameNamesSameOrder(cfg, manager, r);
    forall i | 0 <= i < |r.vs| ensures r.vs[i] == ShiftIds(manager.vs)[i] {
      assert r.vs[i] in r.vs && manager.vs[i] in manager.vs;
      assert Owned(cfg, r.nodeMap, r.vs[i]) && Owned(cfg, manager.nodeMap, manager.vs[i]);
      var name := OwnerName(r.vs[i].vname);
      VNodesOfOwner(cfg, name, r.nodeMap[name].id);
      VNodesOfOwner(cfg, name, manager.nodeMap[name].id);
    }
  }

  /** The registered node called `name` has the manager's list, with each id replaced by its gRPC
      port, and the manager's names. */
  ghost predicate Follows(c: Cluster, name: string) {
    && name in c.manager.nodeMap
    && var port := c.manager.nodeMap[name].id;
       && name == Decimal(port) && port in c.nodes
       && c.nodes[port].vs == ShiftIds(c.manager.vs)
       && c.nodes[port].nodeMap.Keys == c.manager.nodeMap.Keys
  }

  lemma AgreeingFollows(cfg: Config, c: Cluster, name: string)
    requires Agree(cfg, c) && name in c.manager.nodeMap && HashesApart(c.manager.vs)
    ensures Follows(c, name)
  {
    TracksShifted(cfg, c.manager, c.nodes[c.manager.nodeMap[name].id]);
  }

  /** Membership convergence: after any sequence of completed joins and leaves every registered
      node follows the manager, so long as the current members' virtual names do not collide. */
  lemma MembershipConvergence(cfg: Config, c: Cluster, name: string)
    requires cfg.numVirtualNodes > 0 && Reachable(cfg, c)
    requires name in c.manager.nodeMap && HashesApart(c.manager.vs)
    ensures Follows(c, name)
  {
    ReachableAgrees(cfg, c);
    AgreeingFollows(cfg, c, name);
  }

  // ---------- routing agreement ----------

  lemma {:induction false} ShiftLowerBound(s: seq<VNode>, h: nat)
    ensures LowerBound(ShiftIds(s), h) == LowerBound(s, h)
  {
    if s != [] {
      ShiftLowerBound(s[1..], h);
      assert ShiftIds(s)[1..] == ShiftIds(s[1..]);
    }
  }

  lemma ShiftHasId(s: seq<VNode>, id: UInt64)
    ensures GrpcPort(id) in Ids(ShiftIds(s)) <==> id in Ids(s)
  {
    if id in Ids(s) {
      var v :| v in s && v.id == id;
      assert ShiftIds(s)[IndexOf(s, v)].id == GrpcPort(id);
    }
    if GrpcPort(id) in Ids(ShiftIds(s)) {
      var w :| w in ShiftIds(s) && w.id == GrpcPort(id);
      var i := IndexOf(ShiftIds(s), w);
      GrpcPortInjective(s[i].id, id);
      assert s[i] in s;
    }
  }

  lemma {:induction false} ShiftDedup(s: seq<VNode>)
    ensures Dedup(ShiftIds(s)) == ShiftIds(Dedup(s))
  {
    if s != [] {
      var front, last := s[..|s| - 1], s[|s| - 1];
      assert ShiftIds(s)[..|s| - 1] == ShiftIds(front);
      ShiftDedup(front);
      ShiftHasId(Dedup(front), last.id);
    }
  }

  /** On the shifted list the same key gets the same preference list, shifted. */
  lemma ShiftPreference(cfg: Config, manager: RingState, r: RingState, key: string)
    requires manager.vs != [] && r.vs == ShiftIds(manager.vs) && |r.nodeMap| == |manager.nodeMap|
    requires EnoughIds(cfg, manager) && EnoughIds(cfg, r)
    ensures PreferenceList(cfg, r, key) == ShiftIds(PreferenceList(cfg, manager, key))
  {
    var h := cfg.hash(key);
    ShiftLowerBound(manager.vs, h);
    var k := SearchIndex(manager.vs, h);
    assert SearchIndex(r.vs, h) == k;
    var rot := Rotate(manager.vs, k);
    assert Rotate(r.vs, k) == ShiftIds(rot);
    ShiftDedup(rot);
    DedupIds(rot);
    RotateElements(manager.vs, k);
  }

  lemma ManagerLoopEnds(cfg: Config, manager: RingState, name: string)
    requires WellFormed(cfg, manager) && NamedByPort(manager) && cfg.numVirtualNodes > 0 && name in manager.nodeMap
    ensures manager.vs != [] && EnoughIds(cfg, manager)
  {
    NonEmptyList(cfg, manager, name);
    WellFormedHasEnoughIds(cfg, manager);
  }

  lemma NodeLoopEnds(cfg: Config, manager: RingState, r: RingState, name: string)
    requires NamedByPort(manager) && Tracks(cfg, manager, r) && cfg.numVirtualNodes > 0 && name in manager.nodeMap
    ensures r.vs != [] && EnoughIds(cfg, r)
  {
    NonEmptyList(cfg, r, name);
    forall m, n | m in r.nodeMap && n in r.nodeMap && r.nodeMap[m].id == r.nodeMap[n].id ensures m == n {
      GrpcPortInjective(manager.nodeMap[m].id, manager.nodeMap[n].id);
    }
    WellFormedHasEnoughIds(cfg, r);
  }

  /** No process of an agreeing cluster hangs in its preference-list loop. */
  lemma AgreeingLoopsEnd(cfg: Config, c: Cluster, name: string)
    requires Agree(cfg, c) && cfg.numVirtualNodes > 0 && name in c.manager.nodeMap
    ensures c.manager.vs != [] && EnoughIds(cfg, c.manager)
    ensures var r := c.nodes[c.manager.nodeMap[name].id]; r.vs != [] && EnoughIds(cfg, r)
  {
    ManagerLoopEnds(cfg, c.manager, name);
    NodeLoopEnds(cfg, c.manager, c.nodes[c.manager.nodeMap[name].id], name);
  }

  /** All processes of an agreeing cluster answer alike. */
  lemma AgreeingPreference(cfg: Config, c: Cluster, name: string, key: string)
    requires Agree(cfg, c) && cfg.numVirtualNodes > 0 && HashesApart(c.manager.vs)
    requires name in c.manager.nodeMap
    ensures c.manager.vs != [] && EnoughIds(cfg, c.manager)
    ensures var r := c.nodes[c.manager.nodeMap[name].id];
            && r.vs != [] && EnoughIds(cfg, r)
            && PreferenceList(cfg, r, key) == ShiftIds(PreferenceList(cfg, c.manager, key))
  {
    var r := c.nodes[c.manager.nodeMap[name].id];
    AgreeingLoopsEnd(cfg, c, name);
    TracksShifted(cfg, c.manager, r);
    assert r.nodeMap.Keys == c.manager.nodeMap.Keys;
    ShiftPreference(cfg, c.manager, r, key);
  }

  /** On any ring, the coordinator's owner is registered. */
  lemma CoordinatorOwner(cfg: Config, r: RingState, key: string) returns (name: string)
    requires WellFormed(cfg, r) && r.vs != [] && EnoughIds(cfg, r)
    ensures name in r.nodeMap && PreferenceList(cfg, r, key)[0].id == r.nodeMap[name].id
  {
    var offs := PreferenceListIsFirstOccurrences(cfg, r, key);
    var v := r.vs[SearchIndex(r.vs, cfg.hash(key))];
    assert v in r.vs && Owned(cfg, r.nodeMap, v);
    name := OwnerName(v.vname);
    VNodesOfOwner(cfg, name, r.nodeMap[name].id);
  }

  /** The process at `port` passes its own responsibility check for the key. */
  ghost predicate Accepts(cfg: Config, nodes: map<UInt64, RingState>, port: UInt64, key: string) {
    && port in nodes
    && nodes[port].vs != [] && EnoughIds(cfg, nodes[port])
    && IsResponsible(cfg, nodes[port], key, GrpcPort(port))
  }

  /** The node that the manager names for the key accepts it. */
  ghost predicate Routed(cfg: Config, c: Cluster, key: string) {
    && c.manager.vs != [] && EnoughIds(cfg, c.manager)
    && Accepts(cfg, c.nodes, PreferenceList(cfg, c.manager, key)[0].id, key)
  }

  lemma ShiftedFirst(p: seq<VNode>)
    requires p != []
    ensures GrpcPort(p[0].id) in Ids(ShiftIds(p))
  {
    assert ShiftIds(p)[0] in ShiftIds(p);
  }

  lemma TrackingAccepts(cfg: Config, manager: RingState, r: RingState, key: string, name: string)
    requires WellFormed(cfg, manager) && Tracks(cfg, manager, r) && HashesApart(manager.vs)
    requires manager.vs != [] && EnoughIds(cfg, manager) && r.vs != [] && EnoughIds(cfg, r)
    requires name in manager.nodeMap && PreferenceList(cfg, manager, key)[0].id == manager.nodeMap[name].id
    ensures IsResponsible(cfg, r, key, GrpcPort(manager.nodeMap[name].id))
  {
    TracksShifted(cfg, manager, r);
    assert r.nodeMap.Keys == manager.nodeMap.Keys;
    ShiftPreference(cfg, manager, r, key);
    ShiftedFirst(PreferenceList(cfg, manager, key));
  }

  lemma AgreeingRoute(cfg: Config, c: Cluster, key: string)
    requires Agree(cfg, c) && cfg.numVirtualNodes > 0 && HashesApart(c.manager.vs) && c.manager.vs != []
    ensures Routed(cfg, c, key)
  {
    assert c.manager.vs[0] in c.manager.vs && Owned(cfg, c.manager.nodeMap, c.manager.vs[0]);
    ManagerLoopEnds(cfg, c.manager, OwnerName(c.manager.vs[0].vname));
    var name := CoordinatorOwner(cfg, c.manager, key);
    AgreeingLoopsEnd(cfg, c, name);
    TrackingAccepts(cfg, c.manager, c.nodes[c.manager.nodeMap[name].id], key, name);
  }

  /** Routing agreement: in every reachable state the node the manager names for a key accepts
      the key, although its own ring carries other ids. */
  lemma RoutingAgreement(cfg: Config, c: Cluster, key: string)
    requires cfg.numVirtualNodes > 0 && Reachable(cfg, c)
    requires c.manager.vs != [] && HashesApart(c.manager.vs)
    ensures Routed(cfg, c, key)
  {
    ReachableAgrees(cfg, c);
    AgreeingRoute(cfg, c, key);
  }

  /** The registered nodes that accept the key. */
  ghost function AcceptingNames(cfg: Config, c: Cluster, key: string): set<string> {
    set name | name in c.manager.nodeMap && Accepts(cfg, c.nodes, c.manager.nodeMap[name].id, key)
  }

  /** The manager's list has an entry with this node's port. */
  ghost predicate ListedByManager(cfg: Config, c: Cluster, key: string, port: UInt64)
    requires c.manager.vs != [] && EnoughIds(cfg, c.manager)
  {
    var p := PreferenceList(cfg, c.manager, key);
    exists i :: 0 <= i < |p| && p[i].id == port
  }

  /** The process at `port` works from the manager's list with the ids shifted. */
  ghost predicate SharesList(cfg: Config, c: Cluster, key: string, port: UInt64)
    requires c.manager.vs != [] && EnoughIds(cfg, c.manager)
  {
    && port in c.nodes && c.nodes[port].vs != [] && EnoughIds(cfg, c.nodes[port])
    && PreferenceList(cfg, c.nodes[port], key) == ShiftIds(PreferenceList(cfg, c.manager, key))
  }

  lemma RegisteredShares(cfg: Config, c: Cluster, key: string, name: string)
    requires Agree(cfg, c) && cfg.numVirtualNodes > 0 && HashesApart(c.manager.vs)
    requires name in c.manager.nodeMap
    ensures c.manager.vs != [] && EnoughIds(cfg, c.manager)
    ensures SharesList(cfg, c, key, c.manager.nodeMap[name].id)
  {
    AgreeingPreference(cfg, c, name, key);
    assert Reached(cfg, c.manager, c.nodes, c.manager.nodeMap[name].id);
  }

  lemma AcceptsIffListed(cfg: Config, c: Cluster, key: string, port: UInt64)
    requires c.manager.vs != [] && EnoughIds(cfg, c.manager) && SharesList(cfg, c, key, port)
    ensures Accepts(cfg, c.nodes, port, key) <==> ListedByManager(cfg, c, key, port)
  {
    ResponsibleShifted(cfg, c.nodes[port], key, PreferenceList(cfg, c.manager, key), port);
  }

  lemma ResponsibleShifted(cfg: Config, r: RingState, key: string, p: seq<VNode>, port: UInt64)
    requires r.vs != [] && EnoughIds(cfg, r) && PreferenceList(cfg, r, key) == ShiftIds(p)
    ensures IsResponsible(cfg, r, key, GrpcPort(port)) <==> exists i :: 0 <= i < |p| && p[i].id == port
  {
    ShiftedEntries(p, port);
    ResponsibleIff(cfg, r, key, GrpcPort(port));
  }

  lemma ShiftedEntries(p: seq<VNode>, port: UInt64)
    ensures (exists i :: 0 <= i < |p| && p[i].id == port)
            <==> exists i :: 0 <= i < |ShiftIds(p)| && ShiftIds(p)[i].id == GrpcPort(port)
  {
    if i :| 0 <= i < |p| && p[i].id == port {
      assert ShiftIds(p)[i].id == GrpcPort(port);
    }
    if i :| 0 <= i < |ShiftIds(p)| && ShiftIds(p)[i].id == GrpcPort(port) {
      GrpcPortInjective(p[i].id, port);
    }
  }

  /** Every listed port is registered, under its own name. */
  lemma ListedIsRegistered(cfg: Config, r: RingState, key: string, v: VNode)
    requires WellFormed(cfg, r) && NamedByPort(r) && r.vs != [] && EnoughIds(cfg, r)
    requires v in PreferenceList(cfg, r, key)
    ensures Decimal(v.id) in r.nodeMap && r.nodeMap[Decimal(v.id)].id == v.id
  {
    var offs := PreferenceListIsFirstOccurrences(cfg, r, key);
    var start := SearchIndex(r.vs, cfg.hash(key));
    RotateElements(r.vs, start);
    var p := PreferenceList(cfg, r, key);
    assert v == Rotate(r.vs, start)[offs[IndexOf(p, v)]];
    assert v in Rotate(r.vs, start) && Owned(cfg, r.nodeMap, v);
    VNodesOfOwner(cfg, OwnerName(v.vname), r.nodeMap[OwnerName(v.vname)].id);
  }

  function NamesOfList(p: seq<VNode>): seq<string> {
    seq(|p|, i requires 0 <= i < |p| => Decimal(p[i].id))
  }

  lemma NamesCounted(p: seq<VNode>)
    requires DistinctIds(p)
    ensures |Elements(NamesOfList(p))| == |p|
  {
    forall i, j | 0 <= i < j < |p| ensures NamesOfList(p)[i] != NamesOfList(p)[j] {
      if Decimal(p[i].id) == Decimal(p[j].id) {
        DecimalInjective(p[i].id, p[j].id);
      }
    }
    DistinctSize(NamesOfList(p));
  }

  /** In every reachable state exactly the registered nodes on the manager's list for a key accept it, as
      many as the list is long; every other registered node refuses. */
  lemma AcceptingNodes(cfg: Config, c: Cluster, key: string)
    requires cfg.numVirtualNodes > 0 && Reachable(cfg, c)
    requires c.manager.vs != [] && HashesApart(c.manager.vs)
    ensures EnoughIds(cfg, c.manager)
    ensures AcceptedAsListed(cfg, c, key)
    ensures |AcceptingNames(cfg, c, key)| == |PreferenceList(cfg, c.manager, key)|
  {
    ReachableAgrees(cfg, c);
    AgreeingHasEnough(cfg, c);
    AllShareList(cfg, c, key);
    AcceptedWhereListed(cfg, c, key);
    AcceptingNamesAre(cfg, c, key);
  }

  ghost predicate AllShare(cfg: Config, c: Cluster, key: string)
    requires c.manager.vs != [] && EnoughIds(cfg, c.manager)
  {
    forall name :: name in c.manager.nodeMap ==> SharesList(cfg, c, key, c.manager.nodeMap[name].id)
  }

  lemma AllShareList(cfg: Config, c: Cluster, key: string)
    requires Agree(cfg, c) && cfg.numVirtualNodes > 0 && HashesApart(c.manager.vs)
    requires c.manager.vs != [] && EnoughIds(cfg, c.manager)
    ensures AllShare(cfg, c, key)
  {
    forall name | name in c.manager.nodeMap ensures SharesList(cfg, c, key, c.manager.nodeMap[name].id) {
      RegisteredShares(cfg, c, key, name);
    }
  }

  /** A node accepts exactly if the manager lists it. */
  ghost predicate AcceptedAsListed(cfg: Config, c: Cluster, key: string)
    requires c.manager.vs != [] && EnoughIds(cfg, c.manager)
  {
    forall name :: name in c.manager.nodeMap ==>
      (name in AcceptingNames(cfg, c, key) <==> ListedByManager(cfg, c, key, c.manager.nodeMap[name].id))
  }

  lemma AcceptedWhereListed(cfg: Config, c: Cluster, key: string)
    requires c.manager.vs != [] && EnoughIds(cfg, c.manager)
    requires AllShare(cfg, c, key)
    ensures AcceptedAsListed(cfg, c, key)
  {
    forall name | name in c.manager.nodeMap
      ensures name in AcceptingNames(cfg, c, key) <==> ListedByManager(cfg, c, key, c.manager.nodeMap[name].id)
    {
      AcceptsIffListed(cfg, c, key, c.manager.nodeMap[name].id);
    }
  }

  lemma AgreeingHasEnough(cfg: Config, c: Cluster)
    requires Agree(cfg, c) && cfg.numVirtualNodes > 0 && c.manager.vs != []
    ensures EnoughIds(cfg, c.manager)
  {
    assert c.manager.vs[0] in c.manager.vs && Owned(cfg, c.manager.nodeMap, c.manager.vs[0]);
    ManagerLoopEnds(cfg, c.manager, OwnerName(c.manager.vs[0].vname));
  }

  lemma AcceptingNamesAre(cfg: Config, c: Cluster, key: string)
    requires WellFormed(cfg, c.manager) && NamedByPort(c.manager)
    requires c.manager.vs != [] && EnoughIds(cfg, c.manager)
    requires AcceptedAsListed(cfg, c, key)
    ensures |AcceptingNames(cfg, c, key)| == |PreferenceList(cfg, c.manager, key)|
  {
    var p := PreferenceList(cfg, c.manager, key);
    var names := Elements(NamesOfList(p));
    forall name | name in names ensures name in AcceptingNames(cfg, c, key) {
      var i := IndexOf(NamesOfList(p), name);
      ListedIsRegistered(cfg, c.manager, key, p[i]);
      assert ListedByManager(cfg, c, key, p[i].id);
    }
    forall name | name in AcceptingNames(cfg, c, key) ensures name in names {
      var i :| 0 <= i < |p| && p[i].id == c.manager.nodeMap[name].id;
      assert NamesOfList(p)[i] == name;
    }
    assert names == AcceptingNames(cfg, c, key);
    var offs := PreferenceListIsFirstOccurrences(cfg, c.manager, key);
    NamesCounted(p);
  }

  // ---------- why the hashes must be apart ----------

  lemma TwoJoins(cfg: Config, p: UInt64, q: UInt64)
    requires p != q
    ensures var es := [Join(p, [], map[]), Join(q, [Decimal(p)], map[p := Decimal(p)])];
            && PossibleRun(cfg, START, es)
            && var c := RunFrom(cfg, START, es);
               && c.manager == AddNode(cfg, AddNode(cfg, EMPTY_RING, Decimal(p), p), Decimal(q), q)
               && q in c.nodes && c.nodes[q] == JoinerRing(cfg, q, [p])
  {
    var e1, e2 := Join(p, [], map[]), Join(q, [Decimal(p)], map[p := Decimal(p)]);
    var es := [e1, e2];
    var c1 := Step(cfg, START, e1);
    assert c1.manager == AddNode(cfg, EMPTY_RING, Decimal(p), p);
    assert c1.nodes == map[p := JoinerRing(cfg, p, [])];
    assert c1.manager.nodeMap.Keys == {Decimal(p)};
    assert Possible(c1, e2);
    assert IdsInOrder(c1.manager, [Decimal(p)]) == [p];
    assert es[1..] == [e2] && [e2][1..] == [];
    var c2 := Step(cfg, c1, e2);
    assert RunFrom(cfg, c2, []) == c2;
    assert PossibleRun(cfg, c1, [e2]) && RunFrom(cfg, c1, [e2]) == c2;
  }

  lemma DifferentHeads(a: seq<VNode>, b: seq<VNode>, p: UInt64, q: UInt64)
    requires |a| > 0 && |b| > 0 && a[0].id == GrpcPort(q) && b[0].id == p && p != q
    ensures a != ShiftIds(b)
  {
    assert ShiftIds(b)[0].id == GrpcPort(p);
    if GrpcPort(p) == GrpcPort(q) {
      GrpcPortInjective(p, q);
    }
  }

  /** The joining node adds itself first and then the others in the order of the reply. */
  function JoinerOps(port: UInt64, others: seq<UInt64>): seq<RingOp> {
    seq(|others| + 1, i requires 0 <= i <= |others| =>
      var q := if i == 0 then port else others[i - 1]; Add(Decimal(q), GrpcPort(q)))
  }

  lemma {:induction false} JoinerIsRun(cfg: Config, port: UInt64, others: seq<UInt64>)
    ensures JoinerRing(cfg, port, others) == Run(cfg, JoinerOps(port, others))
  {
    var ops := JoinerOps(port, others);
    if others == [] {
      assert ops[..0] == [] && Run(cfg, []) == EMPTY_RING;
    } else {
      JoinerIsRun(cfg, port, others[..|others| - 1]);
      assert ops[..|others|] == JoinerOps(port, others[..|others| - 1]);
    }
  }

  lemma JoinerOfOne(cfg: Config, p: UInt64, q: UInt64)
    ensures JoinerRing(cfg, q, [p])
            == AddNode(cfg, AddNode(cfg, EMPTY_RING, Decimal(q), GrpcPort(q)), Decimal(p), GrpcPort(p))
  {
    assert [p][..0] == [];
  }

  /** When every name hashes alike, two joins suffice to part the manager's list from the second
      node's: the one has the nodes in order of arrival, the other starts with itself. */
  lemma CollidingNodesDisagree(cfg: Config, p: UInt64, q: UInt64)
    requires p != q && cfg.numVirtualNodes == 1 && forall s :: cfg.hash(s) == 0
    ensures exists c :: Reachable(cfg, c) && Decimal(q) in c.manager.nodeMap && !Follows(c, Decimal(q))
  {
    var es := [Join(p, [], map[]), Join(q, [Decimal(p)], map[p := Decimal(p)])];
    TwoJoins(cfg, p, q);
    var c := RunFrom(cfg, START, es);
    JoinerOfOne(cfg, p, q);
    TwoAdded(cfg, Decimal(p), p, Decimal(q), q);
    TwoAdded(cfg, Decimal(q), GrpcPort(q), Decimal(p), GrpcPort(p));
    DifferentHeads(c.nodes[q].vs, c.manager.vs, p, q);
    assert c.manager.nodeMap[Decimal(q)].id == q;
    assert Reachable(cfg, c) && !Follows(c, Decimal(q));
  }
}
