/** Ring, membership and quorums together: what a client may rely on whichever nodes it talks to. */
module EndToEnd {
  import opened Naming
  import opened Sequences
  import opened RingSpec
  import opened Routing
  import opened Disruption
  import opened History
  import opened Preference
  import opened Membership
  import opened Quorum
  import opened KeyHistories
  import opened ReadAfterWrite

  /** `p` is the preference list the process with ring `r` works from. */
  ghost predicate WorksFrom(cfg: Config, r: RingState, key: string, p: seq<VNode>) {
    r.vs != [] && EnoughIds(cfg, r) && p == PreferenceList(cfg, r, key)
  }

  /** The ring of the registered node called `name`. */
  ghost function RingOf(c: Cluster, name: string): RingState
    requires name in c.manager.nodeMap
  {
    var port := c.manager.nodeMap[name].id;
    if port in c.nodes then c.nodes[port] else EMPTY_RING
  }

  lemma ListFacts(cfg: Config, r: RingState, key: string, p: seq<VNode>)
    requires WorksFrom(cfg, r, key, p) && cfg.replicationFactor >= 1
    ensures DistinctIds(p) && |p| <= cfg.replicationFactor
  {
    var offs := PreferenceListIsFirstOccurrences(cfg, r, key);
  }

  /** Any two registered nodes of an agreeing cluster work from the same list. */
  lemma SameListEverywhere(cfg: Config, c: Cluster, key: string, m: string, n: string, p: seq<VNode>, q: seq<VNode>)
    requires Agree(cfg, c) && cfg.numVirtualNodes > 0 && HashesApart(c.manager.vs)
    requires m in c.manager.nodeMap && n in c.manager.nodeMap
    requires WorksFrom(cfg, RingOf(c, m), key, p) && WorksFrom(cfg, RingOf(c, n), key, q)
    ensures p == q
  {
    AgreeingPreference(cfg, c, m, key);
    AgreeingPreference(cfg, c, n, key);
  }

  /** In this state one registered node works from list `p` for the key and another from `q`. */
  ghost predicate Coordinate(cfg: Config, c: Cluster, key: string, writer: string, reader: string,
                             p: seq<VNode>, q: seq<VNode>)
  {
    && Reachable(cfg, c) && HashesApart(c.manager.vs)
    && writer in c.manager.nodeMap && reader in c.manager.nodeMap
    && WorksFrom(cfg, RingOf(c, writer), key, p) && WorksFrom(cfg, RingOf(c, reader), key, q)
  }

  lemma CoordinatorsShareList(cfg: Config, c: Cluster, key: string, writer: string, reader: string,
                              p: seq<VNode>, q: seq<VNode>)
    requires cfg.numVirtualNodes > 0 && cfg.replicationFactor >= 1
    requires Coordinate(cfg, c, key, writer, reader, p, q)
    ensures p == q && DistinctIds(p) && |p| <= cfg.replicationFactor
  {
    ReachableAgrees(cfg, c);
    SameListEverywhere(cfg, c, key, writer, reader, p, q);
    ListFacts(cfg, RingOf(c, writer), key, p);
  }

  /** In every reachable state, with the documented rule that the replication factor is below
      MIN_WRITES + MIN_READS: one registered node coordinates a write that is acknowledged MIN_WRITES
      times, and later another coordinates a read that gathers MIN_READS replies, although the two
      consult rings of their own; the membership is that of `c` for both. The read never answers
      "not found" or "all down"; it answers "insufficient" exactly if some replies were empty, and
      otherwise with versions. It receives the write, if every delivery keeps the clock it finds,
      and is sure to return it if the whole list has acknowledged it. */
  lemma ReadSeesWriteAnywhere(cfg: Config, c: Cluster, key: string, writer: string, reader: string,
                              h: KeyHistory, w: Write, p: seq<VNode>, puts: seq<Turn<PutAnswer>>,
                              q: seq<VNode>, gets: seq<Turn<GetAnswer>>, minWrites: int, minReads: int, nodeId: UInt64)
    requires cfg.numVirtualNodes > 0 && 1 <= cfg.replicationFactor < minWrites + minReads
    requires Coordinate(cfg, c, key, writer, reader, p, q)
    requires WriteAndRead(h, w, p, puts, q, gets)
    requires CountOk(puts) >= minWrites && CountReplies(gets) >= minReads
    ensures Replicas(gets) != []
    ensures KeepsClocks(h.start, h.deliveries) ==> SeesTheWrite(h, w, puts, gets)
    ensures var result := ReadAnswer(gets, minReads, nodeId);
            && (result == Insufficient <==> |Replicas(gets)| < minReads)
            && (result != Insufficient ==> result.Read?)
            && (CountOk(puts) >= |p| ==>
                  result.Read? && (KeepsClocks(h.start, h.deliveries) ==> ReturnsTheWrite(h, w, puts, result)))
  {
    CoordinatorsShareList(cfg, c, key, writer, reader, p, q);
    QuorumOnList(h, w, p, puts, gets);
    AnswerOf(h, w, p, puts, gets, minReads, nodeId);
  }

  /** What is returned to the client is another matter: between any two coordinators of a reachable
      state, a read is sure to return an acknowledged write exactly if MIN_WRITES is the length of
      the key's list. */
  lemma ReadReturnsWriteAnywhereIff(cfg: Config, c: Cluster, key: string, writer: string, reader: string,
                                    write: Write, p: seq<VNode>, q: seq<VNode>, minWrites: nat, minReads: nat,
                                    nodeId: UInt64)
    requires cfg.numVirtualNodes > 0 && cfg.replicationFactor >= 1
    requires Coordinate(cfg, c, key, writer, reader, p, q)
    requires minWrites <= |p| && 1 <= minReads <= |q|
    ensures (forall h, puts, gets ::
               && WriteAndRead(h, write, p, puts, q, gets) && KeepsClocks(h.start, h.deliveries)
               && CountOk(puts) == minWrites && CountReplies(gets) == minReads ==>
               ReturnsTheWrite(h, write, puts, ReadAnswer(gets, minReads, nodeId)))
            <==> minWrites == |p|
  {
    CoordinatorsShareList(cfg, c, key, writer, reader, p, q);
    ReadReturnsWriteIff(write, p, minWrites, minReads, nodeId);
  }

  // ---------- a join between the write and the read ----------

  /** A new node joins, and in the manager's ring the key's coordinator stays where it is. */
  ghost predicate JoinsAside(cfg: Config, c: Cluster, c': Cluster, port: UInt64, key: string) {
    && Reachable(cfg, c) && !KnowsId(c.manager, port)
    && (exists order, picks :: Possible(c, Join(port, order, picks)) && c' == Step(cfg, c, Join(port, order, picks)))
    && HashesApart(c'.manager.vs) && c.manager.vs != [] && c'.manager.vs != []
    && Coordinator(c'.manager.vs, cfg.hash(key)) == Coordinator(c.manager.vs, cfg.hash(key))
  }

  lemma JoinFacts(cfg: Config, c: Cluster, c': Cluster, port: UInt64, key: string)
    requires JoinsAside(cfg, c, c', port, key) && cfg.numVirtualNodes > 0
    ensures Agree(cfg, c) && Agree(cfg, c') && HashesApart(c.manager.vs)
    ensures c'.manager == AddNode(cfg, c.manager, Decimal(port), port)
    ensures Decimal(port) !in c.manager.nodeMap && port !in Ids(c.manager.vs)
  {
    ReachableAgrees(cfg, c);
    var order, picks :| Possible(c, Join(port, order, picks)) && c' == Step(cfg, c, Join(port, order, picks));
    JoinAgrees(cfg, c, port, order, picks);
    NameOfPort(c.manager, port);
    StillApart(c.manager.vs, VNodesOf(cfg, Decimal(port), port));
    UnknownId(cfg, c.manager, port);
  }

  lemma StillApart(s: seq<VNode>, ls: seq<VNode>)
    requires HashesApart(InsertAll(s, ls))
    ensures HashesApart(s)
  {
    InsertAllMembers(s, ls);
  }

  lemma UnknownId(cfg: Config, r: RingState, id: UInt64)
    requires WellFormed(cfg, r) && !KnowsId(r, id)
    ensures id !in Ids(r.vs)
  {
    forall v | v in r.vs ensures v.id != id {
      assert Owned(cfg, r.nodeMap, v);
      var name := OwnerName(v.vname);
      VNodesOfOwner(cfg, name, r.nodeMap[name].id);
    }
  }

  /** The two lists are the manager's before and after, shifted. */
  lemma ListsOfManager(cfg: Config, c: Cluster, key: string, name: string, p: seq<VNode>)
    requires Agree(cfg, c) && HashesApart(c.manager.vs) && cfg.numVirtualNodes > 0
    requires name in c.manager.nodeMap && WorksFrom(cfg, RingOf(c, name), key, p)
    ensures c.manager.vs != [] && EnoughIds(cfg, c.manager) && p == ShiftIds(PreferenceList(cfg, c.manager, key))
  {
    AgreeingPreference(cfg, c, name, key);
  }

  /** The reader's list holds nobody new but the newcomer. */
  lemma ListAfterJoin(cfg: Config, c: Cluster, c': Cluster, port: UInt64, key: string, writer: string, reader: string,
                      p: seq<VNode>, q: seq<VNode>)
    requires JoinsAside(cfg, c, c', port, key) && cfg.numVirtualNodes > 0
    requires writer in c.manager.nodeMap && WorksFrom(cfg, RingOf(c, writer), key, p)
    requires reader in c'.manager.nodeMap && WorksFrom(cfg, RingOf(c', reader), key, q)
    ensures Ids(q) <= Ids(p) + {GrpcPort(port)}
  {
    JoinFacts(cfg, c, c', port, key);
    ListsOfManager(cfg, c, key, writer, p);
    ListsOfManager(cfg, c', key, reader, q);
    ShiftedLists(cfg, c.manager, c'.manager, port, key, p, q);
  }

  lemma OneMore(a: set<UInt64>, b: set<UInt64>, x: UInt64)
    requires b <= a + {x}
    ensures |a + b| <= |a| + 1
  {
    SubsetSize(a + b, a + {x});
  }

  lemma ShiftedLists(cfg: Config, r: RingState, r': RingState, port: UInt64, key: string, p: seq<VNode>, q: seq<VNode>)
    requires WellFormed(cfg, r) && r.vs != [] && Decimal(port) !in r.nodeMap && port !in Ids(r.vs)
    requires cfg.numVirtualNodes > 0 && r' == AddNode(cfg, r, Decimal(port), port) && r'.vs != []
    requires EnoughIds(cfg, r) && EnoughIds(cfg, r')
    requires Coordinator(r'.vs, cfg.hash(key)) == Coordinator(r.vs, cfg.hash(key))
    requires p == ShiftIds(PreferenceList(cfg, r, key)) && q == ShiftIds(PreferenceList(cfg, r', key))
    ensures Ids(q) <= Ids(p) + {GrpcPort(port)}
  {
    ReplicaSetStability(cfg, r, Decimal(port), port, key);
    OnlyNewcomer(PreferenceList(cfg, r, key), PreferenceList(cfg, r', key), port);
  }

  lemma OnlyNewcomer(m: seq<VNode>, m': seq<VNode>, port: UInt64)
    requires DropId(m', port) <= m
    ensures Ids(ShiftIds(m')) <= Ids(ShiftIds(m)) + {GrpcPort(port)}
  {
    DropIdIds(m', port);
    forall id | id in Ids(ShiftIds(m')) ensures id in Ids(ShiftIds(m)) + {GrpcPort(port)} {
      var w :| w in ShiftIds(m') && w.id == id;
      var v := m'[IndexOf(ShiftIds(m'), w)];
      assert v in m' && v.id in Ids(m') && id == GrpcPort(v.id);
      if v.id != port {
        assert v.id in Ids(DropId(m', port));
        var u :| u in DropId(m', port) && u.id == v.id;
        assert u in m && v.id in Ids(m);
        ShiftHasId(m, v.id);
      }
    }
  }

  /** Across a join that leaves the key's coordinator in place one more answer is enough: a write
      coordinated before the join and acknowledged MIN_WRITES times, a read coordinated after it, by
      whichever nodes, and MIN_WRITES + MIN_READS above the replication factor plus one. The read
      never answers "not found" or "all down". */
  lemma ReadAcrossJoin(cfg: Config, c: Cluster, c': Cluster, port: UInt64, key: string, writer: string, reader: string,
                       h: KeyHistory, w: Write, p: seq<VNode>, puts: seq<Turn<PutAnswer>>,
                       q: seq<VNode>, gets: seq<Turn<GetAnswer>>, minWrites: int, minReads: int, nodeId: UInt64)
    requires cfg.numVirtualNodes > 0 && 1 <= cfg.replicationFactor && cfg.replicationFactor + 1 < minWrites + minReads
    requires JoinsAside(cfg, c, c', port, key)
    requires writer in c.manager.nodeMap && WorksFrom(cfg, RingOf(c, writer), key, p)
    requires reader in c'.manager.nodeMap && WorksFrom(cfg, RingOf(c', reader), key, q)
    requires WriteAndRead(h, w, p, puts, q, gets)
    requires CountOk(puts) >= minWrites && CountReplies(gets) >= minReads
    ensures KeepsClocks(h.start, h.deliveries) ==> SeesTheWrite(h, w, puts, gets)
    ensures var result := ReadAnswer(gets, minReads, nodeId);
            && (result == Insufficient <==> |Replicas(gets)| < minReads)
            && (result != Insufficient ==> result.Read?)
  {
    ListAfterJoin(cfg, c, c', port, key, writer, reader, p, q);
    ListFacts(cfg, RingOf(c, writer), key, p);
    IdsAtMost(p);
    OneMore(Ids(p), Ids(q), GrpcPort(port));
    QuorumIntersection(h, w, p, puts, q, gets);
  }
}
