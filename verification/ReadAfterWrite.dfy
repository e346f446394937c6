/** What a read after a write is sure to find, to see and to answer. */
module ReadAfterWrite {
  import opened Naming
  import opened Sequences
  import opened RingSpec
  import opened Routing
  import opened VectorClock
  import opened Replica
  import opened Conflicts
  import opened Quorum
  import opened KeyHistories

  /** A node acknowledges the write right after the end of its delivery. */
  ghost predicate HonestPuts(h: KeyHistory, w: Write, turns: seq<Turn<PutAnswer>>) {
    forall k :: 0 <= k < |turns| && turns[k].Answer? && turns[k].msg.ok ==>
      Acked(h, w, turns[k].msg.node, turns[k].msg.at)
  }

  ghost predicate Acked(h: KeyHistory, w: Write, node: UInt64, at: nat) {
    && 0 < at <= |h.deliveries| && node in h.start
    && h.deliveries[at - 1].Delivery? && h.deliveries[at - 1].node == node && h.deliveries[at - 1].write == w
  }

  /** A reply tells what the node holds at the moment it answers. */
  ghost predicate HonestGets(h: KeyHistory, turns: seq<Turn<GetAnswer>>) {
    forall k :: 0 <= k < |turns| && turns[k].Answer? && !turns[k].msg.reply.Failed? ==>
      Truthful(h, turns[k].msg)
  }

  ghost predicate Truthful(h: KeyHistory, g: GetAnswer) {
    && g.at <= |h.deliveries| && g.node in h.start
    && (g.reply.Missing? ==> Moment(h, g.at)[g.node] == KeyMissing)
    && (g.reply.Got? ==> Moment(h, g.at)[g.node] == Found(g.reply.obj))
  }

  /** What `obj` shows of the write that the node took with its `at`-th delivery: the clock is at
      least the one the delivery made; if an object was there and took the write in, `obj` is
      beyond the write; if the write was the node's first, `obj`'s clock starts there. */
  ghost predicate Shows(h: KeyHistory, w: Write, node: UInt64, at: nat, obj: Object) {
    && Acked(h, w, node, at)
    && var before := h.deliveries[at - 1].seen;
       var after := Accept(before, w.incoming, w.sender);
       && Leq(after.vc, obj.vc)
       && (!Absorbed(before, w.incoming.vc) ==> Moment(h, at)[node] == Found(after))
       && (before.Some? && TakesIn(before, w.incoming, w.sender) ==> Absorbed(Some(obj), w.incoming.vc))
       && (before.None? ==> after.value == w.incoming.value && Leq(map[Decimal(w.sender) := 1], obj.vc))
  }

  /** A replica that the read collects, from a node that acknowledged the write, shows the write. */
  ghost predicate SeesTheWrite(h: KeyHistory, w: Write, puts: seq<Turn<PutAnswer>>, gets: seq<Turn<GetAnswer>>) {
    exists i, k ::
      && 0 <= i < |puts| && puts[i].Answer? && puts[i].msg.ok
      && 0 <= k < |gets| && gets[k].Answer? && gets[k].msg.reply.Got?
      && puts[i].msg.node == gets[k].msg.node
      && Shows(h, w, puts[i].msg.node, puts[i].msg.at, gets[k].msg.reply.obj)
      && gets[k].msg.reply.obj in Replicas(gets)
  }

  /** What a delivery has read was held before, and is held still. */
  lemma ReadIsHeld(h: KeyHistory, at: nat, node: UInt64) returns (u: nat)
    requires ReadsHonest(h.start, h.deliveries) && 0 < at <= |h.deliveries| && node in h.start
    requires h.deliveries[at - 1].Delivery? && h.deliveries[at - 1].node == node && h.deliveries[at - 1].seen.Some?
    ensures u < at && Holds(h, u, node) && Some(Moment(h, u)[node].obj) == h.deliveries[at - 1].seen
    ensures Holds(h, at - 1, node)
  {
    var ds := h.deliveries[..at - 1];
    HonestRead(h.start, h.deliveries, at - 1);
    u :| u <= |ds| && StateAfter(h.start, ds[..u])[node].Existing() == h.deliveries[at - 1].seen;
    assert ds[..u] == h.deliveries[..u];
    HeldStaysHeld(h, u, at - 1, node);
  }

  lemma AckedIsHeld(h: KeyHistory, w: Write, node: UInt64, at: nat)
    requires ReadsHonest(h.start, h.deliveries) && Acked(h, w, node, at)
    ensures Holds(h, at, node)
    ensures var seen := h.deliveries[at - 1].seen;
            !Absorbed(seen, w.incoming.vc) ==> Moment(h, at)[node] == Found(Accept(seen, w.incoming, w.sender))
  {
    MomentStep(h, at - 1);
    if Absorbed(h.deliveries[at - 1].seen, w.incoming.vc) {
      var u := ReadIsHeld(h, at, node);
    }
  }

  /** The node holds the write's outcome or something later. */
  lemma AckedIsBelow(h: KeyHistory, w: Write, node: UInt64, at: nat)
    requires ReadsHonest(h.start, h.deliveries) && KeepsClocks(h.start, h.deliveries) && Acked(h, w, node, at)
    ensures Holds(h, at, node)
    ensures Leq(Accept(h.deliveries[at - 1].seen, w.incoming, w.sender).vc, Moment(h, at)[node].obj.vc)
  {
    AckedIsHeld(h, w, node, at);
    if Absorbed(h.deliveries[at - 1].seen, w.incoming.vc) {
      var u := ReadIsHeld(h, at, node);
      HistoryMonotone(h, u, at, node);
    }
  }

  lemma AckedShows(h: KeyHistory, w: Write, node: UInt64, at: nat, g: GetAnswer)
    requires ReadsHonest(h.start, h.deliveries) && Acked(h, w, node, at) && Truthful(h, g)
    requires node == g.node && at <= g.at && !g.reply.Failed?
    ensures g.reply.Got?
    ensures KeepsClocks(h.start, h.deliveries) ==> Shows(h, w, node, at, g.reply.obj)
  {
    AckedIsHeld(h, w, node, at);
    HeldStaysHeld(h, at, g.at, node);
    if KeepsClocks(h.start, h.deliveries) {
      var before := h.deliveries[at - 1].seen;
      var after := Accept(before, w.incoming, w.sender);
      AckedIsBelow(h, w, node, at);
      HistoryMonotone(h, at, g.at, node);
      LeqTransitive(after.vc, Moment(h, at)[node].obj.vc, g.reply.obj.vc);
      if before.Some? && TakesIn(before, w.incoming, w.sender) {
        AcceptAbsorbsIff(before.value, w.incoming, w.sender);
        AbsorbedStays(after, g.reply.obj, w.incoming.vc, w.incoming.vc);
      }
    }
  }

  lemma AckMeetsReply(h: KeyHistory, w: Write, puts: seq<Turn<PutAnswer>>, gets: seq<Turn<GetAnswer>>, i: nat, k: nat)
    requires ReadsHonest(h.start, h.deliveries) && HonestPuts(h, w, puts) && HonestGets(h, gets)
    requires i < |puts| && puts[i].Answer? && puts[i].msg.ok
    requires k < |gets| && gets[k].Answer? && !gets[k].msg.reply.Failed?
    requires puts[i].msg.node == gets[k].msg.node && puts[i].msg.at <= gets[k].msg.at
    ensures gets[k].msg.reply.Got? && Replicas(gets) != []
    ensures KeepsClocks(h.start, h.deliveries) ==>
              && Shows(h, w, puts[i].msg.node, puts[i].msg.at, gets[k].msg.reply.obj)
              && SeesTheWrite(h, w, puts, gets)
  {
    AckedShows(h, w, puts[i].msg.node, puts[i].msg.at, gets[k].msg);
    ReplicaListed(gets, k);
  }

  /** The read asks after the write was acknowledged. */
  ghost predicate AnswersInTime(puts: seq<Turn<PutAnswer>>, gets: seq<Turn<GetAnswer>>) {
    forall i, k :: 0 <= i < |puts| && puts[i].Answer? && puts[i].msg.ok
                   && 0 <= k < |gets| && gets[k].Answer? && !gets[k].msg.reply.Failed? ==>
      puts[i].msg.at <= gets[k].msg.at
  }

  /** `puts` and `gets` are turns of a write `w` and of a later read of its key, against these
      preference lists. */
  ghost predicate WriteAndRead(h: KeyHistory, w: Write, p: seq<VNode>, puts: seq<Turn<PutAnswer>>,
                               q: seq<VNode>, gets: seq<Turn<GetAnswer>>)
  {
    && ReadsHonest(h.start, h.deliveries)
    && PutsFrom(p, puts) && HonestPuts(h, w, puts)
    && GetsFrom(q, gets) && HonestGets(h, gets)
    && AnswersInTime(puts, gets)
  }

  // ---------- what a read finds ----------

  /** Quorum intersection. `puts` and `gets` are the turns the two loops have consumed, perhaps against
      different lists; the read starts after the acknowledgements were given. With more required
      answers than there are nodes on the lists, a read that gathers its answers collects a
      replica; and it sees the write, if every delivery keeps the clock it finds. */
  lemma QuorumIntersection(h: KeyHistory, w: Write, p: seq<VNode>, puts: seq<Turn<PutAnswer>>,
                           q: seq<VNode>, gets: seq<Turn<GetAnswer>>)
    requires WriteAndRead(h, w, p, puts, q, gets)
    requires CountOk(puts) + CountReplies(gets) > |Ids(p) + Ids(q)|
    ensures Replicas(gets) != []
    ensures KeepsClocks(h.start, h.deliveries) ==> SeesTheWrite(h, w, puts, gets)
  {
    WritersCounted(p, puts);
    RespondersCounted(q, gets);
    Pigeonhole(Writers(puts), Responders(gets), Ids(p) + Ids(q));
    var node :| node in Writers(puts) * Responders(gets);
    var a :| a in puts && a.Answer? && a.msg.ok && a.msg.node == node;
    var g :| g in gets && g.Answer? && !g.msg.reply.Failed? && g.msg.node == node;
    AckMeetsReply(h, w, puts, gets, IndexOf(puts, a), IndexOf(gets, g));
  }

  lemma {:induction false} IdsAtMost(p: seq<VNode>)
    ensures |Ids(p)| <= |p|
  {
    if p != [] {
      IdsAtMost(p[..|p| - 1]);
      assert p == p[..|p| - 1] + [p[|p| - 1]];
      IdsSnoc(p[..|p| - 1], p[|p| - 1]);
    }
  }

  /** The same for one list. */
  lemma QuorumOnList(h: KeyHistory, w: Write, p: seq<VNode>, puts: seq<Turn<PutAnswer>>, gets: seq<Turn<GetAnswer>>)
    requires WriteAndRead(h, w, p, puts, p, gets) && CountOk(puts) + CountReplies(gets) > |p|
    ensures Replicas(gets) != []
    ensures KeepsClocks(h.start, h.deliveries) ==> SeesTheWrite(h, w, puts, gets)
  {
    IdsAtMost(p);
    assert Ids(p) + Ids(p) == Ids(p);
    QuorumIntersection(h, w, p, puts, p, gets);
  }

  /** The same write delivered to the given nodes, one after the other. */
  function SameWrite(start: Holdings, order: seq<UInt64>, w: Write): (ds: seq<Delivery>)
    ensures |ds| == |order|
  {
    seq(|order|, i requires 0 <= i < |order| => Delivery(order[i], w, ExistingAt(start, order[i])))
  }

  function ExistingAt(s: Holdings, n: UInt64): Option<Object> {
    if n in s then s[n].Existing() else None
  }

  function OkTurns(nodes: seq<UInt64>): (turns: seq<Turn<PutAnswer>>)
    ensures |turns| == |nodes|
  {
    seq(|nodes|, i requires 0 <= i < |nodes| => Answer(PutAnswer(nodes[i], true, i + 1), false))
  }

  function ReplyOf(o: GetOutcome): Reply {
    match o
    case Found(obj) => Got(obj)
    case KeyMissing => Missing
    case BucketMissing => Failed
  }

  /** These nodes answer in turn what they hold at the end of the history. */
  function FinalTurns(h: KeyHistory, nodes: seq<UInt64>): (turns: seq<Turn<GetAnswer>>)
    requires forall n :: n in nodes ==> n in h.start
    ensures |turns| == |nodes|
  {
    var s := StateAfter(h.start, h.deliveries);
    seq(|nodes|, i requires 0 <= i < |nodes| => Answer(GetAnswer(nodes[i], ReplyOf(s[nodes[i]]), |h.deliveries|), false))
  }

  lemma {:induction false} OkTurnsCounted(turns: seq<Turn<PutAnswer>>)
    requires forall k :: 0 <= k < |turns| ==> turns[k].Answer? && turns[k].msg.ok
    ensures CountOk(turns) == |turns|
  {
    if turns != [] {
      OkTurnsCounted(turns[..|turns| - 1]);
    }
  }

  lemma {:induction false} RepliesCounted(turns: seq<Turn<GetAnswer>>)
    requires forall k :: 0 <= k < |turns| ==> turns[k].Answer? && !turns[k].msg.reply.Failed?
    ensures CountReplies(turns) == |turns|
  {
    if turns != [] {
      RepliesCounted(turns[..|turns| - 1]);
    }
  }

  /** `n` members of a set, listed. */
  lemma {:induction false} ListSome(all: set<UInt64>, n: nat) returns (nodes: seq<UInt64>)
    requires n <= |all|
    ensures |nodes| == n && Distinct(nodes) && forall x :: x in nodes ==> x in all
    decreases n
  {
    if n == 0 {
      nodes := [];
    } else {
      var x :| x in all;
      nodes := ListSome(all - {x}, n - 1);
      nodes := nodes + [x];
    }
  }

  lemma SameWriteSnoc(start: Holdings, order: seq<UInt64>, n: UInt64, w: Write)
    ensures SameWrite(start, order + [n], w) == SameWrite(start, order, w) + [Delivery(n, w, ExistingAt(start, n))]
  {
  }

  /** Every node that takes the write once ends with what it makes of it; the others are untouched. */
  lemma {:induction false} DeliveredAlike(start: Holdings, order: seq<UInt64>, w: Write, n: UInt64)
    requires Distinct(order) && n in start
    ensures StateAfter(start, SameWrite(start, order, w))[n]
            == if n in order then Found(Accept(start[n].Existing(), w.incoming, w.sender)) else start[n]
  {
    if order != [] {
      var front, last := order[..|order| - 1], order[|order| - 1];
      assert order == front + [last];
      SameWriteSnoc(start, front, last, w);
      assert SameWrite(start, order, w)[..|order| - 1] == SameWrite(start, front, w);
      DeliveredAlike(start, front, w, n);
    }
  }

  /** Such a history keeps all clocks if no bump wraps a stored tick. */
  lemma {:induction false} SameWriteKeeps(start: Holdings, order: seq<UInt64>, w: Write)
    requires Distinct(order)
    ensures ReadsHonest(start, SameWrite(start, order, w))
    ensures (forall x :: x in order && x in start ==> KeepsClock(start[x].Existing(), w.incoming, w.sender)) ==>
              KeepsClocks(start, SameWrite(start, order, w))
  {
    if order != [] {
      var front, last := order[..|order| - 1], order[|order| - 1];
      assert order == front + [last];
      SameWriteSnoc(start, front, last, w);
      var ds := SameWrite(start, front, w);
      assert SameWrite(start, order, w)[..|order| - 1] == ds;
      SameWriteKeeps(start, front, w);
      if last in start {
        DeliveredAlike(start, front, w, last);
        KeepsOverUnchanged(start[last].Existing(), w.incoming, w.sender);
        assert StateAfter(start, ds[..0]) == start;
        assert WasHeld(start, ds, last, start[last].Existing());
      }
    }
  }

  /** The readers reply in turn, those that have taken the write with `taken`, the others with what `o` is. */
  ghost predicate Replying(gets: seq<Turn<GetAnswer>>, readers: seq<UInt64>, writers: seq<UInt64>, taken: Object,
                           o: GetOutcome)
  {
    && |gets| == |readers|
    && forall k :: 0 <= k < |gets| ==>
         && gets[k].Answer? && gets[k].msg.node == readers[k]
         && gets[k].msg.reply == if readers[k] in writers then Got(taken) else ReplyOf(o)
  }

  /** All listed nodes hold `o`; `writers` take the write and acknowledge it, then `readers` answer. */
  lemma Scenario(write: Write, p: seq<VNode>, o: GetOutcome, writers: seq<UInt64>, readers: seq<UInt64>)
    returns (h: KeyHistory, puts: seq<Turn<PutAnswer>>, gets: seq<Turn<GetAnswer>>)
    requires Distinct(writers) && Distinct(readers) && !o.BucketMissing?
    requires (forall n :: n in writers ==> n in Ids(p)) && (forall n :: n in readers ==> n in Ids(p))
    ensures h.start == map n | n in Ids(p) :: o
    ensures WriteAndRead(h, write, p, puts, p, gets)
    ensures KeepsClock(o.Existing(), write.incoming, write.sender) ==> KeepsClocks(h.start, h.deliveries)
    ensures CountOk(puts) == |writers| && CountReplies(gets) == |readers|
    ensures Replying(gets, readers, writers, Accept(o.Existing(), write.incoming, write.sender), o)
    ensures puts == OkTurns(writers) && h.deliveries == SameWrite(h.start, writers, write)
  {
    var start := map n | n in Ids(p) :: o;
    h := KeyHistory(start, SameWrite(start, writers, write));
    puts, gets := OkTurns(writers), FinalTurns(h, readers);
    OkTurnsCounted(puts);
    SameWriteKeeps(start, writers, write);
    WritersAck(p, start, writers, write);
    ReadersAnswer(p, h, readers);
    AnswersFollow(h, writers, readers);
    FinalReplies(p, start, o, writers, readers, write);
  }

  lemma AnswersFollow(h: KeyHistory, writers: seq<UInt64>, readers: seq<UInt64>)
    requires |writers| <= |h.deliveries| && forall n :: n in readers ==> n in h.start
    ensures AnswersInTime(OkTurns(writers), FinalTurns(h, readers))
  {
  }

  lemma FinalReplies(p: seq<VNode>, start: Holdings, o: GetOutcome, writers: seq<UInt64>, readers: seq<UInt64>,
                     write: Write)
    requires Distinct(writers) && start == (map n | n in Ids(p) :: o) && !o.BucketMissing?
    requires forall n :: n in readers ==> n in Ids(p)
    ensures var gets := FinalTurns(KeyHistory(start, SameWrite(start, writers, write)), readers);
            && Replying(gets, readers, writers, Accept(o.Existing(), write.incoming, write.sender), o)
            && CountReplies(gets) == |readers|
  {
    forall k | 0 <= k < |readers|
      ensures StateAfter(start, SameWrite(start, writers, write))[readers[k]]
              == if readers[k] in writers then Found(Accept(o.Existing(), write.incoming, write.sender)) else o
    {
      assert readers[k] in readers;
      DeliveredAlike(start, writers, write, readers[k]);
    }
    RepliesCounted(FinalTurns(KeyHistory(start, SameWrite(start, writers, write)), readers));
  }

  lemma WritersAck(p: seq<VNode>, start: Holdings, writers: seq<UInt64>, write: Write)
    requires Distinct(writers) && forall n :: n in writers ==> n in Ids(p) && n in start
    ensures PutsFrom(p, OkTurns(writers))
    ensures HonestPuts(KeyHistory(start, SameWrite(start, writers, write)), write, OkTurns(writers))
  {
    forall k | 0 <= k < |writers| ensures writers[k] in Ids(p) && writers[k] in start {
      assert writers[k] in writers;
    }
  }

  lemma ReadersAnswer(p: seq<VNode>, h: KeyHistory, readers: seq<UInt64>)
    requires Distinct(readers) && forall n :: n in readers ==> n in Ids(p) && n in h.start
    ensures GetsFrom(p, FinalTurns(h, readers)) && HonestGets(h, FinalTurns(h, readers))
  {
    var gets := FinalTurns(h, readers);
    assert h.deliveries[..|h.deliveries|] == h.deliveries;
    forall k | 0 <= k < |readers|
      ensures readers[k] in Ids(p) && (!gets[k].msg.reply.Failed? ==> Truthful(h, gets[k].msg))
    {
      assert readers[k] in readers;
    }
  }

  /** `w` acknowledgements and `r` replies are sure to make a later read collect a replica, and see the
      write, exactly if together they exceed the length of the list: otherwise the read may not
      find the key, even where no clock ever goes down. */
  lemma QuorumsAlwaysMeetIff(write: Write, p: seq<VNode>, w: nat, r: nat)
    requires DistinctIds(p) && w <= |p| && r <= |p|
    ensures (forall h, puts, gets ::
               WriteAndRead(h, write, p, puts, p, gets) && CountOk(puts) == w && CountReplies(gets) == r ==>
               Replicas(gets) != [] && (KeepsClocks(h.start, h.deliveries) ==> SeesTheWrite(h, write, puts, gets)))
            <==> w + r > |p|
  {
    if w + r > |p| {
      forall h, puts, gets | WriteAndRead(h, write, p, puts, p, gets) && CountOk(puts) == w && CountReplies(gets) == r
        ensures Replicas(gets) != [] && (KeepsClocks(h.start, h.deliveries) ==> SeesTheWrite(h, write, puts, gets))
      {
        QuorumOnList(h, write, p, puts, gets);
      }
    } else {
      var writers, readers := TwoLists(p, w, r);
      var h, puts, gets := Scenario(write, p, KeyMissing, writers, readers);
      assert forall k :: 0 <= k < |gets| ==> readers[k] in readers;
      MissingTurnsCounted(gets);
      assert WriteAndRead(h, write, p, puts, p, gets) && Replicas(gets) == [];
    }
  }

  lemma TwoLists(p: seq<VNode>, w: nat, r: nat) returns (writers: seq<UInt64>, readers: seq<UInt64>)
    requires DistinctIds(p) && w + r <= |p|
    ensures Distinct(writers) && |writers| == w && forall n :: n in writers ==> n in Ids(p)
    ensures Distinct(readers) && |readers| == r && forall n :: n in readers ==> n in Ids(p) && n !in writers
  {
    IdCount(p);
    var nodes := ListSome(Ids(p), |p|);
    writers, readers := nodes[..w], nodes[w..w + r];
    assert forall n :: n in nodes[..w] ==> n in nodes;
    assert forall n :: n in nodes[w..w + r] ==> n in nodes;
  }

  /** These nodes answer that they do not have the key; the deadline comes with the last answer
      if `late`. */
  function MissingTurns(nodes: seq<UInt64>, at: nat, late: bool): (turns: seq<Turn<GetAnswer>>)
    ensures |turns| == |nodes|
  {
    seq(|nodes|, i requires 0 <= i < |nodes| => Answer(GetAnswer(nodes[i], Missing, at), late && i == |nodes| - 1))
  }

  lemma {:induction false} MissingTurnsCounted(turns: seq<Turn<GetAnswer>>)
    requires forall k :: 0 <= k < |turns| ==> turns[k].Answer? && turns[k].msg.reply.Missing?
    ensures CountReplies(turns) == |turns| && Replicas(turns) == []
  {
    if turns != [] {
      MissingTurnsCounted(turns[..|turns| - 1]);
    }
  }

  // ---------- what a read answers ----------

  /** The answer returns a version that shows the write at a node that acknowledged it. */
  ghost predicate ReturnsTheWrite(h: KeyHistory, w: Write, puts: seq<Turn<PutAnswer>>, result: ReadResult) {
    && result.Read?
    && exists i, o ::
         && 0 <= i < |puts| && puts[i].Answer? && puts[i].msg.ok && o in result.replicas
         && Shows(h, w, puts[i].msg.node, puts[i].msg.at, o)
  }

  lemma {:induction false} FirstReplica(turns: seq<Turn<GetAnswer>>) returns (k: nat)
    requires Replicas(turns) != []
    ensures k < |turns| && turns[k].Answer? && turns[k].msg.reply == Got(Replicas(turns)[0])
  {
    var front := turns[..|turns| - 1];
    if Replicas(front) == [] {
      k := |turns| - 1;
    } else {
      k := FirstReplica(front);
    }
  }

  lemma {:induction false} AllGot(turns: seq<Turn<GetAnswer>>)
    requires forall k :: 0 <= k < |turns| && turns[k].Answer? && !turns[k].msg.reply.Failed? ==> turns[k].msg.reply.Got?
    ensures |Replicas(turns)| == CountReplies(turns)
  {
    if turns != [] {
      AllGot(turns[..|turns| - 1]);
    }
  }

  lemma {:induction false} MissingCosts(turns: seq<Turn<GetAnswer>>, k: nat)
    requires k < |turns| && turns[k].Answer? && turns[k].msg.reply.Missing?
    ensures |Replicas(turns)| < CountReplies(turns)
  {
    if k < |turns| - 1 {
      MissingCosts(turns[..|turns| - 1], k);
    }
  }

  lemma AckOf(puts: seq<Turn<PutAnswer>>, node: UInt64) returns (i: nat)
    requires node in Writers(puts)
    ensures i < |puts| && puts[i].Answer? && puts[i].msg.ok && puts[i].msg.node == node
  {
    var t :| t in puts && t.Answer? && t.msg.ok && t.msg.node == node;
    i := IndexOf(puts, t);
  }

  /** If whoever replies has acknowledged the write, the read returns versions, and among them the write. */
  lemma AckersAnswer(h: KeyHistory, w: Write, p: seq<VNode>, puts: seq<Turn<PutAnswer>>,
                     q: seq<VNode>, gets: seq<Turn<GetAnswer>>, minReads: int, nodeId: UInt64)
    requires WriteAndRead(h, w, p, puts, q, gets) && Responders(gets) <= Writers(puts)
    requires CountReplies(gets) >= minReads && CountReplies(gets) >= 1
    ensures ReadAnswer(gets, minReads, nodeId).Read?
    ensures KeepsClocks(h.start, h.deliveries) ==> ReturnsTheWrite(h, w, puts, ReadAnswer(gets, minReads, nodeId))
  {
    forall k | 0 <= k < |gets| && gets[k].Answer? && !gets[k].msg.reply.Failed? ensures gets[k].msg.reply.Got? {
      assert gets[k] in gets;
      var i := AckOf(puts, gets[k].msg.node);
      AckMeetsReply(h, w, puts, gets, i, k);
    }
    AllGot(gets);
    var reps := Replicas(gets);
    var k := FirstReplica(gets);
    assert gets[k] in gets;
    var i := AckOf(puts, gets[k].msg.node);
    AckMeetsReply(h, w, puts, gets, i, k);
    assert reps[0] == Kept(reps)[0] && Kept(reps)[0] in Kept(reps);
  }

  /** So it is when every listed node has acknowledged. */
  lemma AllAcknowledged(h: KeyHistory, w: Write, p: seq<VNode>, puts: seq<Turn<PutAnswer>>,
                        gets: seq<Turn<GetAnswer>>, minReads: int, nodeId: UInt64)
    requires WriteAndRead(h, w, p, puts, p, gets) && CountOk(puts) >= |p|
    requires CountReplies(gets) >= minReads && CountReplies(gets) >= 1
    ensures ReadAnswer(gets, minReads, nodeId).Read?
    ensures KeepsClocks(h.start, h.deliveries) ==> ReturnsTheWrite(h, w, puts, ReadAnswer(gets, minReads, nodeId))
  {
    WritersCounted(p, puts);
    RespondersCounted(p, gets);
    IdsAtMost(p);
    SubsetSize(Writers(puts), Ids(p));
    AckersAnswer(h, w, p, puts, p, gets, minReads, nodeId);
  }

  /** One listed node that has not acknowledged replies first, then others. */
  lemma SplitList(p: seq<VNode>, w: nat, r: nat) returns (writers: seq<UInt64>, readers: seq<UInt64>)
    requires DistinctIds(p) && w < |p| && 1 <= r <= |p|
    ensures Distinct(writers) && |writers| == w && forall n :: n in writers ==> n in Ids(p)
    ensures Distinct(readers) && |readers| == r && forall n :: n in readers ==> n in Ids(p)
    ensures readers[0] !in writers
  {
    IdCount(p);
    var nodes := ListSome(Ids(p), |p|);
    var late := nodes[|p| - 1];
    writers, readers := nodes[..w], [late] + nodes[..r - 1];
    assert late in nodes && late !in nodes[..|p| - 1];
    assert forall n :: n in nodes[..w] ==> n in nodes;
    assert forall n :: n in nodes[..r - 1] ==> n in nodes && n in nodes[..|p| - 1];
  }

  /** A read with `r` replies, as many as it waits for, is sure to return an acknowledged write exactly if
      all listed nodes have acknowledged it, however many replies that is. */
  lemma ReadReturnsWriteIff(write: Write, p: seq<VNode>, w: nat, r: nat, nodeId: UInt64)
    requires DistinctIds(p) && w <= |p| && 1 <= r <= |p|
    ensures (forall h, puts, gets ::
               && WriteAndRead(h, write, p, puts, p, gets) && KeepsClocks(h.start, h.deliveries)
               && CountOk(puts) == w && CountReplies(gets) == r ==>
               ReturnsTheWrite(h, write, puts, ReadAnswer(gets, r, nodeId)))
            <==> w == |p|
  {
    if w == |p| {
      forall h, puts, gets | WriteAndRead(h, write, p, puts, p, gets) && KeepsClocks(h.start, h.deliveries)
                             && CountOk(puts) == w && CountReplies(gets) == r
        ensures ReturnsTheWrite(h, write, puts, ReadAnswer(gets, r, nodeId))
      {
        AllAcknowledged(h, write, p, puts, gets, r, nodeId);
      }
    } else {
      var writers, readers := SplitList(p, w, r);
      var h, puts, gets := Scenario(write, p, KeyMissing, writers, readers);
      MissingCosts(gets, 0);
      assert !ReturnsTheWrite(h, write, puts, ReadAnswer(gets, r, nodeId));
    }
  }

  // ---------- stale answers ----------

  lemma {:induction false} AllReplicas(turns: seq<Turn<GetAnswer>>)
    requires forall k :: 0 <= k < |turns| ==> turns[k].Answer? && turns[k].msg.reply.Got?
    ensures |Replicas(turns)| == |turns|
    ensures forall k :: 0 <= k < |turns| ==> Replicas(turns)[k] == turns[k].msg.reply.obj
  {
    if turns != [] {
      AllReplicas(turns[..|turns| - 1]);
    }
  }

  /** An old version in front of newer ones is all that is returned. */
  lemma OldFirst(reps: seq<Object>, old': Object, new': Object)
    requires reps != [] && reps[0] == old' && IsAncestorOf(new'.vc, old'.vc)
    requires forall r :: r in reps ==> r == old' || r == new'
    ensures Kept(reps) == [old']
  {
    forall r, q | r in reps && q in reps ensures !IsConcurrentWith(r.vc, q.vc) {
    }
    ChainKeepsFirst(reps);
  }

  /** All listed nodes hold `e`, and the write was sent with `e`'s clock. Whoever acknowledges it, if a
      listed node that did not replies first, the read returns `e` alone, without conflict. */
  lemma StaleRead(write: Write, p: seq<VNode>, e: Object, writers: seq<UInt64>, readers: seq<UInt64>, nodeId: UInt64)
    returns (h: KeyHistory, puts: seq<Turn<PutAnswer>>, gets: seq<Turn<GetAnswer>>)
    requires e.vc == write.incoming.vc && !AtLimit(Decimal(write.sender), e.vc)
    requires Distinct(writers) && forall n :: n in writers ==> n in Ids(p)
    requires Distinct(readers) && forall n :: n in readers ==> n in Ids(p)
    requires readers != [] && readers[0] !in writers
    ensures h.start == (map n | n in Ids(p) :: Found(e))
    ensures WriteAndRead(h, write, p, puts, p, gets) && KeepsClocks(h.start, h.deliveries)
    ensures CountOk(puts) == |writers| && CountReplies(gets) == |readers|
    ensures ReadAnswer(gets, |readers|, nodeId) == Read([e], false, WriteCoordinator(gets, nodeId))
    ensures !ReturnsTheWrite(h, write, puts, ReadAnswer(gets, |readers|, nodeId))
  {
    BumpIsNewer(e, write);
    h, puts, gets := Scenario(write, p, Found(e), writers, readers);
    OldComesFirst(gets, e, Accept(Some(e), write.incoming, write.sender));
    forall node, at ensures !Shows(h, write, node, at, e) {
      OldDoesNotShow(h, write, e, writers, node, at);
    }
  }

  lemma OldComesFirst(gets: seq<Turn<GetAnswer>>, e: Object, after: Object)
    requires gets != [] && IsAncestorOf(after.vc, e.vc)
    requires forall k :: 0 <= k < |gets| ==>
               gets[k].Answer? && (gets[k].msg.reply == Got(e) || gets[k].msg.reply == Got(after))
    requires gets[0].msg.reply == Got(e)
    ensures |Replicas(gets)| == |gets| && Kept(Replicas(gets)) == [e]
  {
    AllReplicas(gets);
    forall r | r in Replicas(gets) ensures r == e || r == after {
      var k := IndexOf(Replicas(gets), r);
      assert r == gets[k].msg.reply.obj;
    }
    OldFirst(Replicas(gets), e, after);
  }

  lemma OldDoesNotShow(h: KeyHistory, write: Write, e: Object, writers: seq<UInt64>, node: UInt64, at: nat)
    requires IsAncestorOf(Accept(Some(e), write.incoming, write.sender).vc, e.vc)
    requires h.deliveries == SameWrite(h.start, writers, write) && forall n :: n in h.start ==> h.start[n] == Found(e)
    ensures !Shows(h, write, node, at, e)
  {
    if Acked(h, write, node, at) {
      assert h.deliveries[at - 1].seen == Some(e);
      if Leq(Accept(Some(e), write.incoming, write.sender).vc, e.vc) {
        LeqAntisymmetric(Accept(Some(e), write.incoming, write.sender).vc, e.vc);
      }
    }
  }

  lemma BumpIsNewer(e: Object, write: Write)
    requires e.vc == write.incoming.vc && !AtLimit(Decimal(write.sender), e.vc)
    ensures IsAncestorOf(Accept(Some(e), write.incoming, write.sender).vc, e.vc)
    ensures KeepsClock(Some(e), write.incoming, write.sender)
  {
    assert MergeClocks(e.vc, e.vc) == e.vc;
    BumpGoesUpIff(Decimal(write.sender), e.vc);
  }

  /** Every listed node has the key. */
  ghost predicate AllHold(p: seq<VNode>, s: Holdings) {
    forall n :: n in Ids(p) ==> n in s && s[n].Found?
  }

  /** Then the read at least returns versions. */
  lemma HeldReadAnswers(h: KeyHistory, p: seq<VNode>, gets: seq<Turn<GetAnswer>>, minReads: int, nodeId: UInt64)
    requires GetsFrom(p, gets) && HonestGets(h, gets) && AllHold(p, h.start)
    requires CountReplies(gets) >= minReads && CountReplies(gets) >= 1
    ensures ReadAnswer(gets, minReads, nodeId).Read?
  {
    forall k | 0 <= k < |gets| && gets[k].Answer? && !gets[k].msg.reply.Failed? ensures gets[k].msg.reply.Got? {
      var g := gets[k].msg;
      assert Truthful(h, g) && Moment(h, 0) == h.start;
      HeldStaysHeld(h, 0, g.at, g.node);
    }
    AllGot(gets);
  }

  /** But it is sure to return an acknowledged write exactly if all of them have acknowledged it, for any
      write that carries a clock which the bump does not wrap. */
  lemma HeldReadReturnsWriteIff(write: Write, p: seq<VNode>, w: nat, r: nat, nodeId: UInt64)
    requires DistinctIds(p) && w <= |p| && 1 <= r <= |p|
    requires write.incoming.vc != map[] && !AtLimit(Decimal(write.sender), write.incoming.vc)
    ensures (forall h, puts, gets ::
               && WriteAndRead(h, write, p, puts, p, gets) && KeepsClocks(h.start, h.deliveries) && AllHold(p, h.start)
               && CountOk(puts) == w && CountReplies(gets) == r ==>
               ReturnsTheWrite(h, write, puts, ReadAnswer(gets, r, nodeId)))
            <==> w == |p|
  {
    if w == |p| {
      ReadReturnsWriteIff(write, p, w, r, nodeId);
    } else {
      var writers, readers := SplitList(p, w, r);
      var h, puts, gets := StaleRead(write, p, write.incoming.(value := ""), writers, readers, nodeId);
      assert AllHold(p, h.start);
    }
  }

  /** The same about the two loops themselves, with more required answers than listed nodes. After a put
      that reported FULL_SUCCESS, a get that gathers MIN_READS answers never says "not found" or "all
      down"; it says "insufficient" if some of the replies were empty, and otherwise returns
      versions. Among those received is the write, if every delivery keeps the clock it finds;
      among those returned it is for certain if all listed nodes acknowledged it. */
  method PutThenGet(p: seq<VNode>, ghost h: KeyHistory, ghost w: Write, nodeId: UInt64,
                    puts: seq<Turn<PutAnswer>>, gets: seq<Turn<GetAnswer>>, minWrites: int, minReads: int)
    returns (status: SuccessStatus, result: ReadResult, ghost n: nat, ghost m: nat)
    requires minReads + minWrites > |p| && WriteAndRead(h, w, p, puts, p, gets)
    ensures n <= |puts| && m <= |gets|
    ensures status == FullSuccess && CountReplies(gets[..m]) >= minReads ==>
              && (result == Insufficient <==> |Replicas(gets[..m])| < minReads)
              && (result != Insufficient ==> result.Read?)
              && (KeepsClocks(h.start, h.deliveries) ==> SeesTheWrite(h, w, puts[..n], gets[..m]))
              && (CountOk(puts[..n]) >= |p| ==>
                    result.Read? && (KeepsClocks(h.start, h.deliveries) ==> ReturnsTheWrite(h, w, puts[..n], result)))
  {
    var successes, responses, used;
    status, successes, used := CollectPuts(puts, minWrites);
    n := used;
    result, responses, used := CollectGets(gets, minReads, nodeId);
    m := used;
    if status == FullSuccess && responses >= minReads {
      Consumed(h, w, p, puts, n, gets, m);
      AnswerOf(h, w, p, puts[..n], gets[..m], minReads, nodeId);
    }
  }

  /** What the answer can be, and when it is sure to return the write. */
  lemma AnswerOf(h: KeyHistory, w: Write, p: seq<VNode>, puts: seq<Turn<PutAnswer>>, gets: seq<Turn<GetAnswer>>,
                 minReads: int, nodeId: UInt64)
    requires WriteAndRead(h, w, p, puts, p, gets)
    requires CountOk(puts) + CountReplies(gets) > |p| && CountReplies(gets) >= minReads
    ensures var result := ReadAnswer(gets, minReads, nodeId);
            && (result == Insufficient <==> |Replicas(gets)| < minReads)
            && (result != Insufficient ==> result.Read?)
            && (KeepsClocks(h.start, h.deliveries) ==> SeesTheWrite(h, w, puts, gets))
            && (CountOk(puts) >= |p| ==>
                  result.Read? && (KeepsClocks(h.start, h.deliveries) ==> ReturnsTheWrite(h, w, puts, result)))
  {
    QuorumOnList(h, w, p, puts, gets);
    if CountOk(puts) >= |p| {
      WritersCounted(p, puts);
      IdsAtMost(p);
      SubsetSize(Writers(puts), Ids(p));
      AllAcknowledged(h, w, p, puts, gets, minReads, nodeId);
    }
  }

  lemma Consumed(h: KeyHistory, w: Write, p: seq<VNode>, puts: seq<Turn<PutAnswer>>, n: nat,
                 gets: seq<Turn<GetAnswer>>, m: nat)
    requires WriteAndRead(h, w, p, puts, p, gets) && n <= |puts| && m <= |gets|
    ensures WriteAndRead(h, w, p, puts[..n], p, gets[..m])
  {
  }

  // ---------- when a read says "not found" ----------

  /** The listed nodes that have the bucket but not the key; a node without the bucket answers with
      an error. */
  ghost function Lacking(p: seq<VNode>, s: Holdings): set<UInt64> {
    set n | n in Ids(p) && n in s && s[n] == KeyMissing
  }

  /** Answers of listed nodes about the state `s`, `n` of them in time and none with a replica. */
  ghost predicate EmptyAnswers(p: seq<VNode>, s: Holdings, turns: seq<Turn<GetAnswer>>, n: nat) {
    && GetsFrom(p, turns) && HonestGets(KeyHistory(s, []), turns)
    && CountReplies(turns) == n && Replicas(turns) == []
  }

  lemma EmptyAnswersLack(p: seq<VNode>, s: Holdings, turns: seq<Turn<GetAnswer>>, n: nat)
    requires EmptyAnswers(p, s, turns, n)
    ensures n <= |Lacking(p, s)|
  {
    RespondersCounted(p, turns);
    forall node | node in Responders(turns) ensures node in Lacking(p, s) {
      var g :| g in turns && g.Answer? && !g.msg.reply.Failed? && g.msg.node == node;
      var k := IndexOf(turns, g);
      assert Truthful(KeyHistory(s, []), turns[k].msg);
      if g.msg.reply.Got? {
        ReplicaListed(turns, k);
      }
    }
    SubsetSize(Responders(turns), Lacking(p, s));
  }

  lemma LackingAnswer(p: seq<VNode>, s: Holdings, n: nat) returns (turns: seq<Turn<GetAnswer>>)
    requires n <= |Lacking(p, s)|
    ensures EmptyAnswers(p, s, turns, n) && |turns| == n
    ensures forall k :: 0 <= k < n ==> turns[k].Answer? && turns[k].msg.reply.Missing? && (turns[k].expired <==> k == n - 1)
  {
    var nodes := ListSome(Lacking(p, s), n);
    turns := MissingTurns(nodes, 0, true);
    MissingTurnsCounted(turns);
    forall k | 0 <= k < |turns| ensures Truthful(KeyHistory(s, []), turns[k].msg) && turns[k].msg.node in Ids(p) {
      assert nodes[k] in nodes;
    }
  }

  /** `n` answers without a replica are possible exactly if `n` listed nodes lack the key, however
      many others hold it. */
  lemma EmptyAnswersIff(p: seq<VNode>, s: Holdings, n: nat)
    ensures (exists turns :: EmptyAnswers(p, s, turns, n)) <==> n <= |Lacking(p, s)|
  {
    if turns :| EmptyAnswers(p, s, turns, n) {
      EmptyAnswersLack(p, s, turns, n);
    }
    if n <= |Lacking(p, s)| {
      var turns := LackingAnswer(p, s, n);
      assert EmptyAnswers(p, s, turns, n);
    }
  }

  /** The loop takes exactly these turns: it goes on after each but the last, and after the last
      it stops or has had one turn for every listed node. */
  ghost predicate LoopTakes(p: seq<VNode>, turns: seq<Turn<GetAnswer>>, minReads: int) {
    && |turns| <= |p|
    && (|turns| < |p| ==> turns != [] && !GoesOn(turns, CountReplies(turns), minReads))
    && forall k :: 0 < k < |turns| ==> GoesOn(turns[..k], CountReplies(turns[..k]), minReads)
  }

  /** A read of the state `s` that answers "not found" after `n` replies. */
  ghost predicate SaysNotFound(p: seq<VNode>, s: Holdings, minReads: int, nodeId: UInt64,
                               turns: seq<Turn<GetAnswer>>, n: nat)
  {
    && GetsFrom(p, turns) && HonestGets(KeyHistory(s, []), turns) && LoopTakes(p, turns, minReads)
    && CountReplies(turns) == n && ReadAnswer(turns, minReads, nodeId) == NotFound
  }

  lemma {:induction false} NoMoreThanEnough(turns: seq<Turn<GetAnswer>>, minReads: nat)
    requires minReads >= 1 && forall k :: 0 < k < |turns| ==> GoesOn(turns[..k], CountReplies(turns[..k]), minReads)
    ensures CountReplies(turns) <= minReads
  {
    if |turns| > 1 {
      var front := turns[..|turns| - 1];
      forall k | 0 < k < |front| ensures GoesOn(front[..k], CountReplies(front[..k]), minReads) {
        assert front[..k] == turns[..k];
      }
      NoMoreThanEnough(front, minReads);
      assert GoesOn(front, CountReplies(front), minReads);
    }
  }

  /** A read can say "not found" after `n` replies exactly if that many listed nodes lack the key,
      at least one and no more than the loop waits for, whoever else holds it. */
  lemma NotFoundIff(p: seq<VNode>, s: Holdings, minReads: int, nodeId: UInt64, n: nat)
    ensures (exists turns :: SaysNotFound(p, s, minReads, nodeId, turns, n))
            <==> 1 <= n <= |Lacking(p, s)| && (minReads < 1 || n <= minReads)
  {
    if turns :| SaysNotFound(p, s, minReads, nodeId, turns, n) {
      EmptyAnswersLack(p, s, turns, n);
      if minReads >= 1 {
        NoMoreThanEnough(turns, minReads);
      }
    }
    if 1 <= n <= |Lacking(p, s)| && (minReads < 1 || n <= minReads) {
      var turns := LackingAnswer(p, s, n);
      LackingLoop(p, s, minReads, nodeId, turns, n);
    }
  }

  lemma LackingLoop(p: seq<VNode>, s: Holdings, minReads: int, nodeId: UInt64, turns: seq<Turn<GetAnswer>>, n: nat)
    requires 1 <= n <= |Lacking(p, s)| && (minReads < 1 || n <= minReads)
    requires EmptyAnswers(p, s, turns, n) && |turns| == n
    requires forall k :: 0 <= k < n ==> turns[k].Answer? && turns[k].msg.reply.Missing? && (turns[k].expired <==> k == n - 1)
    ensures SaysNotFound(p, s, minReads, nodeId, turns, n)
  {
    forall k | 0 < k < n ensures GoesOn(turns[..k], CountReplies(turns[..k]), minReads) {
      MissingTurnsCounted(turns[..k]);
    }
    SubsetSize(Lacking(p, s), Ids(p));
    IdsAtMost(p);
  }

  /** Fewer replies than MIN_READS are enough for "not found", even about a key that a listed node
      holds, exactly if MIN_READS is at least two and some listed node lacks the key. */
  lemma NotFoundTooEarlyIff(p: seq<VNode>, s: Holdings, minReads: int, nodeId: UInt64)
    ensures (exists turns, n: nat :: n < minReads && SaysNotFound(p, s, minReads, nodeId, turns, n))
            <==> minReads >= 2 && Lacking(p, s) != {}
  {
    if turns, n: nat :| n < minReads && SaysNotFound(p, s, minReads, nodeId, turns, n) {
      NotFoundIff(p, s, minReads, nodeId, n);
    }
    if minReads >= 2 && Lacking(p, s) != {} {
      NotFoundIff(p, s, minReads, nodeId, 1);
      var turns :| SaysNotFound(p, s, minReads, nodeId, turns, 1);
    }
  }

  /** One listed node has the key and one has not: a single empty reply before the deadline makes
      the read answer "not found", whatever MIN_READS above one asks for. */
  lemma NotFoundWithTooFewAnswers(p: seq<VNode>, s: Holdings, minReads: int, nodeId: UInt64, holder: UInt64,
                                  other: UInt64)
    requires minReads >= 2 && {holder, other} <= Ids(p) && {holder, other} <= s.Keys
    requires s[holder].Found? && s[other] == KeyMissing
    ensures exists turns :: SaysNotFound(p, s, minReads, nodeId, turns, 1)
  {
    assert other in Lacking(p, s);
    NotFoundIff(p, s, minReads, nodeId, 1);
  }

  // ---------- replicated write, then read ----------

  lemma {:induction false} RepliesAgree(h: KeyHistory, turns: seq<Turn<GetAnswer>>, o: Object)
    requires HonestGets(h, turns)
    requires forall k :: 0 <= k < |turns| && turns[k].Answer? && !turns[k].msg.reply.Failed? ==>
               Moment(h, turns[k].msg.at)[turns[k].msg.node] == Found(o)
    ensures |Replicas(turns)| == CountReplies(turns) && forall r :: r in Replicas(turns) ==> r == o
  {
    if turns != [] {
      RepliesAgree(h, turns[..|turns| - 1], o);
    }
  }

  /** If all replicas of a key start alike and each takes the same write, they end alike: with the
      written value, unless the write was an ancestor of what they held. Every read that then
      gathers its answers, each from a node that has taken the write, returns that one version
      without conflict. */
  lemma WriteThenRead(o: GetOutcome, nodes: set<UInt64>, order: seq<UInt64>, w: Write,
                      turns: seq<Turn<GetAnswer>>, minReads: nat, nodeId: UInt64)
    requires Distinct(order) && minReads >= 1 && CountReplies(turns) == minReads
    requires var start := map n | n in nodes :: o; HonestGets(KeyHistory(start, SameWrite(start, order, w)), turns)
    requires forall k :: 0 <= k < |turns| && turns[k].Answer? && !turns[k].msg.reply.Failed? ==>
               turns[k].msg.at <= |order| && turns[k].msg.node in order[..turns[k].msg.at]
    ensures var o' := Accept(o.Existing(), w.incoming, w.sender);
            && ReadAnswer(turns, minReads, nodeId) == Read([o'], false, WriteCoordinator(turns, nodeId))
            && (!Absorbed(o.Existing(), w.incoming.vc) ==> o'.value == w.incoming.value)
  {
    var start := map n | n in nodes :: o;
    var h := KeyHistory(start, SameWrite(start, order, w));
    var o' := Accept(o.Existing(), w.incoming, w.sender);
    forall k | 0 <= k < |turns| && turns[k].Answer? && !turns[k].msg.reply.Failed?
      ensures Moment(h, turns[k].msg.at)[turns[k].msg.node] == Found(o')
    {
      var g := turns[k].msg;
      assert Truthful(h, g) && SameWrite(start, order, w)[..g.at] == SameWrite(start, order[..g.at], w);
      DeliveredAlike(h.start, order[..g.at], w, g.node);
    }
    RepliesAgree(h, turns, o');
    EqualReplicasAgree(Replicas(turns), o');
  }
}
