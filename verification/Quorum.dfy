/** Reads and writes against a preference list: how the answers are counted. */
module Quorum {
  import opened Naming
  import opened Sequences
  import opened RingSpec
  import opened Routing
  import opened Membership
  import opened Replica
  import opened Conflicts

  // ---------- collecting answers ----------

  /** What one turn of a collection loop takes in: an answer or the deadline. `expired` says
      whether the context is done by the time the loop looks. */
  datatype Turn<M> =
    | Answer(msg: M, expired: bool)
    | Deadline

  predicate LastTurn<M>(t: Turn<M>) {
    t.Deadline? || t.expired
  }

  datatype PutAnswer = PutAnswer(node: UInt64, ok: bool, at: nat)

  datatype Reply =
    | Failed
    | Missing
    | Got(obj: Object)

  /** `node` is the id on the preference list, a gRPC port. */
  datatype GetAnswer = GetAnswer(node: UInt64, reply: Reply, at: nat)

  /** The id an answer is reported under at the reader with HTTP port `nodeId`: its HTTP port for
      the reader itself, the gRPC port for everybody else. */
  function PeerId(node: UInt64, nodeId: UInt64): UInt64 {
    if node == GrpcPort(nodeId) then nodeId else node
  }

  /** A 64-bit word read as a signed number. */
  function Signed(x: UInt64): int {
    if x < TWO_TO_THE_64 / 2 then x else x - TWO_TO_THE_64
  }

  /** `int(peerId) + 3000` */
  function PortBehind(peerId: UInt64): int {
    Signed((peerId + 3000) % TWO_TO_THE_64)
  }

  datatype SuccessStatus = Unsuccessful | PartialSuccess | FullSuccess

  function CountOk(turns: seq<Turn<PutAnswer>>): nat {
    if turns == [] then 0
    else
      var last := turns[|turns| - 1];
      CountOk(turns[..|turns| - 1]) + if last.Answer? && last.msg.ok then 1 else 0
  }

  function CountReplies(turns: seq<Turn<GetAnswer>>): nat {
    if turns == [] then 0
    else
      var last := turns[|turns| - 1];
      CountReplies(turns[..|turns| - 1]) + if last.Answer? && !last.msg.reply.Failed? then 1 else 0
  }

  function Replicas(turns: seq<Turn<GetAnswer>>): (r: seq<Object>)
    ensures |r| <= CountReplies(turns)
  {
    if turns == [] then []
    else
      var last := turns[|turns| - 1];
      Replicas(turns[..|turns| - 1]) + if last.Answer? && last.msg.reply.Got? then [last.msg.reply.obj] else []
  }

  /** The turns among the first `n` that bring an acknowledgement. */
  ghost function Acks(turns: seq<Turn<PutAnswer>>, n: nat): set<nat> {
    set k: nat | k < n && k < |turns| && turns[k].Answer? && turns[k].msg.ok
  }

  lemma {:induction false} AcksCounted(turns: seq<Turn<PutAnswer>>, n: nat)
    requires n <= |turns|
    ensures CountOk(turns[..n]) == |Acks(turns, n)|
  {
    if n == 0 {
      assert Acks(turns, 0) == {};
    } else {
      AcksCounted(turns, n - 1);
      assert turns[..n][..n - 1] == turns[..n - 1];
      AcksSnoc(turns, n - 1);
    }
  }

  lemma AcksSnoc(turns: seq<Turn<PutAnswer>>, n: nat)
    requires n < |turns|
    ensures n !in Acks(turns, n)
    ensures Acks(turns, n + 1) == Acks(turns, n) + if turns[n].Answer? && turns[n].msg.ok then {n} else {}
  {
  }

  /** The turns among the first `n` that bring a reply, with or without a replica. */
  ghost function Replies(turns: seq<Turn<GetAnswer>>, n: nat): set<nat> {
    set k: nat | k < n && k < |turns| && turns[k].Answer? && !turns[k].msg.reply.Failed?
  }

  lemma {:induction false} RepliesAreCounted(turns: seq<Turn<GetAnswer>>, n: nat)
    requires n <= |turns|
    ensures CountReplies(turns[..n]) == |Replies(turns, n)|
  {
    if n == 0 {
      assert Replies(turns, 0) == {};
    } else {
      RepliesAreCounted(turns, n - 1);
      assert turns[..n][..n - 1] == turns[..n - 1];
      RepliesSnoc(turns, n - 1);
    }
  }

  lemma RepliesSnoc(turns: seq<Turn<GetAnswer>>, n: nat)
    requires n < |turns|
    ensures n !in Replies(turns, n)
    ensures Replies(turns, n + 1)
            == Replies(turns, n) + if turns[n].Answer? && !turns[n].msg.reply.Failed? then {n} else {}
  {
  }

  /** After `k` turns there is time left, and the acknowledgements are not yet as many as wanted. */
  ghost predicate AsksOnPuts(turns: seq<Turn<PutAnswer>>, k: nat, enough: int)
    requires 0 < k <= |turns|
  {
    turns[k - 1].Answer? && !turns[k - 1].expired && |Acks(turns, k)| != enough
  }

  ghost predicate AsksOnGets(turns: seq<Turn<GetAnswer>>, k: nat, enough: int)
    requires 0 < k <= |turns|
  {
    turns[k - 1].Answer? && !turns[k - 1].expired && |Replies(turns, k)| != enough
  }

  /** The turns that bring a replica. */
  ghost function Bringing(turns: seq<Turn<GetAnswer>>): set<nat> {
    set k: nat | k < |turns| && turns[k].Answer? && turns[k].msg.reply.Got?
  }

  /** The replicas are those brought, in the order of the turns. */
  lemma {:induction false} ReplicasInOrder(turns: seq<Turn<GetAnswer>>) returns (idx: seq<nat>)
    ensures Increasing(idx, Bringing(turns)) && |Replicas(turns)| == |idx|
    ensures forall k :: 0 <= k < |idx| ==> idx[k] < |turns| && turns[idx[k]].Answer?
                                           && turns[idx[k]].msg.reply == Got(Replicas(turns)[k])
  {
    idx := [];
    if turns != [] {
      var n := |turns| - 1;
      idx := ReplicasInOrder(turns[..n]);
      BringingSnoc(turns[..n], turns[n]);
      assert turns == turns[..n] + [turns[n]];
      if turns[n].Answer? && turns[n].msg.reply.Got? {
        IncreasingSnoc(idx, Bringing(turns[..n]), n);
        idx := idx + [n];
      }
    }
  }

  lemma BringingSnoc(turns: seq<Turn<GetAnswer>>, t: Turn<GetAnswer>)
    ensures Bringing(turns + [t]) == Bringing(turns) + if t.Answer? && t.msg.reply.Got? then {|turns|} else {}
  {
    assert forall k :: 0 <= k < |turns| ==> (turns + [t])[k] == turns[k];
  }

  /** After these turns, of which `n` counted, the loop goes on. */
  ghost predicate GoesOn<M>(turns: seq<Turn<M>>, n: nat, enough: int) {
    turns != [] && !LastTurn(turns[|turns| - 1]) && n != enough
  }

  /** The loop stopped after `used`: for the deadline, for enough answers, or for want of more
      nodes, and not before. */
  ghost predicate PutsStopAt(turns: seq<Turn<PutAnswer>>, used: nat, enough: int) {
    && used <= |turns|
    && (used < |turns| ==> used > 0 && !GoesOn(turns[..used], CountOk(turns[..used]), enough))
    && forall k :: 0 < k < used ==> GoesOn(turns[..k], CountOk(turns[..k]), enough)
  }

  ghost predicate GetsStopAt(turns: seq<Turn<GetAnswer>>, used: nat, enough: int) {
    && used <= |turns|
    && (used < |turns| ==> used > 0 && !GoesOn(turns[..used], CountReplies(turns[..used]), enough))
    && forall k :: 0 < k < used ==> GoesOn(turns[..k], CountReplies(turns[..k]), enough)
  }

  /** The collection loop of serverPutReplicas; one turn per entry of the preference list. */
  method CollectPuts(turns: seq<Turn<PutAnswer>>, minWrites: int)
    returns (status: SuccessStatus, successCount: nat, used: nat)
    ensures PutsStopAt(turns, used, minWrites)
    ensures successCount == CountOk(turns[..used]) == |Acks(turns, used)|
    ensures used <= |turns|
    ensures used < |turns| ==>
              used > 0 && (turns[used - 1].Deadline? || turns[used - 1].expired || successCount == minWrites)
    ensures forall k :: 0 < k < used ==> AsksOnPuts(turns, k, minWrites)
    ensures status == if successCount == 0 then Unsuccessful
                      else if successCount < minWrites then PartialSuccess else FullSuccess
  {
    successCount, used := 0, 0;
    while used < |turns|
      invariant used <= |turns| && successCount == CountOk(turns[..used])
      invariant forall k :: 0 < k <= used ==> GoesOn(turns[..k], CountOk(turns[..k]), minWrites)
    {
      assert turns[..used + 1][..used] == turns[..used];
      var turn := turns[used];
      used := used + 1;
      if turn.Answer? && turn.msg.ok {
        successCount := successCount + 1;
      }
      assert turns[used - 1] == turn && successCount == CountOk(turns[..used]);
      if LastTurn(turn) || successCount == minWrites {
        break;
      }
    }
    AcksCounted(turns, used);
    forall k | 0 < k < used ensures AsksOnPuts(turns, k, minWrites) {
      AcksCounted(turns, k);
      assert GoesOn(turns[..k], CountOk(turns[..k]), minWrites);
    }
    if successCount == 0 {
      status := Unsuccessful;
    } else if successCount < minWrites {
      status := PartialSuccess;
    } else {
      status := FullSuccess;
    }
  }

  datatype ReadResult =
    | AllDown                                   // error: every server is down
    | NotFound                                  // no error, no replicas
    | Insufficient                              // error: too few replicas
    | Read(replicas: seq<Object>, hasVersionConflict: bool, writeCoordinator: int)

  /** The running value of the write coordinator; -1 to begin with. */
  function WriteCoordinator(turns: seq<Turn<GetAnswer>>, nodeId: UInt64): int {
    if turns == [] then -1
    else
      var w, last := WriteCoordinator(turns[..|turns| - 1], nodeId), turns[|turns| - 1];
      if w < 0 && last.Answer? && last.msg.reply.Got? && PeerId(last.msg.node, nodeId) != nodeId
      then PortBehind(PeerId(last.msg.node, nodeId)) else w
  }

  lemma OneMoreGet(turns: seq<Turn<GetAnswer>>, k: nat, nodeId: UInt64)
    requires k < |turns|
    ensures CountReplies(turns[..k + 1])
            == CountReplies(turns[..k]) + if turns[k].Answer? && !turns[k].msg.reply.Failed? then 1 else 0
    ensures Replicas(turns[..k + 1])
            == if turns[k].Answer? && turns[k].msg.reply.Got? then Replicas(turns[..k]) + [turns[k].msg.reply.obj]
               else Replicas(turns[..k])
    ensures WriteCoordinator(turns[..k + 1], nodeId)
            == if WriteCoordinator(turns[..k], nodeId) < 0 && turns[k].Answer? && turns[k].msg.reply.Got?
                  && PeerId(turns[k].msg.node, nodeId) != nodeId
               then PortBehind(PeerId(turns[k].msg.node, nodeId)) else WriteCoordinator(turns[..k], nodeId)
  {
    assert turns[..k + 1][..k] == turns[..k];
  }

  /** The k-th turn brings a replica from somebody else, whose port is not negative as an int. */
  predicate OthersReplica(turns: seq<Turn<GetAnswer>>, nodeId: UInt64, k: nat) {
    && k < |turns| && turns[k].Answer? && turns[k].msg.reply.Got?
    && PeerId(turns[k].msg.node, nodeId) != nodeId && PortBehind(turns[k].msg.node) >= 0
  }

  /** Who counts as somebody else: a node whose HTTP port `p` is not the reader's, unless its gRPC
      port happens to be the reader's HTTP port; and the port found for it is `p`. */
  lemma OthersPort(p: UInt64, nodeId: UInt64)
    ensures PeerId(GrpcPort(p), nodeId) != nodeId <==> p != nodeId && p != (nodeId + 3000) % TWO_TO_THE_64
    ensures p < TWO_TO_THE_64 / 2 ==> PortBehind(GrpcPort(p)) == p
    ensures PortBehind(GrpcPort(p)) >= 0 <==> p < TWO_TO_THE_64 / 2
  {
    if GrpcPort(p) == GrpcPort(nodeId) {
      GrpcPortInjective(p, nodeId);
    }
  }

  ghost predicate NoneBefore(turns: seq<Turn<GetAnswer>>, nodeId: UInt64, n: nat) {
    forall j: nat :: j < n ==> !OthersReplica(turns, nodeId, j)
  }

  /** The write coordinator is the port of the first peer other than the reader that sent a
      replica, and negative exactly when there was none. */
  lemma {:induction false} WriteCoordinatorIsFirstOther(turns: seq<Turn<GetAnswer>>, nodeId: UInt64)
    ensures WriteCoordinator(turns, nodeId) < 0 <==> NoneBefore(turns, nodeId, |turns|)
    ensures forall k: nat :: OthersReplica(turns, nodeId, k) && NoneBefore(turns, nodeId, k) ==>
              WriteCoordinator(turns, nodeId) == PortBehind(turns[k].msg.node)
  {
    if turns != [] {
      var front, n := turns[..|turns| - 1], |turns| - 1;
      WriteCoordinatorIsFirstOther(front, nodeId);
      NoneBeforeInFront(turns, nodeId);
      forall k: nat | OthersReplica(turns, nodeId, k) && NoneBefore(turns, nodeId, k)
        ensures WriteCoordinator(turns, nodeId) == PortBehind(turns[k].msg.node)
      {
        if k < n {
          assert OthersReplica(front, nodeId, k);
        }
      }
    }
  }

  lemma NoneBeforeInFront(turns: seq<Turn<GetAnswer>>, nodeId: UInt64)
    requires turns != []
    ensures forall k: nat :: k < |turns| - 1 ==>
              (OthersReplica(turns, nodeId, k) <==> OthersReplica(turns[..|turns| - 1], nodeId, k))
    ensures forall k: nat :: k <= |turns| - 1 ==>
              (NoneBefore(turns, nodeId, k) <==> NoneBefore(turns[..|turns| - 1], nodeId, k))
    ensures NoneBefore(turns, nodeId, |turns|) <==>
              NoneBefore(turns, nodeId, |turns| - 1) && !OthersReplica(turns, nodeId, |turns| - 1)
  {
    var front, n := turns[..|turns| - 1], |turns| - 1;
    forall k: nat | k < n ensures OthersReplica(turns, nodeId, k) <==> OthersReplica(front, nodeId, k) {
    }
    forall k: nat | k <= n ensures NoneBefore(turns, nodeId, k) <==> NoneBefore(front, nodeId, k) {
      if NoneBefore(turns, nodeId, k) {
        forall j: nat | j < k ensures !OthersReplica(front, nodeId, j) {
          assert !OthersReplica(turns, nodeId, j);
        }
      }
      if NoneBefore(front, nodeId, k) {
        forall j: nat | j < k ensures !OthersReplica(turns, nodeId, j) {
          assert !OthersReplica(front, nodeId, j);
        }
      }
    }
  }

  /** The collection loop of serverGetReplicas. */
  method CollectReplies(turns: seq<Turn<GetAnswer>>, minReads: int, nodeId: UInt64)
    returns (replicas: seq<Object>, writeCoordinator: int, responseCount: nat, used: nat)
    ensures GetsStopAt(turns, used, minReads)
    ensures responseCount == CountReplies(turns[..used]) == |Replies(turns, used)|
    ensures used < |turns| ==>
              used > 0 && (turns[used - 1].Deadline? || turns[used - 1].expired || responseCount == minReads)
    ensures forall k :: 0 < k < used ==> AsksOnGets(turns, k, minReads)
    ensures replicas == Replicas(turns[..used])
    ensures writeCoordinator == WriteCoordinator(turns[..used], nodeId)
  {
    replicas, writeCoordinator, responseCount, used := [], -1, 0, 0;
    while used < |turns|
      invariant used <= |turns| && responseCount == CountReplies(turns[..used])
      invariant replicas == Replicas(turns[..used])
      invariant writeCoordinator == WriteCoordinator(turns[..used], nodeId)
      invariant forall k :: 0 < k <= used ==> GoesOn(turns[..k], CountReplies(turns[..k]), minReads)
    {
      OneMoreGet(turns, used, nodeId);
      var turn := turns[used];
      used := used + 1;
      if turn.Answer? {
        match turn.msg.reply {
          case Failed =>
          case Got(obj) =>
            responseCount := responseCount + 1;
            replicas := replicas + [obj];
            var peerId := PeerId(turn.msg.node, nodeId);
            if writeCoordinator < 0 && peerId != nodeId {
              writeCoordinator := PortBehind(peerId);
            }
          case Missing =>
            responseCount := responseCount + 1;
        }
      }
      if LastTurn(turn) || responseCount == minReads {
        break;
      }
    }
    RepliesAreCounted(turns, used);
    forall k | 0 < k < used ensures AsksOnGets(turns, k, minReads) {
      RepliesAreCounted(turns, k);
      assert GoesOn(turns[..k], CountReplies(turns[..k]), minReads);
    }
  }

  /** What a read answers after these turns. */
  function ReadAnswer(turns: seq<Turn<GetAnswer>>, minReads: int, nodeId: UInt64): ReadResult {
    var reps := Replicas(turns);
    if CountReplies(turns) == 0 then AllDown
    else if reps == [] then NotFound
    else if |reps| < minReads then Insufficient
    else Read(Kept(reps), |Kept(reps)| > 1, WriteCoordinator(turns, nodeId))
  }

  /** Which answer it is, and what it carries: with at least one replica and at least MIN_READS of them the
      versions that the filter lets through, flagged exactly if one survives beside the first, and
      the port of the first other peer that sent a replica; otherwise an error or an empty
      answer, told apart by how many replied and how many of them had the key. */
  ghost predicate AnswerFits(result: ReadResult, turns: seq<Turn<GetAnswer>>, minReads: int, nodeId: UInt64) {
    var reps := Replicas(turns);
    && (result.AllDown? <==> CountReplies(turns) == 0)
    && (result.NotFound? <==> CountReplies(turns) > 0 && reps == [])
    && (result.Insufficient? <==> 0 < |reps| < minReads)
    && (result.Read? <==> reps != [] && |reps| >= minReads)
    && (result.Read? ==>
          && Filtered(reps, result.replicas)
          && (result.hasVersionConflict <==> |result.replicas| > 1)
          && (result.hasVersionConflict <==> exists i :: Survives(reps, i))
          && (result.writeCoordinator < 0 <==> NoneBefore(turns, nodeId, |turns|))
          && forall k: nat :: OthersReplica(turns, nodeId, k) && NoneBefore(turns, nodeId, k) ==>
               result.writeCoordinator == PortBehind(turns[k].msg.node))
  }

  lemma AnswerIsFit(turns: seq<Turn<GetAnswer>>, minReads: int, nodeId: UInt64)
    ensures AnswerFits(ReadAnswer(turns, minReads, nodeId), turns, minReads, nodeId)
  {
    var reps := Replicas(turns);
    WriteCoordinatorIsFirstOther(turns, nodeId);
    if reps != [] {
      KeptIsFiltered(reps);
      ConflictReportedIff(reps);
    }
  }

  /** serverGetReplicas after the requests are sent: the loop and the answer made from it. */
  method CollectGets(turns: seq<Turn<GetAnswer>>, minReads: int, nodeId: UInt64)
    returns (result: ReadResult, responseCount: nat, used: nat)
    ensures GetsStopAt(turns, used, minReads)
    ensures responseCount == CountReplies(turns[..used])
    ensures result == ReadAnswer(turns[..used], minReads, nodeId)
    ensures AnswerFits(result, turns[..used], minReads, nodeId)
  {
    var replicas, writeCoordinator;
    replicas, writeCoordinator, responseCount, used := CollectReplies(turns, minReads, nodeId);
    if responseCount == 0 {
      result := AllDown;
    } else if replicas == [] {
      result := NotFound;
    } else if |replicas| < minReads {
      result := Insufficient;
    } else {
      var conflictingReps := GetConflictingReps(replicas);
      result := Read(conflictingReps, |conflictingReps| > 1, writeCoordinator);
    }
    AnswerIsFit(turns[..used], minReads, nodeId);
  }

  // ---------- who answered ----------

  /** Every node of the preference list answers at most once. */
  ghost predicate PutsFrom(prefList: seq<VNode>, turns: seq<Turn<PutAnswer>>) {
    && (forall k :: 0 <= k < |turns| && turns[k].Answer? ==> turns[k].msg.node in Ids(prefList))
    && (forall j, k :: 0 <= j < k < |turns| && turns[j].Answer? && turns[k].Answer? ==>
          turns[j].msg.node != turns[k].msg.node)
  }

  ghost predicate GetsFrom(prefList: seq<VNode>, turns: seq<Turn<GetAnswer>>) {
    && (forall k :: 0 <= k < |turns| && turns[k].Answer? ==> turns[k].msg.node in Ids(prefList))
    && (forall j, k :: 0 <= j < k < |turns| && turns[j].Answer? && turns[k].Answer? ==>
          turns[j].msg.node != turns[k].msg.node)
  }

  ghost function Writers(turns: seq<Turn<PutAnswer>>): set<UInt64> {
    set t | t in turns && t.Answer? && t.msg.ok :: t.msg.node
  }

  ghost function Responders(turns: seq<Turn<GetAnswer>>): set<UInt64> {
    set t | t in turns && t.Answer? && !t.msg.reply.Failed? :: t.msg.node
  }

  lemma WritersSnoc(front: seq<Turn<PutAnswer>>, last: Turn<PutAnswer>)
    ensures Writers(front + [last]) == Writers(front) + if last.Answer? && last.msg.ok then {last.msg.node} else {}
  {
  }

  lemma {:induction false} WritersCounted(prefList: seq<VNode>, turns: seq<Turn<PutAnswer>>)
    requires PutsFrom(prefList, turns)
    ensures |Writers(turns)| == CountOk(turns) && Writers(turns) <= Ids(prefList)
  {
    if turns != [] {
      var front, last := turns[..|turns| - 1], turns[|turns| - 1];
      assert turns == front + [last];
      WritersCounted(prefList, front);
      WritersSnoc(front, last);
    }
  }

  lemma RespondersSnoc(front: seq<Turn<GetAnswer>>, last: Turn<GetAnswer>)
    ensures Responders(front + [last])
            == Responders(front) + if last.Answer? && !last.msg.reply.Failed? then {last.msg.node} else {}
  {
  }

  lemma {:induction false} RespondersCounted(prefList: seq<VNode>, turns: seq<Turn<GetAnswer>>)
    requires GetsFrom(prefList, turns)
    ensures |Responders(turns)| == CountReplies(turns) && Responders(turns) <= Ids(prefList)
  {
    if turns != [] {
      var front, last := turns[..|turns| - 1], turns[|turns| - 1];
      assert turns == front + [last];
      RespondersCounted(prefList, front);
      RespondersSnoc(front, last);
    }
  }

  /** Two sets too large to be disjoint. */
  lemma Pigeonhole(a: set<UInt64>, b: set<UInt64>, all: set<UInt64>)
    requires a <= all && b <= all && |a| + |b| > |all|
    ensures a * b != {}
  {
    if a * b == {} {
      assert |a + b| == |a| + |b|;
      SubsetSize(a + b, all);
    }
  }

  lemma {:induction false} IdCount(p: seq<VNode>)
    requires DistinctIds(p)
    ensures |Ids(p)| == |p|
  {
    if p != [] {
      var front, last := p[..|p| - 1], p[|p| - 1];
      IdCount(front);
      assert p == front + [last];
      IdsSnoc(front, last);
    }
  }

  lemma {:induction false} ReplicaListed(turns: seq<Turn<GetAnswer>>, k: nat)
    requires k < |turns| && turns[k].Answer? && turns[k].msg.reply.Got?
    ensures turns[k].msg.reply.obj in Replicas(turns)
  {
    if k < |turns| - 1 {
      ReplicaListed(turns[..|turns| - 1], k);
    }
  }
}
