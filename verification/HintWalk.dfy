/** Choosing a node to keep a hint: the walk around the ring from behind the failed target. */
module HintWalk {
  import opened Naming
  import opened Sequences
  import opened RingSpec
  import opened Routing
  import opened RingHeap
  import opened HeapLaws

  /** The nodes of a lap that belong neither to the sender nor to the failed node. */
  function Candidates(lap: seq<VNode>, sender: UInt64, failed: UInt64): (c: seq<VNode>)
    ensures |c| <= |lap|
  {
    if lap == [] then []
    else
      var last := lap[|lap| - 1];
      Candidates(lap[..|lap| - 1], sender, failed)
      + if last.id == sender || last.id == failed then [] else [last]
  }

  /** The rest of the circle behind position `p`, in clockwise order, without `p` itself. */
  function LapBehind<T>(s: seq<T>, p: nat): (lap: seq<T>)
    requires p < |s|
    ensures |lap| == |s| - 1
  {
    s[p + 1..] + s[..p]
  }

  /** What a walk has done: the candidates tried, in order, all in vain except possibly the last. */
  ghost predicate WalkResult(lap: seq<VNode>, sender: UInt64, failed: UInt64, outcome: nat -> bool,
                             tried: seq<VNode>, delivered: bool)
  {
    && tried <= Candidates(lap, sender, failed)
    && (forall i :: 0 <= i < |tried| - 1 ==> !outcome(i))
    && (delivered <==> tried != [] && outcome(|tried| - 1))
    && (!delivered ==> tried == Candidates(lap, sender, failed))
  }

  /** What the walk has done before it has met a success. */
  ghost predicate InVain(lap: seq<VNode>, sender: UInt64, failed: UInt64, outcome: nat -> bool, tried: seq<VNode>) {
    tried == Candidates(lap, sender, failed) && forall i :: 0 <= i < |tried| ==> !outcome(i)
  }

  lemma CandidatesSnoc(lap: seq<VNode>, v: VNode, sender: UInt64, failed: UInt64)
    ensures Candidates(lap + [v], sender, failed)
            == Candidates(lap, sender, failed) + if v.id == sender || v.id == failed then [] else [v]
  {
  }

  lemma {:induction false} CandidatesConcat(a: seq<VNode>, b: seq<VNode>, sender: UInt64, failed: UInt64)
    ensures Candidates(a + b, sender, failed) == Candidates(a, sender, failed) + Candidates(b, sender, failed)
  {
    if b == [] {
      assert a + b == a;
    } else {
      assert (a + b)[..|a + b| - 1] == a + b[..|b| - 1];
      CandidatesConcat(a, b[..|b| - 1], sender, failed);
    }
  }

  /** Ending the walk with a success inside the lap. */
  lemma SuccessEndsWalk(lap: seq<VNode>, n: nat, sender: UInt64, failed: UInt64, outcome: nat -> bool, tried: seq<VNode>)
    requires n < |lap| && InVain(lap[..n], sender, failed, outcome, tried)
    requires lap[n].id != sender && lap[n].id != failed && outcome(|tried|)
    ensures WalkResult(lap, sender, failed, outcome, tried + [lap[n]], true)
  {
    assert lap == lap[..n] + [lap[n]] + lap[n + 1..];
    CandidatesConcat(lap[..n] + [lap[n]], lap[n + 1..], sender, failed);
    CandidatesSnoc(lap[..n], lap[n], sender, failed);
  }

  lemma FailureGoesOn(lap: seq<VNode>, n: nat, sender: UInt64, failed: UInt64, outcome: nat -> bool, tried: seq<VNode>)
    requires n < |lap| && InVain(lap[..n], sender, failed, outcome, tried)
    requires lap[n].id != sender && lap[n].id != failed ==> !outcome(|tried|)
    ensures InVain(lap[..n + 1], sender, failed, outcome,
                   if lap[n].id == sender || lap[n].id == failed then tried else tried + [lap[n]])
  {
    assert lap[..n + 1] == lap[..n] + [lap[n]];
    CandidatesSnoc(lap[..n], lap[n], sender, failed);
  }

  // ---------- the walk in its own terms ----------

  /** The distances, short of a whole lap, at which a node stands that may keep the hint. */
  ghost function Eligible(s: seq<VNode>, p: nat, sender: UInt64, failed: UInt64): set<nat>
    requires p < |s|
  {
    set o: nat | 1 <= o < |s| && CircleAt(s, p, o).id != sender && CircleAt(s, p, o).id != failed
  }

  /** The eligible nodes are tried in the order of their distance; all attempts but the last fail, the
      last succeeds exactly if the hint is delivered, and otherwise none is left out. */
  ghost predicate TriedClockwise(s: seq<VNode>, p: nat, sender: UInt64, failed: UInt64, outcome: nat -> bool,
                                 tried: seq<VNode>, delivered: bool)
    requires p < |s|
  {
    exists offs :: Increasing(offs, Eligible(s, p, sender, failed))
                   && TriedAt(s, p, offs, outcome, tried, delivered)
  }

  ghost predicate TriedAt(s: seq<VNode>, p: nat, offs: seq<nat>, outcome: nat -> bool, tried: seq<VNode>,
                          delivered: bool)
    requires p < |s|
  {
    && |tried| <= |offs|
    && (forall k :: 0 <= k < |tried| ==> offs[k] < |s| && tried[k] == CircleAt(s, p, offs[k]))
    && (forall k :: 0 <= k < |tried| - 1 ==> !outcome(k))
    && (delivered <==> tried != [] && outcome(|tried| - 1))
    && (!delivered ==> |tried| == |offs|)
  }

  ghost function EligibleIn(lap: seq<VNode>, sender: UInt64, failed: UInt64): set<nat> {
    set i: nat | i < |lap| && lap[i].id != sender && lap[i].id != failed
  }

  lemma EligibleInSnoc(lap: seq<VNode>, v: VNode, sender: UInt64, failed: UInt64)
    ensures EligibleIn(lap + [v], sender, failed)
            == EligibleIn(lap, sender, failed) + if v.id != sender && v.id != failed then {|lap|} else {}
  {
    assert forall i :: 0 <= i < |lap| ==> (lap + [v])[i] == lap[i];
  }

  lemma {:induction false} CandidatesAt(lap: seq<VNode>, sender: UInt64, failed: UInt64) returns (idx: seq<nat>)
    ensures Increasing(idx, EligibleIn(lap, sender, failed)) && |idx| == |Candidates(lap, sender, failed)|
    ensures forall k :: 0 <= k < |idx| ==> idx[k] < |lap| && Candidates(lap, sender, failed)[k] == lap[idx[k]]
  {
    idx := [];
    if lap != [] {
      var front, last := lap[..|lap| - 1], lap[|lap| - 1];
      assert lap == front + [last];
      idx := CandidatesAt(front, sender, failed);
      EligibleInSnoc(front, last, sender, failed);
      CandidatesSnoc(front, last, sender, failed);
      if last.id != sender && last.id != failed {
        IncreasingSnoc(idx, EligibleIn(front, sender, failed), |front|);
        idx := idx + [|front|];
      }
    }
  }

  /** Position `i` of the lap is `i + 1` steps away. */
  lemma LapIsCircle<T>(s: seq<T>, p: nat)
    requires p < |s|
    ensures forall i :: 0 <= i < |s| - 1 ==> LapBehind(s, p)[i] == CircleAt(s, p, i + 1)
  {
  }

  function Shifted(idx: seq<nat>): (offs: seq<nat>)
    ensures |offs| == |idx|
    ensures forall k :: 0 <= k < |idx| ==> offs[k] == idx[k] + 1
  {
    seq(|idx|, i requires 0 <= i < |idx| => idx[i] + 1)
  }

  lemma ShiftedIncreasing(idx: seq<nat>, s: set<nat>, t: set<nat>)
    requires Increasing(idx, s) && 0 !in t && forall i: nat :: i in s <==> i + 1 in t
    ensures Increasing(Shifted(idx), t)
  {
    var offs := Shifted(idx);
    forall o | o in offs ensures o in t {
      var k := IndexOf(offs, o);
      assert idx[k] in idx;
    }
    forall o | o in t ensures o in offs {
      assert o - 1 in s && o - 1 in idx;
      assert offs[IndexOf(idx, o - 1)] == o;
    }
  }

  lemma WalkIsClockwise(s: seq<VNode>, p: nat, sender: UInt64, failed: UInt64, outcome: nat -> bool, tried: seq<VNode>,
                        delivered: bool)
    requires p < |s| && WalkResult(LapBehind(s, p), sender, failed, outcome, tried, delivered)
    ensures TriedClockwise(s, p, sender, failed, outcome, tried, delivered)
  {
    var lap := LapBehind(s, p);
    var idx := CandidatesAt(lap, sender, failed);
    LapIsCircle(s, p);
    forall i: nat ensures i in EligibleIn(lap, sender, failed) <==> i + 1 in Eligible(s, p, sender, failed) {
      if i < |lap| {
        assert lap[i] == CircleAt(s, p, i + 1);
      }
    }
    ShiftedIncreasing(idx, EligibleIn(lap, sender, failed), Eligible(s, p, sender, failed));
    assert TriedAt(s, p, Shifted(idx), outcome, tried, delivered);
  }

  class HintSender {
    const ring: Ring
    const internalAddr: UInt64

    constructor (ring: Ring, internalAddr: UInt64)
      ensures this.ring == ring && this.internalAddr == internalAddr
    {
      this.ring, this.internalAddr := ring, internalAddr;
    }

    /** One node of the walk: skipped if it is the sender's or the failed one's, tried otherwise. */
    method TryNode(node: VirtualNode, failed: UInt64, outcome: nat -> bool, tried0: seq<VNode>,
                   ghost lap: seq<VNode>, ghost n: nat)
      returns (tried: seq<VNode>, delivered: bool)
      requires n < |lap| && ValueOf(node) == lap[n]
      requires InVain(lap[..n], internalAddr, failed, outcome, tried0)
      ensures delivered ==> WalkResult(lap, internalAddr, failed, outcome, tried, true)
      ensures !delivered ==> InVain(lap[..n + 1], internalAddr, failed, outcome, tried)
    {
      if node.NodeId == internalAddr || node.NodeId == failed {
        FailureGoesOn(lap, n, internalAddr, failed, outcome, tried0);
        return tried0, false;
      }
      delivered := outcome(|tried0|);
      tried := tried0 + [ValueOf(node)];
      if delivered {
        SuccessEndsWalk(lap, n, internalAddr, failed, outcome, tried0);
      } else {
        FailureGoesOn(lap, n, internalAddr, failed, outcome, tried0);
      }
    }

    /** First loop: from behind the target to the tail. */
    method TryBehind(target: VirtualNode, ghost p: nat, failed: UInt64, outcome: nat -> bool)
      returns (tried: seq<VNode>, delivered: bool)
      requires ring.Nodes.Valid() && p < |ring.Nodes.Spine| && target == ring.Nodes.Spine[p]
      ensures var lap := LapBehind(Values(ring.Nodes.Spine), p);
              && (delivered ==> WalkResult(lap, internalAddr, failed, outcome, tried, true))
              && (!delivered ==> InVain(lap[..|lap| - p], internalAddr, failed, outcome, tried))
    {
      ghost var lap := LapBehind(Values(ring.Nodes.Spine), p);
      var nextNode := target.Next;
      ghost var j := p + 1;
      tried, delivered := [], false;
      while nextNode != null
        invariant p < j <= |ring.Nodes.Spine|
        invariant nextNode == if j == |ring.Nodes.Spine| then null else ring.Nodes.Spine[j]
        invariant InVain(lap[..j - p - 1], internalAddr, failed, outcome, tried)
        decreases |ring.Nodes.Spine| - j
      {
        tried, delivered := TryNode(nextNode, failed, outcome, tried, lap, j - p - 1);
        if delivered {
          return;
        }
        nextNode := nextNode.Next;
        j := j + 1;
      }
    }

    /** Second loop: from the head to the target, recognised by its virtual name. */
    method TryBefore(target: VirtualNode, ghost p: nat, failed: UInt64, outcome: nat -> bool, tried0: seq<VNode>)
      returns (tried: seq<VNode>, delivered: bool)
      requires ring.Nodes.Valid() && p < |ring.Nodes.Spine| && target == ring.Nodes.Spine[p]
      requires forall m :: 0 <= m < p ==> ring.Nodes.Spine[m].VirtualName != target.VirtualName
      requires var lap := LapBehind(Values(ring.Nodes.Spine), p);
               InVain(lap[..|lap| - p], internalAddr, failed, outcome, tried0)
      ensures var lap := LapBehind(Values(ring.Nodes.Spine), p);
              && (delivered ==> WalkResult(lap, internalAddr, failed, outcome, tried, true))
              && (!delivered ==> InVain(lap, internalAddr, failed, outcome, tried))
    {
      ghost var lap := LapBehind(Values(ring.Nodes.Spine), p);
      tried, delivered := WalkFromHead(target, p, failed, outcome, tried0, lap);
    }

    /** The loop of it, on a lap that ends with the nodes in front of the target. */
    method WalkFromHead(target: VirtualNode, ghost p: nat, failed: UInt64, outcome: nat -> bool, tried0: seq<VNode>,
                        ghost lap: seq<VNode>)
      returns (tried: seq<VNode>, delivered: bool)
      requires ring.Nodes.Valid() && p < |ring.Nodes.Spine| && target == ring.Nodes.Spine[p] && p <= |lap|
      requires forall m :: 0 <= m < p ==> ring.Nodes.Spine[m].VirtualName != target.VirtualName
      requires forall m :: 0 <= m < p ==> lap[|lap| - p + m] == ValueOf(ring.Nodes.Spine[m])
      requires InVain(lap[..|lap| - p], internalAddr, failed, outcome, tried0)
      ensures delivered ==> WalkResult(lap, internalAddr, failed, outcome, tried, true)
      ensures !delivered ==> InVain(lap, internalAddr, failed, outcome, tried)
    {
      var nextNode := ring.Nodes.Head;
      ghost var j := 0;
      tried, delivered := tried0, false;
      while nextNode.VirtualName != target.VirtualName
        invariant j <= p && nextNode == ring.Nodes.Spine[j]
        invariant InVain(lap[..|lap| - p + j], internalAddr, failed, outcome, tried)
        decreases p - j
      {
        tried, delivered := TryNode(nextNode, failed, outcome, tried, lap, |lap| - p + j);
        if delivered {
          return;
        }
        nextNode := nextNode.Next;
        j := j + 1;
      }
      assert lap[..|lap|] == lap;
    }

    /** Looks for a node to keep the hint: behind the failed target up to the tail, then from the
        head up to the target. `outcome(i)` says whether the i-th attempt succeeds; `origNode` is
        the name under which the hint is filed. */
    method InitiateHintedHandoff(originalTarget: VirtualNode, ghost p: nat, outcome: nat -> bool)
      returns (origNode: string, tried: seq<VNode>, delivered: bool)
      requires ring.Valid() && WellFormed(ring.cfg, ring.Abs())
      requires p < |ring.Nodes.Spine| && originalTarget == ring.Nodes.Spine[p]
      ensures WalkResult(LapBehind(Values(ring.Nodes.Spine), p), internalAddr, originalTarget.NodeId, outcome,
                         tried, delivered)
      ensures TriedClockwise(Values(ring.Nodes.Spine), p, internalAddr, originalTarget.NodeId, outcome,
                         tried, delivered)
      ensures origNode in ring.NodeMap && originalTarget in ring.NodeMap[origNode].VirtualNodes
    {
      OwnerOnRing(ring.cfg, ring.NodeMap, ring.Nodes.Spine, p);
      NamesUnique(ring.cfg, ring.Abs(), ring.Nodes.Spine, p);
      origNode := OwnerName(originalTarget.VirtualName);
      var failed := originalTarget.NodeId;
      tried, delivered := TryBehind(originalTarget, p, failed, outcome);
      if !delivered {
        tried, delivered := TryBefore(originalTarget, p, failed, outcome, tried);
      }
      WalkIsClockwise(Values(ring.Nodes.Spine), p, internalAddr, failed, outcome, tried, delivered);
    }
  }

  /** No virtual node is tried twice. */
  lemma CandidatesDistinct(s: seq<VNode>, p: nat, sender: UInt64, failed: UInt64)
    requires Distinct(s) && p < |s|
    ensures Distinct(Candidates(LapBehind(s, p), sender, failed)) && s[p] !in LapBehind(s, p)
    ensures forall v :: v in Candidates(LapBehind(s, p), sender, failed) <==>
              v in s && v != s[p] && v.id != sender && v.id != failed
  {
    var lap := LapBehind(s, p);
    assert s == s[..p] + [s[p]] + s[p + 1..];
    assert Distinct(lap);
    CandidatesMembers(lap, sender, failed);
    forall v ensures v in lap <==> v in s && v != s[p] {
      assert v in s <==> v in s[..p] || v == s[p] || v in s[p + 1..];
    }
  }

  lemma {:induction false} CandidatesMembers(lap: seq<VNode>, sender: UInt64, failed: UInt64)
    requires Distinct(lap)
    ensures Distinct(Candidates(lap, sender, failed))
    ensures forall v :: v in Candidates(lap, sender, failed) <==> v in lap && v.id != sender && v.id != failed
  {
    if lap != [] {
      CandidatesMembers(lap[..|lap| - 1], sender, failed);
      assert lap == lap[..|lap| - 1] + [lap[|lap| - 1]];
    }
  }
}
