/** The conflict filter of a read: what getConflictingReps makes of the replicas received. */
module Conflicts {
  import opened Sequences
  import opened VectorClock
  import opened Replica

  /** The clock the filter compares the next replica with: the first replica's, or the last
      strict ancestor it has been replaced by. */
  function Target(reps: seq<Object>): Clock
    requires reps != []
  {
    if |reps| == 1 then reps[0].vc
    else
      var t, c := Target(reps[..|reps| - 1]), reps[|reps| - 1].vc;
      if IsDescendantOf(c, t) then c else t
  }

  /** What is returned: the first replica, and those received since the last replacement that
      are concurrent with the target. */
  function Kept(reps: seq<Object>): (r: seq<Object>)
    requires reps != []
    ensures r != [] && r[0] == reps[0]
  {
    if |reps| == 1 then reps
    else
      var t, last := Target(reps[..|reps| - 1]), reps[|reps| - 1];
      if IsDescendantOf(last.vc, t) then [reps[0]]
      else if IsConcurrentWith(last.vc, t) then Kept(reps[..|reps| - 1]) + [last]
      else Kept(reps[..|reps| - 1])
  }

  /** `append(output[:j], output[:j+1]...)`: the prefix up to `j`, and behind it the prefix that
      includes `j`. */
  function AppendPrefixes(output: seq<Object>, j: nat): seq<Object>
    requires j < |output|
  {
    output[..j] + output[..j + 1]
  }

  lemma {:induction false} TargetBelowFirst(reps: seq<Object>)
    requires reps != []
    ensures Leq(Target(reps), reps[0].vc)
  {
    if |reps| > 1 {
      TargetBelowFirst(reps[..|reps| - 1]);
      if Target(reps) != Target(reps[..|reps| - 1]) {
        LeqTransitive(Target(reps), Target(reps[..|reps| - 1]), reps[0].vc);
      }
    }
  }

  /** A strict ancestor of the target is a strict ancestor of the first replica. */
  lemma BelowTargetIsBelowFirst(reps: seq<Object>, c: Clock)
    requires reps != [] && IsDescendantOf(c, Target(reps))
    ensures IsAncestorOf(reps[0].vc, c)
  {
  }

  /** The filter. Its inner loop appends to the slice it scans; it ends because the very first
      entry always matches and cuts the slice down to itself. */
  method GetConflictingReps(replicas: seq<Object>) returns (output: seq<Object>)
    requires replicas != []
    ensures output == Kept(replicas) && Filtered(replicas, output)
  {
    output := [replicas[0]];
    var targetVClock := replicas[0].vc;
    assert replicas[..1] == [replicas[0]];
    for i := 1 to |replicas|
      invariant targetVClock == Target(replicas[..i])
      invariant output == Kept(replicas[..i])
    {
      var replicaVClock := replicas[i].vc;
      assert replicas[..i + 1][..i] == replicas[..i];
      if IsEqualTo(replicaVClock, targetVClock) || IsDescendantOf(targetVClock, replicaVClock) {
        if IsDescendantOf(replicaVClock, targetVClock) {
          LeqAntisymmetric(replicaVClock, targetVClock);
        }
      } else if IsDescendantOf(replicaVClock, targetVClock) {
        BelowTargetIsBelowFirst(replicas[..i], replicaVClock);
        targetVClock := replicaVClock;
        var j := 0;
        while j < |output|
          invariant j <= 1 && output != [] && output[0] == replicas[0]
          invariant j == 1 ==> output == [replicas[0]]
          decreases 1 - j
        {
          if IsAncestorOf(output[j].vc, targetVClock) {
            output := AppendPrefixes(output, j);
          }
          j := j + 1;
        }
      } else if IsConcurrentWith(replicaVClock, targetVClock) {
        output := output + [replicas[i]];
      }
    }
    assert replicas[..|replicas|] == replicas;
    KeptIsFiltered(replicas);
  }

  // ---------- what a reported conflict means ----------

  lemma {:induction false} KeptAreReceived(reps: seq<Object>)
    requires reps != []
    ensures forall r :: r in Kept(reps) ==> r in reps
    ensures exists r :: r in reps && r.vc == Target(reps)
    ensures forall k :: 1 <= k < |Kept(reps)| ==> IsConcurrentWith(Kept(reps)[k].vc, Target(reps))
  {
    if |reps| == 1 {
      assert reps[0] in reps;
    } else {
      var front, last := reps[..|reps| - 1], reps[|reps| - 1];
      KeptAreReceived(front);
      assert last in reps;
      assert forall r :: r in front ==> r in reps;
    }
  }

  ghost predicate SomeConcurrent(reps: seq<Object>) {
    exists r, q :: r in reps && q in reps && IsConcurrentWith(r.vc, q.vc)
  }

  /** More than one version is returned only if two received replicas are truly concurrent. */
  lemma ConflictIsReal(reps: seq<Object>)
    requires reps != [] && |Kept(reps)| > 1
    ensures SomeConcurrent(reps)
  {
    KeptAreReceived(reps);
    var q :| q in reps && q.vc == Target(reps);
    assert Kept(reps)[1] in Kept(reps);
    assert IsConcurrentWith(Kept(reps)[1].vc, q.vc);
  }

  /** The converse fails: an ancestor of the first replica that arrives after a truly concurrent
      version wipes the conflict out. */
  lemma ConflictCanBeLost(a: Object, b: Object, c: Object)
    requires IsConcurrentWith(a.vc, b.vc) && IsAncestorOf(a.vc, c.vc)
    ensures SomeConcurrent([a, b, c]) && Kept([a, b, c]) == [a]
  {
  }

  lemma {:induction false} TargetDescends(reps: seq<Object>, i: nat)
    requires 1 <= i <= |reps|
    ensures Leq(Target(reps), Target(reps[..i]))
    decreases |reps|
  {
    if i == |reps| {
      assert reps[..i] == reps;
    } else {
      var front := reps[..|reps| - 1];
      assert front[..i] == reps[..i];
      TargetDescends(front, i);
      LeqTransitive(Target(reps), Target(front), Target(reps[..i]));
    }
  }

  lemma ReplacedForGood(reps: seq<Object>, i: nat)
    requires 1 <= i < |reps|
    requires IsDescendantOf(reps[|reps| - 1].vc, Target(reps[..|reps| - 1]))
    ensures Target(reps[..i]) != Target(reps)
  {
    var front := reps[..|reps| - 1];
    assert front[..i] == reps[..i];
    TargetDescends(front, i);
    if Target(reps[..i]) == Target(reps) {
      LeqAntisymmetric(Target(reps), Target(front));
    }
  }

  /** The i-th replica is concurrent with the final target and arrived after the last replacement. */
  ghost predicate Survives(reps: seq<Object>, i: nat)
    requires reps != []
  {
    1 <= i < |reps| && IsConcurrentWith(reps[i].vc, Target(reps)) && Target(reps[..i]) == Target(reps)
  }

  lemma SurvivesInFront(reps: seq<Object>, i: nat)
    requires |reps| > 1 && i < |reps| - 1 && Target(reps) == Target(reps[..|reps| - 1])
    ensures Survives(reps, i) <==> Survives(reps[..|reps| - 1], i)
  {
    assert reps[..|reps| - 1][..i] == reps[..i];
  }

  lemma NoneSurvives(reps: seq<Object>, i: nat)
    requires |reps| > 1 && IsDescendantOf(reps[|reps| - 1].vc, Target(reps[..|reps| - 1]))
    ensures !Survives(reps, i)
  {
    if 1 <= i < |reps| {
      ReplacedForGood(reps, i);
    }
  }

  /** `idx` lists the given positions in increasing order. */
  ghost predicate Lists(idx: seq<nat>, reps: seq<Object>)
    requires reps != []
  {
    && (forall j, k :: 0 <= j < k < |idx| ==> idx[j] < idx[k])
    && (forall k :: 0 <= k < |idx| ==> Survives(reps, idx[k]))
    && (forall i :: Survives(reps, i) ==> i in idx)
  }

  /** Exactly what is returned: the first replica and then, in the order received, every replica
      that survives. */
  lemma {:induction false} KeptExactly(reps: seq<Object>) returns (idx: seq<nat>)
    requires reps != []
    ensures Lists(idx, reps)
    ensures |Kept(reps)| == 1 + |idx| && Kept(reps)[0] == reps[0]
    ensures forall k :: 0 <= k < |idx| ==> Kept(reps)[1 + k] == reps[idx[k]]
  {
    idx := [];
    if |reps| > 1 {
      var n := |reps| - 1;
      var front, last := reps[..n], reps[n];
      if IsDescendantOf(last.vc, Target(front)) {
        forall i ensures !Survives(reps, i) {
          NoneSurvives(reps, i);
        }
      } else {
        idx := KeptExactly(front);
        OneMoreArrives(reps, front, n);
        if IsConcurrentWith(last.vc, Target(front)) {
          idx := idx + [n];
        }
      }
    }
  }

  /** Unless the last replica replaces the target, those before it survive as they did. */
  lemma OneMoreArrives(reps: seq<Object>, front: seq<Object>, n: nat)
    requires n >= 1 && |reps| == n + 1 && front == reps[..n] && !IsDescendantOf(reps[n].vc, Target(front))
    ensures Target(reps) == Target(front)
    ensures forall i: nat :: i < n ==> (Survives(reps, i) <==> Survives(front, i))
    ensures Survives(reps, n) <==> IsConcurrentWith(reps[n].vc, Target(front))
  {
    forall i: nat | i < n ensures Survives(reps, i) <==> Survives(front, i) {
      SurvivesInFront(reps, i);
    }
  }

  /** `out` is the first replica received and then, in the order received, exactly those that survive. */
  ghost predicate Filtered(reps: seq<Object>, out: seq<Object>)
    requires reps != []
  {
    && out != [] && out[0] == reps[0]
    && exists idx :: Lists(idx, reps) && |out| == 1 + |idx| && forall k :: 0 <= k < |idx| ==> out[1 + k] == reps[idx[k]]
  }

  lemma KeptIsFiltered(reps: seq<Object>)
    requires reps != []
    ensures Filtered(reps, Kept(reps))
  {
    var idx := KeptExactly(reps);
  }

  /** So a conflict is reported if and only if some replica survives beside the first. */
  lemma ConflictReportedIff(reps: seq<Object>)
    requires reps != []
    ensures |Kept(reps)| > 1 <==> exists i :: Survives(reps, i)
  {
    var idx := KeptExactly(reps);
    if |Kept(reps)| > 1 {
      assert Survives(reps, idx[0]);
    }
  }

  /** The i-th version received is lost to the reader: no version returned is at least as new. */
  ghost predicate Lost(reps: seq<Object>, i: nat)
    requires reps != []
  {
    i < |reps| && forall r :: r in Kept(reps) ==> !Leq(reps[i].vc, r.vc)
  }

  /** A received version is lost exactly if it is neither at most the first one nor at most one that
      survives beside it. In particular a strictly newer version is lost when all that survives is
      the first. */
  lemma LostIff(reps: seq<Object>, i: nat)
    requires reps != [] && i < |reps|
    ensures Lost(reps, i) <==> !Leq(reps[i].vc, reps[0].vc)
                               && forall j: nat :: Survives(reps, j) ==> !Leq(reps[i].vc, reps[j].vc)
  {
    var idx := KeptExactly(reps);
    var kept := Kept(reps);
    assert kept[0] in kept;
    if Lost(reps, i) {
      forall j: nat | Survives(reps, j) ensures !Leq(reps[i].vc, reps[j].vc) {
        var k := IndexOf(idx, j);
        assert kept[1 + k] == reps[j] && kept[1 + k] in kept;
      }
    }
    if !Leq(reps[i].vc, reps[0].vc) && forall j: nat :: Survives(reps, j) ==> !Leq(reps[i].vc, reps[j].vc) {
      forall r | r in kept ensures !Leq(reps[i].vc, r.vc) {
        var k := IndexOf(kept, r);
        if k > 0 {
          assert r == reps[idx[k - 1]] && Survives(reps, idx[k - 1]);
        }
      }
    }
  }

  // ---------- reads without conflicts ----------

  /** Without concurrent replicas the read answers with the first replica received, newest or not. */
  lemma {:induction false} ChainKeepsFirst(reps: seq<Object>)
    requires reps != [] && !SomeConcurrent(reps)
    ensures Kept(reps) == [reps[0]]
  {
    if |Kept(reps)| > 1 {
      ConflictIsReal(reps);
    }
  }

  /** Agreeing replicas give one answer and no conflict. */
  lemma EqualReplicasAgree(reps: seq<Object>, o: Object)
    requires reps != [] && forall r :: r in reps ==> r == o
    ensures Kept(reps) == [o]
  {
    assert reps[0] in reps;
    forall r, q | r in reps && q in reps ensures !IsConcurrentWith(r.vc, q.vc) {
      assert Leq(o.vc, o.vc);
    }
    ChainKeepsFirst(reps);
  }
}
