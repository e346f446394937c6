/** Vector clocks: the order, its four comparisons as the wrapper names them, the join, and
    the bump. GoVector itself is not part of this model. */
module VectorClock {
  import opened Naming

  type Clock = map<string, UInt64>

  /** `a` is at most `b`: every entry of `a` stands in `b` with at least the same tick. */
  predicate Leq(a: Clock, b: Clock) {
    forall n :: n in a ==> n in b && a[n] <= b[n]
  }

  /** Clock 2 is an ancestor of clock 1. */
  predicate IsAncestorOf(clock1: Clock, clock2: Clock) {
    Leq(clock2, clock1) && clock1 != clock2
  }

  /** Clock 2 is a descendant of clock 1. */
  predicate IsDescendantOf(clock1: Clock, clock2: Clock) {
    Leq(clock1, clock2) && clock1 != clock2
  }

  predicate IsEqualTo(clock1: Clock, clock2: Clock) {
    clock1 == clock2
  }

  predicate IsConcurrentWith(clock1: Clock, clock2: Clock) {
    !Leq(clock1, clock2) && !Leq(clock2, clock1)
  }

  function Later(a: UInt64, b: UInt64): UInt64 {
    if a < b then b else a
  }

  /** Merge clock 2 into clock 1. */
  function MergeClocks(clock1: Clock, clock2: Clock): Clock {
    map n | n in clock1.Keys + clock2.Keys ::
      if n in clock1 && n in clock2 then Later(clock1[n], clock2[n])
      else if n in clock1 then clock1[n] else clock2[n]
  }

  /** The 64-bit increment, which wraps to zero. */
  function Next(tick: UInt64): UInt64 {
    (tick + 1) % TWO_TO_THE_64
  }

  function UpdateRecv(index: string, orig: Clock): Clock {
    orig[index := if index in orig then Next(orig[index]) else 1]
  }

  /** The tick that the next bump of `index` would wrap. */
  predicate AtLimit(index: string, c: Clock) {
    index in c && c[index] == TWO_TO_THE_64 - 1
  }

  lemma LeqAntisymmetric(a: Clock, b: Clock)
    requires Leq(a, b) && Leq(b, a)
    ensures a == b
  {
  }

  lemma LeqTransitive(a: Clock, b: Clock, c: Clock)
    requires Leq(a, b) && Leq(b, c)
    ensures Leq(a, c)
  {
  }

  /** Of the four comparisons exactly one answers yes, and ancestor and descendant mirror each other. */
  lemma ExactlyOneComparison(a: Clock, b: Clock)
    ensures IsEqualTo(a, b) || IsAncestorOf(a, b) || IsDescendantOf(a, b) || IsConcurrentWith(a, b)
    ensures !(IsEqualTo(a, b) && (IsAncestorOf(a, b) || IsDescendantOf(a, b) || IsConcurrentWith(a, b)))
    ensures !(IsAncestorOf(a, b) && (IsDescendantOf(a, b) || IsConcurrentWith(a, b)))
    ensures !(IsDescendantOf(a, b) && IsConcurrentWith(a, b))
    ensures IsAncestorOf(a, b) <==> IsDescendantOf(b, a)
  {
  }

  /** Merging gives the least clock above both. */
  lemma MergeIsLeastUpperBound(a: Clock, b: Clock, c: Clock)
    ensures Leq(a, MergeClocks(a, b)) && Leq(b, MergeClocks(a, b))
    ensures Leq(MergeClocks(a, b), c) <==> Leq(a, c) && Leq(b, c)
  {
  }

  /** A bump goes strictly up exactly when the tick does not wrap. */
  lemma BumpGoesUpIff(index: string, c: Clock)
    ensures IsDescendantOf(c, UpdateRecv(index, c)) <==> !AtLimit(index, c)
  {
  }
}
