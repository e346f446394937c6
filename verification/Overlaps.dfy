/** Deliveries at one store whose transactions interleave: each reads the stored object in one
    transaction and writes in another, and others may write in between. */
module Overlaps {
  import opened Naming
  import opened VectorClock
  import opened Replica
  import opened Conflicts

  // ---------- two deliveries that overlap ----------

  /** What remains of two deliveries that have both read `existing` before the first, `a` from
      `s`, and then the second, `b` from `t`, wrote back. */
  function Overlapped(existing: Option<Object>, a: Object, s: UInt64, b: Object, t: UInt64): Object {
    if Absorbed(existing, b.vc) then Accept(existing, a, s) else Accept(existing, b, t)
  }

  /** Both were taken in over clock `e`, bumping `m` and `n`. Beside the two bumped ticks, what the
      first brought is in what the second read or brought. If one sender bumped both, the second
      bump gets as far as the first; otherwise the second already carries the tick that the
      first has only just been given, and has got past what the first brought of its own. */
  predicate SecondCovers(e: Clock, a: Clock, m: string, b: Clock, n: string) {
    var ma, mb := MergeClocks(e, a), MergeClocks(e, b);
    && Leq(a - {m, n}, mb)
    && if m == n then Bumped(ma, n) <= Bumped(mb, n)
       else m in mb && Bumped(ma, m) <= mb[m] && (n in ma ==> ma[n] <= Bumped(mb, n))
  }

  predicate OverlapKeeps(existing: Option<Object>, a: Object, s: UInt64, b: Object, t: UInt64) {
    match existing
    case None => s == t
    case Some(e) =>
      || Absorbed(existing, b.vc)
      || if Absorbed(existing, a.vc) then KeepsClock(existing, b, t)
         else SecondCovers(e.vc, a.vc, Decimal(s), b.vc, Decimal(t))
  }

  lemma SecondCoversIff(e: Clock, a: Clock, m: string, b: Clock, n: string)
    ensures Leq(UpdateRecv(m, MergeClocks(e, a)), UpdateRecv(n, MergeClocks(e, b))) <==> SecondCovers(e, a, m, b, n)
  {
    var ma, mb := MergeClocks(e, a), MergeClocks(e, b);
    var y, z := UpdateRecv(m, ma), UpdateRecv(n, mb);
    assert y == ma[m := Bumped(ma, m)] && z == mb[n := Bumped(mb, n)];
    if SecondCovers(e, a, m, b, n) {
      forall k | k in y ensures k in z && y[k] <= z[k] {
        if k != m && k != n && k in a {
          assert k in a - {m, n};
        }
      }
    }
    if Leq(y, z) {
      assert m in y && (n in ma ==> n in y);
      forall k | k in a - {m, n} ensures k in mb && (a - {m, n})[k] <= mb[k] {
        assert k in y && k in z;
      }
    }
  }

  /** What the first delivery stored, and acknowledged, is at most what remains exactly under this
      condition. */
  lemma OverlapKeepsIff(existing: Option<Object>, a: Object, s: UInt64, b: Object, t: UInt64)
    ensures Leq(Accept(existing, a, s).vc, Overlapped(existing, a, s, b, t).vc) <==> OverlapKeeps(existing, a, s, b, t)
  {
    match existing
    case None =>
      assert Decimal(s) in Accept(existing, a, s).vc;
      if Decimal(s) == Decimal(t) {
        DecimalInjective(s, t);
      }
    case Some(e) =>
      if !Absorbed(existing, b.vc) {
        if Absorbed(existing, a.vc) {
          AcceptKeepsClockIff(e, b, t);
        } else {
          SecondCoversIff(e.vc, a.vc, Decimal(s), b.vc, Decimal(t));
        }
      }
  }

  function Tick(c: Clock, n: string): UInt64 {
    if n in c then c[n] else 0
  }

  /** The condition where no bump wraps. With two senders it asks that the second delivery was sent by
      somebody who had seen a later tick of the first sender than the one just given. */
  lemma SecondCoversUnwrapped(e: Clock, a: Clock, m: string, b: Clock, n: string)
    requires !AtLimit(m, MergeClocks(e, a)) && !AtLimit(n, MergeClocks(e, b))
    ensures var ma, mb := MergeClocks(e, a), MergeClocks(e, b);
            SecondCovers(e, a, m, b, n) <==>
              && Leq(a - {m, n}, mb)
              && if m == n then Tick(a, n) <= Tick(mb, n)
                 else m in b && Tick(ma, m) < b[m] && (n in a ==> a[n] <= Tick(mb, n) + 1)
  {
    BumpTick(MergeClocks(e, a), m);
    BumpTick(MergeClocks(e, b), n);
    MergeTick(e, a, m);
    MergeTick(e, b, m);
    MergeTick(e, a, n);
    MergeTick(e, b, n);
  }

  lemma BumpTick(c: Clock, n: string)
    requires !AtLimit(n, c)
    ensures Bumped(c, n) == Tick(c, n) + 1
  {
  }

  lemma MergeTick(c: Clock, d: Clock, n: string)
    ensures Tick(MergeClocks(c, d), n) == Later(Tick(c, n), Tick(d, n))
    ensures n in MergeClocks(c, d) <==> n in c || n in d
  {
  }

  /** Different senders that had both seen the stored object: the acknowledged write and what remains
      are concurrent, a conflict that a read would have had to report. */
  lemma OverlappingDeliveriesLoseWrite(e: Object, a: Object, s: UInt64, b: Object, t: UInt64)
    requires s != t && a.vc == e.vc && b.vc == e.vc
    requires !AtLimit(Decimal(s), e.vc) && !AtLimit(Decimal(t), e.vc)
    ensures IsConcurrentWith(Accept(Some(e), a, s).vc, Overlapped(Some(e), a, s, b, t).vc)
  {
    if Decimal(s) == Decimal(t) {
      DecimalInjective(s, t);
    }
    assert MergeClocks(e.vc, e.vc) == e.vc;
    OneBumpEach(e.vc, Decimal(s), Decimal(t));
  }

  lemma OneBumpEach(c: Clock, m: string, n: string)
    requires m != n && !AtLimit(m, c) && !AtLimit(n, c)
    ensures IsConcurrentWith(UpdateRecv(m, c), UpdateRecv(n, c))
  {
    assert m in UpdateRecv(m, c) && n in UpdateRecv(n, c);
  }

  /** So are overlapping first writes of different senders. */
  lemma OverlappingFirstWritesLoseOne(a: Object, s: UInt64, b: Object, t: UInt64)
    requires s != t
    ensures IsConcurrentWith(Accept(None, a, s).vc, Overlapped(None, a, s, b, t).vc)
  {
    if Decimal(s) == Decimal(t) {
      DecimalInjective(s, t);
    }
    FirstWriteDiscardsClock(a, s);
    FirstWriteDiscardsClock(b, t);
    assert Decimal(s) in Accept(None, a, s).vc && Decimal(t) in Accept(None, b, t).vc;
  }

  /** One sender, and equal clocks or no object yet: the second value stands under the very clock that
      the first one was acknowledged with, so that no read tells the two apart. */
  lemma OverlappingSameSender(existing: Option<Object>, a: Object, b: Object, s: UInt64)
    requires !Absorbed(existing, b.vc) && (existing.Some? ==> a.vc == b.vc)
    ensures var x, y := Accept(existing, a, s), Overlapped(existing, a, s, b, s);
            && x.vc == y.vc && x.value == a.value && y.value == b.value
            && Kept([x, y]) == [x] && Kept([y, x]) == [y]
  {
  }

  // ---------- a store over time ----------

  /** A delivery that has read and not yet written. */
  datatype Reading = Reading(put: Put, seen: Option<Object>)

  datatype StoreState = StoreState(db: DB, inFlight: map<nat, Reading>)

  /** `DropPut` is a delivery that fails before its write, `Restart` the end of all at work. */
  datatype StoreEvent =
    | BeginPut(req: nat, put: Put)
    | EndPut(req: nat)
    | DropPut(req: nat)
    | Restart

  ghost predicate Possible(s: StoreState, e: StoreEvent) {
    match e
    case BeginPut(req, _) => req !in s.inFlight
    case EndPut(req) => req in s.inFlight
    case DropPut(req) => req in s.inFlight
    case Restart => true
  }

  function StoreStep(s: StoreState, e: StoreEvent): StoreState {
    match e
    case BeginPut(req, m) =>
      if m.bucket == "" then s
      else StoreState(OpenBucket(s.db, m.bucket), s.inFlight[req := Reading(m, Lookup(s.db, m.bucket, m.key))])
    case EndPut(req) =>
      if req !in s.inFlight then s
      else StoreState(WriteBack(s.db, s.inFlight[req].put, s.inFlight[req].seen), s.inFlight - {req})
    case DropPut(req) => s.(inFlight := s.inFlight - {req})
    case Restart => s.(inFlight := map[])
  }

  function StoreRun(db: DB, es: seq<StoreEvent>): StoreState {
    if es == [] then StoreState(db, map[]) else StoreStep(StoreRun(db, es[..|es| - 1]), es[|es| - 1])
  }

  ghost predicate PossibleRun(db: DB, es: seq<StoreEvent>) {
    es == []
    || (PossibleRun(db, es[..|es| - 1]) && Possible(StoreRun(db, es[..|es| - 1]), es[|es| - 1]))
  }

  /** The delivery has begun, and since then it has not ended, failed or been cut off by a restart. */
  ghost predicate AtWork(es: seq<StoreEvent>, req: nat, put: Put) {
    exists j :: BegunAt(es, j, req, put)
  }

  ghost predicate BegunAt(es: seq<StoreEvent>, j: nat, req: nat, put: Put) {
    && j < |es| && es[j] == BeginPut(req, put) && put.bucket != ""
    && EndPut(req) !in es[j..] && DropPut(req) !in es[j..] && Restart !in es[j..]
  }

  lemma AtWorkSnoc(es: seq<StoreEvent>, e: StoreEvent, req: nat, put: Put)
    ensures AtWork(es + [e], req, put) <==>
              || (e == BeginPut(req, put) && put.bucket != "")
              || (AtWork(es, req, put) && e != EndPut(req) && e != DropPut(req) && e != Restart)
  {
    var all := es + [e];
    assert all[|es|..] == [e] && all[|es|] == e;
    if e == BeginPut(req, put) && put.bucket != "" {
      assert BegunAt(all, |es|, req, put);
    }
    forall j: nat | j < |es|
      ensures BegunAt(all, j, req, put) <==>
                BegunAt(es, j, req, put) && e != EndPut(req) && e != DropPut(req) && e != Restart
    {
      assert all[j..] == es[j..] + [e] && all[j] == es[j];
    }
  }

  /** What is still to be written is exactly what is at work. */
  lemma {:induction false} InFlightIff(db: DB, es: seq<StoreEvent>, req: nat)
    requires PossibleRun(db, es)
    ensures req in StoreRun(db, es).inFlight <==> exists put :: AtWork(es, req, put)
    ensures forall put :: AtWork(es, req, put) ==>
              req in StoreRun(db, es).inFlight && StoreRun(db, es).inFlight[req].put == put
  {
    if es != [] {
      var front, e := es[..|es| - 1], es[|es| - 1];
      assert es == front + [e];
      InFlightIff(db, front, req);
      forall put ensures AtWork(es, req, put) <==>
                           || (e == BeginPut(req, put) && put.bucket != "")
                           || (AtWork(front, req, put) && e != EndPut(req) && e != DropPut(req) && e != Restart)
      {
        AtWorkSnoc(front, e, req, put);
      }
      if e.BeginPut? && e.req == req && e.put.bucket != "" {
        assert AtWork(es, req, e.put);
      }
    }
  }

  ghost predicate BucketsOpen(s: StoreState) {
    forall req :: req in s.inFlight ==> s.inFlight[req].put.bucket in s.db
  }

  lemma {:induction false} RunOpensBuckets(db: DB, es: seq<StoreEvent>)
    ensures BucketsOpen(StoreRun(db, es))
  {
    if es != [] {
      RunOpensBuckets(db, es[..|es| - 1]);
    }
  }

  /** If this step writes, it keeps the clock stored by then. */
  predicate StepKeepsClock(s: StoreState, e: StoreEvent) {
    e.EndPut? && e.req in s.inFlight && Storable(s.inFlight[e.req].put) ==>
      var m := s.inFlight[e.req].put;
      KeepsOver(Lookup(s.db, m.bucket, m.key), s.inFlight[e.req].seen, m.data, m.sender)
  }

  ghost predicate EveryStepKeepsClock(db: DB, es: seq<StoreEvent>) {
    es == []
    || (EveryStepKeepsClock(db, es[..|es| - 1]) && StepKeepsClock(StoreRun(db, es[..|es| - 1]), es[|es| - 1]))
  }

  ghost predicate NothingEverGoesDown(db: DB, es: seq<StoreEvent>) {
    es == []
    || (NothingEverGoesDown(db, es[..|es| - 1])
        && NoneGoesDown(StoreRun(db, es[..|es| - 1]).db, StoreRun(db, es).db))
  }

  lemma WriteBackKeepsIff(db: DB, m: Put, seen: Option<Object>)
    requires m.bucket in db
    ensures NoneGoesDown(db, WriteBack(db, m, seen))
            <==> (Storable(m) ==> KeepsOver(Lookup(db, m.bucket, m.key), seen, m.data, m.sender))
  {
    var current := Lookup(db, m.bucket, m.key);
    forall b, k ensures Lookup(WriteBack(db, m, seen), b, k)
                        == if Storable(m) && b == m.bucket && k == m.key
                           then Replaced(Lookup(db, b, k), seen, m.data, m.sender) else Lookup(db, b, k)
    {
      WriteBackLookup(db, m, seen, b, k);
    }
    if current.Some? {
      ReplacedKeepsIff(current.value, seen, m.data, m.sender);
      if NoneGoesDown(db, WriteBack(db, m, seen)) {
        assert NotBelow(current, Lookup(WriteBack(db, m, seen), m.bucket, m.key));
      }
    }
  }

  lemma StepKeepsIff(s: StoreState, e: StoreEvent)
    requires BucketsOpen(s)
    ensures NoneGoesDown(s.db, StoreStep(s, e).db) <==> StepKeepsClock(s, e)
  {
    if e.EndPut? && e.req in s.inFlight {
      WriteBackKeepsIff(s.db, s.inFlight[e.req].put, s.inFlight[e.req].seen);
    } else {
      assert forall b, k :: Lookup(s.db, b, k) == Lookup(StoreStep(s, e).db, b, k);
    }
  }

  /** Clock monotonicity for every interleaving of reads and writes: no object disappears and no clock
      ever goes down exactly if every write keeps the clock it finds. */
  lemma {:induction false} InterleavedMonotoneIff(db: DB, es: seq<StoreEvent>)
    ensures NothingEverGoesDown(db, es) <==> EveryStepKeepsClock(db, es)
  {
    if es != [] {
      InterleavedMonotoneIff(db, es[..|es| - 1]);
      RunOpensBuckets(db, es[..|es| - 1]);
      StepKeepsIff(StoreRun(db, es[..|es| - 1]), es[|es| - 1]);
    }
  }

  // ---------- runs without overlap ----------

  /** Nothing has been stored for the object since the delivery that now writes has read it. */
  predicate FindsWhatItRead(s: StoreState, e: StoreEvent) {
    e.EndPut? && e.req in s.inFlight ==>
      Lookup(s.db, s.inFlight[e.req].put.bucket, s.inFlight[e.req].put.key) == s.inFlight[e.req].seen
  }

  ghost predicate NoOverlap(db: DB, es: seq<StoreEvent>) {
    es == [] || (NoOverlap(db, es[..|es| - 1]) && FindsWhatItRead(StoreRun(db, es[..|es| - 1]), es[|es| - 1]))
  }

  /** The deliveries that have written, in the order of their writes. */
  function Ended(db: DB, es: seq<StoreEvent>): seq<Put> {
    if es == [] then []
    else
      var s, e := StoreRun(db, es[..|es| - 1]), es[|es| - 1];
      Ended(db, es[..|es| - 1]) + if e.EndPut? && e.req in s.inFlight then [s.inFlight[e.req].put] else []
  }

  ghost predicate SameObjects(db: DB, db': DB) {
    forall b, k :: Lookup(db, b, k) == Lookup(db', b, k)
  }

  /** A run in which no two deliveries for one object overlap stores what the whole deliveries give, one
      after the other in the order of their writes. */
  lemma {:induction false} NoOverlapIsOneByOne(db: DB, es: seq<StoreEvent>)
    requires NoOverlap(db, es)
    ensures SameObjects(StoreRun(db, es).db, DeliverAll(db, Ended(db, es)))
  {
    if es != [] {
      var front, e := es[..|es| - 1], es[|es| - 1];
      var s := StoreRun(db, front);
      NoOverlapIsOneByOne(db, front);
      RunOpensBuckets(db, front);
      if e.EndPut? && e.req in s.inFlight {
        DeliverSnoc(db, Ended(db, front), s.inFlight[e.req].put);
        OneByOneStep(s.db, DeliverAll(db, Ended(db, front)), s.inFlight[e.req].put, s.inFlight[e.req].seen);
      } else {
        assert Ended(db, es) == Ended(db, front);
        assert SameObjects(s.db, StoreStep(s, e).db);
      }
    }
  }

  lemma OneByOneStep(db: DB, db': DB, m: Put, seen: Option<Object>)
    requires SameObjects(db, db') && m.bucket in db && Lookup(db, m.bucket, m.key) == seen
    ensures SameObjects(WriteBack(db, m, seen), Deliver(db', m))
  {
    forall b, k ensures Lookup(WriteBack(db, m, seen), b, k) == Lookup(Deliver(db', m), b, k) {
      WriteBackLookup(db, m, seen, b, k);
      DeliverLookup(db', m, b, k);
    }
  }

  // ---------- the interleaving that overlaps ----------

  lemma RunSnoc(db: DB, es: seq<StoreEvent>, e: StoreEvent)
    ensures StoreRun(db, es + [e]) == StoreStep(StoreRun(db, es), e)
    ensures PossibleRun(db, es + [e]) <==> PossibleRun(db, es) && Possible(StoreRun(db, es), e)
  {
    assert (es + [e])[..|es|] == es;
  }

  /** Both deliveries begin before either ends: the first stores what it would have stored alone, and
      the second replaces it. */
  lemma OverlapRun(db: DB, a: Put, b: Put)
    requires Storable(a) && a.bucket == b.bucket && a.key == b.key
    ensures var three := [BeginPut(0, a), BeginPut(1, b), EndPut(0)];
            var x := Lookup(db, a.bucket, a.key);
            && PossibleRun(db, three + [EndPut(1)])
            && Lookup(StoreRun(db, three).db, a.bucket, a.key) == Some(Accept(x, a.data, a.sender))
            && Lookup(StoreRun(db, three + [EndPut(1)]).db, a.bucket, a.key)
               == Some(Overlapped(x, a.data, a.sender, b.data, b.sender))
  {
    var none, e0, e1 := [], BeginPut(0, a), BeginPut(1, b);
    var db1, x := OpenBucket(db, a.bucket), Lookup(db, a.bucket, a.key);
    assert [e0, e1, EndPut(0)] == none + [e0] + [e1] + [EndPut(0)];
    RunSnoc(db, none, e0);
    RunSnoc(db, none + [e0], e1);
    RunSnoc(db, none + [e0] + [e1], EndPut(0));
    RunSnoc(db, none + [e0] + [e1] + [EndPut(0)], EndPut(1));
    assert StoreRun(db, none + [e0] + [e1]) == StoreState(db1, map[0 := Reading(a, x), 1 := Reading(b, x)]);
    var db2 := WriteBack(db1, a, x);
    WriteBackLookup(db1, a, x, a.bucket, a.key);
    WriteBackLookup(db2, b, x, a.bucket, a.key);
  }
}
