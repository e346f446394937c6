/** One replica of the store: how deliveries of replicated writes change it. */
module Replica {
  import opened Naming
  import opened Sequences
  import opened VectorClock

  datatype Object = Object(key: string, value: string, vc: Clock)

  /** One delivery of doPutReplica: over PutReplica or as an element of a PutMultiple stream. */
  datatype Put = Put(bucket: string, key: string, data: Object, sender: UInt64)

  type DB = map<string, map<string, Object>>

  function Lookup(db: DB, bucket: string, key: string): Option<Object> {
    if bucket in db && key in db[bucket] then Some(db[bucket][key]) else None
  }

  /** What a delivery makes of the stored object: ignored when its clock is an ancestor of the
      stored one, otherwise taken with a merged and bumped clock; a first write starts the
      clock afresh and discards the one delivered. */
  function Accept(existing: Option<Object>, incoming: Object, sender: UInt64): Object {
    var nodename := Decimal(sender);
    match existing
    case Some(e) =>
      if IsAncestorOf(e.vc, incoming.vc) then e
      else incoming.(vc := UpdateRecv(nodename, MergeClocks(e.vc, incoming.vc)))
    case None =>
      incoming.(vc := UpdateRecv(nodename, map[nodename := 0]))
  }

  const MAX_KEY_SIZE := 32768

  /** Bolt refuses empty keys and oversized ones. */
  predicate StorableKey(key: string) {
    0 < |key| <= MAX_KEY_SIZE
  }

  /** ... and an empty bucket name. */
  predicate Storable(m: Put) {
    m.bucket != "" && StorableKey(m.key)
  }

  /** The first half of a delivery: the bucket is created if it is not there. */
  function OpenBucket(db: DB, bucket: string): DB {
    if bucket == "" || bucket in db then db else db[bucket := map[]]
  }

  /** The second half: what a delivery that has read `seen` leaves in place of `current`. */
  function Replaced(current: Option<Object>, seen: Option<Object>, incoming: Object, sender: UInt64): Option<Object> {
    if Absorbed(seen, incoming.vc) then current else Some(Accept(seen, incoming, sender))
  }

  function WriteBack(db: DB, m: Put, seen: Option<Object>): DB {
    if !Storable(m) || m.bucket !in db || Absorbed(seen, m.data.vc) then db
    else db[m.bucket := db[m.bucket][m.key := Accept(seen, m.data, m.sender)]]
  }

  /** A whole delivery, both halves without another in between. */
  function Deliver(db: DB, m: Put): DB {
    if m.bucket == "" then db
    else
      var db1 := if m.bucket in db then db else db[m.bucket := map[]];
      if !StorableKey(m.key) then db1
      else db1[m.bucket := db1[m.bucket][m.key := Accept(Lookup(db1, m.bucket, m.key), m.data, m.sender)]]
  }

  function DeliverAll(db: DB, ms: seq<Put>): DB {
    if ms == [] then db else Deliver(DeliverAll(db, ms[..|ms| - 1]), ms[|ms| - 1])
  }

  /** The first refusal is where the handling ends. */
  lemma HandledUpTo(ms: seq<Put>, n: nat)
    requires n < |ms| && AllStorable(ms[..n]) && !Storable(ms[n])
    ensures HandledCount(ms) == n + 1 && !AllStorable(ms)
  {
    assert forall i :: 0 <= i < n ==> ms[..n][i] == ms[i];
  }

  lemma HandledAll(ms: seq<Put>)
    requires AllStorable(ms[..|ms|])
    ensures HandledCount(ms) == |ms| && AllStorable(ms) && ms[..|ms|] == ms
  {
    assert ms[..|ms|] == ms;
  }

  lemma DeliverOneMore(db: DB, ms: seq<Put>, n: nat)
    requires n < |ms|
    ensures DeliverAll(db, ms[..n + 1]) == Deliver(DeliverAll(db, ms[..n]), ms[n])
  {
    assert ms[..n + 1][..n] == ms[..n];
  }

  /** No database of this program holds a name that Bolt refuses. */
  ghost predicate ProperNames(db: DB) {
    "" !in db && forall b, k :: b in db && k in db[b] ==> StorableKey(k)
  }

  /** How many objects of a stream are handled: up to and with the first that is refused. */
  function HandledCount(ms: seq<Put>): (n: nat)
    ensures n <= |ms|
    ensures forall i :: 0 <= i < n - 1 ==> Storable(ms[i])
    ensures n < |ms| ==> n > 0 && !Storable(ms[n - 1])
  {
    if ms == [] then 0 else if !Storable(ms[0]) then 1 else 1 + HandledCount(ms[1..])
  }

  predicate AllStorable(ms: seq<Put>) {
    forall i :: 0 <= i < |ms| ==> Storable(ms[i])
  }

  lemma OneMoreStorable(ms: seq<Put>, n: nat)
    requires n < |ms| && AllStorable(ms[..n]) && Storable(ms[n])
    ensures AllStorable(ms[..n + 1])
  {
  }

  datatype GetOutcome =
    | Found(obj: Object)
    | KeyMissing
    | BucketMissing
  {
    function Existing(): Option<Object> {
      if Found? then Some(obj) else None
    }
  }

  function Outcome(db: DB, bucket: string, key: string): (r: GetOutcome)
    ensures r.Existing() == Lookup(db, bucket, key)
  {
    if bucket !in db then BucketMissing
    else if key in db[bucket] then Found(db[bucket][key])
    else KeyMissing
  }

  class ReplicaServer {
    const nodeId: UInt64
    var boltDB: DB

    constructor (nodeId: UInt64)
      ensures this.nodeId == nodeId && boltDB == map[] && ProperNames(boltDB)
    {
      this.nodeId := nodeId;
      boltDB := map[];
    }

    method DoGetReplica(bucketName: string, key: string) returns (r: GetOutcome)
      ensures r == Outcome(boltDB, bucketName, key)
      ensures r.BucketMissing? <==> bucketName !in boltDB
    {
      if bucketName !in boltDB {
        return BucketMissing;
      }
      if key in boltDB[bucketName] {
        r := Found(boltDB[bucketName][key]);
      } else {
        r := KeyMissing;
      }
    }

    /** The transactions in front of the write: the bucket, and the object stored so far. `ok` is
        false where the source returns an error. */
    method ReadForPut(m: Put) returns (ok: bool, seen: Option<Object>)
      requires ProperNames(boltDB)
      modifies this
      ensures ProperNames(boltDB) && boltDB == OpenBucket(old(boltDB), m.bucket)
      ensures ok <==> m.bucket != ""
      ensures seen == Lookup(old(boltDB), m.bucket, m.key)
    {
      seen := None;
      if m.bucket !in boltDB {
        if m.bucket == "" {
          return false, seen;
        }
        boltDB := boltDB[m.bucket := map[]];
      }
      ok := true;
      if m.key in boltDB[m.bucket] {
        seen := Some(boltDB[m.bucket][m.key]);
      }
    }

    /** The comparison with what was read, and the write; other deliveries may have written since. */
    method WriteFor(m: Put, seen: Option<Object>) returns (ok: bool)
      requires ProperNames(boltDB) && m.bucket in boltDB && (seen.Some? ==> StorableKey(m.key))
      modifies this
      ensures ProperNames(boltDB) && boltDB == WriteBack(old(boltDB), m, seen)
      ensures ok <==> Storable(m)
    {
      var incoming := m.data;
      var nodename := Decimal(m.sender);
      match seen {
        case Some(existing) =>
          if IsAncestorOf(existing.vc, incoming.vc) {
            return true;
          }
          incoming := incoming.(vc := UpdateRecv(nodename, MergeClocks(existing.vc, incoming.vc)));
        case None =>
          incoming := incoming.(vc := UpdateRecv(nodename, map[nodename := 0]));
      }
      if |m.key| == 0 || |m.key| > MAX_KEY_SIZE {
        return false;
      }
      boltDB := boltDB[m.bucket := boltDB[m.bucket][m.key := incoming]];
      ok := true;
    }

    /** doPutReplica, with no other delivery in between. */
    method DoPutReplica(m: Put) returns (ok: bool)
      requires ProperNames(boltDB)
      modifies this
      ensures ProperNames(boltDB)
      ensures ok <==> Storable(m)
      ensures ok <==> m.bucket != "" && 1 <= |m.key| <= 32768
      ensures boltDB == Deliver(old(boltDB), m)
    {
      DeliverIsReadThenWrite(boltDB, m);
      var seen;
      ok, seen := ReadForPut(m);
      if ok {
        ok := WriteFor(m, seen);
      }
    }

    /** One turn of the stream's loop. */
    method PutNext(received: seq<Put>, i: nat, ghost start: DB) returns (ok: bool)
      requires ProperNames(boltDB) && i < |received| && boltDB == DeliverAll(start, received[..i])
      modifies this
      ensures ProperNames(boltDB) && boltDB == DeliverAll(start, received[..i + 1])
      ensures ok <==> Storable(received[i])
    {
      DeliverOneMore(start, received, i);
      ok := DoPutReplica(received[i]);
    }

    /** Applies a stream in order; `received` is what arrives before the connection is closed
        properly (`eof`) or breaks. The reply says done only after the whole stream. */
    method PutMultiple(received: seq<Put>, eof: bool) returns (done: bool)
      requires ProperNames(boltDB)
      modifies this
      ensures ProperNames(boltDB)
      ensures boltDB == DeliverAll(old(boltDB), received[..HandledCount(received)])
      ensures done <==> eof && AllStorable(received)
    {
      var i := 0;
      while i < |received|
        invariant ProperNames(boltDB) && i <= |received|
        invariant boltDB == DeliverAll(old(boltDB), received[..i])
        invariant AllStorable(received[..i])
      {
        var ok := PutNext(received, i, old(boltDB));
        if !ok {
          HandledUpTo(received, i);
          return false;
        }
        OneMoreStorable(received, i);
        i := i + 1;
      }
      HandledAll(received);
      done := eof;
    }
  }

  // ---------- one delivery ----------

  lemma DeliverIsReadThenWrite(db: DB, m: Put)
    ensures Deliver(db, m) == WriteBack(OpenBucket(db, m.bucket), m, Lookup(db, m.bucket, m.key))
  {
    var db1 := OpenBucket(db, m.bucket);
    if Storable(m) && Absorbed(Lookup(db, m.bucket, m.key), m.data.vc) {
      assert db1[m.bucket][m.key := db1[m.bucket][m.key]] == db1[m.bucket];
    }
  }

  lemma WriteBackLookup(db: DB, m: Put, seen: Option<Object>, bucket: string, key: string)
    requires m.bucket in db
    ensures Lookup(WriteBack(db, m, seen), bucket, key)
            == if Storable(m) && bucket == m.bucket && key == m.key
               then Replaced(Lookup(db, bucket, key), seen, m.data, m.sender)
               else Lookup(db, bucket, key)
  {
  }

  /** A delivery touches exactly the object it names. */
  lemma DeliverLookup(db: DB, m: Put, bucket: string, key: string)
    ensures Lookup(Deliver(db, m), bucket, key)
            == if Storable(m) && bucket == m.bucket && key == m.key
               then Some(Accept(Lookup(db, bucket, key), m.data, m.sender))
               else Lookup(db, bucket, key)
  {
  }

  /** The bump of this delivery does not wrap a tick that was already there. */
  predicate KeepsClock(existing: Option<Object>, incoming: Object, sender: UInt64) {
    existing.Some? && !IsAncestorOf(existing.value.vc, incoming.vc) ==>
      var n, e := Decimal(sender), existing.value.vc;
      !AtLimit(n, MergeClocks(e, incoming.vc)) || n !in e || e[n] == 0
  }

  /** The bump of this delivery does not wrap, or wraps a tick that the delivery lacks or has at zero
      and leaves a clock other than the delivery's own. */
  predicate TakesIn(existing: Option<Object>, incoming: Object, sender: UInt64) {
    existing.Some? && !IsAncestorOf(existing.value.vc, incoming.vc) ==>
      var n, c, merged := Decimal(sender), incoming.vc, MergeClocks(existing.value.vc, incoming.vc);
      !AtLimit(n, merged) || ((n !in c || c[n] == 0) && c != merged[n := 0])
  }

  /** Stored clocks never go down, except when the bump wraps a tick that was already there. */
  lemma AcceptKeepsClockIff(e: Object, incoming: Object, sender: UInt64)
    ensures Leq(e.vc, Accept(Some(e), incoming, sender).vc) <==> KeepsClock(Some(e), incoming, sender)
  {
  }

  /** The stored object is beyond the delivery: it will be ignored from now on. */
  predicate Absorbed(existing: Option<Object>, c: Clock) {
    existing.Some? && IsAncestorOf(existing.value.vc, c)
  }

  /** A delivery over an existing object leaves its clock strictly below the stored one exactly
      when it is taken in. */
  lemma AcceptAbsorbsIff(e: Object, incoming: Object, sender: UInt64)
    ensures Absorbed(Some(Accept(Some(e), incoming, sender)), incoming.vc) <==> TakesIn(Some(e), incoming, sender)
  {
    var n, merged := Decimal(sender), MergeClocks(e.vc, incoming.vc);
    if !IsAncestorOf(e.vc, incoming.vc) {
      MergeIsLeastUpperBound(e.vc, incoming.vc, merged);
      if AtLimit(n, merged) {
        assert UpdateRecv(n, merged) == merged[n := 0];
      } else {
        BumpGoesUpIff(n, merged);
        StrictAbove(incoming.vc, merged, UpdateRecv(n, merged));
      }
    }
  }

  /** What is taken is the delivered object, under another clock; what is ignored leaves the stored one. */
  lemma AcceptTakes(existing: Option<Object>, incoming: Object, sender: UInt64)
    ensures var o := Accept(existing, incoming, sender);
            if Absorbed(existing, incoming.vc) then Some(o) == existing
            else o.key == incoming.key && o.value == incoming.value
  {
  }

  lemma StrictAbove(a: Clock, b: Clock, c: Clock)
    requires Leq(a, b) && IsDescendantOf(b, c)
    ensures IsAncestorOf(c, a)
  {
    LeqTransitive(a, b, c);
    if a == c {
      LeqAntisymmetric(b, c);
    }
  }

  lemma AbsorbedStays(e: Object, e': Object, c: Clock, c': Clock)
    requires Absorbed(Some(e), c) && Leq(e.vc, e'.vc) && Leq(c', c)
    ensures Absorbed(Some(e'), c')
  {
  }

  /** A first write keeps the value but not the clock: a second copy of the same delivery is
      ignored only if its clock had next to nothing in it. */
  lemma FirstWriteDiscardsClock(incoming: Object, sender: UInt64)
    ensures Accept(None, incoming, sender) == incoming.(vc := map[Decimal(sender) := 1])
    ensures Absorbed(Some(Accept(None, incoming, sender)), incoming.vc) <==>
              incoming.vc == map[] || incoming.vc == map[Decimal(sender) := 0]
  {
    var n := Decimal(sender);
    var first: Clock := map[n := 1];
    assert Accept(None, incoming, sender).vc == first;
    if IsAncestorOf(first, incoming.vc) && incoming.vc != map[] {
      assert incoming.vc.Keys == {n};
      assert incoming.vc == map[n := incoming.vc[n]];
    }
  }

  /** The clock a delivery bumps: what it read merged with what it brings. */
  function Basis(seen: Option<Object>, incoming: Object, sender: UInt64): Clock {
    match seen
    case Some(e) => MergeClocks(e.vc, incoming.vc)
    case None => map[Decimal(sender) := 0]
  }

  /** The tick that the bump of `n` gives. */
  function Bumped(c: Clock, n: string): UInt64 {
    if n in c then Next(c[n]) else 1
  }

  /** What has been stored by now was in what this delivery read or brings, except for the tick it
      bumps, which gets beyond the stored one. */
  predicate KeepsOver(current: Option<Object>, seen: Option<Object>, incoming: Object, sender: UInt64) {
    current.Some? && !Absorbed(seen, incoming.vc) ==>
      var n, basis, c := Decimal(sender), Basis(seen, incoming, sender), current.value.vc;
      Leq(c - {n}, basis) && (n in c ==> c[n] <= Bumped(basis, n))
  }

  /** A write-back keeps the clock stored by then exactly under this condition. */
  lemma ReplacedKeepsIff(current: Object, seen: Option<Object>, incoming: Object, sender: UInt64)
    ensures NotBelow(Some(current), Replaced(Some(current), seen, incoming, sender))
            <==> KeepsOver(Some(current), seen, incoming, sender)
  {
    var n, basis, c := Decimal(sender), Basis(seen, incoming, sender), current.vc;
    if !Absorbed(seen, incoming.vc) {
      assert Accept(seen, incoming, sender).vc == basis[n := Bumped(basis, n)];
      forall k ensures k in c - {n} <==> k in c && k != n {
      }
    }
  }

  /** When nothing was written in between, it is that no stored tick wraps. */
  lemma KeepsOverUnchanged(seen: Option<Object>, incoming: Object, sender: UInt64)
    ensures KeepsOver(seen, seen, incoming, sender) <==> KeepsClock(seen, incoming, sender)
  {
    if seen.Some? {
      ReplacedKeepsIff(seen.value, seen, incoming, sender);
      AcceptKeepsClockIff(seen.value, incoming, sender);
    }
  }

  // ---------- every run ----------

  /** This delivery lets no stored clock go down. */
  predicate Keeps(db: DB, m: Put) {
    Storable(m) ==> KeepsClock(Lookup(db, m.bucket, m.key), m.data, m.sender)
  }

  /** ... and an object that it meets ends up beyond it. */
  predicate Steady(db: DB, m: Put) {
    Storable(m) ==> KeepsClock(Lookup(db, m.bucket, m.key), m.data, m.sender)
                    && TakesIn(Lookup(db, m.bucket, m.key), m.data, m.sender)
  }

  ghost predicate KeepingRun(db: DB, ms: seq<Put>) {
    ms == [] || (KeepingRun(db, ms[..|ms| - 1]) && Keeps(DeliverAll(db, ms[..|ms| - 1]), ms[|ms| - 1]))
  }

  ghost predicate SteadyRun(db: DB, ms: seq<Put>) {
    ms == [] || (SteadyRun(db, ms[..|ms| - 1]) && Steady(DeliverAll(db, ms[..|ms| - 1]), ms[|ms| - 1]))
  }

  lemma DeliverSnoc(db: DB, ms: seq<Put>, m: Put)
    ensures DeliverAll(db, ms + [m]) == Deliver(DeliverAll(db, ms), m)
    ensures KeepingRun(db, ms + [m]) <==> KeepingRun(db, ms) && Keeps(DeliverAll(db, ms), m)
    ensures SteadyRun(db, ms + [m]) <==> SteadyRun(db, ms) && Steady(DeliverAll(db, ms), m)
  {
    assert (ms + [m])[..|ms|] == ms;
  }

  lemma {:induction false} DeliverConcat(db: DB, a: seq<Put>, b: seq<Put>)
    ensures DeliverAll(db, a + b) == DeliverAll(DeliverAll(db, a), b)
    ensures KeepingRun(db, a + b) <==> KeepingRun(db, a) && KeepingRun(DeliverAll(db, a), b)
    ensures SteadyRun(db, a + b) <==> SteadyRun(db, a) && SteadyRun(DeliverAll(db, a), b)
  {
    if b == [] {
      assert a + b == a;
    } else {
      var front, m := b[..|b| - 1], b[|b| - 1];
      assert b == front + [m] && a + b == a + front + [m];
      DeliverConcat(db, a, front);
      DeliverSnoc(db, a + front, m);
      DeliverSnoc(DeliverAll(db, a), front, m);
    }
  }

  lemma {:induction false} SteadyKeeps(db: DB, ms: seq<Put>)
    requires SteadyRun(db, ms)
    ensures KeepingRun(db, ms)
  {
    if ms != [] {
      SteadyKeeps(db, ms[..|ms| - 1]);
    }
  }

  /** Both objects are there and the second one's clock is at least the first one's. */
  predicate NotBelow(before: Option<Object>, after: Option<Object>) {
    before.Some? && after.Some? && Leq(before.value.vc, after.value.vc)
  }

  /** No object is gone and no clock lower than before. */
  ghost predicate NoneGoesDown(db: DB, db': DB) {
    forall b, k :: Lookup(db, b, k).Some? ==> NotBelow(Lookup(db, b, k), Lookup(db', b, k))
  }

  lemma DeliverKeepsIff(db: DB, m: Put)
    ensures NoneGoesDown(db, Deliver(db, m)) <==> Keeps(db, m)
  {
    forall b, k | Lookup(db, b, k).Some?
      ensures NotBelow(Lookup(db, b, k), Lookup(Deliver(db, m), b, k))
              <==> (Storable(m) && b == m.bucket && k == m.key ==> KeepsClock(Lookup(db, b, k), m.data, m.sender))
    {
      DeliverLookup(db, m, b, k);
      AcceptKeepsClockIff(Lookup(db, b, k).value, m.data, m.sender);
    }
    if NoneGoesDown(db, Deliver(db, m)) && Lookup(db, m.bucket, m.key).Some? {
      assert NotBelow(Lookup(db, m.bucket, m.key), Lookup(Deliver(db, m), m.bucket, m.key));
    }
  }

  /** From step to step nothing goes down. */
  ghost predicate NeverGoesDown(db: DB, ms: seq<Put>) {
    ms == []
    || (NeverGoesDown(db, ms[..|ms| - 1]) && NoneGoesDown(DeliverAll(db, ms[..|ms| - 1]), DeliverAll(db, ms)))
  }

  /** Clock monotonicity, exactly: in a run of deliveries one after the other, in any order, no object
      disappears and no clock ever goes down if and only if no bump wraps a stored tick. (Module
      Overlaps is about deliveries that interleave.) */
  lemma {:induction false} ClockMonotoneIff(db: DB, ms: seq<Put>)
    ensures NeverGoesDown(db, ms) <==> KeepingRun(db, ms)
  {
    if ms != [] {
      ClockMonotoneIff(db, ms[..|ms| - 1]);
      DeliverKeepsIff(DeliverAll(db, ms[..|ms| - 1]), ms[|ms| - 1]);
    }
  }

  /** So from the start of such a run to its end, and any moment of a run starts a run of its own. */
  lemma {:induction false} ClockMonotone(db: DB, ms: seq<Put>)
    requires KeepingRun(db, ms)
    ensures NoneGoesDown(db, DeliverAll(db, ms))
  {
    if ms != [] {
      var mid, end := DeliverAll(db, ms[..|ms| - 1]), DeliverAll(db, ms);
      ClockMonotone(db, ms[..|ms| - 1]);
      DeliverKeepsIff(mid, ms[|ms| - 1]);
      forall b, k | Lookup(db, b, k).Some? ensures NotBelow(Lookup(db, b, k), Lookup(end, b, k)) {
        assert NotBelow(Lookup(db, b, k), Lookup(mid, b, k));
        assert NotBelow(Lookup(mid, b, k), Lookup(end, b, k));
        LeqTransitive(Lookup(db, b, k).value.vc, Lookup(mid, b, k).value.vc, Lookup(end, b, k).value.vc);
      }
    }
  }

  lemma AbsorbedIsNoOp(db: DB, m: Put)
    requires Absorbed(Lookup(db, m.bucket, m.key), m.data.vc)
    ensures Deliver(db, m) == db
  {
    if Storable(m) {
      var e := db[m.bucket][m.key];
      assert db[m.bucket][m.key := e] == db[m.bucket];
    }
  }

  /** What is absorbed stays absorbed while no clock goes down. */
  lemma StaysAbsorbed(db: DB, ms: seq<Put>, bucket: string, key: string, c: Clock)
    requires KeepingRun(db, ms) && Absorbed(Lookup(db, bucket, key), c)
    ensures Absorbed(Lookup(DeliverAll(db, ms), bucket, key), c)
  {
    ClockMonotone(db, ms);
    assert NotBelow(Lookup(db, bucket, key), Lookup(DeliverAll(db, ms), bucket, key));
    AbsorbedStays(Lookup(db, bucket, key).value, Lookup(DeliverAll(db, ms), bucket, key).value, c, c);
  }

  /** A delivery that an existing object takes in stays absorbed for the rest of the run. */
  lemma MetIsAbsorbed(db: DB, m: Put, after: seq<Put>)
    requires Storable(m) && Lookup(db, m.bucket, m.key).Some?
    requires TakesIn(Lookup(db, m.bucket, m.key), m.data, m.sender) && KeepingRun(Deliver(db, m), after)
    ensures Absorbed(Lookup(DeliverAll(Deliver(db, m), after), m.bucket, m.key), m.data.vc)
  {
    DeliverLookup(db, m, m.bucket, m.key);
    AcceptAbsorbsIff(Lookup(db, m.bucket, m.key).value, m.data, m.sender);
    StaysAbsorbed(Deliver(db, m), after, m.bucket, m.key, m.data.vc);
  }

  /** Duplicate suppression: after a delivery `m` that an existing object takes in, every later
      delivery for the same object with a clock at most as high changes nothing, whatever was
      delivered before and however many others came in between, as long as those let no clock
      go down. */
  lemma DuplicateSuppression(db: DB, before: seq<Put>, m: Put, after: seq<Put>, late: Put)
    requires Storable(m) && Lookup(DeliverAll(db, before), m.bucket, m.key).Some?
    requires TakesIn(Lookup(DeliverAll(db, before), m.bucket, m.key), m.data, m.sender)
    requires KeepingRun(DeliverAll(db, before + [m]), after)
    requires late.bucket == m.bucket && late.key == m.key && Leq(late.data.vc, m.data.vc)
    ensures var end := DeliverAll(db, before + [m] + after); Deliver(end, late) == end
  {
    DeliverConcat(db, before + [m], after);
    DeliverSnoc(db, before, m);
    MetIsAbsorbed(DeliverAll(db, before), m, after);
    var e := Lookup(DeliverAll(db, before + [m] + after), late.bucket, late.key).value;
    AbsorbedStays(e, e, m.data.vc, late.data.vc);
    AbsorbedIsNoOp(DeliverAll(db, before + [m] + after), late);
  }

  lemma {:induction false} AllAbsorbedIsNoOp(db: DB, ms: seq<Put>)
    requires forall m :: m in ms ==> Absorbed(Lookup(db, m.bucket, m.key), m.data.vc)
    ensures DeliverAll(db, ms) == db
  {
    if ms != [] {
      AllAbsorbedIsNoOp(db, ms[..|ms| - 1]);
      AbsorbedIsNoOp(db, ms[|ms| - 1]);
    }
  }

  /** All of these objects are there already. */
  predicate AllKnown(db: DB, ms: seq<Put>) {
    forall m :: m in ms ==> Storable(m) && Lookup(db, m.bucket, m.key).Some?
  }

  lemma StreamAbsorbed(db: DB, ms: seq<Put>, i: nat)
    requires SteadyRun(db, ms) && i < |ms|
    requires Storable(ms[i]) && Lookup(DeliverAll(db, ms[..i]), ms[i].bucket, ms[i].key).Some?
    ensures Absorbed(Lookup(DeliverAll(db, ms), ms[i].bucket, ms[i].key), ms[i].data.vc)
  {
    var before, m, after := ms[..i], ms[i], ms[i + 1..];
    assert ms == before + [m] + after;
    DeliverConcat(db, before + [m], after);
    DeliverSnoc(db, before, m);
    SteadyKeeps(DeliverAll(db, before + [m]), after);
    MetIsAbsorbed(DeliverAll(db, before), m, after);
  }

  lemma KnownStaysKnown(db: DB, ms: seq<Put>, i: nat)
    requires SteadyRun(db, ms) && AllKnown(db, ms) && i < |ms|
    ensures Storable(ms[i]) && Lookup(DeliverAll(db, ms[..i]), ms[i].bucket, ms[i].key).Some?
  {
    assert ms == ms[..i] + ms[i..];
    DeliverConcat(db, ms[..i], ms[i..]);
    SteadyKeeps(db, ms[..i]);
    ClockMonotone(db, ms[..i]);
    assert NotBelow(Lookup(db, ms[i].bucket, ms[i].key), Lookup(DeliverAll(db, ms[..i]), ms[i].bucket, ms[i].key));
  }

  /** A whole stream over existing objects may be sent again without effect. */
  lemma StreamTwiceIsOnce(db: DB, ms: seq<Put>)
    requires SteadyRun(db, ms) && AllKnown(db, ms)
    ensures DeliverAll(DeliverAll(db, ms), ms) == DeliverAll(db, ms)
  {
    forall m | m in ms
      ensures Absorbed(Lookup(DeliverAll(db, ms), m.bucket, m.key), m.data.vc)
    {
      KnownStaysKnown(db, ms, IndexOf(ms, m));
      StreamAbsorbed(db, ms, IndexOf(ms, m));
    }
    AllAbsorbedIsNoOp(DeliverAll(db, ms), ms);
  }

  /** So a stream that broke off after any part of it may be sent again from the start: the
      outcome is that of sending it once. */
  lemma BrokenStreamSentAgain(db: DB, part: seq<Put>, rest: seq<Put>)
    requires SteadyRun(db, part) && AllKnown(db, part)
    ensures DeliverAll(DeliverAll(db, part), part + rest) == DeliverAll(db, part + rest)
  {
    DeliverConcat(db, part, rest);
    StreamTwiceIsOnce(db, part);
    DeliverConcat(DeliverAll(db, part), part, rest);
  }

  // ---------- writes without a clock ----------

  ghost predicate ClocksNonEmpty(db: DB) {
    forall b, k :: Lookup(db, b, k).Some? ==> Lookup(db, b, k).value.vc != map[]
  }

  lemma {:induction false} StoredClocksNonEmpty(ms: seq<Put>)
    ensures ClocksNonEmpty(DeliverAll(map[], ms))
  {
    if ms != [] {
      StoredClocksNonEmpty(ms[..|ms| - 1]);
      var before, m := DeliverAll(map[], ms[..|ms| - 1]), ms[|ms| - 1];
      forall b, k | Lookup(Deliver(before, m), b, k).Some?
        ensures Lookup(Deliver(before, m), b, k).value.vc != map[]
      {
        DeliverLookup(before, m, b, k);
        AcceptNonEmpty(Lookup(before, b, k), m.data, m.sender);
      }
    }
  }

  lemma AcceptNonEmpty(existing: Option<Object>, incoming: Object, sender: UInt64)
    requires existing.Some? ==> existing.value.vc != map[]
    ensures Accept(existing, incoming, sender).vc != map[]
  {
    var n := Decimal(sender);
    if existing.None? || !IsAncestorOf(existing.value.vc, incoming.vc) {
      assert n in Accept(existing, incoming, sender).vc;
    }
  }

  /** In every reachable store a write that carries no clock is acknowledged and dropped if and
      only if the key is already there. */
  lemma BlindWriteIsDroppedIff(ms: seq<Put>, m: Put)
    requires Storable(m) && m.data.vc == map[]
    ensures Deliver(DeliverAll(map[], ms), m) == DeliverAll(map[], ms)
            <==> Lookup(DeliverAll(map[], ms), m.bucket, m.key).Some?
  {
    var db := DeliverAll(map[], ms);
    StoredClocksNonEmpty(ms);
    if Lookup(db, m.bucket, m.key).Some? {
      AbsorbedIsNoOp(db, m);
    } else {
      DeliverLookup(db, m, m.bucket, m.key);
    }
  }
}
