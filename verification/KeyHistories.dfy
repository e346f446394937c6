/** One key at all nodes: the deliveries that reach it, overlapping ones included, and what becomes
    of its clocks. */
module KeyHistories {
  import opened Naming
  import opened VectorClock
  import opened Replica

  /** What a get for one key finds at each node. */
  type Holdings = map<UInt64, GetOutcome>

  datatype Write = Write(incoming: Object, sender: UInt64)

  /** What the end of a delivery at one node is to the key: a write to it, on the strength of the object
      `seen` that was read for it; or, for any other key of its bucket, at most the creation of
      the bucket. */
  datatype Delivery =
    | Delivery(node: UInt64, write: Write, seen: Option<Object>)
    | OtherKey(node: UInt64)

  /** What the nodes hold at first, and the deliveries in the order of their writes; nothing is
      deleted. */
  datatype KeyHistory = KeyHistory(start: Holdings, deliveries: seq<Delivery>)

  function Take(s: Holdings, d: Delivery): Holdings {
    if d.node !in s then s
    else
      match d
      case Delivery(n, w, seen) =>
        var r := Replaced(s[n].Existing(), seen, w.incoming, w.sender);
        if r.Some? then s[n := Found(r.value)] else s
      case OtherKey(n) => if s[n].BucketMissing? then s[n := KeyMissing] else s
  }

  function StateAfter(start: Holdings, ds: seq<Delivery>): (s: Holdings)
    ensures s.Keys == start.Keys
  {
    if ds == [] then start else Take(StateAfter(start, ds[..|ds| - 1]), ds[|ds| - 1])
  }

  /** What the nodes hold after the first `t` deliveries. */
  function Moment(h: KeyHistory, t: nat): Holdings
    requires t <= |h.deliveries|
  {
    StateAfter(h.start, h.deliveries[..t])
  }

  function KeyView(dbs: map<UInt64, DB>, bucket: string, key: string): Holdings {
    map n | n in dbs :: Outcome(dbs[n], bucket, key)
  }

  /** Such a history is what the two halves of deliveries at whole stores do to one key: the first
      reads what the key's history has at the node, ... */
  lemma TakeIsOpenBucket(dbs: map<UInt64, DB>, n: UInt64, m: Put, bucket: string, key: string)
    requires n in dbs
    ensures KeyView(dbs[n := OpenBucket(dbs[n], m.bucket)], bucket, key)
            == if m.bucket != bucket || bucket == "" then KeyView(dbs, bucket, key)
               else Take(KeyView(dbs, bucket, key), OtherKey(n))
    ensures Lookup(dbs[n], bucket, key) == KeyView(dbs, bucket, key)[n].Existing()
  {
  }

  /** ... and the second writes. */
  lemma TakeIsWriteBack(dbs: map<UInt64, DB>, n: UInt64, m: Put, seen: Option<Object>, bucket: string, key: string)
    requires n in dbs && m.bucket in dbs[n]
    ensures KeyView(dbs[n := WriteBack(dbs[n], m, seen)], bucket, key)
            == if Storable(m) && m.bucket == bucket && m.key == key
               then Take(KeyView(dbs, bucket, key), Delivery(n, Write(m.data, m.sender), seen))
               else KeyView(dbs, bucket, key)
  {
    WriteBackLookup(dbs[n], m, seen, bucket, key);
  }

  /** A delivery that nothing interrupts reads what it then replaces. */
  lemma TakeIsDeliver(dbs: map<UInt64, DB>, n: UInt64, m: Put, bucket: string, key: string)
    requires n in dbs
    ensures KeyView(dbs[n := Deliver(dbs[n], m)], bucket, key)
            == if m.bucket != bucket || bucket == "" then KeyView(dbs, bucket, key)
               else if m.key == key && StorableKey(key)
               then Take(KeyView(dbs, bucket, key), Delivery(n, Write(m.data, m.sender), Lookup(dbs[n], bucket, key)))
               else Take(KeyView(dbs, bucket, key), OtherKey(n))
  {
    DeliverLookup(dbs[n], m, bucket, key);
  }

  /** The object was held by the node at some moment up to now. */
  ghost predicate WasHeld(start: Holdings, ds: seq<Delivery>, node: UInt64, seen: Option<Object>) {
    exists u: nat :: u <= |ds| && node in start && StateAfter(start, ds[..u])[node].Existing() == seen
  }

  /** Every delivery has read what its node held at some moment before its write. */
  ghost predicate ReadsHonest(start: Holdings, ds: seq<Delivery>) {
    ds == []
    || var front, d := ds[..|ds| - 1], ds[|ds| - 1];
       ReadsHonest(start, front) && (d.Delivery? && d.node in start ==> WasHeld(start, front, d.node, d.seen))
  }

  lemma {:induction false} HonestRead(start: Holdings, ds: seq<Delivery>, t: nat)
    requires ReadsHonest(start, ds) && t < |ds| && ds[t].Delivery? && ds[t].node in start
    ensures WasHeld(start, ds[..t], ds[t].node, ds[t].seen)
  {
    if t < |ds| - 1 {
      HonestRead(start, ds[..|ds| - 1], t);
      assert ds[..|ds| - 1][..t] == ds[..t];
    }
  }

  predicate KeepsAt(s: Holdings, d: Delivery) {
    d.Delivery? && d.node in s ==> KeepsOver(s[d.node].Existing(), d.seen, d.write.incoming, d.write.sender)
  }

  /** Every write keeps the clock it finds: no bump wraps a stored tick, and no delivery replaces what
      it has neither read nor brought. */
  ghost predicate KeepsClocks(start: Holdings, ds: seq<Delivery>) {
    ds == []
    || var s, d := StateAfter(start, ds[..|ds| - 1]), ds[|ds| - 1];
       KeepsClocks(start, ds[..|ds| - 1]) && KeepsAt(s, d)
  }

  /** Every object is still there and no clock is lower. */
  ghost predicate NoneLower(s: Holdings, s': Holdings) {
    forall n :: n in s && s[n].Found? ==> n in s' && NotBelow(s[n].Existing(), s'[n].Existing())
  }

  /** From delivery to delivery no clock goes down. */
  ghost predicate NeverLower(start: Holdings, ds: seq<Delivery>) {
    ds == []
    || (NeverLower(start, ds[..|ds| - 1]) && NoneLower(StateAfter(start, ds[..|ds| - 1]), StateAfter(start, ds)))
  }

  lemma TakeKeepsIff(s: Holdings, d: Delivery)
    ensures NoneLower(s, Take(s, d)) <==> KeepsAt(s, d)
  {
    if d.Delivery? && d.node in s && s[d.node].Found? {
      ReplacedKeepsIff(s[d.node].obj, d.seen, d.write.incoming, d.write.sender);
      assert NoneLower(s, Take(s, d)) ==> NotBelow(s[d.node].Existing(), Take(s, d)[d.node].Existing());
    }
  }

  /** Over all nodes and every interleaving of the two halves of deliveries: no object disappears and no
      clock ever goes down exactly if every write keeps the clock it finds. */
  lemma {:induction false} HistoryMonotoneIff(start: Holdings, ds: seq<Delivery>)
    ensures NeverLower(start, ds) <==> KeepsClocks(start, ds)
  {
    if ds != [] {
      HistoryMonotoneIff(start, ds[..|ds| - 1]);
      TakeKeepsIff(StateAfter(start, ds[..|ds| - 1]), ds[|ds| - 1]);
    }
  }

  ghost predicate Holds(h: KeyHistory, t: nat, node: UInt64) {
    t <= |h.deliveries| && node in h.start && Moment(h, t)[node].Found?
  }

  lemma MomentStep(h: KeyHistory, t: nat)
    requires t < |h.deliveries|
    ensures Moment(h, t + 1) == Take(Moment(h, t), h.deliveries[t])
  {
    assert h.deliveries[..t + 1][..t] == h.deliveries[..t];
  }

  lemma {:induction false} KeepsClocksSoFar(start: Holdings, ds: seq<Delivery>, t: nat)
    requires KeepsClocks(start, ds) && t <= |ds|
    ensures KeepsClocks(start, ds[..t])
  {
    if t == |ds| {
      assert ds[..t] == ds;
    } else {
      assert ds[..|ds| - 1][..t] == ds[..t];
      KeepsClocksSoFar(start, ds[..|ds| - 1], t);
    }
  }

  /** Nothing makes an object disappear. */
  lemma {:induction false} HeldStaysHeld(h: KeyHistory, t: nat, u: nat, node: UInt64)
    requires t <= u <= |h.deliveries| && Holds(h, t, node)
    ensures Holds(h, u, node)
    decreases u
  {
    if t < u {
      HeldStaysHeld(h, t, u - 1, node);
      MomentStep(h, u - 1);
    }
  }

  lemma NextMoment(h: KeyHistory, t: nat, node: UInt64)
    requires KeepsClocks(h.start, h.deliveries) && t < |h.deliveries| && Holds(h, t, node)
    ensures Holds(h, t + 1, node) && Leq(Moment(h, t)[node].obj.vc, Moment(h, t + 1)[node].obj.vc)
  {
    assert h.deliveries[..t + 1][..t] == h.deliveries[..t];
    KeepsClocksSoFar(h.start, h.deliveries, t + 1);
    MomentStep(h, t);
    TakeKeepsIff(Moment(h, t), h.deliveries[t]);
    assert NotBelow(Moment(h, t)[node].Existing(), Moment(h, t + 1)[node].Existing());
  }

  /** While every write keeps the clock it finds, a node's object stays and its clock never goes down. */
  lemma {:induction false} HistoryMonotone(h: KeyHistory, t: nat, u: nat, node: UInt64)
    requires KeepsClocks(h.start, h.deliveries) && t <= u <= |h.deliveries| && Holds(h, t, node)
    ensures Holds(h, u, node) && Leq(Moment(h, t)[node].obj.vc, Moment(h, u)[node].obj.vc)
    decreases u
  {
    if t < u {
      HistoryMonotone(h, t, u - 1, node);
      NextMoment(h, u - 1, node);
      LeqTransitive(Moment(h, t)[node].obj.vc, Moment(h, u - 1)[node].obj.vc, Moment(h, u)[node].obj.vc);
    }
  }
}
