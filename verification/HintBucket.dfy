/** The hint bucket: hints accepted for a node that is down, handed over by the periodic handler. */
module HintBucket {
  import opened Naming
  import opened Sequences
  import opened Replica

  datatype Hint = Hint(data: Object, bucketName: string)

  /** What clientPutMultiple sends for a hint. */
  function AsPut(h: Hint, sender: UInt64): Put {
    Put(h.bucketName, h.data.key, h.data, sender)
  }

  /** The delivery that a hint stands for: its bucket, its object under the object's key, sent by its holder. */
  predicate Carries(m: Put, h: Hint, sender: UInt64) {
    m.bucket == h.bucketName && m.key == h.data.key && m.data == h.data && m.sender == sender
  }

  /** One delivery for each hint, in order. */
  ghost predicate CarriesAll(ms: seq<Put>, hs: seq<Hint>, sender: UInt64) {
    |ms| == |hs| && forall i :: 0 <= i < |ms| ==> Carries(ms[i], hs[i], sender)
  }

  function AsPuts(hs: seq<Hint>, sender: UInt64): (ms: seq<Put>)
    ensures |ms| == |hs|
  {
    seq(|hs|, i requires 0 <= i < |hs| => AsPut(hs[i], sender))
  }

  type Lists = map<string, seq<Hint>>

  function At<T>(m: map<string, seq<T>>, t: string): seq<T> {
    if t in m then m[t] else []
  }

  lemma AtUpdate<T>(m: map<string, seq<T>>, k: string, xs: seq<T>, t: string)
    ensures At(m[k := xs], t) == if k == t then xs else At(m, t)
  {
  }

  function Append<T>(m: map<string, seq<T>>, t: string, xs: seq<T>): map<string, seq<T>> {
    m[t := At(m, t) + xs]
  }

  /** How one entry of the bucket fares: the target does not answer the heartbeat; the whole
      stream reaches it; or the connection breaks after some hints. */
  datatype Contact =
    | Silent
    | Whole
    | Broken(arrived: nat)

  /** What of the list reaches the target. */
  function Arrived(hs: seq<Hint>, contact: Contact, sender: UInt64): seq<Put> {
    var ms := AsPuts(hs, sender);
    match contact
    case Silent => []
    case Whole => ms
    case Broken(n) => if n <= |ms| then ms[..n] else ms
  }

  /** What of it the target handles. */
  function Handled(hs: seq<Hint>, contact: Contact, sender: UInt64): seq<Put> {
    var ms := Arrived(hs, contact, sender);
    ms[..HandledCount(ms)]
  }

  /** What a scan has done so far: the targets' stores and the deliveries made there, the targets
      whose entry is to be deleted, and whether the process is gone. */
  datatype Scanned = Scanned(stores: map<string, DB>, log: map<string, seq<Put>>, done: seq<string>, crashed: bool)

  /** One more entry of the bucket. An unknown target does not answer. A target that does not
      report done makes no reply at all, and the missing reply is dereferenced. */
  function ScanOne(before: Scanned, t: string, hs: seq<Hint>, contact: Contact, sender: UInt64): (after: Scanned)
    ensures after.stores.Keys == before.stores.Keys
  {
    if before.crashed || contact.Silent? || t !in before.stores then before
    else
      var ms := Handled(hs, contact, sender);
      var after := before.(stores := before.stores[t := DeliverAll(before.stores[t], ms)],
                           log := Append(before.log, t, ms));
      if contact.Whole? && AllStorable(AsPuts(hs, sender)) then after.(done := after.done + [t])
      else after.(crashed := true)
  }

  function ScanEntries(bucket: Lists, sender: UInt64, start: Scanned, order: seq<string>, contacts: string -> Contact):
    (end: Scanned)
    ensures end.stores.Keys == start.stores.Keys
  {
    if order == [] then start
    else
      var t := order[|order| - 1];
      ScanOne(ScanEntries(bucket, sender, start, order[..|order| - 1], contacts), t, At(bucket, t), contacts(t), sender)
  }

  lemma ScanSnoc(bucket: Lists, sender: UInt64, start: Scanned, order: seq<string>, contacts: string -> Contact, t: string)
    ensures ScanEntries(bucket, sender, start, order + [t], contacts)
            == ScanOne(ScanEntries(bucket, sender, start, order, contacts), t, At(bucket, t), contacts(t), sender)
  {
  }

  /** How many of `n` objects arrive. */
  function ArrivedCount(n: nat, contact: Contact): (k: nat)
    ensures k <= n
  {
    match contact
    case Silent => 0
    case Whole => n
    case Broken(k) => if k <= n then k else n
  }

  lemma ArrivedIsFront(hs: seq<Hint>, contact: Contact, sender: UInt64)
    ensures var ms := AsPuts(hs, sender); Arrived(hs, contact, sender) == ms[..ArrivedCount(|ms|, contact)]
  {
  }

  lemma HandledIsTaken(db: DB, ms: seq<Put>, arrived: nat)
    requires arrived <= |ms|
    ensures var front := ms[..arrived];
            TakenUpTo(db, DeliverAll(db, front[..HandledCount(front)]), ms, arrived, HandledCount(front))
  {
    var front := ms[..arrived];
    assert front[..HandledCount(front)] == ms[..HandledCount(front)];
  }

  /** What streaming a list does to the target's store: every hint is sent as a delivery of its own, in
      order; of those that arrive all are delivered up to the first that is refused; the reply says
      done exactly if the whole stream arrives and none is refused. */
  ghost predicate Streamed(db: DB, db': DB, hs: seq<Hint>, contact: Contact, sender: UInt64, done: bool) {
    exists ms, n :: CarriesAll(ms, hs, sender) && TakenUpTo(db, db', ms, ArrivedCount(|ms|, contact), n)
                    && (done <==> contact.Whole? && forall i :: 0 <= i < |ms| ==> Storable(ms[i]))
  }

  /** Of the first `arrived` objects the first `n` have been delivered, none but the last of them refused. */
  ghost predicate TakenUpTo(db: DB, db': DB, ms: seq<Put>, arrived: nat, n: nat)
    requires arrived <= |ms|
  {
    && n <= arrived && db' == DeliverAll(db, ms[..n])
    && (forall i :: 0 <= i < n - 1 ==> Storable(ms[i]))
    && (n < arrived ==> n > 0 && !Storable(ms[n - 1]))
  }

  lemma HandledIsStreamed(db: DB, hs: seq<Hint>, contact: Contact, sender: UInt64)
    ensures Streamed(db, DeliverAll(db, Handled(hs, contact, sender)), hs, contact, sender,
                     contact.Whole? && AllStorable(AsPuts(hs, sender)))
  {
    var ms := AsPuts(hs, sender);
    assert CarriesAll(ms, hs, sender);
    ArrivedIsFront(hs, contact, sender);
    HandledIsTaken(db, ms, ArrivedCount(|ms|, contact));
  }

  // ---------- the holder ----------

  ghost function Stores(targets: map<string, ReplicaServer>): map<string, DB>
    reads targets.Values
  {
    map t | t in targets :: targets[t].boltDB
  }

  ghost predicate Servers(targets: map<string, ReplicaServer>)
    reads targets.Values
  {
    && (forall t :: t in targets ==> ProperNames(targets[t].boltDB))
    && (forall t, u :: t in targets && u in targets && t != u ==> targets[t] != targets[u])
  }

  /** The scan has visited the entries in `order`; those in `todo` are left. */
  ghost predicate Visited(order: seq<string>, keys: set<string>, todo: set<string>) {
    todo <= keys && IsOrderOf(order, keys - todo)
  }

  lemma VisitedSnoc(order: seq<string>, keys: set<string>, todo: set<string>, t: string)
    requires Visited(order, keys, todo) && t in todo
    ensures Visited(order + [t], keys, todo - {t})
  {
  }

  lemma VisitedAll(order: seq<string>, keys: set<string>, todo: set<string>)
    requires Visited(order, keys, todo)
    ensures Distinct(order) && forall t :: t in order ==> t in keys
    ensures todo == {} ==> IsOrderOf(order, keys)
  {
  }

  class HintHolder {
    const nodeId: UInt64
    var bucket: Lists

    constructor (nodeId: UInt64)
      ensures this.nodeId == nodeId && bucket == map[]
    {
      this.nodeId := nodeId;
      bucket := map[];
    }

    /** Reads the target's list and writes it back with the hint behind it; run alone, without
        another handler in between. `ok` is false where Bolt refuses the key. */
    method PutInHintBucket(origNode: string, origBucket: string, hint: Object) returns (ok: bool)
      modifies this
      ensures ok <==> 1 <= |origNode| <= 32768
      ensures bucket == if ok then Append(old(bucket), origNode, [Hint(hint, origBucket)]) else old(bucket)
    {
      var hintedDatas;
      if origNode !in bucket {
        hintedDatas := [Hint(hint, origBucket)];
      } else {
        hintedDatas := bucket[origNode] + [Hint(hint, origBucket)];
      }
      if |origNode| == 0 || |origNode| > MAX_KEY_SIZE {
        return false;
      }
      assert hintedDatas == At(bucket, origNode) + [Hint(hint, origBucket)];
      bucket := bucket[origNode := hintedDatas];
      ok := true;
    }

    /** The list of one target as one stream. */
    method StreamTo(target: ReplicaServer, hs: seq<Hint>, contact: Contact) returns (done: bool)
      requires ProperNames(target.boltDB) && !contact.Silent?
      modifies target
      ensures ProperNames(target.boltDB)
      ensures target.boltDB == DeliverAll(old(target.boltDB), Handled(hs, contact, nodeId))
      ensures done <==> contact.Whole? && AllStorable(AsPuts(hs, nodeId))
      ensures Streamed(old(target.boltDB), target.boltDB, hs, contact, nodeId, done)
    {
      HandledIsStreamed(target.boltDB, hs, contact, nodeId);
      done := target.PutMultiple(Arrived(hs, contact, nodeId), contact.Whole?);
      assert contact.Whole? ==> Arrived(hs, contact, nodeId) == AsPuts(hs, nodeId);
    }

    /** One entry whose target answers the heartbeat: its whole list as one stream. */
    method HandOver(t: string, contact: Contact, targets: map<string, ReplicaServer>) returns (done: bool)
      requires t in bucket && t in targets && Servers(targets) && !contact.Silent?
      modifies targets[t]
      ensures Servers(targets)
      ensures Streamed(old(targets[t].boltDB), targets[t].boltDB, bucket[t], contact, nodeId, done)
      ensures done <==> contact.Whole? && AllStorable(AsPuts(bucket[t], nodeId))
      ensures Stores(targets) == old(Stores(targets))[t := DeliverAll(old(targets[t].boltDB),
                                                                      Handled(bucket[t], contact, nodeId))]
    {
      ghost var goal := Stores(targets)[t := DeliverAll(targets[t].boltDB, Handled(bucket[t], contact, nodeId))];
      done := StreamTo(targets[t], bucket[t], contact);
      assert forall u :: u in targets ==> targets[u].boltDB == goal[u];
    }

    /** One entry as a step of the scan. A target that is unknown or silent is passed over; a stream
        without a reply brings the holder down. */
    method ScanNext(t: string, contact: Contact, targets: map<string, ReplicaServer>, ghost before: Scanned)
      returns (done: bool, crashed: bool, ghost after: Scanned)
      requires t in bucket && Servers(targets) && before.stores == Stores(targets) && !before.crashed
      modifies targets.Values
      ensures Servers(targets) && after == ScanOne(before, t, bucket[t], contact, nodeId)
      ensures after.stores == Stores(targets) && after.crashed == crashed
      ensures after.done == if done then before.done + [t] else before.done
    {
      done, crashed := false, false;
      after := ScanOne(before, t, bucket[t], contact, nodeId);
      if t in targets && !contact.Silent? {
        done := HandOver(t, contact, targets);
        crashed := !done;
      }
    }

    /** The scan of one handler tick. */
    method Scan(contacts: string -> Contact, targets: map<string, ReplicaServer>, ghost start: Scanned)
      returns (toDelete: seq<string>, crashed: bool, ghost order: seq<string>, ghost end: Scanned)
      requires Servers(targets) && start.stores == Stores(targets) && start.done == [] && !start.crashed
      modifies targets.Values
      ensures Servers(targets) && Stores(targets) == end.stores
      ensures Distinct(order) && forall t :: t in order ==> t in bucket
      ensures !crashed ==> IsOrderOf(order, bucket.Keys)
      ensures end == ScanEntries(bucket, nodeId, start, order, contacts)
      ensures toDelete == end.done && crashed == end.crashed
    {
      toDelete, crashed, order, end := [], false, [], start;
      var todo := bucket.Keys;
      while todo != {} && !crashed
        invariant Visited(order, bucket.Keys, todo)
        invariant Servers(targets) && Stores(targets) == end.stores
        invariant end == ScanEntries(bucket, nodeId, start, order, contacts)
        invariant toDelete == end.done && crashed == end.crashed
        decreases |todo|
      {
        var t :| t in todo;
        ScanSnoc(bucket, nodeId, start, order, contacts, t);
        var done;
        done, crashed, end := ScanNext(t, contacts(t), targets, end);
        if done {
          toDelete := toDelete + [t];
        }
        VisitedSnoc(order, bucket.Keys, todo, t);
        todo, order := todo - {t}, order + [t];
      }
      VisitedAll(order, bucket.Keys, todo);
    }

    /** The second loop of a tick. */
    method DeleteDelivered(toDelete: seq<string>)
      modifies this
      ensures bucket == old(bucket) - Elements(toDelete)
    {
      assert Elements(toDelete[..0]) == {};
      for i := 0 to |toDelete|
        invariant bucket == old(bucket) - Elements(toDelete[..i])
      {
        assert Elements(toDelete[..i + 1]) == Elements(toDelete[..i]) + {toDelete[i]};
        bucket := bucket - {toDelete[i]};
      }
      assert toDelete[..|toDelete|] == toDelete;
    }
  }

  // ---------- how a scan ends ----------

  /** The stream to this target leaves no reply. */
  predicate Fatal(bucket: Lists, sender: UInt64, known: set<string>, contacts: string -> Contact, t: string) {
    && t in known && !contacts(t).Silent?
    && !(contacts(t).Whole? && AllStorable(AsPuts(At(bucket, t), sender)))
  }

  /** The target takes its whole list. */
  predicate Delivered(bucket: Lists, sender: UInt64, known: set<string>, contacts: string -> Contact, t: string) {
    t in known && contacts(t).Whole? && AllStorable(AsPuts(At(bucket, t), sender))
  }

  /** The holder survives a scan exactly if no stream breaks and no answering target is sent an
      object that its store refuses; then exactly the targets that took their whole list are to
      be deleted. */
  lemma {:induction false} ScanOutcome(bucket: Lists, sender: UInt64, start: Scanned, order: seq<string>,
                                       contacts: string -> Contact)
    requires start.done == [] && !start.crashed
    ensures var r, known := ScanEntries(bucket, sender, start, order, contacts), start.stores.Keys;
            && (r.crashed <==> exists t :: t in order && Fatal(bucket, sender, known, contacts, t))
            && (!r.crashed ==>
                  forall t :: t in r.done <==> t in order && Delivered(bucket, sender, known, contacts, t))
  {
    if order != [] {
      var front, last := order[..|order| - 1], order[|order| - 1];
      ScanOutcome(bucket, sender, start, front, contacts);
      assert order == front + [last];
      assert last in order;
    }
  }
}
