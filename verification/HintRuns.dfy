/** A hint holder over time: handlers, ticks, crashes and restarts in any order, and what becomes
    of the hints at the holder and at their targets. */
module HintRuns {
  import opened Naming
  import opened Sequences
  import opened Replica
  import opened HintBucket

  // ---------- a holder over time ----------

  /** A handler that has read the target's list and has not yet written it back. */
  datatype Request = Request(target: string, snapshot: seq<Hint>)

  /** `pending` remembers, for every target whose stream is through but whose entry still waits
      to be deleted, the list that was streamed; `inFlight` the handlers at work. `accepted` and
      `handed` record the hints acknowledged and the hints handed over for good, `stores` and
      `log` what the targets hold and every delivery made there. */
  datatype HintState = HintState(
    sender: UInt64, bucket: Lists, pending: Lists, inFlight: map<nat, Request>,
    accepted: Lists, handed: Lists, stores: map<string, DB>, log: map<string, seq<Put>>)

  /** `EndHint` completes the request with this hint. `OtherPut` is any other delivery at a target.
      A scan runs in one write transaction, so no other write to the bucket falls into it. */
  datatype HintEvent =
    | BeginHint(req: nat, target: string)
    | EndHint(req: nat, hint: Hint)
    | ScanBucket(order: seq<string>, contacts: string -> Contact)
    | DeleteEntry(target: string)
    | OtherPut(target: string, put: Put)
    | Restart

  function Start(sender: UInt64, known: set<string>): HintState {
    HintState(sender, map[], map[], map[], map[], map[], map t | t in known :: map[], map[])
  }

  function ScanOf(s: HintState, order: seq<string>, contacts: string -> Contact): Scanned {
    ScanEntries(s.bucket, s.sender, Scanned(s.stores, s.log, [], false), order, contacts)
  }

  ghost predicate Enabled(s: HintState, e: HintEvent) {
    match e
    case BeginHint(req, _) => req !in s.inFlight
    case EndHint(req, _) => req in s.inFlight
    case ScanBucket(order, contacts) =>
      && s.pending == map[] && Distinct(order) && (forall t :: t in order ==> t in s.bucket)
      && (!ScanOf(s, order, contacts).crashed ==> IsOrderOf(order, s.bucket.Keys))
    case DeleteEntry(t) => t in s.pending
    case OtherPut(t, _) => t in s.stores
    case Restart => true
  }

  /** A crash in the scan, or a restart at any time, forgets what was to be deleted and the
      handlers at work. */
  function HintStep(s: HintState, e: HintEvent): HintState {
    match e
    case BeginHint(req, t) => s.(inFlight := s.inFlight[req := Request(t, At(s.bucket, t))])
    case EndHint(req, h) => if req in s.inFlight then EndStep(s, req, h) else s
    case ScanBucket(order, contacts) =>
      var r := ScanOf(s, order, contacts);
      s.(stores := r.stores, log := r.log,
         pending := if r.crashed then map[] else map t | t in r.done :: At(s.bucket, t),
         inFlight := if r.crashed then map[] else s.inFlight)
    case DeleteEntry(t) =>
      s.(bucket := s.bucket - {t}, pending := s.pending - {t}, handed := Append(s.handed, t, At(s.pending, t)))
    case OtherPut(t, m) =>
      if t in s.stores then s.(stores := s.stores[t := Deliver(s.stores[t], m)], log := Append(s.log, t, [m])) else s
    case Restart => s.(pending := map[], inFlight := map[])
  }

  function EndStep(s: HintState, req: nat, h: Hint): HintState
    requires req in s.inFlight
  {
    var r := s.inFlight[req];
    var others := s.inFlight - {req};
    if StorableKey(r.target) then
      s.(inFlight := others, bucket := s.bucket[r.target := r.snapshot + [h]],
         accepted := Append(s.accepted, r.target, [h]))
    else s.(inFlight := others)
  }

  function HintRun(start: HintState, es: seq<HintEvent>): HintState {
    if es == [] then start else HintStep(HintRun(start, es[..|es| - 1]), es[|es| - 1])
  }

  ghost predicate EnabledRun(start: HintState, es: seq<HintEvent>) {
    es == []
    || (EnabledRun(start, es[..|es| - 1]) && Enabled(HintRun(start, es[..|es| - 1]), es[|es| - 1]))
  }

  // ---------- restarts ----------

  ghost predicate BegunIn(es: seq<HintEvent>, req: nat) {
    exists j :: 0 <= j < |es| && es[j].BeginHint? && es[j].req == req
  }

  ghost predicate ScannedIn(es: seq<HintEvent>, t: string) {
    exists j :: 0 <= j < |es| && es[j].ScanBucket? && t in es[j].order
  }

  lemma {:induction false} DoneWasVisited(bucket: Lists, sender: UInt64, start: Scanned, order: seq<string>,
                                          contacts: string -> Contact)
    requires start.done == []
    ensures forall t :: t in ScanEntries(bucket, sender, start, order, contacts).done ==> t in order
  {
    if order != [] {
      DoneWasVisited(bucket, sender, start, order[..|order| - 1], contacts);
      assert order[|order| - 1] in order;
    }
  }

  lemma BegunSnoc(es: seq<HintEvent>, e: HintEvent)
    ensures forall req :: BegunIn(es, req) || (e.BeginHint? && e.req == req) ==> BegunIn(es + [e], req)
    ensures forall t :: ScannedIn(es, t) || (e.ScanBucket? && t in e.order) ==> ScannedIn(es + [e], t)
  {
    assert (es + [e])[|es|] == e;
    forall req | BegunIn(es, req) ensures BegunIn(es + [e], req) {
      var j :| 0 <= j < |es| && es[j].BeginHint? && es[j].req == req;
      assert (es + [e])[j] == es[j];
    }
    forall t | ScannedIn(es, t) ensures ScannedIn(es + [e], t) {
      var j :| 0 <= j < |es| && es[j].ScanBucket? && t in es[j].order;
      assert (es + [e])[j] == es[j];
    }
  }

  lemma StepAtWork(s: HintState, e: HintEvent)
    ensures forall req :: req in HintStep(s, e).inFlight ==> req in s.inFlight || (e.BeginHint? && e.req == req)
    ensures forall t :: t in HintStep(s, e).pending ==> t in s.pending || (e.ScanBucket? && t in e.order)
  {
    if e.ScanBucket? {
      DoneWasVisited(s.bucket, s.sender, Scanned(s.stores, s.log, [], false), e.order, e.contacts);
    }
  }

  /** The holder goes down: it is restarted, or a stream of its scan gets no reply. */
  predicate GoesDown(s: HintState, e: HintEvent) {
    e.Restart? || (e.ScanBucket? && ScanOf(s, e.order, e.contacts).crashed)
  }

  lemma {:induction false} AtWorkSinceDown(s: HintState, down: HintEvent, es: seq<HintEvent>)
    requires GoesDown(s, down)
    ensures var now := HintRun(HintStep(s, down), es);
            && (forall req :: req in now.inFlight ==> BegunIn(es, req))
            && (forall t :: t in now.pending ==> ScannedIn(es, t))
  {
    if es != [] {
      var front, e := es[..|es| - 1], es[|es| - 1];
      AtWorkSinceDown(s, down, front);
      StepAtWork(HintRun(HintStep(s, down), front), e);
      BegunSnoc(front, e);
      assert es == front + [e];
    }
  }

  /** Nothing outlives a crash or restart: a handler that ends afterwards has begun afterwards, and an
      entry that is deleted afterwards has been visited by a scan since. */
  lemma {:induction false} NothingOutlivesCrash(s: HintState, down: HintEvent, es: seq<HintEvent>)
    requires GoesDown(s, down) && EnabledRun(HintStep(s, down), es)
    ensures forall k :: 0 <= k < |es| && es[k].EndHint? ==> BegunIn(es[..k], es[k].req)
    ensures forall k :: 0 <= k < |es| && es[k].DeleteEntry? ==> ScannedIn(es[..k], es[k].target)
  {
    if es != [] {
      var front := es[..|es| - 1];
      NothingOutlivesCrash(s, down, front);
      AtWorkSinceDown(s, down, front);
      assert forall k :: 0 <= k < |front| ==> front[k] == es[k] && front[..k] == es[..k];
    }
  }

  /** A list whose stream crashed the holder after any number of hints, and that is streamed again
      after the restart, leaves the target as if it had been streamed once, if the objects
      reached were there before and took their hints in. */
  lemma CrashedHandoverRepeats(db: DB, hs: seq<Hint>, sender: UInt64, n: nat)
    requires SteadyRun(db, Arrived(hs, Broken(n), sender)) && AllKnown(db, Arrived(hs, Broken(n), sender))
    ensures DeliverAll(DeliverAll(db, Arrived(hs, Broken(n), sender)), Arrived(hs, Whole, sender))
            == DeliverAll(db, Arrived(hs, Whole, sender))
  {
    var ms, part := AsPuts(hs, sender), Arrived(hs, Broken(n), sender);
    assert ms == part + ms[|part|..];
    BrokenStreamSentAgain(db, part, ms[|part|..]);
  }

  // ---------- subsequences ----------

  /** `a` can be read off `b` from left to right. */
  predicate Subsequence<T(==)>(a: seq<T>, b: seq<T>) {
    if a == [] then true
    else if b == [] then false
    else if a[|a| - 1] == b[|b| - 1] then Subsequence(a[..|a| - 1], b[..|b| - 1])
    else Subsequence(a, b[..|b| - 1])
  }

  lemma {:induction false} SubsequenceShorter<T>(a: seq<T>, b: seq<T>)
    requires a != [] && Subsequence(a, b)
    ensures Subsequence(a[..|a| - 1], b)
    decreases |b|, 0
  {
    var a' := a[..|a| - 1];
    if a' != [] {
      if a[|a| - 1] == b[|b| - 1] {
        SubsequenceGrows(a', b[..|b| - 1], b[|b| - 1]);
        assert b == b[..|b| - 1] + [b[|b| - 1]];
      } else {
        SubsequenceShorter(a, b[..|b| - 1]);
        SubsequenceGrows(a', b[..|b| - 1], b[|b| - 1]);
        assert b == b[..|b| - 1] + [b[|b| - 1]];
      }
    }
  }

  lemma {:induction false} SubsequenceGrows<T>(a: seq<T>, b: seq<T>, x: T)
    requires Subsequence(a, b)
    ensures Subsequence(a, b + [x])
    decreases |b|, 1
  {
    assert (b + [x])[..|b|] == b;
    if a != [] && a[|a| - 1] == x {
      SubsequenceShorter(a, b);
    }
  }

  lemma {:induction false} SubsequenceConcat<T>(a: seq<T>, b: seq<T>, more: seq<T>)
    requires Subsequence(a, b)
    ensures Subsequence(a + more, b + more)
  {
    if more == [] {
      assert a + more == a && b + more == b;
    } else {
      var m, x := more[..|more| - 1], more[|more| - 1];
      SubsequenceConcat(a, b, m);
      assert (a + more)[..|a + more| - 1] == a + m && (b + more)[..|b + more| - 1] == b + m;
    }
  }

  lemma SubsequencePrefix<T>(a: seq<T>, more: seq<T>, b: seq<T>)
    requires Subsequence(a + more, b)
    ensures Subsequence(a, b)
    decreases |more|
  {
    if more == [] {
      assert a + more == a;
    } else {
      SubsequenceShorter(a + more, b);
      assert (a + more)[..|a + more| - 1] == a + more[..|more| - 1];
      SubsequencePrefix(a, more[..|more| - 1], b);
    }
  }

  lemma {:induction false} SubsequenceMember<T>(a: seq<T>, b: seq<T>, x: T)
    requires Subsequence(a, b) && x in a
    ensures x in b
  {
    if a[|a| - 1] == b[|b| - 1] {
      if x != a[|a| - 1] {
        assert a == a[..|a| - 1] + [a[|a| - 1]];
        SubsequenceMember(a[..|a| - 1], b[..|b| - 1], x);
      }
    } else {
      SubsequenceMember(a, b[..|b| - 1], x);
    }
  }

  // ---------- the invariant ----------

  /** The store of `t` is what its deliveries make of an empty one. */
  ghost predicate StoreMatches(stores: map<string, DB>, log: map<string, seq<Put>>, t: string) {
    && (t in stores ==> stores[t] == DeliverAll(map[], At(log, t)))
    && (t !in stores ==> At(log, t) == [])
  }

  lemma {:induction false} ScanKeepsStores(bucket: Lists, sender: UInt64, start: Scanned, order: seq<string>,
                                           contacts: string -> Contact, t: string)
    requires StoreMatches(start.stores, start.log, t)
    ensures var r := ScanEntries(bucket, sender, start, order, contacts); StoreMatches(r.stores, r.log, t)
  {
    if order != [] {
      var front, last := order[..|order| - 1], order[|order| - 1];
      ScanKeepsStores(bucket, sender, start, front, contacts, t);
      ScanOneKeepsStores(ScanEntries(bucket, sender, start, front, contacts), last, At(bucket, last), contacts(last),
                         sender, t);
    }
  }

  lemma ScanOneKeepsStores(before: Scanned, x: string, hs: seq<Hint>, contact: Contact, sender: UInt64, t: string)
    requires StoreMatches(before.stores, before.log, t)
    ensures var r := ScanOne(before, x, hs, contact, sender); StoreMatches(r.stores, r.log, t)
  {
    if x == t && t in before.stores {
      DeliverConcat(map[], At(before.log, t), Handled(hs, contact, sender));
    }
  }

  /** What a scan has done for one target. */
  ghost predicate ScannedFor(r: Scanned, bucket: Lists, sender: UInt64, start: Scanned, t: string, visited: bool) {
    && (t in r.done ==> visited && AllStorable(AsPuts(At(bucket, t), sender))
                        && At(r.log, t) == At(start.log, t) + AsPuts(At(bucket, t), sender))
    && At(start.log, t) <= At(r.log, t)
    && (!visited ==> At(r.log, t) == At(start.log, t))
  }

  lemma {:induction false} ScanEntry(bucket: Lists, sender: UInt64, start: Scanned, order: seq<string>,
                                     contacts: string -> Contact, t: string)
    requires Distinct(order) && start.done == []
    ensures ScannedFor(ScanEntries(bucket, sender, start, order, contacts), bucket, sender, start, t, t in order)
  {
    if order != [] {
      var front, last := order[..|order| - 1], order[|order| - 1];
      assert order == front + [last];
      ScanEntry(bucket, sender, start, front, contacts, t);
      var mid := ScanEntries(bucket, sender, start, front, contacts);
      ScanOneFor(mid, bucket, sender, start, last, contacts(last), t, t in front);
    }
  }

  lemma ScanOneFor(before: Scanned, bucket: Lists, sender: UInt64, start: Scanned, x: string, contact: Contact,
                   t: string, visited: bool)
    requires ScannedFor(before, bucket, sender, start, t, visited) && (x == t ==> !visited)
    ensures ScannedFor(ScanOne(before, x, At(bucket, x), contact, sender), bucket, sender, start, t, visited || x == t)
  {
    var ms := AsPuts(At(bucket, x), sender);
    if AllStorable(ms) {
      assert HandledCount(ms) == |ms| && ms[..|ms|] == ms;
    }
  }

  /** What was handed over or is pending was storable and has been delivered at the target, in
      order; and the target's store is what the deliveries there made of it. */
  ghost predicate Sound(s: HintState, t: string) {
    && StoreMatches(s.stores, s.log, t)
    && AllStorable(AsPuts(At(s.handed, t) + At(s.pending, t), s.sender))
    && Subsequence(AsPuts(At(s.handed, t) + At(s.pending, t), s.sender), At(s.log, t))
  }

  lemma AsPutsConcat(a: seq<Hint>, b: seq<Hint>, sender: UInt64)
    ensures AsPuts(a + b, sender) == AsPuts(a, sender) + AsPuts(b, sender)
  {
  }

  lemma ScanSound(s: HintState, order: seq<string>, contacts: string -> Contact, t: string)
    requires Sound(s, t) && Enabled(s, ScanBucket(order, contacts))
    ensures Sound(HintStep(s, ScanBucket(order, contacts)), t)
  {
    var start := Scanned(s.stores, s.log, [], false);
    var r := ScanOf(s, order, contacts);
    ScanKeepsStores(s.bucket, s.sender, start, order, contacts, t);
    ScanEntry(s.bucket, s.sender, start, order, contacts, t);
    var hd := At(s.handed, t);
    assert hd + [] == hd;
    if !r.crashed && t in r.done {
      LogGainsList(hd, At(s.bucket, t), s.sender, At(s.log, t));
    } else {
      LogGrows(AsPuts(hd, s.sender), At(s.log, t), At(r.log, t));
    }
  }

  lemma LogGainsList(hd: seq<Hint>, list: seq<Hint>, sender: UInt64, log: seq<Put>)
    requires AllStorable(AsPuts(hd, sender)) && AllStorable(AsPuts(list, sender)) && Subsequence(AsPuts(hd, sender), log)
    ensures AllStorable(AsPuts(hd + list, sender)) && Subsequence(AsPuts(hd + list, sender), log + AsPuts(list, sender))
  {
    AsPutsConcat(hd, list, sender);
    SubsequenceConcat(AsPuts(hd, sender), log, AsPuts(list, sender));
  }

  lemma LogGrows(ms: seq<Put>, log: seq<Put>, log': seq<Put>)
    requires Subsequence(ms, log) && log <= log'
    ensures Subsequence(ms, log')
  {
  }

  lemma OtherPutSound(s: HintState, x: string, m: Put, t: string)
    requires Sound(s, t)
    ensures Sound(HintStep(s, OtherPut(x, m)), t)
  {
    if x == t && t in s.stores {
      DeliverSnoc(map[], At(s.log, t), m);
      SubsequenceGrows(AsPuts(At(s.handed, t) + At(s.pending, t), s.sender), At(s.log, t), m);
    }
  }

  lemma DeleteSound(s: HintState, x: string, t: string)
    requires Sound(s, t)
    ensures Sound(HintStep(s, DeleteEntry(x)), t)
  {
    AtUpdate(s.handed, x, At(s.handed, x) + At(s.pending, x), t);
    if x == t {
      assert At(s.handed, t) + At(s.pending, t) + [] == At(s.handed, t) + At(s.pending, t);
    }
  }

  lemma ForgetSound(s: HintState, t: string)
    requires Sound(s, t)
    ensures Sound(s.(pending := map[], inFlight := map[]), t)
  {
    var hd, p := At(s.handed, t), At(s.pending, t);
    AsPutsConcat(hd, p, s.sender);
    SubsequencePrefix(AsPuts(hd, s.sender), AsPuts(p, s.sender), At(s.log, t));
    assert hd + [] == hd;
    forall i | 0 <= i < |hd| ensures Storable(AsPuts(hd, s.sender)[i]) {
      assert AsPuts(hd + p, s.sender)[i] == AsPuts(hd, s.sender)[i];
    }
  }

  /** What the end of a request means for one target. */
  lemma EndStepFor(s: HintState, req: nat, h: Hint, t: string)
    requires req in s.inFlight
    ensures var s' := EndStep(s, req, h);
            && s'.inFlight == s.inFlight - {req} && s'.pending == s.pending && s'.handed == s.handed
            && s'.stores == s.stores && s'.log == s.log && s'.sender == s.sender
    ensures var s', r, here := EndStep(s, req, h), s.inFlight[req], s.inFlight[req].target == t && StorableKey(t);
            && At(s'.bucket, t) == (if here then r.snapshot + [h] else At(s.bucket, t))
            && At(s'.accepted, t) == (if here then At(s.accepted, t) + [h] else At(s.accepted, t))
  {
    var r := s.inFlight[req];
    AtUpdate(s.bucket, r.target, r.snapshot + [h], t);
    AtUpdate(s.accepted, r.target, At(s.accepted, r.target) + [h], t);
  }

  lemma EndSound(s: HintState, req: nat, h: Hint, t: string)
    requires Sound(s, t) && req in s.inFlight
    ensures Sound(EndStep(s, req, h), t)
  {
    EndStepFor(s, req, h, t);
  }

  lemma StepSound(s: HintState, e: HintEvent, t: string)
    requires Sound(s, t) && Enabled(s, e)
    ensures Sound(HintStep(s, e), t)
  {
    match e
    case BeginHint(_, _) =>
    case EndHint(req, h) => EndSound(s, req, h, t);
    case ScanBucket(order, contacts) => ScanSound(s, order, contacts, t);
    case DeleteEntry(x) => DeleteSound(s, x, t);
    case OtherPut(x, m) => OtherPutSound(s, x, m, t);
    case Restart => ForgetSound(s, t);
  }

  lemma StepKeeps(s: HintState, e: HintEvent)
    ensures HintStep(s, e).sender == s.sender && HintStep(s, e).stores.Keys == s.stores.Keys
  {
    if e.EndHint? && e.req in s.inFlight {
      assert EndStep(s, e.req, e.hint).stores == s.stores;
    }
  }

  lemma {:induction false} RunKeeps(start: HintState, es: seq<HintEvent>)
    ensures HintRun(start, es).sender == start.sender && HintRun(start, es).stores.Keys == start.stores.Keys
  {
    if es != [] {
      RunKeeps(start, es[..|es| - 1]);
      StepKeeps(HintRun(start, es[..|es| - 1]), es[|es| - 1]);
    }
  }

  /** In every run of a holder, in any interleaving. */
  lemma {:induction false} RunSound(sender: UInt64, known: set<string>, es: seq<HintEvent>, t: string)
    requires EnabledRun(Start(sender, known), es)
    ensures Sound(HintRun(Start(sender, known), es), t)
  {
    if es == [] {
      var none: seq<Hint> := [];
      assert none + [] == none;
    } else {
      var front := es[..|es| - 1];
      RunSound(sender, known, front, t);
      StepSound(HintRun(Start(sender, known), front), es[|es| - 1], t);
    }
  }

  /** The `i`-th delivery at a store is the hint, and what came of it by the end of the log: the
      key is there; and if it was there before, the delivery was taken in and no clock has gone
      down since, the stored object is beyond the hint, which changes nothing any more. */
  ghost predicate Applied(log: seq<Put>, store: DB, m: Put, i: nat) {
    && i < |log| && log[i] == m
    && Lookup(store, m.bucket, m.key).Some?
    && var before := DeliverAll(map[], log[..i]);
       (&& Lookup(before, m.bucket, m.key).Some? && TakesIn(Lookup(before, m.bucket, m.key), m.data, m.sender)
        && KeepingRun(Deliver(before, m), log[i + 1..])
        ==> Absorbed(Lookup(store, m.bucket, m.key), m.data.vc) && Deliver(store, m) == store)
  }

  lemma {:induction false} OnceThereAlwaysThere(db: DB, ms: seq<Put>, bucket: string, key: string)
    requires Lookup(db, bucket, key).Some?
    ensures Lookup(DeliverAll(db, ms), bucket, key).Some?
  {
    if ms != [] {
      OnceThereAlwaysThere(db, ms[..|ms| - 1], bucket, key);
      DeliverLookup(DeliverAll(db, ms[..|ms| - 1]), ms[|ms| - 1], bucket, key);
    }
  }

  lemma DeliveredIsApplied(log: seq<Put>, m: Put, i: nat)
    requires i < |log| && log[i] == m && Storable(m)
    ensures Applied(log, DeliverAll(map[], log), m, i)
  {
    var before, after := DeliverAll(map[], log[..i]), log[i + 1..];
    assert log == log[..i] + [m] + after;
    DeliverConcat(map[], log[..i] + [m], after);
    DeliverSnoc(map[], log[..i], m);
    DeliverLookup(before, m, m.bucket, m.key);
    OnceThereAlwaysThere(Deliver(before, m), after, m.bucket, m.key);
    if Lookup(before, m.bucket, m.key).Some? && TakesIn(Lookup(before, m.bucket, m.key), m.data, m.sender)
       && KeepingRun(Deliver(before, m), after)
    {
      MetIsAbsorbed(before, m, after);
      AbsorbedIsNoOp(DeliverAll(map[], log), m);
    }
  }

  /** Every hint that was handed over has been delivered at its target, and each of its deliveries
      has been applied at the target's store. */
  lemma HandedIsApplied(sender: UInt64, known: set<string>, es: seq<HintEvent>, t: string, h: Hint)
    requires EnabledRun(Start(sender, known), es) && h in At(HintRun(Start(sender, known), es).handed, t)
    ensures var s := HintRun(Start(sender, known), es);
            && t in s.stores && Lookup(s.stores[t], h.bucketName, h.data.key).Some?
            && (exists m :: m in At(s.log, t) && Carries(m, h, sender))
            && forall i :: 0 <= i < |At(s.log, t)| && Carries(At(s.log, t)[i], h, sender) ==>
                 Applied(At(s.log, t), s.stores[t], At(s.log, t)[i], i)
  {
    var s, m := HintRun(Start(sender, known), es), AsPut(h, sender);
    RunSound(sender, known, es, t);
    RunKeeps(Start(sender, known), es);
    var hp := At(s.handed, t) + At(s.pending, t);
    var k := IndexOf(At(s.handed, t), h);
    assert hp[k] == h && AsPuts(hp, sender)[k] == m;
    SubsequenceMember(AsPuts(hp, sender), At(s.log, t), m);
    var log := At(s.log, t);
    assert Carries(m, h, sender);
    forall i | 0 <= i < |log| && Carries(log[i], h, sender) ensures Applied(log, s.stores[t], log[i], i) {
      assert log[i] == m;
      DeliveredIsApplied(log, m, i);
    }
    assert Applied(log, s.stores[t], log[IndexOf(log, m)], IndexOf(log, m));
  }

  predicate AllIn(hs: seq<Hint>, accepted: seq<Hint>) {
    forall h :: h in hs ==> h in accepted
  }

  /** No handler has read a hint for the target that was never accepted. */
  ghost predicate GenuineReads(inFlight: map<nat, Request>, t: string, accepted: seq<Hint>) {
    forall req :: req in inFlight && inFlight[req].target == t ==> AllIn(inFlight[req].snapshot, accepted)
  }

  /** No hint is invented: all that is kept, waits or was handed over for the target was accepted
      for it. */
  ghost predicate Genuine(s: HintState, t: string) {
    && AllIn(At(s.bucket, t), At(s.accepted, t)) && AllIn(At(s.pending, t), At(s.accepted, t))
    && AllIn(At(s.handed, t), At(s.accepted, t)) && GenuineReads(s.inFlight, t, At(s.accepted, t))
  }

  lemma {:induction false} RunGenuine(sender: UInt64, known: set<string>, es: seq<HintEvent>, t: string)
    requires EnabledRun(Start(sender, known), es)
    ensures Genuine(HintRun(Start(sender, known), es), t)
  {
    if es != [] {
      var s, e := HintRun(Start(sender, known), es[..|es| - 1]), es[|es| - 1];
      RunGenuine(sender, known, es[..|es| - 1], t);
      StepGenuine(s, e, t);
    }
  }

  lemma StepGenuine(s: HintState, e: HintEvent, t: string)
    requires Genuine(s, t) && Enabled(s, e)
    ensures Genuine(HintStep(s, e), t)
  {
    match e
    case BeginHint(_, _) =>
    case EndHint(req, h) => EndGenuine(s, req, h, t);
    case ScanBucket(_, _) =>
    case DeleteEntry(_) =>
    case OtherPut(_, _) =>
    case Restart =>
  }

  lemma EndGenuine(s: HintState, req: nat, h: Hint, t: string)
    requires Genuine(s, t) && req in s.inFlight
    ensures Genuine(EndStep(s, req, h), t)
  {
    EndStepFor(s, req, h, t);
    EndGenuineFor(s, EndStep(s, req, h), req, h, t);
  }

  lemma EndGenuineFor(s: HintState, s': HintState, req: nat, h: Hint, t: string)
    requires Genuine(s, t) && req in s.inFlight
    requires s'.inFlight == s.inFlight - {req} && s'.pending == s.pending && s'.handed == s.handed
    requires if s.inFlight[req].target == t && StorableKey(t)
             then At(s'.bucket, t) == s.inFlight[req].snapshot + [h] && At(s'.accepted, t) == At(s.accepted, t) + [h]
             else At(s'.bucket, t) == At(s.bucket, t) && At(s'.accepted, t) == At(s.accepted, t)
    ensures Genuine(s', t)
  {
  }

  // ---------- conservation ----------

  /** Every accepted hint is handed over or still in the bucket, once, in arrival order. */
  ghost predicate Conserved(s: HintState, t: string) {
    At(s.accepted, t) == At(s.handed, t) + At(s.bucket, t)
  }

  /** What a handler writes back or a tick deletes is what the bucket still holds for the target. */
  ghost predicate CleanStep(s: HintState, e: HintEvent, t: string) {
    && (e == DeleteEntry(t) ==> At(s.bucket, t) == At(s.pending, t))
    && (e.EndHint? && e.req in s.inFlight && s.inFlight[e.req].target == t && StorableKey(t) ==>
          At(s.bucket, t) == s.inFlight[e.req].snapshot)
  }

  lemma SameFront(a: seq<Hint>, b: seq<Hint>, front: seq<Hint>, x: seq<Hint>)
    ensures front + a + x == front + b + x <==> a == b
  {
    var l, r := front + a + x, front + b + x;
    if l == r {
      assert l[|front|..|l| - |x|] == a && r[|front|..|r| - |x|] == b;
    }
  }

  lemma EndConservesIff(s: HintState, req: nat, h: Hint, t: string)
    requires Conserved(s, t) && req in s.inFlight
    ensures Conserved(EndStep(s, req, h), t) <==> CleanStep(s, EndHint(req, h), t)
  {
    var r, hd, b := s.inFlight[req], At(s.handed, t), At(s.bucket, t);
    EndStepFor(s, req, h, t);
    if r.target == t && StorableKey(t) {
      assert hd + (r.snapshot + [h]) == hd + r.snapshot + [h];
      SameFront(b, r.snapshot, hd, [h]);
    }
  }

  lemma DeleteConservesIff(s: HintState, x: string, t: string)
    requires Conserved(s, t) && x in s.pending
    ensures Conserved(HintStep(s, DeleteEntry(x)), t) <==> CleanStep(s, DeleteEntry(x), t)
  {
    var hd, b, p := At(s.handed, t), At(s.bucket, t), At(s.pending, t);
    if x == t {
      assert hd + p + [] == hd + p && hd + b + [] == hd + b;
      SameFront(b, p, hd, []);
    }
  }

  lemma StepConservesIff(s: HintState, e: HintEvent, t: string)
    requires Conserved(s, t) && Enabled(s, e)
    ensures Conserved(HintStep(s, e), t) <==> CleanStep(s, e, t)
  {
    match e
    case BeginHint(_, _) =>
    case EndHint(req, h) => EndConservesIff(s, req, h, t);
    case ScanBucket(_, _) =>
    case DeleteEntry(x) => DeleteConservesIff(s, x, t);
    case OtherPut(_, _) =>
    case Restart =>
  }

  ghost predicate AlwaysConserved(start: HintState, es: seq<HintEvent>, t: string) {
    Conserved(HintRun(start, es), t) && (es != [] ==> AlwaysConserved(start, es[..|es| - 1], t))
  }

  ghost predicate AllClean(start: HintState, es: seq<HintEvent>, t: string) {
    es == []
    || (AllClean(start, es[..|es| - 1], t) && CleanStep(HintRun(start, es[..|es| - 1]), es[|es| - 1], t))
  }

  /** Hint conservation, exactly: in every run, with reads and writes of concurrent handlers,
      scans, deletions, crashes and restarts interleaved in any way, the hints accepted for a
      target are at every moment accounted for if and only if no handler writes back a list that
      has changed since it read it, and no deletion takes a list other than the one streamed. */
  lemma {:induction false} HintConservationIff(sender: UInt64, known: set<string>, es: seq<HintEvent>, t: string)
    requires EnabledRun(Start(sender, known), es)
    ensures AlwaysConserved(Start(sender, known), es, t) <==> AllClean(Start(sender, known), es, t)
  {
    if es == [] {
      var none: seq<Hint> := [];
      assert none + none == none;
    } else {
      var front := es[..|es| - 1];
      HintConservationIff(sender, known, front, t);
      if AlwaysConserved(Start(sender, known), front, t) {
        StepConservesIff(HintRun(Start(sender, known), front), es[|es| - 1], t);
      }
    }
  }

  /** One at a time: a handler begins only when no other is at work and nothing waits to be
      deleted, and a tick only when no handler is at work. */
  ghost predicate OneAtATime(start: HintState, es: seq<HintEvent>) {
    es == []
    || var s, e := HintRun(start, es[..|es| - 1]), es[|es| - 1];
       && OneAtATime(start, es[..|es| - 1])
       && (e.BeginHint? ==> s.inFlight == map[] && s.pending == map[])
       && (e.ScanBucket? ==> s.inFlight == map[])
  }

  /** What handlers have read and what waits to be deleted is current. */
  ghost predicate Current(s: HintState) {
    && (s.inFlight != map[] ==> s.pending == map[])
    && (forall q, r :: q in s.inFlight && r in s.inFlight ==> q == r)
    && (forall q :: q in s.inFlight ==> s.inFlight[q].snapshot == At(s.bucket, s.inFlight[q].target))
    && (forall t :: t in s.pending ==> s.pending[t] == At(s.bucket, t))
  }

  lemma {:induction false} OneAtATimeIsClean(sender: UInt64, known: set<string>, es: seq<HintEvent>, t: string)
    requires EnabledRun(Start(sender, known), es) && OneAtATime(Start(sender, known), es)
    ensures Current(HintRun(Start(sender, known), es)) && AllClean(Start(sender, known), es, t)
  {
    if es != [] {
      var front := es[..|es| - 1];
      OneAtATimeIsClean(sender, known, front, t);
      StepCurrent(HintRun(Start(sender, known), front), es[|es| - 1]);
    }
  }

  lemma StepCurrent(s: HintState, e: HintEvent)
    requires Current(s) && Enabled(s, e)
    requires e.BeginHint? ==> s.inFlight == map[] && s.pending == map[]
    requires e.ScanBucket? ==> s.inFlight == map[]
    ensures Current(HintStep(s, e))
    ensures forall t :: CleanStep(s, e, t)
  {
    match e
    case BeginHint(_, _) =>
    case EndHint(req, h) => assert EndStep(s, req, h).inFlight == map[];
    case ScanBucket(order, contacts) => ScanCurrent(s, order, contacts);
    case DeleteEntry(_) =>
    case OtherPut(_, _) =>
    case Restart =>
  }

  lemma ScanCurrent(s: HintState, order: seq<string>, contacts: string -> Contact)
    requires s.inFlight == map[]
    ensures Current(HintStep(s, ScanBucket(order, contacts)))
  {
  }

  /** If handlers and ticks work one at a time, every accepted hint is at every moment in the
      bucket or has been delivered at its target, in arrival order. */
  lemma OneAtATimeConserves(sender: UInt64, known: set<string>, es: seq<HintEvent>, t: string)
    requires EnabledRun(Start(sender, known), es) && OneAtATime(Start(sender, known), es)
    ensures var s := HintRun(Start(sender, known), es);
            && Conserved(s, t)
            && Subsequence(AsPuts(At(s.handed, t), sender), At(s.log, t)) && StoreMatches(s.stores, s.log, t)
  {
    var s := HintRun(Start(sender, known), es);
    RunSound(sender, known, es, t);
    RunKeeps(Start(sender, known), es);
    AsPutsConcat(At(s.handed, t), At(s.pending, t), sender);
    SubsequencePrefix(AsPuts(At(s.handed, t), sender), AsPuts(At(s.pending, t), sender), At(s.log, t));
    OneAtATimeIsClean(sender, known, es, t);
    HintConservationIff(sender, known, es, t);
  }

  /** Working one at a time, a hint that its target's store refuses never leaves the bucket; so from
      its acceptance on, every scan in which the target answers brings the holder down. */
  lemma RefusedHintIsFatal(sender: UInt64, known: set<string>, es: seq<HintEvent>, t: string, h: Hint)
    requires EnabledRun(Start(sender, known), es) && OneAtATime(Start(sender, known), es)
    requires h in At(HintRun(Start(sender, known), es).accepted, t) && !Storable(AsPut(h, sender))
    ensures var s := HintRun(Start(sender, known), es);
            && h in At(s.bucket, t)
            && forall order, contacts ::
                 Enabled(s, ScanBucket(order, contacts)) && t in known && !contacts(t).Silent? ==>
                 ScanOf(s, order, contacts).crashed
  {
    var start := Start(sender, known);
    var s := HintRun(start, es);
    RunSound(sender, known, es, t);
    RunKeeps(start, es);
    OneAtATimeConserves(sender, known, es, t);
    RefusedStays(s, t, h);
    forall order, contacts | Enabled(s, ScanBucket(order, contacts)) && t in known && !contacts(t).Silent?
      ensures ScanOf(s, order, contacts).crashed
    {
      RefusedScan(s, t, h, order, contacts);
    }
  }

  lemma RefusedStays(s: HintState, t: string, h: Hint)
    requires Conserved(s, t) && Sound(s, t) && h in At(s.accepted, t) && !Storable(AsPut(h, s.sender))
    ensures h in At(s.bucket, t)
  {
    var hd := At(s.handed, t);
    forall k | 0 <= k < |hd| ensures Storable(AsPut(hd[k], s.sender)) {
      assert AsPuts(hd + At(s.pending, t), s.sender)[k] == AsPut(hd[k], s.sender);
    }
  }

  lemma RefusedScan(s: HintState, t: string, h: Hint, order: seq<string>, contacts: string -> Contact)
    requires Enabled(s, ScanBucket(order, contacts)) && t in s.stores && !contacts(t).Silent?
    requires h in At(s.bucket, t) && !Storable(AsPut(h, s.sender))
    ensures ScanOf(s, order, contacts).crashed
  {
    ScanOutcome(s.bucket, s.sender, Scanned(s.stores, s.log, [], false), order, contacts);
    var k := IndexOf(At(s.bucket, t), h);
    assert AsPuts(At(s.bucket, t), s.sender)[k] == AsPut(h, s.sender);
    assert Fatal(s.bucket, s.sender, s.stores.Keys, contacts, t);
  }

  // ---------- the two ways to lose a hint ----------

  lemma RunSnoc(start: HintState, es: seq<HintEvent>, e: HintEvent)
    ensures HintRun(start, es + [e]) == HintStep(HintRun(start, es), e)
    ensures EnabledRun(start, es + [e]) <==> EnabledRun(start, es) && Enabled(HintRun(start, es), e)
  {
  }

  /** Two handlers at once: both have read the list before the first writes it back. The second
      overwrites the first one's hint; no tick is needed. */
  lemma OverlappingHandlersLoseHint(sender: UInt64, known: set<string>, t: string, a: Hint, b: Hint)
    requires StorableKey(t)
    ensures var es := [BeginHint(0, t), BeginHint(1, t), EndHint(0, a), EndHint(1, b)];
            && EnabledRun(Start(sender, known), es)
            && var s := HintRun(Start(sender, known), es);
               At(s.accepted, t) == [a, b] && At(s.bucket, t) == [b] && At(s.handed, t) == []
  {
    var s0, none := Start(sender, known), [];
    var es := [BeginHint(0, t), BeginHint(1, t), EndHint(0, a), EndHint(1, b)];
    assert es == none + [es[0]] + [es[1]] + [es[2]] + [es[3]];
    RunSnoc(s0, none, es[0]);
    RunSnoc(s0, none + [es[0]], es[1]);
    RunSnoc(s0, none + [es[0]] + [es[1]], es[2]);
    RunSnoc(s0, none + [es[0]] + [es[1]] + [es[2]], es[3]);
  }

  /** A handler that no other event interrupts appends its hint. */
  lemma HandlerAlone(start: HintState, es: seq<HintEvent>, req: nat, t: string, h: Hint)
    requires EnabledRun(start, es) && req !in HintRun(start, es).inFlight && StorableKey(t)
    ensures EnabledRun(start, es + [BeginHint(req, t)] + [EndHint(req, h)])
    ensures var s := HintRun(start, es);
            HintRun(start, es + [BeginHint(req, t)] + [EndHint(req, h)])
            == s.(bucket := Append(s.bucket, t, [h]), accepted := Append(s.accepted, t, [h]))
  {
    var s := HintRun(start, es);
    RunSnoc(start, es, BeginHint(req, t));
    RunSnoc(start, es + [BeginHint(req, t)], EndHint(req, h));
    assert s.inFlight[req := Request(t, At(s.bucket, t))] - {req} == s.inFlight;
  }

  /** A hint that arrives while its target's entry waits to be deleted goes with the entry. */
  lemma LateHintIsLost(sender: UInt64, known: set<string>, t: string, a: Hint, b: Hint, contacts: string -> Contact)
    requires StorableKey(t) && t in known && contacts(t) == Whole && Storable(AsPut(a, sender))
    ensures var es := [BeginHint(0, t), EndHint(0, a), ScanBucket([t], contacts),
                       BeginHint(1, t), EndHint(1, b), DeleteEntry(t)];
            && EnabledRun(Start(sender, known), es)
            && var s := HintRun(Start(sender, known), es);
               At(s.accepted, t) == [a, b] && At(s.handed, t) == [a] && At(s.bucket, t) == []
  {
    var three := [BeginHint(0, t), EndHint(0, a), ScanBucket([t], contacts)];
    assert [BeginHint(0, t), EndHint(0, a), ScanBucket([t], contacts), BeginHint(1, t), EndHint(1, b), DeleteEntry(t)]
           == three + [BeginHint(1, t)] + [EndHint(1, b)] + [DeleteEntry(t)];
    FirstHint(Start(sender, known), t, a);
    assert three == [BeginHint(0, t), EndHint(0, a)] + [ScanBucket([t], contacts)];
    ListStreamed(Start(sender, known), [BeginHint(0, t), EndHint(0, a)], t, [a], contacts);
    DeletedWithLateHint(Start(sender, known), three, t, a, b);
  }

  lemma DeletedWithLateHint(start: HintState, es: seq<HintEvent>, t: string, a: Hint, b: Hint)
    requires EnabledRun(start, es) && StorableKey(t)
    requires var s := HintRun(start, es);
             && s.bucket == map[t := [a]] && s.pending == map[t := [a]] && s.inFlight == map[]
             && At(s.accepted, t) == [a] && At(s.handed, t) == []
    ensures var es' := es + [BeginHint(1, t)] + [EndHint(1, b)] + [DeleteEntry(t)];
            && EnabledRun(start, es')
            && var s := HintRun(start, es');
               At(s.accepted, t) == [a, b] && At(s.handed, t) == [a] && At(s.bucket, t) == []
  {
    HandlerAlone(start, es, 1, t, b);
    RunSnoc(start, es + [BeginHint(1, t)] + [EndHint(1, b)], DeleteEntry(t));
    var none: seq<Hint> := [];
    assert none + [a] == [a];
  }

  /** The entry of `t` is the only one, and nothing waits or is at work. */
  ghost predicate OnlyEntry(s: HintState, t: string, hs: seq<Hint>) {
    s.bucket == map[t := hs] && s.pending == map[] && s.inFlight == map[]
  }

  lemma FirstHint(start: HintState, t: string, a: Hint)
    requires start.bucket == map[] && start.pending == map[] && start.inFlight == map[] && StorableKey(t)
    ensures var es := [BeginHint(0, t), EndHint(0, a)];
            && EnabledRun(start, es) && OnlyEntry(HintRun(start, es), t, [a])
            && var s := HintRun(start, es);
               && At(s.accepted, t) == At(start.accepted, t) + [a] && s.handed == start.handed
               && s.sender == start.sender && s.stores == start.stores
  {
    var none, noHint: seq<Hint> := [], [];
    assert [BeginHint(0, t), EndHint(0, a)] == none + [BeginHint(0, t)] + [EndHint(0, a)];
    assert noHint + [a] == [a];
    HandlerAlone(start, none, 0, t, a);
  }

  lemma ListStreamed(start: HintState, es: seq<HintEvent>, t: string, hs: seq<Hint>, contacts: string -> Contact)
    requires EnabledRun(start, es) && OnlyEntry(HintRun(start, es), t, hs) && t in HintRun(start, es).stores
    requires contacts(t) == Whole && AllStorable(AsPuts(hs, HintRun(start, es).sender))
    ensures var es', s := es + [ScanBucket([t], contacts)], HintRun(start, es);
            && EnabledRun(start, es')
            && var s' := HintRun(start, es');
               && s'.bucket == map[t := hs] && s'.pending == map[t := hs] && s'.inFlight == map[]
               && s'.accepted == s.accepted && s'.handed == s.handed
  {
    RunSnoc(start, es, ScanBucket([t], contacts));
    OneEntryScanned(HintRun(start, es), t, hs, contacts);
  }

  lemma OneEntryScanned(s: HintState, t: string, hs: seq<Hint>, contacts: string -> Contact)
    requires s.bucket == map[t := hs] && s.pending == map[] && t in s.stores
    requires contacts(t) == Whole && AllStorable(AsPuts(hs, s.sender))
    ensures Enabled(s, ScanBucket([t], contacts))
    ensures var s' := HintStep(s, ScanBucket([t], contacts));
            && s'.pending == map[t := hs] && s'.inFlight == s.inFlight
            && s'.bucket == s.bucket && s'.accepted == s.accepted && s'.handed == s.handed
  {
    var r := OneScanned(s, t, hs, contacts);
    SingleOrder(t, hs);
    assert (map x | x in r.done :: At(s.bucket, x)) == map[t := hs];
  }

  lemma SingleOrder(t: string, hs: seq<Hint>)
    ensures Distinct([t]) && IsOrderOf([t], map[t := hs].Keys)
  {
  }

  lemma OneScanned(s: HintState, t: string, hs: seq<Hint>, contacts: string -> Contact) returns (r: Scanned)
    requires s.bucket == map[t := hs] && t in s.stores
    requires contacts(t) == Whole && AllStorable(AsPuts(hs, s.sender))
    ensures r == ScanOf(s, [t], contacts) && r.done == [t] && !r.crashed
  {
    var start, none := Scanned(s.stores, s.log, [], false), [];
    assert [t] == none + [t];
    ScanSnoc(s.bucket, s.sender, start, none, contacts, t);
    assert ScanEntries(s.bucket, s.sender, start, none, contacts) == start;
    r := ScanOne(start, t, hs, Whole, s.sender);
  }
}
