/** Laws of the preference list: which nodes it holds, when its loop can end at all, and how
    little it changes when a node joins. */
module Preference {
  import opened Naming
  import opened Sequences
  import opened RingSpec
  import opened Routing

  // ---------- the list holds first occurrences ----------

  /** `offs` are the steps at which a walk along `rot` meets the entries of `p`: every entry's
      id is new, and every node passed before the i-th entry carries an id already listed. */
  ghost predicate FirstOccurrences(rot: seq<VNode>, p: seq<VNode>, offs: seq<nat>) {
    && |offs| == |p|
    && (forall i :: 0 <= i < |offs| ==> offs[i] < |rot| && p[i] == rot[offs[i]])
    && (forall i, j :: 0 <= i < j < |offs| ==> offs[i] < offs[j])
    && DistinctIds(p)
    && (forall i, t :: 0 <= i < |offs| && 0 <= t < offs[i] ==> rot[t].id in Ids(p[..i]))
  }

  lemma SkipNode(rot: seq<VNode>, v: VNode, p: seq<VNode>, offs: seq<nat>)
    requires FirstOccurrences(rot, p, offs)
    ensures FirstOccurrences(rot + [v], p, offs)
  {
  }

  lemma TakeNode(rot: seq<VNode>, v: VNode, p: seq<VNode>, offs: seq<nat>)
    requires FirstOccurrences(rot, p, offs) && Ids(rot) == Ids(p) && v.id !in Ids(p)
    ensures FirstOccurrences(rot + [v], p + [v], offs + [|rot|])
  {
    var rot', p', offs' := rot + [v], p + [v], offs + [|rot|];
    forall i | 0 <= i < |p| ensures p[i].id != v.id {
      assert p[i] in p;
    }
    forall i, t | 0 <= i < |offs'| && 0 <= t < offs'[i] ensures rot'[t].id in Ids(p'[..i]) {
      assert rot'[t] == rot[t];
      if i < |offs| {
        assert p'[..i] == p[..i];
      } else {
        assert p'[..i] == p && rot[t] in rot;
      }
    }
  }

  lemma {:induction false} DedupIsFirstOccurrences(rot: seq<VNode>) returns (offs: seq<nat>)
    ensures FirstOccurrences(rot, Dedup(rot), offs)
  {
    if rot == [] {
      offs := [];
    } else {
      var front, last := rot[..|rot| - 1], rot[|rot| - 1];
      offs := DedupIsFirstOccurrences(front);
      assert rot == front + [last];
      if last.id in Ids(Dedup(front)) {
        SkipNode(front, last, Dedup(front), offs);
      } else {
        DedupIds(front);
        TakeNode(front, last, Dedup(front), offs);
        offs := offs + [|front|];
      }
    }
  }

  /** The same in terms of the list itself: `offs` are distances clockwise from position `start`. */
  ghost predicate MetClockwise(s: seq<VNode>, start: nat, p: seq<VNode>, offs: seq<nat>)
    requires start < |s|
  {
    && |offs| == |p| && DistinctIds(p)
    && (forall i :: 0 <= i < |offs| ==> offs[i] < |s| && p[i] == CircleAt(s, start, offs[i]))
    && (forall i, j :: 0 <= i < j < |offs| ==> offs[i] < offs[j])
    && (forall i, t :: 0 <= i < |offs| && 0 <= t < offs[i] && t < |s| ==> CircleAt(s, start, t).id in Ids(p[..i]))
  }

  lemma RotateIsCircle(s: seq<VNode>, start: nat)
    requires start < |s|
    ensures forall o :: 0 <= o < |s| ==> Rotate(s, start)[o] == CircleAt(s, start, o)
  {
  }

  lemma FirstIsClockwise(s: seq<VNode>, start: nat, p: seq<VNode>, offs: seq<nat>)
    requires start < |s| && FirstOccurrences(Rotate(s, start), p, offs)
    ensures MetClockwise(s, start, p, offs)
  {
    RotateIsCircle(s, start);
  }

  lemma FirstOfThem(s: seq<VNode>, p: seq<VNode>, offs: seq<nat>, n: nat)
    requires FirstOccurrences(s, p, offs) && n <= |p|
    ensures FirstOccurrences(s, p[..n], offs[..n])
  {
    forall i, t | 0 <= i < n && 0 <= t < offs[i] ensures s[t].id in Ids(p[..n][..i]) {
      assert p[..n][..i] == p[..i];
    }
  }

  /** The preference list is exactly the first virtual node of each of the first physical nodes
      met clockwise from the coordinator, as many as the configuration and the ring allow. */
  lemma PreferenceListIsFirstOccurrences(cfg: Config, r: RingState, key: string) returns (offs: seq<nat>)
    requires r.vs != [] && EnoughIds(cfg, r)
    ensures |PreferenceList(cfg, r, key)| == PreferenceSize(cfg, r)
    ensures PreferenceList(cfg, r, key)[0] == r.vs[SearchIndex(r.vs, cfg.hash(key))]
    ensures FirstOccurrences(Rotate(r.vs, SearchIndex(r.vs, cfg.hash(key))), PreferenceList(cfg, r, key), offs)
    ensures MetClockwise(r.vs, SearchIndex(r.vs, cfg.hash(key)), PreferenceList(cfg, r, key), offs)
  {
    var start := SearchIndex(r.vs, cfg.hash(key));
    var rot := Rotate(r.vs, start);
    var n := PreferenceSize(cfg, r);
    var all := DedupIsFirstOccurrences(rot);
    DedupIds(rot);
    DedupDistinct(rot);
    RotateElements(r.vs, start);
    offs := all[..n];
    FirstOfThem(rot, Dedup(rot), all, n);
    FirstIsClockwise(r.vs, start, PreferenceList(cfg, r, key), offs);
  }

  // ---------- how long the list is ----------

  /** As many replicas as the replication factor asks for, or as there are registered names if those
      are fewer, and the coordinator in any case. */
  lemma PreferenceLength(cfg: Config, r: RingState, key: string)
    requires r.vs != [] && EnoughIds(cfg, r)
    ensures |PreferenceList(cfg, r, key)|
            == if |r.nodeMap| <= 1 || cfg.replicationFactor <= 1 then 1
               else if |r.nodeMap| <= cfg.replicationFactor then |r.nodeMap|
               else cfg.replicationFactor
  {
  }

  // ---------- when the loop can end ----------

  /** Where a walk stands after `steps` steps: from the tail it goes on at the head. */
  function Position(n: nat, start: nat, steps: nat): (k: nat)
    requires start < n
    ensures k < n
    ensures steps < n ==> k == if start + steps < n then start + steps else start + steps - n
  {
    if steps == 0 then start
    else
      var k := Position(n, start, steps - 1);
      if k == n - 1 then 0 else k + 1
  }

  /** The nodes met by `steps` steps clockwise, over as many laps as it takes. */
  function Walk(s: seq<VNode>, start: nat, steps: nat): seq<VNode>
    requires start < |s|
  {
    if steps == 0 then [s[start]]
    else Walk(s, start, steps - 1) + [s[Position(|s|, start, steps)]]
  }

  lemma {:induction false} WalkStaysOnRing(s: seq<VNode>, start: nat, steps: nat)
    requires start < |s|
    ensures Ids(Walk(s, start, steps)) <= Ids(s)
  {
    if steps == 0 {
      assert s[start] in s;
    } else {
      WalkStaysOnRing(s, start, steps - 1);
      var v := s[Position(|s|, start, steps)];
      assert v in s;
      IdsSnoc(Walk(s, start, steps - 1), v);
    }
  }

  lemma {:induction false} WalkIsLap(s: seq<VNode>, start: nat, steps: nat)
    requires start < |s| && steps < |s|
    ensures Walk(s, start, steps) == Rotate(s, start)[..steps + 1]
  {
    var rot := Rotate(s, start);
    assert rot[steps] == s[Position(|s|, start, steps)];
    if steps > 0 {
      WalkIsLap(s, start, steps - 1);
      assert rot[..steps + 1] == rot[..steps] + [rot[steps]];
    }
  }

  /** The walk collects the wanted number of distinct nodes after some number of steps exactly
      when the list has that many physical nodes; otherwise the loop runs for ever. */
  lemma WalkFillsIff(s: seq<VNode>, start: nat, size: nat)
    requires start < |s|
    ensures (exists steps: nat :: |Dedup(Walk(s, start, steps))| >= size) <==> size <= |Ids(s)|
  {
    if size <= |Ids(s)| {
      var steps: nat := |s| - 1;
      WalkIsLap(s, start, steps);
      assert Rotate(s, start)[..steps + 1] == Rotate(s, start);
      DedupIds(Rotate(s, start));
      RotateElements(s, start);
      assert |Dedup(Walk(s, start, steps))| >= size;
    }
    if steps: nat :| |Dedup(Walk(s, start, steps))| >= size {
      WalkStaysOnRing(s, start, steps);
      DedupIds(Walk(s, start, steps));
      SubsetSize(Ids(Walk(s, start, steps)), Ids(s));
    }
  }

  /** One name per id, as the manager's duplicate check guarantees. */
  ghost predicate OneNamePerId(r: RingState) {
    forall m, n :: m in r.nodeMap && n in r.nodeMap && r.nodeMap[m].id == r.nodeMap[n].id ==> m == n
  }

  lemma {:induction false} ImageSize(names: set<string>, ids: map<string, UInt64>)
    requires names <= ids.Keys
    ensures |set n | n in names :: ids[n]| <= |names|
    ensures (forall m, n :: m in names && n in names && ids[m] == ids[n] ==> m == n) ==>
              |set n | n in names :: ids[n]| == |names|
    decreases |names|
  {
    if names != {} {
      var x :| x in names;
      var rest := names - {x};
      ImageSize(rest, ids);
      assert (set n | n in names :: ids[n]) == (set n | n in rest :: ids[n]) + {ids[x]};
    }
  }

  lemma IdsOnRing(cfg: Config, r: RingState)
    requires WellFormed(cfg, r) && cfg.numVirtualNodes > 0
    ensures Ids(r.vs) == set n | n in r.nodeMap.Keys :: IdsByName(r.nodeMap)[n]
  {
    var ids := IdsByName(r.nodeMap);
    forall n | n in r.nodeMap ensures ids[n] in Ids(r.vs) {
      var ls := VNodesOf(cfg, n, r.nodeMap[n].id);
      VNodesOfOwner(cfg, n, r.nodeMap[n].id);
      assert ls[0] in ls && Owned(cfg, r.nodeMap, ls[0]);
    }
    forall v | v in r.vs ensures v.id in set n | n in r.nodeMap.Keys :: ids[n] {
      assert Owned(cfg, r.nodeMap, v);
      var n := OwnerName(v.vname);
      VNodesOfOwner(cfg, n, r.nodeMap[n].id);
      assert n in r.nodeMap.Keys && ids[n] == v.id;
    }
  }

  /** On a well-formed ring with distinct ids and at least one virtual node per name, the loop
      always ends, whatever the replication factor. */
  lemma WellFormedHasEnoughIds(cfg: Config, r: RingState)
    requires WellFormed(cfg, r) && OneNamePerId(r) && r.vs != []
    ensures |Ids(r.vs)| == |r.nodeMap| && EnoughIds(cfg, r)
  {
    assert r.vs[0] in r.vs && Owned(cfg, r.nodeMap, r.vs[0]);
    IdsOnRing(cfg, r);
    ImageSize(r.nodeMap.Keys, IdsByName(r.nodeMap));
    assert r.vs[0] in r.vs && Owned(cfg, r.nodeMap, r.vs[0]);
  }

  /** There the list holds all physical nodes on the ring if they are no more than the replication
      factor, and otherwise as many as that. */
  lemma PreferenceLengthOnRing(cfg: Config, r: RingState, key: string)
    requires WellFormed(cfg, r) && OneNamePerId(r) && r.vs != [] && cfg.replicationFactor >= 1
    ensures EnoughIds(cfg, r)
    ensures |PreferenceList(cfg, r, key)|
            == if |Ids(r.vs)| <= cfg.replicationFactor then |Ids(r.vs)| else cfg.replicationFactor
  {
    WellFormedHasEnoughIds(cfg, r);
    assert r.vs[0] in r.vs && r.vs[0].id in Ids(r.vs);
    PreferenceLength(cfg, r, key);
  }

  /** Who is responsible: the listed nodes and nobody else. */
  lemma ResponsibleIff(cfg: Config, r: RingState, key: string, id: UInt64)
    requires r.vs != [] && EnoughIds(cfg, r)
    ensures IsResponsible(cfg, r, key, id) <==>
              var p := PreferenceList(cfg, r, key); exists i :: 0 <= i < |p| && p[i].id == id
  {
    var p := PreferenceList(cfg, r, key);
    if id in Ids(p) {
      var v :| v in p && v.id == id;
      assert p[IndexOf(p, v)].id == id;
    }
  }

  // ---------- stability under a join ----------

  function DropId(s: seq<VNode>, id: UInt64): seq<VNode> {
    if s == [] then []
    else DropId(s[..|s| - 1], id) + (if s[|s| - 1].id == id then [] else [s[|s| - 1]])
  }

  lemma {:induction false} DropIdIds(s: seq<VNode>, id: UInt64)
    ensures Ids(DropId(s, id)) == Ids(s) - {id}
  {
    if s != [] {
      var front, last := s[..|s| - 1], s[|s| - 1];
      DropIdIds(front, id);
      assert s == front + [last];
      IdsSnoc(front, last);
      IdsSnoc(DropId(front, id), last);
    }
  }

  lemma {:induction false} DropIdPrefix(s: seq<VNode>, n: nat, id: UInt64)
    requires n <= |s|
    ensures DropId(s[..n], id) <= DropId(s, id)
  {
    if n == |s| {
      assert s[..n] == s;
    } else {
      DropIdPrefix(s[..|s| - 1], n, id);
      assert s[..|s| - 1][..n] == s[..n];
    }
  }

  lemma DropIdSnoc(s: seq<VNode>, v: VNode, id: UInt64)
    ensures DropId(s + [v], id) == DropId(s, id) + (if v.id == id then [] else [v])
  {
  }

  lemma DedupSnoc(s: seq<VNode>, v: VNode)
    ensures Dedup(s + [v]) == if v.id in Ids(Dedup(s)) then Dedup(s) else Dedup(s) + [v]
  {
  }

  lemma DedupDropSame(s: seq<VNode>, v: VNode)
    ensures DropId(Dedup(s + [v]), v.id) == DropId(Dedup(s), v.id)
  {
    DedupSnoc(s, v);
    DropIdSnoc(Dedup(s), v, v.id);
    assert DropId(Dedup(s), v.id) + [] == DropId(Dedup(s), v.id);
  }

  lemma DedupDropOther(s: seq<VNode>, v: VNode, id: UInt64)
    requires v.id != id && Dedup(DropId(s, id)) == DropId(Dedup(s), id)
    ensures Dedup(DropId(s, id) + [v]) == DropId(Dedup(s + [v]), id)
  {
    var d := Dedup(s);
    DropIdIds(d, id);
    DedupSnoc(s, v);
    DedupSnoc(DropId(s, id), v);
    if v.id !in Ids(d) {
      DropIdSnoc(d, v, id);
    }
  }

  lemma DedupDropSnoc(s: seq<VNode>, v: VNode, id: UInt64)
    requires Dedup(DropId(s, id)) == DropId(Dedup(s), id)
    ensures Dedup(DropId(s + [v], id)) == DropId(Dedup(s + [v]), id)
  {
    DropIdSnoc(s, v, id);
    if v.id == id {
      assert DropId(s, id) + [] == DropId(s, id);
      DedupDropSame(s, v);
    } else {
      DedupDropOther(s, v, id);
    }
  }

  /** Dropping an id and keeping first occurrences commute. */
  lemma {:induction false} DedupDropId(s: seq<VNode>, id: UInt64)
    ensures Dedup(DropId(s, id)) == DropId(Dedup(s), id)
  {
    if s != [] {
      var front, last := s[..|s| - 1], s[|s| - 1];
      assert s == front + [last];
      DedupDropId(front, id);
      DedupDropSnoc(front, last, id);
    }
  }

  lemma {:induction false} DropIdIsWithout(s: seq<VNode>, id: UInt64, gone: set<VNode>)
    requires forall v :: v in s ==> (v.id == id <==> v in gone)
    ensures DropId(s, id) == Without(s, gone)
  {
    if s != [] {
      DropIdIsWithout(s[..|s| - 1], id, gone);
    }
  }

  /** Dropping the strangers from a rotated list gives the old list, rotated to the same node. */
  lemma RotateWithout(s: seq<VNode>, s': seq<VNode>, gone: set<VNode>, k: nat, k': nat)
    requires Distinct(s) && Without(s', gone) == s
    requires k < |s| && k' < |s'| && s[k] == s'[k'] && s[k] !in gone
    ensures Without(Rotate(s', k'), gone) == Rotate(s, k)
  {
    var a, b := s'[..k'], s'[k'..];
    assert s' == a + b;
    WithoutConcat(a, b, gone);
    WithoutConcat(b, a, gone);
    WithoutHead(b, gone);
    var wa, wb := Without(a, gone), Without(b, gone);
    assert s == wa + wb && s[|wa|] == s[k];
    assert |wa| == k;
    assert s[..k] == wa && s[k..] == wb;
  }

  lemma WithoutHead(s: seq<VNode>, gone: set<VNode>)
    requires s != [] && s[0] !in gone
    ensures Without(s, gone) != [] && Without(s, gone)[0] == s[0]
  {
  }

  /** When a join leaves a key's coordinator in place, the key's replicas stay: without the
      newcomer the new preference list is a prefix of the old one. */
  lemma ReplicaSetStability(cfg: Config, r: RingState, name: string, id: UInt64, key: string)
    requires WellFormed(cfg, r) && r.vs != [] && name !in r.nodeMap && id !in Ids(r.vs)
    requires cfg.numVirtualNodes > 0
    requires EnoughIds(cfg, r) && EnoughIds(cfg, AddNode(cfg, r, name, id))
    requires var r' := AddNode(cfg, r, name, id);
             r'.vs[SearchIndex(r'.vs, cfg.hash(key))] == r.vs[SearchIndex(r.vs, cfg.hash(key))]
    ensures DropId(PreferenceList(cfg, AddNode(cfg, r, name, id), key), id) <= PreferenceList(cfg, r, key)
  {
    var r' := AddNode(cfg, r, name, id);
    var k, k' := SearchIndex(r.vs, cfg.hash(key)), SearchIndex(r'.vs, cfg.hash(key));
    var rot, rot' := Rotate(r.vs, k), Rotate(r'.vs, k');
    StableRotation(cfg, r, name, id, k, k');
    DedupDropId(rot', id);
    RotateElements(r.vs, k);
    RotateElements(r'.vs, k');
    DedupIds(rot');
    StablePrefix(cfg, r, r', rot, rot', id);
  }

  lemma StableRotation(cfg: Config, r: RingState, name: string, id: UInt64, k: nat, k': nat)
    requires WellFormed(cfg, r) && name !in r.nodeMap && id !in Ids(r.vs)
    requires var r' := AddNode(cfg, r, name, id);
             k < |r.vs| && k' < |r'.vs| && r.vs[k] == r'.vs[k']
    ensures DropId(Rotate(AddNode(cfg, r, name, id).vs, k'), id) == Rotate(r.vs, k)
  {
    var r' := AddNode(cfg, r, name, id);
    var ls := VNodesOf(cfg, name, id);
    var gone := set v | v in ls;
    FreshVNodes(cfg, r, name, id);
    WithoutInsertAll(r.vs, ls, gone);
    WithoutNone(r.vs, gone);
    assert r.vs[k] in r.vs;
    RotateWithout(r.vs, r'.vs, gone, k, k');
    NewcomersById(cfg, r, name, id);
    RotateElements(r'.vs, k');
    DropIdIsWithout(Rotate(r'.vs, k'), id, gone);
  }

  lemma NewcomersById(cfg: Config, r: RingState, name: string, id: UInt64)
    requires id !in Ids(r.vs)
    ensures forall v :: v in AddNode(cfg, r, name, id).vs ==> (v.id == id <==> v in VNodesOf(cfg, name, id))
  {
    var ls := VNodesOf(cfg, name, id);
    VNodesOfOwner(cfg, name, id);
    InsertAllMembers(r.vs, ls);
    forall v | v in AddNode(cfg, r, name, id).vs ensures v.id == id <==> v in ls {
      assert v in r.vs ==> v.id in Ids(r.vs);
    }
  }

  lemma StablePrefix(cfg: Config, r: RingState, r': RingState, rot: seq<VNode>, rot': seq<VNode>, id: UInt64)
    requires WellFormed(cfg, r) && r.vs != [] && cfg.numVirtualNodes > 0
    requires EnoughIds(cfg, r) && Ids(rot) == Ids(r.vs)
    requires DropId(Dedup(rot'), id) == Dedup(rot)
    requires PreferenceSize(cfg, r') <= |Dedup(rot')|
    requires |r'.nodeMap| == |r.nodeMap| + 1
    ensures PreferenceSize(cfg, r) <= |Dedup(rot)|
    ensures DropId(Dedup(rot')[..PreferenceSize(cfg, r')], id) <= Dedup(rot)[..PreferenceSize(cfg, r)]
  {
    var n, n' := PreferenceSize(cfg, r), PreferenceSize(cfg, r');
    DedupIds(rot);
    DropIdPrefix(Dedup(rot'), n', id);
    DropIdLength(Dedup(rot')[..n'], id);
    IdsOnRing(cfg, r);
    ImageSize(r.nodeMap.Keys, IdsByName(r.nodeMap));
    assert n' <= n || n >= |r.nodeMap|;
  }

  lemma {:induction false} DropIdLength(s: seq<VNode>, id: UInt64)
    ensures |DropId(s, id)| <= |s|
  {
    if s != [] {
      DropIdLength(s[..|s| - 1], id);
    }
  }
}
