/** How little a join disturbs key placement, and which keys the reallocation notices cover. */
module Disruption {
  import opened Naming
  import opened Sequences
  import opened RingSpec
  import opened Routing
  import opened History

  /** A notice asks `target` to hand its keys with hash at least `newNode.hash` to `newNode`. */
  datatype Notice = Notice(target: VNode, newNode: VNode)

  /** What AddNode returns: for every new virtual node its predecessor on the final list,
      the tail for the head, unless that belongs to the newcomer itself. */
  function Notices(vs: seq<VNode>, ls: seq<VNode>): seq<Notice>
    requires forall v :: v in ls ==> v in vs
  {
    if ls == [] then []
    else
      var last := ls[|ls| - 1];
      var target := Predecessor(vs, last);
      Notices(vs, ls[..|ls| - 1]) + (if target.id == last.id then [] else [Notice(target, last)])
  }

  /** A virtual node is announced to its predecessor, once, unless that is the newcomer's own. */
  lemma {:induction false} NoticeListedIff(vs: seq<VNode>, ls: seq<VNode>, n: Notice)
    requires forall x :: x in ls ==> x in vs
    ensures n in Notices(vs, ls) <==>
              n.newNode in ls && n.target == Predecessor(vs, n.newNode) && n.target.id != n.newNode.id
  {
    if ls != [] {
      var front, last := ls[..|ls| - 1], ls[|ls| - 1];
      assert ls == front + [last];
      NoticeListedIff(vs, front, n);
    }
  }

  /** The positions of the new virtual nodes whose cyclic predecessor has another id. */
  ghost function TakingOver(vs: seq<VNode>, ls: seq<VNode>): set<nat> {
    set i: nat | i < |ls| && ls[i] in vs && Predecessor(vs, ls[i]).id != ls[i].id
  }

  lemma TakingOverSnoc(vs: seq<VNode>, ls: seq<VNode>, v: VNode)
    requires v in vs
    ensures TakingOver(vs, ls + [v]) == TakingOver(vs, ls) + if Predecessor(vs, v).id != v.id then {|ls|} else {}
  {
    assert forall i :: 0 <= i < |ls| ==> (ls + [v])[i] == ls[i];
  }

  /** The notices in order: one for each of these, from the predecessor. */
  lemma {:induction false} NoticesInOrder(vs: seq<VNode>, ls: seq<VNode>) returns (idx: seq<nat>)
    requires forall x :: x in ls ==> x in vs
    ensures Increasing(idx, TakingOver(vs, ls)) && |Notices(vs, ls)| == |idx|
    ensures forall k :: 0 <= k < |idx| ==>
              idx[k] < |ls| && Notices(vs, ls)[k] == Notice(Predecessor(vs, ls[idx[k]]), ls[idx[k]])
  {
    idx := [];
    if ls != [] {
      var front, last := ls[..|ls| - 1], ls[|ls| - 1];
      assert ls == front + [last];
      idx := NoticesInOrder(vs, front);
      TakingOverSnoc(vs, front, last);
      if Predecessor(vs, last).id != last.id {
        IncreasingSnoc(idx, TakingOver(vs, front), |front|);
        idx := idx + [|front|];
      }
    }
  }

  // ---------- sorted extensions of a list ----------

  /** `s'` is `s` with the virtual nodes in `news` sorted in. */
  ghost predicate Extends(s: seq<VNode>, s': seq<VNode>, news: set<VNode>) {
    && s != []
    && Sorted(s) && Sorted(s') && Distinct(s) && Distinct(s')
    && Without(s', news) == s
  }

  function Coordinator(s: seq<VNode>, h: nat): VNode
    requires s != []
  {
    s[SearchIndex(s, h)]
  }

  lemma ExtensionMembers(s: seq<VNode>, s': seq<VNode>, news: set<VNode>)
    requires Extends(s, s', news)
    ensures s' != []
    ensures forall v :: v in s <==> v in s' && v !in news
  {
    WithoutMembers(s', news);
    assert s[0] in s;
  }

  /** Cutting the new list behind an old node cuts the old list behind the same node. */
  lemma CutBehind(s: seq<VNode>, s': seq<VNode>, news: set<VNode>, k: nat, p: nat)
    requires Distinct(s) && Without(s', news) == s
    requires k < |s| && p < |s'| && s'[p] == s[k]
    ensures Without(s'[p + 1..], news) == s[k + 1..]
  {
    var a, x, b := s'[..p], s'[p], s'[p + 1..];
    assert s' == a + [x] + b;
    WithoutMembers(s', news);
    assert s[k] in s && x !in news;
    WithoutConcat(a + [x], b, news);
    WithoutSnoc(a, x, news);
    var n := |Without(a, news)|;
    assert s == Without(a, news) + [x] + Without(b, news);
    assert s[n] == x;
    assert n == k;
  }

  /** Sorting in keeps the old nodes in order: what stands behind an old node on the new list
      is new, or stands behind it on the old list as well. */
  lemma BehindOldNode(s: seq<VNode>, s': seq<VNode>, news: set<VNode>, k: nat, p: nat, q: nat)
    requires Extends(s, s', news)
    requires k < |s| && p < q < |s'| && s'[p] == s[k]
    ensures s'[q] in news || s'[q] in s[k + 1..]
  {
    CutBehind(s, s', news, k, p);
    WithoutMembers(s'[p + 1..], news);
    assert s'[q] == s'[p + 1..][q - p - 1];
  }

  lemma BehindIsNotBelow(s: seq<VNode>, k: nat, h: nat)
    requires Sorted(s) && k < |s| && (k + 1 < |s| ==> h <= s[k + 1].hash)
    ensures forall v :: v in s[k + 1..] ==> h <= v.hash
  {
  }

  lemma BoundOfMember(s: seq<VNode>, x: VNode, h: nat)
    requires Sorted(s) && x in s
    ensures LowerBound(s, h) <= IndexOf(s, x) <==> h <= x.hash
    ensures s[0].hash <= x.hash <= s[|s| - 1].hash
  {
  }

  /** The last old node below `h` cannot be overtaken by another old one. */
  lemma LastBelow(s: seq<VNode>, s': seq<VNode>, news: set<VNode>, k: nat, p: nat, q: nat, h: nat)
    requires Extends(s, s', news)
    requires k < |s| && (k + 1 < |s| ==> h <= s[k + 1].hash)
    requires p <= q < |s'| && s'[p] == s[k] && s'[q].hash < h
    ensures s'[q] == s[k] || s'[q] in news
  {
    if p < q {
      BehindOldNode(s, s', news, k, p, q);
      BehindIsNotBelow(s, k, h);
    }
  }

  /** The last node of the new list is the old tail or new. */
  lemma OldTail(s: seq<VNode>, s': seq<VNode>, news: set<VNode>)
    requires Extends(s, s', news)
    ensures s' != [] && (s'[|s'| - 1] == s[|s| - 1] || s'[|s'| - 1] in news)
  {
  }

  // ---------- the coordinator stays or goes to a newcomer ----------

  /** The keys for which a join leaves the coordinator alone or moves it to the newcomer, whatever
      the newcomer's hashes. */
  predicate Undisturbed(s: seq<VNode>, h: nat)
    requires s != []
  {
    |s| == 1 || h <= s[|s| - 1].hash
  }

  ghost predicate StaysOrMovesToNew(s: seq<VNode>, s': seq<VNode>, news: set<VNode>, h: nat)
    requires s != [] && s' != []
  {
    Coordinator(s', h) == Coordinator(s, h) || Coordinator(s', h) in news
  }

  lemma UndisturbedStays(s: seq<VNode>, s': seq<VNode>, news: set<VNode>, h: nat)
    requires Extends(s, s', news) && Undisturbed(s, h)
    ensures s' != [] && StaysOrMovesToNew(s, s', news, h)
  {
    ExtensionMembers(s, s', news);
    var c' := Coordinator(s', h);
    assert c' in s';
    if |s| == 1 {
      assert c' in news || c' in s;
    } else if h <= s[0].hash {
      BelowAll(s, s', news, h);
    } else {
      var k := LowerBound(s, h) - 1;
      var tail := s[|s| - 1];
      assert tail in s && s[k] in s;
      BoundOfMember(s', tail, h);
      BoundOfMember(s', s[k], h);
      LastBelow(s, s', news, k, IndexOf(s', s[k]), LowerBound(s', h) - 1, h);
    }
  }

  lemma BelowAll(s: seq<VNode>, s': seq<VNode>, news: set<VNode>, h: nat)
    requires Extends(s, s', news) && h <= s[0].hash
    ensures s' != [] && StaysOrMovesToNew(s, s', news, h)
  {
    ExtensionMembers(s, s', news);
    OldTail(s, s', news);
    assert s[0] in s;
    BoundOfMember(s', s[0], h);
    forall v | v in s ensures h <= v.hash {
      assert s[0].hash <= s[IndexOf(s, v)].hash;
    }
    var j' := LowerBound(s', h);
    if j' > 0 {
      assert s'[j' - 1] in s';
    }
  }

  /** With the search the test suite describes, every key is left alone. */
  lemma ExpectedSearchIsUndisturbed(s: seq<VNode>, s': seq<VNode>, news: set<VNode>, h: nat)
    requires Extends(s, s', news)
    ensures s' != []
    ensures s'[ExpectedIndex(s', h)] == s[ExpectedIndex(s, h)] || s'[ExpectedIndex(s', h)] in news
  {
    ExtensionMembers(s, s', news);
    var tail := s[|s| - 1];
    assert tail in s;
    BoundOfMember(s', tail, h);
    if h <= tail.hash {
      UndisturbedStays(s, s', news, h);
      SearchMeetsExpectationIff(s, h);
      SearchMeetsExpectationIff(s', h);
    } else if LowerBound(s', h) == |s'| {
      OldTail(s, s', news);
    } else {
      LastBelow(s, s', news, |s| - 1, IndexOf(s', tail), LowerBound(s', h) - 1, h);
    }
  }

  // ---------- the notices cover the moves ----------

  /** Some newcomer right behind the old coordinator takes keys from a hash below `h` on. */
  ghost predicate Covered(s: seq<VNode>, s': seq<VNode>, news: set<VNode>, h: nat)
    requires s != []
  {
    exists v :: v in news && v in s' && Predecessor(s', v) == Coordinator(s, h) && v.hash <= h
  }

  /** The keys whose every move is announced by a notice that applies to them. */
  predicate Announced(s: seq<VNode>, h: nat)
    requires s != []
  {
    s[0].hash < h && Undisturbed(s, h)
  }

  lemma AnnouncedIsCovered(s: seq<VNode>, s': seq<VNode>, news: set<VNode>, h: nat)
    requires Extends(s, s', news) && Announced(s, h)
    requires s' != [] && Coordinator(s', h) != Coordinator(s, h)
    ensures Covered(s, s', news, h)
  {
    ExtensionMembers(s, s', news);
    var k, q := SearchIndex(s, h), SearchIndex(s', h);
    assert s[k] in s;
    SearchFindsArc(s, h, k);
    BoundOfMember(s', s[k], h);
    var p := IndexOf(s', s[k]);
    if p < q {
      NextIsCovering(s, s', news, h, p, q);
    } else {
      SoleNodeAtTail(s, s', news, h, p);
    }
  }

  /** A node below `h` stands behind the old coordinator, so the next one is a newcomer below `h`. */
  lemma NextIsCovering(s: seq<VNode>, s': seq<VNode>, news: set<VNode>, h: nat, p: nat, q: nat)
    requires Extends(s, s', news) && Announced(s, h) && p < q < |s'| && s'[q].hash < h
    requires s'[p] == Coordinator(s, h)
    ensures Covered(s, s', news, h)
  {
    var k := SearchIndex(s, h);
    SearchFindsArc(s, h, k);
    BehindOldNode(s, s', news, k, p, p + 1);
    BehindIsNotBelow(s, k, h);
    IndexIs(s', p + 1);
    assert s'[p + 1].hash <= s'[q].hash;
    assert Predecessor(s', s'[p + 1]) == s[k];
  }

  /** The remaining case: a single old node, now the tail, answered one node early. */
  lemma SoleNodeAtTail(s: seq<VNode>, s': seq<VNode>, news: set<VNode>, h: nat, p: nat)
    requires Extends(s, s', news) && Announced(s, h) && s' != []
    requires p < LowerBound(s', h) && s'[p] == Coordinator(s, h) && SearchIndex(s', h) < p
    ensures Covered(s, s', news, h)
  {
    ExtensionMembers(s, s', news);
    assert s[|s| - 1] in s;
    BoundOfMember(s', s[|s| - 1], h);
    assert LowerBound(s', h) == |s'| && p == |s'| - 1;
    assert |s| == 1;
    var v := s'[0];
    assert v in s' && s'[0] != s'[p];
    assert v in news || v in s;
    IndexIs(s', 0);
    assert Predecessor(s', v) == Coordinator(s, h);
  }

  /** The same about AddNode: for a key hash above the head's and at most the tail's, the
      coordinator stays or moves to the new node, and a move is announced by a returned notice. */
  lemma AddNodeAnnouncesMoves(cfg: Config, r: RingState, name: string, id: UInt64, key: string)
    requires WellFormed(cfg, r) && r.vs != [] && name !in r.nodeMap && id !in Ids(r.vs)
    requires Announced(r.vs, cfg.hash(key))
    ensures var r' := AddNode(cfg, r, name, id);
            var c, c' := Coordinator(r.vs, cfg.hash(key)), Coordinator(r'.vs, cfg.hash(key));
            && (forall v :: v in r'.nodeMap[name].vnodes ==> v in r'.vs)
            && (c' == c || (c' in r'.nodeMap[name].vnodes && c'.id == id))
            && (c' != c ==> exists n :: n in Notices(r'.vs, r'.nodeMap[name].vnodes)
                                        && n.target == c && n.newNode.hash <= cfg.hash(key))
  {
    var h := cfg.hash(key);
    var r' := AddNode(cfg, r, name, id);
    var ls := VNodesOf(cfg, name, id);
    var news := set v | v in ls;
    AddNodeExtends(cfg, r, name, id);
    VNodesOfOwner(cfg, name, id);
    InsertAllMembers(r.vs, ls);
    UndisturbedStays(r.vs, r'.vs, news, h);
    if Coordinator(r'.vs, h) != Coordinator(r.vs, h) {
      AnnouncedIsCovered(r.vs, r'.vs, news, h);
      CoveredIsNoticed(r.vs, r'.vs, ls, news, id, h);
    }
  }

  lemma CoveredIsNoticed(s: seq<VNode>, s': seq<VNode>, ls: seq<VNode>, news: set<VNode>, id: UInt64, h: nat)
    requires s != [] && id !in Ids(s) && (forall v :: v in ls ==> v in s' && v.id == id)
    requires news == (set v | v in ls) && Covered(s, s', news, h)
    ensures exists n :: n in Notices(s', ls) && n.target == Coordinator(s, h) && n.newNode.hash <= h
  {
    var c := Coordinator(s, h);
    var v :| v in news && v in s' && Predecessor(s', v) == c && v.hash <= h;
    assert c in s && c.id in Ids(s);
    NoticeListedIff(s', ls, Notice(c, v));
    assert Notice(c, v) in Notices(s', ls);
  }

  lemma AddNodeExtends(cfg: Config, r: RingState, name: string, id: UInt64)
    requires WellFormed(cfg, r) && r.vs != [] && name !in r.nodeMap
    ensures Extends(r.vs, AddNode(cfg, r, name, id).vs, set v | v in VNodesOf(cfg, name, id))
  {
    var ls := VNodesOf(cfg, name, id);
    var news := set v | v in ls;
    AddNodeWellFormed(cfg, r, name, id);
    FreshVNodes(cfg, r, name, id);
    WithoutInsertAll(r.vs, ls, news);
    WithoutNone(r.vs, news);
  }
}
