/** Key routing on the ring: coordinator search and the clockwise preference list. */
module Routing {
  import opened Naming
  import opened RingSpec

  // ---------- coordinator search ----------

  /** Where `SearchKey` ends: one step back from the first hash that is not below the key's
      (or from the last node when there is none), wrapping to the tail at the head. */
  function SearchIndex(s: seq<VNode>, h: nat): (k: nat)
    requires s != []
    ensures k < |s|
  {
    var j := LowerBound(s, h);
    var stop := if j == |s| then |s| - 1 else j;
    if stop == 0 then |s| - 1 else stop - 1
  }

  // ---------- the clockwise walk ----------

  /** The element `o` steps clockwise from position `p`: from the last one it goes on at the first. */
  function CircleAt<T>(s: seq<T>, p: nat, o: nat): T
    requires p < |s| && o < |s|
  {
    if p + o < |s| then s[p + o] else s[p + o - |s|]
  }

  function Rotate<T>(s: seq<T>, start: nat): (r: seq<T>)
    requires start <= |s|
    ensures |r| == |s|
  {
    s[start..] + s[..start]
  }

  function Ids(s: seq<VNode>): set<UInt64> {
    set v | v in s :: v.id
  }

  ghost predicate DistinctIds(s: seq<VNode>) {
    forall i, j :: 0 <= i < j < |s| ==> s[i].id != s[j].id
  }

  /** The first virtual node of every physical node, in the order met. */
  function Dedup(s: seq<VNode>): (r: seq<VNode>)
    ensures |r| <= |s|
  {
    if s == [] then []
    else
      var d, last := Dedup(s[..|s| - 1]), s[|s| - 1];
      if last.id in Ids(d) then d else d + [last]
  }

  /** How many replicas are possible with this many registered names. */
  function Wanted(cfg: Config, names: nat): int {
    if names < cfg.replicationFactor then names else cfg.replicationFactor
  }

  /** How long the list gets: the coordinator is always there. */
  function PreferenceSize(cfg: Config, r: RingState): (n: nat)
    ensures n >= 1
  {
    var n := Wanted(cfg, |r.nodeMap|);
    if n < 1 then 1 else n
  }

  /** There are as many physical nodes on the list as the loop waits for. */
  predicate EnoughIds(cfg: Config, r: RingState) {
    PreferenceSize(cfg, r) <= |Ids(r.vs)|
  }

  function PreferenceList(cfg: Config, r: RingState, key: string): (p: seq<VNode>)
    requires r.vs != [] && EnoughIds(cfg, r)
    ensures |p| == PreferenceSize(cfg, r)
  {
    var rot := Rotate(r.vs, SearchIndex(r.vs, cfg.hash(key)));
    DedupIds(rot);
    RotateElements(r.vs, SearchIndex(r.vs, cfg.hash(key)));
    Dedup(rot)[..PreferenceSize(cfg, r)]
  }

  predicate IsResponsible(cfg: Config, r: RingState, key: string, id: UInt64)
    requires r.vs != [] && EnoughIds(cfg, r)
  {
    id in Ids(PreferenceList(cfg, r, key))
  }

  // ---------- lemmas ----------

  lemma RotateElements(s: seq<VNode>, start: nat)
    requires start <= |s|
    ensures forall v :: v in Rotate(s, start) <==> v in s
    ensures Ids(Rotate(s, start)) == Ids(s)
  {
  }

  lemma IdsSnoc(s: seq<VNode>, v: VNode)
    ensures Ids(s + [v]) == Ids(s) + {v.id}
  {
  }

  lemma {:induction false} DedupIds(s: seq<VNode>)
    ensures Ids(Dedup(s)) == Ids(s)
    ensures |Dedup(s)| == |Ids(s)|
  {
    if s != [] {
      var front, last := s[..|s| - 1], s[|s| - 1];
      assert s == front + [last];
      DedupIds(front);
      IdsSnoc(front, last);
      IdsSnoc(Dedup(front), last);
    }
  }

  lemma {:induction false} DedupDistinct(s: seq<VNode>)
    ensures DistinctIds(Dedup(s))
    ensures s != [] ==> Dedup(s) != [] && Dedup(s)[0] == s[0]
  {
    if s != [] {
      var front, last := s[..|s| - 1], s[|s| - 1];
      DedupDistinct(front);
      assert forall v :: v in Dedup(front) ==> v.id in Ids(Dedup(front));
    }
  }

  lemma {:induction false} DedupPrefix(s: seq<VNode>, t: nat)
    requires t <= |s|
    ensures Dedup(s[..t]) <= Dedup(s)
  {
    if t == |s| {
      assert s[..t] == s;
    } else {
      DedupPrefix(s[..|s| - 1], t);
      assert s[..|s| - 1][..t] == s[..t];
    }
  }
}
