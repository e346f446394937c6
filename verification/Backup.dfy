/** The ring backup file: what BackupRing prints and what ImportRingFromFile reads. */
module Backup {
  import opened Naming
  import opened Sequences
  import opened RingSpec
  import opened Routing

  // ---------- printing ----------

  function EntryLine(name: string, id: UInt64): string {
    name + "," + Decimal(id) + "\n"
  }

  function PrintNames(order: seq<string>, ids: map<string, UInt64>): string
    requires forall name :: name in order ==> name in ids
  {
    if order == [] then ""
    else PrintNames(order[..|order| - 1], ids) + EntryLine(order[|order| - 1], ids[order[|order| - 1]])
  }

  function PrintList(vs: seq<VNode>): string {
    if vs == [] then ""
    else PrintList(vs[..|vs| - 1]) + EntryLine(vs[|vs| - 1].vname, vs[|vs| - 1].id)
  }

  /** The text of a backup when the name map is ranged over in the given order. */
  function BackupText(order: seq<string>, r: RingState): string
    requires forall name :: name in order ==> name in r.nodeMap
  {
    PrintNames(order, IdsByName(r.nodeMap)) + "\n" + PrintList(r.vs)
  }

  // ---------- scanning ----------

  /** The first position of `c`, or the length when there is none. */
  function FindChar(s: string, c: char): (k: nat)
    ensures k <= |s|
    ensures forall i :: 0 <= i < k ==> s[i] != c
    ensures k < |s| ==> s[k] == c
  {
    if s == "" || s[0] == c then 0 else 1 + FindChar(s[1..], c)
  }

  /** `bufio.ScanLines` also drops one carriage return at the end of a line. */
  function DropCR(line: string): string {
    if line != "" && line[|line| - 1] == '\r' then line[..|line| - 1] else line
  }

  /** The lines a `bufio.Scanner` delivers. */
  function Lines(text: string): seq<string> {
    if text == "" then []
    else
      var k := FindChar(text, '\n');
      [DropCR(text[..k])] + (if k == |text| then [] else Lines(text[k + 1..]))
  }

  /** Entry of a line: `split[0]` and the parsed `split[1]` of `strings.Split(line, ",")`. */
  datatype Entry =
    | Entry(name: string, id: UInt64)
    | BadNumber      // ParseUint returns an error
    | NoComma        // `split[1]` is out of range: the program panics

  function ParseEntry(line: string): Entry {
    var k := FindChar(line, ',');
    if k == |line| then NoComma
    else
      var rest := line[k + 1..];
      match ParseUint(rest[..FindChar(rest, ',')])
      case Some(id) => Entry(line[..k], id)
      case None => BadNumber
  }

  datatype Import =
    | Imported(ring: RingState)
    | ParseFailed
    | Panicked

  /** First section: up to an empty line, or to the end of the file. */
  function ReadNames(cfg: Config, lines: seq<string>, nodeMap: map<string, NodeInfo>): Import {
    if lines == [] then Imported(RingState([], nodeMap))
    else if lines[0] == "" then ReadList(cfg, lines[1..], RingState([], nodeMap))
    else
      match ParseEntry(lines[0])
      case Entry(name, id) => ReadNames(cfg, lines[1..], nodeMap[name := NodeInfo(id, [])])
      case BadNumber => ParseFailed
      case NoComma => Panicked
  }

  /** Second section: virtual nodes in list order; hashes are computed afresh. */
  function ReadList(cfg: Config, lines: seq<string>, r: RingState): Import {
    if lines == [] then Imported(r)
    else
      match ParseEntry(lines[0])
      case Entry(vname, id) =>
        ReadList(cfg, lines[1..], r.(vs := r.vs + [VNode(vname, id, cfg.hash(vname))]))
      case BadNumber => ParseFailed
      case NoComma => Panicked
  }

  function ImportText(cfg: Config, text: string): Import {
    ReadNames(cfg, Lines(text), map[])
  }

  // ---------- what the import makes of any line ----------

  /** A carriage return in front of the newline goes with it. */
  lemma CarriageReturnGoes(line: string, rest: string)
    requires '\n' !in line
    ensures Lines(line + "\r\n" + rest) == [line] + Lines(rest)
  {
    var text := line + "\r\n" + rest;
    assert text == (line + "\r") + ['\n'] + rest;
    FindFirst(line + "\r", '\n', rest);
    assert text[..|line| + 1] == line + "\r" && text[|line| + 2..] == rest;
    assert (line + "\r")[..|line|] == line;
  }

  /** A line without a comma panics. */
  lemma NoCommaPanics(line: string)
    ensures ParseEntry(line) == NoComma <==> ',' !in line
  {
    var k := FindChar(line, ',');
    if k < |line| {
      assert line[k] in line;
    }
  }

  /** In any other the field in front of the comma is the name, and what stands between it and the next,
      or the end, must be a number. */
  lemma FieldsOfLine(name: string, field: string, rest: string)
    requires ',' !in name && ',' !in field && (rest == "" || rest[0] == ',')
    ensures ParseEntry(name + "," + field + rest) == match ParseUint(field)
                                                     case Some(id) => Entry(name, id)
                                                     case None => BadNumber
  {
    var line := name + "," + field + rest;
    assert line == name + [','] + (field + rest);
    FindFirst(name, ',', field + rest);
    assert line[..|name|] == name && line[|name| + 1..] == field + rest;
    if rest == "" {
      assert field + rest == field;
      FindNone(field, ',');
    } else {
      assert field + rest == field + [','] + rest[1..];
      FindFirst(field, ',', rest[1..]);
    }
    assert (field + rest)[..|field|] == field;
  }

  /** The first line that is no entry decides: a bad number is an error, a missing comma a panic. */
  ghost predicate FirstBad(lines: seq<string>, n: nat) {
    && n < |lines| && !ParseEntry(lines[n]).Entry?
    && forall i :: 0 <= i < n ==> ParseEntry(lines[i]).Entry?
  }

  lemma {:induction false} ListFails(cfg: Config, lines: seq<string>, r: RingState, n: nat)
    requires FirstBad(lines, n)
    ensures ReadList(cfg, lines, r) == if ParseEntry(lines[n]) == NoComma then Panicked else ParseFailed
  {
    if n > 0 {
      var e := ParseEntry(lines[0]);
      ListFails(cfg, lines[1..], r.(vs := r.vs + [VNode(e.name, e.id, cfg.hash(e.name))]), n - 1);
    }
  }

  lemma {:induction false} NamesFail(cfg: Config, lines: seq<string>, nodeMap: map<string, NodeInfo>, n: nat)
    requires FirstBad(lines, n) && forall i :: 0 <= i <= n ==> lines[i] != ""
    ensures ReadNames(cfg, lines, nodeMap) == if ParseEntry(lines[n]) == NoComma then Panicked else ParseFailed
  {
    if n > 0 {
      var e := ParseEntry(lines[0]);
      NamesFail(cfg, lines[1..], nodeMap[e.name := NodeInfo(e.id, [])], n - 1);
    }
  }

  /** Otherwise every line of the second section is a node, in order, with its hash computed afresh. */
  lemma {:induction false} ListReads(cfg: Config, lines: seq<string>, r: RingState)
    requires forall i :: 0 <= i < |lines| ==> ParseEntry(lines[i]).Entry?
    ensures var more := seq(|lines|, i requires 0 <= i < |lines| =>
                          var e := ParseEntry(lines[i]); VNode(e.name, e.id, cfg.hash(e.name)));
            ReadList(cfg, lines, r) == Imported(r.(vs := r.vs + more))
  {
    var more := seq(|lines|, i requires 0 <= i < |lines| =>
                  var e := ParseEntry(lines[i]); VNode(e.name, e.id, cfg.hash(e.name)));
    if lines == [] {
      assert r.vs + more == r.vs;
    } else {
      ListReads(cfg, lines[1..], r.(vs := r.vs + [more[0]]));
      assert r.vs + more == r.vs + [more[0]] + more[1..];
    }
  }

  // ---------- round trip ----------

  /** A name that can stand in a comma-separated line. */
  predicate Printable(name: string) {
    ',' !in name && '\n' !in name
  }

  lemma FindFirst(a: string, c: char, b: string)
    requires c !in a
    ensures FindChar(a + [c] + b, c) == |a|
  {
    var s := a + [c] + b;
    assert s[|a|] == c;
    assert forall i :: 0 <= i < |a| ==> s[i] == a[i] && s[i] in a;
  }

  lemma FindNone(s: string, c: char)
    requires c !in s
    ensures FindChar(s, c) == |s|
  {
  }

  lemma EntryRoundTrip(name: string, id: UInt64)
    requires Printable(name)
    ensures ParseEntry(name + "," + Decimal(id)) == Entry(name, id)
  {
    var line := name + "," + Decimal(id);
    FindFirst(name, ',', Decimal(id));
    assert line[|name| + 1..] == Decimal(id);
    assert forall c :: c in Decimal(id) ==> IsDigit(c);
    FindNone(Decimal(id), ',');
    assert Decimal(id)[..|Decimal(id)|] == Decimal(id);
    ParseInvertsDecimal(id);
    assert line[..|name|] == name;
  }

  /** One printed line in front of any text scans back to its two fields. */
  lemma LinesOfEntry(name: string, id: UInt64, rest: string)
    requires Printable(name)
    ensures Lines(EntryLine(name, id) + rest) == [name + "," + Decimal(id)] + Lines(rest)
  {
    var line := name + "," + Decimal(id);
    var text := EntryLine(name, id) + rest;
    assert forall c :: c in Decimal(id) ==> IsDigit(c);
    assert '\n' !in line;
    assert text == line + ['\n'] + rest;
    FindFirst(line, '\n', rest);
    assert text[..|line|] == line && text[|line| + 1..] == rest;
    assert line[|line| - 1] == Decimal(id)[|Decimal(id)| - 1];
  }

  lemma ReadListStep(cfg: Config, v: VNode, rest: string, r: RingState)
    requires Printable(v.vname) && v.hash == cfg.hash(v.vname)
    ensures ReadList(cfg, Lines(EntryLine(v.vname, v.id) + rest), r)
            == ReadList(cfg, Lines(rest), r.(vs := r.vs + [v]))
  {
    LinesOfEntry(v.vname, v.id, rest);
    EntryRoundTrip(v.vname, v.id);
  }

  lemma {:induction false} ReadPrintedList(cfg: Config, vs: seq<VNode>, r: RingState)
    requires forall v :: v in vs ==> Printable(v.vname) && v.hash == cfg.hash(v.vname)
    ensures ReadList(cfg, Lines(PrintList(vs)), r) == Imported(r.(vs := r.vs + vs))
    decreases |vs|
  {
    if vs == [] {
      assert r.vs + vs == r.vs;
    } else {
      var v, rest := vs[0], vs[1..];
      var r' := r.(vs := r.vs + [v]);
      assert r'.vs + rest == r.vs + vs;
      calc {
        ReadList(cfg, Lines(PrintList(vs)), r);
        { PrintListCons(vs); }
        ReadList(cfg, Lines(EntryLine(v.vname, v.id) + PrintList(rest)), r);
        { ReadListStep(cfg, v, PrintList(rest), r); }
        ReadList(cfg, Lines(PrintList(rest)), r');
        { ReadPrintedList(cfg, rest, r'); }
        Imported(r'.(vs := r'.vs + rest));
      }
    }
  }

  lemma {:induction false} PrintListCons(vs: seq<VNode>)
    requires vs != []
    ensures PrintList(vs) == EntryLine(vs[0].vname, vs[0].id) + PrintList(vs[1..])
  {
    if |vs| > 1 {
      PrintListCons(vs[..|vs| - 1]);
      assert vs[..|vs| - 1][1..] == vs[1..][..|vs[1..]| - 1];
    }
  }

  lemma {:induction false} PrintNamesCons(order: seq<string>, ids: map<string, UInt64>)
    requires order != [] && forall name :: name in order ==> name in ids
    ensures PrintNames(order, ids) == EntryLine(order[0], ids[order[0]]) + PrintNames(order[1..], ids)
  {
    if |order| > 1 {
      var n, tail := |order| - 1, order[1..];
      PrintNamesCons(order[..n], ids);
      assert tail[..n - 1] == order[..n][1..] && tail[n - 1] == order[n];
      var first, inner := EntryLine(order[0], ids[order[0]]), PrintNames(tail[..n - 1], ids);
      var last := EntryLine(order[n], ids[order[n]]);
      assert (first + inner) + last == first + (inner + last);
      assert PrintNames(tail, ids) == inner + last;
    }
  }

  /** What the import makes of the name map: right ids, but no virtual nodes listed. */
  function Emptied(nodeMap: map<string, NodeInfo>): map<string, NodeInfo> {
    map name | name in nodeMap :: NodeInfo(nodeMap[name].id, [])
  }

  lemma ReadNamesStep(cfg: Config, name: string, id: UInt64, rest: string, m: map<string, NodeInfo>)
    requires Printable(name)
    ensures ReadNames(cfg, Lines(EntryLine(name, id) + rest), m)
            == ReadNames(cfg, Lines(rest), m[name := NodeInfo(id, [])])
  {
    LinesOfEntry(name, id, rest);
    EntryRoundTrip(name, id);
  }

  lemma ReadNamesEnd(cfg: Config, vs: seq<VNode>, m: map<string, NodeInfo>)
    requires forall v :: v in vs ==> Printable(v.vname) && v.hash == cfg.hash(v.vname)
    ensures ReadNames(cfg, Lines("\n" + PrintList(vs)), m) == Imported(RingState(vs, m))
  {
    var text := "\n" + PrintList(vs);
    assert text[..0] == "" && text[1..] == PrintList(vs);
    assert Lines(text) == [""] + Lines(PrintList(vs));
    ReadPrintedList(cfg, vs, RingState([], m));
  }

  /** The first `k` names, as the import's first section has stored them. */
  function EmptiedPrefix(nodeMap: map<string, NodeInfo>, order: seq<string>): map<string, NodeInfo>
    requires forall name :: name in order ==> name in nodeMap
  {
    map name | name in order :: NodeInfo(nodeMap[name].id, [])
  }

  lemma EmptiedPrefixStep(nodeMap: map<string, NodeInfo>, order: seq<string>, k: nat)
    requires k < |order| && forall name :: name in order ==> name in nodeMap
    ensures EmptiedPrefix(nodeMap, order[..k + 1])
            == EmptiedPrefix(nodeMap, order[..k])[order[k] := NodeInfo(nodeMap[order[k]].id, [])]
  {
  }

  lemma {:induction false} ReadPrintedNames(cfg: Config, order: seq<string>, done: nat, r: RingState)
    requires done <= |order| && forall name :: name in order ==> name in r.nodeMap && Printable(name)
    requires forall v :: v in r.vs ==> Printable(v.vname) && v.hash == cfg.hash(v.vname)
    ensures ReadNames(cfg, Lines(PrintNames(order[done..], IdsByName(r.nodeMap)) + "\n" + PrintList(r.vs)),
                      EmptiedPrefix(r.nodeMap, order[..done]))
            == Imported(RingState(r.vs, EmptiedPrefix(r.nodeMap, order)))
    decreases |order| - done
  {
    var ids := IdsByName(r.nodeMap);
    var text := PrintNames(order[done..], ids) + "\n" + PrintList(r.vs);
    if done == |order| {
      assert order[..done] == order;
      assert text == "\n" + PrintList(r.vs);
      ReadNamesEnd(cfg, r.vs, EmptiedPrefix(r.nodeMap, order));
    } else {
      var name := order[done];
      var rest := PrintNames(order[done + 1..], ids) + "\n" + PrintList(r.vs);
      PrintNamesCons(order[done..], ids);
      assert order[done..][1..] == order[done + 1..];
      assert text == EntryLine(name, ids[name]) + rest;
      ReadNamesStep(cfg, name, ids[name], rest, EmptiedPrefix(r.nodeMap, order[..done]));
      EmptiedPrefixStep(r.nodeMap, order, done);
      ReadPrintedNames(cfg, order, done + 1, r);
    }
  }

  /** Whatever order the name map was printed in, importing a backup rebuilds the list and
      every name's id. No entry gets its virtual nodes back. */
  lemma BackupRoundTrip(cfg: Config, r: RingState, order: seq<string>)
    requires WellFormed(cfg, r) && IsOrderOf(order, r.nodeMap.Keys)
    requires forall name :: name in r.nodeMap ==> Printable(name)
    ensures ImportText(cfg, BackupText(order, r)) == Imported(RingState(r.vs, Emptied(r.nodeMap)))
  {
    forall v | v in r.vs ensures Printable(v.vname) && v.hash == cfg.hash(v.vname) {
      var name := OwnerName(v.vname);
      assert Owned(cfg, r.nodeMap, v);
      var i := IndexOf(VNodesOf(cfg, name, r.nodeMap[name].id), v);
      assert v.vname == VirtualName(name, i);
      assert forall c :: c in Decimal(i) ==> IsDigit(c);
    }
    assert order[0..] == order;
    assert EmptiedPrefix(r.nodeMap, order[..0]) == map[];
    assert EmptiedPrefix(r.nodeMap, order) == Emptied(r.nodeMap);
    ReadPrintedNames(cfg, order, 0, r);
  }

  /** The restored ring answers every key as before. */
  lemma ImportPreservesAnswers(cfg: Config, r: RingState, key: string)
    requires r.vs != [] && EnoughIds(cfg, r)
    ensures var back := RingState(r.vs, Emptied(r.nodeMap));
            && EnoughIds(cfg, back)
            && PreferenceList(cfg, back, key) == PreferenceList(cfg, r, key)
            && IdsByName(back.nodeMap) == IdsByName(r.nodeMap)
  {
    assert Emptied(r.nodeMap).Keys == r.nodeMap.Keys;
  }

  /** But it cannot shrink again: removing a name leaves all its virtual nodes on the list, so the
      restored ring meets the invariant only if there are no virtual nodes to lose. */
  lemma ImportedRingIsStuck(cfg: Config, r: RingState, name: string)
    requires WellFormed(cfg, r)
    ensures RemoveNode(RingState(r.vs, Emptied(r.nodeMap)), name).vs == r.vs
    ensures WellFormed(cfg, RingState(r.vs, Emptied(r.nodeMap))) <==> r.vs == []
  {
    var back := RingState(r.vs, Emptied(r.nodeMap));
    WithoutNone(r.vs, {});
    if name in back.nodeMap {
      assert (set v | v in back.nodeMap[name].vnodes) == {};
    }
    if r.vs == [] {
      forall n | n in back.nodeMap ensures back.nodeMap[n].vnodes == VNodesOf(cfg, n, back.nodeMap[n].id) {
        NoVirtualNodes(cfg, r, n);
      }
      assert forall v :: Owned(cfg, back.nodeMap, v) <==> Owned(cfg, r.nodeMap, v);
    } else {
      assert r.vs[0] in r.vs && Owned(cfg, r.nodeMap, r.vs[0]);
      assert OwnerName(r.vs[0].vname) in back.nodeMap;
    }
  }

  lemma NoVirtualNodes(cfg: Config, r: RingState, name: string)
    requires WellFormed(cfg, r) && r.vs == [] && name in r.nodeMap
    ensures VNodesOf(cfg, name, r.nodeMap[name].id) == []
  {
    var ls := VNodesOf(cfg, name, r.nodeMap[name].id);
    VNodesOfOwner(cfg, name, r.nodeMap[name].id);
    forall v | v in ls ensures v in r.vs {
      assert Owned(cfg, r.nodeMap, v);
    }
    assert Elements(ls) <= Elements(r.vs) && Elements(r.vs) == {};
    DistinctSize(ls);
  }
}
