/**
 * export_nodes: the selected nodes of a tree, their properties and unlinked
 * input defaults, and the links inside the selection, stored as one block of
 * the export document.
 */
module Exporter {
  import opened Wrappers
  import opened Codec
  import opened Graph
  import opened Records

  /** Python's `str.startswith`. */
  predicate StartsWith(s: string, prefix: string) {
    |prefix| <= |s| && s[..|prefix|] == prefix
  }

  /** A direct property is recorded when it is writable, not `bl_`-internal and serialises to something. */
  predicate Exported(p: Property)
    ensures Exported(p) <==> !p.readonly && !StartsWith(p.identifier, "bl_") && !p.value.HOther?
  {
    !p.readonly && !StartsWith(p.identifier, "bl_") && Serialize(p.value) != Null
  }

  /** The property map after the loop over the node's reflected properties. */
  function DirectProperties(ps: seq<Property>): (m: PropMap)
    ensures UniqueKeys(m)
    decreases |ps|
  {
    if |ps| == 0 then []
    else
      var m := DirectProperties(ps[..|ps| - 1]);
      var p := ps[|ps| - 1];
      if Exported(p) then Put(m, p.identifier, Serialize(p.value))
      else m
  }

  lemma ValidLinksPrefix(nodes: seq<Node>, links: seq<Link>, n: nat)
    requires ValidLinks(nodes, links) && n <= |links|
    ensures ValidLinks(nodes, links[..n])
  {
    forall l | l in links[..n] ensures LinkIn(nodes, l) {
      assert l in links;
    }
  }

  /** The entries the loop over the first `n` inputs stores: identifier and serialised default of each unlinked input that has one. */
  function DefaultEntries(t: Tree, i: nat, n: nat): (es: seq<(string, Value)>)
    requires i < |t.nodes| && n <= |t.nodes[i].inputs|
    ensures |es| <= n
  {
    if n == 0 then []
    else
      var es := DefaultEntries(t, i, n - 1);
      var s := t.nodes[i].inputs[n - 1];
      if s.default.Some? && !IsLinked(t, i, n - 1) then es + [(s.identifier, Serialize(s.default.value))]
      else es
  }

  /** The `properties` map of node `i`'s record: the direct properties, then the input defaults on top. */
  function RecordProperties(t: Tree, i: nat): (m: PropMap)
    requires i < |t.nodes|
    ensures UniqueKeys(m)
  {
    PutAll(DirectProperties(t.nodes[i].props), DefaultEntries(t, i, |t.nodes[i].inputs|))
  }

  /** Node `i`'s record: name, type and location copied, and a property map with unique keys. */
  function RecordOf(t: Tree, i: nat): (r: NodeRecord)
    requires i < |t.nodes|
    ensures r.name == t.nodes[i].name && r.nodeType == t.nodes[i].nodeType && r.location == [t.nodes[i].location.x, t.nodes[i].location.y]
    ensures UniqueKeys(r.properties)
  {
    var n := t.nodes[i];
    NodeRecord(n.name, n.nodeType, [n.location.x, n.location.y], RecordProperties(t, i))
  }

  /** `[n for n in node_tree.nodes if n.select]`, as node indices. */
  function Selection(nodes: seq<Node>): (sel: seq<nat>)
    ensures forall j :: 0 <= j < |sel| ==> sel[j] < |nodes| && nodes[sel[j]].select
    ensures forall i :: 0 <= i < |nodes| && nodes[i].select ==> i in sel
    ensures forall a, b :: 0 <= a < b < |sel| ==> sel[a] < sel[b]
  {
    if |nodes| == 0 then []
    else
      var sel := Selection(nodes[..|nodes| - 1]);
      assert forall j :: 0 <= j < |sel| ==> nodes[..|nodes| - 1][sel[j]] == nodes[sel[j]];
      if nodes[|nodes| - 1].select then sel + [|nodes| - 1] else sel
  }

  /** A node index is in the selection exactly when that node is selected. */
  lemma SelectionMembers(nodes: seq<Node>)
    ensures forall i :: 0 <= i < |nodes| ==> (i in Selection(nodes) <==> nodes[i].select)
  {
    var sel := Selection(nodes);
    forall i | 0 <= i < |nodes| && i in sel ensures nodes[i].select {
      var j :| 0 <= j < |sel| && sel[j] == i;
    }
  }

  function NodeRecords(t: Tree, sel: seq<nat>): (rs: seq<NodeRecord>)
    requires forall j :: 0 <= j < |sel| ==> sel[j] < |t.nodes|
    ensures |rs| == |sel|
    ensures forall j :: 0 <= j < |sel| ==> rs[j] == RecordOf(t, sel[j])
  {
    if |sel| == 0 then []
    else NodeRecords(t, sel[..|sel| - 1]) + [RecordOf(t, sel[|sel| - 1])]
  }

  predicate InSelection(nodes: seq<Node>, l: Link)
    requires LinkIn(nodes, l)
  {
    nodes[l.fromNode].select && nodes[l.toNode].select
  }

  /** The link records of those of `links` that have both endpoints selected, in order. */
  function LinkRecords(t: Tree, links: seq<Link>): (rs: seq<LinkRecord>)
    requires ValidLinks(t.nodes, links)
    ensures |rs| <= |links|
    ensures (forall l :: l in links ==> !InSelection(t.nodes, l)) ==> rs == []
  {
    if |links| == 0 then []
    else
      var l := links[|links| - 1];
      assert l in links;
      var rs := LinkRecords(t, links[..|links| - 1]);
      if InSelection(t.nodes, l) then rs + [LinkRecordOf(t.nodes, l)] else rs
  }

  /** One more link adds its record when both of its endpoints are selected. */
  lemma LinkRecordsStep(t: Tree, links: seq<Link>)
    requires ValidLinks(t.nodes, links) && |links| > 0
    ensures ValidLinks(t.nodes, links[..|links| - 1])
    ensures var l := links[|links| - 1]; var init := LinkRecords(t, links[..|links| - 1]);
      && LinkIn(t.nodes, l)
      && LinkRecords(t, links) == if InSelection(t.nodes, l) then init + [LinkRecordOf(t.nodes, l)] else init
  {
    assert links[|links| - 1] in links;
    ValidLinksPrefix(t.nodes, links, |links| - 1);
  }

  /** The block export_nodes stores: a record per selected node in tree order, and at most one record per link. */
  function ExportBlock(t: Tree): (b: Block)
    requires Valid(t)
    ensures |b.nodes| == |Selection(t.nodes)| && |b.links| <= |t.links|
    ensures forall j :: 0 <= j < |b.nodes| ==> b.nodes[j] == RecordOf(t, Selection(t.nodes)[j])
  {
    Block(NodeRecords(t, Selection(t.nodes)), LinkRecords(t, t.links))
  }

  /** The document export_nodes starts from: a missing or unparsable file reads as empty. */
  function Loaded(file: FileState): (doc: Document)
    ensures file.Parsed? ==> doc == file.doc
    ensures !file.Parsed? ==> doc == map[]
  {
    if file.Parsed? then file.doc else map[]
  }

  /** The document export_nodes writes back. */
  function ExportDocument(t: Tree, file: FileState, blockName: string): (doc: Document)
    requires Valid(t)
    ensures blockName in doc && doc[blockName] == ExportBlock(t)
    ensures doc.Keys == Loaded(file).Keys + {blockName}
  {
    Loaded(file)[blockName := ExportBlock(t)]
  }

  /** The two loops that build one node's property map. */
  method NodeProperties(t: Tree, i: nat) returns (props: PropMap)
    requires i < |t.nodes|
    ensures props == RecordProperties(t, i)
    ensures UniqueKeys(props)
  {
    var direct := CollectDirect(t.nodes[i].props);
    props := AddDefaults(t, i, direct);
  }

  /** The loop over the node's reflected properties. */
  method CollectDirect(ps: seq<Property>) returns (props: PropMap)
    ensures props == DirectProperties(ps)
  {
    props := [];
    var p := 0;
    while p < |ps|
      invariant 0 <= p <= |ps|
      invariant props == DirectProperties(ps[..p])
    {
      var prop := ps[p];
      assert ps[..p + 1][..p] == ps[..p];
      if !prop.readonly && !StartsWith(prop.identifier, "bl_") {
        var val := Serialize(prop.value);
        if val != Null {
          props := Put(props, prop.identifier, val);
        }
      }
      p := p + 1;
    }
    assert ps[..p] == ps;
  }

  /** The loop over the node's inputs, storing the default of each unlinked one that has a default. */
  method AddDefaults(t: Tree, i: nat, direct: PropMap) returns (props: PropMap)
    requires i < |t.nodes|
    ensures props == PutAll(direct, DefaultEntries(t, i, |t.nodes[i].inputs|))
  {
    var inputs := t.nodes[i].inputs;
    props := direct;
    var s := 0;
    while s < |inputs|
      invariant 0 <= s <= |inputs|
      invariant props == PutAll(direct, DefaultEntries(t, i, s))
    {
      var socket := inputs[s];
      if socket.default.Some? && !IsLinked(t, i, s) {
        PutAllSnoc(direct, DefaultEntries(t, i, s), socket.identifier, Serialize(socket.default.value));
        props := Put(props, socket.identifier, Serialize(socket.default.value));
      }
      s := s + 1;
    }
  }

  /** The loop over the selected nodes: one record per selected node, in selection order. */
  method CollectNodes(t: Tree, selected: seq<nat>) returns (nodeData: seq<NodeRecord>)
    requires forall j :: 0 <= j < |selected| ==> selected[j] < |t.nodes|
    ensures nodeData == NodeRecords(t, selected)
  {
    nodeData := [];
    var j := 0;
    while j < |selected|
      invariant 0 <= j <= |selected|
      invariant nodeData == NodeRecords(t, selected[..j])
    {
      var node := t.nodes[selected[j]];
      var props := NodeProperties(t, selected[j]);
      assert selected[..j + 1][..j] == selected[..j];
      nodeData := nodeData + [NodeRecord(node.name, node.nodeType, [node.location.x, node.location.y], props)];
      j := j + 1;
    }
    assert selected[..j] == selected;
  }

  /** The loop over the tree's links: those whose two endpoints are in `selected`, by name. */
  method CollectLinks(t: Tree, selected: seq<nat>) returns (linkData: seq<LinkRecord>)
    requires Valid(t)
    requires forall i :: 0 <= i < |t.nodes| ==> (i in selected <==> t.nodes[i].select)
    ensures linkData == LinkRecords(t, t.links)
  {
    linkData := [];
    var k := 0;
    while k < |t.links|
      invariant 0 <= k <= |t.links|
      invariant ValidLinks(t.nodes, t.links[..k])
      invariant linkData == LinkRecords(t, t.links[..k])
    {
      var link := t.links[k];
      assert link in t.links;
      ValidLinksPrefix(t.nodes, t.links, k + 1);
      LinkRecordsStep(t, t.links[..k + 1]);
      assert t.links[..k + 1][..k] == t.links[..k];
      if link.fromNode in selected && link.toNode in selected {
        linkData := linkData + [LinkRecordOf(t.nodes, link)];
      }
      k := k + 1;
    }
    assert t.links[..k] == t.links;
  }

  /**
   * export_nodes on an in-memory document: records of the selected nodes in
   * tree order, the links inside the selection, and the block stored under
   * `blockName` with every other block left alone.
   */
  method ExportNodes(t: Tree, file: FileState, blockName: string) returns (doc: Document)
    requires Valid(t)
    ensures doc == ExportDocument(t, file, blockName)
  {
    doc := map[];
    if file.Parsed? {
      doc := file.doc;
    }
    var selected := Selection(t.nodes);
    SelectionMembers(t.nodes);
    var nodeData := CollectNodes(t, selected);
    var linkData := CollectLinks(t, selected);
    doc := doc[blockName := Block(nodeData, linkData)];
  }

  // Properties of the exported records

  /** Every entry of the direct map comes from a recorded property: writable, not `bl_`, and not None. */
  lemma {:induction false} DirectPropertiesSound(ps: seq<Property>, key: string, v: Value)
    requires Lookup(DirectProperties(ps), key) == Some(v)
    ensures v != Null
    ensures exists p :: p in ps && Exported(p) && p.identifier == key && v == Serialize(p.value)
    decreases |ps|
  {
    var init := ps[..|ps| - 1];
    var p := ps[|ps| - 1];
    PutSpec(DirectProperties(init), p.identifier, Serialize(p.value));
    if Exported(p) && p.identifier == key {
      assert p in ps;
    } else {
      DirectPropertiesSound(init, key, v);
      var q :| q in init && Exported(q) && q.identifier == key && v == Serialize(q.value);
      assert q in ps;
    }
  }

  /** With distinct identifiers, every recorded property is in the direct map with its serialised value. */
  lemma {:induction false} DirectPropertiesComplete(ps: seq<Property>, j: nat)
    requires j < |ps| && Exported(ps[j])
    requires forall a, b :: 0 <= a < b < |ps| ==> ps[a].identifier != ps[b].identifier
    ensures Lookup(DirectProperties(ps), ps[j].identifier) == Some(Serialize(ps[j].value))
    decreases |ps|
  {
    var init := ps[..|ps| - 1];
    var p := ps[|ps| - 1];
    PutSpec(DirectProperties(init), p.identifier, Serialize(p.value));
    if j < |ps| - 1 {
      assert init[j] == ps[j];
      DirectPropertiesComplete(init, j);
    }
  }

  /** Every default entry comes from an unlinked input that has a default. */
  lemma {:induction false} DefaultEntriesSound(t: Tree, i: nat, n: nat, e: (string, Value))
    requires i < |t.nodes| && n <= |t.nodes[i].inputs|
    requires e in DefaultEntries(t, i, n)
    ensures exists k :: 0 <= k < n && t.nodes[i].inputs[k].default.Some? && !IsLinked(t, i, k)
              && e == (t.nodes[i].inputs[k].identifier, Serialize(t.nodes[i].inputs[k].default.value))
  {
    var s := t.nodes[i].inputs[n - 1];
    if !(s.default.Some? && !IsLinked(t, i, n - 1) && e == (s.identifier, Serialize(s.default.value))) {
      DefaultEntriesSound(t, i, n - 1, e);
    }
  }

  /** Every unlinked input with a default among the first `n` gives an entry. */
  lemma {:induction false} DefaultEntriesComplete(t: Tree, i: nat, n: nat, k: nat)
    requires i < |t.nodes| && k < n <= |t.nodes[i].inputs|
    requires t.nodes[i].inputs[k].default.Some? && !IsLinked(t, i, k)
    ensures (t.nodes[i].inputs[k].identifier, Serialize(t.nodes[i].inputs[k].default.value)) in DefaultEntries(t, i, n)
  {
    if k < n - 1 {
      DefaultEntriesComplete(t, i, n - 1, k);
    }
  }

  /**
   * With distinct input identifiers, an unlinked input with a default is
   * recorded under its identifier with its serialised default, whatever a
   * direct property of that name held.
   */
  lemma RecordedDefaultWins(t: Tree, i: nat, k: nat)
    requires i < |t.nodes| && k < |t.nodes[i].inputs|
    requires t.nodes[i].inputs[k].default.Some? && !IsLinked(t, i, k)
    requires forall a, b :: 0 <= a < b < |t.nodes[i].inputs| ==> t.nodes[i].inputs[a].identifier != t.nodes[i].inputs[b].identifier
    ensures Lookup(RecordProperties(t, i), t.nodes[i].inputs[k].identifier)
         == Some(Serialize(t.nodes[i].inputs[k].default.value))
  {
    var inputs := t.nodes[i].inputs;
    var es := DefaultEntries(t, i, |inputs|);
    var key, v := inputs[k].identifier, Serialize(inputs[k].default.value);
    DefaultEntriesComplete(t, i, |inputs|, k);
    forall j | 0 <= j < |es| && es[j].0 == key ensures es[j].1 == v {
      DefaultEntriesSound(t, i, |inputs|, es[j]);
      var k' :| 0 <= k' < |inputs| && inputs[k'].default.Some? && !IsLinked(t, i, k')
        && es[j] == (inputs[k'].identifier, Serialize(inputs[k'].default.value));
      assert k' == k;
    }
    PutAllFinds(DirectProperties(t.nodes[i].props), es, key, v);
  }

  /** A key no unlinked defaulted input uses keeps the value the direct properties gave it. */
  lemma RecordKeepsDirect(t: Tree, i: nat, key: string)
    requires i < |t.nodes|
    requires forall k :: 0 <= k < |t.nodes[i].inputs| && t.nodes[i].inputs[k].default.Some? && !IsLinked(t, i, k)
               ==> t.nodes[i].inputs[k].identifier != key
    ensures Lookup(RecordProperties(t, i), key) == Lookup(DirectProperties(t.nodes[i].props), key)
  {
    var es := DefaultEntries(t, i, |t.nodes[i].inputs|);
    forall j | 0 <= j < |es| ensures es[j].0 != key {
      DefaultEntriesSound(t, i, |t.nodes[i].inputs|, es[j]);
    }
    PutAllKeepsOthers(DirectProperties(t.nodes[i].props), es, key);
  }

  /**
   * The record's property map: each entry is either the default of an
   * unlinked input with that identifier (written last, so it wins) or a
   * writable, non-`bl_` property whose value serialises to something.
   */
  lemma RecordPropertiesSound(t: Tree, i: nat, key: string, v: Value)
    requires i < |t.nodes|
    requires Lookup(RecordProperties(t, i), key) == Some(v)
    ensures (exists k :: 0 <= k < |t.nodes[i].inputs| && t.nodes[i].inputs[k].default.Some? && !IsLinked(t, i, k)
               && t.nodes[i].inputs[k].identifier == key && v == Serialize(t.nodes[i].inputs[k].default.value))
         || (v != Null && exists p :: p in t.nodes[i].props && Exported(p) && p.identifier == key && v == Serialize(p.value))
  {
    var direct := DirectProperties(t.nodes[i].props);
    var es := DefaultEntries(t, i, |t.nodes[i].inputs|);
    PutAllSound(direct, es, key, v);
    if Lookup(direct, key) == Some(v) {
      DirectPropertiesSound(t.nodes[i].props, key, v);
    } else {
      DefaultEntriesSound(t, i, |t.nodes[i].inputs|, (key, v));
    }
  }

  /** Exactly the selected nodes are exported, one record each, in tree order, with name and type copied. */
  lemma ExportedNodesAreTheSelection(t: Tree)
    requires Valid(t)
    ensures var rs := ExportBlock(t).nodes; var sel := Selection(t.nodes);
      && |rs| == |sel|
      && (forall j :: 0 <= j < |rs| ==>
            (sel[j] < |t.nodes| && t.nodes[sel[j]].select
             && rs[j].name == t.nodes[sel[j]].name && rs[j].nodeType == t.nodes[sel[j]].nodeType
             && rs[j].location == [t.nodes[sel[j]].location.x, t.nodes[sel[j]].location.y]))
      && (forall i :: 0 <= i < |t.nodes| && t.nodes[i].select ==> exists j :: 0 <= j < |rs| && sel[j] == i)
      && (forall a, b :: 0 <= a < b < |rs| ==> sel[a] < sel[b])
  {
    var sel := Selection(t.nodes);
    forall i | 0 <= i < |t.nodes| && t.nodes[i].select
      ensures exists j :: 0 <= j < |sel| && sel[j] == i
    {
      assert i in sel;
    }
  }

  /** Every exported link record is a tree link whose two endpoints are selected. */
  lemma {:induction false} ExportedLinksInsideSelection(t: Tree, links: seq<Link>, r: LinkRecord)
    requires ValidLinks(t.nodes, links)
    requires r in LinkRecords(t, links)
    ensures exists l :: l in links && LinkIn(t.nodes, l) && InSelection(t.nodes, l) && r == LinkRecordOf(t.nodes, l)
    decreases |links|
  {
    var l := links[|links| - 1];
    assert l in links;
    var init := links[..|links| - 1];
    assert ValidLinks(t.nodes, init) by {
      forall x | x in init ensures LinkIn(t.nodes, x) { assert x in links; }
    }
    if InSelection(t.nodes, l) && r == LinkRecordOf(t.nodes, l) {
    } else {
      ExportedLinksInsideSelection(t, init, r);
      var x :| x in init && LinkIn(t.nodes, x) && InSelection(t.nodes, x) && r == LinkRecordOf(t.nodes, x);
      assert x in links;
    }
  }

  /** The index of the link that record `p` was made from: a link inside the selection, with that name tuple. */
  function RecordSource(t: Tree, links: seq<Link>, p: nat): (a: nat)
    requires ValidLinks(t.nodes, links) && p < |LinkRecords(t, links)|
    ensures a < |links| && LinkIn(t.nodes, links[a]) && InSelection(t.nodes, links[a])
    ensures LinkRecords(t, links)[p] == LinkRecordOf(t.nodes, links[a])
    decreases |links|
  {
    LinkRecordsStep(t, links);
    var init := links[..|links| - 1];
    if p < |LinkRecords(t, init)| then
      var a := RecordSource(t, init, p);
      assert init[a] == links[a];
      a
    else |links| - 1
  }

  /** Link records keep the order of the links they come from. */
  lemma {:induction false} LinkRecordsInOrder(t: Tree, links: seq<Link>, p: nat, q: nat)
    requires ValidLinks(t.nodes, links) && p < q < |LinkRecords(t, links)|
    ensures RecordSource(t, links, p) < RecordSource(t, links, q)
    decreases |links|
  {
    LinkRecordsStep(t, links);
    var init := links[..|links| - 1];
    if q < |LinkRecords(t, init)| {
      LinkRecordsInOrder(t, init, p, q);
    }
  }

  /** Every tree link with both endpoints selected is exported. */
  lemma {:induction false} ExportedLinksComplete(t: Tree, links: seq<Link>, l: Link)
    requires ValidLinks(t.nodes, links)
    requires l in links && InSelection(t.nodes, l)
    ensures LinkRecordOf(t.nodes, l) in LinkRecords(t, links)
    decreases |links|
  {
    var init := links[..|links| - 1];
    assert ValidLinks(t.nodes, init) by {
      forall x | x in init ensures LinkIn(t.nodes, x) { assert x in links; }
    }
    if l != links[|links| - 1] {
      assert links == init + [links[|links| - 1]];
      assert l in init;
      ExportedLinksComplete(t, init, l);
    }
  }

  /** With unique node names, no exported link names a node outside the selection. */
  lemma NoExportedLinkNamesUnselected(t: Tree, r: LinkRecord, i: nat)
    requires Valid(t)
    requires forall a, b :: 0 <= a < b < |t.nodes| ==> t.nodes[a].name != t.nodes[b].name
    requires r in ExportBlock(t).links
    requires i < |t.nodes| && !t.nodes[i].select
    ensures r.fromNode != t.nodes[i].name && r.toNode != t.nodes[i].name
  {
    ExportedLinksInsideSelection(t, t.links, r);
    var l :| l in t.links && LinkIn(t.nodes, l) && InSelection(t.nodes, l) && r == LinkRecordOf(t.nodes, l);
    assert l.fromNode != i && l.toNode != i;
  }

  /** The export adds or replaces exactly one block: every other block of a readable file is kept as it was. */
  lemma ExportKeepsOtherBlocks(t: Tree, file: FileState, blockName: string)
    requires Valid(t)
    ensures var doc := ExportDocument(t, file, blockName);
      && doc.Keys == Loaded(file).Keys + {blockName}
      && doc[blockName] == ExportBlock(t)
      && (forall k :: k in Loaded(file) && k != blockName ==> doc[k] == Loaded(file)[k])
  {
  }

  /** Exporting again under the same name replaces the block: same key set, same document. */
  lemma ExportTwice(t: Tree, file: FileState, blockName: string)
    requires Valid(t)
    ensures var once := ExportDocument(t, file, blockName);
      && ExportDocument(t, Parsed(once), blockName) == once
      && |ExportDocument(t, Parsed(once), blockName).Keys| == |once.Keys|
  {
  }
}
