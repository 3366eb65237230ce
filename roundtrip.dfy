/**
 * Exporting a selection and importing the block it wrote into an empty tree
 * recreates the selected nodes and every link inside the selection, by name.
 */
module RoundTrip {
  import opened Wrappers
  import opened Codec
  import opened Graph
  import opened Records
  import opened Exporter
  import opened Importer

  /** The name tuples `(from_node, from_socket, to_node, to_socket)` of a tree's links. */
  function LinkNames(nodes: seq<Node>, links: seq<Link>): (rs: seq<LinkRecord>)
    requires ValidLinks(nodes, links)
    ensures |rs| == |links|
    ensures forall k :: 0 <= k < |links| ==> links[k] in links && rs[k] == LinkRecordOf(nodes, links[k])
  {
    seq(|links|, k requires 0 <= k < |links| => assert links[k] in links; LinkRecordOf(nodes, links[k]))
  }

  /** No two selected nodes share a name. */
  predicate UniqueSelectedNames(t: Tree) {
    forall a, b :: 0 <= a < b < |t.nodes| && t.nodes[a].select && t.nodes[b].select ==> t.nodes[a].name != t.nodes[b].name
  }

  /**
   * The host makes, for each selected node's type, a node of that type with
   * the same socket names, whose inputs take several links where the
   * original's do.
   */
  predicate FactoryMatches(host: Host, t: Tree) {
    forall i :: 0 <= i < |t.nodes| && t.nodes[i].select ==>
      && host.create(t.nodes[i].nodeType).Some?
      && host.create(t.nodes[i].nodeType).value.nodeType == t.nodes[i].nodeType
      && SocketNames(host.create(t.nodes[i].nodeType).value.outputs) == SocketNames(t.nodes[i].outputs)
      && SocketNames(host.create(t.nodes[i].nodeType).value.inputs) == SocketNames(t.nodes[i].inputs)
      && MultiInputs(host.create(t.nodes[i].nodeType).value.inputs) == MultiInputs(t.nodes[i].inputs)
  }

  /** The input a link's target gets on import, which looks inputs up by name: the first input of that name. */
  function ImportTarget(nodes: seq<Node>, l: Link): (k: nat)
    requires LinkIn(nodes, l)
    ensures k <= l.toSocket && nodes[l.toNode].inputs[k].name == nodes[l.toNode].inputs[l.toSocket].name
    ensures forall j :: 0 <= j < k ==> nodes[l.toNode].inputs[j].name != nodes[l.toNode].inputs[l.toSocket].name
  {
    FirstNamed(nodes[l.toNode].inputs, nodes[l.toNode].inputs[l.toSocket].name).value
  }

  /**
   * Two links inside the selection that end at inputs of the same name on
   * one node: the first input of that name takes several links, and the two
   * links give different records, so they differ in the source node's name
   * or the output's name. Otherwise the import joins both to that first
   * input, or both between the same two sockets, and the later `links.new`
   * replaces the earlier link.
   */
  predicate DistinctByName(t: Tree) {
    forall a, b ::
      (0 <= a < b < |t.links| && LinkIn(t.nodes, t.links[a]) && LinkIn(t.nodes, t.links[b])
       && InSelection(t.nodes, t.links[a]) && InSelection(t.nodes, t.links[b])
       && t.links[a].toNode == t.links[b].toNode
       && t.nodes[t.links[a].toNode].inputs[t.links[a].toSocket].name == t.nodes[t.links[b].toNode].inputs[t.links[b].toSocket].name)
      ==> && t.nodes[t.links[a].toNode].inputs[ImportTarget(t.nodes, t.links[a])].multiInput
          && LinkRecordOf(t.nodes, t.links[a]) != LinkRecordOf(t.nodes, t.links[b])
  }

  /** The node made for the a-th exported record carries the a-th selected node's name, type, location and socket names. */
  lemma ImportedMatchesSelected(t: Tree, host: Host, a: nat)
    requires Valid(t) && FactoryMatches(host, t)
    requires a < |Selection(t.nodes)|
    ensures var sel := Selection(t.nodes); var recs := ExportBlock(t).nodes;
      && AllBuildable(host, recs)
      && var n := Built(host, recs)[a]; var o := t.nodes[sel[a]];
      && n.name == o.name && n.nodeType == o.nodeType && n.location == o.location
      && SocketNames(n.outputs) == SocketNames(o.outputs) && SocketNames(n.inputs) == SocketNames(o.inputs)
      && MultiInputs(n.inputs) == MultiInputs(o.inputs)
  {
    var sel := Selection(t.nodes);
    var recs := ExportBlock(t).nodes;
    assert AllBuildable(host, recs) by {
      forall j | 0 <= j < |recs| ensures Buildable(host, recs[j]) {
        assert recs[j] == RecordOf(t, sel[j]);
      }
    }
    assert recs[a] == RecordOf(t, sel[a]);
    ImportedNodes(host, recs, a);
  }

  /** With unique selected names, the a-th record's name maps to the a-th created node. */
  lemma NodeMapFindsRecord(t: Tree, a: nat)
    requires Valid(t) && UniqueSelectedNames(t)
    requires a < |Selection(t.nodes)|
    ensures var recs := ExportBlock(t).nodes;
      recs[a].name in NodeMapOf(recs, 0) && NodeMapOf(recs, 0)[recs[a].name] == a
  {
    var recs := ExportBlock(t).nodes;
    forall b | a < b < |recs| ensures recs[b].name != recs[a].name {
      SelectedNamesDistinct(t, a, b);
    }
    NodeMapCoversRecords(recs, 0, a);
    NodeMapLastWins(recs, 0, recs[a].name);
  }

  /** With unique selected names, two records of one export have different names. */
  lemma SelectedNamesDistinct(t: Tree, a: nat, b: nat)
    requires Valid(t) && UniqueSelectedNames(t)
    requires a < b < |Selection(t.nodes)|
    ensures ExportBlock(t).nodes[a].name != ExportBlock(t).nodes[b].name
  {
    var sel := Selection(t.nodes);
    assert ExportBlock(t).nodes[a] == RecordOf(t, sel[a]) && ExportBlock(t).nodes[b] == RecordOf(t, sel[b]);
    assert sel[a] < sel[b];
  }

  /** Equal socket names: the k-th socket of each has the same name. */
  lemma SameSocketName(a: seq<Socket>, b: seq<Socket>, k: nat)
    requires SocketNames(a) == SocketNames(b) && k < |b|
    ensures k < |a| && a[k].name == b[k].name
  {
    assert SocketNames(a)[k] == SocketNames(b)[k];
  }

  /** A record whose names map to nodes with sockets of the recorded names resolves to a link with those names. */
  lemma ResolvesByName(nodes: seq<Node>, m: map<string, nat>, rec: LinkRecord, fs: nat, ts: nat)
    requires MapInto(m, nodes)
    requires rec.fromNode in m && nodes[m[rec.fromNode]].name == rec.fromNode
    requires rec.toNode in m && nodes[m[rec.toNode]].name == rec.toNode
    requires fs < |nodes[m[rec.fromNode]].outputs| && nodes[m[rec.fromNode]].outputs[fs].name == rec.fromSocket
    requires ts < |nodes[m[rec.toNode]].inputs| && nodes[m[rec.toNode]].inputs[ts].name == rec.toSocket
    ensures ResolveOne(nodes, m, rec).Some?
    ensures LinkRecordOf(nodes, ResolveOne(nodes, m, rec).value) == rec
  {
    ResolveOneByName(nodes, m, rec);
  }

  /**
   * A link inside the selection, exported and imported, resolves to a link
   * with the same name tuple, into the node made for its target and the input
   * `ImportTarget` names, which takes several links exactly when the
   * original's input of that index does.
   */
  lemma ExportedLinkResolves(t: Tree, host: Host, l: Link, recs: seq<NodeRecord>, nodes: seq<Node>, m: map<string, nat>)
    requires Valid(t) && UniqueSelectedNames(t) && FactoryMatches(host, t)
    requires recs == ExportBlock(t).nodes && AllBuildable(host, recs)
    requires nodes == Built(host, recs) && m == NodeMapOf(recs, 0)
    requires l in t.links && InSelection(t.nodes, l)
    ensures MapInto(m, nodes)
    ensures ResolveOne(nodes, m, LinkRecordOf(t.nodes, l)).Some?
    ensures LinkRecordOf(nodes, ResolveOne(nodes, m, LinkRecordOf(t.nodes, l)).value) == LinkRecordOf(t.nodes, l)
    ensures var r := ResolveOne(nodes, m, LinkRecordOf(t.nodes, l)).value;
      && r.toNode < |Selection(t.nodes)| && Selection(t.nodes)[r.toNode] == l.toNode
      && LinkIn(t.nodes, l) && r.toSocket == ImportTarget(t.nodes, l)
      && (EndsAtMulti(nodes, r) <==> t.nodes[l.toNode].inputs[ImportTarget(t.nodes, l)].multiInput)
  {
    var sel := Selection(t.nodes);
    assert LinkIn(t.nodes, l);
    assert l.fromNode in sel && l.toNode in sel;
    var a :| 0 <= a < |sel| && sel[a] == l.fromNode;
    var b :| 0 <= b < |sel| && sel[b] == l.toNode;
    ImportedMatchesSelected(t, host, a);
    ImportedMatchesSelected(t, host, b);
    NodeMapFindsRecord(t, a);
    NodeMapFindsRecord(t, b);
    var rec := LinkRecordOf(t.nodes, l);
    assert rec.fromNode == recs[a].name && rec.toNode == recs[b].name by {
      assert recs[a] == RecordOf(t, sel[a]) && recs[b] == RecordOf(t, sel[b]);
    }
    SameSocketName(nodes[a].outputs, t.nodes[l.fromNode].outputs, l.fromSocket);
    SameSocketName(nodes[b].inputs, t.nodes[l.toNode].inputs, l.toSocket);
    ResolvesByName(nodes, m, rec, l.fromSocket, l.toSocket);
    var r := ResolveOne(nodes, m, rec).value;
    ResolveOneByName(nodes, m, rec);
    FirstNamedUnique(nodes[b].inputs, rec.toSocket, r.toSocket);
    FirstNamedByNames(nodes[b].inputs, t.nodes[l.toNode].inputs, rec.toSocket);
    assert MultiInputs(nodes[b].inputs)[r.toSocket] == MultiInputs(t.nodes[l.toNode].inputs)[r.toSocket];
  }

  /** Each record resolves, in `nodes`, to a link carrying that record's own name tuple. */
  predicate ResolveToOwnNames(nodes: seq<Node>, m: map<string, nat>, recs: seq<LinkRecord>)
    requires MapInto(m, nodes)
  {
    forall k :: 0 <= k < |recs| ==>
      ResolveOne(nodes, m, recs[k]).Some? && LinkRecordOf(nodes, ResolveOne(nodes, m, recs[k]).value) == recs[k]
  }

  /** Records that each resolve to a link with their own name tuple come back as exactly those tuples. */
  lemma {:induction false} ResolvedNames(nodes: seq<Node>, m: map<string, nat>, recs: seq<LinkRecord>)
    requires MapInto(m, nodes) && ResolveToOwnNames(nodes, m, recs)
    ensures LinkNames(nodes, ResolveLinks(nodes, m, recs)) == recs
  {
    ResolveLinksAll(nodes, m, recs);
  }

  /**
   * Importing a block whose nodes can all be built into an empty tree: its
   * nodes, then a `links.new` for each of its resolved links in turn.
   */
  lemma ImportIntoEmpty(host: Host, doc: Document, blockName: string, block: Block)
    requires BlockOrEmpty(doc, blockName) == block && AllBuildable(host, block.nodes)
    ensures var nodes := Built(host, block.nodes);
      ImportTree(host, Parsed(doc), blockName, Tree([], [])) ==
        (Returned(true), Tree(nodes, LinkAll(nodes, [], ResolveLinks(nodes, NodeMapOf(block.nodes, 0), block.links))))
  {
    var nodes := Built(host, block.nodes);
    assert [] + nodes == nodes;
  }

  /** One exported link record resolves, in the imported nodes, to a link with that name tuple. */
  lemma ExportedRecordResolves(t: Tree, host: Host, r: LinkRecord, recs: seq<NodeRecord>, nodes: seq<Node>, m: map<string, nat>)
    requires Valid(t) && UniqueSelectedNames(t) && FactoryMatches(host, t)
    requires recs == ExportBlock(t).nodes && AllBuildable(host, recs)
    requires nodes == Built(host, recs) && m == NodeMapOf(recs, 0)
    requires r in LinkRecords(t, t.links)
    ensures MapInto(m, nodes)
    ensures ResolveOne(nodes, m, r).Some? && LinkRecordOf(nodes, ResolveOne(nodes, m, r).value) == r
  {
    ExportedLinksInsideSelection(t, t.links, r);
    var l :| l in t.links && LinkIn(t.nodes, l) && InSelection(t.nodes, l) && r == LinkRecordOf(t.nodes, l);
    ExportedLinkResolves(t, host, l, recs, nodes, m);
  }

  /** Every exported link record resolves, in the imported nodes, to a link with that name tuple. */
  lemma ExportedLinksResolve(t: Tree, host: Host)
    requires Valid(t) && UniqueSelectedNames(t) && FactoryMatches(host, t)
    requires AllBuildable(host, ExportBlock(t).nodes)
    ensures var recs := ExportBlock(t).nodes; var nodes := Built(host, recs); var m := NodeMapOf(recs, 0);
      && MapInto(m, nodes)
      && LinkNames(nodes, ResolveLinks(nodes, m, ExportBlock(t).links)) == LinkRecords(t, t.links)
  {
    var recs := ExportBlock(t).nodes;
    ExportedNamesBack(t, host, recs, Built(host, recs), NodeMapOf(recs, 0));
  }

  /** ExportedLinksResolve, over the imported nodes and name map given by name. */
  lemma ExportedNamesBack(t: Tree, host: Host, recs: seq<NodeRecord>, nodes: seq<Node>, m: map<string, nat>)
    requires Valid(t) && UniqueSelectedNames(t) && FactoryMatches(host, t)
    requires recs == ExportBlock(t).nodes && AllBuildable(host, recs)
    requires nodes == Built(host, recs) && m == NodeMapOf(recs, 0)
    ensures MapInto(m, nodes) && ExportBlock(t).links == LinkRecords(t, t.links)
    ensures LinkNames(nodes, ResolveLinks(nodes, m, LinkRecords(t, t.links))) == LinkRecords(t, t.links)
  {
    ExportedRecordsResolve(t, host, recs, nodes, m);
    ResolvedNames(nodes, m, LinkRecords(t, t.links));
  }

  /** Every exported link record resolves, in the imported nodes, to a link with its own name tuple. */
  lemma ExportedRecordsResolve(t: Tree, host: Host, recs: seq<NodeRecord>, nodes: seq<Node>, m: map<string, nat>)
    requires Valid(t) && UniqueSelectedNames(t) && FactoryMatches(host, t)
    requires recs == ExportBlock(t).nodes && AllBuildable(host, recs)
    requires nodes == Built(host, recs) && m == NodeMapOf(recs, 0)
    ensures MapInto(m, nodes) && ExportBlock(t).links == LinkRecords(t, t.links)
    ensures ResolveToOwnNames(nodes, m, LinkRecords(t, t.links))
  {
    var rs := LinkRecords(t, t.links);
    assert MapInto(m, nodes);
    forall k | 0 <= k < |rs|
      ensures ResolveOne(nodes, m, rs[k]).Some? && LinkRecordOf(nodes, ResolveOne(nodes, m, rs[k]).value) == rs[k]
    {
      ExportedRecordResolves(t, host, rs[k], recs, nodes, m);
    }
  }

  /**
   * When the selection's links are distinct by name, no resolved exported
   * link would be replaced by a later one: none shares a single-link input,
   * and none repeats another.
   */
  lemma ExportedCallsWithinLimits(t: Tree, host: Host, recs: seq<NodeRecord>, nodes: seq<Node>, m: map<string, nat>)
    requires Valid(t) && UniqueSelectedNames(t) && FactoryMatches(host, t) && DistinctByName(t)
    requires recs == ExportBlock(t).nodes && AllBuildable(host, recs)
    requires nodes == Built(host, recs) && m == NodeMapOf(recs, 0)
    ensures MapInto(m, nodes) && ExportBlock(t).links == LinkRecords(t, t.links)
    ensures WithinLimits(nodes, ResolveLinks(nodes, m, LinkRecords(t, t.links)))
  {
    ExportedRecordsResolve(t, host, recs, nodes, m);
    var rs := LinkRecords(t, t.links);
    var calls := ResolveLinks(nodes, m, rs);
    ResolveLinksAll(nodes, m, rs);
    forall i, j | 0 <= i < j < |calls| && calls[i].toNode == calls[j].toNode && calls[i].toSocket == calls[j].toSocket
      ensures !Replaces(nodes, calls[j], calls[i])
    {
      ExportedPairMulti(t, host, recs, nodes, m, i, j);
    }
  }

  /**
   * Exported records i < j that resolve into the same input: that input takes
   * several links and the two links differ, so the later does not replace
   * the earlier.
   */
  lemma ExportedPairMulti(t: Tree, host: Host, recs: seq<NodeRecord>, nodes: seq<Node>, m: map<string, nat>, i: nat, j: nat)
    requires Valid(t) && UniqueSelectedNames(t) && FactoryMatches(host, t) && DistinctByName(t)
    requires recs == ExportBlock(t).nodes && AllBuildable(host, recs)
    requires nodes == Built(host, recs) && m == NodeMapOf(recs, 0)
    requires i < j < |LinkRecords(t, t.links)|
    requires var r1, r2 := ResolveOne(nodes, m, LinkRecords(t, t.links)[i]), ResolveOne(nodes, m, LinkRecords(t, t.links)[j]);
      r1.Some? && r2.Some? && r1.value.toNode == r2.value.toNode && r1.value.toSocket == r2.value.toSocket
    ensures !Replaces(nodes, ResolveOne(nodes, m, LinkRecords(t, t.links)[j]).value, ResolveOne(nodes, m, LinkRecords(t, t.links)[i]).value)
  {
    LinkRecordsInOrder(t, t.links, i, j);
    var a, b := RecordSource(t, t.links, i), RecordSource(t, t.links, j);
    ExportedLinkResolves(t, host, t.links[a], recs, nodes, m);
    ExportedLinkResolves(t, host, t.links[b], recs, nodes, m);
    var r1, r2 := ResolveOne(nodes, m, LinkRecords(t, t.links)[i]).value, ResolveOne(nodes, m, LinkRecords(t, t.links)[j]).value;
    assert LinkRecordOf(nodes, r1) == LinkRecordOf(t.nodes, t.links[a]);
    assert LinkRecordOf(nodes, r2) == LinkRecordOf(t.nodes, t.links[b]);
    assert EndsAtMulti(nodes, r1) && EndsAtMulti(nodes, r2);
  }

  /**
   * Round trip: export a selection whose names are unique, then import the
   * block into an empty tree with a host that makes nodes with the same
   * socket names, where links into same-named inputs of one node share only a
   * multi-input and differ in their recorded names. The import succeeds, makes one node per selected node
   * (same name, type and location, in tree order), and its links have
   * exactly the name tuples of the original links inside the selection, in
   * the same order.
   */
  lemma ExportThenImport(t: Tree, host: Host, file: FileState, blockName: string)
    requires Valid(t) && UniqueSelectedNames(t) && FactoryMatches(host, t) && DistinctByName(t)
    ensures var result := ImportTree(host, Parsed(ExportDocument(t, file, blockName)), blockName, Tree([], []));
      var sel := Selection(t.nodes);
      && result.0 == Returned(true)
      && |result.1.nodes| == |sel|
      && (forall a :: 0 <= a < |sel| ==>
            && result.1.nodes[a].name == t.nodes[sel[a]].name
            && result.1.nodes[a].nodeType == t.nodes[sel[a]].nodeType
            && result.1.nodes[a].location == t.nodes[sel[a]].location)
      && ValidLinks(result.1.nodes, result.1.links)
      && LinkNames(result.1.nodes, result.1.links) == LinkRecords(t, t.links)
  {
    var sel := Selection(t.nodes);
    var block := ExportBlock(t);
    var recs := block.nodes;
    assert BlockOrEmpty(ExportDocument(t, file, blockName), blockName) == block;
    if |sel| > 0 {
      ImportedMatchesSelected(t, host, 0);
    } else {
      assert AllBuildable(host, recs);
    }
    var nodes := Built(host, recs);
    forall a | 0 <= a < |sel|
      ensures nodes[a].name == t.nodes[sel[a]].name && nodes[a].nodeType == t.nodes[sel[a]].nodeType
      ensures nodes[a].location == t.nodes[sel[a]].location
    {
      ImportedMatchesSelected(t, host, a);
    }
    ImportIntoEmpty(host, ExportDocument(t, file, blockName), blockName, block);
    ExportedLinksResolve(t, host);
    ExportedLinksKept(t, host);
  }

  /** Under the same conditions every exported link survives the import's `links.new` calls. */
  lemma ExportedLinksKept(t: Tree, host: Host)
    requires Valid(t) && UniqueSelectedNames(t) && FactoryMatches(host, t) && DistinctByName(t)
    requires AllBuildable(host, ExportBlock(t).nodes)
    ensures var recs := ExportBlock(t).nodes; var nodes := Built(host, recs); var m := NodeMapOf(recs, 0);
      && MapInto(m, nodes)
      && LinkAll(nodes, [], ResolveLinks(nodes, m, ExportBlock(t).links)) == ResolveLinks(nodes, m, ExportBlock(t).links)
  {
    var recs := ExportBlock(t).nodes;
    ExportedCallsKept(t, host, recs, Built(host, recs), NodeMapOf(recs, 0));
  }

  /** ExportedLinksKept, over the imported nodes and name map given by name. */
  lemma ExportedCallsKept(t: Tree, host: Host, recs: seq<NodeRecord>, nodes: seq<Node>, m: map<string, nat>)
    requires Valid(t) && UniqueSelectedNames(t) && FactoryMatches(host, t) && DistinctByName(t)
    requires recs == ExportBlock(t).nodes && AllBuildable(host, recs)
    requires nodes == Built(host, recs) && m == NodeMapOf(recs, 0)
    ensures MapInto(m, nodes)
    ensures LinkAll(nodes, [], ResolveLinks(nodes, m, ExportBlock(t).links)) == ResolveLinks(nodes, m, ExportBlock(t).links)
  {
    ExportedCallsWithinLimits(t, host, recs, nodes, m);
    LinkAllKeepsAll(nodes, ResolveLinks(nodes, m, LinkRecords(t, t.links)));
  }
}
