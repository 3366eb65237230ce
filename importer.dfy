/**
 * import_nodes: one new node per record of a block, each configured from its
 * recorded properties, then the recorded links recreated between sockets
 * found by name.
 */
module Importer {
  import opened Wrappers
  import opened Codec
  import opened Graph
  import opened Records

  /**
   * What the host supplies: `create` is `nodes.new(type=...)` (None when the
   * type identifier is unknown and the call raises), `assign` is an attribute
   * or `default_value` assignment given the current and the incoming value
   * (the value stored, or None when the assignment raises).
   */
  datatype Host = Host(create: string -> Option<Node>, assign: (HostValue, HostValue) -> Option<HostValue>)

  /**
   * Why import_nodes raised: the file is not JSON, `nodes.new` does not know a
   * node type, or a recorded location is not two numbers.
   */
  datatype ImportError = MalformedJson | UnknownNodeType(nodeType: string) | BadLocation(location: seq<real>)

  /** What import_nodes does: return a boolean, or raise. */
  datatype ImportResult = Returned(found: bool) | Raised(error: ImportError)

  /** The node tree the import grows: `node_tree.nodes` and `node_tree.links`. */
  class NodeTree {
    var nodes: seq<Node>
    var links: seq<Link>

    function Snapshot(): Tree
      reads this
    {
      Tree(nodes, links)
    }

    predicate Valid()
      reads this
    {
      ValidLinks(nodes, links)
    }

    /** Appends a node made by the host's factory. */
    method AddNode(n: Node) returns (index: nat)
      requires Valid()
      modifies this
      ensures Valid()
      ensures nodes == old(nodes) + [n] && links == old(links)
      ensures index == |old(nodes)| && index < |nodes|
    {
      ValidLinksGrow(nodes, [n], links);
      nodes := nodes + [n];
      index := |nodes| - 1;
    }

    /**
     * `node_tree.links.new(from_socket, to_socket)`: the new link comes last,
     * replacing the link into its input unless that input takes several.
     */
    method NewLink(l: Link)
      requires Valid() && LinkIn(nodes, l)
      modifies this
      ensures Valid()
      ensures nodes == old(nodes) && links == Connect(nodes, old(links), l)
    {
      ConnectReplaces(nodes, links, l);
      links := Connect(nodes, links, l);
    }
  }

  lemma ValidLinksGrow(nodes: seq<Node>, extra: seq<Node>, links: seq<Link>)
    requires ValidLinks(nodes, links)
    ensures ValidLinks(nodes + extra, links)
  {
    forall l | l in links ensures LinkIn(nodes + extra, l) {
      assert LinkIn(nodes, l);
    }
  }

  // Restoring one recorded property

  /** restore_value onto one reflected property; a write that raises leaves it as it was. */
  function RestoreValue(host: Host, p: Property, v: Value): (q: Property)
    ensures q.identifier == p.identifier && q.readonly == p.readonly
    ensures p.readonly || Rewrap(p.value, v).None? ==> q == p
    ensures !p.readonly && Rewrap(p.value, v).Some? ==>
      var written := host.assign(p.value, Rewrap(p.value, v).value);
      (written.Some? ==> q.value == written.value) && (written.None? ==> q == p)
  {
    if p.readonly then p
    else match Rewrap(p.value, v)
      case None => p
      case Some(x) =>
        match host.assign(p.value, x)
        case None => p
        case Some(y) => p.(value := y)
  }

  /** Where `hasattr(node, key)` finds the attribute: the first property with that identifier. */
  function AttributeIndex(ps: seq<Property>, key: string): (r: Option<nat>)
    ensures r.Some? ==> r.value < |ps| && ps[r.value].identifier == key
    ensures r.Some? ==> forall k :: 0 <= k < r.value ==> ps[k].identifier != key
    ensures r.None? <==> forall k :: 0 <= k < |ps| ==> ps[k].identifier != key
  {
    if |ps| == 0 then None
    else if ps[0].identifier == key then Some(0)
    else match AttributeIndex(ps[1..], key)
      case None => None
      case Some(k) => Some(k + 1)
  }

  /** `hasattr(node, key)`, on the property list. */
  predicate HasAttribute(n: Node, key: string)
    ensures HasAttribute(n, key) <==> exists k :: 0 <= k < |n.props| && n.props[k].identifier == key
  {
    AttributeIndex(n.props, key).Some?
  }

  function Identifiers(ps: seq<Property>): (ids: seq<string>)
    ensures |ids| == |ps|
    ensures forall k :: 0 <= k < |ps| ==> ids[k] == ps[k].identifier
  {
    seq(|ps|, k requires 0 <= k < |ps| => ps[k].identifier)
  }

  /** Which inputs have a `default_value`, in order. */
  function Defaulted(sockets: seq<Socket>): (d: seq<bool>)
    ensures |d| == |sockets|
    ensures forall k :: 0 <= k < |sockets| ==> d[k] == sockets[k].default.Some?
  {
    seq(|sockets|, k requires 0 <= k < |sockets| => sockets[k].default.Some?)
  }

  /** Property lists with the same identifiers are searched alike. */
  lemma AttributeIndexByIds(a: seq<Property>, b: seq<Property>, key: string)
    requires Identifiers(a) == Identifiers(b)
    ensures AttributeIndex(a, key) == AttributeIndex(b, key)
  {
    assert forall k :: 0 <= k < |a| ==> a[k].identifier == b[k].identifier by {
      forall k | 0 <= k < |a| ensures a[k].identifier == b[k].identifier {
        assert Identifiers(a)[k] == Identifiers(b)[k];
      }
    }
    match AttributeIndex(a, key)
    case None =>
    case Some(k) =>
      var r := AttributeIndex(b, key);
      assert r.Some?;
      assert !(r.value < k);
      assert !(k < r.value);
  }

  /** `sock.default_value = value`: the raw loaded value, bypassing restore_value. */
  function WriteDefault(host: Host, s: Socket, v: Value): (r: Socket)
    requires s.default.Some?
    ensures r.name == s.name && r.identifier == s.identifier && r.multiInput == s.multiInput && r.default.Some?
    ensures host.assign(s.default.value, FromJson(v)).Some? ==> r.default == host.assign(s.default.value, FromJson(v))
    ensures host.assign(s.default.value, FromJson(v)).None? ==> r == s
  {
    match host.assign(s.default.value, FromJson(v))
    case None => s
    case Some(y) => s.(default := Some(y))
  }

  /** What a configured node keeps from the node it was configured from. */
  predicate SameShape(a: Node, b: Node) {
    && a.name == b.name && a.nodeType == b.nodeType && a.select == b.select && a.location == b.location
    && a.outputs == b.outputs && SocketNames(a.inputs) == SocketNames(b.inputs)
    && Defaulted(a.inputs) == Defaulted(b.inputs) && MultiInputs(a.inputs) == MultiInputs(b.inputs)
    && Identifiers(a.props) == Identifiers(b.props)
  }

  /**
   * One recorded property: to the node attribute of that identifier when the
   * node has one, otherwise to the `default_value` of the first input socket
   * of that name, if it has one; otherwise nowhere.
   */
  function ApplyProperty(host: Host, n: Node, key: string, v: Value): (m: Node)
    ensures SameShape(n, m)
    ensures HasAttribute(n, key) ==>
      var k := AttributeIndex(n.props, key).value;
      && m.inputs == n.inputs && |m.props| == |n.props|
      && m.props[k] == RestoreValue(host, n.props[k], v)
      && forall i :: 0 <= i < |n.props| && i != k ==> m.props[i] == n.props[i]
    ensures !HasAttribute(n, key) ==> m.props == n.props && |m.inputs| == |n.inputs|
    ensures !HasAttribute(n, key) && FirstNamed(n.inputs, key).Some? && n.inputs[FirstNamed(n.inputs, key).value].default.Some? ==>
      var j := FirstNamed(n.inputs, key).value;
      && m.inputs[j] == WriteDefault(host, n.inputs[j], v)
      && forall i :: 0 <= i < |n.inputs| && i != j ==> m.inputs[i] == n.inputs[i]
    ensures !HasAttribute(n, key) && (FirstNamed(n.inputs, key).None? || n.inputs[FirstNamed(n.inputs, key).value].default.None?) ==> m == n
  {
    match AttributeIndex(n.props, key)
    case Some(k) =>
      var props := n.props[k := RestoreValue(host, n.props[k], v)];
      assert Identifiers(props) == Identifiers(n.props);
      n.(props := props)
    case None =>
      match FirstNamed(n.inputs, key)
      case Some(j) =>
        if n.inputs[j].default.Some? then
          var inputs := n.inputs[j := WriteDefault(host, n.inputs[j], v)];
          assert SocketNames(inputs) == SocketNames(n.inputs);
          assert Defaulted(inputs) == Defaulted(n.inputs);
          assert MultiInputs(inputs) == MultiInputs(n.inputs);
          n.(inputs := inputs)
        else n
      case None => n
  }

  /** The loop over a record's `properties.items()`, in order. */
  function ApplyProperties(host: Host, n: Node, props: PropMap): (m: Node)
    ensures SameShape(n, m)
    decreases |props|
  {
    if |props| == 0 then n
    else
      var entry := props[|props| - 1];
      ApplyProperty(host, ApplyProperties(host, n, props[..|props| - 1]), entry.0, entry.1)
  }

  /** A freshly created node, named, placed and configured from its record, whose location is two numbers. */
  function ConfigureNode(host: Host, created: Node, rec: NodeRecord): (n: Node)
    requires |rec.location| == 2
    ensures n.name == rec.name && n.location == Location(rec.location[0], rec.location[1])
    ensures n.nodeType == created.nodeType && n.select == created.select && n.outputs == created.outputs
    ensures SocketNames(n.inputs) == SocketNames(created.inputs) && MultiInputs(n.inputs) == MultiInputs(created.inputs)
  {
    ApplyProperties(host, Placed(created, rec), rec.properties)
  }

  /** `new_node.name, new_node.location = ...` for a location of two numbers. */
  function Placed(created: Node, rec: NodeRecord): (n: Node)
    requires |rec.location| == 2
  {
    created.(name := rec.name, location := Location(rec.location[0], rec.location[1]))
  }

  /** A writable property handed its own serialisation gets the same value back, from a host that stores what it is given. */
  lemma RestoreSerialized(host: Host, p: Property)
    requires !p.readonly && host.assign(p.value, p.value) == Some(p.value)
    requires IsPrimitive(p.value) || p.value.HSequence? || (p.value.HVector? && |p.value.coords| >= 2) || (p.value.HEuler? && |p.value.angles| == 3)
    ensures RestoreValue(host, p, Serialize(p.value)) == p
  {
    if IsPrimitive(p.value) || p.value.HSequence? {
      PrimitivesAndSequencesRoundTrip(p.value);
    } else {
      VectorAndEulerRestore(p.value, p.value);
    }
  }

  /** The entry for a key the node has goes to the first property of that identifier, which stays the first. */
  lemma EntryReachesAttribute(host: Host, n: Node, key: string, v: Value, k: nat)
    requires AttributeIndex(n.props, key) == Some(k)
    ensures var m := ApplyProperty(host, n, key, v);
      AttributeIndex(m.props, key) == Some(k) && m.props[k] == RestoreValue(host, n.props[k], v)
  {
    AttributeIndexByIds(n.props, ApplyProperty(host, n, key, v).props, key);
  }

  /** An entry for another key leaves the first property of identifier `key` where and as it was. */
  lemma OtherKeyKeepsAttribute(host: Host, n: Node, key: string, other: string, v: Value, k: nat)
    requires AttributeIndex(n.props, key) == Some(k) && other != key
    ensures var m := ApplyProperty(host, n, other, v);
      AttributeIndex(m.props, key) == Some(k) && m.props[k] == n.props[k]
  {
    AttributeIndexByIds(n.props, ApplyProperty(host, n, other, v).props, key);
  }

  /** The entry for a key the node lacks goes to the default of the first input of that name. */
  lemma EntryReachesDefault(host: Host, n: Node, key: string, v: Value, j: nat)
    requires !HasAttribute(n, key) && FirstNamed(n.inputs, key) == Some(j) && n.inputs[j].default.Some?
    ensures var m := ApplyProperty(host, n, key, v);
      FirstNamed(m.inputs, key) == Some(j) && m.inputs[j] == WriteDefault(host, n.inputs[j], v) && m.inputs[j].default.Some?
  {
    FirstNamedByNames(n.inputs, ApplyProperty(host, n, key, v).inputs, key);
  }

  /** An entry for another key leaves the first input named `key` where and as it was. */
  lemma OtherKeyKeepsDefault(host: Host, n: Node, key: string, other: string, v: Value, j: nat)
    requires FirstNamed(n.inputs, key) == Some(j) && other != key
    ensures var m := ApplyProperty(host, n, other, v);
      FirstNamed(m.inputs, key) == Some(j) && m.inputs[j] == n.inputs[j]
  {
    var m := ApplyProperty(host, n, other, v);
    FirstNamedByNames(n.inputs, m.inputs, key);
  }

  /** Restoring entries keeps a key routed to the same input, and that input keeps a default. */
  lemma InputStillDefaulted(host: Host, n: Node, props: PropMap, key: string, j: nat)
    requires !HasAttribute(n, key) && FirstNamed(n.inputs, key) == Some(j) && n.inputs[j].default.Some?
    ensures var mid := ApplyProperties(host, n, props);
      !HasAttribute(mid, key) && FirstNamed(mid.inputs, key) == Some(j) && mid.inputs[j].default.Some?
  {
    var mid := ApplyProperties(host, n, props);
    AttributeIndexByIds(n.props, mid.props, key);
    FirstNamedByNames(n.inputs, mid.inputs, key);
    assert Defaulted(mid.inputs)[j] == Defaulted(n.inputs)[j];
  }

  /**
   * In a map with unique keys, as the exporter writes, the entry for a key the
   * node has as an attribute is restored onto that attribute as it stood when
   * the entry was reached, and no later entry touches it.
   */
  lemma {:induction false} RecordedAttributeLands(host: Host, n: Node, props: PropMap, e: nat)
    requires UniqueKeys(props) && e < |props| && HasAttribute(n, props[e].0)
    ensures var k := AttributeIndex(n.props, props[e].0).value;
      var before := ApplyProperties(host, n, props[..e]);
      var after := ApplyProperties(host, n, props);
      && AttributeIndex(after.props, props[e].0) == Some(k)
      && k < |before.props|
      && after.props[k] == RestoreValue(host, before.props[k], props[e].1)
    decreases |props|
  {
    var key := props[e].0;
    var k := AttributeIndex(n.props, key).value;
    var init := props[..|props| - 1];
    var last := props[|props| - 1];
    var mid := ApplyProperties(host, n, init);
    assert ApplyProperties(host, n, props) == ApplyProperty(host, mid, last.0, last.1);
    if e == |props| - 1 {
      assert init == props[..e];
      AttributeIndexByIds(n.props, mid.props, key);
      EntryReachesAttribute(host, mid, key, last.1, k);
    } else {
      UniqueKeysInit(props);
      assert init[..e] == props[..e] && init[e] == props[e];
      RecordedAttributeLands(host, n, init, e);
      OtherKeyKeepsAttribute(host, mid, key, last.0, last.1, k);
    }
  }

  /**
   * In a map with unique keys, the entry for a key the node lacks as an
   * attribute is written to the default of the first input of that name, as
   * that input stood when the entry was reached, and no later entry touches it.
   */
  lemma {:induction false} RecordedDefaultLands(host: Host, n: Node, props: PropMap, e: nat)
    requires UniqueKeys(props) && e < |props| && !HasAttribute(n, props[e].0)
    requires FirstNamed(n.inputs, props[e].0).Some? && n.inputs[FirstNamed(n.inputs, props[e].0).value].default.Some?
    ensures var j := FirstNamed(n.inputs, props[e].0).value;
      var before := ApplyProperties(host, n, props[..e]);
      var after := ApplyProperties(host, n, props);
      && FirstNamed(after.inputs, props[e].0) == Some(j)
      && j < |before.inputs| && before.inputs[j].default.Some?
      && after.inputs[j] == WriteDefault(host, before.inputs[j], props[e].1)
    decreases |props|
  {
    var key := props[e].0;
    var j := FirstNamed(n.inputs, key).value;
    var init := props[..|props| - 1];
    var last := props[|props| - 1];
    var mid := ApplyProperties(host, n, init);
    assert ApplyProperties(host, n, props) == ApplyProperty(host, mid, last.0, last.1);
    if e == |props| - 1 {
      assert init == props[..e];
      InputStillDefaulted(host, n, init, key, j);
      EntryReachesDefault(host, mid, key, last.1, j);
    } else {
      UniqueKeysInit(props);
      assert init[..e] == props[..e] && init[e] == props[e];
      RecordedDefaultLands(host, n, init, e);
      OtherKeyKeepsDefault(host, mid, key, last.0, last.1, j);
    }
  }

  /** The record's node can be made and placed: the host knows its type, and its location is two numbers. */
  predicate Buildable(host: Host, rec: NodeRecord) {
    host.create(rec.nodeType).Some? && |rec.location| == 2
  }

  predicate AllBuildable(host: Host, recs: seq<NodeRecord>) {
    forall j :: 0 <= j < |recs| ==> Buildable(host, recs[j])
  }

  /** The nodes the import creates for `recs`, one per record, in record order. */
  function Built(host: Host, recs: seq<NodeRecord>): (ns: seq<Node>)
    requires AllBuildable(host, recs)
    ensures |ns| == |recs|
  {
    if |recs| == 0 then []
    else
      var init := recs[..|recs| - 1];
      assert forall j :: 0 <= j < |init| ==> init[j] == recs[j];
      var last := recs[|recs| - 1];
      Built(host, init) + [ConfigureNode(host, host.create(last.nodeType).value, last)]
  }

  /** The j-th node built is the j-th record's node, made by the host and configured from the record. */
  lemma {:induction false} BuiltAt(host: Host, recs: seq<NodeRecord>, j: nat)
    requires AllBuildable(host, recs) && j < |recs|
    ensures Built(host, recs)[j] == ConfigureNode(host, host.create(recs[j].nodeType).value, recs[j])
    decreases |recs|
  {
    var init := recs[..|recs| - 1];
    if j < |recs| - 1 {
      assert forall k :: 0 <= k < |init| ==> init[k] == recs[k];
      BuiltAt(host, init, j);
    }
  }

  /** The first record whose node cannot be made or placed. */
  function FirstFailure(host: Host, recs: seq<NodeRecord>): (r: Option<nat>)
    ensures r.None? <==> AllBuildable(host, recs)
    ensures r.Some? ==> r.value < |recs| && !Buildable(host, recs[r.value])
    ensures r.Some? ==> forall j :: 0 <= j < r.value ==> Buildable(host, recs[j])
  {
    if |recs| == 0 then None
    else if !Buildable(host, recs[0]) then Some(0)
    else match FirstFailure(host, recs[1..])
      case None => None
      case Some(k) => Some(k + 1)
  }

  lemma FirstFailureAt(host: Host, recs: seq<NodeRecord>, i: nat)
    requires i < |recs| && !Buildable(host, recs[i])
    requires forall j :: 0 <= j < i ==> Buildable(host, recs[j])
    ensures FirstFailure(host, recs) == Some(i)
  {
    var r := FirstFailure(host, recs);
    assert r.Some?;
    assert !(r.value < i);
    assert !(i < r.value);
  }

  /**
   * Where the record loop stops on a record it cannot build: `nodes.new`
   * raises for an unknown type and leaves no node; otherwise the node is in
   * the tree and named when the location assignment raises.
   */
  function Abort(host: Host, rec: NodeRecord): (ImportError, seq<Node>)
    requires !Buildable(host, rec)
  {
    match host.create(rec.nodeType)
    case None => (UnknownNodeType(rec.nodeType), [])
    case Some(created) => (BadLocation(rec.location), [created.(name := rec.name)])
  }

  /** `node_map` after the record loop: each record's name to the index its node got. */
  function NodeMapOf(recs: seq<NodeRecord>, base: nat): (m: map<string, nat>)
    ensures forall name :: name in m ==> base <= m[name] < base + |recs|
  {
    if |recs| == 0 then map[]
    else NodeMapOf(recs[..|recs| - 1], base)[recs[|recs| - 1].name := base + |recs| - 1]
  }

  /** Every recorded name is mapped. */
  lemma {:induction false} NodeMapCoversRecords(recs: seq<NodeRecord>, base: nat, j: nat)
    requires j < |recs|
    ensures recs[j].name in NodeMapOf(recs, base)
    decreases |recs|
  {
    if j < |recs| - 1 {
      NodeMapCoversRecords(recs[..|recs| - 1], base, j);
    }
  }

  /** A name maps to the node made for its LAST record: a later duplicate overwrites the earlier entry. */
  lemma {:induction false} NodeMapLastWins(recs: seq<NodeRecord>, base: nat, name: string)
    requires name in NodeMapOf(recs, base)
    ensures recs[NodeMapOf(recs, base)[name] - base].name == name
    ensures forall j :: NodeMapOf(recs, base)[name] - base < j < |recs| ==> recs[j].name != name
    decreases |recs|
  {
    var init := recs[..|recs| - 1];
    if name != recs[|recs| - 1].name {
      NodeMapLastWins(init, base, name);
      assert forall j :: 0 <= j < |init| ==> init[j] == recs[j];
    }
  }

  predicate MapInto(m: map<string, nat>, nodes: seq<Node>) {
    forall name :: name in m ==> m[name] < |nodes|
  }

  /** One link record: the link between the first sockets of the recorded names on the mapped nodes, if any. */
  function ResolveOne(nodes: seq<Node>, m: map<string, nat>, rec: LinkRecord): (r: Option<Link>)
    requires MapInto(m, nodes)
    ensures r.Some? ==> LinkIn(nodes, r.value)
  {
    if rec.fromNode in m && rec.toNode in m then
      var fn, tn := m[rec.fromNode], m[rec.toNode];
      match (FirstNamed(nodes[fn].outputs, rec.fromSocket), FirstNamed(nodes[tn].inputs, rec.toSocket))
      case (Some(fs), Some(ts)) => Some(Link(fn, fs, tn, ts))
      case _ => None
    else None
  }

  /**
   * A record resolves exactly when both node names are in `m`, the source
   * node has an output and the target node an input of the recorded names;
   * the first such sockets are joined.
   */
  lemma ResolveOneByName(nodes: seq<Node>, m: map<string, nat>, rec: LinkRecord)
    requires MapInto(m, nodes)
    ensures var r := ResolveOne(nodes, m, rec);
      && (r.Some? <==>
           && rec.fromNode in m && rec.toNode in m
           && (exists s :: 0 <= s < |nodes[m[rec.fromNode]].outputs| && nodes[m[rec.fromNode]].outputs[s].name == rec.fromSocket)
           && (exists s :: 0 <= s < |nodes[m[rec.toNode]].inputs| && nodes[m[rec.toNode]].inputs[s].name == rec.toSocket))
      && (r.Some? ==>
           && r.value.fromNode == m[rec.fromNode] && r.value.toNode == m[rec.toNode]
           && nodes[r.value.fromNode].outputs[r.value.fromSocket].name == rec.fromSocket
           && nodes[r.value.toNode].inputs[r.value.toSocket].name == rec.toSocket
           && (forall s :: 0 <= s < r.value.fromSocket ==> nodes[r.value.fromNode].outputs[s].name != rec.fromSocket)
           && (forall s :: 0 <= s < r.value.toSocket ==> nodes[r.value.toNode].inputs[s].name != rec.toSocket))
  {
  }

  /** The links the link loop adds for `recs`, in record order. */
  function ResolveLinks(nodes: seq<Node>, m: map<string, nat>, recs: seq<LinkRecord>): (ls: seq<Link>)
    requires MapInto(m, nodes)
    ensures ValidLinks(nodes, ls)
    ensures |ls| <= |recs|
  {
    if |recs| == 0 then []
    else
      var ls := ResolveLinks(nodes, m, recs[..|recs| - 1]);
      match ResolveOne(nodes, m, recs[|recs| - 1])
      case Some(l) => ls + [l]
      case None => ls
  }

  /** The block import_nodes reads: a missing block name reads as an empty block. */
  function BlockOrEmpty(doc: Document, blockName: string): (b: Block)
    ensures blockName in doc ==> b == doc[blockName]
    ensures blockName !in doc ==> b.nodes == [] && b.links == []
  {
    if blockName in doc then doc[blockName] else Block([], [])
  }

  /** What import_nodes returns (or raises) and the tree it leaves, from the tree it started with. */
  function ImportTree(host: Host, file: FileState, blockName: string, before: Tree): (res: (ImportResult, Tree))
    requires Valid(before)
    ensures before.nodes <= res.1.nodes && before.links <= res.1.links
    ensures res.0 == Returned(false) <==> file.Absent?
    ensures res.0 == Returned(true) <==> file.Parsed? && AllBuildable(host, BlockOrEmpty(file.doc, blockName).nodes)
    ensures res.0.Raised? ==> res.1.links == before.links
    ensures !file.Parsed? ==> res.1 == before
  {
    match file
    case Absent => (Returned(false), before)
    case Unparsable => (Raised(MalformedJson), before)
    case Parsed(doc) =>
      var data := BlockOrEmpty(doc, blockName);
      match FirstFailure(host, data.nodes)
      case Some(f) =>
        var (error, stranded) := Abort(host, data.nodes[f]);
        (Raised(error), Tree(before.nodes + Built(host, data.nodes[..f]) + stranded, before.links))
      case None =>
        var nodes := before.nodes + Built(host, data.nodes);
        var m := NodeMapOf(data.nodes, |before.nodes|);
        ImportedLinksFollow(before, nodes, data.nodes, data.links);
        (Returned(true), Tree(nodes, LinkAll(nodes, before.links, ResolveLinks(nodes, m, data.links))))
  }

  /** Every link resolved through `m` ends at a node `m` maps some name to. */
  lemma ResolveLinksEndIn(nodes: seq<Node>, m: map<string, nat>, recs: seq<LinkRecord>, l: Link)
    requires MapInto(m, nodes) && l in ResolveLinks(nodes, m, recs)
    ensures exists name :: name in m && m[name] == l.toNode
  {
    ResolveLinksSound(nodes, m, recs, l);
    var k :| 0 <= k < |recs| && ResolveOne(nodes, m, recs[k]) == Some(l);
    ResolveOneByName(nodes, m, recs[k]);
  }

  /** The links an import makes end at its new nodes, so the tree's own links stay, in front of them. */
  lemma ImportedLinksFollow(before: Tree, nodes: seq<Node>, recs: seq<NodeRecord>, links: seq<LinkRecord>)
    requires Valid(before) && |nodes| == |before.nodes| + |recs|
    ensures var calls := ResolveLinks(nodes, NodeMapOf(recs, |before.nodes|), links);
      LinkAll(nodes, before.links, calls) == before.links + LinkAll(nodes, [], calls)
  {
    var m := NodeMapOf(recs, |before.nodes|);
    var calls := ResolveLinks(nodes, m, links);
    forall x, c | x in before.links && c in calls ensures x.toNode != c.toNode {
      assert LinkIn(before.nodes, x);
      ResolveLinksEndIn(nodes, m, links, c);
    }
    LinkAllAfter(nodes, before.links, calls);
  }

  // Properties of the import

  /** A missing file: import_nodes returns false and the tree is untouched. */
  lemma ImportWithoutFile(host: Host, blockName: string, before: Tree)
    requires Valid(before)
    ensures ImportTree(host, Absent, blockName, before) == (Returned(false), before)
  {
  }

  /** A block name not in the document: no nodes, no links, and still true. */
  lemma ImportMissingBlock(host: Host, doc: Document, blockName: string, before: Tree)
    requires Valid(before) && blockName !in doc
    ensures ImportTree(host, Parsed(doc), blockName, before) == (Returned(true), before)
  {
    assert Built(host, []) == [];
    assert ResolveLinks(before.nodes, NodeMapOf([], |before.nodes|), []) == [];
    assert before.nodes + [] == before.nodes;
  }

  /**
   * A record that cannot be built stops the import with an error: the nodes
   * of the records before it stay in the tree, followed by the created node,
   * named after the record, when only the location was wrong; no link is made.
   */
  lemma ImportStops(host: Host, doc: Document, blockName: string, before: Tree, f: nat)
    requires Valid(before)
    requires var recs := BlockOrEmpty(doc, blockName).nodes;
      f < |recs| && !Buildable(host, recs[f]) && forall j :: 0 <= j < f ==> Buildable(host, recs[j])
    ensures var recs := BlockOrEmpty(doc, blockName).nodes; var res := ImportTree(host, Parsed(doc), blockName, before);
      && AllBuildable(host, recs[..f])
      && (host.create(recs[f].nodeType).None? ==>
            res == (Raised(UnknownNodeType(recs[f].nodeType)), Tree(before.nodes + Built(host, recs[..f]), before.links)))
      && (host.create(recs[f].nodeType).Some? ==>
            && |recs[f].location| != 2
            && res == (Raised(BadLocation(recs[f].location)),
                       Tree(before.nodes + Built(host, recs[..f]) + [host.create(recs[f].nodeType).value.(name := recs[f].name)], before.links)))
  {
    var recs := BlockOrEmpty(doc, blockName).nodes;
    FirstFailureAt(host, recs, f);
    assert forall j :: 0 <= j < f ==> recs[..f][j] == recs[j];
    if host.create(recs[f].nodeType).None? {
      assert before.nodes + Built(host, recs[..f]) + [] == before.nodes + Built(host, recs[..f]);
    }
  }

  /**
   * Two link records whose resolved links end at the same input, where that
   * input takes a single link or the two links join the same two sockets:
   * the later `links.new` replaces the earlier link, so the tree gains fewer
   * links than the block has records.
   */
  lemma ImportLosesLink(host: Host, doc: Document, blockName: string, before: Tree, a: nat, b: nat)
    requires Valid(before)
    requires var data := BlockOrEmpty(doc, blockName);
      && AllBuildable(host, data.nodes) && a < b < |data.links|
      && var nodes := before.nodes + Built(host, data.nodes);
         var m := NodeMapOf(data.nodes, |before.nodes|);
         var first, second := ResolveOne(nodes, m, data.links[a]), ResolveOne(nodes, m, data.links[b]);
      && first.Some? && second.Some? && Replaces(nodes, second.value, first.value)
    ensures |ImportTree(host, Parsed(doc), blockName, before).1.links| < |before.links| + |BlockOrEmpty(doc, blockName).links|
  {
    var data := BlockOrEmpty(doc, blockName);
    var nodes := before.nodes + Built(host, data.nodes);
    var m := NodeMapOf(data.nodes, |before.nodes|);
    ImportedLinks(host, doc, blockName, before, data, nodes, m);
    ResolveLinksLose(nodes, m, before.links, data.links, a, b);
  }

  /** The links a complete import leaves: the tree's own, then the resolved records linked one by one. */
  lemma ImportedLinks(host: Host, doc: Document, blockName: string, before: Tree, data: Block, nodes: seq<Node>, m: map<string, nat>)
    requires Valid(before)
    requires data == BlockOrEmpty(doc, blockName) && AllBuildable(host, data.nodes)
    requires nodes == before.nodes + Built(host, data.nodes) && m == NodeMapOf(data.nodes, |before.nodes|)
    ensures MapInto(m, nodes)
    ensures ImportTree(host, Parsed(doc), blockName, before).1.links == LinkAll(nodes, before.links, ResolveLinks(nodes, m, data.links))
  {
    assert FirstFailure(host, data.nodes).None?;
  }

  /** The link loop's view of that loss: linking the resolved records onto `pre` adds fewer links than there are records. */
  lemma ResolveLinksLose(nodes: seq<Node>, m: map<string, nat>, pre: seq<Link>, recs: seq<LinkRecord>, a: nat, b: nat)
    requires MapInto(m, nodes) && a < b < |recs|
    requires var first, second := ResolveOne(nodes, m, recs[a]), ResolveOne(nodes, m, recs[b]);
      && first.Some? && second.Some? && Replaces(nodes, second.value, first.value)
    ensures |LinkAll(nodes, pre, ResolveLinks(nodes, m, recs))| < |pre| + |recs|
  {
    ResolveLinksComplete(nodes, m, recs, a);
    ResolveLinksComplete(nodes, m, recs, b);
    ResolveLinksInOrder(nodes, m, recs, a, b);
    LinkAllLoses(nodes, pre, ResolveLinks(nodes, m, recs), |ResolveLinks(nodes, m, recs[..a])|, |ResolveLinks(nodes, m, recs[..b])|);
  }

  /**
   * The nodes an import adds: one per record, in record order, each with the
   * record's name and location and the sockets of the node the host created.
   */
  lemma ImportedNodes(host: Host, recs: seq<NodeRecord>, j: nat)
    requires AllBuildable(host, recs) && j < |recs|
    ensures var created := host.create(recs[j].nodeType).value; var n := Built(host, recs)[j];
      && n.name == recs[j].name && n.location == Location(recs[j].location[0], recs[j].location[1])
      && n.nodeType == created.nodeType && n.outputs == created.outputs
      && SocketNames(n.inputs) == SocketNames(created.inputs) && MultiInputs(n.inputs) == MultiInputs(created.inputs)
  {
    BuiltAt(host, recs, j);
  }

  /** Every link the link loop adds comes from a record that resolves to it. */
  lemma {:induction false} ResolveLinksSound(nodes: seq<Node>, m: map<string, nat>, recs: seq<LinkRecord>, l: Link)
    requires MapInto(m, nodes)
    requires l in ResolveLinks(nodes, m, recs)
    ensures exists k :: 0 <= k < |recs| && ResolveOne(nodes, m, recs[k]) == Some(l)
    decreases |recs|
  {
    var init := recs[..|recs| - 1];
    if ResolveOne(nodes, m, recs[|recs| - 1]) != Some(l) {
      ResolveLinksSound(nodes, m, init, l);
      var k :| 0 <= k < |init| && ResolveOne(nodes, m, init[k]) == Some(l);
      assert init[k] == recs[k];
    }
  }

  /** Every record that resolves gets its link, in record order: when all resolve, link k is record k's. */
  lemma {:induction false} ResolveLinksAll(nodes: seq<Node>, m: map<string, nat>, recs: seq<LinkRecord>)
    requires MapInto(m, nodes)
    requires forall k :: 0 <= k < |recs| ==> ResolveOne(nodes, m, recs[k]).Some?
    ensures |ResolveLinks(nodes, m, recs)| == |recs|
    ensures forall k :: 0 <= k < |recs| ==> ResolveLinks(nodes, m, recs)[k] == ResolveOne(nodes, m, recs[k]).value
    decreases |recs|
  {
    if |recs| > 0 {
      var init := recs[..|recs| - 1];
      forall k | 0 <= k < |init| ensures ResolveOne(nodes, m, init[k]).Some? {
        assert init[k] == recs[k];
      }
      ResolveLinksAll(nodes, m, init);
      var ls := ResolveLinks(nodes, m, init);
      var last := ResolveOne(nodes, m, recs[|recs| - 1]);
      assert ResolveLinks(nodes, m, recs) == ls + [last.value];
      forall k | 0 <= k < |recs| ensures ResolveLinks(nodes, m, recs)[k] == ResolveOne(nodes, m, recs[k]).value {
        if k < |init| {
          assert init[k] == recs[k];
          assert (ls + [last.value])[k] == ls[k];
        } else {
          assert k == |ls|;
        }
      }
    }
  }

  /**
   * Every record that resolves gives its link: it sits at the position just
   * after the links of the records before it.
   */
  lemma ResolveLinksComplete(nodes: seq<Node>, m: map<string, nat>, recs: seq<LinkRecord>, k: nat)
    requires MapInto(m, nodes)
    requires k < |recs| && ResolveOne(nodes, m, recs[k]).Some?
    ensures var i := |ResolveLinks(nodes, m, recs[..k])|;
      i < |ResolveLinks(nodes, m, recs)| && ResolveLinks(nodes, m, recs)[i] == ResolveOne(nodes, m, recs[k]).value
  {
    assert recs[..k + 1][..k] == recs[..k] && recs[..k + 1][k] == recs[k];
    ResolveLinksStep(nodes, m, recs[..k + 1]);
    ResolveLinksPrefix(nodes, m, recs, k + 1);
  }

  /** The links of a prefix of the records are a prefix of the links of all of them. */
  lemma {:induction false} ResolveLinksPrefix(nodes: seq<Node>, m: map<string, nat>, recs: seq<LinkRecord>, j: nat)
    requires MapInto(m, nodes) && j <= |recs|
    ensures ResolveLinks(nodes, m, recs[..j]) <= ResolveLinks(nodes, m, recs)
    decreases |recs| - j
  {
    if j < |recs| {
      var init := recs[..|recs| - 1];
      assert init[..j] == recs[..j];
      ResolveLinksPrefix(nodes, m, init, j);
      ResolveLinksStep(nodes, m, recs);
    } else {
      assert recs[..j] == recs;
    }
  }

  /** One more record keeps the links so far and adds its own link, if it resolves. */
  lemma ResolveLinksStep(nodes: seq<Node>, m: map<string, nat>, recs: seq<LinkRecord>)
    requires MapInto(m, nodes) && |recs| > 0
    ensures var init := ResolveLinks(nodes, m, recs[..|recs| - 1]);
      && init <= ResolveLinks(nodes, m, recs)
      && (ResolveOne(nodes, m, recs[|recs| - 1]).Some? ==>
            ResolveLinks(nodes, m, recs) == init + [ResolveOne(nodes, m, recs[|recs| - 1]).value])
  {
  }

  /** Every record that resolves has its link among the links added. */
  lemma ResolveLinksContains(nodes: seq<Node>, m: map<string, nat>, recs: seq<LinkRecord>, k: nat)
    requires MapInto(m, nodes)
    requires k < |recs| && ResolveOne(nodes, m, recs[k]).Some?
    ensures ResolveOne(nodes, m, recs[k]).value in ResolveLinks(nodes, m, recs)
  {
    ResolveLinksComplete(nodes, m, recs, k);
  }

  /** The links keep the order of their records. */
  lemma ResolveLinksInOrder(nodes: seq<Node>, m: map<string, nat>, recs: seq<LinkRecord>, a: nat, b: nat)
    requires MapInto(m, nodes)
    requires a < b <= |recs| && ResolveOne(nodes, m, recs[a]).Some?
    ensures |ResolveLinks(nodes, m, recs[..a])| < |ResolveLinks(nodes, m, recs[..b])|
  {
    assert recs[..b][..a] == recs[..a] && recs[..b][a] == recs[a];
    ResolveLinksComplete(nodes, m, recs[..b], a);
  }

  /** The loop over a record's properties, on the node being configured. */
  method RestoreProperties(host: Host, node: Node, props: PropMap) returns (configured: Node)
    ensures configured == ApplyProperties(host, node, props)
  {
    configured := node;
    var p := 0;
    while p < |props|
      invariant 0 <= p <= |props|
      invariant configured == ApplyProperties(host, node, props[..p])
    {
      assert props[..p + 1][..p] == props[..p];
      configured := RestoreProperty(host, configured, props[p].0, props[p].1);
      p := p + 1;
    }
    assert props[..p] == props;
  }

  /** The body of that loop: route one recorded value to an attribute or an input's default. */
  method RestoreProperty(host: Host, node: Node, key: string, value: Value) returns (configured: Node)
    ensures configured == ApplyProperty(host, node, key, value)
  {
    configured := node;
    if HasAttribute(node, key) {
      var k := AttributeIndex(node.props, key).value;
      configured := node.(props := node.props[k := RestoreValue(host, node.props[k], value)]);
    } else {
      var s := FindSocket(node.inputs, key);
      if s.Some? && node.inputs[s.value].default.Some? {
        var socket := WriteDefault(host, node.inputs[s.value], value);
        configured := node.(inputs := node.inputs[s.value := socket]);
      }
    }
  }

  /** Configure a node the host created from its record, then append it to the tree. */
  method AddConfigured(tree: NodeTree, host: Host, created: Node, rec: NodeRecord) returns (index: nat)
    requires tree.Valid() && |rec.location| == 2
    modifies tree
    ensures tree.Valid() && tree.links == old(tree.links)
    ensures tree.nodes == old(tree.nodes) + [ConfigureNode(host, created, rec)]
    ensures index == |old(tree.nodes)|
  {
    var node := RestoreProperties(host, Placed(created, rec), rec.properties);
    index := tree.AddNode(node);
  }

  /** One more record built: the nodes and the name map grow by that record's node and name. */
  lemma BuiltSnoc(host: Host, recs: seq<NodeRecord>, i: nat, base: nat)
    requires i < |recs| && AllBuildable(host, recs[..i]) && Buildable(host, recs[i])
    ensures AllBuildable(host, recs[..i + 1])
    ensures Built(host, recs[..i + 1]) == Built(host, recs[..i]) + [ConfigureNode(host, host.create(recs[i].nodeType).value, recs[i])]
    ensures NodeMapOf(recs[..i + 1], base) == NodeMapOf(recs[..i], base)[recs[i].name := base + i]
  {
    assert recs[..i + 1][..i] == recs[..i];
    assert recs[..i + 1][i] == recs[i];
  }

  /**
   * The loop over the block's node records: create, place, configure and
   * append one node per record, and map its name to it. Stops at the first
   * record that cannot be built: `nodes.new` raises on an unknown type, and
   * the location assignment raises, after the node was appended and named,
   * on a location that is not two numbers.
   */
  method CreateNodes(tree: NodeTree, host: Host, recs: seq<NodeRecord>) returns (failed: Option<nat>, nodeMap: map<string, nat>)
    requires tree.Valid()
    modifies tree
    ensures tree.Valid() && tree.links == old(tree.links)
    ensures failed == FirstFailure(host, recs)
    ensures failed.Some? ==>
      && failed.value < |recs| && AllBuildable(host, recs[..failed.value])
      && tree.nodes == old(tree.nodes) + Built(host, recs[..failed.value]) + Abort(host, recs[failed.value]).1
    ensures failed.None? ==> tree.nodes == old(tree.nodes) + Built(host, recs)
    ensures failed.None? ==> nodeMap == NodeMapOf(recs, |old(tree.nodes)|)
  {
    nodeMap := map[];
    ghost var base := tree.nodes;
    var i := 0;
    while i < |recs|
      invariant 0 <= i <= |recs|
      invariant tree.Valid() && tree.links == old(tree.links)
      invariant AllBuildable(host, recs[..i])
      invariant tree.nodes == base + Built(host, recs[..i])
      invariant nodeMap == NodeMapOf(recs[..i], |base|)
    {
      var created := host.create(recs[i].nodeType);
      if created.None? || |recs[i].location| != 2 {
        assert forall j :: 0 <= j < i ==> recs[..i][j] == recs[j];
        FirstFailureAt(host, recs, i);
        if created.Some? {
          var stranded := tree.AddNode(created.value.(name := recs[i].name));
        }
        return Some(i), nodeMap;
      }
      nodeMap := CreateNode(tree, host, recs, i, base, nodeMap);
      i := i + 1;
    }
    assert recs[..i] == recs;
    failed := None;
  }

  /** One pass of that loop for a record whose type the host knows: build its node and map its name. */
  method CreateNode(tree: NodeTree, host: Host, recs: seq<NodeRecord>, i: nat, ghost base: seq<Node>, nodeMap: map<string, nat>)
      returns (nodeMap': map<string, nat>)
    requires i < |recs| && Buildable(host, recs[i])
    requires tree.Valid() && AllBuildable(host, recs[..i])
    requires tree.nodes == base + Built(host, recs[..i]) && nodeMap == NodeMapOf(recs[..i], |base|)
    modifies tree
    ensures tree.Valid() && tree.links == old(tree.links)
    ensures AllBuildable(host, recs[..i + 1])
    ensures tree.nodes == base + Built(host, recs[..i + 1]) && nodeMap' == NodeMapOf(recs[..i + 1], |base|)
  {
    BuiltSnoc(host, recs, i, |base|);
    var created := host.create(recs[i].nodeType).value;
    var index := AddConfigured(tree, host, created, recs[i]);
    nodeMap' := nodeMap[recs[i].name := index];
  }

  /** One more record: its link, if it resolves, is made after the links of the records before it. */
  lemma LinkAllStep(nodes: seq<Node>, m: map<string, nat>, pre: seq<Link>, recs: seq<LinkRecord>, k: nat)
    requires MapInto(m, nodes) && k < |recs|
    ensures var made := LinkAll(nodes, pre, ResolveLinks(nodes, m, recs[..k]));
      LinkAll(nodes, pre, ResolveLinks(nodes, m, recs[..k + 1])) ==
        match ResolveOne(nodes, m, recs[k])
        case Some(l) => Connect(nodes, made, l)
        case None => made
  {
    assert recs[..k + 1][..k] == recs[..k];
    assert recs[..k + 1][k] == recs[k];
    var calls := ResolveLinks(nodes, m, recs[..k]);
    match ResolveOne(nodes, m, recs[k])
    case Some(l) =>
      assert (calls + [l])[..|calls|] == calls;
    case None =>
  }

  /** The loop over the block's link records: a `links.new` for each record that resolves, in order. */
  method CreateLinks(tree: NodeTree, nodeMap: map<string, nat>, recs: seq<LinkRecord>)
    requires tree.Valid() && MapInto(nodeMap, tree.nodes)
    modifies tree
    ensures tree.Valid() && tree.nodes == old(tree.nodes)
    ensures tree.links == LinkAll(tree.nodes, old(tree.links), ResolveLinks(tree.nodes, nodeMap, recs))
  {
    var k := 0;
    while k < |recs|
      invariant 0 <= k <= |recs|
      invariant tree.Valid()
      invariant tree.nodes == old(tree.nodes)
      invariant tree.links == LinkAll(tree.nodes, old(tree.links), ResolveLinks(tree.nodes, nodeMap, recs[..k]))
    {
      var info := recs[k];
      LinkAllStep(tree.nodes, nodeMap, old(tree.links), recs, k);
      if info.fromNode in nodeMap && info.toNode in nodeMap {
        var fromIndex, toIndex := nodeMap[info.fromNode], nodeMap[info.toNode];
        var fromSocket := FindSocket(tree.nodes[fromIndex].outputs, info.fromSocket);
        var toSocket := FindSocket(tree.nodes[toIndex].inputs, info.toSocket);
        if fromSocket.Some? && toSocket.Some? {
          tree.NewLink(Link(fromIndex, fromSocket.value, toIndex, toSocket.value));
        }
      }
      k := k + 1;
    }
    assert recs[..k] == recs;
  }

  /**
   * import_nodes on an in-memory document: nothing happens when the file is
   * missing; otherwise one node per record, then a `links.new` for each
   * recorded link that resolves. A record that cannot be built raises
   * part-way, leaving the nodes created so far in the tree.
   */
  method ImportNodes(tree: NodeTree, host: Host, file: FileState, blockName: string) returns (r: ImportResult)
    requires tree.Valid()
    modifies tree
    ensures tree.Valid()
    ensures (r, tree.Snapshot()) == ImportTree(host, file, blockName, old(tree.Snapshot()))
  {
    if file.Absent? {
      return Returned(false);
    }
    if file.Unparsable? {
      return Raised(MalformedJson);
    }
    var data := BlockOrEmpty(file.doc, blockName);
    var failed, nodeMap := CreateNodes(tree, host, data.nodes);
    if failed.Some? {
      var rec := data.nodes[failed.value];
      if host.create(rec.nodeType).None? {
        return Raised(UnknownNodeType(rec.nodeType));
      }
      return Raised(BadLocation(rec.location));
    }
    CreateLinks(tree, nodeMap, data.links);
    r := Returned(true);
  }
}
