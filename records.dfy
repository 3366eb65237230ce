/**
 * The JSON document the exporter writes and the importer reads: a map from
 * block name to a block of node records and link records.
 */
module Records {
  import opened Wrappers
  import opened Codec
  import opened Graph

  /**
   * A JSON object read into a Python dict: keys in insertion order, no key
   * twice. Storing an existing key replaces its value in place; a new key
   * goes at the end.
   */
  type PropMap = seq<(string, Value)>

  predicate UniqueKeys(m: PropMap) {
    forall a, b :: 0 <= a < b < |m| ==> m[a].0 != m[b].0
  }

  lemma UniqueKeysInit(m: PropMap)
    requires UniqueKeys(m) && |m| > 0
    ensures UniqueKeys(m[..|m| - 1])
  {
  }

  predicate HasKey(m: PropMap, key: string) {
    exists k :: 0 <= k < |m| && m[k].0 == key
  }

  /** Where `key` sits in `m`: its first position. */
  function KeyIndex(m: PropMap, key: string): (r: Option<nat>)
    ensures r.Some? ==> r.value < |m| && m[r.value].0 == key
    ensures r.Some? ==> forall k :: 0 <= k < r.value ==> m[k].0 != key
    ensures r.None? <==> forall k :: 0 <= k < |m| ==> m[k].0 != key
  {
    if |m| == 0 then None
    else if m[0].0 == key then Some(0)
    else match KeyIndex(m[1..], key)
      case None => None
      case Some(k) => Some(k + 1)
  }

  lemma KeyIndexAt(m: PropMap, key: string, k: nat)
    requires k < |m| && m[k].0 == key
    requires forall j :: 0 <= j < k ==> m[j].0 != key
    ensures KeyIndex(m, key) == Some(k)
  {
    var r := KeyIndex(m, key);
    assert r.Some?;
    assert !(r.value < k);
    assert !(k < r.value);
  }

  /** `m.get(key)`: the value stored under `key`, if any. */
  function Lookup(m: PropMap, key: string): (r: Option<Value>)
    ensures r.Some? <==> HasKey(m, key)
    ensures r.Some? ==> exists k :: 0 <= k < |m| && m[k] == (key, r.value)
  {
    match KeyIndex(m, key)
    case None => None
    case Some(k) => Some(m[k].1)
  }

  /** `m[key] = v` on a dict. */
  function Put(m: PropMap, key: string, v: Value): (r: PropMap)
    ensures UniqueKeys(m) ==> UniqueKeys(r)
  {
    match KeyIndex(m, key)
    case Some(k) => m[k := (key, v)]
    case None => m + [(key, v)]
  }

  /**
   * Dict assignment: the key then holds `v`, every other key holds what it
   * held, an existing key keeps its position and a new key goes at the end.
   */
  lemma PutSpec(m: PropMap, key: string, v: Value)
    ensures Lookup(Put(m, key, v), key) == Some(v)
    ensures forall other :: other != key ==> Lookup(Put(m, key, v), other) == Lookup(m, other)
    ensures HasKey(m, key) ==> |Put(m, key, v)| == |m| && forall k :: 0 <= k < |m| ==> Put(m, key, v)[k].0 == m[k].0
    ensures !HasKey(m, key) ==> Put(m, key, v) == m + [(key, v)]
  {
    var r := Put(m, key, v);
    match KeyIndex(m, key) {
      case Some(k) => KeyIndexAt(r, key, k);
      case None => KeyIndexAt(r, key, |m|);
    }
    forall other | other != key ensures Lookup(r, other) == Lookup(m, other) {
      match KeyIndex(m, other)
      case Some(j) =>
        assert r[j] == m[j];
        KeyIndexAt(r, other, j);
      case None =>
        assert KeyIndex(r, other).None?;
    }
  }

  /** The map after storing each entry of `es` in order, as a loop of `m[key] = v` does. */
  function PutAll(m: PropMap, es: seq<(string, Value)>): (r: PropMap)
    ensures UniqueKeys(m) ==> UniqueKeys(r)
    decreases |es|
  {
    if |es| == 0 then m
    else Put(PutAll(m, es[..|es| - 1]), es[|es| - 1].0, es[|es| - 1].1)
  }

  /** Storing one more entry. */
  lemma PutAllSnoc(m: PropMap, es: seq<(string, Value)>, key: string, v: Value)
    ensures PutAll(m, es + [(key, v)]) == Put(PutAll(m, es), key, v)
  {
    assert (es + [(key, v)])[..|es|] == es;
  }

  /** A key none of the entries uses keeps its value. */
  lemma {:induction false} PutAllKeepsOthers(m: PropMap, es: seq<(string, Value)>, key: string)
    requires forall k :: 0 <= k < |es| ==> es[k].0 != key
    ensures Lookup(PutAll(m, es), key) == Lookup(m, key)
    decreases |es|
  {
    if |es| > 0 {
      var init := es[..|es| - 1];
      assert forall k :: 0 <= k < |init| ==> init[k] == es[k];
      PutAllKeepsOthers(m, init, key);
      PutSpec(PutAll(m, init), es[|es| - 1].0, es[|es| - 1].1);
    }
  }

  /** Whatever the result holds was in the map before or is one of the entries. */
  lemma {:induction false} PutAllSound(m: PropMap, es: seq<(string, Value)>, key: string, v: Value)
    requires Lookup(PutAll(m, es), key) == Some(v)
    ensures Lookup(m, key) == Some(v) || (key, v) in es
    decreases |es|
  {
    if |es| > 0 {
      var init := es[..|es| - 1];
      PutSpec(PutAll(m, init), es[|es| - 1].0, es[|es| - 1].1);
      if es[|es| - 1].0 != key {
        PutAllSound(m, init, key, v);
        if (key, v) in init {
          var k :| 0 <= k < |init| && init[k] == (key, v);
          assert es[k] == (key, v);
        }
      }
    }
  }

  /** An entry whose key no other entry gives a different value is what the result holds. */
  lemma {:induction false} PutAllFinds(m: PropMap, es: seq<(string, Value)>, key: string, v: Value)
    requires (key, v) in es
    requires forall k :: 0 <= k < |es| && es[k].0 == key ==> es[k].1 == v
    ensures Lookup(PutAll(m, es), key) == Some(v)
    decreases |es|
  {
    var init := es[..|es| - 1];
    PutSpec(PutAll(m, init), es[|es| - 1].0, es[|es| - 1].1);
    if es[|es| - 1].0 != key {
      assert es == init + [es[|es| - 1]];
      assert (key, v) in init;
      assert forall k :: 0 <= k < |init| ==> init[k] == es[k];
      PutAllFinds(m, init, key, v);
    }
  }

  /** One node as exported: its name, type identifier, location and property map. */
  datatype NodeRecord = NodeRecord(name: string, nodeType: string, location: seq<real>, properties: PropMap)

  /** One link as exported, every endpoint by name. */
  datatype LinkRecord = LinkRecord(fromNode: string, fromSocket: string, toNode: string, toSocket: string)

  /** A tree link recorded by the names of its endpoints. */
  function LinkRecordOf(nodes: seq<Node>, l: Link): (r: LinkRecord)
    requires LinkIn(nodes, l)
    ensures r.fromNode == nodes[l.fromNode].name && r.toNode == nodes[l.toNode].name
    ensures r.fromSocket in SocketNames(nodes[l.fromNode].outputs) && r.toSocket in SocketNames(nodes[l.toNode].inputs)
    ensures r.fromSocket == nodes[l.fromNode].outputs[l.fromSocket].name && r.toSocket == nodes[l.toNode].inputs[l.toSocket].name
  {
    assert SocketNames(nodes[l.fromNode].outputs)[l.fromSocket] == nodes[l.fromNode].outputs[l.fromSocket].name;
    assert SocketNames(nodes[l.toNode].inputs)[l.toSocket] == nodes[l.toNode].inputs[l.toSocket].name;
    LinkRecord(nodes[l.fromNode].name, nodes[l.fromNode].outputs[l.fromSocket].name,
               nodes[l.toNode].name, nodes[l.toNode].inputs[l.toSocket].name)
  }

  /**
   * The socket names a link record keeps are found again by a first-by-name
   * search, at the linked socket or at an earlier one of the same name.
   */
  lemma LinkRecordSocketsFound(nodes: seq<Node>, l: Link)
    requires LinkIn(nodes, l)
    ensures var r := LinkRecordOf(nodes, l);
      && FirstNamed(nodes[l.fromNode].outputs, r.fromSocket).Some? && FirstNamed(nodes[l.fromNode].outputs, r.fromSocket).value <= l.fromSocket
      && FirstNamed(nodes[l.toNode].inputs, r.toSocket).Some? && FirstNamed(nodes[l.toNode].inputs, r.toSocket).value <= l.toSocket
  {
  }

  /** What one export stores under its block name. */
  datatype Block = Block(nodes: seq<NodeRecord>, links: seq<LinkRecord>)

  type Document = map<string, Block>

  /** The export file as the two routines find it. */
  datatype FileState =
    | Absent
    | Unparsable
    | Parsed(doc: Document)
}
