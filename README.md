# GeoShaderNodes_IE: node-tree export and import, modelled in Dafny

The add-on saves the selected nodes of a geometry or shader node tree into a
named block of a JSON document. It also rebuilds such a block in a tree. This
project models the generic core of that add-on:

- the value codec `serialize_value` / `restore_value`;
- `export_nodes`, which records the selected nodes, their writable properties,
  the defaults of their unlinked inputs, and the links inside the selection;
- `import_nodes`, which creates one node per record, routes every recorded
  property to a node attribute or to an input default, and recreates the
  recorded links by node and socket name.

The modules follow the program's parts:

- `Wrappers`: `Option`.
- `Codec`: JSON values, host values, `serialize_value`, and the re-wrapping
  done by `restore_value`.
- `Graph`: the node tree (nodes, properties, sockets, links) and the
  first-by-name socket search.
- `Records`: the JSON document. A property map is an ordered dict with
  unique keys. Storing an existing key keeps its position; a new key goes at
  the end.
- `Exporter`: `export_nodes` as methods with loops. Each method is proved
  equal to a specification function. Lemmas state what the export contains.
- `Importer`: `import_nodes` as methods on a `NodeTree` class. The class
  holds `nodes` and `links`. `nodes.new` appends a node. `links.new` appends
  a link after removing the links it replaces: a link already ending at a
  target input that takes a single link, or a link already joining the same
  two sockets. The methods are proved equal to the function
  `ImportTree`, and lemmas state what the import adds.
- `RoundTrip`: export, then import into an empty tree.

The host is a parameter, `Importer.Host`:

- `create` stands for `nodes.new(type=...)`. It returns None for an unknown
  type, which is where `nodes.new` raises.
- `assign` stands for an attribute or `default_value` assignment. It returns
  the stored value, or None when the assignment raises and the exception is
  swallowed.

The export file is a `FileState`: absent, unparsable, or a parsed document.

Export and import key socket defaults differently, and the model keeps the
difference. On import, a property the node does not have goes to the input found by
`new_node.inputs.get(prop)`. That is a lookup by socket *name*. The exporter
keys socket defaults by socket *identifier*. So a default comes back only
when some input's name equals the identifier it was stored under. The model
keeps the two lookups apart: `Exporter.DefaultEntries` stores under
`identifier`, and `Importer.ApplyProperty` searches by `name`.

The proofs also show a consequence of the codec as written. A `Color`
serialises to four numbers, `[r, g, b, 1.0]`. `Color(...)` accepts exactly
three. So a colour property is not restored from its own serialisation: the
constructor raises and the exception is swallowed
(`Codec.ColourIsNotRestored`). A three-number list is accepted and restored
(`Codec.Rewrap`).

Links are recreated by socket *name*, and `links.new` replaces the link of
an input that takes one link. Together these can lose links. A Math node has
two inputs called "Value". Two links into them are exported with the same
target name. On import both resolve to the first "Value" input, and the
second `links.new` replaces the first link (`Graph.MathValueInputsLoseALink`,
`Importer.ImportLosesLink`). Likewise, two links from two outputs of one node
that share a name, into Join Geometry's multi-input, both resolve to the first
output; the second `links.new` replaces the first
(`Graph.JoinGeometryKeepsOneLink`). The export-then-import theorem therefore
requires that links into same-named inputs of one node arrive only at a
multi-input and have different records (`RoundTrip.DistinctByName`).

## Model

| member | source | states |
|---|---|---|
| Codec.Serialize | GeoShaderNodes_IE/__init__.py:19-28 | the result is None exactly for a value that is not a sequence, vector, Euler, colour or primitive; a colour gives the 4-item list of its red, green and blue and then its alpha, or 1.0 when it has none |
| Codec.FromJson | GeoShaderNodes_IE/__init__.py:106-107 | the object `json.load` gives for a JSON value serialises back to that same JSON value |
| Codec.PrimitivesAndSequencesRoundTrip | GeoShaderNodes_IE/__init__.py:20-27 | primitives come back unchanged; a sequence becomes a list with the same items in the same order |
| Codec.Numbers | GeoShaderNodes_IE/__init__.py:34 | a JSON list reads as numbers exactly when every item is an int, a float or a boolean; same length, floats and ints kept as their values, `true` and `false` read as 1.0 and 0.0 |
| Codec.Rewrap | GeoShaderNodes_IE/__init__.py:33-36 | a vector property accepts a list of 2 or more numbers, an Euler or colour property exactly 3, and gets a value of its own kind made of those numbers (a colour of the three numbers, without alpha); any other property gets the loaded value as is |
| Codec.NumbersOfReals | GeoShaderNodes_IE/__init__.py:22-23 | a list serialised from floats reads back as the same floats |
| Codec.VectorAndEulerRestore | GeoShaderNodes_IE/__init__.py:33-34 | a vector (2 or more coordinates) or an Euler rotation is rebuilt exactly from its own serialisation |
| Codec.ColourFromItsComponents | GeoShaderNodes_IE/__init__.py:24-34 | the first three items of a colour's serialisation restore a colour property to that colour's red, green and blue, without alpha |
| Codec.ColourIsNotRestored | GeoShaderNodes_IE/__init__.py:24-25 | a colour's own serialisation (4 numbers) is refused by the 3-number Color constructor, so it is not written back |
| Graph.IsLinked | GeoShaderNodes_IE/__init__.py:77 | an input is linked exactly when some link of the tree ends at it |
| Graph.LinkedAfterNewLink | GeoShaderNodes_IE/__init__.py:77 | `links.new` makes its target input linked and leaves every other input's `is_linked` as it was, replacement included |
| Graph.Kept | GeoShaderNodes_IE/__init__.py:133 | the links `links.new` leaves in place: exactly those the new link does not replace (same input, and a single-link input or the same two sockets), fewer when it replaces one |
| Graph.Connect | GeoShaderNodes_IE/__init__.py:133 | `links.new`: the new link goes last, and the tree grows by at most one link |
| Graph.ConnectReplaces | GeoShaderNodes_IE/__init__.py:133 | `links.new` keeps every link into another input and adds only the new one, which is there once, last; into a multi-input it keeps every link but a copy of the new one, and grows by one when there was none; into a single-link input it leaves only the new link there; the tree does not grow when a link was replaced |
| Graph.ConnectUntouched | GeoShaderNodes_IE/__init__.py:133 | a link into an input no link ends at is simply appended |
| Graph.ConnectAfter | GeoShaderNodes_IE/__init__.py:133 | links in front that do not end at the new link's input stay in front, in order |
| Graph.KeptWithinLimits | GeoShaderNodes_IE/__init__.py:133 | what `links.new` keeps of valid links within limits (no link one a later one replaces) is valid and within limits |
| Graph.ConnectKeepsLimits | GeoShaderNodes_IE/__init__.py:133 | `links.new` keeps the links valid and within limits: every single-link input at one link or none, and no two links between the same two sockets |
| Graph.LinkAll | GeoShaderNodes_IE/__init__.py:127-133 | a `links.new` per resolved link, in order: the tree grows by at most one link per call |
| Graph.LinkAllKeepsLimits | GeoShaderNodes_IE/__init__.py:127-133 | any sequence of `links.new` keeps the links valid and within limits |
| Graph.LinkAllAfter | GeoShaderNodes_IE/__init__.py:127-133 | links into nodes no call targets stay, in front of what the calls make |
| Graph.LinkAllKeepsAll | GeoShaderNodes_IE/__init__.py:127-133 | calls none of which replaces an earlier one (a shared input takes several links, and no call repeats another) all survive, in order |
| Graph.LinkAllLinked | GeoShaderNodes_IE/__init__.py:127-133 | an input some call linked is still linked after all the calls, and a link made into a multi-input is still there |
| Graph.LinkAllLoses | GeoShaderNodes_IE/__init__.py:127-133 | a call that replaces an earlier one (into the same single-link input, or between the same two sockets): the tree gains fewer links than there were calls |
| Graph.MathValueInputsLoseALink | GeoShaderNodes_IE/__init__.py:130-133 | two links into the first of two inputs both called "Value": only the second remains |
| Graph.JoinGeometryKeepsOneLink | GeoShaderNodes_IE/__init__.py:130-133 | two links from the first of two outputs both called "Geometry" into Join Geometry's multi-input: only one remains |
| Graph.FirstNamed | GeoShaderNodes_IE/__init__.py:130-131 | the index of the first socket with the given name, None exactly when no socket has it |
| Graph.FindSocket | GeoShaderNodes_IE/__init__.py:130-131 | the `next(...)` search loop returns the first socket with the name, None exactly when none has it |
| Graph.FirstNamedUnique | GeoShaderNodes_IE/__init__.py:130-131 | a matching index with no match before it is the first match |
| Graph.FirstNamedByNames | GeoShaderNodes_IE/__init__.py:130-131 | two socket lists with the same names give the same search result |
| Records.Lookup | GeoShaderNodes_IE/__init__.py:72-78 | reading the map that `properties[key] = v` builds: a value exactly when the key is present, and that value is stored under the key |
| Records.Put | GeoShaderNodes_IE/__init__.py:72 | `dict[key] = v` keeps keys unique |
| Records.PutSpec | GeoShaderNodes_IE/__init__.py:72 | after `dict[key] = v` the key holds v and every other key holds what it held; an existing key keeps its position, a new key is appended |
| Records.PutAll | GeoShaderNodes_IE/__init__.py:76-78 | storing a sequence of entries keeps keys unique |
| Records.PutAllSnoc | GeoShaderNodes_IE/__init__.py:76-78 | storing one more entry is one more `dict[key] = v` |
| Records.PutAllKeepsOthers | GeoShaderNodes_IE/__init__.py:76-78 | a key no entry uses keeps its earlier value |
| Records.PutAllSound | GeoShaderNodes_IE/__init__.py:76-78 | every value in the result was there before or is one of the stored entries |
| Records.PutAllFinds | GeoShaderNodes_IE/__init__.py:76-78 | an entry whose key no other entry gives another value is what the result holds |
| Records.LinkRecordOf | GeoShaderNodes_IE/__init__.py:89-94 | a link record names the two linked nodes and the names of the two linked sockets |
| Records.LinkRecordSocketsFound | GeoShaderNodes_IE/__init__.py:89-94 | the recorded socket names are found again by a first-by-name search, at the linked socket or before it |
| Exporter.Exported | GeoShaderNodes_IE/__init__.py:68-71 | a direct property is recorded exactly when it is writable, not `bl_`-prefixed, and of a kind `serialize_value` does not map to None |
| Exporter.DirectProperties | GeoShaderNodes_IE/__init__.py:67-74 | the map from the property loop has unique keys |
| Exporter.CollectDirect | GeoShaderNodes_IE/__init__.py:67-74 | the loop over the reflected properties builds exactly the direct map |
| Exporter.DirectPropertiesSound | GeoShaderNodes_IE/__init__.py:67-74 | every direct entry is a writable, non-`bl_` property of that identifier, stored with its non-None serialisation |
| Exporter.DirectPropertiesComplete | GeoShaderNodes_IE/__init__.py:67-74 | with distinct identifiers, every writable, non-`bl_`, serialisable property is in the direct map with its serialisation |
| Exporter.DefaultEntries | GeoShaderNodes_IE/__init__.py:76-78 | at most one entry per input |
| Exporter.DefaultEntriesSound | GeoShaderNodes_IE/__init__.py:76-78 | every default entry is the serialised default of an unlinked input that has one, under its identifier |
| Exporter.DefaultEntriesComplete | GeoShaderNodes_IE/__init__.py:76-78 | every unlinked input with a default gives an entry |
| Exporter.AddDefaults | GeoShaderNodes_IE/__init__.py:76-78 | the loop over the inputs stores exactly the default entries on top of the direct map |
| Exporter.RecordProperties | GeoShaderNodes_IE/__init__.py:65-78 | a node's property map has unique keys |
| Exporter.NodeProperties | GeoShaderNodes_IE/__init__.py:65-78 | the two loops build exactly the node's property map, with unique keys |
| Exporter.RecordedDefaultWins | GeoShaderNodes_IE/__init__.py:76-78 | with distinct input identifiers, an unlinked input's default is recorded under its identifier and overrides a direct property of that name |
| Exporter.RecordKeepsDirect | GeoShaderNodes_IE/__init__.py:67-78 | a key no unlinked defaulted input uses holds exactly what the direct properties gave it |
| Exporter.RecordPropertiesSound | GeoShaderNodes_IE/__init__.py:65-78 | every recorded property is an unlinked input's serialised default, or a writable non-`bl_` property's non-None serialisation |
| Exporter.RecordOf | GeoShaderNodes_IE/__init__.py:80-85 | a node record copies the node's name, type and location, and its property map has unique keys |
| Exporter.Selection | GeoShaderNodes_IE/__init__.py:62 | the selection holds the indices of exactly the selected nodes, in strictly increasing tree order |
| Exporter.SelectionMembers | GeoShaderNodes_IE/__init__.py:62 | an index is in the selection exactly when that node is selected |
| Exporter.NodeRecords | GeoShaderNodes_IE/__init__.py:64-85 | one record per selected index, in order, each the record of that node |
| Exporter.CollectNodes | GeoShaderNodes_IE/__init__.py:64-85 | the loop over the selected nodes builds exactly their records, in order |
| Exporter.LinkRecords | GeoShaderNodes_IE/__init__.py:87-94 | at most one record per link, and none when no link has both ends selected |
| Exporter.LinkRecordsStep | GeoShaderNodes_IE/__init__.py:87-94 | one more link adds its record exactly when both of its ends are selected |
| Exporter.CollectLinks | GeoShaderNodes_IE/__init__.py:87-94 | the loop over the tree links builds exactly the records of the links with both ends selected, in link order |
| Exporter.Loaded | GeoShaderNodes_IE/__init__.py:52-58 | a parsed file gives its document; a missing or unparsable file gives the empty document |
| Exporter.ExportBlock | GeoShaderNodes_IE/__init__.py:80-96 | the stored block has one record per selected node, each that node's record, and at most one record per link |
| Exporter.RecordSource | GeoShaderNodes_IE/__init__.py:87-94 | each link record comes from a link of the tree with both ends selected, and carries that link's names |
| Exporter.LinkRecordsInOrder | GeoShaderNodes_IE/__init__.py:87-94 | a later link record comes from a later link |
| Exporter.ExportDocument | GeoShaderNodes_IE/__init__.py:96 | the new block is stored under the block name, and the key set is the loaded one plus that name |
| Exporter.ExportNodes | GeoShaderNodes_IE/__init__.py:51-96 | the document written is the loaded document (empty if missing or unparsable) with the new block stored under the block name |
| Exporter.ExportedNodesAreTheSelection | GeoShaderNodes_IE/__init__.py:62-85 | one record per selected node and none for any other, in tree order, with name, type and location copied |
| Exporter.ExportedLinksInsideSelection | GeoShaderNodes_IE/__init__.py:87-94 | every exported link record names a tree link whose two ends are selected |
| Exporter.ExportedLinksComplete | GeoShaderNodes_IE/__init__.py:87-94 | every tree link whose two ends are selected is exported |
| Exporter.NoExportedLinkNamesUnselected | GeoShaderNodes_IE/__init__.py:87-94 | with unique node names, no exported link names an unselected node |
| Exporter.ExportKeepsOtherBlocks | GeoShaderNodes_IE/__init__.py:96 | the new block is stored under the block name; the key set gains at most that name; every other block is unchanged |
| Exporter.ExportTwice | GeoShaderNodes_IE/__init__.py:96 | exporting the same tree again under the same name gives the same document with a key set of the same size |
| Importer.NodeTree.AddNode | GeoShaderNodes_IE/__init__.py:112 | `nodes.new` appends one node at the end, keeps the links, and returns its index |
| Importer.NodeTree.NewLink | GeoShaderNodes_IE/__init__.py:133 | `links.new` between existing sockets keeps the nodes and gives the links of `Graph.Connect`: the new link last, after removing the earlier link into a single-link input or the earlier link between the same two sockets |
| Importer.RestoreValue | GeoShaderNodes_IE/__init__.py:31-38 | a readonly property, or one whose constructor refuses the value, is left alone; otherwise it holds what the host stores for the re-wrapped value, or is left alone when the setter raises; identifier and readonly flag never change |
| Importer.RestoreSerialized | GeoShaderNodes_IE/__init__.py:31-36 | a writable primitive, sequence, vector or Euler property handed its own serialisation is restored to the same value by a host that stores what it is given |
| Importer.AttributeIndex | GeoShaderNodes_IE/__init__.py:115 | `hasattr` finds the first property with that identifier, None exactly when there is none |
| Importer.HasAttribute | GeoShaderNodes_IE/__init__.py:115 | `hasattr` holds exactly when some property has that identifier |
| Importer.WriteDefault | GeoShaderNodes_IE/__init__.py:121-124 | a socket default holds what the host stores for the raw loaded value, or is left alone when the assignment raises; name and identifier are kept |
| Importer.ApplyProperty | GeoShaderNodes_IE/__init__.py:114-124 | a key the node has: that first property gets `restore_value`'s result and every other property and input is unchanged; otherwise the first input of that name, if it has a default, gets the written default and every other input (by position) and property is unchanged; otherwise nothing changes; name, type, location, outputs, input names, which inputs have defaults, and property identifiers never change |
| Importer.EntryReachesAttribute | GeoShaderNodes_IE/__init__.py:115-116 | the entry for a key the node has is restored onto the first property of that identifier, which stays the first |
| Importer.OtherKeyKeepsAttribute | GeoShaderNodes_IE/__init__.py:114-124 | an entry for another key leaves the property found for `key` where and as it was |
| Importer.EntryReachesDefault | GeoShaderNodes_IE/__init__.py:118-124 | the entry for a key the node lacks is written to the default of the first input of that name |
| Importer.OtherKeyKeepsDefault | GeoShaderNodes_IE/__init__.py:114-124 | an entry for another key leaves the first input named `key` where and as it was |
| Importer.ApplyProperties | GeoShaderNodes_IE/__init__.py:114 | restoring a whole map never changes name, type, location, outputs, input names, which inputs have defaults, or property identifiers |
| Importer.RecordedAttributeLands | GeoShaderNodes_IE/__init__.py:114-116 | in a map with unique keys, an entry for a key the node has ends up in that attribute: restored onto it as it stood when the entry was reached, untouched by later entries |
| Importer.InputStillDefaulted | GeoShaderNodes_IE/__init__.py:114-124 | restoring entries keeps a key that is not an attribute routed to the same first input, which keeps its default |
| Importer.RecordedDefaultLands | GeoShaderNodes_IE/__init__.py:114-124 | in a map with unique keys, an entry for a key the node lacks ends up in the default of the first input of that name, untouched by later entries |
| Importer.ConfigureNode | GeoShaderNodes_IE/__init__.py:112-124 | a configured node has its record's name and its two location numbers, and the created node's type, selection, outputs, input names and multi-input flags |
| Importer.RestoreProperty | GeoShaderNodes_IE/__init__.py:115-124 | the loop body routes one value exactly as `ApplyProperty` does |
| Importer.RestoreProperties | GeoShaderNodes_IE/__init__.py:114-124 | the loop over `properties.items()` applies every entry in order |
| Importer.Built | GeoShaderNodes_IE/__init__.py:111-125 | one node per record |
| Importer.BuiltAt | GeoShaderNodes_IE/__init__.py:111-125 | the j-th node built is the host's node for the j-th record's type, named, placed and configured from that record |
| Importer.ImportedNodes | GeoShaderNodes_IE/__init__.py:111-125 | each imported node has its record's name and location, the created node's type and outputs, and its input names and multi-input flags |
| Importer.FirstFailure | GeoShaderNodes_IE/__init__.py:111-113 | the first record whose type the host does not know or whose location is not two numbers, None exactly when every record builds |
| Importer.FirstFailureAt | GeoShaderNodes_IE/__init__.py:111-113 | a failing record with only buildable ones before it is the first failure |
| Importer.NodeMapOf | GeoShaderNodes_IE/__init__.py:125 | every mapped index is one of the nodes this import added |
| Importer.NodeMapCoversRecords | GeoShaderNodes_IE/__init__.py:125 | every recorded name is in `node_map` |
| Importer.NodeMapLastWins | GeoShaderNodes_IE/__init__.py:125 | a name maps to the node of its last record: a later duplicate overwrites the earlier entry |
| Importer.ResolveOne | GeoShaderNodes_IE/__init__.py:128-133 | a resolved link joins sockets that exist |
| Importer.ResolveOneByName | GeoShaderNodes_IE/__init__.py:128-133 | a record gives a link exactly when both names are in `node_map` and the source has an output, and the target an input, of the recorded names; the link joins the mapped nodes and their first such sockets |
| Importer.ResolveLinks | GeoShaderNodes_IE/__init__.py:127-133 | the links added join sockets that exist, at most one per record |
| Importer.ResolveLinksSound | GeoShaderNodes_IE/__init__.py:127-133 | every added link is the resolution of some record: no other links are added |
| Importer.ResolveLinksStep | GeoShaderNodes_IE/__init__.py:127-133 | one more record keeps the links so far and appends its own link when it resolves |
| Importer.ResolveLinksPrefix | GeoShaderNodes_IE/__init__.py:127-133 | the links of a prefix of the records are a prefix of the links of all of them |
| Importer.ResolveLinksComplete | GeoShaderNodes_IE/__init__.py:127-133 | every record that resolves gives its link, at the position right after the links of the records before it |
| Importer.ResolveLinksContains | GeoShaderNodes_IE/__init__.py:127-133 | every record that resolves has its link among the links added |
| Importer.ResolveLinksInOrder | GeoShaderNodes_IE/__init__.py:127-133 | the links keep the order of their records |
| Importer.ResolveLinksAll | GeoShaderNodes_IE/__init__.py:127-133 | when every record resolves, link k is record k's link |
| Importer.ResolveLinksEndIn | GeoShaderNodes_IE/__init__.py:128-133 | every resolved link ends at a node of `node_map` |
| Importer.BuiltSnoc | GeoShaderNodes_IE/__init__.py:111-125 | one more buildable record appends its configured node and maps its name to it |
| Importer.LinkAllStep | GeoShaderNodes_IE/__init__.py:127-133 | one more record makes one more `links.new` exactly when it resolves |
| Importer.AddConfigured | GeoShaderNodes_IE/__init__.py:112-124 | one node, configured from its record, is appended and the links are kept |
| Importer.CreateNode | GeoShaderNodes_IE/__init__.py:111-125 | one pass of the record loop extends the built nodes and `node_map` by that record |
| Importer.CreateNodes | GeoShaderNodes_IE/__init__.py:110-125 | the record loop appends the built nodes of all records and `node_map` maps each name to its node; or it stops at the first failing record, after the nodes before it, with nothing more for an unknown type and the created, renamed node for a bad location |
| Importer.CreateLinks | GeoShaderNodes_IE/__init__.py:127-133 | the link loop makes a `links.new` for each resolved link, in record order |
| Importer.BlockOrEmpty | GeoShaderNodes_IE/__init__.py:108 | `all_data.get(block_name, {})`: the stored block when the name is present, otherwise a block with no nodes and no links |
| Importer.ImportTree | GeoShaderNodes_IE/__init__.py:102-135 | the nodes already in the tree stay as a prefix, and so do its links; false exactly without a file; true exactly for a parsed file whose block records all build; a raise adds no links; without a parsed file nothing changes |
| Importer.ImportNodes | GeoShaderNodes_IE/__init__.py:102-135 | result and final tree are `ImportTree`: false and nothing changed without a file, a raise on unparsable JSON, a raise after a partial import on an unknown type or a bad location, otherwise true with all nodes added and a `links.new` per resolved link |
| Importer.ImportWithoutFile | GeoShaderNodes_IE/__init__.py:103-104 | a missing file: false, and the tree is untouched |
| Importer.ImportMissingBlock | GeoShaderNodes_IE/__init__.py:108 | a block name not in the document: no nodes, no links, and still true |
| Importer.ImportedLinksFollow | GeoShaderNodes_IE/__init__.py:127-133 | the import's `links.new` calls end at new nodes only, so the tree's own links stay in front |
| Importer.ImportStops | GeoShaderNodes_IE/__init__.py:111-113 | a failing record stops the import with a raise: after the nodes before it for an unknown type; with the created node appended and renamed, but not placed, for a location that is not two numbers; no links are made |
| Importer.ResolveLinksLose | GeoShaderNodes_IE/__init__.py:127-133 | a record whose link replaces an earlier record's (same single-link input, or same two sockets) leaves fewer links than records |
| Importer.ImportLosesLink | GeoShaderNodes_IE/__init__.py:127-135 | an import with a link record whose link replaces an earlier record's adds fewer links than the block records |
| RoundTrip.ImportTarget | GeoShaderNodes_IE/__init__.py:131 | the input a link lands on after import: the first input with its target's name, at or before the original |
| RoundTrip.ImportedMatchesSelected | GeoShaderNodes_IE/__init__.py:111-113 | the node built for the a-th record has the a-th selected node's name, type, location, socket names and multi-input flags |
| RoundTrip.NodeMapFindsRecord | GeoShaderNodes_IE/__init__.py:125 | with unique selected names, the a-th record's name maps to the a-th built node |
| RoundTrip.SelectedNamesDistinct | GeoShaderNodes_IE/__init__.py:62-85 | with unique selected names, two records of one export have different names |
| RoundTrip.ResolvesByName | GeoShaderNodes_IE/__init__.py:128-133 | a record whose names map to nodes that carry sockets of the recorded names resolves to a link with those names |
| RoundTrip.ExportedLinkResolves | GeoShaderNodes_IE/__init__.py:128-133 | a link inside the selection, exported then imported, resolves to a link with the same name tuple, into the node made for its target and the input `ImportTarget` names, which takes several links exactly when that input did |
| RoundTrip.ExportedRecordResolves | GeoShaderNodes_IE/__init__.py:127-133 | every exported link record resolves to a link with its own name tuple |
| RoundTrip.ResolvedNames | GeoShaderNodes_IE/__init__.py:127-133 | records that each resolve to their own name tuple come back as exactly those tuples, in order |
| RoundTrip.ExportedRecordsResolve | GeoShaderNodes_IE/__init__.py:127-133 | all exported link records resolve to links with their own name tuples |
| RoundTrip.ImportIntoEmpty | GeoShaderNodes_IE/__init__.py:108-135 | importing a block whose records all build into an empty tree gives its built nodes, a `links.new` per resolved link, and true |
| RoundTrip.ExportedLinksResolve | GeoShaderNodes_IE/__init__.py:127-133 | the imported links carry exactly the name tuples of the original links inside the selection, in order |
| RoundTrip.ExportedNamesBack | GeoShaderNodes_IE/__init__.py:127-133 | the resolved exported records carry exactly the exported name tuples, in order |
| RoundTrip.ExportedPairMulti | GeoShaderNodes_IE/__init__.py:127-133 | two exported links that resolve into the same input: the later does not replace the earlier, as that input takes several links and the two links differ |
| RoundTrip.ExportedCallsWithinLimits | GeoShaderNodes_IE/__init__.py:127-133 | when the selection is distinct by name, no resolved exported link would be replaced by a later one: the imported links stay within limits |
| RoundTrip.ExportedLinksKept | GeoShaderNodes_IE/__init__.py:127-133 | no `links.new` of the import replaces another: the tree ends with every resolved link, in order |
| RoundTrip.ExportThenImport | GeoShaderNodes_IE/__init__.py:51-135 | export a selection with unique names, import into an empty tree with a host that makes same-socketed nodes, when links into same-named inputs of one node only share a multi-input and have different records: true, one node per selected node (same name, type and location, in order), and links with exactly the original name tuples, in order |

## Left out

- The Blender operators, menus, preferences, `get_export_path`, `register` and `unregister` (lines 41-45 and 138 onwards). They are host UI and registration glue.
- Opening, reading and writing the file, `os.path.exists`, `json.load` and `json.dump`. The file is a `FileState` given as input, and the written document is the result. A `json.load` result that is not an object, and blocks or records missing a key (a `KeyError` at lines 112-114 and 128-131), are not modelled: a `Block` and a `NodeRecord` always have every field.
- Reflection over `bl_rna.properties` and the `mathutils` type checks. A node's property list and each value's kind are given as data.
- Float semantics. Locations and colour components are reals that are only copied, never computed with.
- `name`, `location` and `select` are writable reflected properties of a node. The source's property loop (lines 67-72) therefore records them in `properties` as well. On import, `hasattr` finds them and `restore_value` writes them back: the name and location are assigned a second time, and every imported node ends up selected. The model keeps these three as fields of their own, leaves them out of the exported property map, and does not re-apply them; an imported node keeps the `select` of the node the host created.
- `hasattr` also finds attributes that are not properties (methods, for instance). A recorded key naming one of those is not modelled.
- Importer.RestoreValue: what the host stores depends only on the current and the incoming value (`Host.assign`), not on which node or property is written or on anything else the setter could see.
- Importer.ApplyProperty: a setter changes only its own property or socket default. A Blender setter that rebuilds a node's sockets as a side effect (a data-type or mode property, for instance) is not modelled; the unchanged outputs, input names and defaults rest on this.
- Importer.ConfigureNode: Blender truncates an assigned node name to 63 bytes and renames a node whose name is already taken. The model stores the recorded name as given, so `node_map` and the round trip rely on names the host keeps.
- Import builds and configures a node before appending it; the source appends it first. The failure after appending is kept: for a location that is not two numbers, the node is appended with its new name and the import raises (`Importer.ImportStops`). A location list holding something other than numbers is not modelled: a record's location is a list of reals.
- Which inputs take several links (`Socket.multiInput`, Blender's `is_multi_input`) is data of each socket. The link limit of an output and the number of links a multi-input accepts are not modelled; `links.new` replaces only a link into the same single-link input or between the same two sockets.
- `Importer.Host.assign` stands for every assignment the import makes. Which assignments raise, and what the host stores, is the host's business.
- Items of a sequence property are taken to be JSON values already.
- Importer.ImportNodes: that properties and socket defaults survive export then import is not proved. It depends on what the host's setter stores, and on an input's identifier matching an input's name (see above).
- Importer.NodeTree.AddNode: the node that `nodes.new` creates is passed in; the factory call itself is `Host.create`.
- RoundTrip.ExportThenImport: holds for a host whose created nodes have the same socket names and multi-input flags as the originals, for selections with unique node names, and when links into inputs of one node that share a name arrive only where the first input of that name takes several links and have different records. Without the last condition the import can lose links (`Importer.ImportLosesLink`, `Graph.JoinGeometryKeepsOneLink`).
