# MindMup map generator, modelled in Dafny

This project models the core of `mindmupgenerator.py`. That module builds a mind map for the
MindMup viewer. A map is a tree of ideas (`BaseIdea`), and its root is also a manager
(`MindMupManager`). The manager keeps three things:
- an id table (`idList`);
- a registry of links between pairs of nodes (`_linksManager`);
- the list of measurement names the viewer shows.

The manager exports the tree to the viewer's nested record (`to_mindmup`) and reads such a
record back (`_parseNodes`). The module also defines a list with a forward index (key to value)
and a reverse index (position to key), `KeyIndexedModelCollection`.

Modules, one per file:

- `Wrappers` (`wrappers.dfy`): `Option` and `Result`.
- `Strings` (`strings.dfy`): decimal rank strings, and the order in which measurement names are listed.
- `Ideas` (`ideas.dfy`): the node record and the per-node operations `addMeasure`,
  `setCollapse` and `appendIdea`. Also the depth-first walk `walkSubTree` and `reorderIds`'s
  renumbering. A node is a value; its `handle` stands for the identity of the Python object.
- `Codec` (`codec.dfy`): the wire record, `parse_to_mindmup` (tree to record, with id
  assignment and the leaf-collapse rule) and `_parseNodes` (record to tree).
- `Links` (`links.dfy`): the link registry as an ordered list of distinct node pairs, with
  `manageLink`'s add and remove.
- `IdTable` (`idtable.dfy`): `updateIdList` in its strict and lenient modes.
- `Manager` (`manager.dfy`): the `MindMupManager` class and its methods, which update its
  fields in place, plus the link rebuild done after a document is read.
- `Keyed` (`keyed.dfy`): `KeyIndexedModelCollection` as a class over its list and its two
  dictionaries, with the operations specified by functions on its state.
- `Demo` (`demo.dfy`): the demonstration at the end of the module, as a verified scenario.

## Model

| member | source | states |
|---|---|---|
| Strings.ParseNatToString | mindmupgenerator.py:182-183 | the decimal rank string `str(rank)` reads back as the same number |
| Strings.NatToStringInjective | mindmupgenerator.py:182-183 | different ranks give different rank strings |
| Strings.LexLessTransitive | mindmupgenerator.py:271-272 | the order on measurement names is transitive |
| Strings.LexLessTotal | mindmupgenerator.py:271-272 | any two different names are ordered one way or the other |
| Strings.LexLessAsymmetric | mindmupgenerator.py:271-272 | no two names are each below the other |
| Strings.LeastExists | mindmupgenerator.py:271-272 | every non-empty set of names has a least element |
| Strings.SortedListingUnique | mindmupgenerator.py:271-272 | two strictly sorted listings of the same names are equal |
| Strings.SortedListingLength | mindmupgenerator.py:271-272 | a strictly sorted listing of a set of names has as many entries as the set |
| Strings.SortedNames | mindmupgenerator.py:271-272 | lists the collected set of names once each, strictly sorted, with exactly the set's members |
| Ideas.NewIdea | mindmupgenerator.py:153-161 | a new node has the given title and no id, attributes, children or root fields |
| Ideas.SetCollapse | mindmupgenerator.py:216-219 | creates the attribute record if needed and sets `collapsed`; nothing else changes |
| Ideas.AddMeasure | mindmupgenerator.py:202-214 | upserts one measurement; the other measurements and attributes and the rest of the node are kept |
| Ideas.AppendIdea | mindmupgenerator.py:231-232 | the child goes last; the earlier children and the rest of the node are kept |
| Ideas.AddMeasureOverwrites | mindmupgenerator.py:202-214 | writing a name twice keeps only the second value |
| Ideas.AddMeasureCommutes | mindmupgenerator.py:202-214 | upserts of two different names can be swapped |
| Ideas.AddMeasuresIsOverlay | mindmupgenerator.py:321-325 | replaying a measurement table entry by entry lays the table over the node's measurements |
| Ideas.WalkSubTree | mindmupgenerator.py:166-173 | the walk visits the pre-order listing; each visit carries the node, its children and a depth above `level` |
| Ideas.WalkAppend | mindmupgenerator.py:166-173 | appending a child adds its subtree's walk, one level deeper, after the earlier visits |
| Ideas.PreorderAppend | mindmupgenerator.py:231-232 | appending a child appends its subtree to the pre-order listing, and the size grows by its size |
| Ideas.MeasurementNamesInIff | mindmupgenerator.py:261-267 | a name is collected exactly when some walked node carries it |
| Ideas.RenumberPreorder | mindmupgenerator.py:285-289 | renumbering gives the i-th visited node id first + i and changes nothing else of it |
| Codec.Serialize | mindmupgenerator.py:187-190 | the record holds the node's own fields; it has an `ideas` member exactly when there are children, child k under rank k + 1 |
| Codec.RankKeysDistinct | mindmupgenerator.py:182-184 | the rank keys of one record's children are pairwise distinct |
| Codec.ParseToMindmup | mindmupgenerator.py:175-185 | the id comes from the counter when there is one; a childless node gets `collapsed = False`; children are encoded under ranks "1", "2", ... |
| Codec.EncodeSerializes | mindmupgenerator.py:175-185 | the returned record is the serialization of the node as the call leaves it |
| Codec.EncodePreorder | mindmupgenerator.py:175-185 | with a counter, the i-th visited node gets counter + i and the counter advances by the tree's size; without one, ids are kept; only ids and leaf collapse change |
| Codec.EncodedKeepsContent | mindmupgenerator.py:175-185 | encoding keeps every visited node's handle, title and measurements |
| Codec.EncodedTreeWithRoot | mindmupgenerator.py:175-185 | the node-by-node encoding relation still holds when both roots get the same root fields |
| Codec.EncodeAllPreorder | mindmupgenerator.py:181-184 | the same for a list of siblings, whatever the rank it starts at |
| Codec.NumbersAndCollapses | mindmupgenerator.py:175-179 | numbering from `first` gives ids first, first + 1, ... in walk order, keeps handles and leaves no leaf collapsed |
| Codec.EncodeUncollapsesLeaves | mindmupgenerator.py:178-179 | after encoding, no node without children is collapsed, and handles are kept in pre-order |
| Codec.EncodeKeepsPrepared | mindmupgenerator.py:305-307 | encoding without a counter a tree whose leaves are uncollapsed changes nothing |
| Codec.NodeFromWire | mindmupgenerator.py:316-320 | the record with id 1 becomes the root variant and any other a plain node, with the record's id and title and no children |
| Codec.ParseNodes | mindmupgenerator.py:313-329 | decoding succeeds exactly when every record has an id; handles h, h + 1, ... are handed out in pre-order |
| Codec.ParseEntries | mindmupgenerator.py:328-329 | a list of child records decodes entry by entry, exactly when all have ids |
| Codec.DecodeHandles | mindmupgenerator.py:313-329 | decoded nodes get consecutive handles in pre-order |
| Codec.DecodeSerialize | mindmupgenerator.py:313-329 | decoding a serialized tree gives it back with fresh handles: titles, ids, attributes, measurements, child order and root fields survive |
| Codec.DecodeSerializeAll | mindmupgenerator.py:328-329 | the same for a list of sibling entries |
| Codec.RenameConfig | mindmupgenerator.py:310-311 | the name list moves from the internal key to the viewer's key; the rest of the record is unchanged |
| Links.LinkMap | mindmupgenerator.py:252-258 | the registry read as a dictionary has exactly the registry's pairs as keys |
| Links.PutLink | mindmupgenerator.py:253-256 | adding a pair adds its key and grows the registry by at most one entry |
| Links.DropLink | mindmupgenerator.py:257-258 | removing a pair removes exactly its key |
| Links.PutLinkSets | mindmupgenerator.py:253-256 | adding keeps pairs distinct and acts as a dictionary store of the pair's style |
| Links.DropLinkRemoves | mindmupgenerator.py:257-258 | removing keeps pairs distinct and acts as a dictionary pop of the pair |
| Links.DropAbsentLink | mindmupgenerator.py:258 | removing a pair that is not stored changes nothing |
| Links.AddedStyle | mindmupgenerator.py:27-34 | the stored style is the default link style overlaid with the keyword arguments |
| IdTable.FreeKey | mindmupgenerator.py:278-282 | the key a colliding id is filed under is free, and every key with fewer underscores is taken |
| IdTable.FreeKeyIsFirstFree | mindmupgenerator.py:278-282 | that key is the only free key with all the shorter keys taken |
| IdTable.LenientTable | mindmupgenerator.py:274-283 | the lenient table files every walked node, so it has as many keys as there are nodes |
| IdTable.LenientFilesEveryNode | mindmupgenerator.py:274-283 | every walked node is in the lenient table under a key made from its own id |
| IdTable.StrictScan | mindmupgenerator.py:274-283 | the strict walk succeeds exactly when ids are distinct, and then its keys are exactly the walked ids |
| IdTable.StrictScanFiles | mindmupgenerator.py:274-283 | after a successful strict walk each node is found under its own id |
| IdTable.StrictScanNamesDuplicate | mindmupgenerator.py:278-280 | a raised walk names an id that two walked nodes share |
| IdTable.LenientAgreesWhenDistinct | mindmupgenerator.py:274-283 | with distinct ids both modes build the same table |
| IdTable.IdsDistinctPairwise | mindmupgenerator.py:278-280 | "no id repeats an earlier one" is the same as "no two positions share an id" |
| Manager.NodeWithHandle | mindmupgenerator.py:295 | finds a node with the handle exactly when the walk has one |
| Manager.EndpointId | mindmupgenerator.py:295 | an endpoint's id is found exactly when its node is in the tree and has an id |
| Manager.ResolveLinks | mindmupgenerator.py:291-296 | resolving succeeds exactly when every endpoint has an id; then link k joins entry k's endpoint ids with the default style |
| Manager.FirstUnresolved | mindmupgenerator.py:294-296 | the number of registry entries before the first one with an endpoint that cannot be resolved |
| Manager.ResolvedPrefix | mindmupgenerator.py:293-296 | the links left on the root: those of the entries before the first unresolvable one, and all of them when every entry resolves |
| Manager.PrefixBeforeUnresolved | mindmupgenerator.py:293-296 | when the first k entries resolve and entry k does not, the links of the first k entries are what the root keeps |
| Manager.LinkEndpointsIndexed | mindmupgenerator.py:291-296 | each exported link's ids are filed in the id table under the registry entry's own nodes |
| Manager.RebuildLinks | mindmupgenerator.py:341-342 | the rebuild succeeds exactly when every link's ids are in the table; it adds exactly the pairs the links name; the styles are stated by `RebuildLastWins` and `RebuildKeepsOthers` |
| Manager.RebuildLastWins | mindmupgenerator.py:341-342 | each pair a link names is stored with that link's style when no later link names the same pair, so the last link wins |
| Manager.RebuildKeepsOthers | mindmupgenerator.py:341-342 | a pair that no link names keeps the style the registry already held for it |
| Manager.RebuildKeepsPairsDistinct | mindmupgenerator.py:341-342 | the rebuilt registry still holds each pair once |
| Manager.ExportedLinksAsWritten | mindmupgenerator.py:305-307 | as written, the export agrees with the corrected one exactly when the registry is non-empty or the root had no links |
| Manager.StaleLinkAfterRemoval | mindmupgenerator.py:305-307 | adding a link with `manageLink`, exporting, removing it with `manageLink` and exporting again: the first export has the link, the registry is empty afterwards, the second export as written still has the link, and the corrected one has none |
| Manager.MindMupManager.constructor | mindmupgenerator.py:242-247 | a new manager is the root variant with format version 2, no children, an empty id table and an empty registry |
| Manager.MindMupManager.AppendIdea | mindmupgenerator.py:231-232 | the child goes last in the root, its subtree is added to the walk, and nothing else changes |
| Manager.MindMupManager.ManageLink | mindmupgenerator.py:252-258 | "add" stores the overlaid style for the pair, "remove" pops the pair, any other action leaves the registry as it was |
| Manager.MindMupManager.CollectMeasurementNames | mindmupgenerator.py:261-267 | the collected names are exactly those on some walked node |
| Manager.MindMupManager.UpdateMeasurements | mindmupgenerator.py:260-272 | the earlier list is kept as a prefix, followed by the collected names, sorted |
| Manager.MindMupManager.UpdateIdList | mindmupgenerator.py:274-283 | rebuilds the table in either mode; the strict mode raises on the first repeated id; the tree and registry do not change |
| Manager.MindMupManager.ReorderIds | mindmupgenerator.py:285-289 | ids become 1, 2, ... in walk order, and the table files node n under n; nothing else of the tree changes |
| Manager.MindMupManager.NumberingTable | mindmupgenerator.py:285-289 | the table files the n-th visited node under id n, and holds nothing else |
| Manager.MindMupManager.UpdateLinkList | mindmupgenerator.py:291-296 | a repeated id raises and leaves the tree as it was; otherwise the links are emptied and refilled: the root keeps the links of the entries before the first unresolvable one, whose error is raised, or all the links; nothing else of the tree changes |
| Manager.MindMupManager.RelinkRoot | mindmupgenerator.py:293-296 | the root's links become the links of the entries before the first unresolvable one, and that entry's error is returned; with every entry resolvable they become all the links and no error is returned; the registry and table do not change |
| Manager.MindMupManager.ResolveRegistry | mindmupgenerator.py:294-296 | the loop computes exactly the resolved registry, stopping at the first failing endpoint |
| Manager.MindMupManager.FindEndpoint | mindmupgenerator.py:295 | the loop finds the same id as the first walked node with the handle |
| Manager.MindMupManager.EncodeForExport | mindmupgenerator.py:299-304 | the name list keeps its earlier entries and gains the collected names, sorted; every node keeps its title, measurements and handle, ids become 1, 2, ... when numbering and are kept otherwise, and no leaf is collapsed; the root keeps its other fields |
| Manager.MindMupManager.FinishExport | mindmupgenerator.py:305-312 | only the root's links change: a repeated id fails and leaves them as they were, otherwise they become the resolvable prefix of the registry; it succeeds exactly when ids are distinct and every endpoint resolves, and then returns the renamed record of the tree left, with its table and links in step |
| Manager.MindMupManager.EncodeAgain | mindmupgenerator.py:308 | encoding again without renumbering changes nothing in the tree and returns its renamed record |
| Manager.MindMupManager.ToMindmup | mindmupgenerator.py:298-312 | the name list keeps its earlier entries and gains the collected names, sorted; every node keeps its title, measurements and handle; ids become 1, 2, ... when asked and are kept otherwise; no leaf is collapsed; the root keeps its other fields; its links are left as they were on a repeated id and are otherwise the resolvable prefix of the registry; the result is the renamed record of the tree left; with numbering and endpoints in the tree it succeeds |
| Manager.NumberedExport | mindmupgenerator.py:300-307 | after numbering, ids are distinct and every registry entry whose endpoints were in the tree resolves |
| Manager.SameKeysAgree | mindmupgenerator.py:274-296 | the id table and the resolved links depend only on the walked handles and ids |
| Manager.SameKeysPrefix | mindmupgenerator.py:293-296 | the resolvable prefix depends only on the walked handles and ids |
| Manager.ExportComposes | mindmupgenerator.py:298-312 | the encoding step followed by the link step changes the tree as the whole export promises: encoded node by node, with only the root's name list and links replaced |
| Keyed.FirstFreeKey | mindmupgenerator.py:71-75 | the generated key is free, and every integer from the start up to it is taken |
| Keyed.AppendedKeepsConsistent | mindmupgenerator.py:85-90 | appending under a fresh key keeps the list and both indices in step, and the generated key is fresh |
| Keyed.PoppedKeepsConsistent | mindmupgenerator.py:94-99 | with the corrected pop (see Findings 94-99): popping a valid position returns its element, removes it and its key, and keeps the indices in step; any other position raises and changes nothing |
| Keyed.RemovedContents | mindmupgenerator.py:94-99 | after a pop the list drops exactly that element and the index drops exactly its key |
| Keyed.PopUndoesAppend | mindmupgenerator.py:85-99 | popping right after appending gives back the value and the collection as it was |
| Keyed.ConsistentSizes | mindmupgenerator.py:128 | on a consistent collection the closing length check holds |
| Keyed.SyncRecovers | mindmupgenerator.py:122-128 | on a consistent collection of distinct elements the resync rebuilds the reverse index exactly |
| Keyed.ResyncedFacts | mindmupgenerator.py:122-128 | after a resync of a consistent collection the length check passes, and with distinct elements nothing changes |
| Keyed.IndexedKeyHasPosition | mindmupgenerator.py:132-136 | on a consistent collection an indexed key is some position's key |
| Keyed.KeyPosition | mindmupgenerator.py:132-136 | on a consistent collection an indexed key belongs to exactly one position |
| Keyed.KeyPopStep | mindmupgenerator.py:138-143 | with the corrected pop (see Findings 94-99): popping the position found for a key returns the key's value and removes that position, keeping the indices in step |
| Keyed.KeyIndexedModelCollection.constructor | mindmupgenerator.py:77-83 | a new collection is empty with empty indices, and consistent |
| Keyed.KeyIndexedModelCollection.DefaultKey | mindmupgenerator.py:71-75 | corrected generator (see Findings 71-75): the loop returns the first non-indexed integer from the index's size up, so the key is fresh |
| Keyed.KeyIndexedModelCollection.Append | mindmupgenerator.py:85-90 | with the corrected generator (see Findings 71-75): the new state is the appended one, under a fresh key, and the collection stays consistent |
| Keyed.KeyIndexedModelCollection.Pop | mindmupgenerator.py:94-99 | the new state and the result are the corrected pop of the old state |
| Keyed.KeyIndexedModelCollection.SyncReverseIndex | mindmupgenerator.py:122-128 | the list and index are kept; each position gets a key indexed to its element, when there is one; the length check passes on a consistent collection, and with distinct elements the reverse index is unchanged |
| Keyed.KeyIndexedModelCollection.KeyOf | mindmupgenerator.py:124-127 | finds a key indexed to the value exactly when there is one |
| Keyed.KeyIndexedModelCollection.SearchIndexFromKey | mindmupgenerator.py:132-136 | None for an unindexed key, otherwise the first position with that key; on a consistent collection of distinct elements it succeeds |
| Keyed.KeyIndexedModelCollection.PopFromKey | mindmupgenerator.py:138-143 | with the corrected pop (see Findings 94-99): None for an unindexed key; on a consistent collection of distinct elements an indexed key's value is returned and its position and key are removed, in step |
| Keyed.DefaultKeyCollides | mindmupgenerator.py:71-75 | as written, appending after a pop reuses a live key and leaves the index out of step |
| Keyed.DefaultKeyCorrected | mindmupgenerator.py:71-75 | with the corrected generator the same run files the new value under a fresh key and stays consistent |
| Keyed.PopDriftsReverseIndex | mindmupgenerator.py:94-99 | as written, a pop after popping position 0 removes the last element but the key of another one |
| Keyed.PopCorrected | mindmupgenerator.py:94-99 | with the later reverse entries moved down, the same run removes the right key and stays consistent |
| Demo.BuildDemo | mindmupgenerator.py:349-357 | the demonstration tree walks as test, base1, idea2; base1 ends with A = "2" and B = "1"; the registry holds (base1, idea2) with the default style |
| Demo.RunDemo | mindmupgenerator.py:349-362 | the demonstration's export succeeds; the nodes keep the titles test, base1 and idea2, are numbered 1, 2, 3, and base1 keeps A = "2" and B = "1"; the root carries one link, from 2 to 3, with the default style, and the name list ["A", "B"], which the record shows under `measurements-config` |
| Demo.ExportDemo | mindmupgenerator.py:362 | the export of the tree `BuildDemo` leaves has exactly the outcome `RunDemo` states |
| Demo.DemoContent | mindmupgenerator.py:349-362 | the export keeps the demonstration's titles and base1's measurements, and the name list it builds is ["A", "B"] |
| Demo.DemoConfig | mindmupgenerator.py:271-272 | the only strictly sorted listing of the names A and B is ["A", "B"] |

## Left out

- jsonmodels validation is left out: field types, required fields, `formatVersion`'s bounds, and the model classes built by `MeasurementFactory`. Measurements are a map from name to string, and the wire record is a datatype.
- Reading a map file in `parseMindMupFile` is left out: file I/O, JSON parsing, and the stray `self` arguments passed to `updateMeasurements` and `updateIdList`. The link rebuild at its end is modelled as `Manager.RebuildLinks`. The `__init__` path that reads a file is left out with it.
- Debug `print`s, `pprint`, writing `/tmp/test.mup`, `dictToHtmlTable`, `__str__`, `addAttachment`, `setColor`, `Link.setColor`/`setLineStyle`, `IndexedListField`, `BaseIdeaIndexed` and `sharedNodeManager` are not part of this model.
- Python 2 dictionary and set iteration order is left unspecified in the source. Here the measurement names are appended sorted, the registry is walked in insertion order, and the decoder reads child records in listed order. Listed order is used rather than ascending rank order because the decoder does not sort its input and a document's rank keys need not be natural numbers. On records the encoder writes, the two orders are the same: child k is listed k-th under rank k + 1, and `Codec.DecodeSerialize` reads them back in that order.
- `Link.defaults` aliasing is not modelled: `manageLink` updates the shared default style dictionary in place, so later links would inherit earlier keyword arguments. Each added style here is the default overlaid with that call's keyword arguments only.
- Nodes are values: a node shared by two parents, or changed through another reference after it was appended, is not modelled.
- `KeyIndexedModelCollection.__setitem__` and `__delitem__` are not part of this model.
- The wire record does not tell a JSON `null` from an absent member: `WireNode.id == None` stands for a missing `id`, on which the decoder fails (line 318). A record with `"id": null` would be read as a plain node without an id; here it also fails with `MissingId`.
- Keyed.KeyIndexedModelCollection.SyncReverseIndex: the inner loop's choice among several keys with equal values is left open, so with equal elements the resync may give two positions the same key. Consistency after a resync is therefore only stated for distinct elements.
- Keyed.KeyIndexedModelCollection.PopFromKey: success is only promised on a consistent collection of distinct elements; on other states only the None case is stated. It pops through the corrected `Pop`, so the later reverse entries are moved down rather than left drifted as `pop` at lines 94-99 leaves them.
- Manager.MindMupManager.ToMindmup: `updateLinkList` runs even when the registry is empty (see Findings), and a registry endpoint that is not in the tree or has no id raises instead of reading a stale or missing id.
- Manager.MindMupManager.UpdateMeasurements: the sorted order of the appended names is a choice made here; the source appends the set in no particular order.

## Findings

| source | as written | input that shows it | evidently intended | confidence | as-written member | corrected member |
|---|---|---|---|---|---|---|
| mindmupgenerator.py:71-75 | `key in self` tests the candidate against the stored models, never against the keys, so the generator always returns `len(self._index)` | append 10, append 20, pop position 0, append 30: 30 is filed under key 1, which 20 still holds | skip the keys already in `_index` | high, not executed | Keyed.DefaultKeyCollides | Keyed.DefaultKeyCorrected |
| mindmupgenerator.py:94-99 | `pop` drops the position's reverse entry but does not move the later entries down | append 10, 20, 30, pop position 0, then `pop()`: 30 leaves the list but key 1, the key of 20, leaves the index | move the later reverse entries down by one | high, not executed | Keyed.PopDriftsReverseIndex | Keyed.PopCorrected |
| mindmupgenerator.py:305-307 | the links are rebuilt only when the registry is non-empty | add a link, export, remove the link, export: the old link is still on the root | rebuild the links on every export | medium, not executed | Manager.StaleLinkAfterRemoval | Manager.MindMupManager.ToMindmup |
