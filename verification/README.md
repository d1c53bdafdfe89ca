# KeePass 2.x XML importer — a Dafny model of its conversion core

The importer turns a KeePass 2.x XML export, once an XML deserializer has
turned it into a generic tree, into a Buttercup archive: one destination group
per `Group` element, one destination entry per `Entry` element of a group, and
for every `String` element of an entry a value stored either as a property
(`title`, `username`, `password`, matched case-insensitively and stored under
the lower-case name) or as a meta value under the key as written.

The model has five modules:

- `Wrappers` (`wrappers.dfy`): `Option`.
- `SourceTree` (`source_tree.dfy`): the deserializer's tree as a tagged value
  `Node` (string, array, plain object with an optional `_` text body, `null`,
  `undefined`), with JavaScript property access (`Get`), truthiness (`Truthy`),
  `x || []` followed by `forEach` (`Items`) and `x[0]` (`First`).
- `Text` (`text.dfy`): `extractString` (`ExtractString`), the `join` it uses
  (`Join`, with `ElementText` for how `join` renders each element), an inverse
  `Split` of joining with `", "`, and `toLowerCase` (`LowerCase`).
- `Buttercup` (`buttercup.dfy`): the destination, seen only through the four
  calls the importer makes (`createGroup`, `createEntry`, `setProperty`,
  `setMeta`), as values: `Group(name, groups, entries)`,
  `Entry(properties, meta)`, `Archive(groups)`; plus group/entry counts and a
  `Shape` outline of a group tree.
- `Importer` (`importer.dfy`): `processGroup` as the recursive method
  `ProcessGroup` with one loop per `forEach`, its `Group` callback as
  `ProcessSubgroup` and its `Entry` callback as `ProcessEntry`, the root
  lookup `keepassJS.KeePassFile.Root[0]` with its `rootGroup || {}` fallback
  (`RootGroup`, `StartNode`), and `exportArchive`'s `then` callback with its
  `catch` (`ExportArchive`). Each method is proved equal to a specification
  function (`ChildrenOf`, `GroupOf`, `EntriesOf`, `EntryOf`, `ApplyPairs`),
  and the importer's promises are proved as lemmas about those functions.

Which trees the walk survives is explicit. JavaScript throws a `TypeError`
when `forEach` meets a truthy non-array `Group`, `Entry` or `String` value,
when a property is read from a `null`/`undefined` list element, and when
`extractString` meets an array whose first element is `null`. `Walkable`
states the absence of all of these. `ProcessGroup` requires it. `ExportArchive`
answers `None` (the `catch` resolving to `undefined`) when it fails.

Both ways the conversion can fail end in the same place. A parse error
(line 69) rejects the inner promise, and a `TypeError` thrown during the walk
rejects the `then` callback. Either way the `catch` at line 86 logs the error
and resolves to `undefined`, so the promise returned by `exportArchive` never
rejects. The walk throws on a truthy `Group`/`Entry`/`String` value that is
not an array, and the whole archive is then dropped. Only absent or falsy
lists count as empty.

## Model

| member | source | states |
|---|---|---|
| `Text.ExtractString` | source/importers/KeePass2XMLImporter.js:15-27 | `extractString`: a string as is; for an array, the `_` text of its first element when that element is an object with its own `_`, else the elements joined by `", "`; `toString()` of any other truthy value; `""` for `null`/`undefined`. Defined for every value except an array starting with `null`, on which `hasOwnProperty` throws. Its partner is `Split` (`SplitJoin`, `ExtractStrings`) |
| `Text.ExtractSingleText` | source/importers/KeePass2XMLImporter.js:18-23 | a text element without attributes, `[s]`, reads as exactly `s` |
| `Text.ExtractBodyWins` | source/importers/KeePass2XMLImporter.js:19-22 | a text element whose first item is an object with its own `_` text `b` reads as `b`, whatever items follow |
| `Text.ExtractEmptyTexts` | source/importers/KeePass2XMLImporter.js:19-23 | an absent text `[]` and an empty text `[""]` both read as `""` |
| `Text.ExtractAttributesOnly` | source/importers/KeePass2XMLImporter.js:19-23 | an element with attributes and no text, `[{$: ...}]`, reads as `"[object Object]"`, not as `""` |
| `Text.Join` | source/importers/KeePass2XMLImporter.js:23 | `Array.prototype.join`: the elements with the separator between neighbours, `""` for no elements |
| `Text.ElementText` | source/importers/KeePass2XMLImporter.js:23 | how `join` renders one element: a string as is, `null`/`undefined` as `""`, a nested array joined with `","`, an object as `"[object Object]"` |
| `Text.SplitJoin` | source/importers/KeePass2XMLImporter.js:23 | joining with `", "` loses nothing: cutting the joined text at every `", "` gives back the elements, provided none of them contains `", "` |
| `Text.ExtractStrings` | source/importers/KeePass2XMLImporter.js:18-23 | a non-empty array of plain strings (the usual shape of a text element) is read as those strings separated by `", "`, recoverable one by one when none contains the separator |
| `Text.LowerCase` | source/importers/KeePass2XMLImporter.js:44 | `toLowerCase`, character by character |
| `Text.LowerCaseInPlace` | source/importers/KeePass2XMLImporter.js:44 | `toLowerCase` keeps the length and lower-cases each character in place |
| `Text.LowerCaseOfVariants` | source/importers/KeePass2XMLImporter.js:44 | keys that differ only in the case of ASCII letters lower-case to the same key |
| `Text.LowerCaseIdempotent` | source/importers/KeePass2XMLImporter.js:44 | lower-casing an already lower-cased key changes nothing |
| `Buttercup.NewGroup` | source/importers/KeePass2XMLImporter.js:33 | `createGroup(name)`: a group with that name and no subgroups or entries yet |
| `Buttercup.NewEntry` | source/importers/KeePass2XMLImporter.js:39 | `createEntry()`: an entry with no properties and no meta values |
| `Buttercup.SetProperty` | source/importers/KeePass2XMLImporter.js:46 | `setProperty` makes the named property hold the value, leaves every other property as it was and does not touch the meta values |
| `Buttercup.SetMeta` | source/importers/KeePass2XMLImporter.js:48 | `setMeta` makes the key hold the value, leaves every other meta value as it was and does not touch the properties |
| `Importer.PairWalkable` | source/importers/KeePass2XMLImporter.js:40-43 | one element of a `String` list survives lines 42-43: it is not `null`/`undefined`, and neither its `Key` nor its `Value` is an array starting with `null` (on which `extractString` throws at line 20) |
| `Importer.EntryWalkable` | source/importers/KeePass2XMLImporter.js:38-43 | one element of an `Entry` list survives lines 40-50: it is not `null`/`undefined`, its `String` value is an array or falsy (a truthy non-array makes `forEach` throw), and every pair in it survives |
| `Importer.SubgroupWalkable` | source/importers/KeePass2XMLImporter.js:32-53 | one element of a `Group` list survives the callback: it is not `null`/`undefined`, its `Name` can be read by `extractString` (line 33), its own `Group` list can be walked (lines 34-35), and its `Entry` value is an array or falsy whose every element survives (lines 37-38) |
| `Importer.Walkable` | source/importers/KeePass2XMLImporter.js:29-55 | `processGroup(group)` throws no `TypeError`: its `Group` value is an array or falsy (line 30), and every element survives the callback; `ProcessGroup` requires it and `ExportArchive` answers `None` without it |
| `Importer.ApplyPair` | source/importers/KeePass2XMLImporter.js:41-49 | one `String` pair: `extractString(Value)` goes to property `toLowerCase(extractString(Key))` when that is `title`, `username` or `password`, else to meta under `extractString(Key)` as written |
| `Importer.ApplyPairs` | source/importers/KeePass2XMLImporter.js:40-50 | the `String` loop: `ApplyPair` for each pair in document order |
| `Importer.RoutingIsExclusive` | source/importers/KeePass2XMLImporter.js:42-49 | each `String` pair goes to exactly one bucket: a pair whose key is a primary field in some casing leaves the meta values unchanged, and any other pair leaves the properties unchanged |
| `Importer.RoutingIgnoresCase` | source/importers/KeePass2XMLImporter.js:44-46 | keys that differ only in the case of ASCII letters (`Title`, `TITLE`, `title`) target the same property and, with equal values, leave the same properties |
| `Importer.ApplyPairProperty` | source/importers/KeePass2XMLImporter.js:42-49 | one pair changes property `name` only when its lower-cased key is `name` and `name` is a primary field, and then `name` holds the pair's value |
| `Importer.ApplyPairMeta` | source/importers/KeePass2XMLImporter.js:42-49 | one pair changes meta value `key` only when its key is `key` and `key` is not a primary field in any casing, and then `key` holds the pair's value |
| `Importer.PropertyUntouched` | source/importers/KeePass2XMLImporter.js:40-50 | a property that no pair of the `String` list sets keeps its previous state (present or absent, same value) |
| `Importer.PropertyLastWins` | source/importers/KeePass2XMLImporter.js:40-50 | a property set by several pairs ends holding the value of the last of them in document order |
| `Importer.MetaUntouched` | source/importers/KeePass2XMLImporter.js:40-50 | a meta key that no pair sets keeps its previous state |
| `Importer.MetaLastWins` | source/importers/KeePass2XMLImporter.js:40-50 | a meta key set by several pairs ends holding the value of the last of them in document order |
| `Importer.ApplyPairsKeepsBucketsSeparated` | source/importers/KeePass2XMLImporter.js:41-49 | after any sequence of pairs, properties hold only `title`/`username`/`password` and meta holds no key that lower-cases to one of them |
| `Importer.EntryOfBucketsSeparated` | source/importers/KeePass2XMLImporter.js:38-51 | every entry built from an `Entry` element keeps its properties and meta values apart as above |
| `Importer.ProcessEntry` | source/importers/KeePass2XMLImporter.js:38-51 | the `Entry` callback creates an entry and applies the `String` pairs in document order; a missing or falsy `String` list leaves the entry empty |
| `Importer.ProcessGroup` | source/importers/KeePass2XMLImporter.js:29-55 | `processGroup` appends to the container one group per element of the `Group` list, in order; nothing else in the container changes; a missing or falsy `Group` list adds nothing |
| `Importer.ProcessSubgroup` | source/importers/KeePass2XMLImporter.js:32-53 | the callback for one `Group` element creates a group named by `extractString` of its `Name`, holding its recursively built subgroups (none when its `Group` list is missing or falsy) and then one entry per `Entry` element, in order (none when its `Entry` list is missing or falsy) |
| `Importer.ShapePreserved` | source/importers/KeePass2XMLImporter.js:32-39 | each source group becomes a destination group with the same name, the same nesting and order of subgroups, and as many entries as it has `Entry` elements |
| `Importer.CountsPreserved` | source/importers/KeePass2XMLImporter.js:30-39 | the archive holds exactly as many groups as there are `Group` elements below the start node, and exactly as many entries as there are `Entry` elements inside them |
| `Importer.GroupCountPreserved` | source/importers/KeePass2XMLImporter.js:30-36 | one destination group per `Group` element below the start node, at every depth |
| `Importer.EntryCountPreserved` | source/importers/KeePass2XMLImporter.js:37-39 | one destination entry per `Entry` element of the groups below the start node, at every depth |
| `Importer.TopLevelEntriesIgnored` | source/importers/KeePass2XMLImporter.js:30-37 | `Entry` elements sitting directly on the node handed to `processGroup` have no effect on the result |
| `Importer.RootGroup` | source/importers/KeePass2XMLImporter.js:76-80 | the lookup `keepassJS.KeePassFile.Root[0]`: it throws (`None`) exactly when the document, its `KeePassFile` or its `Root` is `null` or `undefined` |
| `Importer.StartNode` | source/importers/KeePass2XMLImporter.js:82 | `rootGroup || {}`: the walk always starts from a truthy node |
| `Importer.StartNodeIsFirstRoot` | source/importers/KeePass2XMLImporter.js:77-82 | for a document `{KeePassFile: {Root: [r, ...]}}` with a truthy `r`, the walk starts from `r` |
| `Importer.EmptyRootFallsBack` | source/importers/KeePass2XMLImporter.js:77-82 | `Root: []` (where `Root[0]` is `undefined`) and an empty `<Root/>` (where it is `""`) both fall back to the empty object |
| `Importer.MissingRootGivesEmptyArchive` | source/importers/KeePass2XMLImporter.js:76-84 | a document whose `KeePassFile.Root[0]` throws or is falsy still converts, to an archive with no groups and no entries |
| `Importer.ExportArchive` | source/importers/KeePass2XMLImporter.js:73-88 | the archive is the groups `processGroup` builds from the start node, or nothing (the `catch` resolving to `undefined`) when the walk would throw |
| `Importer.InternetExample` | source/importers/KeePass2XMLImporter.js:29-55 | a root holding group `Internet` with one entry of pairs `Title`, `UserName`, `Password`, `URL` converts to one group `Internet` whose entry has properties `title`, `username`, `password` and meta `{URL}` |

## Left out

- `loadFromFile` (reading the file with `fs.readFile`): file I/O.
- The XML parse (`xml2js.Parser.parseString`) and the promise plumbing of `exportArchive`. The model starts from the parsed tree. A parse failure ends in the same `catch`, which resolves to `undefined`, not in a rejection.
- The `console.error` diagnostics: logging only.
- Buttercup's `Archive`, `ManagedGroup` and `ManagedEntry`: a foreign library. Only the four calls used are modelled, as value updates on an abstract tree. The model threads each group's child list through the walk and appends a group once it is complete. The code instead registers the group with its parent first and fills it through a handle. Nothing reads the tree during the walk, so the final tree is the same. What Buttercup does internally with a property or meta write (validation, history, events) is not modelled.
- `Importer.ExportArchive`: decides up front whether the walk would throw instead of stopping mid-walk. The partly built archive is dropped by the `catch` either way, so the outcome is the same.
- `Text.LowerCase`: lower-cases one character at a time, so a character never becomes two, while JavaScript turns U+0130 `İ` into `i` followed by U+0307. No key that reaches a primary field is affected (see the next line).
- `Text.LowerCaseInPlace`: lower-cases the ASCII letters `A`–`Z` only, while JavaScript's `toLowerCase` also maps other Unicode letters. The routing decision is unaffected. A non-ASCII letter either keeps a non-ASCII form (U+0130 `İ` becomes `i` followed by the combining dot U+0307) or lower-cases to a letter that does not occur in `title`, `username` or `password` (the Kelvin sign becomes `k`), so no key outside ASCII lower-cases to a primary field. A meta key keeps its original casing either way.
- Values other than strings in the parsed tree: the `_` body of an object is modelled as a string, which is what the deserializer produces, and is kept apart from the object's other keys (`Node.Obj`'s `fields` never hold `_`). `toString` of an object is its plain-object text `[object Object]`. Numbers and booleans do not occur in the deserializer's output and are not part of `Node`.
