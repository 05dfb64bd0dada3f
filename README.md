# EmulationStation gamelist reader and writer, modelled in Dafny

This project models `src/XMLReader.cpp` of EmulationStation. That file keeps a system's in-memory tree of games and folders in step with the system's `gamelist.xml` document:

- `removeCommonPath` decides whether a file lies inside the system's root folder, and computes the relative path;
- `findOrCreateFile` walks the tree one level per relative name. For a game it creates any missing entries; for a folder it only finds;
- `parseGamelist` reads the `game` elements and then the `folder` elements of the document, and loads their metadata into the tree;
- `addFileDataNode` writes one entry's non-default metadata as an element. It drops the element when the only thing written is the default name;
- `updateGamelist` re-reads the document. For every entry of the tree, in traversal order, it removes the first element standing for that entry and appends a freshly written one. Everything else in the document is kept.

## Modules

| file | module | what it holds |
|---|---|---|
| `options.dfy` | `Options` | `Option` |
| `paths.dfy` | `Paths` | normalised POSIX paths as boost iterates them, `removeCommonPath`, `generic_string` and its parse back |
| `catalog.dfy` | `Catalog` | the tree as an arena of entries, `findOrCreateFile` as a function and as a method on the `SystemTree` class |
| `gamelist.dfy` | `Gamelist` | XML elements, the gamelist file as read, the filesystem queries, the metadata stand-ins |
| `loader.dfy` | `Loader` | `parseGamelist` |
| `writer.dfy` | `Writer` | `addFileDataNode` and `updateGamelist`, on an `Element` whose children are edited in place |
| `roundtrip.dfy` | `RoundTrip` | a load followed by a save on a small system, showing that the first save after a load is not a round trip |

Conventions used throughout the model:

- **Paths.** A path is its root (`"/"` or `""`) plus its names. Canonicalisation is taken as already done, so the operations receive canonical paths.
- **The tree.** It is a sequence of entries whose children are indices into the same sequence; entry 0 is the root folder. `new FileData` followed by `addChild` becomes an append to the sequence plus an append to the parent's child list.
- **Metadata.** It is a map from key to value; a key missing from the map holds its declared default. The declaration (keys in canonical order, with their defaults) is a parameter.
- **Methods and functions.** Every state-changing method is proved equal to a function of the old state:
  - `SystemTree.FindOrCreateFile` to `FindOrCreate`;
  - `ParseGamelist` to `Load`;
  - `AddFileDataNode` to `Written`;
  - `UpdateGamelist` to `Reconcile`.

  The properties of the source are proved as lemmas about those functions.

## Model

| member | source | states |
|---|---|---|
| Paths.RemoveCommonPath | src/XMLReader.cpp:11-49 | `contains` holds exactly when the roots agree and the elements of `relativeTo` are a prefix of those of `path`. Otherwise the path comes back unchanged. When contained, the result is the rest of the path's elements with every "." left out |
| Paths.Relative | src/XMLReader.cpp:11-49 | The definition behind `Paths.RemoveCommonPath`: the root contains the path when the roots agree and the root's elements are a prefix of the path's; the relative names are then the rest of the path's elements with "." left out, and there are none otherwise |
| Paths.NotContainedWhenDiverging | src/XMLReader.cpp:16-37 | A root that is longer than the path, or that differs from it at some element, does not contain the path |
| Paths.RelativeRejoins | src/XMLReader.cpp:39-48 | For a path without "." elements, the root's elements followed by the relative names give back the path's elements, under the same root |
| Paths.RelativeOfExtension | src/XMLReader.cpp:27-48 | A path that extends the root by some names (none of them ".") is contained, and the relative names are exactly that extension |
| Paths.RelativeToSelf | src/XMLReader.cpp:27-48 | The root contains itself, with an empty relative path |
| Paths.DropDotsKeeps | src/XMLReader.cpp:39-45 | Leaving out "." elements changes nothing in a sequence that has none |
| Paths.DropDotsDrops | src/XMLReader.cpp:39-45 | The relative names never contain a "." element |
| Paths.RelativeExample | src/XMLReader.cpp:10 | The worked example: `/home/pi/roms/nes/foo/bar.nes` against `/home/pi/roms/nes/` gives `foo/bar.nes` |
| Paths.ParseRender | src/XMLReader.cpp:216 | A well-formed POSIX path parses back from its generic string. So the path written to a document is read back as the same path |
| Paths.Parse | src/XMLReader.cpp:153 | `fs::path` of a path text in normal form. `Paths.ParseRender` states that it reads back what `Render` writes (texts not in normal form are under Left out) |
| Paths.Render | src/XMLReader.cpp:216 | `generic_string()`: the root followed by the names joined by '/'. `Paths.ParseRender` states that `Parse` inverts it on well-formed paths |
| Paths.LastDotIsLast | src/XMLReader.cpp:109 | `stem()` cuts a name at its last '.': the position found holds a '.', and no later character is one; when none is found the name has no '.' |
| Paths.Stem | src/XMLReader.cpp:109 | `stem()` yields a path of at most one name, the file name cut at its last '.' (`Paths.LastDotIsLast`) |
| Paths.Join | src/XMLReader.cpp:109 | `p / name` has file name `name` |
| Catalog.AddChild | src/XMLReader.cpp:93-94 | `addChild` appends the new entry to the arena and as the last child of its parent. No other entry changes |
| Catalog.FirstNamed | src/XMLReader.cpp:71-79 | The child found is one of the children and its file name matches; when none is found, no child matches. That it is the first such child is `Catalog.FirstNamedIsFirst` |
| Catalog.ChildNamed | src/XMLReader.cpp:69-79 | The search over the current entry's children: a child of that entry whose file name is the name, or none when no child has it (`Catalog.FirstNamed`, `Catalog.FirstNamedIsFirst`) |
| Catalog.Descend | src/XMLReader.cpp:64-117 | The walk only appends entries and child lists, and the entry it returns exists. A FOLDER request changes nothing, and a NULL result changes nothing |
| Catalog.DescendBounds | src/XMLReader.cpp:82-111 | The walk adds at most one entry per name. A GAME request with names left always yields an entry |
| Catalog.DescendKeepsMetadata | src/XMLReader.cpp:64-117 | The walk never changes the metadata of an existing entry |
| Catalog.DescendResult | src/XMLReader.cpp:93-111 | When the walk creates anything, the entry it returns is the last one, a fresh entry for the requested path |
| Catalog.FindOrCreate | src/XMLReader.cpp:51-118 | The whole call only appends entries and child lists, and the entry it returns exists. A FOLDER request changes nothing, and a NULL result changes nothing |
| Catalog.FindOrCreateFreshResult | src/XMLReader.cpp:51-118 | The call changes no existing metadata. When it creates anything, the entry it returns is the last one, a fresh GAME entry for the requested path |
| Catalog.FindOrCreateNullCases | src/XMLReader.cpp:57-62 | A path outside the root, and the root itself, give NULL and leave the tree unchanged |
| Catalog.FindOrCreateGameSucceeds | src/XMLReader.cpp:82-111 | A GAME request strictly inside the root always yields an entry, and adds at most one entry per relative name |
| Catalog.FindOrCreateFolderOnlyFinds | src/XMLReader.cpp:84-106 | A FOLDER request never changes the tree. It returns NULL or an existing entry whose file name is the last relative name |
| Catalog.FolderIsGameWithoutCreation | src/XMLReader.cpp:82-106 | A FOLDER request answers exactly what a GAME request for the same path answers when that request creates nothing: the same existing entry, or NULL where the GAME request would have to create entries |
| Catalog.DescendFolderIsGame | src/XMLReader.cpp:67-112 | The same for the walk from any entry over any relative names |
| Catalog.FindOrCreateNoGrowthUnchanged | src/XMLReader.cpp:51-118 | A call that adds no entry leaves the tree exactly as it was |
| Catalog.DescendNoGrowthUnchanged | src/XMLReader.cpp:67-115 | A walk that adds no entry leaves the tree exactly as it was |
| Catalog.FindOrCreateIdempotent | src/XMLReader.cpp:71-85 | Asking again for an entry just found or created returns that entry and changes nothing |
| Catalog.FindOrCreateCreatesChain | src/XMLReader.cpp:93-111 | New entries hang as one chain off a single existing entry, which gains one child, appended last; no other old entry changes. There is at most one new entry per relative name. Each intermediate folder has path `stem(parent's path) / name`, and its only child is the next new entry. The last new entry is the GAME for the requested path |
| Catalog.DescendCreatesChain | src/XMLReader.cpp:82-112 | The chain property for the walk: new entries cover the last names of the walk, below one existing entry |
| Catalog.FreshChain | src/XMLReader.cpp:98-112 | When the first name has no child, a GAME walk makes the whole chain below the current entry, one entry per name |
| Catalog.ChainPrepend | src/XMLReader.cpp:108-111 | Creating a missing intermediate folder extends the chain made below it by that folder |
| Catalog.FindOrCreateKeepsUnique | src/XMLReader.cpp:71-95 | Lookup-or-create never gives two children of one entry the same file name |
| Catalog.AddChildKeepsUnique | src/XMLReader.cpp:93-94 | Adding a child whose name no sibling has keeps sibling names distinct |
| Catalog.ChildNamedStable | src/XMLReader.cpp:71-79 | The child found for a name is found again in any tree that grew from this one |
| Catalog.FirstNamedIsFirst | src/XMLReader.cpp:71-79 | The child found is the earliest one with the name: no child before it has that name |
| Catalog.SystemTree.FindChild | src/XMLReader.cpp:69-79 | The loop returns what `ChildNamed` gives: the first child with the name, or NULL when no child has it |
| Catalog.SystemTree.AddChildEntry | src/XMLReader.cpp:93-94 | `addChild` in place: the tree afterwards is `AddChild` of the old tree, and the new entry's index is the old number of entries |
| Catalog.SystemTree.WalkLevel | src/XMLReader.cpp:67-115 | One turn of the walk's loop either ends with the tree and result that `Descend` gives for the old tree, or moves to an entry from which `Descend` over the remaining names gives that same outcome |
| Catalog.SystemTree.FindOrCreateFile | src/XMLReader.cpp:51-118 | The in-place walk leaves the tree, and returns the entry, that `FindOrCreate` gives for the old tree |
| Catalog.SystemTree.constructor | src/XMLReader.cpp:54 | A system starts with a root folder that has no children |
| Gamelist.ChildIndex | src/XMLReader.cpp:138 | `child(name)` finds the first element with that name, or none when no element has it |
| Gamelist.CreateFromXml | src/XMLReader.cpp:170 | The parsed metadata has a value for exactly the declared keys |
| Gamelist.AppendToXml | src/XMLReader.cpp:205 | No more elements are written than there are declared keys; each is a leaf named after a declared key |
| Loader.LoadCases | src/XMLReader.cpp:124-151 | A missing file, a parse failure, or a missing `gameList` leaves the tree unchanged. Otherwise all `game` elements are read first, then all `folder` elements |
| Loader.Load | src/XMLReader.cpp:120-177 | Loading never removes an entry or changes its kind or path, and only appends to child lists; the arena stays valid. Each found entry's metadata is replaced (`Loader.LoadedElementSetsMetadata`) |
| Loader.LoadTagged | src/XMLReader.cpp:151-175 | Reading the elements with one tag, in document order, never removes an entry or changes its kind or path, and only appends to child lists; the arena stays valid. Each found entry's metadata is replaced (`Loader.LoadedElementSetsMetadata`) |
| Loader.LoadElement | src/XMLReader.cpp:153-174 | Reading one element never removes an entry or changes its kind or path, and only appends to child lists; the arena stays valid. Its two cases are `Loader.SkippedElementChangesNothing` and `Loader.LoadedElementSetsMetadata` |
| Loader.ElementPath | src/XMLReader.cpp:153 | The path an element names is the text of its first `path` child, read as a path; an element without one names the empty relative path |
| Loader.SetMetadata | src/XMLReader.cpp:170 | `file->metadata = md`: the entry's metadata becomes `md`, and nothing else in the tree changes |
| Loader.SkippedElementChangesNothing | src/XMLReader.cpp:155-166 | An element whose path does not exist, or for which lookup-or-create fails, changes nothing |
| Loader.LoadedElementSetsMetadata | src/XMLReader.cpp:169-174 | A read element replaces the metadata of exactly the entry found. Every parsed value other than the name is taken; the name is the parsed one, or the previous name when the parsed name is empty; no other key of the old metadata survives. Nothing else changes |
| Loader.FolderElementsAddNothing | src/XMLReader.cpp:145-166 | The folder pass adds no entry and changes no child list |
| Loader.LoadTaggedKeepsUnique | src/XMLReader.cpp:151-174 | Reading elements keeps sibling file names distinct, when the paths of the elements read have no "." element |
| Loader.ParseGamelist | src/XMLReader.cpp:120-177 | The in-place load leaves the tree that `Load` gives for the old tree |
| Loader.LoadElementInto | src/XMLReader.cpp:153-174 | The body of the element loop leaves the tree that `LoadElement` gives |
| Writer.WrittenStandsForItsEntry | src/XMLReader.cpp:202-216 | At most one element is written for an entry. It has the entry's tag and its first child is the `path` child, so it stands for its own entry |
| Writer.Written | src/XMLReader.cpp:199-218 | What `addFileDataNode` leaves appended: nothing when the only field written is the default name, otherwise one element of the tag whose children are `path` and then the written metadata. Its properties are the next three rows |
| Writer.TagOf | src/XMLReader.cpp:271 | `game` for a GAME entry, `folder` for a FOLDER |
| Writer.OnlyDefaultName | src/XMLReader.cpp:207-209 | The written fields are exactly one `name` field whose text is the clean file name |
| Writer.PathNode | src/XMLReader.cpp:216 | The `path` child holds the entry path's generic string; `Paths.ParseRender` reads it back as the same path |
| Writer.DefaultNameOnlyIsElided | src/XMLReader.cpp:207-213 | An entry whose name is the clean file name and whose other declared fields hold their defaults, whether stored or absent, writes nothing |
| Writer.NonDefaultIsWritten | src/XMLReader.cpp:207-216 | An entry with any non-default value other than its name writes one element with the entry's tag, whose first child is `path` |
| Writer.AddFileDataNode | src/XMLReader.cpp:199-218 | The parent's children are the old ones followed by what `Written` gives: nothing, or one element. Nothing else of the parent changes |
| Writer.Element.AppendChild | src/XMLReader.cpp:202 | `append_child`: the new child comes last, and nothing else changes |
| Writer.Element.RemoveChild | src/XMLReader.cpp:213 | `remove_child`: exactly the child at the position goes, and the others stay in order |
| Writer.Element.ReplaceLast | src/XMLReader.cpp:216 | `prepend_child` on the last child: the last child is replaced, and the others stay |
| Writer.FirstMatch | src/XMLReader.cpp:275-292 | The position found is that of the first element standing for the entry; with none found, no element stands for it |
| Writer.FindMatch | src/XMLReader.cpp:275-292 | The scanning loop finds the first element with the tag and a `path` child whose path equals, or is equivalent to, the entry's path. Otherwise it finds none |
| Writer.Matches | src/XMLReader.cpp:275-286 | An element stands for an entry when it has the entry's tag and a `path` child, and that path equals the entry's path or both exist and are equivalent |
| Writer.RemoveFirstMatch | src/XMLReader.cpp:275-290 | The first element standing for the entry is removed, when there is one. Its properties are in `Writer.RemoveFirstMatchKeepsOthers` |
| Writer.RemoveFirstMatchKeepsOthers | src/XMLReader.cpp:286-290 | Removal takes away at most one element, and only one standing for the entry. All other elements stay, in order, and the number standing for the entry drops by exactly one when there was one |
| Writer.ReconcileKeepsUnclaimed | src/XMLReader.cpp:268-298 | Elements that no entry claims survive reconciliation in their order, and are the only unclaimed elements of the result. This covers elements without a `path` child, elements of the other tag, and elements matching no entry |
| Writer.ReconcileOne | src/XMLReader.cpp:271-295 | One turn of the loop: the first element standing for the entry is removed, then what `Written` gives is appended |
| Writer.Reconcile | src/XMLReader.cpp:268-298 | The loop over every entry in traversal order. Its properties are `Writer.ReconcileKeepsUnclaimed`, `Writer.ReconcileSplits` and `Writer.ReconcileSettles` |
| Writer.ReconcileSplits | src/XMLReader.cpp:268-298 | The saved children are the old elements that survive, in their order, followed by the elements written for the entries, in traversal order. This holds when no entry's written element stands for a later entry |
| Writer.SurvivorsKeepUnclaimed | src/XMLReader.cpp:275-290 | The surviving old elements keep every element that no entry claims, in order: only claimed elements are removed |
| Writer.SurvivorsUnclaimedByAll | src/XMLReader.cpp:275-290 | When each entry stands for at most one old element, no surviving old element stands for any entry: every claimed element was replaced |
| Writer.ReconcileSettles | src/XMLReader.cpp:268-298 | Saving the same tree a second time gives the same document. This needs three conditions: each entry stands for at most one old element, no written element stands for another entry, and the paths are well-formed |
| Writer.SecondPass | src/XMLReader.cpp:268-298 | On a document of survivors followed by written elements, the first `k` entries remove exactly their own written elements |
| Writer.PassStep | src/XMLReader.cpp:275-290 | In the second pass, an entry removes its own written element when it has one, and otherwise removes nothing |
| Writer.Unmatched | src/XMLReader.cpp:277-286 | The kept elements are exactly those that do not stand for the entry |
| Writer.UnclaimedSnoc | src/XMLReader.cpp:268-298 | What no entry of `files + [f]` claims is what `files` leaves unclaimed, minus what stands for `f` |
| Writer.ReconcileInPlace | src/XMLReader.cpp:268-298 | The in-place loop leaves the children that `Reconcile` gives for the old children and the traversal |
| Writer.ReconcileEntry | src/XMLReader.cpp:271-295 | One pass removes the first element standing for the entry and then appends what `Written` gives |
| Writer.UpdateGamelist | src/XMLReader.cpp:220-306 | Either settings flag skips everything. A parse failure, a missing `gameList`, or a missing root folder end without saving. Otherwise the saved document is the old one (or a fresh empty `gameList`), with the `gameList` children reconciled against every entry in traversal order |
| Writer.StartDocument | src/XMLReader.cpp:234-251 | An existing file that parses is taken as it is, a missing file starts as an empty `gameList`, and a file that does not parse ends the save |
| RoundTrip.FirstSaveIsNoRoundTrip | src/XMLReader.cpp:109 | Loading a document and saving with no change adds an element whose `path` text the document did not hold, and drops a metadata child the declaration does not name; a second save then leaves the document as it is |
| RoundTrip.LoadNestedFolder | src/XMLReader.cpp:120-177 | The game pass creates the folder below the root with the relative path `stem(root) / name`, not the path its `folder` element names; the folder pass still finds it by file name and gives it that element's metadata |
| RoundTrip.GameLookup | src/XMLReader.cpp:82-111 | A GAME lookup for `/r/foo/a.nes` under the root `/r` creates the folder `r/foo` and then the game below it |
| RoundTrip.RootFolderCreated | src/XMLReader.cpp:108-111 | The missing folder `foo` below the root `/r` is created with the path `stem("/r") / "foo"`, which is the relative `r/foo` |
| RoundTrip.FolderLookup | src/XMLReader.cpp:67-85 | A FOLDER lookup for `/r/foo` returns the entry whose path is `r/foo`, since only file names are compared |
| RoundTrip.ParsedMetadata | src/XMLReader.cpp:170 | The metadata read from an element holds only the declared keys: an undeclared child is not read |
| RoundTrip.FirstSaveAddsPath | src/XMLReader.cpp:268-298 | The old `folder` element for `/r/foo` stands for no entry and is kept, and a second `folder` element with the path `r/foo` is appended; the game element is replaced by one without its undeclared child |
| RoundTrip.SecondSaveKeeps | src/XMLReader.cpp:268-298 | Saving the same tree again removes each written element and writes it back, leaving the document as the first save wrote it |
| RoundTrip.DuplicatedIsUnsettled | src/XMLReader.cpp:275-290 | When one entry stands for two old elements, each save removes only the first of them, so a second save writes a different document from the first |
| RoundTrip.DuplicatedFirstSave | src/XMLReader.cpp:275-295 | The first save of a game whose element appears twice keeps the second copy and appends the freshly written element |
| RoundTrip.DuplicatedSecondSave | src/XMLReader.cpp:275-295 | The second save removes that remaining copy and appends the written element again, leaving two written elements |
| RoundTrip.DuplicatedMatchTwice | src/XMLReader.cpp:284-286 | Both copies of the game element stand for the game, so it has two matching elements |

## Left out

- Canonicalisation (`fs::canonical`): paths are taken as already canonical, and only POSIX paths are modelled. The missing-file error that canonicalisation raises is not modelled.
- `fs::exists` and `fs::equivalent` are parameters of the model (`FileSystem`), not filesystem calls. `fs::create_directories` is not modelled.
- The loop at `src/XMLReader.cpp:27` dereferences its iterators before comparing them with `end()`. The model checks the bounds first. With boost's iterators this decides the same thing, because a path iterator at its end yields an empty element.
- XML parsing and `save_file` are not part of this model. The file as read is given as `GamelistFile`: missing, unparsable, or its top-level elements. `UpdateGamelist` returns the document it would save; a failing save only logs, so it is not modelled.
- `LOG` output is not modelled. The `Settings` singleton's two flags are parameters of `UpdateGamelist`.
- `MetaDataList::createFromXML` and `appendToXML` are not part of this model; `CreateFromXml` and `AppendToXml` stand in for them. One declaration is used for both games and folders, although `parseGamelist` always passes `GAME_METADATA`. Only the `name` key and its default matter to the properties proved. The stand-ins read and write declared keys only. So a metadata child whose key is not declared is dropped on load and not written back: a save replaces the element with one that lacks it (`RoundTrip.FirstSaveIsNoRoundTrip`). Unrecognised keys are not kept.
- `getCleanFileName` is not part of this model. `CleanFileName` stands in for it: the file name's stem, without the stripping of bracketed tags.
- `FileData::getFilesRecursive` is not part of this model. `UpdateGamelist` takes its result as a sequence of entries (None when the system has no root folder).
- `addGameDataNode` (`src/XMLReader.cpp:179-197`) is not called here. It is `addFileDataNode` with the tag fixed to `game`, so it has no separate model.
- Heap allocation and the parent back-pointer of `FileData`: entries are arena indices, and a child's parent is not recorded.
- Catalog.FindOrCreateIdempotent requires paths without "." elements, because the relative names drop them while the stored path keeps them. Canonical paths have none.
- Catalog.FindOrCreateKeepsUnique requires paths without "." elements, for the same reason: a relative name is matched against stored file names that may keep a ".". Canonical paths have none.
- Loader.LoadTaggedKeepsUnique requires the paths of the elements it reads to have no "." elements, for the same reason. Canonical paths have none.
- Path texts in the gamelist are taken in normal form. `Paths.Parse` drops empty pieces, so a trailing '/' is lost and a leading "//" reads as the root "/". Boost instead yields a trailing "." element for the first and a root name for the second. For such a text `Writer.Matches` and `Loader.ElementPath` differ from the code. The code keeps an element written `a.nes/` beside the entry for `a.nes` (`src/XMLReader.cpp:284-286`); the model replaces it. The code skips or creates a "." entry for it when loading (line 155); the model loads it as `a.nes`.
- Writer.ReconcileKeepsUnclaimed requires the entries' paths to be well-formed POSIX paths, so that the written `path` text parses back to the entry's path.
- `FileData`'s constructor is not part of this model. `Catalog.NewEntry` stands in for it: the new entry's metadata holds exactly `name`, set to the clean file name, and no other key. The elision lemmas rely on this.
- Writer.DefaultNameOnlyIsElided requires the declared default of `name` to differ from the clean file name. When they are equal, nothing at all is written for the name, and the element is kept with only its `path` child. This matches what the code does.
- Load followed by save is not proved to be a round trip, because it is not one. Only the second consecutive save is proved stable (`Writer.ReconcileSettles`), and only under that lemma's conditions (see its line below). An intermediate folder that the game pass creates gets the path `stem(parent's path) / name` (`src/XMLReader.cpp:109`). Below any absolute folder other than "/" this is a relative path, which is never the absolute path that a `folder` element names. The folder pass still finds that entry by its file name and gives it the element's metadata. When that metadata is not the default, the first save keeps the old `folder` element, because it stands for no entry, and appends a second one with the relative path. `RoundTrip.FirstSaveIsNoRoundTrip` works this out for `/r/foo/a.nes` under the root `/r`: the set of `path` texts grows by `r/foo`. Undeclared metadata keys are dropped as well (see the `MetaDataList` line above).
- Writer.ReconcileSettles proves that a second save writes what the first save wrote only under three conditions: each entry stands for at most one element of the old document, no entry's written element stands for another entry, and the entries' paths are well-formed POSIX paths. The first condition is needed because of `src/XMLReader.cpp:275-290`: each save removes only the first element that stands for an entry, then stops. When the old document holds two elements for one entry (a duplicate, or two paths to the same file), the first save keeps one of them and the second save removes it, so the document changes twice. `RoundTrip.DuplicatedIsUnsettled` works this out for a duplicated `game` element. So the determinism the design asks for is not met by the code in general.
