# REGF hives: a model and its proofs

Dafny 4.11 proofs about the REGF engine of this repository: the hive writer and the reader as a
printer/parser pair, the deleted-cell carver, template expansion over keys, the comparison of two hives,
and the transaction-log overlay, with the tree iterators, path reconstruction, `REG_MULTI_SZ` decoding and
the base-block checksum that share their state.

`dafny verify dfyconfig.toml` checks the whole project.

## What is modelled

Bytes are sequences of numbers below 256, machine integers are bounded subset types, and every place where
the source truncates, wraps or saturates does so here too (`AsU16`, `AsU32`, `Negated`, `Saturate`, sums
modulo 2^32). Strings are sequences of characters; case folding is ASCII only, as in the code. Errors are
values of `Result`, with one `HiveError` constructor per error the source raises on these paths.

| layer | modules | source |
|---|---|---|
| integers, sequences, strings | `Bytes`, `Sequences`, `Text`, `Wrappers` | `winreg-format/src/bytes.rs` |
| records and headers | `Cells`, `Header` | `winreg-format/src/cells.rs`, `header.rs` |
| cell store | `Hives`, `HiveBytes` | `winreg-core/src/hive.rs`, `cell_reader.rs` |
| keys and values | `Keys`, `Listings`, `KeyGraphs`, `Paths`, `VisitOrder`, `Iterators`, `MultiSz` | `winreg-core/src/key.rs`, `value.rs`, `path.rs`, `iter.rs` |
| writer | `KeyTrees`, `GivenOrder`, `Records`, `Allocation`, `ValueLayouts`, `Preorders`, `Footprints`, `Layouts`, `Images`, `Linking`, `ValueLinking`, `LinkPasses`, `Headers`, `Builder` | `winreg-testutil/src/lib.rs` |
| writer against reader | `Reassembly`, `Reading`, `BuiltCells`, `RoundTrip`, `BuiltTrees`, `BuiltPaths`, `BuiltDiffs` | both |
| carver | `Carve`, `CarveExact`, `CarvedRecords`, `CarvedBytes`; with the writer `Undelete`, `UndeleteKeys` | `winreg-carve/src/lib.rs` |
| expansion | `Glob`, `Templates`, `Routes`, `PathExpansion` | `winreg-artifacts/src/path_expansion.rs` |
| comparison | `MergeJoin`, `Diff`, `DiffLaws`, `DiffEmpty`, `DiffErrors`, `DiffOrder`, `WrittenOrder`, `DiffMirror` | `winreg-diff/src/engine.rs` |
| log overlay | `TxLog`, `LogFormat`, `LogBytes`, `LogReplay`, `LogRuns` | `winreg-core/src/txlog.rs` |

Code that updates state in the source is imperative here: the allocator, the image buffer, the overlay, the
carver's result, the walker with its binding stack, the comparison's entries and counts and the two
iterators are classes, and each loop of the source is a loop with invariants, proved against a
specification function. Parsers, cell dispatch and plausibility checks are pure in the source and are
functions here. Iteration, expansion, path reconstruction and comparison see keys through `KeyGraph`, the
five questions that they ask of a key (name, root flag, parent, subkeys, values), any of which may fail and
which may form cycles; `Keys.HiveGraph` answers them from the bytes of a hive.

What a method computes is a function, and what that function means is said a second time without it: by byte
positions (`HiveBytes`, `Listings`, `CarvedRecords`, `CarvedBytes`, `LogBytes`), by places in the input or in a
tree (`GivenOrder`, `Routes`, `VisitOrder`) or on the values compared (`DiffLaws`). Numbers of the format are
written out in these statements.

How the round trip is layered: `Allocation` proves that cells tile the bin; `Images` that writing into one
body changes no other; `Records` that each field written is the field parsed and no other field moves;
`Layouts` and the linking modules that each cell ends as the tree demands, by what the cell is for;
`BuiltCells` that the reader serves those cells; `RoundTrip` and `BuiltTrees` that following links yields
the tree, path by path. The allocator's position is accounted for on the way: `Preorders` proves that the
recursions visit every path once, `Footprints` that the cells therefore take a space that is a function of
the paths and values alone, so that what a build needs can be checked before it. Free-then-carve reuses the
tiling: the chain of size fields is the list of cells followed by the free tail.

## Where the code says otherwise than its promise

- A change of one word of the base block is not always noticed: the two mapped values make {0, 1} and
  {0xFFFFFFFE, 0xFFFFFFFF} indistinguishable. `Header.ChangedWordDetected` gives the exact condition and
  `Hives.UndetectedChange` a pair of files that both open.
- Replaying pages through the overlay is not always patching in order: a shorter page at the same offset
  takes away bytes of the longer one before it, and a page that starts further right hides one applied
  later. `TxLog.ReplayExact` says exactly when the two agree, `TxLog.StaleByteDiffers` that they differ for
  some contents otherwise, and `LogRuns.ShorterPageLog` and `LogRuns.HiddenPageLog` give a log of each kind that
  the replayer accepts.
- A path reconstructed through parent links loses its beginning below depth 513, and opening a path passes
  over empty components and stops at the first sibling of a name up to case. `Paths.OpenInvertsPath` and
  `BuiltPaths.OpensByPath` have the exact conditions, `BuiltPaths.BuildBranch` builds inputs that are cut.
- The writer stores names as UTF-8 and marks them as single-byte names, so that a reader gets them back only if
  they are ASCII (`Text.AsReadIff`).
- Reading a cell whose size field is -1, -2 or -3 panics instead of failing (`Hives.PanicsExactly`,
  `Hives.PanickingRoot`).
- The result type of the comparison calls its entries sorted by key path. They are, component by component
  in upper case (`DiffOrder.DiffOrdered`), but as written strings only where no name is another one followed
  by a character below the separator, such as a letter, digit or space (`WrittenOrder.WrittenOrderExact`):
  with `Run` and `RunOnce` they are not (`WrittenOrder.RunBeforeRunOnce`). The comment on `diff_hives`
  speaks of breadth-first order; the code recurses depth first, and so does the model.
- A path that starts with two empty components makes the writer recurse for ever (`KeyTrees.RecursionEnds`). One
  that starts with a separator is collected and never visited: the writer lays out other paths in its place
  (`KeyTrees.VisitsAll`).

## Model

| member | source | states |
|---|---|---|
| `BuiltTrees.BuildHive` | crates/winreg-testutil/src/lib.rs:83-336 | for any paths and values in which no path starts with an empty component: the file is as long as the input alone determines; where that length keeps the bin below 4 GiB and lengths and counts fit the format's fields, all of which can be checked before the call, the bytes open, and at every path the key found shows as its values exactly those given for that path, in the order given, each with its name, type and bytes, and as its subkeys exactly the keys of the collected paths directly below it, in the order of `GivenOrder.AllPathsInOrder`, each with its name and a parent link back; the root is named CMI-root, every key has the given time, names are as `Text.AsRead` reads their UTF-8 bytes, and no two paths share a cell |
| `Footprints.FootprintExact` | crates/winreg-testutil/src/lib.rs:87-158 | what the recursions over the tree and the loop over its values allocate adds up to a sum over the paths: a node for each, a leaf where there are children, a record for each value, its data by size class, and a list where there are values |
| `Preorders.VisitsExact` | crates/winreg-testutil/src/lib.rs:339-386 | the recursions of the writer visit exactly the collected paths, each once |
| `Text.AsReadIff` | crates/winreg-format/src/cells.rs:275-286 | a name written as UTF-8 and read byte by byte comes back as it was if and only if it is ASCII |
| `Text.AsReadFolds` | crates/winreg-format/src/cells.rs:275-286 | reading so keeps which names are equal up to ASCII case |
| `Text.Utf8CharDecodes` | crates/winreg-format/src/cells.rs:275-286 | the UTF-8 bytes written for a character carry its code point in the shortest form |
| `Text.FoldedEqual` | crates/winreg-core/src/key.rs:105-113 | two names are equal once folded if and only if they have the same length and each pair of characters is the same or the two cases of one ASCII letter |
| `Text.LessExact` | crates/winreg-diff/src/engine.rs:83-95 | names are ordered by the first character in which they differ, and a name that ends there comes first |
| `Text.Utf16Append` | crates/winreg-format/src/cells.rs:275-286 | decoding the UTF-16 form of a string gives it back, whatever code units follow |
| `Text.LoneSurrogate` | crates/winreg-format/src/cells.rs:275-286 | a surrogate without its partner becomes one replacement character |
| `BuiltTrees.ReadsBack` | crates/winreg-core/src/key.rs:86-159 | build then read is the identity, for every build: opening, then `subkeys`, `values` and `raw_data` at each key give back the values given for its path and the paths directly below it, by increasing positions in the input |
| `BuiltTrees.BuiltOpens` | crates/winreg-core/src/hive.rs:44-84 | a built file is accepted by every check of opening, has one bin that spans the rest of the file, and names the root cell |
| `Builder.Build` | crates/winreg-testutil/src/lib.rs:83-336 | for every input in which no path starts with an empty component: the array built holds every allocated cell at its tiled place with its linked body and negative size, in exactly the space computed from the input, none too large for its size field if lengths and counts fit; checksummed headers and a free tail; links, leaf elements, value lists and big-data lists refer to the right cells |
| `KeyTrees.FromPaths` | crates/winreg-testutil/src/lib.rs:586-656 | the tree has, below every path, the distinct child names of all given paths and their prefixes, and at every path its values; which ones and in which order is what the next three rows say; the de-duplication never drops anything |
| `GivenOrder.ValuesAtGiven` | crates/winreg-testutil/src/lib.rs:638-646 | the values at a path are those given for it, each once, in the order given, with name, type and bytes as given |
| `GivenOrder.ChildNamesGiven` | crates/winreg-testutil/src/lib.rs:612-629 | the child names of a path are the last components of the collected paths directly below it, each once, in the order in which these are collected |
| `GivenOrder.AllPathsInOrder` | crates/winreg-testutil/src/lib.rs:587-610 | paths are collected in the order in which they are first mentioned, as prefixes of the given paths and then of the paths of values, shorter prefixes first |
| `KeyTrees.CollectPaths` | crates/winreg-testutil/src/lib.rs:587-610 | the loops collect as `AllPaths` does, which `AllPathsExact` describes |
| `KeyTrees.AllPathsExact` | crates/winreg-testutil/src/lib.rs:587-610 | a path is collected if and only if it is a prefix, by components, of a path given for a key or a value |
| `KeyTrees.GoodInputExact` | crates/winreg-testutil/src/lib.rs:587-610 | no path starts with an empty component if and only if no collected path is the root's own, the empty one |
| `KeyTrees.RecursionEnds` | crates/winreg-testutil/src/lib.rs:339-362 | the depth to which the writer's calls nest is bounded if and only if no path starts with two empty components; with two, the key with the empty path is reached from the root and is its own child, so that calls nest to every depth |
| `KeyTrees.VisitsAll` | crates/winreg-testutil/src/lib.rs:339-362 | the writer's recursion visits every collected path if and only if no path that was given starts with a separator |
| `KeyTrees.AllPathsDistinct` | crates/winreg-testutil/src/lib.rs:592-594 | no path is collected twice |
| `KeyTrees.AllPathsParented` | crates/winreg-testutil/src/lib.rs:591-596 | the collected paths are closed under parents: every path has its parent among them unless it is at the top |
| `KeyTrees.KidsDistinct` | crates/winreg-testutil/src/lib.rs:630-633 | no key has the same child name twice, so `dedup` has nothing to do |
| `KeyTrees.KidsOf` | crates/winreg-testutil/src/lib.rs:612-629 | a name is listed below a path if and only if the child path is one of the collected paths |
| `Allocation.Allocator.Alloc` | crates/winreg-testutil/src/lib.rs:686-697 | a cell is appended at the current end with its size rounded up to 8 and the cells still fill the space without gaps |
| `Allocation.TiledApart` | crates/winreg-testutil/src/lib.rs:686-697 | of two allocated cells the earlier one ends before the later one starts |
| `Allocation.TiledCell` | crates/winreg-testutil/src/lib.rs:686-697 | every cell is 8-aligned, as large as its header and body need, and inside the filled space |
| `Layouts.LayOut` | crates/winreg-testutil/src/lib.rs:87-147 | the first pass gives every path its own node cell, every key with children its leaf, every value its record, list and data cells, all distinct by what they are for; it lays out nothing else, since together they fill exactly the space computed from the input, and no cell is too large for its size field if lengths and counts fit |
| `Layouts.AllocChildren` | crates/winreg-testutil/src/lib.rs:339-362 | the recursive allocation gives every key below the given children a node cell with its own name, and keeps what was allocated before |
| `Layouts.AllocLhCells` | crates/winreg-testutil/src/lib.rs:365-386 | every key with children below the given ones gets a leaf with room for exactly its children |
| `ValueLayouts.AllocValues` | crates/winreg-testutil/src/lib.rs:108-138 | value cells of every key: resident data has no data cell, data above 4 bytes one, data above 16344 bytes a record with one segment cell per chunk |
| `ValueLayouts.AllocBigData` | crates/winreg-testutil/src/lib.rs:113-126 | the segments laid out for a large value are its chunks in order, and its record counts them |
| `ValueLayouts.SortedKeys` | crates/winreg-testutil/src/lib.rs:109-109 | the loop over an ordered map visits each of its keys exactly once, in strictly increasing order |
| `Images.Image.constructor` | crates/winreg-testutil/src/lib.rs:150-169 | the buffer is as long as the headers and the rounded bin, and holds each cell as allocated |
| `Images.Image.PatchBytes` | crates/winreg-testutil/src/lib.rs:301-303 | writing inside one cell's body changes that body and leaves every other cell and every size field as it was |
| `Images.SpliceBody` | crates/winreg-testutil/src/lib.rs:848-850 | the byte-level frame behind it: a write inside one body of tiled cells is seen in that body alone |
| `Images.BodyReadBack` | crates/winreg-core/src/cell_reader.rs:68-107 | the reader finds at a cell's offset the body that was written, followed by padding only |
| `Linking.LinkNode` | crates/winreg-testutil/src/lib.rs:405-460 | a node's parent, security, subkey and value links are all written into its own body |
| `Linking.LinkChildren` | crates/winreg-testutil/src/lib.rs:389-479 | every node below the given children ends linked to its parent, lists and security cell, and only node cells change |
| `Linking.MakeElement` | crates/winreg-testutil/src/lib.rs:499-511 | a leaf element carries the child's cell offset and the hash of its upper-cased name |
| `Linking.FillLhRecursive` | crates/winreg-testutil/src/lib.rs:515-564 | every leaf below the given children ends listing its key's children in order, and only leaf cells change |
| `LinkPasses.LinkKeys` | crates/winreg-testutil/src/lib.rs:171-254 | after linking nodes and leaves every key cell has its final body and the value cells are untouched |
| `LinkPasses.LinkData` | crates/winreg-testutil/src/lib.rs:278-307 | linking big-data records and writing resident data undoes no list or pointer written before, and leaves the key cells untouched |
| `ValueLinking.FillLists` | crates/winreg-testutil/src/lib.rs:256-266 | each values list holds the offsets of its key's value cells in order |
| `ValueLinking.LinkRecords` | crates/winreg-testutil/src/lib.rs:278-288 | each big-data record points to its list and the list to its segments in order |
| `ValueLinking.InlineAll` | crates/winreg-testutil/src/lib.rs:290-307 | data of up to 4 bytes is stored in the record itself with the resident bit |
| `Headers.WriteBaseBlock` | crates/winreg-testutil/src/lib.rs:320-336 | the base block written is the one that opening accepts, and its stored checksum is valid |
| `Headers.ChecksumStored` | crates/winreg-testutil/src/lib.rs:331-334 | storing the checksum of a header into it makes it valid: the field is outside the summed words |
| `Headers.Opens` | crates/winreg-core/src/hive.rs:44-84 | a file with these headers and one bin opens, with that bin and no other |
| `Records.NodeBodyIs` | crates/winreg-testutil/src/lib.rs:714-750 | a new node body parses to exactly the fields it was made from, with null links |
| `Records.LinkedBodyIs` | crates/winreg-testutil/src/lib.rs:400-470 | writing the links into a node body changes these fields of what it parses to and no other field |
| `Records.ValueBodyIs` | crates/winreg-testutil/src/lib.rs:753-768 | a new value body parses to its name, type and size |
| `Records.LeafParses` | crates/winreg-format/src/cells.rs:531-550 | a filled leaf body parses to its elements in order |
| `Records.InlineDataBack` | crates/winreg-format/src/cells.rs:348-352 | resident data written over the offset word is what the reader returns |
| `Records.PutElementsTwice` | crates/winreg-testutil/src/lib.rs:515-564 | filling a leaf again with the same elements changes nothing, as when a key is visited twice |
| `BuiltCells.FileServes` | crates/winreg-core/src/cell_reader.rs:68-107 | a built file serves every cell: its raw body, and the record it parses to |
| `BuiltCells.DataReads` | crates/winreg-core/src/value.rs:55-77 | the data of any value comes back exactly, whether resident, in one cell or in a big-data record |
| `Reassembly.GatherInvertsChunks` | crates/winreg-core/src/value.rs:100-119 | joining the segment cells of chunked data, each cut at the segment size and the remaining length, gives the data back: padding never leaks in |
| `Reassembly.RecordData` | crates/winreg-core/src/value.rs:55-119 | a value above the threshold with at most 65535 segments is returned exactly through its record |
| `ValueLayouts.ChunkCount` | crates/winreg-testutil/src/lib.rs:114-119 | large data is cut into one segment for every 16344 bytes begun, none of them empty or longer |
| `RoundTrip.ChildrenBack` | crates/winreg-core/src/key.rs:86-102 | the subkeys read at a built key are the keys of its children, in order |
| `RoundTrip.ValuesBack` | crates/winreg-core/src/key.rs:136-159 | the values read at a built key have the names, types and bytes that were given, in order |
| `RoundTrip.RootAppears` | crates/winreg-testutil/src/lib.rs:171-208 | the root shows its children and no values |
| `RoundTrip.ChildAppears` | crates/winreg-testutil/src/lib.rs:389-479 | any other key shows its name, time, children and values, and its parent link is its parent's cell |
| `BuiltPaths.OpensByPath` | crates/winreg-core/src/path.rs:11-36 | in any built hive, opening a path as it is read finds that path's key if and only if lookups can find each key on the way: its name is not empty and no sibling listed before it has that name up to ASCII case; the key's reconstructed path is that path if and only if it has at most 513 components |
| `BuiltPaths.FoldedOpenable` | crates/winreg-core/src/key.rs:105-134 | every path without an empty component is such a path where sibling names differ by more than case |
| `BuiltPaths.DeepPathCut` | crates/winreg-core/src/path.rs:11-36 | in any build of the one path of `n` components "a", the path reconstructed for the last key is its path if and only if `n` is at most 513 |
| `BuiltPaths.BuildBranch` | crates/winreg-core/src/path.rs:11-36 | such a build exists for every `n` up to 41 million: it stays below 4 GiB, opens and represents its input, so that from 514 on there is a real file whose path is cut |
| `BuiltPaths.BuiltWellLinked` | crates/winreg-core/src/path.rs:11-36 | the parent links of any built hive agree with its subkey lists |
| `BuiltDiffs.BuiltUnfolds` | crates/winreg-core/src/key.rs:86-159 | following subkeys from a key of a built hive ends and meets a finite tree with the input's names and values, which is what iteration and comparison need |
| `BuiltDiffs.DiffBuilds` | crates/winreg-diff/src/engine.rs:17-37 | the bytes of any two builds of the same paths and values, whatever their timestamps and offsets and whatever their names, opened and compared, give no entries and all counts zero |
| `BuiltDiffs.BuildsEquivalent` | crates/winreg-diff/src/engine.rs:49-98 | the trees of two such builds are equivalent in the sense of the comparison laws |
| `UndeleteKeys.UndeleteKey` | crates/winreg-carve/src/lib.rs:127-200 | negating the size of any non-root key's cell in any built hive up to 4 GiB: the bytes still open with the same bin, the reader refuses the cell, and carving reports at that cell, as an unallocated cell after exactly the hits that precede it and unless the cap of 100,000 comes first, the name, time and parent offset of the key that was given, if its name takes 1 to 512 bytes and has no control or replacement character and it has at most 1,000,000 children and 1,000,000 values; otherwise nothing is reported there |
| `UndeleteKeys.UndeleteValue` | crates/winreg-carve/src/lib.rs:127-200 | the same for any given value: name and type come back, and the data when it has at most 4 bytes, if the name takes at most 512 bytes, is empty or printable, and the data has at most 16 MiB |
| `UndeleteKeys.LiveCellsUncarved` | crates/winreg-carve/src/lib.rs:170-175 | as built, carving reports nothing at the head of any cell |
| `UndeleteKeys.ChainBuilt` | crates/winreg-carve/src/lib.rs:152-200 | walking the size fields from the end of the bin header meets exactly the allocated cells in order and then at most one free cell, each starting where the one before ends, up to the end of the bin |
| `UndeleteKeys.FreedCellUnread` | crates/winreg-core/src/cell_reader.rs:85-93 | a freed cell of any kind is refused as unallocated and the hive still opens |
| `Undelete.ChainOfCells` | crates/winreg-carve/src/lib.rs:152-200 | walking the size fields of the bin meets exactly the allocated cells in order, then the free tail |
| `Undelete.FreedCarved` | crates/winreg-carve/src/lib.rs:176-197 | the record at the head of a freed cell is reported as unallocated, in its place among the hits, and nothing else is reported at that position |
| `Undelete.LiveHeadUnreported` | crates/winreg-carve/src/lib.rs:170-175 | no cell that is still allocated is reported at its head |
| `Undelete.HeadersKept` | crates/winreg-core/src/hive.rs:44-84 | changing only cell bytes keeps header, checksum and bin catalogue |
| `Hives.FromBytes` | crates/winreg-core/src/hive.rs:44-84 | what opens has a valid checksum, keeps its bytes, and its bins lie in order inside the data without overlap; `HiveBytes.OpeningExact` and `HiveBytes.OpensOnce` say exactly what opens |
| `Hives.CatalogHbins` | crates/winreg-core/src/hive.rs:143-179 | the loop finds exactly the bins of the recursive reading, with its error at the first missing signature |
| `Hives.CataloguedBinsTile` | crates/winreg-core/src/hive.rs:143-179 | catalogued bins start inside the data, each at or after the end of the one before |
| `HiveBytes.BinsExact` | crates/winreg-core/src/hive.rs:143-179 | the catalogued bins lie one behind the other from the start without a gap, each with its signature and a size in whole pages, up to the end of the range or of the data, a size of zero or not in whole pages, or a missing signature, which is the error |
| `HiveBytes.OpeningExact` | crates/winreg-core/src/hive.rs:44-84 | what opens, field by field and bin by bin, and for anything else the first thing that is wrong: too short, no signature, the stored checksum and the computed one, version above 6, a missing bin |
| `HiveBytes.OpensOnce` | crates/winreg-core/src/hive.rs:44-84 | bytes of which this holds do open, as that hive and no other |
| `HiveBytes.ChecksumExact` | crates/winreg-format/src/header.rs:60-94 | the stored checksum is valid if and only if it is, but for the two mapped values, the word in which a bit is set where an odd number of the 127 words have it |
| `HiveBytes.CellExact` | crates/winreg-core/src/cell_reader.rs:68-107 | a cell is read if and only if its offset is not null and its size field, inside the data, has the sign bit set, covers itself and ends inside the data; otherwise which error |
| `Hives.ReadCellRaw` | crates/winreg-core/src/cell_reader.rs:68-107 | a cell that is read lies inside the data and its body is the bytes behind the size field; a size field that ends the body before it starts is `SlicePanic` |
| `Hives.PanicsExactly` | crates/winreg-core/src/cell_reader.rs:95-106 | reading a cell panics if and only if its offset is not null, its size field lies inside the data, and that field is -1, -2 or -3 |
| `Hives.PanickingRoot` | crates/winreg-core/src/cell_reader.rs:95-106 | such a file exists among those that open: its root key is that cell |
| `Cells.KeyNodePadding` | crates/winreg-format/src/cells.rs:219-272 | bytes after a complete node record do not change what is parsed |
| `Cells.KeyValuePadding` | crates/winreg-format/src/cells.rs:309-334 | the same for a value record |
| `Cells.HashLeafPadding` | crates/winreg-format/src/cells.rs:531-550 | the same for a hash leaf |
| `Cells.LhHash` | crates/winreg-format/src/cells.rs:590-596 | the hash loop computes, modulo 2^32, the number whose digits to the base 37 are the UTF-8 bytes of the upper-cased name |
| `Cells.HashIgnoresCase` | crates/winreg-format/src/cells.rs:590-596 | names equal up to ASCII case have the same hash |
| `Keys.ListSubkeys` | crates/winreg-core/src/key.rs:86-102 | the loop returns the keys at the flattened offsets, or the first error |
| `Keys.CollectSubkeyOffsets` | crates/winreg-core/src/key.rs:171-190 | flattening follows nested `ri` lists in order, or stops at the first error |
| `Keys.IndexDepthStable` | crates/winreg-core/src/key.rs:171-190 | once a depth suffices for the nesting of `ri` lists, a larger one gives the same offsets |
| `Keys.FlatDepthSuffices` | crates/winreg-core/src/key.rs:171-190 | the depth used for a file suffices for the index at an offset if and only if some depth does, and gives the same offsets: an index is called endless exactly where the source's recursion does not end |
| `Keys.SubkeysRead` | crates/winreg-core/src/key.rs:86-102 | every subkey returned is the node that the reader finds at its offset |
| `Listings.IndexReads` | crates/winreg-core/src/key.rs:171-190 | an `lf`, `lh` or `li` list stored from offsets reads back as these offsets in order, and an `ri` list as those of its lists one after the other, at any nesting |
| `Listings.WriteList` | crates/winreg-format/src/cells.rs:490-550 | every list of at most 65535 offsets can be stored so |
| `Listings.KeysAtExact` | crates/winreg-core/src/key.rs:86-102 | a list of offsets reads as the key nodes among its cells, each once and in order, or fails with the error of the first cell that cannot be read |
| `Listings.ValuesExact` | crates/winreg-core/src/key.rs:136-159 | the same for a values list, as far as it has room for the count |
| `Listings.RawDataExact` | crates/winreg-core/src/value.rs:55-119 | reading a value's data gives exactly: nothing for size 0, up to 4 bytes of the record itself when resident, the first `size` bytes of the data cell up to 16344, and above that of the segments joined, each cut at 16344 bytes, or of the cell when it is no record |
| `Keys.ListValues` | crates/winreg-core/src/key.rs:136-159 | the loop returns the values at the listed offsets, and none when the count is zero or the list is null |
| `Keys.GatherSegments` | crates/winreg-core/src/value.rs:100-119 | the segment loop joins what each listed cell contributes, up to the wanted size |
| `Keys.ReadBigData` | crates/winreg-core/src/value.rs:80-119 | the declared size only cuts: what is returned is the first `size` bytes of everything that is stored, the readable segments one after the other, or the cell itself when it is no record; it fails exactly when the record or its list cannot be read |
| `Keys.GatherTakes` | crates/winreg-core/src/value.rs:94-117 | cutting each segment to what is still wanted is cutting their concatenation once |
| `KeyGraphs.LookUp` | crates/winreg-core/src/key.rs:105-113 | the first subkey whose name is equal up to ASCII case, or none if no subkey has that name, or the error of reading the subkeys |
| `KeyGraphs.FollowPath` | crates/winreg-core/src/key.rs:115-134 | the components of the path that are not empty are followed in order, each to the first subkey of its name; the result is the last key, none where a name is missing, or the error met; a path without such components finds nothing |
| `Header.ComputeChecksum` | crates/winreg-format/src/header.rs:75-94 | the XOR of the 127 words, with 0 and 0xFFFFFFFF mapped away, so it is never either |
| `Header.ChangedWordDetected` | crates/winreg-format/src/header.rs:60-94 | changing one summed word of a valid header goes unnoticed if and only if the two raw sums are {0, 1} or {0xFFFFFFFE, 0xFFFFFFFF} |
| `Hives.UndetectedChange` | crates/winreg-format/src/header.rs:87-93 | such a change exists among files that open: two files of 4096 bytes that differ in one byte of the time stamp, with the same stored checksum, are both accepted |
| `Header.XorCancels` | crates/winreg-format/src/header.rs:79-85 | XOR with a fixed word loses nothing, which is what the detection rests on |
| `Paths.ReconstructPath` | crates/winreg-core/src/path.rs:11-36 | the path has the names of the key and of the keys met over at most 512 parent links, highest first, up to a hive entry or a link to no key; an error on the way is the result |
| `Paths.PathOfChain` | crates/winreg-core/src/path.rs:16-33 | a key at any depth is given the last 513 names of its chain, or all of them |
| `Paths.OpenInvertsPath` | crates/winreg-core/src/key.rs:115-134 | where parent links agree with subkey lists, opening a key's reconstructed path returns that key if and only if its depth is at most 513 and each key on the way has a name that is not empty and that no sibling listed before it has up to case |
| `Paths.DistinctFindable` | crates/winreg-core/src/key.rs:105-113 | the condition on names holds wherever names are not empty and siblings differ by more than case |
| `Paths.DescendChain` | crates/winreg-core/src/key.rs:115-134 | descending by the names of a chain whose keys are found by their names reaches the end of the chain |
| `Iterators.BfsIter.Next` | crates/winreg-core/src/iter.rs:28-39 | yields the head of what is still to come in level order and decreases the work left |
| `Iterators.DfsIter.Next` | crates/winreg-core/src/iter.rs:57-68 | yields the head of the pre-order of what is pending |
| `Iterators.DrainBfs` | crates/winreg-core/src/iter.rs:28-39 | draining the queue iterator yields, on every finite tree, each key once, keys with unreadable children as errors: less deep keys first, and among those of one depth in the order of their places |
| `Iterators.DrainDfs` | crates/winreg-core/src/iter.rs:57-68 | draining the stack iterator yields each key once, before everything below it and before everything below a later sibling |
| `VisitOrder.LevelOrderExact` | crates/winreg-core/src/iter.rs:28-39 | level order visits the places of the tree by depth and then from left to right, each once |
| `VisitOrder.PreOrderExact` | crates/winreg-core/src/iter.rs:57-68 | pre-order visits the places of the tree in lexicographic order, each once |
| `Iterators.SameVisits` | crates/winreg-core/src/iter.rs:16-68 | both orders visit the same multiset, one visit per key of the tree |
| `PathExpansion.Expand` | crates/winreg-artifacts/src/path_expansion.rs:130-151 | what is emitted, on every key graph, cyclic ones included, is what the first 4096 routes through the template of at most 64 steps emit, in lexicographic order of the positions stepped to, a `**` that takes no step first; without a resolver the only control set is ControlSet001 |
| `PathExpansion.Walker.Walk` | crates/winreg-artifacts/src/path_expansion.rs:155-280 | one walk appends exactly the expansion of the remaining segments, cut off at the cap, and restores the binding stack; it ends by depth, then segments left |
| `Routes.ExpansionExact` | crates/winreg-artifacts/src/path_expansion.rs:155-280 | an emission is in the expansion if and only if some route of at most 64 steps emits it |
| `Routes.ExpansionOrdered` | crates/winreg-artifacts/src/path_expansion.rs:155-280 | the expansion has one emission for every such route, in this order: the key the route ends at, the names joined, and the kind and name of every step through a variable segment |
| `Routes.RoutesOnce` | crates/winreg-artifacts/src/path_expansion.rs:155-280 | there is one list of these routes in this order, so that which ones come first is determined |
| `PathExpansion.Walker.WalkControlSets` | crates/winreg-artifacts/src/path_expansion.rs:195-226 | a control-set segment tries each resolved set in order and binds the chosen child |
| `PathExpansion.Walker.WalkMatching` | crates/winreg-artifacts/src/path_expansion.rs:253-274 | a wildcard segment visits every matching child in order and pops each binding |
| `Routes.ChoicesLegal` | crates/winreg-artifacts/src/path_expansion.rs:175-276 | the children a segment selects are the legal ones, each once, at strictly increasing positions: the first subkey of a literal name, the matching subkeys for a wildcard, all for `**`, and for control sets the first subkey of each resolved name, in the order of the names |
| `Glob.GlobMatch` | crates/winreg-artifacts/src/path_expansion.rs:300-323 | the loop that remembers only the latest star returns true if and only if the recursive definition of matching holds |
| `Glob.OlderStarRedundant` | crates/winreg-artifacts/src/path_expansion.rs:305-318 | retrying an older star can never succeed where retrying the latest one fails |
| `Glob.MatchSegment` | crates/winreg-artifacts/src/path_expansion.rs:293-298 | a segment matches case-insensitively |
| `Glob.LiteralPattern` | crates/winreg-artifacts/src/path_expansion.rs:293-298 | a pattern without a star matches exactly the equal names up to ASCII case |
| `Glob.SegmentExact` | crates/winreg-artifacts/src/path_expansion.rs:293-323 | a name matches a pattern if and only if it is, up to ASCII case, the pattern with each star replaced by some run of characters |
| `CarvedBytes.RecoverDeleted` | crates/winreg-carve/src/lib.rs:127-149 | the output reports, byte by byte as `CarvedRecords.RecordExact` says, the recognised positions of the scanned cells in increasing order, the first 100,000 of them |
| `Carve.TryRecord` | crates/winreg-carve/src/lib.rs:232-308 | a record is recognised only at an `nk` or `vk` signature, and carries the saturated cell offset and the source; when and with what else is what the next row says |
| `CarvedRecords.RecordExact` | crates/winreg-carve/src/lib.rs:232-347 | which bytes are a record and what is reported of them: the signature, a name of 1 to 512 bytes that ends inside the cell and is printable, at most 1,000,000 subkeys and values for a key; a name of at most 512 bytes, empty or printable, and data of at most 16 MiB for a value; name, time, parent or type and resident data, the offset of the size field cut off at 32 bits, the source, and high confidence exactly for unallocated cells |
| `Carve.Scanner.ScanBin` | crates/winreg-carve/src/lib.rs:152-200 | one bin's chain walk appends the hits of its cells in order, up to the cap |
| `Carve.Scanner.ScanSlack` | crates/winreg-carve/src/lib.rs:203-229 | the byte sweep appends every recognised position from its start, up to the cap |
| `Carve.Scanner.ScanCell` | crates/winreg-carve/src/lib.rs:170-197 | a free cell's head is reported as unallocated and the rest swept; an allocated cell is swept past its own signature |
| `Carve.HeadRules` | crates/winreg-carve/src/lib.rs:176-197 | skipping two bytes after a recovered head misses nothing |
| `CarvedBytes.CarvingExact` | crates/winreg-carve/src/lib.rs:127-308 | for any hive that opens: the recognised positions, in increasing order, are those where a record is and that lie, in a bin that comes before 512 MiB have been scanned, behind the size field of a free cell or behind the signature of an allocated one, cells being found by following size fields of at least 8; they are reported in this order up to 100,000 |
| `CarvedBytes.SpansExact` | crates/winreg-carve/src/lib.rs:152-200 | the cells walked are those that the size fields lead to from the end of the bin header, clipped to the bin, free exactly if the sign bit is clear |
| `CarveExact.HitsExact` | crates/winreg-carve/src/lib.rs:127-229 | the same for any recogniser; no hit is at the head of a live cell of any bin |
| `CarveExact.OffsetsIncrease` | crates/winreg-carve/src/lib.rs:127-308 | in data of at most 2^32 bytes the reported file offsets increase strictly, so nothing is reported twice |
| `CarveExact.SpansChained` | crates/winreg-carve/src/lib.rs:152-163 | the cells walked lie one after another inside the bin |
| `Diff.DiffHives` | crates/winreg-diff/src/engine.rs:17-37 | the result is the entries of the tree comparison with their counts, or the first error: of reading the left root key, the right one, then of the comparison; an entry's path is written as its names joined, that of the compared keys themselves as the name of the left root |
| `Diff.DiffRun.DiffKeyRecursive` | crates/winreg-diff/src/engine.rs:49-98 | one call appends exactly the entries below a pair of keys and adds their counts |
| `Diff.DiffRun.MergeJoinSubkeys` | crates/winreg-diff/src/engine.rs:101-164 | the two-cursor loop pairs the sorted children as the recursive join does |
| `Diff.DiffValues` | crates/winreg-diff/src/engine.rs:167-251 | the value loop reports what the join of the sorted values pairs up differently; on the values themselves that is `DiffLaws.ValueDiffsExact` |
| `MergeJoin.StableSortUnique` | crates/winreg-diff/src/engine.rs:83-95 | a sorted permutation that keeps equal keys in order is unique, so any stable sort gives the same result |
| `MergeJoin.JoinConserves` | crates/winreg-diff/src/engine.rs:111-161 | every left element is matched or left over once, and every right element likewise |
| `MergeJoin.JoinOrdered` | crates/winreg-diff/src/engine.rs:111-161 | with distinct names the pairs come in strictly increasing order of their names |
| `DiffLaws.ValueDiffsExact` | crates/winreg-diff/src/engine.rs:167-251 | with names that differ by more than case a value difference is reported if and only if a name is on one side only, or on both with another type or other bytes, data that cannot be read counting as empty; it carries the type and bytes of each side |
| `DiffLaws.DiffExact` | crates/winreg-diff/src/engine.rs:49-164 | with such names an entry is in the result if and only if it describes a key on one side only, or a matched pair whose values differ, at its path; a modified key has exactly the differences of its values, each once, by increasing upper-cased name |
| `DiffErrors.SucceedsExact` | crates/winreg-diff/src/engine.rs:49-164 | the comparison succeeds if and only if all keys that are compared can be read: the two roots and, below them, those that correspond |
| `DiffErrors.FailsExact` | crates/winreg-diff/src/engine.rs:49-164 | otherwise its error is that of the left values, the right values, the left subkeys, the right subkeys, or of the first corresponding subkeys by name whose comparison fails |
| `DiffLaws.EmptyIffEquivalent` | crates/winreg-diff/src/engine.rs:49-164 | the comparison has no entries if and only if the trees are equal up to name case, sibling order and the root names, values compared by type and bytes at every depth |
| `DiffEmpty.MatchIffEmpty` | crates/winreg-diff/src/engine.rs:49-251 | for all trees, whatever the names of their siblings: the comparison has no entries if and only if both are readable and, once sorted, values and keys match one by one in name up to case, type, bytes and everything below |
| `DiffEmpty.SortAlike` | crates/winreg-diff/src/engine.rs:83-95 | lists with the same names in the same places stay so when sorted, even where names repeat |
| `DiffMirror.DiffMirrors` | crates/winreg-diff/src/engine.rs:49-164 | swapping the hives gives the same list position by position with sides exchanged, up to the case of names; errors go with errors |
| `DiffMirror.StatsMirror` | crates/winreg-diff/src/engine.rs:57-77 | the counts of a mirrored list are the mirrored counts |
| `DiffMirror.StatsTally` | crates/winreg-diff/src/types.rs:18-27 | each count is the number of entries or details of its kind |
| `DiffMirror.ChildrenBalance` | crates/winreg-diff/src/engine.rs:111-161 | at each matched pair left children are matched plus removed, right children matched plus added |
| `DiffOrder.DiffOrdered` | crates/winreg-diff/src/types.rs:12-14 | with distinct names entries are strictly increasing by upper-cased path components, parents first |
| `WrittenOrder.WrittenOrderExact` | crates/winreg-diff/src/types.rs:12-14 | for any set of non-empty names without separators: every comparison of trees with distinct names from it lists the entries below the compared keys in increasing order of their written paths, up to case, if and only if no name is a proper prefix of another that goes on with a character below the separator |
| `WrittenOrder.PairWritten` | crates/winreg-diff/src/types.rs:12-14 | the same for two paths in component order: the first is written before the second unless it goes on below the component in which they differ and the other's component there is that name followed by such a character |
| `WrittenOrder.WholeListExact` | crates/winreg-diff/src/types.rs:12-14 | the whole list, with an entry for the compared keys themselves, is in order if and only if the rest is and that entry's name comes before the next path |
| `WrittenOrder.RunBeforeRunOnce` | crates/winreg-diff/src/types.rs:12-14 | a comparison whose entries are not: a key `Run` with a key below it and `RunOnce`, against `Run` alone |
| `TxLog.OverlayBuffer.ReadAt` | crates/winreg-core/src/txlog.rs:37-65 | each byte comes from the covering page that starts last, else the base, else is zero |
| `TxLog.OverlayBuffer.FindPage` | crates/winreg-core/src/txlog.rs:42-58 | the search from the greatest offset down returns the greatest start of a covering page |
| `TxLog.OverlayBuffer.Materialize` | crates/winreg-core/src/txlog.rs:78-80 | the materialized buffer is the overlaid base, of the same length |
| `TxLog.ReadThenSlice` | crates/winreg-core/src/txlog.rs:37-80 | reading a range gives the same bytes as slicing the materialized buffer |
| `TxLog.ReplayExact` | crates/winreg-core/src/txlog.rs:32-80 | for given page ranges the overlay equals applying every page in order to the base, for all contents, if and only if no byte is stale: its last page is neither replaced by a later page at the same offset that leaves it out nor hidden by a page starting further right |
| `TxLog.StaleByteDiffers` | crates/winreg-core/src/txlog.rs:32-65 | where a byte is stale there are contents for which the two differ |
| `TxLog.DisjointNeverStale` | crates/winreg-core/src/txlog.rs:32-65 | pages that are pairwise disjoint or at the same offset with the same length never make a byte stale |
| `TxLog.PatchAllExact` | crates/winreg-core/src/txlog.rs:32-80 | writing pages over the base in order leaves at each byte that of the last page over it, or the base's |
| `TxLog.DistinctOffsetsCommute` | crates/winreg-core/src/txlog.rs:32-34 | pages at distinct offsets can be applied in either order |
| `LogReplay.ReplayTransactionLogs` | crates/winreg-core/src/txlog.rs:92-118 | the overlay holds, for each offset, the last page there of the pages that `LogBytes.ReplayPagesExact` describes, and nothing else |
| `LogBytes.ReplayPagesExact` | crates/winreg-core/src/txlog.rs:92-118 | log by log: a log of at least 512 bytes that starts with `regf` and has file type 1 or 6 yields the pages of its entries; any other log yields none |
| `LogBytes.LogExact` | crates/winreg-core/src/txlog.rs:121-173 | the entries of a log are the first `HvLE` from byte 512 on, then the first from where the size of the one before leads, as long as 40 bytes are left |
| `LogBytes.EntryExact` | crates/winreg-core/src/txlog.rs:133-168 | the pages of an entry are those of its references, in order, that lie in the log and whose data do: the data behind all references, one page after the other by the sum of the sizes modulo 2^32, at 4096 plus the stored offset |
| `LogBytes.AdvancesExact` | crates/winreg-core/src/txlog.rs:128-171 | the scan of a log ends if and only if there is such a list of entries, that is unless it meets an entry of size 0 |
| `LogBytes.AppliedHolds` | crates/winreg-core/src/txlog.rs:32-34 | applying pages in order keeps for each offset the last page there |
| `LogReplay.ParseNewFormatLog` | crates/winreg-core/src/txlog.rs:121-173 | the scan applies the pages of each entry in order, skipping byte by byte between entries |
| `LogReplay.SumSizes` | crates/winreg-core/src/txlog.rs:152-158 | the sum of the sizes before a reference, in 32 bits |
| `LogReplay.LogReadBack` | crates/winreg-core/src/txlog.rs:121-173 | a log made of entries that encode lists of pages, anything without an entry after them, is parsed to exactly these pages in order at 4096 + offset |
| `LogReplay.SizesLocate` | crates/winreg-core/src/txlog.rs:150-160 | the prefix sums locate each page's data in its entry |
| `LogReplay.WriteEntry` | crates/winreg-core/src/txlog.rs:133-139 | every list of pages that fits 32-bit sizes has such an encoding |
| `LogReplay.ReplayAndMaterialize` | crates/winreg-core/src/txlog.rs:90-118 | when no byte is stale, replaying and materializing gives at each byte the last of these pages over it, or the base, clipped to the base |
| `LogRuns.ReplaysLogged` | crates/winreg-core/src/txlog.rs:92-173 | logs made of 512 bytes that start with `regf` and have file type 1 or 6, entries that encode pages and tails without entries are replayed as exactly these pages, log by log and entry by entry |
| `LogRuns.ReplayLogged` | crates/winreg-core/src/txlog.rs:90-173 | end to end: where logged pages of distinct offsets are disjoint and those of one offset as long as each other, replaying such logs and materializing gives at each byte the last logged page over it, or the hive |
| `LogRuns.StaleLogDiffers` | crates/winreg-core/src/txlog.rs:32-173 | wherever pages can be logged that leave a byte stale, some accepted log with pages of these ranges, over some hive, gives other bytes than writing the pages in order |
| `LogRuns.ShorterPageLog` | crates/winreg-core/src/txlog.rs:32-34 | such a log: a page of two bytes, then one of one byte at the same offset |
| `LogRuns.HiddenPageLog` | crates/winreg-core/src/txlog.rs:42-58 | such a log: a page of one byte, then one of two bytes that starts before it and covers it |
| `MultiSz.Decode` | crates/winreg-core/src/value.rs:176-207 | the loop over code units yields the strings up to the first empty one |
| `MultiSz.DecodeInvertsEncode` | crates/winreg-core/src/value.rs:176-207 | decoding the terminated form of any list of non-empty NUL-free strings returns the list, with or without the final terminators |
| `MultiSz.LastUnterminated` | crates/winreg-core/src/value.rs:195-205 | a last string without its terminator is kept |
| `MultiSz.AfterEmptyStringIgnored` | crates/winreg-core/src/value.rs:185-192 | whatever follows the empty string is ignored |
| `MultiSz.StringDecodes` | crates/winreg-core/src/value.rs:162-172 | pairing bytes, cutting at the first NUL and decoding inverts the encoding of any string without NUL, with or without a terminator, whatever follows it and even with a stray last byte |
| `Text.SplitJoin` | crates/winreg-core/src/key.rs:115-120 | splitting joined components gives the components back |

## Left out

- Files, directories, the command line and `Hive::from_path`: input and output only.
- The artifact catalogue, shell items, `jiff` timestamps, serialisation, error texts and display formatting: values compared by the comparison are type and raw bytes, and the display string of a snapshot is not modelled.
- Substring classifiers and fixed-offset extractors (run keys, services, shimcache, SAM and the like): each says one thing per branch.
- Graded confidence as a float (`HiveCarver`): the three levels that the carver assigns are modelled.
- `resolve_control_sets`: the formatted number of the control set is a parameter, a list of names or none.
- BuiltTrees.BuildHive: asks that no path starts with an empty component. With a path that starts with a separator the writer does not do what is asked of it: that path is collected and never visited (`KeyTrees.VisitsAll`), the calls nest without bound if it starts with two (`KeyTrees.RecursionEnds`), and the files that come out otherwise, with keys filed under the paths of others, are not described. The empty path itself, which makes a child of the root with an empty name, can be built by the source and is left out here because paths then no longer tell the root from that child (`KeyTrees.GoodInputExact`).
- Builder.Build: the same.
- LogReplay.ParseNewFormatLog: an entry whose size is zero makes the source loop for ever, so entries that are met must have another size; sums of page sizes wrap as they do in a release build.
- Hives.ReadCellRaw: a panic is the error `SlicePanic` here, which is passed on like any error; where the source goes on after a read error (a segment of a large value, the data of a compared value) the model goes on after this one too, while the source would have ended.
- Keys.CollectSubkeyOffsets: `ri` lists that contain each other recurse without bound in the source; the model carries a depth and returns an error beyond it, which for a file is exactly where the source does not end (`Keys.FlatDepthSuffices`).
- Iterators.DrainBfs: and the other results on iteration are for key graphs that unfold to finite trees; on a cyclic graph the source does not end.
- Carve.Scanner.ScanSlack: the source also returns early when the region ends outside the data, which its callers exclude by clipping to the bin.
- Diff.DiffHives: is stated over graphs that unfold to finite trees, as for iteration; names of siblings need not be distinct for what it computes, only for the laws that say so. The two labels are passed through by the source and left out here.
- MultiSz.Decode: unpaired surrogates become the replacement character; the code units of a string are those of section 2.1 of RFC 2781.
- The security descriptor cell, class names and volatile subkeys are laid out and parsed, but nothing is proved about following them, since no reader here does.
- Hash and sequence checks of log entries: the code makes none.
