# whatthefile, modelled in Dafny

whatthefile indexes a selection of files as a nested tree and renders that tree as a numbered, linked list. The list becomes a Markdown or Word document, or a page in the browser. This project models the logic behind that:

- **The browser selection normaliser** (`selectFolder` in the two web `App` components, plus the `Set` de-duplication). It keeps the relative paths of the picked files and rebases them so that the selected folder reads as `"."`.
- **The path-to-tree reducer** `indexFolder` of the web worker. It is an imperative walk that fills a path-to-node map and a parent-to-children map, then returns the children of the `"."` node.
- **The projections of the tree:**
  - `toMdast` / `toMdastList`: the web worker's copy and the desktop app's copy;
  - `FilesList` / `FilesTree`: the element tree the web app renders.
- **The filesystem indexers** `indexPath` / `indexPaths`:
  - the counted-tree variant, shared by the desktop app and the older app;
  - the flat file-list variant of the older app's main process.

The modules:

| file | module | contents |
|---|---|---|
| text.dfy | `Wrappers`, `Seqs`, `Text` | two generic sequence identities (`Seqs`); JavaScript `split("/")`, `join("/")`, `replace` with a string pattern, and decimal rendering, each with its inverse or its defining property |
| tree.dfy | `Tree` | the two node shapes (`PathNode`, `CountedNode`) and size, depth, preorder and count measures |
| folder_index.dfy | `FolderIndex` | `indexFolder` as methods over the two maps, proved equal to a fold `Build`; the invariant the fold keeps; materialisation of the final forest |
| folder_index_theory.dfy | `FolderIndexTheory` | what `Build` guarantees: one record per distinct path, the attached pairs are exactly the prefix pairs, idempotence, order independence, reachability of inputs, sibling order |
| mdast.dfy | `Mdast` | the worker's mdast document, read back to the forest, with link, nesting and count properties |
| electron_mdast.dfy | `ElectronMdast` | the desktop app's mdast document and its agreement with the worker's list |
| files_tree.dfy | `FilesTree` | the `FilesList` / `FilesTree` element tree |
| fs_index.dfy | `FileSystem`, `FsIndex` | a filesystem snapshot, and the counted-tree indexer over it |
| flat_index.dfy | `FlatIndex` | the flat file-list indexer, proved equal to the file nodes of the counted tree |
| select_folder.dfy | `Selection` | `selectFolder`, the de-duplication and the two `handleSelect` outcomes |
| pipeline.dfy | `Pipeline` | selection, then index, then document, end to end |

The worker's `indexFolder`, `toMdast` and `toMdastList` are the same code in `whatthefile-web/src/worker/index.ts` and `index.tsx`, so they are modelled once. The same holds for `indexPath` / `indexPaths` in `whatthefile-electron/src/ipcs/main.ts` and `whatthefile/src/ipcs/main.ts`, and for `selectFolder` in the two web `App` components.

Three behaviours of the source worth knowing:

- The worker's nodes carry no counts; the count in the worker's document is the number of paths the worker received.
- The first segment of a path is never attached to anything, because its parent string is empty. The forest is the children of the `"."` record, so paths that do not start with `./` produce an empty forest.
- Reordering the input keeps the records and the attached pairs, but siblings follow first-seen order.

## Model

| member | source | states |
|---|---|---|
| Text.Split | whatthefile-web/src/worker/index.ts:14-22 | a split always has at least one segment, and no segment holds "/"; the `segments.length < 1` branch cannot run |
| Text.SplitJoin | whatthefile-web/src/worker/index.ts:25-26 | joining "/"-free segments and splitting again gives the segments back |
| Text.JoinSplit | whatthefile-web/src/worker/index.ts:25-26 | splitting and joining again gives the string back |
| Text.LastSegment | whatthefile-web/src/worker/index.ts:31 | a node's name has no "/" and is a suffix of its path: either the whole path, or the part right after a "/" |
| Text.LastSegmentOfChild | whatthefile-web/src/worker/index.ts:41 | the name of `parent + "/" + seg` is `seg` |
| Text.ReplaceFirst | whatthefile-web/src/app/_components/App.tsx:21 | a string without the pattern is unchanged; otherwise exactly the first occurrence is spliced out and the replacement put in |
| Text.ReplaceFirstAtFront | whatthefile-web/src/app/_components/App.tsx:21 | a string starting with the pattern gets the replacement in front of the rest |
| Text.ParseNatToString | whatthefile-web/src/worker/index.ts:86 | the decimal rendering of a count reads back as the count |
| Tree.PreorderSize | whatthefile-web/src/worker/index.ts:113-147 | the preorder listing has one entry per node |
| Tree.TotalCountAppend | whatthefile-electron/src/app.tsx:24 | the top-level sum of `filesCount` is additive over concatenation |
| FolderIndex.Attach | whatthefile-web/src/worker/index.ts:29-51 | one turn of the inner loop for a non-empty parent: creates the missing parent and child records and attaches the child once; the new maps are `AttachPair` of the old |
| FolderIndex.AddPathTo | whatthefile-web/src/worker/index.ts:14-52 | the loop over prefixes, longest first, skipping empty parents, leaves the maps at `AddPath` of the old |
| FolderIndex.IndexFolder | whatthefile-web/src/worker/index.ts:7-56 | the reducer returns the forest of `Build(filePaths)`, whose state satisfies the invariant; an empty input returns [] |
| FolderIndex.Materialize | whatthefile-web/src/worker/index.ts:30-49 | the node of a record has the record's path and name, and as many children as the record has child paths |
| FolderIndex.EnsureWF | whatthefile-web/src/worker/index.ts:29-46 | creating a missing record for a non-empty path keeps the invariant; records are keyed by path and named by the last segment |
| FolderIndex.LinkWF | whatthefile-web/src/worker/index.ts:48-51 | attaching a not-yet-attached child one segment below its parent keeps the invariant: no duplicate children, and the attached set matches the children list |
| FolderIndex.AttachPairWF | whatthefile-web/src/worker/index.ts:24-51 | one turn keeps the invariant |
| FolderIndex.AddPrefixesWF | whatthefile-web/src/worker/index.ts:24-52 | the inner loop keeps the invariant |
| FolderIndex.BuildWF | whatthefile-web/src/worker/index.ts:13-53 | every state the reducer reaches satisfies the invariant |
| FolderIndexTheory.PrefixPairsMembers | whatthefile-web/src/worker/index.ts:24-27 | the turns of one path attach exactly the pairs (prefix of j-1 segments, prefix of j segments) whose parent is non-empty |
| FolderIndexTheory.BuildEdges | whatthefile-web/src/worker/index.tsx:22-49 | a child is attached under a parent exactly when the pair is a prefix pair of some input path |
| FolderIndexTheory.BuildKeys | whatthefile-web/src/worker/index.ts:29-46 | the records are exactly the endpoints of the prefix pairs: one node per distinct path |
| FolderIndexTheory.AttachPairExtends | whatthefile-web/src/worker/index.ts:29-51 | a turn never removes or renames a record, only appends to children lists, and only grows attached sets |
| FolderIndexTheory.BuildPrefixExtends | whatthefile-web/src/worker/index.ts:13-53 | later paths never replace records created by earlier ones |
| FolderIndexTheory.RepeatedPathNoop | whatthefile-web/src/worker/index.ts:48-51 | indexing a path already present leaves the whole state unchanged |
| FolderIndexTheory.SameSetSameTree | whatthefile-web/src/worker/index.tsx:11-51 | inputs with the same paths in any order or multiplicity give the same records, attached sets, names and children, up to sibling order |
| FolderIndexTheory.RootPairs | whatthefile-web/src/worker/index.ts:27 | only a path starting with segment "." and having another segment attaches anything under "."; "." is never a child |
| FolderIndexTheory.ForestNonEmptyIff | whatthefile-web/src/worker/index.ts:55 | the result is non-empty exactly when some input path starts with "." and has at least two segments |
| FolderIndexTheory.InputPathReachable | whatthefile-web/src/worker/index.tsx:22-53 | every input path starting with "." and having at least two segments occurs in the returned forest |
| FolderIndexTheory.ForestWellLinked | whatthefile-web/src/worker/index.ts:24-44 | in the returned forest, each node's path is its parent's path, "/", and its name, and its name is the last segment of its path |
| FolderIndexTheory.ParentUnique | whatthefile-web/src/worker/index.tsx:22-49 | a path is attached under at most one parent, so the result is a tree |
| FolderIndexTheory.SiblingsInFirstSeenOrder | whatthefile-web/src/worker/index.tsx:11-51 | an earlier sibling comes from an input path at or before any path that produced a later sibling |
| Mdast.ListItems | whatthefile-web/src/worker/index.tsx:117-142 | one item per node, in order: a tight item whose first child is a link to the path showing the name, plus a nested list exactly when the node has children |
| Mdast.ToMdastList | whatthefile-web/src/worker/index.ts:113-147 | an ordered list starting at 1, not spread, with one item per node as above |
| Mdast.ToMdast | whatthefile-web/src/worker/index.ts:58-111 | an empty forest gives a root with no children; otherwise the root holds exactly the "Index" heading of depth 1, the introduction with the given count, and the list |
| Mdast.ReadToMdastList | whatthefile-web/src/worker/index.ts:113-147 | reading the list back gives the forest: names, paths and nesting are all kept |
| Mdast.ListItemsLinks | whatthefile-web/src/worker/index.ts:119-138 | the links, in document order, are (path, name) of every node in preorder |
| Mdast.LinkCount | whatthefile-web/src/worker/index.tsx:111-145 | the number of links equals the number of nodes |
| Mdast.ListNesting | whatthefile-web/src/worker/index.tsx:111-145 | the list nesting depth equals the tree depth |
| Mdast.StatedCountOf | whatthefile-web/src/worker/index.ts:58-90 | the bold sentence of a non-empty document reads back as the given count; an empty document states none |
| ElectronMdast.ToMdast | whatthefile-electron/src/app.tsx:17-45 | an empty forest gives a root with no children; otherwise exactly the title, the paragraph stating the total, and the list, in that order |
| ElectronMdast.StatedTotalOf | whatthefile-electron/src/app.tsx:24-38 | the reported total is the sum of `filesCount` over the top-level nodes only |
| ElectronMdast.ToMdastListForget | whatthefile-electron/src/app.tsx:47-81 | the desktop list is the worker's list of the same forest without counts |
| ElectronMdast.ItemsShowNodes | whatthefile-electron/src/app.tsx:53-78 | each item links to the node's path with its name, with a nested list if and only if the node has children; the list reads back as the forest |
| ElectronMdast.LinksAndNesting | whatthefile-electron/src/app.tsx:47-81 | one link per node of the tree; list nesting as deep as the tree |
| FilesTree.Rows | whatthefile-web/src/app/_components/FilesTree.tsx:10-15 | one `li` per node, in order, keyed by the path, holding an anchor to the path showing the name and then a nested `ol` (even for a leaf) |
| FilesTree.FilesList | whatthefile-web/src/app/_components/FilesTree.tsx:7-18 | one `ol` with the rows of the forest |
| FilesTree.FilesTreeOf | whatthefile-web/src/app/_components/FilesTree.tsx:20-45 | the h1 "Index", three paragraphs, then the list, for every forest |
| FilesTree.ShownCountOf | whatthefile-web/src/app/_components/FilesTree.tsx:32 | the count shown is the argument, not recomputed from the tree |
| FilesTree.FilesListCounts | whatthefile-web/src/app/_components/FilesTree.tsx:9-16 | one anchor per node, and one `ol` per node plus the outer one |
| FilesTree.AnchorsMatchMdastLinks | whatthefile-web/src/app/_components/FilesTree.tsx:12 | the anchors link the same targets with the same texts, in the same order, as the worker's mdast links |
| FilesTree.ReadRowsOf | whatthefile-web/src/app/_components/FilesTree.tsx:9-16 | reading the rows back gives the forest |
| FileSystem.JoinPathBasename | whatthefile-electron/src/ipcs/main.ts:45-47 | the basename of a child path joined from a single-segment name is that name |
| FsIndex.IndexPath | whatthefile-electron/src/ipcs/main.ts:23-67 | at most one node. A skipped hidden basename, an entry that is neither a file nor a directory, and an error all yield nothing. A file yields one node with count 1 and no children. A directory yields one node whose children are the results for its listing and whose count is the sum of its children's |
| FsIndex.IndexListing | whatthefile-electron/src/ipcs/main.ts:43-48 | a directory listing yields at most one child node per listed entry |
| FsIndex.IndexListingAppend | whatthefile-electron/src/ipcs/main.ts:44-48 | the children for a concatenation of listings are the concatenation of their children, in listing order |
| FsIndex.IndexPathFiles | whatthefile-electron/src/ipcs/main.ts:23-67 | the file nodes of a path's result are exactly the files reached from it by following listings without passing a skipped hidden name |
| FsIndex.IndexListingFiles | whatthefile-electron/src/ipcs/main.ts:43-48 | the file nodes under a directory are exactly the files reached from one of its listed entries |
| FsIndex.IndexPathsFiles | whatthefile-electron/src/ipcs/main.ts:12-60 | over a selection, the reported total is the number of file nodes, and these are exactly the files reached from some selected path |
| FsIndex.CountIsFileLeaves | whatthefile/src/ipcs/main.ts:43-46 | under the counting rule, a forest's total is its number of file nodes |
| FileSystem.ReachedIsBelow | whatthefile-electron/src/ipcs/main.ts:28-30 | a file the walk reaches is a file below the path; with `ignoreHidden` off, every file below is reached |
| FsIndex.IndexPaths | whatthefile-electron/src/ipcs/main.ts:12-21 | at most one node per selected path |
| FsIndex.IndexPathsAppend | whatthefile/src/ipcs/main.ts:6-15 | the results for a concatenation of inputs are the concatenation of their results, in input order |
| FsIndex.IndexPathsInvariants | whatthefile-electron/src/ipcs/main.ts:28-60 | every count in the result follows the rule (file 1, directory the sum over its children); with `ignoreHidden`, no hidden name appears at any depth |
| FsIndex.IndexPathCounts | whatthefile/src/ipcs/main.ts:37-46 | the counting rule holds at every depth |
| FsIndex.IndexPathNoHidden | whatthefile-electron/src/ipcs/main.ts:28-48 | with `ignoreHidden`, no node at any depth has a hidden name |
| FsIndex.IndexListingLinked | whatthefile-electron/src/ipcs/main.ts:44-58 | when every listed name is a single segment, each node's path is its parent's path, "/", and its name, and its name is its basename, at every depth |
| FlatIndex.IndexPath | whatthefile/src/main.ts:11-34 | a hidden basename, another kind of entry, or an error yields []. A file yields exactly its path, a directory its listing's list. Every returned path is a file reached by following listings, and its basename is not hidden |
| FlatIndex.IndexListing | whatthefile/src/main.ts:25-28 | each returned path is a visible file below one of the listed entries |
| FlatIndex.IndexPaths | whatthefile/src/main.ts:7-9 | no returned path has a hidden basename |
| FlatIndex.IndexPathComplete | whatthefile/src/main.ts:11-34 | a path is listed exactly when it is a file reached from the selected path without passing a hidden name |
| FlatIndex.IndexListingComplete | whatthefile/src/main.ts:25-28 | a directory's list holds exactly the files reached from one of its listed entries |
| FlatIndex.IndexListingAppend | whatthefile/src/main.ts:25-28 | the list for a concatenation of listings is the concatenation of their lists, in listing order |
| FlatIndex.IndexPathsComplete | whatthefile/src/main.ts:7-34 | over a selection, the list holds exactly the reached files, and its length is the counted tree's total |
| FlatIndex.FlatMatchesTree | whatthefile/src/main.ts:7-34 | the flat list is the file nodes of the counted tree, in order, so its length is the tree's total |
| Selection.RelativePaths | whatthefile-web/src/app/_components/App.tsx:14-19 | no kept path is empty, and at most one is kept per handle |
| Selection.RelativePathsAppend | whatthefile-web/src/app/_components/App.tsx:14-19 | the filter works handle by handle: the kept paths of a concatenation are the kept paths of each part, in order and with repeats |
| Selection.RelativePathsMembers | whatthefile-web/src/app/app.tsx:18-23 | a path survives exactly when it is the non-empty relative path of a file handle |
| Selection.BasePath | whatthefile-web/src/app/_components/App.tsx:20 | the base is a "/"-free prefix of the first path: either the whole first path, or a prefix followed by "/" in it |
| Selection.RebasedPaths | whatthefile-web/src/app/_components/App.tsx:21 | same number of paths, in order; in each path the first occurrence of the base and "/", wherever it is, becomes "./" (so a path starting with it gets "./" in front of the rest); a path without that substring is unchanged |
| Selection.SelectFolder | whatthefile-web/src/app/_components/App.tsx:10-24 | an error exactly when no path survives the filter; otherwise one rebased path per surviving path |
| Selection.Dedup | whatthefile-web/src/app/_components/App.tsx:86 | the same paths, each once |
| Selection.DedupOrder | whatthefile-web/src/app/_components/App.tsx:86 | kept paths are in the order of their first occurrences |
| Selection.SelectUnique | whatthefile-web/src/app/_components/App.tsx:81-103 | the unique paths, or the access error message exactly when the selection has no files |
| Selection.CountMessageOf | whatthefile-web/src/app/_components/App.tsx:85-90 | after a selection with files, the message shown reads back as the number of unique paths |
| Selection.SelectAll | whatthefile-web/src/app/app.tsx:78-92 | the rebased paths exactly as `selectFolder` returns them, in order and with repeats, as many as survived the filter; or the access error message exactly when no path survived |
| Pipeline.SelectionDotRooted | whatthefile-web/src/app/_components/App.tsx:20-21 | for a one-folder selection, every rebased path starts with segment "." and has another segment |
| Pipeline.DedupSameIndex | whatthefile-web/src/app/_components/App.tsx:86-93 | indexing the unique paths builds exactly the state that indexing all of them builds |
| Pipeline.WorkerMdast | whatthefile-web/src/worker/index.ts:151-154 | the worker's document is non-empty exactly when some path is "."-rooted, and then it states the number of paths received |
| Pipeline.WorkerFilesTree | whatthefile-web/src/worker/index.tsx:158-166 | the rendered tree shows the number of paths received |
| Pipeline.SelectionIndexed | whatthefile-web/src/app/_components/App.tsx:81-93 | for a one-folder selection, the unique paths index like the raw ones, every selected file is reachable in the forest, and the count shown is the number of unique paths |

## Left out

- Shared node objects: `indexFolder` pushes references to shared node objects. The model stores child paths in each record and builds the tree once at the end (`FolderIndex.ForestOf`), so aliasing is not modelled.
- Logging (`console.log`, `console.error`): it has no effect on results.
- Platform glue:
  - the React components, hooks, state setters and `clear()`;
  - worker creation and message passing;
  - Markdown, HTML and Word conversion, and saving files;
  - the `file://` link rewriting;
  - the Electron window, dialog and shell handlers.
  All of these are calls into code that is not part of this model.
- The five-second timeout that clears the error message: it depends on a clock.
- The folder picker itself: the model starts from the handles it returned. A picker that rejects ends in the same `catch` and the same message as an empty selection.
- Real `stat`, `readdir` and `Promise.all`:
  - they are replaced by a snapshot (`FileSystem.Snapshot`, `Entry`);
  - results are combined sequentially, which keeps the order `Promise.all` keeps;
  - an entry that cannot be read, or an error anywhere in its `try`, is `Unreadable`.
- FileSystem.JoinPathBasename: `path.join` is `dir + "/" + name`, without `.`/`..` or separator normalisation; `path.basename` is the last "/" segment. In the flat indexer, joining onto the empty parent leaves the path as it is.
- JavaScript numbers: counts are unbounded naturals, because real selections stay far below 2^53.
- React's requirement that `li` keys be unique among siblings is not checked.

