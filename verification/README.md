# Verified model of the ReFS directory walk

`refs-core` reads a directory of a ReFS v3 volume straight from image bytes, and `refs-forensic`
carves superseded directory pages from the same bytes. Nothing in an image can be trusted: the
directory tree is a graph whose edges are read from bytes, block numbers are virtual, and the map
that translates them is itself scanned from the image. This project models that walk in Dafny and
proves what it guarantees.

| file | what it models |
|---|---|
| `Bytes.dfy`, `Wrappers.dfy`, `Layout.dfy` | machine integers, checked arithmetic, little-endian readers and writers, errors; where a page lies and what marks it |
| `Minstore.dfy` | the Minstore page parser, its rows, the object-table lookup |
| `NodeLayout.dfy` | nodes in any layout the format allows, and the proof that the parser reads back exactly what is laid |
| `PageWriter.dfy`, `PageCodec.dfy` | the page builder, over an array, and the proof that the parser inverts it under any flags |
| `Container.dfy`, `Resolution.dfy` | the scanned base map and certified translation of block numbers |
| `Descent.dfy`, `DescentTheorems.dfy`, `TreeWalk.dfy` | the depth-first search over any graph, and over trees |
| `Directory.dfy`, `DirectoryTheorems.dfy` | entries, the walk over image bytes, listing by object id |
| `Paths.dfy` | path lookup |
| `Carver.dfy`, `Sweep.dfy` | residue recovery and the self-block sweep |
| `Utf16.dfy` | name decoding |
| `EntryRows.dfy`, `Volume.dfy` | entry, reference and object rows, and the end-to-end theorems |
| `TablePage.dfy` | when the object table is what its page alone holds |
| `Images.dfy`, `Shapes.dfy` | whole images, built page by page: any file system of small pages, any shape of directory tree, and truncated listings |
| `LiveNames.dfy`, `Ties.dfy`, `SweptImages.dfy` | what the carver's report says about names the walk still lists, when it depends on scan order, and what the sweep reports of built images |

The search is stated once, as a function on an abstract graph (a block fails to read, is a branch
naming blocks, or is a leaf holding entries); the class that grows `visited` and `out` is proved to
compute it, and the byte level supplies the graph. The model keeps a log the program does not keep,
of the unvisited blocks a cap turned away (`cuts`), because that log is what decides whether a
listing is complete.

`usize` is 64 bits wide and a buffer has at most 2^63-1 bytes. Unchecked additions of the source are
preconditions here, so that they cannot overflow is proved at every call.

Where the code differs from what its comments and documentation say, the model follows the code:

- A cap ends a call with success (core/src/directory.rs:364-366), so a listing can be truncated
  without an error, against core/src/directory.rs:432-433. A block is visited only once, at the depth
  where it is first met, so even a leaf two edges from the root can be lost: `Images.ListingCanBeTruncated` gives the images,
  `TreeWalk.ShortPathsCanBeLost` the graphs. The caps are not felt if and only if the search without
  them goes less than 64 levels deep and visits at most 4096 pages: `DescentTheorems.WalkWithinCaps`
  for any graph, `DirectoryTheorems.CapsNotFeltExactly` for any image, `TreeWalk.WalkListsTree` and
  `Volume.StoredTreeWalk` in terms of a tree's levels and nodes. When they are felt, the listing is
  still complete if and only if every block turned away was visited by another way:
  `DirectoryTheorems.ListingCompleteIff`. When only the page cap is felt it never is complete:
  `DirectoryTheorems.PageCapOnBytes`. A tree without empty leaves or branches is listed in full if and
  only if it has at most 64 levels and 4096 nodes: `Volume.StoredTreeListedInFullIff`, and, for an
  image of every shape of tree, `Shapes.EveryShapeIsListed`.
- The low-block fallback of `resident_block_offset` is never chosen: `Resolution.FallbackNeverChosen`.
- The object table is parsed from everything after cluster 56, not from one page
  (core/src/directory.rs:250-263). It is the table of its page if and only if the rest of the image
  adds no node header and no record that fits: `TablePage.TableIsItsPageIff`. A table laid out
  inside its page meets this (`TablePage.LaidTableSuffices`); on other images list_dir follows a record
  that lies past the page, whatever the page says of the id: `TablePage.TableReadsPastItsPage`.
- `recover_residue` never consults the object table (forensic/src/lib.rs:545-601); the current
  version is the first-scanned page with the greatest self block. That takes a directory for one page,
  against forensic/src/lib.rs:503-506 and 519-539: in a directory of several leaves every leaf but the
  newest is taken for an older version, so a live name can be reported as dropped
  (`LiveNames.LiveNamesAreRecovered`, on the layout of core/tests/descent.rs:205-257). On an image
  with one newest root page, and whose walk visits leaves of the root directory only, a live name is
  reported if and only if the newest page lacks it: `LiveNames.LiveNameIsRecoveredIff`. When the root
  directory is one page, and that page is the current one, no reported name is live:
  `LiveNames.OnePageRecoversNoLiveName`.
- Of several root pages of the greatest self block the first scanned decides, so the report can depend
  on the order of the pages. It does not if and only if all of them leave the same records:
  `Carver.OrderIndependentIff`; `Ties.TiedPagesDependOnOrder` gives the images on which it does.
- The early stop at forensic/src/lib.rs:430-432, noted there as unreachable, is taken if and only if
  the image has a cluster and its last cluster, with the bytes after it, is shorter than a page:
  `Sweep.EarlyStopExactly`. At 4096-byte clusters that is every such image; where clusters are at
  least 16384 bytes the note is right.
- The parse failure at forensic/src/lib.rs:621-623, noted there as unreachable too, is met if and only
  if a page's node header runs past it, and such a page carves nothing: `Carver.UnparsableExactly`.
  Images with such a resident root page exist for every header offset that runs past it:
  `Carver.UnparsableRootPage`.

## Model

| member | source | states |
|---|---|---|
| Bytes.Reads2 | core/src/bytes.rs:10-18 | the 16-bit reader returns the word held at the offset, or 0 when the buffer ends before it does, and nothing else |
| Bytes.Reads4 | core/src/bytes.rs:20-28 | the same for 32 bits |
| Bytes.Reads8 | core/src/bytes.rs:30-38 | the same for 64 bits |
| Minstore.Parse | core/src/minstore.rs:101-146 | parsing fails exactly when the header field or the node header runs past the buffer; otherwise every field is that of the header the field at 0x50 names, and the record count is the claimed one, cut to 4096 and to the whole offset words the buffer holds |
| Minstore.HasRecordIff | core/src/minstore.rs:128-136 | a parsed node has a record i if and only if its header claims it, i is below 4096, and the whole offset word lies in the buffer |
| Minstore.RowsAreTheFittingRecords | core/src/minstore.rs:166-197 | for every buffer, the rows are the records whose header, key and value lie inside it, counted from the node header by the low half of their offset words, one row a record and in record order, each row being the slices its record names; the checked arithmetic never rejects one |
| Minstore.RowCountBound | core/src/minstore.rs:130-136 | a 16 KiB page has at most 4076 rows |
| Minstore.ParseExtends | core/src/minstore.rs:101-197 | whenever a buffer parses, every extension of it parses to the same header and its rows are an order-preserving subsequence of the extension's |
| Minstore.ExtensionAddsNothingIff | core/src/minstore.rs:101-197 | an extension of a buffer that parses reads the same rows if and only if each record that fits the extension already fitted the buffer |
| Minstore.LookupRow | core/src/minstore.rs:242-260 | for keys and values of every length, a row with the id at key byte 8 and a block at value byte 0x20 answers with that block, and any other row is passed over, one with the id but a short value included |
| Minstore.LookupIsFirstAnswer | core/src/minstore.rs:242-260 | a lookup returns a block if and only if it is the one that the first row with the id and a long enough value refers to |
| NodeLayout.LaidNodeParses | core/src/minstore.rs:6-28 | for every layout, wherever header, offset array, records, keys and values lie, a laid node parses to exactly its rows, in order, with its level and flags, and is a branch if and only if bit 0 of the flags is set |
| NodeLayout.LaidLonger | core/src/minstore.rs:101-146 | what follows a laid node in the buffer does not matter |
| PageWriter.BuildPage | core/tests/descent.rs:65-117 | the builder's loops over the 16 KiB buffer produce headers, records back to back from 0x120, and the offset array at 0x2100, for all rows that do not overrun the page |
| PageWriter.WriteRecords | core/tests/descent.rs:78-95 | the record loop leaves the records' bytes at the cursor and remembers each start |
| PageWriter.WriteOffsets | core/tests/descent.rs:97-103 | the offset loop overwrites the array's place with one masked word a record |
| PageWriter.WritePageHeader | core/tests/descent.rs:54-60 | the block header: signature, self block at 0x20, table id at 72 |
| PageCodec.ReadWrittenRecord | core/src/minstore.rs:174-196 | the record parser inverts the record writer |
| PageCodec.ParseInvertsBuild | core/tests/descent.rs:65-117 | for all rows of at most 8160 bytes of records, the built page, followed by any bytes, parses to exactly those rows in order, with level, branch flag, self block and table id |
| PageCodec.ParseInvertsFlagged | core/src/minstore.rs:155-164 | the same for the built page with any flags byte: the rows are the same, and it is a branch if and only if bit 0 is set |
| PageCodec.OneByteTooLong | core/tests/descent.rs:97-103 | 8160 is tight: a page built from any one record of 8161 bytes still parses, and to what was written if and only if the record's last byte happens to be 0x20 |
| Utf16.DecodeInvertsEncode | core/src/directory.rs:167-175 | decoding the UTF-16LE encoding of any Unicode string returns it |
| Utf16.OddByteIgnored | core/src/directory.rs:168-171 | an odd trailing byte changes nothing |
| Utf16.ReencodeReplacesUnpaired | core/src/directory.rs:172-174 | re-encoding a decoded name gives the input back, except that each unpaired surrogate, judged by its neighbours, is exactly one U+FFFD |
| Utf16.ReencodeExactIffWellFormed | core/src/directory.rs:172-174 | the units come back unchanged if and only if they were well formed |
| Container.DecomposeExactly | core/src/container.rs:93-98 | index and offset name the block exactly; a band of no clusters passes the block through |
| Container.FromResidentImage | core/src/container.rs:207-246 | the scan loop, with its early stop and skips, computes the first-witness base map of the whole image |
| Container.ScanSpecification | core/src/container.rs:219-255 | a container has no base exactly when no cluster witnesses it, and otherwise the base its least witnessing cluster implies |
| Container.ScanKeysUnique | core/src/container.rs:238-240 | no container is recorded twice and no base lies past the scanned clusters |
| Container.ScanAfterLastPage | core/src/container.rs:221-224 | stopping at the first cluster whose page does not fit loses nothing |
| Container.ScannedInRange | core/src/container.rs:262-267 | on any image, with bands up to 2^50 clusters, every nameable offset leaves room for a page below 2^64 |
| Container.ScannedTranslation | core/src/container.rs:207-283 | on any image and with any positive band, a block translates to its container's first witness's base plus its offset, and is reported when no page witnesses its container or the address is beyond 64 bits, which it never is with bands up to 2^50 clusters |
| Resolution.FallbackNeverChosen | core/src/directory.rs:233-248 | the resident heuristic is its first candidate or nothing |
| Resolution.ResolvedIsCertified | core/src/directory.rs:279-321 | on any image and base map, a resolved offset is cluster-aligned, in bounds, and starts a resident page that records the block |
| Resolution.EveryCandidateIsTried | core/src/directory.rs:298-321 | the base map's candidate wins if the page there answers, the heuristic's otherwise, and a block fails if and only if neither does; so a page at its heuristic cluster is found whatever the base map says |
| Resolution.ResolutionIsInjective | core/src/directory.rs:298-321 | two blocks never resolve to one offset |
| Resolution.ReadPageFailsOnlyUnresolved | core/src/directory.rs:325-339 | a page read fails exactly when its block does not resolve, naming it, and otherwise returns the image's bytes at the resolved offset; its truncation branch is never taken |
| Resolution.ExactResolution | core/src/directory.rs:298-321 | on a band-consistent image a block resolves to c*4096 if and only if the resident page at c records it, and fails if and only if no resident page does |
| Resolution.ResolvableBlocks | core/src/directory.rs:279-284 | at most one block per full-page position ever resolves |
| Directory.DirectoryWalk.Descend | core/src/directory.rs:356-393 | each call changes the visited list and the listing, and returns an error, exactly as the depth-first search does |
| Directory.DirectoryWalk.CollectEntries | core/src/directory.rs:398-421 | the loop appends the entries of the rows, in order |
| Directory.WalkDirectory | core/src/directory.rs:466-472 | the walk with the resolver scanned from the image |
| Directory.ListDir | core/src/directory.rs:444-453 | object table, lookup, walk, with the error of the first that fails |
| Descent.DescendSound | core/src/directory.rs:364-391 | at every call: no block visited twice, at most 4096 visited, the entries are those of the visited leaves in first-visit order, an error belongs to the block visited last |
| Descent.DescendCloses | core/src/directory.rs:372-392 | an Ok call has seen its block and every child of every block it visited |
| DescentTheorems.UncutWalkIsComplete | core/src/directory.rs:356-393 | on any graph, an Ok walk that turned no unvisited block away visits exactly the reachable blocks, once each, and lists exactly their leaves |
| DescentTheorems.CompleteIffCutsRevisited | core/src/directory.rs:364-369 | whether or not the caps are felt, an Ok walk is complete if and only if every block a cap turned away was visited by another way |
| DescentTheorems.FailsExactlyOnUnreadable | core/src/directory.rs:372-386 | an error is that of a reachable block, and without cuts the walk fails if and only if a reachable block cannot be read |
| DescentTheorems.DescendExplainsCuts | core/src/directory.rs:364-366 | a block is turned away only at depth 64 or 4096 pages, after at least as many pages as its depth, all read |
| DescentTheorems.SmallGraphIsNeverCut | core/src/directory.rs:91-96 | with at most 64 reachable blocks no cap turns an unvisited block away |
| DescentTheorems.ReadableBlocksBoundTheWalk | core/src/directory.rs:364-370 | no more pages are visited than blocks can be read, one more on an error; few readable blocks make the caps idle |
| DescentTheorems.WorkBound | core/src/directory.rs:378-387 | calls are at most 1 + fan-out times visited pages |
| DescentTheorems.UncutIsUncapped | core/src/directory.rs:364-370 | at every call, a search that turned nothing away is the search without caps, which terminates on its visited list alone |
| DescentTheorems.CutExactly | core/src/directory.rs:364-370 | at every call, from any state reached, a block is turned away if and only if the search without caps would go to depth 64 or past 4096 pages |
| DescentTheorems.WalkWithinCaps | core/src/directory.rs:86-96 | on any graph, the caps are not felt if and only if the search without them stays below depth 64 and within 4096 pages; the walk then is that search, complete when Ok, and fails if and only if a reachable block cannot be read |
| DescentTheorems.PageCapExactly | core/src/directory.rs:364-366 | on any graph whose search without caps stays below depth 64, the walk visits the first 4096 blocks of that search, and when Ok is complete if and only if that search visits at most 4096 |
| TreeWalk.WalkListsTree | core/src/directory.rs:356-393 | of any tree of distinct blocks the walk visits the first 4096 preorder nodes of the first 64 levels, without error, and lists exactly the leaves among them; it visits the whole tree if and only if the tree has at most 64 levels and 4096 nodes, and then lists all leaves, left to right |
| TreeWalk.ListedInFullIff | core/src/directory.rs:356-393 | of any tree of distinct blocks whose leaves have entries and whose branches have children, the Ok listing is all entries if and only if the tree has at most 64 levels and 4096 nodes, and shorter otherwise |
| TreeWalk.ShortPathsCanBeLost | core/src/directory.rs:364-369 | on every graph with a chain of 64 branches to a leaf, all distinct blocks, and a short cut from the first to the last of them, the walk returns Ok without the leaf, two edges from the root, whatever it holds |
| DirectoryTheorems.UnreadableReasons | core/src/directory.rs:372-373 | a block cannot be read exactly when it does not resolve or its node header runs past its page, each with its own error |
| DirectoryTheorems.CapsNotFeltExactly | core/src/directory.rs:429-433 | on any image, no unvisited block is turned away if and only if the image's search without caps stays within them; an Ok listing then is never truncated |
| DirectoryTheorems.PageCapOnBytes | core/src/directory.rs:429-433 | on any image whose search without caps stays below depth 64, an Ok walk is complete if and only if that search visits at most 4096 blocks |
| DirectoryTheorems.ListingCompleteIff | core/src/directory.rs:429-433 | on any image, an Ok walk has visited every reachable block if and only if every block a cap turned away was visited by another way |
| DirectoryTheorems.WalkFailsLoud | core/src/directory.rs:372-386 | a walk's error names a reachable block no page answers, or reports a reachable page whose node header runs past it; when the caps are not felt it fails if and only if such a block is reachable |
| DirectoryTheorems.UnresolvableMeansAbsent | core/src/directory.rs:298-321 | on a band-consistent image a block is unresolvable if and only if no resident page records it |
| DirectoryTheorems.PositionsBoundTheWalk | core/src/directory.rs:356-393 | an Ok walk visits at most one page per page position of the image; below 4096 positions the page cap is idle, below 64, or with at most 64 reachable blocks, both are |
| DirectoryTheorems.SmallImageIsListedExactly | core/src/directory.rs:466-472 | with fewer than 64 page positions an Ok listing holds exactly the entries of the reachable leaves, each leaf once |
| DirectoryTheorems.CapsAreNotNeededToStop | core/src/directory.rs:86-96 | on any image the search ends without its caps, and agrees with the capped walk when nothing was turned away |
| DirectoryTheorems.WalkWorkBound | core/src/directory.rs:356-393 | at most 1 + 4076 calls per visited page |
| Paths.FindByPath | core/src/directory.rs:484-502 | the loop over components computes the recursive lookup; its fall-through is unreachable |
| Paths.FollowsExactlyTheTrail | core/src/directory.rs:491-500 | lookup gives (d, md) if and only if entries, each the first of its name in a listing that succeeds, lead from directory 0x600 through directories ending in d to an entry with metadata md |
| Paths.PathsCompose | core/src/directory.rs:484-502 | looking up a/b is looking up b in the directory a names |
| Paths.SlashJoinsComponents | core/src/directory.rs:485-485 | the components of a/b are those of a then those of b; extra slashes change nothing |
| Paths.ComponentsAreSlashFree | core/src/directory.rs:485-485 | no component is empty or holds a slash, and a slash-free path is its own component |
| Paths.FirstNamedIsFirst | core/src/directory.rs:493-493 | the entry used is the first with the name |
| EntryRows.EntriesOfRow | core/src/directory.rs:398-421 | for keys and values of every content and length, a row adds exactly one entry if its key starts with the entry record type, with the name, kind, id and metadata its bytes hold, and none otherwise |
| EntryRows.MetadataExactly | core/src/directory.rs:178-205 | the metadata of a value of any length is exactly its fields, each 0 where the value ends before it |
| EntryRows.ChildOfRow | core/src/directory.rs:378-386 | for values of every length, a branch row adds the block in its first eight bytes, or nothing when it is shorter |
| EntryRows.DirectoryValueReads | core/src/directory.rs:178-190 | every field of a directory value reads back from its place, whatever follows the fields |
| EntryRows.FileValueReads | core/src/directory.rs:191-204 | every field of a file value reads back from its place, whatever follows the fields |
| EntryRows.ItemReadsBack | core/src/directory.rs:398-421 | an entry record written for any item reads back as its entry, and a record of another type as none |
| EntryRows.ItemsReadBack | core/src/directory.rs:398-421 | a leaf's rows read back as its items' entries, in order |
| EntryRows.ReferenceReads | core/src/directory.rs:378-386 | a branch row names its child by the first eight bytes of its value, whatever follows them |
| EntryRows.ReferencesReadBack | core/src/directory.rs:378-386 | a branch's rows read back as the child blocks they were written for, in order |
| EntryRows.ShortRowsAreSkipped | core/src/directory.rs:379-384 | a branch row too short for a block number changes nothing |
| EntryRows.WriteDirValue | core/tests/descent.rs:131-136 | the directory value buffer |
| EntryRows.WriteFileValue | core/tests/descent.rs:139-145 | the file value buffer |
| EntryRows.WriteBlockReference | core/tests/descent.rs:151-162 | the 48-byte block reference buffer |
| EntryRows.ObjectsReadBack | core/tests/descent.rs:174-186 | looking an id up in a written object table gives the root listed first for it |
| Volume.PlacedTableLooksUp | core/src/directory.rs:252-267 | a table laid at cluster 56, in any layout and whatever else its rows hold, answers the same through the open-ended slice, whatever follows it |
| TablePage.TableIsItsPageIff | core/src/directory.rs:250-267 | on every image, the table read equals that of the one page at its cluster, errors included, if and only if the image ends before the page, or holds all of it and no node header or record fits the rest of the image that does not fit the page |
| TablePage.LaidTableSuffices | core/src/directory.rs:250-267 | a table laid out inside its page is read from the page alone, whatever follows it |
| TablePage.ListingFailsEarly | core/src/directory.rs:444-450 | each failure of list_dir before the walk, with its own error: an image that ends before the table or in its header, and an id that no row is a record of |
| TablePage.TableReadsPastItsPage | core/src/directory.rs:252-267 | on every image where the first offset word of a written table page points at a record of the id right after the page, the page answers the id as its other records do, and list_dir walks from the block that the record after the page names |
| TablePage.SpilledImage | core/src/directory.rs:252-267 | such an image exists for all table records, ids and blocks, and its page does not suffice |
| Volume.StoredNodeIsSeen | core/src/directory.rs:372-391 | a page whose block resolves to it is seen as the node it holds, in any layout, at any level and under any root or stream bits |
| Volume.StoredTreeWalk | core/src/directory.rs:466-472 | of any tree whose pages, in any layouts, lie where their blocks resolve, of any height and size, the walk lists the items of exactly the leaves among the first 4096 preorder nodes of the first 64 levels, without error |
| Volume.StoredTreeIsListed | core/src/directory.rs:466-472 | such a tree of at most 64 levels and 4096 pages is listed back exactly |
| Volume.StoredTreeListedInFullIff | core/src/directory.rs:429-433 | of any stored tree whose leaves have entries and whose branches have children, the listing is complete if and only if the tree has at most 64 levels and 4096 pages; it is Ok in any case |
| Volume.ConsistentLayoutIsStored | core/src/directory.rs:298-321 | on an image consistent for bands of 16384 clusters it does not matter where the pages lie: every block resolves to its own page |
| Volume.ListDirReturnsWhatWasWritten | core/src/directory.rs:444-453 | list_dir of an object id through a laid table returns exactly the items of its stored tree |
| Images.ImageCarriesFileSystem | core/tests/descent.rs:205-250 | every file system of trees of small pages on distinct page slots, branches and leaves alike and within the caps, has an image, each page at the cluster of its block, that meets all conditions of the end-to-end theorems together |
| Images.BuiltDirectoryIsListed | core/src/directory.rs:444-453 | without the caps' conditions, list_dir of each directory of such an image is Ok and lists exactly the leaves among the first 4096 preorder nodes of the tree's first 64 levels |
| Shapes.EveryShapeIsListed | core/src/directory.rs:429-433 | every shape of directory tree with small nodes, and no empty leaf or branch, has an image, and list_dir of it is all items if and only if the shape has at most 64 levels and 4096 nodes |
| Shapes.EachCapTruncates | core/src/directory.rs:86-96 | each cap truncates an Ok listing on its own: the depth cap that of a tower of 65 pages, the page cap that of a three-level tree of 4161 |
| Images.SlotIsSeen | core/src/directory.rs:356-393 | on every image built of small pages the walk sees each page's node at its block |
| Images.ResidentSlots | core/src/container.rs:219-229 | the resident pages of such an image are exactly those built, each with the self block and the table id it was built with |
| Images.ListingCanBeTruncated | core/src/directory.rs:429-433 | an Ok listing can be truncated: for any small leaf there is an image whose object table leads to a branch, that branch to another and that to the leaf, and list_dir returns Ok with no entry |
| Images.TwoLeavesAreListed | core/tests/descent.rs:205-283 | for any two small leaves under a branch, on distinct page slots, the image is listed as both leaves' items, left to right |
| Volume.PathsFindWhatWasWritten | core/src/directory.rs:484-502 | path lookup over the image of a file system is path lookup in the file system |
| Carver.RecoverResidue | forensic/src/lib.rs:545-601 | the two passes return exactly the stale root pages and the names the current version dropped, with the fields their pages' bytes hold |
| Carver.RecoveryIsFull | forensic/src/lib.rs:545-601 | in terms of the image's words: a record for each resident page of table 0x600 with a smaller block at 0x20 than the newest's that holds a name the newest lacks, with that page's block, offset and those names, and no other |
| Carver.FindCurrent | forensic/src/lib.rs:546-564 | pass 1 holds at most one entry, that of the first page with the greatest self block |
| Carver.FindStale | forensic/src/lib.rs:566-600 | pass 2 reports the pages stale against it, and its lookup never fails |
| Carver.RecoveryIsExact | forensic/src/lib.rs:545-616 | in terms of clusters: a record for each resident root page with a smaller self block than the greatest that holds a dropped name, no other, in ascending offset order |
| Carver.WithoutExactly | forensic/src/lib.rs:586-589 | the dropped names are those of the older page in its order, each as often as it occurs there, without the names the current page holds |
| Carver.UnparsableRootPage | forensic/src/lib.rs:620-625 | for every header offset that runs past the page there is an image with a resident root page that does not parse, and nothing is carved from it |
| Carver.PagesFromExactly | forensic/src/lib.rs:605-616 | the page scan yields exactly the resident pages, in ascending offset order |
| Carver.OrderIndependentIff | forensic/src/lib.rs:548-600 | every other scan order permutes the records if and only if all root pages of the greatest self block leave the same records |
| Carver.OrderDoesNotMatter | forensic/src/lib.rs:548-600 | so it is when one page alone has the greatest self block |
| Carver.TieOfTwo | forensic/src/lib.rs:556-563 | of two pages that tie the first scanned decides, and order is irrelevant if and only if both dropped the same names of the older page |
| Ties.SlotsAreScanned | forensic/src/lib.rs:605-616 | the page scan of a built image yields its pages in order, each with its offset, table, block and names |
| Ties.TiedPagesDependOnOrder | forensic/src/lib.rs:548-600 | for any three small leaves there is an image of two tied root pages and an older one, whose report is the older leaf's names that the first lacks, and whose pages in another order give another report if and only if the second lacks other names |
| Carver.OlderPageAddsOnlyItself | forensic/src/lib.rs:569-600 | one more older page adds at most its own record and changes no other |
| LiveNames.RecoveredExactly | forensic/src/lib.rs:569-600 | a name is recovered if and only if an older resident root page holds it and the current one does not; no name is made up |
| LiveNames.LiveNameIsRecoveredIff | forensic/src/lib.rs:519-539 | on any image with one newest root page whose walk visits leaves of the root directory, a name the walk lists is recovered if and only if the newest page lacks it |
| LiveNames.NoLiveNameIsRecoveredIff | forensic/src/lib.rs:503-506 | on such an image no live name is recovered if and only if the newest page holds every live name |
| LiveNames.ConsistentIsOnly | forensic/src/lib.rs:521-528 | on a band-consistent image the newest root page is alone in having the greatest self block |
| LiveNames.StoredLeavesAreRootPages | core/src/directory.rs:466-472 | the walk of a stored root directory visits pages of that directory only |
| LiveNames.StoredNameIsRecoveredIff | forensic/src/lib.rs:519-539 | of a stored root directory of any shape and size whose newest page is a leaf, the name of any item is recovered if and only if that leaf has no item of the name |
| LiveNames.OnePageRecoversNoLiveName | forensic/src/lib.rs:519-539 | when the root directory is one page and that page is the current one, no recovered name is in its listing |
| LiveNames.BuiltNameIsRecoveredIff | forensic/src/lib.rs:519-539 | for every file system built as an image whose root directory, of any shape, has a leaf as its greatest block: within the caps list_dir returns its items, and the name of any item is recovered if and only if that leaf lacks it |
| LiveNames.LiveNamesAreRecovered | forensic/src/lib.rs:519-539 | a recovered name need not have been dropped: with two leaves under a branch, a name only the lower leaf holds is both listed and recovered |
| LiveNames.StoredVersion | forensic/src/lib.rs:618-625 | the carver reads off a stored leaf page, in any layout, exactly its table, its block and its items' names |
| LiveNames.LaidPageIsCarved | forensic/src/lib.rs:618-625 | the names carved from any laid page, leaf or branch, are those of its entry rows, in order |
| LiveNames.OlderLeafIsReported | forensic/src/lib.rs:569-600 | a root leaf page older than the current page, superseded or live, has a record if and only if it holds a name that page lacks, and that record holds exactly those names |
| Sweep.SweepResidentSelfBlocks | forensic/src/lib.rs:422-451 | the sweep, with its early stop, appends the findings of all clusters |
| Sweep.FindingsExactly | forensic/src/lib.rs:428-449 | a finding for each full page with the signature whose word at 0x20 is below the cluster count and not its cluster, with that word, cluster and offset, and no other, in cluster order |
| Sweep.VirtualBlocksAreNotReported | forensic/src/lib.rs:437-442 | a page whose block is no cluster of the image is never reported |
| SweptImages.SlotsAreSwept | forensic/src/lib.rs:422-451 | the sweep of a built image reports, in order, exactly the pages that record another cluster of the image, each with the block it was built with, its cluster and its offset |
| Sweep.EarlyStopExactly | forensic/src/lib.rs:430-432 | the early stop is taken if and only if the image has a cluster and its last cluster, with the bytes after it, is shorter than a page |
| Sweep.CleanSweepMeansIdentity | forensic/src/lib.rs:422-451 | an empty sweep, with all self blocks below the cluster count, makes translation the identity on every container with a resident page |

## Left out

- Checksums: computed by an external crate and compared only over a range the caller gives.
- Boot sector, superblock, metadata-block header, checkpoint and container-table records: fixed-offset reads behind one length check.
- audit_image: boot and superblock checks around the sweep; the sweep takes the cluster size as an input.
- Anomaly codes, severities, notes, evidence and report conversion: string formatting and an external report crate.
- Error texts, the `have` and `need` lengths of a truncation error, and ASCII rendering.
- FILETIME interpretation: times are carried as 64-bit values, as in the source.
- Minstore.Parse: `is_leaf` and the diagnostic offset parameter are not modelled; neither affects the walk.
- PageWriter.BuildPage: rows whose records overrun the page are excluded; the builder panics on them.
- Utf16 names: a Rust string is the sequence of its Unicode scalar values; its UTF-8 bytes are not modelled.
- The two `&mut Vec` parameters of the descent are two fields of one object, and the two passes of the carver are two methods; aliasing between caller and callee is not otherwise modelled.
