# Verified model of the zmin Git core

This project models the in-memory algorithms of `zmin-git-core` and of two command-line runtime files, and proves what
they promise. Bytes are numbers below 256, paths and names are byte strings, object ids are a hash algorithm with a
digest of the right length. The content hash, SHA-1 and zlib are abstract functions; files and object stores are maps
from names or ids to contents. `dafny verify dfyconfig.toml` checks everything.

The parts, from the foundations up:

- **Trees** (`TreeCodec`, `TreeModes`, `TreeWalk`, `TreeStackWalk`, `TreeBuild`, `TreeWrite`, `TreeStackWrite`,
  `TreeRoundTrip`, `TreeFromIndex`). Git sorts a directory as its name followed by `/`. The model proves that this order
  makes a depth-first walk produce strictly increasing paths, that both explicit-stack walks produce the recursive
  flatten, that an index is accepted for writing exactly when it can be a tree, and that reading the written tree gives
  the index back.
- **Diffs** (`Diff`, `TreeDiff`, `Renames`). A flat diff of two sorted listings holds exactly the changes between them;
  the recursive tree diff, which skips equal sub-trees, emits exactly the flat diff of the two flattened trees, and
  needs to read nothing that the two share; exact rename and copy detection loses nothing and leaves nothing pairable.
- **The index** (`Index`, `IndexOps`, `IndexEntryCodec`, `ResolveUndo`, `IndexCodec`, `IndexLayout`). The sorted vector
  behaves like a map over any run of operations, and the index file format of gitformat-index(5) round-trips exactly for
  strictly sorted indexes.
- **Graph searches** (`Graphs`, `CommitGraphFile`, `CommitGraphLayout`, `CommitGraph`, `Reachable`, `Alternates`).
  Ancestry pruned by generation number, the reachability worklist and the alternates searches are each equal to plain
  path reachability, in the graph that the stored objects or the rows of the commit-graph file describe.
- **Text formats** (`ObjectText`, `Headers`, `Signatures`, `CommitCodec`, `CommitCache`, `TagCodec`). Printers and
  parsers undo each other, and the commit cache returns what direct decoding returns.
- **Refs** (`RefFormat`, `PackedRefs`, `RefTree`, `Refs`). What writing, packing and deleting refs changes, and what it
  does not: the refs, the listings and the peeled ids, over a tree in which a name is a file or a directory.
- **Matching, merging, patch ids and filters** (`Glob`, `MergeFile`, `PatchId`, `PatchSections`, `PatchText`,
  `PatchOrder`, `PatchFileless`, `Filters`, `FilterMeaning`).
- **UTF-8** (`Utf8`), where a parser refuses or splits text by it.

A format is stated twice: by the functions that compute it, and by what its bytes are, written out as numbers. The
modules `TreeModes`, `IndexLayout`, `CommitGraphLayout`, `PatchText` and `FilterMeaning`, and the lemmas named
`...Means` and `Decoded...`, say for all inputs that the two agree.

Object stores are fixed while they are read. Termination of the recursive tree algorithms needs trees that do not
contain themselves; the bound `d` of `Acyclic` says so, and any larger bound gives the same result. The commit graph
likewise comes with a topological `rank`.

Some expectations turned out not to hold of the code; the code was kept, and the exact condition is proved:

- The wildcard matcher compares a pattern byte with the text byte before it looks whether it is `*`, so `*` fails on the
  text `*a`. It agrees with the meaning of all patterns exactly on texts without `*` (`Glob.ExactForText`), and on all
  texts exactly for patterns without `*` (`Glob.ExactForPattern`). What it accepts always matches.
- Reading a packed ref takes the first line with its name, packing refs keeps the last one (`Refs.DuplicateMoves`). A
  packed ref below a loose one, such as `refs/heads/a/b` below `refs/heads/a`, cannot be read, but appears when packing
  removes that file (`Refs.RefBehindFile`). Packing changes no ref exactly when first and last line agree for every name
  that is looked up in packed-refs, and no packed ref lies below a removed one (`Refs.KeepsRefs`,
  `Refs.RefStore.PackRefs`).
- Writing a ref hides the packed refs above and below its name, and deleting one uncovers them, together with the names
  of the directories that have become empty; all others stay (`Refs.RefStore.WriteRef`, `Refs.RefStore.DeleteRef`).
- A hunk header that is not UTF-8 is passed over without its counts (`crates/zmin-cli/src/runtime/patch_id.rs:138`), so
  the first line of its hunk ends the patch: `@@ -1 +1 @@` with a function name in Latin-1 is one
  (`PatchSections.LatinSectionStops`). A section whose headers count the lines of their hunks is hashed as a whole
  exactly if each header is UTF-8 or counts no line (`PatchSections.RunSection`), and a patch is taken in up to the
  first header that is not (`PatchSections.PatchIdMeaning`). The stable id is the same for all orders of the sections
  exactly if all sections are readable in this sense, or all are cut off with the same text in front of the cut
  (`PatchOrder.StableIdOrder`, `PatchOrder.TwoOrders`).
- A file section without `---` and `+++` lines, such as a rename or a mode change without hunks, is hashed together with
  the section behind it, as no flush comes in between (`crates/zmin-cli/src/runtime/patch_id.rs:90-100`); only at the
  end of a patch it gets a digest of its own. So for every patch with such a section in front, moving it to the end
  changes the stable id for some digest (`PatchFileless.FilelessJoins`, `PatchFileless.FilelessEnds`,
  `PatchFileless.FilelessOrderMatters`). The result above is about sections with these lines.
- Listing refs looks for loose refs below the directory that the prefix names, but takes every packed ref that starts
  with the prefix, so `refs/h` does not list the loose ref `refs/ha` and lists it once it is packed
  (`Refs.PrefixFindsPacked`). Packing keeps the listing for a prefix exactly if each ref it packs is below that
  directory, does not start with the prefix or was packed before, and the prefix is not itself a loose ref that is
  removed (`Refs.KeepsListings`). So it keeps every listing for a prefix that ends in a slash
  (`Refs.SlashListingStays`), `refs/` with all names among them, through every single removal and without the condition
  on duplicates above.
- Deleting a packed ref drops one peeled line behind it. If a second one follows, it becomes the peeled id of the ref
  line in front of the gap (`PackedRefs.PeeledMoves`). The peeled ids of all other refs stay exactly if no peeled line
  joins another line in that way (`PackedRefs.WithoutRecords`, `Refs.RefStore.DeleteRef`); it is enough that no two
  peeled lines follow each other (`PackedRefs.PeeledOnceStays`).
- An index with a duplicated or misplaced entry is written and then refused on reading; decoding an encoded index gives
  it back exactly when it is strictly sorted (`IndexCodec.IndexRoundTrip`).
- Cleaning line endings twice differs from cleaning once exactly where a CR stands in front of a CRLF
  (`Filters.CleanIdempotentIff`).
- The ident filters disagree about the shared dollar sign of `$Id$Id:`, so that cleaning a smudged text need not be
  cleaning the text (`Filters.OverlapIsNotClean`). What smudging and cleaning give is cleaning that takes each `$Id$` as
  a whole (`Filters.SmudgedIsCollapsed`). The two give the same exactly if the scans of both filters over the text stay
  in step: no value to be collapsed starts at a dollar sign that the other scan has passed
  (`Filters.IdentCleanAfterSmudge`). Without `$Id$Id:` they do, and with it they still may (`Filters.OverlapInStep`).
- The test of an index path for an inner `/../` compares windows of three bytes with four bytes and so never applies
  (`crates/zmin-git-core/src/index.rs:1107`): `a/../b` is a valid path (`Index.InnerParentIsValid`). Valid paths are
  free of `..` components exactly if they have no inner `/../` (`Index.ValidPathEscapes`), and a valid index is written
  with a tree entry named `..` exactly if one of its paths has one (`TreeFromIndex.WritesParentEntry`,
  `TreeFromIndex.ParentEntryAccepted`).
- An abbreviated object id with an upper-case digit never finds a loose object, only packed ones. In all repositories
  the candidates are the abbreviated objects exactly if the abbreviation has no such digit
  (`Alternates.ExactForPrefix`); for every one with such a digit there is a repository with a loose object that it
  abbreviates and does not find (`Alternates.UpperCaseMissesObject`).
- Two branches are never taken: the equal-middle cases of the merge (`crates/zmin-git-core/src/merge_file.rs:78-85`) and
  the directory-against-file case of the tree diff for entries whose sort names are equal
  (`crates/zmin-git-core/src/diff.rs:290-299`).

## Model

| member | source | states |
|---|---|---|
| Objects.InMemoryObjectStore.WriteObject | crates/zmin-git-core/src/object_store.rs:302-314 | the id is the content hash, and an id that is present keeps its object |
| TreeCodec.EncodeTree | crates/zmin-git-core/src/tree.rs:71-82 | succeeds exactly when every name is valid, and then concatenates the encoded entries |
| TreeCodec.DecodeTree | crates/zmin-git-core/src/tree.rs:84-118 | the cursor loop computes the entry-by-entry meaning of the bytes, errors included |
| TreeCodec.TreeRoundTrip | crates/zmin-git-core/src/tree.rs:71-118 | decoding an encoded tree gives back its entries |
| TreeModes.ModeTextMeans | crates/zmin-git-core/src/tree.rs:27-47 | the text of a mode is its index mode in octal, and 40000 for a directory |
| TreeModes.EncodedEntryMeans | crates/zmin-git-core/src/tree.rs:71-82 | an entry is written as that octal number, a space, the name, a zero byte and the id |
| TreeModes.DecodedEntryMeans | crates/zmin-git-core/src/tree.rs:84-118 | a decoded entry has the mode that its octal text spells, and name and id as they stand there |
| TreeModes.EncodeDecoded | crates/zmin-git-core/src/tree.rs:71-118 | whatever decodes as a tree is what its entries are encoded as |
| TreeWalk.CompareTreeNames | crates/zmin-git-core/src/tree.rs:615-633 | the byte-wise comparator is the lexicographic order of the names with `/` appended to directories |
| ByteOrder.LessMeans | crates/zmin-git-core/src/tree.rs:615-633 | the byte order: at the first byte that differs the smaller one, or a proper prefix |
| TreeWalk.EqualKeys | crates/zmin-git-core/src/diff.rs:262-311 | entries that compare as equal have the same name and are both directories or both files |
| TreeWalk.BlocksOrdered | crates/zmin-git-core/src/tree.rs:609-643 | everything below a smaller tree entry has a smaller path than everything below a greater one |
| TreeWalk.FlattenSorted | crates/zmin-git-core/src/index.rs:198-203 | flattening strictly tree-sorted trees gives strictly increasing paths, which the unchecked constructor relies on |
| TreeWalk.DepthIrrelevant | crates/zmin-git-core/src/tree.rs:381-448 | the depth bound of the model does not influence the flattened files |
| TreeStackWalk.TreeObjectCache.ReadTree | crates/zmin-git-core/src/tree.rs:247-267 | a cached read is the direct read, and the cache stays within its entry limit |
| TreeStackWalk.CollectUncached | crates/zmin-git-core/src/tree.rs:381-448 | the explicit-stack walk succeeds exactly when every sub-tree can be read, and then emits the recursive flatten and restores its path buffer |
| TreeStackWalk.CollectCached | crates/zmin-git-core/src/tree.rs:312-379 | the same for the walk that reads through the cache |
| TreeStackWalk.ReadTreeToIndexUncached | crates/zmin-git-core/src/tree.rs:198-207 | gives all files of a tree, strictly sorted if the trees are |
| TreeStackWalk.ReadTreeToIndex | crates/zmin-git-core/src/tree.rs:269-277 | the same through the cache, whatever it holds |
| TreeBuild.InsertAccepts | crates/zmin-git-core/src/tree.rs:491-524 | a path is accepted exactly if no component is empty, it is no directory yet, and no file stands above it |
| TreeBuild.InsertEffect | crates/zmin-git-core/src/tree.rs:491-524 | inserting changes the file at that path and the directories above it, and nothing else |
| TreeBuild.BuildTree | crates/zmin-git-core/src/tree.rs:174-188 | the entry loop succeeds exactly on stage-0 entries without empty components of which none is a directory prefix of another, and represents them |
| TreeWrite.ListsUnique | crates/zmin-git-core/src/tree.rs:527-589 | a set of entries has only one strictly tree-sorted listing, so a stored tree is determined by its entries |
| TreeWrite.PresentIsStored | crates/zmin-git-core/src/tree.rs:527-589 | without hash collisions, insert-if-absent leaves every written node readable under its id |
| TreeStackWrite.WriteTreeNode | crates/zmin-git-core/src/tree.rs:527-589 | the explicit-stack writer succeeds exactly when all names are valid, returns the hash of the node, and leaves all its sub-trees present |
| TreeRoundTrip.StoredReadsBack | crates/zmin-git-core/src/tree.rs:209-221 | a stored node and all its children are read back as their sorted entries |
| TreeRoundTrip.WrittenIsRead | crates/zmin-git-core/src/tree.rs:174-207 | reading the tree a sorted index was written as gives the same paths, modes and ids in the same order |
| TreeFromIndex.WriteTreeFromIndex | crates/zmin-git-core/src/tree.rs:174-189 | succeeds exactly on acceptable indexes, only adds objects, and without collisions its tree reads back as the index |
| TreeFromIndex.WritesParentEntry | crates/zmin-git-core/src/tree.rs:174-189 | a valid index is written with a tree entry named `..` if and only if one of its paths has an inner `/../` |
| TreeFromIndex.ParentEntryAccepted | crates/zmin-git-core/src/tree.rs:174-189 | the index with the one path `a/../b` is valid and accepted for writing |
| TreeFromIndex.FindTreeEntry | crates/zmin-git-core/src/tree.rs:280-310 | the component loop computes the component-wise lookup |
| TreeFromIndex.FindsFiles | crates/zmin-git-core/src/tree.rs:280-310 | in a written tree a path finds a file exactly when the node holds that file |
| TreeFromIndex.FindsEveryPath | crates/zmin-git-core/src/tree.rs:280-310 | every path of a written index is found with its own mode and id |
| TreeFromIndex.FindsTheRest | crates/zmin-git-core/src/tree.rs:280-310 | a directory of a written tree is found with the id it is stored under, and a path that is neither file nor directory is not found |
| Diff.FlatDiffExact | crates/zmin-git-core/src/diff.rs:65-130 | the merge of two sorted listings holds exactly the deletions, additions and modifications between them |
| Diff.FlatDiffSorted | crates/zmin-git-core/src/diff.rs:65-130 | a flat diff is strictly sorted by path |
| Diff.DiffIndexes | crates/zmin-git-core/src/diff.rs:65-142 | the two-cursor loop computes the flat diff, and refuses exactly the indexes with conflict stages |
| Diff.IndexDiffMeans | crates/zmin-git-core/src/diff.rs:65-142 | the listing has exactly the paths that one index alone has, or both with another mode or id, each with its status and nothing else |
| Diff.SelfDiff | crates/zmin-git-core/src/diff.rs:262-311 | a listing does not differ from itself, so skipping equal sub-trees loses nothing |
| Diff.SplitDiff | crates/zmin-git-core/src/diff.rs:208-260 | the diff of listings that split at the same path is the diff of their parts |
| TreeDiff.TreeDiffer.DiffTreeEntriesAt | crates/zmin-git-core/src/diff.rs:208-260 | the recursive step succeeds exactly if everything the two directories do not share can be read, and then appends the flat diff of the two flattened directories and restores the shared path |
| TreeDiff.TreeDiffer.DiffMatchingTreeEntry | crates/zmin-git-core/src/diff.rs:262-311 | the same for two entries of equal sort name; mixed kinds cannot occur |
| TreeDiff.TreeDiffer.EmitTreeEntry | crates/zmin-git-core/src/diff.rs:313-346 | an entry on one side only contributes one change for each file below it, exactly if all of it can be read |
| TreeDiff.TreeDiffer.EmitTreeEntries | crates/zmin-git-core/src/diff.rs:348-359 | the same for all entries of a directory |
| TreeDiff.DiffTrees | crates/zmin-git-core/src/diff.rs:144-206 | on trees that are tree-sorted in some completion of the store, the recursive diff succeeds exactly if everything the trees do not share can be read, and is exactly the flat diff of the flattened trees, with ids and modes, whatever the shared unreadable sub-trees hold |
| TreeDiff.ReadableComparable | crates/zmin-git-core/src/diff.rs:144-206 | so it succeeds on all readable tree-sorted trees |
| TreeDiff.TreeDiffMeaning | crates/zmin-git-core/src/diff.rs:144-206 | that diff is sorted and holds exactly the changes between the two file listings |
| Renames.DetectExactRenames | crates/zmin-git-core/src/diff.rs:448-503 | every renaming joins equal files, expanding renamings gives back the multiset of changes, no equal deletion and addition are left, and equal files are paired in path order, the first deletion with the first addition |
| Renames.SameFileMeans | crates/zmin-git-core/src/diff.rs:448-503 | the pairing is by equal mode and equal id of entries at the two paths |
| Renames.DetectExactCopies | crates/zmin-git-core/src/diff.rs:505-548 | exactly the additions that have a source become copies of their first source |
| Renames.SourceIsFirst | crates/zmin-git-core/src/diff.rs:520-528 | the source of a copy is the first old file with the mode and id that was deleted or modified, or the first of all with the harder search |
| Renames.CopySound | crates/zmin-git-core/src/diff.rs:505-548 | a copy has an equal source, which without the harder search is a modified path; an addition that stays has none |
| Renames.DiffIndexesWithRenamesAndCopies | crates/zmin-git-core/src/diff.rs:435-446 | the whole detection: sorted, conserving, exact pairings, nothing pairable left |
| Index.ModeFromBits | crates/zmin-git-core/src/index.rs:45-56 | the inverse of the mode bits, an error for all other bits |
| Index.ValidPathEscapes | crates/zmin-git-core/src/index.rs:1100-1120 | a valid path has a component `..` if and only if it has an inner `/../` |
| Index.InnerParentIsValid | crates/zmin-git-core/src/index.rs:1107 | `a/../b` is accepted as a valid path |
| Index.ValidPathMeans | crates/zmin-git-core/src/index.rs:1100-1120 | a path is valid exactly if it is not empty, has no zero byte or leading slash, and its first and last components are not `..` |
| IndexOps.SortedIsCanonical | crates/zmin-git-core/src/index.rs:251-318 | a strictly sorted vector is determined by the map it represents |
| IndexOps.PathRange | crates/zmin-git-core/src/index.rs:288-318 | the entries of a path, and those below a directory, are contiguous, so the partition points are well defined |
| IndexOps.GitIndex.Entry | crates/zmin-git-core/src/index.rs:251-262 | lookup by path and stage is map lookup |
| IndexOps.GitIndex.Upsert | crates/zmin-git-core/src/index.rs:268-286 | replaces or inserts one key of the map and keeps strict order; invalid paths and stages are refused |
| IndexOps.GitIndex.RemovePath | crates/zmin-git-core/src/index.rs:288-301 | removes all stages of exactly that path and reports whether there were any |
| IndexOps.GitIndex.RemoveDir | crates/zmin-git-core/src/index.rs:303-318 | removes exactly the paths that start with the directory and `/` |
| IndexOps.RunAll | crates/zmin-git-core/src/index.rs:251-318 | any sequence of operations keeps the vector strictly sorted and in step with the map |
| Words.WordDigits | crates/zmin-git-core/src/index.rs:640-646 | words are written as their digits to the base 256, the most significant one first |
| IndexEntryCodec.FlagsReadBack | crates/zmin-git-core/src/index.rs:1003-1030 | every flag field can be read from the packed flags, the path length up to its sentinel |
| IndexEntryCodec.IndexStreamingWriter.EncodeEntry | crates/zmin-git-core/src/index.rs:585-619 | appends the fixed words, id, flags, path and the padding to a multiple of eight; refuses invalid entries |
| IndexEntryCodec.DecodeEntry | crates/zmin-git-core/src/index.rs:916-1001 | the cursor arithmetic computes the parse of the window, with the same errors in the same order |
| IndexEntryCodec.EntryRoundTrip | crates/zmin-git-core/src/index.rs:585-1001 | decoding an encoded entry gives it back and stops right after its padding |
| IndexLayout.DecodedEntry | crates/zmin-git-core/src/index.rs:916-1001 | the decoder accepts exactly a text with each field of the entry at its offset, the flag bits, the path, and zero to a multiple of eight; and gives that entry |
| IndexLayout.EncodedEntry | crates/zmin-git-core/src/index.rs:585-619 | the encoder writes such a text, the extended flags only if needed, the path length up to 0xfff, and zeros behind the path |
| ResolveUndo.WriteOctalU32 | crates/zmin-git-core/src/index.rs:621-638 | writes the octal digits; the 11-byte buffer never runs out |
| ResolveUndo.OctalLen | crates/zmin-git-core/src/index.rs:422-429 | counts the octal digits without writing them |
| ResolveUndo.UndoBodyLen | crates/zmin-git-core/src/index.rs:555-576 | the length computed in advance is the length of the body, refused from 2^32 on |
| ResolveUndo.EncodeUndoEntries | crates/zmin-git-core/src/index.rs:531-553 | writes the extension body entry by entry |
| ResolveUndo.DecodeUndo | crates/zmin-git-core/src/index.rs:802-868 | the cursor loops compute the parse of the body |
| ResolveUndo.UndoRoundTrip | crates/zmin-git-core/src/index.rs:531-868 | decoding an encoded extension body gives its entries back |
| IndexLayout.UndoEntryMeans | crates/zmin-git-core/src/index.rs:531-553 | an entry is the path, three octal modes with `0` for an absent stage, and the ids of the stages that are present |
| IndexLayout.UndoModeMeans | crates/zmin-git-core/src/index.rs:858-868 | a mode is read from octal digits with or without a plus sign; nothing and `0` mean an absent stage |
| IndexCodec.WriteIndex | crates/zmin-git-core/src/index.rs:465-529 | writes header, entries, extension and checksum, and refuses exactly the indexes that cannot be encoded |
| IndexCodec.FromTrustedSorted | crates/zmin-git-core/src/index.rs:211-223 | accepts exactly valid, strictly sorted contents |
| IndexCodec.DecodeExtensions | crates/zmin-git-core/src/index.rs:756-800 | skips optional extensions, refuses required ones, and keeps the last resolve-undo extension |
| IndexCodec.DecodeIndex | crates/zmin-git-core/src/index.rs:708-754 | the decoder computes the meaning of the file, errors included |
| IndexCodec.IndexRoundTrip | crates/zmin-git-core/src/index.rs:514-719 | decoding an encoded index gives it back exactly when it is strictly sorted, and is an error otherwise |
| IndexLayout.ContentMeans | crates/zmin-git-core/src/index.rs:465-529 | in front of the checksum stand `DIRC`, version 3 if an entry has extended flags and else 2, the count, the entries, and `REUC` if there is something to undo |
| IndexLayout.DecodedExtensions | crates/zmin-git-core/src/index.rs:756-800 | the extensions mean the last `REUC` body, or an error if one with a small letter in its name stands among them |
| IndexLayout.UnknownChunkIgnored | crates/zmin-git-core/src/index.rs:756-800 | any other extension may stand anywhere and changes nothing |
| IndexLayout.DecodedFile | crates/zmin-git-core/src/index.rs:708-754 | every text with that layout, in version 2 or 3, is read as the index it holds |
| IndexLayout.FileIsChecked | crates/zmin-git-core/src/index.rs:708-754 | nothing is read without the signature, a known version, its count of entries and the right checksum |
| IndexCodec.DecodedIsValid | crates/zmin-git-core/src/index.rs:708-719 | whatever decodes is valid and strictly sorted, and survives another round trip |
| CommitGraphFile.Position | crates/zmin-cli/src/runtime/commit_graph.rs:123-148 | the fanout binary search inverts `id_at` on a sorted table |
| CommitGraphFile.ParentPositions | crates/zmin-cli/src/runtime/commit_graph.rs:187-226 | the loop computes the parents of a row, octopus parents from the extra edge list included |
| CommitGraphLayout.RowRead | crates/zmin-cli/src/runtime/commit_graph.rs:150-226 | in a file that holds a table of commits, the parents and the generation that are read for a row are those of the table, with any number of parents |
| CommitGraphLayout.FanoutRead | crates/zmin-cli/src/runtime/commit_graph.rs:123-148 | the fanout words that are read count the ids of the table up to each first byte |
| CommitGraphLayout.AncestryOfTable | crates/zmin-cli/src/runtime/commit_graph.rs:123-226 | such a file has the ids of the table in order, generations above those of the parents, and exactly the parent edges of the table |
| CommitGraphLayout.EveryTableHasFile | crates/zmin-cli/src/runtime/commit_graph.rs:150-226 | every table is held by a file, as long as its numbers and its list of further parents fit into it |
| CommitGraph.GenerationPrunes | crates/zmin-cli/src/runtime/commit_graph.rs:228-319 | no commit of a lower generation reaches the ancestor, so pruning is sound |
| CommitGraph.SearchComplete | crates/zmin-cli/src/runtime/commit_graph.rs:228-319 | an exhausted pruned search means that the ancestor is not reachable |
| CommitGraph.AncestorSearch | crates/zmin-cli/src/runtime/commit_graph.rs:228-319 | single-parent walk and depth-first search decide ancestry and terminate |
| CommitGraph.IsAncestor | crates/zmin-cli/src/runtime/commit_graph.rs:228-319 | for known commits exactly whether parent edges lead from the descendant to the ancestor; no answer exactly for unknown ones; in a file that holds a table these are the edges of the table |
| Reachable.Reachability.ScheduleReachableObject | crates/zmin-git-core/src/reachable.rs:78-89 | an id is pushed exactly if it has not been seen |
| Reachable.ScheduleAllKeeps | crates/zmin-git-core/src/reachable.rs:78-89 | scheduling keeps every seen id either waiting or done, never both and never twice |
| Reachable.Reachability.MarkTree | crates/zmin-git-core/src/tree.rs:132-168 | scheduling during the parse is scheduling the links of the decoded tree, or the parse error |
| Reachable.Reachability.MarkReachableObject | crates/zmin-git-core/src/reachable.rs:41-76 | schedules exactly the links of an object, or reports why it cannot be read |
| Reachable.LinksMean | crates/zmin-git-core/src/reachable.rs:41-76 | a readable object links to exactly the ids it leads to: a commit to its tree and all parents, a tree to its entries but gitlinks, a tag to its target, a blob to nothing |
| Reachable.ReachableMeans | crates/zmin-git-core/src/reachable.rs:14-76 | the ids that the roots reach are the least set with the roots that is closed under these |
| Reachable.SearchEnds | crates/zmin-git-core/src/reachable.rs:14-32 | an empty stack leaves exactly the ids that the roots reach |
| Reachable.CollectReachableObjectsFromRoots | crates/zmin-git-core/src/reachable.rs:14-32 | succeeds exactly when every reachable object can be read, and returns exactly the reachable ids: the roots, and what commits, trees and tags on the way lead to |
| Alternates.ClosureExplored | crates/zmin-git-core/src/loose.rs:525-547 | a search that found nothing has seen every directory of the alternates closure |
| Alternates.AlternatesSearch.ContainsObjectInner | crates/zmin-git-core/src/loose.rs:525-547 | the recursion with its visited set either finds a holder or has explored what it entered |
| Alternates.AlternatesSearch.ReadObjectInner | crates/zmin-git-core/src/loose.rs:483-523 | the same for reading, with the loose object before the packed one |
| Alternates.ContainsObject | crates/zmin-git-core/src/loose.rs:135-137 | true exactly when some directory of the possibly cyclic closure holds the id |
| Alternates.ReadThroughAlternates | crates/zmin-git-core/src/loose.rs:131-133 | not found exactly when no directory of the closure holds the id; otherwise what one of them holds |
| Alternates.PrefixSearch.RecordCandidate | crates/zmin-git-core/src/loose.rs:1912-1927 | keeps the first candidate and reports a different one |
| Alternates.PrefixSearch.CollectPrefixInner | crates/zmin-git-core/src/loose.rs:793-811 | ambiguous exactly with two distinct candidates, otherwise all explored candidates are the resolved one |
| Alternates.LowerCaseMatches | crates/zmin-git-core/src/loose.rs:761-791 | an abbreviation without upper-case digit has exactly the abbreviated objects of the closure as candidates |
| Alternates.ExactForPrefix | crates/zmin-git-core/src/loose.rs:761-791 | that holds in all repositories if and only if the abbreviation has no upper-case digit |
| Alternates.UpperCaseMissesObject | crates/zmin-git-core/src/loose.rs:761-791 | for every abbreviation with an upper-case digit, a repository with a loose object that it abbreviates, and no candidate |
| Alternates.ResolvePrefix | crates/zmin-git-core/src/loose.rs:685-694 | an abbreviation resolves exactly with one distinct candidate in the closure; a full id is returned unchecked |
| Alternates.PrefixMeans | crates/zmin-git-core/src/loose.rs:1895-1910 | an abbreviation has four to 40 or 64 hexadecimal digits of either case |
| ObjectText.FromHexBytes | crates/zmin-git-core/src/object.rs:85-99 | the pairwise loop computes the parse of a hexadecimal id |
| ObjectText.HexRoundTrip | crates/zmin-git-core/src/object.rs:81-133 | parsing a printed id gives the id back |
| ObjectText.HexNormalizes | crates/zmin-git-core/src/object.rs:85-133 | printing a parsed id lowers its letters and changes nothing else |
| ObjectText.HexMeans | crates/zmin-git-core/src/object.rs:101-133 | two digits of a printed id spell each byte, in small letters |
| ObjectText.FromHexMeans | crates/zmin-git-core/src/object.rs:85-99 | a text is read as an id exactly if it has two hexadecimal digits for each byte, and then each pair spells its byte |
| ObjectText.WriteDecimalU64 | crates/zmin-git-core/src/commit.rs:456-470 | writes the decimal digits; the 20-byte buffer never runs out |
| ObjectText.WriteDecimalI64 | crates/zmin-git-core/src/commit.rs:447-454 | the same with a sign, down to the least value |
| ObjectText.I64RoundTrip | crates/zmin-git-core/src/commit.rs:447-470 | every 64-bit number is parsed back from its digits |
| ObjectText.DecimalMeans | crates/zmin-git-core/src/commit.rs:456-470 | digit `k` from the end is the quotient by `10^k` modulo ten, and the first one is not zero |
| ObjectText.ParsedNumber | crates/zmin-cli/src/runtime/commit_meta.rs:63-88 | a number is read exactly from an optional sign and at least one digit within 64 bits |
| Headers.HeadersSplit | crates/zmin-git-core/src/commit.rs:202-208 | the header block ends where the body was attached and splits into its lines again |
| Signatures.WriteTo | crates/zmin-git-core/src/commit.rs:53-61 | appends the printed signature |
| Signatures.SignatureRoundTrip | crates/zmin-cli/src/runtime/commit_meta.rs:63-88 | every signature that passes validation is recovered from its printed form |
| Signatures.ParsedSignature | crates/zmin-cli/src/runtime/commit_meta.rs:63-88 | the parser accepts exactly `name <email> time zone` with valid fields and any spelling of the time, and gives these fields |
| Signatures.RefusedSignatures | crates/zmin-git-core/src/commit.rs:35-51 | which names, addresses and zones are refused |
| Signatures.AccessorsAgree | crates/zmin-cli/src/runtime/commit_meta.rs:3-61 | a printed signature shows its name, address and time to the three accessors |
| CommitCodec.EncodeCommit | crates/zmin-git-core/src/commit.rs:121-161 | writes `tree`, one `parent` for each parent, `author`, `committer`, a blank line and the message, byte by byte, and refuses exactly NUL messages and parents of another algorithm |
| CommitCodec.DecodeCommit | crates/zmin-git-core/src/commit.rs:201-252 | the header loop computes the commit that the bytes stand for |
| CommitCodec.DecodeCommitLinks | crates/zmin-git-core/src/commit.rs:254-306 | succeeds exactly when the full decoder does, and gives its tree and parents |
| CommitCodec.CommitRoundTrip | crates/zmin-git-core/src/commit.rs:121-252 | decoding an encoded commit gives back tree, parents, signatures and message |
| CommitCodec.DecodedCommit | crates/zmin-git-core/src/commit.rs:201-252 | whatever the bytes are, the commit is the one `tree`, all `parent`s in order and the last `author` and `committer` of the header lines, with readable ids; otherwise an error |
| CommitCodec.ForeignLinesIgnored | crates/zmin-git-core/src/commit.rs:222-252 | lines of other headers and continuation lines may stand anywhere in any header block and change nothing |
| CommitCodec.SignedCommitRoundTrip | crates/zmin-git-core/src/commit.rs:121-252 | an encoded commit with other header lines put in anywhere decodes to the same tree, parents, signatures and message |
| CommitCodec.SignatureBlockIsForeign | crates/zmin-git-core/src/commit.rs:222-252 | a `gpgsig` header with its continuation lines is such a block |
| CommitCodec.CommitSignaturesReadable | crates/zmin-cli/src/runtime/commit_meta.rs:63-88 | the signatures of an encoded commit are recovered as well |
| CommitCache.CommitObjectCache.ReadCommit | crates/zmin-git-core/src/commit.rs:323-330 | returns what uncached reading returns, after any calls before it |
| CommitCache.DirectCommitMeans | crates/zmin-git-core/src/commit.rs:332-373 | uncached reading gives a commit exactly if an object of the right algorithm is there, is a commit and decodes as that one |
| CommitCache.CommitObjectCache.ReadLoadedCommit | crates/zmin-git-core/src/commit.rs:332-373 | the same for an object that is already loaded, also when only its links are cached |
| CommitCache.CommitObjectCache.ReadCommitLinks | crates/zmin-git-core/src/commit.rs:375-402 | the same for tree and parents |
| TagCodec.ParseKind | crates/zmin-git-core/src/object.rs:55-63 | the inverse of the printed kinds |
| TagCodec.EncodeTag | crates/zmin-git-core/src/tag.rs:66-102 | writes `object`, `type`, `tag` and `tagger` lines, a blank line and the message, byte by byte, and refuses exactly NUL messages and names that are empty or have a NUL or line feed |
| TagCodec.DecodeTag | crates/zmin-git-core/src/tag.rs:123-164 | the header loop computes the tag that the bytes stand for |
| TagCodec.TagRoundTrip | crates/zmin-git-core/src/tag.rs:66-164 | decoding an encoded tag gives back target, kind, name, tagger and message |
| TagCodec.KindMeans | crates/zmin-git-core/src/object.rs:45-63 | the words `blob`, `tree`, `commit` and `tag` and no others name the kinds |
| TagCodec.DecodedTag | crates/zmin-git-core/src/tag.rs:123-164 | whatever the bytes are, the tag has the last value of each of the four headers, with readable ids and kinds; otherwise an error |
| TagCodec.ForeignLinesIgnored | crates/zmin-git-core/src/tag.rs:123-164 | other header lines may stand anywhere and change nothing |
| RefFormat.DirectReadBack | crates/zmin-git-core/src/refs.rs:389-395 | a written ref file is read as the id |
| RefFormat.SymbolicReadBack | crates/zmin-git-core/src/refs.rs:389-395 | a text `ref: ` with a valid name is read as the symbolic ref |
| RefFormat.TargetMeans | crates/zmin-git-core/src/refs.rs:389-395 | a ref file that can be read has `ref: ` with a valid name, or an id, in front of its line feeds |
| RefFormat.RefNameMeans | crates/zmin-git-core/src/refs.rs:418-467 | a ref name begins with `refs/`, its components are not empty, do not begin with a dot or end in `.lock`, and which pairs and bytes it cannot have |
| RefFormat.RefPrefixMeans | crates/zmin-git-core/src/refs.rs:469-496 | the weaker rules for a prefix, which may end in a slash |
| RefFormat.PackedLineReadBack | crates/zmin-git-core/src/refs.rs:668-691 | a printed packed line is read back as id and name |
| RefFormat.PackedLineMeans | crates/zmin-git-core/src/refs.rs:668-691 | a packed line names a ref exactly if it is an id, a space and a valid name; comments, peeled ids and blank lines name none |
| Refs.RefStore.ReadRef | crates/zmin-git-core/src/refs.rs:92-101 | a loose file hides the packed line, a directory with the name or a file above it is an error, and otherwise the first packed line counts |
| Refs.RefStore.WriteRef | crates/zmin-git-core/src/refs.rs:50-59 | the ref then reads as the id, the names above it are directories and those below it behind a file, and no other ref changes; when it fails, and that a failure changes nothing |
| RefTree.WithFileHides | crates/zmin-git-core/src/refs.rs:693-708 | which names a new file with its directories puts something in the way of |
| Refs.RefStore.ListRefs | crates/zmin-git-core/src/refs.rs:103-131 | the loose refs below the directory of the prefix and the packed refs that start with it, or the error of an invalid prefix, of a loose ref with the name of the prefix or of a broken line |
| PackedRefs.ReadersSee | crates/zmin-git-core/src/refs.rs:310-329 | of the ids that the lines give to a name, one reader takes the first and the other one the last |
| Refs.RefStore.GatherRefs | crates/zmin-git-core/src/refs.rs:148-165 | collects the packed refs and exactly the loose direct refs that the options select |
| Refs.PackableMeans | crates/zmin-git-core/src/refs.rs:148-165 | the loose refs that are packed: all direct ones, or those below `refs/tags/` and those packed before |
| Refs.RefStore.PackedText | crates/zmin-git-core/src/refs.rs:167-180 | the lines are the header and, for each collected ref in the order of the names, its id and name, and behind it the peeled id if there is one |
| Refs.PackedWriteKeeps | crates/zmin-git-core/src/refs.rs:148-181 | writing them changes no ref exactly when first and last packed lines agree for the names that are looked up there |
| Refs.PruneKeeps | crates/zmin-git-core/src/refs.rs:182-189 | removing loose files that have been packed changes no ref exactly when no packed ref lies below one of them |
| Refs.KeepsRefs | crates/zmin-git-core/src/refs.rs:148-191 | the last state has the refs of before if and only if both conditions hold; with the second one no single removal changes a ref |
| Refs.RefBehindFile | crates/zmin-git-core/src/refs.rs:92-101 | a packed ref behind a loose one, which is read when that file is removed |
| Refs.RefStore.PackRefs | crates/zmin-git-core/src/refs.rs:148-191 | the refs are the same after the write and after every single removal under the conditions of `KeepsRefs`, and so are the listings for exactly the prefixes of `KeepsListings`; what packed-refs says then; failures change nothing |
| Refs.PackedListing | crates/zmin-git-core/src/refs.rs:103-191 | with the new lines and any of the packed loose files removed, the listing for a prefix is what it was if and only if no packed ref enters it and the prefix is no removed ref |
| Refs.KeepsListings | crates/zmin-git-core/src/refs.rs:103-191 | this holds in all states on the way for those prefixes, and in the last state for no others |
| Refs.SlashListingStays | crates/zmin-git-core/src/refs.rs:103-191 | it holds for every prefix that ends in a slash |
| Refs.PrefixFindsPacked | crates/zmin-git-core/src/refs.rs:112-131 | a loose ref that a prefix without slash does not list, and lists when it is packed |
| Refs.DuplicateMoves | crates/zmin-git-core/src/refs.rs:310-329 | two packed lines with different ids for one name are read differently by the two readers |
| PackedRefs.WithoutFinds | crates/zmin-git-core/src/refs.rs:611-654 | the rewrite drops every line of the name and keeps the first line of all others |
| PackedRefs.WithoutRecords | crates/zmin-git-core/src/refs.rs:611-654 | all other records keep their ids and peeled ids if and only if no peeled line joins another ref line through the dropped lines |
| PackedRefs.PeeledOnceStays | crates/zmin-git-core/src/refs.rs:611-654 | none does in a file in which no two peeled lines follow each other |
| PackedRefs.PeeledMoves | crates/zmin-git-core/src/refs.rs:611-654 | the lines of two refs and two peeled ids, on which deleting the second ref gives the first one a peeled id |
| Refs.RefStore.WriteWithout | crates/zmin-git-core/src/refs.rs:611-654 | the loop with its skip flag computes that rewrite |
| Refs.RefStore.PruneEmptyParents | crates/zmin-git-core/src/refs.rs:401-416 | removes exactly the directories above the name that hold nothing else, but neither `refs` nor its own sub-directories |
| RefTree.EmptiedOpens | crates/zmin-git-core/src/refs.rs:401-416 | this uncovers the names of those directories and nothing else |
| RefTree.DeepMeans | crates/zmin-git-core/src/refs.rs:401-416 | a directory can be removed if its name has at least three components |
| Refs.RefStore.DeleteRef | crates/zmin-git-core/src/refs.rs:70-90 | success makes that ref not found, uncovers the packed refs below its file and under the names of emptied directories, and leaves all others, and their records exactly under that condition; when it succeeds, and what is changed when it fails |
| Glob.WildcardMatch | crates/zmin-git-core/src/attributes.rs:315-345 | the index loop terminates and computes the backtracking scan |
| Glob.WildcardSound | crates/zmin-git-core/src/attributes.rs:315-345 | what the matcher accepts matches the pattern |
| Glob.WildcardExact | crates/zmin-git-core/src/ignore.rs:215-245 | on a text without `*` it accepts exactly what matches, although only the latest star is retried |
| Glob.ExactForText | crates/zmin-git-core/src/attributes.rs:323-328 | a text is matched correctly by all patterns if and only if it has no `*` |
| Glob.ExactForPattern | crates/zmin-git-core/src/attributes.rs:323-328 | a pattern matches all texts correctly if and only if it has no `*` |
| Glob.MatchesMeans | crates/zmin-git-core/src/attributes.rs:315-345 | what it means to match: `*` stands for any bytes, `?` for one and every other byte for itself |
| MergeFile.SplitLines | crates/zmin-git-core/src/merge_file.rs:95-111 | the lines of a text, each with its line feed, which concatenate to the text |
| MergeFile.LinesMean | crates/zmin-git-core/src/merge_file.rs:95-111 | no line is empty, each has at most one line feed, at its end, and only the last one may be without |
| MergeFile.FindCommonEnds | crates/zmin-git-core/src/merge_file.rs:42-64 | the longest common prefix and the longest common suffix that does not overlap it |
| MergeFile.MiddleDecides | crates/zmin-git-core/src/merge_file.rs:66-85 | texts that share their ends and have equal middles are equal, so the equal-middle branches are dead |
| MergeFile.Merge | crates/zmin-git-core/src/merge_file.rs:14-93 | no conflict exactly when two inputs are equal; otherwise one conflict between the maximal common ends, with its markers and labels byte by byte |
| MergeFile.Rebuild | crates/zmin-git-core/src/merge_file.rs:66-68 | prefix, middle and suffix rebuild each input |
| MergeFile.ConflictUnique | crates/zmin-git-core/src/merge_file.rs:87-92 | the text of the conflict is determined by the inputs |
| PatchId.PatchIdFlush | crates/zmin-cli/src/runtime/patch_id.rs:164-173 | the carry loop adds the digest modulo 2^160 |
| PatchId.NumberInjective | crates/zmin-cli/src/runtime/patch_id.rs:164-173 | the twenty result bytes are determined by their number |
| PatchId.TakeLine | crates/zmin-cli/src/runtime/patch_id.rs:52-118 | the loop body computes one step of the line machine, with 64-bit counts and with headers read only as UTF-8 |
| PatchText.LineMeans | crates/zmin-cli/src/runtime/patch_id.rs:52-118 | which lines end the patch, are passed over, set the counts or are hashed, and how counts and hash change, whatever the patch is |
| PatchText.NamedCommit | crates/zmin-cli/src/runtime/patch_id.rs:54-75 | a line names a commit exactly if forty hexadecimal digits begin it, or follow `commit `, `From ` or `diff-tree ` |
| PatchText.NormalizeMeans | crates/zmin-cli/src/runtime/patch_id.rs:154-161 | in verbatim mode a line is hashed as it is, in the others exactly its bytes that are no ASCII white space, in order |
| PatchId.PatchIdOne | crates/zmin-cli/src/runtime/patch_id.rs:40-123 | the loop computes the run of the line machine from its start |
| PatchSections.RunBody | crates/zmin-cli/src/runtime/patch_id.rs:101-117 | a hunk body that matches its counts is hashed completely and leaves both counts at zero |
| PatchSections.RunSection | crates/zmin-cli/src/runtime/patch_id.rs:73-145 | a section whose hunk headers match their counts is hashed as a whole and ends between hunks if and only if each of the headers is UTF-8 or counts no line |
| PatchSections.SectionStops | crates/zmin-cli/src/runtime/patch_id.rs:73-145 | otherwise the patch ends in the first hunk of another header, with the section hashed up to there |
| PatchSections.LatinSectionStops | crates/zmin-cli/src/runtime/patch_id.rs:137-147 | a section with a Latin-1 function name in its header ends the patch |
| PatchSections.PatchIdMeaning | crates/zmin-cli/src/runtime/patch_id.rs:40-123 | a patch is taken in up to the first unreadable header, in stable mode section by section, otherwise as one text; where it ends and which commit it names next |
| PatchText.SectionTextMeans | crates/zmin-cli/src/runtime/patch_id.rs:40-123 | the hashed text of a section is its hashed lines in verbatim mode, and their ink in the others: not the `index` line, hunk headers and remarks |
| PatchText.SameSectionText | crates/zmin-cli/src/runtime/patch_id.rs:154-161 | except in verbatim mode, two sections have the same hashed text if and only if their hashed lines differ in white space only |
| PatchText.WhiteSpaceDoesNotMatter | crates/zmin-cli/src/runtime/patch_id.rs:40-161 | patches whose sections differ in white space only have the same twenty bytes, except in verbatim mode |
| PatchText.HeaderCountsMean | crates/zmin-cli/src/runtime/patch_id.rs:137-152 | the counts of `@@ -a,b +c,d @@` are `b` and `d`, and one where a count is missing |
| PatchSections.TakenWhole | crates/zmin-cli/src/runtime/patch_id.rs:40-123 | that is the whole patch if and only if all sections are readable |
| PatchOrder.StableIdIgnoresOrder | crates/zmin-cli/src/runtime/patch_id.rs:94-96 | permuting the sections does not change the sum |
| PatchOrder.StableIdOrder | crates/zmin-cli/src/runtime/patch_id.rs:40-123 | for all digests and orders the sections that are taken in have the same sum, if and only if all sections are readable or all are cut off alike |
| PatchOrder.TwoOrders | crates/zmin-cli/src/runtime/patch_id.rs:40-123 | the two orders of an unreadable and a readable section: only one of them hashes the readable one |
| PatchOrder.StableIdsEqual | crates/zmin-cli/src/runtime/patch_id.rs:40-123 | two runs over permuted sections return the same twenty bytes under that condition, and in general exactly when the sums agree |
| PatchFileless.FilelessJoins | crates/zmin-cli/src/runtime/patch_id.rs:81-118 | a section without file lines and the one behind it are read as one section, with one digest of both texts |
| PatchFileless.FilelessEnds | crates/zmin-cli/src/runtime/patch_id.rs:81-123 | behind readable sections, at the end of a patch, it has a digest of its own in stable mode |
| PatchFileless.FilelessOrderMatters | crates/zmin-cli/src/runtime/patch_id.rs:40-123 | for every such section and all readable ones there is a digest for which the stable ids with it in front and at the end differ |
| Utf8.ValidMeansEncoded | crates/zmin-cli/src/runtime/patch_id.rs:138 | the texts that pass as UTF-8 are exactly the encodings of sequences of scalar values |
| Filters.ApplyEolCleanToLf | crates/zmin-git-core/src/attributes.rs:222-233 | the cursor loop replaces every CRLF by LF |
| Filters.ApplyEolSmudgeToCrlf | crates/zmin-git-core/src/attributes.rs:235-247 | the byte loop puts a CR in front of every LF that has none |
| FilterMeaning.EolCleanMeans | crates/zmin-git-core/src/attributes.rs:222-233 | cleaning drops a CR in front of an LF and keeps every other byte |
| FilterMeaning.EolSmudgeMeans | crates/zmin-git-core/src/attributes.rs:235-247 | a smudged text has no LF without a CR in front of it |
| FilterMeaning.SmudgedIsOnlyOne | crates/zmin-git-core/src/attributes.rs:235-247 | texts of which this holds are determined by their clean forms, so with `CleanOfSmudged` smudging gives the only such text |
| Filters.CleanOfSmudged | crates/zmin-git-core/src/attributes.rs:222-247 | cleaning a smudged text is cleaning the text |
| Filters.SmudgeIdempotent | crates/zmin-git-core/src/attributes.rs:235-247 | smudging twice is smudging once |
| Filters.CleanUndoesSmudge | crates/zmin-git-core/src/attributes.rs:222-247 | cleaning gives back what was smudged if and only if that had no CRLF |
| Filters.CleanIdempotentIff | crates/zmin-git-core/src/attributes.rs:222-233 | cleaning is idempotent on a text if and only if no CR stands in front of a CRLF |
| Filters.ApplyIdentClean | crates/zmin-git-core/src/attributes.rs:132-184 | the cursor loop collapses exactly the terminated single-word keywords |
| Filters.ApplyIdentSmudge | crates/zmin-git-core/src/attributes.rs:186-220 | the cursor loop expands plain and collapsible keywords |
| FilterMeaning.CollapsibleMeans | crates/zmin-git-core/src/attributes.rs:132-220 | a value can be replaced exactly if it is one word, or none, between white space |
| FilterMeaning.ExpandedCarriesId | crates/zmin-git-core/src/attributes.rs:186-220 | the whole id can be read from the expanded keyword |
| FilterMeaning.KeywordMeans | crates/zmin-git-core/src/attributes.rs:132-220 | what both filters make of a keyword with a value that ends on its line |
| FilterMeaning.OpenKeywordMeans | crates/zmin-git-core/src/attributes.rs:132-220 | a value that does not end on its line is left alone |
| FilterMeaning.PlainKeywordMeans | crates/zmin-git-core/src/attributes.rs:132-220 | `$Id$` is expanded |
| FilterMeaning.OtherByteMeans | crates/zmin-git-core/src/attributes.rs:132-220 | a byte at which no keyword starts is kept by both |
| Filters.SmudgedIsCollapsed | crates/zmin-git-core/src/attributes.rs:132-220 | cleaning a smudged text is collapsing its values while taking each `$Id$` as a whole, on every text |
| Filters.IdentCleanAfterSmudge | crates/zmin-git-core/src/attributes.rs:132-220 | cleaning a smudged text is cleaning the text if and only if the scans of the two filters stay in step, which they do without `$Id$Id:` |
| Filters.IdentCleanUndoesSmudge | crates/zmin-git-core/src/attributes.rs:132-220 | cleaning gives back what was smudged if and only if that had no value to replace, as every text without `$Id:` |
| Filters.OverlapIsNotClean | crates/zmin-git-core/src/attributes.rs:132-220 | a text with `$Id$Id:` that smudging and cleaning leaves as it is, although it is not clean |
| Filters.OverlapInStep | crates/zmin-git-core/src/attributes.rs:132-220 | a text with `$Id$Id:` on which the scans stay in step |

## Left out

- DiffTrees: claims nothing for trees that are not strictly tree-sorted; there the order of the output is not that of
  the flat diff.
- ListRefs: gives the names as a set; the program lists them in their order.
- ReadLoadedCommit: covers objects loaded from the same store, not objects made up by the caller.
- InsertAccepts: `TreeNode::insert` walks and changes nested maps in place; the model computes the changed tree as a
  value, so sharing between nodes is not captured.
- WriteTreeNode: the iteration order of the child map is left open, as nothing depends on it; the same holds for the
  order in which objects directories are listed.
- Text encoding: strings that callers pass are their UTF-8 bytes; names of files that are not UTF-8 are not part of the
  model.
- Parsing the chunk table of a commit-graph file, and `first_parent_after`: the model starts from a parsed file with its
  chunk positions.
- `GitIndex::from_entries`: sorts without rejecting duplicates; strict order is an invariant of the modelled index
  instead.
- SHA-1, SHA-256 and zlib: abstract functions with the right output length.
- Packed object stores and the pack format: a map from ids to objects in each objects directory.
- The hint and listing variants of the alternates search, which repeat the same recursion; `for_each_object_id` is not
  claimed to emit ids once.
- Lock files and failures of the file system: contents of files are values, a failed write is not modelled, and the
  errors for a directory in place of a file are those of Linux.
- Counts in hunk headers: a count below the least 64-bit number wraps around as in a release build; a debug build would
  stop there.
- The splitting of packed-refs into lines: the model starts from its lines without line ends.
- `patch_id_generate`: repeats the modelled run from where the last one ended.
- `resolve` and `write_fresh_packed_refs`: add only simple members.
- Attribute and ignore file parsing, pathspecs, configuration, dates and the command-line surface: user interface around
  the modelled parts.
- `merge_indexes`: depends on helpers that are not part of this model.
- Capacity hints and timing: no meaning.
