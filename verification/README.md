# libgit2 staging index: read-index, read-tree, write-tree, add

A Dafny model of the parts of libgit2's staging index that the read-index
tests drive:

- **the index store** (`IndexStore`) — entries kept sorted by path, then
  stage, with these invariants:
  - paths are valid;
  - a path never has both a stage-0 entry and conflict stages;
  - `add` inserts or replaces an entry.
- **write-tree and read-tree** (`TreeIndex`, over the tree model `Trees`):
  - write-tree folds a resolved index into nested directories;
  - read-tree flattens a tree into a fresh index of stage-0 entries with an
    empty stat cache.
- **read-index** (`Merger`) — replaces one index's contents with another's,
  but keeps the destination's cached stat data. An entry keeps that data
  when the destination already held it with the same path, stage, object
  id and mode. The merge is a two-pointer walk over both sorted indexes.
  It is proved equal to a naive reference: a search of the whole
  destination for each source entry.
- **persistence** (`Persistence`) — the written index file, modelled as
  words:
  - a header with signature, version and entry count;
  - the entries;
  - extension blocks, kept verbatim;
  - a trailing checksum.
  
  Reading the file back validates every part.
- **the test scenarios** (`Scenarios`) — the three tests of
  `tests/index/read_index.c`, stated for every index and tree instead of
  one fixture repository:
  - the stat cache survives a write-tree / read-tree / add / read-index
    cycle;
  - read-index of a tree's index writes that same tree back;
  - the same holds after the index is written to disk and reopened.

  The second test discards `roundtrip_with_read_index`'s result (lines
  96-104), so as written it checks only that each step succeeds;
  `Scenarios.RoundTripWithReadIndex` states the id equality the helper
  computes.

`add` checks the path only: it will stage "a" next to "a/b". The store
invariant permits that, and write-tree then refuses the index with
InvalidPath.

A tree value stands for its object id: two trees have equal ids exactly
when they are equal values. This treats the content hash as injective. So
`git_oid_equal(&tree_id, &new_tree_id)` becomes equality of `Node` values,
and `Trees.Extensionality` proves that a tree is fixed by its files.

## Model

| member | source | states |
|---|---|---|
| Merger.Merge | tests/index/read_index.c:57-60 | read-index refuses, with an invariant violation, exactly when either index is out of (path, stage) order; otherwise the result has the source's entry count and, position by position, the source's path, stage, id, mode and size, each with the stat cache of the destination entry holding the same content (or its own when there is none) |
| Merger.MergeSorted | tests/index/read_index.c:57 | the in-step walk over two sorted indexes yields each source entry in order, carrying exactly the stat cache the whole-destination reference search assigns it |
| Merger.ReadIndex | tests/index/read_index.c:57 | the imperative pass (a neighbour-by-neighbour order check, then one in-step walk) returns precisely the result of read-index, refusal included |
| IndexStore.ChainedSorted | tests/index/read_index.c:57 | an index is in (path, stage) order exactly when each entry's key is below its successor's |
| Merger.PriorStatFound | tests/index/read_index.c:68-70 | in a sorted destination the reference search lands on the one entry with the same path, stage, id and mode |
| Merger.MergeKeepsStatCache | tests/index/read_index.c:68-70 | a source entry whose path, stage, id and mode the destination already held takes that destination entry's stat cache and keeps its own identity |
| Merger.MergeTakesNewEntries | tests/index/read_index.c:65-67 | a source entry that matches nothing in the destination arrives unchanged, empty stat cache included |
| Merger.MergeIgnoresDestination | tests/index/read_index.c:85-86 | merging one source into two different destinations gives results that agree with each other and with the source on every identity field |
| Merger.MergeWf | tests/index/read_index.c:85-86 | if the source satisfies the store invariant (sorted, valid paths, stage classes exclusive), so does the merged index |
| Merger.MergeIdempotent | tests/index/read_index.c:57 | read-index of an index into itself changes nothing |
| IndexStore.Insert | tests/index/read_index.c:54 | insertion keeps the index sorted; the new entry replaces one with the same (path, stage) and otherwise adds exactly one entry |
| IndexStore.DropOtherClass | tests/index/read_index.c:54 | removes exactly the entries of the added path on the other side of the resolved/conflict divide |
| IndexStore.Add | tests/index/read_index.c:48-55 | add fails with InvalidPath exactly when the path is empty, absolute or has an empty or ".." segment; otherwise the index still satisfies the store invariant, holds the new entry, keeps every entry of another path and every other-stage entry of the same path on the same side of the resolved/conflict divide, gains nothing else, and a new path grows it by one |
| TreeIndex.WriteTree | tests/index/read_index.c:39-40 | write-tree fails with UnmergedConflict when any entry has a stage other than 0, and with InvalidPath when a name is both a file and a directory; otherwise it yields a well-formed tree whose files are exactly the index's entries, with their ids and modes |
| TreeIndex.ReadTree | tests/index/read_index.c:42-45 | read-tree refuses with Corrupt exactly a tree that is not a directory or has a child named "", ".." or with a '/'; otherwise it fills a fresh index with one resolved entry per file of the tree, sorted and valid, with the tree's ids and modes and an empty stat cache; a sub-directory holding no file contributes nothing |
| TreeIndex.EmptyDirectoryLost | tests/index/read_index.c:84-86 | a root holding only an empty directory reads as the empty index, which writes the empty root instead: the tree round trips need trees without empty sub-directories |
| TreeIndex.WriteTreeLeaves | tests/index/read_index.c:40 | the files of the written tree are exactly the index's (path, id, mode) triples |
| TreeIndex.WriteTreeOfLeaves | tests/index/read_index.c:86 | any resolved, well-formed index holding exactly a tree's files writes that tree, whatever its stat data |
| TreeIndex.WriteTreeOfReadTree | tests/index/read_index.c:84-86 | write-tree of the index read-tree produces gives the original tree back |
| TreeIndex.ReadTreeOfWriteTree | tests/index/read_index.c:37-45 | reading back the tree an index writes gives as many entries as the index had, and each original entry reappears with its path, id and mode |
| TreeIndex.SameLeaves | tests/index/read_index.c:37-45 | two resolved sorted indexes filing the same files have the same size and the same path, id and mode for each entry |
| Trees.LookupBuild | tests/index/read_index.c:40 | the tree built from a prefix-free set of file paths holds exactly those files at exactly those paths |
| Trees.LeavesBuild | tests/index/read_index.c:40 | building a tree from a file map and flattening it again gives the same map |
| Trees.BuildLeaves | tests/index/read_index.c:91 | flattening a well-formed tree and building again gives the same tree |
| Trees.Extensionality | tests/index/read_index.c:91 | two well-formed trees with the same file at every path are the same tree, so they have the same id |
| Paths.JoinSplit | tests/index/read_index.c:40 | joining the components a path splits into gives the path back |
| Paths.SplitJoin | tests/index/read_index.c:45 | splitting the path joined from a non-empty list of slash-free names gives the names back |
| Paths.SplitInjective | tests/index/read_index.c:40 | distinct paths split into distinct component lists |
| Persistence.Decode | tests/index/read_index.c:120 | opening an index file fails with UnsupportedVersion on a foreign signature or version and with Corrupt on a bad checksum, and every other failure (short file, malformed entry, truncated extension, out-of-order entries) is Corrupt too; on success the header was valid, the checksum matched, and the entries are sorted and as many as the header says |
| Persistence.DecodeEncode | tests/index/read_index.c:118-120 | writing a sorted index with any extensions and opening it again gives the same entries and extensions |
| Scenarios.RoundTripWithReadIndex | tests/index/read_index.c:75-91 | read-index of a tree's index into any destination, then write-tree, gives the tree's id back |
| Scenarios.MergeWriteTree | tests/index/read_index.c:85-86 | for any well-formed source and any destination, write-tree after read-index gives exactly what write-tree of the source gives, the same tree or the same refusal |
| Scenarios.IndexLeavesOfIdentities | tests/index/read_index.c:85-86 | indexes that agree on every entry's identity file the same files, whatever their stat data |
| Scenarios.ReadAndWrites | tests/index/read_index.c:107-123 | after read-index, writing the index and reopening it succeeds and gives back exactly the merged entries and extensions, and they still write the original tree |
| Scenarios.ReadBackPaths | tests/index/read_index.c:37-45 | the index read from the tree another index writes has that index's size and only its paths |
| Scenarios.ReadBackMatches | tests/index/read_index.c:42-45 | every entry read back from that tree has a counterpart in the writing index with the same path, stage, id and mode |
| Scenarios.FreshIndexGrows | tests/index/read_index.c:48-55 | adding a file under a new path to the read-back index gives one entry more than the original index |
| Scenarios.MergedEntry | tests/index/read_index.c:62-71 | each entry of the stat-cache scenario's result has the fresh index's path at that position; "Hello" has an empty stat cache, and every other entry has non-zero timestamps and exactly the stat cache of the original index's entry at the same path |
| Scenarios.MaintainsStatCache | tests/index/read_index.c:28-73 | write-tree, read-tree, add of "Hello" without stat data, then read-index: the fresh index and the result both have one entry more than the original, "Hello" is there with zero ctime and mtime, and every other entry keeps non-zero timestamps |

## Left out

- The fixture repository and its setup and teardown (lines 8-26) are left out. So is every `*_free` call, since the model has no allocation. The scenarios hold for every index and tree, not just the fixture's.
- Object ids are abstract naturals, and hex parsing (`git_oid_fromstr`) is not modelled.
- SHA-1 and the object database are left out. A tree value stands for its own id, so `git_tree_lookup` cannot fail and its not-found error does not arise. A tree with a malformed child name is refused by read-tree as Corrupt.
- Git's canonical order of tree entries (a directory sorts as if its name ended in "/") is not modelled. Tree children are a map, so their order is not represented.
- The on-disk layout is modelled as words, not bytes. These parts are left out:
  - the 8-byte padding of entries;
  - path-length flag bits and version 3/4 path compression;
  - the lock file, the temporary file and the rename that publish it;
  - the errors they raise (Locked, I/O errors);
  - `git_index_path`.
- Persistence.EncodeEntry: fields are unbounded words. The file's 32-bit fields (times, dev, ino, uid, gid, file size) are not truncated, so values of 2^32 and above round-trip here but would not in the file.
- Paths are sequences of Unicode scalar values, not byte strings, so non-UTF-8 paths and the case-insensitive index order are not represented.
- Persistence.Checksum: a 32-bit additive sum stands in for the trailing SHA-1. It catches fewer corruptions than the real hash, but the round trip and the Corrupt-on-mismatch behaviour are the same.
- Persistence.Decode rejects out-of-order entries as Corrupt instead of re-sorting them.
- Merger.Merge: on a match the result takes path, stage, id, mode and file size from the source and the stat cache from the destination. libgit2 keeps the old entry whole. The two differ only in the file size, because a match already requires equal path, stage, id and mode.
- The stat cache's cached size is folded into the entry's file size. read-tree sets both to zero.
- TreeIndex.WriteTreeOfReadTree holds only for trees without an empty sub-directory. read-tree drops such a directory, so write-tree cannot restore it; `TreeIndex.EmptyDirectoryLost` exhibits the case.
- Scenarios.RoundTripWithReadIndex and Scenarios.ReadAndWrites carry the same restriction, for the same reason.
- TreeIndex.WriteTree reports a name used as both a file and a directory as InvalidPath. The error taxonomy has no dedicated kind for it.
- The maximum path depth (PathTooDeep) is not modelled. Tree depth is unbounded in the model.
- Lookup of an entry by path, removal and `git_index_entrycount` are left out. The tests only use the entry count and positional access, which are `|idx|` and `idx[k]`.
- Concurrency, the index's in-memory caches (tree cache, name hash) and file-system stat calls are left out. The stat data of an entry is an input.
