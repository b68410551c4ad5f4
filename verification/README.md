# A model of the CAR builder, reader and block stores

This project models, in Dafny, how the library turns a file tree into a CARv1 file and back under a
memory bound, and proves what that pipeline promises. `dafny verify dfyconfig.toml` checks all of it.

## What is modelled

* **Content addressing.** An identifier is a value of an algebraic type (`Dag.Cid`): it stands for exactly
  one node, so injectivity and acyclicity of hashing need no axiom. `Cids.Cid` is the byte form (CIDv0 and
  CIDv1) used by the framing; an `Encoding` maps one to the other and stays a parameter.
* **The tree builder** (`fs_tree`, `tree_summary`, `builder_*`, `builder`, `collect`, `node_store`). The
  methods of `CarBuilder` update a `TreeSummary` object in place: walk, hash, prune, hash again. Map
  iteration and the unstable depth sort are nondeterministic choices. A path is the sequence of its
  components; `Paths` proves that slash-joined paths behave the same. The two indices share entries by
  pointer; here the entry's key is that pointer. A chunked file is given by its DAG,
  whose nodes declare the logical size that AnalyzeNode reports.
* **Writing** (`car_encoding`, `car_writer`). `WriteCAR` works through a store that may drop any blocks
  between any two steps (`NodeStore.Evict`); a `roomy` store keeps what it is given.
* **Reading** (`framing`, `car_reader`, `car_*_theorems`, `read_*`, `round_trip*`, `unwrapped_file`,
  `reconstructor`, `car_archive`). Byte streams with a position, go-varint with its minimality and nine-byte
  rules, the block reader with its hash check, the two bulk loaders, and the depth-first walk that synthesises
  paths from link names. `ReadCAR` runs over the indexed store with a memory limit, through `CarDag`
  (`car_nodes`), and its result is a function of the file (`ReadResult`) in which the limit does not occur.
  Lengths follow the multiformats unsigned-varint specification, section "Practical maximum of 9 bytes (for
  security)"; the layout follows the IPLD CARv1 specification, section "Format Description".
* **The caches** (`lru_*`, `indexed_*`). `LRUBlockstore` is a heap of linked nodes with a map and a
  wrapping 64-bit byte counter; `IndexedBlockstore` is that cache over a seekable file and an index.
  `indexed_archive` ties the index to the bytes of the file.
* **Levels** (`level_*`): levels, cohorts, their rotation and the recorded parents.
* **Comparisons** (`block_equality`, `header_matching`).

Imperative parts are classes and methods whose contracts equate the new state with a function of the old one;
the theorems are lemmas about those functions. The files ending in `_spec` hold the functions, the ones ending
in `_theorems`, `_laws`, `_recency` and `_records` the results. `Built` describes every summary the first pass
can leave behind, and is never empty: `BuildSummary` returns such a summary for every tree whose blocks the
store keeps.

Assumed of the caller, as the code needs it: no root-level entry and no directory is called `ROOT`
(car/car_dir_builder.go:670 and 1045 treat the name specially); names within a directory are distinct and,
for reading back, non-empty; blocks are shorter than 2^63 bytes, as Go's `len` is an `int`. The CBOR header
codec, the dag-pb and UnixFS encoders, SHA-256 and go-car's index generation are parameters with the
properties stated where they are used, always about the blocks and the header at hand: `Lossless` and `Inverse`
(decoding undoes encoding, so the hashes of one DAG do not collide), `Understood` (the same of a file that is
read), `Indexes` (for every block's identifier, the first offset of the index starts a block of exactly that
identifier; an index searched by multihash meets this as long as no two blocks differ in the codec of their
identifiers alone), `DirSizer` (a directory block is never empty, and dropping names from it does not make it
longer: a link records its identifier's length, not the size of what it names, car/car_dir_builder.go:1038).
Sections are read again with a limit of 10 MiB, so the reader's own limit, 8 MiB in go-car, is asked to be no
larger. That all of this can be had together is proved: `ScanIndexes` gives index generation that is right for
every file, `CanBeSuitable` encoders, a hash and a header codec that are right about a tree with a file, and
`RoundTripOneFile` runs the round trip with them.

## What the proofs turned up

Places where the code does not keep what its documentation says, or keeps it only under a condition; each
condition is proved to be exact.

* A CAR is self-contained, and readable again, if and only if every root-level directory has a file
  somewhere: an emptied root-level directory stays linked from ROOT after its block was taken out of the
  block list (`SelfContainedExactly`, `WriteThenRead`).
* A nested entry is not read back if its identifier was met before, because the walk passes over it; the
  round trip is exact if and only if nothing was pruned and no nested entry repeats an earlier one in
  lexicographic path order (`RoundTripExactly`, `TwinsAreNotBothRead`, with an example in `TwinIsLost`).
* `TotalSize` is documented as the sum of all block sizes. It keeps counting pruned directories: it is that sum
  if and only if no directory is file-less, and larger otherwise (`TotalExactly`; `EmptyFolderStaysCounted` is one
  file beside one empty folder). It survives a round trip if and only if, besides, no block with bytes is listed
  twice, since the reader counts every block once (`TotalComesBackExactly`).
* A single file built without wrapping comes back under the text of its identifier, as documented; besides, its
  chunks are no longer indexed, and the virtual root, which had no identifier, has the file's
  (`UnwrappedComesBack`).
* `CIDToEntry` is documented to survive a round trip too. The builder indexes exactly the listed blocks, and besides
  them the empty directory if something was pruned (`FinishedIndex`); the reader exactly the entries
  (`ReadIndexExactly`). So the same identifiers come back if and only if nothing was pruned and every block of every
  file is an entry of its own, as when files have one block each (`IndexComesBackExactly`).
* The LRU byte budget holds in every run if and only if the limit is at most 2^63; above, the unsigned
  addition in the eviction test can wrap (`BudgetHoldsExactlyUpToTwo63`).
  The byte counter itself is exact in every run up to the same limit and no further (`CounterExactUpToTwo63`).
* `GetSize` on a cached block does not refresh it. Where of two caches only the larger holds the block, the
  prefix relation between them breaks, unless the smaller is empty and the block is the larger one's newest; a run
  keeps the relation throughout if and only if it has no such `GetSize` (`GetSizeStepExactly`,
  `IndexedStackInclusionExactly`; `GetSizeBreaksInclusion` gives an example).
* The planned CAR size is exact if and only if every listed identifier is version 1 (`SizeIsExact`).
* An archive that lacks chunks of files still reads: only the entries' own blocks are asked for, and a missing block
  counts as empty (`EntriesSuffice`, `RebuiltListing`).
* `equalBlocks` compares multisets if and only if its receiver lists each identifier with one size; otherwise
  it is not even reflexive (`PermutationTestExactly`, `ReflexiveExactly`). `Matches` compares roots "in any
  order" if and only if its receiver repeats no root, and is not symmetric otherwise (`MatchesExactly`).
* `LdWrite` encodes the length into eight bytes, so a section of 2^56 bytes or more is an index panic, not an
  error return (`WriteBlock`). A cut directly behind a length prefix reads as a clean end (`TruncatedCar`).
* A block whose known children do not include a highest one gets a guessed level. In a run of Puts every block is
  at its height all the time, and nothing is forgotten, if and only if every Put is placed right and no more
  different heights occur than there may be cohorts (`LevelIsHeightExactly`, `LevelsAreHeightsExactly`;
  `ParentFirstIsMisplaced` gives an example). With children put first this comes down to every block being lower
  than the level limit (`HeightLimitExactly`).

## Model

| member | source | states |
|---|---|---|
| Varint.SizeIsEncodedLength | internal/carv2/util/util.go:108-115 | the computed size of a varint is the length of its encoding, for every number |
| Varint.EncodedLengthBound | internal/carv2/util/util.go:83-104 | a number fits k encoded bytes if and only if it is below 128^k, which is where the eight-byte buffer ends |
| Varint.EncodeExactly | internal/carv2/util/util.go:83-104 | the encoding of a number is the one minimal byte string with its value, seven bits a byte, the least significant first |
| Varint.ReadEncoded | internal/carv2/util/util.go:120-136 | an encoded number in the middle of any stream reads back, and the reader stops right behind it |
| Varint.ReadCutShort | internal/carv2/util/util.go:120-136 | a cut inside an encoded number is an unexpected end, before its first byte a clean one |
| Varint.ReadIsEncoded | internal/carv2/util/util.go:120-136 | whatever is read stands in the stream as the minimal encoding of its value, in nine bytes at most |
| Varint.ReadErrors | internal/carv2/util/util.go:120-136 | the read overflows at a ninth byte that asks for another, is not minimal at a final zero byte, and is cut short at the end of the stream |
| Cids.CidRoundTrip | internal/carv2/util/util.go:32-44 | identifier bytes followed by any data parse back to the identifier, consuming exactly those bytes |
| Cids.CidBytesPrefixFree | internal/carv2/util/util.go:32-44 | the split of a section into identifier and data is unique |
| Cids.CidIsWritten | internal/carv2/util/util.go:32-44 | the parser accepts nothing but the byte forms of valid identifiers |
| Cids.NormalizedForm | encoding/encoding.go:60-83 | the version 1 form of a version 0 identifier is its own bytes behind the version and the dag-pb codec |
| Framing.ReadUvarint | internal/carv2/util/util.go:120-136 | the reading loop computes the recursive decoding, with its overflow, minimality and end-of-stream cases |
| Framing.LdReadSize | internal/carv2/util/util.go:120-136 | length prefix, zero length as an end when asked for, and the size limit |
| Framing.LdRead | internal/carv2/util/util.go:141-153 | a payload of the announced length, or the error of reading it, at the right position |
| Framing.ReadNode | internal/carv2/util/util.go:32-44 | a payload split into identifier and data |
| Framing.PutUvarint | internal/carv2/util/util.go:83-104 | the in-place encoding loop writes the encoding, or runs off the buffer exactly when it is too long |
| Framing.LdWrite | internal/carv2/util/util.go:83-104 | writes length and parts, succeeding if and only if the wrapped sum is below 2^56 |
| Framing.LdSize | internal/carv2/util/util.go:108-115 | equals the number of bytes LdWrite writes for lengths below 2^63 |
| Framing.WriteBlock | internal/carv2/util/util.go:76-78 | appends exactly one section, and fails without output from 2^56 bytes on |
| CarReaders.WriteHeader | internal/carv2/car.go:83-90 | appends the frame of the encoded header |
| CarReaders.HeaderSize | internal/carv2/car.go:94-101 | equals the number of bytes WriteHeader writes |
| CarReaders.ReadHeader | internal/carv2/car.go:64-79 | decodes the first frame, renaming the size error |
| CarReaders.NewCarReader | internal/carv2/car.go:118-143 | accepts version 1 with at least one root, rejects the rest, and stands behind the header |
| CarReaders.CarReader.Next | internal/carv2/car.go:146-162 | the next block whose hash matches its identifier, or the error |
| CarReaders.LoadCarSlow | internal/carv2/car.go:212-226 | delivers every readable block in order; success exactly at a clean end |
| CarReaders.LoadCarFast | internal/carv2/car.go:185-210 | with a reliable store, the same result and the same blocks as one by one; when reading fails, the complete batches of them |
| CarReaders.LoadCar | internal/carv2/car.go:171-183 | success means every block was delivered; with a reliable store the choice of loader shows only in what a failed read leaves delivered; with any store, what is delivered is a prefix |
| CarStreamTheorems.FrameReads | internal/carv2/util/util.go:141-153 | a frame inside any stream reads back as its payload |
| CarStreamTheorems.FrameCutShort | internal/carv2/util/util.go:120-153 | which cuts of a frame read as a clean end and which as an unexpected one |
| CarStreamTheorems.CutStreamReads | internal/carv2/car.go:146-162 | any prefix of a sequence of sections reads as the blocks it wholly contains and the error of its cut |
| CarStreamTheorems.CarRoundTrip | internal/carv2/car.go:83-162 | reading what was written returns the header, exactly the blocks in order, then the end |
| CarStreamTheorems.TruncatedCar | internal/carv2/car.go:118-162 | the same for a CAR cut anywhere behind its header |
| CarStreamTheorems.CutPosition | internal/carv2/car.go:146-162 | every cut is covered by exactly such a position |
| CarStreamTheorems.CarBytesInjective | internal/carv2/util/util.go:76-104 | different block sequences never give the same bytes |
| CarReadTheorems.BlockExactly | internal/carv2/car.go:146-162 | in any bytes, Next delivers a block if and only if its section stands there, within the limit and with a matching hash |
| CarReadTheorems.RefusalsExactly | internal/carv2/car.go:146-162 | each refusal exactly where it arises: the clean end, a content mismatch, a section above the limit, a payload without an identifier |
| CarReadTheorems.VerifiesExactly | internal/carv2/car.go:151-159 | over any hash functions, a block is intact if and only if its identifier's digest begins the digest of its data |
| CarReadTheorems.ReadIsWritten | internal/carv2/car.go:146-226 | whatever is delivered from any bytes stands in them, section by section, up to where reading failed |
| CarReadTheorems.CleanEndExactly | internal/carv2/car.go:185-226 | reading ends cleanly only at the end of the bytes, behind a length prefix without a payload byte, or at a zero length where that counts as the end |
| CarReadTheorems.CorruptCar | internal/carv2/car.go:146-183 | intact blocks, then one whose content was altered, then anything: loading delivers exactly the intact ones and fails with the mismatch |
| CarReadTheorems.WrittenHeader | internal/carv2/car.go:118-143 | a written header is opened, or refused for its length, its version or its missing roots, in that order |
| CarReadTheorems.UndecodedHeader | internal/carv2/car.go:64-79 | a payload that does not decode is no header |
| CarReadTheorems.OpenedIsWritten | internal/carv2/car.go:118-143 | whatever opens begins with the frame of a version 1 header that has roots |
| CarReadTheorems.CompleteBatchesExactly | internal/carv2/car.go:185-210 | when reading fails, the fast loader has stored as many blocks as fill batches of 1001, and no more |
| LruBlockstores.LRUBlockstore.AddToFront | blockstore/car_blockstore.go:110-122 | the linked chain gains the node in front, every back link right |
| LruBlockstores.LRUBlockstore.Unlink | blockstore/car_blockstore.go:205-216 | the chain loses exactly the node, every back link right |
| LruBlockstores.LRUBlockstore.MoveToFront | blockstore/car_blockstore.go:92-108 | the chain is reordered to have the node in front |
| LruBlockstores.LRUBlockstore.EvictOne | blockstore/car_blockstore.go:75-90 | chain, map and byte counter lose the least recent block |
| LruBlockstores.LRUBlockstore.MakeRoom | blockstore/car_blockstore.go:61-63 | the eviction loop drops the suffix that the byte counter demands |
| LruBlockstores.LRUBlockstore.Put | blockstore/car_blockstore.go:48-73 | refines the recency-list Put: to the front, or in front of what eviction leaves |
| LruBlockstores.LRUBlockstore.Get | blockstore/car_blockstore.go:126-141 | returns the held block and moves it to the front, or changes nothing |
| LruBlockstores.LRUBlockstore.GetSize | blockstore/car_blockstore.go:144-153 | the held block's length, recency order untouched |
| LruBlockstores.LRUBlockstore.Has | blockstore/car_blockstore.go:156-162 | whether the block is held |
| LruBlockstores.LRUBlockstore.PutMany | blockstore/car_blockstore.go:165-172 | the blocks are put one after the other |
| LruBlockstores.LRUBlockstore.DeleteBlock | blockstore/car_blockstore.go:193-219 | removes exactly the block from chain, map and counter |
| LruTheorems.EvictKeepsLongestFit | blockstore/car_blockstore.go:61-63 | what stays is the longest recency prefix that fits beside the incoming block, or nothing |
| LruTheorems.CounterNeverWraps | blockstore/car_blockstore.go:61-89 | with a limit of at most 2^63, in every reachable state no addition and no subtraction of the byte counter wraps |
| LruTheorems.CounterExactUpToTwo63 | blockstore/car_blockstore.go:61-89 | the byte counter is exact in every run if and only if the limit is at most 2^63 |
| LruTheorems.RunKeepsInv | blockstore/car_blockstore.go:48-90 | in every reachable state names are distinct and the total is within the limit unless one block is held |
| LruTheorems.BudgetHoldsExactlyUpToTwo63 | blockstore/car_blockstore.go:36-63 | the budget holds in every run if and only if the limit is at most 2^63 |
| LruTheorems.StackInclusion | blockstore/car_blockstore.go:48-73 | for any two limits, after any run of consistent Puts and deletions, the smaller cache is a recency prefix of the larger |
| LruTheorems.MoreMemoryNeverReloadsMore | blockstore/car_blockstore.go:48-73 | so a larger limit never brings in more blocks |
| LruRecency.DeleteLaw | blockstore/car_blockstore.go:193-219 | a deletion takes out the named block, gives back its bytes, and leaves every other block and their order as they were |
| LruRecency.GetLaw | blockstore/car_blockstore.go:126-141 | a Get brings a held block to the front and changes nothing else |
| LruRecency.PutLaw | blockstore/car_blockstore.go:48-73 | a Put leaves its block in front: a held one unchanged among the same blocks, a new one before what eviction leaves |
| LruRecency.PutManyIsRun | blockstore/car_blockstore.go:165-172 | putting several blocks is a run of Puts |
| LruRecency.RecencyOrder | blockstore/car_blockstore.go:48-219 | after every run of Puts, Gets and deletions the held blocks stand in the order of their last Put or Get, the latest first |
| IndexedBlockstores.IndexedBlockstore.LoadAll | blockstore/indexed_blockstore.go:79-97 | the loading loop puts every block that can be read into the cache, in order, and ends with the reader's error |
| IndexedBlockstores.IndexedBlockstore.IndexAll | blockstore/indexed_blockstore.go:46-100 | keeps the index made of the file and loads the blocks read from the file's bytes, with the error of reading them |
| IndexedBlockstores.IndexedBlockstore.TryOffset | blockstore/indexed_blockstore.go:133-152 | seeks, reads and checks the identifier at one offset |
| IndexedBlockstores.IndexedBlockstore.Get | blockstore/indexed_blockstore.go:105-180 | the cached block, or the one at the first offset, which is then cached; later offsets never count |
| IndexedBlockstores.IndexedBlockstore.GetSize | blockstore/indexed_blockstore.go:218-242 | the size from the cache without touching it, otherwise from a Get |
| IndexedBlockstores.IndexedBlockstore.Put | blockstore/indexed_blockstore.go:184-188 | puts into the cache only |
| IndexedBlockstores.IndexedBlockstore.DeleteBlock | blockstore/indexed_blockstore.go:247-251 | deletes from the cache only |
| IndexedTheorems.CacheIsTransparent | blockstore/indexed_blockstore.go:105-242 | for every limit and every earlier run, Get and GetSize of an indexed identifier answer what the file stores |
| IndexedTheorems.LimitsAreUnobservable | blockstore/indexed_blockstore.go:105-180 | stores with different limits and histories answer alike |
| IndexedTheorems.HasExactly | blockstore/indexed_blockstore.go:200-213 | what Has affirms, Get and GetSize deliver; what it denies they deliver only while a block of that name is cached |
| IndexedLaws.ReloadExactly | blockstore/indexed_blockstore.go:121-160 | a block is reloaded if and only if its section, within the limit and under the name asked for, stands at the first offset of that name |
| IndexedLaws.ReloadRefusals | blockstore/indexed_blockstore.go:121-187 | each refusal of a reload exactly where it arises: no offset, an offset that cannot be sought, a section that cannot be read, another identifier |
| IndexedLaws.GetCaches | blockstore/indexed_blockstore.go:105-187 | a successful Get leaves its block newest in the cache; a failed one leaves the cache as it was |
| IndexedLaws.GetSizeCaches | blockstore/indexed_blockstore.go:218-242 | a GetSize gives a cached block's length without refreshing it, and otherwise loads the block |
| IndexedArchives.IndexFinds | blockstore/indexed_blockstore.go:121-160 | through an index of the file's sections, every indexed identifier is reloaded, as a block the file has |
| IndexedArchives.IndexedIsWellFormed | blockstore/indexed_blockstore.go:121-160 | so every block of a readable file can be reloaded under its identifier, which is what CacheIsTransparent assumes |
| IndexedArchives.WrittenCarIsWellFormed | blockstore/indexed_blockstore.go:121-160 | in particular every block of a CAR that was written here, by the offset of its section |
| IndexedArchives.InconsistentMeansCollision | internal/carv2/car.go:146-162 | two blocks a reader accepts under one name differ only if the hash function collides on them |
| IndexedArchives.ScanIndexes | blockstore/indexed_blockstore.go:50-57 | scanning a file for its sections gives such an index, for every file |
| IndexedTheorems.GetSizeStepExactly | blockstore/indexed_blockstore.go:218-242 | a GetSize keeps the smaller cache a recency prefix of the larger if and only if the smaller holds the block, the larger does not, or the smaller is empty and the block is the newest |
| IndexedTheorems.IndexedStackInclusionExactly | blockstore/indexed_blockstore.go:105-242 | for any two memory limits, the cache with less memory is a recency prefix throughout a run if and only if every GetSize of the run is of that kind |
| IndexedTheorems.IndexedStackInclusion | blockstore/indexed_blockstore.go:105-188 | in particular in every run without GetSize |
| IndexedTheorems.MoreMemoryNeverReadsMore | blockstore/indexed_blockstore.go:105-242 | at every point of such a run the store with more memory has read the file at most as often |
| Bfs.BlockListExact | car/car_dir_builder.go:951-994 | the breadth-first listing has every reachable identifier exactly once and nothing else |
| Bfs.BlockListByDistance | car/car_dir_builder.go:951-994 | in nondecreasing distance from the root |
| Bfs.BlockListOrder | car/car_dir_builder.go:951-994 | the listing is the order in which identifiers first occur when the root and then the links of the listed blocks are read one block after the other |
| Collect.CollectAllBlocks | car/car_dir_builder.go:951-994 | the queue loop returns that listing with true sizes, or fails because a reachable block is gone |
| Dag.SortCanonical | unixfs/unixfs_generator.go:118-144 | a directory node depends on its set of links only, not on the order they were added in |
| Dag.LessExactly | unixfs/unixfs_generator.go:118-144 | the order of names: the first difference decides, and a prefix comes first |
| Paths.DepthIsComponents | car/car_dir_builder.go:1211-1213 | counting slashes gives one less than the number of components |
| Paths.ParentAtLastSlash | car/car_dir_builder.go:689-693 | cutting at the last slash gives the parent path and the last name |
| Paths.JoinInjective | car/car_dir_builder.go:723 | distinct component paths have distinct string keys |
| TreeSummaries.DirectoryHash | car/car_dir_builder.go:1025-1087 | with every child hashed, a directory's block hashes to the Merkle identifier of its subtree |
| BuilderWalk.WholeWalk | car/car_dir_builder.go:662-758 | the walk leaves the tree's entries, the files' blocks with their sizes, and an index leading back to the files |
| BuilderWalk.WalkedSkeleton | car/car_dir_builder.go:728-753 | every entry lists exactly its children, the virtual root exactly the root-level files |
| BuilderOrder.SortedDirs | car/car_dir_builder.go:787-805 | whatever the map order and the ties, children come before parents and ROOT last |
| BuilderSteps.FirstPassStep | car/car_dir_builder.go:807-825 | hashing the next directory keeps the invariant of the first loop |
| BuilderEmpty.DirectoryEmptyMeans | car/car_dir_builder.go:1174-1200 | isDirectoryEmpty answers whether the subtree has no file at all |
| BuilderEmpty.HasFileExactly | car/car_dir_builder.go:1174-1200 | a subtree has a file if and only if one of its paths leads to one |
| BuilderPrune.PruneStep | car/car_dir_builder.go:1145-1169 | taking out one file-less directory keeps entries, block list, sizes and file index in step |
| BuilderRehash.NoStaleCollision | car/car_dir_builder.go:857-885 | a kept directory's final identifier that is some directory's earlier identifier is that directory's final one too |
| BuilderRehash.RehashStep | car/car_dir_builder.go:857-891 | regenerating one directory keeps the invariant of the second loop: blocks, sizes, entries and both indices agree |
| BuilderTheorems.AppendIsUnreached | car/car_dir_builder.go:876-890 | the search for the old block succeeds unless the directory lists no children, so nothing is ever appended |
| Builder.CarBuilder.CreateUnixFSBlocks | car/car_dir_builder.go:996-1023 | lists a file's blocks, failing only when the store dropped one |
| Builder.CarBuilder.Visit | car/car_dir_builder.go:662-756 | one call of the walk's visitor, as an update of the whole summary |
| Builder.CarBuilder.WalkFrom | car/car_dir_builder.go:662-758 | the walk below one path |
| Builder.CarBuilder.CreateDirectoryBlock | car/car_dir_builder.go:1025-1087 | the block links exactly the hashed children, and for ROOT the root-level directories too |
| Builder.CarBuilder.HashDirectories | car/car_dir_builder.go:807-825 | after the loop every directory has its Merkle identifier, block and index entry, and the total adds up |
| Builder.CarBuilder.FindEmptyDirectories | car/car_dir_builder.go:1132-1143 | finds exactly the directories without any file |
| Builder.CarBuilder.PruneOne | car/car_dir_builder.go:1145-1169 | unlists one directory from its parent and drops the first block of its identifier |
| Builder.CarBuilder.PruneEmptyDirectories | car/car_dir_builder.go:1132-1172 | in any order, exactly the file-less directories are taken out |
| Builder.CarBuilder.RehashDirectories | car/car_dir_builder.go:857-891 | after the loop every directory has its final identifier, and the block list holds exactly those of the kept ones |
| Builder.CarBuilder.ReplaceBlock | car/car_dir_builder.go:876-890 | replaces the first block of the old identifier, or appends when there is none |
| Builder.CarBuilder.SoleRootFile | car/car_dir_builder.go:760-785 | decides whether the tree is one file and nothing else |
| Builder.CarBuilder.BuildSummary | car/car_dir_builder.go:647-898 | the first pass as a whole: a built summary of the tree with an exact index and its blocks in sequence, failing only when the store dropped a block |
| BuilderSequence.PruneLineEnds | car/car_dir_builder.go:1132-1172 | pruned to the end, the list has the files' blocks as walked, then those of the kept directories in the order of the first pass |
| BuilderSequence.RehashLineEnds | car/car_dir_builder.go:857-891 | hashed again in any order, every kept directory's final identifier stands where its old one stood |
| BuilderSequence.KeptSequence | car/car_dir_builder.go:787-806 | that order has every kept directory once, the deepest first and the root last |
| BuilderSequence.BeforeItsParent | car/car_dir_builder.go:176-186 | so every directory's block comes before that of the directory containing it |
| BuilderTheorems.FinishedEntries | car/car_dir_builder.go:838-894 | the finished summary entry by entry: kind, identifier and children, for kept and for pruned directories |
| BuilderTheorems.BuiltSizes | car/car_dir_builder.go:710-712 | every file entry has the size the file's root node declares of itself, every directory entry none |
| BuilderTheorems.RootIsMerkleRoot | car/car_dir_builder.go:827-894 | the root identifier is the Merkle hash of the tree pruned below its root level |
| UnwrappedFile.UnwrappedRoot | car/car_dir_builder.go:760-785 | without wrapping, a file system of one file has that file as its root, its blocks as the block list, and entries for it and the virtual root |
| UnwrappedFile.OtherwiseWrapped | car/car_dir_builder.go:787-836 | any other file system has a directory for its root, wrapping asked for or not |
| BuilderTheorems.OrderIndependence | car/car_dir_builder.go:787-894 | any two builds of a tree agree on root, entries, identifiers and the multiset of blocks |
| BuilderTheorems.DirectoryPart | car/car_dir_builder.go:807-891 | the directory part of the block list is, as a multiset, the final identifiers of exactly the directories that were not pruned: none stale, none lost |
| BuilderTheorems.SelfContainedExactly | car/car_dir_builder.go:807-891 | the listed blocks are exactly what the root reaches if and only if every root-level folder has a file |
| BuilderTheorems.EveryBlockRecreates | car/car_dir_builder.go:1089-1130 | every listed identifier leads to an entry whose regeneration makes that block again |
| BuilderTheorems.RehashIsStable | car/car_dir_builder.go:1108-1110 | hashing any directory entry of a finished summary again gives its identifier |
| BuilderIndex.FinishedIndex | car/car_dir_builder.go:714-875 | the identifier index ends up with exactly the listed blocks, and with the empty directory if something was pruned |
| BuilderIndex.RootIsIndexed | car/car_dir_builder.go:150 | the root identifier leads to the virtual root entry |
| BuilderTotals.UnprunedIsUnique | car/car_dir_builder.go:714-825 | the total size is the same for every order, and counts the tree before pruning |
| BuilderTotalExact.TotalExactly | car/car_dir_builder.go:57 | the total is the sum of the listed sizes if and only if no directory is file-less, and never less |
| BuilderTotalExact.EmptyFolderStaysCounted | car/car_dir_builder.go:1159-1167 | for one file beside one empty folder it is larger |
| CarEncoding.PlannedExactly | car/car.go:169-179 | the planned block sizes add up to the written bytes if and only if every identifier is version 1, and never to less |
| CarWriter.PlanIsV1File | car/car.go:158-183 | for all identifiers, the plan is the length of the file in which every identifier, the root's included, has its version 1 form |
| CarWriter.WriteBlockToCAR | car/car_dir_builder.go:1089-1130 | writes the listed block's section, fetched or regenerated; fails only when the store dropped what was just made |
| CarWriter.WriteCAR | car/car_dir_builder.go:902-925 | on success the bytes are those of a run in which nothing was ever dropped |
| CarWriter.CalculateCARSize | car/car.go:158-183 | header and planned block sizes in wrapping arithmetic, as a signed number |
| CarWriter.SizeIsExact | car/car.go:158-183 | the plan equals the length of the written file if and only if every listed identifier is version 1 |
| CarWriter.StreamCARWithSize | car/car.go:102-127 | on success the announced size is the number of bytes written, and the bytes are the summary's file |
| ReadBackSteps.EnterReads | car/car_reconstructor.go:543-615 | entering a path adds its entry, index record and listing, and nothing else |
| ReadBackSteps.ReadNode | car/car_reconstructor.go:543-651 | walking a node reads its path and, below it, everything but repeated identifiers |
| ReadBackSteps.TreeIsRead | car/car_reconstructor.go:247-334 | what reconstructTree reads of a tree's DAG |
| RoundTrip.AllReadExactly | car/car_reconstructor.go:628-632 | every entry is read back if and only if no nested entry repeats the identifier of an earlier one |
| RoundTrip.ReadEntriesAreTrue | car/car_reconstructor.go:576-615 | an entry that is read back is true of the tree, whether or not others are missing, and lists its children in the order they were met |
| RoundTrip.ReadSizesAreTrue | car/car_reconstructor.go:576-615 | and its logical size is the one the file's root node declares |
| RoundTrip.RoundTripExactly | car/car_roundtrip_test.go:52-80 | the entries come back the same if and only if nothing was pruned and no nested entry repeats an earlier one |
| RoundTrip.CleanTreeRoundTrip | car/car_roundtrip_test.go:52-80 | the documented case: without file-less directories only the second condition is left |
| RoundTrip.TwinsAreNotBothRead | car/car_reconstructor.go:628-632 | of two entries with one identifier, the later one below the root level, not both are read back, in any readable tree |
| ReadAnyDag.AnyDirectoryIsRead | car/car_reconstructor.go:268-293 | of any DAG with a directory root, every defined link of the root gets an entry under its name or its identifier's text, files listed by the virtual root; no entry is lost, renamed or misplaced |
| ReadAnyDag.EnteredSize | car/car_reconstructor.go:576-596 | entering a node gives its entry the node's identifier and declared size; an entry met again keeps its size where the node declares none |
| UnwrappedFile.FileRootIsRead | car/car_reconstructor.go:298-326 | a file at the root is read under the text of its identifier, with its declared size, and listed by the virtual root |
| UnwrappedFile.UnwrappedComesBack | car/car_roundtrip_test.go:30-80 | an unwrapped file written and read back: same root, blocks, sizes and total, the same entry but for its name; the same indexed identifiers if and only if it is one block |
| RoundTripTotals.TotalComesBackExactly | car/car_dir_builder.go:220-225 | the total read back is the announced one if and only if no directory is file-less and no block with bytes is listed twice |
| RoundTripTotals.IndexComesBackExactly | car/car_dir_builder.go:220-225 | the index read back has the identifiers of the built one if and only if no directory is file-less and every block of every file is an entry of its own |
| ReadBackIndex.ReadIndexExactly | car/car_reconstructor.go:543-651 | the index read from any tree has exactly the identifiers of its entries, those passed over and what lies below them included |
| ReadBackIndex.ReadIndexLeads | car/car_reconstructor.go:596 | an indexed identifier leads to an entry that has it, the last one read |
| Reconstructor.EnterNode | car/car_reconstructor.go:562-615 | the in-place part of walkDAG for one node |
| CarNodes.ServedAnswers | blockstore/indexed_blockstore.go:105-180 | a cache of the file's own blocks answers every identifier, indexed or not, as the file does |
| CarNodes.ArchiveProvides | car/car_reader.go:189-216 | an indexed archive provides exactly the nodes its blocks name, each with its own bytes |
| CarNodes.CarDag.Get | car/car_reader.go:214-216 | fetches a node if and only if the file has its block, whatever the cache holds |
| CarNodes.CarDag.GetSize | car/car_reconstructor.go:876-878 | the length of such a block, likewise |
| Reconstructor.WhenHeld | car/car_reconstructor.go:256-293 | a tree that can be read has the blocks of its root level; one that cannot lacks a block somewhere |
| ReadHeld.TreeHeldExactly | car/car_reconstructor.go:247-334 | any DAG can be read if and only if the block of every identifier the reader indexes is there |
| ReadHeld.EntriesSuffice | car/car_reconstructor.go:543-651 | a file tree can be read if and only if the block of every entry is there; the chunks of its files need not be |
| Reconstructor.WalkDAG | car/car_reconstructor.go:543-651 | succeeds if and only if every block the walk asks for is there, and then equals its specification |
| Reconstructor.BlockSize | car/car_reconstructor.go:872-895 | the fallback chain gives the block's length, or 0 when the block is not there |
| Reconstructor.CollectBlockMetadata | car/car_reconstructor.go:853-919 | the queue's listing of what can be fetched, with its sizes and their sum |
| Reconstructor.RebuiltBlocks | car/car_reconstructor.go:853-919 | no block twice, the total is the sum of the sizes; with every block there, exactly the breadth-first listing with true sizes |
| Reconstructor.RebuiltListing | car/car_reconstructor.go:853-919 | with any blocks missing, the listing is the order in which identifiers first occur among the links of the blocks there, each with its length, or 0 when it is missing |
| Reconstructor.ReconstructTree | car/car_reconstructor.go:247-334 | the whole summary, or none, as decided by the blocks that are there |
| CarArchive.IndexedServes | car/car_reader.go:189-192 | after indexing under any memory limit, the store serves the archive's own blocks and provides the nodes they name |
| CarArchive.ReadCAR | car/car_reader.go:185-224 | a summary decided by the file's bytes alone: the memory limit does not show in it |
| CarArchive.WrittenIsUnderstood | car/car_reader.go:185-224 | of blocks made from one DAG, a name stands for one node, so the reader's assumptions hold of a written CAR |
| CarArchive.WrittenReads | car/car_reader.go:185-224 | reading a written CAR rebuilds the tree from exactly the summary's blocks |
| CarArchive.WrittenArchive | car/car_dir_builder.go:902-925 | the written bytes are an archive of exactly the listed blocks under the summary's root |
| CarArchive.NothingMissing | car/car_dir_builder.go:1159-1167 | with a file in every root-level folder the reader finds every block it asks for |
| CarArchive.TopMissing | car/car_dir_builder.go:1042-1078 | otherwise the reader asks for the empty directory's block, which was never written |
| CarArchive.WriteThenRead | car/car_roundtrip_test.go:30-80 | building, writing and reading back within any memory limit: readable if and only if every root-level folder has a file; then same root, same blocks, and same entries, same indexed identifiers and same total under their exact conditions |
| RoundTripExample.CanBeSuitable | car/car_roundtrip_test.go:30-80 | what the round trip asks for holds of a tree with a file, for encoders, hash, header codec and index generation given here |
| RoundTripExample.RoundTripOneFile | car/car_roundtrip_test.go:30-80 | that tree comes back with its root, entries and indexed identifiers, within any memory limit |
| LevelSpec.PutKeepsInv | blockstore/level_blockstore.go:106-228 | a Put keeps every recorded parent and child list truthful and at most maxLevels cohorts |
| LevelSpec.DeleteKeepsInv | blockstore/level_blockstore.go:315-335 | so does a deletion |
| LevelStores.LevelBlockStore.RotateCohortsIfNecessary | blockstore/level_blockstore.go:200-228 | drops the lowest cohort and the levels of the blocks it knows when there are too many |
| LevelStores.LevelBlockStore.Put | blockstore/level_blockstore.go:106-197 | the whole new state, also when the new cohort is itself rotated out, as LevelRecords spells it out cohort by cohort |
| LevelStores.LevelBlockStore.GetChildren | blockstore/level_blockstore.go:257-268 | whichever cohort answers, the block's own links |
| LevelStores.LevelBlockStore.GetAncestors | blockstore/level_blockstore.go:271-302 | terminates in every state with a repetition-free chain in which each element links to the one before |
| LevelStores.LevelBlockStore.DeleteBlock | blockstore/level_blockstore.go:315-335 | the whole new state |
| LevelTheorems.EveryRunKeepsInv | blockstore/level_blockstore.go:106-335 | in every run, re-puts and deletions included, at most maxLevels cohorts and only truthful records |
| LevelRecords.PutKeys | blockstore/level_blockstore.go:118-228 | a Put leaves all cohorts and its own and adds its level, unless that is one cohort too many: then the lowest goes with the levels of the blocks it records |
| LevelRecords.PutLaw | blockstore/level_blockstore.go:106-197 | a Put, cohort by cohort: its own record and child list in its cohort, its name in the record of every child with a known level, nothing else touched |
| LevelRecords.ChildrenNameParent | blockstore/level_blockstore.go:181-194 | after a Put every child whose level is known and has a cohort is recorded there with the put block as its parent |
| LevelRecords.RotationLaw | blockstore/level_blockstore.go:200-228 | with too many cohorts the lowest goes, and just the levels of the blocks it records are forgotten |
| LevelRecords.RecordsExactly | blockstore/level_blockstore.go:106-197 | in a children-first run below the level limit every record names as parent the last put block that links to the recorded one, and none if no put block does |
| LevelRecords.AncestorsExactly | blockstore/level_blockstore.go:271-302 | so the list GetAncestors returns goes from each block to the last put block linking to it, and ends only at one that no put block links to |
| LevelRecords.LinkedHasAncestors | blockstore/level_blockstore.go:271-302 | a block that some put block links to has an ancestor list, starting with one that does |
| LevelRecords.DeleteLaw | blockstore/level_blockstore.go:315-335 | a deletion forgets the block's level, record and child list where it is recorded at its level alone, and touches nothing of any other block |
| LevelRecords.RunIsTidy | blockstore/level_blockstore.go:106-335 | in every run without re-puts exactly the live blocks are held, and every other block has no level, no record and no child list |
| LevelRecords.DeletedIsForgotten | blockstore/level_blockstore.go:315-335 | in particular a deleted block is forgotten |
| LevelRecords.CountIsHeld | blockstore/level_blockstore.go:345-352 | as long as blocks still have their levels when they are deleted, the block count is the number of live blocks |
| LevelRecords.CohortsKnowTheirLevel | blockstore/level_blockstore.go:155-165 | in every run the cohort of a level carries that level |
| LevelTheorems.LevelIsHeightExactly | blockstore/level_blockstore.go:118-139 | a Put computes a block's height if and only if it is a leaf, a highest child of it is known, or no child is known and the level before happens to fit |
| LevelTheorems.LevelsAreHeightsExactly | blockstore/level_blockstore.go:106-239 | throughout a run of Puts every block is at its height and nothing is forgotten if and only if every Put is of that kind and at most as many heights occur as cohorts are allowed |
| LevelTheorems.HeightLimitExactly | blockstore/level_blockstore.go:155-228 | with children put first, that holds at the end if and only if every block is lower than the level limit |
| LevelTheorems.RankIsHeight | blockstore/level_blockstore.go:362-380 | the height counted over defined links is the DAG height when no link is undefined |
| BlockEquality.EqualBlocks | car/car_dir_builder.go:321-361 | exactly what the two loops decide, for all inputs |
| BlockEquality.EqualExactly | car/car_dir_builder.go:321-361 | which relation that is: the same identifiers equally often, and wherever the other side lists one, the size of its last place on this side |
| BlockEquality.EqualMeansPermutation | car/car_dir_builder.go:313-361 | with one size per identifier it decides whether the lists are permutations of each other |
| BlockEquality.PermutationTestExactly | car/car_dir_builder.go:313-361 | and it decides that against every other summary only then |
| BlockEquality.ReflexiveExactly | car/car_dir_builder.go:321-361 | a summary equals itself if and only if it lists no identifier with two sizes |
| BlockEquality.EqualIsEquivalence | car/car_dir_builder.go:321-361 | an equivalence relation on such summaries |
| BlockEquality.BuildsAreEqual | car/car_dir_builder.go:321-361 | two builds of the same tree compare equal, however they were ordered |
| HeaderMatching.Matches | internal/carv2/car.go:235-266 | as many roots, each of the receiver's among the other's |
| HeaderMatching.MatchesExactly | internal/carv2/car.go:228-266 | the same roots in any order, against every header, if and only if the receiver repeats none |
| HeaderMatching.MatchesIsNotSymmetric | internal/carv2/car.go:252-257 | with a repeated root it can hold one way only |

## Left out

- ReadCAR: the CARv2 container is not modelled, and the go-car library's CARv1 reader is taken to read as the one in internal/carv2 does; its index generation is a parameter.
- IndexAll: the index is what a parameter makes of the whole file, so a reader that does not stand at its start is not distinguished.
- WriteCAR: write errors of the output and context cancellation are not modelled; the only failures are blocks that a store dropped between making and fetching them.
- StreamCARWithSize: stated for generators that only make version 1 identifiers, as this one does; SizeIsExact says what happens with others.
- IndexComesBackExactly: compares the identifiers of the two indices, not which entry each names when several share a block; of the one read back `ReadIndexLeads` says which.
- Chunk sizes: the builder records its own chunk size with every file, which nothing here reads.
- BuildSummary: a file system whose "." is itself a file is not modelled, because its entry has the key "." and some other name; open and read errors of files are not modelled either; a file is given by the DAG its content chunks to.
- IndexedBlockstore.Get runs sequentially here; nothing is said about concurrent calls.
- Mutexes, goroutines and `AllKeysChan`: sequential operations only.
- `levelsSeen` and `pendingChildren` of the level store are never read and are not modelled; `Len` is the model's `blockCount`.
- `ReadNodeHeader`, `ReadHeaderAt`: variants of the readers that are modelled.
- `equalTreeEntries`, `TotalLogicalFileSize`, `GetFileTree`, `GetDirectoryTree`: plain traversals of finished maps.
- Chunking, balanced layout, dag-pb, UnixFS and CBOR encoding, SHA-256: library code, parameters here.
- Archive detection and extraction, mimetypes, path validation, HTTP, retry and file-system wrappers: separate packages without part in the promises above.
