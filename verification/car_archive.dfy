/** ReadCAR of car/car_reader.go, and what is left of a tree after writing it and reading it back. */
module CarArchive {
  import opened Base
  import opened Varint
  import C = Cids
  import opened Framing
  import opened CarReaders
  import opened CarStreamTheorems
  import opened CarEncoding
  import opened CarWriter
  import LruSpec
  import opened IndexedSpec
  import opened IndexedBlockstores
  import I = IndexedTheorems
  import opened IndexedArchives
  import opened CarNodes
  import opened Dag
  import opened FsTrees
  import opened Bfs
  import opened TreeSummaries
  import opened BuilderSteps
  import opened BuilderPrune
  import opened BuilderWalk
  import opened BuilderResult
  import opened BuilderTotals
  import opened BuilderIndex
  import opened BuilderTotalExact
  import opened BuilderTheorems
  import opened Collect
  import opened Builder
  import opened ReadBack
  import opened ReadBackSteps
  import opened RoundTrip
  import opened RoundTripTotals
  import opened Reconstructor

  // ---------------------------------------------------------------- reading

  /** The file can be read to its end. */
  ghost predicate Archive(d: Bytes, hc: HeaderCodec, cfg: Config, h: CarHeader, bs: seq<C.Block>) {
    LoadResult(d, 0, hc, cfg) == Ok(h) && LoadBlocks(d, 0, hc, cfg) == bs
  }

  /** Of a file that can be read to its end, index generation gives the right index. */
  ghost predicate IndexedRight(indexer: Indexer, d: Bytes, hc: HeaderCodec, cfg: Config) {
    match OpenAt(d, 0, hc, MAX_HEADER)
    case Failed(_) => true
    case Parsed(_, q) =>
      OpenAdvances(d, 0, hc, MAX_HEADER);
      BlocksFrom(d, q, cfg).1 == Eof ==> indexer(d).Ok? && Indexes(indexer(d).value, d, q, cfg)
  }

  /** Index generation by scanning the file. */
  function ScanIndexer(hc: HeaderCodec, cfg: Config): Indexer {
    (d: Bytes) =>
      if |d| >= TWO_64 then Err(SectionTooLarge)
      else match OpenAt(d, 0, hc, MAX_HEADER)
        case Failed(e) => Err(e)
        case Parsed(_, q) =>
          OpenAdvances(d, 0, hc, MAX_HEADER);
          Ok(ScanIndex(d, q, cfg))
  }

  /** There is index generation that is right for every file a reader can seek in. */
  lemma ScanIndexerIsRight(d: Bytes, hc: HeaderCodec, cfg: Config)
    requires |d| < TWO_63
    ensures IndexedRight(ScanIndexer(hc, cfg), d, hc, cfg)
  {
    hide OpenAt, BlocksFrom, ScanIndex, Indexes;
    OpenAdvances(d, 0, hc, MAX_HEADER);
    match OpenAt(d, 0, hc, MAX_HEADER)
    case Failed(_) =>
    case Parsed(_, q) => ScanIndexes(d, q, cfg);
  }

  lemma LoadedHasRoots(d: Bytes, hc: HeaderCodec, cfg: Config)
    ensures LoadResult(d, 0, hc, cfg).Ok? ==> LoadResult(d, 0, hc, cfg).value.roots != []
  {
    hide BlocksFrom;
  }

  /** What ReadCAR returns: decided by the file alone. */
  ghost function ReadResult(d: Bytes, hc: HeaderCodec, cfg: Config, enc: Encoding, dec: Decoding, text: Renderer): Option<Summary> {
    LoadedHasRoots(d, hc, cfg);
    match LoadResult(d, 0, hc, cfg)
    case Err(_) => None
    case Ok(h) => Rebuilt(HeldBy(enc, dec, LoadBlocks(d, 0, hc, cfg)), dec.cid(h.roots[0]), enc, text)
  }

  /**
   * The file's root names a node, decoding undoes encoding on everything reachable from it, blocks named after those nodes
   * hold their bytes, and no two blocks share a name: what hashing gives as long as no two of these blocks collide.
   */
  ghost predicate Understood(d: Bytes, hc: HeaderCodec, cfg: Config, enc: Encoding, dec: Decoding) {
    LoadedHasRoots(d, hc, cfg);
    match LoadResult(d, 0, hc, cfg)
    case Err(_) => true
    case Ok(h) => RootUnderstood(enc, dec, h.roots[0], LoadBlocks(d, 0, hc, cfg))
  }

  ghost predicate RootUnderstood(enc: Encoding, dec: Decoding, name: C.Cid, bs: seq<C.Block>) {
    var known := Reach(dec.cid(name));
    enc.cid(dec.cid(name)) == name && Inverse(dec, enc, known) && Addressed(enc, known, bs) && Consistent(bs)
  }

  /** After indexing, the store serves the archive's blocks and provides exactly the nodes they name. */
  lemma IndexedServes(d: Bytes, indexer: Indexer, limit: uint64, hc: HeaderCodec, cfg: Config, enc: Encoding, dec: Decoding)
    requires |d| < TWO_63 && cfg.maxSection <= MAX_RELOAD && Understood(d, hc, cfg, enc, dec)
    requires IndexedRight(indexer, d, hc, cfg) && LoadResult(d, 0, hc, cfg).Ok?
    ensures indexer(d).Ok? && LoadResult(d, 0, hc, cfg).value.roots != []
    ensures var car, bs := I.Car(d, indexer(d).value), LoadBlocks(d, 0, hc, cfg);
            var known := Reach(dec.cid(LoadResult(d, 0, hc, cfg).value.roots[0]));
            && Provides(car, enc, known, HeldBy(enc, dec, bs)) && AllServed(car, LruSpec.PutMany([], limit, bs))
            && Inverse(dec, enc, known)
  {
    LoadedHasRoots(d, hc, cfg);
    OpenAdvances(d, 0, hc, MAX_HEADER);
    var q := OpenAt(d, 0, hc, MAX_HEADER).next;
    var known := Reach(dec.cid(LoadResult(d, 0, hc, cfg).value.roots[0]));
    hide OpenAt, BlocksFrom, Indexes, Inverse, Addressed, Consistent, Provides, HeldBy, Served, Reach, LruSpec.PutMany;
    ArchiveProvides(d, indexer(d).value, q, cfg, enc, dec, known);
    PutManyServed([], limit, I.Car(d, indexer(d).value), LoadBlocks(d, 0, hc, cfg));
  }

  /** Reads a CAR file with at most `memoryLimit` bytes of blocks in memory; the limit does not show in the result. */
  method ReadCAR(
    r: ByteReader, memoryLimit: uint64, indexer: Indexer, hc: HeaderCodec, cfg: Config, enc: Encoding, dec: Decoding, text: Renderer)
    returns (res: Option<TreeSummary>)
    requires r.Valid() && r.pos == 0 && |r.data| < TWO_63 && cfg.maxSection <= MAX_RELOAD
    requires Understood(r.data, hc, cfg, enc, dec) && IndexedRight(indexer, r.data, hc, cfg)
    modifies r
    ensures res.Some? <==> ReadResult(r.data, hc, cfg, enc, dec, text).Some?
    ensures res.Some? ==> fresh(res.value) && Some(res.value.Value()) == ReadResult(r.data, hc, cfg, enc, dec, text)
  {
    hide Inverse, Understood, IndexedRight, Provides, AllServed, HeldBy, Rebuilt, CarDag.Valid, LruSpec.PutMany, OpenAt, BlocksFrom,
      LoadBlocks, Reach;
    LoadedHasRoots(r.data, hc, cfg);
    var store := new IndexedBlockstore(memoryLimit, r);
    if LoadResult(r.data, 0, hc, cfg).Ok? {
      IndexedServes(r.data, indexer, memoryLimit, hc, cfg, enc, dec);
    }
    var indexed := store.IndexAll(indexer, hc, cfg);
    if indexed.Err? {
      return None;
    }
    var _ := r.Seek(0);
    var header := ReadHeader(r, hc, MAX_HEADER);
    HeaderOfLoaded(r.data, hc, cfg);
    if header.Err? {
      return None;
    }
    var root := dec.cid(header.value.roots[0]);
    var dag := new CarDag(
      store, enc, dec, I.Car(r.data, indexer(r.data).value), Reach(root), HeldBy(enc, dec, LoadBlocks(r.data, 0, hc, cfg)));
    res := ReconstructTree(dag, root, text);
  }

  lemma HeaderOfLoaded(d: Bytes, hc: HeaderCodec, cfg: Config)
    ensures LoadResult(d, 0, hc, cfg).Ok? ==> HeaderAt(d, 0, hc, MAX_HEADER).Parsed?
    ensures LoadResult(d, 0, hc, cfg).Ok? ==> HeaderAt(d, 0, hc, MAX_HEADER).value == LoadResult(d, 0, hc, cfg).value
  {
    hide BlocksFrom, HeaderAt;
  }

  // ---------------------------------------------------------------- writing, then reading

  /** With a file in every root-level folder, the written blocks are all the reader needs. */
  lemma NothingMissing(t: FsTree, wrapInDir: bool, size: Sizer, enc: Encoding, s: Summary)
    requires Ready(t, wrapInDir, size, enc, s) && RootFoldersHaveFiles(t)
    ensures Complete(Elements(s.blockOrder), s.rootCid) && !Missing(Elements(s.blockOrder), s.rootCid)
  {
    ReadyBlocks(t, wrapInDir, size, enc, s);
    IsBuilt(t, wrapInDir, size, enc, s);
    hide Ready, Built, RootFoldersHaveFiles, Reach, WellFormed, NoRootName;
    SelfContainedExactly(t, wrapInDir, size, s);
    DefinedElements(s.blockOrder);
  }

  lemma IsBuilt(t: FsTree, wrapInDir: bool, size: Sizer, enc: Encoding, s: Summary)
    requires Ready(t, wrapInDir, size, enc, s)
    ensures WellFormed(t) && NoRootName(t) && t.Folder? && Built(t, wrapInDir, size, s)
  {
  }

  lemma DefinedElements(cs: seq<Cid>)
    requires AllDefined(cs)
    ensures Undef !in Elements(cs)
  {
  }

  lemma EmptiedLink(t: FsTree, n: string) returns (i: nat)
    requires WellFormed(t) && t.Folder? && Child(t, n).Some? && !HasFile(Child(t, n).value)
    ensures i < |TreeNode(PruneRoot(t)).links| && TreeNode(PruneRoot(t)).links[i].cid == EMPTY_DIR
  {
    var u, sub := PruneRoot(t), Child(t, n).value;
    FindInPrunedBelow(t.kids, n);
    FilelessPrunesToNothing(sub.kids);
    assert Prune(sub) == Folder([]) && KidLinks([]) == [] && TreeCid(Folder([])) == EMPTY_DIR;
    PruneRootWellFormed(t);
    FolderLinks(u, Link(n, EMPTY_DIR));
    i :| 0 <= i < |TreeNode(u).links| && TreeNode(u).links[i] == Link(n, EMPTY_DIR);
  }

  /** Without a file in some root-level folder, the reader asks for a block that was never written. */
  lemma TopMissing(t: FsTree, size: Sizer, order: seq<Path>, gone: set<Path>, s: Summary)
    requires WellFormed(t) && NoRootName(t) && t.Folder? && Finished(t, size, order, gone, s) && !RootFoldersHaveFiles(t)
    ensures !TopHeld(Elements(s.blockOrder), s.rootCid)
  {
    var n :| Child(t, n).Some? && !HasFile(Child(t, n).value);
    NotSelfContained(t, size, order, gone, s, n);
    var i := EmptiedLink(t, n);
    FinishedRoot(t, size, order, gone, s);
    assert s.rootCid == Of(TreeNode(PruneRoot(t)));
    assert s.rootCid.node.links[i].cid == EMPTY_DIR;
  }

  /** What the reader must accept of a written archive: the header within its limit, every block within the configuration. */
  ghost predicate Accepts(enc: Encoding, hc: HeaderCodec, cfg: Config, s: Summary) {
    && AllDefined(s.blockOrder) && Writable(enc, hc, s.rootCid, s.blockOrder)
    && Lossless(hc, HeaderOf(enc, s.rootCid)) && |hc.encode(HeaderOf(enc, s.rootCid))| <= MAX_HEADER
    && AllReadable(cfg, BlocksOf(enc, s.blockOrder))
    && |CarFile(enc, hc, s.rootCid, s.blockOrder)| < TWO_63
  }

  /** The bytes WriteCAR emits are an archive of exactly the listed blocks under the summary's root. */
  lemma WrittenArchive(enc: Encoding, hc: HeaderCodec, cfg: Config, s: Summary)
    requires AllDefined(s.blockOrder) && Accepts(enc, hc, cfg, s)
    ensures Archive(CarFile(enc, hc, s.rootCid, s.blockOrder), hc, cfg, HeaderOf(enc, s.rootCid), BlocksOf(enc, s.blockOrder))
  {
    hide OpenAt, BlocksFrom, Lossless;
    Powers();
    CarRoundTrip(hc, HeaderOf(enc, s.rootCid), BlocksOf(enc, s.blockOrder), MAX_HEADER, cfg);
  }

  /** Among blocks made of known nodes, a name stands for one node. */
  lemma WrittenIsUnderstood(enc: Encoding, dec: Decoding, root: Cid, cs: seq<Cid>)
    requires AllDefined(cs) && Elements(cs) <= Reach(root) && Inverse(dec, enc, Reach(root))
    ensures HeaderOf(enc, root).roots != [] && dec.cid(HeaderOf(enc, root).roots[0]) == root
    ensures RootUnderstood(enc, dec, HeaderOf(enc, root).roots[0], BlocksOf(enc, cs))
    ensures Inverse(dec, enc, Elements(cs))
  {
    assert root in Reach(root);
    hide Reach;
    var bs := BlocksOf(enc, cs);
    forall i | 0 <= i < |bs| ensures cs[i] in Reach(root) && dec.cid(bs[i].cid) == cs[i] && bs[i].data == enc.raw(cs[i].node) {
      assert cs[i] in Elements(cs) && bs[i] == BlockOf(enc, cs[i]);
    }
    forall i, c | 0 <= i < |bs| && c in Reach(root) && bs[i].cid == enc.cid(c) ensures c == cs[i] {
      assert dec.cid(enc.cid(c)) == c;
    }
    forall i, j | 0 <= i < |bs| && 0 <= j < |bs| && bs[i].cid == bs[j].cid ensures bs[i] == bs[j] {
      assert cs[i] == cs[j];
    }
  }

  /** So reading a written archive rebuilds the tree from exactly the summary's blocks. */
  lemma WrittenReads(enc: Encoding, dec: Decoding, hc: HeaderCodec, cfg: Config, text: Renderer, s: Summary)
    requires AllDefined(s.blockOrder) && Accepts(enc, hc, cfg, s)
    requires Elements(s.blockOrder) <= Reach(s.rootCid) && Inverse(dec, enc, Reach(s.rootCid))
    ensures Understood(CarFile(enc, hc, s.rootCid, s.blockOrder), hc, cfg, enc, dec)
    ensures ReadResult(CarFile(enc, hc, s.rootCid, s.blockOrder), hc, cfg, enc, dec, text)
         == Rebuilt(Elements(s.blockOrder), s.rootCid, enc, text)
  {
    hide Accepts, CarFile, HeaderOf, Inverse, RootUnderstood, Rebuilt, HeldBy, BlocksOf, AllDefined, Elements, LoadResult, LoadBlocks, Reach;
    WrittenArchive(enc, hc, cfg, s);
    WrittenIsUnderstood(enc, dec, s.rootCid, s.blockOrder);
    WrittenIsHeld(enc, dec, s.blockOrder);
  }

  /** What writing a tree and reading it back preserves, and when. */
  ghost predicate CameBack(t: FsTree, size: Sizer, built: Summary, read: Option<Summary>) {
    && (read.Some? <==> RootFoldersHaveFiles(t))
    && (read.Some? ==>
          && read.value.rootCid == built.rootCid
          && Elements(read.value.blockOrder) == Elements(built.blockOrder)
          && (SameEntries(built.entries, read.value.entries) <==> NothingPruned(t) && NoEarlierTwin(PruneRoot(t)))
          && (read.value.cidToEntry.Keys == built.cidToEntry.Keys <==> (forall p :: !Emptied(t, p)) && FilesAreEntries(t))
          && (DirSizer(size) ==> TotalCameBack(t, size, built, read.value)))
  }

  ghost predicate TotalCameBack(t: FsTree, size: Sizer, built: Summary, read: Summary) {
    && read.totalSize <= built.totalSize
    && (read.totalSize == built.totalSize <==> (forall p :: !Emptied(t, p)) && RepeatsAreEmpty(size, built.blockOrder))
  }

  lemma TotalsCompared(t: FsTree, size: Sizer, order: seq<Path>, gone: set<Path>, s: Summary, read: Summary)
    requires WellFormed(t) && NoRootName(t) && t.Folder? && Finished(t, size, order, gone, s)
    requires Unpruned(t, size, s.totalSize) && RootFoldersHaveFiles(t)
    requires read.totalSize == Sum(SizesOf(size, BlockList(s.rootCid)))
    ensures DirSizer(size) ==> TotalCameBack(t, size, s, read)
  {
    hide Finished, Unpruned, DirSizer, RootFoldersHaveFiles, WellFormed, NoRootName, Sum, SizesOf, BlockList, Emptied, RepeatsAreEmpty;
    if DirSizer(size) {
      TotalComesBackExactly(t, size, order, gone, s);
    }
  }

  lemma BuiltOrders(t: FsTree, size: Sizer, s: Summary) returns (order: seq<Path>, gone: set<Path>)
    requires Built(t, true, size, s)
    ensures Finished(t, size, order, gone, s)
  {
    order, gone :| Finished(t, size, order, gone, s);
  }

  lemma ReadComesBack(t: FsTree, size: Sizer, enc: Encoding, text: Renderer, s: Summary)
    requires Ready(t, true, size, enc, s) && ReadBackSteps.Readable(t) && s.rootCid.Of? && Unpruned(t, size, s.totalSize)
    requires IndexesListed(t, s)
    requires Rebuilt(Elements(s.blockOrder), s.rootCid, enc, text).Some? && RootFoldersHaveFiles(t)
    ensures CameBack(t, size, s, Rebuilt(Elements(s.blockOrder), s.rootCid, enc, text))
  {
    hide Finished, Built, Ready, Reach, NothingPruned, NoEarlierTwin, SameEntries, ReadTree, BlockList, Unpruned, DirSizer, Sum, SizesOf,
      RootFoldersHaveFiles, WellFormed, NoRootName, TotalCameBack, Rebuilt, IndexesListed, FilesAreEntries, Emptied, ReadBackSteps.Readable,
      PruneRoot, Elements, Complete;
    IsBuilt(t, true, size, enc, s);
    RawSizes(t, true, size, enc, s);
    var order, gone := BuiltOrders(t, size, s);
    NothingMissing(t, true, size, enc, s);
    RebuiltParts(Elements(s.blockOrder), s.rootCid, enc, text);
    RebuiltBlocks(Elements(s.blockOrder), s.rootCid, enc, size, text);
    SelfContainedExactly(t, true, size, s);
    BlockListExact(s.rootCid);
    RoundTripExactly(t, size, order, gone, s, text);
    IndexComesBackExactly(t, size, order, gone, s, text);
    TotalsCompared(t, size, order, gone, s, Rebuilt(Elements(s.blockOrder), s.rootCid, enc, text).value);
  }

  lemma RawSizes(t: FsTree, wrapInDir: bool, size: Sizer, enc: Encoding, s: Summary)
    requires Ready(t, wrapInDir, size, enc, s)
    ensures forall n :: size(n) == |enc.raw(n)|
  {
  }

  lemma RebuiltParts(held: set<Cid>, root: Cid, enc: Encoding, text: Renderer)
    requires Rebuilt(held, root, enc, text).Some?
    ensures root.Of? && Rebuilt(held, root, enc, text).value.rootCid == root
    ensures Rebuilt(held, root, enc, text).value.entries == ReadTree(root, text).entries
    ensures Rebuilt(held, root, enc, text).value.cidToEntry == ReadTree(root, text).cidToEntry
  {
  }

  /** What comes back is decided by the tree: whether it can be read at all, and then what of it is the same. */
  lemma WhatComesBack(t: FsTree, size: Sizer, enc: Encoding, text: Renderer, s: Summary)
    requires Ready(t, true, size, enc, s) && ReadBackSteps.Readable(t) && s.rootCid.Of? && Unpruned(t, size, s.totalSize)
    requires IndexesListed(t, s)
    ensures CameBack(t, size, s, Rebuilt(Elements(s.blockOrder), s.rootCid, enc, text))
  {
    IsBuilt(t, true, size, enc, s);
    var order, gone :| Finished(t, size, order, gone, s);
    hide Finished, Built, Ready, Reach, Complete, TopHeld, RootFoldersHaveFiles, Unpruned, WellFormed, NoRootName, Missing, TreeHeld,
      IndexesListed;
    WhenHeld(Elements(s.blockOrder), s.rootCid, text);
    if RootFoldersHaveFiles(t) {
      NothingMissing(t, true, size, enc, s);
      ReadComesBack(t, size, enc, text, s);
    } else {
      TopMissing(t, size, order, gone, s);
    }
  }

  /**
   * What the round trip asks of the encoders, the hash, the header codec and index generation: that they are right about this
   * tree's blocks, about its header, and about files of any length a reader can seek in.
   */
  ghost predicate Suitable(
    t: FsTree, size: Sizer, indexer: Indexer, enc: Encoding, dec: Decoding, hc: HeaderCodec, cfg: Config) {
    && Inverse(dec, enc, Reach(TreeCid(PruneRoot(t))))
    && (forall n :: size(n) == |enc.raw(n)|)
    && (forall d :: |d| < TWO_63 ==> IndexedRight(indexer, d, hc, cfg))
    && cfg.maxSection <= MAX_RELOAD
    && forall s: Summary :: Built(t, true, size, s) && AllDefined(s.blockOrder) ==> Accepts(enc, hc, cfg, s)
  }

  lemma SuitableParts(
    t: FsTree, size: Sizer, indexer: Indexer, enc: Encoding, dec: Decoding, hc: HeaderCodec, cfg: Config, s: Summary)
    requires Suitable(t, size, indexer, enc, dec, hc, cfg) && Built(t, true, size, s)
    ensures Inverse(dec, enc, Reach(TreeCid(PruneRoot(t)))) && cfg.maxSection <= MAX_RELOAD
    ensures forall n :: size(n) == |enc.raw(n)|
    ensures forall d :: |d| < TWO_63 ==> IndexedRight(indexer, d, hc, cfg)
    ensures AllDefined(s.blockOrder) ==> Accepts(enc, hc, cfg, s)
  {
    hide Inverse, IndexedRight, Accepts, Built;
  }

  /** Of a built summary: its root is the tree's, and what it lists is reachable from there. */
  lemma ListedIsReachable(t: FsTree, size: Sizer, enc: Encoding, s: Summary)
    requires Ready(t, true, size, enc, s)
    ensures s.rootCid.Of? && s.rootCid == TreeCid(PruneRoot(t)) && Elements(s.blockOrder) <= Reach(s.rootCid)
  {
    IsBuilt(t, true, size, enc, s);
    var order, gone :| Finished(t, size, order, gone, s);
    hide Finished, WellFormed, NoRootName, PruneRoot, Reach, Elements, Ready, Built;
    FinishedRoot(t, size, order, gone, s);
    RootDefined(t, true, size, s);
    ListedWithinReach(t, size, order, gone, s);
  }

  /** Builds a summary, writes the CAR, and reads it back within any memory limit: what comes back is decided by the tree alone. */
  method WriteThenRead(
    b: CarBuilder, t: FsTree, memoryLimit: uint64, indexer: Indexer, enc: Encoding, dec: Decoding, hc: HeaderCodec, cfg: Config,
    text: Renderer)
    returns (built: Option<TreeSummary>, read: Option<TreeSummary>)
    requires ReadBackSteps.Readable(t) && Suitable(t, b.size, indexer, enc, dec, hc, cfg)
    modifies b, b.store
    ensures b.store.roomy ==> built.Some?
    ensures built.Some? ==> Built(t, true, b.size, built.value.Value())
    ensures built.Some? ==> CameBack(t, b.size, built.value.Value(), if read.Some? then Some(read.value.Value()) else None)
  {
    hide Built, Ready, Accepts, CarFile, HeaderOf, Inverse, Suitable, CameBack, Elements, AllDefined, IndexedRight, ReadResult, Understood,
      Rebuilt, IndexesListed, WellFormed, NoRootName, NamedEntries, Unpruned, Tallied, SoleFile, Reach, PruneRoot, TreeCid;
    read := None;
    built := b.BuildSummary(t, true);
    if built.None? {
      return;
    }
    ghost var v := built.value.Value();
    SuitableParts(t, b.size, indexer, enc, dec, hc, cfg, v);
    IsReady(t, true, b.size, enc, v);
    ReadyBlocks(t, true, b.size, enc, v);
    AcceptsFits(enc, hc, cfg, v);
    ListedIsReachable(t, b.size, enc, v);
    var w := new ByteWriter();
    var written := WriteCAR(b, w, enc, hc, true);
    if written.Err? {
      return None, None;
    }
    assert [] + CarFile(enc, hc, v.rootCid, v.blockOrder) == CarFile(enc, hc, v.rootCid, v.blockOrder);
    WrittenReads(enc, dec, hc, cfg, text, v);
    WhatComesBack(t, b.size, enc, text, v);
    var r := new ByteReader(w.out);
    read := ReadCAR(r, memoryLimit, indexer, hc, cfg, enc, dec, text);
    assert built.value.Value() == v;
  }

  lemma AcceptsFits(enc: Encoding, hc: HeaderCodec, cfg: Config, s: Summary)
    requires AllDefined(s.blockOrder) && Accepts(enc, hc, cfg, s)
    ensures Writable(enc, hc, s.rootCid, s.blockOrder) && |CarFile(enc, hc, s.rootCid, s.blockOrder)| < TWO_63
  {
  }

  lemma RootDefined(t: FsTree, wrapInDir: bool, size: Sizer, s: Summary)
    requires Built(t, wrapInDir, size, s)
    ensures s.rootCid.Of?
  {
    RootIsMerkleRoot(t, wrapInDir, size, s);
  }
}
