/** The second pass of car/car_dir_builder.go and the size calculation of car/car.go. */
module CarWriter {
  import opened Base
  import opened Varint
  import C = Cids
  import opened Framing
  import opened CarReaders
  import opened CarStreamTheorems
  import opened CarEncoding
  import opened Dag
  import opened FsTrees
  import opened Bfs
  import opened TreeSummaries
  import opened BuilderSteps
  import opened BuilderRehash
  import opened BuilderWalk
  import opened BuilderResult
  import opened BuilderTotals
  import opened BuilderTheorems
  import opened Builder

  datatype WriteError =
    | NotBuilt
    | NotInSummary
    | OpenFailed
    | RegenerationFailed
    | FetchFailed
    | Write(error: IoError)

  /** What the second pass relies on: the summary is the one the first pass built for the tree it reads again. */
  ghost predicate Ready(t: FsTree, wrapInDir: bool, size: Sizer, enc: Encoding, s: Summary) {
    && t.Folder? && WellFormed(t) && NoRootName(t) && Built(t, wrapInDir, size, s)
    && forall n :: size(n) == |enc.raw(n)|
  }

  lemma ReadyBlocks(t: FsTree, wrapInDir: bool, size: Sizer, enc: Encoding, s: Summary)
    requires Ready(t, wrapInDir, size, enc, s)
    ensures AllDefined(s.blockOrder) && Sized(s, size)
  {
    if !wrapInDir && SoleFile(t).Some? {
      forall i | 0 <= i < |s.blockOrder| ensures s.blockOrder[i].Of? {
        assert FileHit(s, s.blockOrder[i]);
      }
    } else {
      var order, gone :| Finished(t, size, order, gone, s);
      FinishedIsSized(t, size, order, gone, s);
      hide Finished, WellFormed, NoRootName, WalkBlocks, KeptDir, FinalCid;
      WalkBlocksAreFiles(t);
      forall i | 0 <= i < |s.blockOrder| ensures s.blockOrder[i].Of? {
        ListedBlocks(t, size, order, gone, s, s.blockOrder[i]);
        FinalIsDefined(t);
      }
    }
  }

  lemma FinishedIsSized(t: FsTree, size: Sizer, order: seq<Path>, gone: set<Path>, s: Summary)
    requires Finished(t, size, order, gone, s)
    ensures Sized(s, size)
  {
  }

  lemma FinalIsDefined(t: FsTree)
    ensures forall p :: FinalCid(t, p).Of?
  {
  }

  lemma ReadyBlock(t: FsTree, wrapInDir: bool, size: Sizer, enc: Encoding, s: Summary, c: Cid)
    requires Ready(t, wrapInDir, size, enc, s) && c in s.blockOrder
    ensures Recreates(t, s, c) && WellFormed(t)
  {
    EveryBlockRecreates(t, wrapInDir, size, s, c);
  }

  /** The tree whose skeleton the finished entries follow. */
  ghost function EntryTree(t: FsTree, wrapInDir: bool): FsTree {
    if !wrapInDir && SoleFile(t).Some? then t else PruneRoot(t)
  }

  lemma ReadyEntries(t: FsTree, wrapInDir: bool, size: Sizer, enc: Encoding, s: Summary)
    requires Ready(t, wrapInDir, size, enc, s)
    ensures Skeleton(EntryTree(t, wrapInDir), {}, s.entries)
  {
    if !wrapInDir && SoleFile(t).Some? {
      WalkedSkeleton(t);
    } else {
      var order, gone :| Finished(t, size, order, gone, s);
    }
  }

  /** Hashing the entry of a listed directory once more gives the very identifier that was asked for. */
  lemma DirectoryComesBack(t: FsTree, wrapInDir: bool, size: Sizer, enc: Encoding, s: Summary, c: Cid, links: seq<Link>)
    requires Ready(t, wrapInDir, size, enc, s) && c in s.blockOrder && Recreates(t, s, c)
    requires s.entries[s.cidToEntry[c]].isDir && LinksExactly(s.entries, s.cidToEntry[c], links)
    ensures Of(Directory(SortLinks(links))) == c
  {
    hide FilesIndexed;
    if !wrapInDir && SoleFile(t).Some? {
      SoleFileHit(t, size, enc, s, c);
    } else {
      var order, gone :| Finished(t, size, order, gone, s);
      RehashIsStable(t, size, order, gone, s, s.cidToEntry[c], links);
    }
  }

  lemma SoleFileHit(t: FsTree, size: Sizer, enc: Encoding, s: Summary, c: Cid)
    requires Ready(t, false, size, enc, s) && SoleFile(t).Some? && c in s.blockOrder
    ensures FileHit(s, c)
  {
  }

  /** Writes one block, from the store if it is still there and regenerated from its entry if not. */
  method WriteBlockToCAR(b: CarBuilder, s: TreeSummary, c: Cid, w: ByteWriter, enc: Encoding, ghost wrapInDir: bool)
    returns (r: Result<(), WriteError>)
    requires Ready(b.filesystem, wrapInDir, b.size, enc, s.Value()) && c in s.blockOrder && c.Of?
    requires |Payload(BlockOf(enc, c))| < Pow128(8)
    modifies b.store, w
    ensures r.Ok? ==> w.out == old(w.out) + Section(BlockOf(enc, c))
    ensures r.Err? ==> (r.error == RegenerationFailed || r.error == FetchFailed) && w.out == old(w.out)
    ensures b.store.roomy ==> r.Ok?
  {
    hide Ready, Payload, Section, Skeleton, LinksExactly;
    ReadyBlock(b.filesystem, wrapInDir, b.size, enc, s.Value(), c);
    var node := b.store.Get(c);
    if node.Some? {
      var _ := EmitBlock(w, enc, c, node.value);
      return Ok(());
    }
    if c !in s.cidToEntry || s.cidToEntry[c] !in s.entries {
      return Err(NotInSummary);
    }
    var entry := s.entries[s.cidToEntry[c]];
    if entry.isDir {
      ReadyEntries(b.filesystem, wrapInDir, b.size, enc, s.Value());
      var dirCid, _, links := b.CreateDirectoryBlock(entry, s.entries, EntryTree(b.filesystem, wrapInDir), s.cidToEntry[c]);
      DirectoryComesBack(b.filesystem, wrapInDir, b.size, enc, s.Value(), c, links);
    } else {
      var file := Lookup(b.filesystem, entry.path + [entry.name]);
      if file.None? || file.value.Folder? {
        return Err(OpenFailed);
      }
      LookupWellFormed(b.filesystem, entry.path + [entry.name]);
      assert TreeCid(file.value) == Of(file.value.dag);
      var blocks := b.CreateUnixFSBlocks(file.value.dag);
      if blocks.None? {
        return Err(RegenerationFailed);
      }
    }
    node := b.store.Get(c);
    if node.None? {
      return Err(FetchFailed);
    }
    var _ := EmitBlock(w, enc, c, node.value);
    return Ok(());
  }

  method EmitBlock(w: ByteWriter, enc: Encoding, c: Cid, node: Node) returns (r: Result<(), IoError>)
    requires c == Of(node) && |Payload(BlockOf(enc, c))| < Pow128(8)
    modifies w
    ensures r.Ok? && w.out == old(w.out) + Section(BlockOf(enc, c))
  {
    r := WriteBlock(w, enc.cid(c), enc.raw(node));
  }

  /** Pass two. Between any two blocks the store may drop whatever it likes. */
  method WriteCAR(b: CarBuilder, w: ByteWriter, enc: Encoding, hc: HeaderCodec, ghost wrapInDir: bool) returns (r: Result<(), WriteError>)
    requires b.summary != null ==> Ready(b.filesystem, wrapInDir, b.size, enc, b.summary.Value())
    requires b.summary != null && AllDefined(b.summary.blockOrder) ==> Writable(enc, hc, b.summary.rootCid, b.summary.blockOrder)
    modifies b.store, w
    ensures b.summary == null ==> r == Err(NotBuilt)
    ensures b.summary != null && r.Ok? ==>
              AllDefined(b.summary.blockOrder) &&
              w.out == old(w.out) + CarFile(enc, hc, b.summary.rootCid, b.summary.blockOrder)
    ensures b.summary != null && r.Err? ==> r.error == RegenerationFailed || r.error == FetchFailed
    ensures b.summary != null && b.store.roomy ==> r.Ok?
  {
    if b.summary == null {
      return Err(NotBuilt);
    }
    hide Ready, CarFile, HeaderOf, Built, Writable;
    ReadyBlocks(b.filesystem, wrapInDir, b.size, enc, b.summary.Value());
    r := WriteAll(b, b.summary, w, enc, hc, wrapInDir);
  }

  /** The header, then one section after the other. */
  method WriteAll(b: CarBuilder, s: TreeSummary, w: ByteWriter, enc: Encoding, hc: HeaderCodec, ghost wrapInDir: bool)
    returns (r: Result<(), WriteError>)
    requires Ready(b.filesystem, wrapInDir, b.size, enc, s.Value()) && AllDefined(s.blockOrder)
    requires Writable(enc, hc, s.rootCid, s.blockOrder)
    modifies b.store, w
    ensures r.Ok? ==> w.out == old(w.out) + CarFile(enc, hc, s.rootCid, s.blockOrder)
    ensures r.Err? ==> r.error == RegenerationFailed || r.error == FetchFailed
    ensures b.store.roomy ==> r.Ok?
  {
    hide Ready, Section, Frame, Payload, Stream, CarFile, HeaderOf, Built;
    var _ := WriteHeader(HeaderOf(enc, s.rootCid), w, hc);
    ghost var written := w.out;
    ghost var blocks := BlocksOf(enc, s.blockOrder);
    NothingPlanned();
    for i := 0 to |s.blockOrder|
      invariant w.out == written + Stream(blocks[..i])
    {
      b.store.Evict();
      var one := WriteBlockToCAR(b, s, s.blockOrder[i], w, enc, wrapInDir);
      if one.Err? {
        return one;
      }
      assert blocks[..i + 1] == blocks[..i] + [blocks[i]];
      StreamSnoc(blocks[..i], blocks[i]);
    }
    assert blocks[..|blocks|] == blocks;
    CarFileParts(enc, hc, s.rootCid, s.blockOrder);
    return Ok(());
  }

  lemma CarFileParts(enc: Encoding, hc: HeaderCodec, root: Cid, cs: seq<Cid>)
    requires AllDefined(cs)
    ensures CarFile(enc, hc, root, cs) == Frame(hc.encode(HeaderOf(enc, root))) + Stream(BlocksOf(enc, cs))
  {
  }

  lemma StreamSnoc(bs: seq<C.Block>, b: C.Block)
    ensures Stream(bs + [b]) == Stream(bs) + Section(b)
  {
    StreamSplit(bs + [b], |bs|);
    assert (bs + [b])[..|bs|] == bs && (bs + [b])[|bs|..] == [b];
    assert [b][1..] == [];
  }

  // ---------------------------------------------------------------- the size before writing

  function IdentifiersOf(enc: Encoding, cs: seq<Cid>): (r: seq<C.Cid>)
    ensures |r| == |cs| && forall i :: 0 <= i < |cs| ==> r[i] == enc.cid(cs[i])
  {
    seq(|cs|, i requires 0 <= i < |cs| => enc.cid(cs[i]))
  }

  /** The header CalculateCARSize measures: the root in its version 1 form. */
  function PlannedHeader(enc: Encoding, root: Cid): CarHeader {
    CarHeader([C.NormalizeCid(enc.cid(root))], 1)
  }

  /** Go's conversion of a uint64 to an int64. */
  function AsInt64(x: uint64): (r: int)
    ensures r < TWO_63 && r + TWO_63 >= 0 && (r == x || r == x - TWO_64)
  {
    if x < TWO_63 then x else x - TWO_64
  }

  /** CalculateCARSize: header size plus a planned size for every listed block, in wrapping arithmetic. */
  method CalculateCARSize(s: TreeSummary, enc: Encoding, hc: HeaderCodec) returns (carSize: int)
    requires |s.blockOrder| == |s.blockSizes|
    modifies s`carSize
    ensures carSize == AsInt64(s.carSize)
    ensures var header := hc.encode(PlannedHeader(enc, s.rootCid));
            |header| < TWO_63 ==>
              s.carSize == (|Frame(header)| + PlannedSum(IdentifiersOf(enc, s.blockOrder), s.blockSizes)) % TWO_64
  {
    hide Frame, PlannedSize;
    var header := PlannedHeader(enc, s.rootCid);
    var headerSize := HeaderSize(header, hc);
    var blocksSize: uint64 := 0;
    ghost var cs := IdentifiersOf(enc, s.blockOrder);
    for i := 0 to |s.blockOrder|
      invariant blocksSize == PlannedSum(cs[..i], s.blockSizes[..i]) % TWO_64
    {
      assert cs[..i + 1][..i] == cs[..i] && s.blockSizes[..i + 1][..i] == s.blockSizes[..i];
      blocksSize := AddPlanned(blocksSize, enc.cid(s.blockOrder[i]), s.blockSizes[i], PlannedSum(cs[..i], s.blockSizes[..i]));
    }
    assert cs[..|cs|] == cs && s.blockSizes[..|s.blockSizes|] == s.blockSizes;
    ModAdd(headerSize, PlannedSum(cs, s.blockSizes));
    s.carSize := AddU64(headerSize, blocksSize);
    return AsInt64(s.carSize);
  }

  method AddPlanned(blocksSize: uint64, c: C.Cid, dataLen: nat, ghost planned: nat) returns (sum: uint64)
    requires blocksSize == planned % TWO_64
    ensures sum == (planned + PlannedSize(c, dataLen)) % TWO_64
  {
    var cidLen := |C.CidBytes(C.NormalizeCid(c))|;
    sum := AddU64(blocksSize, UvarintSize(cidLen + dataLen) + cidLen + dataLen);
    ModAdd(PlannedSize(c, dataLen), planned);
  }

  lemma {:induction false} ModAdd(x: nat, y: nat)
    ensures (x + y % TWO_64) % TWO_64 == (x + y) % TWO_64
    decreases y
  {
    if y >= TWO_64 {
      ModAdd(x, y - TWO_64);
      assert x + y == x + (y - TWO_64) + TWO_64;
    }
  }

  ghost predicate ListedValid(enc: Encoding, cs: seq<Cid>) {
    forall i :: 0 <= i < |cs| ==> C.ValidCid(enc.cid(cs[i]))
  }

  /** For a finished summary, the plan covers exactly the blocks WriteCAR writes. */
  lemma PlanCovers(t: FsTree, wrapInDir: bool, size: Sizer, enc: Encoding, s: Summary)
    requires Ready(t, wrapInDir, size, enc, s) && ListedValid(enc, s.blockOrder)
    ensures AllDefined(s.blockOrder) && |s.blockOrder| == |s.blockSizes|
    ensures Covers(BlocksOf(enc, s.blockOrder), IdentifiersOf(enc, s.blockOrder), s.blockSizes)
  {
    ReadyBlocks(t, wrapInDir, size, enc, s);
  }

  lemma RootIsListed(t: FsTree, wrapInDir: bool, size: Sizer, enc: Encoding, s: Summary)
    requires Ready(t, wrapInDir, size, enc, s)
    ensures s.rootCid.Of? && s.rootCid in s.blockOrder
  {
    RootIsMerkleRoot(t, wrapInDir, size, s);
    if !wrapInDir && SoleFile(t).Some? {
      BlockListExact(s.rootCid);
      assert s.rootCid in Reach(s.rootCid) && s.rootCid in Elements(s.blockOrder);
    } else {
      var order, gone :| Finished(t, size, order, gone, s);
      hide Finished, WellFormed, NoRootName, PruneRoot;
      ListedBlocks(t, size, order, gone, s, s.rootCid);
      assert KeptDir(t, ROOT) && FinalCid(t, ROOT) == s.rootCid;
    }
  }

  lemma HeaderOfV1(enc: Encoding, cs: seq<Cid>, root: Cid)
    requires AllDefined(cs) && AllV1(BlocksOf(enc, cs)) && root in cs
    ensures PlannedHeader(enc, root) == HeaderOf(enc, root)
  {
    var i :| 0 <= i < |cs| && cs[i] == root;
    assert BlocksOf(enc, cs)[i].cid == enc.cid(root);
  }

  /**
   * The calculated size is the length of the written file if and only if every listed identifier is version 1. Of the
   * header's codec it is only asked that the longer form of the root does not make the header shorter.
   */
  lemma SizeIsExact(t: FsTree, wrapInDir: bool, size: Sizer, enc: Encoding, hc: HeaderCodec, s: Summary)
    requires Ready(t, wrapInDir, size, enc, s) && ListedValid(enc, s.blockOrder)
    requires |hc.encode(HeaderOf(enc, s.rootCid))| <= |hc.encode(PlannedHeader(enc, s.rootCid))|
    ensures AllDefined(s.blockOrder) && |s.blockOrder| == |s.blockSizes|
    ensures var planned := |Frame(hc.encode(PlannedHeader(enc, s.rootCid)))| + PlannedSum(IdentifiersOf(enc, s.blockOrder), s.blockSizes);
            && (planned == |CarFile(enc, hc, s.rootCid, s.blockOrder)| <==> AllV1(BlocksOf(enc, s.blockOrder)))
            && planned >= |CarFile(enc, hc, s.rootCid, s.blockOrder)|
  {
    RootIsListed(t, wrapInDir, size, enc, s);
    PlanCovers(t, wrapInDir, size, enc, s);
    hide Ready, PlannedSum, Stream, AllV1, Covers, PlannedHeader, HeaderOf, AllDefined;
    PlannedExactly(BlocksOf(enc, s.blockOrder), IdentifiersOf(enc, s.blockOrder), s.blockSizes);
    LongerFrame(hc.encode(HeaderOf(enc, s.rootCid)), hc.encode(PlannedHeader(enc, s.rootCid)));
    if AllV1(BlocksOf(enc, s.blockOrder)) {
      HeaderOfV1(enc, s.blockOrder, s.rootCid);
    }
  }

  /** In general it is the length of the file that has every identifier, the root's included, in its version 1 form. */
  lemma PlanIsV1File(t: FsTree, wrapInDir: bool, size: Sizer, enc: Encoding, hc: HeaderCodec, s: Summary)
    requires Ready(t, wrapInDir, size, enc, s) && ListedValid(enc, s.blockOrder)
    ensures AllDefined(s.blockOrder) && |s.blockOrder| == |s.blockSizes|
    ensures |Frame(hc.encode(PlannedHeader(enc, s.rootCid)))| + PlannedSum(IdentifiersOf(enc, s.blockOrder), s.blockSizes)
         == |CarBytes(hc, CarHeader([C.NormalizeCid(enc.cid(s.rootCid))], 1), InV1(BlocksOf(enc, s.blockOrder)))|
  {
    PlanCovers(t, wrapInDir, size, enc, s);
    hide Ready, PlannedSum, Stream, Covers, AllDefined;
    PlannedIsV1(BlocksOf(enc, s.blockOrder), IdentifiersOf(enc, s.blockOrder), s.blockSizes);
  }

  lemma LongerFrame(a: Bytes, b: Bytes)
    requires |a| <= |b|
    ensures |Frame(a)| <= |Frame(b)|
  {
    EncodeGrows(|a|, |b|);
  }

  /** The generator makes version 1 identifiers only. */
  ghost predicate ListedV1(enc: Encoding, cs: seq<Cid>) {
    forall i :: 0 <= i < |cs| ==> C.ValidCid(enc.cid(cs[i])) && enc.cid(cs[i]).V1?
  }

  /** Builds, announces the size, and writes: on success the announced size is the number of bytes written. */
  method StreamCARWithSize(b: CarBuilder, t: FsTree, wrapInDir: bool, w: ByteWriter, enc: Encoding, hc: HeaderCodec)
    returns (r: Result<(Cid, int), WriteError>)
    requires t.Folder? && WellFormed(t) && NoRootName(t) && forall n :: b.size(n) == |enc.raw(n)|
    requires forall s: Summary :: Built(t, wrapInDir, b.size, s) ==> Fits(enc, hc, s)
    modifies b, b.store, w
    ensures r.Ok? ==> |w.out| == |old(w.out)| + r.value.1
    ensures r.Ok? ==> exists s :: Built(t, wrapInDir, b.size, s) && r.value.0 == s.rootCid && AllDefined(s.blockOrder)
                                 && w.out == old(w.out) + CarFile(enc, hc, s.rootCid, s.blockOrder)
    ensures b.store.roomy ==> r.Ok?
  {
    hide Built, Ready, Fits, CarFile, HeaderOf, Frame, WellFormed, NoRootName, PlannedSum, Unpruned, Tallied, SoleFile,
      AllDefined, Writable;
    var built := b.BuildSummary(t, wrapInDir);
    if built.None? {
      return Err(RegenerationFailed);
    }
    var s := built.value;
    ghost var v := s.Value();
    IsReady(t, wrapInDir, b.size, enc, v);
    FitsExactly(t, wrapInDir, b.size, enc, hc, v);
    RootIsListed(t, wrapInDir, b.size, enc, v);
    NormalizedHeader(enc, v.blockOrder, v.rootCid);
    FitsWritable(enc, hc, v);
    var carSize := CalculateCARSize(s, enc, hc);
    var written := WriteCAR(b, w, enc, hc, wrapInDir);
    if written.Err? {
      return Err(written.error);
    }
    assert Built(t, wrapInDir, b.size, v);
    return Ok((s.rootCid, carSize));
  }

  lemma IsReady(t: FsTree, wrapInDir: bool, size: Sizer, enc: Encoding, s: Summary)
    requires t.Folder? && WellFormed(t) && NoRootName(t) && Built(t, wrapInDir, size, s) && forall n :: size(n) == |enc.raw(n)|
    ensures Ready(t, wrapInDir, size, enc, s)
  {
  }

  lemma NormalizedHeader(enc: Encoding, cs: seq<Cid>, root: Cid)
    requires ListedV1(enc, cs) && root in cs
    ensures PlannedHeader(enc, root) == HeaderOf(enc, root)
  {
    var i :| 0 <= i < |cs| && cs[i] == root;
    assert enc.cid(cs[i]).V1?;
  }

  lemma FitsWritable(enc: Encoding, hc: HeaderCodec, s: Summary)
    requires Fits(enc, hc, s) && AllDefined(s.blockOrder)
    ensures Writable(enc, hc, s.rootCid, s.blockOrder)
  {
  }

  /** Version 1 identifiers, and the limits of the format: 2^56 bytes a section, 2^63 bytes a file. */
  ghost predicate Fits(enc: Encoding, hc: HeaderCodec, s: Summary) {
    AllDefined(s.blockOrder) ==>
      && ListedV1(enc, s.blockOrder)
      && Writable(enc, hc, s.rootCid, s.blockOrder)
      && |CarFile(enc, hc, s.rootCid, s.blockOrder)| < TWO_63
  }

  lemma FitsExactly(t: FsTree, wrapInDir: bool, size: Sizer, enc: Encoding, hc: HeaderCodec, s: Summary)
    requires Ready(t, wrapInDir, size, enc, s) && Fits(enc, hc, s)
    ensures AllDefined(s.blockOrder) && |s.blockOrder| == |s.blockSizes| && ListedV1(enc, s.blockOrder)
    ensures |hc.encode(HeaderOf(enc, s.rootCid))| < TWO_63
    ensures |Frame(hc.encode(HeaderOf(enc, s.rootCid)))| + PlannedSum(IdentifiersOf(enc, s.blockOrder), s.blockSizes)
         == |CarFile(enc, hc, s.rootCid, s.blockOrder)| < TWO_63
  {
    hide Ready, Frame, Stream, CarFile;
    Powers();
    ReadyBlocks(t, wrapInDir, size, enc, s);
    RootIsListed(t, wrapInDir, size, enc, s);
    NormalizedHeader(enc, s.blockOrder, s.rootCid);
    SizeIsExact(t, wrapInDir, size, enc, hc, s);
    assert AllV1(BlocksOf(enc, s.blockOrder));
  }
}
