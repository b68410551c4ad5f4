/** One file, and encoders that are right about it: what the round trip asks for can be had, directory sizes included. */
module RoundTripExample {
  import opened Base
  import opened Varint
  import C = Cids
  import opened Framing
  import opened CarReaders
  import opened CarStreamTheorems
  import opened CarEncoding
  import opened Dag
  import opened FsTrees
  import opened Bfs
  import opened TreeSummaries
  import opened BuilderSteps
  import opened BuilderPrune
  import opened BuilderWalk
  import opened BuilderResult
  import opened BuilderTotalExact
  import opened BuilderTheorems
  import opened NodeStores
  import opened Builder
  import opened ReadBack
  import opened ReadBackSteps
  import opened ReadBackIndex
  import opened RoundTrip
  import opened RoundTripTotals
  import opened CarArchive

  function OneFile(): Node {
    FileNode([], [1], 1)
  }

  function OneFileTree(): FsTree {
    Folder([Kid("f", File(OneFile()))])
  }

  function OneRoot(): Node {
    Directory([Link("f", Of(OneFile()))])
  }

  function Raw(n: Node): Bytes {
    if n.Directory? then [2] else [1]
  }

  function NameOfData(data: Bytes): C.Cid {
    C.V1(C.DAG_PB, C.SHA2_256, data)
  }

  function ShortEncoding(): Encoding {
    Encoding(Raw, (c: Cid) => if c.Undef? then NameOfData([]) else NameOfData(Raw(c.node)))
  }

  function ShortDecoding(): Decoding {
    Decoding(
      (data: Bytes) => Some(if data == [1] then OneFile() else OneRoot()),
      (c: C.Cid) => if c == NameOfData([1]) then Of(OneFile()) else Of(OneRoot()))
  }

  function ShortHeader(): HeaderCodec {
    HeaderCodec((h: CarHeader) => [7], (data: Bytes) => Some(HeaderOf(ShortEncoding(), Of(OneRoot()))))
  }

  function DataIsDigest(): Config {
    Config(false, MAX_SECTION, (p: Prefix, data: Bytes) => Some(NameOfData(data)))
  }

  function ShortSize(): Sizer {
    (n: Node) => |Raw(n)|
  }

  lemma OneFileRoot()
    ensures TreeCid(OneFileTree()) == Of(OneRoot()) && PruneRoot(OneFileTree()) == OneFileTree()
  {
    assert OneFileTree().kids[1..] == [];
    assert KidLinks(OneFileTree().kids) == [Link("f", Of(OneFile()))] + KidLinks([]);
    assert SortLinks([Link("f", Of(OneFile()))]) == [Link("f", Of(OneFile()))];
    assert PruneBelow(OneFileTree().kids) == [Kid("f", File(OneFile()))] + PruneBelow([]);
  }

  lemma OneFileReach()
    ensures Reach(Of(OneRoot())) == {Of(OneRoot()), Of(OneFile())} && Reach(Of(OneFile())) == {Of(OneFile())}
  {
    assert OneRoot().links[1..] == [];
    assert ReachLinks(OneRoot().links) == Reach(Of(OneFile())) + ReachLinks([]);
  }

  lemma OneFilePaths(p: Path)
    requires p != [] && Lookup(OneFileTree(), p).Some?
    ensures p == ["f"] && Lookup(OneFileTree(), p) == Some(File(OneFile()))
  {
    FolderLookup(OneFileTree(), p);
    NothingBelowFile(p[1..]);
  }

  lemma NothingBelowFile(p: Path)
    ensures p == [] || Lookup(File(OneFile()), p).None?
  {
    if p != [] {
      FileLookup(File(OneFile()), p);
    }
  }

  lemma OneFileIsReadable()
    ensures ReadBackSteps.Readable(OneFileTree()) && RootFoldersHaveFiles(OneFileTree())
  {
    assert FileDag(OneFile());
    forall p | p != [] && Lookup(OneFileTree(), p).Some? ensures p == ["f"] && Lookup(OneFileTree(), p).value.File? {
      OneFilePaths(p);
    }
    forall n | Child(OneFileTree(), n).Some? ensures HasFile(Child(OneFileTree(), n).value) {
      var i := FoundIndex(OneFileTree().kids, n);
    }
    if Lookup(OneFileTree(), ROOT).Some? {
      OneFilePaths(ROOT);
    }
  }

  lemma OneFileSizes()
    ensures DirSizer(ShortSize()) && forall n :: ShortSize()(n) == |ShortEncoding().raw(n)|
  {
  }

  lemma OneFileInverse()
    ensures Inverse(ShortDecoding(), ShortEncoding(), Reach(Of(OneRoot())))
  {
    OneFileReach();
  }

  // ---------------------------------------------------------------- every built summary is accepted

  lemma ShortBlock(c: Cid)
    requires c == Of(OneRoot()) || c == Of(OneFile())
    ensures var b := BlockOf(ShortEncoding(), c);
            CarStreamTheorems.Readable(DataIsDigest(), b) && |Payload(b)| == 6 && |Section(b)| == 7
  {
    var b := BlockOf(ShortEncoding(), c);
    assert |Encode(0x70)| == 1 && |Encode(0x12)| == 1 && |Encode(1)| == 1 && |Encode(6)| == 1;
    assert b.data == [1] || b.data == [2];
    assert |C.MultihashBytes(C.SHA2_256, b.data)| == 3;
  }

  lemma {:induction false} ShortStream(bs: seq<C.Block>)
    requires forall i :: 0 <= i < |bs| ==> |Section(bs[i])| == 7
    ensures |Stream(bs)| == 7 * |bs|
  {
    if bs != [] {
      ShortStream(bs[1..]);
    }
  }

  lemma AtMostOnce<T>(s: seq<T>, x: T)
    requires NoDuplicates(s) && forall i :: 0 <= i < |s| ==> s[i] == x
    ensures |s| <= 1
  {
    FirstTwoDiffer(s);
  }

  lemma FirstTwoDiffer<T>(s: seq<T>)
    requires NoDuplicates(s)
    ensures |s| > 1 ==> s[0] != s[1]
  {
  }

  lemma OneFileBlocks()
    ensures |WalkBlocks(OneFileTree())| <= 1
  {
    OneFileReach();
    var bs := BlockList(Of(OneFile()));
    BlockListExact(Of(OneFile()));
    forall i | 0 <= i < |bs| ensures bs[i] == Of(OneFile()) {
      assert bs[i] in Elements(bs);
    }
    AtMostOnce(bs, Of(OneFile()));
    assert OneFileTree().kids[1..] == [] && KidBlocks([]) == [];
    assert WalkBlocks(OneFileTree()) == WalkBlocks(File(OneFile())) + KidBlocks([]);
  }

  lemma OneFileDirs(kept: seq<Path>)
    requires NoDuplicates(kept) && forall p :: p in kept <==> KeptDir(OneFileTree(), p)
    ensures |kept| <= 1
  {
    forall i | 0 <= i < |kept| ensures kept[i] == ROOT {
      assert kept[i] in kept && KeptDir(OneFileTree(), kept[i]);
      if kept[i] != ROOT {
        OneFilePaths(kept[i]);
      }
    }
    AtMostOnce(kept, ROOT);
  }

  lemma BuiltIsShort(s: Summary)
    requires Built(OneFileTree(), true, ShortSize(), s)
    ensures |s.blockOrder| <= 2 && s.rootCid == Of(OneRoot())
    ensures forall i :: 0 <= i < |s.blockOrder| ==> s.blockOrder[i] == Of(OneRoot()) || s.blockOrder[i] == Of(OneFile())
  {
    hide Built, Finished, OneFileTree, WellFormed, NoRootName, NamedEntries, RootFoldersHaveFiles, OneRoot, OneFile, TreeCid, PruneRoot,
      Reach, ShortSize, WalkBlocks;
    var t := OneFileTree();
    var order, gone := BuiltOrders(t, ShortSize(), s);
    OneFileIsReadable();
    OneFileRoot();
    OneFileReach();
    OneFileBlocks();
    RootIsMerkleRoot(t, true, ShortSize(), s);
    var kept := DirectoryPart(t, ShortSize(), order, gone, s);
    OneFileDirs(kept);
    MultisetLength(s.blockOrder, WalkBlocks(t), FinalCids(t, kept));
    ListedWithinReach(t, ShortSize(), order, gone, s);
    forall i | 0 <= i < |s.blockOrder| ensures s.blockOrder[i] in Reach(Of(OneRoot())) {
      assert s.blockOrder[i] in Elements(s.blockOrder);
    }
  }

  lemma MultisetLength(all: seq<Cid>, a: seq<Cid>, b: seq<Cid>)
    requires multiset(all) == multiset(a) + multiset(b)
    ensures |all| == |a| + |b|
  {
    assert |multiset(all)| == |all|;
  }

  lemma BuiltIsAccepted(s: Summary)
    requires Built(OneFileTree(), true, ShortSize(), s) && AllDefined(s.blockOrder)
    ensures Accepts(ShortEncoding(), ShortHeader(), DataIsDigest(), s)
  {
    hide Built, OneFileTree, OneRoot, OneFile, CarStreamTheorems.Readable, Section, Payload, Stream, ShortEncoding, ShortSize;
    BuiltIsShort(s);
    Powers();
    var bs := BlocksOf(ShortEncoding(), s.blockOrder);
    forall i | 0 <= i < |bs|
      ensures CarStreamTheorems.Readable(DataIsDigest(), bs[i]) && |Payload(bs[i])| == 6 && |Section(bs[i])| == 7 {
      ShortBlock(s.blockOrder[i]);
    }
    ShortStream(bs);
    assert |Encode(1)| == 1;
  }

  /** All that WriteThenRead asks for, and what the comparison of totals asks for, holds of a tree with a file. */
  lemma CanBeSuitable()
    ensures ReadBackSteps.Readable(OneFileTree()) && RootFoldersHaveFiles(OneFileTree()) && DirSizer(ShortSize())
    ensures Suitable(OneFileTree(), ShortSize(), ScanIndexer(ShortHeader(), DataIsDigest()), ShortEncoding(), ShortDecoding(), ShortHeader(),
                     DataIsDigest())
  {
    hide Inverse, IndexedRight, Accepts, Built, ScanIndexer, ShortEncoding, ShortDecoding, ShortHeader, DirSizer, OneFileTree, OneRoot,
      ReadBackSteps.Readable, RootFoldersHaveFiles, Reach, ShortSize, AllDefined, TreeCid, PruneRoot;
    OneFileIsReadable();
    OneFileRoot();
    OneFileInverse();
    OneFileSizes();
    forall d | |d| < TWO_63 ensures IndexedRight(ScanIndexer(ShortHeader(), DataIsDigest()), d, ShortHeader(), DataIsDigest()) {
      ScanIndexerIsRight(d, ShortHeader(), DataIsDigest());
    }
    forall s: Summary | Built(OneFileTree(), true, ShortSize(), s) && AllDefined(s.blockOrder)
      ensures Accepts(ShortEncoding(), ShortHeader(), DataIsDigest(), s) {
      BuiltIsAccepted(s);
    }
  }

  lemma OneFileComesBack()
    ensures NothingPruned(OneFileTree()) && NoEarlierTwin(PruneRoot(OneFileTree()))
    ensures (forall p :: !Emptied(OneFileTree(), p)) && FilesAreEntries(OneFileTree())
  {
    OneFileRoot();
    forall p | p != [] && Lookup(OneFileTree(), p).Some? ensures p == ["f"] && Lookup(OneFileTree(), p) == Some(File(OneFile())) {
      OneFilePaths(p);
    }
    OneFileReach();
    BlockListExact(Of(OneFile()));
    assert OneFileTree().kids[1..] == [] && KidBlocks([]) == [];
    assert WalkBlocks(OneFileTree()) == WalkBlocks(File(OneFile())) + KidBlocks([]);
    forall c | c in WalkBlocks(OneFileTree()) ensures IsEntryCid(OneFileTree(), c) {
      assert c in Elements(BlockList(Of(OneFile())));
      assert ["f"][..0] == [];
      assert Lookup(OneFileTree(), ["f"]) == Some(File(OneFile())) && CidAt(OneFileTree(), ["f"]) == c;
    }
  }

  /** So the round trip of this tree succeeds within any memory limit, and nothing is lost. */
  method RoundTripOneFile(memoryLimit: uint64, text: Renderer) returns (built: TreeSummary, read: TreeSummary)
    ensures read.rootCid == built.rootCid && SameEntries(built.entries, read.entries) && read.cidToEntry.Keys == built.cidToEntry.Keys
  {
    hide Built, Suitable, OneFileTree, ReadBackSteps.Readable, RootFoldersHaveFiles, NothingPruned, NoEarlierTwin, SameEntries,
      FilesAreEntries, Emptied, TotalCameBack, DirSizer, PruneRoot, Elements;
    CanBeSuitable();
    OneFileComesBack();
    var store := new NodeStore(true);
    var b := new CarBuilder(store, ShortSize());
    var whole, back := WriteThenRead(b, OneFileTree(), memoryLimit, ScanIndexer(ShortHeader(), DataIsDigest()), ShortEncoding(),
                                     ShortDecoding(), ShortHeader(), DataIsDigest(), text);
    return whole.value, back.value;
  }
}
