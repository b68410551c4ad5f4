/** A single file built without a wrapping directory: its root, and what is left of it after writing and reading. */
module UnwrappedFile {
  import opened Dag
  import opened FsTrees
  import opened Bfs
  import opened TreeSummaries
  import opened BuilderSteps
  import opened BuilderPrune
  import opened BuilderWalk
  import opened BuilderResult
  import opened BuilderTotals
  import opened BuilderIndex
  import opened BuilderTheorems
  import opened Collect
  import opened CarReaders
  import opened CarEncoding
  import opened ReadBack
  import opened Reconstructor
  import opened CarArchive

  function OnlyFile(name: string, dag: Node): FsTree {
    Folder([Kid(name, File(dag))])
  }

  // ---------------------------------------------------------------- building

  lemma OnlyFileWalked(name: string, dag: Node)
    requires dag.FileNode? && name != "ROOT"
    ensures WalkedEntries(OnlyFile(name, dag)) == map[
              ROOT := TreeEntry(ROOT, "ROOT", true, Undef, [[name]], 0),
              [name] := TreeEntry([], name, false, Of(dag), [], dag.fileSize)]
  {
    var t := OnlyFile(name, dag);
    var p: Path := [] + [name];
    assert p == [name] && Front(p) == [] && Last(p) == name;
    assert t.kids[1..] == [] && FileKeys([], t.kids) == [p];
    assert KidEntries([], t.kids) == map[p := TreeEntry([], name, false, Of(dag), [], dag.fileSize)] + map[];
    assert [] + [p] == [p];
  }

  /** The one file is the root, under its own name; the virtual root has no block. */
  lemma UnwrappedRoot(name: string, dag: Node, size: Sizer, s: Summary)
    requires WellFormed(OnlyFile(name, dag)) && NoRootName(OnlyFile(name, dag)) && Built(OnlyFile(name, dag), false, size, s)
    ensures name != "ROOT" && dag.FileNode? && FileDag(dag)
    ensures s.rootCid == Of(dag) && s.blockOrder == BlockList(Of(dag)) && Sized(s, size)
    ensures s.entries == map[
              ROOT := TreeEntry(ROOT, "ROOT", true, Undef, [[name]], 0),
              [name] := TreeEntry([], name, false, Of(dag), [], dag.fileSize)]
  {
    var t := OnlyFile(name, dag);
    RootKidNames(t);
    assert WellFormed(t.kids[0].tree);
    assert [] + [t.kids[0].name] != ROOT;
    hide WalkedEntries, BlockList, NoRootName;
    OnlyFileWalked(name, dag);
  }

  /** Anything else gets a directory for its root, wrapping asked for or not. */
  lemma OtherwiseWrapped(t: FsTree, wrapInDir: bool, size: Sizer, s: Summary)
    requires t.Folder? && Built(t, wrapInDir, size, s)
    requires wrapInDir || |t.kids| != 1 || t.kids[0].tree.Folder?
    ensures s.rootCid == TreeCid(PruneRoot(t)) && s.rootCid.node.Directory?
    ensures ROOT in s.entries && s.entries[ROOT].cid == s.rootCid
  {
    RootIsMerkleRoot(t, wrapInDir, size, s);
    var order, gone :| Finished(t, size, order, gone, s);
  }

  // ---------------------------------------------------------------- reading

  /** A file at the root is read under the text of its identifier, and the virtual root lists it. */
  lemma FileRootIsRead(dag: Node, text: Renderer)
    requires dag.FileNode? && text(Of(dag)) != "ROOT"
    ensures ReadTree(Of(dag), text).cidToEntry == map[Of(dag) := [text(Of(dag))]]
    ensures ReadTree(Of(dag), text).entries == map[
              ROOT := TreeEntry([], "ROOT", true, Of(dag), [[text(Of(dag))]], 0),
              [text(Of(dag))] := TreeEntry([], text(Of(dag)), false, Of(dag), [], dag.fileSize)]
  {
    assert [text(Of(dag))][0] != ROOT[0];
  }

  lemma FileIsComplete(dag: Node)
    requires FileDag(dag)
    ensures Complete(Elements(BlockList(Of(dag))), Of(dag)) && Of(dag) in Elements(BlockList(Of(dag)))
  {
    BlockListExact(Of(dag));
    if Undef in Reach(Of(dag)) {
      FileDagReach(dag, Undef);
    }
  }

  /** What comes back of an unwrapped file: all of it but its name, its chunks in the index, and the virtual root's missing identifier. */
  ghost predicate CameBackUnwrapped(name: string, built: Summary, read: Summary, text: Renderer) {
    && read.rootCid == built.rootCid && read.blockOrder == built.blockOrder && read.blockSizes == built.blockSizes
    && read.totalSize == built.totalSize
    && built.entries.Keys == {ROOT, [name]} && read.entries.Keys == {ROOT, [text(built.rootCid)]}
    && read.entries[[text(built.rootCid)]] == built.entries[[name]].(name := text(built.rootCid))
    && built.entries[ROOT].cid == Undef && read.entries[ROOT].cid == read.rootCid
    && read.cidToEntry == map[built.rootCid := [text(built.rootCid)]]
    && (read.cidToEntry.Keys == built.cidToEntry.Keys <==> |built.blockOrder| == 1)
  }

  lemma OneBlock(cs: seq<Cid>, root: Cid, keys: set<Cid>)
    requires NoDuplicates(cs) && root in Elements(cs) && forall c :: c in keys <==> c in cs
    ensures keys == {root} <==> |cs| == 1
  {
    var i :| 0 <= i < |cs| && cs[i] == root;
    if |cs| > 1 {
      var k := if i == 0 then 1 else 0;
      assert cs[k] in keys && cs[k] != root;
    }
  }

  lemma NothingEmptied(name: string, dag: Node)
    ensures !SomeEmptied(OnlyFile(name, dag))
  {
    forall p | p != [] ensures !Emptied(OnlyFile(name, dag), p) {
      FolderLookup(OnlyFile(name, dag), p);
      if |p| > 1 {
        FileLookup(File(dag), p[1..]);
      }
    }
  }

  lemma SizedSizes(s: Summary, size: Sizer)
    requires Sized(s, size)
    ensures s.blockSizes == SizesOf(size, s.blockOrder)
  {
  }

  lemma EntriesCompared(name: string, text: string, dag: Node)
    requires name != "ROOT" && text != "ROOT" && dag.FileNode?
    ensures var built := map[ROOT := TreeEntry(ROOT, "ROOT", true, Undef, [[name]], 0),
                             [name] := TreeEntry([], name, false, Of(dag), [], dag.fileSize)];
            var read := map[ROOT := TreeEntry([], "ROOT", true, Of(dag), [[text]], 0),
                            [text] := TreeEntry([], text, false, Of(dag), [], dag.fileSize)];
            && built.Keys == {ROOT, [name]} && read.Keys == {ROOT, [text]}
            && read[[text]] == built[[name]].(name := text)
            && built[ROOT].cid == Undef && read[ROOT].cid == Of(dag)
  {
    assert [name][0] != ROOT[0] && [text][0] != ROOT[0];
  }

  lemma RebuiltUnwrapped(name: string, dag: Node, size: Sizer, enc: Encoding, text: Renderer, s: Summary)
    requires WellFormed(OnlyFile(name, dag)) && NoRootName(OnlyFile(name, dag)) && Built(OnlyFile(name, dag), false, size, s)
    requires Tallied(s) && IndexesListed(OnlyFile(name, dag), s) && text(Of(dag)) != "ROOT"
    requires forall n :: size(n) == |enc.raw(n)|
    ensures var read := Rebuilt(Elements(s.blockOrder), s.rootCid, enc, text);
            read.Some? && CameBackUnwrapped(name, s, read.value, text)
  {
    UnwrappedRoot(name, dag, size, s);
    hide Built, WellFormed, NoRootName, Complete, ReadTree, HeldListing, HeldSizes, Sum, BlockList, SomeEmptied, Elements, Reach,
      RootLinksHeld, SizesOf, NoDuplicates;
    FileIsComplete(dag);
    NothingEmptied(name, dag);
    SizedSizes(s, size);
    EntriesCompared(name, text(Of(dag)), dag);
    FileRootIsRead(dag, text);
    RebuiltBlocks(Elements(s.blockOrder), s.rootCid, enc, size, text);
    BlockListExact(s.rootCid);
    OneBlock(s.blockOrder, s.rootCid, s.cidToEntry.Keys);
  }

  /** Writing the one file and reading the archive back. */
  lemma UnwrappedComesBack(
    name: string, dag: Node, size: Sizer, enc: Encoding, dec: Decoding, hc: HeaderCodec, cfg: Config, text: Renderer, s: Summary)
    requires WellFormed(OnlyFile(name, dag)) && NoRootName(OnlyFile(name, dag)) && Built(OnlyFile(name, dag), false, size, s)
    requires Tallied(s) && IndexesListed(OnlyFile(name, dag), s) && text(Of(dag)) != "ROOT"
    requires AllDefined(s.blockOrder) && Accepts(enc, hc, cfg, s)
    requires Inverse(dec, enc, Reach(Of(dag))) && forall n :: size(n) == |enc.raw(n)|
    ensures var read := ReadResult(CarFile(enc, hc, s.rootCid, s.blockOrder), hc, cfg, enc, dec, text);
            read.Some? && CameBackUnwrapped(name, s, read.value, text)
  {
    hide Built, WellFormed, NoRootName, Accepts, Inverse, Reach, ReadResult, Rebuilt, CarFile, CameBackUnwrapped, Tallied, IndexesListed,
      BlockList, Elements, AllDefined, Understood;
    UnwrappedRoot(name, dag, size, s);
    BlockListExact(Of(dag));
    WrittenReads(enc, dec, hc, cfg, text, s);
    RebuiltUnwrapped(name, dag, size, enc, text, s);
  }
}
