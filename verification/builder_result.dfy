/** What BuildSummary leaves behind, and the bridges between its phases. */
module BuilderResult {
  import opened Base
  import opened Dag
  import opened FsTrees
  import opened Bfs
  import opened TreeSummaries
  import opened BuilderSteps
  import opened BuilderPrune
  import opened BuilderRehash
  import opened BuilderWalk

  /** The file of a file system that holds nothing else. */
  function SoleFile(t: FsTree): Option<Cid> {
    if t.Folder? && |t.kids| == 1 && t.kids[0].tree.File? then Some(Of(t.kids[0].tree.dag)) else None
  }

  /** All directories are hashed for the second time, whatever the order of the two passes was. */
  ghost predicate Finished(t: FsTree, size: Sizer, order: seq<Path>, gone: set<Path>, s: Summary) {
    Rehashing(t, WalkBlocks(t), size, order, gone, |order|, s) && ROOT in s.entries && s.rootCid == s.entries[ROOT].cid
  }

  ghost predicate Built(t: FsTree, wrapInDir: bool, size: Sizer, s: Summary) {
    if !wrapInDir && SoleFile(t).Some?
    then s.rootCid == SoleFile(t).value && s.blockOrder == BlockList(s.rootCid) && s.entries == WalkedEntries(t) && FilesOnly(s, size)
    else exists order, gone :: Finished(t, size, order, gone, s)
  }

  lemma RootKidNames(t: FsTree)
    requires t.Folder? && WellFormed(t) && NoRootName(t)
    ensures forall i :: 0 <= i < |t.kids| ==> [] + [t.kids[i].name] != ROOT
  {
    forall i | 0 <= i < |t.kids| ensures [] + [t.kids[i].name] != ROOT {
      FindIndex(t.kids, i);
      assert Lookup(t, ROOT) == Child(t, "ROOT");
    }
  }

  // ---------------------------------------------------------------- the unwrapped single file

  lemma OneFileEntries(t: FsTree, es: Entries, p: Path)
    requires Skeleton(t, {}, es) && SoleFile(t).Some? && p in es && p != ROOT && At(t, p).Some?
    ensures !es[p].isDir && es[p].path == [] && p == [t.kids[0].name] && es[p].cid == SoleFile(t).value
  {
    FolderLookup(t, p);
    if |p| > 1 {
      FileLookup(t.kids[0].tree, p[1..]);
    }
    assert EntryMatches(At(t, p).value, es[p]) && WellNamed(p, es[p]);
  }

  /** No directory and one root-level file is the same as a tree of just one file. */
  lemma SoleFileDecided(t: FsTree, es: Entries, rootLevelFiles: set<Path>, hasDirectories: bool)
    requires Skeleton(t, {}, es) && forall p :: p in es ==> At(t, p).Some?
    requires hasDirectories ==> exists p :: p in es && p != ROOT && es[p].isDir
    requires !hasDirectories ==> forall p :: p in rootLevelFiles <==> p in es && p != ROOT && es[p].path == []
    requires !hasDirectories ==> forall p :: p in es && p != ROOT ==> !es[p].isDir
    ensures SoleFile(t).Some? <==> !hasDirectories && |rootLevelFiles| == 1
    ensures SoleFile(t).Some? ==> forall p :: p in rootLevelFiles ==> p in es && es[p].cid == SoleFile(t).value
  {
    if SoleFile(t).Some? {
      if hasDirectories {
        var p :| p in es && p != ROOT && es[p].isDir;
        OneFileEntries(t, es, p);
      } else {
        OneFileSet(t, es, rootLevelFiles);
      }
    } else if !hasDirectories && |rootLevelFiles| == 1 {
      OneKid(t, es, rootLevelFiles);
    }
  }

  lemma KidEntry(t: FsTree, es: Entries, i: nat)
    requires Skeleton(t, {}, es) && i < |t.kids|
    ensures var p := [t.kids[i].name];
            p in es && p != ROOT && es[p].path == [] && Lookup(t, p) == Some(t.kids[i].tree) && es[p].isDir == t.kids[i].tree.Folder?
  {
    var p := [t.kids[i].name];
    FindIndex(t.kids, i);
    assert Lookup(t, p) == Child(t, t.kids[i].name);
    assert EntryMatches(At(t, p).value, es[p]) && WellNamed(p, es[p]);
  }

  lemma OneFileSet(t: FsTree, es: Entries, rootLevelFiles: set<Path>)
    requires Skeleton(t, {}, es) && SoleFile(t).Some? && forall p :: p in es ==> At(t, p).Some?
    requires forall p :: p in rootLevelFiles <==> p in es && p != ROOT && es[p].path == []
    ensures |rootLevelFiles| == 1 && forall p :: p in rootLevelFiles ==> p in es && es[p].cid == SoleFile(t).value
  {
    var only := [t.kids[0].name];
    KidEntry(t, es, 0);
    forall p | p in rootLevelFiles ensures p == only && es[p].cid == SoleFile(t).value {
      OneFileEntries(t, es, p);
    }
    assert rootLevelFiles == {only};
  }

  lemma OneKid(t: FsTree, es: Entries, rootLevelFiles: set<Path>)
    requires Skeleton(t, {}, es) && |rootLevelFiles| == 1
    requires forall p :: p in rootLevelFiles <==> p in es && p != ROOT && es[p].path == []
    requires forall p :: p in es && p != ROOT ==> !es[p].isDir
    ensures SoleFile(t).Some?
  {
    var p :| p in rootLevelFiles;
    assert rootLevelFiles == {p} by { assert |rootLevelFiles - {p}| == 0; }
    assert WellNamed(p, es[p]) && Front(p) == [];
    assert Lookup(t, p) == Child(t, p[0]);
    var i := FoundIndex(t.kids, p[0]);
    forall j | 0 <= j < |t.kids| ensures t.kids[j].name == p[0] && t.kids[j].tree.File? {
      KidEntry(t, es, j);
      assert [t.kids[j].name] == p;
    }
    TwoKidsDiffer(t);
  }

  lemma TwoKidsDiffer(t: FsTree)
    requires t.Folder? && WellFormed(t)
    ensures |t.kids| < 2 || t.kids[0].name != t.kids[1].name
  {
  }

  lemma SoleFileBlocks(t: FsTree, c: Cid)
    requires SoleFile(t) == Some(c)
    ensures WalkBlocks(t) == BlockList(c)
  {
    assert t.kids[1..] == [] && KidBlocks([]) == [];
    assert WalkBlocks(t) == WalkBlocks(t.kids[0].tree) + KidBlocks(t.kids[1..]);
  }

  // ---------------------------------------------------------------- between the phases

  lemma FirstPassStarts(t: FsTree, size: Sizer, order: seq<Path>, s: Summary)
    requires t.Folder? && WellFormed(t) && NoRootName(t)
    requires s.entries == WalkedEntries(t) && FilesOnly(s, size) && DeepestFirst(s.entries, order)
    ensures FirstPass(t, s.blockOrder, size, order, 0, s)
  {
    WalkedSkeleton(t);
    assert order[..0] == [];
    assert s.blockOrder + CidsOf(s.entries, []) == s.blockOrder;
  }

  lemma {:induction false} KidBlocksAreFiles(kids: seq<Kid>)
    requires forall i :: 0 <= i < |kids| ==> WellFormed(kids[i].tree)
    ensures forall c :: c in KidBlocks(kids) ==> c.Of? && c.node.FileNode?
    decreases kids
  {
    if kids != [] {
      WalkBlocksAreFiles(kids[0].tree);
      KidBlocksAreFiles(kids[1..]);
    }
  }

  lemma {:induction false} WalkBlocksAreFiles(t: FsTree)
    requires WellFormed(t)
    ensures forall c :: c in WalkBlocks(t) ==> c.Of? && c.node.FileNode?
    decreases t
  {
    match t
    case Folder(kids) => KidBlocksAreFiles(kids);
    case File(dag) =>
      BlockListExact(Of(dag));
      forall c | c in BlockList(Of(dag)) ensures c.Of? && c.node.FileNode? {
        var i :| 0 <= i < |BlockList(Of(dag))| && BlockList(Of(dag))[i] == c;
        assert c in Elements(BlockList(Of(dag)));
        FileDagReach(dag, c);
      }
  }

  lemma RehashEntry(t: FsTree, files: seq<Cid>, size: Sizer, order: seq<Path>, gone: set<Path>, i: nat, s: Summary)
    requires Rehashing(t, files, size, order, gone, i, s) && i < |order|
    ensures order[i] in s.entries && s.entries[order[i]].isDir && |s.blockOrder| == |s.blockSizes|
    ensures Skeleton(PruneRoot(t), {}, s.entries)
  {
  }

  /** The links the second pass computes for one directory hash to its final identifier. */
  lemma RehashHash(t: FsTree, files: seq<Cid>, size: Sizer, order: seq<Path>, gone: set<Path>, i: nat, s: Summary, links: seq<Link>)
    requires Rehashing(t, files, size, order, gone, i, s) && i < |order|
    requires order[i] in s.entries && LinksExactly(s.entries, order[i], links)
    ensures Of(Directory(SortLinks(links))) == FinalCid(t, order[i])
  {
    hide Skeleton, FilesIndexed, Holds, Lookup, LinksExactly, TreeNode, DirHit, AllPruned, WellFormed, NoRootName, PruneRoot;
    var u, p := PruneRoot(t), order[i];
    if At(u, p).Some? {
      ChildrenDone(u, s.entries, order, i);
      DirectoryHash(u, s.entries, p, links);
    } else {
      LeftoverIsEmpty(u, s.entries, p);
      EmptyHash(s.entries, p, links);
    }
  }

  lemma LeftoverIsEmpty(u: FsTree, es: Entries, p: Path)
    requires Skeleton(u, {}, es) && p in es && At(u, p).None?
    ensures p != ROOT && es[p].children == []
  {
  }

  lemma RootCidIsFree(t: FsTree, files: seq<Cid>, size: Sizer, order: seq<Path>, gone: set<Path>, s: Summary, c: Cid)
    ensures Rehashing(t, files, size, order, gone, |order|, s) ==> Rehashing(t, files, size, order, gone, |order|, s.(rootCid := c))
    ensures FirstPass(t, files, size, order, |order|, s) ==> FirstPass(t, files, size, order, |order|, s.(rootCid := c))
  {
    hide Skeleton, Holds, DeepestFirst, CidsOf, Lookup;
    forall x ensures FileHit(s, x) <==> FileHit(s.(rootCid := c), x) {
    }
    forall i, x ensures DirHit(s, order, i, x) <==> DirHit(s.(rootCid := c), order, i, x) {
    }
    RootCidInHolds(files, Without(order, gone), s, c);
  }

  lemma RootCidInHolds(files: seq<Cid>, live: seq<Path>, s: Summary, c: Cid)
    ensures Holds(files, live, s) <==> Holds(files, live, s.(rootCid := c))
  {
  }

  lemma RootCidInFilesOnly(s: Summary, size: Sizer, c: Cid)
    requires FilesOnly(s, size)
    ensures FilesOnly(s.(rootCid := c), size)
  {
    forall x | x in s.blockOrder ensures FileHit(s.(rootCid := c), x) {
      assert FileHit(s, x);
    }
  }
}
