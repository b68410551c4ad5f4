/** The results of the first pass: Merkle identifiers, independence of order, a self-contained block list. */
module BuilderTheorems {
  import opened Dag
  import opened FsTrees
  import opened Bfs
  import opened TreeSummaries
  import opened BuilderSteps
  import opened BuilderPrune
  import opened BuilderRehash
  import opened BuilderWalk
  import opened BuilderResult

  /** The virtual root's key and tree path agree with every other key's. */
  ghost predicate IsKey(t: FsTree, p: Path) {
    p == ROOT || (p != [] && Lookup(t, p).Some?)
  }

  // ---------------------------------------------------------------- entries and identifiers

  /** A summary's entries after both passes, entry by entry. */
  lemma FinishedEntries(t: FsTree, size: Sizer, order: seq<Path>, gone: set<Path>, s: Summary, p: Path)
    requires Finished(t, size, order, gone, s)
    ensures p in s.entries <==> IsKey(t, p)
    ensures p in s.entries ==> At(t, p).Some? && WellNamed(p, s.entries[p]) && (s.entries[p].isDir <==> At(t, p).value.Folder?)
    ensures p in s.entries && s.entries[p].isDir ==> s.entries[p].cid == FinalCid(t, p)
    ensures p in s.entries && !s.entries[p].isDir ==> s.entries[p].cid == TreeCid(At(t, p).value) && s.entries[p].children == []
    ensures p in s.entries ==> s.entries[p].logicalSize == LogicalSize(TreeNode(At(t, p).value))
    ensures p in s.entries && s.entries[p].isDir && At(PruneRoot(t), p).Some?
        ==> forall q :: q in s.entries[p].children <==> Listed(PruneRoot(t), {}, p, q)
    ensures p in s.entries && s.entries[p].isDir && At(PruneRoot(t), p).None? ==> s.entries[p].children == []
  {
    if p in s.entries {
      LookupPruned(t, TreePath(p));
      if s.entries[p].isDir {
        var k :| 0 <= k < |order| && order[k] == p;
        assert FolderAt(t, p) && Hashed(t, s.entries, p);
      } else {
        assert EntryMatches(At(PruneRoot(t), p).value, s.entries[p]);
      }
      if s.entries[p].isDir && At(PruneRoot(t), p).Some? {
        assert ChildrenMatch(PruneRoot(t), {}, p, s.entries[p].children);
      }
    }
  }

  /** A file's entry has the size its root node declares; a directory's has none. */
  ghost predicate HasSizeOf(e: TreeEntry, sub: FsTree) {
    match sub
    case File(dag) => dag.FileNode? && e.logicalSize == dag.fileSize
    case Folder(_) => e.logicalSize == 0
  }

  lemma SizeAt(t: FsTree, p: Path, e: TreeEntry)
    requires WellFormed(t) && At(t, p).Some? && e.logicalSize == LogicalSize(TreeNode(At(t, p).value))
    ensures HasSizeOf(e, At(t, p).value)
  {
    LookupWellFormed(t, TreePath(p));
  }

  lemma WalkedSize(t: FsTree, es: Entries, p: Path)
    requires Skeleton(t, {}, es) && p in es && At(t, p).Some?
    ensures HasSizeOf(es[p], At(t, p).value)
  {
    assert EntryMatches(At(t, p).value, es[p]) && WellNamed(p, es[p]);
    LookupWellFormed(t, TreePath(p));
  }

  /** The logical size of an entry, on the fields of the file's root node: what the UnixFS file declares of itself. */
  lemma BuiltSizes(t: FsTree, wrapInDir: bool, size: Sizer, s: Summary, p: Path)
    requires t.Folder? && WellFormed(t) && NoRootName(t) && Built(t, wrapInDir, size, s) && p in s.entries
    ensures At(t, p).Some? && HasSizeOf(s.entries[p], At(t, p).value)
  {
    hide Finished, HasSizeOf, At, Skeleton, WellFormed, NoRootName, TreeNode, LogicalSize, WalkedEntries, BlockList, FilesOnly;
    if !wrapInDir && SoleFile(t).Some? {
      WalkedSkeleton(t);
      WalkedSize(t, s.entries, p);
    } else {
      var order, gone :| Finished(t, size, order, gone, s);
      FinishedEntries(t, size, order, gone, s, p);
      SizeAt(t, p, s.entries[p]);
    }
  }

  /** The root identifier is the Merkle hash of the tree, pruned below its root level. */
  lemma RootIsMerkleRoot(t: FsTree, wrapInDir: bool, size: Sizer, s: Summary)
    requires Built(t, wrapInDir, size, s)
    ensures s.rootCid == if !wrapInDir && SoleFile(t).Some? then SoleFile(t).value else TreeCid(PruneRoot(t))
  {
    if wrapInDir || SoleFile(t).None? {
      var order, gone :| Finished(t, size, order, gone, s);
      FinishedEntries(t, size, order, gone, s, ROOT);
    }
  }

  ghost predicate SameEntry(a: TreeEntry, b: TreeEntry) {
    && a.path == b.path && a.name == b.name && a.isDir == b.isDir && a.cid == b.cid && a.logicalSize == b.logicalSize
    && forall q :: q in a.children <==> q in b.children
  }

  lemma SameFinishedEntry(
    t: FsTree, size: Sizer, o1: seq<Path>, g1: set<Path>, s1: Summary, o2: seq<Path>, g2: set<Path>, s2: Summary, p: Path)
    requires Finished(t, size, o1, g1, s1) && Finished(t, size, o2, g2, s2)
    ensures p in s1.entries <==> p in s2.entries
    ensures p in s1.entries ==> SameEntry(s1.entries[p], s2.entries[p])
  {
    hide Finished, FinalCid, TreeCid, Listed, Lookup, PruneRoot, At, IsKey;
    FinishedEntries(t, size, o1, g1, s1, p);
    FinishedEntries(t, size, o2, g2, s2, p);
  }

  lemma SameDirectories(t: FsTree, size: Sizer, o1: seq<Path>, g1: set<Path>, s1: Summary, o2: seq<Path>, g2: set<Path>, s2: Summary)
    requires Finished(t, size, o1, g1, s1) && Finished(t, size, o2, g2, s2)
    ensures multiset(s1.blockOrder) == multiset(s2.blockOrder)
  {
    FinishedParts(t, size, o1, g1, s1);
    FinishedParts(t, size, o2, g2, s2);
    hide Finished, SameEntry, DeepestFirst, Holds, AllPruned, Without;
    forall p ensures (p in s1.entries <==> p in s2.entries) && (p in s1.entries ==> SameEntry(s1.entries[p], s2.entries[p])) {
      SameFinishedEntry(t, size, o1, g1, s1, o2, g2, s2, p);
    }
    SamePruned(t, g1, g2);
    SameBlocks(s1, s2, o1, o2, g1, WalkBlocks(t));
  }

  lemma FinishedParts(t: FsTree, size: Sizer, order: seq<Path>, gone: set<Path>, s: Summary)
    requires Finished(t, size, order, gone, s)
    ensures AllPruned(t, gone) && DeepestFirst(s.entries, order) && Holds(WalkBlocks(t), Without(order, gone), s)
  {
  }

  lemma SamePruned(t: FsTree, g1: set<Path>, g2: set<Path>)
    requires AllPruned(t, g1) && AllPruned(t, g2)
    ensures g1 == g2
  {
    assert forall p :: p in g1 <==> p in g2;
  }

  lemma SameBlocks(s1: Summary, s2: Summary, o1: seq<Path>, o2: seq<Path>, gone: set<Path>, files: seq<Cid>)
    requires forall p :: (p in s1.entries <==> p in s2.entries) && (p in s1.entries ==> SameEntry(s1.entries[p], s2.entries[p]))
    requires DeepestFirst(s1.entries, o1) && DeepestFirst(s2.entries, o2)
    requires Holds(files, Without(o1, gone), s1) && Holds(files, Without(o2, gone), s2)
    ensures multiset(s1.blockOrder) == multiset(s2.blockOrder)
  {
    assert DeepestFirst(s1.entries, o2);
    SameListing(s1.entries, o1, o2, gone);
    assert CidsOf(s1.entries, Without(o2, gone)) == CidsOf(s2.entries, Without(o2, gone));
  }

  /** However maps iterate and sorting breaks ties, the same tree gives the same identifiers and the same blocks. */
  lemma OrderIndependence(t: FsTree, wrapInDir: bool, size: Sizer, s1: Summary, s2: Summary)
    requires Built(t, wrapInDir, size, s1) && Built(t, wrapInDir, size, s2)
    ensures s1.rootCid == s2.rootCid
    ensures forall p :: p in s1.entries <==> p in s2.entries
    ensures forall p :: p in s1.entries ==> SameEntry(s1.entries[p], s2.entries[p])
    ensures multiset(s1.blockOrder) == multiset(s2.blockOrder)
  {
    RootIsMerkleRoot(t, wrapInDir, size, s1);
    RootIsMerkleRoot(t, wrapInDir, size, s2);
    if wrapInDir || SoleFile(t).None? {
      var o1, g1 :| Finished(t, size, o1, g1, s1);
      var o2, g2 :| Finished(t, size, o2, g2, s2);
      hide Finished;
      forall p ensures (p in s1.entries <==> p in s2.entries) && (p in s1.entries ==> SameEntry(s1.entries[p], s2.entries[p])) {
        SameFinishedEntry(t, size, o1, g1, s1, o2, g2, s2, p);
      }
      SameDirectories(t, size, o1, g1, s1, o2, g2, s2);
    }
  }

  // ---------------------------------------------------------------- reachability in a tree's DAG

  lemma {:induction false} LookupReach(u: FsTree, p: Path)
    requires WellFormed(u) && Lookup(u, p).Some?
    ensures Reach(TreeCid(Lookup(u, p).value)) <= Reach(TreeCid(u))
  {
    if p != [] {
      LookupReach(u, Front(p));
      LookupWellFormed(u, Front(p));
      var parent, sub := Lookup(u, Front(p)).value, Lookup(u, p).value;
      var l := Link(Last(p), TreeCid(sub));
      FolderLinks(parent, l);
      var i :| 0 <= i < |TreeNode(parent).links| && TreeNode(parent).links[i] == l;
      ReachOfLink(TreeNode(parent).links, i);
    }
  }

  /** A block belongs to the subtree at a path: its directory block, or any block of its file. */
  ghost predicate BelongsTo(sub: FsTree, c: Cid) {
    match sub
    case File(dag) => c in Reach(Of(dag))
    case Folder(_) => c == TreeCid(sub)
  }

  lemma {:induction false} ReachedAtPath(u: FsTree, c: Cid) returns (p: Path)
    requires WellFormed(u) && c in Reach(TreeCid(u))
    ensures Lookup(u, p).Some? && BelongsTo(Lookup(u, p).value, c)
    decreases Height(TreeCid(u))
  {
    if u.File? || c == TreeCid(u) {
      p := [];
    } else {
      var i := ReachedThrough(TreeNode(u).links, c);
      var l := TreeNode(u).links[i];
      assert l in TreeNode(u).links;
      FolderLinks(u, l);
      ChildIsLower(u, l.name);
      ChildWellFormed(u, l.name);
      p := ReachedAtPath(Child(u, l.name).value, c);
      FolderLookup(u, [l.name] + p);
      assert ([l.name] + p)[1..] == p;
      p := [l.name] + p;
    }
  }

  lemma {:induction false} KidBlockAtPath(kids: seq<Kid>, c: Cid) returns (p: Path)
    requires WellFormed(Folder(kids)) && c in KidBlocks(kids)
    ensures Lookup(Folder(kids), p).Some? && Lookup(Folder(kids), p).value.File? && c in Reach(Of(Lookup(Folder(kids), p).value.dag))
    decreases kids
  {
    if c in WalkBlocks(kids[0].tree) {
      p := WalkBlockAtPath(kids[0].tree, c);
      FolderLookup(Folder(kids), [kids[0].name] + p);
      assert ([kids[0].name] + p)[1..] == p;
      p := [kids[0].name] + p;
    } else {
      assert WellFormed(Folder(kids[1..]));
      p := KidBlockAtPath(kids[1..], c);
      assert p != [];
      FolderLookup(Folder(kids[1..]), p);
      var i := FoundIndex(kids[1..], p[0]);
      FolderLookup(Folder(kids), p);
    }
  }

  lemma {:induction false} WalkBlockAtPath(t: FsTree, c: Cid) returns (p: Path)
    requires WellFormed(t) && c in WalkBlocks(t)
    ensures Lookup(t, p).Some? && Lookup(t, p).value.File? && c in Reach(Of(Lookup(t, p).value.dag))
    decreases t
  {
    match t
    case File(dag) =>
      p := [];
      BlockListExact(Of(dag));
      var i :| 0 <= i < |BlockList(Of(dag))| && BlockList(Of(dag))[i] == c;
      assert c in Elements(BlockList(Of(dag)));
    case Folder(kids) =>
      p := KidBlockAtPath(kids, c);
  }

  lemma {:induction false} PathBlockWalked(t: FsTree, p: Path, c: Cid)
    requires WellFormed(t) && Lookup(t, p).Some? && Lookup(t, p).value.File? && c in Reach(Of(Lookup(t, p).value.dag))
    ensures c in WalkBlocks(t)
    decreases |p|
  {
    if t.File? {
      if p != [] {
        FileLookup(t, p);
      }
      BlockListExact(Of(t.dag));
      assert c in Elements(BlockList(Of(t.dag)));
    } else {
      FolderLookup(t, p);
      var i := FoundIndex(t.kids, p[0]);
      PathBlockWalked(t.kids[i].tree, p[1..], c);
      KidBlockWalked(t.kids, i, c);
    }
  }

  lemma {:induction false} KidBlockWalked(kids: seq<Kid>, i: nat, c: Cid)
    requires i < |kids| && c in WalkBlocks(kids[i].tree)
    ensures c in KidBlocks(kids)
  {
    if i > 0 {
      KidBlockWalked(kids[1..], i - 1, c);
    }
  }

  // ---------------------------------------------------------------- a self-contained block list

  /** Every folder at the root level has a file somewhere. */
  ghost predicate RootFoldersHaveFiles(t: FsTree) {
    forall n :: Child(t, n).Some? ==> HasFile(Child(t, n).value)
  }

  lemma InFiles(t: FsTree, c: Cid)
    requires WellFormed(t) && NoRootName(t) && t.Folder? && c in WalkBlocks(t)
    ensures c in Reach(TreeCid(PruneRoot(t)))
  {
    var p := WalkBlockAtPath(t, c);
    LookupPruned(t, p);
    PruneRootWellFormed(t);
    LookupReach(PruneRoot(t), p);
  }

  lemma FileListed(t: FsTree, p: Path, c: Cid)
    requires WellFormed(t) && Lookup(PruneRoot(t), p).Some? && Lookup(PruneRoot(t), p).value.File?
    requires BelongsTo(Lookup(PruneRoot(t), p).value, c)
    ensures c in WalkBlocks(t)
  {
    LookupPruned(t, p);
    PathBlockWalked(t, p, c);
  }

  /** The identifiers in the list: blocks of files, and final identifiers of the directories that were kept. */
  lemma ListedBlocks(t: FsTree, size: Sizer, order: seq<Path>, gone: set<Path>, s: Summary, c: Cid)
    requires Finished(t, size, order, gone, s)
    ensures c in s.blockOrder <==> c in WalkBlocks(t) || exists p :: KeptDir(t, p) && FinalCid(t, p) == c
  {
    var live := Without(order, gone);
    FinishedParts(t, size, order, gone, s);
    hide Finished, KeptDir, FinalCid, WalkBlocks, Without, DeepestFirst, AllPruned;
    var cs := CidsOf(s.entries, live);
    assert c in s.blockOrder <==> c in multiset(s.blockOrder);
    assert c in cs <==> c in multiset(cs);
    if c in cs {
      var p := OwnerIsKept(t, size, order, gone, s, c);
    }
    if p :| KeptDir(t, p) && FinalCid(t, p) == c {
      KeptIsLive(t, size, order, gone, s, p);
      ListedCid(s.entries, live, p);
    }
  }

  lemma OwnerIsKept(t: FsTree, size: Sizer, order: seq<Path>, gone: set<Path>, s: Summary, c: Cid) returns (p: Path)
    requires Finished(t, size, order, gone, s) && InEntries(s.entries, Without(order, gone))
    requires c in CidsOf(s.entries, Without(order, gone))
    ensures KeptDir(t, p) && FinalCid(t, p) == c
  {
    var live := Without(order, gone);
    var k :| 0 <= k < |live| && CidsOf(s.entries, live)[k] == c;
    WithoutAt(order, gone, k);
    var m :| 0 <= m < |order| && order[m] == live[k];
    p := order[m];
    hide FinalCid, TreeCid, HasFile, FilesIndexed, Without, Holds;
    assert WellNamed(p, s.entries[p]);
    assert Hashed(t, s.entries, p) && FolderAt(t, p);
  }

  lemma KeptIsLive(t: FsTree, size: Sizer, order: seq<Path>, gone: set<Path>, s: Summary, p: Path)
    requires Finished(t, size, order, gone, s) && KeptDir(t, p)
    ensures p in Without(order, gone) && p in s.entries && s.entries[p].cid == FinalCid(t, p)
  {
    FinishedEntries(t, size, order, gone, s, p);
    FinishedParts(t, size, order, gone, s);
    hide Finished, FinalCid, Without, Holds;
    WithoutElements(order, gone, p);
    assert p in order;
  }

  /** A directory the summary keeps blocks for. */
  ghost predicate KeptDir(t: FsTree, p: Path) {
    IsKey(t, p) && FolderAt(t, p) && (p == ROOT || !Emptied(t, p))
  }

  lemma KeptDirReachable(t: FsTree, p: Path)
    requires WellFormed(t) && NoRootName(t) && t.Folder? && KeptDir(t, p)
    ensures FinalCid(t, p) in Reach(TreeCid(PruneRoot(t)))
  {
    LookupPruned(t, TreePath(p));
    PruneRootWellFormed(t);
    LookupReach(PruneRoot(t), TreePath(p));
  }

  lemma ReachableIsListed(t: FsTree, c: Cid) returns (p: Path)
    requires WellFormed(t) && NoRootName(t) && t.Folder? && RootFoldersHaveFiles(t)
    requires c in Reach(TreeCid(PruneRoot(t)))
    ensures c in WalkBlocks(t) || (KeptDir(t, p) && FinalCid(t, p) == c)
  {
    PruneRootWellFormed(t);
    var q := ReachedAtPath(PruneRoot(t), c);
    LookupPruned(t, q);
    p := if q == [] then ROOT else q;
    if Lookup(PruneRoot(t), q).value.File? {
      FileListed(t, q, c);
    } else if |q| == 1 {
      assert Lookup(t, q) == Child(t, q[0]);
    }
  }

  lemma EmptyDirNotListed(t: FsTree, n: string, p: Path)
    requires WellFormed(t) && NoRootName(t) && t.Folder? && Child(t, n).Some? && !HasFile(Child(t, n).value) && KeptDir(t, p)
    ensures EMPTY_DIR in Reach(TreeCid(PruneRoot(t))) && FinalCid(t, p) != EMPTY_DIR
  {
    var q := [n];
    assert Lookup(t, q) == Child(t, n) && Emptied(t, q);
    GoneHasNoFile(t, q);
    LookupPruned(t, q);
    PruneRootWellFormed(t);
    LookupReach(PruneRoot(t), q);
    EmptyDirHasNoFile();
    if p == ROOT {
      DescendantIsLower(PruneRoot(t), q);
    } else {
      LiveHasFile(t, p);
    }
  }

  /** The block list is exactly what the root reaches if and only if every root-level folder has a file somewhere. */
  lemma SelfContainedExactly(t: FsTree, wrapInDir: bool, size: Sizer, s: Summary)
    requires WellFormed(t) && NoRootName(t) && t.Folder? && Built(t, wrapInDir, size, s)
    ensures Elements(s.blockOrder) == Reach(s.rootCid) <==> RootFoldersHaveFiles(t)
  {
    hide Finished, WellFormed, NoRootName, PruneRoot, Reach, Elements;
    RootIsMerkleRoot(t, wrapInDir, size, s);
    if !wrapInDir && SoleFile(t).Some? {
      BlockListExact(s.rootCid);
      forall n | Child(t, n).Some? ensures HasFile(Child(t, n).value) {
        var i := FoundIndex(t.kids, n);
      }
    } else {
      var order, gone :| Finished(t, size, order, gone, s);
      ListedWithinReach(t, size, order, gone, s);
      if RootFoldersHaveFiles(t) {
        ReachWithinListed(t, size, order, gone, s);
      } else {
        var n :| Child(t, n).Some? && !HasFile(Child(t, n).value);
        NotSelfContained(t, size, order, gone, s, n);
      }
    }
  }

  lemma ListedWithinReach(t: FsTree, size: Sizer, order: seq<Path>, gone: set<Path>, s: Summary)
    requires WellFormed(t) && NoRootName(t) && t.Folder? && Finished(t, size, order, gone, s)
    ensures Elements(s.blockOrder) <= Reach(TreeCid(PruneRoot(t)))
  {
    forall c | c in Elements(s.blockOrder) ensures c in Reach(TreeCid(PruneRoot(t))) {
      ListedBlocks(t, size, order, gone, s, c);
      if c in WalkBlocks(t) {
        InFiles(t, c);
      } else {
        var p :| KeptDir(t, p) && FinalCid(t, p) == c;
        KeptDirReachable(t, p);
      }
    }
  }

  lemma ReachWithinListed(t: FsTree, size: Sizer, order: seq<Path>, gone: set<Path>, s: Summary)
    requires WellFormed(t) && NoRootName(t) && t.Folder? && Finished(t, size, order, gone, s) && RootFoldersHaveFiles(t)
    ensures Reach(TreeCid(PruneRoot(t))) <= Elements(s.blockOrder)
  {
    forall c | c in Reach(TreeCid(PruneRoot(t))) ensures c in Elements(s.blockOrder) {
      var p := ReachableIsListed(t, c);
      ListedBlocks(t, size, order, gone, s, c);
      assert c in s.blockOrder;
    }
  }

  lemma NotSelfContained(t: FsTree, size: Sizer, order: seq<Path>, gone: set<Path>, s: Summary, n: string)
    requires WellFormed(t) && NoRootName(t) && t.Folder? && Finished(t, size, order, gone, s)
    requires Child(t, n).Some? && !HasFile(Child(t, n).value)
    ensures EMPTY_DIR in Reach(TreeCid(PruneRoot(t))) && EMPTY_DIR !in Elements(s.blockOrder)
  {
    ListedBlocks(t, size, order, gone, s, EMPTY_DIR);
    WalkBlocksAreFiles(t);
    assert KeptDir(t, ROOT);
    EmptyDirNotListed(t, n, ROOT);
    forall p | KeptDir(t, p) ensures FinalCid(t, p) != EMPTY_DIR {
      EmptyDirNotListed(t, n, p);
    }
  }

  function FinalCids(t: FsTree, ps: seq<Path>): seq<Cid> {
    seq(|ps|, k requires 0 <= k < |ps| => FinalCid(t, ps[k]))
  }

  /** The directory part of the block list is, as a multiset, the kept directories' final identifiers: none stale, none lost. */
  lemma DirectoryPart(t: FsTree, size: Sizer, order: seq<Path>, gone: set<Path>, s: Summary) returns (kept: seq<Path>)
    requires WellFormed(t) && NoRootName(t) && t.Folder? && Finished(t, size, order, gone, s)
    ensures NoDuplicates(kept) && forall p :: p in kept <==> KeptDir(t, p)
    ensures multiset(s.blockOrder) == multiset(WalkBlocks(t)) + multiset(FinalCids(t, kept))
  {
    kept := Without(order, gone);
    FinishedParts(t, size, order, gone, s);
    OrderDistinct(s.entries, order);
    WithoutNoDuplicates(order, gone);
    HashedOrder(t, size, order, gone, s);
    hide Finished, Holds, WellFormed, NoRootName, Lookup, DeepestFirst, KeptDir, FinalCid;
    forall p ensures p in kept <==> KeptDir(t, p) {
      WithoutElements(order, gone, p);
      KeptIsListed(t, size, order, gone, s, p);
    }
    LiveBlocks(t, size, order, gone, s);
  }

  lemma HashedOrder(t: FsTree, size: Sizer, order: seq<Path>, gone: set<Path>, s: Summary)
    requires Finished(t, size, order, gone, s)
    ensures forall k :: 0 <= k < |order| ==> Hashed(t, s.entries, order[k])
  {
  }

  lemma KeptIsListed(t: FsTree, size: Sizer, order: seq<Path>, gone: set<Path>, s: Summary, p: Path)
    requires Finished(t, size, order, gone, s)
    ensures KeptDir(t, p) <==> p in order && p !in gone
  {
    FinishedEntries(t, size, order, gone, s, p);
    RootKept(t, gone);
    if p in order {
      var k :| 0 <= k < |order| && order[k] == p;
      assert p in s.entries && FolderAt(t, p);
    }
  }

  lemma RootKept(t: FsTree, gone: set<Path>)
    requires AllPruned(t, gone) && NoRootName(t)
    ensures ROOT !in gone
  {
  }

  lemma LiveBlocks(t: FsTree, size: Sizer, order: seq<Path>, gone: set<Path>, s: Summary)
    requires Finished(t, size, order, gone, s)
    ensures multiset(s.blockOrder) == multiset(WalkBlocks(t)) + multiset(FinalCids(t, Without(order, gone)))
  {
    hide Finished, FinalCid, WalkBlocks, DeepestFirst, AllPruned;
    var live := Without(order, gone);
    FinishedParts(t, size, order, gone, s);
    HashedOrder(t, size, order, gone, s);
    forall k | 0 <= k < |live| ensures live[k] in s.entries && s.entries[live[k]].cid == FinalCid(t, live[k]) {
      WithoutAt(order, gone, k);
      var m :| 0 <= m < |order| && order[m] == live[k];
      assert Hashed(t, s.entries, order[m]);
    }
    assert CidsOf(s.entries, live) == FinalCids(t, live);
  }

  /** Looking for a directory's old block succeeds unless the directory lists no children, so nothing is ever appended. */
  lemma AppendIsUnreached(t: FsTree, files: seq<Cid>, size: Sizer, order: seq<Path>, gone: set<Path>, i: nat, s: Summary)
    requires Rehashing(t, files, size, order, gone, i, s) && i < |order|
    ensures order[i] in s.entries
    ensures FirstIndex(s.blockOrder, s.entries[order[i]].cid) < |s.blockOrder| || s.entries[order[i]].children == []
  {
    OldBlock(t, files, size, order, gone, i, s);
    if order[i] !in gone {
      var live := Without(order, gone);
      WithoutElements(order, gone, order[i]);
      ListedCid(s.entries, live, order[i]);
      InMultiset(s.blockOrder, s.entries[order[i]].cid);
    }
  }

  // ---------------------------------------------------------------- blocks can be recreated

  /** The entry an identifier leads to recreates that block: by hashing a directory, or by chunking a file again. */
  ghost predicate Recreates(t: FsTree, s: Summary, c: Cid) {
    && c in s.cidToEntry && s.cidToEntry[c] in s.entries
    && var e := s.entries[s.cidToEntry[c]];
       if e.isDir then e.cid == c
       else Lookup(t, e.path + [e.name]).Some? && Lookup(t, e.path + [e.name]).value.File?
            && c in Reach(TreeCid(Lookup(t, e.path + [e.name]).value))
  }

  lemma FileRecreates(t: FsTree, s: Summary, c: Cid, p: Path)
    requires FileHit(s, c) && p == s.cidToEntry[c] && WellNamed(p, s.entries[p])
    requires Lookup(t, p).Some? && Lookup(t, p).value.File? && s.entries[p].cid == TreeCid(Lookup(t, p).value)
    ensures Recreates(t, s, c)
  {
    assert p == Front(p) + [Last(p)];
  }

  /** Every listed block can be recreated from the entry the identifier index names. */
  lemma EveryBlockRecreates(t: FsTree, wrapInDir: bool, size: Sizer, s: Summary, c: Cid)
    requires WellFormed(t) && NoRootName(t) && t.Folder? && Built(t, wrapInDir, size, s) && c in s.blockOrder
    ensures Recreates(t, s, c)
  {
    if !wrapInDir && SoleFile(t).Some? {
      assert FileHit(s, c);
      var p := s.cidToEntry[c];
      WalkedSkeleton(t);
      assert EntryMatches(At(t, p).value, s.entries[p]) && WellNamed(p, s.entries[p]);
      FileRecreates(t, s, c, p);
    } else {
      var order, gone :| Finished(t, size, order, gone, s);
      ListedBlocks(t, size, order, gone, s, c);
      if c in WalkBlocks(t) {
        assert FileHit(s, c);
        var p := s.cidToEntry[c];
        FinishedEntries(t, size, order, gone, s, p);
        FileRecreates(t, s, c, p);
      } else {
        var p :| KeptDir(t, p) && FinalCid(t, p) == c;
        KeptDirHit(t, size, order, gone, s, p);
      }
    }
  }

  lemma KeptDirHit(t: FsTree, size: Sizer, order: seq<Path>, gone: set<Path>, s: Summary, p: Path)
    requires Finished(t, size, order, gone, s) && KeptDir(t, p)
    ensures Recreates(t, s, FinalCid(t, p))
  {
    FinishedEntries(t, size, order, gone, s, p);
    var k :| 0 <= k < |order| && order[k] == p;
    assert DirHit(s, order, |order|, FinalCid(t, order[k]));
  }

  /** Hashing any directory entry again, from the finished summary, gives its identifier once more. */
  lemma RehashIsStable(t: FsTree, size: Sizer, order: seq<Path>, gone: set<Path>, s: Summary, p: Path, links: seq<Link>)
    requires Finished(t, size, order, gone, s) && p in s.entries && s.entries[p].isDir && LinksExactly(s.entries, p, links)
    ensures Of(Directory(SortLinks(links))) == s.entries[p].cid
  {
    var u := PruneRoot(t);
    FinishedEntries(t, size, order, gone, s, p);
    if At(u, p).Some? {
      AllDone(t, size, order, gone, s, p);
      DirectoryHash(u, s.entries, p, links);
    } else {
      LeftoverIsEmpty(u, s.entries, p);
      EmptyHash(s.entries, p, links);
    }
  }

  lemma AllDone(t: FsTree, size: Sizer, order: seq<Path>, gone: set<Path>, s: Summary, p: Path)
    requires Finished(t, size, order, gone, s) && At(PruneRoot(t), p).Some?
    ensures forall n :: Lookup(PruneRoot(t), ChildKey(p, n)).Some? ==> Done(PruneRoot(t), s.entries, ChildKey(p, n))
  {
    var u := PruneRoot(t);
    forall n | Lookup(u, ChildKey(p, n)).Some? ensures Done(u, s.entries, ChildKey(p, n)) {
      var q := ChildKey(p, n);
      assert q in s.entries && q != ROOT && At(u, q) == Lookup(u, q);
      FinishedEntries(t, size, order, gone, s, q);
      assert EntryMatches(At(u, q).value, s.entries[q]);
    }
  }
}
