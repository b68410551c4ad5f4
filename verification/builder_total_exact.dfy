/** When the announced total is the sum of the listed block sizes, as it is documented to be. */
module BuilderTotalExact {
  import opened Base
  import opened Dag
  import opened FsTrees
  import opened TreeSummaries
  import opened Collect
  import opened BuilderSteps
  import opened BuilderPrune
  import opened BuilderRehash
  import opened BuilderWalk
  import opened BuilderResult
  import opened BuilderTotals
  import opened BuilderTheorems

  ghost function NamesOf(ls: seq<Link>): set<string> {
    set i | 0 <= i < |ls| :: ls[i].name
  }

  /**
   * What is true of dag-pb as it is used here, where a link records a name, an identifier and only that identifier's length:
   * a directory block is never empty, and dropping names from it does not make it longer.
   */
  ghost predicate DirSizer(size: Sizer) {
    && (forall ls :: size(Directory(ls)) > 0)
    && forall a, b :: DistinctNames(a) && DistinctNames(b) && NamesOf(a) <= NamesOf(b) ==> size(Directory(a)) <= size(Directory(b))
  }

  // ---------------------------------------------------------------- pruning only drops names

  lemma FolderNames(t: FsTree, n: string)
    requires WellFormed(t) && t.Folder?
    ensures n in NamesOf(TreeNode(t).links) <==> Child(t, n).Some?
  {
    var ls := TreeNode(t).links;
    if n in NamesOf(ls) {
      var i :| 0 <= i < |ls| && ls[i].name == n;
      FolderLinks(t, ls[i]);
    }
    if Child(t, n).Some? {
      var l := Link(n, TreeCid(Child(t, n).value));
      FolderLinks(t, l);
      var i :| 0 <= i < |ls| && ls[i] == l;
    }
  }

  lemma FolderDistinct(t: FsTree)
    requires WellFormed(t) && t.Folder?
    ensures DistinctNames(TreeNode(t).links)
  {
    KidLinksDistinct(t.kids);
    SortSorts(KidLinks(t.kids));
    SortedIsDistinct(SortLinks(KidLinks(t.kids)));
  }

  lemma SortedIsDistinct(ls: seq<Link>)
    requires StrictlySorted(ls)
    ensures DistinctNames(ls)
  {
    forall i, j | 0 <= i < j < |ls| ensures ls[i].name != ls[j].name {
      LessIsStrictOrder(ls[i].name, ls[j].name, "");
    }
  }

  lemma FewerNames(a: FsTree, b: FsTree)
    requires WellFormed(a) && WellFormed(b) && a.Folder? && b.Folder?
    requires forall n :: Child(a, n).Some? ==> Child(b, n).Some?
    ensures NamesOf(TreeNode(a).links) <= NamesOf(TreeNode(b).links)
  {
    forall n | n in NamesOf(TreeNode(a).links) ensures n in NamesOf(TreeNode(b).links) {
      FolderNames(a, n);
      FolderNames(b, n);
    }
  }

  lemma FewerNamesNoLonger(size: Sizer, a: FsTree, b: FsTree)
    requires DirSizer(size) && WellFormed(a) && WellFormed(b) && a.Folder? && b.Folder?
    requires forall n :: Child(a, n).Some? ==> Child(b, n).Some?
    ensures size(TreeNode(a)) <= size(TreeNode(b))
  {
    FolderDistinct(a);
    FolderDistinct(b);
    FewerNames(a, b);
    assert TreeNode(a) == Directory(TreeNode(a).links) && TreeNode(b) == Directory(TreeNode(b).links);
  }

  lemma PrunedNoLonger(size: Sizer, sub: FsTree)
    requires DirSizer(size) && WellFormed(sub) && sub.Folder?
    ensures size(TreeNode(Prune(sub))) <= size(TreeNode(sub)) && size(TreeNode(PruneRoot(sub))) <= size(TreeNode(sub))
  {
    PruneWellFormed(sub);
    PruneRootWellFormed(sub);
    forall n ensures Child(Prune(sub), n).Some? ==> Child(sub, n).Some? {
      FindInPruned(sub.kids, n);
    }
    forall n ensures Child(PruneRoot(sub), n).Some? ==> Child(sub, n).Some? {
      FindInPrunedBelow(sub.kids, n);
    }
    FewerNamesNoLonger(size, Prune(sub), sub);
    FewerNamesNoLonger(size, PruneRoot(sub), sub);
  }

  lemma EmptyNoLonger(size: Sizer, sub: FsTree)
    requires DirSizer(size) && WellFormed(sub) && sub.Folder?
    ensures size(EMPTY_DIR.node) <= size(TreeNode(sub))
  {
    FolderDistinct(sub);
    assert NamesOf([]) <= NamesOf(TreeNode(sub).links);
    assert TreeNode(sub) == Directory(TreeNode(sub).links);
  }

  function WholeSize(t: FsTree, size: Sizer, p: Path): nat
    requires At(t, p).Some?
  {
    size(TreeNode(At(t, p).value))
  }

  /** A directory's final block is no longer than its first one, and never empty. */
  lemma FinalNoLonger(t: FsTree, size: Sizer, p: Path)
    requires WellFormed(t) && DirSizer(size) && TreeDir(t, p)
    ensures 0 < SizeOf(size, FinalCid(t, p)) <= WholeSize(t, size, p)
  {
    var sub := At(t, p).value;
    LookupWellFormed(t, TreePath(p));
    LookupPruned(t, TreePath(p));
    FinalIsDirectory(t, p);
    PrunedNoLonger(size, sub);
    EmptyNoLonger(size, sub);
  }

  // ---------------------------------------------------------------- the two sums

  function WholeSizes(t: FsTree, size: Sizer, ps: seq<Path>): (r: seq<nat>)
    requires forall k :: 0 <= k < |ps| ==> At(t, ps[k]).Some?
    ensures |r| == |ps|
  {
    seq(|ps|, k requires 0 <= k < |ps| => WholeSize(t, size, ps[k]))
  }

  lemma SumCons(n: nat, rest: seq<nat>)
    ensures Sum([n] + rest) == n + Sum(rest)
  {
    SumConcat([n], rest);
    assert [n][..0] == [];
  }

  lemma FinalSizesCons(t: FsTree, size: Sizer, p: Path, ps: seq<Path>)
    ensures SizesOf(size, FinalCids(t, [p] + ps)) == [SizeOf(size, FinalCid(t, p))] + SizesOf(size, FinalCids(t, ps))
  {
    hide FinalCid;
    var all := FinalCids(t, [p] + ps);
    assert all == [FinalCid(t, p)] + FinalCids(t, ps);
  }

  lemma WholeSizesCons(t: FsTree, size: Sizer, ps: seq<Path>)
    requires ps != [] && forall k :: 0 <= k < |ps| ==> At(t, ps[k]).Some?
    ensures WholeSizes(t, size, ps) == [WholeSize(t, size, ps[0])] + WholeSizes(t, size, ps[1..])
  {
  }

  /** Dropping the blocks of pruned directories loses bytes, and rehashing the others gains none. */
  lemma {:induction false} PruningLoses(t: FsTree, size: Sizer, ps: seq<Path>, gone: set<Path>)
    requires WellFormed(t) && DirSizer(size) && forall k :: 0 <= k < |ps| ==> TreeDir(t, ps[k]) && At(t, ps[k]).Some?
    ensures Sum(SizesOf(size, FinalCids(t, Without(ps, gone)))) <= Sum(WholeSizes(t, size, ps))
    ensures (exists k :: 0 <= k < |ps| && ps[k] in gone)
        ==> Sum(SizesOf(size, FinalCids(t, Without(ps, gone)))) < Sum(WholeSizes(t, size, ps))
  {
    if ps != [] {
      hide DirSizer, WellFormed, FinalCid, WholeSize, FinalCids, SizesOf, Sum, WholeSizes, At, TreeDir;
      forall k | 0 <= k < |ps[1..]| ensures TreeDir(t, ps[1..][k]) && At(t, ps[1..][k]).Some? {
        assert ps[1..][k] == ps[k + 1];
      }
      PruningLoses(t, size, ps[1..], gone);
      FinalNoLonger(t, size, ps[0]);
      WholeSizesCons(t, size, ps);
      SumCons(WholeSize(t, size, ps[0]), WholeSizes(t, size, ps[1..]));
      FinalSizesCons(t, size, ps[0], Without(ps[1..], gone));
      SumCons(SizeOf(size, FinalCid(t, ps[0])), SizesOf(size, FinalCids(t, Without(ps[1..], gone))));
      if k :| 0 <= k < |ps| && ps[k] in gone {
        assert k > 0 ==> ps[1..][k - 1] in gone;
      }
    } else {
      NoSizes(t, size);
    }
  }

  lemma NoSizes(t: FsTree, size: Sizer)
    ensures SizesOf(size, FinalCids(t, [])) == [] && WholeSizes(t, size, []) == []
  {
  }

  // ---------------------------------------------------------------- no emptied directory

  lemma {:induction false} KidsAreClean(kids: seq<Kid>)
    requires forall i :: 0 <= i < |kids| ==> HasFile(kids[i].tree) && Clean(kids[i].tree)
    ensures CleanKids(kids)
  {
    if kids != [] {
      KidsAreClean(kids[1..]);
    }
  }

  /** Without an emptied directory no folder is file-less. */
  lemma {:induction false} NoneEmptied(t: FsTree)
    requires WellFormed(t) && forall p :: !Emptied(t, p)
    ensures Clean(t)
    decreases t
  {
    if t.Folder? {
      forall i | 0 <= i < |t.kids| ensures HasFile(t.kids[i].tree) && Clean(t.kids[i].tree) {
        FindIndex(t.kids, i);
        var sub := t.kids[i].tree;
        forall p ensures !Emptied(sub, p) {
          EmptiedBelow(t, i, p);
        }
        assert Lookup(t, [t.kids[i].name]) == Some(sub);
        assert !Emptied(t, [t.kids[i].name]);
        NoneEmptied(sub);
      }
      KidsAreClean(t.kids);
    }
  }

  lemma EmptiedBelow(t: FsTree, i: nat, p: Path)
    requires WellFormed(t) && t.Folder? && i < |t.kids|
    ensures Emptied(t.kids[i].tree, p) ==> Emptied(t, [t.kids[i].name] + p)
  {
    FindIndex(t.kids, i);
    FolderLookup(t, [t.kids[i].name] + p);
    assert ([t.kids[i].name] + p)[1..] == p;
  }

  // ---------------------------------------------------------------- the exact condition

  lemma UnprunedSum(t: FsTree, size: Sizer, order: seq<Path>, total: nat)
    requires Unpruned(t, size, total) && TreeDirs(t, order) && forall k :: 0 <= k < |order| ==> At(t, order[k]).Some?
    ensures total == Sum(SizesOf(size, WalkBlocks(t))) + Sum(WholeSizes(t, size, order))
  {
    var o1, s1 :| FirstPass(t, WalkBlocks(t), size, o1, |o1|, s1) && total == Sum(s1.blockSizes);
    hide FirstPass, WalkBlocks;
    PassBlocks(t, WalkBlocks(t), size, o1, s1, order);
    PassSizes(t, WalkBlocks(t), size, o1, s1);
    DirSizes(t, size, order);
    hide DirCids, Sum, SizesOf, TreeDirs, WholeSizes;
    SumOfParts(size, s1.blockOrder, WalkBlocks(t), DirCids(t, order));
  }

  lemma DirSizes(t: FsTree, size: Sizer, order: seq<Path>)
    requires TreeDirs(t, order) && forall k :: 0 <= k < |order| ==> At(t, order[k]).Some?
    ensures SizesOf(size, DirCids(t, order)) == WholeSizes(t, size, order)
  {
    forall k | 0 <= k < |order| ensures SizeOf(size, DirCids(t, order)[k]) == WholeSize(t, size, order[k]) {
      assert order[k] in order;
    }
  }

  lemma SumOfParts(size: Sizer, all: seq<Cid>, a: seq<Cid>, b: seq<Cid>)
    requires multiset(all) == multiset(a) + multiset(b)
    ensures Sum(SizesOf(size, all)) == Sum(SizesOf(size, a)) + Sum(SizesOf(size, b))
  {
    assert multiset(all) == multiset(a + b);
    PermutedSum(size, all, a + b);
    assert SizesOf(size, a + b) == SizesOf(size, a) + SizesOf(size, b);
    SumConcat(SizesOf(size, a), SizesOf(size, b));
  }

  lemma FinishedSum(t: FsTree, size: Sizer, order: seq<Path>, gone: set<Path>, s: Summary)
    requires Finished(t, size, order, gone, s)
    ensures Sum(s.blockSizes) == Sum(SizesOf(size, WalkBlocks(t))) + Sum(SizesOf(size, FinalCids(t, Without(order, gone))))
  {
    FinishedDirs(t, size, order, gone, s);
    hide Finished, WalkBlocks, FinalCids;
    LiveBlocks(t, size, order, gone, s);
    SizedSum(s, size);
    SumOfParts(size, s.blockOrder, WalkBlocks(t), FinalCids(t, Without(order, gone)));
  }

  /** TotalSize is the sum of BlockSizes if and only if no directory was emptied; otherwise it is larger. */
  lemma TotalExactly(t: FsTree, size: Sizer, order: seq<Path>, gone: set<Path>, s: Summary, total: nat)
    requires Finished(t, size, order, gone, s) && Unpruned(t, size, total) && DirSizer(size)
    ensures total >= Sum(s.blockSizes)
    ensures total == Sum(s.blockSizes) <==> forall p :: !Emptied(t, p)
  {
    IsSound(t, size, order, gone, s);
    FinishedDirs(t, size, order, gone, s);
    FinishedSum(t, size, order, gone, s);
    OrderFound(t, order);
    hide Finished, Unpruned, DirSizer, Sum, SizesOf, WalkBlocks, FinalCids, WholeSizes, Without, WellFormed, TreeDirs, TreeDir, Holds;
    UnprunedSum(t, size, order, total);
    PruningLoses(t, size, order, gone);
    if forall p :: !Emptied(t, p) {
      NoneEmptied(t);
      CleanTotal(t, size, order, gone, s, total);
    } else {
      var p :| Emptied(t, p);
      GoneIsOrdered(t, order, gone, p);
    }
  }

  lemma OrderFound(t: FsTree, order: seq<Path>)
    requires TreeDirs(t, order)
    ensures forall k :: 0 <= k < |order| ==> TreeDir(t, order[k]) && At(t, order[k]).Some?
  {
    forall k | 0 <= k < |order| ensures TreeDir(t, order[k]) {
      assert order[k] in order;
    }
  }

  lemma GoneIsOrdered(t: FsTree, order: seq<Path>, gone: set<Path>, p: Path)
    requires TreeDirs(t, order) && AllPruned(t, gone) && Emptied(t, p) && p != ROOT
    ensures exists k :: 0 <= k < |order| && order[k] in gone
  {
    assert TreeDir(t, p) && p in order;
    var k :| 0 <= k < |order| && order[k] == p;
  }

  // ---------------------------------------------------------------- a tree whose total is announced too large

  /** One file beside one empty folder. */
  function FileAndEmptyFolder(): FsTree {
    Folder([Kid("empty", Folder([])), Kid("file", File(FileNode([], [1], 1)))])
  }

  lemma EmptyFolderIsEmptied()
    ensures Emptied(FileAndEmptyFolder(), ["empty"])
  {
    assert ["empty"][..0] == [];
  }

  /** The empty folder's block stays counted after it left the block list. */
  lemma EmptyFolderStaysCounted(size: Sizer, order: seq<Path>, gone: set<Path>, s: Summary, total: nat)
    requires Finished(FileAndEmptyFolder(), size, order, gone, s) && Unpruned(FileAndEmptyFolder(), size, total) && DirSizer(size)
    ensures total > Sum(s.blockSizes)
  {
    EmptyFolderIsEmptied();
    hide Finished, Unpruned, DirSizer, Sum, Emptied, FileAndEmptyFolder;
    TotalExactly(FileAndEmptyFolder(), size, order, gone, s, total);
  }
}
