/** In which order the finished block list has its blocks: the files' as walked, then the kept directories', deepest first. */
module BuilderSequence {
  import opened Base
  import opened Dag
  import opened FsTrees
  import opened Bfs
  import opened TreeSummaries
  import opened BuilderSteps
  import opened BuilderPrune
  import opened BuilderRehash
  import opened BuilderWalk
  import opened BuilderResult
  import opened BuilderTheorems

  ghost predicate AllFolders(t: FsTree, ps: seq<Path>) {
    forall k :: 0 <= k < |ps| ==> ps[k] != [] && FolderAt(t, ps[k])
  }

  /** The identifiers before pruning. */
  ghost function OldCids(t: FsTree, ps: seq<Path>): (r: seq<Cid>)
    requires AllFolders(t, ps)
    ensures |r| == |ps| && forall i :: 0 <= i < |ps| ==> r[i] == TreeCid(At(t, ps[i]).value)
  {
    seq(|ps|, i requires 0 <= i < |ps| => TreeCid(At(t, ps[i]).value))
  }

  ghost function FinalCids(t: FsTree, ps: seq<Path>): (r: seq<Cid>)
    ensures |r| == |ps| && forall i :: 0 <= i < |ps| ==> r[i] == FinalCid(t, ps[i])
  {
    seq(|ps|, i requires 0 <= i < |ps| => FinalCid(t, ps[i]))
  }

  ghost predicate FileBlocksOnly(files: seq<Cid>) {
    forall k :: 0 <= k < |files| ==> files[k].Of? && files[k].node.FileNode?
  }

  // ---------------------------------------------------------------- pruning

  /** Pruning takes out blocks of directories without files, and never the root's. */
  predicate Lasting(t: FsTree, c: Cid) {
    HasFileCid(c) || c == TreeCid(t)
  }

  function Sieve(t: FsTree, cs: seq<Cid>): seq<Cid> {
    if cs == [] then [] else (if Lasting(t, cs[0]) then [cs[0]] else []) + Sieve(t, cs[1..])
  }

  lemma {:induction false} SieveAppend(t: FsTree, a: seq<Cid>, b: seq<Cid>)
    ensures Sieve(t, a + b) == Sieve(t, a) + Sieve(t, b)
  {
    hide Lasting;
    if a == [] {
      assert a + b == b;
    } else {
      assert (a + b)[0] == a[0] && (a + b)[1..] == a[1..] + b;
      SieveAppend(t, a[1..], b);
    }
  }

  lemma SieveDrop(t: FsTree, cs: seq<Cid>, i: nat)
    requires i < |cs| && !Lasting(t, cs[i])
    ensures Sieve(t, DropAt(cs, i)) == Sieve(t, cs)
  {
    hide Lasting;
    assert cs == cs[..i] + ([cs[i]] + cs[i + 1..]);
    assert ([cs[i]] + cs[i + 1..])[1..] == cs[i + 1..];
    SieveAppend(t, cs[..i], [cs[i]] + cs[i + 1..]);
    SieveAppend(t, cs[..i], cs[i + 1..]);
  }

  lemma {:induction false} SieveAll(t: FsTree, cs: seq<Cid>)
    requires forall k :: 0 <= k < |cs| ==> Lasting(t, cs[k])
    ensures Sieve(t, cs) == cs
  {
    hide Lasting;
    if cs != [] {
      SieveAll(t, cs[1..]);
    }
  }

  /** What will last stands in the list as it did after the first hashing pass. */
  ghost predicate PruneLine(t: FsTree, files: seq<Cid>, order: seq<Path>, bs: seq<Cid>) {
    AllFolders(t, order) && Sieve(t, bs) == Sieve(t, files + OldCids(t, order))
  }

  lemma DirectoryOrder(t: FsTree, es: Entries, order: seq<Path>)
    requires Skeleton(t, {}, es) && DeepestFirst(es, order) && forall k :: 0 <= k < |order| ==> At(t, order[k]).Some?
    ensures AllFolders(t, order)
  {
    forall k | 0 <= k < |order| ensures order[k] != [] && FolderAt(t, order[k]) {
      assert order[k] in es && WellNamed(order[k], es[order[k]]) && EntryMatches(At(t, order[k]).value, es[order[k]]);
    }
  }

  lemma PruneLineStarts(t: FsTree, files: seq<Cid>, size: Sizer, order: seq<Path>, s: Summary)
    requires FirstPass(t, files, size, order, |order|, s)
    ensures PruneLine(t, files, order, s.blockOrder)
  {
    DirectoryOrder(t, s.entries, order);
    hide Skeleton, FilesIndexed, Lookup, TreeCid, Sized, Sieve;
    assert order[..|order|] == order;
    assert CidsOf(s.entries, order) == OldCids(t, order);
  }

  lemma PrunedList(s: Summary, p: Path)
    requires p in s.entries && |s.blockOrder| == |s.blockSizes|
    ensures var i := FirstIndex(s.blockOrder, s.entries[p].cid);
            || PruneDir(s, p).blockOrder == s.blockOrder
            || (i < |s.blockOrder| && PruneDir(s, p).blockOrder == DropAt(s.blockOrder, i))
  {
    hide FirstIndex, DropAt, RemoveFirst;
  }

  lemma PruningTree(t: FsTree, files: seq<Cid>, size: Sizer, order: seq<Path>, gone: set<Path>, s: Summary)
    requires Pruning(t, files, size, order, gone, s)
    ensures t.Folder? && WellFormed(t) && NoRootName(t) && DeepestFirst(s.entries, order)
  {
  }

  lemma PruneLineStep(t: FsTree, files: seq<Cid>, size: Sizer, order: seq<Path>, gone: set<Path>, s: Summary, p: Path)
    requires Pruning(t, files, size, order, gone, s) && Emptied(t, p) && p !in gone && PruneLine(t, files, order, s.blockOrder)
    ensures p in s.entries && |s.blockOrder| == |s.blockSizes| && PruneLine(t, files, order, PruneDir(s, p).blockOrder)
  {
    hide Pruning, PruneDir, Emptied, Sieve, FirstIndex, Lasting, AllFolders, WellFormed, NoRootName, DropAt;
    PruneStep(t, files, size, order, gone, s, p);
    PruningTree(t, files, size, order, gone, s);
    PrunedBlock(t, files, size, order, gone, s, p);
    PrunedList(s, p);
    var i := FirstIndex(s.blockOrder, s.entries[p].cid);
    FirstIndexFinds(s.blockOrder, s.entries[p].cid);
    if i < |s.blockOrder| {
      SieveDrop(t, s.blockOrder, i);
    }
  }

  lemma FirstIndexFinds(s: seq<Cid>, c: Cid)
    ensures FirstIndex(s, c) <= |s| && (FirstIndex(s, c) < |s| ==> s[FirstIndex(s, c)] == c)
  {
  }

  lemma PrunedBlock(t: FsTree, files: seq<Cid>, size: Sizer, order: seq<Path>, gone: set<Path>, s: Summary, p: Path)
    requires Pruning(t, files, size, order, gone, s) && Emptied(t, p) && p in s.entries && WellFormed(t) && NoRootName(t)
    ensures !Lasting(t, s.entries[p].cid)
  {
    GoneHasNoFile(t, p);
    hide FilesIndexed, TreeCid, HasFileCid, Holds, Sized;
    assert EntryMatches(At(t, p).value, s.entries[p]);
    DoneAt(t, s.entries, order, p);
  }

  /** Of the directories, exactly those that are not file-less last. */
  lemma {:induction false} SieveDirectories(t: FsTree, ps: seq<Path>, gone: set<Path>)
    requires t.Folder? && WellFormed(t) && NoRootName(t) && AllPruned(t, gone) && AllFolders(t, ps)
    ensures AllFolders(t, Without(ps, gone)) && Sieve(t, OldCids(t, ps)) == OldCids(t, Without(ps, gone))
  {
    hide AllPruned, TreeCid, Lasting, WellFormed, NoRootName, FolderAt;
    if ps != [] {
      SieveDirectories(t, ps[1..], gone);
      assert OldCids(t, ps)[1..] == OldCids(t, ps[1..]);
      LastingDirectory(t, gone, ps[0]);
      if ps[0] !in gone {
        assert OldCids(t, [ps[0]] + Without(ps[1..], gone)) == [OldCids(t, ps)[0]] + OldCids(t, Without(ps[1..], gone));
      }
    }
  }

  lemma LastingDirectory(t: FsTree, gone: set<Path>, p: Path)
    requires t.Folder? && WellFormed(t) && NoRootName(t) && AllPruned(t, gone) && p != [] && FolderAt(t, p)
    ensures Lasting(t, TreeCid(At(t, p).value)) <==> p !in gone
  {
    hide HasFileCid, TreeCid, WellFormed;
    if p in gone {
      GoneHasNoFile(t, p);
    } else if p != ROOT {
      LiveHasFile(t, p);
    }
  }

  lemma PrunedLists(t: FsTree, files: seq<Cid>, size: Sizer, order: seq<Path>, gone: set<Path>, s: Summary, k: nat)
    requires Pruning(t, files, size, order, gone, s) && AllPruned(t, gone) && t.Folder? && WellFormed(t) && NoRootName(t)
    requires FileBlocksOnly(files) && AllFolders(t, order) && k < |s.blockOrder|
    ensures Lasting(t, s.blockOrder[k])
  {
    var x, live := s.blockOrder[k], Without(order, gone);
    assert x in multiset(s.blockOrder);
    hide Skeleton, FilesIndexed, TreeCid, Without, Sized, FolderAt, WellFormed, NoRootName, AllPruned;
    if x in files {
      var j :| 0 <= j < |files| && files[j] == x;
    } else {
      assert x in multiset(CidsOf(s.entries, live));
      var j :| 0 <= j < |live| && CidsOf(s.entries, live)[j] == x;
      WithoutAt(order, gone, j);
      var i :| 0 <= i < |order| && order[i] == live[j];
      LastingDirectory(t, gone, order[i]);
    }
  }

  /** Pruned to the end, the list has the files' blocks and those of the kept directories, each in the order of the first pass. */
  lemma PruneLineEnds(t: FsTree, files: seq<Cid>, size: Sizer, order: seq<Path>, gone: set<Path>, s: Summary)
    requires Pruning(t, files, size, order, gone, s) && AllPruned(t, gone)
    requires FileBlocksOnly(files) && PruneLine(t, files, order, s.blockOrder)
    ensures AllFolders(t, Without(order, gone)) && s.blockOrder == files + OldCids(t, Without(order, gone))
  {
    hide Pruning, AllPruned, WellFormed, NoRootName, Sieve, Lasting, AllFolders, Without;
    PruningTree(t, files, size, order, gone, s);
    forall k | 0 <= k < |s.blockOrder| ensures Lasting(t, s.blockOrder[k]) {
      PrunedLists(t, files, size, order, gone, s, k);
    }
    SieveAll(t, s.blockOrder);
    FilesLast(t, files);
    SieveAll(t, files);
    SieveAppend(t, files, OldCids(t, order));
    SieveDirectories(t, order, gone);
  }

  lemma FilesLast(t: FsTree, files: seq<Cid>)
    requires FileBlocksOnly(files)
    ensures forall k :: 0 <= k < |files| ==> Lasting(t, files[k])
  {
  }

  // ---------------------------------------------------------------- hashing again

  /** The directories whose blocks the list has: folders that are kept, the root last. */
  ghost predicate KeptFolders(t: FsTree, kept: seq<Path>) {
    && AllFolders(t, kept) && NoDuplicates(kept) && kept != [] && kept[|kept| - 1] == ROOT
    && forall k :: 0 <= k < |kept| ==> kept[k] == ROOT || !Emptied(t, kept[k])
  }

  /** At each place the old or the final identifier; the root's is the old one till the end. */
  ghost predicate InPlace(t: FsTree, c: Cid, p: Path)
    requires FolderAt(t, p)
  {
    c == TreeCid(At(t, p).value) || (p != ROOT && c == FinalCid(t, p))
  }

  ghost predicate RehashLine(t: FsTree, files: seq<Cid>, kept: seq<Path>, order: seq<Path>, i: nat, bs: seq<Cid>) {
    && KeptFolders(t, kept) && FileBlocksOnly(files)
    && if i < |order| then
         && |bs| == |files| + |kept| && bs[..|files|] == files
         && forall k :: 0 <= k < |kept| ==> InPlace(t, bs[|files| + k], kept[k])
       else bs == files + FinalCids(t, kept)
  }

  lemma RehashLineStarts(t: FsTree, files: seq<Cid>, kept: seq<Path>, order: seq<Path>, bs: seq<Cid>)
    requires KeptFolders(t, kept) && FileBlocksOnly(files) && order != []
    requires bs == files + OldCids(t, kept)
    ensures RehashLine(t, files, kept, order, 0, bs)
  {
    hide FolderAt, TreeCid, FinalCid;
  }

  // Two folders of one identifier are pruned alike, in whatever order their entries are given.

  lemma PrunedKid(x: FsTree, n: string)
    requires WellFormed(x) && x.Folder?
    ensures Child(Prune(x), n)
         == if Child(x, n).Some? && HasFile(Child(x, n).value) then Some(Prune(Child(x, n).value)) else None
  {
    FindInPruned(x.kids, n);
  }

  lemma SameKids(x: FsTree, y: FsTree, n: string)
    requires WellFormed(x) && WellFormed(y) && x.Folder? && y.Folder? && TreeCid(x) == TreeCid(y) && Child(x, n).Some?
    ensures Child(y, n).Some? && TreeCid(Child(y, n).value) == TreeCid(Child(x, n).value)
    ensures HasFile(Child(y, n).value) <==> HasFile(Child(x, n).value)
  {
    var l := Link(n, TreeCid(Child(x, n).value));
    FolderLinks(x, l);
    FolderLinks(y, l);
    assert TreeCid(x).node == TreeNode(x) && TreeCid(y).node == TreeNode(y);
    ChildWellFormed(x, n);
    ChildWellFormed(y, n);
    HasFileInCid(Child(x, n).value);
    HasFileInCid(Child(y, n).value);
  }

  lemma SameKind(x: FsTree, y: FsTree)
    requires WellFormed(x) && WellFormed(y) && TreeCid(x) == TreeCid(y)
    ensures x.Folder? <==> y.Folder?
    ensures x.File? ==> x == y
  {
    assert TreeCid(x).node == TreeNode(x) && TreeCid(y).node == TreeNode(y);
  }

  lemma {:induction false} PrunedAlike(x: FsTree, y: FsTree)
    requires WellFormed(x) && WellFormed(y) && TreeCid(x) == TreeCid(y)
    ensures TreeCid(Prune(x)) == TreeCid(Prune(y))
    decreases Height(TreeCid(x)), 1
  {
    SameKind(x, y);
    if x.Folder? {
      hide TreeCid, TreeNode, WellFormed, HasFile, Height;
      PruneWellFormed(x);
      PruneWellFormed(y);
      forall l ensures l in TreeNode(Prune(x)).links <==> l in TreeNode(Prune(y)).links {
        PrunedLinkAlike(x, y, l);
      }
      SameFolder(Prune(x), Prune(y));
    }
  }

  lemma {:induction false} PrunedLinkAlike(x: FsTree, y: FsTree, l: Link)
    requires WellFormed(x) && WellFormed(y) && x.Folder? && y.Folder? && TreeCid(x) == TreeCid(y)
    requires WellFormed(Prune(x)) && WellFormed(Prune(y))
    ensures l in TreeNode(Prune(x)).links <==> l in TreeNode(Prune(y)).links
    decreases Height(TreeCid(x)), 0
  {
    hide TreeCid, TreeNode, WellFormed, HasFile, Height, Prune;
    PrunedKid(x, l.name);
    PrunedKid(y, l.name);
    PrunedFolder(x);
    PrunedFolder(y);
    FolderLinks(Prune(x), l);
    FolderLinks(Prune(y), l);
    if Child(x, l.name).Some? {
      SameKids(x, y, l.name);
      ChildIsLower(x, l.name);
      ChildWellFormed(x, l.name);
      ChildWellFormed(y, l.name);
      PrunedAlike(Child(x, l.name).value, Child(y, l.name).value);
    } else if Child(y, l.name).Some? {
      SameKids(y, x, l.name);
    }
  }

  lemma PrunedFolder(x: FsTree)
    ensures Prune(x).Folder? <==> x.Folder?
  {
  }

  lemma SameFolder(x: FsTree, y: FsTree)
    requires WellFormed(x) && WellFormed(y) && x.Folder? && y.Folder?
    requires forall l :: l in TreeNode(x).links <==> l in TreeNode(y).links
    ensures TreeCid(x) == TreeCid(y)
  {
    KidLinksDistinct(x.kids);
    KidLinksDistinct(y.kids);
    SortSorts(KidLinks(x.kids));
    SortSorts(KidLinks(y.kids));
    hide SortLinks, KidLinks, WellFormed;
    assert TreeNode(x) == Directory(SortLinks(KidLinks(x.kids))) && TreeNode(y) == Directory(SortLinks(KidLinks(y.kids)));
    SortedUnique(TreeNode(x).links, TreeNode(y).links);
  }

  /** Wherever a directory's old identifier is met, its final one may stand. */
  lemma Replaced(t: FsTree, q: Path, p: Path)
    requires t.Folder? && WellFormed(t) && NoRootName(t) && q != [] && FolderAt(t, q) && (q == ROOT || !Emptied(t, q))
    requires p != [] && p != ROOT && FolderAt(t, p) && InPlace(t, TreeCid(At(t, p).value), q)
    ensures InPlace(t, FinalCid(t, p), q)
  {
    var x, y := At(t, p).value, At(t, q).value;
    hide Lookup, TreeCid, FinalCid, WellFormed, NoRootName, HasFileCid, Prune;
    DescendantIsLower(t, p);
    RootFolder(t);
    if q != ROOT {
      LiveHasFile(t, q);
      if Emptied(t, p) {
        GoneHasNoFile(t, p);
      }
      LiveHasFile(t, p);
      if TreeCid(x) == TreeCid(y) {
        FolderWellFormed(t, p);
        FolderWellFormed(t, q);
        PrunedAlike(x, y);
      } else {
        NoStaleCollision(t, q, p);
      }
    }
  }

  lemma RootFolder(t: FsTree)
    ensures At(t, ROOT) == Some(t)
  {
  }

  lemma FolderWellFormed(t: FsTree, p: Path)
    requires WellFormed(t) && FolderAt(t, p)
    ensures WellFormed(At(t, p).value)
  {
    LookupWellFormed(t, TreePath(p));
  }

  lemma RehashedList(s: Summary, p: Path, c: Cid, n: nat)
    requires p in s.entries && |s.blockOrder| == |s.blockSizes|
    requires FirstIndex(s.blockOrder, s.entries[p].cid) < |s.blockOrder| || s.entries[p].children == []
    ensures var j := FirstIndex(s.blockOrder, s.entries[p].cid);
            RehashDir(s, p, c, n).blockOrder == if j < |s.blockOrder| then s.blockOrder[j := c] else s.blockOrder
  {
    hide FirstIndex, Reindex;
  }

  lemma StepTree(t: FsTree, files: seq<Cid>, size: Sizer, order: seq<Path>, gone: set<Path>, i: nat, s: Summary)
    requires Rehashing(t, files, size, order, gone, i, s)
    ensures t.Folder? && WellFormed(t) && NoRootName(t) && AllPruned(t, gone) && |s.blockOrder| == |s.blockSizes|
    ensures DeepestFirst(s.entries, order)
  {
    hide Skeleton, FilesIndexed, Holds, DirHit, NoRootName, WellFormed, AllPruned, DeepestFirst, FolderAt, Hashed, Done;
  }

  lemma StepEntry(t: FsTree, files: seq<Cid>, size: Sizer, order: seq<Path>, gone: set<Path>, i: nat, s: Summary)
    requires Rehashing(t, files, size, order, gone, i, s) && i < |order|
    ensures order[i] in s.entries && FolderAt(t, order[i]) && s.entries[order[i]].cid == TreeCid(At(t, order[i]).value)
  {
    hide Skeleton, FilesIndexed, Lookup, TreeCid, Holds, DirHit, NoRootName, WellFormed, AllPruned, DeepestFirst, Hashed;
    assert Done(t, s.entries, order[i]) && FolderAt(t, order[i]);
  }

  lemma KeysAreNamed(u: FsTree, es: Entries, p: Path)
    requires Skeleton(u, {}, es) && p in es
    ensures p != []
  {
    hide ChildrenMatch, EntryMatches, WellFormed, NoRootName, Lookup;
    assert WellNamed(p, es[p]);
  }

  lemma StepFacts(t: FsTree, files: seq<Cid>, size: Sizer, order: seq<Path>, gone: set<Path>, i: nat, s: Summary)
    requires Rehashing(t, files, size, order, gone, i, s) && i < |order|
    ensures t.Folder? && WellFormed(t) && NoRootName(t) && AllPruned(t, gone) && |s.blockOrder| == |s.blockSizes|
    ensures order[i] in s.entries && order[i] != [] && FolderAt(t, order[i]) && s.entries[order[i]].cid == TreeCid(At(t, order[i]).value)
    ensures order[i] == ROOT <==> i == |order| - 1
  {
    hide Rehashing, Skeleton, TreeCid, WellFormed, NoRootName, AllPruned, FolderAt, PruneRoot;
    StepTree(t, files, size, order, gone, i, s);
    StepEntry(t, files, size, order, gone, i, s);
    RehashEntry(t, files, size, order, gone, i, s);
    KeysAreNamed(PruneRoot(t), s.entries, order[i]);
    RootIsLast(s.entries, order, i);
  }

  lemma NotAFile(t: FsTree, files: seq<Cid>, p: Path, j: nat)
    requires FileBlocksOnly(files) && WellFormed(t) && FolderAt(t, p) && j < |files|
    ensures files[j] != TreeCid(At(t, p).value) && files[j] != FinalCid(t, p)
  {
    FinalIsDirectory(t, p);
  }

  /** The place where a directory's old identifier is found first is a directory's. */
  lemma FoundInPlace(t: FsTree, files: seq<Cid>, bs: seq<Cid>, p: Path)
    requires FileBlocksOnly(files) && WellFormed(t) && FolderAt(t, p) && |files| <= |bs| && bs[..|files|] == files
    ensures FirstIndex(bs, TreeCid(At(t, p).value)) >= |files|
  {
    hide TreeCid, WellFormed, FirstIndex;
    var j := FirstIndex(bs, TreeCid(At(t, p).value));
    FirstIndexFinds(bs, TreeCid(At(t, p).value));
    if j < |files| {
      assert bs[..|files|][j] == bs[j];
      NotAFile(t, files, p, j);
    }
  }

  lemma RehashLineStep(
    t: FsTree, files: seq<Cid>, size: Sizer, order: seq<Path>, gone: set<Path>, i: nat, s: Summary, kept: seq<Path>, c: Cid)
    requires Rehashing(t, files, size, order, gone, i, s) && i + 1 < |order| && RehashLine(t, files, kept, order, i, s.blockOrder)
    requires c == FinalCid(t, order[i]) && c.Of?
    ensures order[i] in s.entries && |s.blockOrder| == |s.blockSizes|
    ensures RehashLine(t, files, kept, order, i + 1, RehashDir(s, order[i], c, size(c.node)).blockOrder)
  {
    hide Rehashing, RehashDir, InPlace, FinalCid, WellFormed, NoRootName, AllPruned, Emptied, FirstIndex, FolderAt, FileBlocksOnly;
    StepFacts(t, files, size, order, gone, i, s);
    AppendIsUnreached(t, files, size, order, gone, i, s);
    var p, bs := order[i], s.blockOrder;
    RehashedList(s, p, c, size(c.node));
    FoundInPlace(t, files, bs, p);
    var j := FirstIndex(bs, s.entries[p].cid);
    FirstIndexFinds(bs, s.entries[p].cid);
    if j < |bs| {
      Replaced(t, kept[j - |files|], p);
    }
  }

  /** Whose block a listed directory block is. */
  lemma ListedOwner(
    t: FsTree, files: seq<Cid>, size: Sizer, order: seq<Path>, gone: set<Path>, i: nat, s: Summary, x: Cid) returns (m: nat)
    requires Rehashing(t, files, size, order, gone, i, s) && x in s.blockOrder && x !in files
    ensures m < |order| && order[m] !in gone && order[m] in s.entries && s.entries[order[m]].cid == x
  {
    hide Skeleton, FilesIndexed, Lookup, TreeCid, Without, DirHit, NoRootName, WellFormed, AllPruned, DeepestFirst, Hashed, FolderAt,
      Done, Sized;
    var live := Without(order, gone);
    assert x in multiset(s.blockOrder);
    assert x in multiset(CidsOf(s.entries, live));
    var j :| 0 <= j < |live| && CidsOf(s.entries, live)[j] == x;
    WithoutAt(order, gone, j);
    m :| 0 <= m < |order| && order[m] == live[j];
  }

  lemma HashedAt(t: FsTree, files: seq<Cid>, size: Sizer, order: seq<Path>, gone: set<Path>, i: nat, s: Summary, m: nat)
    requires Rehashing(t, files, size, order, gone, i, s) && m < i
    ensures m < |order| && order[m] in s.entries && s.entries[order[m]].cid == FinalCid(t, order[m]) && FolderAt(t, order[m])
  {
    hide Skeleton, FilesIndexed, Lookup, TreeCid, FinalCid, Holds, DirHit, NoRootName, WellFormed, AllPruned, DeepestFirst, Done, Sized;
    assert Hashed(t, s.entries, order[m]) && FolderAt(t, order[m]);
  }

  lemma NotInFiles(t: FsTree, files: seq<Cid>, p: Path)
    requires FileBlocksOnly(files) && WellFormed(t) && FolderAt(t, p)
    ensures TreeCid(At(t, p).value) !in files
  {
    forall j | 0 <= j < |files| ensures files[j] != TreeCid(At(t, p).value) {
      NotAFile(t, files, p, j);
    }
  }

  /** Before the root is hashed again, a listed old identifier of another directory is a final one as well. */
  lemma OwnerBeforeRoot(t: FsTree, files: seq<Cid>, size: Sizer, order: seq<Path>, gone: set<Path>, s: Summary, q: Path)
    requires order != [] && Rehashing(t, files, size, order, gone, |order| - 1, s) && FileBlocksOnly(files)
    requires q != [] && q != ROOT && FolderAt(t, q) && !Emptied(t, q) && TreeCid(At(t, q).value) in s.blockOrder
    ensures FinalCid(t, q) == TreeCid(At(t, q).value)
  {
    hide Rehashing, Lookup, TreeCid, FinalCid, WellFormed, NoRootName, HasFile, Skeleton, PruneRoot;
    var last := |order| - 1;
    StepFacts(t, files, size, order, gone, last, s);
    NotInFiles(t, files, q);
    var m := ListedOwner(t, files, size, order, gone, last, s, TreeCid(At(t, q).value));
    RootFolder(t);
    DescendantIsLower(t, q);
    if m < last {
      HashedAt(t, files, size, order, gone, last, s, m);
      StepTree(t, files, size, order, gone, last, s);
      NotRootBefore(s.entries, order, m);
      RehashEntry(t, files, size, order, gone, last, s);
      KeysAreNamed(PruneRoot(t), s.entries, order[m]);
      NoStaleCollision(t, order[m], q);
    }
  }

  lemma SettledBeforeRoot(t: FsTree, files: seq<Cid>, size: Sizer, order: seq<Path>, gone: set<Path>, s: Summary, kept: seq<Path>, k: nat)
    requires order != [] && Rehashing(t, files, size, order, gone, |order| - 1, s)
    requires RehashLine(t, files, kept, order, |order| - 1, s.blockOrder) && k < |kept| - 1
    ensures |files| + k < |s.blockOrder| && s.blockOrder[|files| + k] == FinalCid(t, kept[k])
  {
    hide Rehashing, FinalCid, TreeCid, Lookup, Emptied, FileBlocksOnly;
    assert kept[k] != ROOT && InPlace(t, s.blockOrder[|files| + k], kept[k]);
    if s.blockOrder[|files| + k] != FinalCid(t, kept[k]) {
      OwnerBeforeRoot(t, files, size, order, gone, s, kept[k]);
    }
  }

  lemma AllSettled(t: FsTree, files: seq<Cid>, kept: seq<Path>, bs: seq<Cid>)
    requires |bs| == |files| + |kept| && bs[..|files|] == files
    requires forall k :: 0 <= k < |kept| ==> bs[|files| + k] == FinalCid(t, kept[k])
    ensures bs == files + FinalCids(t, kept)
  {
    hide FinalCid;
    forall n | 0 <= n < |bs| ensures bs[n] == (files + FinalCids(t, kept))[n] {
      if n < |files| {
        assert bs[..|files|][n] == bs[n];
      } else {
        assert bs[|files| + (n - |files|)] == FinalCid(t, kept[n - |files|]);
      }
    }
  }

  lemma UpdatedElsewhere(bs: seq<Cid>, n: nat, j: nat, c: Cid)
    requires n <= j < |bs|
    ensures bs[j := c][..n] == bs[..n]
  {
  }

  lemma RootReplaced(t: FsTree, files: seq<Cid>, kept: seq<Path>, bs: seq<Cid>)
    requires t.Folder? && WellFormed(t) && KeptFolders(t, kept) && FileBlocksOnly(files)
    requires |bs| == |files| + |kept| && bs[..|files|] == files && bs[|bs| - 1] == TreeCid(t)
    requires forall k :: 0 <= k < |kept| - 1 ==> bs[|files| + k] == FinalCid(t, kept[k])
    ensures FirstIndex(bs, TreeCid(t)) < |bs|
    ensures bs[FirstIndex(bs, TreeCid(t)) := FinalCid(t, ROOT)] == files + FinalCids(t, kept)
  {
    hide FinalCid, TreeCid, Lookup, Emptied, FileBlocksOnly, WellFormed;
    RootFolder(t);
    FoundInPlace(t, files, bs, ROOT);
    FirstIndexFinds(bs, TreeCid(t));
    FirstIndexOf(bs, TreeCid(t), |bs| - 1);
    var j := FirstIndex(bs, TreeCid(t));
    hide FirstIndex, AllFolders, NoDuplicates;
    if j < |bs| - 1 {
      KeptAt(t, kept, j - |files|);
      assert bs[|files| + (j - |files|)] == TreeCid(t);
      NoStaleCollision(t, kept[j - |files|], ROOT);
      assert bs[j := FinalCid(t, ROOT)] == bs;
    }
    UpdatedElsewhere(bs, |files|, j, FinalCid(t, ROOT));
    AllSettled(t, files, kept, bs[j := FinalCid(t, ROOT)]);
  }

  lemma KeptAt(t: FsTree, kept: seq<Path>, k: nat)
    requires KeptFolders(t, kept) && k < |kept| - 1
    ensures kept[k] != [] && kept[k] != ROOT && FolderAt(t, kept[k]) && !Emptied(t, kept[k])
  {
  }

  lemma FirstIndexOf(s: seq<Cid>, c: Cid, n: nat)
    requires n < |s| && s[n] == c
    ensures FirstIndex(s, c) <= n
  {
  }

  /** Hashing the root again completes the list. */
  lemma RehashLineEnds(
    t: FsTree, files: seq<Cid>, size: Sizer, order: seq<Path>, gone: set<Path>, i: nat, s: Summary, kept: seq<Path>, c: Cid)
    requires Rehashing(t, files, size, order, gone, i, s) && i + 1 == |order| && RehashLine(t, files, kept, order, i, s.blockOrder)
    requires c == FinalCid(t, order[i]) && c.Of?
    ensures order[i] in s.entries && |s.blockOrder| == |s.blockSizes|
    ensures RehashLine(t, files, kept, order, i + 1, RehashDir(s, order[i], c, size(c.node)).blockOrder)
  {
    hide Rehashing, RehashDir, FinalCid, TreeCid, Lookup, WellFormed, NoRootName, AllPruned, Emptied, FirstIndex, FolderAt, FileBlocksOnly;
    StepFacts(t, files, size, order, gone, i, s);
    AppendIsUnreached(t, files, size, order, gone, i, s);
    RehashedList(s, order[i], c, size(c.node));
    RootFolder(t);
    forall k | 0 <= k < |kept| - 1 ensures s.blockOrder[|files| + k] == FinalCid(t, kept[k]) {
      SettledBeforeRoot(t, files, size, order, gone, s, kept, k);
    }
    assert InPlace(t, s.blockOrder[|files| + (|kept| - 1)], kept[|kept| - 1]);
    RootReplaced(t, files, kept, s.blockOrder);
  }

  lemma RehashLineNext(
    t: FsTree, files: seq<Cid>, size: Sizer, order: seq<Path>, gone: set<Path>, i: nat, s: Summary, kept: seq<Path>, c: Cid)
    requires Rehashing(t, files, size, order, gone, i, s) && i < |order| && RehashLine(t, files, kept, order, i, s.blockOrder)
    requires c == FinalCid(t, order[i]) && c.Of?
    ensures order[i] in s.entries && |s.blockOrder| == |s.blockSizes|
    ensures RehashLine(t, files, kept, order, i + 1, RehashDir(s, order[i], c, size(c.node)).blockOrder)
  {
    hide Rehashing, RehashLine, RehashDir, FinalCid;
    if i + 1 < |order| {
      RehashLineStep(t, files, size, order, gone, i, s, kept, c);
    } else {
      RehashLineEnds(t, files, size, order, gone, i, s, kept, c);
    }
  }

  // ---------------------------------------------------------------- the finished list

  /** The virtual root lies above everything else. */
  function Depth(p: Path): nat {
    if p == ROOT then 0 else |p|
  }

  ghost predicate Descending(ps: seq<Path>) {
    forall i, j :: 0 <= i < j < |ps| ==> Depth(ps[i]) >= Depth(ps[j])
  }

  /** All directories that are kept, each once, the deepest first and the root last. */
  ghost predicate DirSequence(t: FsTree, dirs: seq<Path>) {
    KeptFolders(t, dirs) && Descending(dirs) && forall p :: KeptDir(t, p) ==> p in dirs
  }

  /** The block list of a summary: the files' blocks as walked, then those of the directories in such a sequence. */
  ghost predicate Sequenced(t: FsTree, bs: seq<Cid>) {
    exists dirs :: DirSequence(t, dirs) && bs == WalkBlocks(t) + FinalCids(t, dirs)
  }

  lemma {:induction false} WithoutDescends(ps: seq<Path>, gone: set<Path>)
    requires Descending(ps)
    ensures Descending(Without(ps, gone))
  {
    hide Depth;
    if ps != [] {
      WithoutDescends(ps[1..], gone);
      forall j | 0 <= j < |Without(ps[1..], gone)| ensures Depth(ps[0]) >= Depth(Without(ps[1..], gone)[j]) {
        WithoutAt(ps[1..], gone, j);
        var k :| 0 <= k < |ps[1..]| && ps[1..][k] == Without(ps[1..], gone)[j];
        assert ps[k + 1] == ps[1..][k];
      }
    }
  }

  lemma {:induction false} WithoutLast(ps: seq<Path>, gone: set<Path>)
    requires ps != [] && ps[|ps| - 1] !in gone
    ensures Without(ps, gone) != [] && Without(ps, gone)[|Without(ps, gone)| - 1] == ps[|ps| - 1]
  {
    if |ps| > 1 {
      WithoutLast(ps[1..], gone);
    } else {
      assert ps[1..] == [];
    }
  }

  lemma OrderDescends(es: Entries, order: seq<Path>)
    requires DeepestFirst(es, order)
    ensures Descending(order) && NoDuplicates(order) && order != [] && order[|order| - 1] == ROOT
  {
    forall i, j | 0 <= i < j < |order| ensures Depth(order[i]) >= Depth(order[j]) {
      NotRootBefore(es, order, i);
    }
  }

  /** Pruned, the order of the first pass is such a sequence. */
  lemma KeptSequence(t: FsTree, files: seq<Cid>, size: Sizer, order: seq<Path>, gone: set<Path>, s: Summary)
    requires Pruning(t, files, size, order, gone, s) && AllPruned(t, gone) && AllFolders(t, order)
    ensures DirSequence(t, Without(order, gone))
  {
    hide Pruning, DeepestFirst, Descending, WellFormed, NoRootName, FolderAt;
    PruningTree(t, files, size, order, gone, s);
    var dirs := Without(order, gone);
    OrderDescends(s.entries, order);
    assert ROOT !in gone by { RootIsNotEmptied(t); }
    WithoutLast(order, gone);
    WithoutNoDuplicates(order, gone);
    WithoutDescends(order, gone);
    forall k | 0 <= k < |dirs| ensures dirs[k] != [] && FolderAt(t, dirs[k]) && dirs[k] !in gone {
      WithoutAt(order, gone, k);
      var m :| 0 <= m < |order| && order[m] == dirs[k];
    }
    forall p | KeptDir(t, p) ensures p in dirs {
      WithoutElements(order, gone, p);
      KeptIsInOrder(t, files, size, order, gone, s, p);
    }
  }

  lemma RootIsNotEmptied(t: FsTree)
    requires NoRootName(t)
    ensures !Emptied(t, ROOT)
  {
  }

  lemma KeptIsInOrder(t: FsTree, files: seq<Cid>, size: Sizer, order: seq<Path>, gone: set<Path>, s: Summary, p: Path)
    requires Pruning(t, files, size, order, gone, s) && AllPruned(t, gone) && KeptDir(t, p)
    ensures p in order && p !in gone
  {
    hide FilesIndexed, Holds, Sized, TreeCid, HasFile;
    RootIsNotEmptied(t);
    assert p in s.entries && EntryMatches(At(t, p).value, s.entries[p]);
    InOrder(s.entries, order, p);
  }

  lemma PrunedInSequence(
    t: FsTree, files: seq<Cid>, size: Sizer, order: seq<Path>, gone: set<Path>, s: Summary, order2: seq<Path>) returns (dirs: seq<Path>)
    requires Pruning(t, files, size, order, gone, s) && AllPruned(t, gone) && PruneLine(t, files, order, s.blockOrder)
    requires (forall c :: c in files ==> c.Of? && c.node.FileNode?) && DeepestFirst(s.entries, order2)
    ensures DirSequence(t, dirs) && RehashLine(t, files, dirs, order2, 0, s.blockOrder)
  {
    hide Pruning, AllPruned, KeptFolders, Without, DeepestFirst, InPlace;
    PruneLineEnds(t, files, size, order, gone, s);
    KeptSequence(t, files, size, order, gone, s);
    OrderDescends(s.entries, order2);
    dirs := Without(order, gone);
    RehashLineStarts(t, files, dirs, order2, s.blockOrder);
  }

  lemma RehashedInSequence(t: FsTree, dirs: seq<Path>, order: seq<Path>, bs: seq<Cid>)
    requires DirSequence(t, dirs) && RehashLine(t, WalkBlocks(t), dirs, order, |order|, bs)
    ensures Sequenced(t, bs)
  {
  }

  /** In such a sequence every directory comes before the one that contains it. */
  lemma BeforeItsParent(t: FsTree, dirs: seq<Path>, i: nat, j: nat)
    requires DirSequence(t, dirs) && i < |dirs| && j < |dirs| && dirs[i] != ROOT && Front(dirs[i]) == TreePath(dirs[j])
    ensures i < j
  {
    hide KeptDir, FolderAt, Emptied;
    assert dirs[i] != [];
    assert Depth(dirs[j]) < Depth(dirs[i]);
  }
}
