/** CIDToEntry: what the identifier index holds when the first pass is over. */
module BuilderIndex {
  import opened Dag
  import opened FsTrees
  import opened TreeSummaries
  import opened BuilderSteps
  import opened BuilderPrune
  import opened BuilderRehash
  import opened BuilderWalk
  import opened BuilderResult
  import opened BuilderTheorems

  // ---------------------------------------------------------------- the walk

  ghost predicate FromBlocks(s: Summary) {
    forall c :: c in s.cidToEntry ==> c in s.blockOrder
  }

  lemma VisitedFromBlocks(s: Summary, p: Path, t: FsTree, size: Sizer)
    requires FromBlocks(s) && p != []
    ensures FromBlocks(Visited(s, p, t, size))
  {
    hide FileBlocks, Append, EntryOf;
  }

  lemma {:induction false} WalkedFromBlocks(s: Summary, p: Path, t: FsTree, size: Sizer)
    requires FromBlocks(s) && p != []
    ensures FromBlocks(Walked(s, p, t, size))
    decreases t
  {
    hide Visited, FromBlocks;
    VisitedFromBlocks(s, p, t, size);
    if t.Folder? {
      WalkedKidsFromBlocks(Visited(s, p, t, size), p, t.kids, size);
    }
  }

  lemma {:induction false} WalkedKidsFromBlocks(s: Summary, p: Path, kids: seq<Kid>, size: Sizer)
    requires FromBlocks(s)
    ensures FromBlocks(WalkedKids(s, p, kids, size))
    decreases kids
  {
    if kids != [] {
      hide Walked, FromBlocks;
      WalkedFromBlocks(s, p + [kids[0].name], kids[0].tree, size);
      WalkedKidsFromBlocks(Walked(s, p + [kids[0].name], kids[0].tree, size), p, kids[1..], size);
    }
  }

  lemma WalkedIndex(t: FsTree, size: Sizer)
    requires t.Folder?
    ensures FromBlocks(WalkedKids(EmptySummary(), [], t.kids, size))
  {
    WalkedKidsFromBlocks(EmptySummary(), [], t.kids, size);
  }

  // ---------------------------------------------------------------- hashing, pruning, hashing again

  ghost predicate DirNamed(s: Summary, c: Cid) {
    c in s.cidToEntry && s.cidToEntry[c] in s.entries && s.entries[s.cidToEntry[c]].isDir && s.entries[s.cidToEntry[c]].cid == c
  }

  /** Every indexed identifier is a file's block or the present identifier of the directory it leads to. */
  ghost predicate NothingStale(s: Summary, files: seq<Cid>) {
    forall c :: c in s.cidToEntry ==> c.Of? && (c in files || DirNamed(s, c))
  }

  lemma NothingStaleAtFirst(s: Summary, size: Sizer)
    requires FromBlocks(s) && FilesOnly(s, size)
    ensures NothingStale(s, s.blockOrder)
  {
    forall c | c in s.cidToEntry ensures c.Of? && c in s.blockOrder {
      assert FileHit(s, c);
    }
  }

  lemma ReindexLeavesNothingStale(s: Summary, s': Summary, files: seq<Cid>, p: Path, c: Cid)
    requires NothingStale(s, files) && p in s.entries && s.entries[p].isDir && c.Of?
    requires s'.entries == SetCid(s.entries, p, c) && s'.cidToEntry == Reindex(s.cidToEntry, s.entries[p].cid, c, p)
    ensures NothingStale(s', files)
  {
    forall x | x in s'.cidToEntry ensures x.Of? && (x in files || DirNamed(s', x)) {
      if x != c {
        assert x in s.cidToEntry && s'.cidToEntry[x] == s.cidToEntry[x];
      }
    }
  }

  lemma HashLeavesNothingStale(s: Summary, files: seq<Cid>, p: Path, c: Cid, size: nat)
    requires NothingStale(s, files) && p in s.entries && s.entries[p].isDir && c.Of?
    ensures NothingStale(HashDir(s, p, c, size), files)
  {
    hide NothingStale, Reindex;
    ReindexLeavesNothingStale(s, HashDir(s, p, c, size), files, p, c);
  }

  lemma RehashLeavesNothingStale(s: Summary, files: seq<Cid>, p: Path, c: Cid, size: nat)
    requires NothingStale(s, files) && p in s.entries && s.entries[p].isDir && c.Of? && |s.blockOrder| == |s.blockSizes|
    ensures NothingStale(RehashDir(s, p, c, size), files)
  {
    hide NothingStale, Reindex, FirstIndex;
    ReindexLeavesNothingStale(s, RehashDir(s, p, c, size), files, p, c);
  }

  lemma PruneLeavesNothingStale(s: Summary, files: seq<Cid>, p: Path)
    requires NothingStale(s, files) && p in s.entries && |s.blockOrder| == |s.blockSizes|
    ensures NothingStale(PruneDir(s, p), files)
  {
    hide FirstIndex, RemoveFirst, DropAt;
    var s' := PruneDir(s, p);
    forall c | c in s'.cidToEntry ensures c.Of? && (c in files || DirNamed(s', c)) {
      assert c in s.cidToEntry && s'.cidToEntry[c] == s.cidToEntry[c];
    }
  }

  lemma RootCidLeavesIndex(s: Summary, files: seq<Cid>, c: Cid)
    ensures NothingStale(s, files) ==> NothingStale(s.(rootCid := c), files)
  {
    hide FileHit;
    forall x ensures DirNamed(s, x) <==> DirNamed(s.(rootCid := c), x) {
    }
  }

  // ---------------------------------------------------------------- the empty directory's identifier

  /** Once a pruned directory is hashed again, the empty directory is indexed, though its block is not listed. */
  ghost predicate LeftoversIndexed(order: seq<Path>, gone: set<Path>, i: nat, s: Summary) {
    forall k :: 0 <= k < i <= |order| && order[k] in gone ==> EMPTY_DIR in s.cidToEntry
  }

  lemma KidsAreLinked(kids: seq<Kid>)
    ensures kids != [] ==> SortLinks(KidLinks(kids)) != []
  {
    if kids != [] {
      SortElements(KidLinks(kids), KidLinks(kids)[0]);
    }
  }

  lemma WithinIsWellFormed(t: FsTree, p: Path)
    requires WellFormed(t) && At(t, p).Some?
    ensures WellFormed(At(t, p).value)
  {
    LookupWellFormed(t, TreePath(p));
  }

  lemma EmptyStaysEmpty(t: FsTree, p: Path)
    requires WellFormed(t) && FolderAt(t, p) && TreeCid(At(t, p).value) == EMPTY_DIR
    ensures FinalCid(t, p) == EMPTY_DIR
  {
    KidsAreLinked(At(t, p).value.kids);
    LookupPruned(t, TreePath(p));
    assert KidLinks([]) == [] && TreeCid(Folder([])) == EMPTY_DIR;
    assert Prune(Folder([])) == Folder([]) && PruneRoot(Folder([])) == Folder([]);
  }

  lemma RootCidLeavesLeftovers(order: seq<Path>, gone: set<Path>, s: Summary, c: Cid)
    ensures LeftoversIndexed(order, gone, |order|, s) ==> LeftoversIndexed(order, gone, |order|, s.(rootCid := c))
  {
  }

  lemma LeftoversStart(order: seq<Path>, gone: set<Path>, s: Summary)
    ensures LeftoversIndexed(order, gone, 0, s)
  {
  }

  /** Hashing one more directory indexes the empty directory if that is what it has become, and never forgets it otherwise. */
  lemma LeftoversStep(t: FsTree, files: seq<Cid>, size: Sizer, order: seq<Path>, gone: set<Path>, i: nat, s: Summary, c: Cid)
    requires Rehashing(t, files, size, order, gone, i, s) && i < |order| && c == FinalCid(t, order[i]) && c.Of?
    requires LeftoversIndexed(order, gone, i, s)
    ensures order[i] in s.entries && s.entries[order[i]].isDir && |s.blockOrder| == |s.blockSizes|
    ensures LeftoversIndexed(order, gone, i + 1, RehashDir(s, order[i], c, size(c.node)))
  {
    hide Rehashing, FinalCid, FirstIndex, Reindex, LeftoversIndexed, Skeleton;
    RehashEntry(t, files, size, order, gone, i, s);
    LeftoverCids(t, files, size, order, gone, i, s);
    LeftoversReindexed(order, gone, i, s, RehashDir(s, order[i], c, size(c.node)), s.entries[order[i]].cid, c);
  }

  lemma LeftoversReindexed(order: seq<Path>, gone: set<Path>, i: nat, s: Summary, s': Summary, before: Cid, after: Cid)
    requires i < |order| && LeftoversIndexed(order, gone, i, s)
    requires s'.cidToEntry == Reindex(s.cidToEntry, before, after, order[i])
    requires (order[i] in gone ==> after == EMPTY_DIR) && (before == EMPTY_DIR ==> after == EMPTY_DIR)
    ensures LeftoversIndexed(order, gone, i + 1, s')
  {
  }

  lemma LeftoverCids(t: FsTree, files: seq<Cid>, size: Sizer, order: seq<Path>, gone: set<Path>, i: nat, s: Summary)
    requires Rehashing(t, files, size, order, gone, i, s) && i < |order|
    ensures order[i] in s.entries && (order[i] in gone ==> FinalCid(t, order[i]) == EMPTY_DIR)
    ensures s.entries[order[i]].cid == EMPTY_DIR ==> FinalCid(t, order[i]) == EMPTY_DIR
  {
    hide Skeleton, FilesIndexed, Lookup, TreeNode, Holds, Without, FinalCid, DirHit, NoRootName, PruneRoot, HasFile;
    if order[i] in gone {
      GoneHasNoFile(t, order[i]);
    }
    assert Done(t, s.entries, order[i]) && FolderAt(t, order[i]);
    if s.entries[order[i]].cid == EMPTY_DIR {
      WithinIsWellFormed(t, order[i]);
      EmptyStaysEmpty(t, order[i]);
    }
  }

  // ---------------------------------------------------------------- the finished index

  ghost predicate SomeEmptied(t: FsTree) {
    exists p :: Emptied(t, p)
  }

  /** The index names the listed blocks, and besides them only the empty directory if some directory was pruned. */
  ghost predicate IndexesListed(t: FsTree, s: Summary) {
    forall c :: c in s.cidToEntry <==> c in s.blockOrder || (c == EMPTY_DIR && SomeEmptied(t))
  }

  lemma NamedIsListed(t: FsTree, size: Sizer, order: seq<Path>, gone: set<Path>, s: Summary, c: Cid)
    requires Finished(t, size, order, gone, s) && DirNamed(s, c)
    ensures c in s.blockOrder || (c == EMPTY_DIR && SomeEmptied(t))
  {
    var p := s.cidToEntry[c];
    FinishedSound(t, size, order, gone, s);
    FinishedEntries(t, size, order, gone, s, p);
    hide Finished, FinalCid;
    if p != ROOT && Emptied(t, p) {
      GoneHasNoFile(t, p);
    } else {
      assert KeptDir(t, p);
      ListedBlocks(t, size, order, gone, s, c);
    }
  }

  lemma FinishedSound(t: FsTree, size: Sizer, order: seq<Path>, gone: set<Path>, s: Summary)
    requires Finished(t, size, order, gone, s)
    ensures WellFormed(t) && NoRootName(t) && t.Folder? && AllPruned(t, gone) && DeepestFirst(s.entries, order)
    ensures Built(t, true, size, s)
  {
  }

  lemma EmptyIndexed(t: FsTree, size: Sizer, order: seq<Path>, gone: set<Path>, s: Summary)
    requires Finished(t, size, order, gone, s) && LeftoversIndexed(order, gone, |order|, s) && SomeEmptied(t)
    ensures EMPTY_DIR in s.cidToEntry
  {
    var p :| Emptied(t, p);
    FinishedSound(t, size, order, gone, s);
    FinishedEntries(t, size, order, gone, s, p);
    GoneHasNoFile(t, p);
    hide Finished, FinalCid, Emptied;
    var k :| 0 <= k < |order| && order[k] == p;
  }

  /** What both passes leave in the index, exactly. */
  lemma FinishedIndex(t: FsTree, size: Sizer, order: seq<Path>, gone: set<Path>, s: Summary)
    requires Finished(t, size, order, gone, s) && NothingStale(s, WalkBlocks(t)) && LeftoversIndexed(order, gone, |order|, s)
    ensures IndexesListed(t, s)
  {
    FinishedSound(t, size, order, gone, s);
    hide Finished, Built, WellFormed, NoRootName, SomeEmptied, LeftoversIndexed, DirNamed, WalkBlocks, AllPruned, DeepestFirst;
    forall c ensures c in s.cidToEntry <==> c in s.blockOrder || (c == EMPTY_DIR && SomeEmptied(t)) {
      if c in s.cidToEntry {
        if c in WalkBlocks(t) {
          ListedBlocks(t, size, order, gone, s, c);
        } else {
          NamedIsListed(t, size, order, gone, s, c);
        }
      }
      if c in s.blockOrder {
        EveryBlockRecreates(t, true, size, s, c);
      }
      if c == EMPTY_DIR && SomeEmptied(t) {
        EmptyIndexed(t, size, order, gone, s);
      }
    }
  }

  /** A sole file's index is that of its blocks. */
  lemma SoleFileIndex(t: FsTree, s: Summary, size: Sizer)
    requires WellFormed(t) && SoleFile(t).Some? && FromBlocks(s) && FilesOnly(s, size)
    ensures IndexesListed(t, s)
  {
    forall p ensures !Emptied(t, p) {
      if p != [] && Lookup(t, p).Some? {
        FolderLookup(t, p);
        if |p| > 1 {
          FileLookup(t.kids[0].tree, p[1..]);
        }
      }
    }
    forall c | c in s.blockOrder ensures c in s.cidToEntry {
      assert FileHit(s, c);
    }
  }

  lemma RootCidLeavesListed(t: FsTree, s: Summary, c: Cid)
    ensures IndexesListed(t, s) ==> IndexesListed(t, s.(rootCid := c))
    ensures FromBlocks(s) ==> FromBlocks(s.(rootCid := c))
  {
    hide SomeEmptied;
  }

  // ---------------------------------------------------------------- the root

  lemma NothingSharesTheRoot(t: FsTree, p: Path)
    requires t.Folder? && WellFormed(t) && p != [] && p != ROOT && Lookup(t, p).Some?
    ensures FinalCid(t, p) != TreeCid(PruneRoot(t))
  {
    var u := PruneRoot(t);
    PruneRootWellFormed(t);
    if At(u, p).Some? {
      DescendantIsLower(u, p);
    } else {
      FolderLookup(t, p);
      PruneBelowWellFormed(t.kids);
      assert u.kids == PruneBelow(t.kids) && |KidLinks(u.kids)| == |SortLinks(KidLinks(u.kids))| == |t.kids|;
      assert TreeNode(u).links == SortLinks(KidLinks(u.kids));
    }
  }

  lemma RootDirHit(t: FsTree, size: Sizer, order: seq<Path>, gone: set<Path>, s: Summary) returns (p: Path)
    requires Finished(t, size, order, gone, s)
    ensures s.rootCid == TreeCid(PruneRoot(t)) && s.rootCid in s.cidToEntry && s.cidToEntry[s.rootCid] == p
    ensures p in s.entries && FolderAt(t, p) && FinalCid(t, p) == s.rootCid
  {
    var last := |order| - 1;
    assert order[last] == ROOT && Hashed(t, s.entries, ROOT) && s.rootCid == FinalCid(t, ROOT);
    assert ROOT !in gone;
    assert DirHit(s, order, |order|, FinalCid(t, order[last]));
    var k :| 0 <= k < |order| && order[k] == s.cidToEntry[s.rootCid] && order[k] in s.entries && s.entries[order[k]].cid == s.rootCid;
    p := order[k];
    assert Hashed(t, s.entries, p) && FolderAt(t, p);
  }

  /** The root identifier leads to the virtual root entry. */
  lemma RootIsIndexed(t: FsTree, size: Sizer, order: seq<Path>, gone: set<Path>, s: Summary)
    requires t.Folder? && WellFormed(t) && Finished(t, size, order, gone, s)
    ensures s.rootCid in s.cidToEntry && s.cidToEntry[s.rootCid] == ROOT
  {
    hide Finished, FinalCid, WellFormed;
    var p := RootDirHit(t, size, order, gone, s);
    FinishedEntries(t, size, order, gone, s, p);
    if p != ROOT {
      NothingSharesTheRoot(t, p);
    }
  }
}
