/** TotalSize: the sum of the block sizes before pruning, which pruning and regeneration never touch. */
module BuilderTotals {
  import opened Dag
  import opened FsTrees
  import opened Bfs
  import opened TreeSummaries
  import opened Collect
  import opened BuilderSteps
  import opened BuilderPrune
  import opened BuilderRehash
  import opened BuilderWalk
  import opened BuilderResult

  ghost predicate Tallied(s: Summary) {
    s.totalSize == Sum(s.blockSizes)
  }

  lemma {:induction false} SumConcat(a: seq<nat>, b: seq<nat>)
    ensures Sum(a + b) == Sum(a) + Sum(b)
  {
    if b == [] {
      assert a + b == a;
    } else {
      SumConcat(a, b[..|b| - 1]);
      assert (a + b)[..|a + b| - 1] == a + b[..|b| - 1];
    }
  }

  lemma VisitedTallied(s: Summary, p: Path, t: FsTree, size: Sizer)
    requires Tallied(s) && p != []
    ensures Tallied(Visited(s, p, t, size))
  {
    SumConcat(s.blockSizes, SizesOf(size, FileBlocks(t)));
  }

  lemma {:induction false} WalkedTallied(s: Summary, p: Path, t: FsTree, size: Sizer)
    requires Tallied(s) && p != []
    ensures Tallied(Walked(s, p, t, size))
    decreases t
  {
    VisitedTallied(s, p, t, size);
    if t.Folder? {
      WalkedKidsTallied(Visited(s, p, t, size), p, t.kids, size);
    }
  }

  lemma {:induction false} WalkedKidsTallied(s: Summary, p: Path, kids: seq<Kid>, size: Sizer)
    requires Tallied(s)
    ensures Tallied(WalkedKids(s, p, kids, size))
    decreases kids
  {
    if kids != [] {
      hide Walked;
      WalkedTallied(s, p + [kids[0].name], kids[0].tree, size);
      WalkedKidsTallied(Walked(s, p + [kids[0].name], kids[0].tree, size), p, kids[1..], size);
    }
  }

  lemma EmptyTallied()
    ensures Tallied(EmptySummary())
  {
  }

  lemma HashedTallied(s: Summary, p: Path, c: Cid, size: nat)
    requires Tallied(s) && p in s.entries
    ensures Tallied(HashDir(s, p, c, size))
  {
    SumConcat(s.blockSizes, [size]);
    assert [size][..0] == [];
  }

  /** The size announced for a tree: what its blocks add up to when nothing has been pruned yet. */
  ghost predicate Unpruned(t: FsTree, size: Sizer, total: nat) {
    exists order, s :: FirstPass(t, WalkBlocks(t), size, order, |order|, s) && total == Sum(s.blockSizes)
  }

  // ---------------------------------------------------------------- independent of any order

  lemma {:induction false} PermutedSum(size: Sizer, a: seq<Cid>, b: seq<Cid>)
    requires multiset(a) == multiset(b)
    ensures Sum(SizesOf(size, a)) == Sum(SizesOf(size, b))
  {
    if a == [] {
      assert |b| == |multiset(b)| == 0;
    } else {
      var n := |a| - 1;
      assert a == a[..n] + [a[n]];
      assert a[n] in multiset(b);
      var j :| 0 <= j < |b| && b[j] == a[n];
      DropMultiset(b, j);
      PermutedSum(size, a[..n], DropAt(b, j));
      SizesAppend(size, a[..n], a[n]);
      SumConcat(SizesOf(size, a[..n]), [SizeOf(size, a[n])]);
      SumWithout(size, b, j);
      assert [SizeOf(size, a[n])][..0] == [];
    }
  }

  lemma SumWithout(size: Sizer, b: seq<Cid>, j: nat)
    requires j < |b|
    ensures Sum(SizesOf(size, b)) == Sum(SizesOf(size, DropAt(b, j))) + SizeOf(size, b[j])
  {
    var l, r := SizesOf(size, b[..j]), SizesOf(size, b[j + 1..]);
    assert SizesOf(size, b) == l + ([SizeOf(size, b[j])] + r);
    assert SizesOf(size, DropAt(b, j)) == l + r;
    SumConcat(l, [SizeOf(size, b[j])] + r);
    SumConcat([SizeOf(size, b[j])], r);
    SumConcat(l, r);
    assert [SizeOf(size, b[j])][..0] == [];
  }

  ghost predicate TreeDir(t: FsTree, p: Path) {
    (p == ROOT || p != []) && FolderAt(t, p)
  }

  ghost predicate TreeDirs(t: FsTree, order: seq<Path>) {
    NoDuplicates(order) && forall p :: p in order <==> TreeDir(t, p)
  }

  ghost function DirCids(t: FsTree, order: seq<Path>): seq<Cid>
    requires TreeDirs(t, order)
  {
    seq(|order|, k requires 0 <= k < |order| => assert order[k] in order; TreeCid(At(t, order[k]).value))
  }

  lemma PassDirs(t: FsTree, files: seq<Cid>, size: Sizer, order: seq<Path>, s: Summary)
    requires FirstPass(t, files, size, order, |order|, s)
    ensures TreeDirs(t, order) && InEntries(s.entries, order)
    ensures s.blockOrder == files + CidsOf(s.entries, order)
  {
    assert order[..|order|] == order;
    forall p ensures p in order <==> TreeDir(t, p) {
      if p in order {
        var k :| 0 <= k < |order| && order[k] == p;
        assert EntryMatches(At(t, p).value, s.entries[p]) && WellNamed(p, s.entries[p]);
      }
      if TreeDir(t, p) {
        assert p in s.entries && EntryMatches(At(t, p).value, s.entries[p]);
      }
    }
  }

  /** Whatever order the first pass took, it lists the files' blocks and one block per directory of the tree. */
  lemma PassBlocks(t: FsTree, files: seq<Cid>, size: Sizer, order: seq<Path>, s: Summary, dirs: seq<Path>)
    requires FirstPass(t, files, size, order, |order|, s) && TreeDirs(t, dirs)
    ensures multiset(s.blockOrder) == multiset(files) + multiset(DirCids(t, dirs))
  {
    hide Skeleton, FilesIndexed, TreeCid, Sized, DeepestFirst, CidsOf;
    PassDirs(t, files, size, order, s);
    SameElements(order, dirs);
    forall k | 0 <= k < |dirs|
      ensures dirs[k] in s.entries && At(t, dirs[k]).Some? && s.entries[dirs[k]].cid == TreeCid(At(t, dirs[k]).value) {
      assert dirs[k] in dirs && dirs[k] in order;
      var m :| 0 <= m < |order| && order[m] == dirs[k];
      assert Done(t, s.entries, order[m]);
    }
    CidsOfMultiset(s.entries, order, dirs);
    assert CidsOf(s.entries, dirs) == DirCids(t, dirs);
  }

  lemma SizedSum(s: Summary, size: Sizer)
    requires Sized(s, size)
    ensures s.blockSizes == SizesOf(size, s.blockOrder)
  {
  }

  /** The announced size depends on the tree alone. */
  lemma UnprunedIsUnique(t: FsTree, size: Sizer, x: nat, y: nat)
    requires Unpruned(t, size, x) && Unpruned(t, size, y)
    ensures x == y
  {
    var o1, s1 :| FirstPass(t, WalkBlocks(t), size, o1, |o1|, s1) && x == Sum(s1.blockSizes);
    var o2, s2 :| FirstPass(t, WalkBlocks(t), size, o2, |o2|, s2) && y == Sum(s2.blockSizes);
    PassDirs(t, WalkBlocks(t), size, o2, s2);
    PassBlocks(t, WalkBlocks(t), size, o1, s1, o2);
    PassBlocks(t, WalkBlocks(t), size, o2, s2, o2);
    SizedSum(s1, size);
    SizedSum(s2, size);
    PermutedSum(size, s1.blockOrder, s2.blockOrder);
  }

  lemma FinishedDirs(t: FsTree, size: Sizer, order: seq<Path>, gone: set<Path>, s: Summary)
    requires Finished(t, size, order, gone, s)
    ensures TreeDirs(t, order) && Sized(s, size) && AllPruned(t, gone) && Holds(WalkBlocks(t), Without(order, gone), s)
    ensures forall k :: 0 <= k < |order| ==> order[k] in s.entries && s.entries[order[k]].cid == FinalCid(t, order[k])
  {
    forall p ensures p in order <==> TreeDir(t, p) {
      if p in order {
        var k :| 0 <= k < |order| && order[k] == p;
        assert FolderAt(t, p) && WellNamed(p, s.entries[p]);
      }
      if TreeDir(t, p) {
        InTreeAndEntries(t, s.entries, p);
      }
    }
    forall k | 0 <= k < |order| ensures order[k] in s.entries && s.entries[order[k]].cid == FinalCid(t, order[k]) {
      assert Hashed(t, s.entries, order[k]);
    }
  }

  /** A directory of the tree has a directory entry, even when pruning left it out of the skeleton. */
  lemma InTreeAndEntries(t: FsTree, es: Entries, p: Path)
    requires WellFormed(t) && Skeleton(PruneRoot(t), {}, es) && TreeDir(t, p)
    requires forall q :: q != [] && Lookup(t, q).Some? ==> q in es
    ensures p in es && es[p].isDir
  {
    LookupPruned(t, TreePath(p));
    if At(PruneRoot(t), p).Some? {
      assert EntryMatches(At(PruneRoot(t), p).value, es[p]);
    }
  }

  lemma NothingGone(t: FsTree, gone: set<Path>)
    requires WellFormed(t) && Clean(t) && AllPruned(t, gone)
    ensures gone == {} && PruneRoot(t) == t
  {
    PruneUnchanged(t);
    forall p ensures !Emptied(t, p) {
      if p != [] && Lookup(t, p).Some? {
        CleanBelow(t, p);
      }
    }
  }

  lemma {:induction false} CleanBelow(t: FsTree, p: Path)
    requires WellFormed(t) && Clean(t) && p != [] && Lookup(t, p).Some?
    ensures HasFile(Lookup(t, p).value) && Clean(Lookup(t, p).value)
    decreases |p|
  {
    var parent := Lookup(t, Front(p)).value;
    LookupWellFormed(t, Front(p));
    if Front(p) != [] {
      CleanBelow(t, Front(p));
    }
    var i := FoundIndex(parent.kids, Last(p));
    CleanKid(parent.kids, i);
  }

  lemma {:induction false} CleanKid(kids: seq<Kid>, i: nat)
    requires CleanKids(kids) && i < |kids|
    ensures HasFile(kids[i].tree) && Clean(kids[i].tree)
  {
    if i > 0 {
      CleanKid(kids[1..], i - 1);
    }
  }

  /** For a tree without file-less directories the announced size is the sum of the listed block sizes. */
  lemma CleanTotal(t: FsTree, size: Sizer, order: seq<Path>, gone: set<Path>, s: Summary, total: nat)
    requires Clean(t) && Finished(t, size, order, gone, s) && Unpruned(t, size, total)
    ensures total == Sum(s.blockSizes)
  {
    hide Finished, FirstPass, WalkBlocks, Clean, DirCids, Sum, SizesOf, TreeDirs;
    var o1, s1 :| FirstPass(t, WalkBlocks(t), size, o1, |o1|, s1) && total == Sum(s1.blockSizes);
    CleanBlocks(t, size, order, gone, s);
    PassBlocks(t, WalkBlocks(t), size, o1, s1, order);
    PassSizes(t, WalkBlocks(t), size, o1, s1);
    SizedSum(s, size);
    PermutedSum(size, s1.blockOrder, s.blockOrder);
  }

  lemma PassSizes(t: FsTree, files: seq<Cid>, size: Sizer, order: seq<Path>, s: Summary)
    requires FirstPass(t, files, size, order, |order|, s)
    ensures s.blockSizes == SizesOf(size, s.blockOrder)
  {
    SizedSum(s, size);
  }

  lemma CleanBlocks(t: FsTree, size: Sizer, order: seq<Path>, gone: set<Path>, s: Summary)
    requires Clean(t) && Finished(t, size, order, gone, s)
    ensures TreeDirs(t, order) && Sized(s, size) && multiset(s.blockOrder) == multiset(WalkBlocks(t)) + multiset(DirCids(t, order))
  {
    FinishedDirs(t, size, order, gone, s);
    IsSound(t, size, order, gone, s);
    hide Finished, WalkBlocks, Clean, WellFormed;
    NothingGone(t, gone);
    WithoutNothing(order);
    forall k | 0 <= k < |order| ensures FinalCid(t, order[k]) == DirCids(t, order)[k] {
      assert order[k] in order;
      assert TreeDir(t, order[k]);
    }
    assert CidsOf(s.entries, order) == DirCids(t, order);
  }

  lemma IsSound(t: FsTree, size: Sizer, order: seq<Path>, gone: set<Path>, s: Summary)
    requires Finished(t, size, order, gone, s)
    ensures WellFormed(t)
  {
  }
}
