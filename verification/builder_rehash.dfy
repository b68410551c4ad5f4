/** The second pass: every directory is hashed again, in place, now that file-less directories are gone. */
module BuilderRehash {
  import opened Base
  import opened Dag
  import opened FsTrees
  import opened Bfs
  import opened TreeSummaries
  import opened BuilderSteps
  import opened BuilderPrune

  /** Exactly the file-less directories have been pruned. */
  ghost predicate AllPruned(t: FsTree, gone: set<Path>) {
    forall p :: p in gone <==> Emptied(t, p)
  }

  /** The identifier a directory ends up with. */
  function FinalCid(t: FsTree, p: Path): Cid {
    match At(PruneRoot(t), p)
    case Some(sub) => TreeCid(sub)
    case None => EMPTY_DIR
  }

  ghost predicate FolderAt(t: FsTree, p: Path) {
    At(t, p).Some? && At(t, p).value.Folder?
  }

  ghost predicate Hashed(t: FsTree, es: Entries, p: Path) {
    p in es && es[p].cid == FinalCid(t, p)
  }

  /** An identifier of a processed directory leads to a processed directory with that identifier. */
  ghost predicate DirHit(s: Summary, order: seq<Path>, i: nat, c: Cid) {
    && c in s.cidToEntry
    && exists k :: 0 <= k < i <= |order| && order[k] == s.cidToEntry[c] && order[k] in s.entries && s.entries[order[k]].cid == c
  }

  ghost predicate Rehashing(t: FsTree, files: seq<Cid>, size: Sizer, order: seq<Path>, gone: set<Path>, i: nat, s: Summary) {
    && i <= |order| && AllPruned(t, gone) && WellFormed(t) && NoRootName(t) && t.Folder?
    && Skeleton(PruneRoot(t), {}, s.entries) && DeepestFirst(s.entries, order)
    && (forall k :: 0 <= k < |order| ==> FolderAt(t, order[k]))
    && (forall p :: p != [] && Lookup(t, p).Some? ==> p in s.entries)
    && (forall k :: 0 <= k < i ==> Hashed(t, s.entries, order[k]))
    && (forall k :: i <= k < |order| ==> Done(t, s.entries, order[k]))
    && Holds(files, Without(order, gone), s)
    && (forall k :: 0 <= k < i && order[k] !in gone ==> DirHit(s, order, i, FinalCid(t, order[k])))
    && Sized(s, size) && FilesIndexed(s, files)
    && (forall c :: c in files ==> c.Of? && c.node.FileNode?)
  }

  // ---------------------------------------------------------------- from pruning to the second pass

  lemma PrunedNames(t: FsTree)
    requires WellFormed(t) && NoRootName(t)
    ensures NoRootName(PruneRoot(t))
  {
    LookupPruned(t, ROOT);
    forall p | p != [] && Lookup(PruneRoot(t), p).Some? && Lookup(PruneRoot(t), p).value.Folder? ensures Last(p) != "ROOT" {
      LookupPruned(t, p);
    }
  }

  lemma PrunedListed(t: FsTree, gone: set<Path>, p: Path, q: Path)
    requires WellFormed(t) && AllPruned(t, gone)
    requires p != [] && At(PruneRoot(t), p).Some?
    ensures Listed(t, gone, p, q) <==> Listed(PruneRoot(t), {}, p, q)
  {
    LookupPruned(t, q);
    if q != [] && Front(q) == TreePath(p) && Lookup(t, q).Some? {
      if |q| == 1 {
        assert TreePath(p) == [];
      }
    }
  }

  lemma LeftoverHasNoChildren(t: FsTree, gone: set<Path>, es: Entries, p: Path)
    requires Skeleton(t, gone, es) && AllPruned(t, gone) && p in es && At(PruneRoot(t), p).None?
    ensures |p| > 1 && es[p].isDir && es[p].children == []
  {
    LookupPruned(t, TreePath(p));
    if At(t, p).Some? {
      var sub := At(t, p).value;
      assert p != ROOT && !HasFile(sub) && sub.Folder?;
      forall q ensures !Listed(t, gone, p, q) {
        ListedInFileless(t, gone, p, q);
      }
      FirstIn(es[p].children);
    }
  }

  lemma ListedInFileless(t: FsTree, gone: set<Path>, p: Path, q: Path)
    requires WellFormed(t) && p != ROOT && Lookup(t, p).Some? && Lookup(t, p).value.Folder? && !HasFile(Lookup(t, p).value)
    ensures Listed(t, gone, p, q) ==> q !in gone && Emptied(t, q)
  {
    var sub := Lookup(t, p).value;
    LookupWellFormed(t, p);
    HasFileChild(sub);
    if Listed(t, gone, p, q) {
      assert Child(sub, Last(q)) == Lookup(t, q);
      assert !HasFile(Lookup(t, q).value);
    }
  }

  lemma PruneKeepsKind(t: FsTree, e: TreeEntry)
    requires EntryMatches(t, e)
    ensures EntryMatches(Prune(t), e) && EntryMatches(PruneRoot(t), e)
  {
  }

  lemma PrunedEntry(t: FsTree, gone: set<Path>, es: Entries, p: Path)
    requires Skeleton(t, gone, es) && AllPruned(t, gone) && p in es && At(PruneRoot(t), p).Some?
    ensures EntryMatches(At(PruneRoot(t), p).value, es[p])
    ensures es[p].isDir ==> ChildrenMatch(PruneRoot(t), {}, p, es[p].children)
  {
    LookupPruned(t, TreePath(p));
    PruneKeepsKind(At(t, p).value, es[p]);
    if es[p].isDir {
      assert ChildrenMatch(t, gone, p, es[p].children);
      forall q ensures q in es[p].children <==> Listed(PruneRoot(t), {}, p, q) {
        PrunedListed(t, gone, p, q);
      }
    }
  }

  /** Once everything file-less is pruned, the entries are those of the pruned tree. */
  lemma PrunedSkeleton(t: FsTree, gone: set<Path>, es: Entries)
    requires Skeleton(t, gone, es) && AllPruned(t, gone)
    ensures Skeleton(PruneRoot(t), {}, es)
  {
    var u := PruneRoot(t);
    PruneRootWellFormed(t);
    PrunedNames(t);
    forall p | p != [] && Lookup(u, p).Some? ensures p in es {
      LookupPruned(t, p);
    }
    hide Lookup, HasFile, Prune, PruneRoot, ChildrenMatch, NoRootName, WellFormed, EntryMatches, WellNamed;
    forall p | p in es && At(u, p).Some?
      ensures EntryMatches(At(u, p).value, es[p])
      ensures es[p].isDir ==> ChildrenMatch(u, {}, p, es[p].children)
    {
      PrunedEntry(t, gone, es, p);
    }
    forall p | p in es && At(u, p).None? ensures |p| > 1 && es[p].isDir && es[p].children == [] {
      LeftoverHasNoChildren(t, gone, es, p);
    }
  }

  lemma RehashingStarts(t: FsTree, files: seq<Cid>, size: Sizer, order0: seq<Path>, order: seq<Path>, gone: set<Path>, s: Summary)
    requires Pruning(t, files, size, order0, gone, s) && AllPruned(t, gone) && DeepestFirst(s.entries, order)
    requires forall c :: c in files ==> c.Of? && c.node.FileNode?
    ensures Rehashing(t, files, size, order, gone, 0, s)
  {
    PrunedSkeleton(t, gone, s.entries);
    forall k | 0 <= k < |order| ensures Done(t, s.entries, order[k]) {
      DoneAt(t, s.entries, order0, order[k]);
    }
    assert forall k :: 0 <= k < |order| ==> EntryMatches(At(t, order[k]).value, s.entries[order[k]]);
    SameListing(s.entries, order0, order, gone);
  }

  lemma SameElements<T>(a: seq<T>, b: seq<T>)
    requires NoDuplicates(a) && NoDuplicates(b) && forall x :: x in a <==> x in b
    ensures multiset(a) == multiset(b)
  {
    forall x ensures multiset(a)[x] == multiset(b)[x] {
      CountOnce(a, x);
      CountOnce(b, x);
    }
  }

  lemma {:induction false} CountOnce<T>(s: seq<T>, x: T)
    requires NoDuplicates(s)
    ensures multiset(s)[x] == if x in s then 1 else 0
  {
    if s != [] {
      CountOnce(s[1..], x);
      assert s == [s[0]] + s[1..];
    }
  }

  lemma {:induction false} CidsOfMultiset(es: Entries, a: seq<Path>, b: seq<Path>)
    requires InEntries(es, a) && InEntries(es, b) && multiset(a) == multiset(b)
    ensures multiset(CidsOf(es, a)) == multiset(CidsOf(es, b))
    decreases |a|
  {
    if a == [] {
      assert |b| == |multiset(b)| == 0;
    } else {
      assert a[0] in multiset(b);
      var j := FirstIndex(b, a[0]);
      InMultiset(b, a[0]);
      CidsOfMultisetStep(es, a, b, j);
      CidsOfMultiset(es, DropAt(a, 0), DropAt(b, j));
    }
  }

  lemma CidsOfMultisetStep(es: Entries, a: seq<Path>, b: seq<Path>, j: nat)
    requires InEntries(es, a) && InEntries(es, b) && multiset(a) == multiset(b) && a != [] && j < |b| && b[j] == a[0]
    ensures InEntries(es, DropAt(a, 0)) && InEntries(es, DropAt(b, j)) && multiset(DropAt(a, 0)) == multiset(DropAt(b, j))
    ensures multiset(CidsOf(es, DropAt(a, 0))) == multiset(CidsOf(es, DropAt(b, j)))
        ==> multiset(CidsOf(es, a)) == multiset(CidsOf(es, b))
  {
    hide CidsOf, DropAt;
    DropsStayIn(es, a, 0);
    DropsStayIn(es, b, j);
    DropMultiset(a, 0);
    DropMultiset(b, j);
    CidsOfDrop(es, a, 0);
    CidsOfDrop(es, b, j);
    ListedCid(es, a, a[0]);
    ListedCid(es, b, a[0]);
    Cancel(multiset(CidsOf(es, a)), multiset(CidsOf(es, b)), es[a[0]].cid);
  }

  lemma DropsStayIn(es: Entries, ps: seq<Path>, i: nat)
    requires InEntries(es, ps) && i < |ps|
    ensures InEntries(es, DropAt(ps, i)) && |DropAt(ps, i)| == |ps| - 1
  {
  }

  lemma Cancel<T>(a: multiset<T>, b: multiset<T>, x: T)
    requires x in a && x in b
    ensures a - multiset{x} == b - multiset{x} ==> a == b
  {
    assert a == (a - multiset{x}) + multiset{x} && b == (b - multiset{x}) + multiset{x};
  }

  /** Two processing orders list the same directories, so the same blocks. */
  lemma SameListing(es: Entries, order0: seq<Path>, order: seq<Path>, gone: set<Path>)
    requires DeepestFirst(es, order0) && DeepestFirst(es, order)
    ensures InEntries(es, Without(order0, gone)) && InEntries(es, Without(order, gone))
    ensures multiset(CidsOf(es, Without(order0, gone))) == multiset(CidsOf(es, Without(order, gone)))
  {
    var a, b := Without(order0, gone), Without(order, gone);
    WithoutNoDuplicates(order0, gone);
    WithoutNoDuplicates(order, gone);
    forall p ensures p in a <==> p in b {
      WithoutElements(order0, gone, p);
      WithoutElements(order, gone, p);
      InOrder(es, order0, p);
      InOrder(es, order, p);
    }
    ListedInEntries(es, order0, gone);
    ListedInEntries(es, order, gone);
    SameElements(a, b);
    CidsOfMultiset(es, a, b);
  }

  lemma InOrder(es: Entries, order: seq<Path>, p: Path)
    requires DeepestFirst(es, order)
    ensures p in order <==> p in es && es[p].isDir
  {
  }

  lemma ListedInEntries(es: Entries, order: seq<Path>, gone: set<Path>)
    requires DeepestFirst(es, order)
    ensures InEntries(es, Without(order, gone))
  {
    forall k | 0 <= k < |Without(order, gone)| ensures Without(order, gone)[k] in es {
      WithoutAt(order, gone, k);
      InOrder(es, order, Without(order, gone)[k]);
    }
  }

  // ---------------------------------------------------------------- one step of the second pass

  /** A directory that is kept has a file before and after pruning, and its identifier shows it. */
  lemma LiveHasFile(t: FsTree, p: Path)
    requires WellFormed(t) && p != [] && p != ROOT && FolderAt(t, p) && !Emptied(t, p)
    ensures HasFileCid(TreeCid(At(t, p).value)) && HasFileCid(FinalCid(t, p))
    ensures FinalCid(t, p) == TreeCid(Prune(At(t, p).value))
  {
    var sub := At(t, p).value;
    LookupWellFormed(t, p);
    LookupPruned(t, p);
    PruneWellFormed(sub);
    PruneHasFile(sub);
    HasFileInCid(sub);
    HasFileInCid(Prune(sub));
  }

  /** A directory that is pruned shows no file, and ends up as the empty directory. */
  lemma GoneHasNoFile(t: FsTree, p: Path)
    requires WellFormed(t) && NoRootName(t) && Emptied(t, p)
    ensures p != ROOT && At(t, p).Some? && !HasFileCid(TreeCid(At(t, p).value)) && FinalCid(t, p) == EMPTY_DIR
    ensures TreeCid(At(t, p).value) != TreeCid(t)
  {
    var sub := At(t, p).value;
    LookupWellFormed(t, p);
    HasFileInCid(sub);
    LookupPruned(t, p);
    FilelessPrunesToNothing(sub.kids);
    DescendantIsLower(t, p);
  }

  lemma EmptyDirHasNoFile()
    ensures !HasFileCid(EMPTY_DIR)
  {
  }

  /** Two directories that meet, one hashed and one about to be: the second does not change either. */
  lemma NoStaleCollision(t: FsTree, q: Path, p: Path)
    requires WellFormed(t) && q != [] && q != ROOT && FolderAt(t, q) && !Emptied(t, q) && p != [] && FolderAt(t, p)
    requires FinalCid(t, q) == TreeCid(At(t, p).value)
    requires p == ROOT || !Emptied(t, p)
    ensures FinalCid(t, p) == TreeCid(At(t, p).value)
  {
    var x, y := At(t, q).value, At(t, p).value;
    LiveHasFile(t, q);
    LookupWellFormed(t, q);
    LookupWellFormed(t, TreePath(p));
    PruneWellFormed(x);
    PruneIsClean(x);
    CleanInCid(Prune(x));
    CleanInCid(y);
    PruneUnchanged(y);
    LookupPruned(t, TreePath(p));
    if p != ROOT {
      LiveHasFile(t, p);
    }
  }

  lemma RootIsLast(es: Entries, order: seq<Path>, i: nat)
    requires DeepestFirst(es, order) && i < |order|
    ensures order[i] == ROOT ==> i == |order| - 1
  {
  }

  lemma NotRootBefore(es: Entries, order: seq<Path>, i: nat)
    requires DeepestFirst(es, order) && i < |order| - 1
    ensures order[i] != ROOT
  {
  }

  /** Every block in the list shows a file or is the old root. */
  lemma ListedShowsFile(t: FsTree, files: seq<Cid>, order: seq<Path>, gone: set<Path>, i: nat, s: Summary, x: Cid)
    requires i < |order| - 1 && WellFormed(t) && NoRootName(t) && AllPruned(t, gone) && DeepestFirst(s.entries, order)
    requires forall k :: 0 <= k < |order| ==> FolderAt(t, order[k]) && order[k] != []
    requires forall k :: 0 <= k < i ==> Hashed(t, s.entries, order[k])
    requires forall k :: i <= k < |order| ==> Done(t, s.entries, order[k])
    requires Holds(files, Without(order, gone), s) && x in s.blockOrder
    requires forall c :: c in files ==> c.Of? && c.node.FileNode?
    ensures HasFileCid(x) || x == TreeCid(t)
  {
    var live := Without(order, gone);
    assert x in multiset(s.blockOrder);
    if x in multiset(files) {
      assert x in files;
    } else {
      InMultiset(CidsOf(s.entries, live), x);
      var k :| 0 <= k < |live| && s.entries[live[k]].cid == x;
      WithoutAt(order, gone, k);
      var m: nat :| m < |order| && order[m] == live[k];
      if order[m] != ROOT {
        LiveHasFile(t, order[m]);
      } else {
        RootIsLast(s.entries, order, m);
      }
    }
  }

  /** Replacing one listed block keeps the block list in step with the entries. */
  lemma RehashLive(files: seq<Cid>, order: seq<Path>, gone: set<Path>, s: Summary, s': Summary, p: Path, c: Cid)
    requires NoDuplicates(order) && p in order && p !in gone && p in s.entries
    requires Holds(files, Without(order, gone), s) && s'.entries == SetCid(s.entries, p, c)
    requires var i := FirstIndex(s.blockOrder, s.entries[p].cid);
             i < |s.blockOrder| ==> s'.blockOrder == s.blockOrder[i := c]
    ensures FirstIndex(s.blockOrder, s.entries[p].cid) < |s.blockOrder|
    ensures Holds(files, Without(order, gone), s')
  {
    hide Without, CidsOf, NoDuplicates;
    var live, old_ := Without(order, gone), s.entries[p].cid;
    WithoutElements(order, gone, p);
    WithoutNoDuplicates(order, gone);
    ListedCid(s.entries, live, p);
    InMultiset(s.blockOrder, old_);
    var i := FirstIndex(s.blockOrder, old_);
    var k :| 0 <= k < |live| && live[k] == p;
    CidsOfSet(s.entries, live, k, c);
    ReplaceOne(multiset(s.blockOrder), multiset(files), multiset(CidsOf(s.entries, live)), old_, c);
    assert multiset(s.blockOrder[i := c]) == multiset(s.blockOrder) - multiset{old_} + multiset{c};
  }

  lemma ReplaceOne(all: multiset<Cid>, files: multiset<Cid>, dirs: multiset<Cid>, before: Cid, after: Cid)
    requires all == files + dirs && before in dirs
    ensures all - multiset{before} + multiset{after} == files + (dirs - multiset{before} + multiset{after})
  {
  }

  lemma CidsOfSet(es: Entries, ps: seq<Path>, k: nat, c: Cid)
    requires InEntries(es, ps) && NoDuplicates(ps) && k < |ps|
    ensures InEntries(SetCid(es, ps[k], c), ps)
    ensures multiset(CidsOf(SetCid(es, ps[k], c), ps)) == multiset(CidsOf(es, ps)) - multiset{es[ps[k]].cid} + multiset{c}
  {
    var cs := CidsOf(es, ps);
    assert CidsOf(SetCid(es, ps[k], c), ps) == cs[k := c];
    assert multiset(cs[k := c]) == multiset(cs) - multiset{cs[k]} + multiset{c};
  }

  /** A pruned directory's block is in no list any more, so hashing it again lists nothing. */
  lemma RehashGone(files: seq<Cid>, order: seq<Path>, gone: set<Path>, s: Summary, s': Summary, p: Path, c: Cid)
    requires p in gone && p in s.entries && s.entries[p].cid !in s.blockOrder
    requires Holds(files, Without(order, gone), s) && s'.entries == SetCid(s.entries, p, c)
    requires s'.blockOrder == s.blockOrder
    ensures Holds(files, Without(order, gone), s')
  {
    var live := Without(order, gone);
    WithoutElements(order, gone, p);
    assert CidsOf(s'.entries, live) == CidsOf(s.entries, live);
  }

  lemma GoneHasNoChildren(t: FsTree, es: Entries, p: Path)
    requires WellFormed(t) && NoRootName(t) && Emptied(t, p) && Skeleton(PruneRoot(t), {}, es) && p in es && es[p].isDir
    ensures es[p].children == []
  {
    var u := PruneRoot(t);
    LookupPruned(t, p);
    if At(u, p).Some? && es[p].children != [] {
      var q := es[p].children[0];
      assert Listed(u, {}, p, q);
      LookupPruned(t, q);
      LookupWellFormed(t, p);
      HasFileUpwards(t, q);
    }
  }

  lemma RehashHits(t: FsTree, order: seq<Path>, gone: set<Path>, i: nat, s: Summary, s': Summary, c: Cid)
    requires i < |order| && WellFormed(t) && NoRootName(t) && AllPruned(t, gone) && DeepestFirst(s.entries, order)
    requires forall k :: 0 <= k < |order| ==> FolderAt(t, order[k]) && order[k] != []
    requires Done(t, s.entries, order[i]) && c == FinalCid(t, order[i])
    requires s'.entries == SetCid(s.entries, order[i], c)
    requires s'.cidToEntry == Reindex(s.cidToEntry, s.entries[order[i]].cid, c, order[i])
    requires forall k :: 0 <= k < i && order[k] !in gone ==> DirHit(s, order, i, FinalCid(t, order[k]))
    ensures forall k :: 0 <= k <= i && order[k] !in gone ==> DirHit(s', order, i + 1, FinalCid(t, order[k]))
  {
    forall k | 0 <= k <= i && order[k] !in gone ensures DirHit(s', order, i + 1, FinalCid(t, order[k])) {
      var x := FinalCid(t, order[k]);
      if x == c {
        assert order[i] == s'.cidToEntry[x] && s'.entries[order[i]].cid == x;
      } else {
        StaleIsNotHit(t, order, gone, i, k, s);
        KeptHit(s, s', order, i, x, c);
      }
    }
  }

  lemma KeptHit(s: Summary, s': Summary, order: seq<Path>, i: nat, x: Cid, c: Cid)
    requires i < |order| && NoDuplicates(order) && order[i] in s.entries && x != c && x != s.entries[order[i]].cid
    requires DirHit(s, order, i, x)
    requires s'.entries == SetCid(s.entries, order[i], c)
    requires s'.cidToEntry == Reindex(s.cidToEntry, s.entries[order[i]].cid, c, order[i])
    ensures DirHit(s', order, i + 1, x)
  {
    var m :| 0 <= m < i <= |order| && order[m] == s.cidToEntry[x] && order[m] in s.entries && s.entries[order[m]].cid == x;
    assert order[m] != order[i];
    assert s'.cidToEntry[x] == order[m] && s'.entries[order[m]].cid == x;
  }

  lemma StaleIsNotHit(t: FsTree, order: seq<Path>, gone: set<Path>, i: nat, k: nat, s: Summary)
    requires k < i < |order| && WellFormed(t) && NoRootName(t) && AllPruned(t, gone) && DeepestFirst(s.entries, order)
    requires forall m :: 0 <= m < |order| ==> FolderAt(t, order[m]) && order[m] != []
    requires Done(t, s.entries, order[i]) && order[k] !in gone
    requires FinalCid(t, order[k]) != FinalCid(t, order[i])
    ensures FinalCid(t, order[k]) != s.entries[order[i]].cid
  {
    var q, p := order[k], order[i];
    NotRootBefore(s.entries, order, k);
    LiveHasFile(t, q);
    if FinalCid(t, q) == s.entries[p].cid {
      if p in gone {
        GoneHasNoFile(t, p);
      } else {
        NoStaleCollision(t, q, p);
      }
    }
  }

  lemma RehashSized(s: Summary, s': Summary, size: Sizer, i: nat, c: Cid)
    requires Sized(s, size) && c.Of?
    requires i < |s.blockOrder| ==> s'.blockOrder == s.blockOrder[i := c] && s'.blockSizes == s.blockSizes[i := size(c.node)]
    requires i >= |s.blockOrder| ==> s'.blockOrder == s.blockOrder && s'.blockSizes == s.blockSizes
    ensures Sized(s', size)
  {
  }

  lemma FinalIsDirectory(t: FsTree, p: Path)
    requires WellFormed(t) && FolderAt(t, p)
    ensures FinalCid(t, p).Of? && FinalCid(t, p).node.Directory? && TreeCid(At(t, p).value).node.Directory?
  {
    LookupPruned(t, TreePath(p));
    assert TreeNode(At(t, p).value).Directory?;
    var u := At(PruneRoot(t), p);
    assert u.Some? ==> u.value.Folder? && TreeNode(u.value).Directory?;
  }

  lemma AbsentIndex<T>(s: seq<T>, x: T)
    requires x !in s
    ensures FirstIndex(s, x) == |s|
  {
  }

  /** Where the block of the directory to be hashed again stands: in the list while it is kept, nowhere once it is pruned. */
  lemma OldBlock(t: FsTree, files: seq<Cid>, size: Sizer, order: seq<Path>, gone: set<Path>, i: nat, s: Summary)
    requires Rehashing(t, files, size, order, gone, i, s) && i < |order|
    ensures order[i] in s.entries && s.entries[order[i]].isDir
    ensures forall k :: 0 <= k < |order| ==> order[k] != []
    ensures order[i] in gone ==> s.entries[order[i]].cid !in s.blockOrder && s.entries[order[i]].children == []
  {
    var p := order[i];
    assert WellNamed(p, s.entries[p]);
    assert forall k :: 0 <= k < |order| ==> WellNamed(order[k], s.entries[order[k]]);
    if p in gone {
      GoneHasNoFile(t, p);
      GoneHasNoChildren(t, s.entries, p);
      if s.entries[p].cid in s.blockOrder {
        ListedShowsFile(t, files, order, gone, i, s, s.entries[p].cid);
      }
    }
  }

  /** Hashing one more directory keeps every invariant of the second pass. */
  lemma RehashStep(t: FsTree, files: seq<Cid>, size: Sizer, order: seq<Path>, gone: set<Path>, i: nat, s: Summary, c: Cid)
    requires Rehashing(t, files, size, order, gone, i, s) && i < |order| && c == FinalCid(t, order[i])
    ensures c.Of? && order[i] in s.entries
    ensures Rehashing(t, files, size, order, gone, i + 1, RehashDir(s, order[i], c, size(c.node)))
  {
    hide Skeleton, FilesIndexed, Lookup, TreeNode, NoDuplicates, CidsOf, HasFile, Holds, FirstIndex, Without, Reindex,
      FinalCid, DirHit, WellFormed, NoRootName, AllPruned, PruneRoot;
    OldBlock(t, files, size, order, gone, i, s);
    FinalIsDirectory(t, order[i]);
    var p, old_ := order[i], s.entries[order[i]].cid;
    var s' := RehashDir(s, p, c, size(c.node));
    SetCidKeepsSkeleton(PruneRoot(t), {}, s.entries, p, c);
    SetCidKeepsOrder(s.entries, order, i, c);
    OrderDistinct(s.entries, order);
    if p in gone {
      AbsentIndex(s.blockOrder, old_);
      RehashGone(files, order, gone, s, s', p, c);
    } else {
      RehashLive(files, order, gone, s, s', p, c);
    }
    RehashSized(s, s', size, FirstIndex(s.blockOrder, old_), c);
    ReindexKeepsFiles(s, files, p, old_, c, s');
    RehashHits(t, order, gone, i, s, s', c);
  }
}
