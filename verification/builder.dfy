/** car/car_dir_builder.go: the first pass of CAR generation, updating one summary object in place. */
module Builder {
  import opened Base
  import opened Dag
  import opened FsTrees
  import opened Bfs
  import opened TreeSummaries
  import opened BuilderSteps
  import opened BuilderPrune
  import opened BuilderRehash
  import opened BuilderWalk
  import opened BuilderResult
  import opened BuilderTotals
  import opened BuilderIndex
  import opened BuilderSequence
  import opened BuilderEmpty
  import opened BuilderOrder
  import opened NodeStores
  import opened Collect

  class TreeSummary {
    var rootCid: Cid
    var totalSize: nat
    var blockOrder: seq<Cid>
    var blockSizes: seq<nat>
    var entries: Entries
    var cidToEntry: map<Cid, Path>
    var carSize: uint64

    constructor ()
      ensures Value() == EmptySummary()
    {
      carSize := 0;
      rootCid, totalSize, blockOrder, blockSizes := Undef, 0, [], [];
      entries, cidToEntry := map[ROOT := RootEntry()], map[];
    }

    /** Everything but the CAR size, which is computed later. */
    ghost function Value(): Summary
      reads `rootCid, `totalSize, `blockOrder, `blockSizes, `entries, `cidToEntry
    {
      Summary(rootCid, totalSize, blockOrder, blockSizes, entries, cidToEntry)
    }
  }

  lemma TakeOneMore<T>(s: seq<T>, i: nat)
    requires i < |s|
    ensures s[..i + 1] == s[..i] + [s[i]]
  {
  }

  lemma TakeAll<T>(s: seq<T>)
    ensures s[..|s|] == s
  {
  }

  lemma SumOneMore(sizes: seq<nat>, i: nat)
    requires i < |sizes|
    ensures Sum(sizes[..i + 1]) == Sum(sizes[..i]) + sizes[i]
  {
    assert sizes[..i + 1][..i] == sizes[..i];
  }

  lemma IndexOneMore(index: map<Cid, Path>, cs: seq<Cid>, i: nat, p: Path)
    requires i < |cs|
    ensures IndexBlocks(index, cs[..i + 1], p) == IndexBlocks(index, cs[..i], p)[cs[i] := p]
  {
    TakeOneMore(cs, i);
  }

  lemma IndexAndSumNothing(index: map<Cid, Path>, p: Path)
    ensures IndexBlocks(index, [], p) == index && Sum([]) == 0
  {
  }

  lemma RootCidInTally(s: Summary, c: Cid)
    ensures Tallied(s) ==> Tallied(s.(rootCid := c))
  {
  }

  lemma IsUnpruned(t: FsTree, size: Sizer, order: seq<Path>, s: Summary)
    requires FirstPass(t, WalkBlocks(t), size, order, |order|, s) && Tallied(s)
    ensures Unpruned(t, size, s.totalSize)
  {
  }

  lemma OneAdded(before: set<Cid>, all: set<Cid>, todo: set<Cid>, c: Cid)
    requires todo <= all && c in todo
    ensures before + (all - todo) + {c} == before + (all - (todo - {c})) && |todo - {c}| < |todo|
  {
  }

  lemma MoveOver(todo: set<Path>, gone: set<Path>, all: set<Path>, p: Path)
    requires p in todo && todo !! gone && todo + gone == all
    ensures p !in gone && (todo - {p}) !! (gone + {p}) && (todo - {p}) + (gone + {p}) == all && |todo - {p}| < |todo|
  {
  }

  /** The visitor's separate updates amount to the walk's specification of one visit. */
  lemma VisitResult(s: Summary, p: Path, t: FsTree, size: Sizer)
    requires p != [] && ROOT in s.entries && p != ListKey(Front(p))
    ensures t.Folder? ==> SizesOf(size, FileBlocks(t)) == [] && Sum([]) == 0 && IndexBlocks(s.cidToEntry, [], p) == s.cidToEntry
    ensures t.Folder? ==> s.blockOrder + [] == s.blockOrder && s.blockSizes + [] == s.blockSizes
    ensures t.File? ==> IndexBlocks(s.cidToEntry, BlockList(Of(t.dag)), p)[Of(t.dag) := p]
                        == IndexBlocks(s.cidToEntry, BlockList(Of(t.dag)), p)
    ensures Append(s.entries, ROOT, []) == s.entries
    ensures Append(s.entries, ListKey(Front(p)), [p])[p := EntryOf(p, t, [])]
         == Append(s.entries[p := EntryOf(p, t, [])], ListKey(Front(p)), [p])
  {
    assert s.entries[ROOT].children + [] == s.entries[ROOT].children;
    if t.File? {
      BlockListExact(Of(t.dag));
      assert Of(t.dag) in Elements(BlockList(Of(t.dag)));
    }
  }

  lemma FirstIndexIs<T>(s: seq<T>, x: T, i: nat)
    requires i < |s| && s[i] == x && forall k :: 0 <= k < i ==> s[k] != x
    ensures FirstIndex(s, x) == i
  {
  }

  /** The check pruning makes of one entry. */
  lemma EmptyCheck(t: FsTree, es: Entries, order: seq<Path>, p: Path)
    requires Skeleton(t, {}, es) && DeepestFirst(es, order) && p in es
    requires forall k :: 0 <= k < |order| ==> Done(t, es, order[k])
    ensures es[p].isDir ==> At(t, p).Some?
    ensures Emptied(t, p) <==> es[p].isDir && p != ROOT && IsDirectoryEmpty(t, es, p)
  {
    assert WellNamed(p, es[p]);
    if es[p].isDir {
      DoneAt(t, es, order, p);
    }
    if p != ROOT && At(t, p).Some? {
      DirectoryEmptyMeans(t, es, p);
      assert EntryMatches(At(t, p).value, es[p]);
    }
  }

  lemma ListedLinks(es: Entries, p: Path)
    requires p in es && p != ROOT && NoDuplicates(es[p].children)
    requires forall i :: 0 <= i < |es[p].children| ==> ChildOf(es, p, es[p].children[i])
    ensures LinksExactly(es, p, ChildLinks(es, es[p].children))
  {
    ChildLinksDistinct(es, p, es[p].children);
    forall l ensures l in ChildLinks(es, es[p].children) <==> Linked(es, p, l) {
      ChildLinkElements(es, p, es[p].children, l);
    }
  }

  lemma FirstPassEntry(t: FsTree, files: seq<Cid>, size: Sizer, order: seq<Path>, i: nat, s: Summary)
    requires FirstPass(t, files, size, order, i, s) && i < |order|
    ensures order[i] in s.entries && s.entries[order[i]].isDir && At(t, order[i]).Some? && At(t, order[i]).value.Folder?
    ensures Skeleton(t, {}, s.entries)
    ensures forall n :: Lookup(t, ChildKey(order[i], n)).Some? ==> Done(t, s.entries, ChildKey(order[i], n))
  {
    ChildrenDone(t, s.entries, order, i);
  }

  lemma WalkedRoot(t: FsTree)
    requires t.Folder? && WellFormed(t) && NoRootName(t)
    ensures ROOT in WalkedEntries(t) && WalkedEntries(t)[ROOT].isDir
  {
    WalkedSkeleton(t);
  }

  /** ROOT stays a directory entry through all phases. */
  lemma PhaseFacts(t: FsTree, files: seq<Cid>, size: Sizer, order: seq<Path>, gone: set<Path>, s: Summary)
    requires FirstPass(t, files, size, order, |order|, s) || Pruning(t, files, size, order, gone, s)
          || Rehashing(t, files, size, order, gone, |order|, s)
    ensures ROOT in s.entries && s.entries[ROOT].isDir
  {
  }

  class CarBuilder {
    const store: NodeStore
    const size: Sizer
    var filesystem: FsTree
    var summary: TreeSummary?

    constructor (store: NodeStore, size: Sizer)
      ensures this.store == store && this.size == size && summary == null
    {
      this.store, this.size, filesystem, summary := store, size, Folder([]), null;
    }

    /** Adds the blocks of a file and lists them; fails when the store dropped one in between. */
    method CreateUnixFSBlocks(dag: Node) returns (r: Option<(seq<Cid>, seq<nat>)>)
      requires FileDag(dag)
      modifies store
      ensures r.Some? ==> r.value.0 == BlockList(Of(dag)) && r.value.1 == SizesOf(size, r.value.0)
      ensures store.roomy ==> r.Some? && store.held == old(store.held) + Reach(Of(dag))
    {
      hide Reach, FileDag, BlockList, SizesOf;
      var todo := Reach(Of(dag));
      while todo != {}
        invariant todo <= Reach(Of(dag))
        invariant store.roomy ==> store.held == old(store.held) + (Reach(Of(dag)) - todo)
        decreases |todo|
      {
        var c :| c in todo;
        FileDagReach(dag, c);
        OneAdded(old(store.held), Reach(Of(dag)), todo, c);
        store.Add(c.node);
        todo := todo - {c};
      }
      forall c | c in Reach(Of(dag)) ensures c.Of? {
        FileDagReach(dag, c);
      }
      r := CollectAllBlocks(store, Of(dag), size);
    }

    /** The visitor of the file system walk. */
    method Visit(s: TreeSummary, p: Path, t: FsTree) returns (ok: bool)
      requires p != [] && p != ROOT && WellFormed(t)
      requires ROOT in s.entries
      modifies s, store
      ensures ok ==> s.Value() == Visited(old(s.Value()), p, t, size)
      ensures store.roomy ==> ok && store.held == old(store.held) + if t.File? then Reach(Of(t.dag)) else {}
    {
      hide BlockList, Sum, SizesOf, IndexBlocks;
      ghost var before := s.Value();
      var entry := TreeEntry(Front(p), Last(p), t.Folder?, Undef, [], 0);
      if t.File? {
        var blocks := CreateUnixFSBlocks(t.dag);
        if blocks.None? {
          return false;
        }
        entry := entry.(cid := Of(t.dag), logicalSize := LogicalSize(t.dag));
        IndexFileBlocks(s, p, blocks.value.0, blocks.value.1);
      }
      s.entries := s.entries[p := entry];
      if entry.cid != Undef {
        s.cidToEntry := s.cidToEntry[entry.cid := p];
      }
      if entry.path != [] {
        if entry.path in s.entries {
          s.entries := s.entries[entry.path := s.entries[entry.path].(children := s.entries[entry.path].children + [p])];
        }
      } else if !entry.isDir {
        s.entries := s.entries[ROOT := s.entries[ROOT].(children := s.entries[ROOT].children + [p])];
      }
      VisitResult(before, p, t, size);
      return true;
    }

    method IndexFileBlocks(s: TreeSummary, p: Path, cs: seq<Cid>, sizes: seq<nat>)
      requires |cs| == |sizes|
      modifies s
      ensures s.Value() == old(s.Value()).(
                blockOrder := old(s.blockOrder) + cs, blockSizes := old(s.blockSizes) + sizes,
                totalSize := old(s.totalSize) + Sum(sizes), cidToEntry := IndexBlocks(old(s.cidToEntry), cs, p))
    {
      hide Sum, IndexBlocks;
      IndexAndSumNothing(old(s.cidToEntry), p);
      for i := 0 to |cs|
        invariant s.rootCid == old(s.rootCid) && s.entries == old(s.entries)
        invariant s.blockOrder == old(s.blockOrder) + cs[..i] && s.blockSizes == old(s.blockSizes) + sizes[..i]
        invariant s.totalSize == old(s.totalSize) + Sum(sizes[..i])
        invariant s.cidToEntry == IndexBlocks(old(s.cidToEntry), cs[..i], p)
      {
        s.blockOrder := s.blockOrder + [cs[i]];
        s.blockSizes := s.blockSizes + [sizes[i]];
        s.totalSize := s.totalSize + sizes[i];
        s.cidToEntry := s.cidToEntry[cs[i] := p];
        TakeOneMore(cs, i);
        TakeOneMore(sizes, i);
        SumOneMore(sizes, i);
        IndexOneMore(old(s.cidToEntry), cs, i, p);
      }
      TakeAll(cs);
      TakeAll(sizes);
    }

    /** fs.WalkDir from `p` on: the entry itself, then what it contains. */
    method WalkFrom(s: TreeSummary, p: Path, t: FsTree) returns (ok: bool)
      requires p != [] && p != ROOT && WellFormed(t) && ROOT in s.entries
      modifies s, store
      ensures ok ==> s.Value() == Walked(old(s.Value()), p, t, size) && ROOT in s.entries
      ensures store.roomy ==> ok
      decreases t
    {
      ok := Visit(s, p, t);
      if ok && t.Folder? {
        ok := WalkKids(s, p, t.kids);
      }
    }

    method WalkKids(s: TreeSummary, p: Path, kids: seq<Kid>) returns (ok: bool)
      requires ROOT in s.entries
      requires forall i :: 0 <= i < |kids| ==> WellFormed(kids[i].tree) && p + [kids[i].name] != ROOT
      modifies s, store
      ensures ok ==> s.Value() == WalkedKids(old(s.Value()), p, kids, size) && ROOT in s.entries
      ensures store.roomy ==> ok
      decreases kids
    {
      ok := true;
      if kids != [] {
        ok := WalkFrom(s, p + [kids[0].name], kids[0].tree);
        if ok {
          ok := WalkKids(s, p, kids[1..]);
        }
      }
    }

    /** createDirectoryBlock: links of the hashed children, and for ROOT of the root-level directories too. */
    method CreateDirectoryBlock(entry: TreeEntry, es: Entries, ghost u: FsTree, ghost p: Path)
      returns (c: Cid, blockSize: nat, ghost links: seq<Link>)
      requires Skeleton(u, {}, es) && p in es && es[p] == entry && entry.isDir
      modifies store
      ensures LinksExactly(es, p, links) && c == Of(Directory(SortLinks(links))) && blockSize == size(c.node)
      ensures store.roomy ==> store.held == old(store.held) + {c}
    {
      SkeletonChildren(u, es, p);
      assert WellNamed(p, es[p]);
      var children := ChildLinks(es, entry.children);
      if entry.name == "ROOT" {
        children := AddRootDirs(es, children);
      } else {
        ListedLinks(es, p);
      }
      links := children;
      var node := Directory(SortLinks(children));
      store.Add(node);
      return Of(node), size(node), links;
    }

    /** The first hashing loop, over the directories in the order sorting left them. */
    method HashDirectories(s: TreeSummary, order: seq<Path>, ghost t: FsTree, ghost files: seq<Cid>)
      requires FirstPass(t, files, size, order, 0, s.Value()) && Tallied(s.Value()) && NothingStale(s.Value(), files)
      modifies s, store
      ensures FirstPass(t, files, size, order, |order|, s.Value()) && Tallied(s.Value()) && NothingStale(s.Value(), files)
    {
      hide Tallied, NothingStale, FirstPass, Skeleton, Done, Lookup, LinksExactly, TreeNode, SortLinks, HashDir;
      for i := 0 to |order|
        invariant FirstPass(t, files, size, order, i, s.Value()) && Tallied(s.Value()) && NothingStale(s.Value(), files)
      {
        FirstPassEntry(t, files, size, order, i, s.Value());
        var p := order[i];
        var entry := s.entries[p];
        var c, blockSize, links := CreateDirectoryBlock(entry, s.entries, t, p);
        DirectoryHash(t, s.entries, p, links);
        FirstPassStep(t, files, size, order, i, s.Value(), c);
        HashedTallied(s.Value(), p, c, blockSize);
        HashLeavesNothingStale(s.Value(), files, p, c, blockSize);
        ListDirectory(s, p, c, blockSize);
      }
    }

    /** The bookkeeping of one directory: its entry, its index record, its block. */
    method ListDirectory(s: TreeSummary, p: Path, c: Cid, blockSize: nat)
      requires p in s.entries
      modifies s
      ensures s.Value() == HashDir(old(s.Value()), p, c, blockSize)
    {
      hide Reindex;
      SetEntryCid(s, p, c);
      s.blockOrder := s.blockOrder + [c];
      s.blockSizes := s.blockSizes + [blockSize];
      s.totalSize := s.totalSize + blockSize;
    }

    /** The entry gets its identifier, and the index forgets the old one and learns the new one. */
    method SetEntryCid(s: TreeSummary, p: Path, c: Cid)
      requires p in s.entries
      modifies s`entries, s`cidToEntry
      ensures s.entries == SetCid(old(s.entries), p, c)
      ensures s.cidToEntry == Reindex(old(s.cidToEntry), old(s.entries)[p].cid, c, p)
    {
      var entry := s.entries[p];
      if entry.cid != Undef {
        s.cidToEntry := s.cidToEntry - {entry.cid};
      }
      s.entries := s.entries[p := entry.(cid := c)];
      s.cidToEntry := s.cidToEntry[c := p];
    }

    /** The first loop of pruneEmptyDirectories. */
    method FindEmptyDirectories(s: TreeSummary, ghost t: FsTree, ghost files: seq<Cid>, ghost order: seq<Path>)
      returns (emptyDirs: set<Path>)
      requires Pruning(t, files, size, order, {}, s.Value())
      ensures forall p :: p in emptyDirs <==> Emptied(t, p)
    {
      emptyDirs := {};
      var keys := s.entries.Keys;
      while keys != {}
        invariant keys <= s.entries.Keys
        invariant forall p :: p in emptyDirs <==> Emptied(t, p) && p in s.entries && p !in keys
        decreases |keys|
      {
        var p :| p in keys;
        keys := keys - {p};
        EmptyCheck(t, s.entries, order, p);
        if s.entries[p].isDir && p != ROOT {
          if IsDirectoryEmpty(t, s.entries, p) {
            emptyDirs := emptyDirs + {p};
          }
        }
      }
      forall p | Emptied(t, p) ensures p in s.entries {
        ParentPresent(t, {}, s.entries, p);
      }
    }

    /** The body of its second loop. */
    method PruneOne(s: TreeSummary, p: Path)
      requires p in s.entries && |s.blockOrder| == |s.blockSizes|
      modifies s
      ensures s.Value() == PruneDir(old(s.Value()), p) && s.totalSize == old(s.totalSize)
    {
      var entry := s.entries[p];
      var parentPath := if entry.path == [] then ROOT else entry.path;
      if parentPath !in s.entries {
        return;
      }
      var parentEntry := s.entries[parentPath];
      s.entries := s.entries[parentPath := parentEntry.(children := RemoveFirst(parentEntry.children, p))];
      if entry.cid != Undef {
        var i := 0;
        while i < |s.blockOrder|
          invariant 0 <= i <= |s.blockOrder| == |s.blockSizes|
          invariant s.Value() == old(s.Value()).(entries := s.entries)
          invariant forall k :: 0 <= k < i ==> s.blockOrder[k] != entry.cid
        {
          if s.blockOrder[i] == entry.cid {
            FirstIndexIs(s.blockOrder, entry.cid, i);
            s.blockOrder := s.blockOrder[..i] + s.blockOrder[i + 1..];
            s.blockSizes := s.blockSizes[..i] + s.blockSizes[i + 1..];
            s.cidToEntry := s.cidToEntry - {entry.cid};
            return;
          }
          i := i + 1;
        }
        AbsentIndex(s.blockOrder, entry.cid);
      }
    }

    /** pruneEmptyDirectories: first find the file-less directories, then take them out one by one, in any order. */
    method PruneEmptyDirectories(s: TreeSummary, ghost t: FsTree, ghost files: seq<Cid>, ghost order: seq<Path>)
      returns (ghost gone: set<Path>)
      requires Pruning(t, files, size, order, {}, s.Value()) && NothingStale(s.Value(), files)
      requires PruneLine(t, files, order, s.blockOrder)
      modifies s
      ensures Pruning(t, files, size, order, gone, s.Value()) && AllPruned(t, gone) && NothingStale(s.Value(), files)
      ensures PruneLine(t, files, order, s.blockOrder)
      ensures s.totalSize == old(s.totalSize)
    {
      hide Pruning, PruneDir, Emptied, NothingStale, PruneLine;
      var emptyDirs := FindEmptyDirectories(s, t, files, order);
      gone := {};
      var todo := emptyDirs;
      while todo != {}
        invariant todo !! gone && todo + gone == emptyDirs
        invariant Pruning(t, files, size, order, gone, s.Value()) && s.totalSize == old(s.totalSize)
        invariant NothingStale(s.Value(), files) && PruneLine(t, files, order, s.blockOrder)
        decreases |todo|
      {
        var p :| p in todo;
        MoveOver(todo, gone, emptyDirs, p);
        todo := todo - {p};
        PruneLineStep(t, files, size, order, gone, s.Value(), p);
        PruneStep(t, files, size, order, gone, s.Value(), p);
        PruneLeavesNothingStale(s.Value(), files, p);
        PruneOne(s, p);
        gone := gone + {p};
      }
    }

    /** The second hashing loop: identifiers change in place. */
    method RehashDirectories(
      s: TreeSummary, order: seq<Path>, ghost t: FsTree, ghost files: seq<Cid>, ghost gone: set<Path>, ghost dirs: seq<Path>)
      requires Rehashing(t, files, size, order, gone, 0, s.Value()) && NothingStale(s.Value(), files)
      requires RehashLine(t, files, dirs, order, 0, s.blockOrder)
      modifies s, store
      ensures Rehashing(t, files, size, order, gone, |order|, s.Value()) && s.totalSize == old(s.totalSize)
      ensures NothingStale(s.Value(), files) && LeftoversIndexed(order, gone, |order|, s.Value())
      ensures RehashLine(t, files, dirs, order, |order|, s.blockOrder)
    {
      hide RehashLine, NothingStale, LeftoversIndexed, Rehashing, Skeleton, LinksExactly, FinalCid, TreeNode, FirstIndex;
      LeftoversStart(order, gone, s.Value());
      for i := 0 to |order|
        invariant Rehashing(t, files, size, order, gone, i, s.Value()) && s.totalSize == old(s.totalSize)
        invariant NothingStale(s.Value(), files) && LeftoversIndexed(order, gone, i, s.Value())
        invariant RehashLine(t, files, dirs, order, i, s.blockOrder)
      {
        RehashEntry(t, files, size, order, gone, i, s.Value());
        var p := order[i];
        var entry := s.entries[p];
        var oldCid := entry.cid;
        var c, blockSize, links := CreateDirectoryBlock(entry, s.entries, PruneRoot(t), p);
        RehashHash(t, files, size, order, gone, i, s.Value(), links);
        RehashStep(t, files, size, order, gone, i, s.Value(), c);
        LeftoversStep(t, files, size, order, gone, i, s.Value(), c);
        RehashLineNext(t, files, size, order, gone, i, s.Value(), dirs, c);
        RehashLeavesNothingStale(s.Value(), files, p, c, blockSize);
        SetEntryCid(s, p, c);
        ReplaceBlock(s, oldCid, c, blockSize, |entry.children| > 0);
      }
    }

    /** The search for the old identifier, and the append that follows an unsuccessful one. */
    method ReplaceBlock(s: TreeSummary, oldCid: Cid, c: Cid, blockSize: nat, hasChildren: bool)
      requires |s.blockOrder| == |s.blockSizes|
      modifies s
      ensures var i, v := FirstIndex(old(s.blockOrder), oldCid), old(s.Value());
              s.Value() == if i < |v.blockOrder|
                           then v.(blockOrder := v.blockOrder[i := c], blockSizes := v.blockSizes[i := blockSize])
                           else if oldCid != Undef && hasChildren
                           then v.(blockOrder := v.blockOrder + [c], blockSizes := v.blockSizes + [blockSize])
                           else v
    {
      var found := false;
      var i := 0;
      while i < |s.blockOrder| && !found
        invariant 0 <= i <= |s.blockOrder| == |s.blockSizes|
        invariant !found ==> s.Value() == old(s.Value()) && forall k :: 0 <= k < i ==> s.blockOrder[k] != oldCid
        invariant found ==> FirstIndex(old(s.blockOrder), oldCid) < |old(s.blockOrder)|
        invariant found ==> var j, v := FirstIndex(old(s.blockOrder), oldCid), old(s.Value());
                            s.Value() == v.(blockOrder := v.blockOrder[j := c], blockSizes := v.blockSizes[j := blockSize])
        decreases |s.blockOrder| - i, !found
      {
        if s.blockOrder[i] == oldCid {
          FirstIndexIs(s.blockOrder, oldCid, i);
          s.blockOrder := s.blockOrder[i := c];
          s.blockSizes := s.blockSizes[i := blockSize];
          found := true;
        } else {
          i := i + 1;
        }
      }
      if !found {
        AbsentIndex(s.blockOrder, oldCid);
        if oldCid != Undef && hasChildren {
          s.blockOrder := s.blockOrder + [c];
          s.blockSizes := s.blockSizes + [blockSize];
        }
      }
    }

    /** Without a wrapping directory, a file system of exactly one file has that file as its root. */
    method SoleRootFile(es: Entries, ghost t: FsTree) returns (r: Option<Cid>)
      requires Skeleton(t, {}, es) && forall p :: p in es ==> At(t, p).Some?
      ensures r == SoleFile(t)
    {
      var rootLevelFiles: set<Path> := {};
      var hasDirectories := false;
      var keys := es.Keys;
      while keys != {} && !hasDirectories
        invariant keys <= es.Keys
        invariant hasDirectories ==> exists p :: p in es && p != ROOT && es[p].isDir
        invariant !hasDirectories ==> forall p :: p in rootLevelFiles <==> p in es && p != ROOT && p !in keys && es[p].path == []
        invariant !hasDirectories ==> forall p :: p in es && p != ROOT && p !in keys ==> !es[p].isDir
        decreases |keys|
      {
        var p :| p in keys;
        keys := keys - {p};
        if p != ROOT {
          if es[p].isDir {
            hasDirectories := true;
          } else if es[p].path == [] {
            rootLevelFiles := rootLevelFiles + {p};
          }
        }
      }
      SoleFileDecided(t, es, rootLevelFiles, hasDirectories);
      if !hasDirectories && |rootLevelFiles| == 1 {
        var p :| p in rootLevelFiles;
        return Some(es[p].cid);
      }
      return None;
    }

    /** The whole first pass. It fails only when the store dropped a block it was asked for. */
    method BuildSummary(t: FsTree, wrapInDir: bool) returns (r: Option<TreeSummary>)
      requires t.Folder? && WellFormed(t) && NoRootName(t)
      modifies this, store
      ensures store.roomy ==> r.Some?
      ensures r.Some? ==> fresh(r.value) && summary == r.value && filesystem == t
      ensures r.Some? ==> Built(t, wrapInDir, size, r.value.Value())
      ensures r.Some? ==> if !wrapInDir && SoleFile(t).Some? then Tallied(r.value.Value()) else Unpruned(t, size, r.value.totalSize)
      ensures r.Some? ==> IndexesListed(t, r.value.Value())
      ensures r.Some? && (wrapInDir || SoleFile(t).None?) ==> Sequenced(t, r.value.blockOrder)
    {
      hide Sequenced, NoRootName, WalkedEntries, WalkedKids, WalkBlocks, Skeleton, FilesOnly, Finished, Tallied, Unpruned, FromBlocks,
        IndexesListed;
      WalkedIndex(t, size);
      EmptyTallied();
      WalkedKidsTallied(EmptySummary(), [], t.kids, size);
      filesystem := t;
      var s := new TreeSummary();
      RootKidNames(t);
      var ok := WalkKids(s, [], t.kids);
      if !ok {
        return None;
      }
      WholeWalk(t, size);
      WalkedSkeleton(t);
      if !wrapInDir {
        var sole := SoleRootFile(s.entries, t);
        if sole.Some? {
          SoleFileBlocks(t, sole.value);
          RootCidInFilesOnly(s.Value(), size, sole.value);
          RootCidInTally(s.Value(), sole.value);
          SoleFileIndex(t, s.Value(), size);
          RootCidLeavesListed(t, s.Value(), sole.value);
          s.rootCid := sole.value;
          summary := s;
          return Some(s);
        }
      }
      HashTwice(s, t);
      summary := s;
      return Some(s);
    }

    /** Everything after the walk: hash, prune, hash again. */
    method HashTwice(s: TreeSummary, ghost t: FsTree)
      requires t.Folder? && WellFormed(t) && NoRootName(t)
      requires s.entries == WalkedEntries(t) && s.blockOrder == WalkBlocks(t) && FilesOnly(s.Value(), size) && Tallied(s.Value())
      requires FromBlocks(s.Value())
      modifies s, store
      ensures exists order, gone :: Finished(t, size, order, gone, s.Value())
      ensures Unpruned(t, size, s.totalSize) && IndexesListed(t, s.Value()) && Sequenced(t, s.blockOrder)
    {
      hide PruneLine, RehashLine, Sequenced, FromBlocks, NothingStale, LeftoversIndexed, IndexesListed, Tallied, Unpruned, Skeleton,
        FirstPass, Pruning, Rehashing, WalkedEntries, FilesOnly, WalkBlocks, WellFormed, NoRootName, AllPruned;
      ghost var files := s.blockOrder;
      WalkedRoot(t);
      var order := SortedDirs(s.entries);
      FirstPassStarts(t, size, order, s.Value());
      NothingStaleAtFirst(s.Value(), size);
      HashDirectories(s, order, t, files);
      IsUnpruned(t, size, order, s.Value());
      PruneLineStarts(t, files, size, order, s.Value());
      PhaseFacts(t, files, size, order, {}, s.Value());
      RootCidIsFree(t, files, size, order, {}, s.Value(), s.entries[ROOT].cid);
      RootCidLeavesIndex(s.Value(), files, s.entries[ROOT].cid);
      s.rootCid := s.entries[ROOT].cid;
      PruningStarts(t, files, size, order, s.Value());
      ghost var gone := PruneEmptyDirectories(s, t, files, order);
      PhaseFacts(t, files, size, order, gone, s.Value());
      var order2 := SortedDirs(s.entries);
      WalkBlocksAreFiles(t);
      RehashingStarts(t, files, size, order, order2, gone, s.Value());
      ghost var dirs := PrunedInSequence(t, files, size, order, gone, s.Value(), order2);
      RehashDirectories(s, order2, t, files, gone, dirs);
      RehashedInSequence(t, dirs, order2, s.blockOrder);
      PhaseFacts(t, files, size, order2, gone, s.Value());
      RootCidIsFree(t, files, size, order2, gone, s.Value(), s.entries[ROOT].cid);
      RootCidLeavesIndex(s.Value(), files, s.entries[ROOT].cid);
      RootCidLeavesLeftovers(order2, gone, s.Value(), s.entries[ROOT].cid);
      s.rootCid := s.entries[ROOT].cid;
      assert Finished(t, size, order2, gone, s.Value());
      FinishedIndex(t, size, order2, gone, s.Value());
    }
  }
}
