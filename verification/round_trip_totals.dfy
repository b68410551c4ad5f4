/** What a round trip does to the announced total and to the identifier index, which are documented to survive it. */
module RoundTripTotals {
  import opened Dag
  import opened FsTrees
  import opened Bfs
  import opened TreeSummaries
  import opened Collect
  import opened BuilderSteps
  import opened BuilderPrune
  import opened BuilderWalk
  import opened BuilderResult
  import opened BuilderTotals
  import opened BuilderTotalExact
  import opened BuilderTheorems
  import opened BuilderIndex
  import opened BuilderRehash
  import opened ReadBack
  import opened ReadBackSteps
  import opened ReadBackIndex
  import opened RoundTrip

  // ---------------------------------------------------------------- counting every block once

  /** A block listed twice has no bytes. */
  ghost predicate RepeatsAreEmpty(size: Sizer, cs: seq<Cid>) {
    forall i, j :: 0 <= i < j < |cs| && cs[i] == cs[j] ==> SizeOf(size, cs[i]) == 0
  }

  lemma RepeatsStep(size: Sizer, cs: seq<Cid>, c: Cid)
    ensures RepeatsAreEmpty(size, cs + [c]) <==> RepeatsAreEmpty(size, cs) && (c in cs ==> SizeOf(size, c) == 0)
  {
    hide SizeOf;
    var all := cs + [c];
    if RepeatsAreEmpty(size, all) {
      forall i, j | 0 <= i < j < |cs| && cs[i] == cs[j] ensures SizeOf(size, cs[i]) == 0 {
        assert all[i] == cs[i] && all[j] == cs[j];
      }
      if c in cs {
        var i :| 0 <= i < |cs| && cs[i] == c;
        assert all[i] == all[|cs|];
      }
    }
  }

  lemma SumStep(size: Sizer, cs: seq<Cid>, c: Cid)
    ensures Sum(SizesOf(size, cs + [c])) == Sum(SizesOf(size, cs)) + SizeOf(size, c)
  {
    SizesAppend(size, cs, c);
    assert (SizesOf(size, cs) + [SizeOf(size, c)])[..|cs|] == SizesOf(size, cs);
  }

  lemma ElementsStep(cs: seq<Cid>, c: Cid)
    ensures Elements(cs + [c]) == Elements(cs) + {c} && (c in cs <==> c in Elements(cs))
  {
    AppendElements(cs, [c]);
    assert [c][0] in Elements([c]) && Elements([c]) == {c};
  }

  lemma DroppedElements(cs: seq<Cid>, j: nat)
    requires NoDuplicates(cs) && j < |cs|
    ensures NoDuplicates(DropAt(cs, j)) && Elements(DropAt(cs, j)) == Elements(cs) - {cs[j]}
  {
    var rest := DropAt(cs, j);
    forall c | c in Elements(cs) - {cs[j]} ensures c in Elements(rest) {
      var i :| 0 <= i < |cs| && cs[i] == c;
      assert rest[if i < j then i else i - 1] == c;
    }
  }

  /** Counting each block once is never more than counting all, and as much if and only if the repeats are empty. */
  lemma {:induction false} OnceOrMore(size: Sizer, all: seq<Cid>, once: seq<Cid>)
    requires NoDuplicates(once) && Elements(once) == Elements(all)
    ensures Sum(SizesOf(size, once)) <= Sum(SizesOf(size, all))
    ensures Sum(SizesOf(size, once)) == Sum(SizesOf(size, all)) <==> RepeatsAreEmpty(size, all)
    decreases |all|
  {
    if all == [] {
      NothingInEmpty(once);
    } else {
      hide SizesOf, Sum, SizeOf, RepeatsAreEmpty, NoDuplicates, Elements;
      var rest, c := all[..|all| - 1], all[|all| - 1];
      assert all == rest + [c];
      RepeatsStep(size, rest, c);
      SumStep(size, rest, c);
      ElementsStep(rest, c);
      if c in rest {
        assert Elements(rest) + {c} == Elements(rest);
        OnceOrMore(size, rest, once);
      } else {
        var j := PlaceOf(once, c);
        DroppedElements(once, j);
        OnceOrMore(size, rest, DropAt(once, j));
        SumWithout(size, once, j);
      }
    }
  }

  lemma NothingInEmpty(once: seq<Cid>)
    requires Elements(once) == Elements([])
    ensures once == []
  {
    FirstElement(once);
  }

  lemma FirstElement(cs: seq<Cid>)
    ensures cs == [] || cs[0] in Elements(cs)
  {
  }

  lemma PlaceOf(cs: seq<Cid>, c: Cid) returns (j: nat)
    requires c in Elements(cs)
    ensures j < |cs| && cs[j] == c
  {
    j :| 0 <= j < |cs| && cs[j] == c;
  }

  // ---------------------------------------------------------------- the total

  /** The total read back is the announced one if and only if nothing was emptied and no block with bytes is listed twice. */
  lemma TotalComesBackExactly(t: FsTree, size: Sizer, order: seq<Path>, gone: set<Path>, s: Summary)
    requires WellFormed(t) && NoRootName(t) && t.Folder? && Finished(t, size, order, gone, s)
    requires Unpruned(t, size, s.totalSize) && DirSizer(size) && RootFoldersHaveFiles(t)
    ensures Sum(SizesOf(size, BlockList(s.rootCid))) <= s.totalSize
    ensures Sum(SizesOf(size, BlockList(s.rootCid))) == s.totalSize
      <==> (forall p :: !Emptied(t, p)) && RepeatsAreEmpty(size, s.blockOrder)
  {
    BuiltFolder(t, size, order, gone, s);
    FinishedSized(t, size, order, gone, s);
    hide Finished, Built, Unpruned, DirSizer, RootFoldersHaveFiles, Emptied, RepeatsAreEmpty, Sum, SizesOf, BlockList, Reach, WellFormed,
      NoRootName, Sized;
    SelfContainedExactly(t, true, size, s);
    BlockListExact(s.rootCid);
    OnceOrMore(size, s.blockOrder, BlockList(s.rootCid));
    SizedSum(s, size);
    TotalExactly(t, size, order, gone, s, s.totalSize);
  }

  lemma BuiltFolder(t: FsTree, size: Sizer, order: seq<Path>, gone: set<Path>, s: Summary)
    requires Finished(t, size, order, gone, s)
    ensures Built(t, true, size, s)
  {
  }

  lemma FinishedSized(t: FsTree, size: Sizer, order: seq<Path>, gone: set<Path>, s: Summary)
    requires Finished(t, size, order, gone, s)
    ensures Sized(s, size)
  {
  }

  // ---------------------------------------------------------------- the index

  /** Every block of every file is an entry of its own, as when every file is one block. */
  ghost predicate FilesAreEntries(t: FsTree) {
    forall c :: c in WalkBlocks(t) ==> IsEntryCid(PruneRoot(t), c)
  }

  lemma EntryIsListed(t: FsTree, size: Sizer, order: seq<Path>, gone: set<Path>, s: Summary, c: Cid)
    requires WellFormed(t) && NoRootName(t) && t.Folder? && Finished(t, size, order, gone, s) && RootFoldersHaveFiles(t)
    requires IsEntryCid(PruneRoot(t), c)
    ensures c in s.blockOrder
  {
    var p :| Lookup(PruneRoot(t), p).Some? && CidAt(PruneRoot(t), p) == c;
    PruneRootWellFormed(t);
    hide Finished, PruneRoot, WellFormed, NoRootName;
    LookupReach(PruneRoot(t), p);
    ReachWithinListed(t, size, order, gone, s);
    assert c in Elements(s.blockOrder);
  }

  lemma ListedIsEntry(t: FsTree, size: Sizer, order: seq<Path>, gone: set<Path>, s: Summary, c: Cid)
    requires WellFormed(t) && Finished(t, size, order, gone, s) && FilesAreEntries(t) && c in s.blockOrder
    ensures IsEntryCid(PruneRoot(t), c)
  {
    ListedBlocks(t, size, order, gone, s, c);
    if c !in WalkBlocks(t) {
      var p :| KeptDir(t, p) && FinalCid(t, p) == c;
      LookupPruned(t, TreePath(p));
      assert CidAt(PruneRoot(t), TreePath(p)) == c;
    }
  }

  lemma NothingInEmptyTree(t: FsTree, p: Path)
    requires t.Folder? && TreeCid(PruneRoot(t)) == EMPTY_DIR
    ensures !Emptied(t, p)
  {
    KidsAreLinked(PruneRoot(t).kids);
    assert t.kids == [];
    if p != [] {
      FolderLookup(t, p);
    }
  }

  /** Where something was pruned, but no root-level folder to nothing, no entry is an empty directory. */
  lemma NoEmptyEntry(t: FsTree, size: Sizer, order: seq<Path>, gone: set<Path>, s: Summary)
    requires WellFormed(t) && NoRootName(t) && t.Folder? && Finished(t, size, order, gone, s) && RootFoldersHaveFiles(t) && SomeEmptied(t)
    ensures !IsEntryCid(PruneRoot(t), EMPTY_DIR)
  {
    hide Finished, RootFoldersHaveFiles;
    if IsEntryCid(PruneRoot(t), EMPTY_DIR) {
      EntryIsListed(t, size, order, gone, s, EMPTY_DIR);
      ListedBlocks(t, size, order, gone, s, EMPTY_DIR);
      WalkBlocksAreFiles(t);
      EmptyDirHasNoFile();
      var p :| KeptDir(t, p) && FinalCid(t, p) == EMPTY_DIR;
      var q :| Emptied(t, q);
      if p == ROOT {
        NothingInEmptyTree(t, q);
      } else {
        LiveHasFile(t, p);
      }
    }
  }

  lemma IsFolder(t: FsTree)
    requires Readable(t)
    ensures t.Folder?
  {
  }

  /** The index comes back with the same identifiers if and only if nothing was emptied and every file block is an entry. */
  lemma IndexComesBackExactly(t: FsTree, size: Sizer, order: seq<Path>, gone: set<Path>, s: Summary, text: Renderer)
    requires Readable(t) && Finished(t, size, order, gone, s) && IndexesListed(t, s) && RootFoldersHaveFiles(t)
    ensures s.rootCid.Of?
    ensures s.cidToEntry.Keys == ReadTree(s.rootCid, text).cidToEntry.Keys <==> (forall p :: !Emptied(t, p)) && FilesAreEntries(t)
  {
    IsDefined(PruneRoot(t));
    hide Finished, PruneRoot, ReadTree, IsEntryCid, WellFormed, NoRootName, Readable, RootFoldersHaveFiles, TreeCid, Emptied, WalkBlocks;
    IsFolder(t);
    IsWellNamed(t);
    FinishedRoot(t, size, order, gone, s);
    PrunedIsReadable(t);
    var built, read := s.cidToEntry.Keys, ReadTree(s.rootCid, text).cidToEntry.Keys;
    forall c ensures c in read <==> IsEntryCid(PruneRoot(t), c) {
      ReadIndexExactly(PruneRoot(t), text, c);
    }
    forall c | IsEntryCid(PruneRoot(t), c) ensures c in built {
      EntryIsListed(t, size, order, gone, s, c);
    }
    if (forall p :: !Emptied(t, p)) && FilesAreEntries(t) {
      forall c | c in built ensures c in read {
        ListedIsEntry(t, size, order, gone, s, c);
      }
    }
    if built == read {
      if SomeEmptied(t) {
        NoEmptyEntry(t, size, order, gone, s);
      }
      forall c | c in WalkBlocks(t) ensures IsEntryCid(PruneRoot(t), c) {
        ListedBlocks(t, size, order, gone, s, c);
      }
    }
  }
}
