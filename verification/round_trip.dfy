/** Writing a tree and reading it back: when the entries come back, exactly. */
module RoundTrip {
  import opened Base
  import opened Dag
  import opened FsTrees
  import opened TreeSummaries
  import opened BuilderSteps
  import opened BuilderResult
  import opened BuilderTheorems
  import opened ReadBack
  import opened ReadBackSteps

  ghost predicate AllRead(u: FsTree, es: Entries) {
    forall p :: p != [] && Lookup(u, p).Some? ==> p in es
  }

  /** Every entry of a tree is read back if and only if no nested entry repeats the identifier of an earlier one. */
  lemma AllReadExactly(u: FsTree, text: Renderer)
    requires Readable(u)
    ensures AllRead(u, ReadTree(TreeCid(u), text).entries) <==> NoEarlierTwin(u)
  {
    var after := TreeIsRead(u, text);
    var st := ReadTree(TreeCid(u), text);
    ReachedKeys(u, after, st);
    if AllRead(u, st.entries) {
      TwinFreeEverywhere(u, after, st);
    }
  }

  lemma ReachedKeys(u: FsTree, seen: iset<Path>, st: ReadState)
    requires Reached(u, seen, st)
    ensures [] in seen && InTree(u, seen) && forall k :: k in st.entries <==> k == ROOT || (k != [] && k in seen)
  {
  }

  lemma TwinFreeEverywhere(u: FsTree, seen: iset<Path>, st: ReadState)
    requires Readable(u) && Reached(u, seen, st) && AllRead(u, st.entries)
    ensures NoEarlierTwin(u)
  {
    RootIsFree(u);
    hide Lookup, CidAt, Before, WellFormed, NoRootName, NamedEntries, EntriesRead, IndexRead;
    forall p | Lookup(u, p).Some? ensures p in seen {
    }
  }

  /** What is read back is true of the tree, whether or not something is missing. */
  lemma ReadEntriesAreTrue(u: FsTree, text: Renderer, p: Path)
    requires Readable(u) && p in ReadTree(TreeCid(u), text).entries
    ensures p != [] && At(u, p).Some?
    ensures var e := ReadTree(TreeCid(u), text).entries[p];
            && e.name == Last(p) && e.isDir == At(u, p).value.Folder? && e.cid == TreeCid(At(u, p).value)
            && e.logicalSize == LogicalSize(TreeNode(At(u, p).value))
            && Ascending(e.children) && forall q :: q in e.children ==> Listed(u, {}, p, q)
  {
    var after := TreeIsRead(u, text);
    ReachedEntry(u, after, ReadTree(TreeCid(u), text), p);
  }

  /** The logical size read back is the one the file's root node declares. */
  lemma ReadSizesAreTrue(u: FsTree, text: Renderer, p: Path)
    requires Readable(u) && p in ReadTree(TreeCid(u), text).entries
    ensures At(u, p).Some? && HasSizeOf(ReadTree(TreeCid(u), text).entries[p], At(u, p).value)
  {
    hide ReadTree, HasSizeOf, At, TreeNode, LogicalSize, Listed;
    ReadEntriesAreTrue(u, text, p);
    SizeAt(u, p, ReadTree(TreeCid(u), text).entries[p]);
  }

  lemma ReachedEntry(u: FsTree, seen: iset<Path>, st: ReadState, p: Path)
    requires Reached(u, seen, st) && p in st.entries
    ensures p != [] && At(u, p).Some?
    ensures var e := st.entries[p];
            && e.name == Last(p) && e.isDir == At(u, p).value.Folder? && e.cid == TreeCid(At(u, p).value)
            && e.logicalSize == LogicalSize(TreeNode(At(u, p).value))
            && (p != ROOT ==> e.path == Front(p))
            && Ascending(e.children) && forall q :: q in e.children <==> q in seen && Listed(u, {}, p, q)
  {
    ReachedKeys(u, seen, st);
    hide Lookup;
    assert EntryRead(u, seen, TreePath(p), st.entries[KeyOf(TreePath(p))]);
  }

  // ---------------------------------------------------------------- against the builder's summary

  /** Equal in everything the round trip promises; the virtual root's own path is spelled differently. */
  ghost predicate SameAsRead(p: Path, built: TreeEntry, read: TreeEntry) {
    && built.name == read.name && built.isDir == read.isDir && built.cid == read.cid && built.logicalSize == read.logicalSize
    && (p != ROOT ==> built.path == read.path)
    && forall q :: q in built.children <==> q in read.children
  }

  ghost predicate SameEntries(built: Entries, read: Entries) {
    && (forall p :: p in built <==> p in read)
    && forall p :: p in built ==> SameAsRead(p, built[p], read[p])
  }

  /** Nothing is pruned: below the root level every folder has a file somewhere. */
  ghost predicate NothingPruned(t: FsTree) {
    forall p :: Lookup(t, p).Some? ==> Kept(t, p)
  }

  lemma PrunedIsReadable(t: FsTree)
    requires Readable(t)
    ensures Readable(PruneRoot(t))
  {
    PruneRootWellFormed(t);
    LookupPruned(t, ROOT);
    forall p | p != [] && Lookup(PruneRoot(t), p).Some?
      ensures Last(p) != "" && (Lookup(PruneRoot(t), p).value.Folder? ==> Last(p) != "ROOT") {
      LookupPruned(t, p);
      assert Lookup(t, p).Some?;
    }
  }

  lemma SameKeyAt(t: FsTree, size: Sizer, order: seq<Path>, gone: set<Path>, s: Summary, st: ReadState, seen: iset<Path>, p: Path)
    requires Readable(t) && Finished(t, size, order, gone, s) && Reached(PruneRoot(t), seen, st)
    ensures p in st.entries ==> p in s.entries
    ensures p in s.entries && p != ROOT ==> (p in st.entries <==> Kept(t, p) && p in seen)
    ensures ROOT in s.entries && ROOT in st.entries
    ensures p in s.entries <==> p == ROOT || (p != [] && Lookup(t, p).Some?)
  {
    FinishedEntries(t, size, order, gone, s, p);
    FinishedEntries(t, size, order, gone, s, ROOT);
    ReachedKeys(PruneRoot(t), seen, st);
    LookupPruned(t, p);
  }

  /** The entry tells exactly what the tree has at its key. */
  ghost predicate Describes(u: FsTree, p: Path, e: TreeEntry) {
    && p != [] && At(u, p).Some?
    && e.name == Last(p) && e.isDir == At(u, p).value.Folder? && e.cid == TreeCid(At(u, p).value)
            && e.logicalSize == LogicalSize(TreeNode(At(u, p).value))
    && (p != ROOT ==> e.path == Front(p))
    && forall q :: q in e.children <==> Listed(u, {}, p, q)
  }

  lemma DescribedAlike(u: FsTree, p: Path, built: TreeEntry, read: TreeEntry)
    requires Describes(u, p, built) && Describes(u, p, read)
    ensures SameAsRead(p, built, read)
  {
  }

  lemma PrunedKind(t: FsTree, p: Path)
    requires WellFormed(t) && At(PruneRoot(t), p).Some?
    ensures At(t, p).Some? && (At(PruneRoot(t), p).value.Folder? <==> At(t, p).value.Folder?)
    ensures At(t, p).value.File? ==> At(PruneRoot(t), p) == At(t, p)
  {
    LookupPruned(t, TreePath(p));
  }

  lemma BuiltDescribes(t: FsTree, size: Sizer, order: seq<Path>, gone: set<Path>, s: Summary, p: Path)
    requires WellFormed(t) && Finished(t, size, order, gone, s) && p in s.entries && At(PruneRoot(t), p).Some?
    ensures Describes(PruneRoot(t), p, s.entries[p])
  {
    hide Finished, Prune, PruneRoot, WellFormed, NoRootName, TreeCid, Lookup;
    FinishedEntries(t, size, order, gone, s, p);
    PrunedKind(t, p);
    if !s.entries[p].isDir {
      forall q ensures !Listed(PruneRoot(t), {}, p, q) {
        NothingListedInFile(PruneRoot(t), p, q);
      }
    }
  }

  lemma ReadDescribes(u: FsTree, st: ReadState, seen: iset<Path>, p: Path)
    requires Reached(u, seen, st) && p in st.entries && forall q :: Lookup(u, q).Some? ==> q in seen
    ensures Describes(u, p, st.entries[p])
  {
    hide Reached;
    ReachedEntry(u, seen, st, p);
  }

  /** A directory's or a file's entry, once every path is read, is the builder's. */
  lemma SameEntryAt(t: FsTree, size: Sizer, order: seq<Path>, gone: set<Path>, s: Summary, st: ReadState, seen: iset<Path>, p: Path)
    requires Readable(t) && Finished(t, size, order, gone, s) && Reached(PruneRoot(t), seen, st)
    requires forall q :: Lookup(PruneRoot(t), q).Some? ==> q in seen
    requires p in s.entries && p in st.entries
    ensures SameAsRead(p, s.entries[p], st.entries[p])
  {
    IsWellNamed(t);
    ReadDescribes(PruneRoot(t), st, seen, p);
    hide Finished, Reached, PruneRoot, Readable, WellFormed, NoRootName, SameAsRead;
    BuiltDescribes(t, size, order, gone, s, p);
    DescribedAlike(PruneRoot(t), p, s.entries[p], st.entries[p]);
  }

  lemma NothingListedInFile(u: FsTree, p: Path, q: Path)
    requires At(u, p).Some? && At(u, p).value.File?
    ensures !Listed(u, {}, p, q)
  {
  }

  /** Which keys the two summaries have. */
  ghost predicate Keyed(t: FsTree, seen: iset<Path>, built: Entries, read: Entries) {
    && ROOT in built && ROOT in read
    && (forall p :: p in read ==> p in built)
    && (forall p :: p in built <==> p == ROOT || (p != [] && Lookup(t, p).Some?))
    && forall p :: p in built && p != ROOT ==> (p in read <==> Kept(t, p) && p in seen)
  }

  lemma AreKeyed(t: FsTree, size: Sizer, order: seq<Path>, gone: set<Path>, s: Summary, st: ReadState, seen: iset<Path>)
    requires Readable(t) && Finished(t, size, order, gone, s) && Reached(PruneRoot(t), seen, st)
    ensures Keyed(t, seen, s.entries, st.entries)
  {
    hide Finished, Reached, Lookup, Readable, Kept;
    SameKeyAt(t, size, order, gone, s, st, seen, ROOT);
    forall p ensures (p in st.entries ==> p in s.entries) && (p in s.entries <==> p == ROOT || (p != [] && Lookup(t, p).Some?))
      && (p in s.entries && p != ROOT ==> (p in st.entries <==> Kept(t, p) && p in seen)) {
      SameKeyAt(t, size, order, gone, s, st, seen, p);
    }
  }

  /** With the same keys, nothing was pruned and everything that was written was read. */
  lemma SameKeysMean(t: FsTree, seen: iset<Path>, built: Entries, read: Entries)
    requires WellFormed(t) && NoRootName(t) && Keyed(t, seen, built, read) && forall p :: p in built ==> p in read
    ensures NothingPruned(t) && AllRead(PruneRoot(t), read)
  {
    RootIsFree(t);
    hide Lookup, Kept, NoRootName, WellFormed, PruneRoot;
    forall p | Lookup(t, p).Some? ensures Kept(t, p) {
      if p == [] {
        RootKept(t);
      } else {
        assert p in built;
      }
    }
    forall p | p != [] && Lookup(PruneRoot(t), p).Some? ensures p in read {
      LookupPruned(t, p);
      KeptLooksUp(t, p);
      assert p in built;
    }
  }

  lemma RootKept(t: FsTree)
    ensures Kept(t, [])
  {
  }

  lemma KeptLooksUp(t: FsTree, p: Path)
    requires Kept(t, p)
    ensures Lookup(t, p).Some?
  {
  }

  lemma KeysSuffice(t: FsTree, seen: iset<Path>, built: Entries, read: Entries)
    requires WellFormed(t) && NoRootName(t) && Keyed(t, seen, built, read) && NothingPruned(t)
    requires forall q :: Lookup(PruneRoot(t), q).Some? ==> q in seen
    ensures forall p :: p in built ==> p in read
  {
    hide Lookup, Kept, NoRootName, WellFormed, PruneRoot;
    forall p | p in built && p != ROOT ensures p in read {
      LookupPruned(t, p);
    }
  }

  lemma ComesBack(t: FsTree, size: Sizer, order: seq<Path>, gone: set<Path>, s: Summary, text: Renderer)
    requires Readable(t) && Finished(t, size, order, gone, s) && NothingPruned(t) && NoEarlierTwin(PruneRoot(t))
    ensures TreeCid(PruneRoot(t)).Of? && SameEntries(s.entries, ReadTree(TreeCid(PruneRoot(t)), text).entries)
  {
    IsDefined(PruneRoot(t));
    PrunedIsReadable(t);
    IsWellNamed(t);
    hide Finished, Reached, Lookup, ReadTree, Readable, Keyed, NothingPruned, NoEarlierTwin, SameAsRead, PruneRoot, TreeCid, WellFormed,
      NoRootName, SameEntries;
    var seen := TreeIsRead(PruneRoot(t), text);
    var st := ReadTree(TreeCid(PruneRoot(t)), text);
    AreKeyed(t, size, order, gone, s, st, seen);
    KeysSuffice(t, seen, s.entries, st.entries);
    AreKeyedOnly(t, seen, s.entries, st.entries);
    forall p | p in s.entries ensures SameAsRead(p, s.entries[p], st.entries[p]) {
      SameEntryAt(t, size, order, gone, s, st, seen, p);
    }
    AllSame(s.entries, st.entries);
  }

  lemma AllSame(built: Entries, read: Entries)
    requires forall p :: p in built ==> p in read
    requires forall p :: p in read ==> p in built
    requires forall p :: p in built ==> SameAsRead(p, built[p], read[p])
    ensures SameEntries(built, read)
  {
  }

  lemma IsDefined(u: FsTree)
    ensures TreeCid(u).Of?
  {
  }

  lemma OnlyThen(t: FsTree, size: Sizer, order: seq<Path>, gone: set<Path>, s: Summary, text: Renderer)
    requires Readable(t) && Finished(t, size, order, gone, s) && TreeCid(PruneRoot(t)).Of?
    requires SameEntries(s.entries, ReadTree(TreeCid(PruneRoot(t)), text).entries)
    ensures NothingPruned(t) && NoEarlierTwin(PruneRoot(t))
  {
    PrunedIsReadable(t);
    hide Finished, Reached, Lookup, ReadTree, NoRootName, Keyed, NothingPruned, NoEarlierTwin, SameAsRead, AllRead, PruneRoot, TreeCid;
    var seen := TreeIsRead(PruneRoot(t), text);
    var st := ReadTree(TreeCid(PruneRoot(t)), text);
    AreKeyed(t, size, order, gone, s, st, seen);
    SameKeysMean(t, seen, s.entries, st.entries);
    AllReadExactly(PruneRoot(t), text);
  }

  lemma IsWellNamed(t: FsTree)
    requires Readable(t)
    ensures WellFormed(t) && NoRootName(t)
  {
  }

  /** Building a summary and reading its tree back gives the same entries if and only if nothing was pruned and no twin was passed over. */
  lemma RoundTripExactly(t: FsTree, size: Sizer, order: seq<Path>, gone: set<Path>, s: Summary, text: Renderer)
    requires Readable(t) && Finished(t, size, order, gone, s)
    ensures s.rootCid == TreeCid(PruneRoot(t))
    ensures SameEntries(s.entries, ReadTree(s.rootCid, text).entries) <==> NothingPruned(t) && NoEarlierTwin(PruneRoot(t))
  {
    FinishedRoot(t, size, order, gone, s);
    hide Finished, ReadTree, Readable, NothingPruned, NoEarlierTwin, SameEntries, PruneRoot;
    if NothingPruned(t) && NoEarlierTwin(PruneRoot(t)) {
      ComesBack(t, size, order, gone, s, text);
    }
    if SameEntries(s.entries, ReadTree(s.rootCid, text).entries) {
      OnlyThen(t, size, order, gone, s, text);
    }
  }

  lemma FinishedRoot(t: FsTree, size: Sizer, order: seq<Path>, gone: set<Path>, s: Summary)
    requires Finished(t, size, order, gone, s)
    ensures s.rootCid == TreeCid(PruneRoot(t))
  {
    FinishedEntries(t, size, order, gone, s, ROOT);
  }

  lemma AreKeyedOnly(t: FsTree, seen: iset<Path>, built: Entries, read: Entries)
    requires Keyed(t, seen, built, read)
    ensures forall p :: p in read ==> p in built
  {
  }

  /** The documented case: a tree without file-less folders comes back whole if and only if no nested entry is an earlier one's twin. */
  lemma CleanTreeRoundTrip(t: FsTree, size: Sizer, order: seq<Path>, gone: set<Path>, s: Summary, text: Renderer)
    requires Readable(t) && Clean(t) && Finished(t, size, order, gone, s)
    ensures s.rootCid == TreeCid(t)
    ensures SameEntries(s.entries, ReadTree(s.rootCid, text).entries) <==> NoEarlierTwin(t)
  {
    PruneUnchanged(t);
    forall p | Lookup(t, p).Some? ensures Kept(t, p) {
      LookupPruned(t, p);
    }
    RoundTripExactly(t, size, order, gone, s, text);
  }

  // ---------------------------------------------------------------- trees that do not come back

  /** Of two entries with one identifier, the later one below the root level, at most one is read back. */
  lemma TwinsAreNotBothRead(u: FsTree, text: Renderer, p: Path, q: Path)
    requires Readable(u) && p != [] && |q| > 1 && Before(p, q)
    requires Lookup(u, p).Some? && Lookup(u, q).Some? && CidAt(u, p) == CidAt(u, q)
    ensures TreeCid(u).Of?
    ensures var read := ReadTree(TreeCid(u), text).entries; !(p in read && q in read)
  {
    IsDefined(u);
    IsWellNamed(u);
    RootIsFree(u);
    hide Readable, NoRootName, WellFormed, Lookup, ReadTree, CidAt, Before;
    var seen := TreeIsRead(u, text);
    ReachedKeys(u, seen, ReadTree(TreeCid(u), text));
  }

  function TwinFile(): FsTree {
    File(FileNode([], [1], 1))
  }

  function TwinFolder(): FsTree {
    Folder([Kid("a", TwinFile()), Kid("b", TwinFile())])
  }

  /** One folder holding the same file twice. */
  function TwinTree(): FsTree {
    Folder([Kid("d", TwinFolder())])
  }

  lemma {:induction false} TwinTreePaths(p: Path)
    requires Lookup(TwinTree(), p).Some?
    ensures var sub := Lookup(TwinTree(), p).value; sub == TwinTree() || sub == TwinFolder() || sub == TwinFile()
    ensures p != [] ==> Last(p) == "d" || Last(p) == "a" || Last(p) == "b"
    decreases |p|
  {
    if p != [] {
      TwinTreePaths(Front(p));
      var parent := Lookup(TwinTree(), Front(p)).value;
      var i := FoundIndex(parent.kids, Last(p));
    }
  }

  lemma TwinTreeIsReadable()
    ensures Readable(TwinTree()) && Clean(TwinTree())
  {
    var t := TwinTree();
    assert FileDag(FileNode([], [1], 1));
    forall p | p != [] && Lookup(t, p).Some? ensures Last(p) != "" && Last(p) != "ROOT" {
      TwinTreePaths(p);
    }
    assert Lookup(t, ROOT).None? by { assert ROOT[..0] == []; }
  }

  lemma TwinLookup(name: string)
    requires name == "a" || name == "b"
    ensures Lookup(TwinTree(), ["d", name]) == Some(TwinFile())
  {
    assert ["d", name][..1] == ["d"] && ["d"][..0] == [];
  }

  lemma TwinOrder()
    ensures Before(["d", "a"], ["d", "b"])
  {
    assert ["d", "a"][1..] == ["a"] && ["d", "b"][1..] == ["b"];
    assert Before(["a"], ["b"]);
  }

  /** Two files of equal content in one folder: they are not both read back. */
  lemma TwinIsLost(text: Renderer)
    ensures TreeCid(TwinTree()).Of?
    ensures var read := ReadTree(TreeCid(TwinTree()), text).entries; !(["d", "a"] in read && ["d", "b"] in read)
  {
    TwinTreeIsReadable();
    TwinLookup("a");
    TwinLookup("b");
    TwinOrder();
    hide Readable, TwinTree, TwinFile, Lookup, ReadTree, Before;
    TwinsAreNotBothRead(TwinTree(), text, ["d", "a"], ["d", "b"]);
  }
}
