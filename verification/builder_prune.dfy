/** Pruning file-less directories, one at a time in any order. */
module BuilderPrune {
  import opened Dag
  import opened FsTrees
  import opened Bfs
  import opened TreeSummaries
  import opened BuilderSteps

  /** A directory other than the root with no file anywhere below it. */
  predicate Emptied(t: FsTree, p: Path) {
    p != [] && Lookup(t, p).Some? && Lookup(t, p).value.Folder? && !HasFile(Lookup(t, p).value)
  }

  function Without(ps: seq<Path>, gone: set<Path>): seq<Path> {
    if ps == [] then []
    else if ps[0] in gone then Without(ps[1..], gone)
    else [ps[0]] + Without(ps[1..], gone)
  }

  lemma {:induction false} WithoutElements(ps: seq<Path>, gone: set<Path>, p: Path)
    ensures p in Without(ps, gone) <==> p in ps && p !in gone
  {
    if ps != [] {
      WithoutElements(ps[1..], gone, p);
      assert ps == [ps[0]] + ps[1..];
    }
  }

  lemma WithoutAt(ps: seq<Path>, gone: set<Path>, k: nat)
    requires k < |Without(ps, gone)|
    ensures Without(ps, gone)[k] in ps && Without(ps, gone)[k] !in gone
  {
    WithoutElements(ps, gone, Without(ps, gone)[k]);
  }

  lemma {:induction false} WithoutNoDuplicates(ps: seq<Path>, gone: set<Path>)
    requires NoDuplicates(ps)
    ensures NoDuplicates(Without(ps, gone))
  {
    if ps != [] {
      WithoutNoDuplicates(ps[1..], gone);
      WithoutElements(ps[1..], gone, ps[0]);
    }
  }

  lemma {:induction false} WithoutNothing(ps: seq<Path>)
    ensures Without(ps, {}) == ps
  {
    if ps != [] {
      WithoutNothing(ps[1..]);
    }
  }

  lemma RemoveFirstCons(h: Path, rest: seq<Path>, p: Path)
    ensures RemoveFirst([h] + rest, p) == if h == p then rest else [h] + RemoveFirst(rest, p)
    ensures p !in rest ==> RemoveFirst(rest, p) == rest
  {
    assert ([h] + rest)[1..] == rest;
    var i := FirstIndex(rest, p);
    assert FirstIndex([h] + rest, p) == if h == p then 0 else 1 + i;
    hide FirstIndex;
    if h != p && i < |rest| {
      DropAtCons(h, rest, i);
    }
  }

  lemma DropAtCons<T>(h: T, rest: seq<T>, i: nat)
    requires i < |rest|
    ensures DropAt([h] + rest, 1 + i) == [h] + DropAt(rest, i)
  {
  }

  lemma {:induction false} WithoutOneMore(ps: seq<Path>, gone: set<Path>, p: Path)
    requires NoDuplicates(ps)
    ensures Without(ps, gone + {p}) == RemoveFirst(Without(ps, gone), p)
  {
    if ps != [] {
      WithoutOneMore(ps[1..], gone, p);
      WithoutElements(ps[1..], gone, p);
      RemoveFirstCons(ps[0], Without(ps[1..], gone), p);
    }
  }

  lemma CidsOfDrop(es: Entries, ps: seq<Path>, i: nat)
    requires i < |ps| && forall k :: 0 <= k < |ps| ==> ps[k] in es
    ensures multiset(CidsOf(es, DropAt(ps, i))) == multiset(CidsOf(es, ps)) - multiset{es[ps[i]].cid}
  {
    DropMultiset(CidsOf(es, ps), i);
    assert CidsOf(es, DropAt(ps, i)) == DropAt(CidsOf(es, ps), i);
  }

  lemma DropMultiset<T>(s: seq<T>, i: nat)
    requires i < |s|
    ensures multiset(DropAt(s, i)) == multiset(s) - multiset{s[i]}
  {
    assert s == s[..i] + [s[i]] + s[i + 1..];
  }

  lemma RemoveFirstElements<T>(s: seq<T>, x: T)
    requires NoDuplicates(s)
    ensures NoDuplicates(RemoveFirst(s, x))
    ensures forall y :: y in RemoveFirst(s, x) <==> y in s && y != x
  {
    var i := FirstIndex(s, x);
    if i < |s| {
      assert s == s[..i] + [s[i]] + s[i + 1..];
    } else {
      assert x !in s;
    }
  }

  // ---------------------------------------------------------------- the invariant of pruning

  ghost predicate InEntries(es: Entries, ps: seq<Path>) {
    forall k :: 0 <= k < |ps| ==> ps[k] in es
  }

  /** The block list holds the files' blocks and, as a multiset, the current blocks of the listed directories. */
  ghost predicate Holds(files: seq<Cid>, live: seq<Path>, s: Summary) {
    InEntries(s.entries, live) && multiset(s.blockOrder) == multiset(files) + multiset(CidsOf(s.entries, live))
  }

  ghost predicate Pruning(t: FsTree, files: seq<Cid>, size: Sizer, order: seq<Path>, gone: set<Path>, s: Summary) {
    && Skeleton(t, gone, s.entries) && DeepestFirst(s.entries, order)
    && (forall k :: 0 <= k < |order| ==> Done(t, s.entries, order[k]))
    && (forall p :: p in gone ==> Emptied(t, p))
    && Holds(files, Without(order, gone), s)
    && Sized(s, size) && FilesIndexed(s, files)
  }

  lemma PruningStarts(t: FsTree, files: seq<Cid>, size: Sizer, order: seq<Path>, s: Summary)
    requires FirstPass(t, files, size, order, |order|, s)
    ensures Pruning(t, files, size, order, {}, s)
  {
    hide Skeleton, FilesIndexed, Lookup, TreeNode, Sized;
    WithoutNothing(order);
    assert order[..|order|] == order;
    assert InEntries(s.entries, order);
  }

  lemma ChildrenAfterPrune(t: FsTree, gone: set<Path>, p: Path, q: Path, children: seq<Path>)
    requires p != [] && ChildrenMatch(t, gone, q, children)
    ensures ChildrenMatch(t, gone + {p}, q, if Front(p) == TreePath(q) then RemoveFirst(children, p) else children)
  {
    hide Lookup, RemoveFirst;
    RemoveFirstElements(children, p);
  }

  lemma PruneKeepsSkeleton(t: FsTree, gone: set<Path>, es: Entries, p: Path, parent: Path)
    requires Skeleton(t, gone, es) && p != [] && parent in es && parent != []
    requires parent == (if Front(p) == [] then ROOT else Front(p)) && Front(p) != ROOT
    requires es[parent].isDir && At(t, parent).Some?
    ensures Skeleton(t, gone + {p}, es[parent := es[parent].(children := RemoveFirst(es[parent].children, p))])
  {
    hide Skeleton, NoRootName, WellFormed, Lookup, RemoveFirst, ChildrenMatch;
    var es' := es[parent := es[parent].(children := RemoveFirst(es[parent].children, p))];
    forall q | q in es' && es'[q].isDir && At(t, q).Some? ensures ChildrenMatch(t, gone + {p}, q, es'[q].children) {
      DirChildren(t, gone, es, q);
      ChildrenAfterPrune(t, gone, p, q, es[q].children);
      assert q == parent <==> Front(p) == TreePath(q);
    }
    SkeletonWithChildren(t, gone, es, gone + {p}, es');
  }

  lemma DirChildren(t: FsTree, gone: set<Path>, es: Entries, q: Path)
    requires Skeleton(t, gone, es) && q in es && es[q].isDir && At(t, q).Some?
    ensures ChildrenMatch(t, gone, q, es[q].children) && q != []
  {
  }

  /** Only the children lists of tree directories changed, and they are right again. */
  lemma SkeletonWithChildren(t: FsTree, gone: set<Path>, es: Entries, gone': set<Path>, es': Entries)
    requires Skeleton(t, gone, es) && es'.Keys == es.Keys
    requires forall q :: q in es ==> es'[q] == es[q] || (es'[q] == es[q].(children := es'[q].children) && es[q].isDir && At(t, q).Some?)
    requires forall q :: q in es' && es'[q].isDir && At(t, q).Some? ==> ChildrenMatch(t, gone', q, es'[q].children)
    ensures Skeleton(t, gone', es')
  {
    hide NoRootName, WellFormed, Lookup, ChildrenMatch;
  }

  function ParentKey(p: Path): Path
    requires p != []
  {
    if Front(p) == [] then ROOT else Front(p)
  }

  /** An emptied directory has a listed parent directory in the tree. */
  lemma ParentPresent(t: FsTree, gone: set<Path>, es: Entries, p: Path)
    requires Skeleton(t, gone, es) && Emptied(t, p)
    ensures p in es && p != ROOT && es[p].isDir && es[p].path == Front(p) && Front(p) != ROOT && At(t, p).Some?
    ensures ParentKey(p) in es && es[ParentKey(p)].isDir && At(t, ParentKey(p)).Some?
  {
    assert Lookup(t, Front(p)).Some? && Lookup(t, Front(p)).value.Folder?;
    assert At(t, ParentKey(p)) == Lookup(t, Front(p));
  }

  lemma DoneAt(t: FsTree, es: Entries, order: seq<Path>, p: Path)
    requires DeepestFirst(es, order) && p in es && es[p].isDir
    requires forall k :: 0 <= k < |order| ==> Done(t, es, order[k])
    ensures p in order && Done(t, es, p)
  {
    var k :| 0 <= k < |order| && order[k] == p;
  }

  lemma ListedCid(es: Entries, ps: seq<Path>, p: Path)
    requires InEntries(es, ps) && p in ps
    ensures es[p].cid in multiset(CidsOf(es, ps))
  {
    var k :| 0 <= k < |ps| && ps[k] == p;
    assert CidsOf(es, ps)[k] == es[p].cid;
  }

  lemma InMultiset<T>(s: seq<T>, x: T)
    requires x in multiset(s)
    ensures x in s
  {
  }

  /** Dropping one directory's block takes one occurrence out of each side. */
  lemma PruneHolds(files: seq<Cid>, order: seq<Path>, gone: set<Path>, p: Path, s: Summary, s': Summary)
    requires NoDuplicates(order) && Holds(files, Without(order, gone), s) && p in order && p !in gone
    requires p in s.entries && SameCids(s.entries, s'.entries)
    requires s'.blockOrder == RemoveFirst(s.blockOrder, s.entries[p].cid)
    ensures FirstIndex(s.blockOrder, s.entries[p].cid) < |s.blockOrder|
    ensures Holds(files, Without(order, gone + {p}), s')
  {
    hide Without, CidsOf, NoDuplicates, DropAt, FirstIndex;
    var ps := Without(order, gone);
    var c := s.entries[p].cid;
    WithoutElements(order, gone, p);
    ListedCid(s.entries, ps, p);
    InMultiset(s.blockOrder, c);
    var i := FirstIndex(s.blockOrder, c);
    DropMultiset(s.blockOrder, i);
    WithoutOneMore(order, gone, p);
    var j := FirstIndex(ps, p);
    CidsOfDrop(s.entries, ps, j);
    SameCidsListed(s.entries, s'.entries, ps, j);
    DropFromSum(multiset(s.blockOrder), multiset(files), multiset(CidsOf(s.entries, ps)), c);
  }

  lemma SameCidsListed(es: Entries, es': Entries, ps: seq<Path>, j: nat)
    requires InEntries(es, ps) && SameCids(es, es') && j < |ps|
    ensures InEntries(es, DropAt(ps, j)) && InEntries(es', DropAt(ps, j)) && CidsOf(es', DropAt(ps, j)) == CidsOf(es, DropAt(ps, j))
  {
  }

  lemma DropFromSum(all: multiset<Cid>, files: multiset<Cid>, dirs: multiset<Cid>, c: Cid)
    requires all == files + dirs && c in dirs
    ensures all - multiset{c} == files + (dirs - multiset{c})
  {
  }

  /** The same entries up to their lists of children. */
  ghost predicate SameCids(es: Entries, es': Entries) {
    && (forall q :: q in es' <==> q in es)
    && forall q :: q in es ==> es'[q].cid == es[q].cid && es'[q].isDir == es[q].isDir
  }

  lemma PruneStep(t: FsTree, files: seq<Cid>, size: Sizer, order: seq<Path>, gone: set<Path>, s: Summary, p: Path)
    requires Pruning(t, files, size, order, gone, s) && Emptied(t, p) && p !in gone
    ensures p in s.entries && |s.blockOrder| == |s.blockSizes|
    ensures Pruning(t, files, size, order, gone + {p}, PruneDir(s, p))
  {
    hide Skeleton, FilesIndexed, Lookup, TreeNode, NoDuplicates, CidsOf, HasFile, Holds, DropAt, FirstIndex, Without, DeepestFirst, Done;
    ParentPresent(t, gone, s.entries, p);
    var s', parent := PruneDir(s, p), ParentKey(p);
    DoneAt(t, s.entries, order, p);
    PruneKeepsSkeleton(t, gone, s.entries, p, parent);
    var es' := s.entries[parent := s.entries[parent].(children := RemoveFirst(s.entries[parent].children, p))];
    OrderDistinct(s.entries, order);
    PruneOrder(t, s.entries, es', order, p);
    PruneBlocks(files, order, gone, size, s, s', p, es');
    PruneFiles(s, files, p, s');
  }

  /** The block lists after one pruning step, whichever entries changed their children. */
  lemma PruneBlocks(files: seq<Cid>, order: seq<Path>, gone: set<Path>, size: Sizer, s: Summary, s': Summary, p: Path, es': Entries)
    requires NoDuplicates(order) && Holds(files, Without(order, gone), s) && p in order && p !in gone && Sized(s, size)
    requires p in s.entries && SameCids(s.entries, es') && s'.entries == es'
    requires s'.blockOrder == RemoveFirst(s.blockOrder, s.entries[p].cid)
    requires var i := FirstIndex(s.blockOrder, s.entries[p].cid);
             i < |s.blockOrder| ==> s'.blockSizes == DropAt(s.blockSizes, i)
    ensures FirstIndex(s.blockOrder, s.entries[p].cid) < |s.blockOrder|
    ensures Holds(files, Without(order, gone + {p}), s') && Sized(s', size)
  {
    PruneHolds(files, order, gone, p, s, s');
  }

  lemma OrderDistinct(es: Entries, order: seq<Path>)
    requires DeepestFirst(es, order)
    ensures NoDuplicates(order)
  {
  }

  lemma PruneOrder(t: FsTree, es: Entries, es': Entries, order: seq<Path>, p: Path)
    requires DeepestFirst(es, order) && forall k :: 0 <= k < |order| ==> Done(t, es, order[k])
    requires p in es && es[p].isDir && At(t, p).Some? && At(t, p).value.Folder? && SameCids(es, es')
    ensures DeepestFirst(es', order) && forall k :: 0 <= k < |order| ==> Done(t, es', order[k])
    ensures es[p].cid != Undef && es[p].cid.node.Directory?
  {
    DoneAt(t, es, order, p);
    assert TreeNode(At(t, p).value).Directory?;
  }

  lemma PruneFiles(s: Summary, files: seq<Cid>, p: Path, s': Summary)
    requires FilesIndexed(s, files) && p in s.entries && s.entries[p].cid.Of? && s.entries[p].cid.node.Directory?
    requires SameCids(s.entries, s'.entries) && s'.cidToEntry == s.cidToEntry - {s.entries[p].cid}
    ensures FilesIndexed(s', files)
  {
    forall c | c in files ensures FileHit(s', c) {
      assert FileHit(s, c);
    }
  }
}
