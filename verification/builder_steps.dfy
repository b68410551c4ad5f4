/** Each in-place update of the summary as a function on values, and the invariants of the two hashing passes. */
module BuilderSteps {
  import opened Dag
  import opened FsTrees
  import opened Bfs
  import opened TreeSummaries

  /** The length of a node's encoding, which belongs to dag-pb and UnixFS. */
  type Sizer = Node -> nat

  function SizeOf(size: Sizer, c: Cid): nat {
    if c.Undef? then 0 else size(c.node)
  }

  function FirstIndex<T(==)>(s: seq<T>, x: T): (i: nat)
    ensures i <= |s|
    ensures i < |s| ==> s[i] == x
    ensures forall k :: 0 <= k < i ==> s[k] != x
  {
    if s == [] then 0 else if s[0] == x then 0 else 1 + FirstIndex(s[1..], x)
  }

  function DropAt<T>(s: seq<T>, i: nat): seq<T>
    requires i < |s|
  {
    s[..i] + s[i + 1..]
  }

  /** Removes the first occurrence, if any. */
  function RemoveFirst<T(==)>(s: seq<T>, x: T): seq<T> {
    var i := FirstIndex(s, x);
    if i < |s| then DropAt(s, i) else s
  }

  function Reindex(index: map<Cid, Path>, before: Cid, after: Cid, p: Path): map<Cid, Path> {
    (if before == Undef then index else index - {before})[after := p]
  }

  function SetCid(es: Entries, p: Path, c: Cid): Entries
    requires p in es
  {
    es[p := es[p].(cid := c)]
  }

  /** First pass: the block of directory `p` is appended. */
  function HashDir(s: Summary, p: Path, c: Cid, size: nat): Summary
    requires p in s.entries
  {
    s.(cidToEntry := Reindex(s.cidToEntry, s.entries[p].cid, c, p),
       entries := SetCid(s.entries, p, c),
       blockOrder := s.blockOrder + [c],
       blockSizes := s.blockSizes + [size],
       totalSize := s.totalSize + size)
  }

  /** Second pass: the block of directory `p` is replaced where its old identifier stands. */
  function RehashDir(s: Summary, p: Path, c: Cid, size: nat): Summary
    requires p in s.entries && |s.blockOrder| == |s.blockSizes|
  {
    var old_ := s.entries[p].cid;
    var i := FirstIndex(s.blockOrder, old_);
    var s' := s.(cidToEntry := Reindex(s.cidToEntry, old_, c, p), entries := SetCid(s.entries, p, c));
    if i < |s.blockOrder| then s'.(blockOrder := s.blockOrder[i := c], blockSizes := s.blockSizes[i := size])
    else if old_ != Undef && |s.entries[p].children| > 0
    then s'.(blockOrder := s.blockOrder + [c], blockSizes := s.blockSizes + [size])
    else s'
  }

  /** Pruning: directory `p` leaves its parent's list, its block leaves the block lists. */
  function PruneDir(s: Summary, p: Path): Summary
    requires p in s.entries && |s.blockOrder| == |s.blockSizes|
  {
    var parent := if s.entries[p].path == [] then ROOT else s.entries[p].path;
    if parent !in s.entries then s
    else
      var es := s.entries[parent := s.entries[parent].(children := RemoveFirst(s.entries[parent].children, p))];
      var c := s.entries[p].cid;
      var i := FirstIndex(s.blockOrder, c);
      if c == Undef || i == |s.blockOrder| then s.(entries := es)
      else s.(entries := es,
              blockOrder := DropAt(s.blockOrder, i),
              blockSizes := DropAt(s.blockSizes, i),
              cidToEntry := s.cidToEntry - {c})
  }

  // ---------------------------------------------------------------- processing order

  /** Any order map iteration and an unstable sort can produce: the directories, deepest first, ROOT last. */
  ghost predicate DeepestFirst(es: Entries, order: seq<Path>) {
    && NoDuplicates(order)
    && (forall k :: 0 <= k < |order| ==> order[k] in es && es[order[k]].isDir)
    && (forall p :: p in es && es[p].isDir ==> p in order)
    && order != [] && order[|order| - 1] == ROOT
    && (forall i, j :: 0 <= i < j < |order| - 1 ==> |order[i]| >= |order[j]|)
  }

  /** Children come before their parents. */
  lemma ChildrenFirst(es: Entries, order: seq<Path>, i: nat, j: nat)
    requires DeepestFirst(es, order) && i < |order| && j < |order|
    requires order[j] != [] && order[j] != ROOT && Front(order[j]) == TreePath(order[i])
    ensures j < i
  {
    if order[i] != ROOT {
      assert |order[j]| == |order[i]| + 1;
    }
  }

  // ---------------------------------------------------------------- both passes

  function CidsOf(es: Entries, ps: seq<Path>): (r: seq<Cid>)
    requires forall i :: 0 <= i < |ps| ==> ps[i] in es
    ensures |r| == |ps| && forall i :: 0 <= i < |ps| ==> r[i] == es[ps[i]].cid
  {
    seq(|ps|, i requires 0 <= i < |ps| => es[ps[i]].cid)
  }

  ghost predicate Sized(s: Summary, size: Sizer) {
    |s.blockSizes| == |s.blockOrder| && forall i :: 0 <= i < |s.blockOrder| ==> s.blockSizes[i] == SizeOf(size, s.blockOrder[i])
  }

  /** Every block of a file leads back to a file that contains it. */
  ghost predicate FilesIndexed(s: Summary, files: seq<Cid>) {
    forall c :: c in files ==> FileHit(s, c)
  }

  ghost predicate FileHit(s: Summary, c: Cid) {
    && c.Of? && c.node.FileNode? && c in s.cidToEntry
    && var p := s.cidToEntry[c];
       p in s.entries && !s.entries[p].isDir && c in Reach(s.entries[p].cid)
  }

  lemma SetCidKeepsSkeleton(t: FsTree, pruned: set<Path>, es: Entries, p: Path, c: Cid)
    requires Skeleton(t, pruned, es) && p in es && es[p].isDir
    ensures Skeleton(t, pruned, SetCid(es, p, c))
  {
    hide ChildrenMatch, NoRootName, WellFormed, Lookup;
  }

  lemma ReindexKeepsFiles(s: Summary, files: seq<Cid>, p: Path, before: Cid, after: Cid, s': Summary)
    requires FilesIndexed(s, files) && p in s.entries && s.entries[p].isDir
    requires before == Undef || before.node.Directory?
    requires after.Of? && after.node.Directory?
    requires s'.entries == SetCid(s.entries, p, after) && s'.cidToEntry == Reindex(s.cidToEntry, before, after, p)
    ensures FilesIndexed(s', files)
  {
    forall c | c in files ensures FileHit(s', c) {
      assert FileHit(s, c);
    }
  }

  // ---------------------------------------------------------------- first pass

  ghost predicate FirstPass(t: FsTree, files: seq<Cid>, size: Sizer, order: seq<Path>, i: nat, s: Summary) {
    && i <= |order| && Skeleton(t, {}, s.entries) && DeepestFirst(s.entries, order)
    && (forall k :: 0 <= k < |order| ==> At(t, order[k]).Some?)
    && (forall k :: 0 <= k < i ==> Done(t, s.entries, order[k]))
    && (forall k :: i <= k < |order| ==> s.entries[order[k]].cid == Undef)
    && s.blockOrder == files + CidsOf(s.entries, order[..i])
    && Sized(s, size) && FilesIndexed(s, files)
  }

  /** When `order[i]` is reached, all its children are hashed. */
  lemma ChildrenDone(t: FsTree, es: Entries, order: seq<Path>, i: nat)
    requires Skeleton(t, {}, es) && DeepestFirst(es, order) && i < |order|
    requires forall k :: 0 <= k < i && At(t, order[k]).Some? ==> Done(t, es, order[k])
    ensures forall n :: Lookup(t, ChildKey(order[i], n)).Some? ==> Done(t, es, ChildKey(order[i], n))
  {
    forall n | Lookup(t, ChildKey(order[i], n)).Some? ensures Done(t, es, ChildKey(order[i], n)) {
      var q := ChildKey(order[i], n);
      assert q in es && q != ROOT && At(t, q).Some?;
      if es[q].isDir {
        assert q in order;
        var j :| 0 <= j < |order| && order[j] == q;
        assert Front(q) == TreePath(order[i]);
        ChildrenFirst(es, order, i, j);
      }
    }
  }

  lemma SetCidKeepsOrder(es: Entries, order: seq<Path>, i: nat, c: Cid)
    requires DeepestFirst(es, order) && i < |order|
    ensures DeepestFirst(SetCid(es, order[i], c), order)
    ensures forall k :: 0 <= k < |order| && k != i ==> SetCid(es, order[i], c)[order[k]] == es[order[k]]
  {
  }

  lemma FirstPassOrder(s: Summary, s': Summary, files: seq<Cid>, order: seq<Path>, i: nat, c: Cid)
    requires DeepestFirst(s.entries, order) && i < |order| && s'.entries == SetCid(s.entries, order[i], c)
    requires s.blockOrder == files + CidsOf(s.entries, order[..i]) && s'.blockOrder == s.blockOrder + [c]
    ensures DeepestFirst(s'.entries, order)
    ensures s'.blockOrder == files + CidsOf(s'.entries, order[..i + 1])
  {
    SetCidKeepsOrder(s.entries, order, i, c);
    assert CidsOf(s'.entries, order[..i + 1]) == CidsOf(s.entries, order[..i]) + [c];
  }

  lemma FirstPassStep(t: FsTree, files: seq<Cid>, size: Sizer, order: seq<Path>, i: nat, s: Summary, c: Cid)
    requires FirstPass(t, files, size, order, i, s) && i < |order|
    requires At(t, order[i]).Some? && c == TreeCid(At(t, order[i]).value) && c.node.Directory?
    ensures FirstPass(t, files, size, order, i + 1, HashDir(s, order[i], c, size(c.node)))
  {
    hide Skeleton, FilesIndexed, Lookup, TreeNode, NoDuplicates, CidsOf, Reindex;
    var p := order[i];
    var s' := HashDir(s, p, c, size(c.node));
    SetCidKeepsSkeleton(t, {}, s.entries, p, c);
    ReindexKeepsFiles(s, files, p, Undef, c, s');
    FirstPassOrder(s, s', files, order, i, c);
    SetCidKeepsOrder(s.entries, order, i, c);
  }
}
