/** The tree summary of car/car_dir_builder.go as a value: path and identifier indices over parallel block lists. */
module TreeSummaries {
  import opened Base
  import opened Dag
  import opened FsTrees
  import opened Bfs

  /** An entry; the pointer the program shares between its two indices is the entry's key here. */
  datatype TreeEntry = TreeEntry(path: Path, name: string, isDir: bool, cid: Cid, children: seq<Path>, logicalSize: nat)

  type Entries = map<Path, TreeEntry>

  datatype Summary = Summary(
    rootCid: Cid, totalSize: nat, blockOrder: seq<Cid>, blockSizes: seq<nat>, entries: Entries, cidToEntry: map<Cid, Path>)

  const ROOT: Path := ["ROOT"]
  const EMPTY_DIR: Cid := Of(Directory([]))

  function Front(p: Path): Path
    requires p != []
  {
    p[..|p| - 1]
  }

  function Last(p: Path): string
    requires p != []
  {
    p[|p| - 1]
  }

  ghost predicate Extends(q: Path, p: Path) {
    |p| <= |q| && q[..|p|] == p
  }

  lemma ExtendsAt(q: Path, p: Path, name: string)
    ensures Extends(q, p + [name]) ==> |q| > |p| && q[|p|] == name
  {
    if Extends(q, p + [name]) {
      assert q[|p|] == q[..|p| + 1][|p|];
    }
  }

  /** The tree path of an entry key: the virtual root entry stands for the tree itself. */
  function TreePath(p: Path): Path {
    if p == ROOT then [] else p
  }

  function At(t: FsTree, p: Path): Option<FsTree> {
    Lookup(t, TreePath(p))
  }

  function ChildKey(p: Path, name: string): Path {
    TreePath(p) + [name]
  }

  // ---------------------------------------------------------------- the entries of a tree

  /** The names the program reserves: no root-level entry and no directory anywhere is called ROOT. */
  ghost predicate NoRootName(t: FsTree) {
    && Lookup(t, ROOT).None?
    && forall p :: p != [] && Lookup(t, p).Some? && Lookup(t, p).value.Folder? ==> Last(p) != "ROOT"
  }

  /** What of an entry the walk fixes for good. */
  ghost predicate EntryMatches(sub: FsTree, e: TreeEntry) {
    match sub
    case File(dag) => !e.isDir && e.cid == Of(dag) && e.children == [] && e.logicalSize == LogicalSize(dag)
    case Folder(_) => e.isDir
  }

  /** A child stays listed unless it was pruned; the virtual root lists only files. */
  ghost predicate Listed(t: FsTree, pruned: set<Path>, p: Path, q: Path) {
    && q != [] && Front(q) == TreePath(p) && q !in pruned
    && Lookup(t, q).Some? && (p == ROOT ==> Lookup(t, q).value.File?)
  }

  ghost predicate ChildrenMatch(t: FsTree, pruned: set<Path>, p: Path, children: seq<Path>) {
    && NoDuplicates(children)
    && forall q :: q in children <==> Listed(t, pruned, p, q)
  }

  /** The entry's own fields agree with its key; a directory has no file size. */
  ghost predicate WellNamed(p: Path, e: TreeEntry) {
    && p != []
    && (p == ROOT ==> e.isDir && e.name == "ROOT" && e.path == ROOT)
    && (p != ROOT ==> e.name == Last(p) && e.path == Front(p) && (e.isDir ==> e.name != "ROOT"))
    && (e.isDir ==> e.logicalSize == 0)
  }

  /** The entries are those of the tree, apart from pruned leftovers, which list no children. */
  ghost predicate Skeleton(t: FsTree, pruned: set<Path>, es: Entries) {
    && t.Folder? && WellFormed(t) && NoRootName(t)
    && ROOT in es
    && (forall p :: p in es ==> WellNamed(p, es[p]))
    && (forall p :: p != [] && Lookup(t, p).Some? ==> p in es)
    && (forall p :: p in es && At(t, p).Some? ==> EntryMatches(At(t, p).value, es[p]))
    && (forall p :: p in es && es[p].isDir && At(t, p).Some? ==> ChildrenMatch(t, pruned, p, es[p].children))
    && (forall p :: p in es && At(t, p).None? ==> |p| > 1 && es[p].isDir && es[p].children == [])
  }

  // ---------------------------------------------------------------- the links of a directory block

  /** lo.FilterMap over the children: those known and already hashed, in order. */
  function ChildLinks(es: Entries, children: seq<Path>): seq<Link> {
    if children == [] then []
    else
      var rest := ChildLinks(es, children[1..]);
      if children[0] in es && es[children[0]].cid != Undef
      then [Link(es[children[0]].name, es[children[0]].cid)] + rest
      else rest
  }

  /** Which links the block of directory `p` gets. */
  ghost predicate Linked(es: Entries, p: Path, l: Link)
    requires p in es
  {
    var q := ChildKey(p, l.name);
    && q in es && l.cid == es[q].cid
    && ((q in es[p].children && l.cid != Undef) || (p == ROOT && q != ROOT && es[q].isDir && q !in es[p].children))
  }

  ghost predicate LinksExactly(es: Entries, p: Path, ls: seq<Link>)
    requires p in es
  {
    DistinctNames(ls) && forall l :: l in ls <==> Linked(es, p, l)
  }

  /** The entry of a tree path has been hashed. */
  ghost predicate Done(t: FsTree, es: Entries, p: Path) {
    p in es && At(t, p).Some? && es[p].cid == TreeCid(At(t, p).value)
  }

  lemma AtChild(t: FsTree, p: Path, name: string)
    requires At(t, p).Some?
    ensures Lookup(t, ChildKey(p, name)) == Child(At(t, p).value, name)
  {
    assert ChildKey(p, name)[..|ChildKey(p, name)| - 1] == TreePath(p);
  }

  /** With every child hashed, the block of a directory hashes to the Merkle identifier of its subtree. */
  lemma DirectoryHash(t: FsTree, es: Entries, p: Path, ls: seq<Link>)
    requires Skeleton(t, {}, es) && p in es && es[p].isDir && At(t, p).Some?
    requires forall n :: Lookup(t, ChildKey(p, n)).Some? ==> Done(t, es, ChildKey(p, n))
    requires LinksExactly(es, p, ls)
    ensures Of(Directory(SortLinks(ls))) == TreeCid(At(t, p).value)
  {
    var sub := At(t, p).value;
    LookupWellFormed(t, TreePath(p));
    forall l ensures l in ls <==> Child(sub, l.name).Some? && l.cid == TreeCid(Child(sub, l.name).value) {
      var q := ChildKey(p, l.name);
      AtChild(t, p, l.name);
      assert Front(q) == TreePath(p) && Last(q) == l.name;
      assert q in es && Lookup(t, q).Some? ==> Done(t, es, q);
      if Lookup(t, q).Some? {
        assert q != ROOT;
        assert q in es[p].children <==> Listed(t, {}, p, q);
      } else if q in es && q != ROOT {
        assert p != ROOT;
        assert q !in es[p].children;
      }
    }
    FolderNode(sub, ls);
  }

  /** A leftover without children hashes to the empty directory. */
  lemma EmptyHash(es: Entries, p: Path, ls: seq<Link>)
    requires p in es && p != ROOT && es[p].children == [] && LinksExactly(es, p, ls)
    ensures Of(Directory(SortLinks(ls))) == EMPTY_DIR
  {
    FirstIn(ls);
    forall l ensures !Linked(es, p, l) {
    }
  }
}
