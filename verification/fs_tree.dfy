/** The file tree the builder walks, the DAG it stands for, and pruning of file-less directories. */
module FsTrees {
  import opened Base
  import opened Dag

  /** A file is given by the DAG the chunker makes of its content. */
  datatype FsTree = File(dag: Node) | Folder(kids: seq<Kid>)

  datatype Kid = Kid(name: string, tree: FsTree)

  /** A path as its components; the program's string form joins them with slashes. */
  type Path = seq<string>

  // ---------------------------------------------------------------- looking up paths

  function Find(kids: seq<Kid>, name: string): Option<FsTree> {
    if kids == [] then None
    else if kids[0].name == name then Some(kids[0].tree)
    else Find(kids[1..], name)
  }

  function Child(t: FsTree, name: string): Option<FsTree> {
    if t.File? then None else Find(t.kids, name)
  }

  function Lookup(t: FsTree, p: Path): Option<FsTree>
    decreases |p|
  {
    if p == [] then Some(t)
    else match Lookup(t, p[..|p| - 1])
      case None => None
      case Some(parent) => Child(parent, p[|p| - 1])
  }

  /** What a file system promises: names distinct within a folder, and files that chunk into file nodes. */
  ghost predicate WellFormed(t: FsTree) {
    match t
    case File(dag) => FileDag(dag)
    case Folder(kids) =>
      && (forall i, j :: 0 <= i < j < |kids| ==> kids[i].name != kids[j].name)
      && (forall i :: 0 <= i < |kids| ==> WellFormed(kids[i].tree))
  }

  /** A chunked file: file nodes all the way down. */
  predicate FileDag(n: Node) {
    match n
    case Directory(_) => false
    case FileNode(links, _, _) => FileLinks(links)
  }

  predicate FileLinks(ls: seq<Link>) {
    ls == [] || (ls[0].cid.Of? && FileDag(ls[0].cid.node) && FileLinks(ls[1..]))
  }

  lemma {:induction false} FileLinksReach(ls: seq<Link>, c: Cid)
    requires FileLinks(ls) && c in ReachLinks(ls)
    ensures c.Of? && FileDag(c.node)
    decreases ls
  {
    if c in Reach(ls[0].cid) {
      FileDagReach(ls[0].cid.node, c);
    } else {
      FileLinksReach(ls[1..], c);
    }
  }

  lemma {:induction false} FileDagReach(n: Node, c: Cid)
    requires FileDag(n) && c in Reach(Of(n))
    ensures c.Of? && FileDag(c.node)
    decreases n
  {
    if c != Of(n) {
      FileLinksReach(n.links, c);
    }
  }

  // ---------------------------------------------------------------- the DAG of a tree

  function TreeNode(t: FsTree): Node
    decreases t, 0
  {
    match t
    case File(dag) => dag
    case Folder(kids) => Directory(SortLinks(KidLinks(kids)))
  }

  function TreeCid(t: FsTree): Cid
    decreases t, 1
  {
    Of(TreeNode(t))
  }

  function KidLinks(kids: seq<Kid>): (r: seq<Link>)
    ensures |r| == |kids|
  {
    if kids == [] then [] else [Link(kids[0].name, TreeCid(kids[0].tree))] + KidLinks(kids[1..])
  }

  // ---------------------------------------------------------------- pruning

  predicate HasFile(t: FsTree) {
    match t
    case File(_) => true
    case Folder(kids) => AnyHasFile(kids)
  }

  predicate AnyHasFile(kids: seq<Kid>) {
    kids != [] && (HasFile(kids[0].tree) || AnyHasFile(kids[1..]))
  }

  /** Drops every folder below `t` that has no file anywhere in it. */
  function Prune(t: FsTree): FsTree {
    match t
    case File(_) => t
    case Folder(kids) => Folder(PruneKids(kids))
  }

  function PruneKids(kids: seq<Kid>): seq<Kid> {
    if kids == [] then []
    else if HasFile(kids[0].tree) then [Kid(kids[0].name, Prune(kids[0].tree))] + PruneKids(kids[1..])
    else PruneKids(kids[1..])
  }

  /** What the builder hashes: root-level folders are pruned inside but stay linked, even when nothing is left. */
  function PruneRoot(t: FsTree): FsTree {
    match t
    case File(_) => t
    case Folder(kids) => Folder(PruneBelow(kids))
  }

  function PruneBelow(kids: seq<Kid>): seq<Kid> {
    if kids == [] then [] else [Kid(kids[0].name, Prune(kids[0].tree))] + PruneBelow(kids[1..])
  }

  /** No folder strictly inside `t` is file-less. */
  predicate Clean(t: FsTree) {
    match t
    case File(_) => true
    case Folder(kids) => CleanKids(kids)
  }

  predicate CleanKids(kids: seq<Kid>) {
    kids == [] || (HasFile(kids[0].tree) && Clean(kids[0].tree) && CleanKids(kids[1..]))
  }

  // ---------------------------------------------------------------- lemmas about lookup

  lemma {:induction false} FindIndex(kids: seq<Kid>, i: nat)
    requires i < |kids| && forall a, b :: 0 <= a < b < |kids| ==> kids[a].name != kids[b].name
    ensures Find(kids, kids[i].name) == Some(kids[i].tree)
  {
    if i > 0 {
      FindIndex(kids[1..], i - 1);
    }
  }

  lemma {:induction false} FoundIndex(kids: seq<Kid>, name: string) returns (i: nat)
    requires Find(kids, name).Some?
    ensures i < |kids| && kids[i].name == name && kids[i].tree == Find(kids, name).value
  {
    if kids[0].name == name {
      i := 0;
    } else {
      i := FoundIndex(kids[1..], name);
      i := i + 1;
    }
  }

  lemma ChildWellFormed(t: FsTree, name: string)
    requires WellFormed(t) && Child(t, name).Some?
    ensures WellFormed(Child(t, name).value)
  {
    var i := FoundIndex(t.kids, name);
  }

  lemma {:induction false} LookupWellFormed(t: FsTree, p: Path)
    requires WellFormed(t) && Lookup(t, p).Some?
    ensures WellFormed(Lookup(t, p).value)
  {
    if p != [] {
      LookupWellFormed(t, p[..|p| - 1]);
      ChildWellFormed(Lookup(t, p[..|p| - 1]).value, p[|p| - 1]);
    }
  }

  // ---------------------------------------------------------------- the links of a folder

  lemma {:induction false} KidLinkAt(kids: seq<Kid>, i: nat)
    requires i < |kids|
    ensures KidLinks(kids)[i] == Link(kids[i].name, TreeCid(kids[i].tree))
  {
    if i > 0 {
      KidLinkAt(kids[1..], i - 1);
    }
  }

  lemma KidLinksDistinct(kids: seq<Kid>)
    requires forall i, j :: 0 <= i < j < |kids| ==> kids[i].name != kids[j].name
    ensures DistinctNames(KidLinks(kids))
  {
    KidLinkNames(kids);
  }

  lemma KidLinkNames(kids: seq<Kid>)
    ensures forall i :: 0 <= i < |kids| ==> KidLinks(kids)[i].name == kids[i].name
  {
    forall i | 0 <= i < |kids| ensures KidLinks(kids)[i].name == kids[i].name {
      KidLinkAt(kids, i);
    }
  }

  /** A folder's node links exactly its children, each under its name. */
  lemma FolderLinks(t: FsTree, l: Link)
    requires WellFormed(t) && t.Folder?
    ensures l in TreeNode(t).links <==> Child(t, l.name).Some? && l.cid == TreeCid(Child(t, l.name).value)
  {
    SortElements(KidLinks(t.kids), l);
    if Child(t, l.name).Some? && l.cid == TreeCid(Child(t, l.name).value) {
      var i := FoundIndex(t.kids, l.name);
      KidLinkAt(t.kids, i);
    }
    if l in KidLinks(t.kids) {
      var i :| 0 <= i < |t.kids| && KidLinks(t.kids)[i] == l;
      KidLinkAt(t.kids, i);
      FindIndex(t.kids, i);
    }
  }

  /** Any strictly sorted list of exactly a folder's links is the list in its node. */
  lemma FolderNode(t: FsTree, ls: seq<Link>)
    requires WellFormed(t) && t.Folder? && DistinctNames(ls)
    requires forall l :: l in ls <==> Child(t, l.name).Some? && l.cid == TreeCid(Child(t, l.name).value)
    ensures Of(Directory(SortLinks(ls))) == TreeCid(t)
  {
    KidLinksDistinct(t.kids);
    forall l ensures l in ls <==> l in KidLinks(t.kids) {
      FolderLinks(t, l);
      SortElements(KidLinks(t.kids), l);
    }
    SortCanonical(ls, KidLinks(t.kids));
  }

  lemma ChildIsLower(t: FsTree, name: string)
    requires WellFormed(t) && Child(t, name).Some?
    ensures Height(TreeCid(Child(t, name).value)) < Height(TreeCid(t))
  {
    var l := Link(name, TreeCid(Child(t, name).value));
    FolderLinks(t, l);
    var i :| 0 <= i < |TreeNode(t).links| && TreeNode(t).links[i] == l;
    LinkIsLower(TreeNode(t).links, i);
  }

  lemma {:induction false} DescendantIsLower(t: FsTree, p: Path)
    requires WellFormed(t) && p != [] && Lookup(t, p).Some?
    ensures Height(TreeCid(Lookup(t, p).value)) < Height(TreeCid(t))
  {
    var front := p[..|p| - 1];
    LookupWellFormed(t, front);
    ChildIsLower(Lookup(t, front).value, p[|p| - 1]);
    if front != [] {
      DescendantIsLower(t, front);
    }
  }

  // ---------------------------------------------------------------- files and emptiness

  lemma {:induction false} AnyHasFileIff(kids: seq<Kid>)
    ensures AnyHasFile(kids) <==> exists i :: 0 <= i < |kids| && HasFile(kids[i].tree)
  {
    if kids != [] {
      AnyHasFileIff(kids[1..]);
      if i :| 0 <= i < |kids| && HasFile(kids[i].tree) {
        assert i > 0 ==> HasFile(kids[1..][i - 1].tree);
      }
      if AnyHasFile(kids[1..]) {
        var i :| 0 <= i < |kids[1..]| && HasFile(kids[1..][i].tree);
        assert HasFile(kids[i + 1].tree);
      }
    }
  }

  /** A folder has a file exactly when one of its children has. */
  lemma HasFileChild(t: FsTree)
    requires WellFormed(t) && t.Folder?
    ensures HasFile(t) <==> exists n :: Child(t, n).Some? && HasFile(Child(t, n).value)
  {
    AnyHasFileIff(t.kids);
    if HasFile(t) {
      var i :| 0 <= i < |t.kids| && HasFile(t.kids[i].tree);
      FindIndex(t.kids, i);
      assert HasFile(Child(t, t.kids[i].name).value);
    }
    if n :| Child(t, n).Some? && HasFile(Child(t, n).value) {
      var i := FoundIndex(t.kids, n);
      assert HasFile(t.kids[i].tree);
    }
  }

  /** Whether a directory has a file can be read off its identifier. */
  predicate HasFileCid(c: Cid) {
    c.Of? && (c.node.FileNode? || AnyHasFileCid(c.node.links))
  }

  predicate AnyHasFileCid(ls: seq<Link>) {
    ls != [] && (HasFileCid(ls[0].cid) || AnyHasFileCid(ls[1..]))
  }

  lemma {:induction false} AnyHasFileCidIff(ls: seq<Link>)
    ensures AnyHasFileCid(ls) <==> exists l :: l in ls && HasFileCid(l.cid)
  {
    if ls != [] {
      AnyHasFileCidIff(ls[1..]);
      assert ls == [ls[0]] + ls[1..];
    }
  }

  lemma {:induction false} KidsHaveFile(kids: seq<Kid>)
    requires forall i :: 0 <= i < |kids| ==> WellFormed(kids[i].tree)
    ensures AnyHasFileCid(KidLinks(kids)) <==> AnyHasFile(kids)
    decreases kids
  {
    if kids != [] {
      HasFileInCid(kids[0].tree);
      KidsHaveFile(kids[1..]);
      assert KidLinks(kids)[1..] == KidLinks(kids[1..]);
    }
  }

  lemma {:induction false} HasFileInCid(t: FsTree)
    requires WellFormed(t)
    ensures HasFileCid(TreeCid(t)) <==> HasFile(t)
    decreases t
  {
    if t.Folder? {
      KidsHaveFile(t.kids);
      var ls := KidLinks(t.kids);
      AnyHasFileCidIff(ls);
      AnyHasFileCidIff(SortLinks(ls));
      forall l ensures l in SortLinks(ls) <==> l in ls {
        SortElements(ls, l);
      }
    }
  }

  /** Whether a directory holds file-less subdirectories can be read off its identifier too. */
  predicate CleanCid(c: Cid) {
    c.Of? && (c.node.FileNode? || CleanLinks(c.node.links))
  }

  predicate CleanLinks(ls: seq<Link>) {
    ls == [] || (HasFileCid(ls[0].cid) && CleanCid(ls[0].cid) && CleanLinks(ls[1..]))
  }

  lemma {:induction false} CleanLinksIff(ls: seq<Link>)
    ensures CleanLinks(ls) <==> forall l :: l in ls ==> HasFileCid(l.cid) && CleanCid(l.cid)
  {
    if ls != [] {
      CleanLinksIff(ls[1..]);
      assert ls == [ls[0]] + ls[1..];
    }
  }

  lemma {:induction false} KidsClean(kids: seq<Kid>)
    requires forall i :: 0 <= i < |kids| ==> WellFormed(kids[i].tree)
    ensures CleanLinks(KidLinks(kids)) <==> CleanKids(kids)
    decreases kids
  {
    if kids != [] {
      HasFileInCid(kids[0].tree);
      CleanInCid(kids[0].tree);
      KidsClean(kids[1..]);
      assert KidLinks(kids)[1..] == KidLinks(kids[1..]);
    }
  }

  lemma {:induction false} CleanInCid(t: FsTree)
    requires WellFormed(t)
    ensures CleanCid(TreeCid(t)) <==> Clean(t)
    decreases t
  {
    if t.Folder? {
      KidsClean(t.kids);
      var ls := KidLinks(t.kids);
      CleanLinksIff(ls);
      CleanLinksIff(SortLinks(ls));
      forall l ensures l in SortLinks(ls) <==> l in ls {
        SortElements(ls, l);
      }
    }
  }

  // ---------------------------------------------------------------- pruning, level by level

  lemma {:induction false} PruneKidsNames(kids: seq<Kid>, i: nat)
    requires i < |PruneKids(kids)|
    ensures exists j :: 0 <= j < |kids| && kids[j].name == PruneKids(kids)[i].name
  {
    if HasFile(kids[0].tree) {
      if i == 0 {
        assert kids[0].name == PruneKids(kids)[i].name;
      } else {
        PruneKidsNames(kids[1..], i - 1);
        var j :| 0 <= j < |kids[1..]| && kids[1..][j].name == PruneKids(kids[1..])[i - 1].name;
        assert kids[j + 1].name == PruneKids(kids)[i].name;
      }
    } else {
      PruneKidsNames(kids[1..], i);
      var j :| 0 <= j < |kids[1..]| && kids[1..][j].name == PruneKids(kids[1..])[i].name;
      assert kids[j + 1].name == PruneKids(kids)[i].name;
    }
  }

  lemma {:induction false} PruneKidsWellFormed(kids: seq<Kid>)
    requires forall i, j :: 0 <= i < j < |kids| ==> kids[i].name != kids[j].name
    requires forall i :: 0 <= i < |kids| ==> WellFormed(kids[i].tree)
    ensures WellFormed(Folder(PruneKids(kids)))
    decreases kids
  {
    if kids != [] {
      PruneKidsWellFormed(kids[1..]);
      PruneWellFormed(kids[0].tree);
      var rest := PruneKids(kids[1..]);
      forall i | 0 <= i < |rest| ensures rest[i].name != kids[0].name {
        PruneKidsNames(kids[1..], i);
      }
    }
  }

  lemma {:induction false} PruneWellFormed(t: FsTree)
    requires WellFormed(t)
    ensures WellFormed(Prune(t))
    decreases t
  {
    if t.Folder? {
      PruneKidsWellFormed(t.kids);
    }
  }

  lemma {:induction false} PruneBelowWellFormed(kids: seq<Kid>)
    requires forall i, j :: 0 <= i < j < |kids| ==> kids[i].name != kids[j].name
    requires forall i :: 0 <= i < |kids| ==> WellFormed(kids[i].tree)
    ensures WellFormed(Folder(PruneBelow(kids)))
    ensures |PruneBelow(kids)| == |kids| && forall i :: 0 <= i < |kids| ==> PruneBelow(kids)[i].name == kids[i].name
  {
    if kids != [] {
      PruneBelowWellFormed(kids[1..]);
      PruneWellFormed(kids[0].tree);
    }
  }

  lemma PruneRootWellFormed(t: FsTree)
    requires WellFormed(t)
    ensures WellFormed(PruneRoot(t))
  {
    if t.Folder? {
      PruneBelowWellFormed(t.kids);
    }
  }

  lemma {:induction false} FindInPruned(kids: seq<Kid>, name: string)
    requires forall i, j :: 0 <= i < j < |kids| ==> kids[i].name != kids[j].name
    ensures Find(PruneKids(kids), name)
         == if Find(kids, name).Some? && HasFile(Find(kids, name).value) then Some(Prune(Find(kids, name).value)) else None
  {
    if kids != [] {
      FindInPruned(kids[1..], name);
      if kids[0].name == name && Find(kids[1..], name).Some? {
        var i := FoundIndex(kids[1..], name);
      }
    }
  }

  lemma {:induction false} FindInPrunedBelow(kids: seq<Kid>, name: string)
    ensures Find(PruneBelow(kids), name) == if Find(kids, name).Some? then Some(Prune(Find(kids, name).value)) else None
  {
    if kids != [] {
      FindInPrunedBelow(kids[1..], name);
    }
  }

  /** A path survives in the pruned tree as long as every folder on it below the root level has a file. */
  predicate Kept(t: FsTree, p: Path) {
    Lookup(t, p).Some? && (|p| < 2 || HasFile(Lookup(t, p).value))
  }

  lemma HasFileUpwards(t: FsTree, p: Path)
    requires WellFormed(t) && p != [] && Lookup(t, p).Some? && HasFile(Lookup(t, p).value)
    ensures HasFile(Lookup(t, p[..|p| - 1]).value)
  {
    var parent := Lookup(t, p[..|p| - 1]).value;
    LookupWellFormed(t, p[..|p| - 1]);
    HasFileChild(parent);
    assert Child(parent, p[|p| - 1]).Some?;
  }

  /** The pruned tree, path by path: exactly the kept paths, each with its subtree pruned. */
  lemma {:induction false} LookupPruned(t: FsTree, p: Path)
    requires WellFormed(t)
    ensures Lookup(PruneRoot(t), p)
         == if !Kept(t, p) then None else if p == [] then Some(PruneRoot(t)) else Some(Prune(Lookup(t, p).value))
  {
    if p != [] {
      var front, name := p[..|p| - 1], p[|p| - 1];
      LookupPruned(t, front);
      if Lookup(t, front).Some? {
        var parent := Lookup(t, front).value;
        LookupWellFormed(t, front);
        if parent.Folder? {
          FindInPruned(parent.kids, name);
          FindInPrunedBelow(parent.kids, name);
        }
        if Lookup(t, p).Some? && HasFile(Lookup(t, p).value) {
          HasFileUpwards(t, p);
        }
      }
    }
  }

  lemma {:induction false} PruneKidsClean(kids: seq<Kid>)
    ensures CleanKids(PruneKids(kids))
    decreases kids
  {
    if kids != [] {
      PruneIsClean(kids[0].tree);
      PruneKidsClean(kids[1..]);
      if HasFile(kids[0].tree) {
        PruneHasFile(kids[0].tree);
        assert PruneKids(kids)[1..] == PruneKids(kids[1..]);
      }
    }
  }

  lemma {:induction false} PruneIsClean(t: FsTree)
    ensures Clean(Prune(t))
    decreases t
  {
    if t.Folder? {
      PruneKidsClean(t.kids);
    }
  }

  lemma {:induction false} PruneKidsHasFile(kids: seq<Kid>)
    ensures AnyHasFile(PruneKids(kids)) <==> AnyHasFile(kids)
    decreases kids
  {
    if kids != [] {
      PruneKidsHasFile(kids[1..]);
      if HasFile(kids[0].tree) {
        PruneHasFile(kids[0].tree);
      }
    }
  }

  lemma {:induction false} PruneHasFile(t: FsTree)
    ensures HasFile(Prune(t)) <==> HasFile(t)
    decreases t
  {
    if t.Folder? {
      PruneKidsHasFile(t.kids);
    }
  }

  lemma {:induction false} PruneKidsUnchanged(kids: seq<Kid>)
    requires CleanKids(kids)
    ensures PruneKids(kids) == kids && PruneBelow(kids) == kids
    decreases kids
  {
    if kids != [] {
      PruneUnchanged(kids[0].tree);
      PruneKidsUnchanged(kids[1..]);
    }
  }

  /** Pruning a tree without file-less folders changes nothing. */
  lemma {:induction false} PruneUnchanged(t: FsTree)
    requires Clean(t)
    ensures Prune(t) == t && PruneRoot(t) == t
    decreases t
  {
    if t.Folder? {
      PruneKidsUnchanged(t.kids);
    }
  }

  lemma {:induction false} FilelessPrunesToNothing(kids: seq<Kid>)
    requires !AnyHasFile(kids)
    ensures PruneKids(kids) == []
  {
    if kids != [] {
      FilelessPrunesToNothing(kids[1..]);
    }
  }
}
