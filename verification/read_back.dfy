/** reconstructTree and walkDAG of car/car_reconstructor.go, as functions on the two indices they fill. */
module ReadBack {
  import opened Dag
  import opened FsTrees
  import opened TreeSummaries

  datatype ReadState = ReadState(entries: Entries, cidToEntry: map<Cid, Path>)

  /** The text form of an identifier, used where a link has no name. */
  type Renderer = Cid -> string

  function NameOr(text: Renderer, l: Link): string {
    if l.name == "" then text(l.cid) else l.name
  }

  function AddChild(es: Entries, parent: Path, key: Path): Entries {
    if parent in es && key !in es[parent].children
    then es[parent := es[parent].(children := es[parent].children + [key])]
    else es
  }

  function EntryKey(parent: Path, name: string): Path {
    if parent == ROOT then [name] else parent + [name]
  }

  /** walkDAG up to its recursion: create or update the entry, index it, list it under its parent. */
  function Enter(st: ReadState, c: Cid, parent: Path, name: string): ReadState
    requires c.Of?
  {
    var key := EntryKey(parent, name);
    var isDir := c.node.Directory?;
    var entry := if key in st.entries then st.entries[key]
                 else TreeEntry(if parent == ROOT then [] else parent, name, isDir, c, [], 0);
    var fileSize := if LogicalSize(c.node) > 0 then LogicalSize(c.node) else entry.logicalSize;
    var es := st.entries[key := entry.(cid := c, logicalSize := fileSize)];
    ReadState(if parent == ROOT && isDir then es else AddChild(es, parent, key), st.cidToEntry[c := key])
  }

  /** walkDAG, when every block it asks for is there. */
  function WalkNode(st: ReadState, c: Cid, parent: Path, name: string, text: Renderer): ReadState
    requires c.Of?
    decreases c
  {
    var entered := Enter(st, c, parent, name);
    if c.node.Directory? then WalkLinks(entered, c.node.links, EntryKey(parent, name), text) else entered
  }

  /** The recursion: undefined links and identifiers already processed are passed over. */
  function WalkLinks(st: ReadState, ls: seq<Link>, key: Path, text: Renderer): ReadState
    decreases ls
  {
    if ls == [] then st
    else if ls[0].cid == Undef || ls[0].cid in st.cidToEntry then WalkLinks(st, ls[1..], key, text)
    else WalkLinks(WalkNode(st, ls[0].cid, key, NameOr(text, ls[0]), text), ls[1..], key, text)
  }

  /** The loop over the root's links does not look whether a child was processed already. */
  function WalkRootLinks(st: ReadState, ls: seq<Link>, text: Renderer): ReadState
    decreases ls
  {
    if ls == [] then st
    else if ls[0].cid == Undef then WalkRootLinks(st, ls[1..], text)
    else WalkRootLinks(WalkNode(st, ls[0].cid, ROOT, NameOr(text, ls[0]), text), ls[1..], text)
  }

  function ReadRootEntry(root: Cid, children: seq<Path>): TreeEntry {
    TreeEntry([], "ROOT", true, root, children, 0)
  }

  /** The two indices reconstructTree builds from a root. */
  function ReadTree(root: Cid, text: Renderer): ReadState
    requires root.Of?
  {
    if root.node.Directory? then
      WalkRootLinks(ReadState(map[ROOT := ReadRootEntry(root, [])], map[root := ROOT]), root.node.links, text)
    else
      var name := text(root);
      ReadState(map[[name] := TreeEntry([], name, false, root, [], LogicalSize(root.node))][ROOT := ReadRootEntry(root, [[name]])], map[root := [name]])
  }

  // ---------------------------------------------------------------- reading order

  /** Paths in the order a walk over links sorted by name meets them. */
  predicate Before(q: Path, p: Path) {
    if p == [] then false
    else if q == [] then true
    else if q[0] != p[0] then Less(q[0], p[0])
    else Before(q[1..], p[1..])
  }

  /** What comes before a child: what comes before its parent, the parent, and the subtrees of smaller siblings. */
  lemma {:induction false} BeforeChild(q: Path, p: Path, n: string)
    ensures Before(q, p + [n]) <==> (Before(q, p) || q == p || (Extends(q, p) && |q| > |p| && Less(q[|p|], n)))
  {
    var x := p + [n];
    if p == [] {
      if q != [] {
        assert x[1..] == [];
        LessIsStrictOrder(n, n, "");
      }
    } else if q != [] && q[0] == p[0] {
      assert x[1..] == p[1..] + [n];
      BeforeChild(q[1..], p[1..], n);
      TailExtends(q, p);
    } else {
      ExtendsHead(q, p);
    }
  }

  lemma ExtendsHead(q: Path, p: Path)
    requires p != []
    ensures Extends(q, p) ==> q != [] && q[0] == p[0]
  {
    if Extends(q, p) {
      assert q[..|p|][0] == q[0];
    }
  }

  lemma TailExtends(q: Path, p: Path)
    requires p != [] && q != [] && q[0] == p[0]
    ensures Extends(q, p) <==> Extends(q[1..], p[1..])
    ensures q == p <==> q[1..] == p[1..]
    ensures |q| > |p| ==> q[|p|] == q[1..][|p[1..]|]
  {
    if |p| <= |q| {
      assert q[..|p|][1..] == q[1..][..|p| - 1];
      if Extends(q[1..], p[1..]) {
        assert q[..|p|] == [q[0]] + q[1..][..|p| - 1] == [p[0]] + p[1..] == p;
      }
    }
    if q[1..] == p[1..] {
      assert q == [q[0]] + q[1..] == [p[0]] + p[1..] == p;
    }
  }

  lemma {:induction false} BeforeIrreflexive(p: Path)
    ensures !Before(p, p)
  {
    if p != [] {
      BeforeIrreflexive(p[1..]);
    }
  }

  /** What comes before a path does not extend it. */
  lemma {:induction false} BeforeNotExtends(q: Path, p: Path)
    requires Before(q, p)
    ensures !Extends(q, p)
  {
    if q != [] && p != [] && q[0] == p[0] {
      BeforeNotExtends(q[1..], p[1..]);
      TailExtends(q, p);
    } else if |p| <= |q| && p != [] {
      assert q[..|p|][0] == q[0];
    }
  }

  // ---------------------------------------------------------------- which entries survive

  function CidAt(u: FsTree, p: Path): Cid
    requires Lookup(u, p).Some?
  {
    TreeCid(Lookup(u, p).value)
  }

  /** No entry below the root level has the identifier of an entry met before it. */
  ghost predicate NoEarlierTwin(u: FsTree) {
    forall p, q :: |p| > 1 && Lookup(u, p).Some? && Lookup(u, q).Some? && Before(q, p) ==> CidAt(u, q) != CidAt(u, p)
  }

  /** Every name a file system gives is non-empty. */
  ghost predicate NamedEntries(u: FsTree) {
    forall p :: p != [] && Lookup(u, p).Some? ==> Last(p) != ""
  }

  ghost predicate InTree(u: FsTree, seen: iset<Path>) {
    forall p :: p in seen ==> Lookup(u, p).Some?
  }

  /** Of the paths read, none below the root level repeats the identifier of an earlier one. */
  ghost predicate TwinFree(u: FsTree, seen: iset<Path>)
    requires InTree(u, seen)
  {
    forall p, q :: p in seen && q in seen && |p| > 1 && Before(q, p) ==> CidAt(u, q) != CidAt(u, p)
  }

  ghost predicate ChildSeen(u: FsTree, seen: iset<Path>, p: Path, q: Path) {
    q in seen && q != [] && Front(q) == p && (p == [] ==> Lookup(u, q).Some? && Lookup(u, q).value.File?)
  }

  /** In the order they are met. */
  ghost predicate Ascending(ps: seq<Path>) {
    forall i, j :: 0 <= i < j < |ps| ==> Before(ps[i], ps[j])
  }

  ghost predicate EntryRead(u: FsTree, seen: iset<Path>, p: Path, e: TreeEntry)
    requires Lookup(u, p).Some?
  {
    && e.path == (if p == [] then [] else Front(p)) && e.name == (if p == [] then "ROOT" else Last(p))
    && e.isDir == Lookup(u, p).value.Folder? && e.cid == CidAt(u, p)
    && e.logicalSize == LogicalSize(TreeNode(Lookup(u, p).value))
    && Ascending(e.children) && forall q :: q in e.children <==> ChildSeen(u, seen, p, q)
  }

  function KeyOf(p: Path): Path {
    if p == [] then ROOT else p
  }

  ghost predicate KeysRead(seen: iset<Path>, es: Entries) {
    forall k :: k in es <==> k == ROOT || (k != [] && k in seen)
  }

  ghost predicate EntriesRead(u: FsTree, seen: iset<Path>, es: Entries)
    requires InTree(u, seen) && KeysRead(seen, es)
  {
    forall p :: p in seen ==> EntryRead(u, seen, p, es[KeyOf(p)])
  }

  /** Of the paths read, the last one with this identifier. */
  ghost predicate LastRead(u: FsTree, seen: iset<Path>, c: Cid, p: Path)
    requires InTree(u, seen)
  {
    p in seen && CidAt(u, p) == c && forall q :: q in seen && CidAt(u, q) == c ==> !Before(p, q)
  }

  ghost predicate IndexRead(u: FsTree, seen: iset<Path>, index: map<Cid, Path>)
    requires InTree(u, seen)
  {
    && (forall p :: p in seen ==> CidAt(u, p) in index)
    && (forall c :: c in index ==> exists p :: LastRead(u, seen, c, p) && index[c] == KeyOf(p))
  }

  /** The state after reading exactly the paths in `seen`. */
  ghost predicate Read(u: FsTree, seen: iset<Path>, st: ReadState)
    requires InTree(u, seen)
  {
    && [] in seen && KeysRead(seen, st.entries)
    && EntriesRead(u, seen, st.entries) && IndexRead(u, seen, st.cidToEntry)
  }

  ghost function Upto(u: FsTree, p: Path): iset<Path> {
    iset q | Lookup(u, q).Some? && Before(q, p)
  }

  ghost function Span(u: FsTree, p: Path): iset<Path> {
    iset q | Lookup(u, q).Some? && (Before(q, p) || Extends(q, p))
  }

  ghost predicate AllBefore(seen: iset<Path>, p: Path) {
    forall q :: q in seen ==> Before(q, p)
  }
}
