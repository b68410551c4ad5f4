/** The entries, blocks and index the file system walk of BuildSummary produces, as functions of the tree. */
module BuilderWalk {
  import opened Base
  import opened Dag
  import opened FsTrees
  import opened Bfs
  import opened TreeSummaries
  import opened BuilderSteps
  import opened Collect

  function KidKeys(p: Path, kids: seq<Kid>): seq<Path> {
    if kids == [] then [] else [p + [kids[0].name]] + KidKeys(p, kids[1..])
  }

  /** The keys of the kids that are files: all the virtual root lists. */
  function FileKeys(p: Path, kids: seq<Kid>): seq<Path> {
    if kids == [] then []
    else if kids[0].tree.File? then [p + [kids[0].name]] + FileKeys(p, kids[1..])
    else FileKeys(p, kids[1..])
  }

  function EntryOf(p: Path, t: FsTree, children: seq<Path>): TreeEntry
    requires p != []
  {
    TreeEntry(Front(p), Last(p), t.Folder?, if t.File? then Of(t.dag) else Undef, children, LogicalSize(TreeNode(t)))
  }

  function FullEntry(p: Path, t: FsTree): TreeEntry
    requires p != []
  {
    EntryOf(p, t, if t.File? then [] else KidKeys(p, t.kids))
  }

  /** Every entry at or below `p`. */
  function WalkEntries(p: Path, t: FsTree): Entries
    requires p != []
    decreases t
  {
    match t
    case File(_) => map[p := FullEntry(p, t)]
    case Folder(kids) => map[p := FullEntry(p, t)] + KidEntries(p, kids)
  }

  function KidEntries(p: Path, kids: seq<Kid>): Entries
    decreases kids
  {
    if kids == [] then map[] else WalkEntries(p + [kids[0].name], kids[0].tree) + KidEntries(p, kids[1..])
  }

  /** The key of the entry whose list a child of `p` joins. */
  function ListKey(p: Path): Path {
    if p == [] then ROOT else p
  }

  function Append(es: Entries, key: Path, more: seq<Path>): Entries {
    if key in es then es[key := es[key].(children := es[key].children + more)] else es
  }

  /** What visiting the kids of `p` appends to the list of `p`. */
  function KidsListed(p: Path, kids: seq<Kid>): seq<Path> {
    if p == [] then FileKeys(p, kids) else KidKeys(p, kids)
  }

  /** What one visit appends to its parent's list. */
  function Joins(p: Path, t: FsTree): seq<Path>
    requires p != []
  {
    if |p| > 1 || t.File? then [p] else []
  }

  function WalkBlocks(t: FsTree): seq<Cid> {
    match t
    case File(dag) => BlockList(Of(dag))
    case Folder(kids) => KidBlocks(kids)
  }

  function KidBlocks(kids: seq<Kid>): seq<Cid> {
    if kids == [] then [] else WalkBlocks(kids[0].tree) + KidBlocks(kids[1..])
  }

  // ---------------------------------------------------------------- keys

  /** No entry lies in the part of the tree still to be walked. */
  ghost predicate Unvisited(es: Entries, p: Path) {
    forall q :: q in es ==> !Extends(q, p)
  }

  lemma {:induction false} WalkKeys(p: Path, t: FsTree)
    requires p != []
    ensures p in WalkEntries(p, t)
    ensures forall q :: q in WalkEntries(p, t) ==> Extends(q, p)
    decreases t
  {
    if t.Folder? {
      KidKeysExtend(p, t.kids);
    }
  }

  lemma {:induction false} KidKeysExtend(p: Path, kids: seq<Kid>)
    ensures forall q :: q in KidEntries(p, kids) ==> Extends(q, p) && |q| > |p|
    decreases kids
  {
    if kids != [] {
      WalkKeys(p + [kids[0].name], kids[0].tree);
      KidKeysExtend(p, kids[1..]);
      forall q | q in KidEntries(p, kids) ensures Extends(q, p) && |q| > |p| {
        if q in WalkEntries(p + [kids[0].name], kids[0].tree) {
          assert q[..|p|] == q[..|p| + 1][..|p|];
        }
      }
    }
  }

  lemma ApartFromSibling(q: Path, p: Path, a: string, b: string)
    requires Extends(q, p + [a]) && a != b
    ensures !Extends(q, p + [b])
  {
    ExtendsAt(q, p, a);
    ExtendsAt(q, p, b);
  }

  // ---------------------------------------------------------------- composing visits

  /** Visiting `p` itself and then its kids gives the entries at and below `p`. */
  lemma VisitThenKids(es: Entries, p: Path, t: FsTree)
    requires p != [] && t.Folder? && p !in es && ListKey(Front(p)) in es && ListKey(Front(p)) != p
    ensures Append(Append(es, ListKey(Front(p)), Joins(p, t))[p := EntryOf(p, t, [])], p, KidKeys(p, t.kids)) + KidEntries(p, t.kids)
         == Append(es, ListKey(Front(p)), Joins(p, t)) + WalkEntries(p, t)
  {
    var visited := Append(es, ListKey(Front(p)), Joins(p, t))[p := EntryOf(p, t, [])];
    assert [] + KidKeys(p, t.kids) == KidKeys(p, t.kids);
    hide KidKeys, KidEntries, Joins;
    assert Append(visited, p, KidKeys(p, t.kids)) == Append(es, ListKey(Front(p)), Joins(p, t)) + map[p := FullEntry(p, t)];
  }

  lemma AppendTwice(es: Entries, key: Path, a: seq<Path>, b: seq<Path>, more: Entries)
    requires key in es && key !in more
    ensures key in Append(es, key, a) + more
    ensures Append(Append(es, key, a) + more, key, b) == Append(es, key, a + b) + more
  {
    assert es[key].children + a + b == es[key].children + (a + b);
  }

  lemma FirstListed(p: Path, kids: seq<Kid>)
    requires kids != []
    ensures Joins(p + [kids[0].name], kids[0].tree) + KidsListed(p, kids[1..]) == KidsListed(p, kids)
  {
  }

  /** Visiting the first kid and then the others gives the entries of all of them. */
  lemma FirstThenOthers(es: Entries, p: Path, kids: seq<Kid>)
    requires kids != [] && ListKey(p) in es && !Extends(ListKey(p), p + [kids[0].name])
    ensures var q := p + [kids[0].name];
            var first := Append(es, ListKey(p), Joins(q, kids[0].tree)) + WalkEntries(q, kids[0].tree);
            && ListKey(p) in first
            && Append(first, ListKey(p), KidsListed(p, kids[1..])) + KidEntries(p, kids[1..])
               == Append(es, ListKey(p), KidsListed(p, kids)) + KidEntries(p, kids)
  {
    hide WalkEntries, Append, Joins, KidsListed, Extends;
    var q := p + [kids[0].name];
    WalkKeys(q, kids[0].tree);
    FirstListed(p, kids);
    AppendTwice(es, ListKey(p), Joins(q, kids[0].tree), KidsListed(p, kids[1..]), WalkEntries(q, kids[0].tree));
  }

  // ---------------------------------------------------------------- the walk yields the skeleton of the tree

  lemma {:induction false} LookupFromFront(kids: seq<Kid>, name: string, r: Path)
    ensures Lookup(Folder(kids), [name] + r) == match Find(kids, name) case None => None case Some(k) => Lookup(k, r)
    decreases |r|
  {
    var p := [name] + r;
    if r == [] {
      assert p[..|p| - 1] == [];
    } else {
      LookupFromFront(kids, name, r[..|r| - 1]);
      assert p[..|p| - 1] == [name] + r[..|r| - 1] && p[|p| - 1] == r[|r| - 1];
    }
  }

  lemma FolderLookup(t: FsTree, r: Path)
    requires t.Folder? && r != []
    ensures Lookup(t, r) == match Find(t.kids, r[0]) case None => None case Some(k) => Lookup(k, r[1..])
  {
    assert r == [r[0]] + r[1..];
    LookupFromFront(t.kids, r[0], r[1..]);
  }

  lemma {:induction false} FileLookup(t: FsTree, r: Path)
    requires t.File? && r != []
    ensures Lookup(t, r) == None
  {
    if |r| > 1 {
      FileLookup(t, r[..|r| - 1]);
    }
  }

  /** The entry at `q` is the full entry of the subtree there, if there is one. */
  ghost predicate EntryFor(sub: Option<FsTree>, es: Entries, q: Path)
    requires q != []
  {
    (q in es <==> sub.Some?) && (q in es ==> es[q] == FullEntry(q, sub.value))
  }

  lemma {:induction false} WalkLookup(p: Path, t: FsTree, r: Path)
    requires p != [] && WellFormed(t)
    ensures EntryFor(Lookup(t, r), WalkEntries(p, t), p + r)
    decreases t
  {
    if r == [] {
      assert p + r == p;
      if t.Folder? {
        KidKeysExtend(p, t.kids);
      }
    } else if t.File? {
      FileLookup(t, r);
      assert |p + r| > |p|;
    } else {
      assert |p + r| > |p|;
      FolderLookup(t, r);
      KidLookup(p, t.kids, r);
    }
  }

  lemma {:induction false} KidLookup(p: Path, kids: seq<Kid>, r: Path)
    requires r != [] && forall i :: 0 <= i < |kids| ==> WellFormed(kids[i].tree)
    requires forall i, j :: 0 <= i < j < |kids| ==> kids[i].name != kids[j].name
    ensures EntryFor(match Find(kids, r[0]) case None => None case Some(k) => Lookup(k, r[1..]), KidEntries(p, kids), p + r)
    decreases kids
  {
    if kids != [] {
      var q := p + [kids[0].name];
      KidLookup(p, kids[1..], r);
      WalkKeys(q, kids[0].tree);
      if kids[0].name == r[0] {
        assert q + r[1..] == p + r;
        WalkLookup(q, kids[0].tree, r[1..]);
        if Find(kids[1..], r[0]).Some? {
          var i := FoundIndex(kids[1..], r[0]);
        }
      } else {
        assert (p + r)[|p|] == r[0];
        ExtendsAt(p + r, p, kids[0].name);
      }
    }
  }

  lemma {:induction false} KidKeyElements(p: Path, kids: seq<Kid>, q: Path)
    ensures q in KidKeys(p, kids) <==> q != [] && Front(q) == p && Find(kids, Last(q)).Some?
    ensures q in FileKeys(p, kids) ==> q in KidKeys(p, kids)
  {
    if kids != [] {
      KidKeyElements(p, kids[1..], q);
      var h := p + [kids[0].name];
      assert Front(h) == p && Last(h) == kids[0].name;
      if q != [] && Front(q) == p && Last(q) == kids[0].name {
        assert q == Front(q) + [Last(q)] == h;
      }
    }
  }

  lemma {:induction false} FileKeyElements(p: Path, kids: seq<Kid>, q: Path)
    requires forall i, j :: 0 <= i < j < |kids| ==> kids[i].name != kids[j].name
    ensures q in FileKeys(p, kids) <==> q != [] && Front(q) == p && Find(kids, Last(q)).Some? && Find(kids, Last(q)).value.File?
  {
    if kids != [] {
      FileKeyElements(p, kids[1..], q);
      var h := p + [kids[0].name];
      assert Front(h) == p && Last(h) == kids[0].name;
      if q != [] && Front(q) == p && Last(q) == kids[0].name {
        assert q == Front(q) + [Last(q)] == h;
        if Find(kids[1..], Last(q)).Some? {
          var i := FoundIndex(kids[1..], Last(q));
        }
      }
    }
  }

  lemma {:induction false} KidKeysDistinct(p: Path, kids: seq<Kid>)
    requires forall i, j :: 0 <= i < j < |kids| ==> kids[i].name != kids[j].name
    ensures NoDuplicates(KidKeys(p, kids)) && NoDuplicates(FileKeys(p, kids))
  {
    if kids != [] {
      KidKeysDistinct(p, kids[1..]);
      var h := p + [kids[0].name];
      KidKeyElements(p, kids[1..], h);
      assert Last(h) == kids[0].name;
      if Find(kids[1..], kids[0].name).Some? {
        var i := FoundIndex(kids[1..], kids[0].name);
      }
    }
  }

  function RootEntry(): TreeEntry {
    TreeEntry(ROOT, "ROOT", true, Undef, [], 0)
  }

  /** The entries after the whole walk. */
  function WalkedEntries(t: FsTree): Entries
    requires t.Folder?
  {
    Append(map[ROOT := RootEntry()], ROOT, FileKeys([], t.kids)) + KidEntries([], t.kids)
  }

  lemma WalkedAt(t: FsTree, p: Path)
    requires t.Folder? && WellFormed(t) && p != []
    ensures EntryFor(Lookup(t, p), KidEntries([], t.kids), p)
  {
    KidLookup([], t.kids, p);
    FolderLookup(t, p);
    assert [] + p == p;
  }

  lemma WalkedChildren(t: FsTree, p: Path, sub: FsTree)
    requires t.Folder? && WellFormed(t) && p != ROOT && p != [] && Lookup(t, p) == Some(sub) && sub.Folder?
    ensures ChildrenMatch(t, {}, p, KidKeys(p, sub.kids))
  {
    LookupWellFormed(t, p);
    KidKeysDistinct(p, sub.kids);
    forall q ensures q in KidKeys(p, sub.kids) <==> Listed(t, {}, p, q) {
      KidKeyElements(p, sub.kids, q);
    }
  }

  lemma WalkedRootChildren(t: FsTree)
    requires t.Folder? && WellFormed(t)
    ensures ChildrenMatch(t, {}, ROOT, FileKeys([], t.kids))
  {
    KidKeysDistinct([], t.kids);
    forall q ensures q in FileKeys([], t.kids) <==> Listed(t, {}, ROOT, q) {
      FileKeyElements([], t.kids, q);
      if q != [] && Front(q) == [] {
        assert Lookup(t, q) == Child(t, Last(q));
      }
    }
  }

  /** After the walk the entries are exactly the tree's, with no directory hashed yet. */
  lemma WalkedSkeleton(t: FsTree)
    requires t.Folder? && WellFormed(t) && NoRootName(t)
    ensures Skeleton(t, {}, WalkedEntries(t))
    ensures forall p :: p in WalkedEntries(t) ==> At(t, p).Some?
    ensures forall p :: p in WalkedEntries(t) && WalkedEntries(t)[p].isDir ==> WalkedEntries(t)[p].cid == Undef
  {
    var es := WalkedEntries(t);
    WalkedAt(t, ROOT);
    assert [] + FileKeys([], t.kids) == FileKeys([], t.kids);
    assert es[ROOT] == RootEntry().(children := FileKeys([], t.kids));
    WalkedRootChildren(t);
    KidKeysExtend([], t.kids);
    forall p | p in es ensures WellNamed(p, es[p]) && At(t, p).Some? && EntryMatches(At(t, p).value, es[p])
                            && (es[p].isDir ==> es[p].cid == Undef && ChildrenMatch(t, {}, p, es[p].children)) {
      if p != ROOT {
        WalkedAt(t, p);
        if es[p].isDir {
          WalkedChildren(t, p, Lookup(t, p).value);
        }
      }
    }
    forall p | p != [] && Lookup(t, p).Some? ensures p in es {
      WalkedAt(t, p);
    }
  }

  // ---------------------------------------------------------------- the walk on the whole summary

  function Sum(sizes: seq<nat>): nat {
    if sizes == [] then 0 else Sum(sizes[..|sizes| - 1]) + sizes[|sizes| - 1]
  }

  function FileBlocks(t: FsTree): seq<Cid> {
    if t.File? then BlockList(Of(t.dag)) else []
  }

  function IndexBlocks(index: map<Cid, Path>, cs: seq<Cid>, p: Path): map<Cid, Path> {
    index + map c | c in cs :: p
  }

  /** One call of the walk's visitor. */
  function Visited(s: Summary, p: Path, t: FsTree, size: Sizer): Summary
    requires p != []
  {
    var cs := FileBlocks(t);
    s.(entries := Append(s.entries, ListKey(Front(p)), Joins(p, t))[p := EntryOf(p, t, [])],
       blockOrder := s.blockOrder + cs,
       blockSizes := s.blockSizes + SizesOf(size, cs),
       totalSize := s.totalSize + Sum(SizesOf(size, cs)),
       cidToEntry := IndexBlocks(s.cidToEntry, cs, p))
  }

  /** The walk of the subtree at `p`, then of the kids of a folder. */
  function Walked(s: Summary, p: Path, t: FsTree, size: Sizer): Summary
    requires p != []
    decreases t
  {
    match t
    case File(_) => Visited(s, p, t, size)
    case Folder(kids) => WalkedKids(Visited(s, p, t, size), p, kids, size)
  }

  function WalkedKids(s: Summary, p: Path, kids: seq<Kid>, size: Sizer): Summary
    decreases kids
  {
    if kids == [] then s else WalkedKids(Walked(s, p + [kids[0].name], kids[0].tree, size), p, kids[1..], size)
  }

  /** What holds of the summary while only files have blocks. */
  ghost predicate FilesOnly(s: Summary, size: Sizer) {
    Sized(s, size) && FilesIndexed(s, s.blockOrder)
  }

  lemma VisitedFilesOnly(s: Summary, p: Path, t: FsTree, size: Sizer)
    requires FilesOnly(s, size) && p != [] && p !in s.entries && WellFormed(t) && ListKey(Front(p)) != p
    ensures FilesOnly(Visited(s, p, t, size), size)
  {
    var s' := Visited(s, p, t, size);
    var cs := FileBlocks(t);
    if t.File? {
      BlockListExact(Of(t.dag));
    }
    forall c | c in s'.blockOrder ensures FileHit(s', c) {
      if c in cs {
        var i :| 0 <= i < |cs| && cs[i] == c;
        assert c in Elements(cs);
        FileDagReach(t.dag, c);
      } else {
        assert FileHit(s, c);
      }
    }
  }

  lemma {:induction false} WalkedResult(s: Summary, p: Path, t: FsTree, size: Sizer)
    requires FilesOnly(s, size) && p != [] && WellFormed(t) && Unvisited(s.entries, p)
    requires ListKey(Front(p)) in s.entries && ListKey(Front(p)) != p
    ensures var s' := Walked(s, p, t, size);
            && FilesOnly(s', size)
            && s'.entries == Append(s.entries, ListKey(Front(p)), Joins(p, t)) + WalkEntries(p, t)
            && s'.blockOrder == s.blockOrder + WalkBlocks(t)
    decreases t
  {
    assert Extends(p, p) && p !in s.entries;
    VisitedFilesOnly(s, p, t, size);
    var v := Visited(s, p, t, size);
    if t.File? {
      assert v.entries == Append(s.entries, ListKey(Front(p)), Joins(p, t)) + map[p := FullEntry(p, t)];
    } else {
      assert v.blockOrder == s.blockOrder;
      forall i, q | 0 <= i < |t.kids| && q in v.entries ensures !Extends(q, p + [t.kids[i].name]) {
        if Extends(q, p + [t.kids[i].name]) {
          assert q[..|p|] == q[..|p| + 1][..|p|] == p;
          assert Extends(q, p) && |q| > |p|;
        }
      }
      WalkedKidsResult(v, p, t.kids, size);
      VisitThenKids(s.entries, p, t);
    }
  }

  lemma {:induction false} WalkedKidsResult(s: Summary, p: Path, kids: seq<Kid>, size: Sizer)
    requires FilesOnly(s, size) && ListKey(p) in s.entries
    requires forall i :: 0 <= i < |kids| ==> WellFormed(kids[i].tree) && Unvisited(s.entries, p + [kids[i].name])
    requires forall i, j :: 0 <= i < j < |kids| ==> kids[i].name != kids[j].name
    ensures var s' := WalkedKids(s, p, kids, size);
            && FilesOnly(s', size)
            && s'.entries == Append(s.entries, ListKey(p), KidsListed(p, kids)) + KidEntries(p, kids)
            && s'.blockOrder == s.blockOrder + KidBlocks(kids)
    decreases kids
  {
    if kids == [] {
      AppendNothing(s.entries, p);
      assert s.blockOrder + [] == s.blockOrder;
    } else {
      hide WalkEntries, KidEntries, Append, FilesOnly, Extends, KidsListed, Walked, WellFormed, WalkBlocks, KidBlocks;
      var q := p + [kids[0].name];
      KidApart(s.entries, p, kids);
      var s1 := Walked(s, q, kids[0].tree, size);
      WalkedResult(s, q, kids[0].tree, size);
      assert ListKey(Front(q)) == ListKey(p);
      assert s1.entries == Append(s.entries, ListKey(p), Joins(q, kids[0].tree)) + WalkEntries(q, kids[0].tree);
      OthersUnvisited(s.entries, s1.entries, p, kids);
      FirstThenOthers(s.entries, p, kids);
      WalkedKidsResult(s1, p, kids[1..], size);
      BlocksJoin(s.blockOrder, kids);
    }
  }

  lemma BlocksJoin(before: seq<Cid>, kids: seq<Kid>)
    requires kids != []
    ensures before + WalkBlocks(kids[0].tree) + KidBlocks(kids[1..]) == before + KidBlocks(kids)
  {
  }

  lemma AppendNothing(es: Entries, p: Path)
    ensures KidsListed(p, []) == [] && Append(es, ListKey(p), []) == es
  {
    var key := ListKey(p);
    assert key in es ==> es[key].children + [] == es[key].children;
  }

  lemma KidApart(es: Entries, p: Path, kids: seq<Kid>)
    requires kids != [] && ListKey(p) in es && Unvisited(es, p + [kids[0].name])
    ensures var q := p + [kids[0].name];
            q != [] && Front(q) == p && !Extends(ListKey(p), q) && ListKey(p) != q
  {
    assert Extends(p + [kids[0].name], p + [kids[0].name]);
  }

  lemma OthersUnvisited(es: Entries, es1: Entries, p: Path, kids: seq<Kid>)
    requires kids != [] && forall i :: 0 <= i < |kids| ==> Unvisited(es, p + [kids[i].name])
    requires forall i, j :: 0 <= i < j < |kids| ==> kids[i].name != kids[j].name
    requires var q := p + [kids[0].name];
             es1 == Append(es, ListKey(p), Joins(q, kids[0].tree)) + WalkEntries(q, kids[0].tree)
    ensures forall i :: 0 <= i < |kids[1..]| ==> Unvisited(es1, p + [kids[1..][i].name])
  {
    var q := p + [kids[0].name];
    WalkKeys(q, kids[0].tree);
    hide WalkEntries, Extends;
    forall i, x | 0 <= i < |kids[1..]| && x in es1 ensures !Extends(x, p + [kids[1..][i].name]) {
      assert Unvisited(es, p + [kids[i + 1].name]);
      if x in WalkEntries(q, kids[0].tree) {
        ApartFromSibling(x, p, kids[0].name, kids[i + 1].name);
      }
    }
  }

  function EmptySummary(): Summary {
    Summary(Undef, 0, [], [], map[ROOT := RootEntry()], map[])
  }

  /** The whole walk: the tree's entries, its file blocks with their sizes, and an index back to the files. */
  lemma WholeWalk(t: FsTree, size: Sizer)
    requires t.Folder? && WellFormed(t) && NoRootName(t)
    ensures var s := WalkedKids(EmptySummary(), [], t.kids, size);
            && s.entries == WalkedEntries(t) && s.blockOrder == WalkBlocks(t) && FilesOnly(s, size)
  {
    var s := EmptySummary();
    forall i | 0 <= i < |t.kids| ensures Unvisited(s.entries, [] + [t.kids[i].name]) {
      FindIndex(t.kids, i);
      assert Lookup(t, ROOT) == Child(t, "ROOT");
      ExtendsAt(ROOT, [], t.kids[i].name);
    }
    WalkedKidsResult(s, [], t.kids, size);
    assert [] + WalkBlocks(t) == WalkBlocks(t);
  }
}
