/** isDirectoryEmpty, and what it decides. */
module BuilderEmpty {
  import opened Dag
  import opened FsTrees
  import opened TreeSummaries
  import opened BuilderWalk

  /** isDirectoryEmpty: no file among the children, theirs, and so on. The tree only serves termination. */
  predicate IsDirectoryEmpty(ghost t: FsTree, es: Entries, p: Path)
    requires Skeleton(t, {}, es) && p in es && At(t, p).Some?
    decreases Height(TreeCid(At(t, p).value)), 1, 0
  {
    es[p].isDir && AllChildrenEmpty(t, es, p, 0)
  }

  predicate AllChildrenEmpty(ghost t: FsTree, es: Entries, p: Path, i: nat)
    requires Skeleton(t, {}, es) && p in es && At(t, p).Some? && es[p].isDir && i <= |es[p].children|
    decreases Height(TreeCid(At(t, p).value)), 0, |es[p].children| - i
  {
    if i == |es[p].children| then true
    else
      var q := es[p].children[i];
      ListedChildIsLower(t, es, p, i);
      (q !in es || IsDirectoryEmpty(t, es, q)) && AllChildrenEmpty(t, es, p, i + 1)
  }

  lemma ListedChildIsLower(t: FsTree, es: Entries, p: Path, i: nat)
    requires Skeleton(t, {}, es) && p in es && At(t, p).Some? && es[p].isDir && i < |es[p].children|
    ensures var q := es[p].children[i];
            q in es && q != ROOT && At(t, q).Some? && Height(TreeCid(At(t, q).value)) < Height(TreeCid(At(t, p).value))
            && Lookup(t, q) == Child(At(t, p).value, Last(q))
  {
    var q := es[p].children[i];
    assert ChildrenMatch(t, {}, p, es[p].children);
    assert Listed(t, {}, p, q);
    LookupWellFormed(t, TreePath(p));
    ChildIsLower(At(t, p).value, Last(q));
  }

  lemma {:induction false} AllChildrenEmptyMeans(t: FsTree, es: Entries, p: Path, i: nat)
    requires Skeleton(t, {}, es) && p in es && At(t, p).Some? && es[p].isDir && i <= |es[p].children| && p != ROOT
    ensures AllChildrenEmpty(t, es, p, i)
       <==> forall k :: i <= k < |es[p].children| ==> At(t, es[p].children[k]).Some? && !HasFile(At(t, es[p].children[k]).value)
    decreases Height(TreeCid(At(t, p).value)), 0, |es[p].children| - i
  {
    hide Skeleton, Lookup, HasFile, IsDirectoryEmpty;
    if i < |es[p].children| {
      ListedChildIsLower(t, es, p, i);
      DirectoryEmptyMeans(t, es, es[p].children[i]);
      AllChildrenEmptyMeans(t, es, p, i + 1);
    }
  }

  /** A listed child has a file exactly when the directory has one. */
  lemma ListedChildWithFile(t: FsTree, es: Entries, p: Path)
    requires Skeleton(t, {}, es) && p in es && At(t, p).Some? && p != ROOT && es[p].isDir
    ensures HasFile(At(t, p).value)
       <==> exists k :: 0 <= k < |es[p].children| && At(t, es[p].children[k]).Some? && HasFile(At(t, es[p].children[k]).value)
  {
    var sub, children := At(t, p).value, es[p].children;
    LookupWellFormed(t, p);
    HasFileChild(sub);
    assert ChildrenMatch(t, {}, p, children);
    hide Skeleton, HasFile, Lookup, WellFormed;
    if n :| Child(sub, n).Some? && HasFile(Child(sub, n).value) {
      var q := ChildKey(p, n);
      AtChild(t, p, n);
      assert Front(q) == p && Listed(t, {}, p, q);
      var k :| 0 <= k < |children| && children[k] == q;
      NotRootKey(t, es, q);
      assert HasFile(At(t, children[k]).value);
    }
    if k :| 0 <= k < |children| && At(t, children[k]).Some? && HasFile(At(t, children[k]).value) {
      ListedChildIsLower(t, es, p, k);
      assert Child(sub, Last(children[k])).Some?;
    }
  }

  lemma NotRootKey(t: FsTree, es: Entries, q: Path)
    requires Skeleton(t, {}, es) && Lookup(t, q).Some?
    ensures q != ROOT && At(t, q) == Lookup(t, q)
  {
  }

  /** The recursive check finds exactly the directories without a file anywhere below. */
  lemma {:induction false} DirectoryEmptyMeans(t: FsTree, es: Entries, p: Path)
    requires Skeleton(t, {}, es) && p in es && At(t, p).Some? && p != ROOT
    ensures IsDirectoryEmpty(t, es, p) <==> !HasFile(At(t, p).value)
    decreases Height(TreeCid(At(t, p).value)), 1, 0
  {
    assert EntryMatches(At(t, p).value, es[p]);
    if es[p].isDir {
      AllChildrenEmptyMeans(t, es, p, 0);
      ListedChildWithFile(t, es, p);
      hide Skeleton, Lookup, HasFile;
      forall k | 0 <= k < |es[p].children| ensures At(t, es[p].children[k]).Some? {
        ListedChildIsLower(t, es, p, k);
      }
    }
  }

  // ---------------------------------------------------------------- what being empty means

  ghost predicate FileAt(t: FsTree, p: Path) {
    Lookup(t, p).Some? && Lookup(t, p).value.File?
  }

  lemma {:induction false} FileWithin(t: FsTree) returns (p: Path)
    requires WellFormed(t) && HasFile(t)
    ensures FileAt(t, p)
    decreases t
  {
    p := [];
    if t.Folder? {
      AnyHasFileIff(t.kids);
      var i :| 0 <= i < |t.kids| && HasFile(t.kids[i].tree);
      var q := FileWithin(t.kids[i].tree);
      p := [t.kids[i].name] + q;
      FindIndex(t.kids, i);
      LookupFromFront(t.kids, t.kids[i].name, q);
    }
  }

  lemma {:induction false} FileAbove(t: FsTree, p: Path)
    requires WellFormed(t) && Lookup(t, p).Some? && HasFile(Lookup(t, p).value)
    ensures HasFile(t)
    decreases |p|
  {
    if p != [] {
      HasFileUpwards(t, p);
      FileAbove(t, p[..|p| - 1]);
    }
  }

  /** A tree has a file if and only if one of its paths leads to a file. */
  lemma HasFileExactly(t: FsTree)
    requires WellFormed(t)
    ensures HasFile(t) <==> exists p :: FileAt(t, p)
  {
    if HasFile(t) {
      var p := FileWithin(t);
    }
    if p :| FileAt(t, p) {
      FileAbove(t, p);
    }
  }
}
