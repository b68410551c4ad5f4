/** Why walking the DAG depth-first, links in name order, reads the tree's entries: one path at a time, in lexicographic order. */
module ReadBackSteps {
  import opened Base
  import opened Dag
  import opened FsTrees
  import opened TreeSummaries
  import opened ReadBack

  // ---------------------------------------------------------------- reading one entry

  lemma RootIsFree(u: FsTree)
    requires NoRootName(u)
    ensures Lookup(u, ROOT).None?
  {
  }

  lemma KeysOfPath(u: FsTree, p: Path)
    requires u.Folder? && NoRootName(u) && p != [] && Lookup(u, p).Some?
    ensures EntryKey(KeyOf(Front(p)), Last(p)) == p && p != ROOT && Front(p) != ROOT && KeyOf(Front(p)) != p
    ensures Lookup(u, Front(p)).Some? && Lookup(u, Front(p)).value.Folder?
  {
    hide NoRootName;
    RootIsFree(u);
    assert p == Front(p) + [Last(p)];
  }

  lemma NodeKind(u: FsTree, p: Path)
    requires WellFormed(u) && Lookup(u, p).Some?
    ensures CidAt(u, p).Of? && (CidAt(u, p).node.Directory? <==> Lookup(u, p).value.Folder?)
  {
    LookupWellFormed(u, p);
    var sub := Lookup(u, p).value;
    assert sub.File? ==> FileDag(sub.dag);
    assert CidAt(u, p) == Of(TreeNode(sub));
  }

  function NewEntry(u: FsTree, p: Path): TreeEntry
    requires p != [] && Lookup(u, p).Some?
  {
    TreeEntry(Front(p), Last(p), Lookup(u, p).value.Folder?, CidAt(u, p), [], LogicalSize(TreeNode(Lookup(u, p).value)))
  }

  /** What reading the entry at `p` changes, spelled out. */
  lemma EnterSpelled(u: FsTree, st: ReadState, p: Path)
    requires u.Folder? && WellFormed(u) && NoRootName(u) && p != [] && Lookup(u, p).Some?
    requires p !in st.entries && KeyOf(Front(p)) in st.entries && p !in st.entries[KeyOf(Front(p))].children
    ensures CidAt(u, p).Of?
    ensures var parent := KeyOf(Front(p));
            var added := st.entries[p := NewEntry(u, p)];
            var listed := st.entries[parent].(children := st.entries[parent].children + [p]);
            Enter(st, CidAt(u, p), parent, Last(p))
            == ReadState(if parent == ROOT && Lookup(u, p).value.Folder? then added else added[parent := listed],
                         st.cidToEntry[CidAt(u, p) := p])
  {
    NodeKind(u, p);
    KeysOfPath(u, p);
    hide Lookup, WellFormed, NoRootName, TreeCid;
  }

  /** What is read later lies below nothing that is read earlier. */
  lemma NothingBelow(u: FsTree, seen: iset<Path>, p: Path, q: Path)
    requires AllBefore(seen, p) && q in seen
    ensures !Extends(q, p) && q != p && (q != [] ==> Front(q) != p)
  {
    BeforeNotExtends(q, p);
  }

  lemma ParentRead(u: FsTree, seen: iset<Path>, st: ReadState, p: Path)
    requires InTree(u, seen) && Read(u, seen, st) && AllBefore(seen, p)
    requires u.Folder? && NoRootName(u) && p != [] && Lookup(u, p).Some? && Front(p) in seen
    ensures p !in st.entries && KeyOf(Front(p)) in st.entries && p !in st.entries[KeyOf(Front(p))].children
  {
    NothingBelow(u, seen, p, Front(p));
    assert p !in seen by { if p in seen { NothingBelow(u, seen, p, p); } }
    KeysOfPath(u, p);
    assert EntryRead(u, seen, Front(p), st.entries[KeyOf(Front(p))]);
  }

  lemma NewEntryRead(u: FsTree, seen: iset<Path>, p: Path)
    requires InTree(u, seen) && AllBefore(seen, p) && p != [] && Lookup(u, p).Some?
    ensures EntryRead(u, seen + iset{p}, p, NewEntry(u, p))
  {
    forall q ensures !ChildSeen(u, seen + iset{p}, p, q) {
      if q in seen {
        NothingBelow(u, seen, p, q);
      }
    }
  }

  lemma AscendingSnoc(ps: seq<Path>, p: Path)
    requires Ascending(ps) && forall q :: q in ps ==> Before(q, p)
    ensures Ascending(ps + [p])
  {
  }

  lemma ParentEntryRead(u: FsTree, seen: iset<Path>, p: Path, e: TreeEntry)
    requires p != [] && Lookup(u, p).Some? && Lookup(u, Front(p)).Some? && p !in seen && AllBefore(seen, p)
    requires EntryRead(u, seen, Front(p), e) && p !in e.children
    ensures Front(p) == [] && Lookup(u, p).value.Folder? ==> EntryRead(u, seen + iset{p}, Front(p), e)
    ensures !(Front(p) == [] && Lookup(u, p).value.Folder?)
        ==> EntryRead(u, seen + iset{p}, Front(p), e.(children := e.children + [p]))
  {
    hide Lookup, TreeCid, Before, Ascending;
    var seen' := seen + iset{p};
    AscendingSnoc(e.children, p);
    forall q ensures ChildSeen(u, seen', Front(p), q)
        <==> ChildSeen(u, seen, Front(p), q) || (q == p && !(Front(p) == [] && Lookup(u, p).value.Folder?)) {
    }
  }

  lemma OtherEntryRead(u: FsTree, seen: iset<Path>, p: Path, r: Path, e: TreeEntry)
    requires p != [] && Lookup(u, r).Some? && r != Front(p) && EntryRead(u, seen, r, e)
    ensures EntryRead(u, seen + iset{p}, r, e)
  {
    hide Lookup, TreeCid;
    forall q ensures ChildSeen(u, seen + iset{p}, r, q) <==> ChildSeen(u, seen, r, q) {
    }
  }

  lemma EntriesStayRead(u: FsTree, seen: iset<Path>, es: Entries, p: Path, es': Entries)
    requires InTree(u, seen) && KeysRead(seen, es) && EntriesRead(u, seen, es)
    requires AllBefore(seen, p) && p != [] && p != ROOT && Lookup(u, p).Some? && p !in seen
    requires Front(p) in seen && ROOT !in seen && p !in es[KeyOf(Front(p))].children
    requires var parent := KeyOf(Front(p));
             var added := es[p := NewEntry(u, p)];
             es' == if parent == ROOT && Lookup(u, p).value.Folder? then added
                    else added[parent := es[parent].(children := es[parent].children + [p])]
    ensures InTree(u, seen + iset{p}) && KeysRead(seen + iset{p}, es') && EntriesRead(u, seen + iset{p}, es')
  {
    hide EntryRead, NewEntry, Lookup, CidAt, Before;
    var seen' := seen + iset{p};
    forall r | r in seen' ensures EntryRead(u, seen', r, es'[KeyOf(r)]) {
      if r == p {
        NewEntryRead(u, seen, p);
      } else if r == Front(p) {
        ParentEntryRead(u, seen, p, es[KeyOf(r)]);
      } else {
        OtherEntryRead(u, seen, p, r, es[KeyOf(r)]);
      }
    }
  }

  lemma NowLastRead(u: FsTree, seen: iset<Path>, p: Path)
    requires InTree(u, seen) && Lookup(u, p).Some? && AllBefore(seen, p)
    ensures InTree(u, seen + iset{p}) && LastRead(u, seen + iset{p}, CidAt(u, p), p)
  {
    hide Lookup, CidAt, Before;
    forall q | q in seen + iset{p} ensures !Before(p, q) {
      if q == p {
        BeforeIrreflexive(p);
      } else {
        BeforeAsymmetric(q, p);
      }
    }
  }

  lemma StillLastRead(u: FsTree, seen: iset<Path>, p: Path, c: Cid, q: Path)
    requires InTree(u, seen) && Lookup(u, p).Some? && CidAt(u, p) != c && LastRead(u, seen, c, q)
    ensures InTree(u, seen + iset{p}) && LastRead(u, seen + iset{p}, c, q)
  {
    hide Lookup, CidAt, Before;
  }

  lemma IndexStaysRead(u: FsTree, seen: iset<Path>, index: map<Cid, Path>, p: Path)
    requires InTree(u, seen) && Lookup(u, p).Some? && IndexRead(u, seen, index) && p != [] && AllBefore(seen, p)
    ensures InTree(u, seen + iset{p}) && IndexRead(u, seen + iset{p}, index[CidAt(u, p) := p])
  {
    hide Lookup, CidAt, Before, LastRead, AllBefore;
    var index' := index[CidAt(u, p) := p];
    NowLastRead(u, seen, p);
    forall c | c in index' ensures exists q :: LastRead(u, seen + iset{p}, c, q) && index'[c] == KeyOf(q) {
      if c != CidAt(u, p) {
        var q :| LastRead(u, seen, c, q) && index[c] == KeyOf(q);
        StillLastRead(u, seen, p, c, q);
      }
    }
  }

  /** Entering a path whose parent was read, before anything after it: exactly that path is added. */
  lemma EnterReads(u: FsTree, seen: iset<Path>, st: ReadState, p: Path)
    requires InTree(u, seen) && Read(u, seen, st) && AllBefore(seen, p)
    requires u.Folder? && WellFormed(u) && NoRootName(u) && p != [] && Lookup(u, p).Some? && Front(p) in seen
    ensures CidAt(u, p).Of? && InTree(u, seen + iset{p})
    ensures Read(u, seen + iset{p}, Enter(st, CidAt(u, p), KeyOf(Front(p)), Last(p)))
  {
    ParentRead(u, seen, st, p);
    EnterSpelled(u, st, p);
    KeysOfPath(u, p);
    RootIsFree(u);
    hide Enter, NoRootName, WellFormed, EntryRead, NewEntry, Lookup, CidAt, AllBefore;
    EntriesStayRead(u, seen, st.entries, p, Enter(st, CidAt(u, p), KeyOf(Front(p)), Last(p)).entries);
    IndexStaysRead(u, seen, st.cidToEntry, p);
  }

  lemma StaysTwinFree(u: FsTree, seen: iset<Path>, st: ReadState, p: Path)
    requires InTree(u, seen) && Read(u, seen, st) && TwinFree(u, seen) && AllBefore(seen, p) && Lookup(u, p).Some?
    requires |p| > 1 ==> CidAt(u, p) !in st.cidToEntry
    ensures InTree(u, seen + iset{p}) && TwinFree(u, seen + iset{p})
  {
    hide Lookup, CidAt, EntryRead, EntriesRead, KeysRead, LastRead, Before;
    BeforeIrreflexive(p);
    forall q, r | q in seen + iset{p} && r in seen + iset{p} && |r| > 1 && Before(q, r) ensures CidAt(u, q) != CidAt(u, r) {
      if q == p {
        BeforeAsymmetric(p, r);
      }
    }
  }

  lemma {:induction false} BeforeAsymmetric(p: Path, q: Path)
    requires Before(p, q)
    ensures !Before(q, p)
  {
    if p != [] && q != [] {
      LessIsStrictOrder(p[0], q[0], "");
      if p[0] == q[0] {
        BeforeAsymmetric(p[1..], q[1..]);
      }
    }
  }

  // ---------------------------------------------------------------- the links of a folder, as paths

  function LinksAt(u: FsTree, p: Path): seq<Link>
    requires Lookup(u, p).Some?
  {
    Links(CidAt(u, p))
  }

  /** Each link of a folder's node leads to a child path, in order of name. */
  lemma LinkLeads(u: FsTree, p: Path, i: nat)
    requires WellFormed(u) && Lookup(u, p).Some? && Lookup(u, p).value.Folder? && i < |LinksAt(u, p)|
    ensures var l := LinksAt(u, p)[i]; Lookup(u, p + [l.name]).Some? && l.cid == CidAt(u, p + [l.name])
  {
    var l := LinksAt(u, p)[i];
    LookupWellFormed(u, p);
    FolderLinks(Lookup(u, p).value, l);
    assert Front(p + [l.name]) == p;
    assert l in TreeNode(Lookup(u, p).value).links;
  }

  lemma LinksInOrder(u: FsTree, p: Path)
    requires WellFormed(u) && Lookup(u, p).Some? && Lookup(u, p).value.Folder?
    ensures StrictlySorted(LinksAt(u, p))
  {
    LookupWellFormed(u, p);
    var kids := Lookup(u, p).value.kids;
    KidLinksDistinct(kids);
    SortSorts(KidLinks(kids));
    assert CidAt(u, p) == Of(TreeNode(Folder(kids)));
  }

  lemma {:induction false} PrefixLookup(u: FsTree, q: Path, n: nat)
    requires Lookup(u, q).Some? && n <= |q|
    ensures Lookup(u, q[..n]).Some?
    decreases |q|
  {
    if n == |q| {
      assert q[..n] == q;
    } else {
      PrefixLookup(u, q[..|q| - 1], n);
      assert q[..|q| - 1][..n] == q[..n];
    }
  }

  /** Whatever lies below a folder lies below one of its links. */
  lemma LeadsThrough(u: FsTree, p: Path, q: Path) returns (i: nat)
    requires WellFormed(u) && Lookup(u, q).Some? && Extends(q, p) && |q| > |p|
    ensures Lookup(u, p).Some? && Lookup(u, p).value.Folder? && i < |LinksAt(u, p)| && LinksAt(u, p)[i].name == q[|p|]
  {
    var n := q[|p|];
    PrefixLookup(u, q, |p| + 1);
    PrefixLookup(u, q, |p|);
    assert q[..|p| + 1] == p + [n] && Front(p + [n]) == p && Last(p + [n]) == n;
    var sub := Lookup(u, p).value;
    LookupWellFormed(u, p);
    var l := Link(n, TreeCid(Child(sub, n).value));
    FolderLinks(sub, l);
    i :| 0 <= i < |TreeNode(sub).links| && TreeNode(sub).links[i] == l;
  }

  /** What has been read once the links of `p` before the i-th are done. */
  ghost function Done(u: FsTree, p: Path, i: nat): iset<Path>
    requires Lookup(u, p).Some? && i <= |LinksAt(u, p)|
  {
    if i < |LinksAt(u, p)| then Upto(u, p + [LinksAt(u, p)[i].name]) else Span(u, p)
  }

  /** A folder's own entry comes right before its first link. */
  lemma DoneFirst(u: FsTree, p: Path)
    requires WellFormed(u) && Lookup(u, p).Some? && Lookup(u, p).value.Folder?
    ensures Upto(u, p) + iset{p} == Done(u, p, 0)
  {
    var ls := LinksAt(u, p);
    LinksInOrder(u, p);
    forall q ensures q in Upto(u, p) + iset{p} <==> q in Done(u, p, 0) {
      DoneMember(u, p, 0, q);
      if Lookup(u, q).Some? && Extends(q, p) {
        if |q| > |p| {
          var k := LeadsThrough(u, p, q);
          BeforeExtends(q, p);
          if |ls| > 0 {
            LessIsStrictOrder(ls[0].name, ls[k].name, "");
          }
        } else {
          assert q[..|p|] == q;
        }
      }
    }
  }

  lemma BeforeExtends(q: Path, p: Path)
    requires Extends(q, p)
    ensures !Before(q, p)
  {
    if Before(q, p) {
      BeforeNotExtends(q, p);
    }
  }

  lemma DoneMember(u: FsTree, p: Path, i: nat, q: Path)
    requires Lookup(u, p).Some? && i <= |LinksAt(u, p)|
    ensures q in Done(u, p, i) <==>
      Lookup(u, q).Some? && (Before(q, p) || q == p ||
        (Extends(q, p) && |q| > |p| && (i < |LinksAt(u, p)| ==> Less(q[|p|], LinksAt(u, p)[i].name))))
  {
    if i < |LinksAt(u, p)| {
      BeforeChild(q, p, LinksAt(u, p)[i].name);
    } else if Extends(q, p) && |q| == |p| {
      assert q[..|p|] == q;
    }
  }

  /** The span of a link's path completes the reading up to the next link. */
  lemma DoneNext(u: FsTree, p: Path, i: nat)
    requires WellFormed(u) && Lookup(u, p).Some? && Lookup(u, p).value.Folder? && i < |LinksAt(u, p)|
    ensures Span(u, p + [LinksAt(u, p)[i].name]) == Done(u, p, i + 1)
  {
    var ls := LinksAt(u, p);
    var x := p + [ls[i].name];
    LinksInOrder(u, p);
    forall q ensures q in Span(u, x) <==> q in Done(u, p, i + 1) {
      DoneMember(u, p, i + 1, q);
      BeforeChild(q, p, ls[i].name);
      if Lookup(u, q).Some? && Extends(q, p) && |q| > |p| {
        var k := LeadsThrough(u, p, q);
        ExtendsChild(q, p, ls[i].name);
        NamesCompare(ls, i, k);
      } else if Extends(q, x) {
        assert q[..|x|][..|p|] == x[..|p|];
      }
    }
  }

  lemma ExtendsChild(q: Path, p: Path, n: string)
    requires Extends(q, p) && |q| > |p|
    ensures Extends(q, p + [n]) <==> q[|p|] == n
  {
    assert q[..|p| + 1] == p + [q[|p|]];
  }

  lemma NamesCompare(ls: seq<Link>, i: nat, k: nat)
    requires StrictlySorted(ls) && i < |ls| && k < |ls|
    ensures Less(ls[k].name, ls[i].name) || ls[k].name == ls[i].name <==> i + 1 < |ls| ==> Less(ls[k].name, ls[i + 1].name)
  {
    LessIsStrictOrder(ls[k].name, ls[i].name, "");
    if i + 1 < |ls| {
      LessIsStrictOrder(ls[k].name, ls[i + 1].name, "");
    }
  }

  // ---------------------------------------------------------------- reading everything

  /** The trees the reader gets to see: a folder whose entries have names, none of them reserved. */
  ghost predicate Readable(u: FsTree) {
    u.Folder? && WellFormed(u) && NoRootName(u) && NamedEntries(u)
  }

  ghost predicate Reached(u: FsTree, seen: iset<Path>, st: ReadState) {
    InTree(u, seen) && Read(u, seen, st) && TwinFree(u, seen)
  }

  /** Nothing has been read that comes after the links of `p` still to be walked. */
  ghost predicate LinksAhead(u: FsTree, seen: iset<Path>, p: Path, i: nat)
    requires Lookup(u, p).Some?
  {
    forall j :: i <= j < |LinksAt(u, p)| ==> AllBefore(seen, p + [LinksAt(u, p)[j].name])
  }

  ghost predicate Grows(seen: iset<Path>, after: iset<Path>, p: Path) {
    seen <= after && forall q :: q in after ==> q in seen || Extends(q, p)
  }

  lemma EnterReached(u: FsTree, seen: iset<Path>, st: ReadState, p: Path)
    requires Readable(u) && Reached(u, seen, st) && AllBefore(seen, p) && p != [] && Lookup(u, p).Some? && Front(p) in seen
    requires |p| > 1 ==> CidAt(u, p) !in st.cidToEntry
    ensures CidAt(u, p).Of? && (CidAt(u, p).node.Directory? <==> Lookup(u, p).value.Folder?)
    ensures EntryKey(KeyOf(Front(p)), Last(p)) == p && p != ROOT
    ensures Reached(u, seen + iset{p}, Enter(st, CidAt(u, p), KeyOf(Front(p)), Last(p)))
  {
    NodeKind(u, p);
    KeysOfPath(u, p);
    EnterReads(u, seen, st, p);
    StaysTwinFree(u, seen, st, p);
  }

  lemma AheadAtFirst(u: FsTree, seen: iset<Path>, p: Path)
    requires Lookup(u, p).Some? && AllBefore(seen, p)
    ensures LinksAhead(u, seen + iset{p}, p, 0)
  {
    forall j, q | 0 <= j < |LinksAt(u, p)| && q in seen + iset{p} ensures Before(q, p + [LinksAt(u, p)[j].name]) {
      BeforeChild(q, p, LinksAt(u, p)[j].name);
    }
  }

  lemma AheadAfterLink(u: FsTree, seen: iset<Path>, after: iset<Path>, p: Path, i: nat)
    requires WellFormed(u) && Lookup(u, p).Some? && Lookup(u, p).value.Folder? && i < |LinksAt(u, p)|
    requires LinksAhead(u, seen, p, i) && Grows(seen, after, p + [LinksAt(u, p)[i].name])
    ensures LinksAhead(u, after, p, i + 1) && Grows(seen, after, p)
  {
    var x := p + [LinksAt(u, p)[i].name];
    LinksInOrder(u, p);
    forall q | q in after ensures q in seen || (Extends(q, p) && |q| > |p| && q[|p|] == LinksAt(u, p)[i].name) {
      if Extends(q, x) {
        assert q[..|x|][..|p|] == x[..|p|] && q[..|x|][|p|] == x[|p|];
      }
    }
    forall j, q | i + 1 <= j < |LinksAt(u, p)| && q in after ensures Before(q, p + [LinksAt(u, p)[j].name]) {
      BeforeChild(q, p, LinksAt(u, p)[j].name);
    }
  }

  /** What a link of a folder leads to, ready to be entered. */
  lemma LinkReady(u: FsTree, p: Path, i: nat, text: Renderer)
    requires Readable(u) && Lookup(u, p).Some? && Lookup(u, p).value.Folder? && i < |LinksAt(u, p)|
    ensures var l := LinksAt(u, p)[i];
            var x := p + [l.name];
            Lookup(u, x).Some? && l.cid == CidAt(u, x) && l.cid.Of? && NameOr(text, l) == l.name && Front(x) == p && Last(x) == l.name
  {
    var x := p + [LinksAt(u, p)[i].name];
    LinkLeads(u, p, i);
    NodeKind(u, x);
    assert Last(x) != "";
  }

  /** An identifier that was met already is a twin of something earlier. */
  lemma SkippedIsTwin(u: FsTree, seen: iset<Path>, st: ReadState, x: Path)
    requires Reached(u, seen, st) && AllBefore(seen, x) && |x| > 1 && Lookup(u, x).Some? && CidAt(u, x) in st.cidToEntry
    ensures !NoEarlierTwin(u)
  {
    hide Lookup, CidAt, EntriesRead, TwinFree;
    var q :| LastRead(u, seen, CidAt(u, x), q);
  }

  /** Walking the node at a path reads that path and, below it, everything but the twins of what was read before. */
  lemma {:induction false} ReadNode(u: FsTree, seen: iset<Path>, st: ReadState, p: Path, text: Renderer) returns (after: iset<Path>)
    requires Readable(u) && Reached(u, seen, st) && AllBefore(seen, p) && p != [] && Lookup(u, p).Some? && Front(p) in seen
    requires |p| > 1 ==> CidAt(u, p) !in st.cidToEntry
    ensures p in after && Grows(seen, after, p)
    ensures CidAt(u, p).Of? && Reached(u, after, WalkNode(st, CidAt(u, p), KeyOf(Front(p)), Last(p), text))
    ensures NoEarlierTwin(u) && seen == Upto(u, p) ==> after == Span(u, p)
    decreases CidAt(u, p), |LinksAt(u, p)| + 1
  {
    hide Readable, Reached, NoEarlierTwin, Upto, Span, Lookup, Before, Enter, Grows, LinksAhead, EntryKey, KeyOf, Last, TreeNode, TreeCid,
      WalkLinks, AllBefore;
    EnterReached(u, seen, st, p);
    var entered := Enter(st, CidAt(u, p), KeyOf(Front(p)), Last(p));
    if CidAt(u, p).node.Directory? {
      IsWellFormed(u);
      AheadAtFirst(u, seen, p);
      DoneFirst(u, p);
      after := ReadLinks(u, seen + iset{p}, entered, p, 0, text);
      GrowsFurther(seen, after, p);
      assert CidAt(u, p).node.links[0..] == CidAt(u, p).node.links;
    } else {
      after := seen + iset{p};
      GrowsFurther(seen, after, p);
      FileSpan(u, p);
    }
  }

  lemma LinkIsSmaller(u: FsTree, p: Path, i: nat)
    requires Lookup(u, p).Some? && i < |LinksAt(u, p)|
    ensures LinksAt(u, p)[i].cid < CidAt(u, p)
  {
    var c := CidAt(u, p);
    assert c.node.links[i].cid < c;
  }

  lemma GrowsFurther(seen: iset<Path>, after: iset<Path>, p: Path)
    ensures Grows(seen + iset{p}, after, p) ==> Grows(seen, after, p) && p in after
    ensures after == seen + iset{p} ==> Grows(seen, after, p) && p in after
  {
    assert Extends(p, p);
  }

  lemma IsWellFormed(u: FsTree)
    requires Readable(u)
    ensures WellFormed(u)
  {
  }

  lemma FileSpan(u: FsTree, p: Path)
    requires Lookup(u, p).Some? && Lookup(u, p).value.File?
    ensures Upto(u, p) + iset{p} == Span(u, p)
  {
    forall q | Lookup(u, q).Some? && Extends(q, p) ensures q == p {
      NothingBelowFile(u, p, q);
      assert |q| == |p| ==> q[..|p|] == q;
    }
  }

  lemma NothingBelowFile(u: FsTree, p: Path, q: Path)
    requires Lookup(u, q).Some? && Extends(q, p)
    ensures |q| > |p| ==> Lookup(u, p).Some? && Lookup(u, p).value.Folder?
  {
    if |q| > |p| {
      PrefixLookup(u, q, |p| + 1);
      assert q[..|p| + 1] == p + [q[|p|]] && Front(p + [q[|p|]]) == p;
    }
  }

  lemma {:induction false} ReadLinks(u: FsTree, seen: iset<Path>, st: ReadState, p: Path, i: nat, text: Renderer)
    returns (after: iset<Path>)
    requires Readable(u) && Reached(u, seen, st) && p in seen && p != [] && p != ROOT
    requires Lookup(u, p).Some? && Lookup(u, p).value.Folder? && i <= |LinksAt(u, p)| && LinksAhead(u, seen, p, i)
    ensures Grows(seen, after, p)
    ensures Reached(u, after, WalkLinks(st, LinksAt(u, p)[i..], p, text))
    ensures NoEarlierTwin(u) && seen == Done(u, p, i) ==> after == Span(u, p)
    decreases CidAt(u, p), |LinksAt(u, p)| - i
  {
    hide Readable, Reached, NoEarlierTwin, Upto, Span, Lookup, Before, NameOr, Last, CidAt, LinksAt;
    after := seen;
    var ls := LinksAt(u, p);
    if i < |ls| {
      var x := p + [ls[i].name];
      LinkReady(u, p, i, text);
      IsWellFormed(u);
      assert ls[i..][0] == ls[i] && ls[i..][1..] == ls[i + 1..];
      if ls[i].cid in st.cidToEntry {
        SkippedIsTwin(u, seen, st, x);
        after := ReadLinks(u, seen, st, p, i + 1, text);
      } else {
        LinkIsSmaller(u, p, i);
        after := ReadNode(u, seen, st, x, text);
        AheadAfterLink(u, seen, after, p, i);
        DoneNext(u, p, i);
        after := ReadLinks(u, after, WalkNode(st, ls[i].cid, p, ls[i].name, text), p, i + 1, text);
      }
    }
  }

  lemma {:induction false} ReadRootLinks(u: FsTree, seen: iset<Path>, st: ReadState, i: nat, text: Renderer) returns (after: iset<Path>)
    requires Readable(u) && Reached(u, seen, st) && [] in seen && i <= |LinksAt(u, [])| && LinksAhead(u, seen, [], i)
    ensures Reached(u, after, WalkRootLinks(st, LinksAt(u, [])[i..], text))
    ensures NoEarlierTwin(u) && seen == Done(u, [], i) ==> after == Span(u, [])
    decreases |LinksAt(u, [])| - i
  {
    hide Reached, NoEarlierTwin, Upto, Span, Lookup, Before, NameOr, Last, CidAt, LinksAt, WellFormed, NoRootName, NamedEntries;
    RootLookup(u);
    after := seen;
    var ls := LinksAt(u, []);
    if i < |ls| {
      var x := [] + [ls[i].name];
      LinkReady(u, [], i, text);
      assert ls[i..][0] == ls[i] && ls[i..][1..] == ls[i + 1..];
      after := ReadNode(u, seen, st, x, text);
      AheadAfterLink(u, seen, after, [], i);
      DoneNext(u, [], i);
      after := ReadRootLinks(u, after, WalkNode(st, ls[i].cid, ROOT, ls[i].name, text), i + 1, text);
    }
  }

  lemma RootLookup(u: FsTree)
    ensures Lookup(u, []) == Some(u)
  {
  }

  lemma StartReached(u: FsTree)
    requires Readable(u)
    ensures Reached(u, iset{[]}, ReadState(map[ROOT := ReadRootEntry(TreeCid(u), [])], map[TreeCid(u) := ROOT]))
    ensures LinksAhead(u, iset{[]}, [], 0) && Done(u, [], 0) == iset{[]}
  {
    var seen := iset{[]};
    RootLookup(u);
    forall q ensures !ChildSeen(u, seen, [], q) {
    }
    assert LastRead(u, seen, TreeCid(u), []);
    assert Upto(u, []) == iset{};
    DoneFirst(u, []);
    AheadAtFirst(u, iset{}, []);
    assert iset{} + iset{[]} == seen;
  }

  /** Reading a tree back: a set of its paths, and all of them unless a nested entry repeats an earlier one. */
  lemma TreeIsRead(u: FsTree, text: Renderer) returns (after: iset<Path>)
    requires Readable(u)
    ensures Reached(u, after, ReadTree(TreeCid(u), text))
    ensures NoEarlierTwin(u) ==> forall p :: Lookup(u, p).Some? ==> p in after
  {
    RootLookup(u);
    NodeKind(u, []);
    StartReached(u);
    hide Reached, NoEarlierTwin, Readable, LinksAhead, Done;
    after := ReadRootLinks(u, iset{[]}, ReadState(map[ROOT := ReadRootEntry(TreeCid(u), [])], map[TreeCid(u) := ROOT]), 0, text);
    assert LinksAt(u, []) == TreeNode(u).links && LinksAt(u, [])[0..] == LinksAt(u, []);
    forall p | Lookup(u, p).Some? ensures p in Span(u, []) {
      assert p[..0] == [];
    }
  }
}
