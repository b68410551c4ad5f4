/** Which identifiers the reader indexes: those of the tree's entries, passed over or not. */
module ReadBackIndex {
  import opened Dag
  import opened FsTrees
  import opened TreeSummaries
  import opened ReadBack
  import opened ReadBackSteps

  ghost predicate AllIn(ls: seq<Link>, keys: set<Cid>) {
    forall i :: 0 <= i < |ls| && ls[i].cid.Of? ==> ls[i].cid in keys
  }

  /** Whatever a directory links to is indexed. */
  ghost predicate LinksIndexed(c: Cid, keys: set<Cid>) {
    c.Of? && c.node.Directory? ==> AllIn(c.node.links, keys)
  }

  /** The index only grew, and what was added is settled: its links are indexed too. */
  ghost predicate Settled(before: set<Cid>, after: set<Cid>) {
    before <= after && forall c :: c in after && c !in before ==> LinksIndexed(c, after)
  }

  lemma SettledTwice(a: set<Cid>, b: set<Cid>, c: set<Cid>)
    requires Settled(a, b) && Settled(b, c)
    ensures Settled(a, c)
  {
    forall x | x in c && x !in a ensures LinksIndexed(x, c) {
      assert x in b ==> LinksIndexed(x, b);
    }
  }

  lemma SettledHead(before: set<Cid>, x: Cid, after: set<Cid>)
    requires Settled(before + {x}, after) && LinksIndexed(x, after)
    ensures Settled(before, after)
  {
  }

  lemma EnterAdds(st: ReadState, c: Cid, parent: Path, name: string)
    requires c.Of?
    ensures Enter(st, c, parent, name).cidToEntry.Keys == st.cidToEntry.Keys + {c}
  {
  }

  lemma {:induction false} NodeSettles(st: ReadState, c: Cid, parent: Path, name: string, text: Renderer)
    requires c.Of?
    ensures var after := WalkNode(st, c, parent, name, text).cidToEntry.Keys;
            Settled(st.cidToEntry.Keys, after) && c in after && LinksIndexed(c, after)
    decreases c
  {
    hide Enter, EntryKey, Settled, AllIn;
    EnterAdds(st, c, parent, name);
    var entered := Enter(st, c, parent, name);
    var after := WalkNode(st, c, parent, name, text).cidToEntry.Keys;
    if c.node.Directory? {
      LinksSettle(entered, c.node.links, EntryKey(parent, name), text);
    } else {
      SettledSame(after);
    }
    SettledGrows(entered.cidToEntry.Keys, after);
    SettledHead(st.cidToEntry.Keys, c, after);
  }

  lemma SettledSame(keys: set<Cid>)
    ensures Settled(keys, keys)
  {
  }

  lemma SettledGrows(before: set<Cid>, after: set<Cid>)
    requires Settled(before, after)
    ensures before <= after
  {
  }

  lemma AllInStays(ls: seq<Link>, before: set<Cid>, after: set<Cid>)
    requires ls != [] && (ls[0].cid.Of? ==> ls[0].cid in before) && before <= after && AllIn(ls[1..], after)
    ensures AllIn(ls, after)
  {
    forall i | 0 <= i < |ls| && ls[i].cid.Of? ensures ls[i].cid in after {
      assert i > 0 ==> ls[1..][i - 1] == ls[i];
    }
  }

  lemma {:induction false} LinksSettle(st: ReadState, ls: seq<Link>, key: Path, text: Renderer)
    ensures var after := WalkLinks(st, ls, key, text).cidToEntry.Keys; Settled(st.cidToEntry.Keys, after) && AllIn(ls, after)
    decreases ls
  {
    hide Settled, WalkNode, NameOr;
    if ls == [] {
      SettledSame(st.cidToEntry.Keys);
    } else {
      var next := st;
      if ls[0].cid == Undef || ls[0].cid in st.cidToEntry {
        SettledSame(st.cidToEntry.Keys);
      } else {
        next := WalkNode(st, ls[0].cid, key, NameOr(text, ls[0]), text);
        NodeSettles(st, ls[0].cid, key, NameOr(text, ls[0]), text);
      }
      LinksSettle(next, ls[1..], key, text);
      var after := WalkLinks(next, ls[1..], key, text).cidToEntry.Keys;
      SettledGrows(next.cidToEntry.Keys, after);
      SettledTwice(st.cidToEntry.Keys, next.cidToEntry.Keys, after);
      AllInStays(ls, next.cidToEntry.Keys, after);
    }
  }

  lemma {:induction false} RootLinksSettle(st: ReadState, ls: seq<Link>, text: Renderer)
    ensures var after := WalkRootLinks(st, ls, text).cidToEntry.Keys; Settled(st.cidToEntry.Keys, after) && AllIn(ls, after)
    decreases ls
  {
    hide Settled, WalkNode, NameOr;
    if ls == [] {
      SettledSame(st.cidToEntry.Keys);
    } else {
      var next := st;
      if ls[0].cid == Undef {
        SettledSame(st.cidToEntry.Keys);
      } else {
        next := WalkNode(st, ls[0].cid, ROOT, NameOr(text, ls[0]), text);
        NodeSettles(st, ls[0].cid, ROOT, NameOr(text, ls[0]), text);
      }
      RootLinksSettle(next, ls[1..], text);
      var after := WalkRootLinks(next, ls[1..], text).cidToEntry.Keys;
      SettledGrows(next.cidToEntry.Keys, after);
      SettledTwice(st.cidToEntry.Keys, next.cidToEntry.Keys, after);
      AllInStays(ls, next.cidToEntry.Keys, after);
    }
  }

  /** The index read from a directory is closed under the links of directories, and has the root. */
  lemma ReadSettles(root: Cid, text: Renderer)
    requires root.Of? && root.node.Directory?
    ensures var keys := ReadTree(root, text).cidToEntry.Keys; root in keys && forall c :: c in keys ==> LinksIndexed(c, keys)
  {
    hide AllIn, WalkRootLinks;
    RootLinksSettle(ReadState(map[ROOT := ReadRootEntry(root, [])], map[root := ROOT]), root.node.links, text);
  }

  lemma ChildIndexed(t: FsTree, n: string, keys: set<Cid>)
    requires WellFormed(t) && t.Folder? && Child(t, n).Some? && LinksIndexed(TreeCid(t), keys)
    ensures TreeCid(Child(t, n).value) in keys
  {
    var l := Link(n, TreeCid(Child(t, n).value));
    FolderLinks(t, l);
    assert TreeCid(t) == Of(TreeNode(t));
    var i :| 0 <= i < |TreeNode(t).links| && TreeNode(t).links[i] == l;
    assert l.cid.Of?;
  }

  lemma {:induction false} PathIndexed(u: FsTree, keys: set<Cid>, p: Path)
    requires WellFormed(u) && Lookup(u, p).Some? && TreeCid(u) in keys && forall c :: c in keys ==> LinksIndexed(c, keys)
    ensures CidAt(u, p) in keys
    decreases |p|
  {
    if p != [] {
      hide LinksIndexed, TreeCid, WellFormed;
      PathIndexed(u, keys, Front(p));
      LookupWellFormed(u, Front(p));
      ChildIndexed(Lookup(u, Front(p)).value, Last(p), keys);
    }
  }

  /** Some entry of the tree has the identifier. */
  ghost predicate IsEntryCid(u: FsTree, c: Cid) {
    exists p :: Lookup(u, p).Some? && CidAt(u, p) == c
  }

  /** Reading a tree indexes exactly the identifiers of its entries, those of passed-over twins and what lies below them included. */
  lemma ReadIndexExactly(u: FsTree, text: Renderer, c: Cid)
    requires Readable(u)
    ensures TreeCid(u).Of?
    ensures c in ReadTree(TreeCid(u), text).cidToEntry <==> IsEntryCid(u, c)
  {
    RootOfFolder(u);
    ReadSettles(TreeCid(u), text);
    var index := ReadTree(TreeCid(u), text).cidToEntry;
    hide Lookup, CidAt, ReadTree, KeysRead, EntriesRead, TwinFree, LinksIndexed, TreeCid, WellFormed;
    if IsEntryCid(u, c) {
      var p :| Lookup(u, p).Some? && CidAt(u, p) == c;
      PathIndexed(u, index.Keys, p);
    } else {
      hide Readable;
      var seen := TreeIsRead(u, text);
      assert InTree(u, seen) && IndexRead(u, seen, index);
    }
  }

  /** An indexed identifier leads to an entry that has it: the last one read. */
  lemma ReadIndexLeads(u: FsTree, text: Renderer, c: Cid) returns (p: Path)
    requires Readable(u) && TreeCid(u).Of? && c in ReadTree(TreeCid(u), text).cidToEntry
    ensures var read := ReadTree(TreeCid(u), text); read.cidToEntry[c] == KeyOf(p) && KeyOf(p) in read.entries
    ensures Lookup(u, p).Some? && CidAt(u, p) == c
    ensures forall q :: Lookup(u, q).Some? && KeyOf(q) in ReadTree(TreeCid(u), text).entries && CidAt(u, q) == c ==> !Before(p, q)
  {
    hide Lookup, CidAt, ReadTree, EntriesRead, TwinFree, TreeCid, Before, WellFormed, NoRootName;
    var seen := TreeIsRead(u, text);
    var index := ReadTree(TreeCid(u), text).cidToEntry;
    RootIsFree(u);
    assert InTree(u, seen) && IndexRead(u, seen, index);
    p :| LastRead(u, seen, c, p) && index[c] == KeyOf(p);
  }

  lemma RootOfFolder(u: FsTree)
    requires Readable(u)
    ensures WellFormed(u) && TreeCid(u).Of? && TreeCid(u).node.Directory?
  {
  }
}
