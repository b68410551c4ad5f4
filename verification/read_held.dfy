/** Which blocks reading a tree needs: exactly those of its entries, whatever else of the archive is missing. */
module ReadHeld {
  import opened Dag
  import opened FsTrees
  import opened TreeSummaries
  import opened ReadBack
  import opened ReadBackSteps
  import opened ReadBackIndex
  import opened Reconstructor

  lemma {:induction false} NodeNeeds(held: set<Cid>, st: ReadState, c: Cid, parent: Path, name: string, text: Renderer)
    requires c.Of? && st.cidToEntry.Keys <= held
    ensures st.cidToEntry.Keys + {c} <= WalkNode(st, c, parent, name, text).cidToEntry.Keys
    ensures NodeHeld(held, st, c, parent, name, text) <==> WalkNode(st, c, parent, name, text).cidToEntry.Keys <= held
    decreases c
  {
    hide Enter, EntryKey;
    EnterAdds(st, c, parent, name);
    var entered := Enter(st, c, parent, name);
    if c.node.Directory? {
      LinksGrow(entered, c.node.links, EntryKey(parent, name), text);
      if c in held {
        LinksNeed(held, entered, c.node.links, EntryKey(parent, name), text);
      }
    }
  }

  lemma LinksGrow(st: ReadState, ls: seq<Link>, key: Path, text: Renderer)
    ensures st.cidToEntry.Keys <= WalkLinks(st, ls, key, text).cidToEntry.Keys
  {
    hide WalkLinks;
    LinksSettle(st, ls, key, text);
    SettledGrows(st.cidToEntry.Keys, WalkLinks(st, ls, key, text).cidToEntry.Keys);
  }

  lemma {:induction false} LinksNeed(held: set<Cid>, st: ReadState, ls: seq<Link>, key: Path, text: Renderer)
    requires st.cidToEntry.Keys <= held
    ensures LinksHeld(held, st, ls, key, text) <==> WalkLinks(st, ls, key, text).cidToEntry.Keys <= held
    decreases ls
  {
    hide NodeHeld, WalkNode, NameOr;
    if ls == [] {
    } else if ls[0].cid == Undef || ls[0].cid in st.cidToEntry {
      LinksNeed(held, st, ls[1..], key, text);
    } else {
      var next := WalkNode(st, ls[0].cid, key, NameOr(text, ls[0]), text);
      NodeNeeds(held, st, ls[0].cid, key, NameOr(text, ls[0]), text);
      LinksGrow(next, ls[1..], key, text);
      if next.cidToEntry.Keys <= held {
        LinksNeed(held, next, ls[1..], key, text);
      }
    }
  }

  lemma RootLinksGrow(st: ReadState, ls: seq<Link>, text: Renderer)
    ensures st.cidToEntry.Keys <= WalkRootLinks(st, ls, text).cidToEntry.Keys
  {
    hide WalkRootLinks;
    RootLinksSettle(st, ls, text);
    SettledGrows(st.cidToEntry.Keys, WalkRootLinks(st, ls, text).cidToEntry.Keys);
  }

  lemma {:induction false} RootLinksNeed(held: set<Cid>, st: ReadState, ls: seq<Link>, text: Renderer)
    requires st.cidToEntry.Keys <= held
    ensures RootLinksHeld(held, st, ls, text) <==> WalkRootLinks(st, ls, text).cidToEntry.Keys <= held
    decreases ls
  {
    hide NodeHeld, WalkNode, NameOr;
    if ls == [] {
    } else if ls[0].cid == Undef {
      RootLinksNeed(held, st, ls[1..], text);
    } else {
      var next := WalkNode(st, ls[0].cid, ROOT, NameOr(text, ls[0]), text);
      NodeNeeds(held, st, ls[0].cid, ROOT, NameOr(text, ls[0]), text);
      RootLinksGrow(next, ls[1..], text);
      if next.cidToEntry.Keys <= held {
        RootLinksNeed(held, next, ls[1..], text);
      }
    }
  }

  /** Any DAG can be read if and only if every identifier the reader indexes has its block. */
  lemma TreeHeldExactly(held: set<Cid>, root: Cid, text: Renderer)
    requires root.Of?
    ensures TreeHeld(held, root, text) <==> ReadTree(root, text).cidToEntry.Keys <= held
  {
    hide WalkRootLinks, RootLinksHeld;
    ReadTreeSpelled(root, text);
    if root.node.Directory? {
      RootLinksGrow(RootState(root), root.node.links, text);
      if root in held {
        RootLinksNeed(held, RootState(root), root.node.links, text);
      }
    }
  }

  /** A file tree can be read if and only if the block of every entry is there; the chunks of its files need not be. */
  lemma EntriesSuffice(held: set<Cid>, u: FsTree, text: Renderer)
    requires Readable(u)
    ensures TreeHeld(held, TreeCid(u), text) <==> forall p :: Lookup(u, p).Some? ==> CidAt(u, p) in held
  {
    RootOfFolder(u);
    hide Readable, TreeHeld, ReadTree, Lookup, CidAt, TreeCid, WellFormed;
    TreeHeldExactly(held, TreeCid(u), text);
    forall c ensures c in ReadTree(TreeCid(u), text).cidToEntry <==> IsEntryCid(u, c) {
      ReadIndexExactly(u, text, c);
    }
  }
}
