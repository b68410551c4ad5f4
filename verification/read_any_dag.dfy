/** What reconstructTree does with any DAG whatever, whether or not it is the DAG of a file tree. */
module ReadAnyDag {
  import opened Dag
  import opened FsTrees
  import opened TreeSummaries
  import opened ReadBack

  /** No entry is lost or renamed, and lists only grow at their end. */
  ghost predicate Keeps(before: Entries, after: Entries) {
    forall k :: k in before ==>
      && k in after
      && after[k].path == before[k].path && after[k].name == before[k].name && after[k].isDir == before[k].isDir
      && before[k].children <= after[k].children
  }

  /** An entry's name is the last component of its key, and its path the rest. */
  ghost predicate Placed(es: Entries) {
    forall k :: k in es ==> k != [] && es[k].name == Last(k) && es[k].path == Front(k)
  }

  lemma KeepsTwice(a: Entries, b: Entries, c: Entries)
    requires Keeps(a, b) && Keeps(b, c)
    ensures Keeps(a, c)
  {
  }

  lemma KeepsItself(es: Entries)
    ensures Keeps(es, es)
  {
  }

  lemma KeepsKey(before: Entries, after: Entries, k: Path)
    requires Keeps(before, after) && k in before
    ensures k in after && before[k].children <= after[k].children
  {
  }

  lemma AddChildLeaves(es: Entries, parent: Path, key: Path, k: Path)
    requires k in es
    ensures k in AddChild(es, parent, key)
    ensures AddChild(es, parent, key)[k].cid == es[k].cid && AddChild(es, parent, key)[k].logicalSize == es[k].logicalSize
  {
  }

  lemma AddChildKeeps(es: Entries, parent: Path, key: Path)
    ensures Keeps(es, AddChild(es, parent, key)) && (Placed(es) ==> Placed(AddChild(es, parent, key)))
    ensures parent in es ==> key in AddChild(es, parent, key)[parent].children
    ensures key in es ==> key in AddChild(es, parent, key)
  {
  }

  /** Entering a node keeps every entry, makes its own, and lists it under its parent unless it is a directory under the virtual root. */
  lemma EnterKeeps(st: ReadState, c: Cid, parent: Path, name: string)
    requires c.Of?
    ensures var es, key := Enter(st, c, parent, name).entries, EntryKey(parent, name);
            && Keeps(st.entries, es) && key in es && (Placed(st.entries) ==> Placed(es))
            && (parent in st.entries && !(parent == ROOT && c.node.Directory?) ==> parent in es && key in es[parent].children)
  {
    hide AddChild;
    var key := EntryKey(parent, name);
    var isDir := c.node.Directory?;
    var entry := if key in st.entries then st.entries[key]
                 else TreeEntry(if parent == ROOT then [] else parent, name, isDir, c, [], 0);
    var fileSize := if LogicalSize(c.node) > 0 then LogicalSize(c.node) else entry.logicalSize;
    var es := st.entries[key := entry.(cid := c, logicalSize := fileSize)];
    assert key[..|key| - 1] == if parent == ROOT then [] else parent;
    assert Keeps(st.entries, es) && (Placed(st.entries) ==> Placed(es));
    AddChildKeeps(es, parent, key);
    KeepsTwice(st.entries, es, AddChild(es, parent, key));
  }

  /** The entry has the node's identifier and declared size; met again, it keeps its size where the node declares none. */
  lemma EnteredSize(st: ReadState, c: Cid, parent: Path, name: string)
    requires c.Of?
    ensures var es, key := Enter(st, c, parent, name).entries, EntryKey(parent, name);
            && key in es && es[key].cid == c
            && es[key].logicalSize == if c.node.FileNode? && c.node.fileSize > 0 then c.node.fileSize
                                      else if key in st.entries then st.entries[key].logicalSize else 0
  {
    hide AddChild;
    var key := EntryKey(parent, name);
    var entry := if key in st.entries then st.entries[key]
                 else TreeEntry(if parent == ROOT then [] else parent, name, c.node.Directory?, c, [], 0);
    var fileSize := if LogicalSize(c.node) > 0 then LogicalSize(c.node) else entry.logicalSize;
    AddChildLeaves(st.entries[key := entry.(cid := c, logicalSize := fileSize)], parent, key, key);
  }

  lemma {:induction false} NodeKeeps(st: ReadState, c: Cid, parent: Path, name: string, text: Renderer)
    requires c.Of?
    ensures var es, key := WalkNode(st, c, parent, name, text).entries, EntryKey(parent, name);
            && Keeps(st.entries, es) && key in es && (Placed(st.entries) ==> Placed(es))
            && (parent in st.entries && !(parent == ROOT && c.node.Directory?) ==> parent in es && key in es[parent].children)
    decreases c
  {
    hide Enter, EntryKey, Keeps, Placed, NameOr;
    EnterKeeps(st, c, parent, name);
    var entered := Enter(st, c, parent, name);
    if c.node.Directory? {
      var key := EntryKey(parent, name);
      LinksKeep(entered, c.node.links, key, text);
      KeepsTwice(st.entries, entered.entries, WalkLinks(entered, c.node.links, key, text).entries);
      KeepsKey(entered.entries, WalkLinks(entered, c.node.links, key, text).entries, key);
      if parent in entered.entries {
        KeepsKey(entered.entries, WalkLinks(entered, c.node.links, key, text).entries, parent);
      }
    }
  }

  lemma {:induction false} LinksKeep(st: ReadState, ls: seq<Link>, key: Path, text: Renderer)
    ensures Keeps(st.entries, WalkLinks(st, ls, key, text).entries)
    ensures Placed(st.entries) ==> Placed(WalkLinks(st, ls, key, text).entries)
    decreases ls
  {
    hide Keeps, Placed, WalkNode, NameOr;
    if ls == [] {
      KeepsItself(st.entries);
    } else if ls[0].cid == Undef || ls[0].cid in st.cidToEntry {
      LinksKeep(st, ls[1..], key, text);
    } else {
      var next := WalkNode(st, ls[0].cid, key, NameOr(text, ls[0]), text);
      NodeKeeps(st, ls[0].cid, key, NameOr(text, ls[0]), text);
      LinksKeep(next, ls[1..], key, text);
      KeepsTwice(st.entries, next.entries, WalkLinks(next, ls[1..], key, text).entries);
    }
  }

  /** The key under which a root link is read: its name, or the text of its identifier when it has none. */
  function RootKey(text: Renderer, l: Link): Path {
    [if l.name != "" then l.name else text(l.cid)]
  }

  ghost predicate LinkRead(es: Entries, l: Link, key: Path) {
    ROOT in es && key in es && (l.cid.Of? && l.cid.node.FileNode? ==> key in es[ROOT].children)
  }

  lemma StaysRead(before: Entries, after: Entries, l: Link, key: Path)
    requires Keeps(before, after) && LinkRead(before, l, key)
    ensures LinkRead(after, l, key)
  {
  }

  lemma FirstLinkRead(st: ReadState, l: Link, text: Renderer)
    requires l.cid.Of? && ROOT in st.entries
    ensures var es := WalkNode(st, l.cid, ROOT, NameOr(text, l), text).entries;
            Keeps(st.entries, es) && LinkRead(es, l, RootKey(text, l)) && (Placed(st.entries) ==> Placed(es))
  {
    NodeKeeps(st, l.cid, ROOT, NameOr(text, l), text);
    hide WalkNode, Placed;
    assert EntryKey(ROOT, NameOr(text, l)) == RootKey(text, l);
  }

  lemma {:induction false} RootLinksKeep(st: ReadState, ls: seq<Link>, text: Renderer)
    requires ROOT in st.entries
    ensures var es := WalkRootLinks(st, ls, text).entries;
            && Keeps(st.entries, es) && (Placed(st.entries) ==> Placed(es))
            && forall i :: 0 <= i < |ls| && ls[i].cid.Of? ==> LinkRead(es, ls[i], RootKey(text, ls[i]))
    decreases ls
  {
    hide Keeps, Placed, WalkNode, NameOr, RootKey, LinkRead;
    if ls == [] {
      KeepsItself(st.entries);
    } else if ls[0].cid == Undef {
      RootLinksKeep(st, ls[1..], text);
      forall i | 0 <= i < |ls| && ls[i].cid.Of? ensures LinkRead(WalkRootLinks(st, ls, text).entries, ls[i], RootKey(text, ls[i])) {
        assert ls[i] == ls[1..][i - 1];
      }
    } else {
      var next := WalkNode(st, ls[0].cid, ROOT, NameOr(text, ls[0]), text);
      FirstLinkRead(st, ls[0], text);
      KeepsKey(st.entries, next.entries, ROOT);
      RootLinksKeep(next, ls[1..], text);
      var es := WalkRootLinks(next, ls[1..], text).entries;
      KeepsTwice(st.entries, next.entries, es);
      StaysRead(next.entries, es, ls[0], RootKey(text, ls[0]));
      forall i | 0 <= i < |ls| && ls[i].cid.Of? ensures LinkRead(es, ls[i], RootKey(text, ls[i])) {
        assert i > 0 ==> ls[i] == ls[1..][i - 1];
      }
    }
  }

  /**
   * Of any directory, every defined link of the root has an entry under its name or its identifier's text, listed by the
   * virtual root if it is a file; and every entry is named and placed by its key.
   */
  lemma AnyDirectoryIsRead(root: Cid, text: Renderer)
    requires root.Of? && root.node.Directory?
    ensures var es := ReadTree(root, text).entries;
            && Placed(es)
            && forall i :: 0 <= i < |root.node.links| && root.node.links[i].cid.Of? ==>
                 var l := root.node.links[i]; LinkRead(es, l, [if l.name != "" then l.name else text(l.cid)])
  {
    hide WalkRootLinks, LinkRead;
    var start := map[ROOT := ReadRootEntry(root, [])];
    assert Front(ROOT) == [];
    RootLinksKeep(ReadState(start, map[root := ROOT]), root.node.links, text);
  }
}
