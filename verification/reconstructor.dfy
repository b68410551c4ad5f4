/** car/car_reconstructor.go: the summary of a CAR, rebuilt in place from the nodes its blocks provide. */
module Reconstructor {
  import opened Base
  import opened Dag
  import opened FsTrees
  import opened Bfs
  import opened TreeSummaries
  import opened BuilderSteps
  import opened BuilderWalk
  import opened CarEncoding
  import opened CarNodes
  import opened Collect
  import opened Builder
  import opened ReadBack

  // ---------------------------------------------------------------- which blocks the tree walk needs

  /** Every block WalkNode asks for is there. */
  ghost predicate NodeHeld(held: set<Cid>, st: ReadState, c: Cid, parent: Path, name: string, text: Renderer)
    requires c.Of?
    decreases c
  {
    c in held
    && (c.node.Directory? ==> LinksHeld(held, Enter(st, c, parent, name), c.node.links, EntryKey(parent, name), text))
  }

  ghost predicate LinksHeld(held: set<Cid>, st: ReadState, ls: seq<Link>, key: Path, text: Renderer)
    decreases ls
  {
    if ls == [] then true
    else if ls[0].cid == Undef || ls[0].cid in st.cidToEntry then LinksHeld(held, st, ls[1..], key, text)
    else
      && NodeHeld(held, st, ls[0].cid, key, NameOr(text, ls[0]), text)
      && LinksHeld(held, WalkNode(st, ls[0].cid, key, NameOr(text, ls[0]), text), ls[1..], key, text)
  }

  ghost predicate RootLinksHeld(held: set<Cid>, st: ReadState, ls: seq<Link>, text: Renderer)
    decreases ls
  {
    if ls == [] then true
    else if ls[0].cid == Undef then RootLinksHeld(held, st, ls[1..], text)
    else
      && NodeHeld(held, st, ls[0].cid, ROOT, NameOr(text, ls[0]), text)
      && RootLinksHeld(held, WalkNode(st, ls[0].cid, ROOT, NameOr(text, ls[0]), text), ls[1..], text)
  }

  function RootState(root: Cid): ReadState {
    ReadState(map[ROOT := ReadRootEntry(root, [])], map[root := ROOT])
  }

  /** The tree can be read: the root's block and every block the walk from it asks for are there. */
  ghost predicate TreeHeld(held: set<Cid>, root: Cid, text: Renderer) {
    root.Of? && root in held && (root.node.Directory? ==> RootLinksHeld(held, RootState(root), root.node.links, text))
  }

  /** Something below `c` is not there. */
  ghost predicate Missing(held: set<Cid>, c: Cid) {
    exists x :: x in Reach(c) && x.Of? && x !in held
  }

  lemma MissingThroughLink(held: set<Cid>, ls: seq<Link>, i: nat)
    requires i < |ls| && Missing(held, ls[i].cid)
    ensures exists x :: x in ReachLinks(ls) && x.Of? && x !in held
  {
    var x :| x in Reach(ls[i].cid) && x.Of? && x !in held;
    ReachOfLink(ls, i);
  }

  ghost predicate LinksMissing(held: set<Cid>, ls: seq<Link>) {
    exists x :: x in ReachLinks(ls) && x.Of? && x !in held
  }

  lemma MissingBelow(held: set<Cid>, c: Cid)
    requires c.Of?
    ensures c !in held || LinksMissing(held, c.node.links) ==> Missing(held, c)
  {
    assert c in Reach(c);
    if LinksMissing(held, c.node.links) {
      var x :| x in ReachLinks(c.node.links) && x.Of? && x !in held;
      assert x in Reach(c);
    }
  }

  lemma MissingLater(held: set<Cid>, ls: seq<Link>)
    requires ls != []
    ensures Missing(held, ls[0].cid) || LinksMissing(held, ls[1..]) ==> LinksMissing(held, ls)
  {
    if Missing(held, ls[0].cid) {
      MissingThroughLink(held, ls, 0);
    } else if LinksMissing(held, ls[1..]) {
      var x :| x in ReachLinks(ls[1..]) && x.Of? && x !in held;
      assert x in ReachLinks(ls);
    }
  }

  lemma {:induction false} UnheldNode(held: set<Cid>, st: ReadState, c: Cid, parent: Path, name: string, text: Renderer)
    requires c.Of? && !NodeHeld(held, st, c, parent, name, text)
    ensures Missing(held, c)
    decreases c
  {
    hide Missing, LinksMissing, Enter, EntryKey, LinksHeld;
    MissingBelow(held, c);
    if c in held {
      UnheldLinks(held, Enter(st, c, parent, name), c.node.links, EntryKey(parent, name), text);
    }
  }

  lemma {:induction false} UnheldLinks(held: set<Cid>, st: ReadState, ls: seq<Link>, key: Path, text: Renderer)
    requires !LinksHeld(held, st, ls, key, text)
    ensures LinksMissing(held, ls)
    decreases ls
  {
    hide Missing, LinksMissing, NodeHeld, WalkNode, NameOr;
    MissingLater(held, ls);
    if ls[0].cid == Undef || ls[0].cid in st.cidToEntry {
      UnheldLinks(held, st, ls[1..], key, text);
    } else if !NodeHeld(held, st, ls[0].cid, key, NameOr(text, ls[0]), text) {
      UnheldNode(held, st, ls[0].cid, key, NameOr(text, ls[0]), text);
    } else {
      UnheldLinks(held, WalkNode(st, ls[0].cid, key, NameOr(text, ls[0]), text), ls[1..], key, text);
    }
  }

  lemma {:induction false} UnheldRootLinks(held: set<Cid>, st: ReadState, ls: seq<Link>, text: Renderer)
    requires !RootLinksHeld(held, st, ls, text)
    ensures LinksMissing(held, ls)
    decreases ls
  {
    hide Missing, LinksMissing, NodeHeld, WalkNode, NameOr;
    MissingLater(held, ls);
    if ls[0].cid == Undef {
      UnheldRootLinks(held, st, ls[1..], text);
    } else if !NodeHeld(held, st, ls[0].cid, ROOT, NameOr(text, ls[0]), text) {
      UnheldNode(held, st, ls[0].cid, ROOT, NameOr(text, ls[0]), text);
    } else {
      UnheldRootLinks(held, WalkNode(st, ls[0].cid, ROOT, NameOr(text, ls[0]), text), ls[1..], text);
    }
  }

  /** The blocks reading a tree asks for first: the root's, and those its links lead to. */
  ghost predicate TopHeld(held: set<Cid>, root: Cid) {
    && root.Of? && root in held
    && (root.node.Directory? ==> LinkedHeld(held, root.node.links))
  }

  ghost predicate LinkedHeld(held: set<Cid>, ls: seq<Link>) {
    forall i :: 0 <= i < |ls| && ls[i].cid.Of? ==> ls[i].cid in held
  }

  lemma {:induction false} HeldRootLinks(held: set<Cid>, st: ReadState, ls: seq<Link>, text: Renderer)
    requires RootLinksHeld(held, st, ls, text)
    ensures LinkedHeld(held, ls)
    decreases ls
  {
    hide WalkNode, NameOr;
    if ls != [] {
      if ls[0].cid == Undef {
        HeldRootLinks(held, st, ls[1..], text);
      } else {
        HeldRootLinks(held, WalkNode(st, ls[0].cid, ROOT, NameOr(text, ls[0]), text), ls[1..], text);
      }
      forall i | 0 <= i < |ls| && ls[i].cid.Of? ensures ls[i].cid in held {
        assert i > 0 ==> ls[1..][i - 1] == ls[i];
      }
    }
  }

  /** A tree that can be read has its top blocks; one that cannot lacks a block somewhere. */
  lemma WhenHeld(held: set<Cid>, root: Cid, text: Renderer)
    ensures TreeHeld(held, root, text) ==> TopHeld(held, root)
    ensures !TreeHeld(held, root, text) ==> root.Undef? || Missing(held, root)
  {
    hide Missing, LinksMissing, LinkedHeld, RootLinksHeld;
    if root.Of? {
      MissingBelow(held, root);
      if root in held && root.node.Directory? {
        if RootLinksHeld(held, RootState(root), root.node.links, text) {
          HeldRootLinks(held, RootState(root), root.node.links, text);
        } else {
          UnheldRootLinks(held, RootState(root), root.node.links, text);
        }
      }
    }
  }

  // ---------------------------------------------------------------- the tree

  ghost function Indices(s: TreeSummary): ReadState
    reads s
  {
    ReadState(s.entries, s.cidToEntry)
  }

  method AppendChild(s: TreeSummary, parent: Path, key: Path)
    modifies s`entries
    ensures s.entries == AddChild(old(s.entries), parent, key)
  {
    if parent in s.entries {
      var entry := s.entries[parent];
      if key !in entry.children {
        s.entries := s.entries[parent := entry.(children := entry.children + [key])];
      }
    }
  }

  /** The part of walkDAG that fills in one entry. */
  method EnterNode(s: TreeSummary, c: Cid, parent: Path, name: string, isDir: bool, fileSize: nat)
    requires c.Of? && isDir == c.node.Directory? && fileSize == LogicalSize(c.node)
    modifies s`entries, s`cidToEntry
    ensures Indices(s) == Enter(old(Indices(s)), c, parent, name)
  {
    hide AddChild;
    var key := EntryKey(parent, name);
    var entry := TreeEntry(if parent == ROOT then [] else parent, name, isDir, c, [], 0);
    if key in s.entries {
      entry := s.entries[key];
    }
    entry := entry.(cid := c);
    if fileSize > 0 {
      entry := entry.(logicalSize := fileSize);
    }
    s.entries := s.entries[key := entry];
    s.cidToEntry := s.cidToEntry[c := key];
    if parent == ROOT {
      if !isDir {
        AppendChild(s, ROOT, key);
      }
    } else {
      AppendChild(s, parent, key);
    }
  }

  /** Reads one node and everything below it that has not been met before. */
  method WalkDAG(dag: CarDag, c: Cid, parent: Path, name: string, s: TreeSummary, text: Renderer) returns (ok: bool)
    requires c.Of? && dag.Valid() && Reach(c) <= dag.known
    modifies dag.store.lru, dag.store.lru.repr, dag.store.reader, s`entries, s`cidToEntry
    ensures dag.Valid() && fresh(dag.store.lru.repr - old(dag.store.lru.repr))
    ensures ok <==> NodeHeld(dag.held, old(Indices(s)), c, parent, name, text)
    ensures ok ==> Indices(s) == WalkNode(old(Indices(s)), c, parent, name, text)
    decreases c
  {
    hide CarDag.Valid, Reach;
    ReachParts(c);
    var node := dag.Get(c);
    if node.None? {
      return false;
    }
    var isDir := node.value.Directory?;
    EnterNode(s, c, parent, name, isDir, LogicalSize(node.value));
    if isDir {
      var key, links := EntryKey(parent, name), node.value.links;
      ghost var goal := WalkLinks(Indices(s), links, key, text);
      ghost var held := LinksHeld(dag.held, Indices(s), links, key, text);
      assert links[0..] == links;
      for i := 0 to |links|
        invariant dag.Valid() && fresh(dag.store.lru.repr - old(dag.store.lru.repr))
        invariant WalkLinks(Indices(s), links[i..], key, text) == goal
        invariant LinksHeld(dag.held, Indices(s), links[i..], key, text) <==> held
      {
        assert links[i..][0] == links[i] && links[i..][1..] == links[i + 1..];
        var link := links[i];
        if link.cid == Undef || link.cid in s.cidToEntry {
          continue;
        }
        ReachOfLink(links, i);
        var walked := WalkDAG(dag, link.cid, key, NameOr(text, link), s, text);
        if !walked {
          return false;
        }
      }
    }
    return true;
  }

  lemma ReachParts(c: Cid)
    ensures c in Reach(c) && (c.Of? ==> ReachLinks(c.node.links) <= Reach(c))
  {
  }

  // ---------------------------------------------------------------- the blocks

  /** The links worth queueing: defined ones not listed yet. */
  function KnownLinks(ls: seq<Link>, seen: set<Cid>): seq<Cid> {
    if ls == [] then []
    else if ls[0].cid == Undef || ls[0].cid in seen then KnownLinks(ls[1..], seen)
    else [ls[0].cid] + KnownLinks(ls[1..], seen)
  }

  lemma {:induction false} KnownWithin(ls: seq<Link>, seen: set<Cid>)
    ensures ReachQueue(KnownLinks(ls, seen)) <= ReachLinks(ls)
    ensures Undef !in ReachLinks(ls) ==> KnownLinks(ls, seen) == FreshLinks(ls, seen)
  {
    if ls != [] {
      KnownWithin(ls[1..], seen);
      assert ls[0].cid in Reach(ls[0].cid);
      if ls[0].cid != Undef && ls[0].cid !in seen {
        assert KnownLinks(ls, seen)[1..] == KnownLinks(ls[1..], seen);
      }
    }
  }

  /** What a listed block adds to the queue: nothing when it cannot be fetched. */
  ghost function Queued(held: set<Cid>, c: Cid, seen: set<Cid>): seq<Cid> {
    if c in held then KnownLinks(Links(c), seen) else []
  }

  lemma MetadataShrinks(held: set<Cid>, q: seq<Cid>, seen: set<Cid>)
    requires q != [] && q[0] !in seen
    ensures var q' := q[1..] + Queued(held, q[0], seen + {q[0]});
            |ReachQueue(q') - (seen + {q[0]})| < |ReachQueue(q) - seen| && ReachQueue(q') <= ReachQueue(q)
  {
    var seen' := seen + {q[0]};
    var added := Queued(held, q[0], seen');
    KnownWithin(Links(q[0]), seen');
    ReachQueueAppend(q[1..], added);
    assert q[0] in Reach(q[0]);
    SubsetSize(ReachQueue(q[1..] + added) - seen', ReachQueue(q) - seen - {q[0]});
  }

  /** What the queue loop lists when the blocks in `held` can be fetched. */
  ghost function HeldListing(held: set<Cid>, q: seq<Cid>, seen: set<Cid>): seq<Cid>
    decreases |ReachQueue(q) - seen|, |q|
  {
    if q == [] then []
    else if q[0] in seen then SkipShrinks(q, seen); HeldListing(held, q[1..], seen)
    else
      MetadataShrinks(held, q, seen);
      [q[0]] + HeldListing(held, q[1..] + Queued(held, q[0], seen + {q[0]}), seen + {q[0]})
  }

  lemma HeldListingStep(held: set<Cid>, q: seq<Cid>, seen: set<Cid>)
    ensures q == [] ==> HeldListing(held, q, seen) == []
    ensures q != [] && q[0] in seen ==> HeldListing(held, q, seen) == HeldListing(held, q[1..], seen)
    ensures q != [] && q[0] !in seen ==>
      HeldListing(held, q, seen) == [q[0]] + HeldListing(held, q[1..] + Queued(held, q[0], seen + {q[0]}), seen + {q[0]})
  {
  }

  /** The length of a block; a block that cannot be fetched counts as empty. */
  ghost function HeldSize(held: set<Cid>, enc: Encoding, c: Cid): nat {
    if c in held && c.Of? then |enc.raw(c.node)| else 0
  }

  ghost function HeldSizes(held: set<Cid>, enc: Encoding, cs: seq<Cid>): (r: seq<nat>)
    ensures |r| == |cs|
  {
    seq(|cs|, i requires 0 <= i < |cs| => HeldSize(held, enc, cs[i]))
  }

  lemma HeldSizesAppend(held: set<Cid>, enc: Encoding, cs: seq<Cid>, c: Cid)
    ensures HeldSizes(held, enc, cs + [c]) == HeldSizes(held, enc, cs) + [HeldSize(held, enc, c)]
    ensures Sum(HeldSizes(held, enc, cs + [c])) == Sum(HeldSizes(held, enc, cs)) + HeldSize(held, enc, c)
  {
    assert HeldSizes(held, enc, cs + [c]) == HeldSizes(held, enc, cs) + [HeldSize(held, enc, c)];
    assert HeldSizes(held, enc, cs + [c])[..|cs|] == HeldSizes(held, enc, cs);
  }

  /** Every block is listed once, whatever can be fetched. */
  lemma {:induction false} ListedOnce(held: set<Cid>, q: seq<Cid>, seen: set<Cid>)
    ensures NoDuplicates(HeldListing(held, q, seen)) && Elements(HeldListing(held, q, seen)) !! seen
    decreases |ReachQueue(q) - seen|, |q|
  {
    hide Queued, ReachQueue;
    if q == [] {
    } else if q[0] in seen {
      SkipShrinks(q, seen);
      ListedOnce(held, q[1..], seen);
    } else {
      MetadataShrinks(held, q, seen);
      var rest := q[1..] + Queued(held, q[0], seen + {q[0]});
      ListedOnce(held, rest, seen + {q[0]});
      ConsNoDuplicates(q[0], HeldListing(held, rest, seen + {q[0]}));
      SplitElements(HeldListing(held, q, seen));
    }
  }

  /** The defined links of the blocks that can be fetched, one block after the other. */
  ghost function Onward(held: set<Cid>, cs: seq<Cid>): seq<Cid> {
    if cs == [] then [] else (if cs[0] in held then Defined(Links(cs[0])) else []) + Onward(held, cs[1..])
  }

  lemma {:induction false} KnownIsEnough(ls: seq<Link>, rest: seq<Cid>, seen: set<Cid>, more: set<Cid>)
    requires seen <= more
    ensures Firsts(KnownLinks(ls, seen) + rest, more) == Firsts(Defined(ls) + rest, more)
    decreases ls
  {
    hide Firsts;
    if ls == [] {
    } else if ls[0].cid == Undef {
      KnownIsEnough(ls[1..], rest, seen, more);
    } else {
      var c, more' := ls[0].cid, if ls[0].cid in more then more else more + {ls[0].cid};
      KnownIsEnough(ls[1..], rest, seen, more');
      FirstsStep(Defined(ls), rest, more);
      assert Defined(ls)[1..] == Defined(ls[1..]);
      if c !in seen {
        FirstsStep(KnownLinks(ls, seen), rest, more);
        assert KnownLinks(ls, seen)[1..] == KnownLinks(ls[1..], seen);
      }
    }
  }

  lemma QueuedIsEnough(held: set<Cid>, q: seq<Cid>, c: Cid, rest: seq<Cid>, seen: set<Cid>)
    ensures Firsts(q + Queued(held, c, seen) + rest, seen)
         == Firsts(q + ((if c in held then Defined(Links(c)) else []) + rest), seen)
  {
    hide Firsts, KnownLinks, Defined, Links;
    var some, all := Queued(held, c, seen), if c in held then Defined(Links(c)) else [];
    assert q + some + rest == q + (some + rest);
    FirstsAfter(q, some + rest, seen);
    FirstsAfter(q, all + rest, seen);
    KnownIsEnough(Links(c), rest, seen, seen + Elements(q));
  }

  /** The order of the listing, also when blocks are missing. */
  lemma {:induction false} HeldListingIsFirsts(held: set<Cid>, q: seq<Cid>, seen: set<Cid>)
    ensures HeldListing(held, q, seen) == Firsts(q + Onward(held, HeldListing(held, q, seen)), seen)
    decreases |ReachQueue(q) - seen|, |q|
  {
    hide ReachQueue, Queued, Defined, Links;
    var r := HeldListing(held, q, seen);
    if q != [] {
      FirstsStep(q, Onward(held, r), seen);
      if q[0] in seen {
        SkipShrinks(q, seen);
        HeldListingIsFirsts(held, q[1..], seen);
      } else {
        MetadataShrinks(held, q, seen);
        var seen' := seen + {q[0]};
        var added := Queued(held, q[0], seen');
        var tail := HeldListing(held, q[1..] + added, seen');
        HeldListingIsFirsts(held, q[1..] + added, seen');
        assert r[1..] == tail;
        QueuedIsEnough(held, q[1..], q[0], Onward(held, tail), seen');
      }
    }
  }

  /** Everything below the root is a defined identifier whose block is there. */
  ghost predicate Complete(held: set<Cid>, root: Cid) {
    Undef !in Reach(root) && Reach(root) <= held
  }

  ghost predicate QueueComplete(held: set<Cid>, q: seq<Cid>) {
    Undef !in ReachQueue(q) && ReachQueue(q) <= held
  }

  lemma CompleteStep(held: set<Cid>, q: seq<Cid>, seen: set<Cid>)
    requires QueueComplete(held, q) && q != []
    ensures QueueComplete(held, q[1..])
    ensures Queued(held, q[0], seen) == FreshLinks(Links(q[0]), seen)
  {
    assert q[0] in Reach(q[0]);
    KnownWithin(Links(q[0]), seen);
  }

  lemma QueueStaysComplete(held: set<Cid>, q: seq<Cid>, q': seq<Cid>)
    requires QueueComplete(held, q) && ReachQueue(q') <= ReachQueue(q)
    ensures QueueComplete(held, q')
  {
  }

  /** With every block there, the listing is the breadth-first one. */
  lemma {:induction false} CompleteListing(held: set<Cid>, q: seq<Cid>, seen: set<Cid>)
    requires QueueComplete(held, q)
    ensures HeldListing(held, q, seen) == Listing(q, seen)
    decreases |ReachQueue(q) - seen|, |q|
  {
    hide Queued, ReachQueue, QueueComplete, FreshLinks, Listing, HeldListing;
    ListingStep(q, seen);
    HeldListingStep(held, q, seen);
    if q != [] {
      if q[0] in seen {
        SkipShrinks(q, seen);
        CompleteStep(held, q, seen);
        CompleteListing(held, q[1..], seen);
      } else {
        var seen' := seen + {q[0]};
        MetadataShrinks(held, q, seen);
        CompleteStep(held, q, seen');
        QueueStaysComplete(held, q, q[1..] + Queued(held, q[0], seen'));
        CompleteListing(held, q[1..] + Queued(held, q[0], seen'), seen');
      }
    }
  }

  lemma RootComplete(held: set<Cid>, root: Cid)
    requires Complete(held, root)
    ensures QueueComplete(held, [root])
  {
    assert [root][1..] == [];
  }

  lemma SizesWhenHeld(held: set<Cid>, enc: Encoding, size: Sizer, cs: seq<Cid>)
    requires Elements(cs) <= held && forall n :: size(n) == |enc.raw(n)|
    ensures HeldSizes(held, enc, cs) == SizesOf(size, cs)
  {
    forall i | 0 <= i < |cs| ensures HeldSize(held, enc, cs[i]) == SizeOf(size, cs[i]) {
      assert cs[i] in Elements(cs);
    }
  }

  method EnqueueKnown(queue: seq<Cid>, links: seq<Link>, seen: set<Cid>) returns (longer: seq<Cid>)
    ensures longer == queue + KnownLinks(links, seen)
  {
    longer := queue;
    for i := 0 to |links|
      invariant longer + KnownLinks(links[i..], seen) == queue + KnownLinks(links, seen)
    {
      assert links[i..][0] == links[i] && links[i..][1..] == links[i + 1..];
      ghost var before := longer;
      if links[i].cid != Undef && links[i].cid !in seen {
        longer := longer + [links[i].cid];
        assert before + KnownLinks(links[i..], seen) == longer + KnownLinks(links[i + 1..], seen);
      }
    }
    assert links[|links|..] == [];
  }

  /** An entry's block is asked for its size first; any other block, or one without an answer, is fetched. */
  method BlockSize(dag: CarDag, c: Cid, hasEntry: bool) returns (n: nat)
    requires dag.Valid() && c in dag.known
    modifies dag.store.lru, dag.store.lru.repr, dag.store.reader
    ensures dag.Valid() && fresh(dag.store.lru.repr - old(dag.store.lru.repr))
    ensures n == HeldSize(dag.held, dag.enc, c)
  {
    hide CarDag.Valid;
    if hasEntry {
      var size := dag.GetSize(c);
      if size.Some? {
        return size.value;
      }
    }
    var node := dag.Get(c);
    n := if node.Some? then |dag.enc.raw(node.value)| else 0;
  }

  method FetchBlock(dag: CarDag, c: Cid, hasEntry: bool) returns (n: nat, node: Option<Node>)
    requires dag.Valid() && c in dag.known
    modifies dag.store.lru, dag.store.lru.repr, dag.store.reader
    ensures dag.Valid() && fresh(dag.store.lru.repr - old(dag.store.lru.repr))
    ensures n == HeldSize(dag.held, dag.enc, c) && node == if c in dag.held && c.Of? then Some(c.node) else None
  {
    hide CarDag.Valid;
    n := BlockSize(dag, c, hasEntry);
    node := dag.Get(c);
  }

  method ListBlock(s: TreeSummary, c: Cid, n: nat)
    modifies s`blockOrder, s`blockSizes, s`totalSize
    ensures s.blockOrder == old(s.blockOrder) + [c] && s.blockSizes == old(s.blockSizes) + [n] && s.totalSize == old(s.totalSize) + n
  {
    s.blockOrder := s.blockOrder + [c];
    s.blockSizes := s.blockSizes + [n];
    s.totalSize := s.totalSize + n;
  }

  /** Lists the blocks breadth-first, with their sizes and the sum of them. */
  method CollectBlockMetadata(dag: CarDag, root: Cid, s: TreeSummary)
    requires dag.Valid() && Reach(root) <= dag.known && s.blockOrder == [] && s.blockSizes == [] && s.totalSize == 0
    modifies dag.store.lru, dag.store.lru.repr, dag.store.reader, s`blockOrder, s`blockSizes, s`totalSize
    ensures dag.Valid() && fresh(dag.store.lru.repr - old(dag.store.lru.repr))
    ensures s.blockOrder == HeldListing(dag.held, [root], {})
    ensures s.blockSizes == HeldSizes(dag.held, dag.enc, s.blockOrder) && s.totalSize == Sum(s.blockSizes)
  {
    hide CarDag.Valid, HeldListing, HeldSizes, HeldSize, Queued, KnownLinks, Reach, ReachQueue, Sum;
    ReachAlone(root);
    var queue, seen: set<Cid> := [root], {};
    NothingListed(dag.held, dag.enc, HeldListing(dag.held, [root], {}));
    while |queue| > 0
      invariant dag.Valid() && fresh(dag.store.lru.repr - old(dag.store.lru.repr))
      invariant s.blockOrder + HeldListing(dag.held, queue, seen) == HeldListing(dag.held, [root], {})
      invariant s.blockSizes == HeldSizes(dag.held, dag.enc, s.blockOrder) && s.totalSize == Sum(s.blockSizes)
      invariant ReachQueue(queue) <= dag.known
      decreases |ReachQueue(queue) - seen|, |queue|
    {
      var c, rest := queue[0], queue[1..];
      HeldListingStep(dag.held, queue, seen);
      QueueParts(queue);
      if c in seen {
        SkipShrinks(queue, seen);
        queue := rest;
        continue;
      }
      MetadataShrinks(dag.held, queue, seen);
      HeldSizesAppend(dag.held, dag.enc, s.blockOrder, c);
      var blockSize, node := FetchBlock(dag, c, c in s.cidToEntry);
      seen := seen + {c};
      NowQueued(dag.held, c, seen, rest);
      Reassociate(s.blockOrder, c, HeldListing(dag.held, rest + Queued(dag.held, c, seen), seen));
      ListBlock(s, c, blockSize);
      queue := rest;
      if node.Some? {
        queue := EnqueueKnown(rest, node.value.links, seen);
      }
    }
    HeldListingStep(dag.held, queue, seen);
  }

  lemma ReachAlone(root: Cid)
    ensures ReachQueue([root]) == Reach(root)
  {
    assert [root][1..] == [];
  }

  lemma QueueParts(q: seq<Cid>)
    requires q != []
    ensures q[0] in ReachQueue(q) && ReachQueue(q[1..]) <= ReachQueue(q)
  {
    ReachParts(q[0]);
  }

  lemma NothingListed(held: set<Cid>, enc: Encoding, all: seq<Cid>)
    ensures [] + all == all && HeldSizes(held, enc, []) == [] && Sum([]) == 0
  {
  }

  lemma NowQueued(held: set<Cid>, c: Cid, seen: set<Cid>, rest: seq<Cid>)
    ensures c in held && c.Of? ==> Queued(held, c, seen) == KnownLinks(c.node.links, seen)
    ensures c !in held || c.Undef? ==> rest + Queued(held, c, seen) == rest
  {
  }

  lemma Reassociate(a: seq<Cid>, c: Cid, b: seq<Cid>)
    ensures a + ([c] + b) == a + [c] + b
  {
  }

  // ---------------------------------------------------------------- the whole summary

  /** What reconstructTree returns, from nothing but the blocks that are there. */
  ghost function Rebuilt(held: set<Cid>, root: Cid, enc: Encoding, text: Renderer): Option<Summary> {
    if !TreeHeld(held, root, text) then None
    else
      var order, read := HeldListing(held, [root], {}), ReadTree(root, text);
      var sizes := HeldSizes(held, enc, order);
      Some(Summary(root, Sum(sizes), order, sizes, read.entries, read.cidToEntry))
  }

  /** The loop over the root's links. */
  method WalkRoot(dag: CarDag, root: Cid, s: TreeSummary, text: Renderer) returns (ok: bool)
    requires root.Of? && dag.Valid() && Reach(root) <= dag.known
    modifies dag.store.lru, dag.store.lru.repr, dag.store.reader, s`entries, s`cidToEntry
    ensures dag.Valid() && fresh(dag.store.lru.repr - old(dag.store.lru.repr))
    ensures ok <==> RootLinksHeld(dag.held, old(Indices(s)), root.node.links, text)
    ensures ok ==> Indices(s) == WalkRootLinks(old(Indices(s)), root.node.links, text)
  {
    hide CarDag.Valid, NodeHeld, WalkNode, NameOr, Reach;
    ReachParts(root);
    var links := root.node.links;
    ghost var goal := WalkRootLinks(Indices(s), links, text);
    ghost var held := RootLinksHeld(dag.held, Indices(s), links, text);
    assert links[0..] == links;
    for i := 0 to |links|
      invariant dag.Valid() && fresh(dag.store.lru.repr - old(dag.store.lru.repr))
      invariant WalkRootLinks(Indices(s), links[i..], text) == goal
      invariant RootLinksHeld(dag.held, Indices(s), links[i..], text) <==> held
    {
      assert links[i..][0] == links[i] && links[i..][1..] == links[i + 1..];
      if links[i].cid == Undef {
        continue;
      }
      ReachOfLink(links, i);
      ok := WalkDAG(dag, links[i].cid, ROOT, NameOr(text, links[i]), s, text);
      if !ok {
        return;
      }
    }
    return true;
  }

  method ReconstructTree(dag: CarDag, root: Cid, text: Renderer) returns (r: Option<TreeSummary>)
    requires dag.Valid() && Reach(root) <= dag.known
    modifies dag.store.lru, dag.store.lru.repr, dag.store.reader
    ensures dag.Valid() && fresh(dag.store.lru.repr - old(dag.store.lru.repr))
    ensures r.Some? <==> Rebuilt(dag.held, root, dag.enc, text).Some?
    ensures r.Some? ==> fresh(r.value) && Some(r.value.Value()) == Rebuilt(dag.held, root, dag.enc, text)
  {
    hide CarDag.Valid, ReadTree, WalkRootLinks, RootLinksHeld, HeldListing, HeldSizes, Sum, Reach;
    ReachParts(root);
    var node := dag.Get(root);
    if node.None? {
      return None;
    }
    var s := new TreeSummary();
    s.rootCid, s.entries, s.cidToEntry := root, map[], map[];
    if node.value.Directory? {
      s.entries := s.entries[ROOT := ReadRootEntry(root, [])];
      s.cidToEntry := s.cidToEntry[root := ROOT];
      var ok := WalkRoot(dag, root, s, text);
      if !ok {
        return None;
      }
    } else {
      var fileName := text(root);
      s.entries := s.entries[[fileName] := TreeEntry([], fileName, false, root, [], LogicalSize(node.value))];
      s.cidToEntry := s.cidToEntry[root := [fileName]];
      s.entries := s.entries[ROOT := ReadRootEntry(root, [[fileName]])];
    }
    ReadTreeSpelled(root, text);
    CollectBlockMetadata(dag, root, s);
    return Some(s);
  }

  lemma ReadTreeSpelled(root: Cid, text: Renderer)
    requires root.Of?
    ensures root.node.Directory? ==> ReadTree(root, text) == WalkRootLinks(RootState(root), root.node.links, text)
    ensures !root.node.Directory? ==>
      ReadTree(root, text)
      == ReadState(map[[text(root)] := TreeEntry([], text(root), false, root, [], LogicalSize(root.node))][ROOT := ReadRootEntry(root, [[text(root)]])],
                   map[root := [text(root)]])
  {
  }

  /** With every block there the listing is the breadth-first one; without some of them it still lists no block twice. */
  lemma RebuiltBlocks(held: set<Cid>, root: Cid, enc: Encoding, size: Sizer, text: Renderer)
    requires Rebuilt(held, root, enc, text).Some? && forall n :: size(n) == |enc.raw(n)|
    ensures var s := Rebuilt(held, root, enc, text).value;
            && NoDuplicates(s.blockOrder) && s.totalSize == Sum(s.blockSizes)
            && (Complete(held, root) ==> s.blockOrder == BlockList(root) && s.blockSizes == SizesOf(size, BlockList(root)))
  {
    hide HeldListing, HeldSizes, SizesOf, Listing, TreeHeld, ReadTree, Sum;
    ListedOnce(held, [root], {});
    if Complete(held, root) {
      RootComplete(held, root);
      CompleteListing(held, [root], {});
      BlockListExact(root);
      SizesWhenHeld(held, enc, size, BlockList(root));
    }
  }

  /** Whatever is missing, the blocks are listed where they first occur among the links of those there, each with its length or none. */
  lemma RebuiltListing(held: set<Cid>, root: Cid, enc: Encoding, text: Renderer)
    requires Rebuilt(held, root, enc, text).Some?
    ensures var s := Rebuilt(held, root, enc, text).value;
            && s.blockOrder == Firsts([root] + Onward(held, s.blockOrder), {})
            && |s.blockSizes| == |s.blockOrder|
            && forall i :: 0 <= i < |s.blockOrder| ==>
                 var c := s.blockOrder[i]; s.blockSizes[i] == if c in held && c.Of? then |enc.raw(c.node)| else 0
  {
    hide HeldListing, TreeHeld, ReadTree, Sum, Firsts, Onward;
    HeldListingIsFirsts(held, [root], {});
  }
}
