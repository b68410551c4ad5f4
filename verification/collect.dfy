/** collectAllBlocks: the breadth-first queue loop over the store. */
module Collect {
  import opened Base
  import opened Dag
  import opened Bfs
  import opened NodeStores
  import opened BuilderSteps

  function SizesOf(size: Sizer, cs: seq<Cid>): (r: seq<nat>)
    ensures |r| == |cs| && forall i :: 0 <= i < |cs| ==> r[i] == SizeOf(size, cs[i])
  {
    seq(|cs|, i requires 0 <= i < |cs| => SizeOf(size, cs[i]))
  }

  lemma SizesAppend(size: Sizer, cs: seq<Cid>, c: Cid)
    ensures SizesOf(size, cs + [c]) == SizesOf(size, cs) + [SizeOf(size, c)]
    ensures SizesOf(size, []) == []
  {
  }

  /** The inner loop: children not seen yet join the queue. */
  method EnqueueLinks(queue: seq<Cid>, links: seq<Link>, seen: set<Cid>) returns (longer: seq<Cid>)
    ensures longer == queue + FreshLinks(links, seen)
  {
    longer := queue;
    for i := 0 to |links|
      invariant longer + FreshLinks(links[i..], seen) == queue + FreshLinks(links, seen)
    {
      assert links[i..][0] == links[i] && links[i..][1..] == links[i + 1..];
      ghost var before := longer;
      if links[i].cid !in seen {
        longer := longer + [links[i].cid];
        assert before + FreshLinks(links[i..], seen) == longer + FreshLinks(links[i + 1..], seen);
      }
    }
    assert links[|links|..] == [];
  }

  lemma ListingStep(q: seq<Cid>, seen: set<Cid>)
    ensures q == [] ==> Listing(q, seen) == []
    ensures q != [] && q[0] in seen ==> Listing(q, seen) == Listing(q[1..], seen)
    ensures q != [] && q[0] !in seen
        ==> Listing(q, seen) == [q[0]] + Listing(q[1..] + FreshLinks(Links(q[0]), seen + {q[0]}), seen + {q[0]})
  {
  }

  lemma ListedIsReachable(root: Cid, i: nat)
    requires i < |BlockList(root)|
    ensures BlockList(root)[i] in Reach(root)
  {
    BlockListExact(root);
    assert BlockList(root)[i] in Elements(BlockList(root));
  }

  /** What the loop has listed, and what is still to come. */
  ghost predicate Collecting(root: Cid, size: Sizer, queue: seq<Cid>, seen: set<Cid>, cids: seq<Cid>, sizes: seq<nat>) {
    cids + Listing(queue, seen) == BlockList(root) && sizes == SizesOf(size, cids)
  }

  lemma CollectingEnds(root: Cid, size: Sizer, seen: set<Cid>, cids: seq<Cid>, sizes: seq<nat>)
    ensures Collecting(root, size, [root], {}, [], [])
    ensures Collecting(root, size, [], seen, cids, sizes) ==> cids == BlockList(root) && sizes == SizesOf(size, cids)
  {
    assert [] + BlockList(root) == BlockList(root);
    assert cids + [] == cids;
  }

  lemma CollectingSteps(root: Cid, size: Sizer, q: seq<Cid>, seen: set<Cid>, cids: seq<Cid>, sizes: seq<nat>)
    requires Collecting(root, size, q, seen, cids, sizes) && q != []
    ensures q[0] in seen ==> Collecting(root, size, q[1..], seen, cids, sizes)
    ensures q[0] !in seen ==>
      Collecting(root, size, q[1..] + FreshLinks(Links(q[0]), seen + {q[0]}), seen + {q[0]}, cids + [q[0]], sizes + [SizeOf(size, q[0])])
    ensures q[0] !in seen ==> q[0] in Reach(root)
  {
    hide Listing, FreshLinks, Links, ReachQueue, SizesOf, Reach, BlockList;
    SizesAppend(size, cids, q[0]);
    if q[0] in seen {
      ListingStep(q, seen);
    } else {
      ListsNext(q, seen, cids, BlockList(root));
      ListedIsReachable(root, |cids|);
    }
  }

  lemma ListsNext(q: seq<Cid>, seen: set<Cid>, cids: seq<Cid>, all: seq<Cid>)
    requires q != [] && q[0] !in seen && cids + Listing(q, seen) == all
    ensures cids + [q[0]] + Listing(q[1..] + FreshLinks(Links(q[0]), seen + {q[0]}), seen + {q[0]}) == all
    ensures |cids| < |all| && all[|cids|] == q[0]
  {
    ListingStep(q, seen);
    hide FreshLinks, Listing, Links, ReachQueue;
  }

  /** Lists every block under the root with its true size, or fails because a block was evicted. */
  method CollectAllBlocks(store: NodeStore, root: Cid, size: Sizer) returns (r: Option<(seq<Cid>, seq<nat>)>)
    ensures r.Some? ==> r.value.0 == BlockList(root) && r.value.1 == SizesOf(size, r.value.0)
    ensures r.None? ==> exists c :: c in Reach(root) && (c !in store.held || c.Undef?)
  {
    hide Collecting, Reach, BlockList, FreshLinks, ReachQueue, SizesOf;
    var queue, seen: set<Cid>, cids, sizes := [root], {}, [], [];
    CollectingEnds(root, size, seen, cids, sizes);
    while |queue| > 0
      invariant Collecting(root, size, queue, seen, cids, sizes)
      decreases |ReachQueue(queue) - seen|, |queue|
    {
      var c, rest := queue[0], queue[1..];
      CollectingSteps(root, size, queue, seen, cids, sizes);
      if c in seen {
        SkipShrinks(queue, seen);
        queue := rest;
        continue;
      }
      VisitShrinks(queue, seen);
      seen := seen + {c};
      var node := store.Get(c);
      if node.None? {
        return None;
      }
      cids, sizes := cids + [c], sizes + [size(node.value)];
      queue := EnqueueLinks(rest, node.value.links, seen);
    }
    CollectingEnds(root, size, seen, cids, sizes);
    return Some((cids, sizes));
  }
}
