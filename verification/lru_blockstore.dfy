/** blockstore/car_blockstore.go: a doubly linked list, a map into it and a byte counter. */
module LruBlockstores {
  import opened Base
  import opened Cids
  import LruSpec
  import LruRecency
  import opened LruSpecLemmas

  class LruNode {
    const cid: Cid
    const data: Bytes
    var prev: LruNode?
    var next: LruNode?

    constructor (cid: Cid, data: Bytes)
      ensures this.cid == cid && this.data == data && prev == null && next == null
    {
      this.cid, this.data := cid, data;
      prev, next := null, null;
    }
  }

  ghost function BlocksOf(nodes: seq<LruNode>): (s: seq<Block>)
    ensures |s| == |nodes|
    ensures forall i :: 0 <= i < |s| ==> s[i] == Block(nodes[i].cid, nodes[i].data)
  {
    seq(|nodes|, i requires 0 <= i < |nodes| => Block(nodes[i].cid, nodes[i].data))
  }

  ghost predicate Distinct(nodes: seq<LruNode>) {
    forall i, j :: 0 <= i < j < |nodes| ==> nodes[i] != nodes[j]
  }

  ghost predicate DistinctCids(nodes: seq<LruNode>) {
    forall i, j :: 0 <= i < j < |nodes| ==> nodes[i].cid != nodes[j].cid
  }

  /** Walking `next` from the first node visits exactly `nodes`, and every back link agrees. */
  ghost predicate Linked(nodes: seq<LruNode>)
    reads nodes
  {
    && (|nodes| > 0 ==> nodes[0].prev == null && nodes[|nodes| - 1].next == null)
    && (forall i {:trigger nodes[i].prev} :: 1 <= i < |nodes| ==> nodes[i].prev == nodes[i - 1])
    && (forall i {:trigger nodes[i].next} :: 0 <= i < |nodes| - 1 ==> nodes[i].next == nodes[i + 1])
  }

  /** The map from identifiers to nodes that goes with a list of nodes. */
  ghost function MapOf(nodes: seq<LruNode>): map<Cid, LruNode> {
    if nodes == [] then map[] else MapOf(nodes[1..])[nodes[0].cid := nodes[0]]
  }

  class LRUBlockstore {
    var blocks: map<Cid, LruNode>
    var size: uint64
    const limit: uint64
    var head: LruNode?
    var tail: LruNode?
    ghost var nodes: seq<LruNode>
    ghost var repr: set<LruNode>

    ghost predicate ListOk()
      reads `head, `tail, `nodes, `repr, nodes
    {
      && (forall i :: 0 <= i < |nodes| ==> nodes[i] in repr)
      && Distinct(nodes)
      && Linked(nodes)
      && head == (if nodes == [] then null else nodes[0])
      && tail == (if nodes == [] then null else nodes[|nodes| - 1])
    }

    ghost predicate Valid()
      reads this, nodes
    {
      && ListOk()
      && DistinctCids(nodes)
      && blocks == MapOf(nodes)
      && size == LruSpec.Total(Contents()) % TWO_64
    }

    /** The held blocks, most recently used first. */
    ghost function Contents(): seq<Block>
      reads `nodes
    {
      BlocksOf(nodes)
    }

    constructor (sizeLimit: uint64)
      ensures Valid() && limit == sizeLimit && Contents() == [] && repr == {}
    {
      blocks, size, limit, head, tail, nodes, repr := map[], 0, sizeLimit, null, null, [], {};
    }

    method AddToFront(node: LruNode)
      requires ListOk() && forall k :: 0 <= k < |nodes| ==> nodes[k] != node
      modifies this`head, this`tail, this`nodes, this`repr, node, repr
      ensures ListOk() && nodes == [node] + old(nodes) && repr == old(repr) + {node}
    {
      node.prev := null;
      node.next := head;
      if head != null {
        head.prev := node;
      }
      head := node;
      if tail == null {
        tail := node;
      }
      nodes, repr := [node] + nodes, repr + {node};
    }

    /** The pointer surgery moveToFront and DeleteBlock share; only the latter ever meets the head here. */
    method Unlink(node: LruNode, ghost i: nat)
      requires ListOk() && i < |nodes| && nodes[i] == node
      modifies this`head, this`tail, this`nodes, this`repr, repr
      ensures ListOk() && nodes == LruSpec.RemoveAt(old(nodes), i) && repr == old(repr)
    {
      ghost var was := nodes;
      Neighbours(was, i);
      DistinctRemoved(was, i);
      if node.prev != null {
        node.prev.next := node.next;
      }
      if node.next != null {
        node.next.prev := node.prev;
      }
      if node == head {
        head := node.next;
      }
      if node == tail {
        tail := node.prev;
      }
      nodes := LruSpec.RemoveAt(was, i);
      hide LruSpec.RemoveAt;
      assert Linked(nodes);
    }

    method MoveToFront(node: LruNode, ghost i: nat)
      requires ListOk() && i < |nodes| && nodes[i] == node
      modifies this`head, this`tail, this`nodes, this`repr, repr
      ensures ListOk() && nodes == LruSpec.ToFront(old(nodes), i) && repr == old(repr)
    {
      hide Linked;
      if node == head {
        assert i == 0;
        return;
      }
      Unlink(node, i);
      AddToFront(node);
    }

    method EvictOne()
      requires Valid()
      modifies this, repr
      ensures Valid() && repr == old(repr)
      ensures nodes == if old(nodes) == [] then [] else old(nodes)[..|old(nodes)| - 1]
    {
      hide DistinctCids, MapOf;
      if tail == null {
        return;
      }
      ghost var was, wasSize, n := nodes, size, |nodes| - 1;
      blocks := blocks - {tail.cid};
      size := SubU64(size, |tail.data|);
      if head == tail {
        head, tail := null, null;
      } else {
        tail := tail.prev;
        tail.next := null;
      }
      nodes := nodes[..n];
      assert ListOk();
      assert nodes == LruSpec.RemoveAt(was, n);
      RemoveKeeps(was, wasSize, n);
    }

    /** The eviction loop of Put: drops from the tail until the block fits or nothing is left. */
    method MakeRoom(blockSize: nat)
      requires Valid()
      modifies this, repr
      ensures Valid() && nodes <= old(nodes) && repr == old(repr)
      ensures Contents() == LruSpec.Evict(old(Contents()), blockSize, limit)
    {
      hide Distinct, DistinctCids, Linked;
      ghost var before := Contents();
      while AddU64(size, blockSize) > limit && |blocks| > 0
        invariant Valid() && nodes <= old(nodes) && repr == old(repr)
        invariant LruSpec.Evict(before, blockSize, limit) == LruSpec.Evict(Contents(), blockSize, limit)
        decreases |nodes|
      {
        ghost var was := Contents();
        EvictOne();
        assert Contents() == was[..|was| - 1];
      }
    }

    /** Lists, maps and counts a node whose identifier is new: the last statements of Put. */
    method Insert(node: LruNode)
      requires Valid() && forall k :: 0 <= k < |nodes| ==> nodes[k].cid != node.cid
      modifies this, repr, node
      ensures Valid() && nodes == [node] + old(nodes) && repr == old(repr) + {node}
      ensures Contents() == [Block(node.cid, node.data)] + old(Contents())
    {
      hide Distinct, Linked, MapOf;
      ghost var was, wasSize := nodes, size;
      AddToFront(node);
      blocks := blocks[node.cid := node];
      size := AddU64(size, |node.data|);
      assert ListOk();
      InsertKeeps(was, wasSize, node);
    }

    method Put(blk: Block)
      requires Valid()
      modifies this, repr
      ensures Valid() && fresh(repr - old(repr))
      ensures Contents() == LruSpec.Put(old(Contents()), limit, blk)
    {
      hide Distinct, DistinctCids, Linked, MapOf;
      var c := blk.cid;
      ghost var before := Contents();
      ghost var i := LruSpec.IndexOf(before, c);
      if c in blocks {
        FoundAt(nodes, c);
        ToFrontKeeps(nodes, i);
        MoveToFront(blocks[c], i);
        return;
      }
      Absent(nodes, c);
      MakeRoom(|blk.data|);
      var node := new LruNode(c, blk.data);
      Insert(node);
    }

    method Get(c: Cid) returns (r: Option<Block>)
      requires Valid()
      modifies this, repr
      ensures Valid() && repr == old(repr)
      ensures Contents() == LruSpec.Get(old(Contents()), c)
      ensures r == LruSpec.Lookup(old(Contents()), c)
    {
      hide Distinct, DistinctCids, Linked, MapOf;
      ghost var before := Contents();
      FoundAt(nodes, c);
      if c !in blocks {
        return None;
      }
      var node := blocks[c];
      ToFrontKeeps(nodes, LruSpec.IndexOf(before, c));
      MoveToFront(node, LruSpec.IndexOf(before, c));
      r := Some(Block(c, node.data));
    }

    /** Answers without touching the recency order. */
    method GetSize(c: Cid) returns (r: Option<nat>)
      requires Valid()
      ensures r == match LruSpec.Lookup(Contents(), c) case None => None case Some(b) => Some(|b.data|)
    {
      FoundAt(nodes, c);
      r := if c in blocks then Some(|blocks[c].data|) else None;
    }

    method Has(c: Cid) returns (r: bool)
      requires Valid()
      ensures r == LruSpec.Holds(Contents(), c)
    {
      FoundAt(nodes, c);
      r := c in blocks;
    }

    method PutMany(bs: seq<Block>)
      requires Valid()
      modifies this, repr
      ensures Valid() && fresh(repr - old(repr))
      ensures Contents() == LruSpec.PutMany(old(Contents()), limit, bs)
    {
      hide Valid, Contents, LruSpec.Put, LruSpec.PutMany;
      ghost var before := Contents();
      PutManySteps(before, limit, bs);
      for k := 0 to |bs|
        invariant Valid() && fresh(repr - old(repr))
        invariant Contents() == LruSpec.PutMany(before, limit, bs[..k])
      {
        Put(bs[k]);
      }
    }

    method DeleteBlock(c: Cid)
      requires Valid()
      modifies this, repr
      ensures Valid() && repr == old(repr)
      ensures Contents() == LruSpec.Delete(old(Contents()), c)
      ensures !LruSpec.Holds(Contents(), c) && forall x :: x != c ==> LruSpec.Lookup(Contents(), x) == LruSpec.Lookup(old(Contents()), x)
    {
      hide Distinct, DistinctCids, Linked, MapOf, LruSpec.Lookup;
      ghost var before := Contents();
      NamesDistinct(nodes);
      LruRecency.DeleteLaw(before, c);
      FoundAt(nodes, c);
      if c !in blocks {
        return;
      }
      ghost var i, was, wasSize := LruSpec.IndexOf(before, c), nodes, size;
      var node := blocks[c];
      size := SubU64(size, |node.data|);
      blocks := blocks - {c};
      Unlink(node, i);
      RemoveKeeps(was, wasSize, i);
    }
  }

  lemma Neighbours(nodes: seq<LruNode>, i: nat)
    requires Linked(nodes) && i < |nodes|
    ensures nodes[i].prev == if i == 0 then null else nodes[i - 1]
    ensures nodes[i].next == if i == |nodes| - 1 then null else nodes[i + 1]
  {
  }

  lemma DistinctRemoved(nodes: seq<LruNode>, i: nat)
    requires Distinct(nodes) && i < |nodes|
    ensures Distinct(LruSpec.RemoveAt(nodes, i))
  {
  }

  lemma NamesDistinct(nodes: seq<LruNode>)
    requires DistinctCids(nodes)
    ensures LruSpec.DistinctCids(BlocksOf(nodes))
  {
  }

  lemma PutManySteps(s: seq<Block>, limit: uint64, bs: seq<Block>)
    ensures LruSpec.PutMany(s, limit, bs[..0]) == s && bs[..|bs|] == bs
    ensures forall k :: 0 <= k < |bs| ==>
              LruSpec.PutMany(s, limit, bs[..k + 1]) == LruSpec.Put(LruSpec.PutMany(s, limit, bs[..k]), limit, bs[k])
  {
    forall k | 0 <= k < |bs|
      ensures LruSpec.PutMany(s, limit, bs[..k + 1]) == LruSpec.Put(LruSpec.PutMany(s, limit, bs[..k]), limit, bs[k]) {
      assert bs[..k + 1][..k] == bs[..k];
    }
  }

  lemma {:induction false} FoundAt(nodes: seq<LruNode>, c: Cid)
    ensures c in MapOf(nodes) <==> LruSpec.Holds(BlocksOf(nodes), c)
    ensures c in MapOf(nodes) ==> MapOf(nodes)[c] == nodes[LruSpec.IndexOf(BlocksOf(nodes), c)]
  {
    if nodes != [] {
      assert BlocksOf(nodes)[1..] == BlocksOf(nodes[1..]);
      FoundAt(nodes[1..], c);
    }
  }

  lemma Absent(nodes: seq<LruNode>, c: Cid)
    requires c !in MapOf(nodes)
    ensures LruSpec.IndexOf(BlocksOf(nodes), c) == |nodes|
    ensures forall k :: 0 <= k < |nodes| ==> nodes[k].cid != c
  {
    FoundAt(nodes, c);
    forall k | 0 <= k < |nodes| ensures nodes[k].cid != c {
      assert BlocksOf(nodes)[k].cid != c;
    }
  }

  lemma {:induction false} MapOfRemoveAt(nodes: seq<LruNode>, i: nat)
    requires i < |nodes| && DistinctCids(nodes)
    ensures MapOf(LruSpec.RemoveAt(nodes, i)) == MapOf(nodes) - {nodes[i].cid}
  {
    if i == 0 {
      assert LruSpec.RemoveAt(nodes, i) == nodes[1..];
      FoundAt(nodes[1..], nodes[0].cid);
    } else {
      assert LruSpec.RemoveAt(nodes, i)[1..] == LruSpec.RemoveAt(nodes[1..], i - 1);
      MapOfRemoveAt(nodes[1..], i - 1);
    }
  }

  /** Taking one node out of the list and the map, and its length off the counter, keeps the three in step. */
  lemma RemoveKeeps(nodes: seq<LruNode>, size: uint64, i: nat)
    requires i < |nodes| && DistinctCids(nodes)
    requires size == LruSpec.Total(BlocksOf(nodes)) % TWO_64
    ensures var rest := LruSpec.RemoveAt(nodes, i);
            && DistinctCids(rest)
            && MapOf(rest) == MapOf(nodes) - {nodes[i].cid}
            && BlocksOf(rest) == LruSpec.RemoveAt(BlocksOf(nodes), i)
            && SubU64(size, |nodes[i].data|) == LruSpec.Total(BlocksOf(rest)) % TWO_64
  {
    MapOfRemoveAt(nodes, i);
    assert BlocksOf(LruSpec.RemoveAt(nodes, i)) == LruSpec.RemoveAt(BlocksOf(nodes), i);
    TotalRemoveAt(BlocksOf(nodes), i);
    SubWraps(LruSpec.Total(BlocksOf(nodes)), |nodes[i].data|);
  }

  lemma DistinctToFront(nodes: seq<LruNode>, i: nat)
    requires i < |nodes| && DistinctCids(nodes)
    ensures DistinctCids(LruSpec.ToFront(nodes, i))
  {
    var moved := LruSpec.ToFront(nodes, i);
    assert forall k :: 0 <= k < |nodes| ==> moved[k] == nodes[if k == 0 then i else if k <= i then k - 1 else k];
  }

  lemma MapOfToFront(nodes: seq<LruNode>, i: nat)
    requires i < |nodes| && DistinctCids(nodes)
    ensures MapOf(LruSpec.ToFront(nodes, i)) == MapOf(nodes)
  {
    MapOfRemoveAt(nodes, i);
    MapHolds(nodes, i);
    assert LruSpec.ToFront(nodes, i)[1..] == LruSpec.RemoveAt(nodes, i);
  }

  /** Reordering the list keeps it in step with the map and the counter. */
  lemma ToFrontKeeps(nodes: seq<LruNode>, i: nat)
    requires i < |nodes| && DistinctCids(nodes)
    ensures DistinctCids(LruSpec.ToFront(nodes, i))
    ensures MapOf(LruSpec.ToFront(nodes, i)) == MapOf(nodes)
    ensures BlocksOf(LruSpec.ToFront(nodes, i)) == LruSpec.ToFront(BlocksOf(nodes), i)
    ensures LruSpec.Total(LruSpec.ToFront(BlocksOf(nodes), i)) == LruSpec.Total(BlocksOf(nodes))
  {
    hide MapOf, DistinctCids;
    DistinctToFront(nodes, i);
    MapOfToFront(nodes, i);
    BlocksOfToFront(nodes, i);
    TotalRemoveAt(BlocksOf(nodes), i);
  }

  lemma BlocksOfToFront(nodes: seq<LruNode>, i: nat)
    requires i < |nodes|
    ensures BlocksOf(LruSpec.ToFront(nodes, i)) == LruSpec.ToFront(BlocksOf(nodes), i)
  {
  }

  lemma {:induction false} MapHolds(nodes: seq<LruNode>, i: nat)
    requires i < |nodes| && DistinctCids(nodes)
    ensures nodes[i].cid in MapOf(nodes) && MapOf(nodes)[nodes[i].cid] == nodes[i]
  {
    if i > 0 {
      MapHolds(nodes[1..], i - 1);
    }
  }

  /** Inserting a node under a new identifier keeps list, map and counter in step. */
  lemma InsertKeeps(nodes: seq<LruNode>, size: uint64, node: LruNode)
    requires size == LruSpec.Total(BlocksOf(nodes)) % TWO_64
    ensures BlocksOf([node] + nodes) == [Block(node.cid, node.data)] + BlocksOf(nodes)
    ensures MapOf([node] + nodes) == MapOf(nodes)[node.cid := node]
    ensures AddU64(size, |node.data|) == LruSpec.Total(BlocksOf([node] + nodes)) % TWO_64
  {
    assert ([node] + nodes)[1..] == nodes;
    assert BlocksOf([node] + nodes)[1..] == BlocksOf(nodes);
    AddWraps(LruSpec.Total(BlocksOf(nodes)), |node.data|);
  }
}
