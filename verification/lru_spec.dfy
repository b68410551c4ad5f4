/** The LRU cache of blockstore/car_blockstore.go as a value: the list of held blocks, most recent first. */
module LruSpec {
  import opened Base
  import opened Cids

  function Total(s: seq<Block>): nat {
    if s == [] then 0 else |s[0].data| + Total(s[1..])
  }

  ghost predicate DistinctCids(s: seq<Block>) {
    forall i, j :: 0 <= i < j < |s| ==> s[i].cid != s[j].cid
  }

  predicate Holds(s: seq<Block>, c: Cid) {
    IndexOf(s, c) < |s|
  }

  /** The position of the block named `c`, or the length of the list when it is absent. */
  function IndexOf(s: seq<Block>, c: Cid): (i: nat)
    ensures i <= |s|
    ensures i < |s| ==> s[i].cid == c
    ensures forall k :: 0 <= k < i ==> s[k].cid != c
  {
    if s == [] then 0 else if s[0].cid == c then 0 else 1 + IndexOf(s[1..], c)
  }

  function Lookup(s: seq<Block>, c: Cid): Option<Block> {
    var i := IndexOf(s, c);
    if i < |s| then Some(s[i]) else None
  }

  function RemoveAt<T>(s: seq<T>, i: nat): (r: seq<T>)
    requires i < |s|
    ensures |r| == |s| - 1
    ensures forall k :: 0 <= k < |r| ==> r[k] == s[if k < i then k else k + 1]
  {
    s[..i] + s[i + 1..]
  }

  function ToFront<T>(s: seq<T>, i: nat): seq<T>
    requires i < |s|
  {
    [s[i]] + RemoveAt(s, i)
  }

  /** Drops blocks from the least recent end while the byte counter, as the machine computes it, is too large. */
  function Evict(s: seq<Block>, incoming: nat, limit: uint64): seq<Block> {
    if |s| > 0 && AddU64(Total(s) % TWO_64, incoming) > limit
    then Evict(s[..|s| - 1], incoming, limit)
    else s
  }

  function Put(s: seq<Block>, limit: uint64, b: Block): seq<Block> {
    var i := IndexOf(s, b.cid);
    if i < |s| then ToFront(s, i) else [b] + Evict(s, |b.data|, limit)
  }

  function Get(s: seq<Block>, c: Cid): seq<Block> {
    var i := IndexOf(s, c);
    if i < |s| then ToFront(s, i) else s
  }

  function Delete(s: seq<Block>, c: Cid): seq<Block> {
    var i := IndexOf(s, c);
    if i < |s| then RemoveAt(s, i) else s
  }

  function PutMany(s: seq<Block>, limit: uint64, bs: seq<Block>): seq<Block> {
    if bs == [] then s else Put(PutMany(s, limit, bs[..|bs| - 1]), limit, bs[|bs| - 1])
  }
}
