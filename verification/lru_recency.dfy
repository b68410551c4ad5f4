/** What each operation of the LRU cache does to every block, and that the list is ordered by last use. */
module LruRecency {
  import opened Base
  import opened Cids
  import opened LruSpec
  import opened LruSpecLemmas
  import opened LruTheorems

  // ---------------------------------------------------------------- one operation

  lemma Found(s: seq<Block>, i: nat)
    requires DistinctCids(s) && i < |s|
    ensures IndexOf(s, s[i].cid) == i && Holds(s, s[i].cid) && Lookup(s, s[i].cid) == Some(s[i])
  {
  }

  lemma NotFound(s: seq<Block>, c: Cid)
    requires forall i :: 0 <= i < |s| ==> s[i].cid != c
    ensures !Holds(s, c) && Lookup(s, c) == None
  {
  }

  /** The same blocks under every name but `c`, in the same order. */
  ghost predicate SameBut(s: seq<Block>, r: seq<Block>, c: Cid) {
    && (forall x :: x != c ==> Lookup(r, x) == Lookup(s, x))
    && forall x, y :: x != c && y != c && Holds(s, x) && Holds(s, y) ==> (IndexOf(r, x) < IndexOf(r, y) <==> IndexOf(s, x) < IndexOf(s, y))
  }

  lemma RemovedDistinct(s: seq<Block>, i: nat)
    requires DistinctCids(s) && i < |s|
    ensures DistinctCids(RemoveAt(s, i)) && !Holds(RemoveAt(s, i), s[i].cid)
  {
    NotFound(RemoveAt(s, i), s[i].cid);
  }

  lemma RemovedLookup(s: seq<Block>, i: nat, x: Cid)
    requires DistinctCids(s) && i < |s|
    ensures DistinctCids(RemoveAt(s, i)) && !Holds(RemoveAt(s, i), s[i].cid)
    ensures x != s[i].cid ==> Lookup(RemoveAt(s, i), x) == Lookup(s, x)
    ensures x != s[i].cid && Holds(s, x) ==> IndexOf(RemoveAt(s, i), x) == if IndexOf(s, x) < i then IndexOf(s, x) else IndexOf(s, x) - 1
  {
    hide DistinctCids, IndexOf, RemoveAt;
    RemovedDistinct(s, i);
    if x != s[i].cid {
      var r, k := RemoveAt(s, i), IndexOf(s, x);
      if k < |s| {
        Found(r, if k < i then k else k - 1);
      } else {
        NotFound(r, x);
      }
    }
  }

  lemma FrontLookup(b: Block, r: seq<Block>, x: Cid)
    requires !Holds(r, b.cid)
    ensures Lookup([b] + r, x) == if x == b.cid then Some(b) else Lookup(r, x)
    ensures x != b.cid ==> IndexOf([b] + r, x) == 1 + IndexOf(r, x)
  {
    assert ([b] + r)[1..] == r;
  }

  /** Deleting takes out the named block and nothing else: every other block and their order stay, and its bytes are given back. */
  lemma DeleteLaw(s: seq<Block>, c: Cid)
    requires DistinctCids(s)
    ensures DistinctCids(Delete(s, c)) && !Holds(Delete(s, c), c) && SameBut(s, Delete(s, c), c)
    ensures Total(Delete(s, c)) == Total(s) - match Lookup(s, c) case None => 0 case Some(b) => |b.data|
  {
    hide RemoveAt, Lookup;
    var i := IndexOf(s, c);
    if i < |s| {
      TotalRemoveAt(s, i);
      Found(s, i);
      forall x ensures !Holds(RemoveAt(s, i), s[i].cid) && (x != c ==> Lookup(RemoveAt(s, i), x) == Lookup(s, x))
        && (x != c && Holds(s, x) ==> IndexOf(RemoveAt(s, i), x) == if IndexOf(s, x) < i then IndexOf(s, x) else IndexOf(s, x) - 1) {
        RemovedLookup(s, i, x);
      }
      RemovedLookup(s, i, c);
    } else {
      AbsentLookup(s, c);
    }
  }

  lemma AbsentLookup(s: seq<Block>, c: Cid)
    requires !Holds(s, c)
    ensures Lookup(s, c) == None
  {
  }

  lemma ToFrontLaw(s: seq<Block>, i: nat)
    requires DistinctCids(s) && i < |s|
    ensures |ToFront(s, i)| == |s| && ToFront(s, i)[0] == s[i] && DistinctCids(ToFront(s, i)) && SameBut(s, ToFront(s, i), s[i].cid)
    ensures Lookup(ToFront(s, i), s[i].cid) == Some(s[i]) && Total(ToFront(s, i)) == Total(s)
  {
    hide RemoveAt, Lookup;
    var c, r := s[i].cid, RemoveAt(s, i);
    TotalRemoveAt(s, i);
    RemovedLookup(s, i, c);
    NotHeldDistinct(s[i], r);
    forall x ensures (x == c ==> Lookup([s[i]] + r, x) == Some(s[i])) && (x != c ==> Lookup([s[i]] + r, x) == Lookup(s, x))
      && (x != c && Holds(s, x) ==>
            IndexOf([s[i]] + r, x) == 1 + if IndexOf(s, x) < i then IndexOf(s, x) else IndexOf(s, x) - 1) {
      RemovedLookup(s, i, x);
      FrontLookup(s[i], r, x);
    }
    assert Lookup([s[i]] + r, c) == Some(s[i]);
    assert ToFront(s, i) == [s[i]] + r;
  }

  lemma NotHeldDistinct(b: Block, r: seq<Block>)
    requires DistinctCids(r) && !Holds(r, b.cid)
    ensures DistinctCids([b] + r)
  {
  }

  /** A Get brings the block to the front and changes nothing else; of a block that is not held it changes nothing. */
  lemma GetLaw(s: seq<Block>, c: Cid)
    requires DistinctCids(s)
    ensures DistinctCids(Get(s, c)) && Total(Get(s, c)) == Total(s) && SameBut(s, Get(s, c), c) && Lookup(Get(s, c), c) == Lookup(s, c)
    ensures Holds(s, c) ==> Get(s, c) != [] && Get(s, c)[0].cid == c
  {
    hide ToFront, Lookup;
    if Holds(s, c) {
      ToFrontLaw(s, IndexOf(s, c));
      Found(s, IndexOf(s, c));
    }
  }

  /** A Put leaves the block in front: a held one as it was, a new one before what eviction leaves of the rest. */
  lemma PutLaw(s: seq<Block>, limit: uint64, b: Block)
    requires DistinctCids(s)
    ensures var r := Put(s, limit, b);
            && DistinctCids(r) && r != [] && Lookup(r, b.cid) == Some(r[0])
            && r[0] == (if Holds(s, b.cid) then Lookup(s, b.cid).value else b)
            && (Holds(s, b.cid) ==> SameBut(s, r, b.cid) && Total(r) == Total(s))
            && (!Holds(s, b.cid) ==> r[1..] == Evict(s, |b.data|, limit) && r[1..] <= s)
  {
    hide ToFront, Lookup;
    EvictIsPrefix(s, |b.data|, limit);
    if Holds(s, b.cid) {
      ToFrontLaw(s, IndexOf(s, b.cid));
      Found(s, IndexOf(s, b.cid));
    } else {
      NewInFront(s, Evict(s, |b.data|, limit), b);
    }
  }

  lemma NewInFront(s: seq<Block>, kept: seq<Block>, b: Block)
    requires DistinctCids(s) && kept <= s && !Holds(s, b.cid)
    ensures DistinctCids([b] + kept) && Lookup([b] + kept, b.cid) == Some(b) && ([b] + kept)[1..] == kept
  {
    forall i | 0 <= i < |kept| ensures kept[i].cid != b.cid {
      assert s[i].cid != b.cid;
    }
  }

  /** Putting several blocks is putting one after the other. */
  lemma {:induction false} PutManyIsRun(limit: uint64, bs: seq<Block>)
    ensures PutMany([], limit, bs) == Run(limit, Puts(bs))
  {
    if bs != [] {
      var n := |bs| - 1;
      PutManyIsRun(limit, bs[..n]);
      assert Puts(bs)[..n] == Puts(bs[..n]) && Puts(bs)[n] == PutOp(bs[n]);
    }
  }

  function Puts(bs: seq<Block>): (r: seq<Op>)
    ensures |r| == |bs|
  {
    seq(|bs|, i requires 0 <= i < |bs| => PutOp(bs[i]))
  }

  // ---------------------------------------------------------------- whole runs

  predicate Uses(op: Op, c: Cid) {
    (op.PutOp? && op.blk.cid == c) || (op.GetOp? && op.cid == c)
  }

  /** When a block was last put or fetched, counting from 1. */
  function LastUse(ops: seq<Op>, c: Cid): nat {
    if ops == [] then 0
    else if Uses(ops[|ops| - 1], c) then |ops|
    else LastUse(ops[..|ops| - 1], c)
  }

  lemma {:induction false} LastUseBound(ops: seq<Op>, c: Cid)
    ensures LastUse(ops, c) <= |ops|
  {
    if ops != [] {
      LastUseBound(ops[..|ops| - 1], c);
    }
  }

  ghost predicate ByLastUse(s: seq<Block>, ops: seq<Op>) {
    forall i, j :: 0 <= i < j < |s| ==> LastUse(ops, s[i].cid) > LastUse(ops, s[j].cid)
  }

  lemma UnusedStays(s: seq<Block>, ops: seq<Op>, op: Op)
    requires ByLastUse(s, ops) && forall i :: 0 <= i < |s| ==> !Uses(op, s[i].cid)
    ensures ByLastUse(s, ops + [op])
  {
    assert (ops + [op])[..|ops|] == ops;
  }

  lemma UsedInFront(b: Block, rest: seq<Block>, ops: seq<Op>, op: Op)
    requires ByLastUse(rest, ops) && Uses(op, b.cid) && forall i :: 0 <= i < |rest| ==> !Uses(op, rest[i].cid)
    ensures ByLastUse([b] + rest, ops + [op])
  {
    hide Uses;
    var all, r := ops + [op], [b] + rest;
    assert all[..|ops|] == ops;
    UnusedStays(rest, ops, op);
    forall j | 0 < j < |r| ensures LastUse(all, r[0].cid) > LastUse(all, r[j].cid) {
      LastUseBound(ops, r[j].cid);
      assert r[j] == rest[j - 1];
    }
    forall i, j | 0 < i < j < |r| ensures LastUse(all, r[i].cid) > LastUse(all, r[j].cid) {
      assert r[i] == rest[i - 1] && r[j] == rest[j - 1];
    }
  }

  lemma RemovedByLastUse(s: seq<Block>, ops: seq<Op>, i: nat)
    requires ByLastUse(s, ops) && i < |s|
    ensures ByLastUse(RemoveAt(s, i), ops)
  {
  }

  lemma StepByLastUse(s: seq<Block>, limit: uint64, ops: seq<Op>, op: Op)
    requires DistinctCids(s) && ByLastUse(s, ops)
    ensures DistinctCids(Apply(s, limit, op)) && ByLastUse(Apply(s, limit, op), ops + [op])
  {
    hide RemoveAt, Lookup, ByLastUse, SameBut;
    match op
    case PutOp(b) =>
      PutLaw(s, limit, b);
      FrontStep(s, limit, ops, op, b.cid);
    case GetOp(c) =>
      GetLaw(s, c);
      FrontStep(s, limit, ops, op, c);
    case DeleteOp(c) =>
      DeleteLaw(s, c);
      var i := IndexOf(s, c);
      if i < |s| {
        RemovedByLastUse(s, ops, i);
      }
      UnusedStays(Delete(s, c), ops, op);
  }

  /** The operation names `c`: a held block moves to the front, and a Put of a new one puts it there. */
  lemma FrontStep(s: seq<Block>, limit: uint64, ops: seq<Op>, op: Op, c: Cid)
    requires DistinctCids(s) && ByLastUse(s, ops) && Uses(op, c)
    ensures ByLastUse(Apply(s, limit, op), ops + [op])
  {
    var i := IndexOf(s, c);
    if i < |s| {
      RemovedByLastUse(s, ops, i);
      UsedInFront(s[i], RemoveAt(s, i), ops, op);
    } else if op.PutOp? {
      EvictIsPrefix(s, |op.blk.data|, limit);
      UsedInFront(op.blk, Evict(s, |op.blk.data|, limit), ops, op);
    } else {
      UnusedStays(s, ops, op);
    }
  }

  /** In every run the held blocks stand in the order of their last Put or Get, the latest first. */
  lemma {:induction false} RecencyOrder(limit: uint64, ops: seq<Op>)
    ensures DistinctCids(Run(limit, ops)) && ByLastUse(Run(limit, ops), ops)
  {
    if ops != [] {
      var n := |ops| - 1;
      hide ByLastUse, DistinctCids, Apply;
      RecencyOrder(limit, ops[..n]);
      assert ops == ops[..n] + [ops[n]];
      StepByLastUse(Run(limit, ops[..n]), limit, ops[..n], ops[n]);
    } else {
      NothingByLastUse();
    }
  }

  lemma NothingByLastUse()
    ensures DistinctCids([]) && ByLastUse([], [])
  {
  }
}
