/** What every run of the LRU cache keeps: distinct names, the byte budget and its exact limit, stack inclusion. */
module LruTheorems {
  import opened Base
  import opened Cids
  import opened LruSpec
  import opened LruSpecLemmas

  datatype Op = PutOp(blk: Block) | GetOp(cid: Cid) | DeleteOp(cid: Cid)

  function Apply(s: seq<Block>, limit: uint64, op: Op): seq<Block> {
    match op
    case PutOp(b) => Put(s, limit, b)
    case GetOp(c) => Get(s, c)
    case DeleteOp(c) => Delete(s, c)
  }

  /** The cache after a run of operations on an empty one. */
  function Run(limit: uint64, ops: seq<Op>): seq<Block> {
    if ops == [] then [] else Apply(Run(limit, ops[..|ops| - 1]), limit, ops[|ops| - 1])
  }

  /** Go's `len` is an `int`, so no block is as long as 2^63 bytes. */
  ghost predicate GoOps(ops: seq<Op>) {
    forall i :: 0 <= i < |ops| && ops[i].PutOp? ==> |ops[i].blk.data| < TWO_63
  }

  ghost predicate GoBlocks(s: seq<Block>) {
    forall i :: 0 <= i < |s| ==> |s[i].data| < TWO_63
  }

  /** The documented budget: within the limit, except that a single block is always kept. */
  ghost predicate WithinBudget(s: seq<Block>, limit: uint64) {
    Total(s) <= limit || |s| == 1
  }

  // ---------------------------------------------------------------- eviction

  lemma {:induction false} TotalPrefix(s: seq<Block>, j: nat, k: nat)
    requires j <= k <= |s|
    ensures Total(s[..j]) <= Total(s[..k])
  {
    assert s[..k] == s[..j] + s[j..k];
    TotalAppend(s[..j], s[j..k]);
  }

  /** While no addition wraps, eviction keeps the longest prefix that fits beside the incoming block, or nothing. */
  lemma {:induction false} EvictKeepsLongestFit(s: seq<Block>, incoming: nat, limit: uint64)
    requires Total(s) + incoming < TWO_64
    ensures Evict(s, incoming, limit) <= s
    ensures Evict(s, incoming, limit) == [] || Total(Evict(s, incoming, limit)) + incoming <= limit
    ensures forall k :: |Evict(s, incoming, limit)| < k <= |s| ==> Total(s[..k]) + incoming > limit
  {
    if |s| > 0 {
      assert s[..|s|] == s;
      TotalPrefix(s, |s| - 1, |s|);
      if Total(s) + incoming > limit {
        var shorter := s[..|s| - 1];
        EvictKeepsLongestFit(shorter, incoming, limit);
        forall k | |Evict(s, incoming, limit)| < k <= |s| ensures Total(s[..k]) + incoming > limit {
          if k < |s| {
            assert s[..k] == shorter[..k];
          }
        }
      }
    }
  }

  // ---------------------------------------------------------------- invariants of every run

  ghost predicate Inv(s: seq<Block>, limit: uint64) {
    DistinctCids(s) && GoBlocks(s) && WithinBudget(s, limit)
  }

  lemma TotalOne(s: seq<Block>)
    requires |s| == 1
    ensures Total(s) == |s[0].data|
  {
    assert s[1..] == [];
  }

  lemma HeadTotal(b: Block, s: seq<Block>)
    ensures Total([b] + s) == |b.data| + Total(s)
  {
    assert ([b] + s)[1..] == s;
  }

  /** No uint64 addition wraps: the counter is at most 2^63 before any block is added. */
  lemma NoWrap(s: seq<Block>, limit: uint64, incoming: nat)
    requires Inv(s, limit) && limit <= TWO_63 && incoming < TWO_63
    ensures Total(s) + incoming < TWO_64
    ensures AddU64(Total(s) % TWO_64, incoming) == Total(s) + incoming
  {
    if |s| == 1 {
      TotalOne(s);
    }
  }

  lemma RemoveAtKeepsInv(s: seq<Block>, limit: uint64, i: nat)
    requires Inv(s, limit) && i < |s|
    ensures Inv(RemoveAt(s, i), limit)
  {
    TotalRemoveAt(s, i);
  }

  lemma ToFrontKeepsInv(s: seq<Block>, limit: uint64, i: nat)
    requires Inv(s, limit) && i < |s|
    ensures Inv(ToFront(s, i), limit)
  {
    TotalRemoveAt(s, i);
    if |s| == 1 {
      assert RemoveAt(s, i) == [];
    }
  }

  lemma PutKeepsInv(s: seq<Block>, limit: uint64, b: Block)
    requires Inv(s, limit) && limit <= TWO_63 && |b.data| < TWO_63
    ensures Inv(Put(s, limit, b), limit)
  {
    var i := IndexOf(s, b.cid);
    if i < |s| {
      ToFrontKeepsInv(s, limit, i);
    } else {
      NoWrap(s, limit, |b.data|);
      EvictKeepsLongestFit(s, |b.data|, limit);
      HeadTotal(b, Evict(s, |b.data|, limit));
    }
  }

  lemma GetDeleteKeepInv(s: seq<Block>, limit: uint64, c: Cid)
    requires Inv(s, limit)
    ensures Inv(Get(s, c), limit) && Inv(Delete(s, c), limit)
  {
    var i := IndexOf(s, c);
    if i < |s| {
      hide IndexOf, Inv, RemoveAt;
      RemoveAtKeepsInv(s, limit, i);
      ToFrontKeepsInv(s, limit, i);
    }
  }

  lemma {:induction false} RunKeepsInv(limit: uint64, ops: seq<Op>)
    requires limit <= TWO_63 && GoOps(ops)
    ensures Inv(Run(limit, ops), limit)
  {
    if ops != [] {
      var before, op := ops[..|ops| - 1], ops[|ops| - 1];
      RunKeepsInv(limit, before);
      match op
      case PutOp(b) => PutKeepsInv(Run(limit, before), limit, b);
      case GetOp(c) => GetDeleteKeepInv(Run(limit, before), limit, c);
      case DeleteOp(c) => GetDeleteKeepInv(Run(limit, before), limit, c);
    }
  }

  // ---------------------------------------------------------------- the exact limit of the budget

  function Zeros(n: nat): (d: Bytes)
    ensures |d| == n
  {
    seq(n, _ => 0)
  }

  function Name(k: nat): Cid {
    V1(k, 0, [])
  }

  /** Three blocks whose lengths add up to exactly 2^64, so the third is admitted beside the other two. */
  function OverflowRun(): seq<Op> {
    [PutOp(Block(Name(0), Zeros(TWO_63 - 1))), PutOp(Block(Name(1), Zeros(2))), PutOp(Block(Name(2), Zeros(TWO_63 - 1)))]
  }

  lemma TwoHeld(limit: uint64)
    requires limit > TWO_63
    ensures var ops := OverflowRun(); Run(limit, ops[..2]) == [ops[1].blk, ops[0].blk]
  {
    var ops := OverflowRun();
    var a, b := ops[0].blk, ops[1].blk;
    assert ops[..2][..1] == ops[..1] && ops[..1][..0] == [];
    assert Run(limit, ops[..1]) == [a];
    HeadTotal(a, []);
    assert [a] + [] == [a] && [b] + [a] == [b, a];
    assert IndexOf([a], b.cid) == 1;
  }

  lemma OverflowRunBreaksBudget(limit: uint64)
    requires limit > TWO_63
    ensures GoOps(OverflowRun()) && !WithinBudget(Run(limit, OverflowRun()), limit)
  {
    var ops := OverflowRun();
    var a, b, c := ops[0].blk, ops[1].blk, ops[2].blk;
    TwoHeld(limit);
    assert ops[..3] == ops;
    HeadTotal(a, []);
    HeadTotal(b, [a]);
    HeadTotal(c, [b, a]);
    assert [a] + [] == [a] && [b] + [a] == [b, a];
    assert Run(limit, ops) == [c, b, a] by {
      assert [c] + [b, a] == [c, b, a];
      assert [b, a][1..] == [a];
      assert IndexOf([b, a], c.cid) == 2;
    }
  }

  /** The byte budget holds in every reachable state exactly when the configured limit is at most 2^63. */
  lemma BudgetHoldsExactlyUpToTwo63(limit: uint64)
    ensures (forall ops :: GoOps(ops) ==> WithinBudget(Run(limit, ops), limit)) <==> limit <= TWO_63
  {
    if limit <= TWO_63 {
      forall ops | GoOps(ops) ensures WithinBudget(Run(limit, ops), limit) {
        RunKeepsInv(limit, ops);
      }
    } else {
      OverflowRunBreaksBudget(limit);
    }
  }

  // ---------------------------------------------------------------- the byte counter

  /** Everything a run can do next with the byte counter happens in plain arithmetic. */
  ghost predicate CounterExact(s: seq<Block>) {
    && (forall n :: 0 <= n <= |s| ==> EvictionExact(s, n))
    && (forall i :: 0 <= i < |s| ==> DeletionExact(s, i))
  }

  /**
    With the first `n` blocks left: the test for an incoming block, which is also the addition that counts it in,
    and the subtraction of the next block to be evicted.
    */
  ghost predicate EvictionExact(s: seq<Block>, n: nat)
    requires n <= |s|
  {
    && (forall b: Block :: |b.data| < TWO_63 ==> AdditionExact(s[..n], b))
    && (n > 0 ==> DeletionExact(s[..n], n - 1))
  }

  ghost predicate AdditionExact(s: seq<Block>, b: Block) {
    AddU64(Total(s) % TWO_64, |b.data|) == Total(s) + |b.data| == Total([b] + s)
  }

  /** The subtraction of DeleteBlock, and of evictOne for the last block. */
  ghost predicate DeletionExact(s: seq<Block>, i: nat)
    requires i < |s|
  {
    SubU64(Total(s) % TWO_64, |s[i].data|) == Total(s) - |s[i].data| == Total(RemoveAt(s, i))
  }

  lemma PrefixFits(s: seq<Block>, limit: uint64, n: nat)
    requires Inv(s, limit) && limit <= TWO_63 && n <= |s|
    ensures Total(s[..n]) <= TWO_63
  {
    TotalPrefix(s, n, |s|);
    assert s[..|s|] == s;
    if |s| == 1 {
      TotalOne(s);
    }
  }

  lemma AdditionIsExact(s: seq<Block>, b: Block)
    requires Total(s) <= TWO_63 && |b.data| < TWO_63
    ensures AdditionExact(s, b)
  {
    HeadTotal(b, s);
  }

  lemma DeletionIsExact(s: seq<Block>, i: nat)
    requires Total(s) <= TWO_63 && i < |s|
    ensures DeletionExact(s, i)
  {
    hide Total, RemoveAt, SubU64;
    TotalRemoveAt(s, i);
    PlainSub(Total(s), |s[i].data|);
  }

  lemma PlainSub(x: nat, n: nat)
    requires n <= x < TWO_64
    ensures SubU64(x % TWO_64, n) == x - n
  {
  }

  lemma EvictionIsExact(s: seq<Block>, limit: uint64, n: nat)
    requires Inv(s, limit) && limit <= TWO_63 && n <= |s|
    ensures EvictionExact(s, n)
  {
    hide Total, Inv, AdditionExact, DeletionExact;
    PrefixFits(s, limit, n);
    forall b: Block | |b.data| < TWO_63 ensures AdditionExact(s[..n], b) {
      AdditionIsExact(s[..n], b);
    }
    if n > 0 {
      DeletionIsExact(s[..n], n - 1);
    }
  }

  /** In every reachable state under a limit of at most 2^63, no addition and no subtraction of the byte counter wraps. */
  lemma CounterNeverWraps(limit: uint64, ops: seq<Op>)
    requires limit <= TWO_63 && GoOps(ops)
    ensures CounterExact(Run(limit, ops))
  {
    RunKeepsInv(limit, ops);
    var s := Run(limit, ops);
    hide EvictionExact, DeletionExact, Inv, Run, Total;
    PrefixFits(s, limit, |s|);
    assert s[..|s|] == s;
    forall n | 0 <= n <= |s| ensures EvictionExact(s, n) {
      EvictionIsExact(s, limit, n);
    }
    forall i | 0 <= i < |s| ensures DeletionExact(s, i) {
      DeletionIsExact(s, i);
    }
  }

  /** Above that limit two Puts lead to a state in which the next addition can wrap. */
  lemma CounterCanWrap(limit: uint64)
    requires limit > TWO_63
    ensures GoOps(OverflowRun()[..2]) && !CounterExact(Run(limit, OverflowRun()[..2]))
  {
    var ops := OverflowRun();
    var a, b, c := ops[0].blk, ops[1].blk, ops[2].blk;
    TwoHeld(limit);
    var s := Run(limit, ops[..2]);
    assert s[..2] == s;
    HeadTotal(a, []);
    HeadTotal(b, [a]);
    assert [b] + [a] == s && [a] + [] == [a];
    ExactAdds(s, 2, c);
  }

  lemma ExactAdds(s: seq<Block>, n: nat, b: Block)
    requires n <= |s| && |b.data| < TWO_63
    ensures CounterExact(s) ==> AdditionExact(s[..n], b)
  {
    assert CounterExact(s) ==> EvictionExact(s, n);
  }

  /** The byte counter is exact in every reachable state if and only if the limit is at most 2^63. */
  lemma CounterExactUpToTwo63(limit: uint64)
    ensures (forall ops :: GoOps(ops) ==> CounterExact(Run(limit, ops))) <==> limit <= TWO_63
  {
    hide CounterExact, Run, GoOps;
    if limit <= TWO_63 {
      forall ops | GoOps(ops) ensures CounterExact(Run(limit, ops)) {
        CounterNeverWraps(limit, ops);
      }
    } else {
      CounterCanWrap(limit);
    }
  }

  // ---------------------------------------------------------------- stack inclusion

  /** Every Put carries the content that belongs to its identifier. */
  ghost predicate Consistent(ops: seq<Op>, content: Cid -> Bytes) {
    forall i :: 0 <= i < |ops| && ops[i].PutOp? ==> ops[i].blk.data == content(ops[i].blk.cid)
  }

  ghost predicate Faithful(s: seq<Block>, content: Cid -> Bytes) {
    forall i :: 0 <= i < |s| ==> s[i].data == content(s[i].cid)
  }

  lemma PrefixIndex(s: seq<Block>, l: seq<Block>, c: Cid)
    requires s <= l
    ensures IndexOf(s, c) == if IndexOf(l, c) < |s| then IndexOf(l, c) else |s|
  {
    var i, j := IndexOf(s, c), IndexOf(l, c);
    if i < |s| {
      assert l[i].cid == c;
    }
    if j < |s| {
      assert s[j].cid == c;
    }
  }

  lemma {:induction false} EvictIsPrefix(s: seq<Block>, incoming: nat, limit: uint64)
    ensures Evict(s, incoming, limit) <= s
  {
    if |s| > 0 && AddU64(Total(s) % TWO_64, incoming) > limit {
      EvictIsPrefix(s[..|s| - 1], incoming, limit);
    }
  }

  /** Eviction, wrapping byte counter and all, keeps no less under a larger limit. */
  lemma {:induction false} EvictKeepsInclusion(s: seq<Block>, l: seq<Block>, incoming: nat, small: uint64, large: uint64)
    requires s <= l && small <= large
    ensures Evict(s, incoming, small) <= Evict(l, incoming, large)
    decreases |l|
  {
    if |l| == 0 || AddU64(Total(l) % TWO_64, incoming) <= large {
      EvictIsPrefix(s, incoming, small);
    } else if |s| < |l| {
      EvictKeepsInclusion(s, l[..|l| - 1], incoming, small, large);
    } else {
      assert s == l;
      EvictKeepsInclusion(s[..|s| - 1], l[..|l| - 1], incoming, small, large);
    }
  }

  /** One Put on a cache and on a larger one it is a prefix of leaves it a prefix. */
  lemma PutKeepsInclusion(s: seq<Block>, l: seq<Block>, small: uint64, large: uint64, b: Block)
    requires s <= l && small <= large
    requires forall i :: 0 <= i < |l| && l[i].cid == b.cid ==> l[i].data == b.data
    ensures Put(s, small, b) <= Put(l, large, b)
  {
    hide IndexOf, Evict;
    PrefixIndex(s, l, b.cid);
    EvictIsPrefix(s, |b.data|, small);
    EvictKeepsInclusion(s, l, |b.data|, small, large);
    var kept := Evict(s, |b.data|, small);
    var j := IndexOf(l, b.cid);
    if |s| <= j < |l| {
      assert l[j] == b;
      assert kept <= RemoveAt(l, j);
    }
  }

  lemma {:induction false} RunFaithful(limit: uint64, ops: seq<Op>, content: Cid -> Bytes)
    requires Consistent(ops, content)
    ensures Faithful(Run(limit, ops), content)
  {
    if ops != [] {
      var before, op := ops[..|ops| - 1], ops[|ops| - 1];
      RunFaithful(limit, before, content);
      if op.PutOp? {
        EvictIsPrefix(Run(limit, before), |op.blk.data|, limit);
      }
    }
  }

  /** No Belady anomaly, for any two limits: at all times the smaller cache is a prefix, in recency order, of the larger one. */
  lemma {:induction false} StackInclusion(small: uint64, large: uint64, ops: seq<Op>, content: Cid -> Bytes)
    requires small <= large && Consistent(ops, content)
    requires forall i :: 0 <= i < |ops| ==> !ops[i].GetOp?
    ensures Run(small, ops) <= Run(large, ops)
  {
    if ops != [] {
      var before, op := ops[..|ops| - 1], ops[|ops| - 1];
      StackInclusion(small, large, before, content);
      match op
      case PutOp(b) =>
        RunFaithful(large, before, content);
        PutKeepsInclusion(Run(small, before), Run(large, before), small, large, b);
      case DeleteOp(c) =>
        PrefixIndex(Run(small, before), Run(large, before), c);
    }
  }

  /** How often a run had to bring in a block the cache did not hold. */
  function Reloads(limit: uint64, ops: seq<Op>): nat {
    if ops == [] then 0
    else
      var before, op := ops[..|ops| - 1], ops[|ops| - 1];
      Reloads(limit, before) + if op.PutOp? && !Holds(Run(limit, before), op.blk.cid) then 1 else 0
  }

  lemma {:induction false} MoreMemoryNeverReloadsMore(small: uint64, large: uint64, ops: seq<Op>, content: Cid -> Bytes)
    requires small <= large && Consistent(ops, content)
    requires forall i :: 0 <= i < |ops| ==> !ops[i].GetOp?
    ensures Reloads(large, ops) <= Reloads(small, ops)
  {
    if ops != [] {
      var before, op := ops[..|ops| - 1], ops[|ops| - 1];
      MoreMemoryNeverReloadsMore(small, large, before, content);
      StackInclusion(small, large, before, content);
      if op.PutOp? {
        PrefixIndex(Run(small, before), Run(large, before), op.blk.cid);
      }
    }
  }
}
