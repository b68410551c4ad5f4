/** The breadth-first block listing of collectAllBlocks and collectBlockMetadata: one order, and what it contains. */
module Bfs {
  import opened Dag

  function ReachQueue(q: seq<Cid>): set<Cid> {
    if q == [] then {} else Reach(q[0]) + ReachQueue(q[1..])
  }

  /** The links of a node that are worth queueing: those not listed yet. */
  function FreshLinks(ls: seq<Link>, seen: set<Cid>): seq<Cid> {
    if ls == [] then []
    else if ls[0].cid in seen then FreshLinks(ls[1..], seen)
    else [ls[0].cid] + FreshLinks(ls[1..], seen)
  }

  /** What the queue loop still lists, given what it has seen. */
  function Listing(q: seq<Cid>, seen: set<Cid>): seq<Cid>
    decreases |ReachQueue(q) - seen|, |q|
  {
    if q == [] then []
    else if q[0] in seen then SkipShrinks(q, seen); Listing(q[1..], seen)
    else
      VisitShrinks(q, seen);
      [q[0]] + Listing(q[1..] + FreshLinks(Links(q[0]), seen + {q[0]}), seen + {q[0]})
  }

  /** The block order of the DAG under a root. */
  function BlockList(root: Cid): seq<Cid> {
    Listing([root], {})
  }

  // ---------------------------------------------------------------- termination

  lemma SubsetSize<T>(a: set<T>, b: set<T>)
    requires a <= b
    ensures |a| <= |b|
  {
    if a != b {
      var rest := b - a;
      assert b == a + rest;
    }
  }

  lemma SkipShrinks(q: seq<Cid>, seen: set<Cid>)
    requires q != []
    ensures |ReachQueue(q[1..]) - seen| <= |ReachQueue(q) - seen|
  {
    SubsetSize(ReachQueue(q[1..]) - seen, ReachQueue(q) - seen);
  }

  lemma {:induction false} ReachQueueAppend(a: seq<Cid>, b: seq<Cid>)
    ensures ReachQueue(a + b) == ReachQueue(a) + ReachQueue(b)
  {
    if a == [] {
      assert a + b == b;
    } else {
      assert (a + b)[1..] == a[1..] + b;
      ReachQueueAppend(a[1..], b);
    }
  }

  lemma {:induction false} FreshWithin(ls: seq<Link>, seen: set<Cid>)
    ensures ReachQueue(FreshLinks(ls, seen)) <= ReachLinks(ls)
  {
    if ls != [] {
      FreshWithin(ls[1..], seen);
      if ls[0].cid !in seen {
        assert FreshLinks(ls, seen)[1..] == FreshLinks(ls[1..], seen);
      }
    }
  }

  lemma VisitShrinks(q: seq<Cid>, seen: set<Cid>)
    requires q != [] && q[0] !in seen
    ensures var q' := q[1..] + FreshLinks(Links(q[0]), seen + {q[0]});
            |ReachQueue(q') - (seen + {q[0]})| < |ReachQueue(q) - seen|
  {
    var seen' := seen + {q[0]};
    var added := FreshLinks(Links(q[0]), seen');
    FreshWithin(Links(q[0]), seen');
    ReachQueueAppend(q[1..], added);
    assert q[0] in Reach(q[0]);
    SubsetSize(ReachQueue(q[1..] + added) - seen', ReachQueue(q) - seen - {q[0]});
  }

  // ---------------------------------------------------------------- which blocks are listed

  ghost predicate Closed(s: set<Cid>) {
    forall c, i :: c in s && 0 <= i < |Links(c)| ==> Links(c)[i].cid in s
  }

  /** Every link of a seen node has been seen or is queued. */
  ghost predicate Frontier(q: seq<Cid>, seen: set<Cid>) {
    forall c, i :: c in seen && 0 <= i < |Links(c)| ==> Links(c)[i].cid in seen || Links(c)[i].cid in q
  }

  ghost function Elements(s: seq<Cid>): set<Cid> {
    set i | 0 <= i < |s| :: s[i]
  }

  ghost predicate NoDuplicates<T>(s: seq<T>) {
    forall i, j :: 0 <= i < j < |s| ==> s[i] != s[j]
  }

  lemma {:induction false} FreshElements(ls: seq<Link>, seen: set<Cid>)
    ensures forall i :: 0 <= i < |ls| ==> ls[i].cid in seen || ls[i].cid in FreshLinks(ls, seen)
    ensures forall c :: c in FreshLinks(ls, seen) ==> exists i :: 0 <= i < |ls| && ls[i].cid == c
  {
    if ls != [] {
      FreshElements(ls[1..], seen);
      var r := FreshLinks(ls, seen);
      assert ls[0].cid !in seen ==> r == [ls[0].cid] + FreshLinks(ls[1..], seen);
      forall c | c in r ensures exists i :: 0 <= i < |ls| && ls[i].cid == c {
        if c in FreshLinks(ls[1..], seen) {
          var k :| 0 <= k < |ls[1..]| && ls[1..][k].cid == c;
          assert ls[k + 1].cid == c;
        } else {
          assert ls[0].cid == c;
        }
      }
    }
  }

  lemma VisitFrontier(q: seq<Cid>, seen: set<Cid>)
    requires q != [] && q[0] !in seen && Frontier(q, seen)
    ensures Frontier(q[1..] + FreshLinks(Links(q[0]), seen + {q[0]}), seen + {q[0]})
  {
    FreshElements(Links(q[0]), seen + {q[0]});
    assert q == [q[0]] + q[1..];
  }

  lemma SkipFrontier(q: seq<Cid>, seen: set<Cid>)
    requires q != [] && q[0] in seen && Frontier(q, seen)
    ensures Frontier(q[1..], seen)
  {
    assert q == [q[0]] + q[1..];
  }

  /** The listing is repetition-free, avoids what was seen, stays in reach, and completes the seen set. */
  lemma {:induction false} ListingInvariant(q: seq<Cid>, seen: set<Cid>)
    requires Frontier(q, seen)
    ensures var r := Listing(q, seen);
            && NoDuplicates(r)
            && Elements(r) !! seen
            && Elements(r) <= ReachQueue(q)
            && Elements(q) <= Elements(r) + seen
            && Closed(Elements(r) + seen)
    decreases |ReachQueue(q) - seen|, |q|
  {
    if q == [] {
    } else if q[0] in seen {
      SkipShrinks(q, seen);
      SkipFrontier(q, seen);
      ListingInvariant(q[1..], seen);
      assert Elements(q) == {q[0]} + Elements(q[1..]) by { SplitElements(q); }
    } else {
      var seen' := seen + {q[0]};
      var added := FreshLinks(Links(q[0]), seen');
      VisitShrinks(q, seen);
      VisitFrontier(q, seen);
      ListingInvariant(q[1..] + added, seen');
      var tail := Listing(q[1..] + added, seen');
      var r := [q[0]] + tail;
      SplitElements(r);
      SplitElements(q);
      assert r[1..] == tail;
      assert Elements(r) + seen == Elements(tail) + seen';
      assert Elements(q[1..]) <= Elements(q[1..] + added) by { AppendElements(q[1..], added); }
      FreshWithin(Links(q[0]), seen');
      ReachQueueAppend(q[1..], added);
      ConsNoDuplicates(q[0], tail);
    }
  }

  lemma ConsNoDuplicates(c: Cid, tail: seq<Cid>)
    requires NoDuplicates(tail) && c !in Elements(tail)
    ensures NoDuplicates([c] + tail)
  {
    forall j | 0 <= j < |tail| ensures tail[j] != c {
      assert tail[j] in Elements(tail);
    }
  }

  lemma SplitElements(s: seq<Cid>)
    requires s != []
    ensures Elements(s) == {s[0]} + Elements(s[1..])
  {
    forall c | c in Elements(s) ensures c in {s[0]} + Elements(s[1..]) {
      var i :| 0 <= i < |s| && s[i] == c;
      if i > 0 {
        assert s[1..][i - 1] == c;
      }
    }
  }

  lemma AppendElements(a: seq<Cid>, b: seq<Cid>)
    ensures Elements(a + b) == Elements(a) + Elements(b)
  {
    forall c | c in Elements(a) + Elements(b) ensures c in Elements(a + b) {
      if c in Elements(a) {
        var i :| 0 <= i < |a| && a[i] == c;
        assert (a + b)[i] == c;
      } else {
        var i :| 0 <= i < |b| && b[i] == c;
        assert (a + b)[|a| + i] == c;
      }
    }
  }

  lemma {:induction false} ClosedContainsReach(c: Cid, s: set<Cid>)
    requires c in s && Closed(s)
    ensures Reach(c) <= s
    decreases c, |Links(c)| + 1
  {
    if c.Of? {
      ClosedContainsReachLinks(c, 0, s);
    }
  }

  lemma {:induction false} ClosedContainsReachLinks(c: Cid, i: nat, s: set<Cid>)
    requires c.Of? && c in s && Closed(s) && i <= |c.node.links|
    ensures ReachLinks(c.node.links[i..]) <= s
    decreases c, |c.node.links| - i
  {
    if i < |c.node.links| {
      assert Links(c)[i].cid in s;
      ClosedContainsReach(c.node.links[i].cid, s);
      ClosedContainsReachLinks(c, i + 1, s);
      assert c.node.links[i..][1..] == c.node.links[i + 1..];
    }
  }

  /** Every reachable block is listed, exactly once, and nothing else is. */
  lemma BlockListExact(root: Cid)
    ensures NoDuplicates(BlockList(root)) && Elements(BlockList(root)) == Reach(root)
  {
    ListingInvariant([root], {});
    var r := Elements(BlockList(root));
    assert [root][0] in Elements([root]);
    assert r + {} == r;
    ClosedContainsReach(root, r);
    assert ReachQueue([root]) == Reach(root) by {
      assert [root][1..] == [];
    }
  }

  // ---------------------------------------------------------------- in which order

  /** What lies within `k` links of the root. */
  ghost function Within(root: Cid, k: nat): set<Cid> {
    if k == 0 then {root}
    else Within(root, k - 1) + Targets(Within(root, k - 1))
  }

  ghost function Targets(s: set<Cid>): set<Cid> {
    set c, i | c in s && 0 <= i < |Links(c)| :: Links(c)[i].cid
  }

  lemma {:induction false} WithinGrows(root: Cid, j: nat, k: nat)
    requires j <= k
    ensures Within(root, j) <= Within(root, k)
  {
    hide Targets;
    if j < k {
      WithinGrows(root, j, k - 1);
    }
  }

  /** Later blocks are at least as far from the root as earlier ones. */
  ghost predicate ByDistance(root: Cid, r: seq<Cid>) {
    forall i, j, k: nat :: 0 <= i < j < |r| && r[j] in Within(root, k) ==> r[i] in Within(root, k)
  }

  ghost predicate NotWithin(root: Cid, r: seq<Cid>, d: nat) {
    forall j, k: nat :: 0 <= j < |r| && k < d ==> r[j] !in Within(root, k)
  }

  /** The queue holds the rest of one distance, then part of the next. */
  ghost predicate Layered(root: Cid, q: seq<Cid>, m: nat, seen: set<Cid>, d: nat) {
    && m <= |q|
    && Frontier(q, seen)
    && seen <= Within(root, d) <= seen + Elements(q[..m])
    && (d > 0 ==> Within(root, d - 1) <= seen)
    && Elements(q[..m]) <= Within(root, d)
    && Elements(q[m..]) <= Within(root, d + 1)
  }

  lemma NextLayer(root: Cid, q: seq<Cid>, seen: set<Cid>, d: nat)
    requires Layered(root, q, 0, seen, d)
    ensures Layered(root, q, |q|, seen, d + 1)
  {
    assert q[..0] == [] && q[0..] == q && q[..|q|] == q && q[|q|..] == [];
    assert Within(root, d) == seen;
    forall c, i | c in seen && 0 <= i < |Links(c)| ensures Links(c)[i].cid in seen + Elements(q) {
      if Links(c)[i].cid in q {
        var k :| 0 <= k < |q| && q[k] == Links(c)[i].cid;
      }
    }
    WithinGrows(root, d, d + 1);
  }

  lemma SkipLayered(root: Cid, q: seq<Cid>, m: nat, seen: set<Cid>, d: nat)
    requires Layered(root, q, m, seen, d) && m > 0 && q[0] in seen
    ensures Layered(root, q[1..], m - 1, seen, d)
  {
    SkipFrontier(q, seen);
    SplitElements(q[..m]);
    assert q[..m][1..] == q[1..][..m - 1] && q[m..] == q[1..][m - 1..];
  }

  lemma VisitLayered(root: Cid, q: seq<Cid>, m: nat, seen: set<Cid>, d: nat)
    requires Layered(root, q, m, seen, d) && m > 0 && q[0] !in seen
    ensures Layered(root, q[1..] + FreshLinks(Links(q[0]), seen + {q[0]}), m - 1, seen + {q[0]}, d)
  {
    var seen' := seen + {q[0]};
    var added := FreshLinks(Links(q[0]), seen');
    VisitFrontier(q, seen);
    SplitElements(q[..m]);
    assert q[0] in Elements(q[..m]);
    AddedWithin(root, q[0], seen', d);
    QueueSplit(q, added, m);
    AppendElements(q[m..], added);
    hide Frontier, Elements, Within;
    assert q[0] in Within(root, d);
  }

  lemma QueueSplit(q: seq<Cid>, added: seq<Cid>, m: nat)
    requires 0 < m <= |q|
    ensures (q[1..] + added)[..m - 1] == q[..m][1..]
    ensures (q[1..] + added)[m - 1..] == q[m..] + added
  {
  }

  lemma AddedWithin(root: Cid, c: Cid, seen: set<Cid>, d: nat)
    requires c in Within(root, d)
    ensures Elements(FreshLinks(Links(c), seen)) <= Within(root, d + 1)
  {
    var added := FreshLinks(Links(c), seen);
    FreshElements(Links(c), seen);
    forall x | x in Elements(added) ensures x in Within(root, d + 1) {
      assert x in added;
      var i :| 0 <= i < |Links(c)| && Links(c)[i].cid == x;
      assert x in Targets(Within(root, d));
    }
  }

  lemma {:induction false} ListingByDistance(root: Cid, q: seq<Cid>, m: nat, seen: set<Cid>, d: nat)
    requires Layered(root, q, m, seen, d)
    ensures ByDistance(root, Listing(q, seen)) && NotWithin(root, Listing(q, seen), d)
    decreases |ReachQueue(q) - seen|, |q|, if m == 0 then 1 else 0
  {
    hide Layered, Frontier;
    if q == [] {
    } else if m == 0 {
      NextLayer(root, q, seen, d);
      ListingByDistance(root, q, |q|, seen, d + 1);
    } else if q[0] in seen {
      SkipShrinks(q, seen);
      SkipLayered(root, q, m, seen, d);
      ListingByDistance(root, q[1..], m - 1, seen, d);
    } else {
      VisitShrinks(q, seen);
      VisitLayered(root, q, m, seen, d);
      var q' := q[1..] + FreshLinks(Links(q[0]), seen + {q[0]});
      ListingByDistance(root, q', m - 1, seen + {q[0]}, d);
      HeadDistance(root, q, m, seen, d);
      ConsByDistance(root, q[0], Listing(q', seen + {q[0]}), d);
    }
  }

  lemma HeadDistance(root: Cid, q: seq<Cid>, m: nat, seen: set<Cid>, d: nat)
    requires Layered(root, q, m, seen, d) && m > 0 && q[0] !in seen
    ensures q[0] in Within(root, d) && forall k: nat :: k < d ==> q[0] !in Within(root, k)
  {
    hide Within, Frontier, Targets;
    assert q[..m][0] in Elements(q[..m]);
    forall k: nat | k < d ensures q[0] !in Within(root, k) {
      WithinGrows(root, k, d - 1);
    }
  }

  lemma ConsByDistance(root: Cid, c: Cid, tail: seq<Cid>, d: nat)
    requires c in Within(root, d) && forall k: nat :: k < d ==> c !in Within(root, k)
    requires ByDistance(root, tail) && NotWithin(root, tail, d)
    ensures ByDistance(root, [c] + tail) && NotWithin(root, [c] + tail, d)
  {
    var r := [c] + tail;
    forall i, j, k: nat | 0 <= i < j < |r| && r[j] in Within(root, k) ensures r[i] in Within(root, k) {
      if i == 0 {
        assert r[j] == tail[j - 1];
        assert k >= d;
        WithinGrows(root, d, k);
      } else {
        assert r[i] == tail[i - 1] && r[j] == tail[j - 1];
      }
    }
  }

  /** Blocks are listed in order of their distance from the root. */
  lemma BlockListByDistance(root: Cid)
    ensures ByDistance(root, BlockList(root))
  {
    assert [root][..1] == [root] && [root][1..] == [];
    assert [root][0] in Elements([root]);
    ListingByDistance(root, [root], 1, {}, 0);
  }

  // ---------------------------------------------------------------- the order itself

  /** The first occurrences in a queue, apart from what was seen before. */
  function Firsts(q: seq<Cid>, seen: set<Cid>): seq<Cid> {
    if q == [] then []
    else if q[0] in seen then Firsts(q[1..], seen)
    else [q[0]] + Firsts(q[1..], seen + {q[0]})
  }

  function Targeted(ls: seq<Link>): seq<Cid> {
    if ls == [] then [] else [ls[0].cid] + Targeted(ls[1..])
  }

  /** The links of some blocks, one block after the other. */
  function AllTargeted(cs: seq<Cid>): seq<Cid> {
    if cs == [] then [] else Targeted(Links(cs[0])) + AllTargeted(cs[1..])
  }

  lemma FirstsStep(q: seq<Cid>, rest: seq<Cid>, seen: set<Cid>)
    requires q != []
    ensures Firsts(q + rest, seen)
         == if q[0] in seen then Firsts(q[1..] + rest, seen) else [q[0]] + Firsts(q[1..] + rest, seen + {q[0]})
  {
    assert (q + rest)[0] == q[0] && (q + rest)[1..] == q[1..] + rest;
  }

  lemma {:induction false} FirstsAfter(a: seq<Cid>, b: seq<Cid>, seen: set<Cid>)
    ensures Firsts(a + b, seen) == Firsts(a, seen) + Firsts(b, seen + Elements(a))
    decreases a
  {
    if a == [] {
      assert a + b == b && seen + Elements(a) == seen;
    } else {
      FirstsStep(a, b, seen);
      SplitElements(a);
      var seen' := if a[0] in seen then seen else seen + {a[0]};
      FirstsAfter(a[1..], b, seen');
      assert seen' + Elements(a[1..]) == seen + Elements(a);
    }
  }

  /** Leaving out what was seen already makes no difference. */
  lemma {:induction false} FreshIsEnough(ls: seq<Link>, rest: seq<Cid>, seen: set<Cid>, more: set<Cid>)
    requires seen <= more
    ensures Firsts(FreshLinks(ls, seen) + rest, more) == Firsts(Targeted(ls) + rest, more)
    decreases ls
  {
    hide Firsts;
    if ls != [] {
      var c, more' := ls[0].cid, if ls[0].cid in more then more else more + {ls[0].cid};
      FreshIsEnough(ls[1..], rest, seen, more');
      FirstsStep(Targeted(ls), rest, more);
      assert Targeted(ls)[1..] == Targeted(ls[1..]);
      if c !in seen {
        FirstsStep(FreshLinks(ls, seen), rest, more);
        assert FreshLinks(ls, seen)[1..] == FreshLinks(ls[1..], seen);
      }
    }
  }

  /** What the loop lists is what occurs first when the queue is read, and then the links of the listed blocks one after the other. */
  lemma {:induction false} ListingIsFirsts(q: seq<Cid>, seen: set<Cid>)
    ensures Listing(q, seen) == Firsts(q + AllTargeted(Listing(q, seen)), seen)
    decreases |ReachQueue(q) - seen|, |q|
  {
    hide ReachQueue, Targeted, FreshLinks, Links;
    var r := Listing(q, seen);
    if q == [] {
    } else {
      FirstsStep(q, AllTargeted(r), seen);
      if q[0] in seen {
        SkipShrinks(q, seen);
        ListingIsFirsts(q[1..], seen);
      } else {
        VisitShrinks(q, seen);
        var seen' := seen + {q[0]};
        var added := FreshLinks(Links(q[0]), seen');
        var tail := Listing(q[1..] + added, seen');
        ListingIsFirsts(q[1..] + added, seen');
        assert r[1..] == tail;
        Exchange(q[1..], Links(q[0]), AllTargeted(tail), seen');
      }
    }
  }

  lemma Exchange(q: seq<Cid>, ls: seq<Link>, rest: seq<Cid>, seen: set<Cid>)
    ensures Firsts(q + FreshLinks(ls, seen) + rest, seen) == Firsts(q + (Targeted(ls) + rest), seen)
  {
    hide Firsts, FreshLinks, Targeted;
    assert q + FreshLinks(ls, seen) + rest == q + (FreshLinks(ls, seen) + rest);
    FirstsAfter(q, FreshLinks(ls, seen) + rest, seen);
    FirstsAfter(q, Targeted(ls) + rest, seen);
    FreshIsEnough(ls, rest, seen, seen + Elements(q));
  }

  /** The order of the listing: the root, then every block where it first occurs among the links of the listed blocks, in order. */
  lemma BlockListOrder(root: Cid)
    ensures BlockList(root) == Firsts([root] + AllTargeted(BlockList(root)), {})
  {
    ListingIsFirsts([root], {});
  }
}
