/** equalBlocks of car/car_dir_builder.go: when two summaries list the same blocks. */
module BlockEquality {
  import opened Dag
  import opened FsTrees
  import opened TreeSummaries
  import opened BuilderSteps
  import opened BuilderResult
  import opened BuilderTheorems
  import opened Builder

  /** The size the last listing of a block gave it. */
  function LastSize(order: seq<Cid>, sizes: seq<nat>, c: Cid): nat
    requires |order| == |sizes| && c in order
  {
    var n := |order| - 1;
    if order[n] == c then sizes[n] else LastSize(order[..n], sizes[..n], c)
  }

  /** What equalBlocks decides: the same identifiers equally often, and every size the other side lists is the last one listed here. */
  ghost predicate EqualBlockLists(order: seq<Cid>, sizes: seq<nat>, order': seq<Cid>, sizes': seq<nat>)
    requires |order| == |sizes|
  {
    && |order'| == |sizes'|
    && multiset(order) == multiset(order')
    && forall i :: 0 <= i < |order'| ==> order'[i] in order && sizes'[i] == LastSize(order, sizes, order'[i])
  }

  datatype BlockInfo = BlockInfo(size: nat, count: nat)

  /** The map of the first loop: every block listed so far, how often, and with which size last. */
  ghost predicate Counted(m: map<Cid, BlockInfo>, order: seq<Cid>, sizes: seq<nat>)
    requires |order| == |sizes|
  {
    && (forall c :: c in m <==> c in order)
    && forall c :: c in m ==> m[c] == BlockInfo(LastSize(order, sizes, c), multiset(order)[c])
  }

  ghost predicate UnmatchedAt(m: map<Cid, BlockInfo>, order: seq<Cid>, sizes: seq<nat>, matched: multiset<Cid>, c: Cid)
    requires |order| == |sizes|
  {
    && matched[c] <= multiset(order)[c]
    && (c in m <==> matched[c] < multiset(order)[c])
    && (c in m ==> c in order && m[c] == BlockInfo(LastSize(order, sizes, c), multiset(order)[c] - matched[c]))
  }

  /** The map of the second loop: what has not been matched yet. */
  ghost predicate Unmatched(m: map<Cid, BlockInfo>, order: seq<Cid>, sizes: seq<nat>, matched: multiset<Cid>)
    requires |order| == |sizes|
  {
    forall c :: UnmatchedAt(m, order, sizes, matched, c)
  }

  lemma CountOne(m: map<Cid, BlockInfo>, order: seq<Cid>, sizes: seq<nat>, c: Cid, n: nat)
    requires |order| == |sizes| && Counted(m, order, sizes)
    ensures Counted(m[c := BlockInfo(n, (if c in m then m[c].count else 0) + 1)], order + [c], sizes + [n])
  {
    assert (order + [c])[..|order|] == order && (sizes + [n])[..|order|] == sizes;
  }

  lemma MatchOne(m: map<Cid, BlockInfo>, order: seq<Cid>, sizes: seq<nat>, matched: multiset<Cid>, c: Cid)
    requires |order| == |sizes| && Unmatched(m, order, sizes, matched) && c in m
    ensures c in order && m[c].size == LastSize(order, sizes, c) && m[c].count > 0
    ensures Unmatched(if m[c].count == 1 then m - {c} else m[c := m[c].(count := m[c].count - 1)], order, sizes, matched + multiset{c})
  {
    hide LastSize;
    assert UnmatchedAt(m, order, sizes, matched, c);
    var m' := if m[c].count == 1 then m - {c} else m[c := m[c].(count := m[c].count - 1)];
    forall x ensures UnmatchedAt(m', order, sizes, matched + multiset{c}, x) {
      assert UnmatchedAt(m, order, sizes, matched, x);
    }
  }

  lemma NoneMatched(m: map<Cid, BlockInfo>, order: seq<Cid>, sizes: seq<nat>)
    requires |order| == |sizes| && Counted(m, order, sizes)
    ensures Unmatched(m, order, sizes, multiset{})
  {
    forall c ensures UnmatchedAt(m, order, sizes, multiset{}, c) {
    }
  }

  lemma AllMatched(m: map<Cid, BlockInfo>, order: seq<Cid>, sizes: seq<nat>, order': seq<Cid>, sizes': seq<nat>)
    requires |order| == |sizes| && |order'| == |sizes'| && Unmatched(m, order, sizes, multiset(order'))
    requires forall k :: 0 <= k < |order'| ==> order'[k] in order && sizes'[k] == LastSize(order, sizes, order'[k])
    ensures |m| == 0 <==> EqualBlockLists(order, sizes, order', sizes')
  {
    if |m| == 0 {
      forall c ensures multiset(order')[c] == multiset(order)[c] {
        assert UnmatchedAt(m, order, sizes, multiset(order'), c);
      }
    } else {
      var c :| c in m;
      assert UnmatchedAt(m, order, sizes, multiset(order'), c);
    }
  }

  /** A block that was already used up, or is listed with another size, decides against equality. */
  lemma Mismatch(m: map<Cid, BlockInfo>, order: seq<Cid>, sizes: seq<nat>, order': seq<Cid>, sizes': seq<nat>, i: nat)
    requires |order| == |sizes| && |order'| == |sizes'| && i < |order'|
    requires Unmatched(m, order, sizes, multiset(order'[..i]))
    requires order'[i] !in m || m[order'[i]].size != sizes'[i]
    ensures !EqualBlockLists(order, sizes, order', sizes')
  {
    var c := order'[i];
    assert UnmatchedAt(m, order, sizes, multiset(order'[..i]), c);
    if c !in m {
      assert order' == order'[..i] + [c] + order'[i + 1..];
      assert multiset(order')[c] > multiset(order'[..i])[c];
    }
  }

  method EqualBlocks(ts: TreeSummary, other: TreeSummary) returns (equal: bool)
    ensures equal <==> |ts.blockOrder| == |ts.blockSizes|
                       && EqualBlockLists(ts.blockOrder, ts.blockSizes, other.blockOrder, other.blockSizes)
  {
    if |ts.blockOrder| != |other.blockOrder| {
      MultisetLengths(ts.blockOrder, other.blockOrder);
      return false;
    }
    if |ts.blockSizes| != |other.blockSizes| {
      return false;
    }
    if |ts.blockOrder| != |ts.blockSizes| || |other.blockOrder| != |other.blockSizes| {
      return false;
    }
    hide Counted, Unmatched, EqualBlockLists, LastSize;
    var m := CountBlocks(ts.blockOrder, ts.blockSizes);
    equal := MatchBlocks(m, ts.blockOrder, ts.blockSizes, other.blockOrder, other.blockSizes);
  }

  lemma MultisetLengths(a: seq<Cid>, b: seq<Cid>)
    ensures multiset(a) == multiset(b) ==> |a| == |b|
  {
    assert |multiset(a)| == |a| && |multiset(b)| == |b|;
  }

  method CountBlocks(order: seq<Cid>, sizes: seq<nat>) returns (m: map<Cid, BlockInfo>)
    requires |order| == |sizes|
    ensures Counted(m, order, sizes)
  {
    m := map[];
    for i := 0 to |order|
      invariant Counted(m, order[..i], sizes[..i])
    {
      CountOne(m, order[..i], sizes[..i], order[i], sizes[i]);
      assert order[..i + 1] == order[..i] + [order[i]] && sizes[..i + 1] == sizes[..i] + [sizes[i]];
      var count := if order[i] in m then m[order[i]].count else 0;
      m := m[order[i] := BlockInfo(sizes[i], count + 1)];
    }
    assert order[..|order|] == order && sizes[..|sizes|] == sizes;
  }

  method MatchBlocks(counted: map<Cid, BlockInfo>, order: seq<Cid>, sizes: seq<nat>, order': seq<Cid>, sizes': seq<nat>)
    returns (equal: bool)
    requires |order| == |sizes| && |order'| == |sizes'| && Counted(counted, order, sizes)
    ensures equal <==> EqualBlockLists(order, sizes, order', sizes')
  {
    hide LastSize, Unmatched, Counted, EqualBlockLists;
    var m := counted;
    NoneMatched(m, order, sizes);
    for i := 0 to |order'|
      invariant Unmatched(m, order, sizes, multiset(order'[..i]))
      invariant forall k :: 0 <= k < i ==> order'[k] in order && sizes'[k] == LastSize(order, sizes, order'[k])
    {
      var c := order'[i];
      if c !in m || m[c].size != sizes'[i] {
        Mismatch(m, order, sizes, order', sizes', i);
        return false;
      }
      MatchOne(m, order, sizes, multiset(order'[..i]), c);
      NextMultiset(order', i);
      var info := m[c].(count := m[c].count - 1);
      if info.count == 0 {
        m := m - {c};
      } else {
        m := m[c := info];
      }
    }
    assert order'[..|order'|] == order';
    AllMatched(m, order, sizes, order', sizes');
    return |m| == 0;
  }

  lemma NextMultiset(s: seq<Cid>, i: nat)
    requires i < |s|
    ensures multiset(s[..i + 1]) == multiset(s[..i]) + multiset{s[i]}
  {
    assert s[..i + 1] == s[..i] + [s[i]];
  }

  // ---------------------------------------------------------------- as a relation on (identifier, size) lists

  /** No identifier is listed with two sizes. */
  ghost predicate SingleSized(order: seq<Cid>, sizes: seq<nat>)
    requires |order| == |sizes|
  {
    forall i, j :: 0 <= i < |order| && 0 <= j < |order| && order[i] == order[j] ==> sizes[i] == sizes[j]
  }

  function Pairs(order: seq<Cid>, sizes: seq<nat>): seq<(Cid, nat)>
    requires |order| == |sizes|
  {
    if order == [] then [] else Pairs(order[..|order| - 1], sizes[..|order| - 1]) + [(order[|order| - 1], sizes[|order| - 1])]
  }

  lemma {:induction false} LastSizeListed(order: seq<Cid>, sizes: seq<nat>, c: Cid) returns (i: nat)
    requires |order| == |sizes| && c in order
    ensures i < |order| && order[i] == c && sizes[i] == LastSize(order, sizes, c)
  {
    var n := |order| - 1;
    if order[n] == c {
      i := n;
    } else {
      i := LastSizeListed(order[..n], sizes[..n], c);
    }
  }

  /** When every entry has the size the map gives its identifier, pairs are counted like identifiers. */
  lemma {:induction false} PairCount(order: seq<Cid>, sizes: seq<nat>, sizeOf: map<Cid, nat>, c: Cid, n: nat)
    requires |order| == |sizes| && forall i :: 0 <= i < |order| ==> order[i] in sizeOf && sizes[i] == sizeOf[order[i]]
    ensures multiset(Pairs(order, sizes))[(c, n)] == if c in sizeOf && n == sizeOf[c] then multiset(order)[c] else 0
  {
    if order != [] {
      var k := |order| - 1;
      PairCount(order[..k], sizes[..k], sizeOf, c, n);
      assert order == order[..k] + [order[k]];
    }
  }

  /** Either way of counting, an identifier occurs as often as its pairs do. */
  lemma {:induction false} PairsAt(order: seq<Cid>, sizes: seq<nat>)
    requires |order| == |sizes|
    ensures |Pairs(order, sizes)| == |order| && forall i :: 0 <= i < |order| ==> Pairs(order, sizes)[i] == (order[i], sizes[i])
  {
    if order != [] {
      PairsAt(order[..|order| - 1], sizes[..|order| - 1]);
    }
  }

  function SizeMap(order: seq<Cid>, sizes: seq<nat>): map<Cid, nat>
    requires |order| == |sizes|
  {
    map c | c in order :: LastSize(order, sizes, c)
  }

  lemma SingleSizeMap(order: seq<Cid>, sizes: seq<nat>)
    requires |order| == |sizes| && SingleSized(order, sizes)
    ensures forall i :: 0 <= i < |order| ==> order[i] in SizeMap(order, sizes) && sizes[i] == SizeMap(order, sizes)[order[i]]
  {
    forall i | 0 <= i < |order| ensures sizes[i] == LastSize(order, sizes, order[i]) {
      var k := LastSizeListed(order, sizes, order[i]);
    }
  }

  /** With one size per identifier on this side, equalBlocks decides whether the two lists of blocks are permutations of each other. */
  lemma EqualMeansPermutation(order: seq<Cid>, sizes: seq<nat>, order': seq<Cid>, sizes': seq<nat>)
    requires |order| == |sizes| && |order'| == |sizes'| && SingleSized(order, sizes)
    ensures EqualBlockLists(order, sizes, order', sizes') <==> multiset(Pairs(order, sizes)) == multiset(Pairs(order', sizes'))
  {
    hide LastSize, SingleSized;
    SingleSizeMap(order, sizes);
    if EqualBlockLists(order, sizes, order', sizes') {
      SameCounts(order, sizes, order', sizes');
    }
    if multiset(Pairs(order, sizes)) == multiset(Pairs(order', sizes')) {
      PairsShareSizes(order, sizes, order', sizes');
      SameCounts(order, sizes, order', sizes');
    }
  }

  lemma SameCounts(order: seq<Cid>, sizes: seq<nat>, order': seq<Cid>, sizes': seq<nat>)
    requires |order| == |sizes| && |order'| == |sizes'|
    requires forall i :: 0 <= i < |order| ==> order[i] in SizeMap(order, sizes) && sizes[i] == SizeMap(order, sizes)[order[i]]
    requires forall i :: 0 <= i < |order'| ==> order'[i] in SizeMap(order, sizes) && sizes'[i] == SizeMap(order, sizes)[order'[i]]
    ensures multiset(order) == multiset(order') <==> multiset(Pairs(order, sizes)) == multiset(Pairs(order', sizes'))
  {
    var f := SizeMap(order, sizes);
    hide SizeMap, Pairs;
    if multiset(order) == multiset(order') {
      forall p ensures multiset(Pairs(order, sizes))[p] == multiset(Pairs(order', sizes'))[p] {
        PairCount(order, sizes, f, p.0, p.1);
        PairCount(order', sizes', f, p.0, p.1);
      }
    }
    if multiset(Pairs(order, sizes)) == multiset(Pairs(order', sizes')) {
      forall c ensures multiset(order)[c] == multiset(order')[c] {
        if c in f {
          PairCount(order, sizes, f, c, f[c]);
          PairCount(order', sizes', f, c, f[c]);
        }
      }
    }
  }

  lemma PairsShareSizes(order: seq<Cid>, sizes: seq<nat>, order': seq<Cid>, sizes': seq<nat>)
    requires |order| == |sizes| && |order'| == |sizes'| && SingleSized(order, sizes)
    requires multiset(Pairs(order, sizes)) == multiset(Pairs(order', sizes'))
    ensures forall i :: 0 <= i < |order'| ==> order'[i] in SizeMap(order, sizes) && sizes'[i] == SizeMap(order, sizes)[order'[i]]
  {
    PairsAt(order, sizes);
    PairsAt(order', sizes');
    SingleSizeMap(order, sizes);
    forall i | 0 <= i < |order'| ensures order'[i] in SizeMap(order, sizes) && sizes'[i] == SizeMap(order, sizes)[order'[i]] {
      assert Pairs(order', sizes')[i] in multiset(Pairs(order', sizes'));
      assert Pairs(order', sizes')[i] in Pairs(order, sizes);
      var k :| 0 <= k < |order| && Pairs(order, sizes)[k] == Pairs(order', sizes')[i];
    }
  }

  /** The permutation test is right for every other summary if and only if this one has one size per identifier. */
  lemma PermutationTestExactly(order: seq<Cid>, sizes: seq<nat>)
    requires |order| == |sizes|
    ensures SingleSized(order, sizes) <==>
      forall order': seq<Cid>, sizes': seq<nat> :: |order'| == |sizes'| ==>
        (EqualBlockLists(order, sizes, order', sizes') <==> multiset(Pairs(order, sizes)) == multiset(Pairs(order', sizes')))
  {
    if SingleSized(order, sizes) {
      forall order': seq<Cid>, sizes': seq<nat> | |order'| == |sizes'|
        ensures EqualBlockLists(order, sizes, order', sizes') <==> multiset(Pairs(order, sizes)) == multiset(Pairs(order', sizes')) {
        EqualMeansPermutation(order, sizes, order', sizes');
      }
    } else {
      ReflexiveExactly(order, sizes);
    }
  }

  /** A summary equals itself if and only if it lists no identifier with two sizes. */
  lemma ReflexiveExactly(order: seq<Cid>, sizes: seq<nat>)
    requires |order| == |sizes|
    ensures EqualBlockLists(order, sizes, order, sizes) <==> SingleSized(order, sizes)
  {
    if SingleSized(order, sizes) {
      SingleSizeMap(order, sizes);
    }
  }

  /** On summaries with one size per identifier it is an equivalence. */
  lemma EqualIsEquivalence(o1: seq<Cid>, s1: seq<nat>, o2: seq<Cid>, s2: seq<nat>, o3: seq<Cid>, s3: seq<nat>)
    requires |o1| == |s1| && |o2| == |s2| && |o3| == |s3|
    requires SingleSized(o1, s1) && SingleSized(o2, s2) && SingleSized(o3, s3)
    ensures EqualBlockLists(o1, s1, o1, s1)
    ensures EqualBlockLists(o1, s1, o2, s2) ==> EqualBlockLists(o2, s2, o1, s1)
    ensures EqualBlockLists(o1, s1, o2, s2) && EqualBlockLists(o2, s2, o3, s3) ==> EqualBlockLists(o1, s1, o3, s3)
  {
    hide EqualBlockLists, SingleSized, Pairs;
    EqualMeansPermutation(o1, s1, o1, s1);
    EqualMeansPermutation(o1, s1, o2, s2);
    EqualMeansPermutation(o2, s2, o1, s1);
    EqualMeansPermutation(o2, s2, o3, s3);
    EqualMeansPermutation(o1, s1, o3, s3);
  }

  /** However the two builds were ordered, summaries of the same tree are equal in their blocks. */
  lemma BuildsAreEqual(t: FsTree, wrapInDir: bool, size: Sizer, s1: Summary, s2: Summary)
    requires Built(t, wrapInDir, size, s1) && Built(t, wrapInDir, size, s2)
    ensures |s1.blockOrder| == |s1.blockSizes|
    ensures EqualBlockLists(s1.blockOrder, s1.blockSizes, s2.blockOrder, s2.blockSizes)
  {
    hide Built;
    OrderIndependence(t, wrapInDir, size, s1, s2);
    BuiltIsSized(t, wrapInDir, size, s1);
    BuiltIsSized(t, wrapInDir, size, s2);
    SizedAreEqual(s1, s2, size);
  }

  lemma SizedAreEqual(s1: Summary, s2: Summary, size: Sizer)
    requires Sized(s1, size) && Sized(s2, size) && multiset(s1.blockOrder) == multiset(s2.blockOrder)
    ensures EqualBlockLists(s1.blockOrder, s1.blockSizes, s2.blockOrder, s2.blockSizes)
  {
    forall i | 0 <= i < |s2.blockOrder|
      ensures s2.blockOrder[i] in s1.blockOrder && s2.blockSizes[i] == LastSize(s1.blockOrder, s1.blockSizes, s2.blockOrder[i]) {
      assert s2.blockOrder[i] in multiset(s1.blockOrder);
      var k := LastSizeListed(s1.blockOrder, s1.blockSizes, s2.blockOrder[i]);
    }
  }

  lemma BuiltIsSized(t: FsTree, wrapInDir: bool, size: Sizer, s: Summary)
    requires Built(t, wrapInDir, size, s)
    ensures Sized(s, size) && |s.blockOrder| == |s.blockSizes|
  {
    if wrapInDir || SoleFile(t).None? {
      var order, gone :| Finished(t, size, order, gone, s);
    }
  }

  ghost predicate IsLast(order: seq<Cid>, j: int) {
    0 <= j < |order| && forall k :: j < k < |order| ==> order[k] != order[j]
  }

  lemma {:induction false} LastSizeIs(order: seq<Cid>, sizes: seq<nat>, j: nat)
    requires |order| == |sizes| && IsLast(order, j)
    ensures LastSize(order, sizes, order[j]) == sizes[j]
  {
    if j < |order| - 1 {
      LastSizeIs(order[..|order| - 1], sizes[..|order| - 1], j);
    }
  }

  lemma {:induction false} LastPlace(order: seq<Cid>, c: Cid) returns (j: nat)
    requires c in order
    ensures IsLast(order, j) && order[j] == c
  {
    var n := |order| - 1;
    if order[n] == c {
      j := n;
    } else {
      j := LastPlace(order[..n], c);
    }
  }

  /** What is decided, place by place: where an identifier stands last on this side, its size is that of every place on the other. */
  lemma EqualExactly(order: seq<Cid>, sizes: seq<nat>, order': seq<Cid>, sizes': seq<nat>)
    requires |order| == |sizes|
    ensures EqualBlockLists(order, sizes, order', sizes') <==>
      && |order'| == |sizes'| && multiset(order) == multiset(order')
      && forall i, j :: 0 <= i < |order'| && IsLast(order, j) && order[j] == order'[i] ==> sizes'[i] == sizes[j]
  {
    hide LastSize;
    forall j | IsLast(order, j) ensures LastSize(order, sizes, order[j]) == sizes[j] {
      LastSizeIs(order, sizes, j);
    }
    if multiset(order) == multiset(order') {
      forall i | 0 <= i < |order'| ensures order'[i] in order {
        assert order'[i] in multiset(order');
      }
      forall i | 0 <= i < |order'| ensures exists j :: IsLast(order, j) && order[j] == order'[i] {
        var j := LastPlace(order, order'[i]);
      }
    }
  }
}
