/** CarHeader.Matches of internal/carv2/car.go: roots compared "in any order". */
module HeaderMatching {
  import opened Cids
  import opened CarReaders

  /** What is promised: the same version, and the same roots in any order. */
  ghost predicate SameRootsInAnyOrder(h: CarHeader, other: CarHeader) {
    h.version == other.version && multiset(h.roots) == multiset(other.roots)
  }

  method ContainsRoot(h: CarHeader, root: Cid) returns (found: bool)
    ensures found <==> root in h.roots
  {
    for i := 0 to |h.roots|
      invariant root !in h.roots[..i]
    {
      if h.roots[i] == root {
        return true;
      }
    }
    return false;
  }

  /** What is decided: as many roots, each of the receiver's among the other's. */
  ghost predicate Covered(h: CarHeader, other: CarHeader) {
    h.version == other.version && |h.roots| == |other.roots| && forall i :: 0 <= i < |h.roots| ==> h.roots[i] in other.roots
  }

  method Matches(h: CarHeader, other: CarHeader) returns (match_: bool)
    ensures match_ <==> Covered(h, other)
  {
    if h.version != other.version {
      return false;
    }
    if |h.roots| != |other.roots| {
      return false;
    }
    if |h.roots| == 1 {
      return h.roots[0] == other.roots[0];
    }
    for i := 0 to |h.roots|
      invariant forall k :: 0 <= k < i ==> h.roots[k] in other.roots
    {
      var found := ContainsRoot(other, h.roots[i]);
      if !found {
        return false;
      }
    }
    return true;
  }

  ghost predicate NoRepeatedRoot(roots: seq<Cid>) {
    forall i, j :: 0 <= i < j < |roots| ==> roots[i] != roots[j]
  }

  lemma DropElement(roots: seq<Cid>, k: nat)
    requires k < |roots|
    ensures multiset(roots) == multiset(roots[..k] + roots[k + 1..]) + multiset{roots[k]}
  {
    assert roots == roots[..k] + [roots[k]] + roots[k + 1..];
  }

  /** As many distinct roots, all among the others, are the others in another order. */
  lemma {:induction false} DistinctCover(a: seq<Cid>, b: seq<Cid>)
    requires |a| == |b| && NoRepeatedRoot(a) && forall i :: 0 <= i < |a| ==> a[i] in b
    ensures multiset(a) == multiset(b)
  {
    if a != [] {
      var k :| 0 <= k < |b| && b[k] == a[0];
      var rest := b[..k] + b[k + 1..];
      DropElement(b, k);
      forall i | 0 <= i < |a[1..]| ensures a[1..][i] in rest {
        assert a[1..][i] == a[i + 1] && a[i + 1] != a[0];
        OthersStay(b, k, a[i + 1]);
      }
      DistinctCover(a[1..], rest);
      assert a == [a[0]] + a[1..];
    }
  }

  lemma OthersStay(b: seq<Cid>, k: nat, x: Cid)
    requires k < |b| && x in b && x != b[k]
    ensures x in b[..k] + b[k + 1..]
  {
    var i :| 0 <= i < |b| && b[i] == x;
    assert (b[..k] + b[k + 1..])[if i < k then i else i - 1] == x;
  }

  /** A header with a repeated root matches some header that does not have the same roots. */
  lemma RepeatedRootMatchesMore(h: CarHeader, i: nat, j: nat) returns (other: CarHeader)
    requires i < j < |h.roots| && h.roots[i] == h.roots[j]
    ensures Covered(h, other) && !SameRootsInAnyOrder(h, other)
  {
    var replacement := if h.roots[j] == V1(0, 0, []) then V1(1, 0, []) else V1(0, 0, []);
    var roots := h.roots[j := replacement];
    other := h.(roots := roots);
    forall k | 0 <= k < |h.roots| ensures h.roots[k] in roots {
      assert roots[if k == j then i else k] == h.roots[k];
    }
    DropElement(h.roots, j);
    DropElement(roots, j);
    assert h.roots[..j] + h.roots[j + 1..] == roots[..j] + roots[j + 1..];
    assert multiset(h.roots)[h.roots[j]] == multiset(roots)[h.roots[j]] + 1;
  }

  /** Matches keeps its promise for every other header if and only if the receiver repeats no root. */
  lemma MatchesExactly(h: CarHeader)
    ensures NoRepeatedRoot(h.roots) <==> forall other :: Covered(h, other) <==> SameRootsInAnyOrder(h, other)
  {
    forall other | SameRootsInAnyOrder(h, other) ensures Covered(h, other) {
      assert |multiset(h.roots)| == |h.roots| && |multiset(other.roots)| == |other.roots|;
      forall i | 0 <= i < |h.roots| ensures h.roots[i] in other.roots {
        assert h.roots[i] in multiset(h.roots);
      }
    }
    if NoRepeatedRoot(h.roots) {
      forall other | Covered(h, other) ensures SameRootsInAnyOrder(h, other) {
        DistinctCover(h.roots, other.roots);
      }
    } else {
      var i: nat, j: nat :| i < j < |h.roots| && h.roots[i] == h.roots[j];
      var other := RepeatedRootMatchesMore(h, i, j);
    }
  }

  /** Nor is matching symmetric then. */
  lemma MatchesIsNotSymmetric(a: Cid, b: Cid)
    requires a != b
    ensures Covered(CarHeader([a, a], 1), CarHeader([a, b], 1)) && !Covered(CarHeader([a, b], 1), CarHeader([a, a], 1))
  {
    assert [a, b][0] == a && [a, b][1] == b;
  }
}
