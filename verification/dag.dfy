/** The Merkle DAG: an identifier is the hash of a node, so it stands for the node itself. */
module Dag {
  import opened Base

  /** `Undef` is go-cid's undefined identifier; every other one is the hash of exactly one node. */
  datatype Cid = Undef | Of(node: Node)

  datatype Node = Directory(links: seq<Link>) | FileNode(links: seq<Link>, payload: Bytes, fileSize: nat)

  datatype Link = Link(name: string, cid: Cid)

  /** AnalyzeNode's FileSize: what a UnixFS file declares of itself; nothing for directories. */
  function LogicalSize(n: Node): nat {
    match n
    case Directory(_) => 0
    case FileNode(_, _, fileSize) => fileSize
  }

  // ---------------------------------------------------------------- reachability and height

  function Links(c: Cid): seq<Link> {
    if c.Undef? then [] else c.node.links
  }

  /** The links that lead somewhere: those whose identifier is defined. */
  function Defined(ls: seq<Link>): seq<Cid> {
    if ls == [] then []
    else if ls[0].cid == Undef then Defined(ls[1..])
    else [ls[0].cid] + Defined(ls[1..])
  }

  /** Everything reachable from an identifier, itself included. */
  function Reach(c: Cid): set<Cid> {
    match c
    case Undef => {c}
    case Of(node) => {c} + ReachLinks(node.links)
  }

  function ReachLinks(ls: seq<Link>): set<Cid> {
    if ls == [] then {} else Reach(ls[0].cid) + ReachLinks(ls[1..])
  }

  function Height(c: Cid): nat {
    match c
    case Undef => 0
    case Of(node) => HeightLinks(node.links)
  }

  /** One more than the height of the highest link; a node without links has height 0. */
  function HeightLinks(ls: seq<Link>): nat {
    if ls == [] then 0 else Max(1 + Height(ls[0].cid), HeightLinks(ls[1..]))
  }

  function Max(x: nat, y: nat): nat {
    if x < y then y else x
  }

  lemma {:induction false} LinkIsLower(ls: seq<Link>, i: nat)
    requires i < |ls|
    ensures Height(ls[i].cid) < HeightLinks(ls)
  {
    if i > 0 {
      LinkIsLower(ls[1..], i - 1);
    }
  }

  lemma {:induction false} ReachOfLink(ls: seq<Link>, i: nat)
    requires i < |ls|
    ensures Reach(ls[i].cid) <= ReachLinks(ls)
  {
    if i > 0 {
      ReachOfLink(ls[1..], i - 1);
    }
  }

  lemma {:induction false} ReachedThrough(ls: seq<Link>, c: Cid) returns (i: nat)
    requires c in ReachLinks(ls)
    ensures i < |ls| && c in Reach(ls[i].cid)
  {
    if c in Reach(ls[0].cid) {
      i := 0;
    } else {
      i := ReachedThrough(ls[1..], c);
      i := i + 1;
    }
  }

  /** Reachability is transitive. */
  lemma {:induction false} ReachTransitive(a: Cid, b: Cid)
    requires b in Reach(a)
    ensures Reach(b) <= Reach(a)
    decreases a
  {
    if a != b {
      var i := ReachedThrough(a.node.links, b);
      ReachTransitive(a.node.links[i].cid, b);
      ReachOfLink(a.node.links, i);
    }
  }

  // ---------------------------------------------------------------- links sorted by name

  predicate Less(a: string, b: string) {
    if b == "" then false
    else if a == "" then true
    else if a[0] != b[0] then a[0] < b[0]
    else Less(a[1..], b[1..])
  }

  lemma {:induction false} LessIsStrictOrder(a: string, b: string, c: string)
    ensures !Less(a, a)
    ensures Less(a, b) ==> !Less(b, a)
    ensures a != b ==> Less(a, b) || Less(b, a)
    ensures Less(a, b) && Less(b, c) ==> Less(a, c)
  {
    if a != "" {
      if b != "" && c != "" {
        LessIsStrictOrder(a[1..], b[1..], c[1..]);
      } else if b != "" {
        LessIsStrictOrder(a[1..], b[1..], "");
      } else {
        LessIsStrictOrder(a[1..], "", "");
      }
      if b != "" && a[0] == b[0] && a[1..] == b[1..] {
        assert a == [a[0]] + a[1..] == b;
      }
    }
  }

  /** The order of names: the first difference decides, and a prefix comes first. */
  lemma {:induction false} LessExactly(a: string, b: string)
    ensures Less(a, b) <==>
      ((|a| < |b| && b[..|a|] == a) || exists k :: 0 <= k < |a| && k < |b| && a[..k] == b[..k] && a[k] < b[k])
  {
    if a == "" || b == "" {
    } else if a[0] != b[0] {
      assert a[..0] == b[..0];
      forall k | 0 < k < |a| && k < |b| ensures a[..k] != b[..k] {
        assert a[..k][0] == a[0] && b[..k][0] == b[0];
      }
      assert |a| < |b| ==> b[..|a|][0] == b[0];
    } else {
      LessExactly(a[1..], b[1..]);
      SharedHead(a, b);
    }
  }

  lemma SharedHead(a: string, b: string)
    requires a != "" && b != "" && a[0] == b[0]
    ensures |a| < |b| && b[..|a|] == a <==> |a[1..]| < |b[1..]| && b[1..][..|a[1..]|] == a[1..]
    ensures (exists k :: 0 <= k < |a| && k < |b| && a[..k] == b[..k] && a[k] < b[k])
      <==> exists k :: 0 <= k < |a[1..]| && k < |b[1..]| && a[1..][..k] == b[1..][..k] && a[1..][k] < b[1..][k]
  {
    forall k | 0 <= k < |a| && k < |b| ensures a[..k + 1] == b[..k + 1] <==> a[1..][..k] == b[1..][..k] {
      assert a[..k + 1] == [a[0]] + a[1..][..k] && b[..k + 1] == [b[0]] + b[1..][..k];
    }
    if |a| < |b| {
      assert a == [a[0]] + a[1..] && b[..|a|] == [b[0]] + b[1..][..|a| - 1];
    }
    if k :| 0 <= k < |a| && k < |b| && a[..k] == b[..k] && a[k] < b[k] {
      assert k > 0 && a[..k - 1 + 1] == b[..k - 1 + 1];
      assert a[1..][..k - 1] == b[1..][..k - 1] && a[1..][k - 1] < b[1..][k - 1];
    }
    if k :| 0 <= k < |a[1..]| && k < |b[1..]| && a[1..][..k] == b[1..][..k] && a[1..][k] < b[1..][k] {
      assert a[..k + 1] == b[..k + 1] && a[k + 1] < b[k + 1];
    }
  }

  /** dag-pb stores links sorted by name, keeping the order of equal names. */
  function SortLinks(ls: seq<Link>): (r: seq<Link>)
    ensures |r| == |ls|
  {
    if ls == [] then [] else Insert(ls[0], SortLinks(ls[1..]))
  }

  function Insert(l: Link, sorted: seq<Link>): (r: seq<Link>)
    ensures |r| == |sorted| + 1
  {
    if sorted == [] || !Less(sorted[0].name, l.name) then [l] + sorted else [sorted[0]] + Insert(l, sorted[1..])
  }

  ghost predicate DistinctNames(ls: seq<Link>) {
    forall i, j :: 0 <= i < j < |ls| ==> ls[i].name != ls[j].name
  }

  ghost predicate StrictlySorted(ls: seq<Link>) {
    forall i, j :: 0 <= i < j < |ls| ==> Less(ls[i].name, ls[j].name)
  }

  lemma {:induction false} InsertElements(l: Link, sorted: seq<Link>, x: Link)
    ensures x in Insert(l, sorted) <==> x == l || x in sorted
  {
    if sorted == [] || !Less(sorted[0].name, l.name) {
    } else {
      InsertElements(l, sorted[1..], x);
      assert sorted == [sorted[0]] + sorted[1..];
    }
  }

  lemma {:induction false} SortElements(ls: seq<Link>, x: Link)
    ensures x in SortLinks(ls) <==> x in ls
  {
    if ls != [] {
      SortElements(ls[1..], x);
      InsertElements(ls[0], SortLinks(ls[1..]), x);
    }
  }

  lemma {:induction false} InsertSorted(l: Link, sorted: seq<Link>)
    requires StrictlySorted(sorted) && forall i :: 0 <= i < |sorted| ==> sorted[i].name != l.name
    ensures StrictlySorted(Insert(l, sorted))
  {
    if sorted == [] {
    } else if !Less(sorted[0].name, l.name) {
      LessIsStrictOrder(l.name, sorted[0].name, "");
      forall j | 0 <= j < |sorted| ensures Less(l.name, sorted[j].name) {
        LessIsStrictOrder(l.name, sorted[0].name, sorted[j].name);
      }
    } else {
      var r := Insert(l, sorted[1..]);
      InsertSorted(l, sorted[1..]);
      forall j | 0 <= j < |r| ensures Less(sorted[0].name, r[j].name) {
        InsertElements(l, sorted[1..], r[j]);
      }
    }
  }

  lemma {:induction false} SortSorts(ls: seq<Link>)
    requires DistinctNames(ls)
    ensures StrictlySorted(SortLinks(ls))
  {
    if ls != [] {
      var rest := SortLinks(ls[1..]);
      SortSorts(ls[1..]);
      forall i | 0 <= i < |rest| ensures rest[i].name != ls[0].name {
        SortElements(ls[1..], rest[i]);
        var k :| 0 <= k < |ls[1..]| && ls[1..][k] == rest[i];
        assert ls[k + 1].name != ls[0].name;
      }
      InsertSorted(ls[0], rest);
    }
  }

  /** A strictly sorted list is determined by its elements. */
  lemma {:induction false} SortedUnique(a: seq<Link>, b: seq<Link>)
    requires StrictlySorted(a) && StrictlySorted(b) && forall x :: x in a <==> x in b
    ensures a == b
  {
    if a == [] {
      FirstIn(b);
    } else {
      assert a[0] in b && b != [] && b[0] in a;
      SameHead(a, b);
      forall x ensures x in a[1..] <==> x in b[1..] {
        TailElements(a, x);
        TailElements(b, x);
      }
      SortedUnique(a[1..], b[1..]);
      assert a == [a[0]] + a[1..] && b == [b[0]] + b[1..];
    }
  }

  lemma SameHead(a: seq<Link>, b: seq<Link>)
    requires StrictlySorted(a) && StrictlySorted(b) && a != [] && b != [] && a[0] in b && b[0] in a
    ensures a[0] == b[0]
  {
    LessIsStrictOrder(a[0].name, b[0].name, "");
  }

  lemma TailElements(a: seq<Link>, x: Link)
    requires StrictlySorted(a) && a != []
    ensures x in a[1..] <==> x in a && x != a[0]
  {
    LessIsStrictOrder(a[0].name, a[0].name, "");
    assert a == [a[0]] + a[1..];
  }

  /** The encoded directory depends only on which links it has, not on the order they were added in. */
  lemma SortCanonical(a: seq<Link>, b: seq<Link>)
    requires DistinctNames(a) && DistinctNames(b) && forall x :: x in a <==> x in b
    ensures SortLinks(a) == SortLinks(b)
  {
    SortSorts(a);
    SortSorts(b);
    forall x ensures x in SortLinks(a) <==> x in SortLinks(b) {
      SortElements(a, x);
      SortElements(b, x);
    }
    SortedUnique(SortLinks(a), SortLinks(b));
  }
}
