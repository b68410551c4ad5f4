/** The processing order of the hashing passes, and the links of one directory block, as the loops compute them. */
module BuilderOrder {
  import opened Dag
  import opened FsTrees
  import opened Bfs
  import opened TreeSummaries
  import opened BuilderSteps

  // ---------------------------------------------------------------- sorting directories

  /** The comparison of sort.Slice: ROOT after everything, otherwise more slashes first. */
  predicate Before(p: Path, q: Path) {
    if p == ROOT then false else if q == ROOT then true else |p| > |q|
  }

  function InsertDir(p: Path, sorted: seq<Path>): seq<Path> {
    if sorted == [] || !Before(sorted[0], p) then [p] + sorted else [sorted[0]] + InsertDir(p, sorted[1..])
  }

  /** No later element comes before an earlier one. */
  ghost predicate Ordered(ps: seq<Path>) {
    forall i, j :: 0 <= i < j < |ps| ==> !Before(ps[j], ps[i])
  }

  lemma {:induction false} InsertDirElements(p: Path, sorted: seq<Path>, x: Path)
    ensures x in InsertDir(p, sorted) <==> x == p || x in sorted
  {
    if sorted == [] || !Before(sorted[0], p) {
    } else {
      InsertDirElements(p, sorted[1..], x);
      assert sorted == [sorted[0]] + sorted[1..];
    }
  }

  lemma {:induction false} InsertDirOrdered(p: Path, sorted: seq<Path>)
    requires Ordered(sorted) && NoDuplicates(sorted) && p !in sorted
    ensures Ordered(InsertDir(p, sorted)) && NoDuplicates(InsertDir(p, sorted))
  {
    if sorted == [] {
    } else if !Before(sorted[0], p) {
      assert sorted == [sorted[0]] + sorted[1..];
    } else {
      var r := InsertDir(p, sorted[1..]);
      InsertDirOrdered(p, sorted[1..]);
      forall j | 0 <= j < |r| ensures !Before(r[j], sorted[0]) && r[j] != sorted[0] {
        InsertDirElements(p, sorted[1..], r[j]);
        if r[j] in sorted[1..] {
          var k :| 0 <= k < |sorted[1..]| && sorted[1..][k] == r[j];
          assert sorted[k + 1] == r[j];
        }
      }
    }
  }

  /** Collects the directories in whatever order the map yields them, and sorts them. */
  method SortedDirs(es: Entries) returns (order: seq<Path>)
    requires ROOT in es && es[ROOT].isDir
    ensures DeepestFirst(es, order)
  {
    order := [];
    var keys := es.Keys;
    while keys != {}
      invariant keys <= es.Keys
      invariant Ordered(order) && NoDuplicates(order)
      invariant forall p :: p in order <==> p in es && es[p].isDir && p !in keys
      decreases |keys|
    {
      var p :| p in keys;
      keys := keys - {p};
      if es[p].isDir {
        InsertDirOrdered(p, order);
        forall x ensures x in InsertDir(p, order) <==> x == p || x in order {
          InsertDirElements(p, order, x);
        }
        order := InsertDir(p, order);
      }
    }
    OrderedIsDeepestFirst(es, order);
  }

  lemma OrderedIsDeepestFirst(es: Entries, order: seq<Path>)
    requires ROOT in es && es[ROOT].isDir && Ordered(order) && NoDuplicates(order)
    requires forall p :: p in order <==> p in es && es[p].isDir
    ensures DeepestFirst(es, order)
  {
    assert ROOT in order;
    var k :| 0 <= k < |order| && order[k] == ROOT;
    if k < |order| - 1 {
      assert !Before(order[|order| - 1], order[k]);
    }
    forall i, j | 0 <= i < j < |order| - 1 ensures |order[i]| >= |order[j]| {
      assert !Before(order[j], order[i]);
    }
  }

  // ---------------------------------------------------------------- the links of one block

  /** The entry of a listed child gives a link under its own name. */
  ghost predicate ChildOf(es: Entries, p: Path, q: Path) {
    q != [] && Front(q) == TreePath(p) && (q in es ==> es[q].name == Last(q))
  }

  lemma {:induction false} ChildLinkElements(es: Entries, p: Path, children: seq<Path>, l: Link)
    requires forall i :: 0 <= i < |children| ==> ChildOf(es, p, children[i])
    ensures l in ChildLinks(es, children)
       <==> var q := ChildKey(p, l.name); q in children && q in es && l.cid == es[q].cid && l.cid != Undef
  {
    if children != [] {
      ChildLinkElements(es, p, children[1..], l);
      var h := children[0];
      assert children == [h] + children[1..];
      assert h == Front(h) + [Last(h)];
      assert Last(ChildKey(p, l.name)) == l.name;
    }
  }

  lemma HeadNotInTail(ps: seq<Path>)
    requires NoDuplicates(ps) && ps != []
    ensures ps[0] !in ps[1..]
  {
    forall k | 0 <= k < |ps[1..]| ensures ps[1..][k] != ps[0] {
      assert ps[1..][k] == ps[k + 1];
    }
  }

  lemma {:induction false} ChildLinksDistinct(es: Entries, p: Path, children: seq<Path>)
    requires forall i :: 0 <= i < |children| ==> ChildOf(es, p, children[i])
    requires NoDuplicates(children)
    ensures DistinctNames(ChildLinks(es, children))
  {
    if children != [] {
      var h, rest := children[0], ChildLinks(es, children[1..]);
      ChildLinksDistinct(es, p, children[1..]);
      if h in es {
        assert h == Front(h) + [Last(h)] == ChildKey(p, es[h].name);
        forall i | 0 <= i < |rest| ensures rest[i].name != es[h].name {
          ChildLinkElements(es, p, children[1..], rest[i]);
          HeadNotInTail(children);
        }
      }
    }
  }

  lemma SkeletonChildren(u: FsTree, es: Entries, p: Path)
    requires Skeleton(u, {}, es) && p in es && es[p].isDir
    ensures NoDuplicates(es[p].children)
    ensures forall i :: 0 <= i < |es[p].children| ==> ChildOf(es, p, es[p].children[i])
    ensures p == ROOT ==> RootFiles(es)
  {
    if At(u, p).Some? {
      assert ChildrenMatch(u, {}, p, es[p].children);
      forall i | 0 <= i < |es[p].children| ensures ChildOf(es, p, es[p].children[i])
                                               && (p == ROOT ==> es[p].children[i] in es && !es[es[p].children[i]].isDir) {
        var q := es[p].children[i];
        assert Listed(u, {}, p, q);
        assert q in es && q != ROOT && At(u, q).Some?;
      }
    }
  }

  predicate IsRootDir(es: Entries, q: Path) {
    q in es && es[q].isDir && q != ROOT && es[q].path == []
  }

  /** sort.Strings on root-level keys. */
  function InsertName(p: Path, sorted: seq<Path>): seq<Path>
    requires p != [] && forall i :: 0 <= i < |sorted| ==> sorted[i] != []
  {
    if sorted == [] || !Less(sorted[0][0], p[0]) then [p] + sorted else [sorted[0]] + InsertName(p, sorted[1..])
  }

  lemma {:induction false} InsertNameElements(p: Path, sorted: seq<Path>)
    requires p != [] && forall i :: 0 <= i < |sorted| ==> sorted[i] != []
    ensures forall x :: x in InsertName(p, sorted) <==> x == p || x in sorted
    ensures NoDuplicates(sorted) && p !in sorted ==> NoDuplicates(InsertName(p, sorted))
    ensures forall i :: 0 <= i < |InsertName(p, sorted)| ==> InsertName(p, sorted)[i] != []
  {
    if sorted == [] || !Less(sorted[0][0], p[0]) {
      assert forall j :: 0 <= j < |sorted| ==> sorted[j] in sorted;
    } else {
      var r := InsertName(p, sorted[1..]);
      InsertNameElements(p, sorted[1..]);
      assert sorted == [sorted[0]] + sorted[1..];
      if NoDuplicates(sorted) && p !in sorted {
        forall j | 0 <= j < |r| ensures r[j] != sorted[0] {
          assert r[j] in r;
          if r[j] in sorted[1..] {
            var k :| 0 <= k < |sorted[1..]| && sorted[1..][k] == r[j];
            assert sorted[k + 1] == r[j];
          }
        }
      }
    }
  }

  /** The root-level directories, found by scanning all entries, in order of their names. */
  method RootDirs(es: Entries) returns (dirs: seq<Path>)
    requires forall q :: q in es ==> WellNamed(q, es[q])
    ensures NoDuplicates(dirs) && forall q :: q in dirs <==> IsRootDir(es, q)
  {
    dirs := [];
    var keys := es.Keys;
    while keys != {}
      invariant keys <= es.Keys
      invariant NoDuplicates(dirs)
      invariant forall i :: 0 <= i < |dirs| ==> dirs[i] != []
      invariant forall q :: q in dirs <==> IsRootDir(es, q) && q !in keys
      decreases |keys|
    {
      var q :| q in keys;
      keys := keys - {q};
      assert WellNamed(q, es[q]);
      if es[q].isDir && q != ROOT && es[q].path == [] {
        InsertNameElements(q, dirs);
        dirs := InsertName(q, dirs);
      }
    }
  }

  predicate HasName(links: seq<Link>, name: string) {
    exists i :: 0 <= i < |links| && links[i].name == name
  }

  /** Which links the first `i` root directories add to those of the listed files. */
  ghost predicate RootLinked(es: Entries, dirs: seq<Path>, i: nat, base: seq<Link>, l: Link)
    requires i <= |dirs| && forall k :: 0 <= k < |dirs| ==> dirs[k] in es
  {
    l in base || exists k :: 0 <= k < i && l == Link(es[dirs[k]].name, es[dirs[k]].cid)
  }

  /** The links after the first `i` root directories: distinct names, and exactly those wanted so far. */
  ghost predicate LinkedUpTo(es: Entries, dirs: seq<Path>, i: nat, base: seq<Link>, links: seq<Link>) {
    && i <= |dirs| && (forall k :: 0 <= k < |dirs| ==> dirs[k] in es)
    && DistinctNames(links) && forall l :: l in links <==> RootLinked(es, dirs, i, base, l)
  }

  /** The children the virtual root lists: files under their own names. */
  ghost predicate RootFiles(es: Entries) {
    && ROOT in es
    && NoDuplicates(es[ROOT].children)
    && (forall k :: 0 <= k < |es[ROOT].children| ==> ChildOf(es, ROOT, es[ROOT].children[k]))
    && (forall q :: q in es[ROOT].children ==> q in es && !es[q].isDir)
    && (forall q :: q in es ==> WellNamed(q, es[q]))
  }

  /** The ROOT block: the listed files, then every root-level directory not linked already. */
  method AddRootDirs(es: Entries, base: seq<Link>) returns (links: seq<Link>)
    requires RootFiles(es) && base == ChildLinks(es, es[ROOT].children)
    ensures LinksExactly(es, ROOT, links)
  {
    hide DistinctNames, RootLinked, Linked, ChildLinks, HasName, NoDuplicates;
    var dirs := RootDirs(es);
    LinksStart(es, dirs, base);
    links := base;
    for i := 0 to |dirs|
      invariant LinkedUpTo(es, dirs, i, base, links)
    {
      var child := es[dirs[i]];
      NameIsNew(es, dirs, i, base, links);
      if !HasName(links, child.name) {
        AddLink(es, dirs, i, base, links);
        links := links + [Link(child.name, child.cid)];
      }
    }
    forall l ensures l in links <==> Linked(es, ROOT, l) {
      RootLinkedExactly(es, dirs, base, l);
    }
  }

  lemma LinksStart(es: Entries, dirs: seq<Path>, base: seq<Link>)
    requires RootFiles(es) && base == ChildLinks(es, es[ROOT].children)
    requires forall q :: q in dirs <==> IsRootDir(es, q)
    ensures LinkedUpTo(es, dirs, 0, base, base)
  {
    ChildLinksDistinct(es, ROOT, es[ROOT].children);
    forall k | 0 <= k < |dirs| ensures dirs[k] in es {
      assert dirs[k] in dirs;
    }
  }

  lemma AddLink(es: Entries, dirs: seq<Path>, i: nat, base: seq<Link>, links: seq<Link>)
    requires LinkedUpTo(es, dirs, i, base, links) && i < |dirs| && !HasName(links, es[dirs[i]].name)
    ensures LinkedUpTo(es, dirs, i + 1, base, links + [Link(es[dirs[i]].name, es[dirs[i]].cid)])
  {
    var added := Link(es[dirs[i]].name, es[dirs[i]].cid);
    forall l ensures l in links + [added] <==> RootLinked(es, dirs, i + 1, base, l) {
      assert RootLinked(es, dirs, i, base, l) <==> l in links;
    }
  }

  lemma NameIsNew(es: Entries, dirs: seq<Path>, i: nat, base: seq<Link>, links: seq<Link>)
    requires RootFiles(es) && base == ChildLinks(es, es[ROOT].children)
    requires i < |dirs| && NoDuplicates(dirs) && forall q :: q in dirs <==> IsRootDir(es, q)
    requires LinkedUpTo(es, dirs, i, base, links)
    ensures !HasName(links, es[dirs[i]].name)
  {
    if j :| 0 <= j < |links| && links[j].name == es[dirs[i]].name {
      var l := links[j];
      assert l in links && IsRootDir(es, dirs[i]) && WellNamed(dirs[i], es[dirs[i]]);
      assert dirs[i] == Front(dirs[i]) + [Last(dirs[i])] == ChildKey(ROOT, l.name);
      if l in base {
        ChildLinkElements(es, ROOT, es[ROOT].children, l);
      } else {
        var k :| 0 <= k < i && l == Link(es[dirs[k]].name, es[dirs[k]].cid);
        assert IsRootDir(es, dirs[k]) && WellNamed(dirs[k], es[dirs[k]]);
        assert dirs[k] == Front(dirs[k]) + [Last(dirs[k])];
      }
    }
  }

  lemma RootLinkedExactly(es: Entries, dirs: seq<Path>, base: seq<Link>, l: Link)
    requires RootFiles(es) && base == ChildLinks(es, es[ROOT].children)
    requires forall q :: q in dirs <==> IsRootDir(es, q)
    requires forall k :: 0 <= k < |dirs| ==> dirs[k] in es
    ensures RootLinked(es, dirs, |dirs|, base, l) <==> Linked(es, ROOT, l)
  {
    var q := ChildKey(ROOT, l.name);
    ChildLinkElements(es, ROOT, es[ROOT].children, l);
    assert Front(q) == [] && Last(q) == l.name;
    if Linked(es, ROOT, l) && l !in base {
      assert WellNamed(q, es[q]) && IsRootDir(es, q);
      var k :| 0 <= k < |dirs| && dirs[k] == q;
    }
    if k :| 0 <= k < |dirs| && l == Link(es[dirs[k]].name, es[dirs[k]].cid) {
      assert dirs[k] in dirs && WellNamed(dirs[k], es[dirs[k]]);
      assert dirs[k] == Front(dirs[k]) + [Last(dirs[k])] == q;
    }
  }
}
